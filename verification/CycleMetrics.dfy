/** Minimum, maximum and average of observed cycle times. */
module CycleMetrics {
  import opened Types

  const U128_MAX := 0xFFFF_FFFF_FFFF_FFFF_FFFF_FFFF_FFFF_FFFF

  datatype Summary = Summary(minNs: Option<u64>, maxNs: Option<u64>, totalNs: nat, samples: u64)

  const EMPTY := Summary(None, None, 0, 0)

  /** One `record`, with the saturation of the 128-bit total and the 64-bit count. */
  function Record(s: Summary, x: u64): Summary {
    Summary(
      Some(if s.minNs.None? then x else Min(s.minNs.value, x)),
      Some(if s.maxNs.None? then x else Max(s.maxNs.value, x)),
      Min(s.totalNs + x, U128_MAX),
      SaturatingAdd64(s.samples, 1))
  }

  /** `values`: the average is truncated to 64 bits. */
  function Values(s: Summary): Option<(u64, u64, u64)> {
    if s.minNs.None? || s.maxNs.None? || s.samples == 0 then None
    else Some((s.minNs.value, s.maxNs.value, (s.totalNs / s.samples) % 0x1_0000_0000_0000_0000))
  }

  class CycleMetrics {
    var minNs: Option<u64>
    var maxNs: Option<u64>
    var totalNs: nat
    var samples: u64

    ghost function Value(): Summary
      reads this
    {
      Summary(minNs, maxNs, totalNs, samples)
    }

    constructor ()
      ensures Value() == EMPTY
    {
      minNs, maxNs, totalNs, samples := None, None, 0, 0;
    }

    method RecordCycle(x: u64)
      modifies this
      ensures Value() == Record(old(Value()), x)
    {
      minNs := Some(if minNs.None? then x else Min(minNs.value, x));
      maxNs := Some(if maxNs.None? then x else Max(maxNs.value, x));
      totalNs := Min(totalNs + x, U128_MAX);
      samples := SaturatingAdd64(samples, 1);
    }

    method GetValues() returns (r: Option<(u64, u64, u64)>)
      ensures r == Values(Value())
    {
      if minNs.None? || maxNs.None? || samples == 0 {
        r := None;
      } else {
        r := Some((minNs.value, maxNs.value, (totalNs / samples) % 0x1_0000_0000_0000_0000));
      }
    }
  }

  function After(xs: seq<u64>): Summary {
    if xs == [] then EMPTY else Record(After(xs[..|xs| - 1]), xs[|xs| - 1])
  }

  function Sum(xs: seq<u64>): nat {
    if xs == [] then 0 else Sum(xs[..|xs| - 1]) + xs[|xs| - 1]
  }

  ghost predicate IsMinimum(m: u64, xs: seq<u64>) {
    m in xs && forall i :: 0 <= i < |xs| ==> m <= xs[i]
  }

  ghost predicate IsMaximum(m: u64, xs: seq<u64>) {
    m in xs && forall i :: 0 <= i < |xs| ==> xs[i] <= m
  }

  lemma {:induction false} SumBounds(xs: seq<u64>, lo: u64, hi: u64)
    requires forall i :: 0 <= i < |xs| ==> lo <= xs[i] <= hi
    ensures lo * |xs| <= Sum(xs) <= hi * |xs|
  {
    if xs != [] {
      var front := xs[..|xs| - 1];
      SumBounds(front, lo, hi);
      assert lo * |xs| == lo * |front| + lo && hi * |xs| == hi * |front| + hi;
    }
  }

  /** Up to 2^64 - 1 records nothing saturates and every field is exact. */
  lemma {:induction false} Exact(xs: seq<u64>)
    requires 1 <= |xs| <= U64_MAX
    ensures var s := After(xs);
            && s.minNs.Some? && IsMinimum(s.minNs.value, xs)
            && s.maxNs.Some? && IsMaximum(s.maxNs.value, xs)
            && s.totalNs == Sum(xs)
            && s.samples == |xs|
  {
    var front, x := xs[..|xs| - 1], xs[|xs| - 1];
    assert xs == front + [x];
    SumBounds(xs, 0, U64_MAX);
    assert U64_MAX * |xs| <= U64_MAX * U64_MAX <= U128_MAX;
    if |xs| > 1 { Exact(front); }
  }

  lemma QuotientBetween(total: nat, n: nat, lo: nat, hi: nat)
    requires n > 0 && lo * n <= total <= hi * n
    ensures lo <= total / n <= hi
  {
    assert total == n * (total / n) + total % n;
    CancelFactor(lo, total / n + 1, n);
    CancelFactor(total / n, hi + 1, n);
  }

  lemma CancelFactor(a: nat, b: nat, n: nat)
    requires n > 0 && a * n < b * n
    ensures a < b
  {
  }

  /** After up to 2^64 - 1 records: the exact extremes and the floored mean, which lies between them. */
  lemma {:induction false} ValuesExact(xs: seq<u64>)
    requires 1 <= |xs| <= U64_MAX
    ensures Values(After(xs)).Some?
    ensures var (lo, hi, mean) := Values(After(xs)).value;
            IsMinimum(lo, xs) && IsMaximum(hi, xs) && mean == Sum(xs) / |xs| && lo <= mean <= hi
  {
    Exact(xs);
    var s := After(xs);
    SumBounds(xs, s.minNs.value, s.maxNs.value);
    QuotientBetween(Sum(xs), |xs|, s.minNs.value, s.maxNs.value);
  }
}
