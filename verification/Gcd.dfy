/** The base cycle of a sender: the greatest common divisor of its streams' cycle times. */
module Gcd {
  import opened Types

  predicate IsProduct(n: nat, q: nat, d: nat) {
    n == q * d
  }

  ghost predicate Divides(d: nat, n: nat) {
    exists q: nat :: IsProduct(n, q, d)
  }

  lemma NonNegativeFactor(x: int, d: nat)
    requires d > 0 && x * d >= 0
    ensures x >= 0
  {
  }

  lemma DividesCombine(d: nat, a: nat, b: nat, k: int)
    requires Divides(d, a) && Divides(d, b) && d > 0 && a + k * b >= 0
    ensures Divides(d, a + k * b)
  {
    var p: nat :| IsProduct(a, p, d);
    var q: nat :| IsProduct(b, q, d);
    assert a + k * b == (p + k * q) * d by {
      assert (p + k * q) * d == p * d + k * q * d;
      assert k * q * d == k * (q * d);
    }
    NonNegativeFactor(p + k * q, d);
    assert IsProduct(a + k * b, p + k * q, d);
  }

  lemma DividesPositive(d: nat, n: nat)
    requires Divides(d, n) && n > 0
    ensures 0 < d <= n
  {
    var q: nat :| IsProduct(n, q, d);
    assert q > 0;
  }

  lemma SameCommonDivisors(d: nat, a: nat, b: nat, k: nat, r: nat)
    requires b > 0 && a == r + k * b
    ensures Divides(d, a) && Divides(d, b) <==> Divides(d, b) && Divides(d, r)
  {
    if Divides(d, b) {
      DividesPositive(d, b);
      if Divides(d, a) {
        assert r == a + (0 - k) * b;
        DividesCombine(d, a, b, 0 - k);
      }
      if Divides(d, r) { DividesCombine(d, r, b, k); }
    }
  }

  /** The step of Euclid's algorithm keeps the common divisors. */
  lemma EuclidStep(d: nat, a: nat, b: nat)
    requires b > 0
    ensures Divides(d, a) && Divides(d, b) <==> Divides(d, b) && Divides(d, a % b)
  {
    SameCommonDivisors(d, a, b, a / b, a % b);
  }

  lemma DividesZero(d: nat)
    ensures Divides(d, 0)
  {
    assert IsProduct(0, 0, d);
  }

  lemma DividesSelf(d: nat)
    ensures Divides(d, d)
  {
    assert IsProduct(d, 1, d);
  }

  method GcdU32(x: u32, y: u32) returns (g: u32)
    ensures forall d: nat :: Divides(d, g) <==> Divides(d, x) && Divides(d, y)
  {
    var a, b := x, y;
    while b != 0
      invariant forall d: nat :: Divides(d, a) && Divides(d, b) <==> Divides(d, x) && Divides(d, y)
      decreases b
    {
      forall d: nat ensures Divides(d, a) && Divides(d, b) <==> Divides(d, b) && Divides(d, a % b) {
        EuclidStep(d, a, b);
      }
      a, b := b, a % b;
    }
    forall d: nat ensures Divides(d, 0) { DividesZero(d); }
    g := a;
  }

  ghost predicate DividesAll(d: nat, values: seq<u32>) {
    forall i :: 0 <= i < |values| ==> Divides(d, values[i])
  }

  /** The divisors of the result are exactly the common divisors of the values. */
  method GcdAll(values: seq<u32>) returns (g: u32)
    ensures forall d: nat :: Divides(d, g) <==> DividesAll(d, values)
  {
    if |values| == 0 {
      forall d: nat ensures Divides(d, 0) { DividesZero(d); }
      return 0;
    }
    g := values[0];
    for i := 1 to |values|
      invariant forall d: nat :: Divides(d, g) <==> DividesAll(d, values[..i])
    {
      g := GcdU32(g, values[i]);
      assert values[..i + 1] == values[..i] + [values[i]];
    }
    assert values[..|values|] == values;
  }

  ghost predicate HasPositive(cycleTimes: seq<u32>) {
    exists i :: 0 <= i < |cycleTimes| && cycleTimes[i] > 0
  }

  ghost predicate DividesPositives(d: nat, cycleTimes: seq<u32>) {
    forall i :: 0 <= i < |cycleTimes| && cycleTimes[i] > 0 ==> Divides(d, cycleTimes[i])
  }

  /**
   The base cycle: computed from the positive cycle times only, and one when there are
   none. Otherwise it is the greatest number dividing all of them.
   */
  method BaseCycle(cycleTimes: seq<u32>) returns (base: u32)
    ensures base >= 1
    ensures DividesPositives(base, cycleTimes)
    ensures !HasPositive(cycleTimes) ==> base == 1
    ensures forall d: nat :: HasPositive(cycleTimes) && DividesPositives(d, cycleTimes) ==>
            Divides(d, base) && d <= base
  {
    var positive: seq<u32> := [];
    for i := 0 to |cycleTimes|
      invariant forall j :: 0 <= j < |positive| ==> positive[j] > 0 && positive[j] in cycleTimes[..i]
      invariant forall j :: 0 <= j < i && cycleTimes[j] > 0 ==> cycleTimes[j] in positive
    {
      if cycleTimes[i] > 0 {
        positive := positive + [cycleTimes[i]];
      }
      assert cycleTimes[..i + 1] == cycleTimes[..i] + [cycleTimes[i]];
    }
    var g := GcdAll(positive);
    base := Max(g, 1);
    DividesSelf(g);
    if positive != [] {
      assert Divides(g, positive[0]);
      DividesPositive(g, positive[0]);
    } else {
      assert DividesAll(0, positive);
      var q: nat :| IsProduct(g, q, 0);
    }
    forall d: nat | HasPositive(cycleTimes) && DividesPositives(d, cycleTimes)
      ensures Divides(d, base) && d <= base
    {
      forall j | 0 <= j < |positive| ensures Divides(d, positive[j]) {
        var i :| 0 <= i < |cycleTimes| && cycleTimes[i] == positive[j];
      }
      assert DividesAll(d, positive);
      DividesPositive(d, base);
    }
    forall i | 0 <= i < |cycleTimes| && cycleTimes[i] > 0 ensures Divides(base, cycleTimes[i]) {
      var j :| 0 <= j < |positive| && positive[j] == cycleTimes[i];
      assert Divides(g, positive[j]);
    }
  }
}
