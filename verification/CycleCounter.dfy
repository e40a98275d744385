/**
 The cycle counter: stamped by the sender in ticks of 31.25 microseconds modulo 65535, checked by
 the receiver modulo 65536 against a tolerance of one and a half cycles.
 */
module CycleCounter {
  import opened Types
  import opened Arithmetic

  const CYCLE_COUNTER_TICK_NS := 31_250

  /** Ticks since the epoch at a clock value in nanoseconds; the clock is first cut to microseconds. */
  function Ticks(nanos: nat): nat {
    nanos / 1000 * 4 / 125
  }

  function Stamp(ticks: nat): u16 {
    ticks % 0xFFFF
  }

  function TicksPerCycle(cycleTimeNano: u32): (k: nat)
    ensures 1 <= k <= U32_MAX
  {
    Max(DivCeil(Max(cycleTimeNano, 1), CYCLE_COUNTER_TICK_NS), 1)
  }

  /** One and a half cycles in ticks, rounded up. */
  function ToleranceTicks(cycleTimeNano: u32): (t: nat)
    ensures 1 <= t <= U32_MAX
  {
    Max(DivCeil(3 * Max(cycleTimeNano, 1), 2 * CYCLE_COUNTER_TICK_NS), 1)
  }

  /** A nominal cycle is the least whole number of ticks that covers it, the tolerance that covers one and a half. */
  lemma LeastTicks(c: u32)
    requires c > 0
    ensures var k := TicksPerCycle(c); 31_250 * k - 31_250 < c <= 31_250 * k
    ensures var t := ToleranceTicks(c); 62_500 * t - 62_500 < 3 * c <= 62_500 * t
    ensures TicksPerCycle(0) == 1 == ToleranceTicks(0)
  {
    Divided(c + 31_249, 31_250);
    Divided(3 * c + 62_499, 62_500);
  }

  function WrappingAdd16(a: u16, b: nat): u16 {
    (a + b) % 0x1_0000
  }

  function WrappingSub16(a: u16, b: u16): u16 {
    (a - b) % 0x1_0000
  }

  /** Compares a distance, seen forwards and backwards, with the tolerance. */
  function Judge(forward: u16, backward: u16, ticks: nat, tolerance: nat): Option<nat>
    requires ticks > 0
  {
    if Min(forward, backward) <= tolerance then None
    else if forward <= backward then Some(DivCeil(forward, ticks))
    else Some(1)
  }

  /** The receiver's check: `None` within tolerance, otherwise the number of cycles it reports as missed. */
  function MissedCycles(last: u16, received: u16, cycleTimeNano: u32): Option<nat> {
    var ticks := TicksPerCycle(cycleTimeNano);
    var expected := WrappingAdd16(last, ticks % 0x1_0000);
    Judge(WrappingSub16(received, expected), WrappingSub16(expected, received), ticks, ToleranceTicks(cycleTimeNano))
  }

  /** The forward distance alone decides. */
  function Forward(last: u16, received: u16, ticks: nat): u16 {
    WrappingSub16(received, WrappingAdd16(last, ticks % 0x1_0000))
  }

  function Opposite(forward: u16): u16 {
    if forward == 0 then 0 else 0x1_0000 - forward
  }

  lemma ForwardDecides(last: u16, received: u16, c: u32)
    ensures var f := Forward(last, received, TicksPerCycle(c));
            MissedCycles(last, received, c) == Judge(f, Opposite(f), TicksPerCycle(c), ToleranceTicks(c))
  {
    OppositeDistance(received, WrappingAdd16(last, TicksPerCycle(c) % 0x1_0000));
  }

  lemma OppositeDistance(a: u16, b: u16)
    ensures WrappingSub16(b, a) == Opposite(WrappingSub16(a, b))
  {
  }

  /** Number of times the stamp wraps between two tick counts. */
  function Wraps(t1: nat, t2: nat): int {
    t2 / 0xFFFF - t1 / 0xFFFF
  }

  lemma ModShift(x: int, a: int)
    ensures (x + 0x1_0000 * a) % 0x1_0000 == x % 0x1_0000
  {
  }

  /** Seen modulo 65536, every wrap of the sender adds one tick. */
  lemma StampDifference(t1: nat, t2: nat)
    ensures Stamp(t2) - Stamp(t1) == t2 - t1 + Wraps(t1, t2) - 0x1_0000 * Wraps(t1, t2)
  {
  }

  /** The forward distance the receiver computes. */
  lemma ForwardDistance(t1: nat, t2: nat, k: nat)
    ensures Forward(Stamp(t1), Stamp(t2), k) == (t2 - t1 + Wraps(t1, t2) - k) % 0x1_0000
  {
    var w := Wraps(t1, t2);
    StampDifference(t1, t2);
    var sum := Stamp(t1) + k % 0x1_0000;
    var a := sum / 0x1_0000 + k / 0x1_0000;
    assert WrappingAdd16(Stamp(t1), k % 0x1_0000) == Stamp(t1) + k - 0x1_0000 * a;
    ModShift(t2 - t1 + w - k, a - w);
  }

  lemma ModSmall(d: int)
    requires 0 - 0x1_0000 < d < 0x1_0000
    ensures d % 0x1_0000 == if d >= 0 then d else d + 0x1_0000
  {
  }

  /** A distance of `d` ticks, ahead or behind, is never flagged when the tolerance covers it. */
  lemma WithinTolerance(last: u16, received: u16, c: u32, d: int)
    requires Forward(last, received, TicksPerCycle(c)) == d % 0x1_0000
    requires 0 - ToleranceTicks(c) <= d <= ToleranceTicks(c) || ToleranceTicks(c) >= 0x8000
    ensures MissedCycles(last, received, c) == None
  {
    ForwardDecides(last, received, c);
    if ToleranceTicks(c) < 0x8000 { ModSmall(d); }
  }

  lemma WrapsAtMostOnce(t: nat, d: nat)
    requires d <= 0xFFFF
    ensures 0 <= Wraps(t, t + d) <= 1
  {
  }

  lemma ToleranceBelowTwoCycles(c: u32)
    requires c >= 250_000
    ensures TicksPerCycle(c) + 1 <= ToleranceTicks(c) < 2 * TicksPerCycle(c)
    ensures TicksPerCycle(c) >= 8
  {
  }

  lemma ShortCycle(c: u32)
    requires ToleranceTicks(c) < 0x8000
    ensures TicksPerCycle(c) <= 21_846
  {
  }

  lemma MonotoneBounds(x: nat, y: nat, q1: nat, q2: nat, t1: nat, t2: nat)
    requires x <= y
    requires 1000 * q1 <= x && y < 1000 * q2 + 1000
    requires 125 * t1 <= 4 * q1 && 4 * q2 < 125 * t2 + 125
    ensures t1 <= t2
  {
    assert q1 <= q2;
  }

  lemma TicksMonotone(nanos: nat, d: nat)
    ensures Ticks(nanos) <= Ticks(nanos + d)
  {
    var q1, q2 := nanos / 1000, (nanos + d) / 1000;
    Divided(nanos, 1000);
    Divided(nanos + d, 1000);
    Divided(q1 * 4, 125);
    Divided(q2 * 4, 125);
    MonotoneBounds(nanos, nanos + d, q1, q2, Ticks(nanos), Ticks(nanos + d));
  }

  lemma Divided(x: nat, d: nat)
    requires d > 0
    ensures d * (x / d) <= x < d * (x / d) + d
  {
  }

  /** The bounds of `TicksInOneCycle`, with every quotient replaced by its defining inequalities. */
  lemma TickBounds(nanos: nat, c: nat, q1: nat, q2: nat, t1: nat, t2: nat, k: nat)
    requires 1000 * q1 <= nanos < 1000 * q1 + 1000
    requires 1000 * q2 <= nanos + c < 1000 * q2 + 1000
    requires 125 * t1 <= 4 * q1 < 125 * t1 + 125
    requires 125 * t2 <= 4 * q2 < 125 * t2 + 125
    requires 31_250 * k - 31_250 < Max(c, 1) <= 31_250 * k
    ensures k - 2 <= t2 - t1 <= k + 1
    ensures c <= 20_833 ==> t2 - t1 <= 1
  {
  }

  /** Ticks that elapse in exactly one cycle: at most two fewer and at most one more than nominal. */
  lemma TicksInOneCycle(nanos: nat, c: u32)
    ensures var k := TicksPerCycle(c);
            k - 2 <= Ticks(nanos + c) - Ticks(nanos) <= k + 1
    ensures ToleranceTicks(c) == 1 ==> 0 <= Ticks(nanos + c) - Ticks(nanos) <= 1 && TicksPerCycle(c) == 1
  {
    var q1, q2 := nanos / 1000, (nanos + c) / 1000;
    Divided(nanos, 1000);
    Divided(nanos + c, 1000);
    Divided(q1 * 4, 125);
    Divided(q2 * 4, 125);
    Divided(Max(c, 1) + 31_249, 31_250);
    TickBounds(nanos, c, q1, q2, Ticks(nanos), Ticks(nanos + c), TicksPerCycle(c));
    TicksMonotone(nanos, c);
    if ToleranceTicks(c) == 1 { Divided(3 * Max(c, 1) + 62_499, 62_500); }
  }

  /**
   Two frames stamped exactly one cycle apart are never flagged, for every cycle time and
   every clock value: the tolerance absorbs the sender's modulus, the receiver's modulus and
   the truncation to microseconds.
   */
  lemma OneCycleApartNeverFlagged(nanos: nat, c: u32)
    ensures MissedCycles(Stamp(Ticks(nanos)), Stamp(Ticks(nanos + c)), c) == None
  {
    var t1, t2 := Ticks(nanos), Ticks(nanos + c);
    var k := TicksPerCycle(c);
    ForwardDistance(t1, t2, k);
    TicksInOneCycle(nanos, c);
    if ToleranceTicks(c) < 0x8000 {
      ShortCycle(c);
      TicksMonotone(nanos, c);
      WrapsAtMostOnce(t1, t2 - t1);
    }
    WithinTolerance(Stamp(t1), Stamp(t2), c, t2 - t1 + Wraps(t1, t2) - k);
  }

  /** The bounds over two cycles, with every quotient replaced by its defining inequalities. */
  lemma TwoCycleBounds(nanos: nat, c: nat, q1: nat, q2: nat, t1: nat, t2: nat, k: nat, tolerance: nat)
    requires c >= 250_000
    requires 1000 * q1 <= nanos < 1000 * q1 + 1000
    requires 1000 * q2 <= nanos + 2 * c < 1000 * q2 + 1000
    requires 125 * t1 <= 4 * q1 < 125 * t1 + 125
    requires 125 * t2 <= 4 * q2 < 125 * t2 + 125
    requires 31_250 * k - 31_250 < c <= 31_250 * k
    requires 3 * c <= 62_500 * tolerance
    ensures 0 <= t2 - t1 <= 2 * k + 1
    ensures 0 - tolerance <= t2 - t1 - k <= tolerance - 1
  {
  }

  /** Two frames stamped exactly two cycles apart, as when the one between was lost, are never flagged. */
  lemma TwoCyclesApartNeverFlagged(nanos: nat, c: u32)
    requires c >= 250_000
    ensures MissedCycles(Stamp(Ticks(nanos)), Stamp(Ticks(nanos + 2 * c)), c) == None
  {
    var t1, t2 := Ticks(nanos), Ticks(nanos + 2 * c);
    var k := TicksPerCycle(c);
    var q1, q2 := nanos / 1000, (nanos + 2 * c) / 1000;
    Divided(nanos, 1000);
    Divided(nanos + 2 * c, 1000);
    Divided(q1 * 4, 125);
    Divided(q2 * 4, 125);
    Divided(c + 31_249, 31_250);
    Divided(3 * c + 62_499, 62_500);
    TwoCycleBounds(nanos, c, q1, q2, t1, t2, k, ToleranceTicks(c));
    ForwardDistance(t1, t2, k);
    if ToleranceTicks(c) < 0x8000 {
      ShortCycle(c);
      WrapsAtMostOnce(t1, t2 - t1);
    }
    WithinTolerance(Stamp(t1), Stamp(t2), c, t2 - t1 + Wraps(t1, t2) - k);
  }

  lemma MulBound(m: nat, k: nat)
    requires m >= 2
    ensures 2 * k <= m * k
  {
  }

  /** A nominal tick advance of one or two cycles is never flagged. */
  lemma OneLossNeverFlagged(t: nat, m: nat, c: u32)
    requires c >= 250_000 && m <= 1
    ensures MissedCycles(Stamp(t), Stamp(t + (m + 1) * TicksPerCycle(c)), c) == None
  {
    var k := TicksPerCycle(c);
    var t2 := t + (m + 1) * k;
    ForwardDistance(t, t2, k);
    if ToleranceTicks(c) < 0x8000 {
      ShortCycle(c);
      ToleranceBelowTwoCycles(c);
      assert (m + 1) * k == if m == 0 then k else 2 * k;
      WrapsAtMostOnce(t, (m + 1) * k);
    }
    WithinTolerance(Stamp(t), Stamp(t2), c, t2 - t + Wraps(t, t2) - k);
  }

  lemma LossQuotient(m: nat, k: nat, w: nat)
    requires k >= 2 && w <= 1
    ensures DivCeil(m * k + w, k) == m + w
  {
    var x := m * k + w + k - 1;
    if w == 0 {
      QuotientRemainder(x, k, m, k - 1);
    } else {
      assert x == (m + 1) * k + 0;
      QuotientRemainder(x, k, m + 1, 0);
    }
  }

  /** A forward distance beyond the tolerance but within half the range is flagged and divided by the cycle. */
  lemma FlaggedForward(last: u16, received: u16, c: u32, f: nat)
    requires Forward(last, received, TicksPerCycle(c)) == f
    requires ToleranceTicks(c) < f <= 0x8000
    ensures MissedCycles(last, received, c) == Some(DivCeil(f, TicksPerCycle(c)))
  {
    ForwardDecides(last, received, c);
  }

  /**
   At a nominal tick advance of three or more cycles, with a gap below half the counter range,
   the reported loss is exact, except that it is one too high exactly when the sender's counter
   wrapped in between.
   */
  lemma ReportedLoss(t: nat, m: nat, c: u32)
    requires c >= 250_000 && m >= 2 && m * TicksPerCycle(c) + 1 <= 0x8000
    ensures var t2 := t + (m + 1) * TicksPerCycle(c);
            && 0 <= Wraps(t, t2) <= 1
            && MissedCycles(Stamp(t), Stamp(t2), c) == Some(m + Wraps(t, t2))
  {
    var k := TicksPerCycle(c);
    var t2 := t + (m + 1) * k;
    MulBound(m, k);
    ToleranceBelowTwoCycles(c);
    var gap := m * k;
    assert (m + 1) * k == gap + k;
    WrapsAtMostOnce(t, gap + k);
    var w := Wraps(t, t2);
    ForwardDistance(t, t2, k);
    ModSmall(gap + w);
    FlaggedForward(Stamp(t), Stamp(t2), c, gap + w);
    LossQuotient(m, k, w);
  }

  lemma FlaggedBackward(last: u16, received: u16, c: u32, f: nat)
    requires Forward(last, received, TicksPerCycle(c)) == f
    requires 0x8000 < f < 0x1_0000 - ToleranceTicks(c)
    requires ToleranceTicks(c) < 0x8000
    ensures MissedCycles(last, received, c) == Some(1)
  {
    ForwardDecides(last, received, c);
  }

  /**
   At a nominal tick advance between half the counter range and a full turn the receiver takes
   the frame for one that is behind and reports a single missed cycle, however many were lost.
   */
  lemma LongGapReportsOne(t: nat, m: nat, c: u32)
    requires c >= 250_000 && 0x8000 < m * TicksPerCycle(c)
    requires m * TicksPerCycle(c) + 1 + ToleranceTicks(c) < 0x1_0000
    ensures MissedCycles(Stamp(t), Stamp(t + (m + 1) * TicksPerCycle(c)), c) == Some(1)
  {
    var k := TicksPerCycle(c);
    var gap := m * k;
    var t2 := t + (m + 1) * k;
    assert (m + 1) * k == gap + k;
    ToleranceBelowTwoCycles(c);
    WrapsAtMostOnce(t, gap + k);
    ForwardDistance(t, t2, k);
    ModSmall(gap + Wraps(t, t2));
    FlaggedBackward(Stamp(t), Stamp(t2), c, gap + Wraps(t, t2));
  }

  /** The distance seen between any two stamps: what is beyond one cycle, plus the wraps, modulo the range. */
  function Gap(t1: nat, t2: nat, c: u32): u16 {
    (t2 - t1 + Wraps(t1, t2) - TicksPerCycle(c)) % 0x1_0000
  }

  /** What is reported for any two tick counts and every cycle time. */
  lemma GapReport(t1: nat, t2: nat, c: u32)
    ensures var g := Gap(t1, t2, c);
            MissedCycles(Stamp(t1), Stamp(t2), c) == Judge(g, Opposite(g), TicksPerCycle(c), ToleranceTicks(c))
  {
    ForwardDistance(t1, t2, TicksPerCycle(c));
    ForwardDecides(Stamp(t1), Stamp(t2), c);
  }

  /** Nothing is flagged exactly when the distance comes round to within the tolerance. */
  lemma UnflaggedIff(t1: nat, t2: nat, c: u32)
    ensures MissedCycles(Stamp(t1), Stamp(t2), c) == None <==>
            Gap(t1, t2, c) <= ToleranceTicks(c) || 0x1_0000 - Gap(t1, t2, c) <= ToleranceTicks(c)
  {
    GapReport(t1, t2, c);
  }

  lemma WrapsWithin(t: nat, d: nat, w: nat)
    requires d <= 0xFFFF * w
    ensures 0 <= Wraps(t, t + d) <= w
  {
    Divided(t, 0xFFFF);
    Divided(t + d, 0xFFFF);
  }

  /** A rounded quotient of `m` means a distance in the `m`th cycle. */
  lemma QuotientMeansDistance(g: nat, m: nat, k: nat)
    requires k >= 1
    ensures DivCeil(g, k) == m <==> m * k - k < g <= m * k
  {
    Divided(g + k - 1, k);
    if m * k - k < g <= m * k {
      QuotientRemainder(g + k - 1, k, m, g + k - 1 - m * k);
    }
  }

  /** Within half the range the judgement is the rounded distance, beyond it a single cycle. */
  lemma JudgeAhead(g: u16, k: nat, tolerance: nat, m: nat)
    requires k > 0 && m >= 2 && tolerance < 0x8000
    ensures Judge(g, Opposite(g), k, tolerance) == Some(m) <==> tolerance < g <= 0x8000 && DivCeil(g, k) == m
  {
  }

  lemma WideTolerance(g: u16, k: nat, tolerance: nat)
    requires k > 0 && tolerance >= 0x8000
    ensures Judge(g, Opposite(g), k, tolerance) == None
  {
  }

  /** The exact condition on the distance `d`, not yet taken modulo the range. */
  predicate ShowsLoss(d: int, m: nat, c: u32) {
    ToleranceTicks(c) < d <= 0x8000 && m * TicksPerCycle(c) - TicksPerCycle(c) < d <= m * TicksPerCycle(c)
  }

  /** The judgement of a distance that shows `m`, once one of a turn or more is ruled out. */
  lemma ReductionShows(d: nat, m: nat, c: u32)
    requires m >= 2
    requires m * TicksPerCycle(c) - TicksPerCycle(c) < 0x8000 && ToleranceTicks(c) < 0x8000 ==> d < 0x1_0000
    ensures var g := d % 0x1_0000;
            Judge(g, Opposite(g), TicksPerCycle(c), ToleranceTicks(c)) == Some(m) <==> ShowsLoss(d, m, c)
  {
    var k, tolerance, g := TicksPerCycle(c), ToleranceTicks(c), d % 0x1_0000;
    if tolerance >= 0x8000 {
      WideTolerance(g, k, tolerance);
    } else {
      JudgeAhead(g, k, tolerance, m);
      QuotientMeansDistance(g, m, k);
    }
  }

  /** An advance of up to `m + 1` nominal cycles and a tick stays below a turn when `m - 1` cycles are half of one. */
  lemma BelowTurn(t1: nat, t2: nat, m: nat, k: nat)
    requires t1 <= t2 <= t1 + m * k + k + 1 && k <= 21_846 && m * k - k < 0x8000
    ensures t2 - t1 + Wraps(t1, t2) - k < 0x1_0000
  {
    WrapsWithin(t1, t2 - t1, 2);
  }

  lemma WrapsForward(t: nat, d: nat)
    ensures Wraps(t, t + d) >= 0
  {
    Divided(t, 0xFFFF);
    Divided(t + d, 0xFFFF);
  }

  /** Any advance of at least one and at most `m + 1` nominal cycles and a tick. */
  lemma AdvanceShows(t1: nat, t2: nat, m: nat, c: u32)
    requires m >= 2 && t1 + TicksPerCycle(c) <= t2 <= t1 + m * TicksPerCycle(c) + TicksPerCycle(c) + 1
    ensures MissedCycles(Stamp(t1), Stamp(t2), c) == Some(m) <==>
            ShowsLoss(t2 - t1 + Wraps(t1, t2) - TicksPerCycle(c), m, c)
  {
    var k := TicksPerCycle(c);
    WrapsForward(t1, t2 - t1);
    if m * k - k < 0x8000 && ToleranceTicks(c) < 0x8000 {
      ShortCycle(c);
      BelowTurn(t1, t2, m, k);
    }
    ReductionShows(t2 - t1 + Wraps(t1, t2) - k, m, c);
    GapReport(t1, t2, c);
  }

  /** The ticks that elapse in `span` nanoseconds, with every quotient replaced by its defining inequalities. */
  lemma SpanBounds(nanos: nat, span: nat, q1: nat, q2: nat, t1: nat, t2: nat)
    requires 1000 * q1 <= nanos < 1000 * q1 + 1000
    requires 1000 * q2 <= nanos + span < 1000 * q2 + 1000
    requires 125 * t1 <= 4 * q1 < 125 * t1 + 125
    requires 125 * t2 <= 4 * q2 < 125 * t2 + 125
    ensures span - 32_000 < 31_250 * (t2 - t1) < span + 32_000
  {
  }

  lemma TicksInSpan(nanos: nat, span: nat)
    ensures span - 32_000 < 31_250 * (Ticks(nanos + span) - Ticks(nanos)) < span + 32_000
  {
    var q1, q2 := nanos / 1000, (nanos + span) / 1000;
    Divided(nanos, 1000);
    Divided(nanos + span, 1000);
    Divided(q1 * 4, 125);
    Divided(q2 * 4, 125);
    SpanBounds(nanos, span, q1, q2, Ticks(nanos), Ticks(nanos + span));
  }

  /** Products over `m + 1` cycles, from the bounds of one. */
  lemma CyclesOfSpan(m: nat, c: nat, k: nat)
    requires c >= 250_000 && m >= 2 && 31_250 * k - 31_250 < c <= 31_250 * k
    ensures (m + 1) * c <= 31_250 * (m * k + k)
    ensures (m + 1) * c >= 31_250 * k + 250_000
  {
    assert (m + 1) * c <= (m + 1) * (31_250 * k) == 31_250 * (m * k + k);
    assert (m + 1) * c >= 3 * c;
  }

  /** By the clock, `m + 1` cycles advance the ticks by at least one and at most `m + 1` nominal cycles and a tick. */
  lemma ClockAdvance(nanos: nat, m: nat, c: u32)
    requires c >= 250_000 && m >= 2
    ensures var k, t1, t2 := TicksPerCycle(c), Ticks(nanos), Ticks(nanos + (m + 1) * c);
            t1 + k <= t2 <= t1 + m * k + k + 1
  {
    Divided(c + 31_249, 31_250);
    CyclesOfSpan(m, c, TicksPerCycle(c));
    TicksInSpan(nanos, (m + 1) * c);
  }

  /**
   By the clock, when `m >= 2` frames were lost between two that were sent in time: the report
   is exact if and only if the tick distance beyond one cycle, with the sender's wraps, is
   above the tolerance, within half the counter range and in the `m`th nominal cycle.
   */
  lemma ReportExactIff(nanos: nat, m: nat, c: u32)
    requires c >= 250_000 && m >= 2
    ensures var t1, t2 := Ticks(nanos), Ticks(nanos + (m + 1) * c);
            MissedCycles(Stamp(t1), Stamp(t2), c) == Some(m) <==>
            ShowsLoss(t2 - t1 + Wraps(t1, t2) - TicksPerCycle(c), m, c)
  {
    ClockAdvance(nanos, m, c);
    AdvanceShows(Ticks(nanos), Ticks(nanos + (m + 1) * c), m, c);
  }

  /** The same for a nominal tick advance of `m + 1` cycles, where the condition is simpler. */
  lemma NominalExactIff(t: nat, m: nat, c: u32)
    requires c >= 250_000 && m >= 2
    ensures MissedCycles(Stamp(t), Stamp(t + (m + 1) * TicksPerCycle(c)), c) == Some(m) <==>
            m * TicksPerCycle(c) <= 0x8000 && Wraps(t, t + (m + 1) * TicksPerCycle(c)) == 0
  {
    var k := TicksPerCycle(c);
    assert (m + 1) * k == m * k + k;
    AdvanceShows(t, t + m * k + k, m, c);
    ToleranceBelowTwoCycles(c);
    MulBound(m, k);
    WrapsForward(t, m * k + k);
  }

  /** A whole number of 125 microseconds is a whole number of ticks, at every clock value. */
  lemma WholeTicks(nanos: nat, j: nat)
    ensures Ticks(nanos + 125_000 * j) == Ticks(nanos) + 4 * j
  {
    assert (nanos + 125_000 * j) / 1000 == nanos / 1000 + 125 * j;
    var x := nanos / 1000 * 4;
    assert (x + 500 * j) / 125 == x / 125 + 4 * j;
  }

  /** For such cycle times the clock advances nominally, so the simpler condition holds by the clock. */
  lemma WholeCycleExactIff(nanos: nat, m: nat, j: nat, c: u32)
    requires c == 125_000 * j && j >= 2 && m >= 2
    ensures var t1, t2 := Ticks(nanos), Ticks(nanos + (m + 1) * c);
            && t2 == t1 + (m + 1) * TicksPerCycle(c)
            && (MissedCycles(Stamp(t1), Stamp(t2), c) == Some(m) <==>
                  m * TicksPerCycle(c) <= 0x8000 && Wraps(t1, t2) == 0)
  {
    assert TicksPerCycle(c) == 4 * j;
    assert (m + 1) * c == 125_000 * ((m + 1) * j);
    WholeTicks(nanos, (m + 1) * j);
    assert 4 * ((m + 1) * j) == (m + 1) * (4 * j);
    NominalExactIff(Ticks(nanos), m, c);
  }

  /** A distance above the tolerance and within half the range is reported as its rounded number of cycles. */
  lemma ReportedDistance(t1: nat, t2: nat, c: u32)
    requires ToleranceTicks(c) < Gap(t1, t2, c) <= 0x8000
    ensures MissedCycles(Stamp(t1), Stamp(t2), c) == Some(DivCeil(Gap(t1, t2, c), TicksPerCycle(c)))
  {
    GapReport(t1, t2, c);
  }

  lemma UndercountTicks(nanos: nat, c: u32)
    requires nanos == 0 && c == 260_000
    ensures Ticks(nanos) == 0 && Ticks(nanos + (100 + 1) * c) == 840
    ensures TicksPerCycle(c) == 9 && ToleranceTicks(c) == 13
  {
  }

  lemma UndercountGap(t1: nat, t2: nat, c: u32)
    requires t1 == 0 && t2 == 840 && TicksPerCycle(c) == 9
    ensures Gap(t1, t2, c) == 831 && DivCeil(831, TicksPerCycle(c)) == 93
  {
  }

  /**
   Other cycle times are under-counted, because a nominal cycle is rounded up to whole ticks:
   100 frames lost at 260 microseconds are reported as 93.
   */
  lemma UndercountExample(nanos: nat, c: u32)
    requires nanos == 0 && c == 260_000
    ensures MissedCycles(Stamp(Ticks(nanos)), Stamp(Ticks(nanos + (100 + 1) * c)), c) == Some(93)
  {
    UndercountTicks(nanos, c);
    var t1, t2 := Ticks(nanos), Ticks(nanos + (100 + 1) * c);
    UndercountGap(t1, t2, c);
    ReportedDistance(t1, t2, c);
  }

  lemma FullTurnGap(t: nat, c: u32, m: nat)
    requires c == 250_000 && m == 8192
    ensures Gap(t, t + (m + 1) * TicksPerCycle(c), c) <= 2 < ToleranceTicks(c)
  {
    assert TicksPerCycle(c) == 8;
    assert (m + 1) * TicksPerCycle(c) == 65_544;
    WrapsWithin(t, 65_544, 2);
  }

  /** Losing 8192 frames in a row at the shortest cycle time, a full turn of the counter, goes unnoticed. */
  lemma FullTurnExample(t: nat, c: u32, m: nat)
    requires c == 250_000 && m == 8192
    ensures MissedCycles(Stamp(t), Stamp(t + (m + 1) * TicksPerCycle(c)), c) == None
  {
    FullTurnGap(t, c, m);
    UnflaggedIff(t, t + (m + 1) * TicksPerCycle(c), c);
  }
}
