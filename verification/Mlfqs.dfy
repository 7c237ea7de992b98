/** The multi-level feedback queue's numbers: load_avg, recent_cpu and the
    priorities computed from them (src/threads/thread.c, with the 17.14
    fixed-point macros of src/threads/fixed-point.h). */
module Mlfqs {
  import opened Arithmetic

  // ---------------------- fixed-point macros; one is `1 << 14`, or 16384

  /** C's truncating division, by a positive number. */
  function Div(x: int, d: int): (q: int)
    requires d > 0
    ensures 0 <= x ==> 0 <= q && q * d <= x
    ensures x <= 0 ==> q <= 0 && x <= q * d
  {
    if x >= 0 then x / d else -((-x) / d)
  }

  function IntToFp(n: int): int { n * 16384 }
  function FpToIntTrunc(x: int): int { Div(x, 16384) }
  function FpAddInt(x: int, n: int): int { x + n * 16384 }
  function FpMulFp(x: int, y: int): int { Div(x * y, 16384) }
  function FpDivFp(x: int, y: int): int
    requires y > 0
  {
    Div(x * 16384, y)
  }

  /** The macros divide the way C does. */
  lemma DivIsTrunc(x: int, d: int)
    requires d > 0
    ensures Div(x, d) == TruncDiv(x, d)
  {
  }

  // ------------------------------------------------- once-a-second updates

  /** update_load_avg with `co` threads ready or running. */
  function NextLoad(load: int, co: int): int {
    FpMulFp(Div(IntToFp(59), 60), load) + Div(IntToFp(1), 60) * co
  }

  /** The decay factor in thread_update_recent_cpu. */
  function Decay(load: int): int
    requires 0 <= load
  {
    FpDivFp(load * 2, FpAddInt(load * 2, 1))
  }

  /** thread_update_recent_cpu */
  function NextRecent(load: int, recent: int, nice: int): int
    requires 0 <= load
  {
    FpAddInt(FpMulFp(Decay(load), recent), nice)
  }

  /** thread_update_priority_with_nice */
  function NextPriority(recent: int, nice: int): (p: int)
    ensures 0 <= p <= 63
  {
    var p := 63 - FpToIntTrunc(Div(recent, 4)) - nice * 2;
    var q := if p > 63 then 63 else p;
    if q < 0 then 0 else q
  }

  /** The load average never leaves `0 .. n`, as a number of threads. */
  lemma LoadBounded(load: int, co: int, n: nat)
    requires 0 <= load <= n * 16384 && 0 <= co <= n
    ensures 0 <= NextLoad(load, co) <= n * 16384
  {
    assert Div(IntToFp(59), 60) == 16110 && Div(IntToFp(1), 60) == 273;
    var q := Div(16110 * load, 16384);
    assert q * 16384 <= 16110 * load;
  }

  /** With load at most `n` the decay factor is at most `2n / (2n+1)`. */
  lemma DecayBounded(load: int, n: nat)
    requires 0 <= load <= n * 16384
    ensures 0 <= Decay(load) && Decay(load) * (2 * n + 1) <= 2 * n * 16384
  {
    var a := load * 2;
    var b := Decay(load);
    assert b * (a + 16384) <= a * 16384;
    assert b * (a + 16384) == b * a + b * 16384;
    assert b * 16384 <= a * (16384 - b) by {
      assert a * (16384 - b) == a * 16384 - b * a;
    }
    DecayBelowOne(a, b);
    MulMono(a, 2 * n * 16384, 16384 - b);
    assert (2 * n * 16384) * (16384 - b) == (2 * n * (16384 - b)) * 16384;
    assert b <= 2 * n * (16384 - b);
    assert b * (2 * n + 1) == b * (2 * n) + b;
    assert 2 * n * (16384 - b) == 2 * n * 16384 - b * (2 * n);
  }

  lemma DecayBelowOne(a: int, b: int)
    requires 0 <= a && 0 <= b && b * (a + 16384) <= a * 16384
    ensures b <= 16384
  {
    MulMono(a, a + 16384, 16384);
    assert (a + 16384) * 16384 == 16384 * (a + 16384);
    if b > 16384 {
      MulMono(16385, b, a + 16384);
    }
  }

  /** Bounds on recent_cpu that each second's update restores, when at most
      100 ticks were charged since the last one. */
  lemma RecentBounded(load: int, recent: int, charged: nat, nice: int, n: nat)
    requires 0 <= load <= n * 16384
    requires -(40 * n + 20) * 16384 <= recent <= (240 * n + 20) * 16384
    requires charged <= 100 && -20 <= nice <= 20
    ensures -(40 * n + 20) * 16384 <= NextRecent(load, recent + charged * 16384, nice) <= (240 * n + 20) * 16384
  {
    var b, r := Decay(load), recent + charged * 16384;
    DecayBounded(load, n);
    var q := FpMulFp(b, r);
    if r >= 0 {
      ScaledAbove(b, r, n, q);
    } else {
      ScaledBelow(b, r, n, q);
    }
  }

  lemma ScaledAbove(b: int, r: int, n: nat, q: int)
    requires 0 <= b && b * (2 * n + 1) <= 2 * n * 16384
    requires 0 <= r <= (120 * (2 * n + 1)) * 16384
    requires q == Div(b * r, 16384)
    ensures 0 <= q <= 240 * n * 16384
  {
    MulMono(r, (120 * (2 * n + 1)) * 16384, b);
    assert b * r == r * b;
    assert (120 * (2 * n + 1)) * 16384 * b == (120 * 16384) * (b * (2 * n + 1));
  }

  lemma ScaledBelow(b: int, r: int, n: nat, q: int)
    requires 0 <= b && b * (2 * n + 1) <= 2 * n * 16384
    requires -(20 * (2 * n + 1)) * 16384 <= r < 0
    requires q == Div(b * r, 16384)
    ensures -(40 * n * 16384) <= q <= 0
  {
    MulMono(-(20 * (2 * n + 1)) * 16384, r, b);
    assert b * r == r * b;
    assert -(20 * (2 * n + 1)) * 16384 * b == -(20 * 16384) * (b * (2 * n + 1));
    NegMul(b, -r);
    assert b * r <= 0;
  }

  // -------------------------------------------------------------- runs

  /** One second of a thread's life: the ticks charged to it, the number of
      threads ready or running when the load is sampled, and its nice value. */
  datatype Second = Second(charged: nat, co: nat, nice: int)

  datatype Averages = Averages(load: int, recent: int)

  ghost predicate Legal(s: Second, n: nat) {
    s.charged <= 100 && s.co <= n && -20 <= s.nice <= 20
  }

  ghost predicate InBounds(a: Averages, n: nat) {
    0 <= a.load <= n * 16384 && -(40 * n + 20) * 16384 <= a.recent <= (240 * n + 20) * 16384
  }

  /** The per-second part of timer_interrupt. */
  function NextAverages(a: Averages, s: Second): Averages
    requires 0 <= NextLoad(a.load, s.co)
  {
    var load := NextLoad(a.load, s.co);
    Averages(load, NextRecent(load, a.recent + s.charged * 16384, s.nice))
  }

  /** A run from boot, one entry per second. */
  ghost predicate IsRun(run: seq<Averages>, secs: seq<Second>) {
    && |run| == |secs| + 1 && run[0] == Averages(0, 0)
    && forall i :: 0 <= i < |secs| ==>
         0 <= NextLoad(run[i].load, secs[i].co) ==> run[i + 1] == NextAverages(run[i], secs[i])
  }

  /** If never more than `n` threads are runnable, load_avg and recent_cpu
      stay within fixed bounds forever. */
  lemma {:induction false} RunInBounds(run: seq<Averages>, secs: seq<Second>, n: nat, i: nat)
    requires IsRun(run, secs) && i < |run|
    requires forall s :: s in secs ==> Legal(s, n)
    ensures InBounds(run[i], n)
  {
    if i > 0 {
      RunInBounds(run, secs, n, i - 1);
      var a, s := run[i - 1], secs[i - 1];
      assert s in secs;
      LoadBounded(a.load, s.co, n);
      RecentBounded(NextLoad(a.load, s.co), a.recent, s.charged, s.nice, n);
      assert run[i - 1 + 1] == NextAverages(a, s);
    }
  }

  ghost predicate FitsI32(x: int) { -0x8000_0000 <= x < 0x8000_0000 }
  ghost predicate FitsI64(x: int) { -0x8000_0000_0000_0000 <= x < 0x8000_0000_0000_0000 }

  /** Up to 545 runnable threads the C code's `int` and `int64_t` hold every
      intermediate value, so the integer model above is exact. */
  lemma UpdatesFit(a: Averages, s: Second, n: nat)
    requires n <= 545 && InBounds(a, n) && Legal(s, n)
    ensures FitsI32(a.recent + s.charged * 16384)
    ensures FitsI64(16110 * a.load) && FitsI32(273 * s.co) && FitsI32(NextLoad(a.load, s.co))
    ensures var load := NextLoad(a.load, s.co);
      && 0 <= load && FitsI32(load * 2) && FitsI32(FpAddInt(load * 2, 1)) && FitsI64(load * 2 * 16384)
      && FitsI64(Decay(load) * (a.recent + s.charged * 16384))
      && FitsI32(NextRecent(load, a.recent + s.charged * 16384, s.nice))
  {
    hide NextRecent, Decay, NextLoad;
    LoadBounded(a.load, s.co, n);
    var load := NextLoad(a.load, s.co);
    RecentBounded(load, a.recent, s.charged, s.nice, n);
    DecayBounded(load, n);
    DecayAtMostOne(Decay(load), n);
    ProductFits(Decay(load), a.recent + s.charged * 16384);
  }

  lemma DecayAtMostOne(b: int, n: nat)
    requires 0 <= b && b * (2 * n + 1) <= 2 * n * 16384
    ensures b <= 16384
  {
    assert 16384 * (2 * n + 1) == 2 * n * 16384 + 16384;
    MulCancel(b, 16384, 2 * n + 1);
  }

  lemma ProductFits(b: int, r: int)
    requires 0 <= b <= 16384 && FitsI32(r)
    ensures FitsI64(b * r)
  {
    var m := if r >= 0 then r else -r;
    MulMono(b, 16384, m);
    MulMono(0, b, m);
    NegMul(b, m);
  }

  /** The load average against the formula it stands for, 59/60 of the old
      value and 1/60 of the threads counted: never above it, and below it by
      no more than the rounding of the two constants and of one product. */
  lemma LoadApproximates(load: int, co: int)
    requires 0 <= load && 0 <= co
    ensures var gap := 59 * load + 16384 * co - 60 * NextLoad(load, co);
      0 <= gap && 16384 * gap <= 16384 * (60 + 4 * co) + 56 * load
  {
    var q := Div(16110 * load, 16384);
    assert 16384 * q <= 16110 * load < 16384 * q + 16384;
  }

  /** The two truncations of a priority are one: recent_cpu counts for a
      quarter, rounded toward zero once, and niceness for twice. */
  lemma PriorityFormula(recent: int, nice: int)
    ensures var p := 63 - TruncDiv(recent, 65536) - 2 * nice;
      NextPriority(recent, nice) == if p > 63 then 63 else if p < 0 then 0 else p
  {
    DivIsTrunc(recent, 65536);
    TruncTwice(recent);
  }

  lemma TruncTwice(x: int)
    ensures Div(Div(x, 4), 16384) == Div(x, 65536)
  {
    if x >= 0 {
      FloorTwice(x);
    } else {
      FloorTwice(-x);
    }
  }

  lemma FloorTwice(x: nat)
    ensures x / 4 / 16384 == x / 65536
  {
  }

  /** recent_cpu against its formula, recent * 2L / (2L + 1) + nice with L the
      load average: the error is at most one unit in the last place plus one
      for the decay factor's own rounding, scaled by recent_cpu. */
  lemma RecentApproximates(load: int, recent: int, nice: int)
    requires 0 <= load
    ensures var m := 2 * load + 16384;
      var scaled := NextRecent(load, recent, nice) - nice * 16384;
      16384 * Abs(m * scaled - 2 * load * recent) <= m * (16384 + Abs(recent))
  {
    var m, d := 2 * load + 16384, Decay(load);
    var n := NextRecent(load, recent, nice) - nice * 16384;
    assert n == Div(d * recent, 16384);
    assert Abs(16384 * n - d * recent) <= 16384;
    DecayClose(load);
    assert Abs(m * d - 2 * load * 16384) <= m;
    ErrorsAdd(m, n, d, recent, 2 * load);
  }

  lemma DecayClose(load: int)
    requires 0 <= load
    ensures var m := 2 * load + 16384; Abs(m * Decay(load) - 2 * load * 16384) <= m
  {
    var m, x := 2 * load + 16384, 2 * load * 16384;
    Bracket(x, m);
    assert Decay(load) == x / m;
    assert (x / m + 1) * m == (x / m) * m + m;
  }

  lemma ErrorsAdd(m: int, n: int, d: int, r: int, k: int)
    requires m > 0 && Abs(16384 * n - d * r) <= 16384 && Abs(m * d - k * 16384) <= m
    ensures 16384 * Abs(m * n - k * r) <= m * (16384 + Abs(r))
  {
    var a, b := 16384 * n - d * r, m * d - k * 16384;
    var s, t := m * a, b * r;
    assert -(m * 16384) <= s <= m * 16384 by { ScaledError(m, a, 16384); }
    assert -(m * Abs(r)) <= t <= m * Abs(r) by { SignedError(b, r, m); }
    assert s + t == 16384 * (m * n - k * r) by { ErrorIdentity(m, n, d, r, k); }
    assert m * (16384 + Abs(r)) == m * 16384 + m * Abs(r) by { Distribute(m, 16384, Abs(r)); }
  }

  lemma Distribute(m: int, x: int, y: int)
    ensures m * (x + y) == m * x + m * y
  {
  }

  lemma SwapFactors(x: int, y: int, z: int)
    ensures (x * y) * z == x * (y * z)
  {
  }

  lemma ErrorIdentity(m: int, n: int, d: int, r: int, k: int)
    ensures m * (16384 * n - d * r) + (m * d - k * 16384) * r == 16384 * (m * n - k * r)
  {
    var x := d * r;
    Distribute(m, 16384 * n, -x);
    NegMul(x, m);
    SwapFactors(m, d, r);
    Distribute(r, m * d, -(k * 16384));
    NegMul(k * 16384, r);
    SwapFactors(16384, k, r);
    SwapFactors(16384, m, n);
  }

  lemma SignedError(b: int, r: int, m: int)
    requires Abs(b) <= m
    ensures -(m * Abs(r)) <= b * r <= m * Abs(r)
  {
    ScaledError(Abs(r), b, m);
    AbsProduct(b, r);
  }

  lemma ScaledError(m: nat, a: int, e: int)
    requires Abs(a) <= e
    ensures -(m * e) <= m * a <= m * e
  {
    MulMono(a, e, m);
    MulMono(-e, a, m);
    NegMul(e, m);
  }

  lemma AbsProduct(b: int, r: int)
    ensures b * r == Abs(r) * b || b * r == -(Abs(r) * b)
  {
    NegMul(b, -r);
  }
}
