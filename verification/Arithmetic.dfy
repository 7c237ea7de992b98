/** 64-bit division built from the x86 32-bit divide instruction
    (src/lib/arithmetic.c).

    Machine integers are subset types of `int`; every place where the C code
    narrows or wraps is written out with `%` or `WrapI32`/`WrapI64`. A divide
    error (#DE) is the outcome `Trap`, so "does not trap" is part of what the
    contracts state rather than an assumption. */
module Arithmetic {


  type u32 = x: int | 0 <= x < 0x1_0000_0000
  type u64 = x: int | 0 <= x < 0x1_0000_0000_0000_0000
  type i32 = x: int | -0x8000_0000 <= x < 0x8000_0000
  type i64 = x: int | -0x8000_0000_0000_0000 <= x < 0x8000_0000_0000_0000

  datatype Outcome<+T> = Trap | Value(value: T)

  /** Two's complement reading of the low 64 (32) bits of `x`. */
  function WrapI64(x: int): (r: i64)
    ensures (x - r) % 0x1_0000_0000_0000_0000 == 0
  {
    var m := x % 0x1_0000_0000_0000_0000;
    if m < 0x8000_0000_0000_0000 then m else m - 0x1_0000_0000_0000_0000
  }

  function WrapI32(x: int): (r: i32)
    ensures (x - r) % 0x1_0000_0000 == 0
  {
    var m := x % 0x1_0000_0000;
    if m < 0x8000_0000 then m else m - 0x1_0000_0000
  }

  function Pow2(n: nat): (p: nat)
    ensures p >= 1
  {
    if n == 0 then 1 else 2 * Pow2(n - 1)
  }

  lemma {:induction false} Pow2Add(a: nat, b: nat)
    ensures Pow2(a + b) == Pow2(a) * Pow2(b)
  {
    if a != 0 {
      Pow2Add(a - 1, b);
      assert Pow2(a + b) == 2 * Pow2(a - 1 + b);
      assert 2 * (Pow2(a - 1) * Pow2(b)) == (2 * Pow2(a - 1)) * Pow2(b);
    }
  }

  /** C division: the quotient rounded toward zero. */
  function TruncDiv(n: int, d: int): (q: int)
    requires d != 0
  {
    var q := Abs(n) / Abs(d);
    if (n < 0) == (d < 0) then q else -q
  }

  function Abs(x: int): nat { if x < 0 then -x else x }

  /** The C operators on unsigned operands. */
  function Quotient(n: nat, d: nat): nat
    requires 0 < d
  {
    n / d
  }

  function Remainder(n: nat, d: nat): nat
    requires 0 < d
  {
    n % d
  }

  /** The DIVL instruction: divides by a 32-bit divisor, and raises #DE when
      the divisor is zero or the quotient does not fit in 32 bits. */
  method Divl(n: u64, d: u32) returns (r: Outcome<u32>)
    ensures r == if d == 0 || Quotient(n, d) >= 0x1_0000_0000 then Trap else Value(Quotient(n, d))
  {
    r := if d == 0 || n / d >= 0x1_0000_0000 then Trap else Value(n / d);
  }

  // ---------------------------------------------------------------- nlz

  /** `x << n` without overflow. */
  ghost function Shl(x: nat, n: nat): nat {
    if n == 0 then x else 2 * Shl(x, n - 1)
  }

  lemma {:induction false} ShlIsScale(x: nat, n: nat)
    ensures Shl(x, n) == x * Pow2(n)
  {
    if n != 0 {
      ShlIsScale(x, n - 1);
      assert 2 * (x * Pow2(n - 1)) == x * (2 * Pow2(n - 1));
    }
  }

  lemma {:induction false} ShlAdd(x: nat, n: nat, k: nat)
    ensures Shl(x, n + k) == Shl(Shl(x, n), k)
  {
    if k != 0 {
      ShlAdd(x, n, k - 1);
    }
  }

  lemma Shl1(y: nat)
    ensures Shl(y, 1) == 2 * y
  {
    assert Shl(y, 0) == y;
  }

  lemma Shl2(y: nat)
    ensures Shl(y, 2) == 4 * y
  {
    Shl1(y);
  }

  lemma Shl4(y: nat)
    ensures Shl(y, 4) == 16 * y
  {
    Shl2(y); ShlAdd(y, 2, 2); Shl2(4 * y);
  }

  lemma Shl8(y: nat)
    ensures Shl(y, 8) == 256 * y
  {
    Shl4(y); ShlAdd(y, 4, 4); Shl4(16 * y);
  }

  lemma Shl16(y: nat)
    ensures Shl(y, 16) == 65536 * y
  {
    Shl8(y); ShlAdd(y, 8, 8); Shl8(256 * y);
  }

  ghost predicate IsShift(x: nat, n: nat, y: nat) {
    y == Shl(x, n)
  }

  lemma ShiftKeepsBits(y: nat, limit: nat, c: nat)
    requires y <= limit && limit * c < 0x1_0000_0000
    ensures y * c % 0x1_0000_0000 == y * c < 0x1_0000_0000
  {
    MulMono(y, limit, c);
  }

  /** One `if (x <= limit) { n += k; x <<= k; }` step, with `c == 2^k`. */
  method ShiftIfAtMost(limit: u32, k: nat, c: nat, x: u32, n: nat, y: u32) returns (n': nat, y': u32)
    requires limit * c < 0x1_0000_0000
    requires IsShift(x, n, y) && Shl(y, k) == y * c
    ensures if y <= limit then n' == n + k && y' == y * c else n' == n && y' == y
    ensures IsShift(x, n', y')
  {
    n', y' := n, y;
    if y' <= limit {
      ShlAdd(x, n, k);
      ShiftKeepsBits(y, limit, c);
      n', y' := n' + k, y' * c % 0x1_0000_0000;
    }
  }

  /** Number of leading zero bits of a nonzero word: the shift distance that
      brings its top set bit to bit 31. */
  method Nlz(x: u32) returns (n: nat)
    requires x != 0
    ensures n <= 31
    ensures 0x8000_0000 <= Shl(x, n) < 0x1_0000_0000
  {
    hide Shl, IsShift;
    var z: u32 := x;
    n := 0;
    NotShifted(x);
    Shl16(z);
    n, z := ShiftIfAtMost(0x0000_FFFF, 16, 0x1_0000, x, n, z);
    Shl8(z);
    n, z := ShiftIfAtMost(0x00FF_FFFF, 8, 0x100, x, n, z);
    Shl4(z);
    n, z := ShiftIfAtMost(0x0FFF_FFFF, 4, 0x10, x, n, z);
    Shl2(z);
    n, z := ShiftIfAtMost(0x3FFF_FFFF, 2, 4, x, n, z);
    Shl1(z);
    n, z := ShiftIfAtMost(0x7FFF_FFFF, 1, 2, x, n, z);
    ShiftMeans(x, n, z);
  }

  lemma NotShifted(x: nat)
    ensures IsShift(x, 0, x)
  {
  }

  lemma ShiftMeans(x: nat, n: nat, y: nat)
    requires IsShift(x, n, y)
    ensures y == Shl(x, n)
  {
  }

  // ------------------------------------------------------------- udiv64

  /** Dividing `b*n1 + n0` by `d` one 32-bit digit at a time: the remainder
      of the high digit is carried into `x`. */
  lemma DigitDivision(n: nat, n1: nat, n0: nat, d: nat, high: nat, carry: nat, x: nat)
    requires 0 < d && n0 < 0x1_0000_0000
    requires n == 0x1_0000_0000 * n1 + n0
    requires n1 == high * d + carry && carry < d
    requires x == 0x1_0000_0000 * carry + n0
    ensures Quotient(x, d) < 0x1_0000_0000
    ensures Quotient(n, d) == Quotient(x, d) + 0x1_0000_0000 * high
  {
    var t := 0x1_0000_0000 * high;
    assert t * d == 0x1_0000_0000 * (high * d);
    Bracket(x, d);
    assert (x / d + t) * d == (x / d) * d + t * d;
    QuotientUnique(n, d, x / d + t, x % d);
    QuotientBelow(x, d, 0x1_0000_0000);
  }

  lemma MulMono(x: int, y: int, d: int)
    requires x <= y && 0 <= d
    ensures x * d <= y * d
  {
  }

  lemma MulCancel(x: int, y: int, d: int)
    requires 0 < d && x * d < y * d
    ensures x < y
  {
    if y <= x {
      MulMono(y, x, d);
    }
  }

  /** Euclid: `n == q*d + r` with `0 <= r < d` determines `q` and `r`. */
  lemma QuotientUnique(n: int, d: nat, q: int, r: nat)
    requires r < d
    requires n == q * d + r
    ensures n / d == q && n % d == r
  {
    var q', r' := n / d, n % d;
    assert n == q' * d + r';
    assert (q + 1) * d == q * d + d;
    assert (q' + 1) * d == q' * d + d;
    MulCancel(q', q + 1, d);
    MulCancel(q, q' + 1, d);
  }

  lemma QuotientBelow(n: nat, d: nat, b: nat)
    requires d > 0 && n < b * d
    ensures n / d < b
  {
    assert (n / d) * d <= n;
    MulCancel(n / d, b, d);
  }

  lemma DivDiv(n: nat, a: nat, b: nat)
    requires 0 < a && 0 < b
    ensures 0 < a * b
    ensures n / a / b == n / (a * b)
  {
    var m, r := n / a, n % a;
    var q, t := m / b, m % b;
    assert n == m * a + r && m == q * b + t;
    assert m * a == q * (a * b) + t * a by {
      assert m * a == (q * b) * a + t * a;
    }
    assert t * a + r < a * b by {
      MulMono(t, b - 1, a);
      assert (b - 1) * a == a * b - a;
    }
    QuotientUnique(n, a * b, q, t * a + r);
  }

  /** The normalised divisor `v1 == (d << s) >> 32` brackets `d` between
      `v1*k` and `(v1+1)*k`, where `p == 2^s` and `k == 2^(32-s)`. */
  lemma NormalisedDivisor(d: nat, p: nat, k: nat, v1: nat)
    requires p * k == 0x1_0000_0000
    requires 0x8000_0000_0000_0000 <= d * p
    requires v1 == d * p / 0x1_0000_0000
    ensures 0x8000_0000 <= v1
    ensures v1 * k <= d < v1 * k + k
  {
    var rem := d * p % 0x1_0000_0000;
    assert p > 0 by { assert 0 * k == 0; }
    assert d * p == v1 * 0x1_0000_0000 + rem;
    assert v1 * 0x1_0000_0000 == (v1 * k) * p by {
      assert v1 * (p * k) == (v1 * k) * p;
    }
    assert (v1 * k + k) * p == v1 * 0x1_0000_0000 + 0x1_0000_0000 by {
      assert (v1 * k + k) * p == (v1 * k) * p + p * k;
    }
    MulCancel(d, v1 * k + k, p);
    MulCancel(v1 * k, d + 1, p) by {
      assert (d + 1) * p == d * p + p;
    }
  }

  lemma Bracket(n: nat, d: nat)
    requires 0 < d
    ensures (n / d) * d <= n < (n / d) * d + d
  {
  }

  /** Dividing by `low <= d` instead of `d` overestimates the quotient by at
      most one when `(t + 1) * (d - low) <= low`. */
  lemma CloseAbove(n: nat, d: nat, low: nat, t: nat, est: nat)
    requires 0 < low <= d
    requires t * d <= n < t * d + d
    requires est * low <= n < est * low + low
    requires (t + 1) * (d - low) <= low
    ensures t <= est <= t + 1
  {
    MulMono(low, d, t);
    assert t * low < (est + 1) * low by { assert (est + 1) * low == est * low + low; }
    MulCancel(t, est + 1, low);
    assert est * low < (t + 2) * low by {
      assert t * d + d == (t + 1) * low + (t + 1) * (d - low);
      assert (t + 2) * low == (t + 1) * low + low;
    }
    MulCancel(est, t + 2, low);
  }

  /** Hacker's Delight: the bracket around `d` is narrow enough for the
      estimate to be off by at most one. */
  lemma SlackSmall(n: u64, d: nat, t: nat, p: nat, k: nat, v1: nat, low: nat)
    requires p * k == 0x1_0000_0000
    requires k == 2 || 4 <= k
    requires 0x8000_0000 <= v1 && low == v1 * k && low <= d < low + k
    requires t * d <= n
    ensures (t + 1) * (d - low) <= low
  {
    var e := d - low;
    TrueQuotientSmall(n, d, t, p, k, v1);
    MulMono(0x8000_0000, v1, k);
    MulMono(t + 1, 2 * p, e);
    MulMono(e, k - 1, 2 * p);
    assert (2 * p) * e == e * (2 * p);
    assert (k - 1) * (2 * p) == 2 * (p * k) - 2 * p;
  }

  /** With a normalised divisor the true quotient is below `2^(s+1)`. */
  lemma TrueQuotientSmall(n: u64, d: nat, t: nat, p: nat, k: nat, v1: nat)
    requires p * k == 0x1_0000_0000 && 0 < k
    requires 0x8000_0000 <= v1 && v1 * k <= d
    requires t * d <= n
    ensures t + 1 <= 2 * p
  {
    MulMono(0x8000_0000, v1, k);
    MulMono(0x8000_0000 * k, d, t);
    assert t * d == d * t;
    assert (0x8000_0000 * k) * t == t * (0x8000_0000 * k);
    assert (2 * p) * (0x8000_0000 * k) == 0x1_0000_0000_0000_0000 by {
      assert (2 * p) * (0x8000_0000 * k) == (2 * 0x8000_0000) * (p * k);
    }
    MulCancel(t, 2 * p, 0x8000_0000 * k);
  }

  /** Shifting `d` by the leading zeros of its high word `d1` loses no bits;
      `p == 2^s` and `k == 2^(32-s)`. */
  lemma ShiftFits(d: u64, d1: nat, p: nat, k: nat)
    requires d1 == d / 0x1_0000_0000
    requires p * k == 0x1_0000_0000
    requires 0x8000_0000 <= d1 * p < 0x1_0000_0000
    ensures 0x8000_0000_0000_0000 <= d * p < 0x1_0000_0000_0000_0000
  {
    var high := d1 * 0x1_0000_0000;
    assert high <= d < high + 0x1_0000_0000;
    MulMono(high, d, p);
    assert high * p == (d1 * p) * 0x1_0000_0000;
    assert 0 < p by { assert p == 0 ==> p * k == 0; }
    MulCancel(d1, k, p);
    MulMono(d + 1, k * 0x1_0000_0000, p);
    assert (d + 1) * p == d * p + p;
    assert (k * 0x1_0000_0000) * p == (p * k) * 0x1_0000_0000;
  }

  lemma Pow2Is32(s: nat)
    requires s <= 32
    ensures Pow2(s) * Pow2(32 - s) == 0x1_0000_0000
  {
    Pow2Add(s, 32 - s);
    Pow2Of32();
  }

  lemma Pow2Of32()
    ensures Pow2(32) == 0x1_0000_0000
  {
    ShlIsScale(1, 32);
    ShlAdd(1, 16, 16);
    Shl16(1);
    Shl16(65536);
  }

  /** The quotient estimate of the large-divisor branch: its `divl` does not
      trap, and it is the true quotient or one more. Here `m == 2^(31-s)`. */
  lemma EstimateFromHalf(n: u64, d: u64, p: nat, m: nat, v1: nat)
    requires p * (2 * m) == 0x1_0000_0000
    requires 0x8000_0000_0000_0000 <= d * p
    requires v1 == d * p / 0x1_0000_0000
    ensures 0 < d && 0 < m && 0x8000_0000 <= v1
    ensures Quotient(n / 2, v1) < 0x1_0000_0000
    ensures Quotient(n, d) <= Quotient(Quotient(n / 2, v1), m) <= Quotient(n, d) + 1
  {
    assert 0 < m by { assert m == 0 ==> p * (2 * m) == 0; }
    NormalisedDivisor(d, p, 2 * m, v1);
    HalfQuotientFits(n, v1);
    NestedFloor(n, v1, m, 2 * m, v1 * (2 * m));
    EstimateClose(n, d, n / d, p, 2 * m, v1, v1 * (2 * m));
  }

  lemma EstimateClose(n: u64, d: u64, t: nat, p: nat, k: nat, v1: nat, low: nat)
    requires p * k == 0x1_0000_0000 && (k == 2 || 4 <= k)
    requires 0x8000_0000 <= v1 && low == v1 * k
    requires 0 < low <= d < low + k && t == n / d
    ensures t <= n / low <= t + 1
  {
    assert t * d <= n by { Bracket(n, d); }
    assert (t + 1) * (d - low) <= low by { SlackSmall(n, d, t, p, k, v1, low); }
    CloseQuotients(n, d, low);
  }

  lemma CloseQuotients(n: nat, d: nat, low: nat)
    requires 0 < low <= d
    requires (n / d + 1) * (d - low) <= low
    ensures n / d <= n / low <= n / d + 1
  {
    Bracket(n, d);
    Bracket(n, low);
    CloseAbove(n, d, low, n / d, n / low);
  }

  lemma HalfQuotientFits(n: u64, v1: nat)
    requires 0x8000_0000 <= v1
    ensures n / 2 / v1 < 0x1_0000_0000
  {
    MulMono(0x8000_0000, v1, 0x1_0000_0000);
    QuotientBelow(n / 2, v1, 0x1_0000_0000);
  }

  lemma NestedFloor(n: nat, v1: nat, m: nat, k: nat, low: nat)
    requires 0 < v1 && 0 < m && k == 2 * m && low == v1 * k
    ensures 0 < low && n / 2 / v1 / m == n / low
  {
    DivDiv(n, 2, v1);
    DivDiv(n, 2 * v1, m);
    assert 2 * v1 * m == v1 * (2 * m);
  }

  /** Comparing `n - (q-1)*d` with `d` picks the true quotient. */
  lemma CorrectionStep(n: u64, d: u64, q: nat)
    requires 0 < d <= n
    requires n / d <= q <= n / d + 1
    ensures 1 <= q
    ensures (if (n - (q - 1) * d) % 0x1_0000_0000_0000_0000 < d then q - 1 else q) == n / d
  {
    Bracket(n, d);
    QuotientBelow(n, d, n + 1) by { MulMono(1, d, n + 1); }
    assert n / d >= 1;
    var rest := n - (q - 1) * d;
    assert (q - 1) * d == q * d - d;
    if q == n / d {
      assert d <= rest <= n by { MulMono(0, q - 1, d); }
    } else {
      assert 0 <= rest < d by { assert (n / d + 1) * d == (n / d) * d + d; }
    }
  }

  /** Unsigned 64-bit division, wrap-around and traps included: the exact
      quotient for every nonzero divisor, and a trap exactly on zero. */
  method Udiv64(n: u64, d: u64) returns (r: Outcome<int>)
    ensures r == if d == 0 then Trap else Value(n / d)
  {
    if d / 0x1_0000_0000 == 0 {
      r := DivideBySmall(n, d);
    } else if n < d {
      QuotientUnique(n, d, 0, n);
      r := Value(0);
    } else {
      r := DivideByLarge(n, d);
    }
  }

  /** The branch of `udiv64` for divisors below `2^32`. */
  method DivideBySmall(n: u64, d: u64) returns (r: Outcome<int>)
    requires d < 0x1_0000_0000
    ensures r == if d == 0 then Trap else Value(Quotient(n, d))
  {
    hide Quotient, Remainder;
    if d == 0 {
      return Trap;  // n1 % d0 raises #DE
    }
    var n1, n0 := n / 0x1_0000_0000, n % 0x1_0000_0000;
    var high, carry := Quotient(n1, d), Remainder(n1, d);
    var x := (0x1_0000_0000 * carry + n0) % 0x1_0000_0000_0000_0000;
    SmallDivision(n, n1, n0, d, x);
    var low := Divl(x, d);
    if low.Trap? {
      return Trap;
    }
    r := Value((low.value + 0x1_0000_0000 * high) % 0x1_0000_0000_0000_0000);
  }

  lemma SmallDivision(n: u64, n1: nat, n0: nat, d: nat, x: nat)
    requires 0 < d < 0x1_0000_0000
    requires n1 == n / 0x1_0000_0000 && n0 == n % 0x1_0000_0000
    requires x == (0x1_0000_0000 * Remainder(n1, d) + n0) % 0x1_0000_0000_0000_0000
    ensures Quotient(x, d) < 0x1_0000_0000
    ensures (Quotient(x, d) + 0x1_0000_0000 * Quotient(n1, d)) % 0x1_0000_0000_0000_0000 == Quotient(n, d)
  {
    hide Quotient, Remainder;
    DivMod(n1, d);
    QuotientAtMost(n, d);
    CarryFits(Remainder(n1, d), n0);
    DigitDivision(n, n1, n0, d, Quotient(n1, d), Remainder(n1, d), x);
    FitsWord(Quotient(n, d));
  }

  lemma CarryFits(high: nat, low: nat)
    requires high < 0x1_0000_0000 && low < 0x1_0000_0000
    ensures (0x1_0000_0000 * high + low) % 0x1_0000_0000_0000_0000 == 0x1_0000_0000 * high + low
  {
  }

  lemma FitsWord(x: nat)
    requires x < 0x1_0000_0000_0000_0000
    ensures x % 0x1_0000_0000_0000_0000 == x
  {
  }

  lemma DivMod(n: nat, d: nat)
    requires 0 < d
    ensures n == Quotient(n, d) * d + Remainder(n, d) && Remainder(n, d) < d
  {
  }

  lemma QuotientAtMost(n: nat, d: nat)
    requires 0 < d
    ensures Quotient(n, d) <= n
  {
    MulMono(1, d, n);
    assert n < (n + 1) * d by { assert (n + 1) * d == d * n + d; }
    QuotientBelow(n, d, n + 1);
  }

  lemma Normalised(d: u64, d1: nat, s: nat, p: nat, m: nat)
    requires d1 == d / 0x1_0000_0000 && s <= 31
    requires 0x8000_0000 <= Shl(d1, s) < 0x1_0000_0000
    requires p == Pow2(s) && m == Pow2(31 - s)
    ensures p * (2 * m) == 0x1_0000_0000
    ensures 0x8000_0000_0000_0000 <= d * p < 0x1_0000_0000_0000_0000
  {
    ShlIsScale(d1, s);
    Pow2Is32(s);
    ShiftFits(d, d1, p, 2 * m);
  }

  /** The branch of `udiv64` for divisors of at least `2^32` and `n >= d`. */
  method DivideByLarge(n: u64, d: u64) returns (r: Outcome<int>)
    requires 0x1_0000_0000 <= d <= n
    ensures r == Value(n / d)
  {
    var estimate := EstimateQuotient(n, d);
    if estimate.Trap? {
      return Trap;
    }
    var q := estimate.value;
    CorrectionStep(n, d, q);
    var rest := (n - (q - 1) * d) % 0x1_0000_0000_0000_0000;
    r := Value(if rest < d then q - 1 else q);
  }

  /** `divl (n >> 1, (d << s) >> 32) >> (31 - s)` with `s == nlz (d >> 32)`
      does not trap and is the true quotient or one more. */
  method EstimateQuotient(n: u64, d: u64) returns (r: Outcome<int>)
    requires 0x1_0000_0000 <= d
    ensures r.Value? && Quotient(n, d) <= r.value <= Quotient(n, d) + 1
  {
    hide Quotient, Pow2, Shl;
    var d1: u32 := d / 0x1_0000_0000;
    var s := Nlz(d1);
    var p, m := Pow2(s), Pow2(31 - s);
    Normalised(d, d1, s, p, m);
    FitsWord(d * p);
    var v1 := d * p % 0x1_0000_0000_0000_0000 / 0x1_0000_0000;
    EstimateFromHalf(n, d, p, m, v1);
    var half := Divl(n / 2, v1);
    if half.Trap? {
      return Trap;
    }
    r := Value(Quotient(half.value, m));
  }

  // ------------------------------------------- umod64, sdiv64 and smod64

  /** Unsigned remainder. The C function returns `uint32_t`, so what comes
      back is the low word of the true remainder. */
  method Umod64(n: u64, d: u64) returns (r: Outcome<u32>)
    ensures r == if d == 0 then Trap else Value(n % d % 0x1_0000_0000)
  {
    var q := Udiv64(n, d);
    if q.Trap? {
      return Trap;
    }
    assert n - d * q.value == n % d;
    r := Value((n - d * q.value) % 0x1_0000_0000_0000_0000 % 0x1_0000_0000);
  }

  /** `umod64` is the true remainder for every dividend exactly when the
      divisor is at most `2^32`. */
  lemma UmodExactIff(d: u64)
    requires d != 0
    ensures (forall n: u64 :: n % d % 0x1_0000_0000 == n % d) <==> d <= 0x1_0000_0000
  {
    if 0x1_0000_0000 < d {
      var n: u64 := 0x1_0000_0000;
      QuotientUnique(n, d, 0, n);
      assert n % d % 0x1_0000_0000 != n % d;
    }
  }

  /** C remainder: what is left after the quotient rounded toward zero. */
  function TruncRem(n: int, d: int): (r: int)
    requires d != 0
  {
    n - d * TruncDiv(n, d)
  }

  /** Truncation toward zero: the remainder is smaller than the divisor and
      takes the sign of the dividend. */
  lemma TruncDivLaw(n: int, d: int)
    requires d != 0
    ensures Abs(TruncRem(n, d)) < Abs(d)
    ensures n >= 0 ==> TruncRem(n, d) >= 0
    ensures n <= 0 ==> TruncRem(n, d) <= 0
    ensures Abs(TruncRem(n, d)) == Abs(n) % Abs(d)
  {
    var a, b: int := Abs(n), Abs(d);
    var t := a / b;
    assert a == b * t + a % b;
    NegMul(b, t);
    assert d == b || d == -b;
    assert TruncDiv(n, d) == t || TruncDiv(n, d) == -t;
  }

  lemma NegMul(x: int, y: int)
    ensures (-x) * y == -(x * y)
    ensures x * (-y) == -(x * y)
    ensures (-x) * (-y) == x * y
  {
  }

  /** Signed division, on the absolute values taken modulo `2^64`. It
      truncates toward zero everywhere except `INT64_MIN / -1`, whose true
      quotient `2^63` wraps back to `INT64_MIN`. */
  method Sdiv64(n: i64, d: i64) returns (r: Outcome<int>)
    ensures r == if d == 0 then Trap
                 else if n == -0x8000_0000_0000_0000 && d == -1 then Value(-0x8000_0000_0000_0000)
                 else Value(TruncDiv(n, d))
  {
    var nAbs := MagnitudeU64(n);
    var dAbs := MagnitudeU64(d);
    var q := Udiv64(nAbs, dAbs);
    if q.Trap? {
      return Trap;
    }
    var s := SignedQuotient(n, d, nAbs, dAbs, q.value);
    r := Value(s);
  }

  method SignedQuotient(n: i64, d: i64, a: nat, b: nat, q: int) returns (r: int)
    requires a == Abs(n) && b == Abs(d) && d != 0
    requires q == Quotient(a, b)
    ensures r == if n == -0x8000_0000_0000_0000 && d == -1 then -0x8000_0000_0000_0000 else TruncDiv(n, d)
  {
    hide Quotient, TruncDiv;
    AbsQuotientRange(n, d, a, b);
    r := Signed(q, (n < 0) == (d < 0));
  }

  /** `n >= 0 ? (uint64_t) n : -(uint64_t) n` */
  method MagnitudeU64(n: i64) returns (r: u64)
    ensures r == Abs(n)
  {
    if n >= 0 {
      r := n;
    } else {
      var bits := n % 0x1_0000_0000_0000_0000;
      NegativeResidue(n);
      NegativeResidue(-bits);
      r := -bits % 0x1_0000_0000_0000_0000;
    }
  }

  lemma NegativeResidue(x: int)
    requires -0x1_0000_0000_0000_0000 < x < 0
    ensures x % 0x1_0000_0000_0000_0000 == x + 0x1_0000_0000_0000_0000
  {
  }

  /** `positive ? (int64_t) q : -(int64_t) q` for a magnitude of at most `2^63` */
  method Signed(q: int, positive: bool) returns (r: i64)
    requires 0 <= q <= 0x8000_0000_0000_0000
    ensures r == if q == 0x8000_0000_0000_0000 then -q else if positive then q else -q
  {
    var s: int := WrapI64(q);
    r := if positive then s else WrapI64(-s);
  }

  /** The absolute quotient fits in 63 bits unless it is `2^63 / 1`. */
  lemma AbsQuotientRange(n: i64, d: i64, a: nat, b: nat)
    requires d != 0 && a == Abs(n) && b == Abs(d)
    ensures Quotient(a, b) <= 0x8000_0000_0000_0000
    ensures Quotient(a, b) == 0x8000_0000_0000_0000 <==> a == 0x8000_0000_0000_0000 && b == 1
    ensures if (n < 0) == (d < 0) then TruncDiv(n, d) == Quotient(a, b) else TruncDiv(n, d) + Quotient(a, b) == 0
  {
    QuotientAtMost(a, b);
    if b == 1 {
      QuotientUnique(a, 1, a, 0);
    } else {
      MulMono(2, b, 0x8000_0000_0000_0000);
      QuotientBelow(a, b, 0x8000_0000_0000_0000);
    }
  }

  /** Signed remainder. The C function returns `int32_t`. */
  method Smod64(n: i64, d: i64) returns (r: Outcome<i32>)
    ensures r == if d == 0 then Trap else Value(WrapI32(TruncRem(n, d)))
  {
    var q := Sdiv64(n, d);
    if q.Trap? {
      return Trap;
    }
    WrappedRemainder(n, d, q.value);
    r := Value(WrapI32(WrapI64(n - d * q.value)));
  }

  lemma WrappedRemainder(n: i64, d: i64, q: int)
    requires d != 0
    requires q == if n == -0x8000_0000_0000_0000 && d == -1 then -0x8000_0000_0000_0000 else TruncDiv(n, d)
    ensures WrapI64(n - d * q) == TruncRem(n, d)
  {
    TruncDivLaw(n, d);
  }

  /** `smod64` is the true remainder for every dividend exactly when the
      divisor's magnitude is at most `2^31`. */
  lemma SmodExactIff(d: i64)
    requires d != 0
    ensures (forall n: i64 :: WrapI32(TruncRem(n, d)) == TruncRem(n, d)) <==> Abs(d) <= 0x8000_0000
  {
    if 0x8000_0000 < Abs(d) {
      var n: i64 := 0x8000_0000;
      QuotientUnique(n, Abs(d), 0, n);
      assert TruncRem(n, d) == n;
      assert WrapI32(TruncRem(n, d)) != TruncRem(n, d);
    } else {
      forall n: i64
        ensures WrapI32(TruncRem(n, d)) == TruncRem(n, d)
      {
        TruncDivLaw(n, d);
      }
    }
  }
}
