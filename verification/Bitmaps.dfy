/** The word-packed bitmap of src/lib/kernel/bitmap.c, with 32-bit words. */
module Bitmaps {
  import opened Options

  /** bit_mask, on the index within a word: 1 shifted left `i` times. */
  function Mask(i: nat): bv32 {
    if i == 0 then 1 else Mask(i - 1) << 1
  }

  function Has(w: bv32, mask: bv32): bool { w & mask != 0 }
  function With(w: bv32, mask: bv32): bv32 { w | mask }
  function WithoutMask(w: bv32, mask: bv32): bv32 { w & !mask }

  function Bit(w: bv32, i: nat): bool {
    Has(w, Mask(i))
  }

  lemma {:induction false} MaskNonzero(i: nat)
    requires i < 32
    ensures Mask(i) != 0
    decreases 32 - i
  {
    if i == 31 {
      MaskTop();
    } else {
      MaskNonzero(i + 1);
      assert Mask(i + 1) == Mask(i) << 1;
    }
  }

  lemma MaskTop()
    ensures Mask(31) == 0x8000_0000
  {
    assert Mask(8) == 0x100;
    assert Mask(16) == 0x1_0000;
    assert Mask(24) == 0x100_0000;
  }

  lemma {:induction false} MasksDisjoint(i: nat, j: nat)
    requires i < j
    ensures Mask(i) & Mask(j) == 0
  {
    if i == 0 {
      ShiftedOffLow(Mask(j - 1));
    } else {
      MasksDisjoint(i - 1, j - 1);
      ShiftedDisjoint(Mask(i - 1), Mask(j - 1));
    }
  }

  lemma ShiftedOffLow(x: bv32)
    ensures 1 & (x << 1) == 0
  {
  }

  lemma ShiftedDisjoint(x: bv32, y: bv32)
    requires x & y == 0
    ensures (x << 1) & (y << 1) == 0
  {
  }

  lemma SetSame(w: bv32, a: bv32)
    requires Has(a, a)
    ensures Has(With(w, a), a)
  {
  }

  lemma ClearSame(w: bv32, a: bv32)
    ensures !Has(WithoutMask(w, a), a)
  {
  }

  lemma SetOther(w: bv32, a: bv32, b: bv32)
    requires !Has(a, b)
    ensures Has(With(w, a), b) <==> Has(w, b)
  {
    OrDistributes(w, a, b);
    OrZero(w & b);
  }

  lemma OrZero(x: bv32)
    ensures x | 0 == x && x & !0 == x
  {
  }

  lemma OrDistributes(w: bv32, a: bv32, b: bv32)
    ensures (w | a) & b == (w & b) | (a & b)
  {
  }

  lemma ClearOther(w: bv32, a: bv32, b: bv32)
    requires !Has(a, b)
    ensures Has(WithoutMask(w, a), b) <==> Has(w, b)
  {
    hide WithoutMask;
    ClearMasked(w, a, b);
  }

  lemma ClearMasked(w: bv32, a: bv32, b: bv32)
    requires a & b == 0
    ensures WithoutMask(w, a) & b == w & b
  {
    AndNotDistributes(w, a, b);
    OrZero(w & b);
  }

  lemma AndNotDistributes(w: bv32, a: bv32, b: bv32)
    ensures (w & !a) & b == (w & b) & !(a & b)
  {
  }

  lemma HasCommutes(a: bv32, b: bv32)
    ensures Has(a, b) <==> Has(b, a)
  {
    assert a & b == b & a;
  }

  /** Masks of different bits have nothing in common. */
  lemma MasksApart(i: nat, j: nat)
    requires i < 32 && j < 32
    ensures Has(Mask(i), Mask(j)) <==> i == j
  {
    if i < j {
      MasksDisjoint(i, j);
    } else if j < i {
      MasksDisjoint(j, i);
      HasCommutes(Mask(i), Mask(j));
    } else {
      MaskNonzero(i);
      HasSelf(Mask(i));
    }
  }

  lemma HasSelf(a: bv32)
    requires a != 0
    ensures Has(a, a)
  {
    assert a & a == a;
  }

  /** Setting or clearing one bit of a word changes that bit only. */
  lemma OneBit(w: bv32, i: nat, j: nat)
    requires i < 32 && j < 32
    ensures Bit(With(w, Mask(i)), j) <==> i == j || Bit(w, j)
    ensures Bit(WithoutMask(w, Mask(i)), j) <==> i != j && Bit(w, j)
  {
    hide Mask, Has, With, WithoutMask;
    MasksApart(i, j);
    if i == j {
      SetSame(w, Mask(i));
      ClearSame(w, Mask(i));
    } else {
      SetOther(w, Mask(i), Mask(j));
      ClearOther(w, Mask(i), Mask(j));
    }
  }

  /** The `cnt` bits from `i` on exist and all have the value `v`. */
  ghost predicate Run(s: seq<bool>, i: nat, cnt: nat, v: bool) {
    i + cnt <= |s| && forall k :: i <= k < i + cnt ==> s[k] == v
  }

  /** `s` with the `cnt` bits from `i` on set to `v`. */
  function Filled(s: seq<bool>, i: nat, cnt: nat, v: bool): (t: seq<bool>)
    requires i + cnt <= |s|
    ensures |t| == |s|
    ensures forall k :: 0 <= k < |s| ==> t[k] == if i <= k < i + cnt then v else s[k]
  {
    seq(|s|, k requires 0 <= k < |s| => if i <= k < i + cnt then v else s[k])
  }

  class Bitmap {
    const bitCnt: nat
    const bits: array<bv32>

    ghost predicate Valid() {
      bits.Length == (bitCnt + 31) / 32
    }

    /** bitmap_test */
    function Test(idx: nat): bool
      reads bits
      requires Valid() && idx < bitCnt
    {
      Bit(bits[idx / 32], idx % 32)
    }

    ghost function Contents(): (s: seq<bool>)
      reads bits
      requires Valid()
      ensures |s| == bitCnt
      ensures forall k :: 0 <= k < bitCnt ==> s[k] == Test(k)
    {
      seq(bitCnt, k requires 0 <= k < bitCnt reads bits => Test(k))
    }

    /** bitmap_create; allocation failure is the caller's concern. */
    constructor (n: nat)
      ensures Valid() && fresh(bits) && bitCnt == n
      ensures Run(Contents(), 0, n, false)
    {
      bitCnt := n;
      bits := new bv32[(n + 31) / 32](_ => 0);
      new;
      assert forall k :: 0 <= k < n ==> !Test(k);
    }

    /** bitmap_mark */
    method Mark(idx: nat)
      requires Valid() && idx < bitCnt
      modifies bits
      ensures Contents() == old(Contents())[idx := true]
    {
      hide Bit, Mask, With, WithoutMask;
      ghost var before := Contents();
      var w := bits[idx / 32];
      bits[idx / 32] := With(w, Mask(idx % 32));
      forall k | 0 <= k < bitCnt
        ensures Test(k) == if k == idx then true else before[k]
      {
        if k / 32 == idx / 32 {
          OneBit(w, idx % 32, k % 32);
        }
      }
    }

    /** bitmap_reset */
    method Reset(idx: nat)
      requires Valid() && idx < bitCnt
      modifies bits
      ensures Contents() == old(Contents())[idx := false]
    {
      hide Bit, Mask, With, WithoutMask;
      ghost var before := Contents();
      var w := bits[idx / 32];
      bits[idx / 32] := WithoutMask(w, Mask(idx % 32));
      forall k | 0 <= k < bitCnt
        ensures Test(k) == if k == idx then false else before[k]
      {
        if k / 32 == idx / 32 {
          OneBit(w, idx % 32, k % 32);
        }
      }
    }

    /** bitmap_set */
    method Set(idx: nat, value: bool)
      requires Valid() && idx < bitCnt
      modifies bits
      ensures Contents() == old(Contents())[idx := value]
    {
      if value {
        Mark(idx);
      } else {
        Reset(idx);
      }
    }

    /** bitmap_set_multiple */
    method SetMultiple(start: nat, cnt: nat, value: bool)
      requires Valid() && start + cnt <= bitCnt
      modifies bits
      ensures Contents() == Filled(old(Contents()), start, cnt, value)
    {
      for i := 0 to cnt
        invariant Contents() == Filled(old(Contents()), start, i, value)
      {
        Set(start + i, value);
      }
    }

    /** bitmap_contains */
    method Contains(start: nat, cnt: nat, value: bool) returns (r: bool)
      requires Valid() && start + cnt <= bitCnt
      ensures !r <==> Run(Contents(), start, cnt, !value)
    {
      for i := 0 to cnt
        invariant Run(Contents(), start, i, !value)
      {
        if Test(start + i) == value {
          assert Contents()[start + i] == value;
          return true;
        }
        assert Contents()[start + i] == !value;
      }
      r := false;
    }

    /** bitmap_scan: the least start of a long enough group, or none exactly
        when there is no such group. */
    method Scan(start: nat, cnt: nat, value: bool) returns (r: Option<nat>)
      requires Valid() && start <= bitCnt
      ensures r.Some? ==> start <= r.value && Run(Contents(), r.value, cnt, value)
      ensures forall i :: start <= i && (r.Some? ==> i < r.value) ==> !Run(Contents(), i, cnt, value)
    {
      if cnt <= bitCnt {
        var last := bitCnt - cnt;
        var i := start;
        while i <= last
          invariant start <= i
          invariant forall j :: start <= j < i ==> !Run(Contents(), j, cnt, value)
        {
          var other := Contains(i, cnt, !value);
          if !other {
            return Some(i);
          }
          i := i + 1;
        }
      }
      r := None;
    }

    /** bitmap_scan_and_flip: takes that group, and only that group. */
    method ScanAndFlip(start: nat, cnt: nat, value: bool) returns (r: Option<nat>)
      requires Valid() && start <= bitCnt
      modifies bits
      ensures r.Some? ==>
        && start <= r.value && Run(old(Contents()), r.value, cnt, value)
        && Contents() == Filled(old(Contents()), r.value, cnt, !value)
      ensures r.None? ==> Contents() == old(Contents())
      ensures forall i :: start <= i && (r.Some? ==> i < r.value) ==> !Run(old(Contents()), i, cnt, value)
    {
      r := Scan(start, cnt, value);
      if r.Some? {
        SetMultiple(r.value, cnt, !value);
      }
    }
  }
}
