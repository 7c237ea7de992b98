/** The bit tricks of src/lib/kernel/hash.c, on unbounded naturals. */
module BitTricks {

  /** C's `&` on unsigned operands. */
  function BitAnd(a: nat, b: nat): nat {
    if a == 0 || b == 0 then 0 else (if a % 2 == 1 == b % 2 then 1 else 0) + 2 * BitAnd(a / 2, b / 2)
  }

  ghost predicate IsPow2(n: nat) {
    n == 1 || (n > 1 && n % 2 == 0 && IsPow2(n / 2))
  }

  /** The largest power of two that is at most `n`. */
  ghost function TopBit(n: nat): (p: nat)
    requires n > 0
  {
    if n == 1 then 1 else 2 * TopBit(n / 2)
  }

  lemma {:induction false} TopBitBounds(n: nat)
    requires n > 0
    ensures IsPow2(TopBit(n)) && TopBit(n) <= n < 2 * TopBit(n)
  {
    if n > 1 {
      TopBitBounds(n / 2);
    }
  }

  /** Bounds determine it. */
  lemma {:induction false} TopBitUnique(n: nat, p: nat)
    requires n > 0 && IsPow2(p) && p <= n < 2 * p
    ensures p == TopBit(n)
  {
    if n > 1 {
      TopBitUnique(n / 2, p / 2);
    }
  }

  lemma ModDouble(h: nat, m: nat)
    requires m > 0
    ensures h % (2 * m) == h % 2 + 2 * ((h / 2) % m)
  {
    var q, r := (h / 2) / m, (h / 2) % m;
    assert h / 2 == q * m + r;
    var s := h % 2 + 2 * r;
    assert h == 2 * (q * m + r) + h % 2;
    assert 2 * (q * m) == q * (2 * m);
    assert h == q * (2 * m) + s && 0 <= s < 2 * m;
    ModUnique(h, 2 * m, q, s);
  }

  lemma ModUnique(h: int, d: int, q: int, s: int)
    requires d > 0 && h == q * d + s && 0 <= s < d
    ensures h % d == s
  {
    var e := h / d - q;
    assert h == (h / d) * d + h % d;
    assert e * d == (h / d) * d - q * d;
    assert e * d == s - h % d;
    SmallMultiple(e, d);
  }

  lemma SmallMultiple(e: int, d: int)
    requires d > 0
    ensures e > 0 ==> e * d >= d
    ensures e < 0 ==> e * d <= -d
  {
    if e > 0 {
      assert (e - 1) * d >= 0;
    } else if e < 0 {
      assert (-1 - e) * d >= 0;
    }
  }

  /** Masking with a power of two less one is the remainder. */
  lemma {:induction false} MaskIsMod(h: nat, c: nat)
    requires IsPow2(c)
    ensures BitAnd(h, c - 1) == h % c
  {
    if c > 1 {
      MaskIsMod(h / 2, c / 2);
      ModDouble(h, c / 2);
      assert (c - 1) / 2 == c / 2 - 1 && (c - 1) % 2 == 1;
    }
  }

  /** x & (x - 1) clears the lowest bit: zero just for a power of two, and
      otherwise a smaller number with the same top bit. */
  lemma {:induction false} LowestBitOff(x: nat)
    requires x > 0
    ensures BitAnd(x, x - 1) < x
    ensures BitAnd(x, x - 1) == 0 <==> IsPow2(x)
    ensures !IsPow2(x) ==> TopBit(BitAnd(x, x - 1)) == TopBit(x)
  {
    if x % 2 == 1 {
      OddAnd(x);
    } else {
      LowestBitOff(x / 2);
      EvenAnd(x);
      var y := BitAnd(x / 2, x / 2 - 1);
      if y > 0 {
        TopBitDouble(y);
      }
    }
  }

  lemma OddAnd(x: nat)
    requires x % 2 == 1
    ensures BitAnd(x, x - 1) == x - 1
    ensures x > 1 ==> TopBit(x - 1) == TopBit(x)
  {
    assert (x - 1) / 2 == x / 2 && (x - 1) % 2 == 0;
    SelfAnd(x / 2);
  }

  lemma EvenAnd(x: nat)
    requires x > 0 && x % 2 == 0
    ensures BitAnd(x, x - 1) == 2 * BitAnd(x / 2, x / 2 - 1)
  {
    assert (x - 1) / 2 == x / 2 - 1;
  }

  lemma TopBitDouble(y: nat)
    requires y > 0
    ensures TopBit(2 * y) == 2 * TopBit(y)
  {
    assert 2 * y / 2 == y;
  }

  lemma {:induction false} SelfAnd(x: nat)
    ensures BitAnd(x, x) == x
  {
    if x > 0 {
      SelfAnd(x / 2);
    }
  }

  /** The loop of rehash: the largest power of two not above `n`. */
  method RoundDown(n: nat) returns (p: nat)
    requires n > 0
    ensures IsPow2(p) && p <= n < 2 * p
  {
    p := n;
    LowestBitOff(p);
    while BitAnd(p, p - 1) != 0
      invariant 0 < p <= n && TopBit(p) == TopBit(n)
      invariant BitAnd(p, p - 1) == 0 <==> IsPow2(p)
    {
      LowestBitOff(p);
      p := BitAnd(p, p - 1);
      LowestBitOff(p);
    }
    TopBitBounds(n);
    TopBitBounds(p);
    assert TopBit(p) == p by { TopBitUnique(p, p); }
  }
}

/** Bucket arrays as values: sequences of lists of elements. */
module Buckets {
  import opened StableOrder

  /** All elements, bucket after bucket: the order hash_next visits them in. */
  ghost function Flat<T>(bs: seq<seq<T>>): seq<T> {
    if bs == [] then [] else Flat(bs[..|bs| - 1]) + bs[|bs| - 1]
  }

  /** No two positions hold elements that compare equal. */
  ghost predicate Apart<T>(less: Less<T>, s: seq<T>) {
    forall i, j :: 0 <= i < j < |s| ==> !Equiv(less, s[i], s[j])
  }

  /** Elements that compare equal hash equal. */
  ghost predicate Agrees<T(!new)>(hash: T -> nat, less: Less<T>) {
    forall x, y :: Equiv(less, x, y) ==> hash(x) == hash(y)
  }

  /** Every element lies in the bucket its hash selects, and no bucket holds
      two that compare equal. */
  ghost predicate Placed<T(!new)>(hash: T -> nat, less: Less<T>, bs: seq<seq<T>>) {
    && |bs| > 0
    && (forall i, x :: 0 <= i < |bs| && x in bs[i] ==> hash(x) % |bs| == i)
    && (forall i :: 0 <= i < |bs| ==> Apart(less, bs[i]))
  }

  lemma {:induction false} FlatMember<T>(bs: seq<seq<T>>, x: T)
    ensures x in Flat(bs) <==> exists i :: 0 <= i < |bs| && x in bs[i]
  {
    if bs != [] {
      var n := |bs| - 1;
      FlatMember(bs[..n], x);
      if x in Flat(bs[..n]) {
        var i :| 0 <= i < n && x in bs[..n][i];
        assert x in bs[i];
      }
      if i :| 0 <= i < |bs| && x in bs[i] {
        assert i < n ==> x in bs[..n][i];
      }
    }
  }

  /** Replacing one bucket changes the flat sequence in one place. */
  lemma {:induction false} FlatUpdate<T>(bs: seq<seq<T>>, i: int, t: seq<T>)
    requires 0 <= i < |bs|
    ensures |Flat(bs[i := t])| == |Flat(bs)| - |bs[i]| + |t|
  {
    var n := |bs| - 1;
    if i < n {
      FlatUpdate(bs[..n], i, t);
      assert bs[i := t][..n] == bs[..n][i := t];
    } else {
      assert bs[i := t][..n] == bs[..n];
    }
  }

  /** Elements in different buckets cannot compare equal, so the whole table
      holds at most one of each class. */
  lemma {:induction false} FlatApart<T(!new)>(hash: T -> nat, less: Less<T>, bs: seq<seq<T>>, k: nat)
    requires Agrees(hash, less) && Placed(hash, less, bs) && k <= |bs|
    ensures Apart(less, Flat(bs[..k]))
  {
    if k > 0 {
      FlatApart(hash, less, bs, k - 1);
      assert bs[..k][..k - 1] == bs[..k - 1];
      var a, b := Flat(bs[..k - 1]), bs[k - 1];
      assert Flat(bs[..k]) == a + b;
      forall x, y | x in a && y in b
        ensures !Equiv(less, x, y)
      {
        FlatMember(bs[..k - 1], x);
        var i :| 0 <= i < k - 1 && x in bs[..k - 1][i];
        assert x in bs[i] && hash(x) % |bs| == i;
        assert hash(y) % |bs| == k - 1;
      }
      ApartConcat(less, a, b);
    }
  }

  lemma ApartConcat<T(!new)>(less: Less<T>, a: seq<T>, b: seq<T>)
    requires Apart(less, a) && Apart(less, b)
    requires forall x, y :: x in a && y in b ==> !Equiv(less, x, y)
    ensures Apart(less, a + b)
  {
    var s := a + b;
    forall i, j | 0 <= i < j < |s|
      ensures !Equiv(less, s[i], s[j])
    {
      assert i < |a| ==> s[i] == a[i] && s[i] in a;
      assert i >= |a| ==> s[i] == b[i - |a|];
      assert j < |a| ==> s[j] == a[j];
      assert j >= |a| ==> s[j] == b[j - |a|] && s[j] in b;
    }
  }

  /** list_push_front into the bucket of `x`. */
  function Push<T>(hash: T -> nat, bs: seq<seq<T>>, x: T): (r: seq<seq<T>>)
    requires |bs| > 0
    ensures |r| == |bs|
  {
    var i := hash(x) % |bs|;
    bs[i := [x] + bs[i]]
  }

  /** Pushing the elements of `s` in turn: what rehash does. */
  ghost function PushAll<T>(hash: T -> nat, bs: seq<seq<T>>, s: seq<T>): (r: seq<seq<T>>)
    requires |bs| > 0
    ensures |r| == |bs|
  {
    if s == [] then bs else Push(hash, PushAll(hash, bs, s[..|s| - 1]), s[|s| - 1])
  }

  ghost predicate NewTo<T>(less: Less<T>, bs: seq<seq<T>>, x: T) {
    forall i, j :: 0 <= i < |bs| && 0 <= j < |bs[i]| ==> !Equiv(less, x, bs[i][j])
  }

  lemma PushPlaced<T(!new)>(hash: T -> nat, less: Less<T>, bs: seq<seq<T>>, x: T)
    requires Placed(hash, less, bs) && NewTo(less, bs, x)
    ensures Placed(hash, less, Push(hash, bs, x))
  {
    var i := hash(x) % |bs|;
    var t := [x] + bs[i];
    assert forall y :: y in t ==> y == x || y in bs[i];
    assert Apart(less, t) by {
      assert Apart(less, bs[i]);
      forall j, k | 0 <= j < k < |t|
        ensures !Equiv(less, t[j], t[k])
      {
        assert t[k] == bs[i][k - 1];
        assert j > 0 ==> t[j] == bs[i][j - 1];
      }
    }
  }

  lemma PushFlat<T(!new)>(hash: T -> nat, bs: seq<seq<T>>, x: T)
    requires |bs| > 0
    ensures |Flat(Push(hash, bs, x))| == |Flat(bs)| + 1
    ensures forall y :: y in Flat(Push(hash, bs, x)) <==> y == x || y in Flat(bs)
  {
    var i := hash(x) % |bs|;
    var r := Push(hash, bs, x);
    FlatUpdate(bs, i, [x] + bs[i]);
    forall y
      ensures y in Flat(r) <==> y == x || y in Flat(bs)
    {
      FlatMember(bs, y);
      FlatMember(r, y);
      assert y in r[i] <==> y == x || y in bs[i];
      assert forall j :: 0 <= j < |bs| && j != i ==> r[j] == bs[j];
    }
  }

  lemma NewToFlat<T>(less: Less<T>, bs: seq<seq<T>>, x: T)
    requires forall y :: y in Flat(bs) ==> !Equiv(less, x, y)
    ensures NewTo(less, bs, x)
  {
    forall i, j | 0 <= i < |bs| && 0 <= j < |bs[i]|
      ensures !Equiv(less, x, bs[i][j])
    {
      FlatMember(bs, bs[i][j]);
    }
  }

  /** Empty buckets. */
  ghost predicate AllEmpty<T>(bs: seq<seq<T>>) {
    forall i :: 0 <= i < |bs| ==> bs[i] == []
  }

  lemma {:induction false} AllEmptyFlat<T>(bs: seq<seq<T>>)
    requires AllEmpty(bs)
    ensures Flat(bs) == []
  {
    if bs != [] {
      AllEmptyFlat(bs[..|bs| - 1]);
    }
  }

  /** Moving a table's elements into empty buckets gives a proper table with
      the same elements. */
  lemma {:induction false} PushAllGood<T(!new)>(hash: T -> nat, less: Less<T>, bs: seq<seq<T>>, s: seq<T>)
    requires |bs| > 0 && AllEmpty(bs) && Apart(less, s)
    ensures Placed(hash, less, PushAll(hash, bs, s))
    ensures |Flat(PushAll(hash, bs, s))| == |s|
    ensures forall y :: y in Flat(PushAll(hash, bs, s)) <==> y in s
  {
    if s == [] {
      AllEmptyFlat(bs);
    } else {
      var t, x := s[..|s| - 1], s[|s| - 1];
      assert s == t + [x];
      assert forall i :: 0 <= i < |t| ==> t[i] == s[i];
      PushAllGood(hash, less, bs, t);
      var r := PushAll(hash, bs, t);
      forall y | y in Flat(r)
        ensures !Equiv(less, x, y)
      {
        var i :| 0 <= i < |t| && t[i] == y;
        assert !Equiv(less, s[i], s[|s| - 1]);
      }
      NewToFlat(less, r, x);
      PushPlaced(hash, less, r, x);
      PushFlat(hash, r, x);
    }
  }
}

/** The chained hash table of src/lib/kernel/hash.c. */
module HashTables {
  import opened Options
  import opened StableOrder
  import opened BitTricks
  import opened Buckets

  /** The bucket count rehash aims at: the largest power of two that is at
      most max(4, elemCnt / 2). */
  ghost predicate Ideal(elemCnt: nat, bucketCnt: nat) {
    var want := if elemCnt / 2 < 4 then 4 else elemCnt / 2;
    IsPow2(bucketCnt) && bucketCnt <= want < 2 * bucketCnt
  }

  /** A table that has just been resized has fewer than four elements per
      bucket, and at least two unless it is at its smallest. */
  lemma IdealLoad(elemCnt: nat, bucketCnt: nat)
    requires Ideal(elemCnt, bucketCnt)
    ensures bucketCnt >= 4
    ensures elemCnt < 4 * bucketCnt
    ensures bucketCnt > 4 ==> 2 * bucketCnt <= elemCnt
  {
    assert bucketCnt < 4 ==> bucketCnt == 1 || bucketCnt == 2 || bucketCnt == 3;
  }

  ghost predicate Table<T(!new)>(hash: T -> nat, less: Less<T>, bs: seq<seq<T>>, elemCnt: nat) {
    && StrictWeak(less) && Agrees(hash, less)
    && IsPow2(|bs|) && |bs| >= 4
    && Placed(hash, less, bs)
    && elemCnt == |Flat(bs)|
  }

  ghost function SetOf<T>(s: seq<T>): set<T> {
    set x | x in s
  }

  /** No equal element in the bucket means none in the table. */
  lemma AbsentFromTable<T(!new)>(hash: T -> nat, less: Less<T>, bs: seq<seq<T>>, x: T)
    requires Agrees(hash, less) && Placed(hash, less, bs)
    requires forall y :: y in bs[hash(x) % |bs|] ==> !Equiv(less, y, x)
    ensures NewTo(less, bs, x)
    ensures forall y :: y in Flat(bs) ==> !Equiv(less, y, x)
  {
    hide Apart;
    forall y | y in Flat(bs)
      ensures !Equiv(less, y, x)
    {
      FlatMember(bs, y);
      var i :| 0 <= i < |bs| && y in bs[i];
      AbsentElsewhere(hash, less, bs, x, i, y);
    }
    NewToFlat(less, bs, x);
  }

  lemma AbsentElsewhere<T(!new)>(hash: T -> nat, less: Less<T>, bs: seq<seq<T>>, x: T, i: int, y: T)
    requires Agrees(hash, less) && Placed(hash, less, bs) && 0 <= i < |bs| && y in bs[i]
    requires forall y :: y in bs[hash(x) % |bs|] ==> !Equiv(less, y, x)
    ensures !Equiv(less, y, x)
  {
    assert hash(y) % |bs| == i;
    assert Equiv(less, y, x) ==> hash(y) == hash(x);
  }

  /** list_remove */
  function Drop<T(==)>(s: seq<T>, x: T): seq<T> {
    if s == [] then [] else if s[0] == x then s[1..] else [s[0]] + Drop(s[1..], x)
  }

  lemma {:induction false} DropFromApart<T(!new)>(less: Less<T>, s: seq<T>, x: T)
    requires StrictWeak(less) && Apart(less, s) && x in s
    ensures Apart(less, Drop(s, x)) && |Drop(s, x)| == |s| - 1
    ensures forall y :: y in Drop(s, x) <==> y in s && y != x
  {
    assert s == [s[0]] + s[1..];
    assert forall y :: y in s[1..] ==> !Equiv(less, s[0], y);
    assert s[0] !in s[1..];
    if s[0] != x {
      DropFromApart(less, s[1..], x);
      ApartConcat(less, [s[0]], Drop(s[1..], x));
    }
  }

  lemma RemovePlaced<T(!new)>(hash: T -> nat, less: Less<T>, bs: seq<seq<T>>, i: int, x: T)
    requires StrictWeak(less) && Agrees(hash, less) && Placed(hash, less, bs) && 0 <= i < |bs| && x in bs[i]
    ensures var r := bs[i := Drop(bs[i], x)];
      && Placed(hash, less, r) && |Flat(r)| == |Flat(bs)| - 1
      && SetOf(Flat(r)) == SetOf(Flat(bs)) - {x}
  {
    var r := bs[i := Drop(bs[i], x)];
    DropFromApart(less, bs[i], x);
    FlatUpdate(bs, i, Drop(bs[i], x));
    forall y
      ensures y in Flat(r) <==> y in Flat(bs) && y != x
    {
      FlatMember(bs, y);
      FlatMember(r, y);
      if y in Flat(bs) && y != x {
        var j :| 0 <= j < |bs| && y in bs[j];
        assert y in r[j];
      }
      if y in Flat(r) {
        var j :| 0 <= j < |r| && y in r[j];
        assert y in bs[j];
        assert hash(x) % |bs| == i;
      }
    }
  }

  /** The table holds at most one element of each class, and as many as
      elem_cnt says. */
  lemma OnePerClass<T(!new)>(hash: T -> nat, less: Less<T>, bs: seq<seq<T>>, elemCnt: nat)
    requires Table(hash, less, bs, elemCnt)
    ensures |SetOf(Flat(bs))| == elemCnt
    ensures forall x, y :: x in SetOf(Flat(bs)) && y in SetOf(Flat(bs)) && Equiv(less, x, y) ==> x == y
  {
    FlatApart(hash, less, bs, |bs|);
    assert bs[..|bs|] == bs;
    var s := Flat(bs);
    ApartSize(less, s, |s|);
    assert s[..|s|] == s;
    forall x, y | x in s && y in s && Equiv(less, x, y)
      ensures x == y
    {
      var i :| 0 <= i < |s| && s[i] == x;
      var j :| 0 <= j < |s| && s[j] == y;
      ApartIndices(less, s, i, j);
    }
  }

  lemma ApartIndices<T(!new)>(less: Less<T>, s: seq<T>, i: int, j: int)
    requires Apart(less, s) && 0 <= i < |s| && 0 <= j < |s|
    ensures i != j ==> !Equiv(less, s[i], s[j])
  {
    if j < i {
      assert !Equiv(less, s[j], s[i]);
    }
  }

  lemma LaterIsNew<T(!new)>(less: Less<T>, s: seq<T>, k: nat)
    requires StrictWeak(less) && Apart(less, s) && k < |s|
    ensures s[k] !in s[..k]
  {
    forall i | 0 <= i < k
      ensures s[i] != s[k]
    {
      assert !Equiv(less, s[i], s[k]);
    }
  }

  lemma {:induction false} ApartSize<T(!new)>(less: Less<T>, s: seq<T>, k: nat)
    requires StrictWeak(less) && Apart(less, s) && k <= |s|
    ensures |SetOf(s[..k])| == k
  {
    if k > 0 {
      ApartSize(less, s, k - 1);
      var x := s[k - 1];
      LaterIsNew(less, s, k - 1);
      assert s[..k] == s[..k - 1] + [x];
      assert SetOf(s[..k]) == SetOf(s[..k - 1]) + {x};
    }
  }

  class HashTable<T(==,!new)> {
    const hash: T -> nat
    const less: Less<T>
    var elemCnt: nat
    var buckets: array<seq<T>>

    ghost predicate Valid()
      reads this, buckets
    {
      Table(hash, less, buckets[..], elemCnt)
    }

    /** The elements, as a set. */
    ghost function Elems(): set<T>
      reads this, buckets
    {
      SetOf(Flat(buckets[..]))
    }

    /** hash_init, its allocation successful. */
    constructor (hash: T -> nat, less: Less<T>)
      requires StrictWeak(less) && Agrees(hash, less)
      ensures Valid() && Elems() == {} && fresh(buckets) && Ideal(elemCnt, buckets.Length)
      ensures this.hash == hash && this.less == less
    {
      this.hash, this.less := hash, less;
      elemCnt := 0;
      buckets := new seq<T>[4](_ => []);
      new;
      AllEmptyFlat(buckets[..]);
      assert IsPow2(2) && IsPow2(4);
    }

    method FindBucket(e: T) returns (i: int)
      requires IsPow2(buckets.Length)
      ensures 0 <= i < buckets.Length && i == hash(e) % buckets.Length
    {
      MaskIsMod(hash(e), buckets.Length);
      i := BitAnd(hash(e), buckets.Length - 1);
    }

    method FindElem(i: int, e: T) returns (r: Option<T>)
      requires 0 <= i < buckets.Length
      ensures r.Some? ==> r.value in buckets[i] && Equiv(less, r.value, e)
      ensures r.None? ==> forall x :: x in buckets[i] ==> !Equiv(less, x, e)
    {
      var b := buckets[i];
      var k := 0;
      while k < |b|
        invariant 0 <= k <= |b|
        invariant forall j :: 0 <= j < k ==> !Equiv(less, b[j], e)
      {
        if !less(b[k], e) && !less(e, b[k]) {
          return Some(b[k]);
        }
        k := k + 1;
      }
      r := None;
    }

    /** hash_find: the element equal to `e`, exactly when there is one. */
    method Find(e: T) returns (r: Option<T>)
      requires Valid()
      ensures r.Some? ==> r.value in Elems() && Equiv(less, r.value, e)
      ensures r.None? ==> forall x :: x in Elems() ==> !Equiv(less, x, e)
    {
      var i := FindBucket(e);
      r := FindElem(i, e);
      if r.None? {
        AbsentFromTable(hash, less, buckets[..], e);
      } else {
        FlatMember(buckets[..], r.value);
      }
    }

    /** insert_elem */
    method InsertElem(i: int, e: T)
      requires Valid() && i == hash(e) % buckets.Length && NewTo(less, buckets[..], e)
      modifies this`elemCnt, buckets
      ensures Valid() && Elems() == old(Elems()) + {e} && elemCnt == old(elemCnt) + 1
    {
      ghost var bs := buckets[..];
      PushPlaced(hash, less, bs, e);
      PushFlat(hash, bs, e);
      elemCnt := elemCnt + 1;
      buckets[i] := [e] + buckets[i];
      assert buckets[..] == Push(hash, bs, e);
    }

    /** remove_elem, of an element of bucket `i`. */
    method RemoveElem(i: int, e: T)
      requires Valid() && 0 <= i < buckets.Length && e in buckets[i]
      modifies this`elemCnt, buckets
      ensures Valid() && Elems() == old(Elems()) - {e} && elemCnt == old(elemCnt) - 1
    {
      ghost var bs := buckets[..];
      RemovePlaced(hash, less, bs, i, e);
      elemCnt := elemCnt - 1;
      buckets[i] := Drop(buckets[i], e);
      assert buckets[..] == bs[i := Drop(bs[i], e)];
    }

    /** The move of one old bucket's elements in rehash. */
    method MoveBucket(b: seq<T>, ghost bs: seq<seq<T>>, ghost done: seq<T>)
      requires IsPow2(buckets.Length) && |bs| == buckets.Length
      requires buckets[..] == PushAll(hash, bs, done)
      modifies buckets
      ensures buckets[..] == PushAll(hash, bs, done + b)
    {
      assert done + b[..0] == done;
      var k := 0;
      while k < |b|
        invariant 0 <= k <= |b|
        invariant buckets[..] == PushAll(hash, bs, done + b[..k])
      {
        var e := b[k];
        ghost var s := done + b[..k + 1];
        assert s[..|s| - 1] == done + b[..k] && s[|s| - 1] == e;
        var j := FindBucket(e);
        buckets[j] := [e] + buckets[j];
        k := k + 1;
      }
      assert b[..k] == b;
    }

    /** The move of all elements into new buckets in rehash. */
    method MoveAll(from: array<seq<T>>)
      requires IsPow2(buckets.Length) && from != buckets
      modifies buckets
      ensures buckets[..] == PushAll(hash, old(buckets[..]), Flat(from[..]))
    {
      ghost var bs := buckets[..];
      var i := 0;
      while i < from.Length
        invariant 0 <= i <= from.Length
        invariant buckets[..] == PushAll(hash, bs, Flat(from[..i]))
      {
        MoveBucket(from[i], bs, Flat(from[..i]));
        assert from[..i + 1][..i] == from[..i];
        i := i + 1;
      }
      assert from[..i] == from[..];
    }

    /** rehash: the same elements in the ideal number of buckets, or the same
        table when the allocation fails. */
    method Rehash(memory: bool)
      requires Valid()
      modifies this`buckets
      ensures Valid() && Elems() == old(Elems())
      ensures memory ==> Ideal(elemCnt, buckets.Length)
      ensures !memory ==> buckets == old(buckets)
      ensures buckets == old(buckets) || fresh(buckets)
      ensures old(buckets)[..] == old(buckets[..])
    {
      hide Placed, Agrees, Apart, StrictWeak, Flat, PushAll;
      var want := elemCnt / 2;
      if want < 4 {
        want := 4;
      }
      var n := RoundDown(want);
      assert IsPow2(2) && IsPow2(4);
      if n == buckets.Length || !memory {
        return;
      }
      var from := buckets;
      FlatApart(hash, less, from[..], from.Length);
      assert from[..from.Length] == from[..];
      buckets := new seq<T>[n](_ => []);
      assert AllEmpty(buckets[..]);
      PushAllGood(hash, less, buckets[..], Flat(from[..]));
      IdealLoad(elemCnt, n);
      MoveAll(from);
    }

    /** hash_insert */
    method Insert(e: T, memory: bool) returns (r: Option<T>)
      requires Valid()
      modifies this, buckets
      ensures Valid() && (buckets == old(buckets) || fresh(buckets))
      ensures r.Some? ==> r.value in old(Elems()) && Equiv(less, r.value, e) && Elems() == old(Elems())
      ensures r.None? ==> Elems() == old(Elems()) + {e}
      ensures r.None? ==> forall x :: x in old(Elems()) ==> !Equiv(less, x, e)
      ensures memory ==> Ideal(elemCnt, buckets.Length)
      ensures !memory ==> buckets.Length == old(buckets.Length)
    {
      var i := FindBucket(e);
      r := FindElem(i, e);
      if r.None? {
        AbsentFromTable(hash, less, buckets[..], e);
        InsertElem(i, e);
      } else {
        FlatMember(buckets[..], r.value);
      }
      Rehash(memory);
    }

    /** hash_replace */
    method Replace(e: T, memory: bool) returns (r: Option<T>)
      requires Valid()
      modifies this, buckets
      ensures Valid() && (buckets == old(buckets) || fresh(buckets))
      ensures r.Some? ==> r.value in old(Elems()) && Equiv(less, r.value, e)
      ensures r.Some? ==> Elems() == old(Elems()) - {r.value} + {e}
      ensures r.None? ==> Elems() == old(Elems()) + {e}
      ensures r.None? ==> forall x :: x in old(Elems()) ==> !Equiv(less, x, e)
      ensures memory ==> Ideal(elemCnt, buckets.Length)
      ensures !memory ==> buckets.Length == old(buckets.Length)
    {
      hide Placed, Agrees, IsPow2, Ideal, NewTo, Apart, StrictWeak, Flat;
      var i := FindBucket(e);
      r := FindElem(i, e);
      if r.Some? {
        FlatMember(buckets[..], r.value);
        OthersDiffer(r.value, e);
        RemoveElem(i, r.value);
        assert forall y :: y in Flat(buckets[..]) ==> y in Elems();
        NewToFlat(less, buckets[..], e);
      } else {
        AbsentFromTable(hash, less, buckets[..], e);
      }
      InsertElem(i, e);
      Rehash(memory);
    }

    /** Once the element equal to `e` is set aside, nothing else is equal. */
    lemma OthersDiffer(x: T, e: T)
      requires Valid() && x in Elems() && Equiv(less, x, e)
      ensures forall y :: y in Elems() && y != x ==> !Equiv(less, e, y)
    {
      OnePerClass(hash, less, buckets[..], elemCnt);
      forall y | y in Elems() && y != x
        ensures !Equiv(less, e, y)
      {
        assert !Equiv(less, x, y);
      }
    }

    /** hash_delete */
    method Delete(e: T, memory: bool) returns (r: Option<T>)
      requires Valid()
      modifies this, buckets
      ensures Valid() && (buckets == old(buckets) || fresh(buckets))
      ensures r.Some? ==> r.value in old(Elems()) && Equiv(less, r.value, e)
      ensures r.Some? ==> Elems() == old(Elems()) - {r.value}
      ensures r.Some? && memory ==> Ideal(elemCnt, buckets.Length)
      ensures r.Some? && !memory ==> buckets.Length == old(buckets.Length)
      ensures r.None? ==> Elems() == old(Elems()) && buckets == old(buckets)
      ensures r.None? ==> forall x :: x in old(Elems()) ==> !Equiv(less, x, e)
    {
      var i := FindBucket(e);
      r := FindElem(i, e);
      if r.Some? {
        FlatMember(buckets[..], r.value);
        RemoveElem(i, r.value);
        Rehash(memory);
      } else {
        AbsentFromTable(hash, less, buckets[..], e);
      }
    }
  }

  /** Where an element of a bucket is in the flat sequence. */
  lemma {:induction false} FlatAt<T>(bs: seq<seq<T>>, b: int, k: int)
    requires 0 <= b < |bs| && 0 <= k < |bs[b]|
    ensures |Flat(bs[..b])| + k < |Flat(bs)| && Flat(bs)[|Flat(bs[..b])| + k] == bs[b][k]
  {
    var n := |bs| - 1;
    if b < n {
      FlatAt(bs[..n], b, k);
      assert bs[..n][..b] == bs[..b];
    }
  }

  class HashIterator<T(==,!new)> {
    const table: HashTable<T>
    var bucket: int
    var pos: int

    /** hash_first: at the head of the first bucket. */
    constructor (table: HashTable<T>)
      requires table.Valid()
      ensures this.table == table && Valid() && Index() == -1
    {
      this.table := table;
      bucket, pos := 0, -1;
    }

    ghost predicate Valid()
      reads this, table, table.buckets
    {
      0 <= bucket < table.buckets.Length && -1 <= pos < |table.buckets[bucket]|
    }

    /** The place reached in the flat sequence. */
    ghost function Index(): int
      reads this, table, table.buckets
      requires Valid()
    {
      |Flat(table.buckets[..bucket])| + pos
    }

    /** hash_next: the element after the one returned last, or null when that
        was the last of the table. */
    method Next() returns (r: Option<T>)
      requires Valid()
      modifies this
      ensures r.None? ==> old(Index()) + 1 == |Flat(table.buckets[..])|
      ensures r.Some? ==> Valid() && Index() == old(Index()) + 1 < |Flat(table.buckets[..])|
      ensures r.Some? ==> r.value == Flat(table.buckets[..])[Index()]
    {
      var bs := table.buckets;
      pos := pos + 1;
      while pos == |bs[bucket]|
        invariant 0 <= bucket < bs.Length && 0 <= pos <= |bs[bucket]|
        invariant |Flat(bs[..bucket])| + pos == old(Index()) + 1
        decreases bs.Length - bucket
      {
        assert bs[..bucket + 1][..bucket] == bs[..bucket];
        bucket := bucket + 1;
        if bucket >= bs.Length {
          assert bs[..bucket] == bs[..];
          return None;
        }
        pos := 0;
      }
      FlatAt(bs[..], bucket, pos);
      assert bs[..][..bucket] == bs[..bucket];
      r := Some(bs[bucket][pos]);
    }
  }

  /** The iteration idiom of hash.c visits each element once. */
  method VisitAll<T(==,!new)>(table: HashTable<T>) returns (s: seq<T>)
    requires table.Valid()
    ensures SetOf(s) == table.Elems() && |s| == |table.Elems()|
  {
    hide Flat, Placed, Apart, Agrees, StrictWeak;
    OnePerClass(table.hash, table.less, table.buckets[..], table.elemCnt);
    ghost var all := Flat(table.buckets[..]);
    var it := new HashIterator(table);
    s := [];
    assert all[..0] == s;
    var e := it.Next();
    while e.Some?
      invariant |s| <= |all| && s == all[..|s|]
      invariant e.Some? ==> it.table == table && it.Valid() && it.Index() == |s| < |all| && e.value == all[|s|]
      invariant e.None? ==> |s| == |all|
      decreases |all| - |s|
    {
      s := s + [e.value];
      e := it.Next();
    }
  }
}
