/** Free lists of memory blocks, as sequences: what src/threads/malloc.c does
    to a descriptor's free_list. */
module FreeLists {

  /** Block `idx` of the arena in page `page`. */
  datatype Block = Block(page: int, idx: int)

  ghost predicate NoDup(s: seq<Block>) {
    forall i, j :: 0 <= i < j < |s| ==> s[i] != s[j]
  }

  /** How many blocks of `s` lie in page `p`. */
  ghost function Count(s: seq<Block>, p: int): nat {
    if s == [] then 0 else (if s[0].page == p then 1 else 0) + Count(s[1..], p)
  }

  /** list_remove */
  function Remove(s: seq<Block>, b: Block): seq<Block> {
    if s == [] then [] else if s[0] == b then s[1..] else [s[0]] + Remove(s[1..], b)
  }

  /** `s` without the blocks of page `p`. */
  ghost function DropPage(s: seq<Block>, p: int): seq<Block> {
    if s == [] then [] else (if s[0].page == p then [] else [s[0]]) + DropPage(s[1..], p)
  }

  lemma {:induction false} CountConcat(s: seq<Block>, t: seq<Block>, p: int)
    ensures Count(s + t, p) == Count(s, p) + Count(t, p)
  {
    if s == [] {
      assert s + t == t;
    } else {
      assert (s + t)[1..] == s[1..] + t;
      CountConcat(s[1..], t, p);
    }
  }

  lemma {:induction false} CountZero(s: seq<Block>, p: int)
    requires forall b :: b in s ==> b.page != p
    ensures Count(s, p) == 0 && DropPage(s, p) == s
  {
    if s != [] {
      assert s[0] in s;
      assert forall b :: b in s[1..] ==> b in s;
      CountZero(s[1..], p);
    }
  }

  lemma {:induction false} CountAll(s: seq<Block>, p: int)
    requires forall b :: b in s ==> b.page == p
    ensures Count(s, p) == |s|
  {
    if s != [] {
      assert s[0] in s;
      assert forall b :: b in s[1..] ==> b in s;
      CountAll(s[1..], p);
    }
  }

  lemma {:induction false} RemoveMembers(s: seq<Block>, b: Block)
    requires NoDup(s)
    ensures NoDup(Remove(s, b))
    ensures forall x :: x in Remove(s, b) <==> x in s && x != b
  {
    if s != [] {
      assert s == [s[0]] + s[1..];
      if s[0] == b {
        assert forall i :: 0 < i < |s| ==> s[i] != s[0];
      } else {
        RemoveMembers(s[1..], b);
        var r := Remove(s[1..], b);
        assert s[0] !in s[1..];
        assert forall i :: 0 <= i < |r| ==> r[i] in s[1..];
      }
    }
  }

  lemma {:induction false} RemoveCounts(s: seq<Block>, b: Block, p: int)
    requires b in s
    ensures Count(Remove(s, b), p) == Count(s, p) - (if b.page == p then 1 else 0)
    ensures b.page == p ==> DropPage(Remove(s, b), p) == DropPage(s, p)
  {
    if s[0] != b {
      RemoveCounts(s[1..], b, p);
      assert ([s[0]] + Remove(s[1..], b))[1..] == Remove(s[1..], b);
    }
  }

  lemma {:induction false} DropMembers(s: seq<Block>, p: int)
    ensures forall x :: x in DropPage(s, p) <==> x in s && x.page != p
  {
    if s != [] {
      DropMembers(s[1..], p);
      assert s == [s[0]] + s[1..];
    }
  }

  lemma {:induction false} DropNoDup(s: seq<Block>, p: int)
    requires NoDup(s)
    ensures NoDup(DropPage(s, p))
  {
    if s != [] {
      DropNoDup(s[1..], p);
      DropMembers(s[1..], p);
      var r := DropPage(s[1..], p);
      assert s[0] !in s[1..];
      assert forall i :: 0 <= i < |r| ==> r[i] in r;
    }
  }

  lemma {:induction false} DropCount(s: seq<Block>, p: int, q: int)
    requires p != q
    ensures Count(DropPage(s, p), q) == Count(s, q)
  {
    if s != [] {
      DropCount(s[1..], p, q);
      CountConcat(if s[0].page == p then [] else [s[0]], DropPage(s[1..], p), q);
    }
  }

  /** The blocks of page `p`, as arena_to_block numbers them. */
  ghost function Slots(p: int, n: nat): (r: set<Block>)
    ensures |r| == n
    ensures forall b :: b in r <==> b.page == p && 0 <= b.idx < n
  {
    if n == 0 then {} else Slots(p, n - 1) + {Block(p, n - 1)}
  }

  ghost function InPage(s: seq<Block>, p: int): set<Block> {
    set b | b in s && b.page == p
  }

  lemma {:induction false} InPageSize(s: seq<Block>, p: int)
    requires NoDup(s)
    ensures |InPage(s, p)| == Count(s, p)
  {
    if s == [] {
      assert InPage(s, p) == {};
    } else {
      InPageSize(s[1..], p);
      assert s == [s[0]] + s[1..];
      assert s[0] !in s[1..];
      if s[0].page == p {
        assert InPage(s, p) == InPage(s[1..], p) + {s[0]};
      } else {
        assert InPage(s, p) == InPage(s[1..], p);
      }
    }
  }

  lemma {:induction false} SubsetFull(a: set<Block>, b: set<Block>)
    requires a <= b && |a| == |b|
    ensures a == b
  {
    assert b == a + (b - a);
  }

  /** If a page has as many free blocks as blocks, all its blocks are free. */
  lemma AllFree(s: seq<Block>, p: int, n: nat)
    requires NoDup(s) && Count(s, p) == n
    requires forall b :: b in s && b.page == p ==> 0 <= b.idx < n
    ensures forall i :: 0 <= i < n ==> Block(p, i) in s
  {
    InPageSize(s, p);
    SubsetFull(InPage(s, p), Slots(p, n));
    forall i | 0 <= i < n
      ensures Block(p, i) in s
    {
      assert Block(p, i) in InPage(s, p);
    }
  }

  /** If a block of the page is not free, the count is short of the total. */
  lemma NotAllFree(s: seq<Block>, p: int, n: nat, b: Block)
    requires NoDup(s) && b !in s && b.page == p && 0 <= b.idx < n
    requires forall x :: x in s && x.page == p ==> 0 <= x.idx < n
    ensures Count(s, p) < n
  {
    InPageSize(s, p);
    var a, c := InPage(s, p), Slots(p, n);
    assert a <= c - {b};
    assert c - {b} == a + (c - {b} - a);
  }
}
