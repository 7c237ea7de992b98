/** The block allocator of src/threads/malloc.c on top of the page allocator.
    A pointer is a block: an arena page and an index within it; a big block is
    index 0 of its first page. */
module Malloc {
  import opened Options
  import opened PageAllocator
  import opened FreeLists

  const DESC_CNT: int := 7

  /** Block size of descriptor `d`: 16, 32, ... up to 1024 bytes. */
  function BlockSize(d: int): (n: int)
    ensures 16 <= n <= 1024
  {
    if d == 0 then 16 else if d == 1 then 32 else if d == 2 then 64 else if d == 3 then 128
    else if d == 4 then 256 else if d == 5 then 512 else 1024
  }

  /** Blocks in an arena: what fits in a page behind the 12-byte header. */
  function PerArena(d: int): (n: int)
    ensures 3 <= n <= 255
    ensures n * BlockSize(d) <= 4084
  {
    4084 / BlockSize(d)
  }

  datatype Arena = Small(desc: int, freeCnt: int) | Big(pageCnt: nat) {
    function PageCnt(): nat { if Small? then 1 else pageCnt }
  }

  /** malloc_init's descriptors are exactly those. */
  method InitDescriptors() returns (sizes: seq<int>, perArena: seq<int>)
    ensures |sizes| == |perArena| == DESC_CNT
    ensures forall d :: 0 <= d < DESC_CNT ==> sizes[d] == BlockSize(d) && perArena[d] == PerArena(d)
  {
    sizes, perArena := [], [];
    var size := 16;
    while size < 2048
      invariant |sizes| == |perArena| <= 7
      invariant size == if |sizes| < 7 then BlockSize(|sizes|) else 2048
      invariant forall d :: 0 <= d < |sizes| ==> sizes[d] == BlockSize(d) && perArena[d] == PerArena(d)
      decreases 2048 - size
    {
      sizes, perArena := sizes + [size], perArena + [4084 / size];
      size := size * 2;
    }
  }

  // -------------------------------------------------------- invariant

  ghost predicate ArenaOk(a: Arena) {
    match a
    case Small(d, c) => 0 <= d < 7 && 0 <= c <= PerArena(d)
    case Big(n) => n > 0
  }

  /** The free list of descriptor `d` holds blocks of its arenas, once each. */
  ghost predicate ListOk(s: seq<Block>, arenas: map<int, Arena>, d: int) {
    && NoDup(s)
    && forall b :: b in s ==>
         b.page in arenas && arenas[b.page].Small? && arenas[b.page].desc == d && 0 <= b.idx < PerArena(d)
  }

  /** Every arena's free_cnt is its share of its descriptor's free list. */
  ghost predicate Consistent(lists: seq<seq<Block>>, arenas: map<int, Arena>) {
    && |lists| == 7
    && (forall p :: p in arenas ==> ArenaOk(arenas[p]))
    && (forall d :: 0 <= d < 7 ==> ListOk(lists[d], arenas, d))
    && (forall p :: p in arenas && arenas[p].Small? ==> Count(lists[arenas[p].desc], p) == arenas[p].freeCnt)
  }

  /** No arena is kept once all its blocks are free. */
  ghost predicate NoneIdle(arenas: map<int, Arena>) {
    forall p :: p in arenas && arenas[p].Small? ==> arenas[p].freeCnt < PerArena(arenas[p].desc)
  }

  /** The arenas' pages are allocated and do not overlap. */
  ghost predicate Owned(arenas: map<int, Arena>, used: set<int>) {
    && (forall p :: p in arenas ==> arenas[p].PageCnt() > 0 && Pages(p, arenas[p].PageCnt()) <= used)
    && (forall p, q :: p in arenas && q in arenas && p != q ==>
         Pages(p, arenas[p].PageCnt()) !! Pages(q, arenas[q].PageCnt()))
  }

  /** Handed out and not yet freed. */
  ghost predicate LiveIn(lists: seq<seq<Block>>, arenas: map<int, Arena>, b: Block) {
    && b.page in arenas
    && match arenas[b.page]
       case Small(d, _) => 0 <= d < |lists| && 0 <= b.idx < PerArena(d) && b !in lists[d]
       case Big(_) => b.idx == 0
  }

  /** block_size: the bytes that belong to a block. */
  function Capacity(a: Arena): int {
    match a
    case Small(d, _) => BlockSize(d)
    case Big(n) => 4096 * n - 12
  }

  /** arena_to_block's address. */
  function Address(a: Arena, b: Block): int {
    b.page * 4096 + 12 + (match a case Small(d, _) => b.idx * BlockSize(d) case Big(_) => 0)
  }

  // ------------------------------------------------ addresses of blocks

  /** A live block's bytes lie within its arena's pages, behind the header. */
  lemma BlockInExtent(lists: seq<seq<Block>>, arenas: map<int, Arena>, b: Block)
    requires Consistent(lists, arenas) && LiveIn(lists, arenas, b)
    ensures var a := arenas[b.page];
      b.page * 4096 + 12 <= Address(a, b) && Address(a, b) + Capacity(a) <= (b.page + a.PageCnt()) * 4096
  {
    var a := arenas[b.page];
    assert ArenaOk(a);
    match a {
      case Small(d, _) => IndexFits(b.idx, PerArena(d), BlockSize(d));
      case Big(n) =>
    }
  }

  lemma Scale(k: int, size: int)
    requires 0 <= k && 0 < size
    ensures 0 <= k * size
  {
  }

  lemma Split3(i: int, k: int, size: int)
    ensures (i + 1 + k) * size == i * size + size + k * size
  {
  }

  /** Slot `i` ends before slot `j` begins. */
  lemma SlotOrder(i: int, j: int, size: int)
    requires i < j && 0 < size
    ensures i * size + size <= j * size
  {
    Scale(j - i - 1, size);
    Split3(i, j - i - 1, size);
    assert i + 1 + (j - i - 1) == j;
  }

  lemma IndexFits(i: int, n: int, size: int)
    requires 0 <= i < n && 0 < size
    ensures 0 <= i * size && i * size + size <= n * size
  {
    Scale(i, size);
    SlotOrder(i, n, size);
  }

  /** Live blocks never share a byte. */
  lemma LiveDisjoint(lists: seq<seq<Block>>, arenas: map<int, Arena>, used: set<int>, b: Block, c: Block)
    requires Consistent(lists, arenas) && Owned(arenas, used)
    requires LiveIn(lists, arenas, b) && LiveIn(lists, arenas, c) && b != c
    ensures var x, y := arenas[b.page], arenas[c.page];
      || Address(x, b) + Capacity(x) <= Address(y, c)
      || Address(y, c) + Capacity(y) <= Address(x, b)
  {
    var x, y := arenas[b.page], arenas[c.page];
    if b.page == c.page {
      match x {
        case Small(d, _) =>
          if b.idx < c.idx {
            SlotOrder(b.idx, c.idx, BlockSize(d));
          } else {
            SlotOrder(c.idx, b.idx, BlockSize(d));
          }
        case Big(_) =>
      }
    } else {
      BlockInExtent(lists, arenas, b);
      BlockInExtent(lists, arenas, c);
      ExtentsApart(b.page, x.PageCnt(), c.page, y.PageCnt());
    }
  }

  lemma ExtentsApart(p: int, m: nat, q: int, n: nat)
    requires m > 0 && n > 0 && Pages(p, m) !! Pages(q, n)
    ensures p + m <= q || q + n <= p
  {
    assert p in Pages(p, m) && q in Pages(q, n);
  }

  /** block_to_arena finds the arena of every block, and its alignment
      assertion holds. */
  lemma BlockToArena(a: Arena, b: Block)
    requires ArenaOk(a) && (a.Small? ==> 0 <= b.idx < PerArena(a.desc)) && (a.Big? ==> b.idx == 0)
    ensures Address(a, b) / 4096 == b.page
    ensures a.Small? ==> (Address(a, b) % 4096 - 12) % BlockSize(a.desc) == 0
    ensures a.Small? ==> (Address(a, b) % 4096 - 12) / BlockSize(a.desc) == b.idx
    ensures a.Big? ==> Address(a, b) % 4096 == 12
  {
    match a {
      case Small(d, _) =>
        var size := BlockSize(d);
        IndexFits(b.idx, PerArena(d), size);
        assert Address(a, b) % 4096 - 12 == b.idx * size;
        MultipleDivides(b.idx, size);
      case Big(_) =>
    }
  }

  lemma MultipleDivides(i: int, size: int)
    requires 0 < size
    ensures i * size % size == 0 && i * size / size == i
  {
    var q, r := i * size / size, i * size % size;
    assert i * size == q * size + r;
    if i > q {
      SlotOrder(q, i, size);
    } else if i < q {
      SlotOrder(i, q, size);
    }
  }

  // ------------------------------------------------ what the steps keep

  /** A new arena whose blocks `s` are all free. */
  lemma GrowKeeps(lists: seq<seq<Block>>, arenas: map<int, Arena>, d: int, p: int, s: seq<Block>)
    requires Consistent(lists, arenas) && 0 <= d < 7 && p !in arenas && lists[d] == []
    requires |s| == PerArena(d) && forall k :: 0 <= k < |s| ==> s[k] == Block(p, k)
    ensures Consistent(lists[d := s], arenas[p := Small(d, PerArena(d))])
  {
    var lists', arenas' := lists[d := s], arenas[p := Small(d, PerArena(d))];
    CountAll(s, p);
    forall q | q in arenas' && arenas'[q].Small?
      ensures Count(lists'[arenas'[q].desc], q) == arenas'[q].freeCnt
    {
      if q != p {
        CountZero(s, q);
        assert q in arenas && ArenaOk(arenas[q]);
      }
    }
    forall e | 0 <= e < 7
      ensures ListOk(lists'[e], arenas', e)
    {
      assert ListOk(lists[e], arenas, e);
    }
  }

  /** Taking the front block off its free list. */
  lemma PopKeeps(lists: seq<seq<Block>>, arenas: map<int, Arena>, d: int, b: Block, rest: seq<Block>)
    requires Consistent(lists, arenas) && 0 <= d < 7 && lists[d] == [b] + rest
    ensures b.page in arenas && arenas[b.page].Small? && arenas[b.page].desc == d && arenas[b.page].freeCnt > 0
    ensures b !in rest && 0 <= b.idx < PerArena(d)
    ensures Consistent(lists[d := rest], arenas[b.page := Small(d, arenas[b.page].freeCnt - 1)])
  {
    assert ListOk(lists[d], arenas, d) && lists[d][0] == b && b in lists[d];
    CountConcat([b], rest, b.page);
    assert forall i :: 0 <= i < |rest| ==> rest[i] == lists[d][i + 1];
    assert b !in rest;
    var lists', arenas' := lists[d := rest], arenas[b.page := Small(d, arenas[b.page].freeCnt - 1)];
    forall e | 0 <= e < 7
      ensures ListOk(lists'[e], arenas', e)
    {
      assert ListOk(lists[e], arenas, e);
      assert forall x :: x in rest ==> x in lists[d];
    }
    forall q | q in arenas' && arenas'[q].Small?
      ensures Count(lists'[arenas'[q].desc], q) == arenas'[q].freeCnt
    {
      CountConcat([b], rest, q);
    }
  }

  /** Putting a live block back at the front. */
  lemma PushKeeps(lists: seq<seq<Block>>, arenas: map<int, Arena>, d: int, b: Block)
    requires Consistent(lists, arenas) && LiveIn(lists, arenas, b)
    requires arenas[b.page].Small? && arenas[b.page].desc == d
    ensures Consistent(lists[d := [b] + lists[d]], arenas[b.page := Small(d, arenas[b.page].freeCnt + 1)])
  {
    assert ArenaOk(arenas[b.page]) && ListOk(lists[d], arenas, d);
    NotAllFree(lists[d], b.page, PerArena(d), b);
    var lists', arenas' := lists[d := [b] + lists[d]], arenas[b.page := Small(d, arenas[b.page].freeCnt + 1)];
    forall e | 0 <= e < 7
      ensures ListOk(lists'[e], arenas', e)
    {
      assert ListOk(lists[e], arenas, e);
    }
    forall q | q in arenas' && arenas'[q].Small?
      ensures Count(lists'[arenas'[q].desc], q) == arenas'[q].freeCnt
    {
      CountConcat([b], lists[d], q);
    }
  }

  /** Giving up an arena together with its blocks. */
  lemma DropKeeps(lists: seq<seq<Block>>, arenas: map<int, Arena>, d: int, p: int)
    requires Consistent(lists, arenas) && p in arenas && arenas[p].Small? && arenas[p].desc == d
    ensures 0 <= d < 7 && Consistent(lists[d := DropPage(lists[d], p)], arenas - {p})
  {
    assert ArenaOk(arenas[p]) && ListOk(lists[d], arenas, d);
    DropNoDup(lists[d], p);
    DropMembers(lists[d], p);
    var lists', arenas' := lists[d := DropPage(lists[d], p)], arenas - {p};
    forall e | 0 <= e < 7
      ensures ListOk(lists'[e], arenas', e)
    {
      assert ListOk(lists[e], arenas, e);
    }
    forall q | q in arenas' && arenas'[q].Small?
      ensures Count(lists'[arenas'[q].desc], q) == arenas'[q].freeCnt
    {
      DropCount(lists[d], p, q);
    }
  }

  lemma BigKeeps(lists: seq<seq<Block>>, arenas: map<int, Arena>, p: int, n: nat)
    requires Consistent(lists, arenas) && n > 0
    requires p !in arenas || arenas[p].Big?
    ensures Consistent(lists, arenas[p := Big(n)]) && Consistent(lists, arenas - {p})
  {
    forall e | 0 <= e < 7
      ensures ListOk(lists[e], arenas[p := Big(n)], e) && ListOk(lists[e], arenas - {p}, e)
    {
      assert ListOk(lists[e], arenas, e);
    }
  }

  /** No surviving arena changed its kind or size. */
  ghost predicate SameShapes(arenas: map<int, Arena>, arenas': map<int, Arena>) {
    forall p :: p in arenas && p in arenas' ==>
      Capacity(arenas'[p]) == Capacity(arenas[p]) && arenas'[p].PageCnt() == arenas[p].PageCnt()
      && arenas'[p].Small? == arenas[p].Small?
  }

  /** The live blocks after a step are those before it and `b`, and the others
      stay where and as large as they were. */
  ghost predicate Added(lists: seq<seq<Block>>, arenas: map<int, Arena>,
                        lists': seq<seq<Block>>, arenas': map<int, Arena>, b: Block) {
    && !LiveIn(lists, arenas, b) && LiveIn(lists', arenas', b)
    && (forall c :: c != b ==> (LiveIn(lists', arenas', c) <==> LiveIn(lists, arenas, c)))
    && SameShapes(arenas, arenas')
  }

  lemma PopAdds(lists: seq<seq<Block>>, arenas: map<int, Arena>, d: int, b: Block, rest: seq<Block>)
    requires Consistent(lists, arenas) && 0 <= d < 7 && lists[d] == [b] + rest
    requires b.page in arenas && arenas[b.page].Small? && arenas[b.page].desc == d
    requires b !in rest && 0 <= b.idx < PerArena(d)
    ensures Added(lists, arenas, lists[d := rest], arenas[b.page := Small(d, arenas[b.page].freeCnt - 1)], b)
  {
    assert b in lists[d];
  }

  /** A big arena holds the one block it begins with. */
  lemma BigAdds(lists: seq<seq<Block>>, arenas: map<int, Arena>, p: int, n: nat)
    requires p !in arenas
    ensures Added(lists, arenas, lists, arenas[p := Big(n)], Block(p, 0))
  {
  }

  lemma BigRemoved(lists: seq<seq<Block>>, arenas: map<int, Arena>, b: Block)
    requires b.page in arenas && arenas[b.page].Big? && b.idx == 0
    ensures Added(lists, arenas - {b.page}, lists, arenas, b)
  {
    assert forall c: Block :: c.page == b.page && LiveIn(lists, arenas, c) ==> c == b;
  }

  /** A new arena by itself makes no block live. */
  lemma GrowAddsNone(lists: seq<seq<Block>>, arenas: map<int, Arena>, d: int, p: int, s: seq<Block>, b: Block)
    requires |lists| == 7 && 0 <= d < 7 && p !in arenas && lists[d] == []
    requires |s| == PerArena(d) && forall k :: 0 <= k < |s| ==> s[k] == Block(p, k)
    ensures LiveIn(lists[d := s], arenas[p := Small(d, PerArena(d))], b) <==> LiveIn(lists, arenas, b)
  {
    if b.page == p && 0 <= b.idx < |s| {
      assert s[b.idx] == b;
    } else if b in s {
      assert b.page == p;
    }
  }

  lemma GrowPopAdds(lists: seq<seq<Block>>, arenas: map<int, Arena>, d: int, p: int, s: seq<Block>,
                    lists': seq<seq<Block>>, arenas': map<int, Arena>, b: Block)
    requires Consistent(lists, arenas) && 0 <= d < 7 && p !in arenas && lists[d] == []
    requires |s| == PerArena(d) && forall k :: 0 <= k < |s| ==> s[k] == Block(p, k)
    requires Added(lists[d := s], arenas[p := Small(d, PerArena(d))], lists', arenas', b)
    ensures Added(lists, arenas, lists', arenas', b)
  {
    forall c
      ensures LiveIn(lists[d := s], arenas[p := Small(d, PerArena(d))], c) <==> LiveIn(lists, arenas, c)
    {
      GrowAddsNone(lists, arenas, d, p, s, c);
    }
  }

  /** Freeing undoes what handing out did. */
  lemma PushRemoves(lists: seq<seq<Block>>, arenas: map<int, Arena>, d: int, b: Block)
    requires Consistent(lists, arenas) && LiveIn(lists, arenas, b)
    requires arenas[b.page].Small? && arenas[b.page].desc == d
    ensures Added(lists[d := [b] + lists[d]], arenas[b.page := Small(d, arenas[b.page].freeCnt + 1)],
                  lists, arenas, b)
  {
    assert b in [b] + lists[d];
  }

  /** Dropping an arena whose blocks are all free takes no live block away. */
  lemma DropRemovesNone(lists: seq<seq<Block>>, arenas: map<int, Arena>, d: int, p: int, b: Block)
    requires Consistent(lists, arenas) && p in arenas && arenas[p] == Small(d, PerArena(d))
    ensures 0 <= d < 7
    ensures LiveIn(lists[d := DropPage(lists[d], p)], arenas - {p}, b) <==> LiveIn(lists, arenas, b)
  {
    assert ArenaOk(arenas[p]) && ListOk(lists[d], arenas, d);
    AllFree(lists[d], p, PerArena(d));
    DropMembers(lists[d], p);
    if b.page == p && 0 <= b.idx < PerArena(d) {
      assert Block(p, b.idx) in lists[d];
    }
  }

  lemma PushDropRemoves(lists: seq<seq<Block>>, arenas: map<int, Arena>,
                        lists': seq<seq<Block>>, arenas': map<int, Arena>, d: int, b: Block)
    requires Consistent(lists', arenas') && Added(lists', arenas', lists, arenas, b)
    requires b.page in arenas' && arenas'[b.page] == Small(d, PerArena(d))
    ensures 0 <= d < 7
    ensures Added(lists'[d := DropPage(lists'[d], b.page)], arenas' - {b.page}, lists, arenas, b)
  {
    assert ArenaOk(arenas'[b.page]);
    forall c
      ensures LiveIn(lists'[d := DropPage(lists'[d], b.page)], arenas' - {b.page}, c) <==> LiveIn(lists', arenas', c)
    {
      DropRemovesNone(lists', arenas', d, b.page, c);
    }
  }

  /** Pages new to the page allocator are a new arena's own. */
  lemma OwnedGrows(arenas: map<int, Arena>, used: set<int>, p: int, a: Arena)
    requires Owned(arenas, used) && a.PageCnt() > 0 && Pages(p, a.PageCnt()) !! used
    ensures p !in arenas && Owned(arenas[p := a], used + Pages(p, a.PageCnt()))
  {
    assert p in Pages(p, a.PageCnt());
    assert p in arenas ==> p in Pages(p, arenas[p].PageCnt());
  }

  /** A change of an arena's free_cnt moves no page. */
  lemma OwnedKept(arenas: map<int, Arena>, used: set<int>, p: int, a: Arena)
    requires Owned(arenas, used) && p in arenas && arenas[p].PageCnt() == a.PageCnt()
    ensures Owned(arenas[p := a], used)
  {
  }

  lemma OwnedShrinks(arenas: map<int, Arena>, used: set<int>, p: int)
    requires Owned(arenas, used) && p in arenas
    ensures Owned(arenas - {p}, used - Pages(p, arenas[p].PageCnt()))
  {
  }

  lemma InRange(lists: seq<seq<Block>>, arenas: map<int, Arena>, p: int)
    requires Consistent(lists, arenas) && p in arenas && arenas[p].Small?
    ensures var d := arenas[p].desc;
      0 <= d < 7 && ListOk(lists[d], arenas, d) && 0 <= arenas[p].freeCnt <= PerArena(d)
  {
    assert ArenaOk(arenas[p]);
  }

  /** The arena is idle after a free just when the freed block was its last
      live one. */
  lemma LastLive(lists: seq<seq<Block>>, arenas: map<int, Arena>, b: Block)
    requires Consistent(lists, arenas) && LiveIn(lists, arenas, b) && arenas[b.page].Small?
    ensures var a := arenas[b.page];
      a.freeCnt + 1 >= PerArena(a.desc) <==> !exists c :: c != b && c.page == b.page && LiveIn(lists, arenas, c)
  {
    var d := arenas[b.page].desc;
    var n := PerArena(d);
    PushKeeps(lists, arenas, d, b);
    var s := [b] + lists[d];
    assert ListOk(s, arenas[b.page := Small(d, arenas[b.page].freeCnt + 1)], d);
    assert Count(s, b.page) == arenas[b.page].freeCnt + 1;
    if Count(s, b.page) == n {
      AllFree(s, b.page, n);
      forall c | c != b && c.page == b.page && 0 <= c.idx < n
        ensures !LiveIn(lists, arenas, c)
      {
        assert Block(b.page, c.idx) in s;
      }
    } else {
      var c := MissingBlock(s, b.page, n);
      assert c != b && LiveIn(lists, arenas, c);
    }
  }

  lemma SubsetSize(a: set<Block>, b: set<Block>)
    ensures a <= b ==> |a| <= |b|
  {
    if a <= b {
      assert b == a + (b - a);
    }
  }

  /** An arena short of free blocks has one that is not free. */
  lemma MissingBlock(s: seq<Block>, p: int, n: nat) returns (c: Block)
    requires NoDup(s) && Count(s, p) < n
    ensures c !in s && c.page == p && 0 <= c.idx < n
  {
    InPageSize(s, p);
    var a, all := InPage(s, p), Slots(p, n);
    SubsetSize(all, a);
    c :| c in all && c !in a;
  }

  /** Nothing is kept without need: every arena holds a live block, so once
      all blocks are freed every page is back. */
  lemma ArenaHasLive(lists: seq<seq<Block>>, arenas: map<int, Arena>, p: int)
    requires Consistent(lists, arenas) && NoneIdle(arenas) && p in arenas
    ensures exists b: Block :: b.page == p && LiveIn(lists, arenas, b)
  {
    if arenas[p].Small? {
      InRange(lists, arenas, p);
      var d := arenas[p].desc;
      var b := MissingBlock(lists[d], p, PerArena(d));
      assert LiveIn(lists, arenas, b);
    } else {
      assert LiveIn(lists, arenas, Block(p, 0));
    }
  }

  // ----------------------------------------------------- the allocator

  /** The first descriptor whose blocks are big enough, or 7. */
  method FindDescriptor(size: Size) returns (d: int)
    ensures 0 <= d <= 7
    ensures d < 7 ==> BlockSize(d) >= size
    ensures forall e :: 0 <= e < d ==> BlockSize(e) < size
  {
    d := 0;
    while d < DESC_CNT
      invariant 0 <= d <= 7
      invariant forall e :: 0 <= e < d ==> BlockSize(e) < size
    {
      if BlockSize(d) >= size {
        break;
      }
      d := d + 1;
    }
  }

  /** A size_t. */
  type Size = x: int | 0 <= x < 0x1_0000_0000

  /** Pages for a big block: `size` bytes and the header, rounded up in 32-bit
      arithmetic. Just below 2^32 the sum wraps: to no page at all, or, for
      the last eleven sizes, to one. */
  function BigPages(size: Size): (n: nat)
    ensures size <= 0xffff_fff4 && n > 0 ==> 4096 * (n - 1) < size + 12 <= 4096 * n
    ensures size < 0xffff_eff5 ==> n > 0
    ensures size > 0xffff_fff4 ==> n == 1
  {
    (size + 12 + 4095) % 0x1_0000_0000 / 4096
  }

  /** The block for a size that wraps. */
  lemma WrappedSize(a: Arena, size: Size)
    requires size > 0xffff_fff4
    requires match a case Small(d, _) => size <= BlockSize(d) case Big(n) => n == BigPages(size)
    ensures a == Big(1) && Capacity(a) == 4084
  {
  }

  function PagesFor(size: Size): nat {
    if size > 1024 then BigPages(size) else 1
  }

  // --------------------------------------------------- bytes of memory

  type Memory = imap<int, int>

  ghost predicate Total(mem: Memory) {
    forall a: int :: a in mem
  }

  /** The `n` bytes at `to` in `out` are those at `at` in `mem`. */
  ghost predicate SameBytes(mem: Memory, at: int, out: Memory, to: int, n: int)
    requires Total(mem) && Total(out)
  {
    forall a :: at <= a < at + n ==> mem[a] == out[a + (to - at)]
  }

  lemma SameBytesTrans(mem: Memory, at: int, mid: Memory, to: int, n: int, out: Memory, m: int)
    requires Total(mem) && Total(mid) && Total(out) && n <= m
    requires SameBytes(mem, at, mid, to, n) && SameBytes(mid, to, out, to, m)
    ensures SameBytes(mem, at, out, to, n)
  {
  }

  /** A write within one live block leaves the bytes of the others alone. */
  lemma WriteElsewhere(lists: seq<seq<Block>>, arenas: map<int, Arena>, used: set<int>, b: Block, c: Block,
                       mem: Memory, out: Memory)
    requires Consistent(lists, arenas) && Owned(arenas, used) && Total(mem) && Total(out)
    requires LiveIn(lists, arenas, b) && LiveIn(lists, arenas, c) && b != c
    requires var x := arenas[b.page];
      forall a :: a < Address(x, b) || Address(x, b) + Capacity(x) <= a ==> out[a] == mem[a]
    ensures var y := arenas[c.page]; SameBytes(mem, Address(y, c), out, Address(y, c), Capacity(y))
  {
    LiveDisjoint(lists, arenas, used, b, c);
  }

  /** Every live block but `b` has the same bytes in both. */
  ghost predicate Kept(lists: seq<seq<Block>>, arenas: map<int, Arena>, b: Block, mem: Memory, out: Memory)
    requires Total(mem) && Total(out)
  {
    forall c :: LiveIn(lists, arenas, c) && c != b ==>
      var y := arenas[c.page]; SameBytes(mem, Address(y, c), out, Address(y, c), Capacity(y))
  }

  lemma KeptTwice(lists: seq<seq<Block>>, arenas: map<int, Arena>, r: Block, b: Block,
                  mem: Memory, mid: Memory, out: Memory)
    requires Total(mem) && Total(mid) && Total(out)
    requires Kept(lists, arenas, r, mem, mid) && Kept(lists, arenas, b, mid, out)
    ensures KeptBoth(lists, arenas, r, b, mem, out)
  {
    forall c | LiveIn(lists, arenas, c) && c != b && c != r
      ensures var y := arenas[c.page]; SameBytes(mem, Address(y, c), out, Address(y, c), Capacity(y))
    {
      var y := arenas[c.page];
      SameBytesTrans(mem, Address(y, c), mid, Address(y, c), Capacity(y), out, Capacity(y));
    }
  }

  lemma WriteKeeps(lists: seq<seq<Block>>, arenas: map<int, Arena>, used: set<int>, b: Block, mem: Memory, out: Memory)
    requires Consistent(lists, arenas) && Owned(arenas, used) && Total(mem) && Total(out)
    requires LiveIn(lists, arenas, b)
    requires var x := arenas[b.page];
      forall a :: a < Address(x, b) || Address(x, b) + Capacity(x) <= a ==> out[a] == mem[a]
    ensures Kept(lists, arenas, b, mem, out)
  {
    forall c | LiveIn(lists, arenas, c) && c != b
      ensures var y := arenas[c.page]; SameBytes(mem, Address(y, c), out, Address(y, c), Capacity(y))
    {
      WriteElsewhere(lists, arenas, used, b, c, mem, out);
    }
  }

  /** Every block live before, but `b`, is live after, with its place, size
      and bytes. */
  ghost predicate Untouched(lists: seq<seq<Block>>, arenas: map<int, Arena>,
                            lists': seq<seq<Block>>, arenas': map<int, Arena>,
                            b: Option<Block>, mem: Memory, out: Memory)
    requires Total(mem) && Total(out)
  {
    forall c :: LiveIn(lists, arenas, c) && b != Some(c) ==>
      && LiveIn(lists', arenas', c)
      && Address(arenas'[c.page], c) == Address(arenas[c.page], c)
      && Capacity(arenas'[c.page]) == Capacity(arenas[c.page])
      && SameBytes(mem, Address(arenas[c.page], c), out, Address(arenas[c.page], c), Capacity(arenas[c.page]))
  }

  lemma AddedUntouched(lists: seq<seq<Block>>, arenas: map<int, Arena>,
                       lists': seq<seq<Block>>, arenas': map<int, Arena>, b: Block, mem: Memory)
    requires Total(mem) && Added(lists, arenas, lists', arenas', b)
    ensures Untouched(lists, arenas, lists', arenas', None, mem, mem)
  {
  }

  lemma RemovedUntouched(lists: seq<seq<Block>>, arenas: map<int, Arena>,
                         lists': seq<seq<Block>>, arenas': map<int, Arena>, b: Block, mem: Memory, out: Memory)
    requires Total(mem) && Total(out) && Added(lists', arenas', lists, arenas, b)
    requires Kept(lists, arenas, b, mem, out)
    ensures Untouched(lists, arenas, lists', arenas', Some(b), mem, out)
  {
  }

  /** A block handed out and another freed, with the bytes of all others kept. */
  lemma MovedUntouched(l: seq<seq<Block>>, m: map<int, Arena>, l1: seq<seq<Block>>, m1: map<int, Arena>,
                       l2: seq<seq<Block>>, m2: map<int, Arena>, r: Block, b: Block, mem: Memory, out: Memory)
    requires Total(mem) && Total(out) && Added(l, m, l1, m1, r) && Added(l2, m2, l1, m1, b)
    requires KeptBoth(l1, m1, r, b, mem, out)
    ensures Untouched(l, m, l2, m2, Some(b), mem, out)
  {
  }

  ghost predicate KeptBoth(lists: seq<seq<Block>>, arenas: map<int, Arena>, r: Block, b: Block,
                           mem: Memory, out: Memory)
    requires Total(mem) && Total(out)
  {
    forall c :: LiveIn(lists, arenas, c) && c != b && c != r ==>
      var y := arenas[c.page]; SameBytes(mem, Address(y, c), out, Address(y, c), Capacity(y))
  }

  lemma Roomy(lists: seq<seq<Block>>, arenas: map<int, Arena>, b: Block)
    requires Consistent(lists, arenas) && LiveIn(lists, arenas, b)
    ensures Capacity(arenas[b.page]) > 0
  {
    assert ArenaOk(arenas[b.page]);
  }

  lemma NoChange(lists: seq<seq<Block>>, arenas: map<int, Arena>, mem: Memory)
    requires Total(mem)
    ensures forall b :: Untouched(lists, arenas, lists, arenas, b, mem, mem)
  {
  }

  lemma KeepsPlace(lists: seq<seq<Block>>, arenas: map<int, Arena>,
                   lists': seq<seq<Block>>, arenas': map<int, Arena>, mem: Memory, b: Block)
    requires Total(mem) && Untouched(lists, arenas, lists', arenas', None, mem, mem) && LiveIn(lists, arenas, b)
    ensures LiveIn(lists', arenas', b)
    ensures Address(arenas'[b.page], b) == Address(arenas[b.page], b)
    ensures Capacity(arenas'[b.page]) == Capacity(arenas[b.page])
  {
  }

  lemma RemovedPlace(lists: seq<seq<Block>>, arenas: map<int, Arena>,
                     lists': seq<seq<Block>>, arenas': map<int, Arena>, b: Block, r: Block)
    requires Added(lists', arenas', lists, arenas, b) && LiveIn(lists, arenas, r) && r != b
    ensures LiveIn(lists', arenas', r)
    ensures Address(arenas'[r.page], r) == Address(arenas[r.page], r)
    ensures Capacity(arenas'[r.page]) == Capacity(arenas[r.page])
    ensures arenas'[r.page].Small? == arenas[r.page].Small?
  {
  }

  /** The smallest kind of block for `size` bytes: of the smallest descriptor
      that fits, or else of whole pages. */
  ghost predicate SmallestFor(a: Arena, size: Size) {
    if a.Small? then
      size <= Capacity(a) && forall e :: 0 <= e < 7 && size <= BlockSize(e) ==> Capacity(a) <= BlockSize(e)
    else size > 1024 && Capacity(a) == 4096 * BigPages(size) - 12
  }

  lemma MallocIsSmallest(a: Arena, size: Size)
    requires match a
      case Small(d, _) => 0 <= d < 7 && size <= BlockSize(d) && forall e :: 0 <= e < d ==> BlockSize(e) < size
      case Big(n) => size > 1024 && n == BigPages(size)
    ensures SmallestFor(a, size)
  {
    if a.Small? {
      forall e | 0 <= e < 7 && size <= BlockSize(e)
        ensures Capacity(a) <= BlockSize(e)
      {
        assert a.desc <= e;
      }
    }
  }

  /** memset */
  method Fill(mem: Memory, at: int, n: nat, v: int) returns (out: Memory)
    requires Total(mem)
    ensures Total(out)
    ensures forall a :: out[a] == if at <= a < at + n then v else mem[a]
  {
    out := mem;
    var i := 0;
    while i < n
      invariant 0 <= i <= n && Total(out)
      invariant forall a :: out[a] == if at <= a < at + i then v else mem[a]
    {
      out := out[at + i := v];
      i := i + 1;
    }
  }

  /** memcpy; it promises a copy only where the regions do not overlap. */
  method Copy(mem: Memory, dst: int, src: int, n: nat) returns (out: Memory)
    requires Total(mem)
    ensures Total(out)
    ensures dst + n <= src || src + n <= dst ==> SameBytes(mem, src, out, dst, n)
    ensures forall a :: !(dst <= a < dst + n) ==> out[a] == mem[a]
  {
    out := mem;
    var i := 0;
    while i < n
      invariant 0 <= i <= n && Total(out)
      invariant dst + n <= src || src + n <= dst ==> forall a :: dst <= a < dst + i ==> out[a] == mem[a + (src - dst)]
      invariant forall a :: !(dst <= a < dst + i) ==> out[a] == mem[a]
    {
      out := out[dst + i := out[src + i]];
      i := i + 1;
    }
  }

  /** How many bytes realloc copies. */
  function Copied(size: int, oldSize: int): int {
    if size < oldSize then size else oldSize
  }

  class Heap {
    const alloc: Allocator
    var lists: seq<seq<Block>>
    var arenas: map<int, Arena>

    constructor (alloc: Allocator)
      requires alloc.Valid()
      ensures Valid() && this.alloc == alloc
      ensures forall b :: !Live(b)
    {
      this.alloc := alloc;
      lists := [[], [], [], [], [], [], []];
      arenas := map[];
    }

    ghost predicate Valid()
      reads this, alloc.kernel.usedMap.bits, alloc.user.usedMap.bits
    {
      && alloc.Valid()
      && Consistent(lists, arenas)
      && NoneIdle(arenas)
      && Owned(arenas, KernelPages())
    }

    /** The kernel pages in use, by this allocator or by others. */
    ghost function KernelPages(): set<int>
      reads alloc.kernel.usedMap.bits, alloc.user.usedMap.bits
      requires alloc.Valid()
    {
      alloc.Used() * alloc.kernel.Range()
    }

    /** The kernel pool has no group of `cnt` free pages. */
    ghost predicate NoRoom(cnt: nat)
      reads alloc.kernel.usedMap.bits
      requires alloc.Valid()
    {
      forall p :: alloc.kernel.base <= p ==> !alloc.kernel.Free(p, cnt)
    }

    ghost predicate Live(b: Block)
      reads this
    {
      LiveIn(lists, arenas, b)
    }

    /** malloc for a size beyond every descriptor. */
    method MallocBig(size: Size) returns (r: Option<Block>)
      requires Valid()
      modifies this, alloc.kernel.usedMap.bits, alloc.user.usedMap.bits
      ensures Valid()
      ensures r.None? ==> lists == old(lists) && arenas == old(arenas) && alloc.Used() == old(alloc.Used())
      ensures r.None? ==> BigPages(size) == 0 || old(NoRoom(BigPages(size)))
      ensures r.Some? ==> Added(old(lists), old(arenas), lists, arenas, r.value)
      ensures r.Some? ==> BigPages(size) > 0 && arenas[r.value.page] == Big(BigPages(size))
      ensures r.Some? ==> alloc.Used() == old(alloc.Used()) + Pages(r.value.page, BigPages(size))
    {
      hide ArenaOk, ListOk, Owned, Consistent, Added;
      var n := BigPages(size);
      var p := alloc.GetMultiple(false, n);
      if p.None? {
        return None;
      }
      OwnedGrows(arenas, old(KernelPages()), p.value, Big(n));
      assert old(KernelPages()) + Pages(p.value, n) == KernelPages();
      BigKeeps(lists, arenas, p.value, n);
      BigAdds(lists, arenas, p.value, n);
      arenas := arenas[p.value := Big(n)];
      r := Some(Block(p.value, 0));
    }

    /** A fresh arena for descriptor `d`: its blocks, in order, become the
        free list. */
    method AddArena(d: int, p: int)
      requires 0 <= d < 7 && |lists| == 7 && lists[d] == []
      modifies this
      ensures |lists| == 7 && |lists[d]| == PerArena(d)
      ensures forall k :: 0 <= k < |lists[d]| ==> lists[d][k] == Block(p, k)
      ensures lists == old(lists)[d := lists[d]]
      ensures arenas == old(arenas)[p := Small(d, PerArena(d))]
    {
      arenas := arenas[p := Small(d, PerArena(d))];
      var i := 0;
      while i < PerArena(d)
        invariant 0 <= i <= PerArena(d) && |lists| == 7 && |lists[d]| == i
        invariant forall k :: 0 <= k < i ==> lists[d][k] == Block(p, k)
        invariant lists == old(lists)[d := lists[d]]
        invariant arenas == old(arenas)[p := Small(d, PerArena(d))]
      {
        lists := lists[d := lists[d] + [Block(p, i)]];
        i := i + 1;
      }
    }

    /** The new-arena part of malloc. Until a block is taken the new arena is
        idle. */
    method Refill(d: int) returns (p: Option<int>)
      requires Valid() && 0 <= d < 7 && lists[d] == []
      modifies this, alloc.kernel.usedMap.bits, alloc.user.usedMap.bits
      ensures p.None? ==> Valid() && lists == old(lists) && arenas == old(arenas)
      ensures p.None? ==> alloc.Used() == old(alloc.Used())
      ensures p.None? ==> old(NoRoom(1))
      ensures p.Some? ==>
        && Consistent(lists, arenas) && lists[d] != []
        && p.value !in old(arenas) && arenas == old(arenas)[p.value := Small(d, PerArena(d))]
        && lists[d][0] == Block(p.value, 0)
        && (forall k :: 0 <= k < |lists[d]| ==> lists[d][k] == Block(p.value, k))
        && |lists[d]| == PerArena(d)
        && lists == old(lists)[d := lists[d]]
        && Owned(arenas, KernelPages())
        && alloc.Used() == old(alloc.Used()) + Pages(p.value, 1)
    {
      p := alloc.GetMultiple(false, 1);
      if p.Some? {
        OwnedGrows(arenas, old(KernelPages()), p.value, Small(d, PerArena(d)));
        assert old(KernelPages()) + Pages(p.value, 1) == KernelPages();
        AddArena(d, p.value);
        GrowKeeps(old(lists), old(arenas), d, p.value, lists[d]);
      }
    }

    /** Popping the front free block. */
    method TakeFront(d: int) returns (b: Block)
      requires 0 <= d < 7 && Consistent(lists, arenas) && lists[d] != []
      modifies this
      ensures b == old(lists[d][0]) && b in old(lists[d])
      ensures b.page in old(arenas) && old(arenas)[b.page].Small? && old(arenas)[b.page].desc == d
      ensures old(arenas)[b.page].freeCnt > 0 && 0 <= b.idx < PerArena(d) && b !in old(lists[d])[1..]
      ensures lists == old(lists)[d := old(lists[d])[1..]]
      ensures arenas == old(arenas)[b.page := Small(d, old(arenas)[b.page].freeCnt - 1)]
      ensures Consistent(lists, arenas) && Added(old(lists), old(arenas), lists, arenas, b)
    {
      b := lists[d][0];
      assert lists[d] == [b] + lists[d][1..];
      PopKeeps(lists, arenas, d, b, lists[d][1..]);
      PopAdds(lists, arenas, d, b, lists[d][1..]);
      lists := lists[d := lists[d][1..]];
      arenas := arenas[b.page := arenas[b.page].(freeCnt := arenas[b.page].freeCnt - 1)];
    }

    /** malloc from descriptor `d`. */
    method MallocSmall(d: int) returns (r: Option<Block>)
      requires Valid() && 0 <= d < 7
      modifies this, alloc.kernel.usedMap.bits, alloc.user.usedMap.bits
      ensures Valid()
      ensures r.None? ==> lists == old(lists) && arenas == old(arenas) && alloc.Used() == old(alloc.Used())
      ensures r.None? ==> old(lists[d]) == []
      ensures r.None? ==> old(NoRoom(1))
      ensures r.Some? ==> Added(old(lists), old(arenas), lists, arenas, r.value)
      ensures r.Some? ==> arenas[r.value.page].Small? && arenas[r.value.page].desc == d
      ensures r.Some? && old(lists[d]) == [] ==> alloc.Used() == old(alloc.Used()) + Pages(r.value.page, 1)
      ensures r.Some? && old(lists[d]) != [] ==> alloc.Used() == old(alloc.Used())
    {
      hide ArenaOk, ListOk, Added, PerArena, BlockSize, Owned;
      if lists[d] != [] {
        var b := TakeFront(d);
        OwnedKept(old(arenas), KernelPages(), b.page, arenas[b.page]);
        return Some(b);
      }
      var p := Refill(d);
      if p.None? {
        return None;
      }
      ghost var s := lists[d];
      ghost var grown := arenas;
      var b := TakeFront(d);
      OwnedKept(grown, KernelPages(), b.page, arenas[b.page]);
      GrowPopAdds(old(lists), old(arenas), d, p.value, s, lists, arenas, b);
      r := Some(b);
    }

    /** malloc: the block is new and of the smallest kind that would do, and it
        is large enough if and only if the size leaves room for the header in
        a size_t. It fails only for size 0, for a page count that wraps to 0
        or for want of free pages, and then changes nothing. */
    method Malloc(size: Size) returns (r: Option<Block>)
      requires Valid()
      modifies this, alloc.kernel.usedMap.bits, alloc.user.usedMap.bits
      ensures Valid()
      ensures r.None? ==> lists == old(lists) && arenas == old(arenas) && alloc.Used() == old(alloc.Used())
      ensures r.None? && size > 0 ==> PagesFor(size) == 0 || old(NoRoom(PagesFor(size)))
      ensures r.Some? ==> Added(old(lists), old(arenas), lists, arenas, r.value)
      ensures r.Some? ==> 0 < size && (size <= Capacity(arenas[r.value.page]) <==> size <= 0xffff_fff4)
      ensures r.Some? ==> match arenas[r.value.page]
        case Small(d, _) => size <= BlockSize(d) && forall e :: 0 <= e < d ==> BlockSize(e) < size
        case Big(n) => size > 1024 && n == BigPages(size)
      ensures r.Some? ==> match arenas[r.value.page]
        case Small(d, _) =>
          0 <= d < 7 && alloc.Used() == old(alloc.Used()) + if old(lists[d]) == [] then Pages(r.value.page, 1) else {}
        case Big(n) => alloc.Used() == old(alloc.Used()) + Pages(r.value.page, n)
      ensures r.None? && 0 < size <= 1024 ==>
        exists d :: 0 <= d < 7 && lists[d] == [] && size <= BlockSize(d) &&
          forall e :: 0 <= e < d ==> BlockSize(e) < size
    {
      hide ArenaOk, ListOk, Added, Owned, NoneIdle, Consistent;
      if size == 0 {
        return None;
      }
      var d := FindDescriptor(size);
      if d == DESC_CNT {
        assert BlockSize(6) < size;
        assert PagesFor(size) == BigPages(size);
        r := MallocBig(size);
      } else {
        assert PagesFor(size) == 1;
        r := MallocSmall(d);
      }
    }

    /** malloc of the largest size_t: as long as there is a free page it
        succeeds, with a block of 4084 bytes. */
    method MallocLargest() returns (r: Option<Block>)
      requires Valid()
      modifies this, alloc.kernel.usedMap.bits, alloc.user.usedMap.bits
      ensures Valid() && (!old(NoRoom(1)) ==> r.Some?)
      ensures r.Some? ==> Added(old(lists), old(arenas), lists, arenas, r.value)
      ensures r.Some? ==> arenas[r.value.page] == Big(1) && Capacity(arenas[r.value.page]) == 4084
    {
      hide ArenaOk, ListOk, Added, Owned, NoneIdle, Consistent, PerArena;
      r := Malloc(0xffff_ffff);
    }

    /** Taking every block of an idle arena off its free list. */
    method TearDown(d: int, p: int)
      requires 0 <= d < 7 && |lists| == 7 && NoDup(lists[d])
      requires forall b :: b in lists[d] && b.page == p ==> 0 <= b.idx < PerArena(d)
      requires forall i :: 0 <= i < PerArena(d) ==> Block(p, i) in lists[d]
      modifies this`lists
      ensures lists == old(lists)[d := DropPage(old(lists[d]), p)]
    {
      ghost var l0 := lists[d];
      var i := 0;
      while i < PerArena(d)
        invariant 0 <= i <= PerArena(d) && |lists| == 7 && NoDup(lists[d])
        invariant lists == old(lists)[d := lists[d]]
        invariant forall b :: b in lists[d] <==> b in l0 && !(b.page == p && b.idx < i)
        invariant DropPage(lists[d], p) == DropPage(l0, p)
      {
        RemoveMembers(lists[d], Block(p, i));
        RemoveCounts(lists[d], Block(p, i), p);
        lists := lists[d := Remove(lists[d], Block(p, i))];
        i := i + 1;
      }
      CountZero(lists[d], p);
    }

    /** free on a normal block. */
    method FreeSmall(b: Block)
      requires Valid() && Live(b) && arenas[b.page].Small?
      modifies this, alloc.kernel.usedMap.bits, alloc.user.usedMap.bits
      ensures Valid()
      ensures Added(lists, arenas, old(lists), old(arenas), b)
      ensures (exists c :: c != b && c.page == b.page && old(Live(c))) ==> alloc.Used() == old(alloc.Used())
      ensures (!exists c :: c != b && c.page == b.page && old(Live(c))) ==>
        alloc.Used() == old(alloc.Used()) - Pages(b.page, 1)
    {
      hide ArenaOk, Added, PerArena, BlockSize, Owned, Count, NoDup, DropPage;
      var d := arenas[b.page].desc;
      assert 0 <= d < 7 by { InRange(lists, arenas, b.page); }
      LastLive(lists, arenas, b);
      PushKeeps(lists, arenas, d, b);
      PushRemoves(lists, arenas, d, b);
      OwnedKept(arenas, KernelPages(), b.page, Small(d, arenas[b.page].freeCnt + 1));
      lists := lists[d := [b] + lists[d]];
      arenas := arenas[b.page := arenas[b.page].(freeCnt := arenas[b.page].freeCnt + 1)];
      if arenas[b.page].freeCnt >= PerArena(d) {
        ReturnPage(d, b, old(lists), old(arenas));
      }
    }

    /** The arena is entirely unused: its blocks leave the free list and its
        page goes back to the page allocator. */
    method ReturnPage(d: int, b: Block, ghost was: seq<seq<Block>>, ghost wasArenas: map<int, Arena>)
      requires alloc.Valid() && Consistent(lists, arenas) && Owned(arenas, KernelPages())
      requires b.page in arenas && arenas[b.page].Small? && arenas[b.page].desc == d
      requires arenas[b.page].freeCnt >= PerArena(d)
      requires NoneIdle(arenas - {b.page})
      requires Added(lists, arenas, was, wasArenas, b)
      modifies this, alloc.kernel.usedMap.bits, alloc.user.usedMap.bits
      ensures Valid()
      ensures Added(lists, arenas, was, wasArenas, b)
      ensures alloc.Used() == old(alloc.Used()) - Pages(b.page, 1)
    {
      hide Added, PerArena, BlockSize, LiveIn, Count, NoDup, DropPage;
      InRange(lists, arenas, b.page);
      AllFree(lists[d], b.page, PerArena(d));
      PushDropRemoves(was, wasArenas, lists, arenas, d, b);
      DropKeeps(lists, arenas, d, b.page);
      OwnedShrinks(arenas, KernelPages(), b.page);
      TearDown(d, b.page);
      assert Pages(b.page, 1) <= old(KernelPages());
      alloc.FreeMultiple(b.page, 1);
      assert old(KernelPages()) - Pages(b.page, 1) == KernelPages();
      arenas := arenas - {b.page};
    }

    /** free on a big block. */
    method FreeBig(b: Block)
      requires Valid() && Live(b) && arenas[b.page].Big?
      modifies this, alloc.kernel.usedMap.bits, alloc.user.usedMap.bits
      ensures Valid()
      ensures Added(lists, arenas, old(lists), old(arenas), b)
      ensures alloc.Used() == old(alloc.Used()) - Pages(b.page, old(arenas)[b.page].pageCnt)
    {
      hide ArenaOk, ListOk, Consistent, Added;
      var n := arenas[b.page].pageCnt;
      BigRemoved(lists, arenas, b);
      OwnedShrinks(arenas, KernelPages(), b.page);
      BigKeeps(lists, arenas, b.page, 1);
      assert Pages(b.page, n) <= old(KernelPages());
      alloc.FreeMultiple(b.page, n);
      assert old(KernelPages()) - Pages(b.page, n) == KernelPages();
      arenas := arenas - {b.page};
    }

    /** The address and size of a live block. */
    function At(b: Block): int
      reads this
      requires b.page in arenas
    {
      Address(arenas[b.page], b)
    }

    function SizeOf(b: Block): int
      reads this
      requires b.page in arenas
    {
      Capacity(arenas[b.page])
    }

    /** free: exactly that block stops being live, no other block's bytes
        change, and its pages go back to the page allocator just when no
        other block in them is live. */
    method Free(r: Option<Block>, mem: Memory) returns (out: Memory)
      requires Valid() && Total(mem) && (r.Some? ==> Live(r.value))
      modifies this, alloc.kernel.usedMap.bits, alloc.user.usedMap.bits
      ensures Valid() && Total(out)
      ensures r.None? ==> lists == old(lists) && arenas == old(arenas) && alloc.Used() == old(alloc.Used())
      ensures r.None? ==> out == mem
      ensures r.Some? ==> Added(lists, arenas, old(lists), old(arenas), r.value)
      ensures r.Some? && (exists c :: c != r.value && c.page == r.value.page && old(Live(c))) ==>
        alloc.Used() == old(alloc.Used())
      ensures r.Some? && (!exists c :: c != r.value && c.page == r.value.page && old(Live(c))) ==>
        alloc.Used() == old(alloc.Used()) - Pages(r.value.page, old(arenas)[r.value.page].PageCnt())
      ensures r.Some? ==> Kept(old(lists), old(arenas), r.value, mem, out)
    {
      hide ArenaOk, Added, PerArena, BlockSize, Owned, Consistent, NoneIdle;
      out := mem;
      if r.None? {
        return;
      }
      if arenas[r.value.page].Small? {
        out := Fill(mem, At(r.value), SizeOf(r.value), 0xcc);
        WriteKeeps(lists, arenas, KernelPages(), r.value, mem, out);
        FreeSmall(r.value);
      } else {
        FreeBig(r.value);
      }
    }

    /** The move in realloc: the new block gets the old one's first bytes, if
        they fit in it, and the old one is freed. */
    method Move(b: Block, r: Block, n: nat, mem: Memory) returns (out: Memory)
      requires Valid() && Total(mem) && Live(b) && Live(r) && b != r && n <= SizeOf(b)
      modifies this, alloc.kernel.usedMap.bits, alloc.user.usedMap.bits
      ensures Valid() && Total(out)
      ensures Added(lists, arenas, old(lists), old(arenas), b)
      ensures n <= old(SizeOf(r)) ==> SameBytes(mem, old(At(b)), out, old(At(r)), n)
      ensures n <= old(SizeOf(r)) ==> KeptBoth(old(lists), old(arenas), r, b, mem, out)
    {
      hide Consistent, Owned, NoneIdle, Address, Capacity, Added, SameBytes;
      ghost var l, m := lists, arenas;
      LiveDisjoint(lists, arenas, KernelPages(), b, r);
      var mid := Copy(mem, At(r), At(b), n);
      ghost var fits := n <= SizeOf(r);
      if fits {
        WriteKeeps(lists, arenas, KernelPages(), r, mem, mid);
      }
      out := Free(Some(b), mid);
      if fits {
        SameBytesTrans(mem, old(At(b)), mid, old(At(r)), n, out, old(SizeOf(r)));
        KeptTwice(l, m, r, b, mem, mid, out);
      }
    }

    /** realloc: on success the block is as large as malloc makes it, and the
        old one is no longer live. What is copied fits in it if and only if
        the size leaves room for the header in a size_t or the old block had
        at most 4084 bytes. Then the new block begins with the bytes of the
        old one, and every other live block keeps its place and bytes. On
        failure nothing changes. */
    method Realloc(b: Option<Block>, size: Size, mem: Memory) returns (r: Option<Block>, out: Memory)
      requires Valid() && Total(mem) && (b.Some? ==> Live(b.value))
      modifies this, alloc.kernel.usedMap.bits, alloc.user.usedMap.bits
      ensures Valid() && Total(out)
      ensures r.Some? ==> !old(Live(r.value)) && Live(r.value)
      ensures r.Some? ==> 0 < size && (size <= SizeOf(r.value) <==> size <= 0xffff_fff4)
      ensures r.Some? ==> SmallestFor(arenas[r.value.page], size)
      ensures r.None? && size > 0 ==> lists == old(lists) && arenas == old(arenas) && out == mem
      ensures r.None? && size > 0 ==> PagesFor(size) == 0 || old(NoRoom(PagesFor(size)))
      ensures size == 0 ==> r.None?
      ensures r.Some? || size == 0 ==> forall c :: r != Some(c) ==> (Live(c) <==> old(Live(c)) && b != Some(c))
      ensures r.Some? && b.Some? ==>
        (Copied(size, old(SizeOf(b.value))) <= SizeOf(r.value) <==>
         size <= 0xffff_fff4 || old(SizeOf(b.value)) <= 4084)
      ensures r.Some? && b.Some? && (size <= 0xffff_fff4 || old(SizeOf(b.value)) <= 4084) ==>
        SameBytes(mem, old(At(b.value)), out, At(r.value), Copied(size, old(SizeOf(b.value))))
      ensures (r.Some? && b.Some? ==> size <= 0xffff_fff4 || old(SizeOf(b.value)) <= 4084) ==>
        Untouched(old(lists), old(arenas), lists, arenas, b, mem, out)
    {
      hide Consistent, Owned, NoneIdle, Address, Capacity, SameBytes, Untouched, Kept, KeptBoth, SameShapes;
      out := mem;
      if size == 0 {
        out := Free(b, mem);
        NoChange(lists, arenas, mem);
        if b.Some? {
          RemovedUntouched(old(lists), old(arenas), lists, arenas, b.value, mem, out);
        }
        return None, out;
      }
      NoChange(lists, arenas, mem);
      r := Malloc(size);
      if r.Some? {
        AddedUntouched(old(lists), old(arenas), lists, arenas, r.value, mem);
        if size > 0xffff_fff4 {
          WrappedSize(arenas[r.value.page], size);
        }
        MallocIsSmallest(arenas[r.value.page], size);
        if b.Some? {
          ghost var l1, m1 := lists, arenas;
          KeepsPlace(old(lists), old(arenas), lists, arenas, mem, b.value);
          Roomy(lists, arenas, b.value);
          var n := Copied(size, SizeOf(b.value));
          ghost var fits := n <= SizeOf(r.value);
          out := Move(b.value, r.value, n, mem);
          RemovedPlace(l1, m1, lists, arenas, b.value, r.value);
          if fits {
            MovedUntouched(old(lists), old(arenas), l1, m1, lists, arenas, r.value, b.value, mem, out);
          }
        }
      }
    }
  }
}
