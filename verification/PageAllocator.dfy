/** The page allocator of src/threads/palloc.c: a first-fit bitmap over each of
    two pools. Pages are named by their virtual page number. */
module PageAllocator {
  import opened Options
  import opened Bitmaps

  /** The pages `p .. p + cnt - 1`. */
  ghost function Pages(p: int, cnt: nat): (s: set<int>)
    ensures forall x :: x in s <==> p <= x < p + cnt
  {
    if cnt == 0 then {} else Pages(p, cnt - 1) + {p + cnt - 1}
  }

  class Pool {
    const base: int
    const usedMap: Bitmap

    constructor (base: int, cnt: nat)
      ensures this.base == base && usedMap.bitCnt == cnt && Valid()
      ensures fresh(usedMap) && fresh(usedMap.bits) && Used() == {}
    {
      this.base := base;
      usedMap := new Bitmap(cnt);
    }

    ghost predicate Valid() {
      usedMap.Valid()
    }

    ghost function Range(): set<int> {
      Pages(base, usedMap.bitCnt)
    }

    ghost predicate IsUsed(x: int)
      reads usedMap.bits
      requires Valid() && base <= x < base + usedMap.bitCnt
    {
      usedMap.Contents()[x - base]
    }

    ghost function Used(): set<int>
      reads usedMap.bits
      requires Valid()
    {
      set x | base <= x < base + usedMap.bitCnt && IsUsed(x)
    }

    /** A group of free pages that would do. */
    ghost predicate Free(p: int, cnt: nat)
      reads usedMap.bits
      requires Valid()
    {
      Pages(p, cnt) <= Range() - Used()
    }

    lemma FreeIsRun(i: nat, cnt: nat)
      requires Valid() && cnt > 0
      ensures Free(base + i, cnt) <==> Run(usedMap.Contents(), i, cnt, false)
    {
      var s := usedMap.Contents();
      if Run(s, i, cnt, false) {
        forall x | x in Pages(base + i, cnt)
          ensures x in Range() - Used()
        {
          assert s[x - base] == false;
        }
      }
      if Free(base + i, cnt) {
        assert base + i + cnt - 1 in Pages(base + i, cnt);
        forall k | i <= k < i + cnt
          ensures s[k] == false
        {
          assert base + k in Pages(base + i, cnt);
          assert !IsUsed(base + k);
        }
      }
    }

    /** The bitmap part of palloc_get_multiple: the first free group. */
    method Get(cnt: nat) returns (r: Option<int>)
      requires Valid() && cnt > 0
      modifies usedMap.bits
      ensures r.Some? ==> old(Free(r.value, cnt)) && Used() == old(Used()) + Pages(r.value, cnt)
      ensures r.None? ==> Used() == old(Used())
      ensures forall p :: base <= p && (r.Some? ==> p < r.value) ==> !old(Free(p, cnt))
    {
      ghost var before := usedMap.Contents();
      forall p | base <= p
        ensures Free(p, cnt) <==> Run(before, p - base, cnt, false)
      {
        FreeIsRun(p - base, cnt);
      }
      var idx := usedMap.ScanAndFlip(0, cnt, false);
      if idx.None? {
        r := None;
      } else {
        r := Some(base + idx.value);
        assert forall x :: base <= x < base + usedMap.bitCnt ==>
          (IsUsed(x) <==> x in Pages(r.value, cnt) || old(IsUsed(x)));
      }
    }

    /** The bitmap part of palloc_free_multiple. */
    method Put(p: int, cnt: nat)
      requires Valid() && base <= p && p + cnt <= base + usedMap.bitCnt
      modifies usedMap.bits
      ensures Used() == old(Used()) - Pages(p, cnt)
    {
      usedMap.SetMultiple(p - base, cnt, false);
      assert forall x :: base <= x < base + usedMap.bitCnt ==>
        (IsUsed(x) <==> x !in Pages(p, cnt) && old(IsUsed(x)));
    }
  }

  /** First page after the first megabyte of physical memory, at PHYS_BASE. */
  const FREE_START: int := 0xC0100

  /** Pages that init_pool sets aside for a pool's own bitmap of `cnt` bits. */
  function BitmapPages(cnt: nat): nat {
    (8 + 4 * ((cnt + 31) / 32) + 4095) / 4096
  }

  /** They are the fewest that hold the eight bytes of `struct bitmap` and
      whole 32-bit words with a bit for every page. */
  lemma BitmapPagesFit(cnt: nat, k: nat)
    ensures BitmapPages(cnt) <= k <==> exists w: nat :: 32 * w >= cnt && 8 + 4 * w <= 4096 * k
  {
    var w := (cnt + 31) / 32;
    assert 32 * w >= cnt;
    if v: nat :| 32 * v >= cnt && 8 + 4 * v <= 4096 * k {
      assert w <= v;
    }
    if BitmapPages(cnt) <= k {
      assert 8 + 4 * w <= 4096 * k;
    }
  }

  /** The two pools, for kernel data and for user pages. */
  class Allocator {
    const kernel: Pool
    const user: Pool

    constructor (kernel: Pool, user: Pool)
      requires kernel.Valid() && user.Valid()
      requires kernel != user && kernel.usedMap.bits != user.usedMap.bits
      requires kernel.base + kernel.usedMap.bitCnt <= user.base
      ensures Valid() && this.kernel == kernel && this.user == user
    {
      this.kernel, this.user := kernel, user;
    }

    ghost predicate Valid() {
      && kernel.Valid() && user.Valid()
      && kernel != user && kernel.usedMap.bits != user.usedMap.bits
      && kernel.base + kernel.usedMap.bitCnt <= user.base
    }

    /** All pages handed out and not freed yet. */
    ghost function Used(): set<int>
      reads kernel.usedMap.bits, user.usedMap.bits
      requires Valid()
    {
      kernel.Used() + user.Used()
    }

    /** palloc_get_multiple: a group of pages none of which is in use, the
        first such group of the pool, or none when the pool has no such
        group. `wantUser` is the PAL_USER flag. */
    method GetMultiple(wantUser: bool, cnt: nat) returns (r: Option<int>)
      requires Valid()
      modifies kernel.usedMap.bits, user.usedMap.bits
      ensures cnt == 0 ==> r.None?
      ensures r.Some? ==>
        && Pages(r.value, cnt) <= (if wantUser then user.Range() else kernel.Range())
        && Pages(r.value, cnt) !! old(Used())
        && Used() == old(Used()) + Pages(r.value, cnt)
      ensures r.None? ==> Used() == old(Used())
      ensures cnt > 0 ==>
        var pool := if wantUser then user else kernel;
        forall p :: pool.base <= p && (r.Some? ==> p < r.value) ==> !old(pool.Free(p, cnt))
    {
      if cnt == 0 {
        return None;
      }
      var pool := if wantUser then user else kernel;
      r := pool.Get(cnt);
    }

    /** palloc_free_multiple, on pages that are in use and lie in one pool, as
        its assertions demand. */
    method FreeMultiple(p: int, cnt: nat)
      requires Valid()
      requires Pages(p, cnt) <= Used()
      requires cnt == 0 || Pages(p, cnt) <= kernel.Range() || Pages(p, cnt) <= user.Range()
      modifies kernel.usedMap.bits, user.usedMap.bits
      ensures Used() == old(Used()) - Pages(p, cnt)
    {
      if cnt == 0 {
        return;
      }
      assert p in Pages(p, cnt) && p + cnt - 1 in Pages(p, cnt);
      if kernel.base <= p < kernel.base + kernel.usedMap.bitCnt {
        kernel.Put(p, cnt);
      } else {
        user.Put(p, cnt);
      }
    }
  }

  /** palloc_init and init_pool. A null result stands for the panic when a
      pool is too small to hold its own bitmap. */
  method Init(ramPages: nat, userPageLimit: nat) returns (a: Allocator?)
    requires ramPages >= 256
    ensures var free := ramPages - 256;
            var users := if free / 2 > userPageLimit then userPageLimit else free / 2;
            a == null <==> BitmapPages(free - users) > free - users || BitmapPages(users) > users
    ensures a != null ==> a.Valid() && fresh(a) && a.Used() == {}
    ensures a != null ==> fresh(a.kernel.usedMap.bits) && fresh(a.user.usedMap.bits)
    ensures a != null ==>
      var free := ramPages - 256;
      var users := if free / 2 > userPageLimit then userPageLimit else free / 2;
      var start := 0xC000_0000 / 4096 + 256;
      && a.kernel.base == start + BitmapPages(free - users)
      && a.kernel.base + a.kernel.usedMap.bitCnt == start + free - users
      && a.user.base == start + free - users + BitmapPages(users)
      && a.user.base + a.user.usedMap.bitCnt == start + free
  {
    var freePages := ramPages - 256;
    var userPages := freePages / 2;
    if userPages > userPageLimit {
      userPages := userPageLimit;
    }
    var kernelPages := freePages - userPages;
    var kernelMap, userMap := BitmapPages(kernelPages), BitmapPages(userPages);
    if kernelMap > kernelPages || userMap > userPages {
      return null;
    }
    var kernel := new Pool(FREE_START + kernelMap, kernelPages - kernelMap);
    var user := new Pool(FREE_START + kernelPages + userMap, userPages - userMap);
    a := new Allocator(kernel, user);
  }
}
