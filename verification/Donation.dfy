/** Priority donation records: the priority, priority_lock_master,
    stored_priority, stored_lock_master and stored_index fields of struct
    thread (src/threads/thread.h), as lock_acquire and lock_release of
    src/threads/synch.c and thread_set_priority of src/threads/thread.c
    change them.

    A record is read as one sequence of (priority, lock) pairs, base priority
    first and current priority last. */
module Donation {
  import opened Options

  /** A lock pointer; `None` is NULL, the mark of a thread's own priority. */
  type LockRef = Option<int>

  datatype Entry = Entry(priority: int, master: LockRef)

  type Record = seq<Entry>

  const CAPACITY: nat := 30
  const TOMBSTONE: int := -1
  const DEAD: Entry := Entry(-1, None)

  // ------------------------------------------------- records as values

  /** The pairs of `r` that do not come from `lock`. */
  function Without(r: Record, lock: int): Record {
    if r == [] then []
    else (if r[0].master == Some(lock) then [] else [r[0]]) + Without(r[1..], lock)
  }

  /** The pairs of `r` that are not tombstones. */
  function Live(r: Record): Record {
    if r == [] then []
    else (if r[0].priority == TOMBSTONE then [] else [r[0]]) + Live(r[1..])
  }

  lemma {:induction false} LiveConcat(r: Record, s: Record)
    ensures Live(r + s) == Live(r) + Live(s)
  {
    if r == [] {
      assert r + s == s;
    } else {
      assert (r + s)[1..] == r[1..] + s;
      LiveConcat(r[1..], s);
    }
  }

  ghost predicate AllLive(r: Record) {
    forall i :: 0 <= i < |r| ==> r[i].priority != TOMBSTONE
  }

  ghost predicate AllDead(r: Record) {
    forall i :: 0 <= i < |r| ==> r[i].priority == TOMBSTONE
  }

  lemma {:induction false} LiveOfLive(r: Record)
    requires AllLive(r)
    ensures Live(r) == r
  {
    if r != [] {
      LiveOfLive(r[1..]);
    }
  }

  lemma {:induction false} LiveOfDead(r: Record)
    requires AllDead(r)
    ensures Live(r) == []
  {
    if r != [] {
      LiveOfDead(r[1..]);
    }
  }

  /** Overwriting the pairs of `lock` with tombstones. */
  function Buried(r: Record, lock: int): (s: Record)
    ensures |s| == |r|
    ensures forall i :: 0 <= i < |r| ==> s[i] == if r[i].master == Some(lock) then DEAD else r[i]
  {
    if r == [] then [] else [if r[0].master == Some(lock) then DEAD else r[0]] + Buried(r[1..], lock)
  }

  lemma {:induction false} LiveOfBuried(r: Record, lock: int)
    requires AllLive(r)
    ensures Live(Buried(r, lock)) == Without(r, lock)
  {
    if r != [] {
      LiveOfBuried(r[1..], lock);
      var b := Buried(r, lock);
      assert b[1..] == Buried(r[1..], lock);
    }
  }

  lemma {:induction false} WithoutConcat(r: Record, s: Record, lock: int)
    ensures Without(r + s, lock) == Without(r, lock) + Without(s, lock)
  {
    if r == [] {
      assert r + s == s;
    } else {
      assert (r + s)[1..] == r[1..] + s;
      WithoutConcat(r[1..], s, lock);
    }
  }

  lemma {:induction false} NothingBuried(r: Record, lock: int)
    requires |Without(r, lock)| == |r|
    ensures Without(r, lock) == r == Buried(r, lock)
  {
    if r != [] {
      WithoutShrinks(r[1..], lock);
      NothingBuried(r[1..], lock);
      assert r == [r[0]] + r[1..];
    }
  }

  lemma WithoutKeepsBase(r: Record, lock: int)
    requires r != [] && r[0].master == None
    ensures Without(r, lock) != [] && Without(r, lock)[0] == r[0]
  {
  }

  lemma {:induction false} WithoutShrinks(r: Record, lock: int)
    ensures |Without(r, lock)| <= |r|
  {
    if r != [] {
      WithoutShrinks(r[1..], lock);
    }
  }

  /** Moving a live pair into an earlier dead slot keeps the live pairs, when
      everything between is dead. */
  lemma LiveSwap(r: Record, i: nat, j: nat)
    requires i < j < |r| && AllDead(r[i..j])
    ensures Live(r[i := r[j]][j := DEAD]) == Live(r)
  {
    hide Live, AllDead;
    var s := r[i := r[j]][j := DEAD];
    var a, d, d', b := r[..i], r[i..j], s[i + 1..j + 1], r[j + 1..];
    SwapShape(r, s, i, j);
    LiveAround(a, d, [r[j]], [], b);
    LiveAround(a, [], [r[j]], d', b);
  }

  /** The two records piece by piece. */
  lemma SwapShape(r: Record, s: Record, i: nat, j: nat)
    requires i < j < |r| && AllDead(r[i..j]) && s == r[i := r[j]][j := DEAD]
    ensures r == r[..i] + r[i..j] + [r[j]] + [] + r[j + 1..]
    ensures s == r[..i] + [] + [r[j]] + s[i + 1..j + 1] + r[j + 1..]
    ensures AllDead(s[i + 1..j + 1]) && AllDead([])
  {
    assert forall k :: i < k < j ==> s[k] == r[k] == r[i..j][k - i];
  }

  lemma LiveAround(a: Record, d: Record, x: Record, d': Record, b: Record)
    requires AllDead(d) && AllDead(d')
    ensures Live(a + d + x + d' + b) == Live(a) + Live(x) + Live(b)
  {
    hide Live, AllDead;
    LiveConcat(a + d + x + d', b);
    LiveConcat(a + d + x, d');
    LiveConcat(a + d, x);
    LiveConcat(a, d);
    LiveOfDead(d);
    LiveOfDead(d');
  }

  lemma WithoutNone(r: Record, lock: int)
    ensures Without(r[..0], lock) == []
  {
  }

  lemma WithoutNext(r: Record, i: nat, lock: int)
    requires i < |r|
    ensures |Without(r[..i + 1], lock)| == |Without(r[..i], lock)| + if r[i].master == Some(lock) then 0 else 1
  {
    WithoutConcat(r[..i], [r[i]], lock);
    assert r[..i + 1] == r[..i] + [r[i]];
  }

  lemma LivePrefix(r: Record, c: nat)
    requires c <= |r| && AllLive(r[..c]) && AllDead(r[c..])
    ensures Live(r) == r[..c]
  {
    hide Live, AllLive, AllDead;
    assert r == r[..c] + r[c..];
    LiveConcat(r[..c], r[c..]);
    LiveOfLive(r[..c]);
    LiveOfDead(r[c..]);
  }

  // --------------------------------------------- the record in memory

  ghost function Zip(p: seq<int>, m: seq<LockRef>): (r: Record)
    requires |p| == |m|
    ensures |r| == |p|
    ensures forall i :: 0 <= i < |p| ==> r[i] == Entry(p[i], m[i])
  {
    seq(|p|, i requires 0 <= i < |p| => Entry(p[i], m[i]))
  }

  class ThreadPriority {
    var priority: int
    var master: LockRef
    const storedPriority: array<int>
    const storedMaster: array<LockRef>
    var storedIndex: nat

    ghost predicate Valid()
      reads this
    {
      && storedPriority.Length == CAPACITY && storedMaster.Length == CAPACITY
      && storedIndex <= CAPACITY
    }

    ghost function Slots(): (r: Record)
      reads this, storedPriority, storedMaster
      requires Valid()
      ensures |r| == storedIndex
    {
      Zip(storedPriority[..storedIndex], storedMaster[..storedIndex])
    }

    ghost function Contents(): Record
      reads this, storedPriority, storedMaster
      requires Valid()
    {
      Slots() + [Entry(priority, master)]
    }

    /** init_thread's project 1 part. */
    constructor (p: int)
      ensures Valid() && Contents() == [Entry(p, None)]
      ensures fresh(storedPriority) && fresh(storedMaster)
    {
      priority, master, storedIndex := p, None, 0;
      storedPriority := new int[CAPACITY](_ => 0);
      storedMaster := new LockRef[CAPACITY](_ => None);
    }

    /** The donation in lock_acquire: the current pair is pushed and replaced. */
    method Donate(p: int, lock: int)
      requires Valid() && storedIndex < CAPACITY
      modifies this, storedPriority, storedMaster
      ensures Valid()
      ensures Contents() == old(Contents()) + [Entry(p, Some(lock))]
    {
      storedPriority[storedIndex] := priority;
      storedMaster[storedIndex] := master;
      storedIndex := storedIndex + 1;
      priority, master := p, Some(lock);
    }

    /** thread_set_priority: the base pair takes the new value, wherever it is. */
    method SetBase(p: int)
      requires Valid()
      modifies this, storedPriority
      ensures Valid()
      ensures Contents() == old(Contents())[0 := Entry(p, old(Contents())[0].master)]
    {
      if storedIndex != 0 {
        storedPriority[0] := p;
      } else {
        priority := p;
      }
    }

    /** The first loop of lock_release: the pairs of `lock` become tombstones. */
    method Bury(lock: int) returns (co: nat)
      requires Valid()
      modifies storedPriority, storedMaster
      ensures Slots() == Buried(old(Slots()), lock)
      ensures co + |Without(old(Slots()), lock)| == storedIndex
    {
      hide Without;
      ghost var r := Slots();
      co := 0;
      WithoutNone(r, lock);
      for i := 0 to storedIndex
        invariant forall k :: i <= k < storedIndex ==> Slots()[k] == r[k]
        invariant forall k :: 0 <= k < i ==> Slots()[k] == if r[k].master == Some(lock) then DEAD else r[k]
        invariant co + |Without(r[..i], lock)| == i
      {
        assert r[i] == Slots()[i];
        WithoutNext(r, i, lock);
        if storedMaster[i] == Some(lock) {
          storedMaster[i] := None;
          storedPriority[i] := TOMBSTONE;
          co := co + 1;
        }
      }
      assert r[..storedIndex] == r;
    }

    /** The inner loop of the compaction: the next live pair moves into the
        tombstone at `i`, if there is one. */
    method FillHole(i: nat)
      requires Valid() && i < storedIndex && storedPriority[i] == TOMBSTONE
      modifies storedPriority, storedMaster
      ensures Live(Slots()) == old(Live(Slots()))
      ensures forall k :: 0 <= k < i ==> Slots()[k] == old(Slots()[k])
      ensures Slots()[i].priority == TOMBSTONE ==> forall k :: i <= k < storedIndex ==> Slots()[k].priority == TOMBSTONE
      ensures (forall k :: i <= k < storedIndex ==> old(Slots()[k]).priority == TOMBSTONE) ==> Slots() == old(Slots())
    {
      ghost var r := Slots();
      for j := i + 1 to storedIndex
        invariant Slots() == r
        invariant forall k :: i <= k < j ==> r[k].priority == TOMBSTONE
      {
        if storedPriority[j] == TOMBSTONE {
          continue;
        }
        storedMaster[i] := storedMaster[j];
        storedPriority[i] := storedPriority[j];
        storedMaster[j] := None;
        storedPriority[j] := TOMBSTONE;
        assert Slots() == r[i := r[j]][j := DEAD];
        LiveSwap(r, i, j);
        return;
      }
    }

    /** The second loop of lock_release: the live pairs move to the front, in
        order. */
    method Compact()
      requires Valid()
      modifies storedPriority, storedMaster
      ensures var live := Live(old(Slots())); |live| <= storedIndex && Slots()[..|live|] == live
    {
      hide Live;
      ghost var live, c := Live(Slots()), 0;
      for i := 0 to storedIndex
        invariant Live(Slots()) == live
        invariant 0 <= c <= i
        invariant forall k :: 0 <= k < c ==> Slots()[k].priority != TOMBSTONE
        invariant c < i ==> forall k :: c <= k < storedIndex ==> Slots()[k].priority == TOMBSTONE
      {
        if storedPriority[i] == TOMBSTONE {
          FillHole(i);
        }
        if c == i && storedPriority[i] != TOMBSTONE {
          c := i + 1;
        }
      }
      LivePrefix(Slots(), c);
    }

    /** lock_release's treatment of the releasing thread's record: every pair
        of `lock` disappears, the current one included. It needs the base
        pair to be the thread's own, and stored priorities that differ from
        the tombstone value. */
    method Release(lock: int)
      requires Valid()
      requires Contents()[0].master == None
      requires AllLive(Slots())
      modifies this, storedPriority, storedMaster
      ensures Valid()
      ensures Contents() == Without(old(Contents()), lock)
    {
      ghost var r := Slots();
      WithoutConcat(r, [Entry(priority, master)], lock);
      if storedIndex != 0 {
        DropStored(lock);
        WithoutKeepsBase(r, lock);
        if master == Some(lock) {
          storedIndex := storedIndex - 1;
          priority := storedPriority[storedIndex];
          master := storedMaster[storedIndex];
        }
      }
    }

    /** Both loops together: the stored pairs of `lock` are gone. */
    method DropStored(lock: int)
      requires Valid() && AllLive(Slots())
      modifies this`storedIndex, storedPriority, storedMaster
      ensures Valid()
      ensures Slots() == Without(old(Slots()), lock)
    {
      ghost var r := Slots();
      LiveOfBuried(r, lock);
      var co := Bury(lock);
      if co != 0 {
        Compact();
        storedIndex := storedIndex - co;
      } else {
        NothingBuried(r, lock);
      }
    }
  }

  // ------------------------------------------------ records over runs

  const PRI_MIN: int := 0
  const PRI_MAX: int := 63

  ghost predicate Increasing(r: Record) {
    forall i, j :: 0 <= i < j < |r| ==> r[i].priority < r[j].priority
  }

  /** A thread's own priority first, then donations in increasing order. */
  ghost predicate WellFormed(r: Record) {
    && r != []
    && r[0].master == None && PRI_MIN <= r[0].priority
    && (forall i :: 0 < i < |r| ==> r[i].master.Some?)
    && Increasing(r)
  }

  function Current(r: Record): int
    requires r != []
  {
    r[|r| - 1].priority
  }

  lemma {:induction false} WithoutMembers(r: Record, lock: int)
    ensures forall e :: e in Without(r, lock) <==> e in r && e.master != Some(lock)
  {
    if r != [] {
      WithoutMembers(r[1..], lock);
      assert r == [r[0]] + r[1..];
    }
  }

  lemma {:induction false} WithoutKeepsOrder(r: Record, lock: int)
    requires Increasing(r)
    ensures Increasing(Without(r, lock))
  {
    if r != [] {
      WithoutKeepsOrder(r[1..], lock);
      WithoutMembers(r[1..], lock);
      var rest := Without(r[1..], lock);
      forall i | 0 <= i < |rest|
        ensures r[0].priority < rest[i].priority
      {
        assert rest[i] in r[1..];
        var k :| 0 <= k < |r[1..]| && r[1..][k] == rest[i];
        assert r[k + 1] == rest[i];
      }
    }
  }

  lemma ReleaseKeepsWellFormed(r: Record, lock: int)
    requires WellFormed(r)
    ensures WellFormed(Without(r, lock))
  {
    WithoutKeepsOrder(r, lock);
    WithoutMembers(r, lock);
    WithoutKeepsBase(r, lock);
    var s := Without(r, lock);
    forall i | 0 < i < |s|
      ensures s[i].master.Some?
    {
      assert s[i] in r;
      assert s[0].priority < s[i].priority;
    }
  }

  lemma DonateKeepsWellFormed(r: Record, p: int, lock: int)
    requires WellFormed(r) && Current(r) < p
    ensures WellFormed(r + [Entry(p, Some(lock))])
  {
    var s := r + [Entry(p, Some(lock))];
    forall i, j | 0 <= i < j < |s|
      ensures s[i].priority < s[j].priority
    {
      assert i < |r| - 1 ==> r[i].priority < r[|r| - 1].priority;
    }
  }

  /** After a release the thread runs at the larger of its own priority and
      the donations it still holds for other locks. */
  lemma ReleasedPriorityIsMax(r: Record, lock: int)
    requires WellFormed(r)
    ensures var s := Without(r, lock);
            && s != []
            && (exists e :: e in r && e.master != Some(lock) && e.priority == Current(s))
            && (forall e :: e in r && e.master != Some(lock) ==> e.priority <= Current(s))
  {
    ReleaseKeepsWellFormed(r, lock);
    WithoutMembers(r, lock);
    var s := Without(r, lock);
    assert s[|s| - 1] in s;
    forall e | e in r && e.master != Some(lock)
      ensures e.priority <= Current(s)
    {
      assert e in s;
      var k :| 0 <= k < |s| && s[k] == e;
    }
  }

  /** Raising the base keeps the record increasing exactly while it stays
      below the first live donation. */
  lemma SetBaseKeepsOrderIff(r: Record, p: int)
    requires WellFormed(r)
    ensures Increasing(r[0 := Entry(p, None)]) <==> (|r| == 1 || p < r[1].priority)
  {
    var s := r[0 := Entry(p, None)];
    if |r| > 1 {
      if p < r[1].priority {
        forall i, j | 0 <= i < j < |s|
          ensures s[i].priority < s[j].priority
        {
          assert j > 1 ==> r[1].priority < r[j].priority;
        }
      } else {
        assert s[0].priority >= s[1].priority;
      }
    }
  }

  /** Donations stack up at most one per priority level. */
  lemma {:induction false} DepthBound(r: Record)
    requires r != [] && Increasing(r)
    ensures |r| - 1 <= Current(r) - r[0].priority
  {
    if |r| > 1 {
      var s := r[..|r| - 1];
      DepthBound(s);
      assert s[|s| - 1] == r[|r| - 2];
    }
  }

  /** What the rest of the kernel may do to a record. */
  datatype Event =
    | Donated(priority: int, lock: int)
    | Released(lock: int)
    | BaseSet(priority: int)

  ghost predicate Allowed(r: Record, e: Event)
    requires r != []
  {
    match e
    case Donated(p, _) => Current(r) < p
    case Released(_) => true
    case BaseSet(p) => PRI_MIN <= p && (|r| == 1 || p < r[1].priority)
  }

  ghost function After(r: Record, e: Event): Record
    requires r != []
  {
    match e
    case Donated(p, l) => r + [Entry(p, Some(l))]
    case Released(l) => Without(r, l)
    case BaseSet(p) => r[0 := Entry(p, r[0].master)]
  }

  ghost predicate Runs(r: Record, es: seq<Event>, r': Record)
    decreases |es|
  {
    if es == [] then r' == r
    else r != [] && Allowed(r, es[0]) && Runs(After(r, es[0]), es[1..], r')
  }

  /** Over every run a record stays well formed: strictly increasing, so the
      current priority is its maximum; free of tombstones, so releasing a
      lock is filtering; and no deeper than the priorities it spans. */
  lemma {:induction false} RunKeepsWellFormed(r: Record, es: seq<Event>, r': Record)
    requires WellFormed(r) && Runs(r, es, r')
    ensures WellFormed(r') && AllLive(r')
    ensures forall e :: e in r' ==> e.priority <= Current(r')
    ensures |r'| - 1 <= Current(r') - r'[0].priority
    decreases |es|
  {
    if es == [] {
      DepthBound(r);
    } else {
      var e := es[0];
      match e {
        case Donated(p, l) =>
        case Released(l) => ReleaseKeepsWellFormed(r, l);
        case BaseSet(p) => SetBaseKeepsOrderIff(r, p);
      }
      RunKeepsWellFormed(After(r, e), es[1..], r');
    }
  }

  // ---------------------------------------------- how many slots it takes

  /** Bases stay at `lo` or above, donors at `hi` or below. */
  ghost predicate InBand(e: Event, lo: int, hi: int) {
    match e
    case Donated(p, _) => p <= hi
    case Released(_) => true
    case BaseSet(p) => lo <= p <= hi
  }

  /** A thread created at `p` has the record `r` after the events `es`. */
  ghost predicate BandRun(p: int, es: seq<Event>, r: Record, lo: int, hi: int) {
    && lo <= p <= hi && Runs([Entry(p, None)], es, r)
    && forall i :: 0 <= i < |es| ==> InBand(es[i], lo, hi)
  }

  lemma {:induction false} BandKept(r: Record, es: seq<Event>, r': Record, lo: int, hi: int)
    requires WellFormed(r) && lo <= r[0].priority && Current(r) <= hi && Runs(r, es, r')
    requires forall i :: 0 <= i < |es| ==> InBand(es[i], lo, hi)
    ensures |r'| - 1 <= hi - lo
    decreases |es|
  {
    if es == [] {
      DepthBound(r);
    } else {
      var e := es[0];
      assert InBand(e, lo, hi);
      EventInBand(r, e, lo, hi);
      hide After, WellFormed, InBand;
      BandKept(After(r, e), es[1..], r', lo, hi);
    }
  }

  lemma EventInBand(r: Record, e: Event, lo: int, hi: int)
    requires WellFormed(r) && lo <= r[0].priority && Current(r) <= hi && Allowed(r, e) && InBand(e, lo, hi)
    ensures var r' := After(r, e); WellFormed(r') && r' != [] && lo <= r'[0].priority && Current(r') <= hi
  {
    hide Without;
    match e {
      case Donated(p, l) => DonateKeepsWellFormed(r, p, l);
      case Released(l) =>
        ReleaseKeepsWellFormed(r, l);
        WithoutKeepsBase(r, l);
        ReleasedBelow(r, l);
      case BaseSet(p) => SetBaseKeepsOrderIff(r, p);
    }
  }

  lemma ReleasedBelow(r: Record, lock: int)
    requires WellFormed(r)
    ensures Without(r, lock) != [] && Current(Without(r, lock)) <= Current(r)
  {
    hide Without;
    ReleasedPriorityIsMax(r, lock);
    var e :| e in r && e.master != Some(lock) && e.priority == Current(Without(r, lock));
    var i :| 0 <= i < |r| && r[i] == e;
    assert i < |r| - 1 ==> r[i].priority < r[|r| - 1].priority;
  }

  /** A thread at `lo` donated to in steps of one level, `n` times. */
  ghost function Ladder(lo: int, n: nat): Record {
    if n == 0 then [Entry(lo, None)] else Ladder(lo, n - 1) + [Entry(lo + n, Some(n))]
  }

  ghost function LadderEvents(lo: int, i: nat, n: nat): seq<Event>
    decreases n - i
  {
    if n <= i then [] else [Donated(lo + i + 1, i + 1)] + LadderEvents(lo, i + 1, n)
  }

  /** Every rung of the ladder can be reached from every lower one. */
  lemma {:induction false} LadderReachable(lo: int, i: nat, n: nat)
    requires i <= n
    ensures Runs(Ladder(lo, i), LadderEvents(lo, i, n), Ladder(lo, n)) && |Ladder(lo, n)| - 1 == n
    ensures forall k :: 0 <= k < |LadderEvents(lo, i, n)| ==> InBand(LadderEvents(lo, i, n)[k], lo, lo + n)
    decreases n - i
  {
    LadderShape(lo, i);
    LadderShape(lo, n);
    if i < n {
      LadderReachable(lo, i + 1, n);
      var es := LadderEvents(lo, i, n);
      assert es[1..] == LadderEvents(lo, i + 1, n);
      assert After(Ladder(lo, i), es[0]) == Ladder(lo, i + 1);
    }
  }

  lemma {:induction false} LadderShape(lo: int, n: nat)
    ensures |Ladder(lo, n)| == n + 1 && Current(Ladder(lo, n)) == lo + n
  {
    if n != 0 {
      LadderShape(lo, n - 1);
    }
  }

  /** The 30 slots hold every record of threads with priorities from `lo` to
      `hi` if and only if the two are at most 30 apart. */
  lemma SlotsSufficeIff(lo: int, hi: int)
    requires PRI_MIN <= lo <= hi <= PRI_MAX
    ensures (forall p, es, r :: BandRun(p, es, r, lo, hi) ==> |r| - 1 <= CAPACITY) <==> hi - lo <= CAPACITY
  {
    if hi - lo <= CAPACITY {
      forall p, es, r | BandRun(p, es, r, lo, hi)
        ensures |r| - 1 <= CAPACITY
      {
        BandKept([Entry(p, None)], es, r, lo, hi);
      }
    } else {
      LadderReachable(lo, 0, hi - lo);
      assert BandRun(lo, LadderEvents(lo, 0, hi - lo), Ladder(lo, hi - lo), lo, hi);
    }
  }
}
