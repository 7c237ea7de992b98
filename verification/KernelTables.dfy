/** The kernel without its lists. A table says where every thread is and when
    it came there; each call of the kernel is a relation between the tables
    before and after. The steps of KernelSteps, which work on sorted lists,
    refine these relations, and the lists hold nothing the table does not. */
module KernelTables {
  import opened Options
  import opened Donation
  import opened KernelState
  import opened KernelSteps
  import opened KernelEffects

  type Threads = map<Tid, Thread>

  datatype Table = Table(threads: Threads, semas: map<Sid, Sema>, cpu: Option<Tid>, ticks: int, clock: nat)

  function View(st: State): Table {
    Table(st.threads, st.semas, st.cpu, st.ticks, st.clock)
  }

  // ------------------------------------------------- the rules, on tables

  function Level(th: Thread): int {
    if th.record == [] then 0 else Current(th.record)
  }

  /** Higher priority goes first, and among equals whoever came first. */
  ghost predicate Ahead(a: Thread, b: Thread) {
    Level(a) > Level(b) || (Level(a) == Level(b) && a.arrived < b.arrived)
  }

  ghost predicate Nobody(ths: Threads, p: Place) {
    forall x :: x in ths ==> ths[x].place != p
  }

  /** Of the threads at `p`, `t` goes first. */
  ghost predicate First(ths: Threads, p: Place, t: Tid) {
    t in ths && ths[t].place == p && forall x :: x in ths && ths[x].place == p && x != t ==> Ahead(ths[t], ths[x])
  }

  /** The CPU is free: the first ready thread gets it, or else the idle one,
      and nobody else is touched. */
  ghost predicate Switch(a: Table, ths: Threads, clock: nat, b: Table) {
    && b.cpu.Some? && b.semas == a.semas && b.ticks == a.ticks && b.clock == clock
    && var n := b.cpu.value;
       && n in ths && (if Nobody(ths, OnReady) then n == IDLE else First(ths, OnReady, n))
       && b.threads == ths[n := ths[n].(place := OnCpu, status := RUNNING)]
  }

  /** `t`, with the fields of `th`, is the last to have come to `p`. */
  function Joins(a: Table, t: Tid, th: Thread, p: Place): Threads {
    a.threads[t := th.(place := p, arrived := a.clock)]
  }

  ghost predicate Running(a: Table) {
    a.cpu.Some? && a.cpu.value in a.threads
  }

  ghost predicate Yields(a: Table, b: Table)
    requires Running(a)
  {
    var c := a.cpu.value;
    var th := a.threads[c].(status := READY);
    if c == IDLE then Switch(a, a.threads[c := th.(place := Nowhere)], a.clock, b)
    else Switch(a, Joins(a, c, th, OnReady), a.clock + 1, b)
  }

  /** thread_block in the wait loop of `s`. */
  ghost predicate Waits(a: Table, s: Sid, b: Table)
    requires Running(a)
  {
    var c := a.cpu.value;
    Switch(a, Joins(a, c, a.threads[c].(status := BLOCKED, pc := Waiting(s)), OnWait(s)), a.clock + 1, b)
  }

  ghost predicate Takes(a: Table, s: Sid, b: Table)
    requires Running(a) && s in a.semas && a.semas[s].value > 0
  {
    var c, m := a.cpu.value, a.semas[s];
    b == a.(threads := a.threads[c := a.threads[c].(pc := Outside)],
            semas := a.semas[s := Sema(m.value - 1, m.isLock, if m.isLock then Some(c) else None)])
  }

  /** One turn of the loop in lock_acquire. */
  ghost predicate AcquiresLock(a: Table, l: Sid, b: Table)
    requires Running(a) && l in a.semas
  {
    var c, m := a.cpu.value, a.semas[l];
    if m.value > 0 then Takes(a, l, b)
    else
      && m.holder.Some? && m.holder.value in a.threads
      && var h := m.holder.value;
         if Level(a.threads[h]) < Level(a.threads[c]) then
           var donated := a.threads[h].(record := a.threads[h].record + [Entry(Level(a.threads[c]), Some(l))]);
           var mid := a.(threads := Joins(a, h, donated, OnReady), clock := a.clock + 1);
           Running(mid) && Waits(mid, l, b)
         else Waits(a, l, b)
  }

  /** One turn of the loop in sema_down. */
  ghost predicate Downs(a: Table, s: Sid, b: Table)
    requires Running(a) && s in a.semas
  {
    if a.semas[s].value > 0 then Takes(a, s, b) else Waits(a, s, b)
  }

  /** sema_up until interrupts come back on: the first waiter is ready. */
  ghost predicate Wakes(a: Table, s: Sid, b: Table)
    requires s in a.semas
  {
    var free := a.(semas := a.semas[s := Sema(a.semas[s].value + 1, a.semas[s].isLock, None)]);
    if Nobody(a.threads, OnWait(s)) then b == free
    else exists w ::
      && First(a.threads, OnWait(s), w)
      && b == free.(threads := Joins(a, w, a.threads[w].(status := READY), OnReady), clock := a.clock + 1)
  }

  /** Whether some waiter of `s` outranks the running thread. */
  ghost predicate Outranked(a: Table, s: Sid)
    requires Running(a)
  {
    exists w :: w in a.threads && a.threads[w].place == OnWait(s) && Level(a.threads[w]) > Level(a.threads[a.cpu.value])
  }

  /** sema_up with interrupts off: it yields exactly when outranked. */
  ghost predicate Ups(a: Table, s: Sid, b: Table)
    requires Running(a) && s in a.semas
  {
    exists mid :: Wakes(a, s, mid) && Running(mid) && if Outranked(a, s) then Yields(mid, b) else b == mid
  }

  /** `r'` is what is left of a record without the donations for `l`. */
  ghost predicate Drops(r: Record, l: Sid, r': Record) {
    Increasing(r') && forall e :: e in r' <==> e in r && e.master != Some(l)
  }

  ghost predicate Releases(a: Table, l: Sid, b: Table)
    requires Running(a) && l in a.semas
  {
    var c := a.cpu.value;
    exists r :: Drops(a.threads[c].record, l, r) && Ups(a.(threads := a.threads[c := a.threads[c].(record := r)]), l, b)
  }

  ghost predicate Sleeps(a: Table, start: int, n: int, b: Table)
    requires Running(a)
  {
    var c := a.cpu.value;
    Switch(a, Joins(a, c, a.threads[c].(status := BLOCKED, wake := start + n), OnAlarm), a.clock + 1, b)
  }

  /** A sleeper whose time has come. */
  ghost predicate Due(a: Table, now: int, t: Tid) {
    t in a.threads && a.threads[t].place == OnAlarm && a.threads[t].wake <= now
  }

  /** The order in which sleepers are woken. */
  ghost predicate Sooner(a: Thread, b: Thread) {
    a.wake < b.wake || (a.wake == b.wake && a.arrived < b.arrived)
  }

  /** Exactly the due are ready now, behind everyone who was ready before,
      the soonest first. */
  ghost predicate WakesDue(a: Table, now: int, b: Table) {
    && b.semas == a.semas && b.cpu == a.cpu && b.threads.Keys == a.threads.Keys && a.clock <= b.clock
    && (forall t :: t in a.threads && !Due(a, now, t) ==> b.threads[t] == a.threads[t])
    && (forall t :: Due(a, now, t) ==>
         && b.threads[t] == a.threads[t].(place := OnReady, status := READY, arrived := b.threads[t].arrived)
         && a.clock <= b.threads[t].arrived < b.clock)
    && (forall t, u :: Due(a, now, t) && Due(a, now, u) && Sooner(a.threads[t], a.threads[u]) ==>
         b.threads[t].arrived < b.threads[u].arrived)
  }

  /** timer_interrupt: one tick, and whoever is due by then is woken. */
  ghost predicate Ticks(a: Table, b: Table) {
    b.ticks == a.ticks + 1 && WakesDue(a, a.ticks + 1, b)
  }

  /** thread_set_priority: the own priority changes, and no donation. */
  ghost predicate SetsPriority(a: Table, p: int, b: Table)
    requires Running(a)
  {
    var c := a.cpu.value;
    var th := a.threads[c];
    th.record != [] && b == a.(threads := a.threads[c := th.(record := [Entry(p, None)] + th.record[1..])])
  }

  ghost predicate Creates(a: Table, t: Tid, p: int, b: Table) {
    b == a.(threads := a.threads[t := Thread([Entry(p, None)], READY, Outside, OnReady, 0, a.clock)],
            clock := a.clock + 1)
  }

  ghost predicate Exits(a: Table, b: Table)
    requires Running(a)
  {
    Switch(a, a.threads - {a.cpu.value}, a.clock, b)
  }

  /** What each call of the kernel does. */
  ghost predicate Does(a: Table, x: Action, b: Table) {
    Running(a) &&
    match x
    case AAcquire(l) => l in a.semas && AcquiresLock(a, l, b)
    case ARelease(l) => l in a.semas && Releases(a, l, b)
    case ADown(s) => s in a.semas && Downs(a, s, b)
    case AUp(s) => s in a.semas && Wakes(a, s, b)
    case AResume =>
      && a.threads[a.cpu.value].pc.Waiting?
      && var s := a.threads[a.cpu.value].pc.sema;
         s in a.semas && if a.semas[s].isLock then AcquiresLock(a, s, b) else Downs(a, s, b)
    case AYield => Yields(a, b)
    case ASleep(start, n) => Sleeps(a, start, n, b)
    case ATick => Ticks(a, b)
    case ASetPriority(p) => SetsPriority(a, p, b)
    case ACreate(t, p) => Creates(a, t, p, b)
    case AExit => Exits(a, b)
  }

  // --------------------------------------------- the lists add nothing

  /** Two sorted lists of the same threads are the same list. */
  lemma {:induction false} QueueUnique(ths: Threads, q: seq<Tid>, r: seq<Tid>, byWake: bool)
    requires Queue(ths, q, byWake) && Queue(ths, r, byWake)
    requires forall x: Tid :: x in q <==> x in r
    ensures q == r
    decreases |q|
  {
    if q == [] || r == [] {
      SameEmpty(q, r);
    } else {
      var x: Tid, y: Tid := q[0], r[0];
      assert x in q && x in r && y in r && y in q;
      var i :| 0 <= i < |r| && r[i] == x;
      var j :| 0 <= j < |q| && q[j] == y;
      assert i > 0 ==> Before(ths[r[0]], ths[r[i]], byWake);
      assert j > 0 ==> Before(ths[q[0]], ths[q[j]], byWake);
      assert x == y;
      TailMembers(ths, q, byWake);
      TailMembers(ths, r, byWake);
      QueueUnique(ths, q[1..], r[1..], byWake);
      assert q == [q[0]] + q[1..] && r == [r[0]] + r[1..];
    }
  }

  lemma SameEmpty(q: seq<Tid>, r: seq<Tid>)
    requires (forall x: Tid :: x in q <==> x in r) && (q == [] || r == [])
    ensures q == r
  {
    HasMember(q);
    HasMember(r);
  }

  lemma HasMember(q: seq<Tid>)
    ensures q != [] <==> exists x: Tid :: x in q
  {
    if q != [] {
      var x: Tid := q[0];
      assert x in q;
    }
  }

  lemma TailMembers(ths: Threads, q: seq<Tid>, byWake: bool)
    requires Queue(ths, q, byWake) && q != []
    ensures Queue(ths, q[1..], byWake) && forall x :: x in q[1..] <==> x in q && x != q[0]
  {
    var t := q[1..];
    assert forall i :: 0 <= i < |t| ==> t[i] == q[i + 1];
    forall i | 0 <= i < |t|
      ensures t[i] != q[0]
    {
      assert Before(ths[q[0]], ths[q[i + 1]], byWake);
    }
    forall x | x in q && x != q[0]
      ensures x in t
    {
      var i :| 0 <= i < |q| && q[i] == x;
      assert t[i - 1] == x;
    }
  }

  /** The table determines every list. */
  lemma ViewDetermines(st: State, st': State)
    requires ListInv(st) && ListInv(st') && View(st) == View(st')
    ensures st == st'
  {
    hide Queue;
    forall p
      ensures p in st.queues <==> p in st'.queues
    {
    }
    forall p | p in st.queues
      ensures st.queues[p] == st'.queues[p]
    {
      forall x
        ensures x in st.queues[p] <==> x in st'.queues[p]
      {
        assert At(st, x, p) <==> At(st', x, p);
      }
      QueueUnique(st.threads, st.queues[p], st'.queues[p], p == OnAlarm);
    }
    assert st.queues == st'.queues;
  }

  // ------------------------------------------------ the steps refine it

  lemma BeforeIsAhead(a: Thread, b: Thread)
    ensures Before(a, b, false) <==> Ahead(a, b)
    ensures Before(a, b, true) <==> Sooner(a, b)
  {
  }

  /** The head of a list is the first of the threads placed there. */
  lemma HeadIsFirst(st: State, p: Place)
    requires ListInv(st) && p in st.queues && p != OnAlarm
    ensures st.queues[p] == [] <==> Nobody(st.threads, p)
    ensures st.queues[p] != [] ==> First(st.threads, p, st.queues[p][0])
  {
    hide Before, Ahead;
    var q := st.queues[p];
    HasMember(q);
    if Nobody(st.threads, p) {
      assert forall x: Tid :: x in q ==> At(st, x, p);
    } else {
      var x :| x in st.threads && st.threads[x].place == p;
      assert At(st, x, p);
    }
    if q != [] {
      var w: Tid := q[0];
      assert w in q && At(st, w, p);
      forall x | x in st.threads && st.threads[x].place == p && x != w
        ensures Ahead(st.threads[w], st.threads[x])
      {
        assert At(st, x, p) && x in q;
        var i :| 0 <= i < |q| && q[i] == x;
        assert Before(st.threads[q[0]], st.threads[q[i]], false);
        BeforeIsAhead(st.threads[w], st.threads[x]);
      }
    }
  }

  lemma ScheduleSwitches(st: State)
    requires Unscheduled(st)
    ensures Switch(View(st), st.threads, st.clock, View(Schedule(st)))
  {
    hide SyncInv, Queues, Places, First, Nobody, Remove;
    IdleExists(st);
    HeadIsFirst(st, OnReady);
    ScheduleSettles(st);
    NextExists(st);
  }

  lemma NextExists(st: State)
    requires Unscheduled(st)
    ensures Next(st) in st.threads
  {
    IdleExists(st);
    if Next(st) != IDLE {
      var w: Tid := st.queues[OnReady][0];
      assert w in st.queues[OnReady];
      assert At(st, w, OnReady);
    }
  }

  lemma RequeueJoins(st: State, t: Tid, th: Thread, p: Place)
    requires t in st.threads && p in st.queues
    ensures var st' := Requeue(st, t, th, p);
      && st'.threads == Joins(View(st), t, th, p) && st'.clock == st.clock + 1
      && st'.semas == st.semas && st'.ticks == st.ticks
      && st'.cpu == (if st.threads[t].place == OnCpu then None else st.cpu)
  {
    hide InsertOrdered, Remove;
  }

  /** The running thread, with the fields of `th`, goes to `p`. */
  lemma GiveUpSwitches(st: State, th: Thread, p: Place)
    requires Settled(st) && p in st.queues && st.cpu.value in st.threads && MayRequeue(st, st.cpu.value, th, p)
    ensures var st' := Schedule(Requeue(st, st.cpu.value, th, p));
      Switch(View(st), Joins(View(st), st.cpu.value, th, p), st.clock + 1, View(st'))
  {
    hide Inv, Requeue, Schedule, MayRequeue;
    CpuFacts(st);
    Listed(st, p);
    var st1 := Requeue(st, st.cpu.value, th, p);
    RequeueSync(st, st.cpu.value, th, p);
    RequeueJoins(st, st.cpu.value, th, p);
    ScheduleSwitches(st1);
  }

  lemma Listed(st: State, p: Place)
    requires Inv(st) && p in st.queues
    ensures p != Nowhere && p != OnCpu
  {
  }

  lemma YieldDoes(st: State)
    requires Settled(st)
    ensures Running(View(st)) && OnReady in st.queues && Yields(View(st), View(Yield(st)))
  {
    hide Settled, Inv, Switch, Schedule, Requeue, WellFormed;
    CpuFacts(st);
    var c := st.cpu.value;
    if c == IDLE {
      IdleDetached(st);
      var st1 := WithoutIdle(st);
      ScheduleSwitches(st1);
      SameSwitch(View(st1), View(st), st1.threads, st.clock, View(Schedule(st1)));
      assert st1.threads == st.threads[c := st.threads[c].(status := READY, place := Nowhere)];
    } else {
      GiveUpSwitches(st, st.threads[c].(status := READY), OnReady);
    }
  }

  lemma SameSwitch(a: Table, a': Table, ths: Threads, clock: nat, b: Table)
    requires Switch(a, ths, clock, b) && a'.semas == a.semas && a'.ticks == a.ticks
    ensures Switch(a', ths, clock, b)
  {
  }

  lemma WaitDoes(st: State, s: Sid)
    requires Settled(st) && s in st.semas && st.semas[s].value == 0
    requires st.cpu.value != IDLE && st.semas[s].holder != Some(st.cpu.value)
    requires st.threads[st.cpu.value].pc in {Outside, Waiting(s)}
    ensures Running(View(st)) && OnWait(s) in st.queues && Waits(View(st), s, View(WaitOn(st, s)))
  {
    CpuFacts(st);
    WaitListExists(st, s);
    hide Settled, Inv, WellFormed, Switch;
    GiveUpSwitches(st, st.threads[st.cpu.value].(status := BLOCKED, pc := Waiting(s)), OnWait(s));
  }

  lemma AcquireDoes(st: State, l: Sid)
    requires Settled(st) && st.cpu.value != IDLE
    requires l in st.semas && st.semas[l].isLock && st.semas[l].holder != Some(st.cpu.value)
    requires st.threads[st.cpu.value].pc in {Outside, Waiting(l)}
    requires HolderLinked(st, l)
    ensures Running(View(st)) && OnWait(l) in st.queues && OnReady in st.queues
    ensures AcquiresLock(View(st), l, View(AcquireLoop(st, l)))
  {
    hide Settled, Inv, WaitOn, WellFormed, ThreadOk, DonationsOwned, Requeue, Waits;
    CpuFacts(st);
    HolderFacts(st, l);
    var c, m := st.cpu.value, st.semas[l];
    if m.value == 0 {
      var h := m.holder.value;
      if Prio(st, h) < Prio(st, c) {
        BoostKeepsInv(st, h, Prio(st, c), l);
        var donated := st.threads[h].(record := st.threads[h].record + [Entry(Prio(st, c), Some(l))]);
        RequeueJoins(st, h, donated, OnReady);
        WaitDoes(Boost(st, h, Prio(st, c), l), l);
      } else {
        WaitDoes(st, l);
      }
    }
  }

  lemma DownDoes(st: State, s: Sid)
    requires Settled(st) && st.cpu.value != IDLE && s in st.semas && !st.semas[s].isLock
    requires st.threads[st.cpu.value].pc in {Outside, Waiting(s)}
    ensures Running(View(st)) && OnWait(s) in st.queues && Downs(View(st), s, View(DownLoop(st, s)))
  {
    hide Settled, Inv, Waits, WaitOn, ThreadOk, DonationsOwned;
    CpuFacts(st);
    PlainFacts(st, s);
    if st.semas[s].value == 0 {
      WaitDoes(st, s);
    }
  }

  lemma WakeDoes(st: State, s: Sid)
    requires Settled(st) && s in st.semas
    ensures OnWait(s) in st.queues && OnReady in st.queues && Wakes(View(st), s, View(WakeOne(st, s)))
  {
    hide Settled, Inv, First, Nobody, Requeue;
    CpuFacts(st);
    WaitListExists(st, s);
    SettledLists(st);
    HeadIsFirst(st, OnWait(s));
    var q := st.queues[OnWait(s)];
    if q != [] {
      FirstExists(st.threads, OnWait(s), q[0]);
      RequeueJoins(st, q[0], st.threads[q[0]].(status := READY), OnReady);
    }
  }

  lemma SettledLists(st: State)
    requires Settled(st)
    ensures ListInv(st)
  {
  }

  lemma FirstExists(ths: Threads, p: Place, t: Tid)
    requires First(ths, p, t)
    ensures t in ths && ths[t].place == p
  {
  }

  lemma UpDoes(st: State, s: Sid)
    requires Settled(st) && s in st.semas
    requires st.semas[s].isLock ==> st.semas[s].value == 0
    requires forall t, e :: t in st.threads && e in st.threads[t].record ==> e.master != Some(s)
    ensures Running(View(st)) && OnWait(s) in st.queues && OnReady in st.queues
    ensures Ups(View(st), s, View(Up(st, s)))
  {
    hide Settled, Inv, WakeOne, Yield, Wakes, Yields, Outranked, ThreadOk, DonationsOwned;
    CpuFacts(st);
    WakeDoes(st, s);
    WakeOneSettles(st, s);
    OutrankedIff(st, s);
    var st1 := WakeOne(st, s);
    CpuFacts(st1);
    YieldDoes(st1);
    assert Wakes(View(st), s, View(st1)) && Running(View(st1));
  }

  lemma OutrankedIff(st: State, s: Sid)
    requires Settled(st) && s in st.semas && Running(View(st))
    ensures OnWait(s) in st.queues
    ensures var q := st.queues[OnWait(s)];
      Outranked(View(st), s) <==> q != [] && Prio(st, q[0]) > Prio(st, st.cpu.value)
  {
    hide Settled, Inv;
    SettledWaiters(st, s);
    var q := st.queues[OnWait(s)];
    if Outranked(View(st), s) {
      var w :| && w in st.threads && st.threads[w].place == OnWait(s)
               && Level(st.threads[w]) > Level(st.threads[st.cpu.value]);
      assert At(st, w, OnWait(s));
    }
    if q != [] {
      assert At(st, q[0], OnWait(s));
    }
  }

  lemma ReleaseDoes(st: State, l: Sid)
    requires Settled(st) && l in st.semas && st.semas[l].isLock && st.semas[l].holder == Some(st.cpu.value)
    ensures Running(View(st)) && OnWait(l) in st.queues && OnReady in st.queues
    ensures Releases(View(st), l, View(Release(st, l)))
  {
    hide Settled, Inv, Up, Ups, Without, WellFormed, ThreadOk, DonationsOwned, Drops;
    CpuFacts(st);
    WaitListExists(st, l);
    DropsDonations(st, l);
    var c := st.cpu.value;
    var r := Without(st.threads[c].record, l);
    WithoutDrops(st.threads[c].record, l);
    UpDoes(Change(st, c, st.threads[c].(record := r)), l);
    assert Drops(View(st).threads[c].record, l, r);
  }

  lemma WithoutDrops(r: Record, l: Sid)
    requires WellFormed(r)
    ensures Drops(r, l, Without(r, l))
  {
    hide Without;
    WithoutMembers(r, l);
    WithoutKeepsOrder(r, l);
  }

  lemma SleepDoes(st: State, start: int, n: int)
    requires Settled(st) && st.cpu.value != IDLE && st.cpu.value in st.threads
    requires st.threads[st.cpu.value].pc == Outside && OnAlarm in st.queues
    ensures Running(View(st)) && Sleeps(View(st), start, n, View(Sleep(st, start, n)))
  {
    hide Settled, Inv, MayRequeue, Requeue, Schedule, ThreadOk, DonationsOwned, Switch;
    CpuFacts(st);
    SleeperMayQueue(st, start + n);
    GiveUpSwitches(st, st.threads[st.cpu.value].(status := BLOCKED, wake := start + n), OnAlarm);
  }

  /** The head of the alarm list is due first. */
  lemma HeadIsSoonest(st: State)
    requires Settled(st) && st.queues[OnAlarm] != []
    ensures var w := st.queues[OnAlarm][0];
      && At(st, w, OnAlarm)
      && forall t :: At(st, t, OnAlarm) && t != w ==> Sooner(st.threads[w], st.threads[t])
  {
    hide SyncInv, Sooner;
    var q := st.queues[OnAlarm];
    var w: Tid := q[0];
    assert w in q && At(st, w, OnAlarm);
    forall t | At(st, t, OnAlarm) && t != w
      ensures Sooner(st.threads[w], st.threads[t])
    {
      assert t in q;
      var i :| 0 <= i < |q| && q[i] == t;
      assert Before(st.threads[q[0]], st.threads[q[i]], true);
      BeforeIsAhead(st.threads[w], st.threads[t]);
    }
  }

  lemma {:induction false} WakeDueDoes(st: State)
    requires Settled(st)
    ensures WakesDue(View(st), st.ticks, View(WakeDue(st))) && WakeDue(st).ticks == st.ticks
    decreases |st.queues[OnAlarm]|
  {
    hide Settled, Inv, Requeue, WakesDue;
    CpuFacts(st);
    var q := st.queues[OnAlarm];
    if q == [] || st.threads[FrontSleeper(st)].wake > st.ticks {
      NobodyDue(st);
      NoneWoken(View(st), st.ticks) by { assert forall t :: Due(View(st), st.ticks, t) ==> At(st, t, OnAlarm); }
    } else {
      WakeFront(st);
      HeadIsSoonest(st);
      RequeueJoins(st, q[0], st.threads[q[0]].(status := READY), OnReady);
      var st1 := Unblock(st, q[0]);
      WakeDueDoes(st1);
      forall t | Due(View(st), st.ticks, t) && t != q[0]
        ensures Sooner(st.threads[q[0]], st.threads[t])
      {
        assert At(st, t, OnAlarm);
      }
      OneMore(View(st), st.ticks, q[0], View(st1), View(WakeDue(st1)));
    }
  }

  lemma NoneWoken(a: Table, now: int)
    requires forall t :: !Due(a, now, t)
    ensures WakesDue(a, now, a)
  {
  }

  /** The first of the due, and then the rest. */
  lemma OneMore(a: Table, now: int, w: Tid, a1: Table, b: Table)
    requires Due(a, now, w) && forall t :: Due(a, now, t) && t != w ==> Sooner(a.threads[w], a.threads[t])
    requires a1 == a.(threads := Joins(a, w, a.threads[w].(status := READY), OnReady), clock := a.clock + 1)
    requires WakesDue(a1, now, b)
    ensures WakesDue(a, now, b)
  {
    assert forall t :: Due(a1, now, t) <==> Due(a, now, t) && t != w;
  }

  lemma TickDoes(st: State)
    requires Settled(st)
    ensures Ticks(View(st), View(Tick(st)))
  {
    hide Settled, Inv, WakeDue;
    TickSettled(st);
    var st1 := st.(ticks := st.ticks + 1);
    WakeDueDoes(st1);
    assert forall t :: Due(View(st1), st1.ticks, t) <==> Due(View(st), st1.ticks, t);
  }

  lemma SetPriorityDoes(st: State, p: int)
    requires Settled(st) && st.cpu.value in st.threads && st.threads[st.cpu.value].record != []
    ensures Running(View(st)) && SetsPriority(View(st), p, View(SetPriority(st, p)))
  {
    hide Inv;
    CpuFacts(st);
    var r := st.threads[st.cpu.value].record;
    assert r[0 := Entry(p, r[0].master)] == [Entry(p, None)] + r[1..];
  }

  lemma CreateDoes(st: State, t: Tid, p: int)
    requires OnReady in st.queues && t !in st.threads
    ensures Creates(View(st), t, p, View(Create(st, t, p)))
  {
    hide Requeue;
    var st1 := st.(threads := st.threads[t := Fresh(p)]);
    RequeueJoins(st1, t, st1.threads[t].(status := READY), OnReady);
  }

  lemma ExitDoes(st: State)
    requires Settled(st) && st.cpu.value in st.threads && st.cpu.value != IDLE
    requires st.threads[st.cpu.value].pc == Outside
    requires forall s :: s in st.semas ==> st.semas[s].holder != Some(st.cpu.value)
    ensures Running(View(st)) && Exits(View(st), View(Exit(st)))
  {
    hide Settled, Inv, Unscheduled, Schedule, Remove, Switch;
    CpuFacts(st);
    ExitDetaches(st);
    var c := st.cpu.value;
    var st1 := Unlink(st, c);
    var st2 := st1.(threads := st1.threads - {c});
    assert st2.threads == st.threads - {c};
    ScheduleSwitches(st2);
    SameSwitch(View(st2), View(st), st2.threads, st.clock, View(Schedule(st2)));
  }

  /** Every step does what its call is meant to do. */
  lemma StepDoes(st: State, a: Action)
    requires Settled(st) && KernelSteps.Enabled(st, a)
    ensures Does(View(st), a, View(Step(st, a)))
  {
    hide Settled, Inv, AcquireLoop, DownLoop, Release, WakeOne, Yield, Sleep, Tick, SetPriority, Create, Exit,
      AcquiresLock, Releases, Downs, Wakes, Yields, Sleeps, Ticks, SetsPriority, Creates, Exits,
      ThreadOk, DonationsOwned;
    CpuFacts(st);
    match a {
      case AAcquire(l) => AcquireDoes(st, l);
      case ARelease(l) => ReleaseDoes(st, l);
      case ADown(s) => DownDoes(st, s);
      case AUp(s) => WakeDoes(st, s);
      case AResume => ResumeDoes(st);
      case AYield => YieldDoes(st);
      case ASleep(start, n) => SleepDoes(st, start, n);
      case ATick => TickDoes(st);
      case ASetPriority(p) => SetPriorityDoes(st, p);
      case ACreate(t, p) => CreateDoes(st, t, p);
      case AExit => ExitDoes(st);
    }
  }

  lemma ResumeDoes(st: State)
    requires Settled(st) && KernelSteps.Enabled(st, AResume)
    ensures Does(View(st), AResume, View(Step(st, AResume)))
  {
    hide Settled, Inv, AcquireLoop, DownLoop, AcquiresLock, Downs, DonationsOwned;
    CpuFacts(st);
    var s := st.threads[st.cpu.value].pc.sema;
    if st.semas[s].isLock {
      AcquireDoes(st, s);
    } else {
      DownDoes(st, s);
    }
  }

  /** Over every run, each state's table follows from the one before by the
      rules, and from the tables alone the lists can be told. */
  lemma RunDoes(states: seq<State>, actions: seq<Action>, i: nat)
    requires IsTrace(states, actions) && i < |actions|
    ensures Does(View(states[i]), actions[i], View(states[i + 1]))
    ensures forall st :: ListInv(st) && View(st) == View(states[i]) ==> st == states[i]
  {
    hide Settled, Step, KernelSteps.Enabled, Does, ListInv;
    TraceSettled(states, actions, i);
    assert Follows(states[i], actions[i], states[i + 1]);
    StepDoes(states[i], actions[i]);
    SettledLists(states[i]);
    forall st | ListInv(st) && View(st) == View(states[i])
      ensures st == states[i]
    {
      ViewDetermines(st, states[i]);
    }
  }
}
