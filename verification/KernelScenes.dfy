/** Concrete runs of the kernel, told as scenes: who runs, who is ready, who
    sleeps and who waits for which lock. */
module KernelScenes {
  import opened Options
  import opened Donation
  import opened KernelState
  import opened KernelSteps
  import opened KernelEffects

  /** `running` may be the idle thread; all semaphores are locks, and
      `holders` has those that are held. */
  datatype Scene = Scene(
    running: Tid,
    records: map<Tid, Record>,
    ready: set<Tid>,
    asleep: set<Tid>,
    waits: map<Tid, Sid>,
    locks: set<Sid>,
    holders: map<Sid, Tid>
  )

  ghost predicate Cast(st: State, sc: Scene) {
    && st.threads.Keys == sc.records.Keys && IDLE in sc.records && sc.records[IDLE] == [Entry(PRI_MIN, None)]
    && (forall t :: t in sc.records ==> st.threads[t].record == sc.records[t])
  }

  ghost predicate Locks(st: State, sc: Scene) {
    && st.semas.Keys == sc.locks && sc.holders.Keys <= sc.locks
    && (forall l :: l in sc.locks ==>
         st.semas[l] == if l in sc.holders then Sema(0, true, Some(sc.holders[l])) else Sema(1, true, None))
  }

  ghost predicate Shows(st: State, sc: Scene) {
    && Settled(st) && st.cpu == Some(sc.running) && Cast(st, sc)
    && (forall t :: t in sc.records ==>
         t == IDLE || t == sc.running || t in sc.ready || t in sc.asleep || t in sc.waits)
    && (forall t :: t in sc.ready ==> At(st, t, OnReady) && st.threads[t].pc == Outside)
    && (forall t :: t in sc.asleep ==> At(st, t, OnAlarm) && st.threads[t].wake <= st.ticks + 1)
    && (forall t :: t in sc.waits ==> At(st, t, OnWait(sc.waits[t])))
    && st.threads[sc.running].pc == Outside
    && Locks(st, sc)
  }

  function Level(sc: Scene, t: Tid): int {
    if t in sc.records && sc.records[t] != [] then Current(sc.records[t]) else 0
  }

  /** `x` is the one to run next: alone at the top of the ready threads, or
      the idle thread when there are none. */
  ghost predicate Leads(sc: Scene, ready: set<Tid>, x: Tid) {
    if ready == {} then x == IDLE
    else x in ready && Level(sc, x) > PRI_MIN && forall t :: t in ready && t != x ==> Level(sc, t) < Level(sc, x)
  }

  /** In a state where the running thread is maximal, the leader runs. */
  lemma LeaderRuns(st: State, sc: Scene, awake: set<Tid>, x: Tid)
    requires Settled(st) && MaxRuns(st) && Cast(st, sc)
    requires forall t :: t in awake ==> Awake(st, t) && t != IDLE
    requires forall t :: t in sc.records && t !in awake && t != IDLE ==> !Awake(st, t)
    requires Leads(sc, awake, x)
    ensures st.cpu == Some(x)
    ensures forall t :: t in awake && t != x ==> At(st, t, OnReady)
  {
    hide Settled, Inv;
    CpuFacts(st);
    var r := st.cpu.value;
    assert forall t :: t in sc.records ==> Prio(st, t) == Level(sc, t);
    assert r == IDLE || r in awake;
    forall t | t in st.threads
      ensures At(st, t, OnCpu) <==> t == r
    {
      OnlyCpu(st, t);
    }
    if awake != {} {
      assert At(st, x, OnReady) ==> Level(sc, x) <= Level(sc, r);
    }
  }

  lemma SceneFacts(st: State, sc: Scene)
    requires Shows(st, sc)
    ensures sc.running in st.threads && OnReady in st.queues && OnAlarm in st.queues
    ensures At(st, sc.running, OnCpu) && !At(st, IDLE, OnReady)
    ensures sc.running !in sc.ready && sc.running !in sc.asleep && sc.running !in sc.waits && IDLE !in sc.ready
    ensures IDLE !in sc.waits && IDLE !in sc.asleep
    ensures forall t :: t in sc.asleep ==> st.threads[t].pc == Outside
    ensures forall t :: t in st.threads ==> WellFormed(st.threads[t].record)
  {
    CpuFacts(st);
    NeverReady(st);
    assert ThreadOk(st, IDLE);
    assert forall t :: t in st.threads ==> ThreadOk(st, t);
  }

  /** ACreate: the new thread is ready. */
  lemma ShowsCreate(st: State, sc: Scene, d: Tid, p: int)
    requires Shows(st, sc) && d !in sc.records && PRI_MIN <= p <= PRI_MAX
    ensures KernelSteps.Enabled(st, ACreate(d, p))
    ensures Shows(Step(st, ACreate(d, p)), sc.(records := sc.records[d := [Entry(p, None)]], ready := sc.ready + {d}))
  {
    hide Settled, Inv, Create, ThreadOk, DonationsOwned, WellFormed, Locks;
    SceneFacts(st, sc);
    CreateEffect(st, d, p);
    var st' := Create(st, d, p);
    LocksSame(st, sc, st', sc.(records := sc.records[d := [Entry(p, None)]], ready := sc.ready + {d}));
    assert forall t, m :: t in st.threads ==> (At(st', t, m) <==> At(st, t, m));
  }

  /** The part of a scene that does not say who runs. */
  ghost predicate Staged(st: State, sc: Scene, awake: set<Tid>) {
    && Settled(st) && MaxRuns(st) && Cast(st, sc)
    && (forall t :: t in sc.records ==> t == IDLE || t in awake || t in sc.asleep || t in sc.waits)
    && (forall t :: t in awake ==> Awake(st, t) && t != IDLE && st.threads[t].pc == Outside)
    && (forall t :: t in sc.asleep ==> At(st, t, OnAlarm) && st.threads[t].wake <= st.ticks + 1)
    && (forall t :: t in sc.waits ==> At(st, t, OnWait(sc.waits[t])))
    && st.threads[IDLE].pc == Outside
    && Locks(st, sc)
  }

  lemma StagedShows(st: State, sc: Scene, awake: set<Tid>, x: Tid)
    requires Staged(st, sc, awake) && Leads(sc, awake, x)
    requires sc.running == x && sc.ready == awake - {x}
    ensures Shows(st, sc)
  {
    hide Settled, Inv, MaxRuns;
    LeaderRuns(st, sc, awake, x);
  }

  lemma IdleOutside(st: State)
    requires Settled(st)
    ensures IDLE in st.threads && st.threads[IDLE].pc == Outside
  {
    assert ThreadOk(st, IDLE);
  }

  /** AYield: the caller joins the ready threads, and the leader runs. */
  lemma ShowsYield(st: State, sc: Scene, x: Tid)
    requires Shows(st, sc)
    requires var awake := if sc.running == IDLE then sc.ready else sc.ready + {sc.running}; Leads(sc, awake, x)
    ensures KernelSteps.Enabled(st, AYield)
    ensures var awake := if sc.running == IDLE then sc.ready else sc.ready + {sc.running};
      Shows(Step(st, AYield), sc.(running := x, ready := awake - {x}))
  {
    hide Settled, Inv, Yield, ThreadOk, DonationsOwned, WellFormed, Leads, Staged, Locks;
    SceneFacts(st, sc);
    CpuFacts(st);
    var awake := if sc.running == IDLE then sc.ready else sc.ready + {sc.running};
    var sc' := sc.(running := x, ready := awake - {x});
    YieldStaged(st, sc, sc', awake);
    StagedShows(Yield(st), sc', awake, x) by { LeadsSame(sc, sc', awake, x); }
  }

  lemma YieldStaged(st: State, sc: Scene, sc': Scene, awake: set<Tid>)
    requires Shows(st, sc) && awake == if sc.running == IDLE then sc.ready else sc.ready + {sc.running}
    requires sc' == sc.(running := sc'.running, ready := sc'.ready)
    ensures sc.running in st.threads && OnReady in st.queues && Staged(Yield(st), sc', awake)
  {
    hide Settled, Inv, Yield, MaxRuns, ThreadOk, DonationsOwned, WellFormed, Locks;
    SceneFacts(st, sc);
    CpuFacts(st);
    YieldSame(st);
    YieldEffect(st);
    var st' := Yield(st);
    IdleOutside(st');
    LocksSame(st, sc, st', sc');
    forall t | t in sc.asleep
      ensures At(st', t, OnAlarm) && st'.threads[t].wake <= st'.ticks + 1
    {
      assert Undisturbed(st, st', t);
    }
    forall t | t in awake
      ensures Awake(st', t) && st'.threads[t].pc == Outside
    {
      assert Awake(st, t) && Same(st, st', t);
    }
    assert forall t :: t in sc.records ==> Same(st, st', t);
  }

  /** AYield of a thread that is awake alone: it goes on, even at the
      priority of the idle thread. */
  lemma ShowsYieldAlone(st: State, sc: Scene)
    requires Shows(st, sc) && sc.running != IDLE && sc.ready == {}
    ensures KernelSteps.Enabled(st, AYield) && Shows(Step(st, AYield), sc)
  {
    hide Settled, Inv, Yield, MaxRuns, ThreadOk, DonationsOwned, WellFormed, Locks;
    SceneFacts(st, sc);
    CpuFacts(st);
    YieldStaged(st, sc, sc, {sc.running});
    assert forall t :: t in sc.records ==> !At(st, t, OnReady);
    OneReadyRuns(st, sc.running);
  }

  /** With nobody else ready thread_yield comes back to its caller. */
  lemma OneReadyRuns(st: State, c: Tid)
    requires Settled(st) && st.cpu == Some(c) && c != IDLE && forall t :: !At(st, t, OnReady)
    ensures c in st.threads && OnReady in st.queues && Yield(st).cpu == Some(c)
  {
    hide Inv, Requeue, WellFormed, Schedule, Next;
    CpuFacts(st);
    var th := st.threads[c].(status := READY);
    RequeueSync(st, c, th, OnReady);
    var st1 := Requeue(st, c, th, OnReady);
    InvLists(st1);
    SchedulePicksMax(st1);
    assert Unscheduled(st1);
    ScheduleSettles(st1);
  }

  lemma InvLists(st: State)
    requires Inv(st)
    ensures ListInv(st)
  {
  }

  lemma LocksSame(st: State, sc: Scene, st': State, sc': Scene)
    requires Locks(st, sc) && st'.semas == st.semas && sc'.locks == sc.locks && sc'.holders == sc.holders
    ensures Locks(st', sc')
  {
  }

  lemma LeadsSame(sc: Scene, sc': Scene, ready: set<Tid>, x: Tid)
    requires Leads(sc, ready, x) && sc'.records == sc.records
    ensures Leads(sc', ready, x)
  {
    assert forall t :: Level(sc', t) == Level(sc, t);
  }

  /** A thread that is not disturbed plays the same part afterwards. */
  lemma Unmoved(st: State, sc: Scene, st': State, t: Tid)
    requires Shows(st, sc) && t in sc.records && Undisturbed(st, st', t) && st'.ticks == st.ticks
    ensures t in st'.threads && st'.threads[t].record == sc.records[t] && st'.threads[t].pc == st.threads[t].pc
    ensures t in sc.ready ==> Awake(st', t)
    ensures t in sc.asleep ==> At(st', t, OnAlarm) && st'.threads[t].wake <= st'.ticks + 1
    ensures t in sc.waits ==> At(st', t, OnWait(sc.waits[t]))
  {
    SceneFacts(st, sc);
  }

  /** ASleep for one tick: the caller is asleep and the leader runs. */
  lemma ShowsSleep(st: State, sc: Scene, x: Tid)
    requires Shows(st, sc) && sc.running != IDLE && Leads(sc, sc.ready, x)
    ensures KernelSteps.Enabled(st, ASleep(st.ticks, 1))
    ensures Shows(Step(st, ASleep(st.ticks, 1)),
                  sc.(running := x, ready := sc.ready - {x}, asleep := sc.asleep + {sc.running}))
  {
    hide Settled, Inv, Sleep, MaxRuns, ThreadOk, DonationsOwned, WellFormed, Leads, Undisturbed, Locks;
    SceneFacts(st, sc);
    CpuFacts(st);
    SleepEffect(st, st.ticks, 1);
    var c, st' := sc.running, Sleep(st, st.ticks, 1);
    IdleOutside(st');
    var sc' := sc.(running := x, ready := sc.ready - {x}, asleep := sc.asleep + {c});
    LocksSame(st, sc, st', sc');
    forall t | t in sc.records && t != c
      ensures st'.threads[t].record == sc.records[t] && st'.threads[t].pc == st.threads[t].pc
      ensures t in sc.ready ==> Awake(st', t)
      ensures t in sc.asleep ==> At(st', t, OnAlarm) && st'.threads[t].wake <= st'.ticks + 1
      ensures t in sc.waits ==> At(st', t, OnWait(sc.waits[t]))
    {
      Unmoved(st, sc, st', t);
    }
    assert forall t :: t in sc.ready || t in sc.asleep || t in sc.waits ==> t in sc.records;
    assert Staged(st', sc', sc.ready);
    StagedShows(st', sc', sc.ready, x) by { LeadsSame(sc, sc', sc.ready, x); }
  }

  /** AAcquire of a lock whose holder is at least as high: the caller waits. */
  lemma ShowsWait(st: State, sc: Scene, l: Sid, x: Tid)
    requires Shows(st, sc) && sc.running != IDLE && l in sc.holders && sc.holders[l] != sc.running
    requires Level(sc, sc.holders[l]) >= Level(sc, sc.running) && Leads(sc, sc.ready, x)
    ensures KernelSteps.Enabled(st, AAcquire(l))
    ensures Shows(Step(st, AAcquire(l)), sc.(running := x, ready := sc.ready - {x}, waits := sc.waits[sc.running := l]))
  {
    hide Settled, Inv, AcquireLoop, MaxRuns, ThreadOk, DonationsOwned, WellFormed, Leads, Undisturbed;
    SceneFacts(st, sc);
    CpuFacts(st);
    HolderFacts(st, l);
    var c, h := sc.running, sc.holders[l];
    assert Prio(st, h) >= Prio(st, c);
    ContendedAcquire(st, l);
    var st' := AcquireLoop(st, l);
    IdleOutside(st');
    var sc' := sc.(running := x, ready := sc.ready - {x}, waits := sc.waits[c := l]);
    LocksSame(st, sc, st', sc');
    hide Locks;
    forall t | t in sc.records && t != c
      ensures st'.threads[t].record == sc.records[t] && st'.threads[t].pc == st.threads[t].pc
      ensures t in sc.ready ==> Awake(st', t)
      ensures t in sc.asleep ==> At(st', t, OnAlarm) && st'.threads[t].wake <= st'.ticks + 1
      ensures t in sc.waits ==> At(st', t, OnWait(sc.waits[t]))
    {
      Unmoved(st, sc, st', t);
    }
    assert forall t :: t in sc.ready || t in sc.asleep || t in sc.waits ==> t in sc.records;
    assert Staged(st', sc', sc.ready);
    StagedShows(st', sc', sc.ready, x) by { LeadsSame(sc, sc', sc.ready, x); }
  }

  /** AAcquire of a lock whose holder is lower and ready: it gets a donation. */
  lemma ShowsDonate(st: State, sc: Scene, l: Sid, x: Tid)
    requires Shows(st, sc) && sc.running != IDLE && l in sc.holders && sc.holders[l] in sc.ready
    requires Level(sc, sc.holders[l]) < Level(sc, sc.running)
    requires Leads(AfterDonation(sc, l), sc.ready, x)
    ensures KernelSteps.Enabled(st, AAcquire(l))
    ensures Shows(Step(st, AAcquire(l)), AfterDonation(sc, l).(running := x, ready := sc.ready - {x}))
  {
    hide Settled, Inv, AcquireLoop, MaxRuns, ThreadOk, DonationsOwned, WellFormed, Leads, Undisturbed;
    SceneFacts(st, sc);
    CpuFacts(st);
    HolderFacts(st, l);
    var c, h := sc.running, sc.holders[l];
    assert Prio(st, h) < Prio(st, c) && Prio(st, c) == Level(sc, c);
    ContendedAcquire(st, l);
    var st' := AcquireLoop(st, l);
    var sc' := AfterDonation(sc, l).(running := x, ready := sc.ready - {x});
    DonateStaged(st, sc, st', sc', l);
    StagedShows(st', sc', sc.ready, x) by { LeadsSame(AfterDonation(sc, l), sc', sc.ready, x); }
  }

  lemma DonateStaged(st: State, sc: Scene, st': State, sc': Scene, l: Sid)
    requires Shows(st, sc) && sc.running != IDLE && l in sc.holders && sc.holders[l] in sc.ready
    requires sc.holders[l] in sc.records && sc.running in sc.records
    requires var d := AfterDonation(sc, l);
      sc'.records == d.records && sc'.waits == d.waits && sc'.asleep == sc.asleep
      && sc'.locks == sc.locks && sc'.holders == sc.holders
    requires var c, h := sc.running, sc.holders[l];
      && Parked(st, st', c, l) && DonatedTo(st, st', h, c, l) && Prio(st, c) == Level(sc, c)
      && (forall t :: t != c && t != h ==> Undisturbed(st, st', t))
    ensures Staged(st', sc', sc.ready)
  {
    hide Settled, Inv, MaxRuns, WellFormed, Undisturbed, Level, Locks;
    SceneFacts(st, sc);
    IdleOutside(st');
    LocksSame(st, sc, st', sc');
    var c, h := sc.running, sc.holders[l];
    forall t | t in sc.records && t != c && t != h
      ensures st'.threads[t].record == sc.records[t] && st'.threads[t].pc == st.threads[t].pc
      ensures t in sc.ready ==> Awake(st', t)
      ensures t in sc.asleep ==> At(st', t, OnAlarm) && st'.threads[t].wake <= st'.ticks + 1
      ensures t in sc.waits ==> At(st', t, OnWait(sc.waits[t]))
    {
      Unmoved(st, sc, st', t);
    }
    assert forall t :: t in sc.ready || t in sc.asleep || t in sc.waits ==> t in sc.records;
  }

  /** The scene's cast after the running thread's donation for `l`. */
  function AfterDonation(sc: Scene, l: Sid): Scene
    requires l in sc.holders && sc.holders[l] in sc.records
  {
    var c, h := sc.running, sc.holders[l];
    sc.(records := sc.records[h := sc.records[h] + [Entry(Level(sc, c), Some(l))]], waits := sc.waits[c := l])
  }

  /** ATick: everyone asleep is due. */
  lemma ShowsTick(st: State, sc: Scene)
    requires Shows(st, sc)
    ensures KernelSteps.Enabled(st, ATick)
    ensures Shows(Step(st, ATick), sc.(ready := sc.ready + sc.asleep, asleep := {}))
  {
    hide Settled, Inv, Tick, ThreadOk, DonationsOwned, WellFormed, Locks;
    SceneFacts(st, sc);
    CpuFacts(st);
    TickEffect(st);
    TickMoves(st);
    var st' := Tick(st);
    LocksSame(st, sc, st', sc.(ready := sc.ready + sc.asleep, asleep := {}));
    assert forall t :: t in sc.records ==> Same(st, st', t);
  }

  /** Whoever is due is ready, and nobody leaves another list. */
  lemma TickMoves(st: State)
    requires Settled(st)
    ensures forall t, p :: At(st, t, p) && p != OnAlarm ==> At(Tick(st), t, p)
    ensures forall t :: At(st, t, OnAlarm) && st.threads[t].wake <= st.ticks + 1 ==> At(Tick(st), t, OnReady)
  {
    hide Settled, Inv, WakeDue;
    TickSettled(st);
    var st1 := st.(ticks := st.ticks + 1);
    assert forall t, p :: At(st, t, p) <==> At(st1, t, p);
    WakeDueExact(st1);
  }

  /** AAcquire of a free lock. */
  lemma ShowsTake(st: State, sc: Scene, l: Sid)
    requires Shows(st, sc) && sc.running != IDLE && l in sc.locks && l !in sc.holders
    ensures KernelSteps.Enabled(st, AAcquire(l))
    ensures Shows(Step(st, AAcquire(l)), sc.(holders := sc.holders[l := sc.running]))
  {
    hide Settled, Inv, AcquireLoop, ThreadOk, DonationsOwned, WellFormed;
    SceneFacts(st, sc);
    CpuFacts(st);
    FreeAcquire(st, l);
    AcquireLoopSettles(st, l);
    TakeTicks(st, l);
    hide Shows, Taken;
    TakeShows(st, sc, AcquireLoop(st, l), l);
  }

  lemma TakeShows(st: State, sc: Scene, st': State, l: Sid)
    requires Shows(st, sc) && l in sc.locks && l !in sc.holders
    requires Settled(st') && Taken(st, st', sc.running, l) && st'.ticks == st.ticks && st'.semas[l].isLock
    ensures Shows(st', sc.(holders := sc.holders[l := sc.running]))
  {
    hide Settled, Inv, Locks;
    TakeLocks(st, sc, st', l);
    assert forall t, p :: At(st', t, p) <==> At(st, t, p);
    assert forall t :: t in st.threads ==> st'.threads[t].record == st.threads[t].record;
  }

  lemma TakeLocks(st: State, sc: Scene, st': State, l: Sid)
    requires Locks(st, sc) && l in sc.locks && l !in sc.holders
    requires Taken(st, st', sc.running, l) && st'.semas[l].isLock
    ensures Locks(st', sc.(holders := sc.holders[l := sc.running]))
  {
  }

  lemma TakeTicks(st: State, l: Sid)
    requires st.cpu.Some? && st.cpu.value in st.threads
    requires l in st.semas && OnWait(l) in st.queues && OnReady in st.queues && st.semas[l].value > 0
    ensures AcquireLoop(st, l).ticks == st.ticks && AcquireLoop(st, l).semas[l].isLock == st.semas[l].isLock
  {
  }

  /** ASetPriority without a donation in force. */
  lemma ShowsSetPriority(st: State, sc: Scene, p: int)
    requires Shows(st, sc) && sc.running != IDLE && |sc.records[sc.running]| == 1 && PRI_MIN <= p
    ensures KernelSteps.Enabled(st, ASetPriority(p))
    ensures Shows(Step(st, ASetPriority(p)), sc.(records := sc.records[sc.running := [Entry(p, None)]]))
  {
    hide Settled, Inv, ThreadOk, DonationsOwned, Locks;
    SceneFacts(st, sc);
    CpuFacts(st);
    SetPrioritySettles(st, p);
    var st' := SetPriority(st, p);
    LocksSame(st, sc, st', sc.(records := sc.records[sc.running := [Entry(p, None)]]));
    assert forall t, m :: At(st', t, m) <==> At(st, t, m);
  }

  /** Right after boot the main thread runs alone. */
  function Opening(locks: set<Sid>): Scene {
    Scene(MAIN, map[IDLE := [Entry(PRI_MIN, None)], MAIN := [Entry(31, None)]], {}, {}, map[], locks, map[])
  }

  lemma BootShows(locks: set<Sid>)
    ensures Shows(Boot(locks, map[]), Opening(locks))
  {
    BootSettled(locks, map[]);
    hide Settled;
    var st := Boot(locks, map[]);
    assert forall l :: l in locks ==> st.semas[l] == Sema(1, true, None);
    assert st.semas.Keys == locks;
  }

  // ------------------------------------------------------------ traces

  function Last(states: seq<State>): State
    requires states != []
  {
    states[|states| - 1]
  }

  /** A trace goes on with any enabled action. */
  lemma Extend(states: seq<State>, actions: seq<Action>, a: Action)
    requires IsTrace(states, actions) && Settled(Last(states)) && KernelSteps.Enabled(Last(states), a)
    ensures IsTrace(states + [Step(Last(states), a)], actions + [a])
  {
    hide Settled, KernelSteps.Enabled, Step;
    var states', actions' := states + [Step(Last(states), a)], actions + [a];
    forall i | 0 <= i < |actions'|
      ensures Follows(states'[i], actions'[i], states'[i + 1])
    {
      if i < |actions| {
        assert Follows(states[i], actions[i], states[i + 1]);
      }
    }
  }

  /** One more action of a trace, with the scene it leads to. */
  lemma Then(states: seq<State>, actions: seq<Action>, a: Action, sc: Scene)
    returns (states': seq<State>, actions': seq<Action>)
    requires IsTrace(states, actions) && Settled(Last(states)) && KernelSteps.Enabled(Last(states), a)
    requires Shows(Step(Last(states), a), sc)
    ensures IsTrace(states', actions') && Shows(Last(states'), sc) && Settled(Last(states'))
    ensures states' == states + [Step(Last(states), a)] && actions' == actions + [a]
  {
    Extend(states, actions, a);
    states', actions' := states + [Step(Last(states), a)], actions + [a];
  }

  /** Nobody's record has more pairs than there are slots to save them in. */
  predicate Fits(sc: Scene) {
    forall t :: t in sc.records ==> |sc.records[t]| <= CAPACITY
  }

  lemma FitsSlots(st: State, sc: Scene, a: Action)
    requires Shows(st, sc) && Fits(sc)
    ensures SlotFree(st, a)
  {
    hide Settled;
  }

  /** One more action of a run, from one scene to the next. */
  lemma RunOn(states: seq<State>, actions: seq<Action>, a: Action, sc: Scene, sc': Scene)
    returns (states': seq<State>, actions': seq<Action>)
    requires IsRun(states, actions) && Settled(Last(states)) && Shows(Last(states), sc) && Fits(sc)
    requires KernelSteps.Enabled(Last(states), a) && Shows(Step(Last(states), a), sc')
    ensures IsRun(states', actions') && states' != [] && states'[0] == states[0]
    ensures Settled(Last(states')) && Shows(Last(states'), sc')
  {
    hide Settled, Shows, Fits, KernelSteps.Enabled, Step, SlotFree;
    FitsSlots(Last(states), sc, a);
    states', actions' := Then(states, actions, a, sc');
  }
}
