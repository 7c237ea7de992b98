/** When the 30 slots of a donation record last: over kernel runs whose
    priorities keep within a band. */
module KernelSlots {
  import opened Options
  import opened Donation
  import opened KernelState
  import opened KernelSteps
  import opened KernelEffects
  import opened KernelPriorities
  import opened KernelScenes

  ghost predicate RecordIn(r: Record, lo: int, hi: int) {
    r != [] && lo <= r[0].priority && forall e :: e in r ==> e.priority <= hi
  }

  /** Every thread but the idle one has its own priority at `lo` or above, and
      none in its record above `hi`. */
  ghost predicate StateIn(st: State, lo: int, hi: int) {
    forall t :: t in st.threads && t != IDLE ==> RecordIn(st.threads[t].record, lo, hi)
  }

  ghost predicate ActionIn(a: Action, lo: int, hi: int) {
    match a
    case ACreate(_, p) => lo <= p <= hi
    case ASetPriority(p) => lo <= p <= hi
    case _ => true
  }

  /** Nobody's record changes but that of `t`, which stays in the band. */
  lemma OneRecord(st: State, st': State, t: Tid, lo: int, hi: int)
    requires StateIn(st, lo, hi) && t in st'.threads && RecordIn(st'.threads[t].record, lo, hi)
    requires forall x :: x in st'.threads && x != t ==> x in st.threads && st'.threads[x].record == st.threads[x].record
    ensures StateIn(st', lo, hi)
  {
  }

  lemma QuietIn(st: State, a: Action, lo: int, hi: int)
    requires Settled(st) && KernelSteps.Enabled(st, a) && IsQuiet(a) && StateIn(st, lo, hi) && ActionIn(a, lo, hi)
    ensures StateIn(Step(st, a), lo, hi)
  {
    hide Settled, Inv, WakeOne, Yield, Sleep, Tick, Create, Exit, Quiet;
    CpuFacts(st);
    if a.ACreate? {
      CreateEffect(st, a.t, a.p);
      OneRecord(st, Step(st, a), a.t, lo, hi);
    } else {
      QuietStep(st, a);
      NoNewborn(st, a);
    }
  }

  lemma NoNewborn(st: State, a: Action)
    requires Settled(st) && KernelSteps.Enabled(st, a) && IsQuiet(a) && !a.ACreate? && Quiet(st, Step(st, a))
    ensures forall t :: t in Step(st, a).threads ==>
      t in st.threads && Step(st, a).threads[t].record == st.threads[t].record
  {
    hide Settled, Inv, WakeOne, Yield, Sleep, Tick, Exit, MaxRuns, Undisturbed, Woken;
    CpuFacts(st);
    match a {
      case AUp(s) =>
        SettledNotDonated(st, s);
        WakeOneEffect(st, s);
      case AYield => YieldSame(st);
      case ASleep(start, n) => SleepEffect(st, start, n);
      case ATick => TickEffect(st);
      case AExit => ExitEffect(st);
    }
  }

  lemma AcquireIn(st: State, l: Sid, lo: int, hi: int)
    requires Settled(st) && StateIn(st, lo, hi) && st.cpu.value != IDLE
    requires l in st.semas && st.semas[l].isLock && st.semas[l].holder != Some(st.cpu.value)
    requires st.threads[st.cpu.value].pc in {Outside, Waiting(l)}
    requires HolderLinked(st, l)
    ensures st.cpu.value in st.threads && OnReady in st.queues && OnWait(l) in st.queues
    ensures StateIn(AcquireLoop(st, l), lo, hi)
  {
    hide Settled, Inv, AcquireLoop, MaxRuns, ThreadOk, DonationsOwned, WellFormed;
    CpuFacts(st);
    HolderFacts(st, l);
    var c := st.cpu.value;
    if st.semas[l].value > 0 {
      FreeAcquire(st, l);
    } else {
      ContendedAcquire(st, l);
      var h, st' := st.semas[l].holder.value, AcquireLoop(st, l);
      assert RecordIn(st'.threads[h].record, lo, hi) by {
        assert RecordIn(st.threads[h].record, lo, hi) && RecordIn(st.threads[c].record, lo, hi);
        assert Prio(st, c) <= hi;
        assert Undisturbed(st, st', h) || DonatedTo(st, st', h, c, l);
      }
      forall t | t in st'.threads && t != h
        ensures t in st.threads && st'.threads[t].record == st.threads[t].record
      {
        assert t != c ==> Undisturbed(st, st', t);
      }
      OneRecord(st, st', h, lo, hi);
    }
  }

  lemma DownIn(st: State, s: Sid, lo: int, hi: int)
    requires Settled(st) && StateIn(st, lo, hi) && st.cpu.value != IDLE && s in st.semas && !st.semas[s].isLock
    requires st.threads[st.cpu.value].pc in {Outside, Waiting(s)}
    ensures st.cpu.value in st.threads && OnWait(s) in st.queues && StateIn(DownLoop(st, s), lo, hi)
  {
    hide Settled, Inv, DownLoop, MaxRuns, ThreadOk, DonationsOwned, RecordIn;
    CpuFacts(st);
    DownEffect(st, s);
    var c, st' := st.cpu.value, DownLoop(st, s);
    forall t | t in st'.threads
      ensures t in st.threads && st'.threads[t].record == st.threads[t].record
    {
      assert st.semas[s].value == 0 && t != c ==> Undisturbed(st, st', t);
    }
  }

  lemma ReleaseIn(st: State, l: Sid, lo: int, hi: int)
    requires Settled(st) && StateIn(st, lo, hi) && l in st.semas && st.semas[l].isLock
    requires st.semas[l].holder == Some(st.cpu.value)
    ensures st.cpu.value in st.threads && OnWait(l) in st.queues && OnReady in st.queues
    ensures StateIn(Release(st, l), lo, hi)
  {
    hide Settled, Inv, Release, MaxRuns, Woken, DonationsOwned;
    CpuFacts(st);
    HolderFacts(st, l);
    ReleaseEffect(st, l);
    var c, r := st.cpu.value, st.threads[st.cpu.value].record;
    WithoutKeepsBase(r, l);
    WithoutMembers(r, l);
    OneRecord(st, Release(st, l), c, lo, hi);
  }

  lemma SetPriorityIn(st: State, p: int, lo: int, hi: int)
    requires Settled(st) && StateIn(st, lo, hi) && lo <= p <= hi && st.cpu.value in st.threads
    requires st.threads[st.cpu.value].record != []
    ensures StateIn(SetPriority(st, p), lo, hi)
  {
    CpuFacts(st);
    hide Settled, Inv;
    var c, r, st' := st.cpu.value, st.threads[st.cpu.value].record, SetPriority(st, p);
    var r' := r[0 := Entry(p, r[0].master)];
    if c != IDLE {
      forall e | e in r'
        ensures e.priority <= hi
      {
        var i :| 0 <= i < |r'| && r'[i] == e;
        assert i > 0 ==> e == r[i] && e in r;
      }
    }
    assert forall x :: x in st'.threads && x != c ==> st'.threads[x].record == st.threads[x].record;
  }

  /** A step within the band stays in it. */
  lemma StepIn(st: State, a: Action, lo: int, hi: int)
    requires Settled(st) && KernelSteps.Enabled(st, a) && StateIn(st, lo, hi) && ActionIn(a, lo, hi)
    ensures StateIn(Step(st, a), lo, hi)
  {
    hide Settled, Inv, AcquireLoop, DownLoop, Release, SetPriority, WakeOne, Yield, Sleep, Tick, Create, Exit,
      StateIn, ThreadOk, DonationsOwned;
    CpuFacts(st);
    match a {
      case AAcquire(l) => AcquireIn(st, l, lo, hi);
      case AResume => ResumeIn(st, lo, hi);
      case ARelease(l) => ReleaseIn(st, l, lo, hi);
      case ADown(s) => DownIn(st, s, lo, hi);
      case ASetPriority(p) => SetPriorityIn(st, p, lo, hi);
      case _ => QuietIn(st, a, lo, hi);
    }
  }

  lemma ResumeIn(st: State, lo: int, hi: int)
    requires Settled(st) && KernelSteps.Enabled(st, AResume) && StateIn(st, lo, hi)
    ensures StateIn(Step(st, AResume), lo, hi)
  {
    hide Settled, Inv, AcquireLoop, DownLoop, StateIn;
    CpuFacts(st);
    var s := st.threads[st.cpu.value].pc.sema;
    if st.semas[s].isLock {
      AcquireIn(st, s, lo, hi);
    } else {
      DownIn(st, s, lo, hi);
    }
  }

  /** In a band no wider than the slots, a slot is free for every donation. */
  lemma SlotInBand(st: State, a: Action, lo: int, hi: int)
    requires Settled(st) && KernelSteps.Enabled(st, a) && StateIn(st, lo, hi) && hi - lo <= CAPACITY
    ensures SlotFree(st, a)
  {
    hide Settled, Inv, DonationsOwned;
    CpuFacts(st);
    HoldersExist(st);
    AllWellFormed(st);
    var c := st.cpu.value;
    forall l | l in st.semas && DonationDue(st, l) && Acquires(st, a, l)
      ensures |st.threads[st.semas[l].holder.value].record| <= CAPACITY
    {
      var h := st.semas[l].holder.value;
      DepthBound(st.threads[h].record);
      assert RecordIn(st.threads[h].record, lo, hi) && RecordIn(st.threads[c].record, lo, hi);
      assert Prio(st, c) <= hi;
    }
  }

  lemma AllWellFormed(st: State)
    requires Settled(st)
    ensures forall t :: t in st.threads ==> WellFormed(st.threads[t].record)
  {
    assert forall t :: t in st.threads ==> ThreadOk(st, t);
  }

  // ------------------------------------------------------ runs in a band

  ghost predicate BandTrace(states: seq<State>, actions: seq<Action>, lo: int, hi: int) {
    && IsTrace(states, actions) && StateIn(states[0], lo, hi)
    && forall i :: 0 <= i < |actions| ==> ActionIn(actions[i], lo, hi)
  }

  lemma {:induction false} TraceIn(states: seq<State>, actions: seq<Action>, lo: int, hi: int, n: nat)
    requires BandTrace(states, actions, lo, hi) && n < |states|
    ensures StateIn(states[n], lo, hi)
  {
    hide Settled, Step, KernelSteps.Enabled, StateIn;
    if n > 0 {
      TraceIn(states, actions, lo, hi, n - 1);
      TraceSettled(states, actions, n - 1);
      assert Follows(states[n - 1], actions[n - 1], states[n - 1 + 1]);
      StepIn(states[n - 1], actions[n - 1], lo, hi);
    }
  }

  /** So the slots last through every such run, and it is safe. */
  lemma BandTraceIsRun(states: seq<State>, actions: seq<Action>, lo: int, hi: int)
    requires BandTrace(states, actions, lo, hi) && hi - lo <= CAPACITY
    ensures IsRun(states, actions)
  {
    hide Settled, Step, KernelSteps.Enabled, StateIn, SlotFree;
    forall i | 0 <= i < |actions|
      ensures SlotFree(states[i], actions[i])
    {
      TraceSettled(states, actions, i);
      TraceIn(states, actions, lo, hi, i);
      assert Follows(states[i], actions[i], states[i + 1]);
      SlotInBand(states[i], actions[i], lo, hi);
    }
  }

  lemma BandSafe(states: seq<State>, actions: seq<Action>, lo: int, hi: int, st: State)
    requires BandTrace(states, actions, lo, hi) && hi - lo <= CAPACITY && st in states
    ensures MutualExclusion(st) && NoLostWakeup(st) && QueuesOrdered(st) && OnOneList(st) && DonationsSound(st)
    ensures StateIn(st, lo, hi)
  {
    hide BandTrace, IsRun, StateIn;
    BandTraceIsRun(states, actions, lo, hi);
    RunSafe(states, actions, st);
    var n :| 0 <= n < |states| && states[n] == st;
    TraceIn(states, actions, lo, hi, n);
  }

  // ------------------------------------------------ the run that overflows

  /** The main thread at `lo` holds lock 1 and has had `i` donations, each one
      level up, from threads 2 to i + 1 that all wait for the lock. */
  function Rung(lo: int, i: nat): Scene {
    if i == 0 then
      Scene(MAIN, map[IDLE := [Entry(PRI_MIN, None)], MAIN := [Entry(lo, None)]], {}, {}, map[], {1}, map[1 := MAIN])
    else
      var sc := Rung(lo, i - 1);
      var r := if MAIN in sc.records then sc.records[MAIN] else [];
      sc.(records := sc.records[i + 1 := [Entry(lo + i, None)]][MAIN := r + [Entry(lo + i, Some(1))]],
          waits := sc.waits[i + 1 := 1])
  }

  lemma {:induction false} RungShape(lo: int, i: nat)
    requires PRI_MIN <= lo
    ensures var sc := Rung(lo, i);
      && sc.running == MAIN && sc.ready == {} && sc.asleep == {} && sc.locks == {1} && sc.holders == map[1 := MAIN]
      && IDLE in sc.records && MAIN in sc.records && sc.records[IDLE] == [Entry(PRI_MIN, None)]
      && (forall t :: t in sc.records ==> t < i + 2)
      && |sc.records[MAIN]| == i + 1 && Level(sc, MAIN) == lo + i
  {
    if i > 0 {
      RungShape(lo, i - 1);
    }
  }

  /** The next donor has come, one level above the main thread, and runs. */
  function Challenged(lo: int, i: nat): Scene {
    var sc := Rung(lo, i);
    sc.(running := i + 2, records := sc.records[i + 2 := [Entry(lo + i + 1, None)]], ready := {MAIN})
  }

  lemma Challenge(states: seq<State>, actions: seq<Action>, lo: int, hi: int, i: nat)
    returns (states': seq<State>, actions': seq<Action>)
    requires PRI_MIN <= lo && lo + i + 1 <= hi <= PRI_MAX && BandTrace(states, actions, lo, hi)
    requires states != [] && Settled(Last(states)) && Shows(Last(states), Rung(lo, i))
    ensures BandTrace(states', actions', lo, hi)
    ensures states' != [] && Settled(Last(states')) && Shows(Last(states'), Challenged(lo, i))
    ensures states'[0] == states[0]
  {
    hide Settled, Shows, KernelSteps.Enabled, Step, IsTrace, StateIn, Rung;
    RungShape(lo, i);
    var sc, d, p := Rung(lo, i), i + 2, lo + i + 1;
    ShowsCreate(Last(states), sc, d, p);
    var sc1 := sc.(records := sc.records[d := [Entry(p, None)]], ready := {d});
    assert sc.ready + {d} == {d};
    states', actions' := Then(states, actions, ACreate(d, p), sc1);
    assert sc1.ready + {MAIN} == {d, MAIN} && {d, MAIN} - {d} == {MAIN};
    assert Leads(sc1, {d, MAIN}, d) by {
      assert Level(sc1, d) == p && Level(sc1, MAIN) == lo + i;
    }
    ShowsYield(Last(states'), sc1, d);
    assert sc1.(running := d, ready := {MAIN}) == Challenged(lo, i);
    states', actions' := Then(states', actions', AYield, Challenged(lo, i));
  }

  lemma Donate(states: seq<State>, actions: seq<Action>, lo: int, hi: int, i: nat)
    returns (states': seq<State>, actions': seq<Action>)
    requires PRI_MIN <= lo && BandTrace(states, actions, lo, hi)
    requires states != [] && Settled(Last(states)) && Shows(Last(states), Challenged(lo, i))
    ensures BandTrace(states', actions', lo, hi)
    ensures states' != [] && Settled(Last(states')) && Shows(Last(states'), Rung(lo, i + 1))
    ensures KernelSteps.Enabled(Last(states), AAcquire(1)) && states' == states + [Step(Last(states), AAcquire(1))]
    ensures actions' == actions + [AAcquire(1)]
  {
    hide Settled, Shows, KernelSteps.Enabled, Step, IsTrace, StateIn;
    RungShape(lo, i);
    var sc := Challenged(lo, i);
    var sc' := AfterDonation(sc, 1);
    assert Level(sc, MAIN) == lo + i && Level(sc, sc.running) == lo + i + 1;
    assert Level(sc', MAIN) == lo + i + 1;
    assert Leads(sc', {MAIN}, MAIN);
    ShowsDonate(Last(states), sc, 1, MAIN);
    RungStep(lo, i);
    states', actions' := Then(states, actions, AAcquire(1), Rung(lo, i + 1));
  }

  lemma RungStep(lo: int, i: nat)
    requires PRI_MIN <= lo
    ensures var sc := Challenged(lo, i);
      1 in sc.holders && sc.holders[1] in sc.records
      && AfterDonation(sc, 1).(running := MAIN, ready := sc.ready - {MAIN}) == Rung(lo, i + 1)
  {
    RungShape(lo, i);
    var sc := Challenged(lo, i);
    assert sc.ready - {MAIN} == {};
    assert Level(sc, sc.running) == lo + i + 1;
  }

  lemma {:induction false} Climb(lo: int, hi: int, i: nat) returns (states: seq<State>, actions: seq<Action>)
    requires PRI_MIN <= lo && lo + i <= hi <= PRI_MAX
    ensures BandTrace(states, actions, lo, hi) && states != [] && Reached(states[0])
    ensures Settled(Last(states)) && Shows(Last(states), Rung(lo, i))
  {
    hide Settled, Shows, BandTrace, Reached;
    if i == 0 {
      states, actions := FirstRung(lo, hi);
    } else {
      states, actions := Climb(lo, hi, i - 1);
      states, actions := Challenge(states, actions, lo, hi, i - 1);
      states, actions := Donate(states, actions, lo, hi, i - 1);
    }
  }

  /** Some run from boot ends in `st`. */
  ghost predicate Reached(st: State) {
    exists locks, initial, states, actions :: BootRun(locks, initial, states, actions) && Last(states) == st
  }

  ghost predicate BootRun(locks: set<Sid>, initial: map<Sid, nat>, states: seq<State>, actions: seq<Action>) {
    states != [] && states[0] == Boot(locks, initial) && IsRun(states, actions)
  }

  /** thread_set_priority by the main thread right after boot, with the yield
      at its end. */
  lemma OpeningAt(p: int) returns (st: State, sc: Scene)
    requires PRI_MIN <= p
    ensures Reached(st) && Settled(st) && Shows(st, sc)
    ensures sc == Opening({1}).(records := map[IDLE := [Entry(PRI_MIN, None)], MAIN := [Entry(p, None)]])
  {
    hide Settled, Shows, KernelSteps.Enabled, Step, SlotFree;
    var states, actions, sc0 := [Boot({1}, map[])], [], Opening({1});
    BootShows({1});
    BootSettled({1}, map[]);
    ShowsSetPriority(states[0], sc0, p);
    sc := sc0.(records := sc0.records[MAIN := [Entry(p, None)]]);
    assert sc.records == map[IDLE := [Entry(PRI_MIN, None)], MAIN := [Entry(p, None)]];
    states, actions := RunOn(states, actions, ASetPriority(p), sc0, sc);
    ShowsYieldAlone(Last(states), sc);
    states, actions := RunOn(states, actions, AYield, sc, sc);
    st := Last(states);
    assert BootRun({1}, map[], states, actions);
  }

  /** From there the main thread takes the lock. */
  lemma FirstRung(lo: int, hi: int) returns (states: seq<State>, actions: seq<Action>)
    requires PRI_MIN <= lo <= hi
    ensures BandTrace(states, actions, lo, hi) && states != [] && Reached(states[0])
    ensures Settled(Last(states)) && Shows(Last(states), Rung(lo, 0))
  {
    hide Settled, Shows, KernelSteps.Enabled, Step, Reached;
    var st0, sc0 := OpeningAt(lo);
    SceneIn(st0, sc0, lo, hi);
    states, actions := [st0], [];
    ShowsTake(st0, sc0, 1);
    assert sc0.(holders := sc0.holders[1 := MAIN]) == Rung(lo, 0);
    states, actions := Then(states, actions, AAcquire(1), Rung(lo, 0));
  }

  lemma SceneIn(st: State, sc: Scene, lo: int, hi: int)
    requires Shows(st, sc) && forall t :: t in sc.records && t != IDLE ==> RecordIn(sc.records[t], lo, hi)
    ensures Settled(st) && StateIn(st, lo, hi)
  {
    hide Settled;
  }

  /** One donor more than there are slots. */
  lemma LadderOverflows(lo: int, hi: int) returns (states: seq<State>, actions: seq<Action>)
    requires PRI_MIN <= lo && lo + CAPACITY < hi <= PRI_MAX
    ensures BandTrace(states, actions, lo, hi) && states != [] && Reached(states[0]) && !IsRun(states, actions)
  {
    hide Settled, Shows, BandTrace, IsTrace, Reached;
    states, actions := Climb(lo, hi, CAPACITY);
    states, actions := Challenge(states, actions, lo, hi, CAPACITY);
    var st := Last(states);
    NoSlotLeft(st, lo);
    BandLength(states, actions, lo, hi);
    ghost var before := actions;
    states, actions := Donate(states, actions, lo, hi, CAPACITY);
    assert states[|before|] == st && actions[|before|] == AAcquire(1);
  }

  lemma BandLength(states: seq<State>, actions: seq<Action>, lo: int, hi: int)
    requires BandTrace(states, actions, lo, hi)
    ensures |states| == |actions| + 1
  {
  }

  lemma NoSlotLeft(st: State, lo: int)
    requires PRI_MIN <= lo && Shows(st, Challenged(lo, CAPACITY))
    ensures !SlotFree(st, AAcquire(1))
  {
    hide Settled, Rung;
    RungShape(lo, CAPACITY);
    var sc := Challenged(lo, CAPACITY);
    assert Prio(st, MAIN) == lo + CAPACITY && Prio(st, sc.running) == lo + CAPACITY + 1;
    assert DonationDue(st, 1) && Acquires(st, AAcquire(1), 1);
  }

  /** Through every kernel run with priorities from `lo` to `hi` the slots last
      if and only if the two are at most 30 apart, whether the run may start
      anywhere or only where a run from boot has led. */
  lemma SlotsLastIff(lo: int, hi: int)
    requires PRI_MIN <= lo <= hi <= PRI_MAX
    ensures (forall states, actions :: BandTrace(states, actions, lo, hi) ==> IsRun(states, actions)) <==>
            hi - lo <= CAPACITY
    ensures (forall states, actions ::
               BandTrace(states, actions, lo, hi) && states != [] && Reached(states[0]) ==> IsRun(states, actions)) <==>
            hi - lo <= CAPACITY
  {
    hide BandTrace, IsRun, Reached;
    if hi - lo <= CAPACITY {
      forall states, actions | BandTrace(states, actions, lo, hi)
        ensures IsRun(states, actions)
      {
        BandTraceIsRun(states, actions, lo, hi);
      }
    } else {
      var states, actions := LadderOverflows(lo, hi);
    }
  }
}
