/** Two runs from boot. In one a lock's holder ends up below a waiter: a
    donation that was not needed when it was due is not made up for later. In
    the other a donation is due to a thread that is asleep. */
module KernelWitness {
  import opened Options
  import opened Donation
  import opened KernelState
  import opened KernelSteps
  import opened KernelEffects
  import opened KernelScenes
  import opened KernelPriorities

  // Locks 1 and 2; threads 2 and 3 come at priority 50. The main thread, at
  // 10, holds both locks.
  function Own(p: int): Record { [Entry(p, None)] }

  function Alone(p: int, holders: map<Sid, Tid>): Scene {
    Scene(MAIN, map[IDLE := Own(PRI_MIN), MAIN := Own(p)], {}, {}, map[], {1, 2}, holders)
  }

  /** The main thread has both locks, and 50 from thread 2 for lock 1. */
  function OneDonor(): Scene {
    Scene(MAIN, map[IDLE := Own(PRI_MIN), MAIN := Own(10) + [Entry(50, Some(1))], 2 := Own(50)],
          {}, {}, map[2 := 1], {1, 2}, map[1 := MAIN, 2 := MAIN])
  }

  /** Thread 3 waits for lock 2 at 50, which calls for no donation. */
  function TwoWaiters(): Scene {
    Scene(MAIN, map[IDLE := Own(PRI_MIN), MAIN := Own(10) + [Entry(50, Some(1))], 2 := Own(50), 3 := Own(50)],
          {}, {}, map[2 := 1, 3 := 2], {1, 2}, map[1 := MAIN, 2 := MAIN])
  }

  lemma ToAlone() returns (states: seq<State>, actions: seq<Action>)
    ensures IsRun(states, actions) && states != [] && states[0] == Boot({1, 2}, map[])
    ensures Settled(Last(states)) && Shows(Last(states), Alone(10, map[1 := MAIN, 2 := MAIN]))
  {
    hide Settled, Shows, KernelSteps.Enabled, Step, IsRun;
    BootShows({1, 2});
    assert Opening({1, 2}) == Alone(31, map[]);
    states, actions := Start({1, 2});
    ShowsSetPriority(Last(states), Alone(31, map[]), 10);
    assert Alone(31, map[]).(records := Alone(31, map[]).records[MAIN := Own(10)]) == Alone(10, map[]);
    states, actions := RunOn(states, actions, ASetPriority(10), Alone(31, map[]), Alone(10, map[]));
    ShowsYieldAlone(Last(states), Alone(10, map[]));
    states, actions := RunOn(states, actions, AYield, Alone(10, map[]), Alone(10, map[]));
    ShowsTake(Last(states), Alone(10, map[]), 1);
    states, actions := RunOn(states, actions, AAcquire(1), Alone(10, map[]), Alone(10, map[1 := MAIN]));
    ShowsTake(Last(states), Alone(10, map[1 := MAIN]), 2);
    assert map[1 := MAIN][2 := MAIN] == map[1 := MAIN, 2 := MAIN];
    states, actions :=
      RunOn(states, actions, AAcquire(2), Alone(10, map[1 := MAIN]), Alone(10, map[1 := MAIN, 2 := MAIN]));
  }

  lemma Start(locks: set<Sid>) returns (states: seq<State>, actions: seq<Action>)
    ensures IsRun(states, actions) && states == [Boot(locks, map[])] && actions == []
    ensures Settled(Last(states)) && Shows(Last(states), Opening(locks))
  {
    BootSettled(locks, map[]);
    BootShows(locks);
    states, actions := [Boot(locks, map[])], [];
  }

  /** Thread 2 has come, and runs. */
  function Arrived(): Scene {
    Scene(2, map[IDLE := Own(PRI_MIN), MAIN := Own(10), 2 := Own(50)],
          {MAIN}, {}, map[], {1, 2}, map[1 := MAIN, 2 := MAIN])
  }

  lemma ToArrived() returns (states: seq<State>, actions: seq<Action>)
    ensures IsRun(states, actions) && states != [] && states[0] == Boot({1, 2}, map[])
    ensures Settled(Last(states)) && Shows(Last(states), Arrived())
  {
    hide Settled, Shows, KernelSteps.Enabled, Step, IsRun;
    states, actions := ToAlone();
    var a := Alone(10, map[1 := MAIN, 2 := MAIN]);
    ShowsCreate(Last(states), a, 2, 50);
    var b := a.(records := a.records[2 := Own(50)], ready := {2});
    assert a.ready + {2} == {2};
    states, actions := RunOn(states, actions, ACreate(2, 50), a, b);
    assert Leads(b, {2, MAIN}, 2) && b.ready + {MAIN} == {2, MAIN};
    ShowsYield(Last(states), b, 2);
    assert {2, MAIN} - {2} == {MAIN};
    assert b.(running := 2, ready := {MAIN}) == Arrived();
    states, actions := RunOn(states, actions, AYield, b, Arrived());
  }

  lemma ToOneDonor() returns (states: seq<State>, actions: seq<Action>)
    ensures IsRun(states, actions) && states != [] && states[0] == Boot({1, 2}, map[])
    ensures Settled(Last(states)) && Shows(Last(states), OneDonor())
  {
    hide Settled, Shows, KernelSteps.Enabled, Step, IsRun;
    states, actions := ToArrived();
    assert AfterDonation(Arrived(), 1).(running := MAIN, ready := {MAIN} - {MAIN}) == OneDonor();
    assert Leads(AfterDonation(Arrived(), 1), {MAIN}, MAIN);
    ShowsDonate(Last(states), Arrived(), 1, MAIN);
    states, actions := RunOn(states, actions, AAcquire(1), Arrived(), OneDonor());
  }

  /** Thread 3 has come and runs, the main thread being asleep. */
  function Visited(): Scene {
    Scene(3, map[IDLE := Own(PRI_MIN), MAIN := Own(10) + [Entry(50, Some(1))], 2 := Own(50), 3 := Own(50)],
          {}, {MAIN}, map[2 := 1], {1, 2}, map[1 := MAIN, 2 := MAIN])
  }

  lemma ToVisited() returns (states: seq<State>, actions: seq<Action>)
    ensures IsRun(states, actions) && states != [] && states[0] == Boot({1, 2}, map[])
    ensures Settled(Last(states)) && Shows(Last(states), Visited())
  {
    hide Settled, Shows, KernelSteps.Enabled, Step, IsRun;
    states, actions := ToOneDonor();
    var a := OneDonor();
    ShowsCreate(Last(states), a, 3, 50);
    var b := a.(records := a.records[3 := Own(50)], ready := {3});
    assert a.ready + {3} == {3};
    states, actions := RunOn(states, actions, ACreate(3, 50), a, b);
    assert Leads(b, {3}, 3);
    ShowsSleep(Last(states), b, 3);
    assert {3} - {3} == {} && b.asleep + {MAIN} == {MAIN};
    assert b.(running := 3, ready := {}, asleep := {MAIN}) == Visited();
    states, actions := RunOn(states, actions, ASleep(Last(states).ticks, 1), b, Visited());
  }

  lemma ToTwoWaiters() returns (states: seq<State>, actions: seq<Action>)
    ensures IsRun(states, actions) && states != [] && states[0] == Boot({1, 2}, map[])
    ensures Settled(Last(states)) && Shows(Last(states), TwoWaiters())
  {
    hide Settled, Shows, KernelSteps.Enabled, Step, IsRun;
    states, actions := ToVisited();
    var c := Visited();
    assert Leads(c, {}, IDLE) && c.ready - {IDLE} == {};
    ShowsWait(Last(states), c, 2, IDLE);
    var d := c.(running := IDLE, waits := c.waits[3 := 2]);
    states, actions := RunOn(states, actions, AAcquire(2), c, d);
    ShowsTick(Last(states), d);
    var e := d.(ready := {MAIN}, asleep := {});
    assert d.ready + d.asleep == {MAIN};
    states, actions := RunOn(states, actions, ATick, d, e);
    assert Leads(e, {MAIN}, MAIN) && {MAIN} - {MAIN} == {};
    ShowsYield(Last(states), e, MAIN);
    assert e.(running := MAIN, ready := {}) == TwoWaiters();
    states, actions := RunOn(states, actions, AYield, e, TwoWaiters());
  }

  /** The main thread, at 50 thanks to lock 1, is above thread 3 that waits for
      its lock 2. Releasing lock 1 takes it down to 10 and leaves thread 3
      waiting for a holder of lower priority. */
  lemma CoverLost() returns (states: seq<State>, actions: seq<Action>)
    ensures IsRun(states, actions) && states != [] && states[0] == Boot({1, 2}, map[])
    ensures |states| >= 2 && HolderCovers(states[|states| - 2]) && !HolderCovers(states[|states| - 1])
    ensures actions[|actions| - 1] == ARelease(1)
  {
    hide Settled, Inv, Step, IsRun, Shows, Fits, HolderCovers, Guard, KernelSteps.Enabled;
    states, actions := ToTwoWaiters();
    var st := Last(states);
    TwoWaitersCovered(st);
    StepCovers(st, ARelease(1));
    ReleaseRuns(states, actions);
    states, actions := states + [Step(st, ARelease(1))], actions + [ARelease(1)];
  }

  lemma ReleaseRuns(states: seq<State>, actions: seq<Action>)
    requires IsRun(states, actions) && Settled(Last(states)) && Shows(Last(states), TwoWaiters())
    requires KernelSteps.Enabled(Last(states), ARelease(1))
    ensures |states| == |actions| + 1
    ensures IsRun(states + [Step(Last(states), ARelease(1))], actions + [ARelease(1)])
  {
    hide Settled, Shows, KernelSteps.Enabled, Step, SlotFree;
    FitsSlots(Last(states), TwoWaiters(), ARelease(1));
    Extend(states, actions, ARelease(1));
  }

  lemma TwoWaitersCovered(st: State)
    requires Shows(st, TwoWaiters())
    ensures Settled(st) && HolderCovers(st) && KernelSteps.Enabled(st, ARelease(1)) && !Guard(st, ARelease(1))
  {
    hide Settled, Inv, HolderCovers, KernelSteps.Enabled, Guard, ThreadOk, DonationsOwned, Without;
    SceneFacts(st, TwoWaiters());
    BothCovered(st);
    ReleaseEnabled(st);
    ReleasedRecord();
    SecondWaiter(st);
    GuardFails(st, 1, 2, MAIN, 10);
  }

  lemma BothCovered(st: State)
    requires Shows(st, TwoWaiters())
    ensures HolderCovers(st)
  {
    hide Shows;
    MainIsTop(st);
  }

  lemma MainIsTop(st: State)
    requires Shows(st, TwoWaiters())
    ensures forall t :: t in st.threads ==> Prio(st, t) <= Prio(st, MAIN)
    ensures forall l :: l in st.semas && st.semas[l].holder.Some? ==> st.semas[l].holder.value == MAIN
  {
    hide Settled;
    var sc := TwoWaiters();
    forall t | t in st.threads
      ensures Prio(st, t) <= 50
    {
      assert t in sc.records && st.threads[t].record == sc.records[t];
    }
    assert st.threads[MAIN].record == sc.records[MAIN];
    assert forall l :: l in sc.holders ==> sc.holders[l] == MAIN;
  }

  lemma ReleaseEnabled(st: State)
    requires Shows(st, TwoWaiters())
    ensures KernelSteps.Enabled(st, ARelease(1))
  {
    hide Settled, Inv, ThreadOk, DonationsOwned;
    SceneFacts(st, TwoWaiters());
    CpuFacts(st);
  }

  lemma ReleasedRecord()
    ensures Without(Own(10) + [Entry(50, Some(1))], 1) == Own(10)
  {
    var r := Own(10) + [Entry(50, Some(1))];
    assert r[1..] == [Entry(50, Some(1))] && r[1..][1..] == [];
    assert Without(r[1..], 1) == [];
  }

  lemma SecondWaiter(st: State)
    requires Shows(st, TwoWaiters())
    ensures !WaitersAtMost(st, 2, 10)
  {
    hide Settled, Inv, WaitersAtMost;
    WaitersAtMostMeans(st, 2, 10);
    assert At(st, 3, OnWait(2)) && Prio(st, 3) == 50;
  }

  lemma GuardFails(st: State, l: Sid, m: Sid, c: Tid, p: int)
    requires Settled(st) && KernelSteps.Enabled(st, ARelease(l)) && st.cpu == Some(c) && c in st.threads
    requires Without(st.threads[c].record, l) == Own(p) && m in st.semas && m != l && st.semas[m].holder == Some(c)
    requires !WaitersAtMost(st, m, p)
    ensures !Guard(st, ARelease(l))
  {
    hide Settled, WaitersAtMost, Without;
  }

  // ------------------------------------------- a holder that is asleep

  /** The main thread sleeps with lock 1 in its hands, and thread 2 runs. */
  function Napping(p: int): Scene {
    Scene(2, map[IDLE := Own(PRI_MIN), MAIN := Own(31), 2 := Own(p)], {}, {MAIN}, map[], {1}, map[1 := MAIN])
  }

  /** Thread 2 has come at 20, below the main thread, which goes to sleep. */
  lemma ToNapping() returns (states: seq<State>, actions: seq<Action>)
    ensures IsRun(states, actions) && states != [] && states[0] == Boot({1}, map[])
    ensures Settled(Last(states)) && Shows(Last(states), Napping(20))
  {
    hide Settled, Shows, KernelSteps.Enabled, Step, IsRun;
    states, actions := Start({1});
    var a := Opening({1});
    ShowsTake(Last(states), a, 1);
    var b := a.(holders := map[1 := MAIN]);
    states, actions := RunOn(states, actions, AAcquire(1), a, b);
    ShowsCreate(Last(states), b, 2, 20);
    var c := b.(records := b.records[2 := Own(20)], ready := {2});
    assert b.ready + {2} == {2};
    states, actions := RunOn(states, actions, ACreate(2, 20), b, c);
    assert Leads(c, {2}, 2);
    ShowsSleep(Last(states), c, 2);
    assert {2} - {2} == {} && c.asleep + {MAIN} == {MAIN};
    assert c.(running := 2, ready := {}, asleep := {MAIN}) == Napping(20);
    states, actions := RunOn(states, actions, ASleep(Last(states).ticks, 1), c, Napping(20));
  }

  /** Thread 2 raises its priority to 50, and if it now asks for lock 1 its
      donation is for a thread that is on the alarm list alone. */
  lemma SleepingHolder() returns (states: seq<State>, actions: seq<Action>)
    ensures IsRun(states, actions) && states != [] && states[0] == Boot({1}, map[])
    ensures var st := Last(states);
      && 1 in st.semas && st.cpu == Some(2) && st.semas[1].holder == Some(MAIN) && At(st, MAIN, OnAlarm)
      && DonationDue(st, 1) && !HolderLinked(st, 1)
  {
    hide Settled, KernelSteps.Enabled, Step, IsRun;
    states, actions := ToNapping();
    states, actions := NappingRaised(states, actions);
    var st := Last(states);
    assert Prio(st, MAIN) == 31 && Prio(st, 2) == 50;
  }

  lemma NappingRaised(run: seq<State>, acts: seq<Action>) returns (states: seq<State>, actions: seq<Action>)
    requires IsRun(run, acts) && run != [] && Settled(Last(run)) && Shows(Last(run), Napping(20))
    ensures IsRun(states, actions) && states != [] && states[0] == run[0]
    ensures Settled(Last(states)) && Shows(Last(states), Napping(50))
  {
    hide Settled, Shows, KernelSteps.Enabled, Step, IsRun;
    ShowsSetPriority(Last(run), Napping(20), 50);
    assert Napping(20).(records := Napping(20).records[2 := Own(50)]) == Napping(50);
    states, actions := RunOn(run, acts, ASetPriority(50), Napping(20), Napping(50));
    ShowsYieldAlone(Last(states), Napping(50));
    states, actions := RunOn(states, actions, AYield, Napping(50), Napping(50));
  }
}
