/** What follows from the rules of KernelTables over whole runs: how long a
    sleeper sleeps, that nobody is overtaken by an equal, and that an own
    priority set under a donation comes into force with the release. */
module KernelLaws {
  import opened Options
  import opened Donation
  import opened KernelState
  import opened KernelSteps
  import opened KernelEffects
  import opened KernelTables

  // ------------------------------------------------------ bystanders

  /** A switch of threads leaves alone whoever is not chosen. */
  lemma SwitchLeaves(a: Table, ths: Threads, clock: nat, b: Table, t: Tid)
    requires Switch(a, ths, clock, b) && t in ths && ths[t].place != OnReady && t != IDLE
    ensures t in b.threads && b.threads[t] == ths[t] && b.ticks == a.ticks
  {
  }

  /** A sleeper stays asleep through every call but a timer interrupt. */
  lemma SleeperKept(a: Table, x: Action, b: Table, t: Tid)
    requires Does(a, x, b) && t in a.threads && a.threads[t].place == OnAlarm && t != IDLE && a.cpu != Some(t)
    requires !x.ATick? && (x.ACreate? ==> x.t !in a.threads)
    requires forall s :: s in a.semas && a.semas[s].holder == Some(t) ==>
      Level(a.threads[a.cpu.value]) <= Level(a.threads[t]) || !Asks(a, x, s)
    ensures t in b.threads && b.threads[t] == a.threads[t] && b.ticks == a.ticks
  {
    hide Switch;
    match x {
      case AAcquire(l) => AcquireKeepsSleeper(a, l, b, t);
      case ARelease(l) => ReleaseKeepsSleeper(a, l, b, t);
      case ADown(s) => DownKeepsSleeper(a, s, b, t);
      case AUp(s) => WakeKeepsSleeper(a, s, b, t);
      case AResume =>
        var s := a.threads[a.cpu.value].pc.sema;
        if a.semas[s].isLock {
          AcquireKeepsSleeper(a, s, b, t);
        } else {
          DownKeepsSleeper(a, s, b, t);
        }
      case AYield => YieldKeepsSleeper(a, b, t);
      case ASleep(start, n) =>
        var c := a.cpu.value;
        var th := a.threads[c].(status := BLOCKED, wake := start + n);
        SwitchLeaves(a, Joins(a, c, th, OnAlarm), a.clock + 1, b, t);
      case ASetPriority(p) =>
      case ACreate(u, p) =>
      case AExit => SwitchLeaves(a, a.threads - {a.cpu.value}, a.clock, b, t);
    }
  }

  /** The call is a turn of lock_acquire's loop for `s`. */
  ghost predicate Asks(a: Table, x: Action, s: Sid)
    requires Running(a)
  {
    x == AAcquire(s) || (x == AResume && a.threads[a.cpu.value].pc == Waiting(s))
  }

  lemma WaitKeepsSleeper(a: Table, s: Sid, b: Table, t: Tid)
    requires Running(a) && Waits(a, s, b)
    requires t in a.threads && a.threads[t].place == OnAlarm && t != IDLE && a.cpu != Some(t)
    ensures t in b.threads && b.threads[t] == a.threads[t] && b.ticks == a.ticks
  {
    hide Switch;
    var c := a.cpu.value;
    var th := a.threads[c].(status := BLOCKED, pc := Waiting(s));
    SwitchLeaves(a, Joins(a, c, th, OnWait(s)), a.clock + 1, b, t);
  }

  lemma AcquireKeepsSleeper(a: Table, l: Sid, b: Table, t: Tid)
    requires Running(a) && l in a.semas && AcquiresLock(a, l, b)
    requires t in a.threads && a.threads[t].place == OnAlarm && t != IDLE && a.cpu != Some(t)
    requires a.semas[l].holder == Some(t) ==> Level(a.threads[a.cpu.value]) <= Level(a.threads[t])
    ensures t in b.threads && b.threads[t] == a.threads[t] && b.ticks == a.ticks
  {
    hide Waits;
    var c, m := a.cpu.value, a.semas[l];
    if m.value == 0 {
      var h := m.holder.value;
      if Level(a.threads[h]) < Level(a.threads[c]) {
        var donated := a.threads[h].(record := a.threads[h].record + [Entry(Level(a.threads[c]), Some(l))]);
        WaitKeepsSleeper(a.(threads := Joins(a, h, donated, OnReady), clock := a.clock + 1), l, b, t);
      } else {
        WaitKeepsSleeper(a, l, b, t);
      }
    }
  }

  lemma DownKeepsSleeper(a: Table, s: Sid, b: Table, t: Tid)
    requires Running(a) && s in a.semas && Downs(a, s, b)
    requires t in a.threads && a.threads[t].place == OnAlarm && t != IDLE && a.cpu != Some(t)
    ensures t in b.threads && b.threads[t] == a.threads[t] && b.ticks == a.ticks
  {
    hide Waits;
    if a.semas[s].value == 0 {
      WaitKeepsSleeper(a, s, b, t);
    }
  }

  lemma YieldKeepsSleeper(a: Table, b: Table, t: Tid)
    requires Running(a) && Yields(a, b)
    requires t in a.threads && a.threads[t].place == OnAlarm && t != IDLE && a.cpu != Some(t)
    ensures t in b.threads && b.threads[t] == a.threads[t] && b.ticks == a.ticks
  {
    hide Switch;
    var c := a.cpu.value;
    var th := a.threads[c].(status := READY);
    if c == IDLE {
      SwitchLeaves(a, a.threads[c := th.(place := Nowhere)], a.clock, b, t);
    } else {
      SwitchLeaves(a, Joins(a, c, th, OnReady), a.clock + 1, b, t);
    }
  }

  lemma WakeKeepsSleeper(a: Table, s: Sid, b: Table, t: Tid)
    requires s in a.semas && Wakes(a, s, b) && t in a.threads && a.threads[t].place == OnAlarm
    ensures t in b.threads && b.threads[t] == a.threads[t] && b.ticks == a.ticks && b.cpu == a.cpu
  {
  }

  lemma ReleaseKeepsSleeper(a: Table, l: Sid, b: Table, t: Tid)
    requires Running(a) && l in a.semas && Releases(a, l, b)
    requires t in a.threads && a.threads[t].place == OnAlarm && t != IDLE && a.cpu != Some(t)
    ensures t in b.threads && b.threads[t] == a.threads[t] && b.ticks == a.ticks
  {
    hide Yields, Wakes, Outranked, Drops;
    var c := a.cpu.value;
    var r :| Drops(a.threads[c].record, l, r) && Ups(a.(threads := a.threads[c := a.threads[c].(record := r)]), l, b);
    var a1 := a.(threads := a.threads[c := a.threads[c].(record := r)]);
    var mid :| Wakes(a1, l, mid) && Running(mid) && if Outranked(a1, l) then Yields(mid, b) else b == mid;
    WakeKeepsSleeper(a1, l, mid, t);
    if Outranked(a1, l) {
      YieldKeepsSleeper(mid, b, t);
    }
  }

  // ------------------------------------------------------ the alarm clock

  /** One step of a sleeper: it sleeps on while it is early, and a timer
      interrupt at or after its time makes it ready. */
  lemma SleeperStep(st: State, x: Action, t: Tid)
    requires Settled(st) && KernelSteps.Enabled(st, x) && At(st, t, OnAlarm)
    ensures var st' := Step(st, x);
      && t in st'.threads && st'.threads[t].wake == st.threads[t].wake
      && st'.ticks == st.ticks + (if x == ATick then 1 else 0)
      && (x != ATick || st'.ticks < st.threads[t].wake ==> At(st', t, OnAlarm))
      && (x == ATick && st'.ticks >= st.threads[t].wake ==> At(st', t, OnReady))
  {
    hide Settled, Inv, Step, Does, ThreadOk, DonationsOwned;
    StepDoes(st, x);
    CpuFacts(st);
    SleeperFacts(st, x, t);
    if x == ATick {
      TickWakes(View(st), View(Step(st, x)), t);
    } else {
      SleeperKept(View(st), x, View(Step(st, x)), t);
    }
  }

  lemma TickWakes(a: Table, b: Table, t: Tid)
    requires Does(a, ATick, b) && t in a.threads && a.threads[t].place == OnAlarm
    ensures b.ticks == a.ticks + 1 && t in b.threads && b.threads[t].wake == a.threads[t].wake
    ensures b.threads[t].place == if a.threads[t].wake <= b.ticks then OnReady else OnAlarm
  {
    assert Due(a, a.ticks + 1, t) || !Due(a, a.ticks + 1, t);
  }

  lemma SleeperFacts(st: State, x: Action, t: Tid)
    requires Settled(st) && KernelSteps.Enabled(st, x) && At(st, t, OnAlarm)
    ensures Running(View(st)) && t != IDLE && st.cpu != Some(t)
    ensures forall s :: s in st.semas && st.semas[s].holder == Some(t) ==>
      Level(st.threads[st.cpu.value]) <= Level(st.threads[t]) || !Asks(View(st), x, s)
  {
    hide Queues, WakeupOk, DonationsOwned, WellFormed;
    assert ThreadOk(st, t) && ThreadOk(st, IDLE);
    assert st.cpu == Some(t) ==> At(st, t, OnCpu);
    forall s | s in st.semas && st.semas[s].holder == Some(t) && Asks(View(st), x, s)
      ensures Level(st.threads[st.cpu.value]) <= Level(st.threads[t])
    {
      assert LockOk(st, s) && HolderLinked(st, s);
    }
  }

  /** A thread that goes to sleep until `w` is asleep as long as the clock
      shows less, and whenever the clock has ticked and shows `w` or more it
      has been made ready, at the very tick `w` or, if that had passed when
      it went to sleep, at the next one. */
  lemma {:induction false} SleepsUntil(states: seq<State>, actions: seq<Action>, i: nat, j: nat, t: Tid)
    requires IsTrace(states, actions) && i <= j < |states| && At(states[i], t, OnAlarm)
    ensures var w, now := states[i].threads[t].wake, states[i].ticks;
      && (states[j].ticks == now || states[j].ticks < w ==>
           At(states[j], t, OnAlarm) && states[j].threads[t].wake == w)
      && (states[j].ticks > now && states[j].ticks >= w ==>
           exists k :: i < k <= j && At(states[k], t, OnReady)
             && states[k].ticks == if w <= now then now + 1 else w)
    decreases j - i
  {
    if i < j {
      hide Settled, Step, KernelSteps.Enabled;
      TraceSettled(states, actions, i);
      assert Follows(states[i], actions[i], states[i + 1]);
      SleeperStep(states[i], actions[i], t);
      var w, now := states[i].threads[t].wake, states[i].ticks;
      if At(states[i + 1], t, OnAlarm) {
        SleepsUntil(states, actions, i + 1, j, t);
      } else {
        ClockGoesOn(states, actions, i + 1, j);
        assert At(states[i + 1], t, OnReady) && states[i + 1].ticks == now + 1;
      }
    }
  }

  /** How many of the steps from `i` up to `j` are timer interrupts. */
  ghost function Interrupts(actions: seq<Action>, i: nat, j: nat): nat
    requires i <= j <= |actions|
    decreases j - i
  {
    if i == j then 0 else (if actions[i] == ATick then 1 else 0) + Interrupts(actions, i + 1, j)
  }

  lemma {:induction false} ClockGoesOn(states: seq<State>, actions: seq<Action>, i: nat, j: nat)
    requires IsTrace(states, actions) && i <= j < |states|
    ensures states[j].ticks == states[i].ticks + Interrupts(actions, i, j)
    decreases j - i
  {
    hide Settled, Step, KernelSteps.Enabled, Inv;
    if i < j {
      TraceSettled(states, actions, i);
      assert Follows(states[i], actions[i], states[i + 1]);
      StepClock(states[i], actions[i]);
      ClockGoesOn(states, actions, i + 1, j);
    }
  }

  /** The clock shows how many timer interrupts there have been since boot. */
  lemma ClockCounts(locks: set<Sid>, initial: map<Sid, nat>, states: seq<State>, actions: seq<Action>, j: nat)
    requires IsTrace(states, actions) && j < |states| && states[0] == Boot(locks, initial)
    ensures states[j].ticks == Interrupts(actions, 0, j)
  {
    hide IsTrace;
    ClockGoesOn(states, actions, 0, j);
  }

  /** Only a timer interrupt moves the clock, by one. */
  lemma StepClock(st: State, x: Action)
    requires Settled(st) && KernelSteps.Enabled(st, x)
    ensures Step(st, x).ticks == st.ticks + if x == ATick then 1 else 0
  {
    hide Settled, Inv, Step;
    StepDoes(st, x);
    TableClock(View(st), x, View(Step(st, x)));
  }

  lemma TableClock(a: Table, x: Action, b: Table)
    requires Does(a, x, b)
    ensures b.ticks == a.ticks + if x == ATick then 1 else 0
  {
    hide First, Nobody, WakesDue, Outranked, Drops;
  }

  // ------------------------------------------------------ no overtaking

  /** `t` and `c` are both ready, and `t` is ahead. */
  ghost predicate InFront(a: Table, t: Tid, c: Tid) {
    && t in a.threads && c in a.threads && a.threads[t].place == OnReady && a.threads[c].place == OnReady
    && Ahead(a.threads[t], a.threads[c])
  }

  ghost predicate Arrived(a: Table) {
    forall t :: t in a.threads ==> a.threads[t].arrived < a.clock
  }

  /** `c` does not come to the CPU past `t`. */
  ghost predicate KeepsFront(b: Table, t: Tid, c: Tid) {
    b.cpu == Some(t) || InFront(b, t, c)
  }

  ghost predicate NotAbove(b: Table, c: Tid, t: Tid) {
    c in b.threads && t in b.threads && Level(b.threads[c]) <= Level(b.threads[t])
  }

  lemma SwitchKeepsFront(a: Table, ths: Threads, clock: nat, b: Table, t: Tid, c: Tid)
    requires Switch(a, ths, clock, b) && t in ths && c in ths && t != c
    requires ths[t].place == OnReady && ths[c].place == OnReady && Ahead(ths[t], ths[c])
    ensures KeepsFront(b, t, c)
  {
  }

  lemma YieldKeepsFront(a: Table, b: Table, t: Tid, c: Tid)
    requires Running(a) && Yields(a, b) && InFront(a, t, c) && a.cpu != Some(t) && a.cpu != Some(c)
    ensures KeepsFront(b, t, c)
  {
    hide Switch, Ahead;
    AheadDiffer(a.threads[t], a.threads[c]);
    var r := a.cpu.value;
    var th := a.threads[r].(status := READY);
    if r == IDLE {
      SwitchKeepsFront(a, a.threads[r := th.(place := Nowhere)], a.clock, b, t, c);
    } else {
      SwitchKeepsFront(a, Joins(a, r, th, OnReady), a.clock + 1, b, t, c);
    }
  }

  lemma AheadDiffer(x: Thread, y: Thread)
    requires Ahead(x, y)
    ensures x != y
  {
  }

  lemma WaitKeepsFront(a: Table, s: Sid, b: Table, t: Tid, c: Tid)
    requires Running(a) && Waits(a, s, b) && InFront(a, t, c) && a.cpu != Some(t) && a.cpu != Some(c)
    ensures KeepsFront(b, t, c)
  {
    hide Switch, Ahead;
    AheadDiffer(a.threads[t], a.threads[c]);
    var r := a.cpu.value;
    var th := a.threads[r].(status := BLOCKED, pc := Waiting(s));
    SwitchKeepsFront(a, Joins(a, r, th, OnWait(s)), a.clock + 1, b, t, c);
  }

  /** A donation to `t` takes it further ahead; one to `c` makes it the
      latest among its new equals. */
  lemma AcquireKeepsFront(a: Table, l: Sid, b: Table, t: Tid, c: Tid)
    requires Running(a) && l in a.semas && AcquiresLock(a, l, b)
    requires InFront(a, t, c) && a.cpu != Some(t) && a.cpu != Some(c) && Arrived(a) && NotAbove(b, c, t)
    ensures KeepsFront(b, t, c)
  {
    hide Waits;
    var r, m := a.cpu.value, a.semas[l];
    if m.value == 0 {
      var h := m.holder.value;
      if Level(a.threads[h]) < Level(a.threads[r]) {
        var donated := a.threads[h].(record := a.threads[h].record + [Entry(Level(a.threads[r]), Some(l))]);
        var mid := a.(threads := Joins(a, h, donated, OnReady), clock := a.clock + 1);
        WaitKeepsLevels(mid, l, b, t);
        WaitKeepsLevels(mid, l, b, c);
        assert InFront(mid, t, c);
        WaitKeepsFront(mid, l, b, t, c);
      } else {
        WaitKeepsFront(a, l, b, t, c);
      }
    }
  }

  lemma WaitKeepsLevels(a: Table, s: Sid, b: Table, t: Tid)
    requires Running(a) && Waits(a, s, b) && t in a.threads && t in b.threads
    ensures Level(b.threads[t]) == Level(a.threads[t])
  {
  }

  lemma WakeKeepsFront(a: Table, s: Sid, b: Table, t: Tid, c: Tid)
    requires s in a.semas && Wakes(a, s, b) && InFront(a, t, c)
    ensures InFront(b, t, c) && b.cpu == a.cpu
  {
    hide Ahead;
  }

  lemma ReleaseKeepsFront(a: Table, l: Sid, b: Table, t: Tid, c: Tid)
    requires Running(a) && l in a.semas && Releases(a, l, b)
    requires InFront(a, t, c) && a.cpu != Some(t) && a.cpu != Some(c)
    ensures KeepsFront(b, t, c)
  {
    hide Yields, Wakes, Outranked, Drops, Ahead;
    var r := a.cpu.value;
    var k :| Drops(a.threads[r].record, l, k) && Ups(a.(threads := a.threads[r := a.threads[r].(record := k)]), l, b);
    var a1 := a.(threads := a.threads[r := a.threads[r].(record := k)]);
    var mid :| Wakes(a1, l, mid) && Running(mid) && if Outranked(a1, l) then Yields(mid, b) else b == mid;
    WakeKeepsFront(a1, l, mid, t, c);
    if Outranked(a1, l) {
      YieldKeepsFront(mid, b, t, c);
    }
  }

  lemma TickKeepsFront(a: Table, b: Table, t: Tid, c: Tid)
    requires Ticks(a, b) && InFront(a, t, c)
    ensures InFront(b, t, c)
  {
    hide Ahead;
    assert !Due(a, a.ticks + 1, t) && !Due(a, a.ticks + 1, c);
  }

  /** While `c` is not raised above `t`, no call of the kernel gives `c` the
      CPU past `t`. */
  lemma DoesKeepsFront(a: Table, x: Action, b: Table, t: Tid, c: Tid)
    requires Does(a, x, b) && InFront(a, t, c) && a.cpu != Some(t) && a.cpu != Some(c) && Arrived(a)
    requires (x.ACreate? ==> x.t !in a.threads) && NotAbove(b, c, t)
    ensures KeepsFront(b, t, c)
  {
    hide AcquiresLock, Releases, Downs, Wakes, Yields, Ticks, Switch, Ahead, NotAbove, Arrived;
    match x {
      case AAcquire(l) => AcquireKeepsFront(a, l, b, t, c);
      case ARelease(l) => ReleaseKeepsFront(a, l, b, t, c);
      case ADown(s) => DownKeepsFront(a, s, b, t, c);
      case AUp(s) => WakeKeepsFront(a, s, b, t, c);
      case AResume =>
        var s := a.threads[a.cpu.value].pc.sema;
        if a.semas[s].isLock {
          AcquireKeepsFront(a, s, b, t, c);
        } else {
          DownKeepsFront(a, s, b, t, c);
        }
      case AYield => YieldKeepsFront(a, b, t, c);
      case ASleep(start, n) => SleepKeepsFront(a, start, n, b, t, c);
      case ATick => TickKeepsFront(a, b, t, c);
      case ASetPriority(p) =>
      case ACreate(u, p) =>
      case AExit => ExitKeepsFront(a, b, t, c);
    }
  }

  lemma DownKeepsFront(a: Table, s: Sid, b: Table, t: Tid, c: Tid)
    requires Running(a) && s in a.semas && Downs(a, s, b)
    requires InFront(a, t, c) && a.cpu != Some(t) && a.cpu != Some(c)
    ensures KeepsFront(b, t, c)
  {
    hide Waits, Ahead;
    if a.semas[s].value == 0 {
      WaitKeepsFront(a, s, b, t, c);
    }
  }

  lemma SleepKeepsFront(a: Table, start: int, n: int, b: Table, t: Tid, c: Tid)
    requires Running(a) && Sleeps(a, start, n, b) && InFront(a, t, c) && a.cpu != Some(t) && a.cpu != Some(c)
    ensures KeepsFront(b, t, c)
  {
    hide Switch, Ahead;
    AheadDiffer(a.threads[t], a.threads[c]);
    var r := a.cpu.value;
    var th := a.threads[r].(status := BLOCKED, wake := start + n);
    SwitchKeepsFront(a, Joins(a, r, th, OnAlarm), a.clock + 1, b, t, c);
  }

  lemma ExitKeepsFront(a: Table, b: Table, t: Tid, c: Tid)
    requires Running(a) && Exits(a, b) && InFront(a, t, c) && a.cpu != Some(t) && a.cpu != Some(c)
    ensures KeepsFront(b, t, c)
  {
    hide Switch, Ahead;
    AheadDiffer(a.threads[t], a.threads[c]);
    SwitchKeepsFront(a, a.threads - {a.cpu.value}, a.clock, b, t, c);
  }

  lemma SettledArrived(st: State)
    requires Settled(st)
    ensures Arrived(View(st)) && forall t :: At(st, t, OnReady) ==> st.cpu != Some(t)
  {
    assert forall t :: st.cpu == Some(t) ==> At(st, t, OnCpu);
  }

  /** Over every run: a ready thread that is ahead of another gets the CPU
      before it, as long as the other is not raised above it. */
  lemma {:induction false} NoOvertaking(states: seq<State>, actions: seq<Action>, i: nat, j: nat, t: Tid, c: Tid)
    requires IsTrace(states, actions) && i < j < |states| && InFront(View(states[i]), t, c)
    requires forall k :: i <= k <= j ==> NotAbove(View(states[k]), c, t)
    requires states[j].cpu == Some(c)
    ensures exists k :: i < k < j && states[k].cpu == Some(t)
    decreases j - i
  {
    hide Settled, Step, KernelSteps.Enabled, Does, NotAbove, InFront;
    TraceSettled(states, actions, i);
    assert Follows(states[i], actions[i], states[i + 1]);
    StepDoes(states[i], actions[i]);
    FrontFacts(states[i], actions[i], t, c);
    assert NotAbove(View(states[i + 1]), c, t);
    DoesKeepsFront(View(states[i]), actions[i], View(states[i + 1]), t, c);
    if states[i + 1].cpu != Some(t) {
      TraceSettled(states, actions, i + 1);
      ReadyNotRunning(states[i + 1], t, c);
      NoOvertaking(states, actions, i + 1, j, t, c);
    } else {
      assert i + 1 < j by { FrontDiffers(View(states[i]), t, c); }
    }
  }

  lemma FrontDiffers(a: Table, t: Tid, c: Tid)
    requires InFront(a, t, c)
    ensures t != c
  {
  }

  lemma ReadyNotRunning(st: State, t: Tid, c: Tid)
    requires Settled(st) && InFront(View(st), t, c)
    ensures st.cpu != Some(c) && st.cpu != Some(t)
  {
    hide Settled;
    SettledArrived(st);
    assert At(st, c, OnReady) && At(st, t, OnReady);
  }

  lemma FrontFacts(st: State, x: Action, t: Tid, c: Tid)
    requires Settled(st) && KernelSteps.Enabled(st, x) && InFront(View(st), t, c)
    ensures st.cpu != Some(t) && st.cpu != Some(c) && Arrived(View(st))
    ensures x.ACreate? ==> x.t !in st.threads
  {
    hide Settled;
    SettledArrived(st);
    ReadyNotRunning(st, t, c);
  }

  /** thread_yield puts the caller behind every ready thread of its priority
      or above, one of which runs. */
  lemma YieldGoesBehind(st: State, t: Tid)
    requires Settled(st) && st.cpu.value != IDLE && At(st, t, OnReady) && Prio(st, t) >= Prio(st, st.cpu.value)
    ensures st.cpu.value in st.threads && OnReady in st.queues
    ensures var c, b := st.cpu.value, View(Yield(st)); b.cpu != Some(c) && KeepsFront(b, t, c)
  {
    hide Settled, Yield, Switch;
    YieldDoes(st);
    SettledArrived(st);
    var a, c := View(st), st.cpu.value;
    SwitchKeepsFront(a, Joins(a, c, a.threads[c].(status := READY), OnReady), a.clock + 1, View(Yield(st)), t, c);
    YieldSettles(st);
    if View(Yield(st)).cpu != Some(t) {
      ReadyNotRunning(Yield(st), t, c);
    }
  }

  /** Round robin: after thread_yield every thread that was ready at the
      caller's priority or above runs before the caller does, as long as the
      caller is not raised above it. */
  lemma YieldIsFair(states: seq<State>, actions: seq<Action>, i: nat, j: nat, t: Tid)
    requires IsTrace(states, actions) && i < j < |states| && actions[i] == AYield
    requires states[i].cpu.Some? && states[i].cpu.value != IDLE && states[j].cpu == states[i].cpu
    requires At(states[i], t, OnReady) && Prio(states[i], t) >= Prio(states[i], states[i].cpu.value)
    requires forall k :: i <= k <= j ==> NotAbove(View(states[k]), states[i].cpu.value, t)
    ensures exists k :: i < k < j && states[k].cpu == Some(t)
  {
    hide Settled, Yield, KernelSteps.Enabled, NotAbove, InFront;
    var c := states[i].cpu.value;
    TraceSettled(states, actions, i);
    SettledArrived(states[i]);
    assert Follows(states[i], actions[i], states[i + 1]);
    YieldGoesBehind(states[i], t);
    assert states[i + 1] == Yield(states[i]);
    if states[i + 1].cpu != Some(t) {
      assert i + 1 < j;
      NoOvertaking(states, actions, i + 1, j, t, c);
    } else {
      assert i + 1 < j;
    }
  }

  // ------------------------------------ setting a priority under a donation

  /** thread_set_priority under donations, and then the release of a lock:
      the caller is left with the priority it set and the donations for its
      other locks, and if there are none of those, that priority decides. */
  lemma SetThenRelease(st: State, p: int, l: Sid)
    requires Settled(st) && KernelSteps.Enabled(st, ASetPriority(p)) && KernelSteps.Enabled(st, ARelease(l))
    ensures Settled(Step(st, ASetPriority(p))) && KernelSteps.Enabled(Step(st, ASetPriority(p)), ARelease(l))
    ensures var c, st' := st.cpu.value, Step(Step(st, ASetPriority(p)), ARelease(l));
      && c in st'.threads && st'.threads[c].record == [Entry(p, None)] + Without(st.threads[c].record[1..], l)
      && ((forall e :: e in st.threads[c].record && e.master.Some? ==> e.master == Some(l)) ==> Prio(st', c) == p)
  {
    hide Settled, Inv, SetPriority, Release, Without, DonationsOwned, Woken, MaxRuns;
    CpuFacts(st);
    SetPriorityEffect(st, p);
    var c, r, st1 := st.cpu.value, st.threads[st.cpu.value].record, SetPriority(st, p);
    CpuFacts(st1);
    ReleaseEffect(st1, l);
    BaseKept(p, r, l);
  }

  lemma BaseKept(p: int, r: Record, l: Sid)
    requires r != [] && forall i :: 0 < i < |r| ==> r[i].master.Some?
    ensures Without([Entry(p, None)] + r[1..], l) == [Entry(p, None)] + Without(r[1..], l)
    ensures (forall e :: e in r && e.master.Some? ==> e.master == Some(l)) ==> Without(r[1..], l) == []
  {
    var s := [Entry(p, None)] + r[1..];
    assert s[1..] == r[1..];
    if forall e :: e in r && e.master.Some? ==> e.master == Some(l) {
      NothingLeft(r[1..], l);
    }
  }

  lemma {:induction false} NothingLeft(r: Record, l: Sid)
    requires forall i :: 0 <= i < |r| ==> r[i].master == Some(l)
    ensures Without(r, l) == []
  {
    if r != [] {
      NothingLeft(r[1..], l);
    }
  }

  // ------------------------------------------------ which calls are possible

  /** A thread outside the wait loops can make every call, but for what the
      calls assert and for the three cases the model leaves out: a donation
      to a sleeper, a base priority raised to a donation, and an exit with a
      lock held. */
  lemma CanCall(st: State)
    requires Settled(st) && st.cpu.value in st.threads && st.threads[st.cpu.value].pc == Outside
    ensures KernelSteps.Enabled(st, AYield) && KernelSteps.Enabled(st, ATick)
    ensures forall s :: s in st.semas && !st.semas[s].isLock ==> KernelSteps.Enabled(st, AUp(s))
    ensures forall s :: s in st.semas && !st.semas[s].isLock && st.cpu != Some(IDLE) ==>
      KernelSteps.Enabled(st, ADown(s))
    ensures forall l :: l in st.semas && st.semas[l].isLock && st.semas[l].holder == st.cpu ==>
      KernelSteps.Enabled(st, ARelease(l))
    ensures forall l :: l in st.semas && st.semas[l].isLock && st.semas[l].holder != st.cpu && st.cpu != Some(IDLE) ==>
      (KernelSteps.Enabled(st, AAcquire(l)) <==> !DonationDue(st, l) || !At(st, st.semas[l].holder.value, OnAlarm))
    ensures forall start, n :: start <= st.ticks && n > 0 && st.cpu != Some(IDLE) ==>
      KernelSteps.Enabled(st, ASleep(start, n))
    ensures forall t, p :: t !in st.threads && PRI_MIN <= p <= PRI_MAX ==> KernelSteps.Enabled(st, ACreate(t, p))
    ensures forall p :: PRI_MIN <= p && |st.threads[st.cpu.value].record| == 1 ==>
      KernelSteps.Enabled(st, ASetPriority(p))
    ensures st.cpu != Some(IDLE) && (forall s :: s in st.semas ==> st.semas[s].holder != st.cpu) ==>
      KernelSteps.Enabled(st, AExit)
  {
    hide Settled;
    CpuFacts(st);
    forall l | l in st.semas && st.semas[l].isLock && st.semas[l].holder != st.cpu && st.cpu != Some(IDLE)
      ensures HolderLinked(st, l) <==> !DonationDue(st, l) || !At(st, st.semas[l].holder.value, OnAlarm)
    {
      LinkedUnlessAsleep(st, l);
    }
  }

  /** A holder that is neither running nor asleep is on a list that it can be
      taken off. */
  lemma LinkedUnlessAsleep(st: State, l: Sid)
    requires Settled(st) && l in st.semas && st.semas[l].isLock && st.semas[l].holder != st.cpu
    ensures HolderLinked(st, l) <==> !DonationDue(st, l) || !At(st, st.semas[l].holder.value, OnAlarm)
  {
    hide Queues, WakeupOk, DonationsOwned, WellFormed;
    if DonationDue(st, l) {
      var h := st.semas[l].holder.value;
      assert LockOk(st, l);
      assert At(st, h, st.threads[h].place);
    }
  }

  /** A thread in a wait loop can go on, unless it would donate to a sleeper. */
  lemma CanResume(st: State)
    requires Settled(st) && st.cpu.value in st.threads && st.threads[st.cpu.value].pc.Waiting?
    ensures var s := st.threads[st.cpu.value].pc.sema;
      && s in st.semas && st.semas[s].holder != st.cpu
      && (KernelSteps.Enabled(st, AResume) <==> !DonationDue(st, s) || !At(st, st.semas[s].holder.value, OnAlarm))
  {
    CpuFacts(st);
    hide Settled, Inv;
    var s := st.threads[st.cpu.value].pc.sema;
    if st.semas[s].isLock {
      LinkedUnlessAsleep(st, s);
    } else {
      PlainFacts(st, s);
    }
  }
}
