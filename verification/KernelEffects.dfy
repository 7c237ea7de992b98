/** What the kernel's steps achieve, beyond keeping the invariant. */
module KernelEffects {
  import opened Options
  import opened Donation
  import opened KernelState
  import opened KernelSteps

  /** `t` is ready or has just been given the CPU. */
  ghost predicate Awake(st: State, t: Tid) {
    At(st, t, OnReady) || At(st, t, OnCpu)
  }

  /** No ready thread has a higher priority than the running one. */
  ghost predicate MaxRuns(st: State) {
    st.cpu.Some? && forall t :: At(st, t, OnReady) ==> Prio(st, t) <= Prio(st, st.cpu.value)
  }

  /** Nothing about `t` changes but, when it is dispatched, its place. */
  ghost predicate Undisturbed(st: State, st': State, t: Tid) {
    t in st.threads ==>
      && t in st'.threads
      && st'.threads[t].record == st.threads[t].record && st'.threads[t].pc == st.threads[t].pc
      && st'.threads[t].wake == st.threads[t].wake
      && (st'.threads[t].place == st.threads[t].place || (At(st, t, OnReady) && At(st', t, OnCpu))
          || t == IDLE)
  }

  // ------------------------------------------------------ building blocks

  lemma ScheduleEffect(st: State)
    requires Unscheduled(st)
    ensures Settled(Schedule(st))
    ensures MaxRuns(Schedule(st))
    ensures Schedule(st).semas == st.semas && Schedule(st).ticks == st.ticks
    ensures Schedule(st).threads.Keys == st.threads.Keys
    ensures forall t :: Undisturbed(st, Schedule(st), t)
  {
    hide Queues, Places, SyncInv, Remove;
    ScheduleSettles(st);
    SchedulePicksMax(st);
    var next := Next(st);
    var st' := Schedule(st);
    assert IDLE in st.threads by { IdleExists(st); }
    assert next in st.threads;
    forall t | At(st', t, OnReady)
      ensures Prio(st', t) <= Prio(st', next)
    {
      assert At(st, t, OnReady);
      RankIsPriority(st, next, t);
    }
  }

  lemma RankIsPriority(st: State, a: Tid, b: Tid)
    requires a in st.threads && b in st.threads
    ensures Before(st.threads[a], st.threads[b], false) ==> Prio(st, b) <= Prio(st, a)
  {
  }

  /** Moving a thread between lists changes that thread alone. */
  lemma RequeueEffect(st: State, t: Tid, th: Thread, p: Place)
    requires t in st.threads && p in st.queues
    ensures var st' := Requeue(st, t, th, p);
      && st'.threads.Keys == st.threads.Keys && st'.semas == st.semas && st'.ticks == st.ticks
      && st'.queues.Keys == st.queues.Keys
      && (forall x :: x in st.threads && x != t ==> st'.threads[x] == st.threads[x])
      && st'.threads[t].record == th.record && st'.threads[t].pc == th.pc && st'.threads[t].wake == th.wake
      && st'.threads[t].place == p
  {
    hide InsertOrdered, Remove;
  }

  /** The running thread gives up the CPU to wait at `p`, with its fields
      changed to those of `th`; a thread of maximal priority runs next. */
  lemma GiveUpEffect(st: State, th: Thread, p: Place)
    requires Settled(st) && p in st.queues && st.cpu.value in st.threads && MayRequeue(st, st.cpu.value, th, p)
    ensures var c, st' := st.cpu.value, Schedule(Requeue(st, st.cpu.value, th, p));
      && Settled(st') && MaxRuns(st') && st'.semas == st.semas && st'.ticks == st.ticks
      && st'.threads.Keys == st.threads.Keys && st'.threads[c].record == th.record
      && st'.threads[c].pc == th.pc && st'.threads[c].wake == th.wake
      && (At(st', c, p) || (p == OnReady && At(st', c, OnCpu)))
      && (forall t :: t != c ==> Undisturbed(st, st', t))
  {
    CpuFacts(st);
    var c := st.cpu.value;
    var st1 := Requeue(st, c, th, p);
    RequeueSync(st, c, th, p);
    RequeueEffect(st, c, th, p);
    assert Unscheduled(st1) by { hide Inv, Requeue; }
    ScheduleEffect(st1);
    hide Inv, Requeue, Schedule, MaxRuns, MayRequeue;
    assert Undisturbed(st1, Schedule(st1), c);
    forall t | t != c
      ensures Undisturbed(st, Schedule(st1), t)
    {
      assert Undisturbed(st1, Schedule(st1), t);
    }
  }

  /** After thread_yield a thread of maximal priority runs. */
  lemma YieldEffect(st: State)
    requires Settled(st)
    ensures Settled(Yield(st)) && MaxRuns(Yield(st)) && Yield(st).semas == st.semas
    ensures Yield(st).threads.Keys == st.threads.Keys && Yield(st).ticks == st.ticks
    ensures forall t :: t != st.cpu.value ==> Undisturbed(st, Yield(st), t)
    ensures var c := st.cpu.value;
      && c in st.threads && c in Yield(st).threads && Yield(st).threads[c].record == st.threads[c].record
      && Yield(st).threads[c].pc == st.threads[c].pc
      && (c != IDLE ==> Awake(Yield(st), c))
  {
    hide Settled, Inv, WellFormed;
    CpuFacts(st);
    var c := st.cpu.value;
    if c == IDLE {
      IdleYieldEffect(st);
    } else {
      GiveUpEffect(st, st.threads[c].(status := READY), OnReady);
    }
  }

  lemma IdleYieldEffect(st: State)
    requires Settled(st) && st.cpu == Some(IDLE)
    ensures Settled(Yield(st)) && MaxRuns(Yield(st)) && Yield(st).semas == st.semas
    ensures Yield(st).threads.Keys == st.threads.Keys && Yield(st).ticks == st.ticks
    ensures forall t :: t != IDLE ==> Undisturbed(st, Yield(st), t)
    ensures IDLE in st.threads && IDLE in Yield(st).threads
    ensures Yield(st).threads[IDLE].record == st.threads[IDLE].record
    ensures Yield(st).threads[IDLE].pc == st.threads[IDLE].pc
  {
    hide Settled, Inv, Unscheduled, Schedule, MaxRuns, Remove, ThreadOk, DonationsOwned;
    CpuFacts(st);
    IdleDetached(st);
    var st2 := WithoutIdle(st);
    ScheduleEffect(st2);
    assert Undisturbed(st2, Schedule(st2), IDLE);
    forall t | t != IDLE
      ensures Undisturbed(st, Schedule(st2), t)
    {
      assert Undisturbed(st2, Schedule(st2), t);
    }
  }

  // ------------------------------------------------------------ acquiring

  /** `c` has gone to wait for `s`, and a thread of maximal priority runs. */
  ghost predicate Parked(st: State, st': State, c: Tid, s: Sid) {
    && Settled(st') && MaxRuns(st') && st'.semas == st.semas && st'.threads.Keys == st.threads.Keys
    && st'.ticks == st.ticks && c in st.threads && At(st', c, OnWait(s)) && st'.threads[c].pc == Waiting(s)
    && st'.threads[c].record == st.threads[c].record
  }

  /** `h` has received a donation from `c` for `l`, and is awake. */
  ghost predicate DonatedTo(st: State, st': State, h: Tid, c: Tid, l: Sid) {
    && h in st.threads && h in st'.threads
    && st'.threads[h].record == st.threads[h].record + [Entry(Prio(st, c), Some(l))]
    && st'.threads[h].pc == st.threads[h].pc && Prio(st', h) == Prio(st, c) && Awake(st', h)
  }

  /** A contended lock_acquire: the caller waits in the lock's list, and its
      priority reaches the holder, who is then ready or running if it was
      lower; nobody else's record changes. */
  lemma ContendedAcquire(st: State, l: Sid)
    requires Settled(st) && st.cpu.value != IDLE
    requires l in st.semas && st.semas[l].isLock && st.semas[l].value == 0
    requires st.semas[l].holder != Some(st.cpu.value)
    requires st.threads[st.cpu.value].pc in {Outside, Waiting(l)}
    requires HolderLinked(st, l)
    ensures st.semas[l].holder.Some? && OnReady in st.queues && OnWait(l) in st.queues
    ensures var c, h, st' := st.cpu.value, st.semas[l].holder.value, AcquireLoop(st, l);
      && Parked(st, st', c, l) && h in st.threads
      && (Prio(st, h) < Prio(st, c) ==> DonatedTo(st, st', h, c, l))
      && (Prio(st, h) >= Prio(st, c) ==> Undisturbed(st, st', h))
      && (forall t :: t != c && t != h ==> Undisturbed(st, st', t))
  {
    hide Settled, Inv, WellFormed, ThreadOk, DonationsOwned, Undisturbed, MaxRuns, Parked, DonatedTo;
    CpuFacts(st);
    HolderFacts(st, l);
    var c, h := st.cpu.value, st.semas[l].holder.value;
    if Prio(st, h) < Prio(st, c) {
      DonatedAcquire(st, l, h);
    } else {
      WaitEffect(st, l);
    }
  }

  lemma WaitEffect(st: State, s: Sid)
    requires Settled(st) && s in st.semas && st.semas[s].value == 0
    requires st.cpu.value != IDLE && st.semas[s].holder != Some(st.cpu.value)
    requires st.threads[st.cpu.value].pc in {Outside, Waiting(s)}
    ensures OnWait(s) in st.queues
    ensures var c, st' := st.cpu.value, WaitOn(st, s);
      && Parked(st, st', c, s)
      && (forall t :: t != c ==> Undisturbed(st, st', t))
  {
    CpuFacts(st);
    WaitListExists(st, s);
    hide Settled, Inv, WellFormed;
    var c := st.cpu.value;
    GiveUpEffect(st, st.threads[c].(status := BLOCKED, pc := Waiting(s)), OnWait(s));
  }

  /** `c` has taken one unit of `s` and goes on running; nobody else is
      affected. */
  ghost predicate Taken(st: State, st': State, c: Tid, s: Sid) {
    && s in st.semas && s in st'.semas && c in st.threads && st'.threads.Keys == st.threads.Keys
    && st'.semas == st.semas[s := st'.semas[s]] && st'.semas[s].value == st.semas[s].value - 1
    && st'.semas[s].holder == (if st.semas[s].isLock then Some(c) else None)
    && st'.cpu == Some(c) && st'.threads[c].pc == Outside && st'.queues == st.queues
    && (forall t :: t in st.threads ==> st'.threads[t] == st.threads[t].(pc := st'.threads[t].pc))
    && (forall t :: t in st.threads && t != c ==> st'.threads[t].pc == st.threads[t].pc)
  }

  /** An uncontended lock_acquire. */
  lemma FreeAcquire(st: State, l: Sid)
    requires Settled(st) && l in st.semas && st.semas[l].isLock && st.semas[l].value > 0
    ensures st.cpu.value in st.threads && OnReady in st.queues && OnWait(l) in st.queues
    ensures Taken(st, AcquireLoop(st, l), st.cpu.value, l) && AcquireLoop(st, l).semas[l].value == 0
  {
    CpuFacts(st);
    WaitListExists(st, l);
    assert LockOk(st, l);
  }

  /** sema_down either takes a unit or waits. */
  lemma DownEffect(st: State, s: Sid)
    requires Settled(st) && st.cpu.value != IDLE && s in st.semas && !st.semas[s].isLock
    requires st.threads[st.cpu.value].pc in {Outside, Waiting(s)}
    ensures st.cpu.value in st.threads && OnWait(s) in st.queues
    ensures var c, st' := st.cpu.value, DownLoop(st, s);
      && (st.semas[s].value > 0 ==> Taken(st, st', c, s))
      && (st.semas[s].value == 0 ==> Parked(st, st', c, s) && forall t :: t != c ==> Undisturbed(st, st', t))
  {
    hide Settled, Inv, Undisturbed, Parked, ThreadOk, DonationsOwned;
    CpuFacts(st);
    PlainFacts(st, s);
    if st.semas[s].value == 0 {
      WaitEffect(st, s);
    }
  }

  lemma DonatedAcquire(st: State, l: Sid, h: Tid)
    requires Settled(st) && st.cpu.value != IDLE && st.cpu.value in st.threads
    requires l in st.semas && st.semas[l].value == 0 && st.semas[l].holder == Some(h) && h != st.cpu.value
    requires st.threads[st.cpu.value].pc in {Outside, Waiting(l)}
    requires h in st.threads && h != IDLE && Prio(st, h) < Prio(st, st.cpu.value)
    requires st.threads[h].place == OnReady || st.threads[h].place.OnWait?
    ensures OnReady in st.queues && OnWait(l) in st.queues
    ensures var c, st1 := st.cpu.value, Boost(st, h, Prio(st, st.cpu.value), l);
      && st1.cpu == st.cpu && c in st1.threads && OnWait(l) in st1.queues
      && Parked(st, WaitOn(st1, l), c, l) && DonatedTo(st, WaitOn(st1, l), h, c, l)
      && (forall t :: t != c && t != h ==> Undisturbed(st, WaitOn(st1, l), t))
  {
    CpuFacts(st);
    WaitListExists(st, l);
    hide Settled, Inv, WellFormed, MaxRuns, Boost, ThreadOk, DonationsOwned, Undisturbed, WaitOn;
    var c := st.cpu.value;
    var st1 := Boost(st, h, Prio(st, c), l);
    BoostEffect(st, h, Prio(st, c), l);
    WaitEffect(st1, l);
    var st' := WaitOn(st1, l);
    ReadyStays(st1, st', h);
    forall t | t != c && t != h
      ensures Undisturbed(st, st', t)
    {
      UndisturbedFrom(st, st1, st', t);
    }
  }

  /** A ready thread that is not disturbed is still awake. */
  lemma ReadyStays(st: State, st': State, t: Tid)
    requires At(st, t, OnReady) && Undisturbed(st, st', t) && t != IDLE
    ensures t in st'.threads && st'.threads[t].record == st.threads[t].record && Awake(st', t)
    ensures st'.threads[t].pc == st.threads[t].pc && Prio(st', t) == Prio(st, t)
  {
  }

  lemma UndisturbedFrom(st: State, st1: State, st': State, t: Tid)
    requires Undisturbed(st1, st', t)
    requires t in st.threads ==> t in st1.threads && st1.threads[t] == st.threads[t]
    ensures Undisturbed(st, st', t)
  {
  }

  /** A donation: the holder's record grows and it is on the ready list. */
  lemma BoostEffect(st: State, h: Tid, p: int, l: Sid)
    requires Settled(st) && l in st.semas && st.semas[l].holder == Some(h) && h in st.threads && OnReady in st.queues
    requires st.threads[h].place == OnReady || st.threads[h].place.OnWait?
    requires Prio(st, h) < p
    ensures var st1 := Boost(st, h, p, l);
      && Settled(st1) && st1.cpu == st.cpu && st1.semas == st.semas && st1.threads.Keys == st.threads.Keys
      && st1.ticks == st.ticks
      && (forall t :: t in st.threads && t != h ==> st1.threads[t] == st.threads[t])
      && st1.threads[h].record == st.threads[h].record + [Entry(p, Some(l))]
      && st1.threads[h].pc == st.threads[h].pc && At(st1, h, OnReady) && Prio(st1, h) == p
  {
    hide Settled, Inv, WellFormed, Requeue;
    BoostKeepsInv(st, h, p, l);
    RequeueEffect(st, h, st.threads[h].(record := st.threads[h].record + [Entry(p, Some(l))]), OnReady);
  }

  // -------------------------------------------------- waking and releasing

  /** What sema_up does to the waiters: the first of them, of maximal
      priority, is awake, the others wait on, and the value is one more. */
  ghost predicate Woken(st: State, st': State, s: Sid) {
    && s in st.semas && st'.semas == st.semas[s := st.semas[s].(value := st.semas[s].value + 1, holder := None)]
    && OnWait(s) in st.queues
    && var q := st.queues[OnWait(s)];
       && (q != [] ==> Awake(st', q[0]) && forall t :: At(st, t, OnWait(s)) ==> Prio(st, t) <= Prio(st, q[0]))
       && (forall t, m :: At(st, t, OnWait(m)) && (m != s || q == [] || t != q[0]) ==> At(st', t, OnWait(m)))
  }

  /** A first waiter that outranks the caller is not kept waiting for the CPU
      by anyone lower; otherwise the caller runs on. */
  ghost predicate Preempted(st: State, st': State, s: Sid) {
    OnWait(s) in st.queues && st.cpu.Some? ==>
      var q := st.queues[OnWait(s)];
      if q != [] && Prio(st, q[0]) > Prio(st, st.cpu.value) then MaxRuns(st') else st'.cpu == st.cpu
  }

  /** `t` keeps its record and its place in the code, and starts no wait. */
  ghost predicate Same(st: State, st': State, t: Tid) {
    && t in st.threads && t in st'.threads
    && st'.threads[t].record == st.threads[t].record && st'.threads[t].pc == st.threads[t].pc
    && (forall m :: At(st', t, OnWait(m)) ==> At(st, t, OnWait(m)))
  }

  lemma UndisturbedIsSame(st: State, st': State, t: Tid)
    requires t in st.threads && Undisturbed(st, st', t)
    requires t == IDLE ==> forall m :: !At(st', t, OnWait(m))
    ensures Same(st, st', t)
  {
  }

  lemma SameTwice(st: State, st1: State, st': State, t: Tid)
    requires Same(st, st1, t) && Same(st1, st', t)
    ensures Same(st, st', t)
  {
  }

  lemma FirstWaiterIsMax(st: State, s: Sid)
    requires ListInv(st) && OnWait(s) in st.queues && st.queues[OnWait(s)] != []
    ensures var w := st.queues[OnWait(s)][0];
      && At(st, w, OnWait(s))
      && forall t :: At(st, t, OnWait(s)) ==> Prio(st, t) <= Prio(st, w)
  {
    var q := st.queues[OnWait(s)];
    assert q[0] in q;
    forall t | At(st, t, OnWait(s))
      ensures Prio(st, t) <= Prio(st, q[0])
    {
      assert t in q;
      var i :| 0 <= i < |q| && q[i] == t;
      assert i > 0 ==> Before(st.threads[q[0]], st.threads[q[i]], false);
      RankIsPriority(st, q[0], t);
    }
  }

  /** The atomic part of sema_up: one waiter changes its list, one semaphore
      its value. */
  lemma WakeOneShape(st: State, s: Sid)
    requires s in st.semas && OnWait(s) in st.queues && OnReady in st.queues
    requires st.queues[OnWait(s)] != [] ==> st.queues[OnWait(s)][0] in st.threads
    ensures var q, st' := st.queues[OnWait(s)], WakeOne(st, s);
      && st'.threads.Keys == st.threads.Keys
      && st'.semas == st.semas[s := st.semas[s].(value := st.semas[s].value + 1, holder := None)]
      && (forall t :: t in st.threads && (q == [] || t != q[0]) ==> st'.threads[t] == st.threads[t])
      && (q != [] ==> At(st', q[0], OnReady) && st'.threads[q[0]].record == st.threads[q[0]].record
                      && st'.threads[q[0]].pc == st.threads[q[0]].pc)
  {
    hide Requeue;
    var q := st.queues[OnWait(s)];
    if q != [] {
      RequeueEffect(st, q[0], st.threads[q[0]].(status := READY), OnReady);
    }
  }

  /** sema_up up to the point where interrupts come back on: the caller still
      runs, whatever the woken thread's priority. */
  lemma WakeOneEffect(st: State, s: Sid)
    requires Settled(st) && s in st.semas
    requires st.semas[s].isLock ==> st.semas[s].value == 0
    requires forall t, e :: t in st.threads && e in st.threads[t].record ==> e.master != Some(s)
    ensures OnWait(s) in st.queues && OnReady in st.queues
    ensures var st' := WakeOne(st, s);
      && Settled(st') && Woken(st, st', s) && st'.cpu == st.cpu && st'.threads.Keys == st.threads.Keys
      && (forall t :: t in st.threads ==> Same(st, st', t))
  {
    hide Settled, Inv, WakeOne, WellFormed;
    SettledWaiters(st, s);
    WakeOneSettles(st, s);
    WakeOneShape(st, s);
  }

  /** sema_up with interrupts off, as lock_release calls it: it yields to a
      first waiter of higher priority. */
  lemma UpEffect(st: State, s: Sid)
    requires Settled(st) && s in st.semas
    requires st.semas[s].isLock ==> st.semas[s].value == 0
    requires forall t, e :: t in st.threads && e in st.threads[t].record ==> e.master != Some(s)
    ensures OnWait(s) in st.queues && OnReady in st.queues
    ensures var st' := Up(st, s);
      && Settled(st') && Woken(st, st', s) && Preempted(st, st', s) && st'.threads.Keys == st.threads.Keys
      && (forall t :: t in st.threads ==> Same(st, st', t))
  {
    hide Settled, Inv, WakeOne, WellFormed, ThreadOk, DonationsOwned, Yield, MaxRuns, Same, Woken;
    CpuFacts(st);
    SettledWaiters(st, s);
    WakeOneEffect(st, s);
    var q, st1 := st.queues[OnWait(s)], WakeOne(st, s);
    if q != [] && Prio(st, q[0]) > Prio(st, st.cpu.value) {
      CpuFacts(st1);
      assert Up(st, s) == Yield(st1);
      YieldSame(st1);
      WokenThenYield(st, st1, Yield(st1), s);
    } else {
      assert Up(st, s) == st1;
    }
  }

  lemma WokenThenYield(st: State, st1: State, st': State, s: Sid)
    requires Settled(st) && Settled(st1) && Woken(st, st1, s)
    requires st1.threads.Keys == st.threads.Keys == st'.threads.Keys && st'.semas == st1.semas
    requires forall t :: t in st.threads ==> Same(st, st1, t)
    requires forall t :: t in st.threads ==> Same(st1, st', t)
    requires forall t, p :: At(st1, t, p) && p != OnReady && p != OnCpu && t != IDLE ==> At(st', t, p)
    requires forall t :: Awake(st1, t) && t != IDLE ==> Awake(st', t)
    ensures Woken(st, st', s) && forall t :: t in st.threads ==> Same(st, st', t)
  {
    hide Settled, Inv;
    NeverReady(st);
    NeverReady(st1);
    SettledWaiters(st, s);
    forall t | t in st.threads
      ensures Same(st, st', t)
    {
      SameTwice(st, st1, st', t);
    }
  }

  /** A yield changes no record, and moves only threads that are awake. */
  lemma YieldSame(st: State)
    requires Settled(st)
    ensures st.cpu.Some? && st.cpu.value in st.threads && OnReady in st.queues
    ensures var st' := Yield(st);
      && Settled(st') && MaxRuns(st') && st'.semas == st.semas && st'.threads.Keys == st.threads.Keys
      && st'.ticks == st.ticks && (forall t :: t in st.threads ==> Same(st, st', t))
      && (forall t, p :: At(st, t, p) && p != OnReady && p != OnCpu && t != IDLE ==> At(st', t, p))
      && (forall t :: Awake(st, t) && t != IDLE ==> Awake(st', t))
  {
    hide Settled, Inv, WellFormed, ThreadOk, DonationsOwned, Yield, MaxRuns;
    CpuFacts(st);
    YieldEffect(st);
    var c, st' := st.cpu.value, Yield(st);
    NeverReady(st);
    NeverReady(st');
    forall t | t in st.threads
      ensures Same(st, st', t)
    {
      if t != c {
        assert Undisturbed(st, st', t);
      }
    }
    forall t, p | At(st, t, p) && p != OnReady && p != OnCpu && t != IDLE
      ensures At(st', t, p)
    {
      OnlyCpu(st, t);
      assert Undisturbed(st, st', t);
    }
    forall t | Awake(st, t) && t != IDLE
      ensures Awake(st', t)
    {
      OnlyCpu(st, t);
      assert t != c ==> Undisturbed(st, st', t);
    }
  }

  lemma OnlyCpu(st: State, t: Tid)
    requires Settled(st) && t in st.threads
    ensures At(st, t, OnCpu) <==> st.cpu == Some(t)
  {
  }

  lemma SettledWaiters(st: State, s: Sid)
    requires Settled(st) && s in st.semas
    ensures OnWait(s) in st.queues && OnReady in st.queues
    ensures var q := st.queues[OnWait(s)];
      q != [] ==> At(st, q[0], OnWait(s)) && forall t :: At(st, t, OnWait(s)) ==> Prio(st, t) <= Prio(st, q[0])
    ensures forall t :: At(st, t, OnWait(s)) ==> st.queues[OnWait(s)] != []
  {
    assert forall t :: At(st, t, OnWait(s)) ==> t in st.queues[OnWait(s)];
    if st.queues[OnWait(s)] != [] {
      FirstWaiterIsMax(st, s);
    }
  }

  /** The idle thread is on no list. */
  lemma NeverReady(st: State)
    requires Settled(st)
    ensures !At(st, IDLE, OnReady) && forall s :: !At(st, IDLE, OnWait(s))
  {
    assert ThreadOk(st, IDLE);
  }

  /** lock_release: the caller keeps exactly the donations of other locks, and
      its priority becomes the largest of those and its own; the lock is
      free; the first waiter, of maximal priority, is awake, and if it
      outranks what the caller is left with, nobody lower runs before it;
      otherwise the caller runs on. */
  lemma ReleaseEffect(st: State, l: Sid)
    requires Settled(st) && l in st.semas && st.semas[l].isLock && st.semas[l].holder == Some(st.cpu.value)
    ensures st.cpu.value in st.threads && OnWait(l) in st.queues && OnReady in st.queues
    ensures var c, r, q, st' := st.cpu.value, st.threads[st.cpu.value].record, st.queues[OnWait(l)], Release(st, l);
      && Settled(st') && st'.threads.Keys == st.threads.Keys
      && st'.threads[c].record == Without(r, l) && st'.threads[c].pc == st.threads[c].pc
      && (forall m :: !At(st', c, OnWait(m)))
      && (forall e :: e in r && e.master != Some(l) ==> e.priority <= Prio(st', c))
      && (exists e :: e in r && e.master != Some(l) && e.priority == Prio(st', c))
      && (forall t :: t in st.threads && t != c ==> Same(st, st', t))
      && Woken(st, st', l) && st'.semas[l].value == 1
      && (if q != [] && Prio(st, q[0]) > Prio(st', c) then MaxRuns(st') else st'.cpu == st.cpu)
  {
    hide Settled, Inv, Queues, WellFormed, WakeupOk, Without, Up, Woken, Preempted, MaxRuns, ThreadOk, DonationsOwned;
    CpuFacts(st);
    SettledWaiters(st, l);
    var c := st.cpu.value;
    var th := st.threads[c].(record := Without(st.threads[c].record, l));
    var st1 := Change(st, c, th);
    DropsDonations(st, l);
    ReleasedPriorityIsMax(st.threads[c].record, l);
    UpEffect(st1, l);
    var st' := Up(st1, l);
    ReleaseWakes(st, st1, st', l);
    assert Same(st1, st', c);
    forall t | t in st.threads && t != c
      ensures Same(st, st', t)
    {
      assert Same(st1, st', t);
    }
  }

  /** The waiters are the same before and after the caller's record shrinks. */
  lemma ReleaseWakes(st: State, st1: State, st': State, l: Sid)
    requires Settled(st) && l in st.semas && st.semas[l].value == 0 && st.cpu.value in st.threads
    requires var c := st.cpu.value; exists th: Thread ::
      th.place == st.threads[c].place && st1 == Change(st, c, th)
    requires Woken(st1, st', l) && Preempted(st1, st', l)
    requires var c := st.cpu.value; c in st'.threads && st'.threads[c].record == st1.threads[c].record
    ensures Woken(st, st', l) && st'.semas[l].value == 1
    ensures var c, q := st.cpu.value, st.queues[OnWait(l)];
      if q != [] && Prio(st, q[0]) > Prio(st', c) then MaxRuns(st') else st'.cpu == st.cpu
  {
    hide Settled, Inv, MaxRuns;
    CpuFacts(st);
    SettledWaiters(st, l);
    assert forall t :: At(st1, t, OnWait(l)) <==> At(st, t, OnWait(l));
  }

  /** The first half of lock_release leaves a state in which sema_up may run. */
  lemma DropsDonations(st: State, l: Sid)
    requires Settled(st) && l in st.semas && st.semas[l].isLock && st.semas[l].holder == Some(st.cpu.value)
    requires st.cpu.value in st.threads
    ensures var c := st.cpu.value;
      var st1 := Change(st, c, st.threads[c].(record := Without(st.threads[c].record, l)));
      && Settled(st1) && st.semas[l].value == 0 && WellFormed(st.threads[c].record)
      && forall t, e :: t in st1.threads && e in st1.threads[t].record ==> e.master != Some(l)
  {
    var c := st.cpu.value;
    assert At(st, c, OnCpu) && ThreadOk(st, c) && LockOk(st, l) && DonationsOwned(st, c);
    ReleaseKeepsWellFormed(st.threads[c].record, l);
    WithoutMembers(st.threads[c].record, l);
    hide Queues, WellFormed, WakeupOk, Without;
    var th := st.threads[c].(record := Without(st.threads[c].record, l));
    var st1 := Change(st, c, th);
    ChangeSync(st, c, th);
    assert forall x, q :: At(st1, x, q) <==> At(st, x, q);
    forall t, e | t in st1.threads && e in st1.threads[t].record
      ensures e.master != Some(l)
    {
      assert DonationsOwned(st, t);
    }
  }

  // ------------------------------------------------ sleeping and priorities

  /** timer_sleep: the caller is on the alarm list, due `n` ticks after the
      clock was read. */
  lemma SleepEffect(st: State, start: int, n: int)
    requires Settled(st) && st.cpu.value != IDLE && st.cpu.value in st.threads
    requires st.threads[st.cpu.value].pc == Outside && OnAlarm in st.queues
    ensures var c, st' := st.cpu.value, Sleep(st, start, n);
      && Settled(st') && MaxRuns(st') && st'.ticks == st.ticks && st'.semas == st.semas
      && st'.threads.Keys == st.threads.Keys && At(st', c, OnAlarm)
      && st'.threads[c].wake == start + n && st'.threads[c].record == st.threads[c].record
      && st'.threads[c].pc == Outside && (forall t :: t != c ==> Undisturbed(st, st', t))
  {
    hide Settled, Inv, MayRequeue, Requeue, Schedule, ThreadOk, DonationsOwned, MaxRuns, Undisturbed;
    CpuFacts(st);
    SleeperMayQueue(st, start + n);
    GiveUpEffect(st, st.threads[st.cpu.value].(status := BLOCKED, wake := start + n), OnAlarm);
  }

  /** thread_set_priority: the own priority becomes `p`, whatever donations
      there are, and nothing else changes; a donation in force still decides
      the caller's priority. */
  lemma SetPriorityEffect(st: State, p: int)
    requires Settled(st) && st.cpu.value in st.threads
    requires var r := st.threads[st.cpu.value].record;
             r != [] && PRI_MIN <= p && (|r| == 1 || p < r[1].priority)
    ensures var c, r, st' := st.cpu.value, st.threads[st.cpu.value].record, SetPriority(st, p);
      && Settled(st') && st'.threads.Keys == st.threads.Keys && st'.cpu == st.cpu && st'.semas == st.semas
      && WellFormed(st'.threads[c].record) && st'.threads[c].record == [Entry(p, None)] + r[1..]
      && st'.threads[c] == st.threads[c].(record := st'.threads[c].record) && st'.ticks == st.ticks
      && (forall e :: e in st'.threads[c].record && e.master.Some? <==> e in r && e.master.Some?)
      && Prio(st', c) == (if |r| == 1 then p else Prio(st, c))
      && (forall t :: t in st.threads && t != c ==> st'.threads[t] == st.threads[t])
      && (forall t, m :: At(st', t, m) <==> At(st, t, m))
  {
    SetPrioritySettles(st, p);
    CpuFacts(st);
    var c, r := st.cpu.value, st.threads[st.cpu.value].record;
    var r' := r[0 := Entry(p, r[0].master)];
    SetBaseKeepsOrderIff(r, p);
    BaseIsOwn(r, p);
  }

  lemma BaseIsOwn(r: Record, p: int)
    requires WellFormed(r) && PRI_MIN <= p && (|r| == 1 || p < r[1].priority)
    ensures var r' := r[0 := Entry(p, r[0].master)];
      && WellFormed(r')
      && r' == [Entry(p, None)] + r[1..]
      && (forall e :: e in r' && e.master.Some? <==> e in r && e.master.Some?)
      && Current(r') == (if |r| == 1 then p else Current(r))
  {
    SetBaseKeepsOrderIff(r, p);
    var r' := r[0 := Entry(p, r[0].master)];
    hide WellFormed;
    forall e
      ensures e in r' && e.master.Some? <==> e in r && e.master.Some?
    {
      if e in r' && e.master.Some? {
        var i :| 0 <= i < |r'| && r'[i] == e;
        assert r[i] == e;
      }
      if e in r && e.master.Some? {
        var i :| 0 <= i < |r| && r[i] == e;
        assert r'[i] == e;
      }
    }
  }

  /** thread_create: the new thread is ready at its own priority, the creator
      still runs and nobody else is touched. */
  lemma CreateEffect(st: State, t: Tid, p: int)
    requires Settled(st) && OnReady in st.queues && t !in st.threads && PRI_MIN <= p
    ensures var st' := Create(st, t, p);
      && Settled(st') && st'.cpu == st.cpu && st'.semas == st.semas && st'.ticks == st.ticks
      && st'.threads.Keys == st.threads.Keys + {t}
      && t != IDLE && At(st', t, OnReady) && st'.threads[t].record == [Entry(p, None)] && st'.threads[t].pc == Outside
      && (forall x :: x in st.threads ==> st'.threads[x] == st.threads[x])
  {
    hide Settled, Inv, Requeue, WellFormed;
    CreateSettles(st, t, p);
    var st1 := st.(threads := st.threads[t := Fresh(p)]);
    RequeueEffect(st1, t, st1.threads[t].(status := READY), OnReady);
  }

  /** timer_interrupt: the clock goes on by one; exactly the sleepers whose
      time it then is become ready; nobody else moves, and nobody's record,
      wake-up time or place in the code changes. */
  lemma TickEffect(st: State)
    requires Settled(st)
    ensures var st' := Tick(st);
      && Settled(st') && st'.cpu == st.cpu && st'.semas == st.semas && st'.threads.Keys == st.threads.Keys
      && (forall t :: t in st.threads ==> Same(st, st', t))
      && st'.ticks == st.ticks + 1
      && (forall t :: At(st, t, OnAlarm) ==>
           At(st', t, if st.threads[t].wake <= st.ticks + 1 then OnReady else OnAlarm))
      && (forall t, p :: At(st, t, p) && p != OnAlarm ==> At(st', t, p))
      && (forall t :: t in st.threads ==> st'.threads[t].wake == st.threads[t].wake)
  {
    hide Settled, Inv, WakeDue;
    TickSettled(st);
    var st1 := st.(ticks := st.ticks + 1);
    assert forall t, p :: At(st, t, p) <==> At(st1, t, p);
    WakeDueExact(st1);
    WakeDueKeeps(st1);
    forall t | t in st.threads
      ensures Same(st, WakeDue(st1), t)
    {
      assert Same(st1, WakeDue(st1), t);
    }
  }

  lemma {:induction false} WakeDueKeeps(st: State)
    requires Settled(st)
    ensures WakeDue(st).semas == st.semas && WakeDue(st).threads.Keys == st.threads.Keys
    ensures WakeDue(st).ticks == st.ticks
    ensures forall t :: t in st.threads ==>
      Same(st, WakeDue(st), t) && WakeDue(st).threads[t].wake == st.threads[t].wake
    decreases |st.queues[OnAlarm]|
  {
    hide Settled, Inv, Requeue;
    CpuFacts(st);
    var q := st.queues[OnAlarm];
    if q != [] && st.threads[FrontSleeper(st)].wake <= st.ticks {
      WakeFront(st);
      var st1 := Unblock(st, q[0]);
      RequeueEffect(st, q[0], st.threads[q[0]].(status := READY), OnReady);
      WakeDueKeeps(st1);
      forall t | t in st.threads
        ensures Same(st, WakeDue(st), t) && WakeDue(st).threads[t].wake == st.threads[t].wake
      {
        SameTwice(st, st1, WakeDue(st1), t);
      }
    }
  }

  /** thread_exit: the caller is gone and nobody else is touched. */
  lemma ExitEffect(st: State)
    requires Settled(st) && st.cpu.value in st.threads && st.cpu.value != IDLE
    requires st.threads[st.cpu.value].pc == Outside
    requires forall s :: s in st.semas ==> st.semas[s].holder != Some(st.cpu.value)
    ensures var c, st' := st.cpu.value, Exit(st);
      && Settled(st') && MaxRuns(st') && st'.semas == st.semas && st'.threads.Keys == st.threads.Keys - {c}
      && (forall t :: t in st.threads && t != c ==> Same(st, st', t))
  {
    hide Settled, Inv, Unscheduled, Schedule, Remove, MaxRuns;
    CpuFacts(st);
    ExitDetaches(st);
    var c, st1 := st.cpu.value, Unlink(st, st.cpu.value);
    var st2 := st1.(threads := st1.threads - {c});
    ScheduleEffect(st2);
    var st' := Schedule(st2);
    NeverReady(st');
    forall t | t in st.threads && t != c
      ensures Same(st, st', t)
    {
      assert Undisturbed(st2, st', t);
    }
  }
}
