/** The steps of the kernel's threads: src/threads/synch.c, thread.c and
    src/devices/timer.c with the multi-level feedback queue off. */
module KernelSteps {
  import opened Options
  import opened Donation
  import opened KernelState

  function Prio(st: State, t: Tid): int {
    if t in st.threads && st.threads[t].record != [] then Current(st.threads[t].record) else 0
  }

  /** Between steps some thread runs, and only the idle thread may be on no
      list at all. */
  ghost predicate Settled(st: State) {
    && Inv(st) && st.cpu.Some?
    && forall t :: At(st, t, Nowhere) ==> t == IDLE
  }

  /** Somebody has just left the CPU, and everyone is accounted for. */
  ghost predicate Unscheduled(st: State) {
    && Inv(st) && st.cpu == None
    && forall t :: At(st, t, Nowhere) ==> t == IDLE
  }

  // ---------------------------------------------------------- schedule

  /** next_thread_to_run */
  function Next(st: State): Tid {
    if OnReady in st.queues && st.queues[OnReady] != [] then st.queues[OnReady][0] else IDLE
  }

  /** schedule */
  function Schedule(st: State): State {
    var next := Next(st);
    if next in st.threads then Run(Unlink(st, next), next) else st
  }

  lemma ScheduleSettles(st: State)
    requires Unscheduled(st)
    ensures Settled(Schedule(st)) && Schedule(st).cpu == Some(Next(st))
  {
    hide Queues, WellFormed, WakeupOk, LockOk, DonationsOwned;
    var next := Next(st);
    assert ThreadOk(st, IDLE) && !At(st, IDLE, OnCpu);
    assert next != IDLE ==> next in st.queues[OnReady] && At(st, next, OnReady);
    UnlinkSync(st, next);
    var st1 := Unlink(st, next);
    assert At(st1, next, Nowhere);
    RunSync(st1, next);
    var st2 := Run(st1, next);
    assert forall x, q :: x != next ==> (At(st2, x, q) <==> At(st, x, q));
  }

  /** Each dispatch picks a ready thread of maximal priority, and among those
      the one that has been ready longest; the idle thread runs only when
      nothing is ready. */
  lemma SchedulePicksMax(st: State)
    requires ListInv(st)
    ensures Next(st) == IDLE || At(st, Next(st), OnReady)
    ensures forall t :: At(st, t, OnReady) ==>
      && At(st, Next(st), OnReady)
      && (t == Next(st) || Before(st.threads[Next(st)], st.threads[t], false))
  {
    var q := st.queues[OnReady];
    assert q != [] ==> q[0] in q && At(st, q[0], OnReady);
    forall t | At(st, t, OnReady)
      ensures At(st, Next(st), OnReady) && (t == Next(st) || Before(st.threads[Next(st)], st.threads[t], false))
    {
      assert t in q;
      var i :| 0 <= i < |q| && q[i] == t;
    }
  }

  // ------------------------------------------------ giving up the CPU

  /** thread_yield */
  function Yield(st: State): State
    requires st.cpu.Some? && st.cpu.value in st.threads && OnReady in st.queues
  {
    var c := st.cpu.value;
    var th := st.threads[c].(status := READY);
    Schedule(if c == IDLE then Change(Unlink(st, c), c, th.(place := Nowhere)) else Requeue(st, c, th, OnReady))
  }

  lemma CpuFacts(st: State)
    requires Settled(st)
    ensures Inv(st) && st.cpu.Some? && st.cpu.value in st.threads && OnReady in st.queues && OnAlarm in st.queues
    ensures ThreadOk(st, st.cpu.value) && DonationsOwned(st, st.cpu.value)
    ensures st.threads[st.cpu.value].place == OnCpu
  {
    assert At(st, st.cpu.value, OnCpu);
  }

  /** The running thread moves to the list at `p` and another one runs. */
  lemma GiveUpCpu(st: State, th: Thread, p: Place)
    requires Settled(st) && p in st.queues && st.cpu.value in st.threads && MayRequeue(st, st.cpu.value, th, p)
    ensures Settled(Schedule(Requeue(st, st.cpu.value, th, p)))
  {
    CpuFacts(st);
    var c := st.cpu.value;
    var st' := Requeue(st, c, th, p);
    RequeueSync(st, c, th, p);
    assert Unscheduled(st') by { hide Inv, Requeue; }
    ScheduleSettles(st');
  }

  lemma YieldSettles(st: State)
    requires Settled(st)
    ensures Settled(Yield(st))
  {
    hide Settled, Inv, WellFormed;
    CpuFacts(st);
    var c := st.cpu.value;
    var th := st.threads[c].(status := READY);
    if c == IDLE {
      IdleYields(st);
    } else {
      GiveUpCpu(st, th, OnReady);
    }
  }

  lemma IdleYields(st: State)
    requires Settled(st) && st.cpu == Some(IDLE)
    ensures Settled(Yield(st))
  {
    hide Settled, Inv, Schedule, ThreadOk, DonationsOwned;
    CpuFacts(st);
    IdleDetached(st);
    ScheduleSettles(WithoutIdle(st));
  }

  /** The idle thread off the CPU, on its way through thread_yield. */
  function WithoutIdle(st: State): State
    requires IDLE in st.threads
  {
    Change(Unlink(st, IDLE), IDLE, st.threads[IDLE].(status := READY, place := Nowhere))
  }

  lemma IdleDetached(st: State)
    requires Settled(st) && st.cpu == Some(IDLE) && IDLE in st.threads
    ensures Unscheduled(WithoutIdle(st))
  {
    hide Inv, WellFormed, Remove;
    IdleMayLeave(st);
    UnlinkSync(st, IDLE);
    var st1 := Unlink(st, IDLE);
    ChangeSync(st1, IDLE, st.threads[IDLE].(status := READY, place := Nowhere));
    assert forall x, q :: x != IDLE ==> (At(WithoutIdle(st), x, q) <==> At(st, x, q));
  }

  lemma IdleMayLeave(st: State)
    requires Inv(st) && st.cpu == Some(IDLE) && IDLE in st.threads
    ensures st.threads[IDLE].place == OnCpu && OnCpu !in st.queues
    ensures ThreadOk(WithoutIdle(st), IDLE) && DonationsOwned(WithoutIdle(st), IDLE)
  {
    hide Queues, WellFormed, WakeupOk, LockOk;
    assert At(st, IDLE, OnCpu) && ThreadOk(st, IDLE) && DonationsOwned(st, IDLE);
  }

  /** The blocking half of a wait loop: join the waiters and thread_block. */
  function WaitOn(st: State, s: Sid): State
    requires st.cpu.Some? && st.cpu.value in st.threads && OnWait(s) in st.queues
  {
    var c := st.cpu.value;
    Schedule(Requeue(st, c, st.threads[c].(status := BLOCKED, pc := Waiting(s)), OnWait(s)))
  }

  lemma WaitOnSettles(st: State, s: Sid)
    requires Settled(st) && s in st.semas && st.semas[s].value == 0
    requires st.cpu.value != IDLE && st.semas[s].holder != Some(st.cpu.value)
    requires st.threads[st.cpu.value].pc in {Outside, Waiting(s)}
    ensures Settled(WaitOn(st, s))
  {
    CpuFacts(st);
    WaitListExists(st, s);
    hide Settled, Inv, WellFormed;
    var c := st.cpu.value;
    GiveUpCpu(st, st.threads[c].(status := BLOCKED, pc := Waiting(s)), OnWait(s));
  }

  lemma WaitListExists(st: State, s: Sid)
    requires Inv(st) && s in st.semas
    ensures OnWait(s) in st.queues
  {
  }

  // -------------------------------------------------- locks and semaphores

  /** The donation in lock_acquire: the holder's record grows, and its
      element moves from its current list to the ready list. */
  function Boost(st: State, h: Tid, p: int, l: Sid): State
    requires h in st.threads && OnReady in st.queues
  {
    Requeue(st, h, st.threads[h].(record := st.threads[h].record + [Entry(p, Some(l))]), OnReady)
  }

  lemma BoostKeepsInv(st: State, h: Tid, p: int, l: Sid)
    requires Settled(st) && l in st.semas && st.semas[l].holder == Some(h) && h in st.threads
    requires st.threads[h].place == OnReady || st.threads[h].place.OnWait?
    requires Prio(st, h) < p
    ensures Settled(Boost(st, h, p, l)) && Boost(st, h, p, l).cpu == st.cpu
    ensures forall t :: t != h && t in st.threads ==> Boost(st, h, p, l).threads[t] == st.threads[t]
    ensures Boost(st, h, p, l).semas == st.semas
  {
    hide Inv, InsertOrdered, Remove, WellFormed, MayRequeue;
    BoostAllowed(st, h, p, l);
    RequeueSync(st, h, st.threads[h].(record := st.threads[h].record + [Entry(p, Some(l))]), OnReady);
  }

  lemma BoostAllowed(st: State, h: Tid, p: int, l: Sid)
    requires Inv(st) && l in st.semas && st.semas[l].holder == Some(h) && h in st.threads && Prio(st, h) < p
    ensures OnReady in st.queues
    ensures MayRequeue(st, h, st.threads[h].(record := st.threads[h].record + [Entry(p, Some(l))]), OnReady)
  {
    hide Queues, Places, WakeupOk;
    assert LockOk(st, l) && ThreadOk(st, h) && DonationsOwned(st, h);
    DonateKeepsWellFormed(st.threads[h].record, p, l);
  }

  /** What lock_acquire's donation takes for granted: a holder it is about to
      donate to is linked into the ready list or a waiters list. */
  ghost predicate HolderLinked(st: State, l: Sid)
    requires l in st.semas && st.cpu.Some?
  {
    DonationDue(st, l) ==>
      var h := st.semas[l].holder.value;
      st.threads[h].place == OnReady || st.threads[h].place.OnWait?
  }

  /** lock_acquire by the running thread is about to donate. */
  ghost predicate DonationDue(st: State, l: Sid)
    requires l in st.semas && st.cpu.Some?
  {
    && st.semas[l].value == 0 && st.semas[l].holder.Some?
    && var h := st.semas[l].holder.value;
       h in st.threads && Prio(st, h) < Prio(st, st.cpu.value)
  }

  /** One turn of the loop in lock_acquire, from the test to the next block or
      to the end. */
  function AcquireLoop(st: State, l: Sid): State
    requires st.cpu.Some? && st.cpu.value in st.threads
    requires l in st.semas && OnWait(l) in st.queues && OnReady in st.queues
  {
    var c, m := st.cpu.value, st.semas[l];
    if m.value > 0 then Take(st, c, l)
    else if m.holder.Some? && m.holder.value in st.threads && Prio(st, m.holder.value) < Prio(st, c) then
      var st1 := Boost(st, m.holder.value, Prio(st, c), l);
      if st1.cpu.Some? && st1.cpu.value in st1.threads then WaitOn(st1, l) else st1
    else WaitOn(st, l)
  }

  lemma AcquireLoopSettles(st: State, l: Sid)
    requires Settled(st) && st.cpu.value != IDLE
    requires l in st.semas && st.semas[l].isLock && st.semas[l].holder != Some(st.cpu.value)
    requires st.threads[st.cpu.value].pc in {Outside, Waiting(l)}
    requires HolderLinked(st, l)
    ensures Settled(AcquireLoop(st, l))
  {
    hide Settled, Inv, Take, WaitOn, Boost, WellFormed, ThreadOk, DonationsOwned;
    CpuFacts(st);
    HolderFacts(st, l);
    var c, m := st.cpu.value, st.semas[l];
    if m.value > 0 {
      TakeSettles(st, l);
    } else if Prio(st, m.holder.value) < Prio(st, c) {
      BoostKeepsInv(st, m.holder.value, Prio(st, c), l);
      WaitOnSettles(Boost(st, m.holder.value, Prio(st, c), l), l);
    } else {
      WaitOnSettles(st, l);
    }
  }

  lemma HolderFacts(st: State, l: Sid)
    requires Settled(st) && l in st.semas && st.semas[l].isLock
    ensures OnWait(l) in st.queues && st.semas[l].value <= 1
    ensures st.semas[l].value == 0 <==> st.semas[l].holder.Some?
    ensures st.semas[l].holder.Some? ==> st.semas[l].holder.value in st.threads && st.semas[l].holder.value != IDLE
  {
    assert LockOk(st, l);
  }

  lemma TakeSettles(st: State, s: Sid)
    requires Settled(st) && st.cpu.value != IDLE && st.cpu.value in st.threads
    requires s in st.semas && st.semas[s].value > 0
    requires st.threads[st.cpu.value].pc in {Outside, Waiting(s)}
    ensures Settled(Take(st, st.cpu.value, s))
  {
    assert At(st, st.cpu.value, OnCpu);
    var st' := Take(st, st.cpu.value, s);
    assert forall x, q :: At(st', x, q) <==> At(st, x, q);
    hide Inv;
    TakeSync(st, st.cpu.value, s);
  }

  /** One turn of the loop in sema_down. */
  function DownLoop(st: State, s: Sid): State
    requires st.cpu.Some? && st.cpu.value in st.threads
    requires s in st.semas && OnWait(s) in st.queues
  {
    if st.semas[s].value > 0 then Take(st, st.cpu.value, s) else WaitOn(st, s)
  }

  lemma DownLoopSettles(st: State, s: Sid)
    requires Settled(st) && st.cpu.value != IDLE
    requires s in st.semas && !st.semas[s].isLock
    requires st.threads[st.cpu.value].pc in {Outside, Waiting(s)}
    ensures Settled(DownLoop(st, s))
  {
    hide Settled, Inv, Take, WaitOn, WellFormed, ThreadOk, DonationsOwned;
    CpuFacts(st);
    PlainFacts(st, s);
    if st.semas[s].value > 0 {
      TakeSettles(st, s);
    } else {
      WaitOnSettles(st, s);
    }
  }

  lemma PlainFacts(st: State, s: Sid)
    requires Settled(st) && s in st.semas && !st.semas[s].isLock
    ensures OnWait(s) in st.queues && st.semas[s].holder == None
  {
    assert LockOk(st, s);
  }

  /** The atomic part of sema_up: wake the first waiter, if any, and add one. */
  function WakeOne(st: State, s: Sid): State
    requires s in st.semas && OnWait(s) in st.queues && OnReady in st.queues
  {
    var q := st.queues[OnWait(s)];
    var st1 := if q != [] && q[0] in st.threads then Unblock(st, q[0]) else st;
    if s in st1.semas then Put(st1, s) else st1
  }

  /** sema_up called with interrupts off, as lock_release does, with its yield
      to a woken thread of higher priority. */
  function Up(st: State, s: Sid): State
    requires s in st.semas && OnWait(s) in st.queues && OnReady in st.queues
  {
    var q := st.queues[OnWait(s)];
    var st' := WakeOne(st, s);
    if q != [] && st'.cpu.Some? && st'.cpu.value in st'.threads && OnReady in st'.queues
       && Prio(st, q[0]) > Prio(st, st'.cpu.value)
    then Yield(st') else st'
  }

  lemma WakeOneSettles(st: State, s: Sid)
    requires Settled(st) && s in st.semas
    requires st.semas[s].isLock ==> st.semas[s].value == 0
    requires forall t, e :: t in st.threads && e in st.threads[t].record ==> e.master != Some(s)
    ensures Settled(WakeOne(st, s)) && WakeOne(st, s).cpu == st.cpu
  {
    hide Inv, InsertOrdered, Remove, Unblock, Retriers;
    WakeOneFacts(st, s);
    var q := st.queues[OnWait(s)];
    if q == [] {
      PutSync(st, s);
      var st' := Put(st, s);
      assert forall x, p :: At(st', x, p) <==> At(st, x, p);
    } else {
      var w := q[0];
      UnblockSync(st, w);
      UnblockRetriers(st, w, s);
      UnblockKeeps(st, w);
      var st1 := Unblock(st, w);
      PutSync(st1, s);
      var st' := Put(st1, s);
      assert forall x, p :: x != w ==> (At(st', x, p) <==> At(st, x, p));
    }
  }

  lemma WakeOneFacts(st: State, s: Sid)
    requires Inv(st) && s in st.semas
    ensures OnWait(s) in st.queues && OnReady in st.queues
    ensures var q := st.queues[OnWait(s)];
      q != [] ==>
        && At(st, q[0], OnWait(s)) && q[0] != IDLE && st.threads[q[0]].status == BLOCKED
        && st.threads[q[0]].pc == Waiting(s) && st.semas[s].value <= |Retriers(st, s)|
  {
    hide Queues, WellFormed, LockOk, DonationsOwned, Retriers;
    var q := st.queues[OnWait(s)];
    assert WakeupOk(st, s);
    if q != [] {
      assert q[0] in q && At(st, q[0], OnWait(s)) && ThreadOk(st, q[0]);
    }
  }

  lemma UnblockKeeps(st: State, w: Tid)
    requires w in st.threads && OnReady in st.queues
    ensures var st' := Unblock(st, w);
      && st'.semas == st.semas && st'.threads.Keys == st.threads.Keys && st'.queues.Keys == st.queues.Keys
      && forall t :: t in st.threads ==> st'.threads[t].record == st.threads[t].record
  {
    hide InsertOrdered, Remove;
  }

  lemma UpSettles(st: State, s: Sid)
    requires Settled(st) && s in st.semas
    requires st.semas[s].isLock ==> st.semas[s].value == 0
    requires forall t, e :: t in st.threads && e in st.threads[t].record ==> e.master != Some(s)
    ensures Settled(Up(st, s))
  {
    WakeOneSettles(st, s);
    if Up(st, s) != WakeOne(st, s) {
      YieldSettles(WakeOne(st, s));
    }
  }

  /** lock_release: drop the lock's donations, then sema_up. */
  function Release(st: State, l: Sid): State
    requires st.cpu.Some? && st.cpu.value in st.threads
    requires l in st.semas && OnWait(l) in st.queues && OnReady in st.queues
  {
    var c := st.cpu.value;
    Up(Change(st, c, st.threads[c].(record := Without(st.threads[c].record, l))), l)
  }

  lemma ReleaseSettles(st: State, l: Sid)
    requires Settled(st) && l in st.semas && st.semas[l].isLock && st.semas[l].holder == Some(st.cpu.value)
    ensures Settled(Release(st, l))
  {
    var c := st.cpu.value;
    assert At(st, c, OnCpu) && ThreadOk(st, c) && LockOk(st, l) && DonationsOwned(st, c);
    ReleaseKeepsWellFormed(st.threads[c].record, l);
    WithoutMembers(st.threads[c].record, l);
    hide Queues, WellFormed, WakeupOk, Without;
    var th := st.threads[c].(record := Without(st.threads[c].record, l));
    var st1 := Change(st, c, th);
    ChangeSync(st, c, th);
    assert forall x, q :: At(st1, x, q) <==> At(st, x, q);
    forall t, e | t in st1.threads && e in st1.threads[t].record
      ensures e.master != Some(l)
    {
      assert DonationsOwned(st, t);
    }
    UpSettles(st1, l);
  }

  // ------------------------------------------------ sleeping and waking

  /** timer_sleep for a positive number of ticks. The clock was read at
      `start`, before interrupts went off. */
  function Sleep(st: State, start: int, n: int): State
    requires st.cpu.Some? && st.cpu.value in st.threads && OnAlarm in st.queues
  {
    var c := st.cpu.value;
    Schedule(Requeue(st, c, st.threads[c].(status := BLOCKED, wake := start + n), OnAlarm))
  }

  lemma SleepSettles(st: State, start: int, n: int)
    requires Settled(st) && st.cpu.value != IDLE && st.cpu.value in st.threads
    requires st.threads[st.cpu.value].pc == Outside && OnAlarm in st.queues
    ensures Settled(Sleep(st, start, n))
  {
    hide Settled, Inv, MayRequeue, Requeue, Schedule, ThreadOk, DonationsOwned;
    CpuFacts(st);
    SleeperMayQueue(st, start + n);
    GiveUpCpu(st, st.threads[st.cpu.value].(status := BLOCKED, wake := start + n), OnAlarm);
  }

  lemma SleeperMayQueue(st: State, wake: int)
    requires st.cpu.Some? && st.cpu.value != IDLE
    requires st.cpu.value in st.threads && st.threads[st.cpu.value].pc == Outside
    requires ThreadOk(st, st.cpu.value) && DonationsOwned(st, st.cpu.value)
    ensures MayRequeue(st, st.cpu.value, st.threads[st.cpu.value].(status := BLOCKED, wake := wake), OnAlarm)
  {
  }

  /** The wake-up loop of timer_interrupt: it stops at the first sleeper that
      is not due. */
  ghost function WakeDue(st: State): State
    requires Settled(st)
    decreases |st.queues[OnAlarm]|
  {
    var q := st.queues[OnAlarm];
    if q == [] || st.threads[FrontSleeper(st)].wake > st.ticks then st
    else
      WakeFront(st);
      WakeDue(Unblock(st, q[0]))
  }

  ghost function FrontSleeper(st: State): (t: Tid)
    requires Settled(st) && st.queues[OnAlarm] != []
    ensures At(st, t, OnAlarm)
  {
    assert st.queues[OnAlarm][0] in st.queues[OnAlarm];
    st.queues[OnAlarm][0]
  }

  lemma WakeFront(st: State)
    requires Settled(st) && st.queues[OnAlarm] != []
    ensures var t := st.queues[OnAlarm][0];
      && t in st.threads && st.threads[t].status == BLOCKED
      && Settled(Unblock(st, t))
      && Unblock(st, t).queues[OnAlarm] == st.queues[OnAlarm][1..]
      && (forall x, p :: x != t ==> (At(Unblock(st, t), x, p) <==> At(st, x, p)))
      && (forall x :: x in st.threads ==>
           x in Unblock(st, t).threads && Unblock(st, t).threads[x].wake == st.threads[x].wake)
      && At(Unblock(st, t), t, OnReady)
      && Unblock(st, t).ticks == st.ticks && Unblock(st, t).cpu == st.cpu
  {
    var t := FrontSleeper(st);
    assert ThreadOk(st, t) && Lists(st);
    hide Inv, InsertOrdered;
    UnblockSync(st, t);
  }

  /** The early exit misses nobody: exactly the sleepers that are due become
      ready, and everybody else stays where they were. */
  lemma {:induction false} WakeDueExact(st: State)
    requires Settled(st)
    ensures Settled(WakeDue(st)) && WakeDue(st).cpu == st.cpu
    ensures forall t :: At(st, t, OnAlarm) ==>
      At(WakeDue(st), t, if st.threads[t].wake <= st.ticks then OnReady else OnAlarm)
    ensures forall t, p :: p != OnAlarm && At(st, t, p) ==> At(WakeDue(st), t, p)
    decreases |st.queues[OnAlarm]|
  {
    hide Settled, Inv, Unblock;
    CpuFacts(st);
    var q := st.queues[OnAlarm];
    if q == [] || st.threads[FrontSleeper(st)].wake > st.ticks {
      NobodyDue(st);
    } else {
      WakeFront(st);
      WakeDueExact(Unblock(st, q[0]));
    }
  }

  /** The alarm list is sorted, so when its front is not due nobody is. */
  lemma NobodyDue(st: State)
    requires Settled(st)
    requires st.queues[OnAlarm] == [] || st.threads[FrontSleeper(st)].wake > st.ticks
    ensures forall t :: At(st, t, OnAlarm) ==> st.threads[t].wake > st.ticks
  {
    var q := st.queues[OnAlarm];
    forall t | At(st, t, OnAlarm)
      ensures st.threads[t].wake > st.ticks
    {
      assert t in q;
      var i :| 0 <= i < |q| && q[i] == t;
      assert i > 0 ==> Before(st.threads[q[0]], st.threads[q[i]], true);
    }
  }

  /** The same as a loop, the way timer_interrupt runs it. */
  method WakeLoop(before: State) returns (st: State)
    requires Settled(before)
    ensures st == WakeDue(before)
  {
    hide Inv, Unblock;
    st := before;
    CpuFacts(st);
    while st.queues[OnAlarm] != []
      invariant Settled(st) && OnAlarm in st.queues && WakeDue(st) == WakeDue(before)
      decreases |st.queues[OnAlarm]|
    {
      WakeFront(st);
      var head := st.queues[OnAlarm][0];
      if st.threads[head].wake > st.ticks {
        break;
      }
      CpuFacts(st);
      st := Unblock(st, head);
      CpuFacts(st);
    }
  }

  /** timer_interrupt: count the tick, then wake. */
  ghost function Tick(st: State): State
    requires Settled(st)
  {
    TickSettled(st);
    WakeDue(st.(ticks := st.ticks + 1))
  }

  lemma TickSettled(st: State)
    requires Settled(st)
    ensures Settled(st.(ticks := st.ticks + 1))
  {
    var st' := st.(ticks := st.ticks + 1);
    assert forall x, q :: At(st', x, q) <==> At(st, x, q);
    hide Queue, WellFormed;
    assert forall s :: Retriers(st', s) == Retriers(st, s);
    assert forall t :: t in st.threads ==> ThreadOk(st, t) && DonationsOwned(st, t);
    assert forall s :: s in st.semas ==> LockOk(st, s) && WakeupOk(st, s);
  }

  // --------------------------------------- priorities, creation and exit

  /** The interrupts-off part of thread_set_priority; the yield that may
      follow it is a step of its own. */
  function SetPriority(st: State, p: int): State
    requires st.cpu.Some? && st.cpu.value in st.threads
    requires st.threads[st.cpu.value].record != []
  {
    var c := st.cpu.value;
    var r := st.threads[c].record;
    Change(st, c, st.threads[c].(record := r[0 := Entry(p, r[0].master)]))
  }

  lemma SetPrioritySettles(st: State, p: int)
    requires Settled(st) && st.cpu.value in st.threads
    requires var r := st.threads[st.cpu.value].record;
             r != [] && PRI_MIN <= p && (|r| == 1 || p < r[1].priority)
    ensures Settled(SetPriority(st, p))
  {
    CpuFacts(st);
    var c := st.cpu.value;
    var r := st.threads[c].record;
    SetBaseKeepsOrderIff(r, p);
    var th := st.threads[c].(record := r[0 := Entry(p, None)]);
    ChangeSync(st, c, th);
    assert forall x, q :: At(Change(st, c, th), x, q) <==> At(st, x, q);
  }

  /** init_thread: a new blocked thread, on no list yet. */
  function Fresh(p: int): Thread {
    Thread([Entry(p, None)], BLOCKED, Outside, Nowhere, 0, 0)
  }

  /** thread_create up to its thread_unblock; until then nothing else can
      see the new thread. The yield that may follow is a step of its own. */
  function Create(st: State, t: Tid, p: int): State
    requires OnReady in st.queues && t !in st.threads
  {
    Unblock(st.(threads := st.threads[t := Fresh(p)]), t)
  }

  lemma AddThread(st: State, t: Tid, p: int)
    requires Inv(st) && t !in st.threads && PRI_MIN <= p
    ensures Inv(st.(threads := st.threads[t := Fresh(p)]))
  {
    var st' := st.(threads := st.threads[t := Fresh(p)]);
    AddThreadLists(st, t, p);
    hide ListInv;
    forall s | s in st'.semas
      ensures LockOk(st', s) && WakeupOk(st', s)
    {
      assert LockOk(st, s) && WakeupOk(st, s);
      assert Retriers(st', s) == Retriers(st, s);
    }
    forall x | x in st'.threads
      ensures ThreadOk(st', x) && DonationsOwned(st', x)
    {
      if x != t {
        assert ThreadOk(st, x) && DonationsOwned(st, x);
      }
    }
  }

  lemma AddThreadLists(st: State, t: Tid, p: int)
    requires Inv(st) && t !in st.threads && PRI_MIN <= p
    ensures ListInv(st.(threads := st.threads[t := Fresh(p)]))
  {
    var st' := st.(threads := st.threads[t := Fresh(p)]);
    assert ThreadOk(st, IDLE);
    assert forall x, q :: x != t ==> (At(st', x, q) <==> At(st, x, q));
    assert forall q, x :: q in st.queues && x in st.queues[q] ==> At(st, x, q);
    forall q | q in st.queues
      ensures Queue(st'.threads, st'.queues[q], q == OnAlarm)
    {
      QueueMembers(st, q);
      QueueFrame(st.threads, st'.threads, st.queues[q], q == OnAlarm);
    }
  }

  lemma QueueMembers(st: State, q: Place)
    requires ListInv(st) && q in st.queues
    ensures forall i :: 0 <= i < |st.queues[q]| ==> st.queues[q][i] in st.threads
  {
    forall i | 0 <= i < |st.queues[q]|
      ensures st.queues[q][i] in st.threads
    {
      assert st.queues[q][i] in st.queues[q];
      assert At(st, st.queues[q][i], q);
    }
  }

  lemma IdleExists(st: State)
    requires Inv(st)
    ensures IDLE in st.threads
  {
  }

  /** The new thread is on the ready list. */
  lemma CreateSettles(st: State, t: Tid, p: int)
    requires Settled(st) && OnReady in st.queues
    requires t !in st.threads && PRI_MIN <= p
    ensures Settled(Create(st, t, p)) && Create(st, t, p).cpu == st.cpu && At(Create(st, t, p), t, OnReady) && t != IDLE
  {
    hide Inv, Unblock;
    var st1 := st.(threads := st.threads[t := Fresh(p)]);
    IdleExists(st);
    assert forall x, q :: x != t ==> (At(st1, x, q) <==> At(st, x, q));
    AddThread(st, t, p);
    UnblockSync(st1, t);
  }

  /** thread_exit: the running thread leaves for good. */
  function Exit(st: State): State
    requires st.cpu.Some? && st.cpu.value in st.threads
  {
    var c := st.cpu.value;
    var st1 := Unlink(st, c);
    Schedule(st1.(threads := st1.threads - {c}))
  }

  lemma RemoveThreadLists(st: State, t: Tid)
    requires Inv(st) && At(st, t, Nowhere)
    ensures ListInv(st.(threads := st.threads - {t}))
  {
    hide SyncInv;
    var st' := st.(threads := st.threads - {t});
    assert forall x, q :: At(st', x, q) <==> x != t && At(st, x, q);
    forall q | q in st.queues
      ensures Queue(st'.threads, st'.queues[q], q == OnAlarm)
    {
      NotQueued(st, t, q);
      QueueFrame(st.threads, st'.threads, st.queues[q], q == OnAlarm);
    }
    hide Queue;
  }

  lemma RemoveThread(st: State, t: Tid)
    requires Inv(st) && At(st, t, Nowhere) && t != IDLE && st.threads[t].pc == Outside
    requires forall s :: s in st.semas ==> st.semas[s].holder != Some(t)
    ensures Inv(st.(threads := st.threads - {t}))
  {
    hide Places, Queues;
    RemoveThreadLists(st, t);
    var st' := st.(threads := st.threads - {t});
    forall s | s in st'.semas
      ensures LockOk(st', s) && WakeupOk(st', s)
    {
      assert LockOk(st, s) && WakeupOk(st, s);
      assert Retriers(st', s) == Retriers(st, s);
    }
    forall x | x in st'.threads
      ensures ThreadOk(st', x) && DonationsOwned(st', x)
    {
      assert ThreadOk(st, x) && DonationsOwned(st, x);
    }
  }

  /** Off its list and out of the set of threads, before the next dispatch. */
  lemma ExitDetaches(st: State)
    requires Settled(st) && st.cpu.value in st.threads && st.cpu.value != IDLE
    requires st.threads[st.cpu.value].pc == Outside
    requires forall s :: s in st.semas ==> st.semas[s].holder != Some(st.cpu.value)
    ensures var st1 := Unlink(st, st.cpu.value);
      Unscheduled(st1.(threads := st1.threads - {st.cpu.value}))
  {
    CpuFacts(st);
    var c := st.cpu.value;
    var st1 := Unlink(st, c);
    UnlinkSync(st, c);
    RemoveThread(st1, c);
    var st2 := st1.(threads := st1.threads - {c});
    assert forall x, q :: At(st2, x, q) <==> x != c && At(st, x, q);
  }

  lemma ExitSettles(st: State)
    requires Settled(st) && st.cpu.value in st.threads && st.cpu.value != IDLE
    requires st.threads[st.cpu.value].pc == Outside
    requires forall s :: s in st.semas ==> st.semas[s].holder != Some(st.cpu.value)
    ensures Settled(Exit(st))
  {
    hide Settled, Inv, Unscheduled, Schedule;
    CpuFacts(st);
    ExitDetaches(st);
    var st1 := Unlink(st, st.cpu.value);
    ScheduleSettles(st1.(threads := st1.threads - {st.cpu.value}));
  }

  // ------------------------------------------------------------- runs

  /** What the running thread, or the timer, may do next. Every action is one
      stretch of code with interrupts off: the yields of sema_up,
      thread_set_priority and thread_create come after theirs are on again,
      and are actions of their own. A thread inside a wait loop can only go on
      with the loop. */
  datatype Action =
    | AAcquire(l: Sid) | ARelease(l: Sid)
    | ADown(s: Sid) | AUp(s: Sid)
    | AResume
    | AYield | ASleep(start: int, n: int) | ATick
    | ASetPriority(p: int) | ACreate(t: Tid, p: int) | AExit

  ghost predicate Enabled(st: State, a: Action) {
    && st.cpu.Some? && st.cpu.value in st.threads
    && var c := st.cpu.value;
       var th := st.threads[c];
       && (a == AResume <==> th.pc.Waiting?)
       && match a
          case AAcquire(l) =>
            c != IDLE && l in st.semas && st.semas[l].isLock && st.semas[l].holder != Some(c) && HolderLinked(st, l)
          case ARelease(l) => l in st.semas && st.semas[l].isLock && st.semas[l].holder == Some(c)
          case ADown(s) => c != IDLE && s in st.semas && !st.semas[s].isLock
          case AUp(s) => s in st.semas && !st.semas[s].isLock
          case AResume => th.pc.sema in st.semas && HolderLinked(st, th.pc.sema)
          case AYield => true
          case ASleep(start, n) => c != IDLE && start <= st.ticks && n > 0
          case ATick => true
          case ASetPriority(p) => th.record != [] && PRI_MIN <= p && (|th.record| == 1 || p < th.record[1].priority)
          case ACreate(t, p) => t !in st.threads && PRI_MIN <= p <= PRI_MAX
          case AExit => c != IDLE && forall s :: s in st.semas ==> st.semas[s].holder != Some(c)
  }

  ghost function Step(st: State, a: Action): State
    requires Settled(st) && Enabled(st, a)
  {
    CpuFacts(st);
    var th := st.threads[st.cpu.value];
    match a
    case AAcquire(l) => AcquireLoop(st, l)
    case ARelease(l) => Release(st, l)
    case ADown(s) => DownLoop(st, s)
    case AUp(s) => WakeOne(st, s)
    case AResume => if st.semas[th.pc.sema].isLock then AcquireLoop(st, th.pc.sema) else DownLoop(st, th.pc.sema)
    case AYield => Yield(st)
    case ASleep(start, n) => Sleep(st, start, n)
    case ATick => Tick(st)
    case ASetPriority(p) => SetPriority(st, p)
    case ACreate(t, p) => Create(st, t, p)
    case AExit => Exit(st)
  }

  /** Plain semaphores never appear in a donation record. */
  lemma NotDonated(st: State, s: Sid)
    requires Inv(st) && s in st.semas && !st.semas[s].isLock
    ensures forall t, e :: t in st.threads && e in st.threads[t].record ==> e.master != Some(s)
  {
    assert LockOk(st, s);
    forall t, e | t in st.threads && e in st.threads[t].record
      ensures e.master != Some(s)
    {
      assert DonationsOwned(st, t);
    }
  }

  /** Every step keeps the invariant. */
  lemma StepSettles(st: State, a: Action)
    requires Settled(st) && Enabled(st, a)
    ensures Settled(Step(st, a))
  {
    hide Settled, Inv, AcquireLoop, DownLoop, Release, WakeOne, Yield, Sleep, Tick, SetPriority, Create, Exit;
    CpuFacts(st);
    match a {
      case AAcquire(l) => AcquireLoopSettles(st, l);
      case ARelease(l) => ReleaseSettles(st, l);
      case ADown(s) => DownLoopSettles(st, s);
      case AUp(s) =>
        NotDonated(st, s);
        WakeOneSettles(st, s);
      case AResume =>
        var s := st.threads[st.cpu.value].pc.sema;
        if st.semas[s].isLock {
          AcquireLoopSettles(st, s);
        } else {
          DownLoopSettles(st, s);
        }
      case AYield => YieldSettles(st);
      case ASleep(start, n) => SleepSettles(st, start, n);
      case ATick => TickSettles(st);
      case ASetPriority(p) => SetPrioritySettles(st, p);
      case ACreate(t, p) => CreateSettles(st, t, p);
      case AExit => ExitSettles(st);
    }
  }

  lemma TickSettles(st: State)
    requires Settled(st)
    ensures Settled(Tick(st))
  {
    hide Settled, Inv;
    TickSettled(st);
    WakeDueExact(st.(ticks := st.ticks + 1));
  }

  /** The holder that `a` is about to donate to has a free slot left. */
  ghost predicate SlotFree(st: State, a: Action) {
    forall l :: l in st.semas && st.cpu.Some? && DonationDue(st, l) && Acquires(st, a, l) ==>
      |st.threads[st.semas[l].holder.value].record| <= CAPACITY
  }

  /** `a` is a turn of lock_acquire's loop for `l`. */
  ghost predicate Acquires(st: State, a: Action, l: Sid) {
    a == AAcquire(l)
    || (a == AResume && st.cpu.Some? && st.cpu.value in st.threads && st.threads[st.cpu.value].pc == Waiting(l))
  }

  /** Each state follows from the one before by an enabled action. */
  ghost predicate IsTrace(states: seq<State>, actions: seq<Action>) {
    && |states| == |actions| + 1
    && Settled(states[0])
    && forall i :: 0 <= i < |actions| ==> Follows(states[i], actions[i], states[i + 1])
  }

  ghost predicate Follows(st: State, a: Action, st': State) {
    Settled(st) ==> Enabled(st, a) && st' == Step(st, a)
  }

  /** A run: the slots for donations last. */
  ghost predicate IsRun(states: seq<State>, actions: seq<Action>) {
    && IsTrace(states, actions)
    && forall i :: 0 <= i < |actions| ==> SlotFree(states[i], actions[i])
  }

  lemma {:induction false} TraceSettled(states: seq<State>, actions: seq<Action>, n: nat)
    requires IsTrace(states, actions) && n < |states|
    ensures Settled(states[n])
  {
    hide Settled, Step, Enabled;
    if n > 0 {
      TraceSettled(states, actions, n - 1);
      assert Follows(states[n - 1], actions[n - 1], states[n - 1 + 1]);
      StepSettles(states[n - 1], actions[n - 1]);
    }
  }

  /** Safety of every state of every run. */
  lemma RunSafe(states: seq<State>, actions: seq<Action>, st: State)
    requires IsRun(states, actions) && st in states
    ensures MutualExclusion(st) && NoLostWakeup(st) && QueuesOrdered(st) && OnOneList(st) && DonationsSound(st)
  {
    var n :| 0 <= n < |states| && states[n] == st;
    TraceSettled(states, actions, n);
    hide IsRun, Step;
    SettledSafe(st);
  }

  /** A lock is free exactly when it has no holder. */
  ghost predicate MutualExclusion(st: State) {
    forall l :: l in st.semas && st.semas[l].isLock ==>
      st.semas[l].value <= 1 && (st.semas[l].value == 0 <==> st.semas[l].holder.Some?)
  }

  /** While a semaphore or lock has waiters, each unit of its value is matched
      by a thread, running or ready, about to try for it. */
  ghost predicate NoLostWakeup(st: State) {
    && (forall s :: s in st.semas && OnWait(s) in st.queues && st.queues[OnWait(s)] != [] ==>
         st.semas[s].value <= |Retriers(st, s)|)
    && (forall s, t :: t in Retriers(st, s) ==> st.threads[t].place in {OnCpu, OnReady})
  }

  /** The ready list and all waiters lists go by priority, then by arrival;
      the alarm list goes by wake-up time. */
  ghost predicate QueuesOrdered(st: State) {
    && (forall p :: p in st.queues && p != OnAlarm ==> PriorityOrder(st, st.queues[p]))
    && OnAlarm in st.queues && WakeOrder(st, st.queues[OnAlarm])
  }

  ghost predicate PriorityOrder(st: State, q: seq<Tid>) {
    forall i, j :: 0 <= i < j < |q| ==>
      && q[i] in st.threads && q[j] in st.threads
      && Prio(st, q[i]) >= Prio(st, q[j])
      && (Prio(st, q[i]) == Prio(st, q[j]) ==> st.threads[q[i]].arrived < st.threads[q[j]].arrived)
  }

  ghost predicate WakeOrder(st: State, q: seq<Tid>) {
    forall i, j :: 0 <= i < j < |q| ==>
      q[i] in st.threads && q[j] in st.threads && st.threads[q[i]].wake <= st.threads[q[j]].wake
  }

  /** No thread is on two lists, or on a list while it runs. */
  ghost predicate OnOneList(st: State) {
    && (forall p, q, t :: p in st.queues && q in st.queues && t in st.queues[p] && t in st.queues[q] ==> p == q)
    && (forall p :: p in st.queues && st.cpu.Some? ==> st.cpu.value !in st.queues[p])
  }

  /** Every recorded donation is for a lock the thread holds, the records are
      increasing, and a thread's priority is the largest in its record. */
  ghost predicate DonationsSound(st: State) {
    forall t :: t in st.threads ==> DonationsOf(st, t)
  }

  ghost predicate DonationsOf(st: State, t: Tid)
    requires t in st.threads
  {
    var r := st.threads[t].record;
    && WellFormed(r)
    && (forall e :: e in r ==> e.priority <= Prio(st, t))
    && (forall e :: e in r && e.master.Some? ==>
         var l := e.master.value;
         l in st.semas && st.semas[l].isLock && st.semas[l].value == 0 && st.semas[l].holder == Some(t))
  }

  lemma SettledSafe(st: State)
    requires Settled(st)
    ensures MutualExclusion(st) && NoLostWakeup(st) && QueuesOrdered(st) && OnOneList(st) && DonationsSound(st)
  {
    SafeLists(st);
    SafeSync(st);
  }

  lemma SafeLists(st: State)
    requires Settled(st)
    ensures QueuesOrdered(st) && OnOneList(st)
  {
    hide SyncInv;
    forall p, q, t | p in st.queues && q in st.queues && t in st.queues[p] && t in st.queues[q]
      ensures p == q
    {
      assert At(st, t, p) && At(st, t, q);
    }
    forall p | p in st.queues
      ensures st.cpu.value !in st.queues[p]
    {
      assert At(st, st.cpu.value, OnCpu);
      assert st.cpu.value in st.queues[p] <==> At(st, st.cpu.value, p);
    }
  }

  lemma SafeSync(st: State)
    requires Settled(st)
    ensures MutualExclusion(st) && NoLostWakeup(st) && DonationsSound(st)
  {
    hide Queues;
    assert forall s :: s in st.semas ==> LockOk(st, s) && WakeupOk(st, s);
    forall s, t | t in Retriers(st, s)
      ensures st.threads[t].place in {OnCpu, OnReady}
    {
      RetrierPlace(st, t, s);
    }
    forall t | t in st.threads
      ensures DonationsOf(st, t)
    {
      RecordSound(st, t);
    }
  }

  lemma RecordSound(st: State, t: Tid)
    requires Settled(st) && t in st.threads
    ensures DonationsOf(st, t)
  {
    hide Queues, Places;
    assert ThreadOk(st, t) && DonationsOwned(st, t);
    var r := st.threads[t].record;
    forall e | e in r
      ensures e.priority <= Prio(st, t)
    {
      var i :| 0 <= i < |r| && r[i] == e;
    }
    forall e | e in r && e.master.Some?
      ensures st.semas[e.master.value].isLock && st.semas[e.master.value].value == 0
    {
      assert LockOk(st, e.master.value);
    }
  }

  lemma RetrierPlace(st: State, t: Tid, s: Sid)
    requires Settled(st) && t in Retriers(st, s)
    ensures st.threads[t].place in {OnCpu, OnReady}
  {
    assert ThreadOk(st, t);
    assert At(st, t, st.threads[t].place);
    assert st.threads[t].place in st.queues.Keys + {OnCpu, Nowhere};
  }

  // ------------------------------------------------------------- start

  const MAIN: Tid := 1

  /** After thread_start: the main thread runs, the idle thread is parked,
      all locks are free. `initial` gives each plain semaphore's value. */
  function Boot(locks: set<Sid>, initial: map<Sid, nat>): State {
    var lists := {OnReady, OnAlarm} + (set s | s in locks + initial.Keys :: OnWait(s));
    State(map[IDLE := Fresh(PRI_MIN), MAIN := Fresh(31).(status := RUNNING, place := OnCpu)],
          (map s | s in initial :: Sema(initial[s], false, None)) + (map l | l in locks :: Sema(1, true, None)),
          map p | p in lists :: [],
          Some(MAIN), 0, 1)
  }

  /** So runs exist from every such start. */
  lemma BootSettled(locks: set<Sid>, initial: map<Sid, nat>)
    ensures Settled(Boot(locks, initial))
  {
    var st := Boot(locks, initial);
    BootLists(locks, initial);
    BootThreads(st);
    hide Queues, Places, ThreadOk, DonationsOwned;
    forall s | s in st.semas
      ensures LockOk(st, s) && WakeupOk(st, s)
    {
      assert st.queues[OnWait(s)] == [];
    }
  }

  lemma BootThreads(st: State)
    requires st.threads == map[IDLE := Fresh(PRI_MIN), MAIN := Fresh(31).(status := RUNNING, place := OnCpu)]
    ensures forall t :: t in st.threads ==> ThreadOk(st, t) && DonationsOwned(st, t)
    ensures forall t, p :: At(st, t, p) <==> (t == IDLE && p == Nowhere) || (t == MAIN && p == OnCpu)
  {
  }

  lemma BootLists(locks: set<Sid>, initial: map<Sid, nat>)
    ensures ListInv(Boot(locks, initial))
  {
    var st := Boot(locks, initial);
    BootThreads(st);
    BootNames(locks, initial);
    hide Boot, Lists, ThreadOk, DonationsOwned;
    EmptyLists(st);
  }

  lemma BootNames(locks: set<Sid>, initial: map<Sid, nat>)
    ensures var st := Boot(locks, initial);
      && Lists(st) && (forall p :: p in st.queues ==> st.queues[p] == [])
      && (forall t :: t in st.threads ==> st.threads[t].arrived < st.clock) && st.cpu == Some(MAIN)
  {
  }

  lemma EmptyLists(st: State)
    requires Lists(st) && (forall p :: p in st.queues ==> st.queues[p] == []) && st.cpu == Some(MAIN)
    requires forall t, p :: At(st, t, p) <==> (t == IDLE && p == Nowhere) || (t == MAIN && p == OnCpu)
    requires forall t :: t in st.threads ==> st.threads[t].arrived < st.clock
    ensures ListInv(st)
  {
    assert forall t :: t in st.threads ==> At(st, t, st.threads[t].place);
    hide At;
  }
}
