/** How far priority donation protects lock holders: when a holder runs at
    least at the priority of everyone waiting for its lock, and what stands
    behind each recorded donation. */
module KernelPriorities {
  import opened Options
  import opened Donation
  import opened KernelState
  import opened KernelSteps
  import opened KernelEffects

  /** No holder of a lock has a lower priority than a thread on its list. */
  ghost predicate HolderCovers(st: State) {
    forall l, t :: l in st.semas && st.semas[l].holder.Some? && At(st, t, OnWait(l)) ==>
      Prio(st, t) <= Prio(st, st.semas[l].holder.value)
  }

  /** Behind every recorded donation stands a thread in its lock's wait loop
      with at least that priority. */
  ghost predicate Backed(st: State) {
    forall t, e :: t in st.threads && e in st.threads[t].record && e.master.Some? ==>
      exists d :: Backs(st, d, e)
  }

  ghost predicate Backs(st: State, d: Tid, e: Entry)
    requires e.master.Some?
  {
    d in st.threads && st.threads[d].pc == Waiting(e.master.value) && e.priority <= Prio(st, d)
  }

  // ------------------------------------------------------- quiet steps

  /** A thread that has just come into being. */
  ghost predicate Newborn(st: State, st': State, t: Tid) {
    && t !in st.threads && t in st'.threads && st'.threads[t].pc == Outside
    && (forall e :: e in st'.threads[t].record ==> e.master == None)
    && (forall m :: !At(st', t, OnWait(m)))
  }

  /** Nobody's record or place in the code changes, nobody starts to wait and
      no lock changes hands; threads may come, and go if they wait for nothing. */
  ghost predicate Quiet(st: State, st': State) {
    && (forall t :: t in st'.threads ==> Same(st, st', t) || Newborn(st, st', t))
    && (forall t :: t in st.threads && t !in st'.threads ==>
         st.threads[t].pc == Outside && forall s :: s in st'.semas ==> st'.semas[s].holder != Some(t))
    && (forall s :: s in st'.semas && st'.semas[s].holder.Some? ==>
         s in st.semas && st.semas[s].holder == st'.semas[s].holder && st.semas[s].holder.value in st.threads)
  }

  lemma QuietCovers(st: State, st': State)
    requires HolderCovers(st) && Quiet(st, st')
    ensures HolderCovers(st')
  {
    forall l, t | l in st'.semas && st'.semas[l].holder.Some? && At(st', t, OnWait(l))
      ensures Prio(st', t) <= Prio(st', st'.semas[l].holder.value)
    {
      var h := st'.semas[l].holder.value;
      assert Same(st, st', t) && h in st'.threads;
      assert Same(st, st', h);
    }
  }

  lemma QuietBacked(st: State, st': State)
    requires Backed(st) && Quiet(st, st')
    ensures Backed(st')
  {
    forall t, e | t in st'.threads && e in st'.threads[t].record && e.master.Some?
      ensures exists d :: Backs(st', d, e)
    {
      assert Same(st, st', t);
      var d :| Backs(st, d, e);
      assert d in st'.threads && Same(st, st', d);
      assert Backs(st', d, e);
    }
  }

  lemma HoldersExist(st: State)
    requires Settled(st)
    ensures forall s :: s in st.semas && st.semas[s].holder.Some? ==>
      st.semas[s].isLock && st.semas[s].value == 0 && st.semas[s].holder.value in st.threads
      && st.semas[s].holder.value != IDLE
  {
    assert forall s :: s in st.semas ==> LockOk(st, s);
  }

  /** The steps in which nothing happens to any lock or record. */
  ghost predicate IsQuiet(a: Action) {
    a.AUp? || a.AYield? || a.ASleep? || a.ATick? || a.ACreate? || a.AExit?
  }

  lemma QuietStep(st: State, a: Action)
    requires Settled(st) && Enabled(st, a) && IsQuiet(a)
    ensures Quiet(st, Step(st, a))
  {
    hide Settled, Inv, WakeOne, Yield, Sleep, Tick, Create, Exit, Same, Newborn, MaxRuns, Woken, Undisturbed;
    CpuFacts(st);
    HoldersExist(st);
    match a {
      case AUp(s) =>
        UpQuiet(st, s);
      case AYield =>
        YieldSame(st);
      case ASleep(start, n) =>
        SleepQuiet(st, start, n);
      case ATick =>
        TickEffect(st);
      case ACreate(t, p) =>
        CreateQuiet(st, t, p);
      case AExit =>
        ExitEffect(st);
    }
  }

  lemma UpQuiet(st: State, s: Sid)
    requires Settled(st) && s in st.semas && !st.semas[s].isLock
    ensures OnWait(s) in st.queues && OnReady in st.queues && Quiet(st, WakeOne(st, s))
  {
    hide Settled, Inv, WakeOne, Same, Newborn;
    PlainFacts(st, s);
    SettledNotDonated(st, s);
    HoldersExist(st);
    WakeOneEffect(st, s);
  }

  lemma SettledNotDonated(st: State, s: Sid)
    requires Settled(st) && s in st.semas && !st.semas[s].isLock
    ensures forall t, e :: t in st.threads && e in st.threads[t].record ==> e.master != Some(s)
  {
    NotDonated(st, s);
  }

  lemma SleepQuiet(st: State, start: int, n: int)
    requires Settled(st) && st.cpu.value != IDLE && st.cpu.value in st.threads
    requires st.threads[st.cpu.value].pc == Outside && OnAlarm in st.queues
    ensures Quiet(st, Sleep(st, start, n))
  {
    hide Settled, Inv, Sleep, Newborn, MaxRuns;
    CpuFacts(st);
    HoldersExist(st);
    SleepEffect(st, start, n);
    var c, st' := st.cpu.value, Sleep(st, start, n);
    NeverReady(st');
    forall t | t in st'.threads
      ensures Same(st, st', t)
    {
      if t != c {
        assert Undisturbed(st, st', t);
      }
    }
  }

  lemma CreateQuiet(st: State, t: Tid, p: int)
    requires Settled(st) && OnReady in st.queues && t !in st.threads && PRI_MIN <= p
    ensures Quiet(st, Create(st, t, p))
  {
    hide Settled, Inv, Create;
    HoldersExist(st);
    CreateEffect(st, t, p);
    var st' := Create(st, t, p);
    assert Newborn(st, st', t);
    forall x | x in st.threads
      ensures Same(st, st', x)
    {
      assert st'.threads[x] == st.threads[x];
    }
  }

  // --------------------------------------------------- when it is kept

  /** The first, and so every, waiter of `l` has priority at most `p`. */
  ghost predicate WaitersAtMost(st: State, l: Sid, p: int) {
    OnWait(l) in st.queues && st.queues[OnWait(l)] != [] ==> Prio(st, st.queues[OnWait(l)][0]) <= p
  }

  /** Taking a free lock is safe from its remaining waiters. */
  ghost predicate TakeCovers(st: State, l: Sid)
    requires l in st.semas && st.cpu.Some?
  {
    st.semas[l].isLock && st.semas[l].value > 0 ==> WaitersAtMost(st, l, Prio(st, st.cpu.value))
  }

  /** What the caller can look at before the step: a free lock about to be
      taken, or the locks it will still hold at a lower priority. */
  ghost predicate Guard(st: State, a: Action)
    requires Settled(st) && Enabled(st, a)
  {
    var c := st.cpu.value;
    var r := st.threads[c].record;
    match a
    case AAcquire(l) => TakeCovers(st, l)
    case AResume => TakeCovers(st, st.threads[c].pc.sema)
    case ARelease(l) =>
      Without(r, l) != [] ==> CoversOthers(st, c, l, Current(Without(r, l)))
    case ASetPriority(p) =>
      |r| == 1 ==> forall m :: m in st.semas && st.semas[m].holder == Some(c) ==> WaitersAtMost(st, m, p)
    case _ => true
  }

  lemma WaitersAtMostMeans(st: State, l: Sid, p: int)
    requires Settled(st) && l in st.semas
    ensures WaitersAtMost(st, l, p) <==> forall t :: At(st, t, OnWait(l)) ==> Prio(st, t) <= p
  {
    hide Settled, Inv;
    SettledWaiters(st, l);
  }

  /** The locks that `c` holds, but `l`, have no waiter above `p`. */
  ghost predicate CoversOthers(st: State, c: Tid, l: Sid, p: int) {
    forall m :: m in st.semas && m != l && st.semas[m].holder == Some(c) ==> WaitersAtMost(st, m, p)
  }

  /** `c` ends up at priority `p` without lock `l`; nobody else changes. */
  ghost predicate Lowered(st: State, st': State, c: Tid, l: Sid, p: int) {
    && c in st.threads && c in st'.threads && st'.threads.Keys == st.threads.Keys && Prio(st', c) == p
    && (forall t :: t in st.threads && t != c ==> Same(st, st', t))
    && (forall m :: !At(st, c, OnWait(m)) && !At(st', c, OnWait(m)))
    && (forall m :: m in st'.semas && m != l ==> m in st.semas && st'.semas[m] == st.semas[m])
    && (forall m :: m in st.semas && m != l ==> m in st'.semas)
    && (l in st'.semas ==> st'.semas[l].holder == None)
    && (forall m, t :: At(st, t, OnWait(m)) && m != l ==> At(st', t, OnWait(m)))
  }

  lemma LoweredCovers(st: State, st': State, c: Tid, l: Sid, p: int)
    requires Settled(st) && HolderCovers(st) && Lowered(st, st', c, l, p)
    ensures HolderCovers(st') <==> CoversOthers(st, c, l, p)
  {
    hide Settled, Inv, WaitersAtMost;
    HoldersExist(st);
    forall m | m in st.semas
      ensures WaitersAtMost(st, m, p) <==> forall t :: At(st, t, OnWait(m)) ==> Prio(st, t) <= p
    {
      WaitersAtMostMeans(st, m, p);
    }
    if CoversOthers(st, c, l, p) {
      forall m, t | m in st'.semas && st'.semas[m].holder.Some? && At(st', t, OnWait(m))
        ensures Prio(st', t) <= Prio(st', st'.semas[m].holder.value)
      {
        var h := st'.semas[m].holder.value;
        assert m != l && Same(st, st', t);
        assert h != c ==> Same(st, st', h);
        assert h == c ==> WaitersAtMost(st, m, p);
      }
    } else {
      var m :| m in st.semas && m != l && st.semas[m].holder == Some(c) && !WaitersAtMost(st, m, p);
      var t :| At(st, t, OnWait(m)) && Prio(st, t) > p;
      assert At(st', t, OnWait(m)) && Same(st, st', t);
      assert m in st'.semas && st'.semas[m].holder == Some(c);
    }
  }

  /** lock_release keeps cover exactly when what is left of the caller's
      priority covers the locks it still holds. */
  lemma ReleaseCovers(st: State, l: Sid)
    requires Settled(st) && Enabled(st, ARelease(l)) && HolderCovers(st)
    ensures HolderCovers(Step(st, ARelease(l))) <==> Guard(st, ARelease(l))
  {
    hide Settled, Inv, Release, MaxRuns, Without, WaitersAtMost, HolderCovers;
    CpuFacts(st);
    ReleaseEffect(st, l);
    NotWaiting(st, st.cpu.value);
    var c, r, st' := st.cpu.value, st.threads[st.cpu.value].record, Release(st, l);
    ReleasedPriorityIsMax(r, l);
    LoweredCovers(st, st', c, l, Current(Without(r, l)));
  }

  lemma NotWaiting(st: State, c: Tid)
    requires Settled(st) && st.cpu == Some(c)
    ensures forall m :: !At(st, c, OnWait(m))
  {
    CpuFacts(st);
  }

  /** thread_set_priority keeps cover exactly when a donation is in force or
      the new priority covers the locks held. */
  lemma SetPriorityCovers(st: State, p: int)
    requires Settled(st) && Enabled(st, ASetPriority(p)) && HolderCovers(st)
    ensures HolderCovers(Step(st, ASetPriority(p))) <==> Guard(st, ASetPriority(p))
  {
    hide Settled, Inv, SetPriority, WaitersAtMost, WellFormed;
    CpuFacts(st);
    HoldersExist(st);
    SetPriorityEffect(st, p);
    NotWaiting(st, st.cpu.value);
    var c, st' := st.cpu.value, SetPriority(st, p);
    forall m | m in st.semas
      ensures WaitersAtMost(st, m, p) <==> forall t :: At(st, t, OnWait(m)) ==> Prio(st, t) <= p
    {
      WaitersAtMostMeans(st, m, p);
    }
    assert forall t :: t in st.threads && t != c ==> Prio(st', t) == Prio(st, t);
  }

  /** Taking a free lock keeps cover exactly when its remaining waiters are
      not above the taker. */
  lemma TakeKeepsCover(st: State, l: Sid)
    requires Settled(st) && HolderCovers(st) && l in st.semas && st.semas[l].isLock && st.semas[l].value > 0
    ensures st.cpu.value in st.threads && OnReady in st.queues && OnWait(l) in st.queues
    ensures HolderCovers(AcquireLoop(st, l)) <==> WaitersAtMost(st, l, Prio(st, st.cpu.value))
  {
    hide Settled, Inv, AcquireLoop, WaitersAtMost;
    CpuFacts(st);
    FreeAcquire(st, l);
    HoldersExist(st);
    var c, st' := st.cpu.value, AcquireLoop(st, l);
    WaitersAtMostMeans(st, l, Prio(st, c));
    assert forall t :: t in st.threads ==> Prio(st', t) == Prio(st, t);
    assert forall t, m :: At(st', t, m) <==> At(st, t, m);
    assert forall m :: m in st.semas && m != l ==> st'.semas[m] == st.semas[m];
    assert st'.semas[l].holder == Some(c);
  }

  /** A contended acquire always keeps it: the donation brings the holder up
      to the new waiter, and a holder that was itself waiting leaves its list
      when it rises. */
  lemma ContendedKeepsCover(st: State, l: Sid)
    requires Settled(st) && HolderCovers(st) && st.cpu.value != IDLE
    requires l in st.semas && st.semas[l].isLock && st.semas[l].value == 0
    requires st.semas[l].holder != Some(st.cpu.value)
    requires st.threads[st.cpu.value].pc in {Outside, Waiting(l)}
    requires HolderLinked(st, l)
    ensures OnReady in st.queues && OnWait(l) in st.queues && HolderCovers(AcquireLoop(st, l))
  {
    hide Settled, Inv, AcquireLoop, MaxRuns, Undisturbed, ThreadOk, DonationsOwned;
    CpuFacts(st);
    ContendedAcquire(st, l);
    HoldersExist(st);
    var c, h, st' := st.cpu.value, st.semas[l].holder.value, AcquireLoop(st, l);
    NeverReady(st');
    forall t | t in st.threads && t != c && t != h
      ensures Same(st, st', t)
    {
      UndisturbedIsSame(st, st', t);
    }
    if Prio(st, h) >= Prio(st, c) {
      UndisturbedIsSame(st, st', h);
    }
    RaisedCovers(st, st', c, h, l);
  }

  /** `c` has joined the list of `l`, whose holder `h` is now at least as high
      and, if it was raised, on no waiters list; nobody else changes. */
  lemma RaisedCovers(st: State, st': State, c: Tid, h: Tid, l: Sid)
    requires HolderCovers(st) && l in st.semas && st'.semas == st.semas && st.semas[l].holder == Some(h) && c != h
    requires st'.threads.Keys == st.threads.Keys && c in st.threads && h in st.threads
    requires forall m :: m in st.semas && st.semas[m].holder.Some? ==> st.semas[m].holder.value in st.threads
    requires At(st', c, OnWait(l)) && st'.threads[c].record == st.threads[c].record
    requires Prio(st', h) >= Prio(st', c) && Prio(st', h) >= Prio(st, h)
    requires Same(st, st', h) || forall m :: !At(st', h, OnWait(m))
    requires forall t :: t in st.threads && t != c && t != h ==> Same(st, st', t)
    ensures HolderCovers(st')
  {
    forall m, t | m in st'.semas && st'.semas[m].holder.Some? && At(st', t, OnWait(m))
      ensures Prio(st', t) <= Prio(st', st'.semas[m].holder.value)
    {
      var x := st'.semas[m].holder.value;
      assert Prio(st', x) >= Prio(st, x) by {
        assert x != c && x != h ==> Same(st, st', x);
      }
      if t == c {
        assert m == l;
      } else {
        assert Same(st, st', t);
      }
    }
  }

  /** sema_down touches no lock. */
  lemma DownKeepsCover(st: State, s: Sid)
    requires Settled(st) && HolderCovers(st) && st.cpu.value != IDLE && s in st.semas && !st.semas[s].isLock
    requires st.threads[st.cpu.value].pc in {Outside, Waiting(s)}
    ensures st.cpu.value in st.threads && OnWait(s) in st.queues && HolderCovers(DownLoop(st, s))
  {
    hide Settled, Inv, DownLoop, MaxRuns, Undisturbed, ThreadOk, DonationsOwned;
    CpuFacts(st);
    PlainFacts(st, s);
    HoldersExist(st);
    DownEffect(st, s);
    var c, st' := st.cpu.value, DownLoop(st, s);
    if st.semas[s].value > 0 {
      TakenPlain(st, st', c, s);
    } else {
      NeverReady(st');
      forall t | t in st.threads && t != c
        ensures Same(st, st', t)
      {
        UndisturbedIsSame(st, st', t);
      }
      ParkedPlain(st, st', c, s);
    }
  }

  lemma TakenPlain(st: State, st': State, c: Tid, s: Sid)
    requires HolderCovers(st) && Taken(st, st', c, s) && !st.semas[s].isLock && st'.semas[s].holder == None
    ensures HolderCovers(st')
  {
    assert forall t :: t in st.threads ==> Prio(st', t) == Prio(st, t);
    assert forall t, m :: At(st', t, m) <==> At(st, t, m);
    assert forall m :: m in st.semas && m != s ==> st'.semas[m] == st.semas[m];
  }

  lemma ParkedPlain(st: State, st': State, c: Tid, s: Sid)
    requires HolderCovers(st) && s in st.semas && st.semas[s].holder == None && st'.semas == st.semas
    requires forall m :: m in st.semas && st.semas[m].holder.Some? ==> st.semas[m].holder.value in st.threads
    requires c in st.threads && st'.threads.Keys == st.threads.Keys
    requires At(st', c, OnWait(s)) && st'.threads[c].record == st.threads[c].record
    requires forall t :: t in st.threads && t != c ==> Same(st, st', t)
    ensures HolderCovers(st')
  {
    assert forall t :: t in st.threads ==> Prio(st', t) == Prio(st, t);
  }

  lemma AcquireKeepsCover(st: State, l: Sid)
    requires Settled(st) && HolderCovers(st) && st.cpu.value != IDLE
    requires l in st.semas && st.semas[l].isLock && st.semas[l].holder != Some(st.cpu.value)
    requires st.threads[st.cpu.value].pc in {Outside, Waiting(l)}
    requires HolderLinked(st, l)
    ensures st.cpu.value in st.threads && OnReady in st.queues && OnWait(l) in st.queues
    ensures HolderCovers(AcquireLoop(st, l)) <==> TakeCovers(st, l)
  {
    hide Settled, Inv, AcquireLoop, HolderCovers, WaitersAtMost, ThreadOk, DonationsOwned;
    CpuFacts(st);
    if st.semas[l].value > 0 {
      TakeKeepsCover(st, l);
    } else {
      ContendedKeepsCover(st, l);
    }
  }

  /** Every step keeps cover exactly under its guard. */
  lemma StepCovers(st: State, a: Action)
    requires Settled(st) && Enabled(st, a) && HolderCovers(st)
    ensures HolderCovers(Step(st, a)) <==> Guard(st, a)
  {
    hide Settled, Inv, AcquireLoop, DownLoop, Release, SetPriority, WakeOne, Yield, Sleep, Tick, Create, Exit,
      HolderCovers, Quiet, TakeCovers, ThreadOk, DonationsOwned;
    CpuFacts(st);
    match a {
      case AAcquire(l) => AcquireKeepsCover(st, l);
      case AResume => ResumeKeepsCover(st);
      case ARelease(l) => ReleaseCovers(st, l);
      case ADown(s) => DownKeepsCover(st, s);
      case ASetPriority(p) => SetPriorityCovers(st, p);
      case _ =>
        QuietStep(st, a);
        QuietCovers(st, Step(st, a));
    }
  }

  lemma ResumeKeepsCover(st: State)
    requires Settled(st) && Enabled(st, AResume) && HolderCovers(st)
    ensures HolderCovers(Step(st, AResume)) <==> Guard(st, AResume)
  {
    hide Settled, Inv, AcquireLoop, DownLoop, HolderCovers, WaitersAtMost;
    CpuFacts(st);
    var s := st.threads[st.cpu.value].pc.sema;
    if st.semas[s].isLock {
      AcquireKeepsCover(st, s);
    } else {
      DownKeepsCover(st, s);
    }
  }

  /** A run that starts covered stays covered throughout if and only if every
      one of its steps meets its guard. */
  lemma RunCovers(states: seq<State>, actions: seq<Action>)
    requires IsTrace(states, actions) && HolderCovers(states[0])
    ensures (forall i :: 0 <= i < |states| ==> HolderCovers(states[i])) <==>
            (forall i :: 0 <= i < |actions| ==> Guarded(states[i], actions[i]))
  {
    assert |states| == |actions| + 1;
    hide IsTrace, HolderCovers, Guarded;
    if forall i :: 0 <= i < |actions| ==> Guarded(states[i], actions[i]) {
      AllCovered(states, actions, |actions|);
    }
    if forall i :: 0 <= i < |states| ==> HolderCovers(states[i]) {
      forall i | 0 <= i < |actions|
        ensures Guarded(states[i], actions[i])
      {
        assert HolderCovers(states[i]) && HolderCovers(states[i + 1]);
        NextCovered(states, actions, i);
      }
    }
  }

  lemma NextCovered(states: seq<State>, actions: seq<Action>, i: nat)
    requires IsTrace(states, actions) && i < |actions| && HolderCovers(states[i])
    ensures HolderCovers(states[i + 1]) <==> Guarded(states[i], actions[i])
  {
    hide Settled, Step, HolderCovers, Guard;
    TraceSettled(states, actions, i);
    assert Follows(states[i], actions[i], states[i + 1]);
    StepCovers(states[i], actions[i]);
  }

  ghost predicate Guarded(st: State, a: Action) {
    Settled(st) && Enabled(st, a) ==> Guard(st, a)
  }

  lemma {:induction false} AllCovered(states: seq<State>, actions: seq<Action>, n: nat)
    requires IsTrace(states, actions) && n <= |actions| && HolderCovers(states[0])
    requires forall i :: 0 <= i < |actions| ==> Guarded(states[i], actions[i])
    ensures forall i :: 0 <= i <= n ==> HolderCovers(states[i])
  {
    if n > 0 {
      AllCovered(states, actions, n - 1);
      hide IsTrace, HolderCovers, Guarded;
      NextCovered(states, actions, n - 1);
    }
  }

  // -------------------------------------------------- nested donation

  /** `t` is on the list of a lock that `h` holds. */
  ghost predicate BlockedBy(st: State, t: Tid, h: Tid) {
    exists l :: l in st.semas && At(st, t, OnWait(l)) && st.semas[l].holder == Some(h)
  }

  /** Each thread waits for the next one. */
  ghost predicate Chain(st: State, ts: seq<Tid>) {
    ts != [] && forall i :: 0 < i < |ts| ==> BlockedBy(st, ts[i - 1], ts[i])
  }

  lemma {:induction false} ChainCovers(st: State, ts: seq<Tid>, i: nat)
    requires HolderCovers(st) && Chain(st, ts) && i < |ts|
    ensures Prio(st, ts[i]) <= Prio(st, ts[|ts| - 1])
    decreases |ts| - i
  {
    if i < |ts| - 1 {
      assert BlockedBy(st, ts[i + 1 - 1], ts[i + 1]);
      ChainCovers(st, ts, i + 1);
    }
  }

  /** Single locks are covered exactly when chains of them, however long,
      are: the last holder has at least the priority of the first waiter. */
  lemma CoversIffChains(st: State)
    ensures HolderCovers(st) <==> forall ts :: Chain(st, ts) ==> Prio(st, ts[0]) <= Prio(st, ts[|ts| - 1])
  {
    if HolderCovers(st) {
      forall ts | Chain(st, ts)
        ensures Prio(st, ts[0]) <= Prio(st, ts[|ts| - 1])
      {
        ChainCovers(st, ts, 0);
      }
    }
    if forall ts :: Chain(st, ts) ==> Prio(st, ts[0]) <= Prio(st, ts[|ts| - 1]) {
      forall l, t | l in st.semas && st.semas[l].holder.Some? && At(st, t, OnWait(l))
        ensures Prio(st, t) <= Prio(st, st.semas[l].holder.value)
      {
        var h := st.semas[l].holder.value;
        assert BlockedBy(st, t, h);
        assert Chain(st, [t, h]);
      }
    }
  }

  /** While everyone along a chain waits for a thread that could run, nobody
      of lower priority than any of them runs. */
  lemma NestedDonation(st: State, ts: seq<Tid>)
    requires Settled(st) && HolderCovers(st) && MaxRuns(st) && Chain(st, ts) && |ts| > 1
    requires var h := ts[|ts| - 1]; !At(st, h, OnAlarm) && forall s :: !At(st, h, OnWait(s))
    ensures Awake(st, ts[|ts| - 1])
    ensures forall t :: t in ts ==> Prio(st, t) <= Prio(st, st.cpu.value)
  {
    hide Settled, HolderCovers;
    var n := |ts| - 1;
    assert BlockedBy(st, ts[n - 1], ts[n]);
    FreeIsAwake(st, ts[n - 1], ts[n]);
    forall t | t in ts
      ensures Prio(st, t) <= Prio(st, st.cpu.value)
    {
      var i :| 0 <= i < |ts| && ts[i] == t;
      ChainCovers(st, ts, i);
    }
  }

  lemma FreeIsAwake(st: State, t: Tid, h: Tid)
    requires Settled(st) && BlockedBy(st, t, h) && !At(st, h, OnAlarm) && forall s :: !At(st, h, OnWait(s))
    ensures Awake(st, h) && (At(st, h, OnCpu) ==> st.cpu == Some(h))
  {
    hide Queues, WakeupOk;
    var l :| l in st.semas && At(st, t, OnWait(l)) && st.semas[l].holder == Some(h);
    assert LockOk(st, l);
    assert At(st, h, st.threads[h].place);
  }

  /** So it is in every state of a run that meets its guards. */
  lemma RunNested(states: seq<State>, actions: seq<Action>, i: nat, ts: seq<Tid>)
    requires IsTrace(states, actions) && HolderCovers(states[0])
    requires forall j :: 0 <= j < |actions| ==> Guarded(states[j], actions[j])
    requires i < |states| && MaxRuns(states[i]) && Chain(states[i], ts) && |ts| > 1
    requires var h := ts[|ts| - 1]; !At(states[i], h, OnAlarm) && forall s :: !At(states[i], h, OnWait(s))
    ensures Awake(states[i], ts[|ts| - 1])
    ensures forall t :: t in ts ==> Prio(states[i], t) <= Prio(states[i], states[i].cpu.value)
  {
    hide IsTrace, HolderCovers, Guarded, Settled, Chain, MaxRuns;
    RunCovers(states, actions);
    TraceSettled(states, actions, i);
    NestedDonation(states[i], ts);
  }

  // ------------------------------------------- donors behind donations

  /** `t` has the pair `e` in its record. */
  ghost predicate Recorded(st: State, t: Tid, e: Entry) {
    t in st.threads && e in st.threads[t].record && e.master.Some?
  }

  /** Old donors still stand behind old pairs, and new pairs have donors. */
  lemma BackedStill(st: State, st': State)
    requires Backed(st)
    requires forall t, e :: Recorded(st', t, e) ==> Recorded(st, t, e) || exists d :: Backs(st', d, e)
    requires forall t, e, d :: Recorded(st, t, e) && Backs(st, d, e) ==> Backs(st', d, e)
    ensures Backed(st')
  {
    forall t, e | t in st'.threads && e in st'.threads[t].record && e.master.Some?
      ensures exists d :: Backs(st', d, e)
    {
      assert Recorded(st', t, e);
      if Recorded(st, t, e) {
        var d :| Backs(st, d, e);
        assert Backs(st', d, e);
      }
    }
  }

  /** A thread outside every wait loop drops pairs or changes its base. */
  lemma ShrinkBacked(st: State, st': State, c: Tid)
    requires Backed(st) && c in st.threads && st.threads[c].pc == Outside && st'.threads.Keys == st.threads.Keys
    requires forall e :: e in st'.threads[c].record && e.master.Some? ==> e in st.threads[c].record
    requires forall t :: t in st.threads && t != c ==> Same(st, st', t)
    ensures Backed(st')
  {
    forall t, e, d | Recorded(st, t, e) && Backs(st, d, e)
      ensures Backs(st', d, e)
    {
      assert Same(st, st', d);
    }
    assert forall t, e :: Recorded(st', t, e) ==> Recorded(st, t, e) by {
      assert forall t :: t in st.threads && t != c ==> Same(st, st', t);
    }
    BackedStill(st, st');
  }

  /** Taking `s` ends a wait that no recorded pair depends on. */
  lemma TakenBacked(st: State, st': State, c: Tid, s: Sid)
    requires Backed(st) && Taken(st, st', c, s) && st.threads[c].pc in {Outside, Waiting(s)}
    requires forall t, e :: Recorded(st, t, e) ==> e.master != Some(s)
    ensures Backed(st')
  {
    forall t, e, d | Recorded(st, t, e) && Backs(st, d, e)
      ensures Backs(st', d, e)
    {
      assert d != c;
    }
    BackedStill(st, st');
  }

  lemma FreeNotRecorded(st: State, s: Sid)
    requires Settled(st) && s in st.semas && st.semas[s].holder == None
    ensures forall t, e :: Recorded(st, t, e) ==> e.master != Some(s)
  {
    forall t, e | Recorded(st, t, e)
      ensures e.master != Some(s)
    {
      assert DonationsOwned(st, t);
    }
  }

  /** `c` starts or goes on waiting for `l`; the only new pair is its own. */
  lemma ParkedBacked(st: State, st': State, c: Tid, h: Tid, l: Sid)
    requires Backed(st) && c in st.threads && h in st.threads && c != h && st'.threads.Keys == st.threads.Keys
    requires st.threads[c].pc in {Outside, Waiting(l)} && st'.threads[c].pc == Waiting(l)
    requires st'.threads[c].record == st.threads[c].record
    requires Same(st, st', h) || DonatedTo(st, st', h, c, l)
    requires st'.threads[h].pc == st.threads[h].pc && Prio(st', h) >= Prio(st, h)
    requires forall t :: t in st.threads && t != c && t != h ==> Same(st, st', t)
    ensures Backed(st')
  {
    forall t, e, d | Recorded(st, t, e) && Backs(st, d, e)
      ensures Backs(st', d, e)
    {
      assert d != c && d != h ==> Same(st, st', d);
    }
    forall t, e | Recorded(st', t, e)
      ensures Recorded(st, t, e) || exists d :: Backs(st', d, e)
    {
      if t == h && !Same(st, st', h) {
        if e !in st.threads[h].record {
          assert e == Entry(Prio(st, c), Some(l));
          assert Backs(st', c, e);
        }
      } else if t != c {
        assert Same(st, st', t);
      }
    }
    BackedStill(st, st');
  }

  lemma ParkedPlainBacked(st: State, st': State, c: Tid, s: Sid)
    requires Backed(st) && c in st.threads && st'.threads.Keys == st.threads.Keys
    requires st.threads[c].pc in {Outside, Waiting(s)} && st'.threads[c].pc == Waiting(s)
    requires st'.threads[c].record == st.threads[c].record
    requires forall t :: t in st.threads && t != c ==> Same(st, st', t)
    ensures Backed(st')
  {
    forall t, e, d | Recorded(st, t, e) && Backs(st, d, e)
      ensures Backs(st', d, e)
    {
      assert d != c ==> Same(st, st', d);
    }
    forall t, e | Recorded(st', t, e)
      ensures Recorded(st, t, e)
    {
      assert t != c ==> Same(st, st', t);
    }
    BackedStill(st, st');
  }

  lemma AcquireBacked(st: State, l: Sid)
    requires Settled(st) && Backed(st) && st.cpu.value != IDLE
    requires l in st.semas && st.semas[l].isLock && st.semas[l].holder != Some(st.cpu.value)
    requires st.threads[st.cpu.value].pc in {Outside, Waiting(l)}
    requires HolderLinked(st, l)
    ensures st.cpu.value in st.threads && OnReady in st.queues && OnWait(l) in st.queues
    ensures Backed(AcquireLoop(st, l))
  {
    hide Settled, Inv, AcquireLoop, Backed, MaxRuns, Undisturbed, ThreadOk, DonationsOwned;
    CpuFacts(st);
    HolderFacts(st, l);
    var c := st.cpu.value;
    if st.semas[l].value > 0 {
      FreeNotRecorded(st, l);
      FreeAcquire(st, l);
      TakenBacked(st, AcquireLoop(st, l), c, l);
    } else {
      ContendedAcquire(st, l);
      var h, st' := st.semas[l].holder.value, AcquireLoop(st, l);
      NeverReady(st');
      forall t | t in st.threads && t != c && t != h
        ensures Same(st, st', t)
      {
        UndisturbedIsSame(st, st', t);
      }
      if Prio(st, h) >= Prio(st, c) {
        UndisturbedIsSame(st, st', h);
      }
      ParkedBacked(st, st', c, h, l);
    }
  }

  lemma DownBacked(st: State, s: Sid)
    requires Settled(st) && Backed(st) && st.cpu.value != IDLE && s in st.semas && !st.semas[s].isLock
    requires st.threads[st.cpu.value].pc in {Outside, Waiting(s)}
    ensures st.cpu.value in st.threads && OnWait(s) in st.queues && Backed(DownLoop(st, s))
  {
    hide Settled, Inv, DownLoop, Backed, MaxRuns, Undisturbed, ThreadOk, DonationsOwned;
    CpuFacts(st);
    PlainFacts(st, s);
    DownEffect(st, s);
    var c, st' := st.cpu.value, DownLoop(st, s);
    if st.semas[s].value > 0 {
      FreeNotRecorded(st, s);
      TakenBacked(st, st', c, s);
    } else {
      NeverReady(st');
      forall t | t in st.threads && t != c
        ensures Same(st, st', t)
      {
        UndisturbedIsSame(st, st', t);
      }
      ParkedPlainBacked(st, st', c, s);
    }
  }

  lemma ReleaseBacked(st: State, l: Sid)
    requires Settled(st) && Backed(st) && l in st.semas && st.semas[l].isLock
    requires st.semas[l].holder == Some(st.cpu.value)
    requires st.cpu.value in st.threads && st.threads[st.cpu.value].pc == Outside
    ensures OnWait(l) in st.queues && OnReady in st.queues && Backed(Release(st, l))
  {
    hide Settled, Inv, Release, Backed, MaxRuns, Without, Woken;
    CpuFacts(st);
    ReleaseEffect(st, l);
    WithoutMembers(st.threads[st.cpu.value].record, l);
    ShrinkBacked(st, Release(st, l), st.cpu.value);
  }

  lemma SetPriorityBacked(st: State, p: int)
    requires Settled(st) && Backed(st) && st.cpu.value in st.threads && st.threads[st.cpu.value].pc == Outside
    requires var r := st.threads[st.cpu.value].record;
             r != [] && PRI_MIN <= p && (|r| == 1 || p < r[1].priority)
    ensures Backed(SetPriority(st, p))
  {
    hide Settled, Inv, SetPriority, Backed, WellFormed;
    CpuFacts(st);
    SetPriorityEffect(st, p);
    var st' := SetPriority(st, p);
    forall t | t in st.threads && t != st.cpu.value
      ensures Same(st, st', t)
    {
      assert st'.threads[t] == st.threads[t];
    }
    ShrinkBacked(st, st', st.cpu.value);
  }

  /** No step leaves a donation behind without a donor. */
  lemma StepBacked(st: State, a: Action)
    requires Settled(st) && Enabled(st, a) && Backed(st)
    ensures Backed(Step(st, a))
  {
    hide Settled, Inv, AcquireLoop, DownLoop, Release, SetPriority, WakeOne, Yield, Sleep, Tick, Create, Exit,
      Backed, Quiet, ThreadOk, DonationsOwned;
    CpuFacts(st);
    match a {
      case AAcquire(l) => AcquireBacked(st, l);
      case AResume => ResumeBacked(st);
      case ARelease(l) => ReleaseBacked(st, l);
      case ADown(s) => DownBacked(st, s);
      case ASetPriority(p) => SetPriorityBacked(st, p);
      case _ =>
        QuietStep(st, a);
        QuietBacked(st, Step(st, a));
    }
  }

  lemma ResumeBacked(st: State)
    requires Settled(st) && Enabled(st, AResume) && Backed(st)
    ensures Backed(Step(st, AResume))
  {
    hide Settled, Inv, AcquireLoop, DownLoop, Backed;
    CpuFacts(st);
    var s := st.threads[st.cpu.value].pc.sema;
    if st.semas[s].isLock {
      AcquireBacked(st, s);
    } else {
      DownBacked(st, s);
    }
  }

  /** In every state of a run that starts so, no donation outlives its donor:
      each recorded pair has a thread in its lock's wait loop, at that
      priority or above. */
  lemma {:induction false} RunBacked(states: seq<State>, actions: seq<Action>, n: nat)
    requires IsTrace(states, actions) && Backed(states[0]) && n < |states|
    ensures Backed(states[n])
  {
    hide Settled, Step, Backed, KernelSteps.Enabled;
    if n > 0 {
      RunBacked(states, actions, n - 1);
      TraceSettled(states, actions, n - 1);
      assert Follows(states[n - 1], actions[n - 1], states[n - 1 + 1]);
      StepBacked(states[n - 1], actions[n - 1]);
    }
  }

  /** The state after boot is covered and backed. */
  lemma BootCovered(locks: set<Sid>, initial: map<Sid, nat>)
    ensures HolderCovers(Boot(locks, initial)) && Backed(Boot(locks, initial))
  {
    var st := Boot(locks, initial);
    assert forall t, e :: t in st.threads && e in st.threads[t].record ==> e.master == None;
  }
}
