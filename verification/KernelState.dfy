/** Threads, semaphores, locks and the queues they wait on, and the primitive
    state changes that src/threads/thread.c, src/threads/synch.c and
    src/devices/timer.c are built from. Code that runs with interrupts off is
    one step; the primitives here are the pieces of such a step. */
module KernelState {
  import opened Options
  import opened Donation

  type Tid = int
  /** A semaphore; a lock is named by its semaphore. */
  type Sid = int

  const IDLE: Tid := 0

  datatype Status = RUNNING | READY | BLOCKED

  /** Which list a thread's `elem` (or `alarm_elem`) is linked into. It is
      not the status: a donation puts a blocked thread on the ready list. */
  datatype Place = Nowhere | OnCpu | OnReady | OnWait(sema: Sid) | OnAlarm

  /** Whether a thread is inside the wait loop of a semaphore or lock. */
  datatype Pc = Outside | Waiting(sema: Sid)

  datatype Thread = Thread(
    record: Record,
    status: Status,
    pc: Pc,
    place: Place,
    wake: int,
    arrived: nat  // when it last joined a queue
  )

  datatype Sema = Sema(value: nat, isLock: bool, holder: Option<Tid>)

  /** `queues` holds the ready list, the alarm list and, for every semaphore,
      its list of waiters, each under the place it stands for. */
  datatype State = State(
    threads: map<Tid, Thread>,
    semas: map<Sid, Sema>,
    queues: map<Place, seq<Tid>>,
    cpu: Option<Tid>,
    ticks: int,
    clock: nat
  )

  // ------------------------------------------------------------ queues

  /** Queues are sorted by rank: larger priorities, or earlier wake-up
      times, go first. */
  function Rank(th: Thread, byWake: bool): int {
    if byWake then th.wake else if th.record == [] then 0 else -Current(th.record)
  }

  /** First by rank, then by arrival. */
  predicate Before(a: Thread, b: Thread, byWake: bool) {
    || Rank(a, byWake) < Rank(b, byWake)
    || (Rank(a, byWake) == Rank(b, byWake) && a.arrived < b.arrived)
  }

  ghost predicate Queue(ths: map<Tid, Thread>, q: seq<Tid>, byWake: bool) {
    && (forall i :: 0 <= i < |q| ==> q[i] in ths)
    && (forall i, j :: 0 <= i < j < |q| ==> Before(ths[q[i]], ths[q[j]], byWake))
  }

  /** list_insert_ordered: before the first element of larger rank. */
  function InsertOrdered(ths: map<Tid, Thread>, q: seq<Tid>, t: Tid, byWake: bool): (r: seq<Tid>)
    requires t in ths
    ensures forall x :: x in r <==> x in q || x == t
  {
    if q == [] then [t]
    else if q[0] in ths && Rank(ths[t], byWake) < Rank(ths[q[0]], byWake) then [t] + q
    else [q[0]] + InsertOrdered(ths, q[1..], t, byWake)
  }

  /** list_remove */
  function Remove(q: seq<Tid>, t: Tid): (r: seq<Tid>) {
    if q == [] then [] else if q[0] == t then q[1..] else [q[0]] + Remove(q[1..], t)
  }

  lemma {:induction false} InsertKeepsQueue(ths: map<Tid, Thread>, q: seq<Tid>, t: Tid, byWake: bool)
    requires t in ths && Queue(ths, q, byWake)
    requires forall i :: 0 <= i < |q| ==> ths[q[i]].arrived < ths[t].arrived
    ensures Queue(ths, InsertOrdered(ths, q, t, byWake), byWake)
  {
    if q != [] {
      if Rank(ths[t], byWake) < Rank(ths[q[0]], byWake) {
        var r := [t] + q;
        forall i, j | 0 <= i < j < |r|
          ensures Before(ths[r[i]], ths[r[j]], byWake)
        {
          assert r[j] == q[j - 1];
          assert j > 1 ==> Before(ths[q[0]], ths[q[j - 1]], byWake);
        }
      } else {
        var tail := InsertOrdered(ths, q[1..], t, byWake);
        InsertKeepsQueue(ths, q[1..], t, byWake);
        QueueCons(ths, q[0], tail, byWake) by {
          forall i | 0 <= i < |tail|
            ensures Before(ths[q[0]], ths[tail[i]], byWake)
          {
            if tail[i] != t {
              assert tail[i] in q[1..];
              var k :| 0 <= k < |q[1..]| && q[1..][k] == tail[i];
              assert q[k + 1] == tail[i];
            }
          }
        }
      }
    }
  }

  lemma QueueCons(ths: map<Tid, Thread>, x: Tid, q: seq<Tid>, byWake: bool)
    requires x in ths && Queue(ths, q, byWake)
    requires forall i :: 0 <= i < |q| ==> Before(ths[x], ths[q[i]], byWake)
    ensures Queue(ths, [x] + q, byWake)
  {
    var r := [x] + q;
    assert forall i :: 0 < i < |r| ==> r[i] == q[i - 1];
  }

  lemma {:induction false} RemoveFromQueue(ths: map<Tid, Thread>, q: seq<Tid>, t: Tid, byWake: bool)
    requires Queue(ths, q, byWake)
    ensures Queue(ths, Remove(q, t), byWake)
    ensures forall x :: x in Remove(q, t) <==> x in q && x != t
  {
    if q != [] {
      assert forall x :: x in q <==> x == q[0] || x in q[1..];
      if q[0] == t {
        forall i | 0 <= i < |q[1..]|
          ensures q[1..][i] != t
        {
          assert Before(ths[q[0]], ths[q[i + 1]], byWake);
        }
      } else {
        RemoveFromQueue(ths, q[1..], t, byWake);
        var tail := Remove(q[1..], t);
        QueueCons(ths, q[0], tail, byWake) by {
          forall i | 0 <= i < |tail|
            ensures Before(ths[q[0]], ths[tail[i]], byWake)
          {
            assert tail[i] in q[1..];
            var k :| 0 <= k < |q[1..]| && q[1..][k] == tail[i];
            assert q[k + 1] == tail[i];
          }
        }
      }
    }
  }

  /** A queue only looks at the rank and arrival of its members. */
  lemma QueueFrame(ths: map<Tid, Thread>, ths': map<Tid, Thread>, q: seq<Tid>, byWake: bool)
    requires Queue(ths, q, byWake)
    requires forall i :: 0 <= i < |q| ==>
      q[i] in ths' && Rank(ths'[q[i]], byWake) == Rank(ths[q[i]], byWake) && ths'[q[i]].arrived == ths[q[i]].arrived
    ensures Queue(ths', q, byWake)
  {
    forall i, j | 0 <= i < j < |q|
      ensures Before(ths'[q[i]], ths'[q[j]], byWake)
    {
      assert Before(ths[q[i]], ths[q[j]], byWake);
    }
  }

  // --------------------------------------------------------- invariant

  ghost predicate At(st: State, t: Tid, p: Place) {
    t in st.threads && st.threads[t].place == p
  }

  /** The lists there are: ready, alarm and one per semaphore. */
  ghost predicate Lists(st: State) {
    && OnReady in st.queues && OnAlarm in st.queues && OnCpu !in st.queues && Nowhere !in st.queues
    && (forall s :: OnWait(s) in st.queues <==> s in st.semas)
  }

  /** Every list holds exactly the threads placed on it, so no thread is on
      two of them. */
  ghost predicate Places(st: State) {
    && (forall p, t :: p in st.queues ==> (t in st.queues[p] <==> At(st, t, p)))
    && (forall t :: t in st.threads ==> st.threads[t].place in st.queues.Keys + {OnCpu, Nowhere})
    && (st.cpu.Some? ==> At(st, st.cpu.value, OnCpu))
    && (forall t :: At(st, t, OnCpu) ==> st.cpu == Some(t))
  }

  /** Every list is sorted, and first in first out within a rank. */
  ghost predicate Queues(st: State) {
    && (forall p :: p in st.queues ==> Queue(st.threads, st.queues[p], p == OnAlarm))
    && (forall t :: t in st.threads ==> st.threads[t].arrived < st.clock)
  }

  ghost predicate ThreadOk(st: State, t: Tid)
    requires t in st.threads
  {
    var th := st.threads[t];
    && WellFormed(th.record)
    && (th.place == OnCpu ==> th.status == RUNNING)
    && (th.place.OnWait? ==> th.status == BLOCKED && th.pc == Waiting(th.place.sema))
    && (th.place == OnAlarm ==> th.status == BLOCKED && th.pc == Outside)
    && (th.pc.Waiting? ==> th.pc.sema in st.semas && st.semas[th.pc.sema].holder != Some(t))
    && (t == IDLE ==> th.place in {OnCpu, Nowhere} && th.pc == Outside)
  }

  /** A donation is recorded only while its lock is held. */
  ghost predicate DonationsOwned(st: State, t: Tid)
    requires t in st.threads
  {
    forall e :: e in st.threads[t].record && e.master.Some? ==>
      e.master.value in st.semas && st.semas[e.master.value].holder == Some(t)
  }

  /** A lock's value is 0 exactly while it has a holder, and never above 1. */
  ghost predicate LockOk(st: State, s: Sid)
    requires s in st.semas
  {
    var m := st.semas[s];
    && (m.isLock ==> m.value <= 1 && (m.value == 0 <==> m.holder.Some?))
    && (!m.isLock ==> m.holder == None)
    && (m.holder.Some? ==> m.holder.value in st.threads && m.holder.value != IDLE)
  }

  /** The threads that will test the value of `s` again without being woken. */
  ghost function Retriers(st: State, s: Sid): set<Tid> {
    set t | t in st.threads && st.threads[t].pc == Waiting(s) && st.threads[t].place != OnWait(s)
  }

  /** No wake-up is lost: while threads wait on `s`, each unit of its value
      is matched by a thread that is going to try for it. */
  ghost predicate WakeupOk(st: State, s: Sid)
    requires s in st.semas && OnWait(s) in st.queues
  {
    st.queues[OnWait(s)] != [] ==> st.semas[s].value <= |Retriers(st, s)|
  }

  /** The part of the invariant about lists. */
  ghost predicate ListInv(st: State) {
    Lists(st) && Places(st) && Queues(st)
  }

  /** The part of the invariant about threads and semaphores. */
  ghost predicate SyncInv(st: State)
    requires Lists(st)
  {
    && IDLE in st.threads
    && (forall t :: t in st.threads ==> ThreadOk(st, t))
    && (forall t :: t in st.threads ==> DonationsOwned(st, t))
    && (forall s :: s in st.semas ==> LockOk(st, s))
    && (forall s :: s in st.semas ==> WakeupOk(st, s))
  }

  ghost predicate Inv(st: State) {
    ListInv(st) && SyncInv(st)
  }

  // -------------------------------------------------------- primitives

  /** list_remove of `t`'s element, or taking it off the CPU. */
  function Unlink(st: State, t: Tid): State
    requires t in st.threads
  {
    var p := st.threads[t].place;
    st.(threads := st.threads[t := st.threads[t].(place := Nowhere)],
        queues := if p in st.queues then st.queues[p := Remove(st.queues[p], t)] else st.queues,
        cpu := if p == OnCpu then None else st.cpu)
  }

  lemma UnlinkLists(st: State, t: Tid)
    requires ListInv(st) && t in st.threads
    ensures ListInv(Unlink(st, t))
  {
    UnlinkPlaces(st, t);
    UnlinkQueues(st, t);
  }

  lemma UnlinkPlaces(st: State, t: Tid)
    requires ListInv(st) && t in st.threads
    ensures Lists(Unlink(st, t)) && Places(Unlink(st, t))
  {
    hide Queue;
    var st' := Unlink(st, t);
    var p := st.threads[t].place;
    if p in st.queues {
      RemoveFromQueue(st.threads, st.queues[p], t, p == OnAlarm);
    }
    assert At(st, t, p);
    assert forall x, q :: At(st', x, q) <==> if x == t then q == Nowhere else At(st, x, q);
  }

  lemma UnlinkQueues(st: State, t: Tid)
    requires ListInv(st) && t in st.threads
    ensures Queues(Unlink(st, t))
  {
    var st' := Unlink(st, t);
    forall p | p in st.queues
      ensures Queue(st'.threads, st'.queues[p], p == OnAlarm)
    {
      RemoveFromQueue(st.threads, st.queues[p], t, p == OnAlarm);
      QueueFrame(st.threads, st'.threads, st'.queues[p], p == OnAlarm);
    }
  }

  /** Fewer waiting, or more retrying, loses no wake-up. */
  lemma RetriersGrow(st: State, st': State, s: Sid)
    requires Retriers(st, s) <= Retriers(st', s)
    ensures |Retriers(st, s)| <= |Retriers(st', s)|
  {
    SubsetSize(Retriers(st, s), Retriers(st', s));
  }

  lemma SubsetSize(a: set<Tid>, b: set<Tid>)
    requires a <= b
    ensures |a| <= |b|
  {
    assert b == a + (b - a);
  }

  /** Only `t` changed, and `t` is fine. */
  lemma SyncFrame(st: State, st': State, t: Tid)
    requires Inv(st) && ListInv(st') && t in st.threads
    requires st'.semas == st.semas && st'.threads.Keys == st.threads.Keys
    requires forall x :: x in st.threads && x != t ==> st'.threads[x] == st.threads[x]
    requires ThreadOk(st', t) && DonationsOwned(st', t)
    requires forall s :: s in st.semas ==> WakeupOk(st', s)
    ensures Inv(st')
  {
    hide Queues, Places, WellFormed, WakeupOk;
    forall x | x in st'.threads && x != t
      ensures ThreadOk(st', x) && DonationsOwned(st', x)
    {
      assert ThreadOk(st, x) && DonationsOwned(st, x);
    }
    forall s | s in st'.semas
      ensures LockOk(st', s)
    {
      assert LockOk(st, s);
    }
  }

  lemma UnlinkSync(st: State, t: Tid)
    requires Inv(st) && t in st.threads
    ensures Inv(Unlink(st, t))
  {
    var st' := Unlink(st, t);
    UnlinkLists(st, t);
    hide Queues, Places, WellFormed;
    forall s | s in st.semas
      ensures WakeupOk(st', s)
    {
      assert WakeupOk(st, s);
      assert st'.queues[OnWait(s)] != [] ==> st.queues[OnWait(s)] != [];
      RetriersGrow(st, st', s);
    }
    assert ThreadOk(st, t) && DonationsOwned(st, t);
    SyncFrame(st, st', t);
  }

  /** list_insert_ordered of `t`'s element into the list at `p`. */
  function Enqueue(st: State, t: Tid, p: Place): State
    requires t in st.threads && p in st.queues
  {
    var ths := st.threads[t := st.threads[t].(place := p, arrived := st.clock)];
    st.(threads := ths,
        queues := st.queues[p := InsertOrdered(ths, st.queues[p], t, p == OnAlarm)],
        clock := st.clock + 1)
  }

  lemma EnqueuePlaces(st: State, t: Tid, p: Place)
    requires ListInv(st) && At(st, t, Nowhere) && p in st.queues
    ensures Lists(Enqueue(st, t, p)) && Places(Enqueue(st, t, p))
  {
    hide Queue;
    var st' := Enqueue(st, t, p);
    assert forall x, q :: At(st', x, q) <==> if x == t then q == p else At(st, x, q);
  }

  lemma EnqueueQueues(st: State, t: Tid, p: Place)
    requires ListInv(st) && At(st, t, Nowhere) && p in st.queues
    ensures Queues(Enqueue(st, t, p))
  {
    var st' := Enqueue(st, t, p);
    forall q | q in st.queues
      ensures Queue(st'.threads, st'.queues[q], q == OnAlarm)
    {
      NotQueued(st, t, q);
      QueueFrame(st.threads, st'.threads, st.queues[q], q == OnAlarm);
      InsertKeepsQueue(st'.threads, st.queues[q], t, q == OnAlarm);
    }
  }

  lemma NotQueued(st: State, t: Tid, q: Place)
    requires ListInv(st) && t in st.threads && st.threads[t].place != q && q in st.queues
    ensures forall i :: 0 <= i < |st.queues[q]| ==> st.queues[q][i] != t && st.queues[q][i] in st.threads
  {
    forall i | 0 <= i < |st.queues[q]|
      ensures st.queues[q][i] != t && st.queues[q][i] in st.threads
    {
      assert st.queues[q][i] in st.queues[q];
      assert At(st, st.queues[q][i], q);
    }
  }

  /** What it takes to join a list without harm: a waiter has found the value
      0 and is in the wait loop. */
  ghost predicate MayJoin(st: State, t: Tid, p: Place)
    requires t in st.threads
  {
    var th := st.threads[t];
    && th.place == Nowhere && t != IDLE
    && match p
       case OnReady => true
       case OnAlarm => th.status == BLOCKED && th.pc == Outside
       case OnWait(s) => s in st.semas && st.semas[s].value == 0 && th.status == BLOCKED && th.pc == Waiting(s)
       case _ => false
  }

  lemma EnqueueSync(st: State, t: Tid, p: Place)
    requires Inv(st) && t in st.threads && MayJoin(st, t, p)
    ensures Inv(Enqueue(st, t, p))
  {
    assert p in st.queues;
    var st' := Enqueue(st, t, p);
    EnqueuePlaces(st, t, p);
    EnqueueQueues(st, t, p);
    hide Queues, Places, WellFormed, WakeupOk, InsertOrdered;
    forall s | s in st.semas
      ensures OnWait(s) in st'.queues && WakeupOk(st', s)
    {
      EnqueueWakeup(st, t, p, s);
    }
    assert ThreadOk(st, t) && DonationsOwned(st, t);
    SyncFrame(st, st', t);
  }

  lemma EnqueueWakeup(st: State, t: Tid, p: Place, s: Sid)
    requires Inv(st) && t in st.threads && p in st.queues && MayJoin(st, t, p) && s in st.semas
    ensures OnWait(s) in Enqueue(st, t, p).queues && WakeupOk(Enqueue(st, t, p), s)
  {
    hide Queues, Places, ThreadOk, DonationsOwned, LockOk, InsertOrdered;
    var st' := Enqueue(st, t, p);
    assert WakeupOk(st, s);
    if p != OnWait(s) {
      RetriersGrow(st, st', s);
    }
  }

  /** thread_schedule_tail: `t` gets the CPU. */
  function Run(st: State, t: Tid): State
    requires t in st.threads
  {
    st.(threads := st.threads[t := st.threads[t].(place := OnCpu, status := RUNNING)], cpu := Some(t))
  }

  lemma RunSync(st: State, t: Tid)
    requires Inv(st) && At(st, t, Nowhere) && st.cpu == None
    ensures Inv(Run(st, t))
  {
    var st' := Run(st, t);
    ChangeLists(st, st', t);
    hide Queues, Places, WellFormed;
    forall s | s in st.semas
      ensures WakeupOk(st', s)
    {
      assert WakeupOk(st, s);
      RetriersGrow(st, st', s);
    }
    assert ThreadOk(st, t) && DonationsOwned(st, t);
    SyncFrame(st, st', t);
  }

  /** Changing a thread that is on no list leaves the lists in order. */
  lemma ChangeLists(st: State, st': State, t: Tid)
    requires ListInv(st) && t in st.threads && st.threads[t].place in {Nowhere, OnCpu}
    requires st'.queues == st.queues && st'.semas.Keys == st.semas.Keys && st'.clock == st.clock
    requires st'.threads.Keys == st.threads.Keys
    requires forall x :: x in st.threads && x != t ==> st'.threads[x] == st.threads[x]
    requires st'.threads[t].arrived == st.threads[t].arrived
    requires (st'.threads[t].place == st.threads[t].place && st'.cpu == st.cpu)
          || (st'.threads[t].place == OnCpu && st.cpu == None && st'.cpu == Some(t))
    ensures ListInv(st')
  {
    assert At(st, t, st.threads[t].place);
    assert forall x, q :: x != t ==> (At(st', x, q) <==> At(st, x, q));
    forall q | q in st.queues
      ensures Queue(st'.threads, st'.queues[q], q == OnAlarm)
    {
      NotQueued(st, t, q);
      QueueFrame(st.threads, st'.threads, st.queues[q], q == OnAlarm);
    }
  }

  /** Rewrites fields of a thread that is on no list. */
  function Change(st: State, t: Tid, th: Thread): State {
    st.(threads := st.threads[t := th])
  }

  lemma ChangeSync(st: State, t: Tid, th: Thread)
    requires Inv(st) && t in st.threads && st.threads[t].place in {Nowhere, OnCpu}
    requires th.place == st.threads[t].place && th.arrived == st.threads[t].arrived
    requires th.pc == st.threads[t].pc || st.threads[t].pc == Outside
    requires ThreadOk(Change(st, t, th), t) && DonationsOwned(Change(st, t, th), t)
    ensures Inv(Change(st, t, th))
  {
    var st' := Change(st, t, th);
    ChangeLists(st, st', t);
    hide Queues, Places, WellFormed;
    forall s | s in st.semas
      ensures WakeupOk(st', s)
    {
      assert WakeupOk(st, s);
      RetriersGrow(st, st', s);
    }
    SyncFrame(st, st', t);
  }

  /** The successful end of a wait loop: `t` takes one unit of `s`, and the
      lock if it is one. */
  function Take(st: State, t: Tid, s: Sid): State
    requires t in st.threads && s in st.semas && st.semas[s].value > 0
  {
    var m := st.semas[s];
    st.(threads := st.threads[t := st.threads[t].(pc := Outside)],
        semas := st.semas[s := m.(value := m.value - 1, holder := if m.isLock then Some(t) else None)])
  }

  lemma TakeSync(st: State, t: Tid, s: Sid)
    requires Inv(st) && At(st, t, OnCpu) && t != IDLE
    requires s in st.semas && st.semas[s].value > 0
    requires st.threads[t].pc in {Outside, Waiting(s)}
    ensures Inv(Take(st, t, s))
  {
    hide Queues, Places, ThreadOk, DonationsOwned, LockOk, WakeupOk, WellFormed;
    ChangeLists(st, Take(st, t, s), t);
    TakeSemas(st, t, s);
    TakeThreads(st, t, s);
  }

  lemma TakeSemas(st: State, t: Tid, s: Sid)
    requires Inv(st) && At(st, t, OnCpu) && t != IDLE
    requires s in st.semas && st.semas[s].value > 0
    requires st.threads[t].pc in {Outside, Waiting(s)}
    ensures var st' := Take(st, t, s);
      forall x :: x in st'.semas ==> OnWait(x) in st'.queues && LockOk(st', x) && WakeupOk(st', x)
  {
    hide Queues, Places, ThreadOk, DonationsOwned, WakeupOk;
    var st' := Take(st, t, s);
    forall x | x in st'.semas
      ensures LockOk(st', x) && WakeupOk(st', x)
    {
      assert LockOk(st, x);
      TakeWakeup(st, t, s, x);
    }
  }

  lemma TakeThreads(st: State, t: Tid, s: Sid)
    requires Inv(st) && At(st, t, OnCpu) && t != IDLE
    requires s in st.semas && st.semas[s].value > 0
    requires st.threads[t].pc in {Outside, Waiting(s)}
    ensures var st' := Take(st, t, s);
      forall x :: x in st'.threads ==> ThreadOk(st', x) && DonationsOwned(st', x)
  {
    hide Queues, Places, WellFormed, WakeupOk;
    var st' := Take(st, t, s);
    assert LockOk(st, s);
    forall x | x in st'.threads
      ensures ThreadOk(st', x) && DonationsOwned(st', x)
    {
      assert ThreadOk(st, x) && DonationsOwned(st, x);
    }
  }

  lemma TakeWakeup(st: State, t: Tid, s: Sid, x: Sid)
    requires Lists(st) && At(st, t, OnCpu)
    requires s in st.semas && st.semas[s].value > 0
    requires st.threads[t].pc in {Outside, Waiting(s)}
    requires x in st.semas && WakeupOk(st, x)
    ensures WakeupOk(Take(st, t, s), x)
  {
    var st' := Take(st, t, s);
    if x == s {
      assert Retriers(st', s) == Retriers(st, s) - {t};
    } else {
      assert Retriers(st', x) == Retriers(st, x);
    }
  }

  /** sema_up's increment; a lock becomes free. */
  function Put(st: State, s: Sid): State
    requires s in st.semas
  {
    st.(semas := st.semas[s := st.semas[s].(value := st.semas[s].value + 1, holder := None)])
  }

  lemma PutSync(st: State, s: Sid)
    requires Inv(st) && s in st.semas
    requires st.semas[s].isLock ==> st.semas[s].value == 0
    requires forall t, e :: t in st.threads && e in st.threads[t].record ==> e.master != Some(s)
    requires st.queues[OnWait(s)] == [] || st.semas[s].value < |Retriers(st, s)|
    ensures Inv(Put(st, s))
  {
    var st' := Put(st, s);
    assert forall x, q :: At(st', x, q) <==> At(st, x, q);
    assert ListInv(st');
    hide Queues, Places, WellFormed;
    forall x | x in st'.semas
      ensures LockOk(st', x) && WakeupOk(st', x)
    {
      assert LockOk(st, x) && WakeupOk(st, x);
      assert Retriers(st', x) == Retriers(st, x);
    }
    forall x | x in st'.threads
      ensures ThreadOk(st', x) && DonationsOwned(st', x)
    {
      assert ThreadOk(st, x) && DonationsOwned(st, x);
    }
  }

  /** Moves `t` from wherever it is to the list at `p`, with the fields of
      `th` changed on the way. */
  function Requeue(st: State, t: Tid, th: Thread, p: Place): State
    requires t in st.threads && p in st.queues
  {
    var st1 := Unlink(st, t);
    Enqueue(Change(st1, t, th.(place := Nowhere)), t, p)
  }

  /** What `th` must be like for that. */
  ghost predicate MayRequeue(st: State, t: Tid, th: Thread, p: Place)
    requires t in st.threads
  {
    && t != IDLE
    && th.arrived == st.threads[t].arrived
    && (th.pc == st.threads[t].pc || st.threads[t].pc == Outside)
    && WellFormed(th.record)
    && (forall e :: e in th.record && e.master.Some? ==>
         e.master.value in st.semas && st.semas[e.master.value].holder == Some(t))
    && (th.pc.Waiting? ==> th.pc.sema in st.semas && st.semas[th.pc.sema].holder != Some(t))
    && match p
       case OnReady => true
       case OnAlarm => th.status == BLOCKED && th.pc == Outside
       case OnWait(s) => s in st.semas && st.semas[s].value == 0 && th.status == BLOCKED && th.pc == Waiting(s)
       case _ => false
  }

  /** The first half: `t` is off every list, with its fields changed. */
  lemma DetachSync(st: State, t: Tid, th: Thread, p: Place)
    requires Inv(st) && t in st.threads && p in st.queues && MayRequeue(st, t, th, p)
    ensures var st2 := Change(Unlink(st, t), t, th.(place := Nowhere));
      && Inv(st2) && t in st2.threads && MayJoin(st2, t, p)
  {
    UnlinkSync(st, t);
    hide Inv, WellFormed, InsertOrdered, Remove;
    var st1 := Unlink(st, t);
    ChangeSync(st1, t, th.(place := Nowhere));
  }

  lemma RequeueSync(st: State, t: Tid, th: Thread, p: Place)
    requires Inv(st) && t in st.threads && p in st.queues && MayRequeue(st, t, th, p)
    ensures var st' := Requeue(st, t, th, p);
      && Inv(st') && At(st', t, p)
      && (forall x, q :: x != t ==> (At(st', x, q) <==> At(st, x, q)))
      && st'.cpu == (if st.threads[t].place == OnCpu then None else st.cpu)
  {
    hide Inv, WellFormed, InsertOrdered, Remove, MayJoin, MayRequeue;
    DetachSync(st, t, th, p);
    EnqueueSync(Change(Unlink(st, t), t, th.(place := Nowhere)), t, p);
  }

  /** thread_unblock: `t`, blocked on a list or just created, becomes ready. */
  function Unblock(st: State, t: Tid): State
    requires t in st.threads && OnReady in st.queues
  {
    Requeue(st, t, st.threads[t].(status := READY), OnReady)
  }

  lemma UnblockSync(st: State, t: Tid)
    requires Inv(st) && t in st.threads && t != IDLE && st.threads[t].status == BLOCKED
    ensures Inv(Unblock(st, t)) && At(Unblock(st, t), t, OnReady)
    ensures forall x, q :: x != t ==> (At(Unblock(st, t), x, q) <==> At(st, x, q))
    ensures Unblock(st, t).cpu == st.cpu
  {
    assert ThreadOk(st, t) && DonationsOwned(st, t);
    RequeueSync(st, t, st.threads[t].(status := READY), OnReady);
  }

  /** Unblocking a waiter turns it into a retrier. */
  lemma UnblockRetriers(st: State, t: Tid, s: Sid)
    requires t in st.threads && OnReady in st.queues
    ensures Retriers(st, s) <= Retriers(Unblock(st, t), s)
    ensures At(st, t, OnWait(s)) && st.threads[t].pc == Waiting(s) ==>
      |Retriers(st, s)| < |Retriers(Unblock(st, t), s)|
  {
    hide InsertOrdered, Remove;
    var st' := Unblock(st, t);
    assert forall x :: x in st.threads && x != t ==> st'.threads[x] == st.threads[x];
    if At(st, t, OnWait(s)) && st.threads[t].pc == Waiting(s) {
      SubsetSize(Retriers(st, s) + {t}, Retriers(st', s));
    }
  }
}
