/** Every step of the scheduler keeps every invariant. */
module SchedulingSteps {
  import opened Common
  import opened Scheduling

  // ----- the invariants through schedule() -----

  /** Just before schedule(): no thread is RUNNING. */
  ghost predicate NoneRunning<T, S>(st: State<T, S>) {
    forall t :: t in st.threads ==> st.threads[t].status != Running
  }

  lemma DispatchWellFormed<T, S>(st: State<T, S>)
    requires WellFormed(st)
    ensures WellFormed(Dispatch(st))
  {
    if st.ready != [] {
      var k := Top(st.ready, st.threads);
      assert st.ready[k] in st.ready;
    }
  }

  lemma DispatchReady<T, S>(st: State<T, S>)
    requires WellFormed(st) && WellFormed(Dispatch(st)) && ReadyOk(st) && NoneRunning(st) && AllOk(st) && st.threads[st.idle].status != Dying
    ensures ReadyOk(Dispatch(st)) && OneRunning(Dispatch(st)) && AllOk(Dispatch(st))
  {
    hide Top, Without, NoDuplicates;
    if st.ready != [] {
      var k := Top(st.ready, st.threads);
      assert st.ready[k] in st.ready;
      WithoutOne(st.ready, k);
    }
  }

  /** A thread that is not waiting, before or after, does not matter to a queue. */
  lemma QueueUnmoved<T, S>(waiters: seq<T>, threads: map<T, Thread<S>>, t: T, th: Thread<S>, s: S)
    requires QueueOk(waiters, threads, s) && !Waits(threads, t, s) && !(th.status == Blocked && th.activity == Downing(s, false))
    ensures QueueOk(waiters, threads[t := th], s)
  {
    hide NoDuplicates;
  }

  lemma DispatchWaiters<T, S>(st: State<T, S>)
    requires WellFormed(st) && WellFormed(Dispatch(st)) && ReadyOk(st) && WaitersOk(st)
    ensures WaitersOk(Dispatch(st))
  {
    hide Top, Without, QueueOk, NoDuplicates;
    var t := st.idle;
    if st.ready != [] {
      t := st.ready[Top(st.ready, st.threads)];
      assert t in st.ready;
    }
    forall s | s in st.semas
      ensures QueueOk(st.semas[s].waiters, Dispatch(st).threads, s)
    {
      QueueUnmoved(st.semas[s].waiters, st.threads, t, st.threads[t].(status := Running), s);
    }
  }

  /** The same states up to status, priority and the lists of the scheduler. */
  ghost predicate SameCore<T, S>(st: State<T, S>, st1: State<T, S>) {
    && st1.threads.Keys == st.threads.Keys && st1.semas == st.semas && st1.holder == st.holder && st1.idle in st1.threads
    && forall t :: t in st.threads ==>
         st1.threads[t].ticks == st.threads[t].ticks && st1.threads[t].sema == st.threads[t].sema && st1.threads[t].activity == st.threads[t].activity
  }

  lemma SameWoken<T, S>(st: State<T, S>, st1: State<T, S>)
    requires SameCore(st, st1) && WakeupsOk(st)
    ensures WakeupsOk(st1)
  {
    forall s
      ensures Woken(st1.threads, s) == Woken(st.threads, s)
    {
    }
  }

  lemma SameInside<T, S>(st: State<T, S>, st1: State<T, S>)
    requires SameCore(st, st1) && LocksOk(st)
    ensures LocksOk(st1)
  {
    forall s
      ensures Inside(st1.threads, st1.holder, s) == Inside(st.threads, st.holder, s)
      ensures HolderOk(st.threads, st.holder, s) ==> HolderOk(st1.threads, st1.holder, s)
    {
    }
  }

  lemma SameSleep<T, S>(st: State<T, S>, st1: State<T, S>)
    requires WellFormed(st) && WellFormed(st1) && SameCore(st, st1) && SleepOk(st)
    ensures SleepOk(st1)
  {
  }

  lemma SameCoreOk<T, S>(st: State<T, S>, st1: State<T, S>)
    requires WellFormed(st) && WellFormed(st1) && Core(st) && SameCore(st, st1)
    ensures Core(st1)
  {
    hide WakeupsOk, LocksOk, SleepOk;
    SameWoken(st, st1);
    SameInside(st, st1);
    SameSleep(st, st1);
  }

  lemma DispatchCore<T, S>(st: State<T, S>)
    requires WellFormed(st)
    ensures SameCore(st, Dispatch(st))
  {
  }

  // ----- the lists, step by step -----

  /** What schedule() needs of the lists, and what it leaves. */
  ghost predicate Scheduled<T, S>(st: State<T, S>, switching: bool)
    requires WellFormed(st)
  {
    ReadyOk(st) && WaitersOk(st) && AllOk(st) && if switching then NoneRunning(st) else OneRunning(st)
  }

  lemma DispatchLists<T, S>(st: State<T, S>)
    requires WellFormed(st) && Scheduled(st, true)
    ensures WellFormed(Dispatch(st)) && Scheduled(Dispatch(st), false)
  {
    hide WellFormed, ReadyOk, AllOk, NoneRunning, OneRunning, Dispatch;
    DispatchWellFormed(st);
    DispatchReady(st);
    DispatchWaiters(st);
  }

  /** Only the running thread's activity and the counts of semaphores differ. */
  ghost predicate SameLists<T, S>(st: State<T, S>, st1: State<T, S>) {
    && st1.threads.Keys == st.threads.Keys && st1.semas.Keys == st.semas.Keys
    && st1.ready == st.ready && st1.all == st.all && st1.running == st.running && st1.idle == st.idle
    && (forall s :: s in st.semas ==> st1.semas[s].waiters == st.semas[s].waiters)
    && (forall t :: t in st.threads ==>
          st1.threads[t].status == st.threads[t].status && (t != st.running || t == st.idle ==> st1.threads[t].activity == st.threads[t].activity))
  }

  /** The part of Scheduled that ignores the waiters of semaphores. */
  ghost predicate Queues<T, S>(st: State<T, S>, switching: bool)
    requires WellFormed(st)
  {
    ReadyOk(st) && AllOk(st) && if switching then NoneRunning(st) else OneRunning(st)
  }

  lemma SameQueues<T, S>(st: State<T, S>, st1: State<T, S>)
    requires WellFormed(st) && WellFormed(st1) && SameLists(st, st1) && Queues(st, false)
    ensures Queues(st1, false)
  {
    hide NoDuplicates, SemasKnown;
  }

  lemma SameWaiters<T, S>(st: State<T, S>, st1: State<T, S>)
    requires WellFormed(st) && WellFormed(st1) && SameLists(st, st1) && OneRunning(st) && WaitersOk(st)
    ensures WaitersOk(st1)
  {
    hide NoDuplicates, QueueOk;
    forall s | s in st.semas
      ensures QueueOk(st1.semas[s].waiters, st1.threads, s)
    {
      QueueSame(st.semas[s].waiters, st.threads, st1.threads, s);
    }
  }

  lemma QueueSame<T, S>(waiters: seq<T>, threads: map<T, Thread<S>>, threads1: map<T, Thread<S>>, s: S)
    requires QueueOk(waiters, threads, s) && threads1.Keys == threads.Keys
    requires forall t :: t in threads ==> (Waits(threads1, t, s) <==> Waits(threads, t, s))
    ensures QueueOk(waiters, threads1, s)
  {
    hide NoDuplicates;
  }

  lemma SameListsOk<T, S>(st: State<T, S>, st1: State<T, S>)
    requires WellFormed(st) && WellFormed(st1) && SameLists(st, st1) && Scheduled(st, false)
    ensures Scheduled(st1, false)
  {
    hide WellFormed, ReadyOk, WaitersOk, AllOk, OneRunning, SameLists;
    SameQueues(st, st1);
    SameWaiters(st, st1);
  }

  lemma YieldedQueues<T, S>(st: State<T, S>)
    requires WellFormed(st) && WellFormed(Yielded(st)) && Queues(st, false) && st.threads[st.idle].status != Dying
    ensures Queues(Yielded(st), true)
  {
    hide NoDuplicates, SemasKnown;
    if st.running != st.idle {
      PushedBack(st.ready, st.running);
    }
  }

  lemma YieldedWaiters<T, S>(st: State<T, S>)
    requires WellFormed(st) && WellFormed(Yielded(st)) && WaitersOk(st) && OneRunning(st)
    ensures WaitersOk(Yielded(st))
  {
    hide NoDuplicates, QueueOk;
    forall s | s in st.semas
      ensures QueueOk(st.semas[s].waiters, Yielded(st).threads, s)
    {
      QueueUnmoved(st.semas[s].waiters, st.threads, st.running, st.threads[st.running].(status := Ready), s);
    }
  }

  lemma YieldedLists<T, S>(st: State<T, S>)
    requires WellFormed(st) && WellFormed(Yielded(st)) && Scheduled(st, false)
    ensures Scheduled(Yielded(st), true)
  {
    hide WellFormed, ReadyOk, AllOk, OneRunning, NoneRunning, Yielded;
    YieldedQueues(st);
    YieldedWaiters(st);
  }

  lemma IdleQueues<T, S>(st: State<T, S>)
    requires WellFormed(st) && Queues(st, false) && st.running == st.idle
    ensures Queues(SetStatus(st, st.running, Blocked), true)
  {
    hide NoDuplicates, SemasKnown;
  }

  lemma IdleWaiters<T, S>(st: State<T, S>)
    requires WellFormed(st) && WaitersOk(st) && OneRunning(st) && st.running == st.idle
    ensures WaitersOk(SetStatus(st, st.running, Blocked))
  {
    hide NoDuplicates, QueueOk;
    forall s | s in st.semas
      ensures QueueOk(st.semas[s].waiters, SetStatus(st, st.running, Blocked).threads, s)
    {
      QueueUnmoved(st.semas[s].waiters, st.threads, st.running, st.threads[st.running].(status := Blocked), s);
    }
  }

  lemma ExitQueues<T, S>(st: State<T, S>)
    requires WellFormed(st) && Queues(st, false) && Enabled(st, Exit) && WellFormed(Moved(st, Exit))
    ensures Queues(Moved(st, Exit), true)
  {
    hide NoDuplicates, Position, Without, SemasKnown;
    WithoutOne(st.all, Position(st.all, st.running));
  }

  lemma ExitWaiters<T, S>(st: State<T, S>)
    requires WellFormed(st) && WaitersOk(st) && OneRunning(st) && Enabled(st, Exit) && WellFormed(Moved(st, Exit))
    ensures WaitersOk(Moved(st, Exit))
  {
    hide NoDuplicates, Position, Without, QueueOk;
    forall s | s in st.semas
      ensures QueueOk(st.semas[s].waiters, Moved(st, Exit).threads, s)
    {
      QueueUnmoved(st.semas[s].waiters, st.threads, st.running, st.threads[st.running].(status := Dying), s);
    }
  }

  lemma CreateQueues<T, S>(st: State<T, S>, t: T, p: int, s: S)
    requires WellFormed(st) && Queues(st, false) && Enabled(st, Create(t, p, s)) && WellFormed(Moved(st, Create(t, p, s)))
    ensures Queues(Moved(st, Create(t, p, s)), false)
  {
    hide NoDuplicates, SemasKnown;
    PushedBack(st.all, t);
  }

  lemma UnblockQueues<T, S>(st: State<T, S>, t: T)
    requires WellFormed(st) && Queues(st, false) && Enabled(st, Unblock(t)) && WellFormed(Moved(st, Unblock(t)))
    ensures Queues(Moved(st, Unblock(t)), false)
  {
    hide NoDuplicates, SemasKnown;
    PushedBack(st.ready, t);
  }

  lemma UnblockWaiters<T, S>(st: State<T, S>, t: T)
    requires WellFormed(st) && WaitersOk(st) && Enabled(st, Unblock(t)) && WellFormed(Moved(st, Unblock(t)))
    ensures WaitersOk(Moved(st, Unblock(t)))
  {
    hide NoDuplicates, QueueOk;
    forall s | s in st.semas
      ensures QueueOk(st.semas[s].waiters, Moved(st, Unblock(t)).threads, s)
    {
      QueueUnmoved(st.semas[s].waiters, st.threads, t, st.threads[t].(status := Ready), s);
    }
  }

  lemma CreateWaiters<T, S>(st: State<T, S>, t: T, p: int, s: S)
    requires WellFormed(st) && WaitersOk(st) && Enabled(st, Create(t, p, s)) && WellFormed(Moved(st, Create(t, p, s)))
    ensures WaitersOk(Moved(st, Create(t, p, s)))
  {
    hide NoDuplicates, QueueOk;
    var st1 := Moved(st, Create(t, p, s));
    forall r | r in st1.semas
      ensures QueueOk(st1.semas[r].waiters, st1.threads, r)
    {
      if r == s {
        NobodyWaits(st, s);
        QueueUnmoved([], st.threads, t, Thread(Blocked, p, -1, s, Free), s);
      } else {
        QueueUnmoved(st.semas[r].waiters, st.threads, t, Thread(Blocked, p, -1, s, Free), r);
      }
    }
  }

  lemma NobodyWaits<T, S>(st: State<T, S>, s: S)
    requires WellFormed(st) && s !in st.semas
    ensures QueueOk([], st.threads, s)
  {
  }

  lemma InitLists<T, S>(st: State<T, S>, s: S, n: nat, lock: bool)
    requires WellFormed(st) && Scheduled(st, false) && Enabled(st, Init(s, n, lock)) && WellFormed(Moved(st, Init(s, n, lock)))
    ensures Scheduled(Moved(st, Init(s, n, lock)), false)
  {
    hide NoDuplicates, QueueOk;
    NobodyWaits(st, s);
  }

  lemma QueuedQueues<T, S>(st: State<T, S>, s: S)
    requires WellFormed(st) && s in st.semas && WellFormed(Queued(st, s)) && Queues(st, false) && st.running != st.idle
    ensures Queues(Queued(st, s), true)
  {
    hide NoDuplicates, SemasKnown;
  }

  lemma QueuedWaiters<T, S>(st: State<T, S>, s: S)
    requires WellFormed(st) && s in st.semas && WellFormed(Queued(st, s)) && WaitersOk(st) && OneRunning(st) && st.running != st.idle
    ensures WaitersOk(Queued(st, s))
  {
    hide NoDuplicates, QueueOk;
    var st1, th := Queued(st, s), st.threads[st.running].(status := Blocked, activity := Downing(s, false));
    forall r | r in st.semas
      ensures QueueOk(st1.semas[r].waiters, st1.threads, r)
    {
      if r == s {
        QueueJoined(st.semas[s].waiters, st.threads, st.running, th, s);
      } else {
        QueueUnmoved(st.semas[r].waiters, st.threads, st.running, th, r);
      }
    }
  }

  lemma QueueJoined<T, S>(waiters: seq<T>, threads: map<T, Thread<S>>, t: T, th: Thread<S>, s: S)
    requires QueueOk(waiters, threads, s) && t in threads && !Waits(threads, t, s) && th.status == Blocked && th.activity == Downing(s, false)
    ensures QueueOk(waiters + [t], threads[t := th], s)
  {
    hide NoDuplicates;
    PushedBack(waiters, t);
  }

  lemma QueueLeft<T, S>(waiters: seq<T>, threads: map<T, Thread<S>>, k: nat, th: Thread<S>, s: S)
    requires QueueOk(waiters, threads, s) && k < |waiters| && th.status != Blocked
    ensures QueueOk(Without(waiters, k), threads[waiters[k] := th], s)
  {
    hide NoDuplicates, Without;
    WithoutOne(waiters, k);
  }

  lemma RaisedQueues<T, S>(st: State<T, S>, s: S)
    requires WellFormed(st) && s in st.semas && WellFormed(Raised(st, s)) && Queues(st, false) && WaitersOk(st)
    ensures Queues(Raised(st, s), false)
  {
    hide NoDuplicates, Top, Without, WaitersOk, SemasKnown;
    var m := st.semas[s];
    if m.waiters != [] {
      WaiterFacts(st, s);
      PushedBack(st.ready, m.waiters[Top(m.waiters, st.threads)]);
    }
  }

  lemma WaiterFacts<T, S>(st: State<T, S>, s: S)
    requires WellFormed(st) && WaitersOk(st) && s in st.semas && st.semas[s].waiters != []
    ensures var t := st.semas[s].waiters[Top(st.semas[s].waiters, st.threads)];
            t in st.threads && st.threads[t].status == Blocked && st.threads[t].activity == Downing(s, false) && t != st.idle
  {
    hide NoDuplicates, Top;
    var m := st.semas[s];
    assert m.waiters[Top(m.waiters, st.threads)] in m.waiters;
  }

  lemma RaisedWaiters<T, S>(st: State<T, S>, s: S)
    requires WellFormed(st) && s in st.semas && WellFormed(Raised(st, s)) && WaitersOk(st)
    ensures WaitersOk(Raised(st, s))
  {
    hide NoDuplicates, Top, Without, QueueOk;
    var m, st1 := st.semas[s], Raised(st, s);
    if m.waiters != [] {
      var k := Top(m.waiters, st.threads);
      var t := m.waiters[k];
      WaiterFacts(st, s);
      var th := st.threads[t].(status := Ready, activity := Downing(s, true));
      forall r | r in st.semas
        ensures QueueOk(st1.semas[r].waiters, st1.threads, r)
      {
        if r == s {
          QueueLeft(m.waiters, st.threads, k, th, s);
        } else {
          QueueUnmoved(st.semas[r].waiters, st.threads, t, th, r);
        }
      }
    }
  }

  lemma RaisedLists<T, S>(st: State<T, S>, s: S)
    requires WellFormed(st) && s in st.semas && WellFormed(Raised(st, s)) && Scheduled(st, false)
    ensures Scheduled(Raised(st, s), false)
  {
    hide WellFormed, ReadyOk, AllOk, OneRunning, WaitersOk, Raised;
    RaisedQueues(st, s);
    RaisedWaiters(st, s);
  }

  // ----- values, wakeups, locks and sleepers, step by step -----

  /** One thread and one semaphore get new values. */
  ghost function Touched<T, S>(st: State<T, S>, t: T, th: Thread<S>, s: S, m: Sema<T>): State<T, S> {
    st.(threads := st.threads[t := th], semas := st.semas[s := m])
  }

  lemma WokenUpdate<T, S>(threads: map<T, Thread<S>>, t: T, th: Thread<S>, s: S)
    ensures var before, after := t in threads && threads[t].activity == Downing(s, true), th.activity == Downing(s, true);
            |Woken(threads[t := th], s)| == |Woken(threads, s)| + (if after then 1 else 0) - (if before then 1 else 0)
  {
    var a, b := Woken(threads, s), Woken(threads[t := th], s);
    assert b == if th.activity == Downing(s, true) then a + {t} else a - {t};
  }

  lemma TouchedWakeups<T, S>(st: State<T, S>, t: T, th: Thread<S>, s: S, m: Sema<T>)
    requires WakeupsOk(st) && t in st.threads
    requires m.waiters != [] ==> m.value <= |Woken(st.threads[t := th], s)|
    requires !st.threads[t].activity.Downing? || st.threads[t].activity.s == s || !st.threads[t].activity.woken
          || th.activity == st.threads[t].activity
    ensures WakeupsOk(Touched(st, t, th, s, m))
  {
    hide Woken;
    forall r | r in st.semas && r != s && st.semas[r].waiters != []
      ensures st.semas[r].value <= |Woken(st.threads[t := th], r)|
    {
      WokenUpdate(st.threads, t, th, r);
    }
  }

  lemma TouchedSleep<T, S>(st: State<T, S>, t: T, th: Thread<S>, s: S, m: Sema<T>)
    requires WellFormed(st) && t in st.threads && s in st.semas && WellFormed(Touched(st, t, th, s, m)) && SleepOk(st)
    requires th.sema == st.threads[t].sema && m.kind == st.semas[s].kind && (s == th.sema || !m.kind.Sleep?)
    requires TicksOk(th, if s == th.sema then m else st.semas[th.sema])
    requires th.activity.Downing? && th.activity.s in st.semas && st.semas[th.activity.s].kind.Sleep? ==> Asleep(th)
    ensures SleepOk(Touched(st, t, th, s, m))
  {
    hide TicksOk, ThreadsKnown, Asleep;
    var st1 := Touched(st, t, th, s, m);
    forall u | u in st1.threads
      ensures TicksOk(st1.threads[u], st1.semas[st1.threads[u].sema])
    {
      TicksKind(st.threads[u], st.semas[st.threads[u].sema]);
      assert u != t ==> st.threads[u].sema != s;
    }
  }

  lemma TicksKind<T, S>(th: Thread<S>, own: Sema<T>)
    requires TicksOk(th, own)
    ensures own.kind.Sleep?
  {
  }

  /** Thread t is inside as before, and the holder is the same, or is t. */
  lemma InsideKept<T, S>(threads: map<T, Thread<S>>, holder: map<S, T>, t: T, th: Thread<S>, holder1: map<S, T>, s: S)
    requires t in threads
    requires InsideByActivity(th, s) || Holds(holder1, s, t) <==> InsideByActivity(threads[t], s) || Holds(holder, s, t)
    requires forall u :: u in threads && u != t ==> (Holds(holder1, s, u) <==> Holds(holder, s, u))
    ensures Inside(threads[t := th], holder1, s) == Inside(threads, holder, s)
  {
    hide InsideByActivity, Holds;
  }

  /** A thread that enters or leaves no lock, with the holders as they were. */
  lemma TouchedLocks<T, S>(st: State<T, S>, t: T, th: Thread<S>, s: S, m: Sema<T>)
    requires LocksOk(st) && t in st.threads && s in st.semas && m.kind == st.semas[s].kind
    requires m.kind.Mutex? ==> m.value == st.semas[s].value
    requires !th.activity.Acquired? && !th.activity.Releasing? && !st.threads[t].activity.Acquired? && !st.threads[t].activity.Releasing?
    ensures LocksOk(Touched(st, t, th, s, m))
  {
    hide Inside;
    forall r
      ensures Inside(st.threads[t := th], st.holder, r) == Inside(st.threads, st.holder, r)
      ensures HolderOk(st.threads, st.holder, r) ==> HolderOk(st.threads[t := th], st.holder, r)
    {
      InsideKept(st.threads, st.holder, t, th, st.holder, r);
    }
  }

  /** The one thread inside when the value is 0, and none when it is 1. */
  lemma InsideOne<T, S>(st: State<T, S>, s: S, t: T)
    requires LocksOk(st) && s in st.semas && st.semas[s].kind.Mutex?
    ensures st.semas[s].value <= 1
    ensures st.semas[s].value == 1 ==> Inside(st.threads, st.holder, s) == {}
    ensures t in Inside(st.threads, st.holder, s) ==> st.semas[s].value == 0 && Inside(st.threads, st.holder, s) == {t}
  {
    var a := Inside(st.threads, st.holder, s);
    if t in a {
      assert a == (a - {t}) + {t};
      assert |a - {t}| == 0;
    }
  }

  lemma HolderInside<T, S>(threads: map<T, Thread<S>>, holder: map<S, T>, s: S)
    requires HolderOk(threads, holder, s)
    ensures s in holder ==> holder[s] in Inside(threads, holder, s) && !InsideByActivity(threads[holder[s]], s)
  {
  }

  /** Between the down and setting the holder, or clearing it and the up, there is no holder. */
  lemma NoHolder<T, S>(st: State<T, S>, s: S, t: T)
    requires LocksOk(st) && s in st.semas && st.semas[s].kind.Mutex? && t in st.threads && InsideByActivity(st.threads[t], s)
    ensures s !in st.holder && st.semas[s].value == 0 && Inside(st.threads, st.holder, s) == {t}
  {
    InsideOne(st, s, t);
    HolderInside(st.threads, st.holder, s);
  }

  lemma FirstInside<T, S>(threads: map<T, Thread<S>>, holder: map<S, T>, t: T, th: Thread<S>, s: S)
    requires Inside(threads, holder, s) == {} && HolderOk(threads, holder, s) && t in threads && InsideByActivity(th, s)
    ensures Inside(threads[t := th], holder, s) == {t} && s !in holder
  {
    HolderInside(threads, holder, s);
    assert forall u :: u in threads ==> u !in Inside(threads, holder, s);
  }

  lemma LastInside<T, S>(threads: map<T, Thread<S>>, holder: map<S, T>, t: T, th: Thread<S>, s: S)
    requires Inside(threads, holder, s) == {t} && s !in holder && t in threads && !InsideByActivity(th, s)
    ensures Inside(threads[t := th], holder, s) == {}
  {
    assert forall u :: u in threads && u != t ==> u !in Inside(threads, holder, s);
  }

  lemma OtherLocks<T, S>(st: State<T, S>, t: T, th: Thread<S>, r: S)
    requires t in st.threads && !InsideByActivity(th, r) && !InsideByActivity(st.threads[t], r)
    ensures Inside(st.threads[t := th], st.holder, r) == Inside(st.threads, st.holder, r)
    ensures HolderOk(st.threads, st.holder, r) ==> HolderOk(st.threads[t := th], st.holder, r)
  {
    InsideKept(st.threads, st.holder, t, th, st.holder, r);
  }

  /** The down of a lock lets its thread in; nobody else is. */
  lemma EnterLock<T, S>(st: State<T, S>, t: T, th: Thread<S>, s: S, m: Sema<T>)
    requires LocksOk(st) && t in st.threads && s in st.semas && m.kind.Mutex? && st.semas[s].kind.Mutex?
    requires st.semas[s].value == 1 && m.value == 0
    requires th.activity == Acquired(s) && !st.threads[t].activity.Acquired? && !st.threads[t].activity.Releasing?
    ensures LocksOk(Touched(st, t, th, s, m))
  {
    hide Inside, HolderOk;
    InsideOne(st, s, t);
    FirstInside(st.threads, st.holder, t, th, s);
    NobodyHolds(st.threads[t := th], st.holder, s);
    forall r | r != s
      ensures Inside(st.threads[t := th], st.holder, r) == Inside(st.threads, st.holder, r)
      ensures HolderOk(st.threads, st.holder, r) ==> HolderOk(st.threads[t := th], st.holder, r)
    {
      OtherLocks(st, t, th, r);
    }
  }

  lemma NobodyHolds<T, S>(threads: map<T, Thread<S>>, holder: map<S, T>, s: S)
    requires s !in holder
    ensures HolderOk(threads, holder, s)
  {
  }

  /** The up of a lock lets its thread out; nobody else is in. */
  lemma LeaveLock<T, S>(st: State<T, S>, t: T, th: Thread<S>, s: S, m: Sema<T>)
    requires LocksOk(st) && t in st.threads && s in st.semas && m.kind.Mutex? && st.semas[s].kind.Mutex?
    requires m.value == st.semas[s].value + 1
    requires th.activity.Free? && st.threads[t].activity == Releasing(s)
    ensures LocksOk(Touched(st, t, th, s, m))
  {
    hide Inside, HolderOk;
    NoHolder(st, s, t);
    LastInside(st.threads, st.holder, t, th, s);
    NobodyHolds(st.threads[t := th], st.holder, s);
    forall r | r != s
      ensures Inside(st.threads[t := th], st.holder, r) == Inside(st.threads, st.holder, r)
      ensures HolderOk(st.threads, st.holder, r) ==> HolderOk(st.threads[t := th], st.holder, r)
    {
      OtherLocks(st, t, th, r);
    }
  }

  /** Setting and clearing the holder happens inside. */
  lemma HolderSet<T, S>(st: State<T, S>, t: T, th: Thread<S>, s: S)
    requires LocksOk(st) && t in st.threads && st.threads[t].activity == Acquired(s) && th.activity.Free?
    ensures LocksOk(st.(threads := st.threads[t := th], holder := st.holder[s := t]))
  {
    NoHolder(st, s, t);
    hide Inside;
    forall r
      ensures Inside(st.threads[t := th], st.holder[s := t], r) == Inside(st.threads, st.holder, r)
      ensures HolderOk(st.threads, st.holder, r) ==> HolderOk(st.threads[t := th], st.holder[s := t], r)
    {
      InsideKept(st.threads, st.holder, t, th, st.holder[s := t], r);
    }
  }

  lemma HolderCleared<T, S>(st: State<T, S>, t: T, th: Thread<S>, s: S)
    requires LocksOk(st) && t in st.threads && st.threads[t].activity.Free? && Holds(st.holder, s, t) && th.activity == Releasing(s)
    ensures LocksOk(st.(threads := st.threads[t := th], holder := st.holder - {s}))
  {
    hide Inside;
    forall r
      ensures Inside(st.threads[t := th], st.holder - {s}, r) == Inside(st.threads, st.holder, r)
      ensures HolderOk(st.threads, st.holder, r) ==> HolderOk(st.threads[t := th], st.holder - {s}, r)
    {
      InsideKept(st.threads, st.holder, t, th, st.holder - {s}, r);
    }
  }

  // ----- every step keeps the invariants -----

  lemma TouchedCore<T, S>(st: State<T, S>, t: T, th: Thread<S>, s: S, m: Sema<T>)
    requires WellFormed(st) && t in st.threads && s in st.semas && WellFormed(Touched(st, t, th, s, m)) && CountsOk(st)
    requires m.value + m.downs == m.initial + m.ups
    requires WakeupsOk(Touched(st, t, th, s, m)) && LocksOk(Touched(st, t, th, s, m)) && SleepOk(Touched(st, t, th, s, m))
    ensures Core(Touched(st, t, th, s, m))
  {
    hide WakeupsOk, LocksOk, SleepOk;
  }

  /** Entering sema_down(), or timer_sleep(). */
  lemma EnteredCore<T, S>(st: State<T, S>, th: Thread<S>)
    requires WellFormed(st) && Core(st) && st.threads[st.running].activity.Free?
    requires th.sema == st.threads[st.running].sema && th.activity.Downing? && !th.activity.woken && th.activity.s in st.semas
    requires if Asleep(th) then th.ticks >= 0 else th.ticks == st.threads[st.running].ticks && !st.semas[th.activity.s].kind.Sleep?
    ensures WellFormed(st.(threads := st.threads[st.running := th])) && Core(st.(threads := st.threads[st.running := th]))
  {
    var t, s := st.running, th.activity.s;
    var m := st.semas[s];
    ThreadWellFormed(st, t, th);
    assert st.semas[s := m] == st.semas;
    assert Touched(st, t, th, s, m) == st.(threads := st.threads[t := th]);
    WokenUpdate(st.threads, t, th, s);
    TouchedWakeups(st, t, th, s, m);
    TouchedLocks(st, t, th, s, m);
    assert TicksOk(st.threads[t], st.semas[th.sema]);
    TouchedSleep(st, t, th, s, m);
    TouchedCore(st, t, th, s, m);
  }

  /** A down that succeeds; cur is the running thread, in sema_down() or sema_try_down(). */
  lemma LoweredCore<T, S>(st: State<T, S>, s: S)
    requires WellFormed(st) && s in st.semas && st.semas[s].value > 0 && WellFormed(Lowered(st, s)) && Core(st)
    requires var cur := st.threads[st.running];
             (cur.activity.Downing? && cur.activity.s == s) || (cur.activity.Free? && !st.semas[s].kind.Sleep?)
    ensures Core(Lowered(st, s))
  {
    hide WakeupsOk, LocksOk, SleepOk, Woken;
    var t, m := st.running, st.semas[s];
    var th := st.threads[t].(activity := if m.kind.Mutex? then Acquired(s) else Free);
    var m1 := m.(value := m.value - 1, downs := m.downs + 1);
    assert Lowered(st, s) == Touched(st, t, th, s, m1);
    LoweredWakeups(st, s);
    if m.kind.Mutex? {
      InsideOne(st, s, t);
      EnterLock(st, t, th, s, m1);
    } else {
      TouchedLocks(st, t, th, s, m1);
    }
    OwnTicks(st, t, s);
    TouchedSleep(st, t, th, s, m1);
    TouchedCore(st, t, th, s, m1);
  }

  lemma LoweredWakeups<T, S>(st: State<T, S>, s: S)
    requires WellFormed(st) && s in st.semas && st.semas[s].value > 0 && WakeupsOk(st)
    requires st.threads[st.running].activity.Downing? ==> st.threads[st.running].activity.s == s
    ensures WakeupsOk(Lowered(st, s))
  {
    var t, m := st.running, st.semas[s];
    var th := st.threads[t].(activity := if m.kind.Mutex? then Acquired(s) else Free);
    var m1 := m.(value := m.value - 1, downs := m.downs + 1);
    WokenUpdate(st.threads, t, th, s);
    TouchedWakeups(st, t, th, s, m1);
  }

  /** What SleepOk says of thread t and of semaphore s. */
  lemma OwnTicks<T, S>(st: State<T, S>, t: T, s: S)
    requires WellFormed(st) && SleepOk(st) && t in st.threads
    ensures TicksOk(st.threads[t], st.semas[st.threads[t].sema])
    ensures st.threads[t].activity == Downing(s, false) || st.threads[t].activity == Downing(s, true) ==>
              (st.semas[s].kind.Sleep? <==> st.threads[t].sema == s)
  {
  }

  /** A pass through the loop of sema_down() that waits. */
  lemma QueuedCore<T, S>(st: State<T, S>, s: S)
    requires WellFormed(st) && s in st.semas && st.semas[s].value == 0 && WellFormed(Queued(st, s)) && Core(st)
    requires st.threads[st.running].activity.Downing? && st.threads[st.running].activity.s == s
    ensures Core(Queued(st, s))
  {
    hide WakeupsOk, LocksOk, SleepOk;
    var t, m := st.running, st.semas[s];
    var th := st.threads[t].(status := Blocked, activity := Downing(s, false));
    var m1 := m.(waiters := m.waiters + [t]);
    assert Queued(st, s) == Touched(st, t, th, s, m1);
    TouchedWakeups(st, t, th, s, m1);
    TouchedLocks(st, t, th, s, m1);
    OwnTicks(st, t, s);
    TouchedSleep(st, t, th, s, m1);
    TouchedCore(st, t, th, s, m1);
  }

  /** sema_up() touches the semaphore, now m, and the thread it wakes if one waits, now th. */
  ghost predicate Raises<T, S>(st: State<T, S>, s: S, t: T, th: Thread<S>, m: Sema<T>) {
    && s in st.semas && t in st.threads && th.sema == st.threads[t].sema && th.ticks == st.threads[t].ticks
    && m == st.semas[s].(value := st.semas[s].value + 1, ups := st.semas[s].ups + 1, waiters := m.waiters)
    && (forall u :: u in m.waiters ==> u in st.semas[s].waiters)
    && (st.semas[s].waiters == [] ==> t == st.running && th == st.threads[t])
    && (st.semas[s].waiters != [] ==> st.threads[t].activity == Downing(s, false) && th.activity == Downing(s, true))
  }

  lemma RaisedParts<T, S>(st: State<T, S>, s: S) returns (t: T, th: Thread<S>, m: Sema<T>)
    requires WellFormed(st) && s in st.semas && WaitersOk(st)
    ensures Raises(st, s, t, th, m)
    ensures var st1 := Raised(st, s);
            st1.threads == st.threads[t := th] && st1.semas == st.semas[s := m] && st1.holder == st.holder && st1.idle == st.idle
  {
    hide Top, Without, WaitersOk;
    m := st.semas[s].(value := st.semas[s].value + 1, ups := st.semas[s].ups + 1);
    t := st.running;
    th := st.threads[t];
    if st.semas[s].waiters != [] {
      WaiterFacts(st, s);
      var k := Top(st.semas[s].waiters, st.threads);
      t := st.semas[s].waiters[k];
      th := st.threads[t].(status := Ready, activity := Downing(s, true));
      m := m.(waiters := Without(st.semas[s].waiters, k));
    } else {
      assert st.threads[t := th] == st.threads;
    }
  }

  lemma RaisedWakeups<T, S>(st: State<T, S>, t: T, th: Thread<S>, s: S, m: Sema<T>)
    requires WellFormed(st) && WakeupsOk(st) && Raises(st, s, t, th, m)
    ensures WakeupsOk(Touched(st, t, th, s, m))
  {
    hide Woken, SemasKnown;
    WokenUpdate(st.threads, t, th, s);
    FirstIn(m.waiters);
    TouchedWakeups(st, t, th, s, m);
  }

  lemma FirstIn<T>(s: seq<T>)
    ensures s != [] ==> s[0] in s
  {
  }

  lemma CoreOfParts<T, S>(st: State<T, S>, st1: State<T, S>)
    requires WellFormed(st) && WellFormed(st1) && Core(st)
    requires st1.threads == st.threads && st1.semas == st.semas && st1.holder == st.holder && st1.idle == st.idle
    ensures Core(st1)
  {
    SameCoreOk(st, st1);
  }

  /** Up to the locks, sema_up() of a semaphore that is not a sleeper's keeps the invariants. */
  lemma RaisedOthers<T, S>(st: State<T, S>, t: T, th: Thread<S>, s: S, m: Sema<T>)
    requires WellFormed(st) && CountsOk(st) && WakeupsOk(st) && SleepOk(st) && Raises(st, s, t, th, m) && !m.kind.Sleep?
    ensures WellFormed(Touched(st, t, th, s, m)) && WakeupsOk(Touched(st, t, th, s, m)) && SleepOk(Touched(st, t, th, s, m))
    ensures m.value + m.downs == m.initial + m.ups
  {
    hide WakeupsOk, SleepOk, TicksOk, Asleep, Touched;
    TouchedWellFormed(st, t, th, s, m);
    RaisedWakeups(st, t, th, s, m);
    RaisedTicks(st, t, th, s);
    OwnNotSame(st, t, s);
    TouchedSleep(st, t, th, s, m);
  }

  lemma OwnNotSame<T, S>(st: State<T, S>, t: T, s: S)
    requires WellFormed(st) && SleepOk(st) && t in st.threads && s in st.semas && !st.semas[s].kind.Sleep?
    ensures st.threads[t].sema != s
  {
    TicksKind(st.threads[t], st.semas[st.threads[t].sema]);
  }

  /** sema_up() of a semaphore that is neither a lock's nor a sleeper's. */
  lemma RaisedCore<T, S>(st: State<T, S>, s: S)
    requires WellFormed(st) && s in st.semas && st.semas[s].kind.Counting? && Core(st) && WaitersOk(st) && st.threads[st.running].activity.Free?
    ensures WellFormed(Raised(st, s)) && Core(Raised(st, s))
  {
    hide CountsOk, WakeupsOk, LocksOk, SleepOk, WaitersOk, Raised, WellFormed;
    RaisedWellFormed(st, s);
    var t, th, m := RaisedParts(st, s);
    RaisedOthers(st, t, th, s, m);
    TouchedLocks(st, t, th, s, m);
    TouchedCore(st, t, th, s, m);
    CoreOfParts(Touched(st, t, th, s, m), Raised(st, s));
  }

  lemma TouchedWellFormed<T, S>(st: State<T, S>, t: T, th: Thread<S>, s: S, m: Sema<T>)
    requires WellFormed(st) && t in st.threads && s in st.semas && th.sema in st.semas && (th.activity.Free? || th.activity.s in st.semas)
    requires forall u :: u in m.waiters ==> u in st.threads
    ensures WellFormed(Touched(st, t, th, s, m))
  {
  }

  /** The thread that sema_up() wakes sleeps no more and no less than before. */
  lemma RaisedTicks<T, S>(st: State<T, S>, t: T, th: Thread<S>, s: S)
    requires WellFormed(st) && SleepOk(st) && t in st.threads && th.sema == st.threads[t].sema && th.ticks == st.threads[t].ticks
    requires th.activity == st.threads[t].activity || (st.threads[t].activity == Downing(s, false) && th.activity == Downing(s, true))
    ensures TicksOk(th, st.semas[th.sema])
    ensures th.activity.Downing? && th.activity.s in st.semas && st.semas[th.activity.s].kind.Sleep? ==> Asleep(th)
  {
  }

  /** lock_release() ups the semaphore: its thread is out. */
  lemma ReleasedCore<T, S>(st: State<T, S>)
    requires WellFormed(st) && Enabled(st, ReleaseUp) && Core(st) && WaitersOk(st) && OneRunning(st)
    ensures WellFormed(Moved(st, ReleaseUp)) && Core(Moved(st, ReleaseUp))
  {
    hide CountsOk, WakeupsOk, SleepOk, WaitersOk, Raised, OneRunning, LocksOk, SemasKnown;
    var s := st.threads[st.running].activity.s;
    var st0 := SetActivity(st, st.running, Free);
    MovedWellFormed(st, ReleaseUp);
    FreedOk(st, s);
    var t, th, m := RaisedParts(st0, s);
    RaisedOthers(st0, t, th, s, m);
    ReleasedLocks(st, s, t, th, m);
    TouchedCore(st0, t, th, s, m);
    CoreOfParts(Touched(st0, t, th, s, m), Moved(st, ReleaseUp));
  }

  /** What holds when the running thread's activity is back to nothing, but for the lock. */
  lemma FreedOk<T, S>(st: State<T, S>, s: S)
    requires WellFormed(st) && st.threads[st.running].activity == Releasing(s) && Core(st) && WaitersOk(st) && OneRunning(st)
    ensures var st0 := SetActivity(st, st.running, Free);
            && WellFormed(st0) && CountsOk(st0) && WakeupsOk(st0) && SleepOk(st0) && WaitersOk(st0)
            && s in st.semas && st.semas[s].kind.Mutex?
  {
    hide LocksOk, WakeupsOk, SleepOk, WaitersOk;
    var t := st.running;
    var free := st.threads[t].(activity := Free);
    ThreadWellFormed(st, t, free);
    var m := st.semas[s];
    assert Touched(st, t, free, s, m) == SetActivity(st, t, Free);
    ReleasingMutex(st, s, t);
    KeptWakeups(st, t, free, s);
    FreedTicks(st, t, free);
    TouchedSleep(st, t, free, s, m);
    IdleFree(st);
    SameWaiters(st, SetActivity(st, t, Free));
  }

  lemma IdleFree<T, S>(st: State<T, S>)
    requires WellFormed(st) && WaitersOk(st)
    ensures st.threads[st.idle].activity.Free?
  {
  }

  lemma ReleasingMutex<T, S>(st: State<T, S>, s: S, t: T)
    requires LocksOk(st) && t in st.threads && InsideByActivity(st.threads[t], s)
    ensures s in st.semas && st.semas[s].kind.Mutex?
  {
  }

  lemma KeptWakeups<T, S>(st: State<T, S>, t: T, th: Thread<S>, s: S)
    requires WakeupsOk(st) && s in st.semas && t in st.threads && !st.threads[t].activity.Downing? && !th.activity.Downing?
    ensures WakeupsOk(Touched(st, t, th, s, st.semas[s]))
  {
    hide Woken;
    WokenUpdate(st.threads, t, th, s);
    TouchedWakeups(st, t, th, s, st.semas[s]);
  }

  lemma FreedTicks<T, S>(st: State<T, S>, t: T, th: Thread<S>)
    requires WellFormed(st) && SleepOk(st) && t in st.threads && !st.threads[t].activity.Downing? && !th.activity.Downing?
    requires th.sema == st.threads[t].sema && th.ticks == st.threads[t].ticks
    ensures TicksOk(th, st.semas[th.sema])
  {
  }

  /** The running thread leaves the lock, and the thread it wakes is not inside yet. */
  lemma ReleasedLocks<T, S>(st: State<T, S>, s: S, t: T, th: Thread<S>, m: Sema<T>)
    requires WellFormed(st) && LocksOk(st) && st.threads[st.running].activity == Releasing(s) && s in st.semas && st.semas[s].kind.Mutex?
    requires Raises(SetActivity(st, st.running, Free), s, t, th, m)
    ensures LocksOk(Touched(SetActivity(st, st.running, Free), t, th, s, m))
  {
    var free := st.threads[st.running].(activity := Free);
    var st1 := Touched(st, st.running, free, s, m);
    hide LocksOk, SemasKnown;
    LeaveLock(st, st.running, free, s, m);
    TouchedLocks(st1, t, th, s, m);
    assert Touched(st1, t, th, s, m) == Touched(SetActivity(st, st.running, Free), t, th, s, m);
  }

  // ----- the timer interrupt -----

  /** Only its own thread waits on a sleeper's semaphore. */
  lemma OwnWaiter<T, S>(st: State<T, S>, t: T, w: T)
    requires WellFormed(st) && SleepOk(st) && WaitersOk(st) && t in st.threads && w in st.threads
    requires st.threads[w].activity == Downing(st.threads[t].sema, false)
    ensures w == t
  {
    hide WaitersOk;
    var s := st.threads[t].sema;
    TicksKind(st.threads[t], st.semas[s]);
    assert Asleep(st.threads[w]);
  }

  /** A tick that is not the last of a sleep. */
  lemma TickedCore<T, S>(st: State<T, S>, t: T)
    requires WellFormed(st) && Core(st) && t in st.threads && st.threads[t].ticks > 1
    ensures Core(SetTicks(st, t, st.threads[t].ticks - 1))
  {
    hide WakeupsOk, LocksOk, SleepOk;
    var s := st.threads[t].sema;
    var th := st.threads[t].(ticks := st.threads[t].ticks - 1);
    assert Touched(st, t, th, s, st.semas[s]) == SetTicks(st, t, th.ticks);
    SleeperOk(st, t);
    TouchedWakeups(st, t, th, s, st.semas[s]) by {
      WokenUpdate(st.threads, t, th, s);
      assert WakeupsOk(st);
      SameWakeups(st, s);
    }
    TouchedLocks(st, t, th, s, st.semas[s]);
    TouchedSleep(st, t, th, s, st.semas[s]);
    TouchedCore(st, t, th, s, st.semas[s]);
  }

  lemma SameWakeups<T, S>(st: State<T, S>, s: S)
    requires WakeupsOk(st) && s in st.semas
    ensures st.semas[s].waiters != [] ==> st.semas[s].value <= |Woken(st.threads, s)|
  {
  }

  /** A thread with ticks left is in timer_sleep(), and its semaphore is at 0. */
  lemma SleeperOk<T, S>(st: State<T, S>, t: T)
    requires WellFormed(st) && SleepOk(st) && t in st.threads && st.threads[t].ticks >= 0
    ensures Asleep(st.threads[t]) && st.semas[st.threads[t].sema].kind.Sleep? && st.semas[st.threads[t].sema].value == 0
    ensures st.threads[t].activity.s == st.threads[t].sema
  {
    assert TicksOk(st.threads[t], st.semas[st.threads[t].sema]);
  }

  /** The last tick of a sleep ups the thread's semaphore. */
  lemma ExpiredCore<T, S>(st: State<T, S>, t: T)
    requires WellFormed(st) && Core(st) && WaitersOk(st) && t in st.threads && 0 <= st.threads[t].ticks <= 1
    ensures WellFormed(Decremented(st, t)) && Core(Decremented(st, t))
  {
    hide WakeupsOk, LocksOk, SleepOk, WaitersOk, Raised, CountsOk;
    var s := st.threads[t].sema;
    SleeperOk(st, t);
    DecrementedWellFormed(st, t);
    var th, m := ExpiredParts(st, t);
    TouchedWellFormed(st, t, th, s, m);
    ExpiredWakeups(st, t, th, s, m);
    TouchedLocks(st, t, th, s, m);
    TouchedSleep(st, t, th, s, m);
    assert m.value + m.downs == m.initial + m.ups by { assert CountsOk(st); CountOf(st, s); }
    TouchedCore(st, t, th, s, m);
    CoreOfParts(Touched(st, t, th, s, m), Decremented(st, t));
  }

  lemma CountOf<T, S>(st: State<T, S>, s: S)
    requires CountsOk(st) && s in st.semas
    ensures st.semas[s].value + st.semas[s].downs == st.semas[s].initial + st.semas[s].ups
  {
  }

  lemma ExpiredWakeups<T, S>(st: State<T, S>, t: T, th: Thread<S>, s: S, m: Sema<T>)
    requires WellFormed(st) && WakeupsOk(st) && s in st.semas && t in st.threads
    requires m.value == st.semas[s].value + 1 && (forall u :: u in m.waiters ==> u in st.semas[s].waiters)
    requires st.semas[s].waiters == [] ==> th.activity == st.threads[t].activity
    requires st.semas[s].waiters != [] ==> st.threads[t].activity == Downing(s, false) && th.activity == Downing(s, true)
    ensures WakeupsOk(Touched(st, t, th, s, m))
  {
    hide Woken, SemasKnown;
    WokenUpdate(st.threads, t, th, s);
    FirstIn(m.waiters);
    TouchedWakeups(st, t, th, s, m);
  }

  lemma ExpiredParts<T, S>(st: State<T, S>, t: T) returns (th: Thread<S>, m: Sema<T>)
    requires WellFormed(st) && SleepOk(st) && WaitersOk(st) && t in st.threads && 0 <= st.threads[t].ticks <= 1
    ensures var s, st1 := st.threads[t].sema, Decremented(st, t);
            && s in st.semas && th.sema == s && th.ticks == -1
            && th.activity.Downing? && th.activity.s == st.threads[t].activity.s
            && m == st.semas[s].(value := st.semas[s].value + 1, ups := st.semas[s].ups + 1, waiters := m.waiters)
            && (forall u :: u in m.waiters ==> u in st.semas[s].waiters)
            && (st.semas[s].waiters == [] ==> th.activity == st.threads[t].activity)
            && (st.semas[s].waiters != [] ==> st.threads[t].activity == Downing(s, false) && th.activity == Downing(s, true))
            && st1.threads == st.threads[t := th] && st1.semas == st.semas[s := m] && st1.holder == st.holder && st1.idle == st.idle
  {
    hide Top, Without, WaitersOk, SleepOk;
    var s := st.threads[t].sema;
    SleeperOk(st, t);
    var st1 := SetTicks(st, t, -1);
    th := st1.threads[t];
    m := st.semas[s].(value := st.semas[s].value + 1, ups := st.semas[s].ups + 1);
    if st.semas[s].waiters != [] {
      WaiterFactsTicks(st, st1, s);
      var k := Top(st1.semas[s].waiters, st1.threads);
      OwnWaiter(st, t, st1.semas[s].waiters[k]);
      th := th.(status := Ready, activity := Downing(s, true));
      m := m.(waiters := Without(m.waiters, k));
    }
  }

  lemma WaiterFactsTicks<T, S>(st: State<T, S>, st1: State<T, S>, s: S)
    requires WellFormed(st) && WaitersOk(st) && s in st.semas && st.semas[s].waiters != []
    ensures var t := st.semas[s].waiters[Top(st.semas[s].waiters, st1.threads)];
            t in st.threads && st.threads[t].activity == Downing(s, false)
  {
    hide NoDuplicates, Top;
    var w := st.semas[s].waiters;
    assert w[Top(w, st1.threads)] in w;
  }

  lemma DecrementedLists<T, S>(st: State<T, S>, t: T)
    requires WellFormed(st) && Scheduled(st, false) && t in st.threads
    ensures WellFormed(Decremented(st, t)) && Scheduled(Decremented(st, t), false)
  {
    hide WellFormed, Scheduled, Raised;
    DecrementedWellFormed(st, t);
    var left := if st.threads[t].ticks > 0 then st.threads[t].ticks - 1 else st.threads[t].ticks;
    var st1 := SetTicks(st, t, if left == 0 then -1 else left);
    SameListsOk(st, st1);
    OwnKnown(st1, t);
    if left == 0 {
      RaisedWellFormed(st1, st.threads[t].sema);
      RaisedLists(st1, st.threads[t].sema);
    }
  }

  lemma OwnKnown<T, S>(st: State<T, S>, t: T)
    requires WellFormed(st) && t in st.threads
    ensures st.threads[t].sema in st.semas
  {
  }

  lemma DecrementedOk<T, S>(st: State<T, S>, t: T)
    requires Inv(st) && t in st.threads
    ensures Inv(Decremented(st, t)) && SameRun(st, Decremented(st, t))
  {
    hide Core, Scheduled, WellFormed, ReadyOk, AllOk, OneRunning, WaitersOk, Raised;
    InvParts(st);
    DecrementedWellFormed(st, t);
    DecrementedLists(st, t);
    TicksAtLeast(st, t);
    var ticks := st.threads[t].ticks;
    if ticks > 1 {
      TickedCore(st, t);
    } else if ticks >= 0 {
      ExpiredCore(st, t);
    } else {
      assert st.threads[t := st.threads[t]] == st.threads;
    }
    InvOfParts(Decremented(st, t));
  }

  lemma TicksAtLeast<T, S>(st: State<T, S>, t: T)
    requires WellFormed(st) && Core(st) && t in st.threads
    ensures st.threads[t].ticks >= -1
  {
    assert TicksOk(st.threads[t], st.semas[st.threads[t].sema]);
  }

  lemma InvParts<T, S>(st: State<T, S>)
    requires Inv(st)
    ensures WellFormed(st) && Scheduled(st, false) && Core(st) && WaitersOk(st) && OneRunning(st)
  {
    hide WellFormed, ReadyOk, WaitersOk, AllOk, OneRunning, Core;
  }

  lemma InvOfParts<T, S>(st: State<T, S>)
    requires WellFormed(st) && Scheduled(st, false) && Core(st)
    ensures Inv(st)
  {
    hide WellFormed, ReadyOk, WaitersOk, AllOk, OneRunning, Core;
  }

  lemma {:induction false} ForeachOk<T, S>(st: State<T, S>, list: seq<T>)
    requires Inv(st) && forall t :: t in list ==> t in st.threads
    ensures Inv(Foreach(st, list)) && SameRun(st, Foreach(st, list))
    decreases |list|
  {
    hide WellFormed, ListsOk, OneRunning, AllOk, Core, Decremented;
    if list != [] {
      assert list[0] in list;
      DecrementedOk(st, list[0]);
      ForeachOk(Decremented(st, list[0]), list[1..]);
    }
  }

  // ----- every step -----

  lemma CreatedCore<T, S>(st: State<T, S>, t: T, p: int, s: S)
    requires Inv(st) && Enabled(st, Create(t, p, s)) && WellFormed(Moved(st, Create(t, p, s)))
    ensures Core(Moved(st, Create(t, p, s)))
  {
    hide ReadyOk, WaitersOk, AllOk, OneRunning;
    var st1 := Moved(st, Create(t, p, s));
    CreatedWakeups(st, t, p, s);
    CreatedLocks(st, t, p, s);
    CreatedSleep(st, t, p, s);
  }

  lemma CreatedWakeups<T, S>(st: State<T, S>, t: T, p: int, s: S)
    requires WellFormed(st) && WakeupsOk(st) && Enabled(st, Create(t, p, s))
    ensures WakeupsOk(Moved(st, Create(t, p, s)))
  {
    var st1 := Moved(st, Create(t, p, s));
    forall r
      ensures Woken(st1.threads, r) == Woken(st.threads, r)
    {
    }
  }

  lemma CreatedLocks<T, S>(st: State<T, S>, t: T, p: int, s: S)
    requires WellFormed(st) && LocksOk(st) && Enabled(st, Create(t, p, s))
    ensures LocksOk(Moved(st, Create(t, p, s)))
  {
    var st1 := Moved(st, Create(t, p, s));
    forall r | r in st.semas && st.semas[r].kind.Mutex?
      ensures Inside(st1.threads, st1.holder, r) == Inside(st.threads, st.holder, r)
    {
      assert HolderOk(st.threads, st.holder, r);
    }
  }

  lemma CreatedSleep<T, S>(st: State<T, S>, t: T, p: int, s: S)
    requires WellFormed(st) && SleepOk(st) && Enabled(st, Create(t, p, s)) && WellFormed(Moved(st, Create(t, p, s)))
    ensures SleepOk(Moved(st, Create(t, p, s)))
  {
    hide TicksOk, ThreadsKnown;
    assert TicksOk(Thread(Blocked, p, -1, s, Free), Sema<T>.Sema(Kind.Sleep, 0, 0, [], 0, 0)) by { FreshTicks<T, S>(p, s); }
  }

  lemma FreshTicks<T, S>(p: int, s: S)
    ensures TicksOk(Thread(Blocked, p, -1, s, Free), Sema<T>.Sema(Kind.Sleep, 0, 0, [], 0, 0))
  {
  }

  /** The lists after the first part of each step. */
  lemma MovedLists<T, S>(st: State<T, S>, e: Event<T, S>)
    requires Inv(st) && Enabled(st, e)
    ensures WellFormed(Moved(st, e)) && Scheduled(Moved(st, e), Switches(st, e))
  {
    hide SemasKnown, WaitersOk, AllOk, OneRunning, Core, NoneRunning, ReadyOk, Yielded, Raised, Queued, Lowered, Foreach;
    InvParts(st);
    MovedWellFormed(st, e);
    NotIdle(st);
    var cur := st.threads[st.running];
    match e
    case Yield => YieldedLists(st);
    case Idle =>
      IdleQueues(st);
      IdleWaiters(st);
    case Exit =>
      ExitQueues(st);
      ExitWaiters(st);
    case Create(t, p, s) =>
      CreateQueues(st, t, p, s);
      CreateWaiters(st, t, p, s);
    case Unblock(t) =>
      UnblockQueues(st, t);
      UnblockWaiters(st, t);
    case Init(s, n, lock) => InitLists(st, s, n, lock);
    case Down(s) => SameListsOk(st, Moved(st, e));
    case Attempt => AttemptLists(st);
    case TryDown(s) =>
      if st.semas[s].value > 0 {
        LoweredLists(st, s);
      }
    case Up(s) => RaisedLists(st, s);
    case SetHolder => SameListsOk(st, Moved(st, e));
    case ClearHolder(s) => SameListsOk(st, Moved(st, e));
    case ReleaseUp => ReleasedLists(st);
    case Sleep(n) => SameListsOk(st, Moved(st, e));
    case SetPriority(t, p) => SameListsOk(st, Moved(st, e));
    case Tick => TickLists(st);
  }

  lemma ReleasedLists<T, S>(st: State<T, S>)
    requires Inv(st) && Enabled(st, ReleaseUp)
    ensures WellFormed(Moved(st, ReleaseUp)) && Scheduled(Moved(st, ReleaseUp), false)
  {
    hide SemasKnown, WaitersOk, AllOk, OneRunning, Core, ReadyOk, Raised;
    InvParts(st);
    NotIdle(st);
    MovedWellFormed(st, ReleaseUp);
    var s := st.threads[st.running].activity.s;
    FreedOk(st, s);
    SameListsOk(st, SetActivity(st, st.running, Free));
    RaisedLists(SetActivity(st, st.running, Free), s);
  }

  /** Who is inside an operation is not the idle thread. */
  lemma NotIdle<T, S>(st: State<T, S>)
    requires WellFormed(st) && WaitersOk(st)
    ensures !st.threads[st.running].activity.Free? ==> st.running != st.idle
  {
  }

  lemma LoweredLists<T, S>(st: State<T, S>, s: S)
    requires WellFormed(st) && Scheduled(st, false) && s in st.semas && st.semas[s].value > 0 && WellFormed(Lowered(st, s))
    requires st.running != st.idle
    ensures Scheduled(Lowered(st, s), false)
  {
    hide SemasKnown, Scheduled;
    SameListsOk(st, Lowered(st, s));
  }

  lemma AttemptLists<T, S>(st: State<T, S>)
    requires Inv(st) && Enabled(st, Attempt) && WellFormed(Moved(st, Attempt))
    ensures Scheduled(Moved(st, Attempt), Switches(st, Attempt))
  {
    hide WaitersOk, AllOk, OneRunning, Core, NoneRunning, ReadyOk, Queued, Lowered;
    InvParts(st);
    NotIdle(st);
    var s := st.threads[st.running].activity.s;
    if st.semas[s].value == 0 {
      QueuedQueues(st, s);
      QueuedWaiters(st, s);
    } else {
      LoweredLists(st, s);
    }
  }

  lemma CountedOk<T, S>(st: State<T, S>)
    requires Inv(st)
    ensures Inv(Counted(st))
  {
    hide WaitersOk, AllOk, OneRunning, Core, ReadyOk, SemasKnown;
    InvParts(st);
    SameListsOk(st, Counted(st));
    SameCoreOk(st, Counted(st));
    InvOfParts(Counted(st));
  }

  lemma TickLists<T, S>(st: State<T, S>)
    requires Inv(st) && Enabled(st, Tick) && WellFormed(Moved(st, Tick))
    ensures Scheduled(Moved(st, Tick), Switches(st, Tick))
  {
    hide WaitersOk, AllOk, OneRunning, Core, NoneRunning, ReadyOk, Foreach, SemasKnown, Yielded;
    CountedOk(st);
    ForeachOk(Counted(st), st.all);
    var st1 := Foreach(Counted(st), st.all);
    InvParts(st1);
    if st.slice + 1 >= TIME_SLICE {
      YieldedWellFormed(st1);
      YieldedLists(st1);
    }
  }

  lemma MovedCore<T, S>(st: State<T, S>, e: Event<T, S>)
    requires Inv(st) && Enabled(st, e)
    ensures WellFormed(Moved(st, e)) && Core(Moved(st, e))
  {
    hide SemasKnown, WaitersOk, AllOk, OneRunning, Core, NoneRunning, ReadyOk, Raised, Queued, Lowered, Foreach;
    InvParts(st);
    MovedWellFormed(st, e);
    var cur := st.threads[st.running];
    match e
    case Yield => SameCoreOk(st, Moved(st, e));
    case Idle => SameCoreOk(st, Moved(st, e));
    case Exit => SameCoreOk(st, Moved(st, e));
    case Create(t, p, s) => CreatedCore(st, t, p, s);
    case Unblock(t) => SameCoreOk(st, Moved(st, e));
    case Init(s, n, lock) => InitCore(st, s, n, lock);
    case Down(s) => DownCore(st, s);
    case Attempt => AttemptCore(st);
    case TryDown(s) =>
      if st.semas[s].value > 0 {
        LoweredCore(st, s);
      }
    case Up(s) => RaisedCore(st, s);
    case SetHolder => HolderSetCore(st);
    case ClearHolder(s) => HolderClearedCore(st, s);
    case ReleaseUp => ReleasedCore(st);
    case Sleep(n) => SleepCore(st, n);
    case SetPriority(t, p) => SameCoreOk(st, Moved(st, e));
    case Tick => TickCore(st);
  }

  lemma InitCore<T, S>(st: State<T, S>, s: S, n: nat, lock: bool)
    requires Inv(st) && Enabled(st, Init(s, n, lock)) && WellFormed(Moved(st, Init(s, n, lock)))
    ensures Core(Moved(st, Init(s, n, lock)))
  {
    hide WaitersOk, AllOk, OneRunning, ReadyOk, TicksOk;
    InitLocks(st, s, n, lock);
  }

  lemma InitLocks<T, S>(st: State<T, S>, s: S, n: nat, lock: bool)
    requires WellFormed(st) && LocksOk(st) && Enabled(st, Init(s, n, lock))
    ensures LocksOk(Moved(st, Init(s, n, lock)))
  {
    hide ThreadsKnown;
    assert s !in st.holder;
    assert Inside(st.threads, st.holder, s) == {};
  }

  lemma DownCore<T, S>(st: State<T, S>, s: S)
    requires Inv(st) && Enabled(st, Down(s)) && WellFormed(Moved(st, Down(s)))
    ensures Core(Moved(st, Down(s)))
  {
    hide WaitersOk, AllOk, OneRunning, ReadyOk, WakeupsOk, LocksOk, SleepOk;
    var cur := st.threads[st.running];
    var th := cur.(activity := Downing(s, false));
    OwnNotSame(st, st.running, s);
    EnteredCore(st, th);
  }

  lemma SleepCore<T, S>(st: State<T, S>, n: int)
    requires Inv(st) && Enabled(st, Event.Sleep(n)) && WellFormed(Moved(st, Event.Sleep(n)))
    ensures Core(Moved(st, Event.Sleep(n)))
  {
    hide WaitersOk, AllOk, OneRunning, ReadyOk, WakeupsOk, LocksOk, SleepOk;
    var cur := st.threads[st.running];
    var th := cur.(ticks := if n < 0 then 0 else n, activity := Downing(cur.sema, false));
    EnteredCore(st, th);
  }

  lemma AttemptCore<T, S>(st: State<T, S>)
    requires Inv(st) && Enabled(st, Attempt)
    ensures WellFormed(Moved(st, Attempt)) && Core(Moved(st, Attempt))
  {
    hide WaitersOk, AllOk, OneRunning, ReadyOk, Core, Queued, Lowered;
    MovedWellFormed(st, Attempt);
    var s := st.threads[st.running].activity.s;
    if st.semas[s].value == 0 {
      QueuedCore(st, s);
    } else {
      LoweredCore(st, s);
    }
  }

  lemma HolderSetCore<T, S>(st: State<T, S>)
    requires Inv(st) && Enabled(st, SetHolder)
    ensures WellFormed(Moved(st, SetHolder)) && Core(Moved(st, SetHolder))
  {
    hide WaitersOk, AllOk, OneRunning, ReadyOk, WakeupsOk, LocksOk, SleepOk;
    var t, th := st.running, st.threads[st.running].(activity := Free);
    MovedWellFormed(st, SetHolder);
    HolderSet(st, t, th, st.threads[t].activity.s);
    UnlockedCore(st, Moved(st, SetHolder), th);
  }

  lemma HolderClearedCore<T, S>(st: State<T, S>, s: S)
    requires Inv(st) && Enabled(st, ClearHolder(s))
    ensures WellFormed(Moved(st, ClearHolder(s))) && Core(Moved(st, ClearHolder(s)))
  {
    hide WaitersOk, AllOk, OneRunning, ReadyOk, WakeupsOk, LocksOk, SleepOk;
    var t, th := st.running, st.threads[st.running].(activity := Releasing(s));
    MovedWellFormed(st, ClearHolder(s));
    HolderCleared(st, t, th, s);
    UnlockedCore(st, Moved(st, ClearHolder(s)), th);
  }

  /** Changing the running thread's activity and a holder keeps all but, perhaps, LocksOk. */
  lemma UnlockedCore<T, S>(st: State<T, S>, st1: State<T, S>, th: Thread<S>)
    requires WellFormed(st) && WellFormed(st1) && Core(st) && LocksOk(st1)
    requires st1.semas == st.semas && st1.threads == st.threads[st.running := th] && st1.idle == st.idle
    requires !st.threads[st.running].activity.Downing? && !th.activity.Downing?
    requires th.sema == st.threads[st.running].sema && th.ticks == st.threads[st.running].ticks
    requires th.activity.Free? || th.activity.s in st.semas
    ensures Core(st1)
  {
    hide WakeupsOk, LocksOk, SleepOk;
    var t, s := st.running, th.sema;
    var st2 := Touched(st, t, th, s, st.semas[s]);
    assert st2.threads == st1.threads && st2.semas == st1.semas;
    KeptWakeups(st, t, th, s);
    FreedTicks(st, t, th);
    TouchedWellFormed(st, t, th, s, st.semas[s]);
    TouchedSleep(st, t, th, s, st.semas[s]);
    SameSleepParts(st2, st1);
    SameWakeupParts(st2, st1);
  }

  lemma SameSleepParts<T, S>(st: State<T, S>, st1: State<T, S>)
    requires WellFormed(st) && WellFormed(st1) && SleepOk(st) && st1.threads == st.threads && st1.semas == st.semas
    ensures SleepOk(st1)
  {
  }

  lemma SameWakeupParts<T, S>(st: State<T, S>, st1: State<T, S>)
    requires WakeupsOk(st) && st1.threads == st.threads && st1.semas == st.semas
    ensures WakeupsOk(st1)
  {
  }

  lemma YieldedCore<T, S>(st: State<T, S>)
    requires WellFormed(st)
    ensures WellFormed(Yielded(st)) && SameCore(st, Yielded(st))
  {
    YieldedWellFormed(st);
  }

  lemma TickCore<T, S>(st: State<T, S>)
    requires Inv(st) && Enabled(st, Tick) && WellFormed(Moved(st, Tick))
    ensures Core(Moved(st, Tick))
  {
    hide WaitersOk, AllOk, OneRunning, Core, ReadyOk, Foreach, Yielded, SemasKnown;
    CountedOk(st);
    ForeachOk(Counted(st), st.all);
    var st1 := Foreach(Counted(st), st.all);
    YieldedCore(st1);
    SameCoreOk(st1, Yielded(st1));
  }

  /** Every step keeps every invariant. */
  lemma StepOk<T, S>(st: State<T, S>, e: Event<T, S>)
    requires Inv(st) && Enabled(st, e)
    ensures Inv(Step(st, e))
  {
    hide WellFormed, WaitersOk, AllOk, OneRunning, Core, NoneRunning, ReadyOk, Moved, Dispatch, Switches;
    MovedLists(st, e);
    MovedCore(st, e);
    var st1 := Moved(st, e);
    if Switches(st, e) {
      DispatchLists(st1);
      DispatchCore(st1);
      SameCoreOk(st1, Dispatch(st1));
      InvOfParts(Dispatch(st1));
    } else {
      InvOfParts(st1);
    }
  }
}
