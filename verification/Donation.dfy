/** Priority donation (threads/synch.c, threads/thread.c): wait is the map of the wait_thread
    pointers that are not null, priority that of the priorities. */
module Donation {
  import S = Scheduling
  import Steps = SchedulingSteps
  import opened Threads

  // ----- chains of waiting threads -----

  /** The chain of wait_thread pointers from t ends after at most n of them. */
  ghost predicate Ends<T>(wait: map<T, T>, t: T, n: nat) {
    t !in wait || (n > 0 && Ends(wait, wait[t], n - 1))
  }

  ghost predicate Finite<T>(wait: map<T, T>, t: T) {
    exists n :: Ends(wait, t, n)
  }

  /** Following wait_thread from any thread comes to an end. */
  ghost predicate Acyclic<T>(wait: map<T, T>) {
    forall t :: t in wait ==> Finite(wait, t)
  }

  lemma {:induction false} EndsLonger<T>(wait: map<T, T>, t: T, n: nat, m: nat)
    requires Ends(wait, t, n) && n <= m
    ensures Ends(wait, t, m)
  {
    if t in wait {
      EndsLonger(wait, wait[t], n - 1, m - 1);
    }
  }

  /** Every thread's priority is at least that of each thread that waits for it. */
  ghost predicate Ordered<T>(wait: map<T, T>, priority: map<T, int>) {
    forall t :: t in wait && t in priority && wait[t] in priority ==> priority[t] <= priority[wait[t]]
  }

  ghost predicate Closed<T>(wait: map<T, T>, priority: map<T, int>) {
    forall t :: t in wait ==> t in priority && wait[t] in priority
  }

  /** What the donation walk of lock_acquire() leaves, starting from t. */
  ghost function Donated<T>(wait: map<T, T>, priority: map<T, int>, t: T, n: nat): (r: map<T, int>)
    requires Closed(wait, priority) && Ends(wait, t, n)
    ensures r.Keys == priority.Keys
    decreases n
  {
    if t !in wait then priority
    else Donated(wait, Passed(wait, priority, t), wait[t], n - 1)
  }

  /** One step of the walk: t passes its priority on. */
  ghost function Passed<T>(wait: map<T, T>, priority: map<T, int>, t: T): (r: map<T, int>)
    requires Closed(wait, priority) && t in wait
    ensures r.Keys == priority.Keys
  {
    if priority[t] > priority[wait[t]] then priority[wait[t] := priority[t]] else priority
  }

  /** u is on the chain from t, after t. */
  ghost predicate OnChain<T>(wait: map<T, T>, t: T, u: T, n: nat)
    requires Ends(wait, t, n)
    decreases n
  {
    t in wait && (wait[t] == u || OnChain(wait, wait[t], u, n - 1))
  }

  /** The chain from t does not come back to t. */
  lemma {:induction false} NotOnOwnChain<T>(wait: map<T, T>, t: T, u: T, n: nat, m: nat)
    requires Ends(wait, t, n) && Ends(wait, u, m) && OnChain(wait, t, u, n)
    ensures exists k: nat :: k < n && Ends(wait, u, k)
    decreases n
  {
    if wait[t] == u {
      assert Ends(wait, u, n - 1);
    } else {
      NotOnOwnChain(wait, wait[t], u, n - 1, m);
      var k: nat :| k < n - 1 && Ends(wait, u, k);
      assert k < n && Ends(wait, u, k);
    }
  }

  lemma {:induction false} NoReturn<T>(wait: map<T, T>, t: T, n: nat)
    requires Ends(wait, t, n)
    ensures !OnChain(wait, t, t, n)
    decreases n
  {
    if OnChain(wait, t, t, n) {
      NotOnOwnChain(wait, t, t, n, n);
      var k: nat :| k < n && Ends(wait, t, k);
      NoReturn(wait, t, k);
      ChainShorter(wait, t, t, n, k);
    }
  }

  lemma {:induction false} ChainShorter<T>(wait: map<T, T>, t: T, u: T, n: nat, k: nat)
    requires Ends(wait, t, n) && Ends(wait, t, k)
    ensures OnChain(wait, t, u, n) <==> OnChain(wait, t, u, k)
    decreases n
  {
    if t in wait {
      ChainShorter(wait, wait[t], u, n - 1, k - 1);
    }
  }

  /** The walk gives every thread on the chain from t at least t's priority, changes no other,
      and restores the order, if all was in order but for t's own wait. */
  lemma {:induction false} DonationExact<T>(wait: map<T, T>, priority: map<T, int>, t: T, n: nat)
    requires Closed(wait, priority) && Ends(wait, t, n) && t in priority && Ordered(wait - {t}, priority)
    ensures Ordered(wait, Donated(wait, priority, t, n))
    ensures forall u :: u in priority ==>
              Donated(wait, priority, t, n)[u] ==
              if OnChain(wait, t, u, n) && priority[t] > priority[u] then priority[t] else priority[u]
    decreases n
  {
    if t in wait {
      var h := wait[t];
      var p := Passed(wait, priority, t);
      NoReturn(wait, t, n);
      assert h != t;
      NoReturn(wait, h, n - 1);
      PassedOrdered(wait, priority, t);
      DonationExact(wait, p, h, n - 1);
      if p != priority {
        ChainFrom(wait, t, n);
      } else {
        assert forall x :: x in wait ==> x == t || x in wait - {t};
        ChainOrdered(wait, priority, h, n - 1);
      }
    } else {
      assert wait - {t} == wait;
    }
  }

  lemma PassedOrdered<T>(wait: map<T, T>, priority: map<T, int>, t: T)
    requires Closed(wait, priority) && t in wait && wait[t] != t && Ordered(wait - {t}, priority)
    ensures Ordered(wait - {wait[t]}, Passed(wait, priority, t))
  {
    var h, p := wait[t], Passed(wait, priority, t);
    forall x | x in wait - {h}
      ensures p[x] <= p[wait[x]]
    {
      assert x == t || x in wait - {t};
    }
  }

  lemma ChainFrom<T>(wait: map<T, T>, t: T, n: nat)
    requires Ends(wait, t, n) && t in wait
    ensures forall u :: OnChain(wait, t, u, n) <==> u == wait[t] || OnChain(wait, wait[t], u, n - 1)
  {
  }

  /** Along an ordered chain, priorities do not fall. */
  lemma {:induction false} ChainOrdered<T>(wait: map<T, T>, priority: map<T, int>, t: T, n: nat)
    requires Closed(wait, priority) && Ends(wait, t, n) && t in priority && Ordered(wait, priority)
    ensures forall u :: u in priority && OnChain(wait, t, u, n) ==> priority[u] >= priority[t]
    decreases n
  {
    if t in wait {
      ChainOrdered(wait, priority, wait[t], n - 1);
    }
  }

  // ----- lock_acquire() adds a wait -----

  /** A chain that does not pass t is the same after t begins to wait. */
  lemma {:induction false} ChainBeside<T>(wait: map<T, T>, t: T, h: T, u: T, n: nat)
    requires t !in wait && Ends(wait, u, n)
    ensures u != t && !OnChain(wait, u, t, n) ==> Ends(wait[t := h], u, n)
    decreases n
  {
    if u in wait {
      ChainBeside(wait, t, h, wait[u], n - 1);
    }
  }

  /** If t waits for h and so, through others, for itself, the chain never ends. */
  lemma {:induction false} LoopNeverEnds<T>(wait: map<T, T>, t: T, h: T, u: T, n: nat, m: nat)
    requires t !in wait && Ends(wait, h, m) && (h == t || OnChain(wait, h, t, m))
    requires (u == t || (Ends(wait, u, m) && OnChain(wait, u, t, m)))
    ensures !Ends(wait[t := h], u, n)
    decreases n
  {
    var w := wait[t := h];
    if n > 0 {
      if u == t {
        LoopNeverEnds(wait, t, h, h, n - 1, m);
      } else {
        EndsLonger(wait, wait[u], m - 1, m);
        ChainShorter(wait, wait[u], t, m - 1, m);
        LoopNeverEnds(wait, t, h, wait[u], n - 1, m);
      }
    }
  }

  /** The donation walk of t waiting for h ends exactly when h is not t and does not, through
      others, wait for t: when there is no deadlock. */
  lemma WalkEndsIff<T>(wait: map<T, T>, t: T, h: T, m: nat)
    requires t !in wait && Ends(wait, h, m)
    ensures Finite(wait[t := h], t) <==> h != t && !OnChain(wait, h, t, m)
  {
    var w := wait[t := h];
    if h != t && !OnChain(wait, h, t, m) {
      ChainBeside(wait, t, h, h, m);
      assert Ends(w, t, m + 1);
    } else if n :| Ends(w, t, n) {
      LoopNeverEnds(wait, t, h, t, n, m);
    }
  }

  /** Thread 1 waits for thread 2, which begins to wait for thread 1: its walk does not end. */
  lemma CircularWait()
    ensures Acyclic(map[1 := 2]) && !Finite(map[1 := 2][2 := 1], 2)
  {
    assert Ends(map[1 := 2], 1, 1);
    WalkEndsIff(map[1 := 2], 2, 1, 1);
  }

  /** And then no chain is endless. */
  lemma WaitAcyclic<T>(wait: map<T, T>, t: T, h: T, n: nat)
    requires Acyclic(wait) && t !in wait && Ends(wait[t := h], t, n)
    ensures Acyclic(wait[t := h])
  {
    var w := wait[t := h];
    forall u | u in w
      ensures Finite(w, u)
    {
      if u == t {
        assert Ends(w, u, n);
      } else {
        var m :| Ends(wait, u, m);
        ChainJoins(wait, t, h, u, m, n);
      }
    }
  }

  lemma {:induction false} ChainJoins<T>(wait: map<T, T>, t: T, h: T, u: T, m: nat, n: nat)
    requires t !in wait && Ends(wait[t := h], t, n) && Ends(wait, u, m)
    ensures Ends(wait[t := h], u, m + n)
    decreases m
  {
    if u == t {
      EndsLonger(wait[t := h], t, n, m + n);
    } else if u in wait {
      ChainJoins(wait, t, h, wait[u], m - 1, n);
    }
  }

  // ----- lock_release() rewires the waits -----

  ghost function SetOf<T>(s: seq<T>): set<T> {
    set u | u in s
  }

  /** The waits after lock_release(): top waits for nothing, the other waiters for top. */
  ghost function Rewired<T>(wait: map<T, T>, waiters: seq<T>, top: T): map<T, T> {
    map u | u in wait.Keys + SetOf(waiters) && u != top :: if u in waiters then top else wait[u]
  }

  lemma {:induction false} RewiredEnds<T>(wait: map<T, T>, waiters: seq<T>, top: T, u: T, n: nat)
    requires Ends(wait, u, n)
    ensures Ends(Rewired(wait, waiters, top), u, n + 1)
    decreases n
  {
    var w := Rewired(wait, waiters, top);
    if u in w {
      if u in waiters {
        assert top !in w && Ends(w, top, n);
      } else {
        RewiredEnds(wait, waiters, top, wait[u], n - 1);
      }
    }
  }

  /** Rewiring keeps chains finite, and keeps the order if top ranks highest of the waiters. */
  lemma RewiredOk<T>(wait: map<T, T>, priority: map<T, int>, waiters: seq<T>, top: T)
    requires Acyclic(wait) && Ordered(wait, priority) && Closed(wait, priority)
    requires top in waiters && top in priority && forall u :: u in waiters ==> u in priority && priority[u] <= priority[top]
    ensures Acyclic(Rewired(wait, waiters, top)) && Ordered(Rewired(wait, waiters, top), priority)
    ensures Closed(Rewired(wait, waiters, top), priority)
    ensures top !in Rewired(wait, waiters, top)
    ensures forall u :: u in waiters && u != top ==> u in Rewired(wait, waiters, top) && Rewired(wait, waiters, top)[u] == top
    ensures forall u :: u !in waiters ==>
              (u in Rewired(wait, waiters, top) <==> u in wait) && (u in wait ==> Rewired(wait, waiters, top)[u] == wait[u])
  {
    var w := Rewired(wait, waiters, top);
    forall u | u in w
      ensures Finite(w, u)
    {
      if u in wait {
        var n :| Ends(wait, u, n);
        RewiredEnds(wait, waiters, top, u, n);
      } else {
        assert Ends(w, top, 0);
        assert Ends(w, u, 1);
      }
    }
  }

  // ----- a priority computed anew -----

  /** p is the greatest of t's base priority and the priorities of the threads that wait for t. */
  ghost predicate IsHighest<T>(wait: map<T, T>, priority: map<T, int>, t: T, base: int, p: int) {
    && base <= p && (forall u :: u in wait && u in priority && wait[u] == t ==> priority[u] <= p)
    && (p == base || exists u :: u in wait && u in priority && wait[u] == t && priority[u] == p)
  }

  /** There is one such priority, and it is the base priority if nobody waits for t. */
  lemma HighestExact<T>(wait: map<T, T>, priority: map<T, int>, t: T, base: int, p: int, q: int)
    requires IsHighest(wait, priority, t, base, p)
    ensures IsHighest(wait, priority, t, base, q) ==> q == p
    ensures (forall u :: u in wait && u in priority && wait[u] == t ==> priority[u] <= base) <==> p == base
  {
  }

  /** Giving it to t keeps the order, if t itself waits for nobody. */
  lemma RecomputedOrdered<T>(wait: map<T, T>, priority: map<T, int>, t: T, base: int, p: int)
    requires Ordered(wait, priority) && t !in wait && t in priority && IsHighest(wait, priority, t, base, p)
    ensures Ordered(wait, priority[t := p])
  {
  }

  // ----- the code on its objects -----

  ghost function WaitMap(threads: set<Thread>): map<Thread, Thread>
    reads threads`waitThread
  {
    map t | t in threads && t.waitThread != null :: Target(t)
  }

  ghost function Target(t: Thread): Thread
    requires t.waitThread != null
    reads t`waitThread
  {
    t.waitThread
  }

  ghost function PriorityMap(threads: set<Thread>): map<Thread, int>
    reads threads`priority
  {
    map t | t in threads :: t.priority
  }

  class Lock {
    var holder: Thread?
    const semaphore: Semaphore

    /** lock_init() */
    constructor ()
      ensures holder == null && fresh(semaphore) && semaphore.Abs() == S.Sema(S.Mutex, 1, 1, [], 0, 0)
    {
      holder := null;
      semaphore := new Semaphore(1, S.Mutex);
    }

  }

  /** The steps of the donation walk from t: each store of a priority is one. */
  ghost function Walked(st: S.State<Thread, Semaphore>, wait: map<Thread, Thread>, t: Thread, n: nat): S.State<Thread, Semaphore>
    requires Ends(wait, t, n)
    decreases n
  {
    hide WalkStep, S.Inv, Next;
    if t !in wait then st else Walked(WalkStep(st, t, wait[t]), wait, wait[t], n - 1)
  }

  ghost function WalkStep(st: S.State<Thread, Semaphore>, t: Thread, next: Thread): S.State<Thread, Semaphore> {
    if S.Priority(st.threads, t) > S.Priority(st.threads, next) then Next(st, S.SetPriority(next, S.Priority(st.threads, t))) else st
  }

  /** The body of the donation walk. */
  method PassOn(k: Kernel, index: Thread, next: Thread)
    requires S.Inv(k.Abs()) && index in k.threads && next in k.threads
    modifies k.threads`priority
    ensures S.Inv(k.Abs()) && k.Abs() == WalkStep(old(k.Abs()), index, next)
    ensures WaitMap(k.threads) == old(WaitMap(k.threads))
    ensures PriorityMap(k.threads) ==
              if old(index.priority > next.priority) then old(PriorityMap(k.threads))[next := old(index.priority)] else old(PriorityMap(k.threads))
  {
    hide S.Inv, Next, Kernel.AbsThreads, Kernel.AbsSemas;
    k.AbsKeys();
    if index.priority > next.priority {
      k.SetPriority(next, index.priority);
    }
  }

  /** The donation walk. */
  method Walk(k: Kernel, t: Thread, ghost n: nat)
    requires S.Inv(k.Abs()) && t in k.threads && Closed(WaitMap(k.threads), PriorityMap(k.threads)) && Ends(WaitMap(k.threads), t, n)
    modifies k.threads`priority
    ensures WaitMap(k.threads) == old(WaitMap(k.threads))
    ensures PriorityMap(k.threads) == Donated(WaitMap(k.threads), old(PriorityMap(k.threads)), t, n)
    ensures S.Inv(k.Abs()) && k.Abs() == Walked(old(k.Abs()), WaitMap(k.threads), t, n)
  {
    hide S.Inv, WalkStep, S.Priority, Kernel.Abs;
    ghost var wait, m: nat := WaitMap(k.threads), n;
    var index: Thread := t;
    var next := index.waitThread;
    while next != null
      invariant index in k.threads && next == index.waitThread && Ends(wait, index, m)
      invariant WaitMap(k.threads) == wait && Closed(wait, PriorityMap(k.threads)) && S.Inv(k.Abs())
      invariant Donated(wait, PriorityMap(k.threads), index, m) == Donated(wait, old(PriorityMap(k.threads)), t, n)
      invariant Walked(k.Abs(), wait, index, m) == Walked(old(k.Abs()), wait, t, n)
      decreases m
    {
      PassOn(k, index, next);
      index := next;
      next := index.waitThread;
      m := m - 1;
    }
  }

  // ----- lock_acquire() -----

  /** What the kernel knows of the holder of a lock is what the lock says. */
  ghost predicate LockKnown(k: Kernel, lock: Lock)
    reads k`holders, lock`holder
  {
    lock.semaphore.kind.Mutex? && lock.holder == if lock.semaphore in k.holders then k.holders[lock.semaphore] else null
  }

  /** lock_acquire() before its sema_down(): t donates to the holder and to whom it waits for.
      The chain must end, which it does unless there is a deadlock. */
  method Donate(k: Kernel, lock: Lock, t: Thread, ghost n: nat)
    requires S.Inv(k.Abs()) && t in k.threads && t.waitThread == null && lock.holder != t && (lock.holder != null ==> lock.holder in k.threads)
    requires Closed(WaitMap(k.threads), PriorityMap(k.threads))
    requires lock.holder != null ==> Ends(WaitMap(k.threads)[t := lock.holder as Thread], t, n)
    modifies t`waitThread, k.threads`priority
    ensures S.Inv(k.Abs())
    ensures lock.holder == null ==>
              WaitMap(k.threads) == old(WaitMap(k.threads)) && PriorityMap(k.threads) == old(PriorityMap(k.threads)) && k.Abs() == old(k.Abs())
    ensures lock.holder != null ==>
              && WaitMap(k.threads) == old(WaitMap(k.threads))[t := lock.holder as Thread]
              && Closed(WaitMap(k.threads), old(PriorityMap(k.threads))) && Ends(WaitMap(k.threads), t, n)
              && PriorityMap(k.threads) == Donated(WaitMap(k.threads), old(PriorityMap(k.threads)), t, n)
              && k.Abs() == Walked(old(k.Abs()), WaitMap(k.threads), t, n)
  {
    hide S.Inv, Walked, Kernel.Abs, Ends, Donated, PriorityMap, Closed;
    if lock.holder != null {
      t.waitThread := lock.holder;
      assert WaitMap(k.threads) == old(WaitMap(k.threads))[t := lock.holder as Thread];
      assert PriorityMap(k.threads) == old(PriorityMap(k.threads));
      assert k.Abs() == old(k.Abs());
      Priorities(k.threads);
      ClosedAdded<Thread>(old(WaitMap(k.threads)), PriorityMap(k.threads), t, lock.holder as Thread);
      Walk(k, t, n);
    }
  }

  method StopWaiting(t: Thread, ghost threads: set<Thread>)
    requires t in threads
    modifies t`waitThread
    ensures WaitMap(threads) == old(WaitMap(threads)) - {t} && PriorityMap(threads) == old(PriorityMap(threads))
  {
    t.waitThread := null;
  }

  /** The running thread, which can attempt the down of s, as the state of the kernel has it. */
  lemma PassFacts(k: Kernel, s: Semaphore)
    requires k.Can(S.Attempt) && (k.running.activity == S.Downing(s, false) || k.running.activity == S.Downing(s, true))
    ensures SameInState(k, k.Abs(), s)
  {
    hide S.ListsOk, S.OneRunning, S.AllOk, S.Core;
    k.AbsKeys();
  }

  ghost predicate SameInState(k: Kernel, st: S.State<Thread, Semaphore>, s: Semaphore)
    reads k, k.running`activity, s
  {
    && s in st.semas && st.semas[s] == s.Abs() && st.running == k.running && st.holder == k.holders && k.running in st.threads
    && st.threads[k.running].activity == k.running.activity
  }

  lemma CanParts(k: Kernel, e: S.Event<Thread, Semaphore>)
    requires k.Can(e)
    ensures S.Inv(k.Abs()) && S.WellFormed(k.Abs()) && S.Enabled(k.Abs(), e)
  {
  }

  lemma TryFacts(k: Kernel, s: Semaphore)
    requires k.Can(S.TryDown(s))
    ensures SameInState(k, k.Abs(), s)
  {
    hide S.ListsOk, S.OneRunning, S.AllOk, S.Core;
    k.AbsKeys();
  }

  lemma AcquireFacts(k: Kernel, s: Semaphore)
    requires k.Can(S.Down(s))
    ensures k.running != k.idleThread && k.running.activity == S.Free && s in k.semas && !s.kind.Sleep?
    ensures !(s in k.holders && k.holders[s] == k.running)
  {
    hide S.ListsOk, S.OneRunning, S.AllOk, S.Core;
    k.AbsKeys();
  }

  lemma DownPossible(k: Kernel, s: Semaphore)
    requires S.Inv(k.Abs()) && k.running != k.idleThread && k.running.activity == S.Free && s in k.semas && !s.kind.Sleep?
    requires !(s in k.holders && k.holders[s] == k.running)
    ensures k.Can(S.Down(s))
  {
    hide S.ListsOk, S.OneRunning, S.AllOk, S.Core;
    k.AbsKeys();
  }

  lemma PassPossible(k: Kernel, s: Semaphore)
    requires S.Inv(k.Abs()) && k.running.activity == S.Downing(s, false)
    ensures k.Can(S.Attempt) && k.running in k.threads
  {
    hide S.ListsOk, S.OneRunning, S.AllOk, S.Core;
    k.AbsKeys();
  }

  /** A down of lock s that has just succeeded. */
  lemma AcquiredFacts(k: Kernel, st: S.State<Thread, Semaphore>, e: S.Event<Thread, Semaphore>, s: Semaphore)
    requires S.Inv(st) && S.Enabled(st, e) && k.Abs() == Next(st, e)
    requires s in st.semas && st.semas[s].kind.Mutex? && st.semas[s].value > 0
    requires e == S.TryDown(s) || (e.Attempt? && st.threads[st.running].activity.s == s)
    ensures k.running == st.running && k.running.activity == S.Acquired(s) && k.Can(S.SetHolder) && s !in st.holder
  {
    hide S.ListsOk, S.OneRunning, S.AllOk, S.Core;
    k.AbsKeys();
    Steps.StepOk(st, e);
    if s in st.holder {
      HeldValue(st, s);
    }
  }

  /** A pass through the loop of the sema_down() in lock_acquire(), and, if that ends the down,
      the rest of lock_acquire(). Otherwise the next pass comes when the thread runs again. */
  method LockAcquirePass(k: Kernel, lock: Lock) returns (done: bool)
    requires k.Can(S.Attempt) && LockKnown(k, lock) && k.running in k.threads
    requires k.running.activity == S.Downing(lock.semaphore, false) || k.running.activity == S.Downing(lock.semaphore, true)
    modifies lock`holder, lock.semaphore, k`readyList, k`running, k`threadTicks, k`holders
    modifies k.threads`status, k.threads`activity, k.running`waitThread
    ensures S.Inv(k.Abs()) && LockKnown(k, lock) && done == (old(lock.semaphore.value) > 0)
    ensures !done ==> k.Abs() == Next(old(k.Abs()), S.Attempt) && lock.holder == old(lock.holder)
    ensures !done ==> WaitMap(k.threads) == old(WaitMap(k.threads))
    ensures done ==> k.Abs() == Next(Next(old(k.Abs()), S.Attempt), S.SetHolder) && k.running == old(k.running) == lock.holder
    ensures done ==> old(lock.holder) == null && WaitMap(k.threads) == old(WaitMap(k.threads)) - {k.running}
    ensures PriorityMap(k.threads) == old(PriorityMap(k.threads))
  {
    hide S.Inv, S.Enabled, Next, Kernel.Abs, Kernel.Can, Kernel.AbsThreads, Kernel.AbsSemas, WaitMap, PriorityMap;
    CanParts(k, S.Attempt);
    ghost var st := k.Abs();
    PassFacts(k, lock.semaphore);
    var t := k.running;
    done := k.SemaDownPass(lock.semaphore);
    if done {
      AcquiredFacts(k, st, S.Attempt, lock.semaphore);
      lock.holder := t;
      k.RecordHolder(lock.semaphore);
      StopWaiting(t, k.threads);
    }
  }

  /** lock_acquire() up to its first switch, or to its end. */
  method LockAcquire(k: Kernel, lock: Lock, ghost n: nat) returns (done: bool)
    requires Tidy(k) && k.Can(S.Down(lock.semaphore)) && LockKnown(k, lock) && (lock.holder != null ==> lock.holder in k.threads)
    requires lock.holder != null ==> Ends(WaitMap(k.threads)[k.running := lock.holder as Thread], k.running, n)
    modifies lock`holder, lock.semaphore, k`readyList, k`running, k`threadTicks, k`holders
    modifies k.threads`status, k.threads`activity, k.threads`priority, k.running`waitThread
    ensures S.Inv(k.Abs()) && LockKnown(k, lock) && done == (old(lock.semaphore.value) > 0)
    ensures var t, wait, priority := old(k.running), old(WaitMap(k.threads)), old(PriorityMap(k.threads));
            var wait1 := if old(lock.holder) == null then wait else wait[t := old(lock.holder) as Thread];
            && (old(lock.holder) != null ==> Closed(wait1, priority) && Ends(wait1, t, n))
            && PriorityMap(k.threads) == (if old(lock.holder) == null then priority else Donated(wait1, priority, t, n))
            && var st := if old(lock.holder) == null then old(k.Abs()) else Walked(old(k.Abs()), wait1, t, n);
               var st1 := Next(Next(st, S.Down(lock.semaphore)), S.Attempt);
               if done then old(lock.holder) == null && lock.holder == t && WaitMap(k.threads) == wait && k.Abs() == Next(st1, S.SetHolder)
               else lock.holder == old(lock.holder) && WaitMap(k.threads) == wait1 && k.Abs() == st1
    ensures old(Ordered(WaitMap(k.threads), PriorityMap(k.threads)) && Acyclic(WaitMap(k.threads))) ==>
              Ordered(WaitMap(k.threads), PriorityMap(k.threads)) && Acyclic(WaitMap(k.threads))
  {
    hide S.Inv, S.Enabled, Next, Walked, Kernel.AbsThreads, Kernel.AbsSemas, WaitMap, PriorityMap, Ordered, Acyclic, Closed, Ends, Donated;
    AcquireFacts(k, lock.semaphore);
    TidyClosed(k);
    NoWait(k.running, k.threads);
    ghost var t := k.running;
    if lock.holder != null && Ordered(WaitMap(k.threads), PriorityMap(k.threads)) && Acyclic(WaitMap(k.threads)) {
      Priorities(k.threads);
      DonateKeeps<Thread>(WaitMap(k.threads), PriorityMap(k.threads), t, lock.holder as Thread, n);
    }
    Donate(k, lock, k.running, n);
    DownPossible(k, lock.semaphore);
    k.BeginDown(lock.semaphore);
    PassPossible(k, lock.semaphore);
    done := LockAcquirePass(k, lock);
  }

  /** lock_try_acquire() */
  method LockTryAcquire(k: Kernel, lock: Lock) returns (success: bool)
    requires k.Can(S.TryDown(lock.semaphore)) && LockKnown(k, lock) && k.running in k.threads
    modifies lock`holder, lock.semaphore, k`holders, k.running`activity
    ensures S.Inv(k.Abs()) && LockKnown(k, lock) && success == (old(lock.semaphore.value) > 0)
    ensures success ==> k.Abs() == Next(Next(old(k.Abs()), S.TryDown(lock.semaphore)), S.SetHolder) && lock.holder == k.running
    ensures !success ==> k.Abs() == Next(old(k.Abs()), S.TryDown(lock.semaphore)) && lock.holder == old(lock.holder)
  {
    hide S.Inv, S.Enabled, Next, Kernel.AbsThreads, Kernel.AbsSemas;
    ghost var st := k.Abs();
    TryFacts(k, lock.semaphore);
    success := k.SemaTryDown(lock.semaphore);
    if success {
      AcquiredFacts(k, st, S.TryDown(lock.semaphore), lock.semaphore);
      lock.holder := k.running;
      k.RecordHolder(lock.semaphore);
    }
  }

  /** The scan of lock_release() for the waiter of the greatest priority. The variable is null
      at the end where the source leaves it without a value. */
  method TopWaiter(waiters: seq<Thread>) returns (top: Thread?)
    ensures top == null <==> forall u :: u in waiters ==> u.priority <= S.PRI_MIN
    ensures top != null ==> exists k :: 0 <= k < |waiters| && waiters[k] == top && top.priority > S.PRI_MIN
                              && (forall j :: 0 <= j < |waiters| ==> waiters[j].priority <= top.priority)
                              && (forall j :: 0 <= j < k ==> waiters[j].priority < top.priority)
  {
    top := null;
    var max := S.PRI_MIN;
    ghost var k := 0;
    var e := 0;
    while e < |waiters|
      invariant 0 <= e <= |waiters|
      invariant forall j :: 0 <= j < e ==> waiters[j].priority <= max
      invariant top == null ==> max == S.PRI_MIN
      invariant top != null ==> 0 <= k < e && waiters[k] == top && top.priority == max > S.PRI_MIN
      invariant top != null ==> forall j :: 0 <= j < k ==> waiters[j].priority < max
    {
      var index := waiters[e];
      if index.priority > max {
        max := index.priority;
        top := index;
        k := e;
      }
      e := e + 1;
    }
  }

  /** The scan of all_list that lock_release() and thread_set_priority() make: the greatest of
      base and the priorities of the threads that wait for t. */
  method HighestDonated(t: Thread, allList: seq<Thread>, base: int) returns (max: int)
    ensures base <= max
    ensures forall u :: u in allList && u.waitThread == t ==> u.priority <= max
    ensures max == base || exists u :: u in allList && u.waitThread == t && u.priority == max
  {
    max := base;
    var e := 0;
    while e < |allList|
      invariant 0 <= e <= |allList| && base <= max
      invariant forall j :: 0 <= j < e && allList[j].waitThread == t ==> allList[j].priority <= max
      invariant max == base || exists u :: u in allList && u.waitThread == t && u.priority == max
    {
      var index := allList[e];
      if index.waitThread == t && max < index.priority {
        max := index.priority;
      }
      e := e + 1;
    }
  }

  /** The second loop of lock_release(): all other waiters wait for top. */
  method Rewire(waiters: seq<Thread>, top: Thread, ghost threads: set<Thread>)
    requires top in waiters && forall u :: u in waiters ==> u in threads
    modifies threads`waitThread
    ensures WaitMap(threads) == Rewired(old(WaitMap(threads)), waiters, top)
    ensures PriorityMap(threads) == old(PriorityMap(threads))
  {
    top.waitThread := null;
    var e := 0;
    while e < |waiters|
      invariant 0 <= e <= |waiters| && top.waitThread == null
      invariant forall j :: 0 <= j < e && waiters[j] != top ==> waiters[j].waitThread == top
      invariant forall u :: u in threads && u !in waiters ==> u.waitThread == old(u.waitThread)
    {
      var index := waiters[e];
      if index != top {
        index.waitThread := top;
      }
      e := e + 1;
    }
  }

  // ----- lock_release() and thread_set_priority() on the kernel -----

  /** wait_thread points from threads on all_list to threads, and the running thread waits for
      nobody. */
  ghost predicate Tidy(k: Kernel)
    reads k, k.threads`waitThread
  {
    k.running in k.threads && (forall t :: t in k.allList ==> t in k.threads) && TidyWaits(k.running, WaitMap(k.threads), k.threads, k.allList)
  }

  ghost predicate TidyWaits<T>(running: T, wait: map<T, T>, threads: set<T>, all: seq<T>) {
    running !in wait && forall t :: t in wait ==> wait[t] in threads && t in all
  }

  lemma RewiredTidy<T>(running: T, wait: map<T, T>, threads: set<T>, all: seq<T>, waiters: seq<T>, top: T)
    requires TidyWaits(running, wait, threads, all) && running !in waiters && top in waiters
    requires forall u :: u in waiters ==> u in threads && u in all
    ensures TidyWaits(running, Rewired(wait, waiters, top), threads, all)
  {
  }

  lemma ClosedAdded<T>(wait: map<T, T>, priority: map<T, int>, t: T, h: T)
    requires Closed(wait, priority) && t in priority && h in priority
    ensures Closed(wait[t := h], priority)
  {
  }

  lemma NoWait(t: Thread, threads: set<Thread>)
    requires t in threads && t !in WaitMap(threads)
    ensures t.waitThread == null
  {
  }

  lemma TidyClosed(k: Kernel)
    requires Tidy(k)
    ensures Closed(WaitMap(k.threads), PriorityMap(k.threads)) && k.running !in WaitMap(k.threads)
  {
  }

  /** HighestDonated() on the whole of all_list. */
  lemma HighestIs(k: Kernel, t: Thread, base: int, p: int)
    requires Tidy(k) && base <= p
    requires forall u :: u in k.allList && u.waitThread == t ==> u.priority <= p
    requires p == base || exists u :: u in k.allList && u.waitThread == t && u.priority == p
    ensures IsHighest(WaitMap(k.threads), PriorityMap(k.threads), t, base, p)
  {
    var wait, priority := WaitMap(k.threads), PriorityMap(k.threads);
    if p != base {
      var u :| u in k.allList && u.waitThread == t && u.priority == p;
      assert u in wait && wait[u] == t && priority[u] == p;
    }
  }

  /** Both recompute the running thread's priority in this way. */
  method Recompute(k: Kernel, base: int)
    requires Tidy(k) && S.Inv(k.Abs())
    modifies k.running`priority
    ensures S.Inv(k.Abs()) && k.Abs() == Next(old(k.Abs()), S.SetPriority(k.running, k.running.priority))
    ensures IsHighest(WaitMap(k.threads), old(PriorityMap(k.threads)), k.running, base, k.running.priority)
    ensures PriorityMap(k.threads) == old(PriorityMap(k.threads))[k.running := k.running.priority]
    ensures old(Ordered(WaitMap(k.threads), PriorityMap(k.threads))) ==> Ordered(WaitMap(k.threads), PriorityMap(k.threads))
  {
    hide S.Inv, S.WellFormed, Ordered, IsHighest, WaitMap, PriorityMap;
    TidyClosed(k);
    Priorities(k.threads);
    ghost var wait, priority := WaitMap(k.threads), PriorityMap(k.threads);
    var max := HighestDonated(k.running, k.allList, base);
    HighestIs(k, k.running, base, max);
    k.SetPriority(k.running, max);
    Assigned(k, k.running, max, priority);
    if old(Ordered(WaitMap(k.threads), PriorityMap(k.threads))) {
      RecomputedOrdered(wait, priority, k.running, base, max);
    }
  }

  /** thread_set_priority() */
  method ThreadSetPriority(k: Kernel, newPriority: int)
    requires Tidy(k) && S.Inv(k.Abs())
    modifies k`readyList, k`running, k`threadTicks, k.threads`status, k.running`priority, k.running`basePriority
    ensures S.Inv(k.Abs()) && old(k.running).basePriority == newPriority
    ensures PrioritySet(old(k.running), newPriority, old(WaitMap(k.threads)), old(PriorityMap(k.threads)),
                        WaitMap(k.threads), PriorityMap(k.threads), old(k.running).priority)
    ensures var t := old(k.running);
            var st := Next(old(k.Abs()), S.SetPriority(t, t.priority));
            k.Abs() == if old(t.priority) > t.priority then Next(st, S.Yield) else st
  {
    hide S.Inv, S.WellFormed, Ordered, IsHighest, WaitMap, PriorityMap, Next;
    var t := k.running;
    ghost var wait, priority := WaitMap(k.threads), PriorityMap(k.threads);
    t.basePriority := newPriority;
    var oldPriority := t.priority;
    Recompute(k, t.basePriority);
    assert PrioritySet(t, newPriority, wait, priority, WaitMap(k.threads), PriorityMap(k.threads), t.priority);
    hide PrioritySet;
    YieldIf(k, oldPriority > t.priority);
  }

  method YieldIf(k: Kernel, lowered: bool)
    requires S.Inv(k.Abs())
    modifies k`readyList, k`running, k`threadTicks, k.threads`status
    ensures S.Inv(k.Abs()) && k.Abs() == if lowered then Next(old(k.Abs()), S.Yield) else old(k.Abs())
    ensures WaitMap(k.threads) == old(WaitMap(k.threads)) && PriorityMap(k.threads) == old(PriorityMap(k.threads))
  {
    hide S.Inv, S.WellFormed, WaitMap, PriorityMap, Next;
    if lowered {
      YieldOk(k.Abs());
      k.ThreadYield();
    }
  }

  /** A thread has the highest of its new base priority and what is donated to it, which keeps
      the order. */
  ghost predicate PrioritySet<T>(t: T, base: int, wait: map<T, T>, priority: map<T, int>, wait1: map<T, T>, priority1: map<T, int>, p: int) {
    && wait1 == wait && priority1 == priority[t := p] && IsHighest(wait, priority, t, base, p)
    && (Ordered(wait, priority) ==> Ordered(wait1, priority1))
  }

  /** The waits that lock_release() leaves. */
  ghost function Handed<T, E>(wait: map<T, T>, waiters: seq<T>, threads: map<T, S.Thread<E>>): map<T, T> {
    if waiters == [] then wait else Rewired(wait, waiters, waiters[S.Top(waiters, threads)])
  }

  ghost predicate Ranked<T, E>(waiters: seq<T>, threads: map<T, S.Thread<E>>) {
    waiters == [] || exists u :: u in waiters && S.Priority(threads, u) > S.PRI_MIN
  }

  /** lock_release() up to its scan of all_list. It uses a variable that has no value exactly
      when there are waiters but none above PRI_MIN. */
  method RewireWaiters(k: Kernel, waiters: seq<Thread>) returns (defined: bool)
    requires Tidy(k) && k.running !in waiters && forall u :: u in waiters ==> u in k.threads && u in k.allList
    modifies k.threads`waitThread
    ensures defined <==> Ranked(waiters, k.AbsThreads())
    ensures defined ==> Tidy(k) && WaitMap(k.threads) == Handed(old(WaitMap(k.threads)), waiters, k.AbsThreads())
    ensures defined && old(Ordered(WaitMap(k.threads), PriorityMap(k.threads)) && Acyclic(WaitMap(k.threads))) ==>
              Ordered(WaitMap(k.threads), PriorityMap(k.threads)) && Acyclic(WaitMap(k.threads))
  {
    hide S.Top, Ordered, Acyclic, WaitMap, PriorityMap, Rewired, TidyWaits, Ranked, Closed;
    NoneRanked(k, waiters);
    if waiters == [] {
      return true;
    }
    var found := TopWaiter(waiters);
    if found == null {
      return false;
    }
    var top: Thread := found;
    TopIsTop(k, waiters, top);
    ghost var wait, priority := WaitMap(k.threads), PriorityMap(k.threads);
    TidyClosed(k);
    Priorities(k.threads);
    RewiredTidy(k.running, wait, k.threads, k.allList, waiters, top);
    Rewire(waiters, top, k.threads);
    defined := true;
    if Ordered(wait, priority) && Acyclic(wait) {
      RewiredOk(wait, priority, waiters, top);
    }
  }

  lemma NoneRanked(k: Kernel, waiters: seq<Thread>)
    requires forall u :: u in waiters ==> u in k.threads
    ensures Ranked(waiters, k.AbsThreads()) <==> waiters == [] || !(forall u :: u in waiters ==> u.priority <= S.PRI_MIN)
  {
    k.AbsKeys();
  }

  lemma TopIsTop(k: Kernel, waiters: seq<Thread>, top: Thread)
    requires forall u :: u in waiters ==> u in k.threads
    requires exists i :: 0 <= i < |waiters| && waiters[i] == top && top.priority > S.PRI_MIN
                           && (forall j :: 0 <= j < |waiters| ==> waiters[j].priority <= top.priority)
                           && (forall j :: 0 <= j < i ==> waiters[j].priority < top.priority)
    ensures waiters[S.Top(waiters, k.AbsThreads())] == top && Ranked(waiters, k.AbsThreads())
    ensures forall u :: u in waiters ==> u.priority <= top.priority
  {
    hide S.Top;
    var i :| 0 <= i < |waiters| && waiters[i] == top && top.priority > S.PRI_MIN
                && (forall j :: 0 <= j < |waiters| ==> waiters[j].priority <= top.priority)
                && (forall j :: 0 <= j < i ==> waiters[j].priority < top.priority);
    assert S.IsTop(waiters, k.AbsThreads(), i);
    S.TopUnique(waiters, k.AbsThreads(), i);
    assert top in waiters && S.Priority(k.AbsThreads(), top) > S.PRI_MIN;
  }

  /** What lock_release() of thread t leaves in wait1 and as t's priority p: the waits are handed
      to the waiter that sema_up() will wake, t keeps what is still donated to it, and both the
      order and the ends of chains are kept. */
  ghost predicate HandedOver(t: Thread, base: int, wait: map<Thread, Thread>, priority: map<Thread, int>, waiters: seq<Thread>,
                             threads: map<Thread, S.Thread<Semaphore>>, wait1: map<Thread, Thread>, p: int) {
    && wait1 == Handed(wait, waiters, threads) && IsHighest(wait1, priority, t, base, p)
    && (Ordered(wait, priority) && Acyclic(wait) ==> Ordered(wait1, priority[t := p]) && Acyclic(wait1))
  }

  /** lock_release() before it clears the holder. */
  method PrepareRelease(k: Kernel, waiters: seq<Thread>) returns (defined: bool, max: int)
    requires Tidy(k) && k.running !in waiters && forall u :: u in waiters ==> u in k.threads && u in k.allList
    modifies k.threads`waitThread
    ensures defined <==> Ranked(waiters, k.AbsThreads())
    ensures defined ==>
              && Tidy(k)
              && HandedOver(k.running, k.running.basePriority, old(WaitMap(k.threads)), PriorityMap(k.threads), waiters,
                            k.AbsThreads(), WaitMap(k.threads), max)
  {
    hide S.Top, Ordered, Acyclic, IsHighest, WaitMap, PriorityMap, Handed, Ranked, TidyWaits;
    max := 0;
    defined := RewireWaiters(k, waiters);
    if defined {
      max := HighestDonated(k.running, k.allList, k.running.basePriority);
      HighestIs(k, k.running, k.running.basePriority, max);
      TidyClosed(k);
      Priorities(k.threads);
      if Ordered(WaitMap(k.threads), PriorityMap(k.threads)) {
        RecomputedOrdered(WaitMap(k.threads), PriorityMap(k.threads), k.running, k.running.basePriority, max);
      }
    }
  }

  /** lock_release() as one step: the yield of its sema_up() comes at the end. */
  method LockRelease(k: Kernel, lock: Lock) returns (defined: bool)
    requires Tidy(k) && k.Can(S.ClearHolder(lock.semaphore)) && lock.holder == k.running && LockKnown(k, lock)
    modifies lock`holder, k`readyList, k`running, k`threadTicks, k`holders, lock.semaphore
    modifies k.threads`status, k.threads`activity, k.running`priority, k.threads`waitThread
    ensures defined <==> old(Ranked(lock.semaphore.waiters, k.AbsThreads()))
    ensures defined ==> S.Inv(k.Abs()) && lock.holder == null && LockKnown(k, lock)
    ensures defined ==> HandedOver(old(k.running), old(k.running).basePriority, old(WaitMap(k.threads)), old(PriorityMap(k.threads)),
                                   old(lock.semaphore.waiters), old(k.AbsThreads()), WaitMap(k.threads), old(k.running).priority)
    ensures defined ==> PriorityMap(k.threads) == old(PriorityMap(k.threads))[old(k.running) := old(k.running).priority]
    ensures defined ==> k.Abs() == Next(Next(Handover(old(k.Abs()), lock.semaphore), S.SetPriority(old(k.running), old(k.running).priority)), S.Yield)
  {
    hide S.Inv, Kernel.Can, Kernel.Abs, Kernel.AbsThreads, WaitMap, PriorityMap, Next, Handover, Ranked, HandedOver, Tidy;
    RunningTidy(k);
    WaitersKnown(k, lock.semaphore);
    var max: int;
    defined, max := PrepareRelease(k, lock.semaphore.waiters);
    if defined {
      lock.holder := null;
      FinishRelease(k, lock.semaphore, max);
    }
  }

  lemma RunningTidy(k: Kernel)
    requires Tidy(k)
    ensures k.running in k.threads
  {
  }

  /** The end of lock_release(): the up, the assignment of the priority, the yield. */
  method FinishRelease(k: Kernel, s: Semaphore, max: int)
    requires Tidy(k) && k.Can(S.ClearHolder(s))
    modifies k`readyList, k`running, k`threadTicks, k`holders, s
    modifies k.threads`status, k.threads`activity, k.running`priority
    ensures S.Inv(k.Abs()) && WaitMap(k.threads) == old(WaitMap(k.threads)) && old(k.running).priority == max
    ensures k.holders == old(k.holders) - {s}
    ensures PriorityMap(k.threads) == old(PriorityMap(k.threads))[old(k.running) := max]
    ensures k.Abs() == Next(Next(Handover(old(k.Abs()), s), S.SetPriority(old(k.running), max)), S.Yield)
  {
    hide S.Inv, S.Enabled, WaitMap, PriorityMap, Next;
    var t := k.running;
    Priorities(k.threads);
    ghost var priority := PriorityMap(k.threads);
    k.HandOver(s);
    k.SetPriority(t, max);
    Assigned(k, t, max, priority);
    YieldIf(k, true);
  }

  ghost function Handover(st: S.State<Thread, Semaphore>, s: Semaphore): S.State<Thread, Semaphore> {
    Next(Next(st, S.ClearHolder(s)), S.ReleaseUp)
  }

  /** The waiters of a lock are threads on all_list, and not the running one. */
  lemma WaitersKnown(k: Kernel, s: Semaphore)
    requires k.Can(S.ClearHolder(s))
    ensures k.running !in s.waiters && forall u :: u in s.waiters ==> u in k.threads && u in k.allList
  {
    k.AbsKeys();
    assert S.QueueOk(k.Abs().semas[s].waiters, k.Abs().threads, s);
  }

  lemma Priorities(threads: set<Thread>)
    ensures PriorityMap(threads).Keys == threads && forall u :: u in threads ==> PriorityMap(threads)[u] == u.priority
  {
  }

  /** Assigning one priority, with the waits as they were. */
  lemma Assigned(k: Kernel, t: Thread, p: int, priority: map<Thread, int>)
    requires t in k.threads && t.priority == p && priority.Keys == k.threads
    requires forall u :: u in k.threads && u != t ==> priority[u] == u.priority
    ensures PriorityMap(k.threads) == priority[t := p]
  {
  }

  lemma YieldOk(st: S.State<Thread, Semaphore>)
    requires S.Inv(st)
    ensures S.WellFormed(st) && S.Inv(Next(st, S.Yield)) && S.Dispatch(Yielding(st)) == Next(st, S.Yield)
  {
    hide S.ListsOk, S.OneRunning, S.AllOk, S.Core, S.Dispatch;
    Steps.StepOk(st, S.Yield);
  }

  /** Top depends on the priorities alone. */
  lemma SameTop(list: seq<Thread>, threads: map<Thread, S.Thread<Semaphore>>, threads1: map<Thread, S.Thread<Semaphore>>)
    requires list != [] && forall u :: S.Priority(threads1, u) == S.Priority(threads, u)
    ensures S.Top(list, threads1) == S.Top(list, threads)
  {
    hide S.Top, S.Priority;
    assert S.IsTop(list, threads1, S.Top(list, threads));
    S.TopUnique(list, threads1, S.Top(list, threads));
  }

  lemma RaisedWakes(st: S.State<Thread, Semaphore>, s: Semaphore)
    requires S.WellFormed(st) && s in st.semas && st.semas[s].waiters != []
    ensures var w := st.semas[s].waiters;
            var k, st1 := S.Top(w, st.threads), S.Raised(st, s);
            && s in st1.semas && st1.semas[s].waiters == S.Without(w, k) && st1.semas[s].value == st.semas[s].value + 1
            && w[k] in st1.threads && st1.threads[w[k]].status == S.Ready && st1.threads[w[k]].activity == S.Downing(s, true)
  {
    hide S.Top, S.Without, S.ThreadsKnown;
    var w := st.semas[s].waiters;
    assert w[S.Top(w, st.threads)] in w;
  }

  /** s is free, and the waiter to which lock_release() handed the waits is awake for it. */
  ghost predicate Chosen(st: S.State<Thread, Semaphore>, st1: S.State<Thread, Semaphore>, s: Semaphore) {
    s in st.semas && st.semas[s].waiters != [] &&
    var w := st.semas[s].waiters;
    var k := S.Top(w, st.threads);
    && s in st1.semas && st1.semas[s].waiters == S.Without(w, k) && st1.semas[s].value == 1
    && w[k] in st1.threads && st1.threads[w[k]].status == S.Ready && st1.threads[w[k]].activity == S.Downing(s, true)
  }

  /** The waiter to which lock_release() hands the waits is the one that its sema_up() wakes. */
  lemma WakesTheChosen(st: S.State<Thread, Semaphore>, s: Semaphore)
    requires S.WellFormed(st) && S.Enabled(st, S.ClearHolder(s)) && S.Inv(st) && st.semas[s].waiters != []
    ensures Chosen(st, Handover(st, s), s)
  {
    hide S.ListsOk, S.OneRunning, S.AllOk, S.Core, S.Top, S.Without, S.Raised, S.SemasKnown, Next;
    Released(st, s);
    var st0 := S.SetActivity(st, st.running, S.Free).(holder := st.holder - {s});
    SameTop(st.semas[s].waiters, st.threads, st0.threads);
    RaisedWakes(st0, s);
    HeldValue(st, s);
  }

  /** The semaphore of a held lock is at 0. */
  lemma HeldValue(st: S.State<Thread, Semaphore>, s: Semaphore)
    requires S.Inv(st) && s in st.semas && s in st.holder
    ensures st.semas[s].value == 0
  {
    hide S.ListsOk, S.OneRunning, S.AllOk, S.CountsOk, S.WakeupsOk, S.SleepOk, S.WellFormed;
    assert S.LocksOk(st);
    Steps.HolderInside(st.threads, st.holder, s);
    Steps.InsideOne(st, s, st.holder[s]);
  }

  /** The walk of lock_acquire() lowers no priority, and restores the order and the ends of
      chains. */
  lemma DonateKeeps<T>(wait: map<T, T>, priority: map<T, int>, t: T, h: T, n: nat)
    requires Acyclic(wait) && Ordered(wait, priority) && Closed(wait, priority) && t in priority && h in priority
    requires t !in wait && Ends(wait[t := h], t, n)
    ensures Closed(wait[t := h], priority) && Acyclic(wait[t := h])
    ensures Ordered(wait[t := h], Donated(wait[t := h], priority, t, n))
    ensures forall u :: u in priority ==> Donated(wait[t := h], priority, t, n)[u] >= priority[u]
  {
    WaitAcyclic(wait, t, h, n);
    assert Ordered(wait[t := h] - {t}, priority);
    DonationExact(wait[t := h], priority, t, n);
  }
}
