/** What sema_up() and sema_down() promise over every run (threads/synch.c): the value counts the
    ups and the completed downs, and those who wait are woken in turn. The semaphores are those
    of locks and of any other code; a sleeper's own one is in SchedulingRuns. */
module SemaphoreRuns {
  import opened Common
  import opened Scheduling
  import opened SchedulingSteps
  import opened SchedulingRuns

  /** The step is a sema_up() of s, perhaps inside lock_release(). */
  ghost predicate Ups<T, S>(st: State<T, S>, e: Event<T, S>, s: S)
    requires WellFormed(st) && Enabled(st, e)
  {
    e == Up(s) || (e.ReleaseUp? && st.threads[st.running].activity == Releasing(s))
  }

  /** The step is a pass through the loop of sema_down() on s. */
  ghost predicate Tries<T, S>(st: State<T, S>, e: Event<T, S>, s: S)
    requires WellFormed(st) && Enabled(st, e)
  {
    e.Attempt? && st.threads[st.running].activity.s == s
  }

  /** The semaphore is one of a lock or of other code. */
  ghost predicate Shared<T, S>(st: State<T, S>, s: S) {
    s in st.semas && !st.semas[s].kind.Sleep?
  }

  /** The semaphores after a step are those before, but for s. */
  ghost predicate SemaKept<T, S>(st: State<T, S>, st1: State<T, S>, s: S) {
    s in st.semas && s in st1.semas && st1.semas[s] == st.semas[s]
  }

  lemma DecrementedSema<T, S>(st: State<T, S>, t: T, s: S)
    requires WellFormed(st) && SleepOk(st) && t in st.threads && Shared(st, s)
    ensures SemaKept(st, Decremented(st, t), s)
  {
    hide Top, Without, TicksOk, OwnSemas, ThreadsKnown;
    OwnNotSame(st, t, s);
  }

  lemma {:induction false} ForeachSema<T, S>(st: State<T, S>, list: seq<T>, s: S)
    requires Inv(st) && (forall t :: t in list ==> t in st.threads) && Shared(st, s)
    ensures SemaKept(st, Foreach(st, list), s)
    decreases |list|
  {
    hide ListsOk, OneRunning, AllOk, CountsOk, WakeupsOk, LocksOk, SleepOk, Decremented, ThreadsKnown, SemasKnown;
    if list != [] {
      assert list[0] in list;
      DecrementedSema(st, list[0], s);
      DecrementedOk(st, list[0]);
      ForeachSema(Decremented(st, list[0]), list[1..], s);
    }
  }

  lemma TickSema<T, S>(st: State<T, S>, s: S)
    requires WellFormed(st) && Enabled(st, Tick) && Inv(st) && Shared(st, s)
    ensures SemaKept(st, Moved(st, Tick), s)
  {
    hide ListsOk, OneRunning, AllOk, Core, Foreach, SemasKnown;
    CountedOk(st);
    ForeachSema(Counted(st), st.all, s);
  }

  lemma DispatchSema<T, S>(st: State<T, S>, s: S)
    requires WellFormed(st)
    ensures Dispatch(st).semas == st.semas
  {
  }

  /** t is ready to try its down of s again. */
  ghost predicate Roused<T, S>(threads: map<T, Thread<S>>, t: T, s: S) {
    t in threads && threads[t].status == Ready && threads[t].activity == Downing(s, true)
  }

  /** What an up of s does: one unit more, and it rouses, of those who wait, one that none
      outranks. */
  ghost predicate Upped<T, S>(s: S, m: Sema<T>, m1: Sema<T>, threads: map<T, Thread<S>>, threads1: map<T, Thread<S>>) {
    && m1.value == m.value + 1
    && (m.waiters == [] ==> m1.waiters == [])
    && (m.waiters != [] ==>
          exists k: nat :: IsTop(m.waiters, threads, k) && m1.waiters == Without(m.waiters, k) && Roused(threads1, m.waiters[k], s))
  }

  lemma RaisedSema<T, S>(st: State<T, S>, s: S, r: S)
    requires WellFormed(st) && s in st.semas && r in st.semas
    ensures r in Raised(st, s).semas
    ensures r != s ==> SemaKept(st, Raised(st, s), r)
    ensures r == s ==> Upped(s, st.semas[s], Raised(st, s).semas[s], st.threads, Raised(st, s).threads)
                       && Raised(st, s).semas[s].kind == st.semas[s].kind
  {
    hide Without, Priority;
    var m := st.semas[s];
    if m.waiters != [] {
      var k := Top(m.waiters, st.threads);
      assert m.waiters[k] in m.waiters;
      assert IsTop(m.waiters, st.threads, k);
    }
  }

  lemma ReleasedSema<T, S>(st: State<T, S>, r: S)
    requires WellFormed(st) && Enabled(st, ReleaseUp) && r in st.semas
    ensures var s, st1 := st.threads[st.running].activity.s, Moved(st, ReleaseUp);
            && r in st1.semas
            && (r != s ==> SemaKept(st, st1, r))
            && (r == s ==> Upped(s, st.semas[s], st1.semas[s], st.threads, st1.threads) && st1.semas[s].kind == st.semas[s].kind)
  {
    hide Raised, Upped, Without;
    var s, st0 := st.threads[st.running].activity.s, SetActivity(st, st.running, Free);
    ThreadWellFormed(st, st.running, st.threads[st.running].(activity := Free));
    RaisedSema(st0, s, r);
    if r == s {
      UppedSame(s, st0.semas[s], Raised(st0, s).semas[s], st0.threads, st.threads, Raised(st0, s).threads);
    }
  }

  lemma UppedSame<T, S>(s: S, m: Sema<T>, m1: Sema<T>, threads: map<T, Thread<S>>, threads1: map<T, Thread<S>>, after: map<T, Thread<S>>)
    requires Upped(s, m, m1, threads, after) && forall t :: Priority(threads1, t) == Priority(threads, t)
    ensures Upped(s, m, m1, threads1, after)
  {
    hide Priority, Without, Roused;
    if m.waiters != [] {
      var k: nat :| IsTop(m.waiters, threads, k) && m1.waiters == Without(m.waiters, k) && Roused(after, m.waiters[k], s);
      assert IsTop(m.waiters, threads1, k);
    }
  }

  /** What a step does to semaphore s. */
  lemma StepSema<T, S>(st: State<T, S>, e: Event<T, S>, s: S)
    requires Inv(st) && Enabled(st, e) && Shared(st, s)
    ensures Shared(Step(st, e), s)
    ensures var m, m1 := st.semas[s], Step(st, e).semas[s];
            && (Ups(st, e, s) ==> Upped(s, m, m1, st.threads, Step(st, e).threads))
            && (Tries(st, e, s) && m.value == 0 ==> m1.value == 0 && m1.waiters == m.waiters + [st.running])
            && ((Tries(st, e, s) || e == TryDown(s)) && m.value > 0 ==> m1.value == m.value - 1 && m1.waiters == m.waiters)
            && (!Ups(st, e, s) && !Tries(st, e, s) && (e == TryDown(s) ==> m.value == 0) ==> m1 == m)
  {
    hide ListsOk, OneRunning, AllOk, Core, Raised, Dispatch, Foreach, Upped, SemasKnown, Position;
    MovedWellFormed(st, e);
    DispatchSema(Moved(st, e), s);
    if e.Up? {
      RaisedSema(st, e.s, s);
    } else if e.ReleaseUp? {
      ReleasedSema(st, s);
    } else if e.Tick? {
      TickSema(st, s);
    }
  }

  // ----- counting -----

  /** The step completes a down of s: sema_down() leaves its loop, or sema_try_down() says so. */
  ghost predicate Completes<T, S>(st: State<T, S>, e: Event<T, S>, s: S)
    requires WellFormed(st) && Enabled(st, e)
  {
    (Tries(st, e, s) && st.running in Step(st, e).threads && !Step(st, e).threads[st.running].activity.Downing?)
    || (e == TryDown(s) && st.semas[s].value > 0)
  }

  /** sema_down() leaves its loop exactly if the value was positive; else the thread blocks. */
  lemma AttemptExact<T, S>(st: State<T, S>, s: S)
    requires WellFormed(st) && Enabled(st, Attempt) && Inv(st) && st.threads[st.running].activity.s == s
    ensures var st1 := Step(st, Attempt);
            && st.running in st1.threads
            && (st.semas[s].value > 0 <==> !st1.threads[st.running].activity.Downing?)
            && (st.semas[s].value > 0 ==> st1.running == st.running && st1.threads[st.running].status == Running)
            && (st.semas[s].value == 0 && st.running != st.idle ==> st1.threads[st.running].status == Blocked && st1.running != st.running)
  {
    hide ListsOk, AllOk, Core, Dispatch;
    MovedWellFormed(st, Attempt);
    if st.semas[s].value == 0 {
      MovedLists(st, Attempt);
      DispatchedOther(Moved(st, Attempt), st.running);
    }
  }

  /** schedule() leaves alone a thread that is neither ready nor the idle one. */
  lemma DispatchedOther<T, S>(st: State<T, S>, t: T)
    requires WellFormed(st) && t in st.threads && t != st.idle && t !in st.ready
    ensures t in Dispatch(st).threads && Dispatch(st).threads[t] == st.threads[t] && Dispatch(st).running != t
  {
    hide Top, Without;
  }

  ghost function UpCount<T, S>(st: State<T, S>, es: seq<Event<T, S>>, s: S): nat
    requires Inv(st) && Possible(st, es)
    decreases |es|
  {
    if es == [] then 0
    else
      StepOk(st, es[0]);
      (if Ups(st, es[0], s) then 1 else 0) + UpCount(Step(st, es[0]), es[1..], s)
  }

  ghost function DownCount<T, S>(st: State<T, S>, es: seq<Event<T, S>>, s: S): nat
    requires Inv(st) && Possible(st, es)
    decreases |es|
  {
    if es == [] then 0
    else
      StepOk(st, es[0]);
      (if Completes(st, es[0], s) then 1 else 0) + DownCount(Step(st, es[0]), es[1..], s)
  }

  lemma StepCount<T, S>(st: State<T, S>, e: Event<T, S>, s: S)
    requires Inv(st) && Enabled(st, e) && Shared(st, s)
    ensures Shared(Step(st, e), s)
    ensures Step(st, e).semas[s].value + (if Completes(st, e, s) then 1 else 0) == st.semas[s].value + (if Ups(st, e, s) then 1 else 0)
  {
    hide Inv, Step, Enabled, WellFormed;
    InvWellFormed(st);
    StepSema(st, e, s);
    if Tries(st, e, s) {
      AttemptExact(st, s);
    }
  }

  /** In every run, the value of a semaphore is what it was, and one more for each up, and one
      less for each down that was completed. */
  lemma {:induction false} ValueConserved<T, S>(st: State<T, S>, es: seq<Event<T, S>>, s: S)
    requires Inv(st) && Possible(st, es) && Shared(st, s)
    ensures Shared(After(st, es), s)
    ensures After(st, es).semas[s].value + DownCount(st, es, s) == st.semas[s].value + UpCount(st, es, s)
    decreases |es|
  {
    hide Inv, Step, Enabled, Completes, Ups, Shared;
    InvWellFormed(st);
    if es != [] {
      StepOk(st, es[0]);
      StepCount(st, es[0], s);
      ValueConserved(Step(st, es[0]), es[1..], s);
    }
  }

  // ----- waiting in turn -----

  lemma StepRank<T, S>(st: State<T, S>, e: Event<T, S>, t: T)
    requires Inv(st) && Enabled(st, e) && TopRank(st, t) && Fixed(e, Priority(st.threads, t))
    ensures TopRank(Step(st, e), t)
    ensures forall u :: u in st.threads ==> Priority(Step(st, e).threads, u) == Priority(st.threads, u)
  {
    hide ListsOk, OneRunning, AllOk, Core, Moved, Switches, Dispatch, Priority, SemasKnown;
    MovedWellFormed(st, e);
    MovedGrown(st, e, Priority(st.threads, t));
    SamePriorities(Moved(st, e));
    DispatchKeys(Moved(st, e));
    RankKept(st, Moved(st, e), t);
    if Switches(st, e) {
      RankSame(Moved(st, e), Dispatch(Moved(st, e)), t);
    }
  }

  lemma RankSame<T, S>(st: State<T, S>, st1: State<T, S>, t: T)
    requires TopRank(st, t) && st1.threads.Keys == st.threads.Keys && forall u :: Priority(st1.threads, u) == Priority(st.threads, u)
    ensures TopRank(st1, t)
  {
    hide Priority;
  }

  lemma RankKept<T, S>(st: State<T, S>, st1: State<T, S>, t: T)
    requires Grown(st, st1) && TopRank(st, t)
    requires forall u :: u in st1.threads && u !in st.threads ==> PRI_MIN <= Priority(st1.threads, u) <= Priority(st.threads, t)
    ensures TopRank(st1, t)
  {
    hide Priority;
  }

  lemma WaitersKnown<T, S>(st: State<T, S>, s: S)
    requires WellFormed(st) && s in st.semas
    ensures forall t :: t in st.semas[s].waiters ==> t in st.threads
  {
  }

  lemma UppedCloser<T, S>(s: S, m: Sema<T>, m1: Sema<T>, threads: map<T, Thread<S>>, threads1: map<T, Thread<S>>, t: T)
    requires Upped(s, m, m1, threads, threads1) && t in m.waiters
    requires forall u :: u in m.waiters ==> PRI_MIN <= Priority(threads, u) <= Priority(threads, t)
    ensures Roused(threads1, t, s) || (t in m1.waiters && Before(m1.waiters, threads, t) + 1 <= Before(m.waiters, threads, t))
  {
    hide Priority, Without, Before, Roused;
    var k: nat :| IsTop(m.waiters, threads, k) && m1.waiters == Without(m.waiters, k) && Roused(threads1, m.waiters[k], s);
    if m.waiters[k] != t {
      var i :| 0 <= i < |m.waiters| && m.waiters[i] == t;
      assert Priority(threads, m.waiters[i]) <= PRI_MIN || Priority(threads, m.waiters[i]) <= Priority(threads, m.waiters[k]);
      assert m.waiters[k] in m.waiters;
      assert Priority(threads, m.waiters[k]) >= Priority(threads, t);
      BeforeRemoved(m.waiters, threads, t, k);
    }
  }

  /** An up brings t closer to being roused, and no step sets it back. */
  lemma WaitsCloser<T, S>(st: State<T, S>, e: Event<T, S>, s: S, t: T)
    requires Inv(st) && Enabled(st, e) && Shared(st, s) && t in st.semas[s].waiters
    requires TopRank(st, t) && Fixed(e, Priority(st.threads, t))
    ensures var st1 := Step(st, e);
            && Shared(st1, s) && TopRank(st1, t) && Priority(st1.threads, t) == Priority(st.threads, t)
            && ((Ups(st, e, s) && Roused(st1.threads, t, s)) ||
                (t in st1.semas[s].waiters &&
                 Before(st1.semas[s].waiters, st1.threads, t) + (if Ups(st, e, s) then 1 else 0) <= Before(st.semas[s].waiters, st.threads, t)))
  {
    hide Inv, Step, Enabled, Upped, Before, Priority, Roused, Fixed, Ups, Tries;
    InvWellFormed(st);
    StepOk(st, e);
    InvWellFormed(Step(st, e));
    StepRank(st, e, t);
    StepSema(st, e, s);
    WaitersKnown(st, s);
    var st1, m, m1 := Step(st, e), st.semas[s], Step(st, e).semas[s];
    if Ups(st, e, s) {
      UppedCloser(s, m, m1, st.threads, st1.threads, t);
      UppedWithin(s, m, m1, st.threads, st1.threads);
      if t in m1.waiters {
        BeforeSame(m1.waiters, st.threads, st1.threads, t);
      }
    } else {
      if m1.waiters != m.waiters {
        BeforeAppended(m.waiters, [st.running], st.threads, t);
      }
      BeforeSameIn(m1.waiters, st, st1, t);
    }
  }

  lemma UppedWithin<T, S>(s: S, m: Sema<T>, m1: Sema<T>, threads: map<T, Thread<S>>, threads1: map<T, Thread<S>>)
    requires Upped(s, m, m1, threads, threads1)
    ensures forall t :: t in m1.waiters ==> t in m.waiters
  {
  }

  lemma BeforeSameIn<T, S>(list: seq<T>, st: State<T, S>, st1: State<T, S>, t: T)
    requires t in st.threads && forall u :: u in list ==> u in st.threads
    requires forall u :: u in st.threads ==> Priority(st1.threads, u) == Priority(st.threads, u)
    ensures Before(list, st1.threads, t) == Before(list, st.threads, t)
  {
    BeforeSame(list, st.threads, st1.threads, t);
  }

  /** A thread that none outranks waits for k + 1 ups at most, where k threads of its rank are
      before it among the waiters, whatever else happens meanwhile at fixed priorities. */
  lemma {:induction false} RousedInTurn<T, S>(st: State<T, S>, es: seq<Event<T, S>>, s: S, t: T) returns (n: nat)
    requires Inv(st) && Possible(st, es) && Shared(st, s) && t in st.semas[s].waiters && TopRank(st, t)
    requires forall i :: 0 <= i < |es| ==> Fixed(es[i], Priority(st.threads, t))
    requires UpCount(st, es, s) >= Before(st.semas[s].waiters, st.threads, t) + 1
    ensures n <= |es| && Possible(st, es[..n]) && Roused(After(st, es[..n]).threads, t, s)
    ensures UpCount(st, es[..n], s) <= Before(st.semas[s].waiters, st.threads, t) + 1
    decreases |es|
  {
    hide Inv, Before, Ups, Enabled, Step, Priority, TopRank, Fixed, Roused, Shared;
    InvWellFormed(st);
    var st1 := Step(st, es[0]);
    StepOk(st, es[0]);
    SharedKnown(st, s);
    WaitsCloser(st, es[0], s, t);
    SharedKnown(st1, s);
    if Ups(st, es[0], s) && Roused(st1.threads, t, s) {
      n := 1;
      assert es[..1] == [es[0]] && es[..1][1..] == [];
    } else {
      var m := RousedInTurn(st1, es[1..], s, t);
      n := m + 1;
      assert es[..n][0] == es[0] && es[..n][1..] == es[1..][..m];
    }
  }

  lemma SharedKnown<T, S>(st: State<T, S>, s: S)
    requires Shared(st, s)
    ensures s in st.semas
  {
  }
}
