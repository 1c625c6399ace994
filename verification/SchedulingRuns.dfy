/** What the scheduler, the semaphores, the locks and timer_sleep() promise over every run,
    whatever the interleaving and wherever the timer interrupts. */
module SchedulingRuns {
  import opened Common
  import opened Scheduling
  import opened SchedulingSteps

  /** The events can happen one after the other. */
  ghost predicate Possible<T, S>(st: State<T, S>, es: seq<Event<T, S>>)
    requires Inv(st)
    decreases |es|
  {
    es == [] || (Enabled(st, es[0]) && (StepOk(st, es[0]); Possible(Step(st, es[0]), es[1..])))
  }

  ghost function After<T, S>(st: State<T, S>, es: seq<Event<T, S>>): (r: State<T, S>)
    requires Inv(st) && Possible(st, es)
    ensures Inv(r)
    decreases |es|
  {
    if es == [] then st
    else
      StepOk(st, es[0]);
      After(Step(st, es[0]), es[1..])
  }

  const PRI_DEFAULT: int := 31

  /** thread_start() has run: main runs, the idle thread has blocked. */
  ghost function Start<T, S>(main: T, idle: T, mainSema: S, idleSema: S): State<T, S> {
    State(map[main := Thread(Running, PRI_DEFAULT, -1, mainSema, Free), idle := Thread(Blocked, PRI_MIN, -1, idleSema, Free)],
          map[mainSema := Sema(Kind.Sleep, 0, 0, [], 0, 0), idleSema := Sema(Kind.Sleep, 0, 0, [], 0, 0)],
          map[], [], [main, idle], main, idle, 0)
  }

  lemma StartLists<T, S>(main: T, idle: T, mainSema: S, idleSema: S)
    requires main != idle && mainSema != idleSema
    ensures var st := Start(main, idle, mainSema, idleSema);
            WellFormed(st) && ListsOk(st) && OneRunning(st) && AllOk(st)
  {
  }

  lemma StartCore<T, S>(main: T, idle: T, mainSema: S, idleSema: S)
    requires main != idle && mainSema != idleSema && WellFormed(Start(main, idle, mainSema, idleSema))
    ensures Core(Start(main, idle, mainSema, idleSema))
  {
  }

  lemma StartOk<T, S>(main: T, idle: T, mainSema: S, idleSema: S)
    requires main != idle && mainSema != idleSema
    ensures Inv(Start(main, idle, mainSema, idleSema))
  {
    hide ListsOk, OneRunning, AllOk, Core;
    StartLists(main, idle, mainSema, idleSema);
    StartCore(main, idle, mainSema, idleSema);
  }

  /** A thread's list element is on one list at most: the ready list or one semaphore's. */
  lemma OneListAtMost<T, S>(st: State<T, S>, t: T, s: S, r: S)
    requires Inv(st) && t in st.threads && s in st.semas && r in st.semas
    ensures t in st.ready ==> st.threads[t].status == Ready && t !in st.semas[s].waiters
    ensures t in st.semas[s].waiters ==> st.threads[t].status == Blocked && (t in st.semas[r].waiters ==> s == r)
  {
  }

  /** Locks exclude: two threads between a finished down of lock s and its up are the same one,
      and a holder that is not null is that one. */
  lemma MutualExclusion<T, S>(st: State<T, S>, s: S, t: T, u: T)
    requires Inv(st) && s in st.semas && st.semas[s].kind.Mutex?
    requires t in Inside(st.threads, st.holder, s) && u in Inside(st.threads, st.holder, s)
    ensures t == u && st.semas[s].value == 0 && (s in st.holder ==> st.holder[s] == t)
  {
    hide Core, ListsOk, OneRunning, AllOk;
    CoreLocks(st);
    InsideOne(st, s, t);
    HolderInside(st.threads, st.holder, s);
  }

  lemma CoreLocks<T, S>(st: State<T, S>)
    requires WellFormed(st) && Core(st)
    ensures LocksOk(st)
  {
  }

  /** What holds at every point of every run, from boot on. */
  lemma EveryRun<T, S>(main: T, idle: T, mainSema: S, idleSema: S, es: seq<Event<T, S>>, s: S)
    requires main != idle && mainSema != idleSema
    requires (StartOk(main, idle, mainSema, idleSema); Possible(Start(main, idle, mainSema, idleSema), es))
    ensures (StartOk(main, idle, mainSema, idleSema);
             var st := After(Start(main, idle, mainSema, idleSema), es);
             && ListsOk(st) && OneRunning(st)
             && (s in st.semas ==>
                   && st.semas[s].value + st.semas[s].downs == st.semas[s].initial + st.semas[s].ups
                   && (st.semas[s].waiters != [] ==> st.semas[s].value <= |Woken(st.threads, s)|)
                   && (st.semas[s].kind.Mutex? ==> st.semas[s].value + |Inside(st.threads, st.holder, s)| == 1)))
  {
    hide Start, ListsOk, OneRunning, SleepOk, Woken, Inside;
    StartOk(main, idle, mainSema, idleSema);
  }

  // ----- who runs after a switch -----

  /** After a switch, and so after every thread_yield(), no ready thread outranks the running
      one, exactly when one that could be chosen has a priority above PRI_MIN or the first in
      the list has the greatest. Nothing is ready if the idle thread was chosen. */
  lemma AfterSwitch<T, S>(st: State<T, S>, e: Event<T, S>)
    requires Inv(st) && Enabled(st, e) && Switches(st, e)
    ensures var list, st1 := Moved(st, e).ready, Step(st, e);
            && (list == [] ==> st1.running == st1.idle && st1.ready == [])
            && (list != [] ==>
                  ((forall t :: t in st1.ready ==> Priority(st1.threads, t) <= Priority(st1.threads, st1.running)) <==>
                   (exists t :: t in list && Priority(st1.threads, t) > PRI_MIN)
                   || (forall t :: t in list ==> Priority(st1.threads, t) <= Priority(st1.threads, list[0]))))
  {
    hide ListsOk, OneRunning, AllOk, Core, Moved, Switches, Dispatch, Scheduled, Priority;
    MovedLists(st, e);
    ReadyParts(Moved(st, e));
    Dispatched(Moved(st, e));
  }

  lemma Dispatched<T, S>(st: State<T, S>)
    requires WellFormed(st) && NoDuplicates(st.ready)
    ensures var list, st1 := st.ready, Dispatch(st);
            && (list == [] ==> st1.running == st1.idle && st1.ready == [])
            && (list != [] ==>
                  ((forall t :: t in st1.ready ==> Priority(st1.threads, t) <= Priority(st1.threads, st1.running)) <==>
                   (exists t :: t in list && Priority(st1.threads, t) > PRI_MIN)
                   || (forall t :: t in list ==> Priority(st1.threads, t) <= Priority(st1.threads, list[0]))))
  {
    hide Top, Without, NoDuplicates, SemasKnown, Priority;
    var list := st.ready;
    if list != [] {
      var k := Top(list, st.threads);
      assert list[k] in list;
      SamePriorities(st);
      TopIsGreatest(list, st.threads);
      WithoutOne(list, k);
    }
  }

  lemma SamePriorities<T, S>(st: State<T, S>)
    requires WellFormed(st)
    ensures forall t :: Priority(Dispatch(st).threads, t) == Priority(st.threads, t)
  {
  }

  lemma ReadyParts<T, S>(st: State<T, S>)
    requires WellFormed(st) && Scheduled(st, true)
    ensures NoDuplicates(st.ready)
  {
  }

  /** With priorities at least PRI_MIN, as init_thread() asserts them, that is always. */
  lemma NobodyOutranks<T, S>(st: State<T, S>, e: Event<T, S>, t: T)
    requires Inv(st) && Enabled(st, e) && Switches(st, e)
    requires forall u :: u in Step(st, e).threads ==> Priority(Step(st, e).threads, u) >= PRI_MIN
    requires t in Step(st, e).ready
    ensures Priority(Step(st, e).threads, t) <= Priority(Step(st, e).threads, Step(st, e).running)
  {
    hide ListsOk, OneRunning, AllOk, Core, Moved, Dispatch, Switches;
    MovedLists(st, e);
    AfterSwitch(st, e);
    StepOk(st, e);
    var list, st1 := Moved(st, e).ready, Step(st, e);
    ReadyKnown(st1);
    SamePriorities(Moved(st, e));
    FirstIn(list);
    if list != [] {
      if forall u :: u in list ==> Priority(st1.threads, u) <= PRI_MIN {
        ReadyKnown(Moved(st, e));
        DispatchKeys(Moved(st, e));
        assert list[0] in list;
      }
    }
  }

  lemma ReadyKnown<T, S>(st: State<T, S>)
    requires WellFormed(st)
    ensures forall t :: t in st.ready ==> t in st.threads
  {
  }

  lemma DispatchKeys<T, S>(st: State<T, S>)
    requires WellFormed(st)
    ensures Dispatch(st).threads.Keys == st.threads.Keys
  {
  }

  // ----- round robin -----

  /** The threads before t in the list that do not rank below it. */
  ghost function Before<T, S>(list: seq<T>, threads: map<T, Thread<S>>, t: T): nat {
    if list == [] || list[0] == t then 0
    else (if Priority(threads, list[0]) >= Priority(threads, t) then 1 else 0) + Before(list[1..], threads, t)
  }

  lemma {:induction false} BeforeAppended<T, S>(list: seq<T>, more: seq<T>, threads: map<T, Thread<S>>, t: T)
    requires t in list
    ensures Before(list + more, threads, t) == Before(list, threads, t)
  {
    if list[0] != t {
      assert (list + more)[1..] == list[1..] + more;
      BeforeAppended(list[1..], more, threads, t);
    }
  }

  lemma {:induction false} BeforeRemoved<T, S>(list: seq<T>, threads: map<T, Thread<S>>, t: T, k: nat)
    requires k < |list| && list[k] != t && t in list && Priority(threads, list[k]) >= Priority(threads, t)
    requires forall j :: 0 <= j < k ==> Priority(threads, list[j]) < Priority(threads, t)
    ensures t in Without(list, k) && Before(list, threads, t) == Before(Without(list, k), threads, t) + 1
  {
    if k == 0 {
      assert Without(list, 0) == list[1..];
    } else {
      assert list[0] != t;
      BeforeRemoved(list[1..], threads, t, k - 1);
      assert Without(list, k) == [list[0]] + Without(list[1..], k - 1);
      assert Without(list, k)[1..] == Without(list[1..], k - 1);
    }
  }

  lemma {:induction false} BeforeSame<T, S>(list: seq<T>, threads: map<T, Thread<S>>, threads1: map<T, Thread<S>>, t: T)
    requires Priority(threads1, t) == Priority(threads, t)
    requires forall u :: u in list ==> Priority(threads1, u) == Priority(threads, u)
    ensures Before(list, threads1, t) == Before(list, threads, t)
  {
    if list != [] && list[0] != t {
      BeforeSame(list[1..], threads, threads1, t);
    }
  }

  /** No thread outranks t, or ranks below the lowest priority. */
  ghost predicate TopRank<T, S>(st: State<T, S>, t: T) {
    t in st.threads && forall u :: u in st.threads ==> PRI_MIN <= Priority(st.threads, u) <= Priority(st.threads, t)
  }

  /** The event changes no priority, and creates no thread that outranks p. */
  ghost predicate Fixed<T, S>(e: Event<T, S>, p: int) {
    !e.SetPriority? && (e.Create? ==> PRI_MIN <= e.priority <= p)
  }

  /** The ready list only grows at its end, and priorities stay. */
  ghost predicate Grown<T, S>(st: State<T, S>, st1: State<T, S>) {
    && st.ready <= st1.ready && (forall u :: u in st.threads ==> u in st1.threads && Priority(st1.threads, u) == Priority(st.threads, u))
  }

  lemma RaisedGrown<T, S>(st: State<T, S>, s: S)
    requires WellFormed(st) && s in st.semas
    ensures Grown(st, Raised(st, s)) && Raised(st, s).threads.Keys == st.threads.Keys
  {
    hide Top, Without;
    RaisedWellFormed(st, s);
    if st.semas[s].waiters != [] {
      var w := st.semas[s].waiters;
      assert w[Top(w, st.threads)] in w;
    }
  }

  lemma DecrementedGrown<T, S>(st: State<T, S>, t: T)
    requires WellFormed(st) && t in st.threads
    ensures Grown(st, Decremented(st, t)) && Decremented(st, t).threads.Keys == st.threads.Keys
  {
    hide Raised;
    var left := if st.threads[t].ticks > 0 then st.threads[t].ticks - 1 else st.threads[t].ticks;
    var st1 := SetTicks(st, t, if left == 0 then -1 else left);
    RaisedGrown(st1, st.threads[t].sema);
  }

  lemma {:induction false} ForeachGrown<T, S>(st: State<T, S>, list: seq<T>)
    requires WellFormed(st) && forall t :: t in list ==> t in st.threads
    ensures Grown(st, Foreach(st, list)) && Foreach(st, list).threads.Keys == st.threads.Keys
    decreases |list|
  {
    hide Decremented, ThreadsKnown, SemasKnown;
    if list != [] {
      assert list[0] in list;
      DecrementedWellFormed(st, list[0]);
      DecrementedGrown(st, list[0]);
      ForeachGrown(Decremented(st, list[0]), list[1..]);
    }
  }

  lemma ReleasedGrown<T, S>(st: State<T, S>)
    requires WellFormed(st) && Enabled(st, ReleaseUp)
    ensures Grown(st, Moved(st, ReleaseUp)) && Moved(st, ReleaseUp).threads.Keys == st.threads.Keys
  {
    hide Raised;
    ThreadWellFormed(st, st.running, st.threads[st.running].(activity := Free));
    RaisedGrown(SetActivity(st, st.running, Free), st.threads[st.running].activity.s);
  }

  lemma DownGrown<T, S>(st: State<T, S>, e: Event<T, S>)
    requires WellFormed(st) && Enabled(st, e) && (e.Attempt? || e.TryDown?)
    ensures Grown(st, Moved(st, e)) && Moved(st, e).threads.Keys == st.threads.Keys
  {
  }

  lemma MovedGrown<T, S>(st: State<T, S>, e: Event<T, S>, p: int)
    requires WellFormed(st) && Enabled(st, e) && Fixed(e, p)
    ensures Grown(st, Moved(st, e))
    ensures forall u :: u in Moved(st, e).threads && u !in st.threads ==> PRI_MIN <= Priority(Moved(st, e).threads, u) <= p
  {
    hide Raised, Lowered, Queued, Foreach, SemasKnown, Position, Without;
    if e.Attempt? || e.TryDown? {
      DownGrown(st, e);
    } else if e.Up? {
      RaisedGrown(st, e.s);
    } else if e.ReleaseUp? {
      ReleasedGrown(st);
    } else if e.Tick? {
      ForeachGrown(Counted(st), st.all);
    }
  }

  /** One step brings t closer to running by a switch, and no step sets it back. */
  lemma Closer<T, S>(st: State<T, S>, e: Event<T, S>, t: T)
    requires Inv(st) && Enabled(st, e) && t in st.ready && TopRank(st, t) && Fixed(e, Priority(st.threads, t))
    ensures var st1 := Step(st, e);
            && Inv(st1) && TopRank(st1, t)
            && (st1.running == t ||
                (t in st1.ready && Before(st1.ready, st1.threads, t) + (if Switches(st, e) then 1 else 0) <= Before(st.ready, st.threads, t)))
  {
    hide ListsOk, OneRunning, AllOk, Core, Moved, Switches, Dispatch, Grown, Before, SemasKnown;
    StepOk(st, e);
    MovedWellFormed(st, e);
    var st0 := Moved(st, e);
    MovedGrown(st, e, Priority(st.threads, t));
    GrownRank(st, st0, t);
    if Switches(st, e) {
      DispatchCloser(st0, t);
    }
  }

  lemma GrownRank<T, S>(st: State<T, S>, st1: State<T, S>, t: T)
    requires Grown(st, st1) && t in st.ready && TopRank(st, t) && (forall u :: u in st.ready ==> u in st.threads)
    requires forall u :: u in st1.threads && u !in st.threads ==> PRI_MIN <= Priority(st1.threads, u) <= Priority(st.threads, t)
    ensures t in st1.ready && TopRank(st1, t) && Before(st1.ready, st1.threads, t) == Before(st.ready, st.threads, t)
  {
    hide Before, Priority;
    assert st1.ready == st.ready + st1.ready[|st.ready|..];
    BeforeAppended(st.ready, st1.ready[|st.ready|..], st1.threads, t);
    BeforeSame(st.ready, st.threads, st1.threads, t);
  }

  /** schedule() takes the first thread of top rank. */
  lemma DispatchCloser<T, S>(st: State<T, S>, t: T)
    requires WellFormed(st) && t in st.ready && TopRank(st, t)
    ensures TopRank(Dispatch(st), t)
    ensures Dispatch(st).running == t ||
            (t in Dispatch(st).ready && Before(Dispatch(st).ready, Dispatch(st).threads, t) + 1 <= Before(st.ready, st.threads, t))
  {
    hide Before, Top, Without, SemasKnown, Priority;
    var k := Top(st.ready, st.threads);
    SamePriorities(st);
    DispatchKeys(st);
    TopOfRank(st, t, k);
    if st.ready[k] != t {
      BeforeRemoved(st.ready, st.threads, t, k);
      BeforeSame(Without(st.ready, k), st.threads, Dispatch(st).threads, t);
    }
  }

  lemma TopOfRank<T, S>(st: State<T, S>, t: T, k: nat)
    requires WellFormed(st) && t in st.ready && TopRank(st, t) && IsTop(st.ready, st.threads, k)
    ensures Priority(st.threads, st.ready[k]) >= Priority(st.threads, t)
    ensures forall j :: 0 <= j < k ==> Priority(st.threads, st.ready[j]) < Priority(st.threads, t)
  {
    hide Priority, SemasKnown;
    var i :| 0 <= i < |st.ready| && st.ready[i] == t;
    assert Priority(st.threads, st.ready[i]) <= PRI_MIN || Priority(st.threads, st.ready[i]) <= Priority(st.threads, st.ready[k]);
    assert st.ready[k] in st.threads;
    forall j | 0 <= j < k
      ensures Priority(st.threads, st.ready[j]) < Priority(st.threads, t)
    {
      assert Priority(st.threads, st.ready[j]) < Priority(st.threads, st.ready[k]);
    }
  }

  ghost function SwitchCount<T, S>(st: State<T, S>, es: seq<Event<T, S>>): nat
    requires Inv(st) && Possible(st, es)
    decreases |es|
  {
    if es == [] then 0
    else
      StepOk(st, es[0]);
      (if Switches(st, es[0]) then 1 else 0) + SwitchCount(Step(st, es[0]), es[1..])
  }

  /** A ready thread that none outranks runs within k + 1 switches, where k threads of its rank
      are before it in the list, whatever else happens meanwhile at fixed priorities. */
  lemma {:induction false} BoundedWait<T, S>(st: State<T, S>, es: seq<Event<T, S>>, t: T) returns (n: nat)
    requires Inv(st) && Possible(st, es) && t in st.ready && TopRank(st, t)
    requires forall i :: 0 <= i < |es| ==> Fixed(es[i], Priority(st.threads, t))
    requires SwitchCount(st, es) >= Before(st.ready, st.threads, t) + 1
    ensures n <= |es| && Possible(st, es[..n]) && After(st, es[..n]).running == t
    decreases |es|
  {
    hide Inv, Before, Switches, Enabled, Step, Priority;
    InvWellFormed(st);
    var st1 := Step(st, es[0]);
    StepOk(st, es[0]);
    Closer(st, es[0], t);
    StepPriority(st, es[0], t);
    if st1.running == t {
      n := 1;
      assert es[..1][0] == es[0] && es[..1][1..] == [];
    } else {
      var m := BoundedWait(st1, es[1..], t);
      n := m + 1;
      assert es[..n][0] == es[0] && es[..n][1..] == es[1..][..m];
    }
  }

  lemma InvWellFormed<T, S>(st: State<T, S>)
    requires Inv(st)
    ensures WellFormed(st)
  {
  }

  lemma StepPriority<T, S>(st: State<T, S>, e: Event<T, S>, t: T)
    requires Inv(st) && Enabled(st, e) && Fixed(e, Priority(st.threads, t)) && t in st.threads
    ensures Priority(Step(st, e).threads, t) == Priority(st.threads, t)
  {
    hide ListsOk, OneRunning, AllOk, Core, Moved, Switches, Dispatch;
    MovedWellFormed(st, e);
    MovedGrown(st, e, Priority(st.threads, t));
    SamePriorities(Moved(st, e));
  }

  // ----- timer_sleep() -----

  /** The ups of thread t's own semaphore so far. */
  ghost function OwnUps<T, S>(st: State<T, S>, t: T): nat
    requires WellFormed(st) && t in st.threads
  {
    st.semas[st.threads[t].sema].ups
  }

  /** How many more ticks t sleeps; 0 if it does not, or has been upped. */
  ghost function Left<T, S>(st: State<T, S>, t: T): nat
    requires t in st.threads
  {
    var n := st.threads[t].ticks;
    if n < 0 then 0 else if n == 0 then 1 else n
  }

  /** n ticks bring t's sleep n ticks closer to its end, where its semaphore is upped once. */
  ghost predicate Slept<T, S>(st: State<T, S>, st1: State<T, S>, t: T, n: nat) {
    && WellFormed(st) && WellFormed(st1) && t in st.threads && t in st1.threads && st1.threads[t].sema == st.threads[t].sema
    && Left(st1, t) == (if n < Left(st, t) then Left(st, t) - n else 0)
    && OwnUps(st1, t) == OwnUps(st, t) + (if n < Left(st, t) || Left(st, t) == 0 then 0 else 1)
  }

  /** A step other than a tick, and other than t's going to sleep, leaves its sleep alone. */
  lemma SleepUntouched<T, S>(st: State<T, S>, st1: State<T, S>, t: T)
    requires WellFormed(st) && WellFormed(st1) && t in st.threads && t in st1.threads && st1.threads[t].sema == st.threads[t].sema
    requires st1.threads[t].ticks == st.threads[t].ticks && OwnUps(st1, t) == OwnUps(st, t)
    ensures Slept(st, st1, t, 0)
  {
  }

  lemma SleptTwice<T, S>(st: State<T, S>, st1: State<T, S>, st2: State<T, S>, t: T, m: nat, n: nat)
    requires Slept(st, st1, t, m) && Slept(st1, st2, t, n)
    ensures Slept(st, st2, t, m + n)
  {
  }

  lemma RaisedSlept<T, S>(st: State<T, S>, s: S, t: T)
    requires WellFormed(st) && s in st.semas && t in st.threads && st.threads[t].sema != s
    ensures Slept(st, Raised(st, s), t, 0)
  {
    hide Top, Without, WellFormed;
    RaisedWellFormed(st, s);
    OwnKnown(st, t);
    RaisedKeeps(st, s, t);
    SleepUntouched(st, Raised(st, s), t);
  }

  lemma RaisedKeeps<T, S>(st: State<T, S>, s: S, t: T)
    requires WellFormed(st) && s in st.semas && t in st.threads && WellFormed(Raised(st, s)) && t in Raised(st, s).threads
    ensures var st1 := Raised(st, s);
            && st1.threads[t].sema == st.threads[t].sema && st1.threads[t].ticks == st.threads[t].ticks
            && OwnUps(st1, t) == OwnUps(st, t) + (if st.threads[t].sema == s then 1 else 0)
  {
    hide Top, Without;
  }

  /** decr_ticks() on u is a tick for u and for no other thread. */
  lemma DecrementedSlept<T, S>(st: State<T, S>, u: T, t: T)
    requires Inv(st) && u in st.threads && t in st.threads
    ensures Slept(st, Decremented(st, u), t, if u == t then 1 else 0)
  {
    hide ListsOk, OneRunning, AllOk, SemasKnown, Raised, CountsOk, WakeupsOk, LocksOk;
    DecrementedWellFormed(st, u);
    OwnKnown(st, u);
    OwnKnown(st, t);
    TicksAtLeast(st, u);
    var ticks := st.threads[u].ticks;
    var left := if ticks > 0 then ticks - 1 else ticks;
    var st1 := SetTicks(st, u, if left == 0 then -1 else left);
    if left == 0 {
      RaisedWellFormed(st1, st.threads[u].sema);
      RaisedKeeps(st1, st.threads[u].sema, t);
    }
  }

  lemma {:induction false} ForeachSlept<T, S>(st: State<T, S>, list: seq<T>, t: T)
    requires Inv(st) && NoDuplicates(list) && t in st.threads && forall u :: u in list ==> u in st.threads
    ensures Slept(st, Foreach(st, list), t, if t in list then 1 else 0)
    decreases |list|
  {
    hide ListsOk, OneRunning, AllOk, Core, Decremented, Slept, SemasKnown;
    if list == [] {
      SleepUntouched(st, st, t);
    } else {
      assert list[0] in list && list == [list[0]] + list[1..];
      DecrementedOk(st, list[0]);
      DecrementedSlept(st, list[0], t);
      ForeachSlept(Decremented(st, list[0]), list[1..], t);
      SleptTwice(st, Decremented(st, list[0]), Foreach(st, list), t, if list[0] == t then 1 else 0, if t in list[1..] then 1 else 0);
    }
  }

  lemma DispatchSlept<T, S>(st: State<T, S>, t: T)
    requires WellFormed(st) && t in st.threads
    ensures Slept(st, Dispatch(st), t, 0)
  {
    hide Top, Without;
    DispatchWellFormed(st);
  }

  /** The kinds of semaphores keep a sleeper's own apart from those that other code raises. */
  lemma OwnApart<T, S>(st: State<T, S>, t: T, s: S)
    requires Inv(st) && t in st.threads && s in st.semas && !st.semas[s].kind.Sleep?
    ensures st.threads[t].sema != s
  {
    hide ListsOk, OneRunning, AllOk, CountsOk, WakeupsOk, LocksOk;
    OwnNotSame(st, t, s);
  }

  lemma TickSlept<T, S>(st: State<T, S>, t: T)
    requires WellFormed(st) && Enabled(st, Tick) && Inv(st) && t in st.threads
    ensures Slept(st, Moved(st, Tick), t, 1)
  {
    hide ListsOk, OneRunning, Core, Foreach, SemasKnown, Slept;
    MovedWellFormed(st, Tick);
    CountedOk(st);
    ForeachOk(Counted(st), st.all);
    ForeachSlept(Counted(st), st.all, t);
    var st1 := Foreach(Counted(st), st.all);
    OwnKnown(st, t);
    OwnKnown(st1, t);
    SleepUntouched(st, Counted(st), t);
    SleepUntouched(st1, Moved(st, Tick), t);
    SleptTwice(st, Counted(st), st1, t, 0, if t in st.all then 1 else 0);
    SleptTwice(st, st1, Moved(st, Tick), t, if t in st.all then 1 else 0, 0);
    DeadAwake(st, t);
    NoneLeft(st, Moved(st, Tick), t, if t in st.all then 1 else 0);
  }

  lemma DeadAwake<T, S>(st: State<T, S>, t: T)
    requires Inv(st) && t in st.threads
    ensures t !in st.all ==> Left(st, t) == 0
  {
    hide ListsOk, OneRunning, CountsOk, WakeupsOk, LocksOk;
    assert TicksOk(st.threads[t], st.semas[st.threads[t].sema]);
  }

  lemma NoneLeft<T, S>(st: State<T, S>, st1: State<T, S>, t: T, n: nat)
    requires Slept(st, st1, t, n)
    ensures Left(st, t) == 0 ==> Slept(st, st1, t, 1)
  {
  }

  /** Ticks alone count for a sleep that has begun. */
  lemma MovedSlept<T, S>(st: State<T, S>, e: Event<T, S>, t: T)
    requires Inv(st) && Enabled(st, e) && t in st.threads && !(e.Sleep? && st.running == t)
    ensures Slept(st, Moved(st, e), t, if e.Tick? then 1 else 0)
  {
    hide ListsOk, OneRunning, AllOk, Core, Raised, Foreach, ThreadsKnown, Position, Without, Slept;
    MovedWellFormed(st, e);
    OwnKnown(st, t);
    if e.Tick? {
      TickSlept(st, t);
    } else if e.Up? {
      OwnApart(st, t, e.s);
      RaisedSlept(st, e.s, t);
    } else if e.ReleaseUp? {
      ReleaseSlept(st, t);
    } else {
      RunningKnown(st);
      SleepUntouched(st, Moved(st, e), t);
    }
  }

  lemma RunningKnown<T, S>(st: State<T, S>)
    requires WellFormed(st)
    ensures st.running in st.threads
  {
  }

  lemma ReleaseSlept<T, S>(st: State<T, S>, t: T)
    requires Inv(st) && Enabled(st, ReleaseUp) && t in st.threads
    ensures Slept(st, Moved(st, ReleaseUp), t, 0)
  {
    hide ListsOk, OneRunning, AllOk, Core, Raised, Slept;
    var s := st.threads[st.running].activity.s;
    var st0 := SetActivity(st, st.running, Free);
    ThreadWellFormed(st, st.running, st.threads[st.running].(activity := Free));
    CoreLocks(st);
    ReleasingMutex(st, s, st.running);
    OwnApart(st, t, s);
    SleepUntouched(st, st0, t);
    RaisedSlept(st0, s, t);
    SleptTwice(st, st0, Raised(st0, s), t, 0, 0);
  }

  lemma StepSlept<T, S>(st: State<T, S>, e: Event<T, S>, t: T)
    requires Inv(st) && Enabled(st, e) && t in st.threads && !(e.Sleep? && st.running == t)
    ensures Slept(st, Step(st, e), t, if e.Tick? then 1 else 0)
  {
    hide Inv, Moved, Switches, Dispatch, Slept, Enabled, WellFormed;
    InvWellFormed(st);
    MovedWellFormed(st, e);
    MovedSlept(st, e, t);
    SleptKeeps(st, Moved(st, e), t, if e.Tick? then 1 else 0);
    if Switches(st, e) {
      DispatchSlept(Moved(st, e), t);
      SleptTwice(st, Moved(st, e), Dispatch(Moved(st, e)), t, if e.Tick? then 1 else 0, 0);
    }
  }

  lemma SleptKeeps<T, S>(st: State<T, S>, st1: State<T, S>, t: T, n: nat)
    requires Slept(st, st1, t, n)
    ensures t in st1.threads
  {
  }

  function TickCount<T, S>(es: seq<Event<T, S>>): nat {
    if es == [] then 0 else (if es[0].Tick? then 1 else 0) + TickCount(es[1..])
  }

  /** t does not call timer_sleep() in the run. */
  ghost predicate NoSleepBy<T, S>(st: State<T, S>, es: seq<Event<T, S>>, t: T)
    requires Inv(st) && Possible(st, es)
    decreases |es|
  {
    es == [] || (!(es[0].Sleep? && st.running == t) && (StepOk(st, es[0]); NoSleepBy(Step(st, es[0]), es[1..], t)))
  }

  lemma {:induction false} RunSlept<T, S>(st: State<T, S>, es: seq<Event<T, S>>, t: T)
    requires Inv(st) && Possible(st, es) && NoSleepBy(st, es, t) && t in st.threads
    ensures Slept(st, After(st, es), t, TickCount(es))
    decreases |es|
  {
    hide Inv, Enabled, Step, Slept;
    InvWellFormed(st);
    if es == [] {
      NothingSlept(st, t);
    } else {
      StepOk(st, es[0]);
      StepSlept(st, es[0], t);
      SleptKeeps(st, Step(st, es[0]), t, if es[0].Tick? then 1 else 0);
      RunSlept(Step(st, es[0]), es[1..], t);
      SleptTwice(st, Step(st, es[0]), After(st, es), t, if es[0].Tick? then 1 else 0, TickCount(es[1..]));
    }
  }

  lemma NothingSlept<T, S>(st: State<T, S>, t: T)
    requires WellFormed(st) && t in st.threads
    ensures Slept(st, st, t, 0)
  {
  }

  /** In any run after timer_sleep(n), the thread is upped exactly once, by the max(1, n)-th
      tick after the store, even if that comes before its sema_down(): until then it has not
      returned, and from then on it is not blocked. */
  lemma SleepExact<T, S>(st: State<T, S>, n: int, es: seq<Event<T, S>>)
    requires Inv(st) && Enabled(st, Event.Sleep(n))
    requires (StepOk(st, Event.Sleep(n)); Possible(Step(st, Event.Sleep(n)), es) && NoSleepBy(Step(st, Event.Sleep(n)), es, st.running))
    ensures (StepOk(st, Event.Sleep(n));
             var t, st1 := st.running, After(Step(st, Event.Sleep(n)), es);
             var k, m := TickCount(es), if n < 1 then 1 else n;
             && t in st1.threads && st1.threads[t].sema == st.threads[t].sema
             && OwnUps(st1, t) == OwnUps(st, t) + (if k < m then 0 else 1)
             && (k < m ==> Asleep(st1.threads[t]) && st1.semas[st1.threads[t].sema].value == 0)
             && (k >= m && Asleep(st1.threads[t]) ==>
                   st1.semas[st1.threads[t].sema].value == 1 && st1.threads[t].status != Blocked))
  {
    hide ListsOk, OneRunning, AllOk, Core, ThreadsKnown, SemasKnown;
    var t := st.running;
    StepOk(st, Event.Sleep(n));
    RunningKnown(st);
    OwnKnown(st, t);
    var st0 := Step(st, Event.Sleep(n));
    RunSlept(st0, es, t);
    var st1 := After(st0, es);
    SleeperState(st1, t);
  }

  lemma SleeperState<T, S>(st: State<T, S>, t: T)
    requires Inv(st) && t in st.threads
    ensures Left(st, t) > 0 ==> Asleep(st.threads[t]) && st.semas[st.threads[t].sema].value == 0
    ensures Left(st, t) == 0 && Asleep(st.threads[t]) ==> st.semas[st.threads[t].sema].value == 1 && st.threads[t].status != Blocked
  {
    hide OneRunning, AllOk, CountsOk, LocksOk, ReadyOk;
    var s := st.threads[t].sema;
    assert TicksOk(st.threads[t], st.semas[s]);
    OwnWaits(st, t);
  }

  /** Nobody waits on a sleeper's semaphore once it is up. */
  lemma OwnWaits<T, S>(st: State<T, S>, t: T)
    requires WellFormed(st) && WaitersOk(st) && SleepOk(st) && WakeupsOk(st) && t in st.threads
    ensures st.threads[t].status == Blocked && Asleep(st.threads[t]) ==> st.semas[st.threads[t].sema].value == 0
  {
    hide ThreadsKnown, NoDuplicates, Woken;
    var s := st.threads[t].sema;
    if st.threads[t].status == Blocked && Asleep(st.threads[t]) {
      assert QueueOk(st.semas[s].waiters, st.threads, s);
      assert Waits(st.threads, t, s);
      OwnWoken(st, t);
    }
  }

  lemma OwnWoken<T, S>(st: State<T, S>, t: T)
    requires WellFormed(st) && SleepOk(st) && t in st.threads && st.threads[t].activity == Downing(st.threads[t].sema, false)
    ensures Woken(st.threads, st.threads[t].sema) == {}
  {
    var s := st.threads[t].sema;
    TicksKind(st.threads[t], st.semas[s]);
    forall w | w in st.threads
      ensures st.threads[w].activity != Downing(s, true)
    {
    }
  }
}
