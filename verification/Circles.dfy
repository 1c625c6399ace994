/** The wait_thread pointers over runs (threads/synch.c), and runs from boot after which they lead
    in a circle: one that is a deadlock, and one that is none. */
module Circles {
  import opened Scheduling
  import opened SchedulingSteps
  import opened SchedulingRuns
  import opened Scenarios
  import Donation

  // ----- wait_thread over runs -----

  /** What a step does to the wait_thread pointers: lock_acquire() sets one before its down and
      clears it after, lock_release() hands on those of the waiters. */
  ghost function WaitStep<T, S>(st: State<T, S>, wait: map<T, T>, e: Event<T, S>): map<T, T>
    requires WellFormed(st) && Enabled(st, e)
  {
    match e
    case Down(s) => if s in st.holder then wait[st.running := st.holder[s]] else wait
    case SetHolder => wait - {st.running}
    case ClearHolder(s) => Donation.Handed(wait, st.semas[s].waiters, st.threads)
    case _ => wait
  }

  ghost function WaitAfter<T, S>(st: State<T, S>, es: seq<Event<T, S>>, wait: map<T, T>): map<T, T>
    requires Inv(st) && Possible(st, es)
    decreases |es|
  {
    if es == [] then wait
    else
      StepOk(st, es[0]);
      WaitAfter(Step(st, es[0]), es[1..], WaitStep(st, wait, es[0]))
  }

  /** The pointers along a run. */
  ghost predicate WaitsAre<T, S>(sts: seq<State<T, S>>, es: seq<Event<T, S>>, ws: seq<map<T, T>>) {
    |ws| == |sts| == |es| + 1 &&
    forall i :: 0 <= i < |es| && Leads(sts[i], es[i], sts[i + 1]) ==> Waits(sts[i], es[i], ws[i], ws[i + 1])
  }

  ghost predicate Waits<T, S>(st: State<T, S>, e: Event<T, S>, wait: map<T, T>, wait1: map<T, T>) {
    WellFormed(st) && Enabled(st, e) && WaitStep(st, wait, e) == wait1
  }

  lemma {:induction false} WaitsRun<T, S>(sts: seq<State<T, S>>, es: seq<Event<T, S>>, ws: seq<map<T, T>>)
    requires Chain(sts, es) && Inv(sts[0]) && WaitsAre(sts, es, ws)
    ensures Runs(sts[0], es, sts[|es|]) && WaitAfter(sts[0], es, ws[0]) == ws[|es|]
    decreases |es|
  {
    hide Inv, Leads, Waits, Step, Enabled;
    ChainRuns(sts, es);
    RunsParts(sts[0], es, sts[|es|]);
    if es != [] {
      LeadsOk(sts[0], es[0], sts[1]);
      assert Chain(sts[1..], es[1..]);
      assert WaitsAre(sts[1..], es[1..], ws[1..]);
      WaitsRun(sts[1..], es[1..], ws[1..]);
      WaitNext(sts, es, ws);
    }
  }

  lemma RunsParts<T, S>(st: State<T, S>, es: seq<Event<T, S>>, st1: State<T, S>)
    requires Runs(st, es, st1)
    ensures Inv(st) && Possible(st, es)
  {
  }

  lemma WaitNext<T, S>(sts: seq<State<T, S>>, es: seq<Event<T, S>>, ws: seq<map<T, T>>)
    requires |sts| == |ws| == |es| + 1 && es != [] && Leads(sts[0], es[0], sts[1]) && Waits(sts[0], es[0], ws[0], ws[1])
    requires Inv(sts[0]) && Possible(sts[0], es) && Inv(sts[1]) && Possible(sts[1], es[1..])
    ensures WaitAfter(sts[0], es, ws[0]) == WaitAfter(sts[1], es[1..], ws[1])
  {
    hide WellFormed, ListsOk, OneRunning, AllOk, Core, Step, Enabled;
  }

  // ----- circles of wait_thread pointers -----

  /** Main takes lock 8, creates thread 2 and yields; thread 2 takes lock 9 and yields; main begins
      to acquire lock 9. */
  function TwoLocksRun(): seq<Event<nat, nat>> {
    [Init(8, 1, true), Init(9, 1, true), Down(8), Attempt, SetHolder, Create(2, 31, 2), Unblock(2), Yield,
     Down(9), Attempt, SetHolder, Yield, Down(9)]
  }

  ghost function TwoLocksStates(): seq<State<nat, nat>> {
    var st0 := Start<nat, nat>(0, 1, 0, 1);
    var st1 := st0.(semas := st0.semas[8 := Sema(Mutex, 1, 1, [], 0, 0)]);
    var st2 := st1.(semas := st1.semas[9 := Sema(Mutex, 1, 1, [], 0, 0)]);
    var st3 := st2.(threads := st2.threads[0 := Thread(Running, 31, -1, 0, Downing(8, false))]);
    var st4 := st3.(threads := st3.threads[0 := Thread(Running, 31, -1, 0, Acquired(8))], semas := st3.semas[8 := Sema(Mutex, 1, 0, [], 0, 1)]);
    var st5 := st4.(threads := st4.threads[0 := Thread(Running, 31, -1, 0, Free)], holder := map[8 := 0]);
    var st6 := st5.(threads := st5.threads[2 := Thread(Blocked, 31, -1, 2, Free)],
                    semas := st5.semas[2 := Sema(Kind.Sleep, 0, 0, [], 0, 0)], all := [0, 1, 2]);
    var st7 := st6.(threads := st6.threads[2 := Thread(Ready, 31, -1, 2, Free)], ready := [2]);
    var st8 := st7.(threads := st7.threads[0 := Thread(Ready, 31, -1, 0, Free)][2 := Thread(Running, 31, -1, 2, Free)], ready := [0], running := 2);
    var st9 := st8.(threads := st8.threads[2 := Thread(Running, 31, -1, 2, Downing(9, false))]);
    var st10 := st9.(threads := st9.threads[2 := Thread(Running, 31, -1, 2, Acquired(9))], semas := st9.semas[9 := Sema(Mutex, 1, 0, [], 0, 1)]);
    var st11 := st10.(threads := st10.threads[2 := Thread(Running, 31, -1, 2, Free)], holder := map[8 := 0, 9 := 2]);
    var st12 := st11.(threads := st11.threads[2 := Thread(Ready, 31, -1, 2, Free)][0 := Thread(Running, 31, -1, 0, Free)], ready := [2], running := 0);
    var st13 := st12.(threads := st12.threads[0 := Thread(Running, 31, -1, 0, Downing(9, false))]);
    [st0, st1, st2, st3, st4, st5, st6, st7, st8, st9, st10, st11, st12, st13]
  }

  /** The pointers: only the last step sets one. */
  function TwoLocksWaits(): seq<map<nat, nat>> {
    seq(13, _ => map[]) + [map[0 := 2]]
  }

  lemma TwoLocksShape()
    ensures |TwoLocksStates()| == 14 && |TwoLocksRun()| == 13 && |TwoLocksWaits()| == 14
    ensures TwoLocksStates()[0] == Start<nat, nat>(0, 1, 0, 1)
  {
  }

  lemma TwoSemaphores(i: nat)
    requires i < 2 && Inv(TwoLocksStates()[i])
    ensures Leads(TwoLocksStates()[i], TwoLocksRun()[i], TwoLocksStates()[i + 1])
  {
    hide Inv;
  }

  lemma FirstLock(i: nat)
    requires 2 <= i < 5 && Inv(TwoLocksStates()[i])
    ensures Leads(TwoLocksStates()[i], TwoLocksRun()[i], TwoLocksStates()[i + 1])
  {
    hide Inv;
  }

  lemma SecondThread()
    requires Inv(TwoLocksStates()[5])
    ensures Leads(TwoLocksStates()[5], TwoLocksRun()[5], TwoLocksStates()[6])
  {
    hide Inv;
  }

  lemma SecondReady()
    requires Inv(TwoLocksStates()[6])
    ensures Leads(TwoLocksStates()[6], TwoLocksRun()[6], TwoLocksStates()[7])
  {
    hide Inv;
  }

  lemma SecondLock(i: nat)
    requires 8 <= i < 10 && Inv(TwoLocksStates()[i])
    ensures Leads(TwoLocksStates()[i], TwoLocksRun()[i], TwoLocksStates()[i + 1])
  {
    hide Inv;
  }

  lemma SecondHolder(i: nat)
    requires (i == 10 || i == 12) && Inv(TwoLocksStates()[i])
    ensures Leads(TwoLocksStates()[i], TwoLocksRun()[i], TwoLocksStates()[i + 1])
  {
    hide Inv;
  }

  lemma ToSecond()
    requires Inv(TwoLocksStates()[7])
    ensures Leads(TwoLocksStates()[7], TwoLocksRun()[7], TwoLocksStates()[8])
  {
    hide Inv, Leads, WellFormed, Top;
    var st := TwoLocksStates()[7];
    InvWellFormed(st);
    assert Yielded(st).ready == [2, 0];
    SwitchTo(st, Yield, Yielded(st), 0, TwoLocksStates()[8]);
  }

  lemma ToMain()
    requires Inv(TwoLocksStates()[11])
    ensures Leads(TwoLocksStates()[11], TwoLocksRun()[11], TwoLocksStates()[12])
  {
    hide Inv, Leads, WellFormed, Top;
    var st := TwoLocksStates()[11];
    InvWellFormed(st);
    assert Yielded(st).ready == [0, 2];
    SwitchTo(st, Yield, Yielded(st), 0, TwoLocksStates()[12]);
  }

  lemma TwoLocksStep(i: nat)
    requires i < 13 && |TwoLocksStates()| == 14 && |TwoLocksRun()| == 13 && Inv(TwoLocksStates()[i])
    ensures Leads(TwoLocksStates()[i], TwoLocksRun()[i], TwoLocksStates()[i + 1])
  {
    hide Inv, Leads, TwoLocksStates, TwoLocksRun;
    if i < 2 {
      TwoSemaphores(i);
    } else if i < 5 {
      FirstLock(i);
    } else if i == 5 {
      SecondThread();
    } else if i == 6 {
      SecondReady();
    } else if i == 7 {
      ToSecond();
    } else if i == 11 {
      ToMain();
    } else if i < 10 {
      SecondLock(i);
    } else {
      SecondHolder(i);
    }
  }

  lemma TwoLocksWait(i: nat)
    requires i < 13 && Leads(TwoLocksStates()[i], TwoLocksRun()[i], TwoLocksStates()[i + 1])
    ensures Waits(TwoLocksStates()[i], TwoLocksRun()[i], TwoLocksWaits()[i], TwoLocksWaits()[i + 1])
  {
    hide WellFormed, ListsOk, OneRunning, AllOk, Core, Enabled, Step;
  }

  lemma TwoLocksChain()
    ensures RunsTo(Start<nat, nat>(0, 1, 0, 1), TwoLocksRun(), map[], TwoLocksStates()[13], map[0 := 2])
  {
    hide Inv, Leads, Waits, TwoLocksStates, TwoLocksRun, Start;
    TwoLocksShape();
    StartOk<nat, nat>(0, 1, 0, 1);
    forall i | 0 <= i < 13 && Inv(TwoLocksStates()[i])
      ensures Leads(TwoLocksStates()[i], TwoLocksRun()[i], TwoLocksStates()[i + 1])
    {
      TwoLocksStep(i);
    }
    forall i | 0 <= i < 13 && Leads(TwoLocksStates()[i], TwoLocksRun()[i], TwoLocksStates()[i + 1])
      ensures Waits(TwoLocksStates()[i], TwoLocksRun()[i], TwoLocksWaits()[i], TwoLocksWaits()[i + 1])
    {
      TwoLocksWait(i);
    }
    WaitsRun(TwoLocksStates(), TwoLocksRun(), TwoLocksWaits());
  }

  /** A run, and the pointers before and after. */
  ghost predicate RunsTo<T, S>(st: State<T, S>, es: seq<Event<T, S>>, wait: map<T, T>, st1: State<T, S>, wait1: map<T, T>) {
    Runs(st, es, st1) && WaitAfter(st, es, wait) == wait1
  }

  lemma RunsNowhere<T, S>(st: State<T, S>, wait: map<T, T>, st1: State<T, S>, wait1: map<T, T>)
    requires RunsTo(st, [], wait, st1, wait1)
    ensures st1 == st && wait1 == wait
  {
  }

  lemma Nowhere<T, S>(st: State<T, S>, e: Event<T, S>, st1: State<T, S>, wait: map<T, T>)
    requires Leads(st, e, st1)
    ensures RunsTo(st1, [], wait, st1, wait)
  {
    hide WellFormed, ListsOk, OneRunning, AllOk, Core, Step, Enabled;
    StepOk(st, e);
  }

  lemma TailOfRun<T, S>(st: State<T, S>, es: seq<Event<T, S>>, wait: map<T, T>, st1: State<T, S>, wait1: map<T, T>)
    returns (mid: State<T, S>, wait0: map<T, T>)
    requires es != [] && RunsTo(st, es, wait, st1, wait1)
    ensures Leads(st, es[0], mid) && Waits(st, es[0], wait, wait0) && RunsTo(mid, es[1..], wait0, st1, wait1)
  {
    hide ListsOk, OneRunning, AllOk, Core, Step, Enabled, WaitStep;
    StepOk(st, es[0]);
    mid, wait0 := Step(st, es[0]), WaitStep(st, wait, es[0]);
  }

  lemma FrontOfRun<T, S>(st: State<T, S>, es: seq<Event<T, S>>, wait: map<T, T>, mid: State<T, S>, wait0: map<T, T>,
                         st1: State<T, S>, wait1: map<T, T>)
    requires es != [] && Leads(st, es[0], mid) && Waits(st, es[0], wait, wait0) && RunsTo(mid, es[1..], wait0, st1, wait1)
    ensures RunsTo(st, es, wait, st1, wait1)
  {
    hide ListsOk, OneRunning, AllOk, Core, Step, Enabled, WaitStep;
    StepOk(st, es[0]);
  }

  /** One more step at the end of a run. */
  lemma {:induction false} OneMore<T, S>(st: State<T, S>, es: seq<Event<T, S>>, wait: map<T, T>, st1: State<T, S>, wait1: map<T, T>,
                                         e: Event<T, S>, st2: State<T, S>, wait2: map<T, T>)
    requires RunsTo(st, es, wait, st1, wait1) && Leads(st1, e, st2) && Waits(st1, e, wait1, wait2)
    ensures RunsTo(st, es + [e], wait, st2, wait2)
    decreases |es|
  {
    hide Leads, Waits, RunsTo;
    if es == [] {
      RunsNowhere(st, wait, st1, wait1);
      Nowhere(st1, e, st2, wait2);
      assert [] + [e] == [e] && [e][1..] == [];
      FrontOfRun(st, [e], wait, st2, wait2, st2, wait2);
    } else {
      var mid, wait0 := TailOfRun(st, es, wait, st1, wait1);
      OneMore(mid, es[1..], wait0, st1, wait1, e, st2, wait2);
      assert (es + [e])[1..] == es[1..] + [e] && (es + [e])[0] == es[0];
      FrontOfRun(st, es + [e], wait, mid, wait0, st2, wait2);
    }
  }

  /** Main waits for lock 9. */
  ghost function DeadlockState(): State<nat, nat> {
    var st := TwoLocksStates()[13];
    st.(threads := st.threads[0 := Thread(Blocked, 31, -1, 0, Downing(9, false))][2 := Thread(Running, 31, -1, 2, Free)],
        semas := st.semas[9 := Sema(Mutex, 1, 0, [0], 0, 1)], ready := [], running := 2)
  }

  lemma MainWaits()
    requires Inv(TwoLocksStates()[13])
    ensures Leads(TwoLocksStates()[13], Attempt, DeadlockState())
  {
    hide Inv, Leads, WellFormed, Top;
    var st := TwoLocksStates()[13];
    InvWellFormed(st);
    assert Queued(st, 9).ready == [2] && Without([2], 0) == [];
    assert st.semas[9].waiters + [0] == [0];
    assert Queued(st, 9).semas == DeadlockState().semas;
    SwitchTo(st, Attempt, Queued(st, 9), 0, DeadlockState());
  }

  /** Main, which holds lock 8, waits for lock 9, which thread 2 holds. If that now begins to
      acquire lock 8, its walk does not end. */
  lemma DeadlockRun()
    ensures var st := DeadlockState();
            && RunsTo(Start<nat, nat>(0, 1, 0, 1), TwoLocksRun() + [Attempt], map[], st, map[0 := 2])
            && WellFormed(st) && Enabled(st, Down(8)) && st.running == 2 && st.holder == map[8 := 0, 9 := 2]
            && !Donation.Finite(map[0 := 2][2 := 0], 2)
  {
    hide Leads, Waits, RunsTo, Inv, TwoLocksStates, TwoLocksRun, Start;
    TwoLocksChain();
    TwoLocksShape();
    TwoLocksEnd();
    MainWaits();
    LeadsOk(TwoLocksStates()[13], Attempt, DeadlockState());
    InvWellFormed(DeadlockState());
    PointersStay(TwoLocksStates()[13], Attempt, DeadlockState(), map[0 := 2]);
    OneMore(Start<nat, nat>(0, 1, 0, 1), TwoLocksRun(), map[], TwoLocksStates()[13], map[0 := 2], Attempt, DeadlockState(), map[0 := 2]);
    TwoLocksHeld();
    PointersBack();
  }

  lemma TwoLocksEnd()
    requires RunsTo(Start<nat, nat>(0, 1, 0, 1), TwoLocksRun(), map[], TwoLocksStates()[13], map[0 := 2])
    ensures Inv(TwoLocksStates()[13])
  {
    hide WellFormed, ListsOk, OneRunning, AllOk, Core, Step, Enabled, TwoLocksRun, TwoLocksStates, Start;
  }

  lemma TwoLocksHeld()
    ensures |TwoLocksStates()| == 14 && TwoLocksStates()[13].holder == map[8 := 0, 9 := 2] && TwoLocksStates()[13].idle == 1
    ensures 8 in DeadlockState().semas && DeadlockState().semas[8].kind.Mutex?
  {
  }

  lemma PointersStay<T, S>(st: State<T, S>, e: Event<T, S>, st1: State<T, S>, wait: map<T, T>)
    requires Leads(st, e, st1) && !e.Down? && !e.SetHolder? && !e.ClearHolder?
    ensures Waits(st, e, wait, wait)
  {
    hide ListsOk, OneRunning, AllOk, Core, Step;
  }

  lemma PointersBack()
    ensures !Donation.Finite(map[0 := 2][2 := 0], 2)
  {
    assert Donation.Ends(map[0 := 2], 0, 1);
    Donation.WalkEndsIff(map[0 := 2], 2, 0, 1);
  }

  // ----- a circle without a deadlock -----

  /** Main is preempted before its sema_down(); thread 2 releases lock 9. */
  ghost function StaleStates(): seq<State<nat, nat>> {
    var st0 := TwoLocksStates()[13];
    var st1 := st0.(threads := st0.threads[0 := Thread(Ready, 31, -1, 0, Downing(9, false))][2 := Thread(Running, 31, -1, 2, Free)],
                    ready := [0], running := 2);
    var st2 := st1.(threads := st1.threads[2 := Thread(Running, 31, -1, 2, Releasing(9))], holder := map[8 := 0]);
    var st3 := st2.(threads := st2.threads[2 := Thread(Running, 31, -1, 2, Free)], semas := st2.semas[9 := Sema(Mutex, 1, 1, [], 1, 1)]);
    [st0, st1, st2, st3]
  }

  lemma MainPreempted()
    requires Inv(StaleStates()[0])
    ensures Leads(StaleStates()[0], Yield, StaleStates()[1])
  {
    hide Inv, Leads, WellFormed, Top;
    var st := StaleStates()[0];
    InvWellFormed(st);
    assert Yielded(st).ready == [2, 0];
    SwitchTo(st, Yield, Yielded(st), 0, StaleStates()[1]);
  }

  lemma HolderCleared()
    requires Inv(StaleStates()[1])
    ensures Leads(StaleStates()[1], ClearHolder(9), StaleStates()[2])
  {
    hide Inv;
    assert StaleStates()[1].holder - {9} == map[8 := 0];
  }

  lemma NobodyHandedOver()
    requires Leads(StaleStates()[1], ClearHolder(9), StaleStates()[2])
    ensures Waits(StaleStates()[1], ClearHolder(9), map[0 := 2], map[0 := 2])
  {
    hide WellFormed, ListsOk, OneRunning, AllOk, Core, Enabled, Step;
  }

  lemma LockUpped()
    requires Inv(StaleStates()[2])
    ensures Leads(StaleStates()[2], ReleaseUp, StaleStates()[3])
  {
    hide Inv;
  }

  lemma StaleShape()
    ensures |TwoLocksStates()| == 14 && |StaleStates()| == 4 && StaleStates()[0] == TwoLocksStates()[13]
  {
  }

  /** Main's pointer still leads to thread 2, though lock 9 is free and main is ready: no thread
      waits for another. If thread 2 now begins to acquire lock 8, its walk does not end. */
  lemma StaleRun()
    ensures var st := StaleStates()[3];
            && RunsTo(Start<nat, nat>(0, 1, 0, 1), TwoLocksRun() + [Yield] + [ClearHolder(9)] + [ReleaseUp], map[], st, map[0 := 2])
            && WellFormed(st) && Enabled(st, Down(8)) && st.running == 2 && st.holder == map[8 := 0]
            && st.semas[9].value == 1 && st.threads[0].status == Ready && (forall s :: s in st.semas ==> st.semas[s].waiters == [])
            && !Donation.Finite(map[0 := 2][2 := 0], 2)
  {
    hide Leads, Waits, RunsTo, Inv, TwoLocksStates, TwoLocksRun, StaleStates, Start, WellFormed;
    var start := Start<nat, nat>(0, 1, 0, 1);
    StaleShape();
    TwoLocksChain();
    TwoLocksEnd();
    MainPreempted();
    LeadsOk(StaleStates()[0], Yield, StaleStates()[1]);
    HolderCleared();
    NobodyHandedOver();
    LeadsOk(StaleStates()[1], ClearHolder(9), StaleStates()[2]);
    LockUpped();
    LeadsOk(StaleStates()[2], ReleaseUp, StaleStates()[3]);
    PointersStay(StaleStates()[0], Yield, StaleStates()[1], map[0 := 2]);
    PointersStay(StaleStates()[2], ReleaseUp, StaleStates()[3], map[0 := 2]);
    OneMore(start, TwoLocksRun(), map[], StaleStates()[0], map[0 := 2], Yield, StaleStates()[1], map[0 := 2]);
    OneMore(start, TwoLocksRun() + [Yield], map[], StaleStates()[1], map[0 := 2], ClearHolder(9), StaleStates()[2], map[0 := 2]);
    OneMore(start, TwoLocksRun() + [Yield] + [ClearHolder(9)], map[], StaleStates()[2], map[0 := 2], ReleaseUp, StaleStates()[3], map[0 := 2]);
    InvWellFormed(StaleStates()[3]);
    StaleEnd();
    PointersBack();
  }

  lemma StaleEnd()
    requires WellFormed(StaleStates()[3])
    ensures var st := StaleStates()[3];
            && Enabled(st, Down(8)) && st.running == 2 && st.holder == map[8 := 0]
            && 9 in st.semas && st.semas[9].value == 1 && 0 in st.threads && st.threads[0].status == Ready
            && (forall s :: s in st.semas ==> st.semas[s].waiters == [])
  {
    hide WellFormed;
  }
}
