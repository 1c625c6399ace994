/** Runs from boot to states in which the scheduler and lock_release() fall short. Threads and
    semaphores are numbers: 0 is main, 1 the idle thread, and each thread has the semaphore of its
    number. */
module Scenarios {
  import opened Scheduling
  import opened SchedulingSteps
  import opened SchedulingRuns
  import Donation

  // ----- runs, one step at a time -----

  ghost predicate Leads<T, S>(st: State<T, S>, e: Event<T, S>, st1: State<T, S>) {
    Inv(st) && Enabled(st, e) && Step(st, e) == st1
  }

  ghost predicate Runs<T, S>(st: State<T, S>, es: seq<Event<T, S>>, st1: State<T, S>) {
    Inv(st) && Possible(st, es) && After(st, es) == st1
  }

  lemma Stays<T, S>(st: State<T, S>)
    requires Inv(st)
    ensures Runs(st, [], st)
  {
  }

  /** One more step at the front of a run. */
  lemma Longer<T, S>(st: State<T, S>, es: seq<Event<T, S>>, st1: State<T, S>, st2: State<T, S>)
    requires es != [] && Leads(st, es[0], st1) && Runs(st1, es[1..], st2)
    ensures Runs(st, es, st2)
  {
    hide WellFormed, ListsOk, OneRunning, AllOk, Core, Step;
  }

  lemma LeadsOk<T, S>(st: State<T, S>, e: Event<T, S>, st1: State<T, S>)
    requires Leads(st, e, st1)
    ensures Inv(st1)
  {
    hide WellFormed, ListsOk, OneRunning, AllOk, Core, Step;
    StepOk(st, e);
  }

  /** The states follow each other by the events. */
  ghost predicate Chain<T, S>(sts: seq<State<T, S>>, es: seq<Event<T, S>>) {
    |sts| == |es| + 1 && forall i :: 0 <= i < |es| && Inv(sts[i]) ==> Leads(sts[i], es[i], sts[i + 1])
  }

  lemma {:induction false} ChainRuns<T, S>(sts: seq<State<T, S>>, es: seq<Event<T, S>>)
    requires Chain(sts, es) && Inv(sts[0])
    ensures Runs(sts[0], es, sts[|es|])
    decreases |es|
  {
    hide Inv, Leads, Runs;
    if es == [] {
      Stays(sts[0]);
    } else {
      LeadsOk(sts[0], es[0], sts[1]);
      assert Chain(sts[1..], es[1..]);
      ChainRuns(sts[1..], es[1..]);
      Longer(sts[0], es, sts[1], sts[|es|]);
    }
  }

  /** A switch to the k-th thread of the ready list. */
  lemma SwitchTo<T, S>(st: State<T, S>, e: Event<T, S>, moved: State<T, S>, k: nat, st1: State<T, S>)
    requires Inv(st) && WellFormed(st) && Enabled(st, e) && Switches(st, e) && Moved(st, e) == moved
    requires IsTop(moved.ready, moved.threads, k) && moved.ready[k] in moved.threads
    requires var t := moved.ready[k];
             st1 == SetStatusOf(moved, t).(running := t, ready := Without(moved.ready, k), slice := 0)
    ensures Leads(st, e, st1)
  {
    hide ListsOk, OneRunning, AllOk, Core, Top, Moved, Switches;
    TopUnique(moved.ready, moved.threads, k);
  }

  ghost function SetStatusOf<T, S>(st: State<T, S>, t: T): State<T, S>
    requires t in st.threads
  {
    st.(threads := st.threads[t := st.threads[t].(status := Running)])
  }

  // ----- priorities below PRI_MIN -----

  /** Main creates thread 2, which sets its priority to -5; then main sets its own to -3. */
  function LowRun(): seq<Event<nat, nat>> {
    [Create(2, 40, 2), Unblock(2), Yield, SetPriority(2, -5), Yield, SetPriority(0, -3)]
  }

  ghost function LowStates(): seq<State<nat, nat>> {
    var st0 := Start<nat, nat>(0, 1, 0, 1);
    var st1 := st0.(threads := st0.threads[2 := Thread(Blocked, 40, -1, 2, Free)],
                    semas := st0.semas[2 := Sema(Kind.Sleep, 0, 0, [], 0, 0)], all := [0, 1, 2]);
    var st2 := st1.(threads := st1.threads[2 := Thread(Ready, 40, -1, 2, Free)], ready := [2]);
    var st3 := st2.(threads := st2.threads[0 := Thread(Ready, 31, -1, 0, Free)][2 := Thread(Running, 40, -1, 2, Free)], ready := [0], running := 2);
    var st4 := st3.(threads := st3.threads[2 := Thread(Running, -5, -1, 2, Free)]);
    var st5 := st4.(threads := st4.threads[2 := Thread(Ready, -5, -1, 2, Free)][0 := Thread(Running, 31, -1, 0, Free)], ready := [2], running := 0);
    var st6 := st5.(threads := st5.threads[0 := Thread(Running, -3, -1, 0, Free)]);
    [st0, st1, st2, st3, st4, st5, st6]
  }

  lemma LowCreates()
    ensures Inv(LowStates()[0]) ==> Leads(LowStates()[0], LowRun()[0], LowStates()[1])
    ensures Inv(LowStates()[1]) ==> Leads(LowStates()[1], LowRun()[1], LowStates()[2])
  {
    hide Inv;
  }

  lemma FirstYield()
    requires Inv(LowStates()[2])
    ensures Leads(LowStates()[2], LowRun()[2], LowStates()[3])
  {
    hide Inv, Leads, WellFormed, Top;
    var st := LowStates()[2];
    InvWellFormed(st);
    assert Yielded(st).ready == [2, 0];
    SwitchTo(st, Yield, Yielded(st), 0, LowStates()[3]);
  }

  lemma SecondYield()
    requires Inv(LowStates()[4])
    ensures Leads(LowStates()[4], LowRun()[4], LowStates()[5])
  {
    hide Inv, Leads, WellFormed, Top;
    var st := LowStates()[4];
    InvWellFormed(st);
    assert Yielded(st).ready == [0, 2];
    SwitchTo(st, Yield, Yielded(st), 0, LowStates()[5]);
  }

  lemma LowPriorities()
    ensures Inv(LowStates()[3]) ==> Leads(LowStates()[3], LowRun()[3], LowStates()[4])
    ensures Inv(LowStates()[5]) ==> Leads(LowStates()[5], LowRun()[5], LowStates()[6])
  {
    hide Inv;
  }

  lemma LowShape()
    ensures |LowStates()| == 7 && |LowRun()| == 6 && LowStates()[0] == Start<nat, nat>(0, 1, 0, 1)
  {
  }

  lemma LowStep(i: nat)
    requires i < 6 && |LowStates()| == 7 && |LowRun()| == 6
    ensures Inv(LowStates()[i]) ==> Leads(LowStates()[i], LowRun()[i], LowStates()[i + 1])
  {
    hide Inv, Leads, LowStates, LowRun, Start;
    if i < 2 {
      LowCreates();
    } else if i == 2 && Inv(LowStates()[2]) {
      FirstYield();
    } else if i == 4 && Inv(LowStates()[4]) {
      SecondYield();
    } else {
      LowPriorities();
    }
  }

  lemma LowChain()
    ensures Chain(LowStates(), LowRun()) && LowStates()[0] == Start<nat, nat>(0, 1, 0, 1) && |LowRun()| == 6
  {
    hide Inv, Leads, LowStates, LowRun, Start;
    LowShape();
    forall i | 0 <= i < 6 && Inv(LowStates()[i])
      ensures Leads(LowStates()[i], LowRun()[i], LowStates()[i + 1])
    {
      LowStep(i);
    }
  }

  /** Then thread_yield() runs thread 2 at -5, and leaves main at -3 ready. */
  lemma LowPriorityMissed()
    ensures var st := LowStates()[6];
            && Runs(Start<nat, nat>(0, 1, 0, 1), LowRun(), st) && WellFormed(st)
            && var st1 := Step(st, Yield);
               st1.running == 2 && 0 in st1.ready && Priority(st1.threads, 0) > Priority(st1.threads, st1.running)
  {
    hide Leads, Top, Chain, LowStates, LowRun, Start, Step, Enabled, Moved, ListsOk, OneRunning, AllOk, Core;
    StartOk<nat, nat>(0, 1, 0, 1);
    LowChain();
    ChainRuns(LowStates(), LowRun());
    LastYield();
  }

  lemma LastYield()
    requires Inv(LowStates()[6]) && WellFormed(LowStates()[6])
    ensures var st1 := Step(LowStates()[6], Yield);
            st1.running == 2 && 0 in st1.ready && Priority(st1.threads, 0) > Priority(st1.threads, st1.running)
  {
    hide WellFormed, ListsOk, OneRunning, AllOk, Core;
    InvWellFormed(LowStates()[6]);
    var y := Yielded(LowStates()[6]);
    assert y.ready == [2, 0];
    TopUnique(y.ready, y.threads, 0);
  }

  // ----- a waiter at PRI_MIN -----

  /** Main takes lock 9, creates thread 2 at PRI_MIN and lowers itself to PRI_MIN; thread 2 runs
      and waits for the lock. */
  function LockRun(): seq<Event<nat, nat>> {
    [Init(9, 1, true), Down(9), Attempt, SetHolder, Create(2, PRI_MIN, 2), Unblock(2), SetPriority(0, PRI_MIN), Yield, Down(9), Attempt]
  }

  ghost function LockStates(): seq<State<nat, nat>> {
    var st0 := Start<nat, nat>(0, 1, 0, 1);
    var st1 := st0.(semas := st0.semas[9 := Sema(Mutex, 1, 1, [], 0, 0)]);
    var st2 := st1.(threads := st1.threads[0 := Thread(Running, 31, -1, 0, Downing(9, false))]);
    var st3 := st2.(threads := st2.threads[0 := Thread(Running, 31, -1, 0, Acquired(9))], semas := st2.semas[9 := Sema(Mutex, 1, 0, [], 0, 1)]);
    var st4 := st3.(threads := st3.threads[0 := Thread(Running, 31, -1, 0, Free)], holder := map[9 := 0]);
    var st5 := st4.(threads := st4.threads[2 := Thread(Blocked, PRI_MIN, -1, 2, Free)],
                    semas := st4.semas[2 := Sema(Kind.Sleep, 0, 0, [], 0, 0)], all := [0, 1, 2]);
    var st6 := st5.(threads := st5.threads[2 := Thread(Ready, PRI_MIN, -1, 2, Free)], ready := [2]);
    var st7 := st6.(threads := st6.threads[0 := Thread(Running, PRI_MIN, -1, 0, Free)]);
    var st8 := st7.(threads := st7.threads[0 := Thread(Ready, PRI_MIN, -1, 0, Free)][2 := Thread(Running, PRI_MIN, -1, 2, Free)],
                    ready := [0], running := 2);
    var st9 := st8.(threads := st8.threads[2 := Thread(Running, PRI_MIN, -1, 2, Downing(9, false))]);
    var st10 := st9.(threads := st9.threads[2 := Thread(Blocked, PRI_MIN, -1, 2, Downing(9, false))][0 := Thread(Running, PRI_MIN, -1, 0, Free)],
                     semas := st9.semas[9 := Sema(Mutex, 1, 0, [2], 0, 1)], ready := [], running := 0);
    [st0, st1, st2, st3, st4, st5, st6, st7, st8, st9, st10]
  }

  lemma LockTaken()
    ensures Inv(LockStates()[0]) ==> Leads(LockStates()[0], LockRun()[0], LockStates()[1])
    ensures Inv(LockStates()[1]) ==> Leads(LockStates()[1], LockRun()[1], LockStates()[2])
    ensures Inv(LockStates()[2]) ==> Leads(LockStates()[2], LockRun()[2], LockStates()[3])
  {
    hide Inv;
  }

  lemma ThreadCreated()
    ensures Inv(LockStates()[3]) ==> Leads(LockStates()[3], LockRun()[3], LockStates()[4])
    ensures Inv(LockStates()[4]) ==> Leads(LockStates()[4], LockRun()[4], LockStates()[5])
    ensures Inv(LockStates()[5]) ==> Leads(LockStates()[5], LockRun()[5], LockStates()[6])
  {
    hide Inv;
  }

  lemma PriorityLowered()
    ensures Inv(LockStates()[6]) ==> Leads(LockStates()[6], LockRun()[6], LockStates()[7])
    ensures Inv(LockStates()[8]) ==> Leads(LockStates()[8], LockRun()[8], LockStates()[9])
  {
    hide Inv;
  }

  lemma MainYields()
    requires Inv(LockStates()[7])
    ensures Leads(LockStates()[7], LockRun()[7], LockStates()[8])
  {
    hide Inv, Leads, WellFormed, Top;
    var st := LockStates()[7];
    InvWellFormed(st);
    assert Yielded(st).ready == [2, 0];
    SwitchTo(st, Yield, Yielded(st), 0, LockStates()[8]);
  }

  lemma ThreadWaits()
    requires Inv(LockStates()[9])
    ensures Leads(LockStates()[9], LockRun()[9], LockStates()[10])
  {
    hide Inv, Leads, WellFormed, Top;
    var st := LockStates()[9];
    InvWellFormed(st);
    assert Queued(st, 9).ready == [0] && Without([0], 0) == [];
    assert st.semas[9].waiters + [2] == [2];
    assert Queued(st, 9).semas == LockStates()[10].semas;
    SwitchTo(st, Attempt, Queued(st, 9), 0, LockStates()[10]);
  }

  lemma LockShape()
    ensures |LockStates()| == 11 && |LockRun()| == 10 && LockStates()[0] == Start<nat, nat>(0, 1, 0, 1)
  {
  }

  lemma LockStep(i: nat)
    requires i < 10 && |LockStates()| == 11 && |LockRun()| == 10
    ensures Inv(LockStates()[i]) ==> Leads(LockStates()[i], LockRun()[i], LockStates()[i + 1])
  {
    hide Inv, Leads, LockStates, LockRun, Start;
    if i < 3 {
      LockTaken();
    } else if i < 6 {
      ThreadCreated();
    } else if i == 7 && Inv(LockStates()[7]) {
      MainYields();
    } else if i == 9 && Inv(LockStates()[9]) {
      ThreadWaits();
    } else {
      PriorityLowered();
    }
  }

  lemma LockChain()
    ensures Chain(LockStates(), LockRun()) && LockStates()[0] == Start<nat, nat>(0, 1, 0, 1) && |LockRun()| == 10
  {
    hide Inv, Leads, LockStates, LockRun, Start;
    LockShape();
    forall i | 0 <= i < 10 && Inv(LockStates()[i])
      ensures Leads(LockStates()[i], LockRun()[i], LockStates()[i + 1])
    {
      LockStep(i);
    }
  }

  /** Then main can release the lock, and lock_release() uses a variable without a value. */
  lemma TopThreadUnassigned()
    ensures var st := LockStates()[10];
            && Runs(Start<nat, nat>(0, 1, 0, 1), LockRun(), st) && WellFormed(st) && Enabled(st, ClearHolder(9))
            && 9 in st.semas && !Donation.Ranked(st.semas[9].waiters, st.threads)
  {
    hide Leads, Top, Chain, LockStates, LockRun, Start, Step, Enabled, Moved, ListsOk, OneRunning, AllOk, Core;
    StartOk<nat, nat>(0, 1, 0, 1);
    LockChain();
    ChainRuns(LockStates(), LockRun());
    LastWaiter();
  }

  lemma LastWaiter()
    requires Inv(LockStates()[10]) && WellFormed(LockStates()[10])
    ensures var st := LockStates()[10];
            Enabled(st, ClearHolder(9)) && 9 in st.semas && !Donation.Ranked(st.semas[9].waiters, st.threads)
  {
    hide WellFormed, ListsOk, OneRunning, AllOk, Core;
  }
}
