/** The thread, semaphore and timer code as it works on its objects (threads/thread.c,
    threads/synch.c, devices/timer.c). Each method is an interrupts-off region, and is proved to
    be the step of the same name in Scheduling. */
module Threads {
  import S = Scheduling
  import Steps = SchedulingSteps
  import Runs = SchedulingRuns

  const PRI_MAX: int := 63

  class Semaphore {
    var value: nat
    var waiters: seq<Thread>
    ghost const kind: S.Kind
    ghost const initial: nat
    ghost var ups: nat
    ghost var downs: nat

    /** sema_init() */
    constructor (value: nat, ghost kind: S.Kind)
      ensures this.value == value && waiters == [] && this.kind == kind && initial == value && ups == 0 && downs == 0
    {
      this.value, waiters := value, [];
      this.kind, initial, ups, downs := kind, value, 0, 0;
    }

    ghost function Abs(): S.Sema<Thread>
      reads this
    {
      S.Sema(kind, initial, value, waiters, ups, downs)
    }
  }

  class Thread {
    var status: S.Status
    var priority: int
    var basePriority: int
    var waitThread: Thread?
    var ticks: int
    const sema: Semaphore
    ghost var activity: S.Activity<Semaphore>

    /** init_thread() */
    constructor (priority: int)
      ensures fresh(sema) && sema.Abs() == S.Sema(S.Kind.Sleep, 0, 0, [], 0, 0)
      ensures Abs() == S.Thread(S.Blocked, priority, -1, sema, S.Free)
      ensures basePriority == priority && waitThread == null
    {
      status, this.priority, basePriority, waitThread, ticks := S.Blocked, priority, priority, null, -1;
      sema := new Semaphore(0, S.Kind.Sleep);
      activity := S.Free;
    }

    ghost function Abs(): S.Thread<Semaphore>
      reads this`status, this`priority, this`ticks, this`activity
    {
      S.Thread(status, priority, ticks, sema, activity)
    }
  }

  /** The variables of thread.c. The ghost ones are the objects that exist and, for each lock,
      the semaphore and the holder. */
  class Kernel {
    var readyList: seq<Thread>
    var allList: seq<Thread>
    var running: Thread
    const idleThread: Thread
    var threadTicks: nat
    ghost var threads: set<Thread>
    ghost var semas: set<Semaphore>
    ghost var holders: map<Semaphore, Thread>

    /** As thread_start() leaves it: main runs, and the idle thread has blocked. */
    constructor (main: Thread, idle: Thread)
      requires main != idle && main.sema != idle.sema
      requires main.Abs() == S.Thread(S.Running, Runs.PRI_DEFAULT, -1, main.sema, S.Free) && idle.Abs() == S.Thread(S.Blocked, S.PRI_MIN, -1, idle.sema, S.Free)
      requires main.sema.Abs() == S.Sema(S.Kind.Sleep, 0, 0, [], 0, 0) && idle.sema.Abs() == S.Sema(S.Kind.Sleep, 0, 0, [], 0, 0)
      ensures Abs() == Runs.Start(main, idle, main.sema, idle.sema) && S.Inv(Abs())
    {
      hide S.Inv;
      Runs.StartOk(main, idle, main.sema, idle.sema);
      readyList, allList, running, idleThread, threadTicks := [], [main, idle], main, idle, 0;
      threads, semas, holders := {main, idle}, {main.sema, idle.sema}, map[];
    }

    ghost function AbsThreads(): map<Thread, S.Thread<Semaphore>>
      reads this`threads, threads`status, threads`priority, threads`ticks, threads`activity
    {
      map t | t in threads :: t.Abs()
    }

    ghost function AbsSemas(): map<Semaphore, S.Sema<Thread>>
      reads this`semas, semas
    {
      map s | s in semas :: s.Abs()
    }

    ghost function Abs(): S.State<Thread, Semaphore>
      reads this, threads`status, threads`priority, threads`ticks, threads`activity, semas
    {
      S.State(AbsThreads(), AbsSemas(), holders, readyList, allList, running, idleThread, threadTicks)
    }

    /** The invariants hold, and the step is one that the running thread can take. */
    ghost predicate Can(e: S.Event<Thread, Semaphore>)
      reads this, threads`status, threads`priority, threads`ticks, threads`activity, semas
    {
      S.Inv(Abs()) && S.Enabled(Abs(), e)
    }

    /** next_thread_to_run() */
    method NextThreadToRun() returns (t: Thread)
      requires forall u :: u in readyList ==> u in threads
      modifies this`readyList
      ensures old(readyList) == [] ==> t == idleThread && readyList == []
      ensures old(readyList) != [] ==>
                var k := S.Top(old(readyList), AbsThreads());
                t == old(readyList)[k] && readyList == S.Without(old(readyList), k)
    {
      hide S.Top, AbsThreads, S.Priority;
      if readyList == [] {
        return idleThread;
      }
      var top := TopIndex(readyList);
      t := readyList[top];
      readyList := readyList[..top] + readyList[top + 1..];
    }

    /** The scan that next_thread_to_run() and sema_up() make of a list. */
    method TopIndex(list: seq<Thread>) returns (top: nat)
      requires list != [] && forall t :: t in list ==> t in threads
      ensures top < |list| && top == S.Top(list, AbsThreads())
    {
      hide S.Top;
      ghost var ths := AbsThreads();
      top := 0;
      var max := S.PRI_MIN;
      var e := 0;
      while e < |list|
        invariant 0 <= e <= |list| && top < |list| && S.PRI_MIN <= max
        invariant forall j :: 0 <= j < e ==> S.Priority(ths, list[j]) <= max
        invariant max == S.PRI_MIN ==> top == 0
        invariant max > S.PRI_MIN ==> top < e && S.Priority(ths, list[top]) == max
        invariant forall j :: 0 <= j < top ==> S.Priority(ths, list[j]) < max
      {
        var t := list[e];
        if t.priority > max {
          max := t.priority;
          top := e;
        }
        e := e + 1;
      }
      TopFound(list, ths, top, max);
    }

    /** schedule(), with switch_threads() as the change of the running thread. */
    method Schedule()
      requires S.WellFormed(Abs()) && running.status != S.Running
      modifies this`readyList, this`running, this`threadTicks, threads`status
      ensures Abs() == S.Dispatch(old(Abs()))
    {
      hide S.WellFormed, S.Top, S.Without, S.Dispatch, AbsThreads, AbsSemas, Switched;
      ghost var st := Abs();
      ReadyKnown(st);
      AbsKeys();
      DispatchIs(st);
      var next := NextThreadToRun();
      ReadyReplaced(st, next, readyList);
      SwitchTo(next);
    }

    /** switch_threads() and thread_schedule_tail() */
    method SwitchTo(next: Thread)
      requires next in threads
      modifies this`running, this`threadTicks, next`status
      ensures Abs() == Switched(old(Abs()), next, readyList)
    {
      hide AbsThreads, AbsSemas;
      AbsKeys();
      running := next;
      SetStatus(next, S.Running);
      threadTicks := 0;
    }

    lemma AbsKeys()
      ensures AbsThreads().Keys == threads && AbsSemas().Keys == semas
      ensures forall t :: t in threads ==> AbsThreads()[t] == t.Abs()
      ensures forall s :: s in semas ==> AbsSemas()[s] == s.Abs()
    {
    }

    method SetStatus(t: Thread, status: S.Status)
      requires t in threads
      modifies t`status
      ensures t.status == status
      ensures AbsThreads() == old(AbsThreads())[t := old(AbsThreads())[t].(status := status)]
      ensures AbsSemas() == old(AbsSemas())
    {
      t.status := status;
    }

    /** thread_block() */
    method ThreadBlock()
      requires S.WellFormed(Abs())
      modifies this`readyList, this`running, this`threadTicks, threads`status
      ensures Abs() == S.Dispatch(Blocking(old(Abs())))
    {
      hide S.Dispatch, S.WellFormed, AbsThreads, AbsSemas;
      ghost var st := Abs();
      AbsKeys();
      ReadyKnown(st);
      SetStatus(running, S.Blocked);
      assert Abs() == Blocking(st);
      Schedule();
    }

    /** thread_unblock(); its assertion is the precondition. */
    method ThreadUnblock(t: Thread)
      requires t in threads && t.status == S.Blocked
      modifies this`readyList, t`status
      ensures readyList == old(readyList) + [t]
      ensures AbsThreads() == old(AbsThreads())[t := old(AbsThreads())[t].(status := S.Ready)] && AbsSemas() == old(AbsSemas())
    {
      readyList := readyList + [t];
      SetStatus(t, S.Ready);
    }

    /** thread_yield() */
    method ThreadYield()
      requires S.WellFormed(Abs())
      modifies this`readyList, this`running, this`threadTicks, threads`status
      ensures Abs() == S.Dispatch(Yielding(old(Abs())))
    {
      hide S.Dispatch, S.WellFormed, AbsThreads, AbsSemas;
      ghost var st := Abs();
      AbsKeys();
      ReadyKnown(st);
      if running != idleThread {
        readyList := readyList + [running];
      }
      SetStatus(running, S.Ready);
      assert Abs() == Yielding(st);
      Schedule();
    }

    /** idle() blocks again. */
    method IdleBlock()
      requires S.WellFormed(Abs()) && running == idleThread
      modifies this`readyList, this`running, this`threadTicks, threads`status
      ensures Abs() == S.Step(old(Abs()), S.Idle)
    {
      ThreadBlock();
    }

    ghost method SetActivity(t: Thread, activity: S.Activity<Semaphore>)
      requires t in threads
      modifies t`activity
      ensures AbsThreads() == old(AbsThreads())[t := old(AbsThreads())[t].(activity := activity)]
      ensures AbsSemas() == old(AbsSemas())
    {
      t.activity := activity;
    }

    /** sema_up(), when some thread waits: wake the first of the greatest priority. */
    method WakeTop(s: Semaphore) returns (ghost k: nat)
      requires s in semas && s.waiters != [] && forall t :: t in s.waiters ==> t in threads && t.status == S.Blocked
      modifies this`readyList, threads`status, threads`activity, s`waiters
      ensures k == S.Top(old(s.waiters), old(AbsThreads()))
      ensures readyList == old(readyList) + [old(s.waiters)[k]]
      ensures AbsThreads() == Woken(old(AbsThreads()), old(s.waiters)[k], s)
      ensures AbsSemas() == old(AbsSemas())[s := old(s.Abs()).(waiters := S.Without(old(s.waiters), k))] && s.Abs() == AbsSemas()[s]
    {
      hide S.Top, S.Without, AbsThreads, AbsSemas;
      AbsKeys();
      var top := TopIndex(s.waiters);
      var t := s.waiters[top];
      k := top;
      assert t in s.waiters;
      RemoveWaiter(s, top);
      Wake(t, s);
    }

    method Wake(t: Thread, ghost s: Semaphore)
      requires t in threads && t.status == S.Blocked && AbsThreads().Keys == threads
      modifies this`readyList, t`status, t`activity
      ensures readyList == old(readyList) + [t]
      ensures AbsThreads() == Woken(old(AbsThreads()), t, s) && AbsSemas() == old(AbsSemas())
    {
      hide AbsThreads, AbsSemas;
      ThreadUnblock(t);
      SetActivity(t, S.Downing(s, true));
    }

    /** list_remove() */
    method RemoveWaiter(s: Semaphore, k: nat)
      requires s in semas && k < |s.waiters|
      modifies s`waiters
      ensures AbsThreads() == old(AbsThreads())
      ensures AbsSemas() == old(AbsSemas())[s := old(s.Abs()).(waiters := S.Without(old(s.waiters), k))]
      ensures s.Abs() == AbsSemas()[s]
    {
      s.waiters := s.waiters[..k] + s.waiters[k + 1..];
    }

    /** The part of sema_up() with interrupts off. */
    method Raise(s: Semaphore)
      requires S.WellFormed(Abs()) && s in semas
      requires forall t :: t in s.waiters ==> t in threads && t.status == S.Blocked
      modifies this`readyList, threads`status, threads`activity, s
      ensures Abs() == S.Raised(old(Abs()), s)
    {
      hide S.WellFormed, S.Top, S.Without, S.Raised, AbsThreads, AbsSemas;
      AbsKeys();
      ghost var st := Abs();
      RaisedIs(st, s);
      if s.waiters != [] {
        ghost var k := WakeTop(s);
        hide Woken;
        ghost var m := st.semas[s].(waiters := S.Without(st.semas[s].waiters, k));
        UpdatedTwice(st.semas, s, m, m.(value := m.value + 1, ups := m.ups + 1));
        Increment(s);
      } else {
        Increment(s);
      }
    }

    method Increment(s: Semaphore)
      requires s in semas && s.Abs() == AbsSemas()[s]
      modifies s`value, s`ups
      ensures AbsThreads() == old(AbsThreads())
      ensures AbsSemas() == old(AbsSemas())[s := old(AbsSemas())[s].(value := old(s.value) + 1, ups := old(s.ups) + 1)]
    {
      s.value := s.value + 1;
      s.ups := s.ups + 1;
    }

    /** sema_up(): in an interrupt handler it does not yield. */
    method SemaUp(s: Semaphore, intrContext: bool)
      requires Can(S.Up(s))
      modifies this`readyList, this`running, this`threadTicks, threads`status, threads`activity, s
      ensures S.Inv(Abs())
      ensures Abs() == if intrContext then Next(old(Abs()), S.Up(s)) else Next(Next(old(Abs()), S.Up(s)), S.Yield)
    {
      hide S.WellFormed, S.ListsOk, S.OneRunning, S.AllOk, S.Core, S.Raised, S.Dispatch, AbsThreads, AbsSemas;
      ghost var st := Abs();
      AbsKeys();
      UpFacts(st, s);
      Steps.StepOk(st, S.Up(s));
      Raise(s);
      if !intrContext {
        Steps.StepOk(Abs(), S.Yield);
        ThreadYield();
      }
    }

    /** sema_try_down() */
    method SemaTryDown(s: Semaphore) returns (success: bool)
      requires Can(S.TryDown(s))
      modifies s, running`activity
      ensures S.Inv(Abs()) && Abs() == Next(old(Abs()), S.TryDown(s)) && success == (old(s.value) > 0)
    {
      hide S.WellFormed, S.ListsOk, S.OneRunning, S.AllOk, S.Core, S.Lowered, AbsThreads, AbsSemas;
      ghost var st := Abs();
      AbsKeys();
      RunningKnown(st);
      Steps.StepOk(st, S.TryDown(s));
      success := s.value > 0;
      if success {
        Lower(s);
      }
    }

    /** sema->value--: the down is done. */
    method Lower(s: Semaphore)
      requires S.WellFormed(Abs()) && s in semas && s.value > 0 && running in threads
      modifies s, running`activity
      ensures Abs() == S.Lowered(old(Abs()), s)
    {
      hide S.WellFormed, AbsThreads, AbsSemas;
      AbsKeys();
      Decrement(s);
      SetActivity(running, if s.kind.Mutex? then S.Acquired(s) else S.Free);
    }

    method Decrement(s: Semaphore)
      requires s in semas && s.value > 0
      modifies s`value, s`downs
      ensures AbsThreads() == old(AbsThreads())
      ensures AbsSemas() == old(AbsSemas())[s := old(s.Abs()).(value := old(s.value) - 1, downs := old(s.downs) + 1)]
    {
      s.value := s.value - 1;
      s.downs := s.downs + 1;
    }

    /** One pass through the loop of sema_down(), up to the next context switch or the end. */
    method SemaDownPass(s: Semaphore) returns (done: bool)
      requires Can(S.Attempt) && (running.activity == S.Downing(s, false) || running.activity == S.Downing(s, true))
      modifies this`readyList, this`running, this`threadTicks, threads`status, threads`activity, s
      ensures S.Inv(Abs()) && Abs() == Next(old(Abs()), S.Attempt) && done == (old(s.value) > 0)
    {
      hide S.WellFormed, S.ListsOk, S.OneRunning, S.AllOk, S.Core, S.Lowered, S.Queued, S.Dispatch, AbsThreads, AbsSemas;
      ghost var st := Abs();
      AbsKeys();
      RunningKnown(st);
      Steps.StepOk(st, S.Attempt);
      done := s.value > 0;
      if done {
        Lower(s);
      } else {
        Wait(s);
      }
    }

    /** The running thread enters sema_down(). */
    ghost method BeginDown(s: Semaphore)
      requires Can(S.Down(s))
      modifies running`activity
      ensures S.Inv(Abs()) && Abs() == Next(old(Abs()), S.Down(s)) && running.activity == S.Downing(s, false)
    {
      hide S.WellFormed, S.ListsOk, S.OneRunning, S.AllOk, S.Core, AbsThreads, AbsSemas;
      ghost var st := Abs();
      AbsKeys();
      RunningKnown(st);
      Steps.StepOk(st, S.Down(s));
      SetActivity(running, S.Downing(s, false));
      AbsKeys();
    }

    /** The running thread, whose down of lock s is done, is recorded as the holder. */
    ghost method RecordHolder(s: Semaphore)
      requires Can(S.SetHolder) && running.activity == S.Acquired(s)
      modifies this`holders, running`activity
      ensures S.Inv(Abs()) && Abs() == Next(old(Abs()), S.SetHolder) && holders == old(holders)[s := running]
    {
      hide S.WellFormed, S.ListsOk, S.OneRunning, S.AllOk, S.Core, AbsThreads, AbsSemas;
      ghost var st := Abs();
      AbsKeys();
      RunningKnown(st);
      Steps.StepOk(st, S.SetHolder);
      SetActivity(running, S.Free);
      holders := holders[s := running];
    }

    /** list_push_back (&sema->waiters, ...) and thread_block(). */
    method Wait(s: Semaphore)
      requires S.WellFormed(Abs()) && s in semas && running in threads && S.WellFormed(S.Queued(Abs(), s))
      modifies this`readyList, this`running, this`threadTicks, threads`status, threads`activity, s`waiters
      ensures Abs() == S.Dispatch(S.Queued(old(Abs()), s))
    {
      hide S.WellFormed, S.Dispatch, AbsThreads, AbsSemas;
      ghost var st := Abs();
      AbsKeys();
      PushWaiter(s, running);
      SetActivity(running, S.Downing(s, false));
      QueuedBlocks(st, Abs(), s);
      ThreadBlock();
    }

    method PushWaiter(s: Semaphore, t: Thread)
      requires s in semas
      modifies s`waiters
      ensures AbsThreads() == old(AbsThreads())
      ensures AbsSemas() == old(AbsSemas())[s := old(s.Abs()).(waiters := old(s.waiters) + [t])]
    {
      s.waiters := s.waiters + [t];
    }

    /** timer_sleep() up to its sema_down(). */
    method TimerSleep(ticks: int)
      requires Can(S.Event.Sleep(ticks))
      modifies running`ticks, running`activity
      ensures S.Inv(Abs()) && Abs() == Next(old(Abs()), S.Event.Sleep(ticks))
    {
      hide S.WellFormed, S.ListsOk, S.OneRunning, S.AllOk, S.Core, AbsThreads, AbsSemas;
      ghost var st := Abs();
      AbsKeys();
      RunningKnown(st);
      Steps.StepOk(st, S.Event.Sleep(ticks));
      if ticks < 0 {
        SetTicks(running, 0);
      } else {
        SetTicks(running, ticks);
      }
      SetActivity(running, S.Downing(running.sema, false));
      assert AbsThreads() == S.Step(st, S.Event.Sleep(ticks)).threads;
    }

    method SetTicks(t: Thread, ticks: int)
      requires t in threads
      modifies t`ticks
      ensures t.ticks == ticks
      ensures AbsThreads() == old(AbsThreads())[t := old(AbsThreads())[t].(ticks := ticks)]
      ensures AbsSemas() == old(AbsSemas())
    {
      t.ticks := ticks;
    }

    /** decr_ticks() */
    method DecrTicks(t: Thread)
      requires S.Inv(Abs()) && t in threads
      modifies this`readyList, threads`status, threads`activity, threads`ticks, semas
      ensures Abs() == S.Decremented(old(Abs()), t) && S.Inv(Abs())
    {
      hide S.WellFormed, S.ListsOk, S.OneRunning, S.AllOk, S.Core, S.Raised, AbsThreads, AbsSemas;
      ghost var st := Abs();
      AbsKeys();
      Steps.DecrementedOk(st, t);
      Steps.OwnKnown(st, t);
      OwnWaitersBlocked(st, t.sema);
      SameTicks(st, t);
      if t.ticks > 0 {
        SetTicks(t, t.ticks - 1);
      }
      if t.ticks == 0 {
        SetTicks(t, -1);
        assert AbsThreads() == S.SetTicks(st, t, -1).threads;
        Raise(t.sema);
      }
    }

    /** thread_foreach (decr_ticks, NULL) */
    method ForeachDecrTicks()
      requires S.Inv(Abs())
      modifies this`readyList, threads`status, threads`activity, threads`ticks, semas
      ensures Abs() == S.Foreach(old(Abs()), old(allList)) && S.Inv(Abs())
    {
      hide S.Inv, S.WellFormed, S.Decremented, S.Foreach, S.SameRun, AbsThreads, AbsSemas;
      ghost var st := Abs();
      InvKnown(st);
      AbsKeys();
      var e := 0;
      while e < |allList|
        invariant 0 <= e <= |allList| && allList == old(allList) && threads == old(threads) && semas == old(semas)
        invariant AbsThreads().Keys == threads && S.Inv(Abs()) && S.WellFormed(Abs())
        invariant S.Foreach(Abs(), allList[e..]) == S.Foreach(st, allList[0..])
      {
        ForeachNext(Abs(), allList, e);
        DecrTicks(allList[e]);
        e := e + 1;
      }
      ForeachDone(Abs(), allList);
    }

    /** timer_interrupt(): thread_tick(), decr_ticks() on every thread, and, at the end of the
        time slice, a yield on return. */
    method TimerInterrupt()
      requires S.Inv(Abs())
      modifies this`readyList, this`running, this`threadTicks, threads`status, threads`activity, threads`ticks, semas
      ensures Abs() == Next(old(Abs()), S.Tick) && S.Inv(Abs())
    {
      hide S.WellFormed, S.ListsOk, S.OneRunning, S.AllOk, S.Core, S.Foreach, S.Dispatch, AbsThreads, AbsSemas;
      ghost var st := Abs();
      Steps.StepOk(st, S.Tick);
      AllKnown(st);
      Steps.CountedOk(st);
      Steps.ForeachOk(S.Counted(st), st.all);
      threadTicks := threadTicks + 1;
      var yieldOnReturn := threadTicks >= S.TIME_SLICE;
      ForeachDecrTicks();
      if yieldOnReturn {
        ThreadYield();
      }
    }

    /** init_thread(), which asserts the range of the priority. */
    method InitThread(priority: int) returns (t: Thread)
      requires S.PRI_MIN <= priority <= PRI_MAX && AbsThreads().Keys == threads && AbsSemas().Keys == semas
      modifies this`threads, this`semas, this`allList
      ensures fresh(t) && fresh(t.sema) && t.status == S.Blocked && t.priority == t.basePriority == priority && t.waitThread == null
      ensures threads == old(threads) + {t} && semas == old(semas) + {t.sema} && allList == old(allList) + [t]
      ensures AbsThreads() == old(AbsThreads())[t := S.Thread(S.Blocked, priority, -1, t.sema, S.Free)]
      ensures AbsSemas() == old(AbsSemas())[t.sema := S.Sema(S.Kind.Sleep, 0, 0, [], 0, 0)]
    {
      t := new Thread(priority);
      threads, semas := threads + {t}, semas + {t.sema};
      allList := allList + [t];
    }

    /** thread_create(): three steps, between which other threads may run. */
    method ThreadCreate(priority: int) returns (t: Thread)
      requires S.Inv(Abs()) && running != idleThread && running.activity == S.Free && S.PRI_MIN <= priority <= PRI_MAX
      modifies this, threads`status
      ensures fresh(t) && fresh(t.sema) && S.Inv(Abs())
      ensures Abs() == Next(Next(Next(old(Abs()), S.Create(t, priority, t.sema)), S.Unblock(t)), S.Yield)
    {
      hide S.Inv, S.WellFormed, S.Dispatch, AbsThreads, AbsSemas, Next;
      ghost var st := Abs();
      InvKnown(st);
      RunningIn(st);
      AbsKeys();
      t := InitThread(priority);
      CreateStep(st, t, priority, t.sema, Abs());
      ThreadUnblock(t);
      YieldStep(Abs());
      ThreadYield();
    }

    /** thread_exit() */
    method ThreadExit()
      requires Can(S.Exit)
      modifies this`readyList, this`running, this`threadTicks, this`allList, threads`status
      ensures Abs() == Next(old(Abs()), S.Exit) && S.Inv(Abs())
    {
      hide S.WellFormed, S.ListsOk, S.OneRunning, S.AllOk, S.Core, S.Dispatch, S.Position, S.Without, AbsThreads, AbsSemas;
      ghost var st := Abs();
      Steps.StepOk(st, S.Exit);
      RunningKnown(st);
      ExitKnown(st);
      AbsKeys();
      if running in allList {
        var k := S.Position(allList, running);
        allList := S.Without(allList, k);
      }
      SetStatus(running, S.Dying);
      Schedule();
    }

    /** sema_init() on a new semaphore */
    method SemaInit(value: nat) returns (s: Semaphore)
      requires S.Inv(Abs()) && running != idleThread && running.activity == S.Free
      modifies this`semas
      ensures fresh(s) && s.kind.Counting? && s.value == value && s.waiters == [] && semas == old(semas) + {s}
      ensures S.Inv(Abs()) && Abs() == Next(old(Abs()), S.Init(s, value, false))
    {
      hide S.Inv, S.WellFormed, Next, AbsThreads, AbsSemas;
      ghost var st := Abs();
      AbsKeys();
      s := new Semaphore(value, S.Counting);
      InitStep(st, s, value);
      semas := semas + {s};
      AbsKeys();
      assert AbsSemas() == st.semas[s := s.Abs()];
    }

    /** What lock_release() does to the semaphore and the holder of lock s, without the yield. */
    method HandOver(s: Semaphore)
      requires Can(S.ClearHolder(s))
      modifies this`readyList, this`holders, threads`status, threads`activity, s
      ensures S.Inv(Abs()) && Abs() == Next(Next(old(Abs()), S.ClearHolder(s)), S.ReleaseUp)
      ensures holders == old(holders) - {s}
    {
      hide S.WellFormed, S.ListsOk, S.OneRunning, S.AllOk, S.Core, S.Raised, AbsThreads, AbsSemas;
      ghost var st := Abs();
      AbsKeys();
      RunningIn(st);
      Released(st, s);
      holders := holders - {s};
      SetActivity(running, S.Free);
      Raise(s);
    }

    /** t->priority = priority */
    method SetPriority(t: Thread, priority: int)
      requires S.Inv(Abs()) && t in threads
      modifies t`priority
      ensures t.priority == priority && S.Inv(Abs()) && Abs() == Next(old(Abs()), S.SetPriority(t, priority))
    {
      ghost var st := Abs();
      hide S.Inv, S.WellFormed, AbsSemas;
      InvKnown(st);
      Steps.StepOk(st, S.SetPriority(t, priority));
      t.priority := priority;
      assert AbsThreads() == st.threads[t := st.threads[t].(priority := priority)];
      assert AbsSemas() == st.semas;
    }
  }

  ghost function Woken(threads: map<Thread, S.Thread<Semaphore>>, t: Thread, s: Semaphore): map<Thread, S.Thread<Semaphore>>
    requires t in threads
  {
    threads[t := threads[t].(status := S.Ready, activity := S.Downing(s, true))]
  }

  /** The state after a step that can be taken. */
  ghost function Next(st: S.State<Thread, Semaphore>, e: S.Event<Thread, Semaphore>): S.State<Thread, Semaphore> {
    if S.Inv(st) && S.Enabled(st, e) then S.Step(st, e) else st
  }

  ghost function Blocking(st: S.State<Thread, Semaphore>): (st1: S.State<Thread, Semaphore>)
    requires S.WellFormed(st)
    ensures S.WellFormed(st1)
  {
    S.SetStatus(st, st.running, S.Blocked)
  }

  ghost function Yielding(st: S.State<Thread, Semaphore>): (st1: S.State<Thread, Semaphore>)
    requires S.WellFormed(st)
    ensures S.WellFormed(st1)
  {
    S.YieldedWellFormed(st);
    S.Yielded(st)
  }

  lemma ReadyKnown(st: S.State<Thread, Semaphore>)
    requires S.WellFormed(st)
    ensures st.running in st.threads && st.idle in st.threads && (forall t :: t in st.ready ==> t in st.threads)
  {
  }

  lemma TopFound(list: seq<Thread>, threads: map<Thread, S.Thread<Semaphore>>, k: nat, max: int)
    requires k < |list| && S.PRI_MIN <= max
    requires forall j :: 0 <= j < |list| ==> S.Priority(threads, list[j]) <= max
    requires max == S.PRI_MIN ==> k == 0
    requires max > S.PRI_MIN ==> S.Priority(threads, list[k]) == max
    requires forall j :: 0 <= j < k ==> S.Priority(threads, list[j]) < max
    ensures k == S.Top(list, threads)
  {
    hide S.Top, S.Priority;
    S.TopUnique(list, threads, k);
  }

  lemma UpFacts(st: S.State<Thread, Semaphore>, s: Semaphore)
    requires S.Inv(st) && S.Enabled(st, S.Up(s))
    ensures s in st.semas && st.running in st.threads
    ensures forall t :: t in st.semas[s].waiters ==> t in st.threads && st.threads[t].status == S.Blocked
  {
    assert S.QueueOk(st.semas[s].waiters, st.threads, s);
  }

  lemma RunningKnown(st: S.State<Thread, Semaphore>)
    requires S.WellFormed(st)
    ensures st.running in st.threads
    ensures st.threads[st.running].activity.Downing? ==> st.threads[st.running].activity.s in st.semas
    ensures forall s :: s in st.semas && st.threads[st.running].activity.Downing? ==> S.WellFormed(S.Queued(st, s))
  {
    forall s | s in st.semas
      ensures S.WellFormed(S.Queued(st, s))
    {
      S.QueuedWellFormed(st, s);
    }
  }

  /** Blocking completes a wait. */
  lemma QueuedBlocks(st: S.State<Thread, Semaphore>, st1: S.State<Thread, Semaphore>, s: Semaphore)
    requires S.WellFormed(st) && s in st.semas && S.WellFormed(S.Queued(st, s))
    requires st1 == S.SetActivity(st, st.running, S.Downing(s, false)).(
                      semas := st.semas[s := st.semas[s].(waiters := st.semas[s].waiters + [st.running])])
    ensures S.WellFormed(st1) && Blocking(st1) == S.Queued(st, s)
  {
  }

  lemma OwnWaitersBlocked(st: S.State<Thread, Semaphore>, s: Semaphore)
    requires S.Inv(st) && s in st.semas
    ensures forall t :: t in st.semas[s].waiters ==> t in st.threads && st.threads[t].status == S.Blocked
  {
    assert S.QueueOk(st.semas[s].waiters, st.threads, s);
  }

  lemma SameTicks(st: S.State<Thread, Semaphore>, t: Thread)
    requires S.WellFormed(st) && t in st.threads
    ensures S.SetTicks(st, t, st.threads[t].ticks) == st
  {
    assert st.threads[t := st.threads[t].(ticks := st.threads[t].ticks)] == st.threads;
  }

  lemma InvKnown(st: S.State<Thread, Semaphore>)
    requires S.Inv(st)
    ensures S.WellFormed(st) && forall t :: t in st.all ==> t in st.threads
  {
  }

  lemma ForeachNext(st: S.State<Thread, Semaphore>, list: seq<Thread>, e: nat)
    requires S.Inv(st) && S.WellFormed(st) && e < |list| && forall t :: t in list ==> t in st.threads
    ensures var st1 := S.Decremented(st, list[e]);
            && S.Inv(st1) && S.WellFormed(st1) && st1.threads.Keys == st.threads.Keys && st1.all == st.all
            && S.Foreach(st, list[e..]) == S.Foreach(st1, list[e + 1..])
  {
    hide S.Inv, S.WellFormed, S.Decremented;
    Steps.DecrementedOk(st, list[e]);
    InvKnown(S.Decremented(st, list[e]));
    assert list[e..][0] == list[e] && list[e..][1..] == list[e + 1..];
  }

  lemma ForeachDone(st: S.State<Thread, Semaphore>, list: seq<Thread>)
    requires S.WellFormed(st)
    ensures S.Foreach(st, list[|list|..]) == st && list[0..] == list
  {
  }

  lemma AllKnown(st: S.State<Thread, Semaphore>)
    requires S.WellFormed(st)
    ensures forall t :: t in st.all ==> t in st.threads
  {
  }

  /** A semaphore just allocated can be initialized. */
  lemma InitStep(st: S.State<Thread, Semaphore>, s: Semaphore, n: nat)
    requires S.Inv(st) && st.running != st.idle && s !in st.semas
    requires st.running in st.threads ==> st.threads[st.running].activity == S.Free
    ensures S.Inv(Next(st, S.Init(s, n, false)))
    ensures Next(st, S.Init(s, n, false)) == st.(semas := st.semas[s := S.Sema(S.Counting, n, n, [], 0, 0)])
  {
    hide S.ListsOk, S.OneRunning, S.AllOk, S.Core;
    Steps.StepOk(st, S.Init(s, n, false));
  }

  /** A thread just allocated can be created, and then made ready. */
  lemma CreateStep(st: S.State<Thread, Semaphore>, t: Thread, p: int, s: Semaphore, st1: S.State<Thread, Semaphore>)
    requires S.Inv(st) && st.running != st.idle && st.running in st.threads && st.threads[st.running].activity == S.Free
    requires S.WellFormed(st) && t !in st.threads && s !in st.semas
    requires st1 == st.(threads := st.threads[t := S.Thread(S.Blocked, p, -1, s, S.Free)],
                        semas := st.semas[s := S.Sema(S.Kind.Sleep, 0, 0, [], 0, 0)], all := st.all + [t])
    ensures st1 == Next(st, S.Create(t, p, s)) && t in st1.threads
    ensures var st2 := Next(st1, S.Unblock(t));
            && st2 == st1.(threads := st1.threads[t := st1.threads[t].(status := S.Ready)], ready := st1.ready + [t])
            && S.Inv(st2) && S.WellFormed(st2)
  {
    hide S.ListsOk, S.OneRunning, S.AllOk, S.Core, S.Dispatch;
    Steps.StepOk(st, S.Create(t, p, s));
    Steps.StepOk(st1, S.Unblock(t));
  }

  lemma YieldStep(st: S.State<Thread, Semaphore>)
    requires S.Inv(st) && S.WellFormed(st)
    ensures S.Dispatch(Yielding(st)) == Next(st, S.Yield) && S.Inv(Next(st, S.Yield))
  {
    hide S.ListsOk, S.OneRunning, S.AllOk, S.Core, S.Dispatch;
    Steps.StepOk(st, S.Yield);
  }

  lemma RunningIn(st: S.State<Thread, Semaphore>)
    requires S.WellFormed(st)
    ensures st.running in st.threads
  {
  }

  lemma ExitKnown(st: S.State<Thread, Semaphore>)
    requires S.WellFormed(st) && S.Enabled(st, S.Exit)
    ensures S.WellFormed(S.Moved(st, S.Exit))
  {
    S.ExitWellFormed(st);
  }

  /** The state just before the up in lock_release(). */
  lemma Released(st: S.State<Thread, Semaphore>, s: Semaphore)
    requires S.Inv(st) && S.Enabled(st, S.ClearHolder(s))
    ensures var st1 := S.SetActivity(st, st.running, S.Free).(holder := st.holder - {s});
            && s in st.semas && S.WellFormed(st1) && S.Inv(Next(Next(st, S.ClearHolder(s)), S.ReleaseUp))
            && Next(Next(st, S.ClearHolder(s)), S.ReleaseUp) == S.Raised(st1, s)
            && (forall t :: t in st.semas[s].waiters ==> t in st1.threads && st1.threads[t].status == S.Blocked)
  {
    hide S.ListsOk, S.OneRunning, S.AllOk, S.Core, S.Raised;
    var t := st.running;
    Steps.StepOk(st, S.ClearHolder(s));
    var st0 := S.Step(st, S.ClearHolder(s));
    Steps.StepOk(st0, S.ReleaseUp);
    OwnWaitersBlocked(st, s);
    assert st0.threads[t := st0.threads[t].(activity := S.Free)] == st.threads[t := st.threads[t].(activity := S.Free)];
    S.ThreadWellFormed(st0, t, st0.threads[t].(activity := S.Free));
  }

  /** The state when next has been taken off the ready list and runs. */
  ghost function Switched(st: S.State<Thread, Semaphore>, next: Thread, ready: seq<Thread>): S.State<Thread, Semaphore> {
    if next in st.threads
    then st.(threads := st.threads[next := st.threads[next].(status := S.Running)], running := next, ready := ready, slice := 0)
    else st
  }

  lemma ReadyReplaced(st: S.State<Thread, Semaphore>, next: Thread, ready: seq<Thread>)
    ensures Switched(st.(ready := ready), next, ready) == if next in st.threads then Switched(st, next, ready) else st.(ready := ready)
  {
  }

  lemma DispatchIs(st: S.State<Thread, Semaphore>)
    requires S.WellFormed(st)
    ensures st.ready == [] ==> st.idle in st.threads && S.Dispatch(st) == Switched(st, st.idle, [])
    ensures st.ready != [] ==>
              var k := S.Top(st.ready, st.threads);
              st.ready[k] in st.threads && S.Dispatch(st) == Switched(st, st.ready[k], S.Without(st.ready, k))
  {
    hide S.Top, S.Without, S.SemasKnown;
    if st.ready != [] {
      assert st.ready[S.Top(st.ready, st.threads)] in st.ready;
    }
  }

  lemma UpdatedTwice<K, V>(m: map<K, V>, k: K, v: V, w: V)
    ensures m[k := v][k := w] == m[k := w]
  {
  }

  lemma RaisedIs(st: S.State<Thread, Semaphore>, s: Semaphore)
    requires S.WellFormed(st) && s in st.semas
    ensures var m := st.semas[s];
            var m1 := m.(value := m.value + 1, ups := m.ups + 1);
            && (m.waiters == [] ==> S.Raised(st, s) == st.(semas := st.semas[s := m1]))
            && (m.waiters != [] ==>
                  var k := S.Top(m.waiters, st.threads);
                  && m.waiters[k] in st.threads
                  && S.Raised(st, s) == st.(semas := st.semas[s := m1.(waiters := S.Without(m.waiters, k))],
                                            threads := Woken(st.threads, m.waiters[k], s), ready := st.ready + [m.waiters[k]]))
  {
    hide S.Top, S.Without, S.ThreadsKnown;
    var m := st.semas[s];
    if m.waiters != [] {
      assert m.waiters[S.Top(m.waiters, st.threads)] in m.waiters;
    }
  }
}
