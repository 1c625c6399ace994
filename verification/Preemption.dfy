/** The time slice (threads/thread.c): the timer interrupt takes the processor from a thread after
    four ticks, and not before. */
module Preemption {
  import opened Scheduling
  import opened SchedulingSteps
  import opened SchedulingRuns

  /** What a step does to the count of ticks: schedule() resets it, and a tick adds one. */
  lemma StepSlice<T, S>(st: State<T, S>, e: Event<T, S>)
    requires Inv(st) && Enabled(st, e) && st.slice < 4
    ensures Step(st, e).slice == if Switches(st, e) then 0 else st.slice + (if e.Tick? then 1 else 0)
    ensures Step(st, e).slice < 4
  {
    hide ListsOk, OneRunning, AllOk, Core, Foreach, Raised, Queued, Lowered, Yielded, Top, Without, Position, SemasKnown;
    MovedWellFormed(st, e);
    if e.Up? {
      RaisedWellFormed(st, e.s);
    } else if e.ReleaseUp? {
      ReleaseSlice(st);
    } else if e.Attempt? || e.TryDown? {
      DownSlice(st, e);
    }
  }

  lemma ReleaseSlice<T, S>(st: State<T, S>)
    requires WellFormed(st) && Enabled(st, ReleaseUp)
    ensures Moved(st, ReleaseUp).slice == st.slice && Moved(st, ReleaseUp).running == st.running
  {
    hide Raised;
    ThreadWellFormed(st, st.running, st.threads[st.running].(activity := Free));
    RaisedWellFormed(SetActivity(st, st.running, Free), st.threads[st.running].activity.s);
  }

  lemma DownSlice<T, S>(st: State<T, S>, e: Event<T, S>)
    requires WellFormed(st) && Enabled(st, e) && (e.Attempt? || e.TryDown?)
    ensures Moved(st, e).slice == st.slice
  {
  }

  /** In every state of every run the slice has room for one more tick. */
  lemma {:induction false} SliceBounded<T, S>(st: State<T, S>, es: seq<Event<T, S>>)
    requires Inv(st) && Possible(st, es) && st.slice < 4
    ensures After(st, es).slice < 4
    decreases |es|
  {
    hide Inv, Enabled, Step;
    InvWellFormed(st);
    if es != [] {
      StepOk(st, es[0]);
      StepSlice(st, es[0]);
      SliceBounded(Step(st, es[0]), es[1..]);
    }
  }

  /** From boot on, that is so. */
  lemma SliceFromBoot<T, S>(main: T, idle: T, mainSema: S, idleSema: S, es: seq<Event<T, S>>)
    requires main != idle && mainSema != idleSema
    requires (StartOk(main, idle, mainSema, idleSema); Possible(Start(main, idle, mainSema, idleSema), es))
    ensures (StartOk(main, idle, mainSema, idleSema); After(Start(main, idle, mainSema, idleSema), es).slice < 4)
  {
    hide Inv;
    StartOk(main, idle, mainSema, idleSema);
    SliceBounded(Start(main, idle, mainSema, idleSema), es);
  }

  /** A ready thread that none outranks runs within 4 * (k + 1) ticks, where k threads of its rank
      are before it in the list, whatever the threads do meanwhile at fixed priorities. The
      ticks of the slice under way count. */
  lemma {:induction false} RunsInTime<T, S>(st: State<T, S>, es: seq<Event<T, S>>, t: T) returns (n: nat)
    requires Inv(st) && Possible(st, es) && st.slice < 4 && t in st.ready && TopRank(st, t)
    requires forall i :: 0 <= i < |es| ==> Fixed(es[i], Priority(st.threads, t))
    requires st.slice + TickCount(es) >= 4 * (Before(st.ready, st.threads, t) + 1)
    ensures n <= |es| && Possible(st, es[..n]) && After(st, es[..n]).running == t
    ensures st.slice + TickCount(es[..n]) <= 4 * (Before(st.ready, st.threads, t) + 1)
    decreases |es|
  {
    hide Inv, Before, Switches, Enabled, Step, Priority, TopRank, Fixed;
    InvWellFormed(st);
    var st1 := Step(st, es[0]);
    StepOk(st, es[0]);
    Closer(st, es[0], t);
    StepPriority(st, es[0], t);
    StepSlice(st, es[0]);
    if st1.running == t {
      n := 1;
      assert es[..1] == [es[0]] && es[..1][1..] == [];
    } else {
      var m := RunsInTime(st1, es[1..], t);
      n := m + 1;
      assert es[..n][0] == es[0] && es[..n][1..] == es[1..][..m];
    }
  }

  /** The running thread gives up the processor itself: it yields, blocks or exits. */
  ghost predicate GivesUp<T, S>(st: State<T, S>, e: Event<T, S>)
    requires WellFormed(st) && Enabled(st, e)
  {
    e.Yield? || e.Idle? || e.Exit? || (e.Attempt? && st.semas[st.threads[st.running].activity.s].value == 0)
  }

  ghost predicate KeepsGoing<T, S>(st: State<T, S>, es: seq<Event<T, S>>)
    requires Inv(st) && Possible(st, es)
    decreases |es|
  {
    es == [] || (!GivesUp(st, es[0]) && (StepOk(st, es[0]); KeepsGoing(Step(st, es[0]), es[1..])))
  }

  lemma GoesOn<T, S>(st: State<T, S>, e: Event<T, S>)
    requires Inv(st) && Enabled(st, e) && !GivesUp(st, e) && st.slice + (if e.Tick? then 1 else 0) < 4
    ensures Step(st, e).running == st.running && Step(st, e).slice == st.slice + (if e.Tick? then 1 else 0)
  {
    hide ListsOk, OneRunning, AllOk, Core, Foreach, Raised, Queued, Yielded, Top, Without, Position, SemasKnown, Dispatch;
    StepSlice(st, e);
    if e.Up? {
      RaisedWellFormed(st, e.s);
    } else if e.ReleaseUp? {
      ReleaseSlice(st);
    }
  }

  /** A thread that does not give up the processor keeps it up to the fourth tick of its slice. */
  lemma {:induction false} NotTooEarly<T, S>(st: State<T, S>, es: seq<Event<T, S>>)
    requires Inv(st) && Possible(st, es) && KeepsGoing(st, es) && st.slice + TickCount(es) < 4
    ensures After(st, es).running == st.running && After(st, es).slice == st.slice + TickCount(es)
    decreases |es|
  {
    hide Inv, Enabled, Step, GivesUp;
    InvWellFormed(st);
    if es != [] {
      StepOk(st, es[0]);
      GoesOn(st, es[0]);
      NotTooEarly(Step(st, es[0]), es[1..]);
    }
  }
}
