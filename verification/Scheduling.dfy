/** Threads, the ready list, semaphores, locks and sleeping as a step system (threads/thread.c,
    threads/synch.c, devices/timer.c). A step is what runs with interrupts off, a single store, or
    init_thread(); the timer interrupt may come between any two steps. T stands for the threads
    and S for the semaphores. */
module Scheduling {
  import opened Common

  const PRI_MIN: int := 0
  const TIME_SLICE: nat := 4

  datatype Status = Running | Ready | Blocked | Dying

  /** What a thread is in the middle of: nothing; the loop of sema_down() on s, perhaps after
      having been woken; lock_acquire() after its down, before it sets the holder;
      lock_release() after it cleared the holder, before its up. */
  datatype Activity<S(==)> = Free | Downing(s: S, woken: bool) | Acquired(s: S) | Releasing(s: S)

  datatype Thread<S(==)> = Thread(status: Status, priority: int, ticks: int, sema: S, activity: Activity<S>)

  /** Which code uses a semaphore: any code, a lock, or timer_sleep() on a thread's own one. */
  datatype Kind = Counting | Mutex | Sleep

  /** A semaphore, with counts of its ups and completed downs. */
  datatype Sema<T(==)> = Sema(kind: Kind, initial: nat, value: nat, waiters: seq<T>, ups: nat, downs: nat)

  /** holder has an entry for each lock whose holder is not null; slice counts the ticks since
      the last switch; all is all_list. */
  datatype State<T(==), S(==)> = State(
    threads: map<T, Thread<S>>, semas: map<S, Sema<T>>, holder: map<S, T>,
    ready: seq<T>, all: seq<T>, running: T, idle: T, slice: nat)

  // ----- choosing a thread -----

  ghost function Priority<T, S>(threads: map<T, Thread<S>>, t: T): int {
    if t in threads then threads[t].priority else PRI_MIN
  }

  /** What the scans of next_thread_to_run() and sema_up() find: the first element with the
      greatest priority, if that is above PRI_MIN; else the first element. */
  ghost predicate IsTop<T, S>(list: seq<T>, threads: map<T, Thread<S>>, k: nat) {
    && k < |list|
    && (forall j :: 0 <= j < |list| ==> Priority(threads, list[j]) <= PRI_MIN || Priority(threads, list[j]) <= Priority(threads, list[k]))
    && (Priority(threads, list[k]) <= PRI_MIN ==> k == 0)
    && (forall j :: 0 <= j < k ==> Priority(threads, list[j]) < Priority(threads, list[k]))
  }

  ghost function Top<T, S>(list: seq<T>, threads: map<T, Thread<S>>): (k: nat)
    requires list != []
    ensures IsTop(list, threads, k)
  {
    var n := |list| - 1;
    if n == 0 then 0
    else
      var k := Top(list[..n], threads);
      assert forall j :: 0 <= j < n ==> list[..n][j] == list[j];
      if Priority(threads, list[n]) > PRI_MIN && Priority(threads, list[n]) > Priority(threads, list[k]) then n else k
  }

  lemma TopUnique<T, S>(list: seq<T>, threads: map<T, Thread<S>>, k: nat)
    requires IsTop(list, threads, k)
    ensures k == Top(list, threads)
  {
  }

  /** The choice has the greatest priority of all exactly when some priority is above PRI_MIN
      or the first element has it. */
  lemma TopIsGreatest<T, S>(list: seq<T>, threads: map<T, Thread<S>>)
    requires list != []
    ensures var p := Priority(threads, list[Top(list, threads)]);
            (forall t :: t in list ==> Priority(threads, t) <= p) <==>
            (exists t :: t in list && Priority(threads, t) > PRI_MIN) || (forall t :: t in list ==> Priority(threads, t) <= Priority(threads, list[0]))
  {
    var k := Top(list, threads);
    assert list[k] in list;
  }

  function Without<T>(list: seq<T>, k: nat): (r: seq<T>)
    requires k < |list|
    ensures |r| == |list| - 1
    ensures forall x :: x in r ==> x in list
  {
    list[..k] + list[k + 1..]
  }

  lemma WithoutOne<T>(s: seq<T>, k: nat)
    requires NoDuplicates(s) && k < |s|
    ensures NoDuplicates(Without(s, k)) && forall x :: x in Without(s, k) <==> x in s && x != s[k]
  {
    var r := Without(s, k);
    forall x | x in s && x != s[k]
      ensures x in r
    {
      var i :| 0 <= i < |s| && s[i] == x;
      assert r[if i < k then i else i - 1] == x;
    }
    forall i | 0 <= i < |r|
      ensures r[i] != s[k] && r[i] == s[if i < k then i else i + 1]
    {
    }
  }

  lemma PushedBack<T>(s: seq<T>, x: T)
    requires NoDuplicates(s) && x !in s
    ensures NoDuplicates(s + [x]) && forall y :: y in s + [x] <==> y in s || y == x
  {
  }

  // ----- the steps -----

  ghost function SetStatus<T, S>(st: State<T, S>, t: T, status: Status): State<T, S>
    requires t in st.threads
  {
    st.(threads := st.threads[t := st.threads[t].(status := status)])
  }

  ghost function SetActivity<T, S>(st: State<T, S>, t: T, activity: Activity<S>): State<T, S>
    requires t in st.threads
  {
    st.(threads := st.threads[t := st.threads[t].(activity := activity)])
  }

  /** The threads that the lists name exist, and so do the semaphores that threads name. */
  ghost predicate ThreadsKnown<T, S>(st: State<T, S>) {
    && st.running in st.threads && st.idle in st.threads
    && (forall t :: t in st.ready ==> t in st.threads)
    && (forall t :: t in st.all ==> t in st.threads)
  }

  ghost predicate SemasKnown<T, S>(st: State<T, S>) {
    && (forall t :: t in st.threads ==> st.threads[t].sema in st.semas)
    && (forall s, t :: s in st.semas && t in st.semas[s].waiters ==> t in st.threads)
    && (forall t :: t in st.threads && !st.threads[t].activity.Free? ==> st.threads[t].activity.s in st.semas)
  }

  /** What every step relies on to make sense. */
  ghost predicate WellFormed<T, S>(st: State<T, S>) {
    ThreadsKnown(st) && SemasKnown(st)
  }

  /** schedule(), once the running thread has another status. */
  ghost function Dispatch<T, S>(st: State<T, S>): State<T, S>
    requires WellFormed(st)
  {
    if st.ready == [] then SetStatus(st, st.idle, Running).(running := st.idle, slice := 0)
    else
      var k := Top(st.ready, st.threads);
      var next := st.ready[k];
      SetStatus(st, next, Running).(running := next, ready := Without(st.ready, k), slice := 0)
  }

  /** thread_yield(): the idle thread never enters the ready list. */
  ghost function Yielded<T, S>(st: State<T, S>): State<T, S>
    requires WellFormed(st)
  {
    SetStatus(st, st.running, Ready).(ready := if st.running == st.idle then st.ready else st.ready + [st.running])
  }

  /** The part of sema_up() with interrupts off. */
  ghost function Raised<T, S>(st: State<T, S>, s: S): State<T, S>
    requires WellFormed(st) && s in st.semas
  {
    var m := st.semas[s];
    if m.waiters == [] then
      st.(semas := st.semas[s := m.(value := m.value + 1, ups := m.ups + 1)])
    else
      var k := Top(m.waiters, st.threads);
      var t := m.waiters[k];
      assert t in m.waiters;
      st.(semas := st.semas[s := m.(value := m.value + 1, ups := m.ups + 1, waiters := Without(m.waiters, k))],
          threads := st.threads[t := st.threads[t].(status := Ready, activity := Downing(s, true))],
          ready := st.ready + [t])
  }

  /** A down that finds the value positive. */
  ghost function Lowered<T, S>(st: State<T, S>, s: S): State<T, S>
    requires WellFormed(st) && s in st.semas && st.semas[s].value > 0
  {
    var m := st.semas[s];
    SetActivity(st, st.running, if m.kind.Mutex? then Acquired(s) else Free).(
      semas := st.semas[s := m.(value := m.value - 1, downs := m.downs + 1)])
  }

  /** A pass through the loop of sema_down() that finds the value zero: wait. */
  ghost function Queued<T, S>(st: State<T, S>, s: S): State<T, S>
    requires WellFormed(st) && s in st.semas
  {
    var m := st.semas[s];
    st.(threads := st.threads[st.running := st.threads[st.running].(status := Blocked, activity := Downing(s, false))],
        semas := st.semas[s := m.(waiters := m.waiters + [st.running])])
  }

  ghost function SetTicks<T, S>(st: State<T, S>, t: T, ticks: int): (st1: State<T, S>)
    requires WellFormed(st) && t in st.threads
    ensures WellFormed(st1)
  {
    st.(threads := st.threads[t := st.threads[t].(ticks := ticks)])
  }

  /** decr_ticks() on thread t. */
  ghost function Decremented<T, S>(st: State<T, S>, t: T): State<T, S>
    requires WellFormed(st) && t in st.threads
  {
    var ticks := st.threads[t].ticks;
    var left := if ticks > 0 then ticks - 1 else ticks;
    var st1 := SetTicks(st, t, if left == 0 then -1 else left);
    if left == 0 then Raised(st1, st.threads[t].sema) else st1
  }

  /** The same threads exist, and the same one runs. */
  ghost predicate SameRun<T, S>(st: State<T, S>, st1: State<T, S>) {
    && st1.threads.Keys == st.threads.Keys && st1.semas.Keys == st.semas.Keys && st1.all == st.all
    && st1.running == st.running && st1.idle == st.idle && st1.slice == st.slice
  }

  lemma RaisedWellFormed<T, S>(st: State<T, S>, s: S)
    requires WellFormed(st) && s in st.semas
    ensures WellFormed(Raised(st, s)) && SameRun(st, Raised(st, s))
  {
    var m := st.semas[s];
    if m.waiters != [] {
      var k := Top(m.waiters, st.threads);
      assert m.waiters[k] in m.waiters;
    }
  }

  lemma DecrementedWellFormed<T, S>(st: State<T, S>, t: T)
    requires WellFormed(st) && t in st.threads
    ensures WellFormed(Decremented(st, t)) && SameRun(st, Decremented(st, t))
  {
    hide Raised, ThreadsKnown;
    var ticks := st.threads[t].ticks;
    var left := if ticks > 0 then ticks - 1 else ticks;
    RaisedWellFormed(SetTicks(st, t, if left == 0 then -1 else left), st.threads[t].sema);
  }

  /** thread_foreach (decr_ticks) over list. */
  ghost function Foreach<T, S>(st: State<T, S>, list: seq<T>): (r: State<T, S>)
    requires WellFormed(st) && forall t :: t in list ==> t in st.threads
    ensures WellFormed(r) && SameRun(st, r)
    decreases |list|
  {
    if list == [] then st
    else
      DecrementedWellFormed(st, list[0]);
      Foreach(Decremented(st, list[0]), list[1..])
  }

  /** thread_tick(), as far as scheduling goes. */
  ghost function Counted<T, S>(st: State<T, S>): (st1: State<T, S>)
    requires WellFormed(st)
    ensures WellFormed(st1)
  {
    st.(slice := st.slice + 1)
  }

  /** The steps. All but the last three are taken by the running thread; SetPriority stands for
      every change of a priority, its own or a donated one. */
  datatype Event<T(==), S(==)> =
    | Yield                                        // thread_yield()
    | Idle                                         // idle() blocks again
    | Exit                                         // thread_exit()
    | Create(t: T, priority: int, sema: S)         // init_thread() for a new thread
    | Unblock(t: T)                                // thread_unblock() of that thread
    | Init(s: S, value: nat, lock: bool)           // sema_init(), or lock_init()
    | Down(s: S)                                   // entering sema_down() or lock_acquire()
    | Attempt                                      // one pass through the loop of sema_down()
    | TryDown(s: S)                                // sema_try_down()
    | Up(s: S)                                     // sema_up() up to its yield
    | SetHolder                                    // lock_acquire() after its sema_down()
    | ClearHolder(s: S)                            // lock_release() before its sema_up()
    | ReleaseUp                                    // and its sema_up()
    | Sleep(n: int)                                // timer_sleep() stores the ticks
    | SetPriority(t: T, priority: int)
    | Tick                                         // the timer interrupt

  /** The running thread executes code of its own: it is not the idle thread, nor inside an
      operation. */
  ghost predicate AtLarge<T, S>(st: State<T, S>)
    requires WellFormed(st)
  {
    st.running != st.idle && st.threads[st.running].activity.Free?
  }

  /** thread_create() has initialized t, and not made it ready yet. */
  ghost predicate Newborn<T, S>(st: State<T, S>, t: T)
    requires WellFormed(st)
  {
    t in st.threads && t != st.idle && st.threads[t].status == Blocked && st.threads[t].activity.Free?
  }

  ghost predicate Enabled<T, S>(st: State<T, S>, e: Event<T, S>)
    requires WellFormed(st)
  {
    var cur := st.threads[st.running];
    match e
    case Yield => true
    case Idle => st.running == st.idle
    case Exit => AtLarge(st)
    case Create(t, _, s) => AtLarge(st) && t !in st.threads && s !in st.semas
    case Unblock(t) => AtLarge(st) && Newborn(st, t)
    case Init(s, n, lock) => AtLarge(st) && s !in st.semas && (lock ==> n == 1)
    case Down(s) => AtLarge(st) && s in st.semas && !st.semas[s].kind.Sleep? && !(s in st.holder && st.holder[s] == st.running)
    case Attempt => cur.activity.Downing?
    case TryDown(s) => AtLarge(st) && s in st.semas && !st.semas[s].kind.Sleep? && !(s in st.holder && st.holder[s] == st.running)
    case Up(s) => AtLarge(st) && s in st.semas && st.semas[s].kind.Counting?
    case SetHolder => cur.activity.Acquired?
    case ClearHolder(s) => AtLarge(st) && s in st.semas && st.semas[s].kind.Mutex? && s in st.holder && st.holder[s] == st.running
    case ReleaseUp => cur.activity.Releasing?
    case Sleep(_) => AtLarge(st)
    case SetPriority(t, _) => t in st.threads
    case Tick => true
  }

  /** The state just before schedule(), or the state itself where schedule() is not called. */
  ghost function Moved<T, S>(st: State<T, S>, e: Event<T, S>): State<T, S>
    requires WellFormed(st) && Enabled(st, e)
  {
    var cur := st.threads[st.running];
    match e
    case Yield => Yielded(st)
    case Idle => SetStatus(st, st.running, Blocked)
    case Exit => SetStatus(st, st.running, Dying).(all := if st.running in st.all then Without(st.all, Position(st.all, st.running)) else st.all)
    case Create(t, p, s) =>
      st.(threads := st.threads[t := Thread(Blocked, p, -1, s, Free)],
          semas := st.semas[s := Sema(Kind.Sleep, 0, 0, [], 0, 0)],
          all := st.all + [t])
    case Unblock(t) => SetStatus(st, t, Ready).(ready := st.ready + [t])
    case Init(s, n, lock) => st.(semas := st.semas[s := Sema(if lock then Mutex else Counting, n, n, [], 0, 0)])
    case Down(s) => SetActivity(st, st.running, Downing(s, false))
    case Attempt =>
      if st.semas[cur.activity.s].value == 0 then Queued(st, cur.activity.s) else Lowered(st, cur.activity.s)
    case TryDown(s) => if st.semas[s].value == 0 then st else Lowered(st, s)
    case Up(s) => Raised(st, s)
    case SetHolder => SetActivity(st, st.running, Free).(holder := st.holder[cur.activity.s := st.running])
    case ClearHolder(s) => SetActivity(st, st.running, Releasing(s)).(holder := st.holder - {s})
    case ReleaseUp => Raised(SetActivity(st, st.running, Free), cur.activity.s)
    case Sleep(n) =>
      st.(threads := st.threads[st.running := cur.(ticks := if n < 0 then 0 else n, activity := Downing(cur.sema, false))])
    case SetPriority(t, p) => st.(threads := st.threads[t := st.threads[t].(priority := p)])
    case Tick =>
      var st1 := Foreach(Counted(st), st.all);
      if st.slice + 1 >= TIME_SLICE then Yielded(st1) else st1
  }

  /** Whether the step calls schedule(). */
  ghost predicate Switches<T, S>(st: State<T, S>, e: Event<T, S>)
    requires WellFormed(st) && Enabled(st, e)
  {
    match e
    case Yield => true
    case Idle => true
    case Exit => true
    case Attempt => st.semas[st.threads[st.running].activity.s].value == 0
    case Tick => st.slice + 1 >= TIME_SLICE
    case _ => false
  }

  lemma QueuedWellFormed<T, S>(st: State<T, S>, s: S)
    requires WellFormed(st) && s in st.semas
    ensures WellFormed(Queued(st, s))
  {
  }

  lemma LoweredWellFormed<T, S>(st: State<T, S>, s: S)
    requires WellFormed(st) && s in st.semas && st.semas[s].value > 0
    ensures WellFormed(Lowered(st, s))
  {
  }

  lemma YieldedWellFormed<T, S>(st: State<T, S>)
    requires WellFormed(st)
    ensures WellFormed(Yielded(st))
  {
  }

  lemma ExitWellFormed<T, S>(st: State<T, S>)
    requires WellFormed(st) && Enabled(st, Exit)
    ensures WellFormed(Moved(st, Exit))
  {
  }

  lemma CreateWellFormed<T, S>(st: State<T, S>, t: T, p: int, s: S)
    requires WellFormed(st) && Enabled(st, Create(t, p, s))
    ensures WellFormed(Moved(st, Create(t, p, s)))
  {
  }

  lemma UnblockWellFormed<T, S>(st: State<T, S>, t: T)
    requires WellFormed(st) && t in st.threads
    ensures WellFormed(SetStatus(st, t, Ready).(ready := st.ready + [t]))
  {
  }

  lemma InitWellFormed<T, S>(st: State<T, S>, s: S, n: nat, lock: bool)
    requires WellFormed(st) && Enabled(st, Init(s, n, lock))
    ensures WellFormed(Moved(st, Init(s, n, lock)))
  {
  }

  lemma ThreadWellFormed<T, S>(st: State<T, S>, t: T, th: Thread<S>)
    requires WellFormed(st) && t in st.threads && th.sema in st.semas && (th.activity.Free? || th.activity.s in st.semas)
    ensures WellFormed(st.(threads := st.threads[t := th]))
  {
  }

  lemma HolderWellFormed<T, S>(st: State<T, S>, holder: map<S, T>)
    requires WellFormed(st)
    ensures WellFormed(st.(holder := holder))
  {
  }

  lemma MovedWellFormed<T, S>(st: State<T, S>, e: Event<T, S>)
    requires WellFormed(st) && Enabled(st, e)
    ensures WellFormed(Moved(st, e))
  {
    var cur := st.threads[st.running];
    match e
    case Yield => YieldedWellFormed(st);
    case Idle => ThreadWellFormed(st, st.running, cur.(status := Blocked));
    case Exit => ExitWellFormed(st);
    case Create(t, p, s) => CreateWellFormed(st, t, p, s);
    case Unblock(t) => UnblockWellFormed(st, t);
    case Init(s, n, lock) => InitWellFormed(st, s, n, lock);
    case Down(s) => ThreadWellFormed(st, st.running, cur.(activity := Downing(s, false)));
    case Attempt => AttemptWellFormed(st);
    case TryDown(s) =>
      if st.semas[s].value > 0 {
        LoweredWellFormed(st, s);
      }
    case Up(s) => RaisedWellFormed(st, s);
    case SetHolder =>
      ThreadWellFormed(st, st.running, cur.(activity := Free));
      HolderWellFormed(SetActivity(st, st.running, Free), st.holder[cur.activity.s := st.running]);
    case ClearHolder(s) =>
      ThreadWellFormed(st, st.running, cur.(activity := Releasing(s)));
      HolderWellFormed(SetActivity(st, st.running, Releasing(s)), st.holder - {s});
    case ReleaseUp =>
      ThreadWellFormed(st, st.running, cur.(activity := Free));
      RaisedWellFormed(SetActivity(st, st.running, Free), cur.activity.s);
    case Sleep(n) => ThreadWellFormed(st, st.running, cur.(ticks := if n < 0 then 0 else n, activity := Downing(cur.sema, false)));
    case SetPriority(t, p) => ThreadWellFormed(st, t, st.threads[t].(priority := p));
    case Tick => TickWellFormed(st);
  }

  lemma AttemptWellFormed<T, S>(st: State<T, S>)
    requires WellFormed(st) && Enabled(st, Attempt)
    ensures WellFormed(Moved(st, Attempt))
  {
    hide Queued, Lowered;
    var s := st.threads[st.running].activity.s;
    if st.semas[s].value == 0 {
      QueuedWellFormed(st, s);
    } else {
      LoweredWellFormed(st, s);
    }
  }

  lemma TickWellFormed<T, S>(st: State<T, S>)
    requires WellFormed(st)
    ensures WellFormed(Moved(st, Tick))
  {
    hide Foreach, Yielded;
    var st1 := Foreach(Counted(st), st.all);
    if st.slice + 1 >= TIME_SLICE {
      YieldedWellFormed(st1);
    }
  }

  ghost function Step<T, S>(st: State<T, S>, e: Event<T, S>): State<T, S>
    requires WellFormed(st) && Enabled(st, e)
  {
    MovedWellFormed(st, e);
    if Switches(st, e) then Dispatch(Moved(st, e)) else Moved(st, e)
  }

  function Position<T(==)>(s: seq<T>, x: T): (k: nat)
    requires x in s
    ensures k < |s| && s[k] == x
  {
    if s[0] == x then 0 else Position(s[1..], x) + 1
  }

  // ----- the invariants -----

  /** ready_list holds the READY threads, each once, except the idle one. */
  ghost predicate ReadyOk<T, S>(st: State<T, S>)
    requires WellFormed(st)
  {
    && NoDuplicates(st.ready)
    && forall t :: t in st.threads ==> (t in st.ready <==> st.threads[t].status == Ready && t != st.idle)
  }

  /** t is blocked in sema_down() on s. */
  ghost predicate Waits<T, S>(threads: map<T, Thread<S>>, t: T, s: S) {
    t in threads && threads[t].status == Blocked && threads[t].activity == Downing(s, false)
  }

  ghost predicate QueueOk<T, S>(waiters: seq<T>, threads: map<T, Thread<S>>, s: S) {
    NoDuplicates(waiters) && (forall t :: t in waiters ==> Waits(threads, t, s))
    && (forall t :: t in threads && Waits(threads, t, s) ==> t in waiters)
  }

  /** The waiters of a semaphore are the threads that are BLOCKED in its sema_down(), each once;
      no other thread is BLOCKED, except for the idle thread and for those being created. */
  ghost predicate WaitersOk<T, S>(st: State<T, S>)
    requires WellFormed(st)
  {
    && (forall s :: s in st.semas ==> QueueOk(st.semas[s].waiters, st.threads, s))
    && (forall t :: t in st.threads && st.threads[t].status == Blocked && !Newborn(st, t) && t != st.idle ==>
          st.threads[t].activity.Downing? && !st.threads[t].activity.woken)
    && st.threads[st.idle].activity.Free? && st.threads[st.idle].status != Dying
  }

  ghost predicate ListsOk<T, S>(st: State<T, S>)
    requires WellFormed(st)
  {
    ReadyOk(st) && WaitersOk(st)
  }

  /** Just the running thread is RUNNING. */
  ghost predicate OneRunning<T, S>(st: State<T, S>)
    requires WellFormed(st)
  {
    forall t :: t in st.threads ==> (st.threads[t].status == Running <==> t == st.running)
  }

  /** all_list holds the threads that have not exited. */
  ghost predicate AllOk<T, S>(st: State<T, S>)
    requires WellFormed(st)
  {
    && NoDuplicates(st.all)
    && (forall t :: t in st.threads ==> (t in st.all <==> st.threads[t].status != Dying))
    && (forall t :: t in st.threads && st.threads[t].status == Dying ==> st.threads[t].activity.Free?)
  }

  /** The value of a semaphore is what the counts of its operations make it. */
  ghost predicate CountsOk<T, S>(st: State<T, S>) {
    forall s :: s in st.semas ==> st.semas[s].value + st.semas[s].downs == st.semas[s].initial + st.semas[s].ups
  }

  /** The threads woken in sema_down() on s that have not rechecked the value yet. */
  ghost function Woken<T, S>(threads: map<T, Thread<S>>, s: S): set<T> {
    set t | t in threads && threads[t].activity == Downing(s, true)
  }

  /** No wakeup is lost: a thread waits on s only while each unit of the value has a woken
      thread coming for it. */
  ghost predicate WakeupsOk<T, S>(st: State<T, S>) {
    forall s :: s in st.semas && st.semas[s].waiters != [] ==> st.semas[s].value <= |Woken(st.threads, s)|
  }

  /** The thread itself is inside lock s, before the holder is set or after it is cleared. */
  predicate InsideByActivity<S(==)>(th: Thread<S>, s: S) {
    th.activity == Acquired(s) || th.activity == Releasing(s)
  }

  ghost predicate Holds<T, S>(holder: map<S, T>, s: S, t: T) {
    s in holder && holder[s] == t
  }

  /** The threads between a completed down of lock s and their up. */
  ghost function Inside<T, S>(threads: map<T, Thread<S>>, holder: map<S, T>, s: S): set<T> {
    set t | t in threads && (InsideByActivity(threads[t], s) || Holds(holder, s, t))
  }

  /** A holder is a thread inside, between the two halves of acquire and release only. */
  ghost predicate HolderOk<T, S>(threads: map<T, Thread<S>>, holder: map<S, T>, s: S) {
    s in holder ==> holder[s] in threads && !InsideByActivity(threads[holder[s]], s)
  }

  /** Mutual exclusion: the value of a lock and the threads inside add up to one. */
  ghost predicate LocksOk<T, S>(st: State<T, S>) {
    && (forall s :: s in st.semas && st.semas[s].kind.Mutex? ==>
          st.semas[s].value + |Inside(st.threads, st.holder, s)| == 1 && HolderOk(st.threads, st.holder, s))
    && (forall s :: s in st.holder ==> s in st.semas && st.semas[s].kind.Mutex?)
    && (forall t :: t in st.threads && (st.threads[t].activity.Acquired? || st.threads[t].activity.Releasing?) ==>
          st.threads[t].activity.s in st.semas && st.semas[st.threads[t].activity.s].kind.Mutex?)
  }

  /** The thread is in timer_sleep(). */
  predicate Asleep<S(==)>(th: Thread<S>) {
    th.activity.Downing? && th.activity.s == th.sema
  }

  /** A thread that is not sleeping has ticks -1 and its semaphore at 0. In timer_sleep(), the
      semaphore is up once, and only once, exactly when the ticks have run out. */
  ghost predicate TicksOk<T, S>(th: Thread<S>, own: Sema<T>) {
    && own.kind.Sleep? && th.ticks >= -1
    && own.value == (if Asleep(th) && th.ticks == -1 then 1 else 0)
    && (!Asleep(th) ==> th.ticks == -1)
  }

  ghost predicate OwnSemas<T, S>(threads: map<T, Thread<S>>) {
    forall t, u :: t in threads && u in threads && t != u ==> threads[t].sema != threads[u].sema
  }

  /** Every thread has a semaphore of its own, which no other code uses. */
  ghost predicate SleepOk<T, S>(st: State<T, S>)
    requires WellFormed(st)
  {
    && OwnSemas(st.threads)
    && (forall t :: t in st.threads ==> TicksOk(st.threads[t], st.semas[st.threads[t].sema]))
    && (forall t :: t in st.threads && st.threads[t].activity.Downing? && st.semas[st.threads[t].activity.s].kind.Sleep? ==>
          Asleep(st.threads[t]))
  }

  /** What does not depend on who runs. */
  ghost predicate Core<T, S>(st: State<T, S>)
    requires WellFormed(st)
  {
    CountsOk(st) && WakeupsOk(st) && LocksOk(st) && SleepOk(st)
  }

  ghost predicate Inv<T, S>(st: State<T, S>) {
    WellFormed(st) && ListsOk(st) && OneRunning(st) && AllOk(st) && Core(st)
  }
}
