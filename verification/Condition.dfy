/** Condition variables (threads/synch.c): a list of semaphores with one waiting thread each, and
    the priority which that thread had when it began to wait. */
module Conditions {
  import opened Common
  import S = Scheduling
  import Steps = SchedulingSteps
  import opened Donation
  import opened Threads

  /** struct semaphore_elem; it does not change once it is on the list. */
  datatype Waiter<E(==)> = Waiter(semaphore: E, priority: int)

  // ----- the order of wakeups -----

  /** Priorities of PRI_MIN or less are all the same to cond_signal(). */
  function Rank<E>(w: Waiter<E>): int {
    if w.priority > S.PRI_MIN then w.priority else S.PRI_MIN
  }

  ghost predicate IsFirstHighest<E>(ws: seq<Waiter<E>>, k: nat) {
    && k < |ws|
    && (forall j :: 0 <= j < |ws| ==> Rank(ws[j]) <= Rank(ws[k]))
    && (forall j :: 0 <= j < k ==> Rank(ws[j]) < Rank(ws[k]))
  }

  /** The waiter that cond_signal() picks. */
  ghost function FirstHighest<E>(ws: seq<Waiter<E>>): (k: nat)
    requires ws != []
    ensures IsFirstHighest(ws, k)
  {
    var n := |ws| - 1;
    if n == 0 then 0
    else
      var k := FirstHighest(ws[..n]);
      assert forall j :: 0 <= j < n ==> ws[..n][j] == ws[j];
      if Rank(ws[n]) > Rank(ws[k]) then n else k
  }

  lemma FirstHighestUnique<E>(ws: seq<Waiter<E>>, k: nat)
    requires IsFirstHighest(ws, k)
    ensures k == FirstHighest(ws)
  {
    assert IsFirstHighest(ws, FirstHighest(ws));
  }

  /** The order in which cond_broadcast() signals the waiters. */
  ghost function Order<E>(ws: seq<Waiter<E>>): (o: seq<Waiter<E>>)
    ensures |o| == |ws|
    decreases |ws|
  {
    if ws == [] then []
    else
      var k := FirstHighest(ws);
      [ws[k]] + Order(S.Without(ws, k))
  }

  /** Nobody is left out, and nobody signalled twice. */
  lemma {:induction false} OrderPermutes<E>(ws: seq<Waiter<E>>)
    ensures multiset(Order(ws)) == multiset(ws)
    decreases |ws|
  {
    if ws != [] {
      var k := FirstHighest(ws);
      OrderPermutes(S.Without(ws, k));
      TakenOut(ws, k);
    }
  }

  lemma TakenOut<E>(s: seq<E>, k: nat)
    requires k < |s|
    ensures multiset(s) == multiset{s[k]} + multiset(S.Without(s, k))
  {
    assert s == s[..k] + ([s[k]] + s[k + 1..]);
  }

  /** Of two waiters, the one that came first is signalled first, unless the other ranks higher. */
  lemma {:induction false} BroadcastOrder<E>(ws: seq<Waiter<E>>, i: nat, j: nat)
    requires NoDuplicates(ws) && i < j < |ws|
    ensures ws[i] in Order(ws) && ws[j] in Order(ws)
    ensures S.Position(Order(ws), ws[i]) < S.Position(Order(ws), ws[j]) <==> Rank(ws[i]) >= Rank(ws[j])
    decreases |ws|
  {
    hide S.Position, Order;
    var k := FirstHighest(ws);
    var rest := S.Without(ws, k);
    OrderUnfolds(ws);
    PositionFirst(ws[k], Order(rest));
    OrderPermutes(ws);
    assert ws[i] in multiset(Order(ws)) && ws[j] in multiset(Order(ws));
    if k != i && k != j {
      var a, b := if i < k then i else i - 1, if j < k then j else j - 1;
      assert rest[a] == ws[i] && rest[b] == ws[j];
      S.WithoutOne(ws, k);
      BroadcastOrder(rest, a, b);
      PositionBehind(ws[k], Order(rest), ws[i]);
      PositionBehind(ws[k], Order(rest), ws[j]);
    }
  }

  lemma OrderUnfolds<E>(ws: seq<Waiter<E>>)
    requires ws != []
    ensures Order(ws) == [ws[FirstHighest(ws)]] + Order(S.Without(ws, FirstHighest(ws)))
  {
  }

  lemma PositionFirst<E>(x: E, s: seq<E>)
    ensures S.Position([x] + s, x) == 0
    ensures forall y :: y in s && y != x ==> S.Position([x] + s, y) > 0
  {
  }

  lemma PositionBehind<E>(x: E, s: seq<E>, y: E)
    requires y in s && y != x
    ensures S.Position([x] + s, y) == S.Position(s, y) + 1
  {
    assert ([x] + s)[1..] == s;
  }

  // ----- current priorities -----

  /** The current priorities by semaphore, given which thread waits on which. */
  function NowOf<E, T>(who: map<E, T>, priority: map<T, int>): map<E, int> {
    map s | s in who && who[s] in priority :: priority[who[s]]
  }

  ghost predicate Known<E>(ws: seq<Waiter<E>>, now: map<E, int>) {
    forall k :: 0 <= k < |ws| ==> ws[k].semaphore in now
  }

  /** The priority of the k-th waiter at present. */
  function Now<E>(ws: seq<Waiter<E>>, now: map<E, int>, k: nat): int {
    if k < |ws| && ws[k].semaphore in now then now[ws[k].semaphore] else S.PRI_MIN
  }

  /** No waiter ranks above the k-th one at present. */
  ghost predicate Greatest<E>(ws: seq<Waiter<E>>, now: map<E, int>, k: nat) {
    forall j :: 0 <= j < |ws| ==> Now(ws, now, j) <= Now(ws, now, k)
  }

  /** The k-th waiter has the priority that it had when it began to wait. */
  ghost predicate Unchanged<E>(ws: seq<Waiter<E>>, now: map<E, int>, k: nat)
    requires k < |ws|
  {
    Now(ws, now, k) == ws[k].priority
  }

  /** When the stored priorities are as good as the present ones for the choice of waiter k: no
      waiter whose priority has changed is above it, and neither is any other one, which needs
      looking at only if k was not above PRI_MIN or has been lowered since. */
  ghost predicate StoredSuffices<E>(ws: seq<Waiter<E>>, now: map<E, int>, k: nat)
    requires k < |ws|
  {
    && (forall j :: 0 <= j < |ws| && !Unchanged(ws, now, j) ==> Now(ws, now, j) <= Now(ws, now, k))
    && ((S.PRI_MIN < ws[k].priority <= Now(ws, now, k))
        || (forall j :: 0 <= j < |ws| && Unchanged(ws, now, j) ==> ws[j].priority <= Now(ws, now, k)))
  }

  /** Exactly then cond_signal() picks a waiter that none outranks. */
  lemma SignalPicksGreatest<E>(ws: seq<Waiter<E>>, now: map<E, int>)
    requires ws != [] && Known(ws, now)
    ensures Greatest(ws, now, FirstHighest(ws)) <==> StoredSuffices(ws, now, FirstHighest(ws))
  {
    hide FirstHighest, Now;
    var k := FirstHighest(ws);
    if StoredSuffices(ws, now, k) {
      forall j | 0 <= j < |ws| ensures Now(ws, now, j) <= Now(ws, now, k) {
        if Unchanged(ws, now, j) {
          assert Rank(ws[j]) <= Rank(ws[k]);
        }
      }
    }
  }

  /** With all priorities as they were: exactly if some waiter is above PRI_MIN, or the first one
      is a greatest. */
  lemma SignalUnchanged<E>(ws: seq<Waiter<E>>, now: map<E, int>)
    requires ws != [] && Known(ws, now) && forall k :: 0 <= k < |ws| ==> Unchanged(ws, now, k)
    ensures Greatest(ws, now, FirstHighest(ws)) <==>
              (exists k :: 0 <= k < |ws| && ws[k].priority > S.PRI_MIN) || (forall k :: 0 <= k < |ws| ==> ws[k].priority <= ws[0].priority)
  {
    hide FirstHighest, Now;
    var k := FirstHighest(ws);
    assert IsFirstHighest(ws, k);
    forall j | 0 <= j < |ws| ensures Now(ws, now, j) == ws[j].priority <= Rank(ws[j]) <= Rank(ws[k]) {
      assert Unchanged(ws, now, j);
    }
  }

  /** The earlier one of two waiters is to be signalled first by its stored priority, and does not
      rank below the other now, or the other way round. */
  ghost predicate Agree<E>(ws: seq<Waiter<E>>, now: map<E, int>, i: nat, j: nat)
    requires i < |ws| && j < |ws|
  {
    if Rank(ws[i]) >= Rank(ws[j]) then Now(ws, now, i) >= Now(ws, now, j) else Now(ws, now, i) <= Now(ws, now, j)
  }

  ghost predicate Descending<E>(ws: seq<Waiter<E>>, now: map<E, int>) {
    forall a, b :: 0 <= a < b < |ws| ==> Now(ws, now, a) >= Now(ws, now, b)
  }

  /** A broadcast wakes the waiters in the order of their present priorities exactly if each two of
      them are in the same order by the stored ones. */
  lemma BroadcastByPriority<E>(ws: seq<Waiter<E>>, now: map<E, int>)
    requires Apart(ws) && Known(ws, now)
    ensures Descending(Order(ws), now) <==> forall i, j :: 0 <= i < j < |ws| ==> Agree(ws, now, i, j)
  {
    hide Order, Apart, Rank, Now, S.Position;
    OrderApart(ws);
    ApartDistinct(ws);
    ApartDistinct(Order(ws));
    if Descending(Order(ws), now) {
      forall i, j | 0 <= i < j < |ws| ensures Agree(ws, now, i, j) {
        BroadcastOrder(ws, i, j);
        NowAt(ws, now, i);
        NowAt(ws, now, j);
        var a, b := S.Position(Order(ws), ws[i]), S.Position(Order(ws), ws[j]);
        assert Now(Order(ws), now, a) == Now(ws, now, i) && Now(Order(ws), now, b) == Now(ws, now, j);
        assert a != b;
      }
    }
    if forall i, j :: 0 <= i < j < |ws| ==> Agree(ws, now, i, j) {
      forall a, b | 0 <= a < b < |Order(ws)| ensures Now(Order(ws), now, a) >= Now(Order(ws), now, b) {
        OrderedPair(ws, now, a, b);
      }
    }
  }

  lemma OrderedPair<E>(ws: seq<Waiter<E>>, now: map<E, int>, a: nat, b: nat)
    requires NoDuplicates(ws) && NoDuplicates(Order(ws)) && a < b < |Order(ws)|
    requires forall i, j :: 0 <= i < j < |ws| ==> Agree(ws, now, i, j)
    ensures Now(Order(ws), now, a) >= Now(Order(ws), now, b)
  {
    hide Order, Rank, S.Position;
    OrderPermutes(ws);
    var x, y := Order(ws)[a], Order(ws)[b];
    assert x in multiset(Order(ws)) && y in multiset(Order(ws));
    var i, j := S.Position(ws, x), S.Position(ws, y);
    PositionAt(Order(ws), a);
    PositionAt(Order(ws), b);
    if i < j {
      BroadcastOrder(ws, i, j);
      assert Agree(ws, now, i, j);
    } else {
      assert i != j;
      BroadcastOrder(ws, j, i);
      assert Agree(ws, now, j, i);
    }
  }

  lemma NowAt<E>(ws: seq<Waiter<E>>, now: map<E, int>, i: nat)
    requires i < |ws| && ws[i] in Order(ws)
    ensures Now(Order(ws), now, S.Position(Order(ws), ws[i])) == Now(ws, now, i)
  {
    hide Order, S.Position;
  }

  lemma {:induction false} PositionAt<E>(s: seq<E>, a: nat)
    requires NoDuplicates(s) && a < |s|
    ensures S.Position(s, s[a]) == a
  {
    if a > 0 {
      assert s[0] != s[a] && s[1..][a - 1] == s[a];
      PositionAt(s[1..], a - 1);
    }
  }

  lemma ApartDistinct<E>(ws: seq<Waiter<E>>)
    requires Apart(ws)
    ensures NoDuplicates(ws)
  {
  }

  /** Threads 1 and 2 wait, at 31 and 30. Thread 2 holds another lock, for which thread 3 begins to
      wait at 40. The donation raises thread 2 to 40, and cond_signal() picks thread 1. */
  lemma SignalMissesDonation()
    ensures var ws := [Waiter(10, 31), Waiter(20, 30)];
            var wait, priority := map[3 := 2], map[1 := 31, 2 := 30, 3 := 40];
            && Closed(wait, priority) && Ends(wait, 3, 1) && Acyclic(wait)
            && var now := NowOf(map[10 := 1, 20 := 2], Donated(wait, priority, 3, 1));
               Known(ws, now) && now[20] == 40 && FirstHighest(ws) == 0 && !Greatest(ws, now, 0) && !StoredSuffices(ws, now, 0)
  {
    var ws := [Waiter(10, 31), Waiter(20, 30)];
    var wait, priority := map[3 := 2], map[1 := 31, 2 := 30, 3 := 40];
    assert Ends(wait, 3, 1);
    assert Donated(wait, priority, 3, 1) == Passed(wait, priority, 3) == map[1 := 31, 2 := 40, 3 := 40];
    FirstHighestUnique(ws, 0);
    var now := NowOf(map[10 := 1, 20 := 2], Donated(wait, priority, 3, 1));
    assert Now(ws, now, 1) == 40 && Now(ws, now, 0) == 31;
    SignalPicksGreatest(ws, now);
  }

  // ----- the ups of a broadcast -----

  /** The state after sema_up() on the semaphores of ws, one after the other. */
  ghost function AllRaised(st: S.State<Thread, Semaphore>, ws: seq<Waiter<Semaphore>>): S.State<Thread, Semaphore>
    decreases |ws|
  {
    if ws == [] then st else AllRaised(Next(st, S.Up(ws[0].semaphore)), ws[1..])
  }

  /** The waiters have semaphores of their own. */
  ghost predicate Apart<E>(ws: seq<Waiter<E>>) {
    forall i, j :: 0 <= i < j < |ws| ==> ws[i].semaphore != ws[j].semaphore
  }

  /** The running thread can up each of the semaphores. */
  ghost predicate CanRaise(st: S.State<Thread, Semaphore>, xs: set<Semaphore>) {
    && S.Inv(st) && S.AtLarge(st)
    && forall s :: s in xs ==> s in st.semas && st.semas[s].kind.Counting?
  }

  function Semaphores<E>(ws: seq<Waiter<E>>): set<E> {
    set w | w in ws :: w.semaphore
  }

  /** The semaphores in xs have been upped once more, and no others. */
  ghost predicate UppedOnce<T, E>(st: S.State<T, E>, st1: S.State<T, E>, xs: set<E>) {
    && st1.semas.Keys == st.semas.Keys
    && forall s :: s in st.semas ==> st1.semas[s].ups == st.semas[s].ups + if s in xs then 1 else 0
  }

  /** One up changes the count of its own semaphore only, and leaves the thread running. */
  lemma OneRaised(st: S.State<Thread, Semaphore>, s: Semaphore, xs: set<Semaphore>)
    requires CanRaise(st, xs) && S.Enabled(st, S.Up(s))
    ensures var st1 := Next(st, S.Up(s));
            CanRaise(st1, xs) && UppedOnce(st, st1, {s})
  {
    hide S.ListsOk, S.OneRunning, S.AllOk, S.Core, S.Top, S.Without, S.Raised, S.ThreadsKnown, S.SemasKnown;
    Steps.StepOk(st, S.Up(s));
    S.RaisedWellFormed(st, s);
    RunningStays(st, s);
    RaisedUps(st, s);
  }

  lemma RaisedUps<T, E>(st: S.State<T, E>, s: E)
    requires S.WellFormed(st) && s in st.semas
    ensures UppedOnce(st, S.Raised(st, s), {s})
    ensures forall r :: r in st.semas ==> S.Raised(st, s).semas[r].kind == st.semas[r].kind
  {
    hide S.Top, S.Without;
  }

  /** sema_up() does not wake the running thread, which waits for nothing. */
  lemma RunningStays(st: S.State<Thread, Semaphore>, s: Semaphore)
    requires S.Inv(st) && S.Enabled(st, S.Up(s))
    ensures st.running in Next(st, S.Up(s)).threads && Next(st, S.Up(s)).threads[st.running] == st.threads[st.running]
  {
    hide S.OneRunning, S.AllOk, S.Core, S.Without;
    UpFacts(st, s);
    var ws := st.semas[s].waiters;
    assert S.QueueOk(ws, st.threads, s);
    if ws != [] {
      assert S.Waits(st.threads, ws[S.Top(ws, st.threads)], s);
    }
  }

  /** Ups of different semaphores count for these, once each, and for no others. */
  lemma {:induction false} EachRaisedOnce(st: S.State<Thread, Semaphore>, ws: seq<Waiter<Semaphore>>)
    requires CanRaise(st, Semaphores(ws)) && Apart(ws)
    ensures CanRaise(AllRaised(st, ws), {}) && UppedOnce(st, AllRaised(st, ws), Semaphores(ws))
    decreases |ws|
  {
    hide CanRaise, Apart, Next, S.Inv, S.Enabled;
    if ws == [] {
      FewerToRaise(st, Semaphores(ws), {});
    } else {
      hide UppedOnce, Semaphores;
      var s, rest := ws[0].semaphore, ws[1..];
      CanUp(st, ws);
      OneRaised(st, s, Semaphores(ws));
      TakenApart(ws, 0);
      assert S.Without(ws, 0) == rest;
      FewerToRaise(Next(st, S.Up(s)), Semaphores(ws), Semaphores(rest));
      EachRaisedOnce(Next(st, S.Up(s)), rest);
      UppedTwice(st, Next(st, S.Up(s)), AllRaised(st, ws), {s}, Semaphores(rest));
    }
  }

  lemma UppedTwice<T, E>(st: S.State<T, E>, st1: S.State<T, E>, st2: S.State<T, E>, xs: set<E>, ys: set<E>)
    requires UppedOnce(st, st1, xs) && UppedOnce(st1, st2, ys) && xs !! ys
    ensures UppedOnce(st, st2, xs + ys)
  {
  }

  /** cond_broadcast() ups the semaphore of every waiter exactly once, and no other one. */
  lemma BroadcastReachesAll(st: S.State<Thread, Semaphore>, ws: seq<Waiter<Semaphore>>)
    requires CanRaise(st, Semaphores(ws)) && Apart(ws)
    ensures UppedOnce(st, AllRaised(st, Order(ws)), Semaphores(ws))
  {
    hide CanRaise, Apart, UppedOnce, Order, Next;
    OrderApart(ws);
    EachRaisedOnce(st, Order(ws));
  }

  lemma {:induction false} OrderApart<E>(ws: seq<Waiter<E>>)
    requires Apart(ws)
    ensures Apart(Order(ws)) && Semaphores(Order(ws)) == Semaphores(ws)
    decreases |ws|
  {
    if ws != [] {
      hide Apart, Semaphores;
      var k := FirstHighest(ws);
      var rest := S.Without(ws, k);
      TakenApart(ws, k);
      OrderApart(rest);
      PrependedApart(ws[k], Order(rest));
    }
  }

  lemma TakenApart<E>(ws: seq<Waiter<E>>, k: nat)
    requires Apart(ws) && k < |ws|
    ensures var rest := S.Without(ws, k);
            Apart(rest) && ws[k].semaphore !in Semaphores(rest) && Semaphores(ws) == {ws[k].semaphore} + Semaphores(rest)
  {
    var rest := S.Without(ws, k);
    assert forall j :: 0 <= j < |rest| ==> rest[j] == ws[if j < k then j else j + 1];
    forall w | w in ws && w != ws[k] ensures w in rest {
      var j :| 0 <= j < |ws| && ws[j] == w;
      assert rest[if j < k then j else j - 1] == w;
    }
  }

  lemma PrependedApart<E>(w: Waiter<E>, ws: seq<Waiter<E>>)
    requires Apart(ws) && w.semaphore !in Semaphores(ws)
    ensures Apart([w] + ws) && Semaphores([w] + ws) == {w.semaphore} + Semaphores(ws)
  {
  }

  lemma CanUp(st: S.State<Thread, Semaphore>, ws: seq<Waiter<Semaphore>>)
    requires CanRaise(st, Semaphores(ws)) && ws != []
    ensures S.WellFormed(st) && S.Enabled(st, S.Up(ws[0].semaphore))
  {
    hide S.ListsOk, S.OneRunning, S.AllOk, S.Core;
    assert ws[0] in ws;
  }

  lemma FewerToRaise(st: S.State<Thread, Semaphore>, xs: set<Semaphore>, ys: set<Semaphore>)
    requires CanRaise(st, xs) && ys <= xs
    ensures CanRaise(st, ys)
  {
    hide S.Inv, S.AtLarge;
  }

  /** A signal that comes before the waiter's sema_down() is not lost: until a down has been
      completed the value is positive, and a thread that waits all the same has been woken. */
  lemma SignalKept<T, E>(st: S.State<T, E>, s: E)
    requires S.Inv(st) && s in st.semas && st.semas[s].initial == 0 && st.semas[s].ups > st.semas[s].downs
    ensures st.semas[s].value > 0
    ensures st.semas[s].waiters != [] ==> exists t :: t in st.threads && st.threads[t].activity == S.Downing(s, true)
  {
    hide S.ListsOk, S.OneRunning, S.AllOk, S.LocksOk, S.SleepOk;
    assert S.CountsOk(st) && S.WakeupsOk(st);
    if st.semas[s].waiters != [] {
      var woken := S.Woken(st.threads, s);
      assert |woken| > 0;
      var t :| t in woken;
    }
  }

  // ----- the code on its objects -----

  class Condition {
    var waiters: seq<Waiter<Semaphore>>
    ghost var who: map<Semaphore, Thread>

    /** cond_init() */
    constructor ()
      ensures waiters == []
    {
      waiters := [];
      who := map[];
    }

    /** Each waiter has a semaphore of its own, which is neither a lock's nor a sleeper's. */
    ghost predicate Valid(k: Kernel)
      reads this, k`semas, k`threads
    {
      Apart(waiters) && forall w :: w in waiters ==>
        w.semaphore in k.semas && w.semaphore.kind.Counting? && w.semaphore in who && who[w.semaphore] in k.threads
    }

    /** The present priorities of the waiting threads. */
    ghost function Present(k: Kernel): map<Semaphore, int>
      reads this, k`threads, k.threads`priority
    {
      NowOf(who, PriorityMap(k.threads))
    }

    /** cond_wait() up to its lock_release() */
    method Register(k: Kernel) returns (s: Semaphore)
      requires Valid(k) && S.Inv(k.Abs()) && k.running != k.idleThread && k.running.activity == S.Free
      modifies this, k`semas
      ensures Valid(k) && S.Inv(k.Abs()) && fresh(s)
      ensures k.Abs() == Next(old(k.Abs()), S.Init(s, 0, false))
      ensures waiters == old(waiters) + [Waiter(s, k.running.priority)] && who == old(who)[s := k.running]
    {
      hide S.Inv, Next;
      RunningExists(k);
      s := k.SemaInit(0);
      waiters := waiters + [Waiter(s, k.running.priority)];
      who := who[s := k.running];
    }

    /** The scan of cond_signal(). */
    method Highest() returns (top: nat)
      requires waiters != []
      ensures top == FirstHighest(waiters)
    {
      top := 0;
      var max := S.PRI_MIN;
      for e := 0 to |waiters|
        invariant top < |waiters| && max >= S.PRI_MIN
        invariant forall j :: 0 <= j < e ==> Rank(waiters[j]) <= max
        invariant if max == S.PRI_MIN then top == 0 else top < e && waiters[top].priority == max
        invariant forall j :: 0 <= j < top ==> Rank(waiters[j]) < max
      {
        if waiters[e].priority > max {
          max := waiters[e].priority;
          top := e;
        }
      }
      FirstHighestUnique(waiters, top);
    }

    lemma PresentKnown(k: Kernel)
      requires Valid(k)
      ensures Known(waiters, Present(k))
    {
    }

    /** cond_signal() */
    method Signal(k: Kernel)
      requires Valid(k) && S.Inv(k.Abs()) && k.running != k.idleThread && k.running.activity == S.Free
      modifies this, k`readyList, k`running, k`threadTicks, k.threads`status, k.threads`activity, k.semas
      ensures Valid(k) && S.Inv(k.Abs())
      ensures old(waiters) == [] ==> waiters == [] && k.Abs() == old(k.Abs())
      ensures old(waiters) != [] ==>
                var i := FirstHighest(old(waiters));
                && waiters == S.Without(old(waiters), i)
                && k.Abs() == Next(Next(old(k.Abs()), S.Up(old(waiters)[i].semaphore)), S.Yield)
                && (Greatest(old(waiters), old(Present(k)), i) <==> StoredSuffices(old(waiters), old(Present(k)), i))
    {
      hide S.Inv, S.Enabled, Next, FirstHighest, Apart, Greatest, StoredSuffices;
      if waiters != [] {
        PresentKnown(k);
        SignalPicksGreatest(waiters, Present(k));
        var s := Take(k);
        CanSignal(k, s);
        k.SemaUp(s, false);
      }
    }

    /** list_remove() of the waiter that cond_signal() picks. */
    method Take(k: Kernel) returns (s: Semaphore)
      requires Valid(k) && waiters != []
      modifies this`waiters
      ensures s == old(waiters)[FirstHighest(old(waiters))].semaphore && s in k.semas && s.kind.Counting?
      ensures Valid(k) && waiters == S.Without(old(waiters), FirstHighest(old(waiters)))
    {
      var top := Highest();
      s := waiters[top].semaphore;
      assert waiters[top] in waiters;
      waiters := waiters[..top] + waiters[top + 1..];
      assert waiters == S.Without(old(waiters), top);
    }

    /** cond_broadcast(), with the yields of its sema_up() calls still to come. */
    method Broadcast(k: Kernel)
      requires Valid(k) && S.Inv(k.Abs()) && k.running != k.idleThread && k.running.activity == S.Free
      modifies this, k`readyList, k`running, k`threadTicks, k.threads`status, k.threads`activity, k.semas
      ensures waiters == [] && S.Inv(k.Abs()) && k.Abs() == AllRaised(old(k.Abs()), Order(old(waiters)))
    {
      hide S.Inv, S.Enabled, Next, Order, FirstHighest, AllRaised, Apart, Valid, Kernel.Abs, Kernel.AbsThreads, Kernel.AbsSemas;
      while waiters != []
        invariant Valid(k) && S.Inv(k.Abs()) && k.running == old(k.running) && k.semas == old(k.semas) && k.threads == old(k.threads)
        invariant k.running != k.idleThread && k.running.activity == S.Free
        invariant AllRaised(k.Abs(), Order(waiters)) == AllRaised(old(k.Abs()), Order(old(waiters)))
        decreases |waiters|
      {
        ghost var st := k.Abs();
        AbsRunning(k);
        FirstRaised(st, waiters);
        var s := Take(k);
        CanSignal(k, s);
        k.SemaUp(s, true);
        StillAtLarge(k, st, s);
      }
      FirstRaised(k.Abs(), []);
    }
  }

  lemma RunningExists(k: Kernel)
    requires S.Inv(k.Abs())
    ensures k.running in k.threads
  {
    hide S.ListsOk, S.OneRunning, S.AllOk, S.Core;
    k.AbsKeys();
  }

  lemma AbsRunning(k: Kernel)
    ensures k.Abs().running == k.running
  {
  }

  lemma CanSignal(k: Kernel, s: Semaphore)
    requires S.Inv(k.Abs()) && k.running != k.idleThread && k.running.activity == S.Free && s in k.semas && s.kind.Counting?
    ensures k.Can(S.Up(s))
  {
    hide S.ListsOk, S.OneRunning, S.AllOk, S.Core, S.ThreadsKnown, S.SemasKnown;
    k.AbsKeys();
    RunningIn(k.Abs());
  }

  /** The first round of a broadcast. */
  lemma FirstRaised(st: S.State<Thread, Semaphore>, ws: seq<Waiter<Semaphore>>)
    ensures ws == [] ==> AllRaised(st, Order(ws)) == st
    ensures ws != [] ==>
              var k := FirstHighest(ws);
              AllRaised(st, Order(ws)) == AllRaised(Next(st, S.Up(ws[k].semaphore)), Order(S.Without(ws, k)))
  {
    hide Next;
    if ws != [] {
      OrderUnfolds(ws);
    }
  }

  lemma StillAtLarge(k: Kernel, st: S.State<Thread, Semaphore>, s: Semaphore)
    requires S.Inv(st) && S.Enabled(st, S.Up(s)) && k.Abs() == Next(st, S.Up(s))
    ensures k.running == st.running && k.running != k.idleThread && k.running.activity == S.Free
  {
    hide S.ListsOk, S.OneRunning, S.AllOk, S.Core, S.Top, S.Without;
    k.AbsKeys();
    S.RaisedWellFormed(st, s);
    RunningStays(st, s);
  }
}
