/**
 SynchList of threads/synchlist.h with Condition::Wait and Condition::Signal of
 threads/synch.cc: a list under a lock, with removers waiting under Mesa semantics.  Each
 step is one statement that other threads can observe.  The lock is represented by its
 owner: what Lock.dfy proves of it is that a thread becomes owner only while there is none.
 A waiter's semaphore is used by one thread once, so it is named by that thread and its
 value is whether the thread has been signalled.
 */
module SynchLists {
  import opened Basics

  type Tid = nat

  /** Where a thread is.  Append: wants the lock, is about to append, to signal, to V the
      waiter it took off the queue, to release.  Remove: wants the lock, is about to test
      the list, to release after queueing, sleeps on its semaphore, wants the lock back, is
      about to release with an item. */
  datatype Pc<T> =
    | Idle
    | WantAppend(item: T) | Adding(item: T) | Signalling | Waking(waiter: Tid) | Added
    | WantRemove | Testing | Queued | Sleeping | WantBack | Taken(item: T)

  datatype State<T> = State(
    owner: Option<Tid>,
    list: seq<T>,
    waitQueue: seq<Tid>,
    signalled: set<Tid>,
    pc: map<Tid, Pc<T>>,
    appended: seq<T>,
    removed: seq<T>)

  datatype Call<T> = Append(item: T) | Remove

  function At<T>(s: State<T>, t: Tid): (p: Pc<T>) {
    if t in s.pc then s.pc[t] else Idle
  }

  function Goto<T>(s: State<T>, t: Tid, p: Pc<T>): (r: State<T>) {
    s.(pc := s.pc[t := p])
  }

  /** A thread waits only for the lock or for its semaphore. */
  predicate CanStep<T>(s: State<T>, t: Tid) {
    match At(s, t)
    case WantAppend(_) => s.owner == None
    case WantRemove => s.owner == None
    case WantBack => s.owner == None
    case Sleeping => t in s.signalled
    case _ => true
  }

  /** The next step of thread `t`; `call` is what it calls if it is in no operation. */
  function Step<T>(s: State<T>, t: Tid, call: Call<T>): (r: State<T>)
    requires CanStep(s, t)
  {
    match At(s, t)
    case Idle => Goto(s, t, if call.Append? then WantAppend(call.item) else WantRemove)
    case WantAppend(x) => Goto(s, t, Adding(x)).(owner := Some(t))
    case Adding(x) => Goto(s, t, Signalling).(list := s.list + [x], appended := s.appended + [x])
    case Signalling =>
      if s.waitQueue == [] then Goto(s, t, Added)
      else Goto(s, t, Waking(s.waitQueue[0])).(waitQueue := s.waitQueue[1..])
    case Waking(w) => Goto(s, t, Added).(signalled := s.signalled + {w})
    case Added => Goto(s, t, Idle).(owner := None)
    case WantRemove => Goto(s, t, Testing).(owner := Some(t))
    case Testing =>
      if s.list == [] then Goto(s, t, Queued).(waitQueue := s.waitQueue + [t])
      else Goto(s, t, Taken(s.list[0])).(list := s.list[1..], removed := s.removed + [s.list[0]])
    case Queued => Goto(s, t, Sleeping).(owner := None)
    case Sleeping => Goto(s, t, WantBack).(signalled := s.signalled - {t})
    case WantBack => Goto(s, t, Testing).(owner := Some(t))
    case Taken(_) => Goto(s, t, Idle).(owner := None)
  }

  function Initial<T>(): (s: State<T>) {
    State(None, [], [], {}, map[], [], [])
  }

  // ---------------------------------------------------------------- invariant

  predicate Holds<T>(p: Pc<T>) {
    p.Adding? || p.Signalling? || p.Waking? || p.Added? || p.Testing? || p.Queued? || p.Taken?
  }

  ghost predicate Exclusive<T>(s: State<T>) {
    forall t: Tid :: Holds(At(s, t)) <==> s.owner == Some(t)
  }

  /** What a queued, a signalled and a chosen waiter are doing. */
  ghost predicate Waiters<T>(s: State<T>) {
    && (forall i, j :: 0 <= i < j < |s.waitQueue| ==> s.waitQueue[i] != s.waitQueue[j])
    && (forall t :: t in s.waitQueue ==> (At(s, t).Queued? || At(s, t).Sleeping?) && t !in s.signalled)
    && (forall t :: At(s, t).Queued? ==> t in s.waitQueue)
    && (forall t :: t in s.signalled ==> At(s, t).Sleeping?)
    && (forall t :: At(s, t).Waking? ==>
          var w := At(s, t).waiter; At(s, w).Sleeping? && w !in s.waitQueue && w !in s.signalled)
  }

  /** A sleeper is queued, signalled, or chosen by the signaller. */
  ghost predicate NoneForgotten<T>(s: State<T>) {
    forall t :: At(s, t).Sleeping? ==>
      t in s.waitQueue || t in s.signalled || (s.owner.Some? && At(s, s.owner.value) == Waking(t))
  }

  /** The removers taken off the queue that have not got the lock back. */
  ghost function InFlight<T>(s: State<T>): (w: set<Tid>) {
    set t | t in s.pc && (s.pc[t].WantBack? || (s.pc[t].Sleeping? && t !in s.waitQueue))
  }

  /** The owner is about to signal, or about to take an item. */
  ghost function Slack<T>(s: State<T>): (n: nat) {
    if s.owner.Some? && (At(s, s.owner.value).Signalling? || At(s, s.owner.value).Testing?) then 1 else 0
  }

  /** While removers wait, items do not outnumber the removers on their way to them. */
  ghost predicate Flow<T>(s: State<T>) {
    s.waitQueue != [] ==> |s.list| <= |InFlight(s)| + Slack(s)
  }

  ghost predicate Inv<T>(s: State<T>) {
    && s.removed + s.list == s.appended
    && Exclusive(s) && Waiters(s) && NoneForgotten(s) && Flow(s)
  }

  lemma StepExclusive<T>(s: State<T>, t: Tid, call: Call<T>)
    requires Exclusive(s) && CanStep(s, t)
    ensures Exclusive(Step(s, t, call))
  {
    var r := Step(s, t, call);
    forall u ensures Holds(At(r, u)) <==> r.owner == Some(u) {
      assert u != t ==> At(r, u) == At(s, u);
    }
  }

  lemma StepItems<T>(s: State<T>, t: Tid, call: Call<T>)
    requires s.removed + s.list == s.appended && CanStep(s, t)
    ensures var r := Step(s, t, call); r.removed + r.list == r.appended
  {
    var r := Step(s, t, call);
    match At(s, t)
    case Adding(x) => assert s.removed + (s.list + [x]) == (s.removed + s.list) + [x];
    case Testing =>
      if s.list != [] {
        assert s.list == [s.list[0]] + s.list[1..];
        assert (s.removed + [s.list[0]]) + s.list[1..] == s.removed + s.list;
      }
    case _ =>
  }

  lemma SignalWaiters<T>(s: State<T>, t: Tid, call: Call<T>)
    requires Exclusive(s) && Waiters(s) && At(s, t).Signalling? && s.waitQueue != []
    ensures Waiters(Step(s, t, call))
  {
    var w := s.waitQueue[0];
    assert w in s.waitQueue && s.owner == Some(t);
    assert forall u: Tid :: At(s, u).Queued? ==> s.owner == Some(u);
    assert forall u :: u in s.waitQueue[1..] ==> u in s.waitQueue;
    assert w !in s.waitQueue[1..];
    var r := Step(s, t, call);
    assert forall u :: u != t ==> At(r, u) == At(s, u);
  }

  lemma StepWaiters<T>(s: State<T>, t: Tid, call: Call<T>)
    requires Exclusive(s) && Waiters(s) && CanStep(s, t)
    ensures Waiters(Step(s, t, call))
  {
    if At(s, t).Signalling? && s.waitQueue != [] {
      SignalWaiters(s, t, call);
    } else {
      var r := Step(s, t, call);
      assert forall u :: u != t ==> At(r, u) == At(s, u);
    }
  }

  lemma StepForgets<T>(s: State<T>, t: Tid, call: Call<T>)
    requires Exclusive(s) && Waiters(s) && NoneForgotten(s) && CanStep(s, t)
    ensures NoneForgotten(Step(s, t, call))
  {
    var r := Step(s, t, call);
    assert forall u :: u != t ==> At(r, u) == At(s, u);
    if At(s, t).Signalling? && s.waitQueue != [] {
      assert forall u :: u in s.waitQueue ==> u == s.waitQueue[0] || u in s.waitQueue[1..];
    }
  }

  /** Signalling puts the first waiter in flight. */
  lemma SignalFlow<T>(s: State<T>, t: Tid, call: Call<T>)
    requires Inv(s) && At(s, t).Signalling? && s.waitQueue != []
    ensures Flow(Step(s, t, call))
  {
    var r, w := Step(s, t, call), s.waitQueue[0];
    assert w in s.waitQueue && s.owner == Some(t);
    assert w !in s.waitQueue[1..];
    assert forall u :: u in s.waitQueue <==> u == w || u in s.waitQueue[1..];
    assert At(s, w).Sleeping? by { assert At(s, w).Queued? ==> s.owner == Some(w); }
    assert InFlight(r) == InFlight(s) + {w};
    assert w !in InFlight(s);
  }

  /** A thread outside Signal changes who is in flight only by getting the lock back. */
  lemma FlightStep<T>(s: State<T>, t: Tid, call: Call<T>)
    requires Inv(s) && CanStep(s, t) && !At(s, t).Signalling? && !(At(s, t).Testing? && s.list == [])
    ensures InFlight(Step(s, t, call)) == if At(s, t).WantBack? then InFlight(s) - {t} else InFlight(s)
  {
    var r := Step(s, t, call);
    assert forall u :: u != t ==> At(r, u) == At(s, u);
    assert r.waitQueue == s.waitQueue;
    if At(s, t).Queued? { assert t in s.waitQueue; }
    if At(s, t).Sleeping? { assert t !in s.waitQueue; }
  }

  lemma StepFlow<T>(s: State<T>, t: Tid, call: Call<T>)
    requires Inv(s) && CanStep(s, t)
    ensures Flow(Step(s, t, call))
  {
    if At(s, t).Signalling? {
      if s.waitQueue != [] { SignalFlow(s, t, call); }
    } else if !(At(s, t).Testing? && s.list == []) {
      FlightStep(s, t, call);
      assert Holds(At(s, t)) ==> s.owner == Some(t);
      if At(s, t).WantBack? { assert t in InFlight(s); }
    }
  }

  lemma StepInv<T>(s: State<T>, t: Tid, call: Call<T>)
    requires Inv(s) && CanStep(s, t)
    ensures Inv(Step(s, t, call))
  {
    StepItems(s, t, call);
    StepExclusive(s, t, call);
    StepWaiters(s, t, call);
    StepForgets(s, t, call);
    StepFlow(s, t, call);
  }

  // ---------------------------------------------------------------- whole runs

  ghost predicate Run<T>(ss: seq<State<T>>, ts: seq<Tid>, calls: seq<Call<T>>) {
    && |ss| == |ts| + 1 && |calls| == |ts|
    && forall i :: 0 <= i < |ts| ==> CanStep(ss[i], ts[i]) && ss[i + 1] == Step(ss[i], ts[i], calls[i])
  }

  lemma {:induction false} RunInv<T>(ss: seq<State<T>>, ts: seq<Tid>, calls: seq<Call<T>>, i: nat)
    requires Run(ss, ts, calls) && ss[0] == Initial() && i <= |ts|
    ensures Inv(ss[i])
  {
    if i > 0 {
      RunInv(ss, ts, calls, i - 1);
      StepInv(ss[i - 1], ts[i - 1], calls[i - 1]);
    }
  }

  /** In every interleaving: the items removed, in order of removal, followed by those still
      on the list are the items appended, in order.  Whenever the lock is free and removers
      wait, the list is no longer than the number of removers signalled and on their way. */
  lemma NothingLost<T>(ss: seq<State<T>>, ts: seq<Tid>, calls: seq<Call<T>>, i: nat)
    requires Run(ss, ts, calls) && ss[0] == Initial() && i <= |ts|
    ensures ss[i].removed + ss[i].list == ss[i].appended
    ensures ss[i].owner == None && ss[i].waitQueue != [] ==> |ss[i].list| <= |InFlight(ss[i])|
  {
    RunInv(ss, ts, calls, i);
  }

  /** Hence no remover is left asleep for good beside an item: in every run, whenever the
      lock is free, an item is there and a remover waits, another remover can take a step
      towards it. */
  lemma SomeoneComes<T>(ss: seq<State<T>>, ts: seq<Tid>, calls: seq<Call<T>>, i: nat)
    requires Run(ss, ts, calls) && ss[0] == Initial() && i <= |ts|
    requires ss[i].owner == None && ss[i].waitQueue != [] && ss[i].list != []
    ensures exists t :: (At(ss[i], t).WantBack? || At(ss[i], t).Sleeping?) && CanStep(ss[i], t)
  {
    RunInv(ss, ts, calls, i);
    var s := ss[i];
    assert InFlight(s) != {};
    var t :| t in InFlight(s);
    assert At(s, t) == s.pc[t];
    assert CanStep(s, t);
  }

  // ---------------------------------------------------------------- first come, first served

  /** The thread's step is a Signal that finds a waiter. */
  predicate Signals<T>(s: State<T>, t: Tid) {
    At(s, t).Signalling? && s.waitQueue != []
  }

  ghost function SignalsIn<T>(ss: seq<State<T>>, ts: seq<Tid>, i: nat, j: nat): (n: nat)
    requires |ss| == |ts| + 1 && i <= j <= |ts|
    decreases j
  {
    if i == j then 0 else SignalsIn(ss, ts, i, j - 1) + if Signals(ss[j - 1], ts[j - 1]) then 1 else 0
  }

  ghost predicate Waits<T>(s: State<T>, m: int, w: Tid) {
    0 <= m < |s.waitQueue| && s.waitQueue[m] == w
  }

  /** A Signal takes the head of the queue; every other step only appends. */
  lemma StepQueue<T>(s: State<T>, t: Tid, call: Call<T>)
    requires CanStep(s, t)
    ensures var r := Step(s, t, call);
            if Signals(s, t) then r.waitQueue == s.waitQueue[1..] && At(r, t) == Waking(s.waitQueue[0])
            else s.waitQueue <= r.waitQueue
  {
  }

  lemma {:induction false} WaiterMoves<T>(ss: seq<State<T>>, ts: seq<Tid>, calls: seq<Call<T>>,
                                          i: nat, j: nat, m: nat, w: Tid)
    requires Run(ss, ts, calls) && i <= j <= |ts| && Waits(ss[i], m, w) && SignalsIn(ss, ts, i, j) <= m
    ensures Waits(ss[j], m - SignalsIn(ss, ts, i, j), w)
    decreases j
  {
    if i < j {
      WaiterMoves(ss, ts, calls, i, j - 1, m, w);
      WaiterStep(ss[j - 1], ts[j - 1], calls[j - 1], m - SignalsIn(ss, ts, i, j - 1), w);
    }
  }

  lemma WaiterStep<T>(s: State<T>, t: Tid, call: Call<T>, m: nat, w: Tid)
    requires CanStep(s, t) && Waits(s, m, w)
    ensures !Signals(s, t) ==> Waits(Step(s, t, call), m, w)
    ensures Signals(s, t) && m > 0 ==> Waits(Step(s, t, call), m - 1, w)
  {
    StepQueue(s, t, call);
  }

  /** A remover waiting with `m` others ahead of it is chosen by the (m+1)-th Signal and not
      before. */
  lemma SignalledInTurn<T>(ss: seq<State<T>>, ts: seq<Tid>, calls: seq<Call<T>>, i: nat, j: nat, m: nat)
    requires Run(ss, ts, calls) && i < j <= |ts| && m < |ss[i].waitQueue|
    ensures SignalsIn(ss, ts, i, j) <= m ==> Waits(ss[j], m - SignalsIn(ss, ts, i, j), ss[i].waitQueue[m])
    ensures SignalsIn(ss, ts, i, j) == m + 1 && Signals(ss[j - 1], ts[j - 1]) ==>
              At(ss[j], ts[j - 1]) == Waking(ss[i].waitQueue[m])
  {
    var w := ss[i].waitQueue[m];
    if SignalsIn(ss, ts, i, j) <= m {
      WaiterMoves(ss, ts, calls, i, j, m, w);
    } else if SignalsIn(ss, ts, i, j) == m + 1 && Signals(ss[j - 1], ts[j - 1]) {
      WaiterMoves(ss, ts, calls, i, j - 1, m, w);
      StepQueue(ss[j - 1], ts[j - 1], calls[j - 1]);
    }
  }

  // ---------------------------------------------------------------- the monitor's code

  /** The data of a SynchList and its condition, updated in place. */
  class SynchList<T> {
    var list: seq<T>
    var waitQueue: seq<Tid>
    var signalled: set<Tid>

    /** The data as part of a state. */
    ghost predicate Shows(s: State<T>)
      reads this
    {
      s.list == list && s.waitQueue == waitQueue && s.signalled == signalled
    }

    constructor ()
      ensures Shows(Initial())
    {
      list, waitQueue, signalled := [], [], {};
    }

    /** Condition::Signal. */
    method Signal(t: Tid, ghost s: State<T>, ghost call: Call<T>)
      requires Shows(s) && At(s, t).Signalling?
      modifies this
      ensures var after := Step(s, t, call);
              if old(waitQueue) == [] then Shows(after)
              else At(after, t).Waking? && Shows(Step(after, t, call))
    {
      if waitQueue != [] {
        var waiter := waitQueue[0];
        waitQueue := waitQueue[1..];
        signalled := signalled + {waiter};
      }
    }

    /** The body of Append between Acquire and Release. */
    method Append(t: Tid, item: T, ghost s: State<T>, ghost call: Call<T>)
      requires Shows(s) && At(s, t) == Adding(item)
      modifies this
      ensures var added := Step(s, t, call);
              var after := Step(added, t, call);
              Shows(if At(after, t).Waking? then Step(after, t, call) else after)
    {
      list := list + [item];
      Signal(t, Step(s, t, call), call);
    }

    /** One turn of the loop of Remove: take the first item, or queue up to wait. */
    method TryRemove(t: Tid, ghost s: State<T>, ghost call: Call<T>) returns (item: Option<T>)
      requires Shows(s) && At(s, t).Testing?
      modifies this
      ensures Shows(Step(s, t, call))
      ensures At(Step(s, t, call), t) == if item.Some? then Taken(item.value) else Queued
    {
      if list == [] {
        waitQueue := waitQueue + [t];
        return None;
      }
      item := Some(list[0]);
      list := list[1..];
    }
  }
}
