/**
 Threads, the scheduler and semaphores (threads/scheduler.cc, threads/thread.cc and
 Semaphore of threads/synch.cc) as a transition system.  One step is one region executed
 with interrupts off; a run is any interleaving of such steps.
 */
module Kernels {
  import opened Basics

  type Tid = nat

  datatype Status = Running | Ready | Blocked

  /** A semaphore, with the number of Vs and of completed Ps so far. */
  datatype Sem = Sem(init: nat, value: int, queue: seq<Tid>, vs: nat, ps: nat)

  /** `inP` maps each thread inside Semaphore::P to that semaphore: it sleeps in the queue,
      or was woken and has not tested the value again. */
  datatype Kernel = Kernel(
    ready: seq<Tid>,
    current: Option<Tid>,
    sems: seq<Sem>,
    alive: set<Tid>,
    inP: map<Tid, nat>,
    status: map<Tid, Status>)

  /** Dispatch is the dispatcher taking the first ready thread after Sleep; V may come
      from the running thread or from an interrupt handler. */
  datatype Op = NewSem(init: nat) | Fork(t: Tid) | Yield | Finish | P(s: nat) | Retest | V(s: nat) | Dispatch

  // ---------------------------------------------------------------- steps

  /** A thread runs code outside P. */
  predicate Free(k: Kernel) {
    k.current.Some? && k.current.value !in k.inP
  }

  predicate Enabled(k: Kernel, op: Op) {
    match op
    case NewSem(_) => Free(k)
    case Fork(t) => Free(k) && t !in k.alive
    case Yield => Free(k)
    case Finish => Free(k)
    case P(s) => Free(k) && s < |k.sems|
    case Retest => k.current.Some? && k.current.value in k.inP && k.inP[k.current.value] < |k.sems|
    case V(s) => s < |k.sems|
    case Dispatch => k.current.None? && k.ready != []
  }

  /** Scheduler::ReadyToRun. */
  function ReadyToRun(k: Kernel, t: Tid): (r: Kernel) {
    k.(status := k.status[t := Ready], ready := k.ready + [t])
  }

  /** Scheduler::FindNextToRun and Scheduler::Run on a nonempty ready list. */
  function RunNext(k: Kernel): (r: Kernel)
    requires k.ready != []
  {
    var t := k.ready[0];
    k.(ready := k.ready[1..], current := Some(t), status := k.status[t := Running])
  }

  /** The loop test of Semaphore::P, by the current thread: go to sleep or consume. */
  function Test(k: Kernel, t: Tid, s: nat): (r: Kernel)
    requires s < |k.sems|
  {
    var sem := k.sems[s];
    if sem.value == 0 then
      k.(sems := k.sems[s := sem.(queue := sem.queue + [t])], inP := k.inP[t := s],
         status := k.status[t := Blocked], current := None)
    else
      k.(sems := k.sems[s := sem.(value := sem.value - 1, ps := sem.ps + 1)], inP := k.inP - {t})
  }

  /** Semaphore::V. */
  function Vee(k: Kernel, s: nat): (r: Kernel)
    requires s < |k.sems|
  {
    var sem := k.sems[s];
    if sem.queue == [] then
      k.(sems := k.sems[s := sem.(value := sem.value + 1, vs := sem.vs + 1)])
    else
      var after := sem.(value := sem.value + 1, vs := sem.vs + 1, queue := sem.queue[1..]);
      ReadyToRun(k, sem.queue[0]).(sems := k.sems[s := after])
  }

  function Step(k: Kernel, op: Op): (r: Kernel)
    requires Enabled(k, op)
  {
    match op
    case NewSem(init) => k.(sems := k.sems + [Sem(init, init, [], 0, 0)])
    case Fork(t) => ReadyToRun(k, t).(alive := k.alive + {t})
    case Yield => if k.ready == [] then k else RunNext(ReadyToRun(k, k.current.value))
    case Finish =>
      var t := k.current.value;
      k.(alive := k.alive - {t}, current := None, status := k.status[t := Blocked])
    case P(s) => Test(k, k.current.value, s)
    case Retest => Test(k, k.current.value, k.inP[k.current.value])
    case V(s) => Vee(k, s)
    case Dispatch => RunNext(k)
  }

  /** At boot the main thread runs alone. */
  ghost predicate Boot(k: Kernel) {
    k.current.Some? && k == Kernel([], k.current, [], {k.current.value}, map[], map[k.current.value := Running])
  }

  // ---------------------------------------------------------------- conservation of threads

  /** How often a thread stands in a list. */
  ghost function Count(q: seq<Tid>, t: Tid): (n: nat) {
    multiset(q)[t]
  }

  lemma CountPush(q: seq<Tid>, x: Tid, t: Tid)
    ensures Count(q + [x], t) == Count(q, t) + if x == t then 1 else 0
  {
  }

  lemma CountPop(q: seq<Tid>, t: Tid)
    requires q != []
    ensures Count(q, t) == Count(q[1..], t) + if q[0] == t then 1 else 0
  {
    assert q == [q[0]] + q[1..];
  }

  /** How often a thread sleeps in the semaphore queues, taken together. */
  ghost function Queued(sems: seq<Sem>, t: Tid): (n: nat) {
    if sems == [] then 0 else Queued(sems[..|sems| - 1], t) + Count(sems[|sems| - 1].queue, t)
  }

  /** How often a thread stands anywhere: on the CPU, ready, or asleep. */
  ghost function Places(k: Kernel, t: Tid): (n: nat) {
    (if k.current == Some(t) then 1 else 0) + Count(k.ready, t) + Queued(k.sems, t)
  }

  /** Every thread forked and not finished is in exactly one place, and no other thread is
      anywhere. */
  ghost predicate Conserved(k: Kernel) {
    forall t :: Places(k, t) == if t in k.alive then 1 else 0
  }

  lemma {:induction false} QueuedUpdate(sems: seq<Sem>, s: nat, sem: Sem, t: Tid)
    requires s < |sems|
    ensures Queued(sems[s := sem], t) == Queued(sems, t) - Count(sems[s].queue, t) + Count(sem.queue, t)
  {
    var n := |sems| - 1;
    if s == n {
      assert sems[s := sem][..n] == sems[..n];
    } else {
      assert sems[s := sem][..n] == sems[..n][s := sem];
      QueuedUpdate(sems[..n], s, sem, t);
    }
  }

  /** Where a thread goes when the loop of P sends it to sleep or lets it through. */
  lemma TestPlaces(k: Kernel, c: Tid, s: nat, t: Tid)
    requires s < |k.sems| && k.current == Some(c)
    ensures Places(Test(k, c, s), t) == Places(k, t)
  {
    QueuedUpdate(k.sems, s, Test(k, c, s).sems[s], t);
    CountPush(k.sems[s].queue, c, t);
  }

  lemma VeePlaces(k: Kernel, s: nat, t: Tid)
    requires s < |k.sems|
    ensures Places(Vee(k, s), t) == Places(k, t)
  {
    QueuedUpdate(k.sems, s, Vee(k, s).sems[s], t);
    if k.sems[s].queue != [] {
      CountPop(k.sems[s].queue, t);
      CountPush(k.ready, k.sems[s].queue[0], t);
    }
  }

  lemma StepPlaces(k: Kernel, op: Op, t: Tid)
    requires Enabled(k, op)
    ensures Places(Step(k, op), t) ==
              Places(k, t) + (if op == Fork(t) then 1 else 0) - (if op == Finish && k.current == Some(t) then 1 else 0)
  {
    match op
    case NewSem(init) =>
      assert Step(k, op).sems[..|k.sems|] == k.sems;
    case Fork(u) => CountPush(k.ready, u, t);
    case Yield =>
      if k.ready != [] {
        CountPush(k.ready, k.current.value, t);
        CountPop(k.ready + [k.current.value], t);
      }
    case P(s) => TestPlaces(k, k.current.value, s, t);
    case Retest => TestPlaces(k, k.current.value, k.inP[k.current.value], t);
    case V(s) => VeePlaces(k, s, t);
    case Dispatch => CountPop(k.ready, t);
    case Finish =>
  }

  lemma StepConserves(k: Kernel, op: Op)
    requires Conserved(k) && Enabled(k, op)
    ensures Conserved(Step(k, op))
  {
    forall t ensures Places(Step(k, op), t) == if t in Step(k, op).alive then 1 else 0 {
      StepPlaces(k, op, t);
      if op.Finish? {
        assert Places(k, k.current.value) == 1;
      }
    }
  }

  // ---------------------------------------------------------------- semaphores

  /** Woken for semaphore `s` and not yet tested again. */
  ghost function Woken(k: Kernel, s: nat): set<Tid>
    requires s < |k.sems|
  {
    set t | t in k.inP && k.inP[t] == s && t !in k.sems[s].queue
  }

  /** Accounting: the value is never negative and equals initial + Vs - completed Ps.
      No lost wakeup: while threads sleep, the value is at most the number of woken
      threads that have not yet tested again. */
  ghost predicate SemInv(k: Kernel, s: nat)
    requires s < |k.sems|
  {
    var sem := k.sems[s];
    && sem.value == sem.init + sem.vs - sem.ps && sem.value >= 0
    && (sem.queue != [] ==> sem.value <= |Woken(k, s)|)
  }

  ghost predicate Waits(k: Kernel) {
    && (forall t :: t in k.inP ==> t in k.alive && k.inP[t] < |k.sems|)
    && (forall s, t :: 0 <= s < |k.sems| && t in k.sems[s].queue ==> t in k.inP && k.inP[t] == s)
  }

  ghost predicate StatusMatches(k: Kernel) {
    && (k.current.Some? ==> k.current.value in k.status && k.status[k.current.value] == Running)
    && (forall t :: t in k.ready ==> t in k.status && k.status[t] == Ready)
    && (forall s, t :: 0 <= s < |k.sems| && t in k.sems[s].queue ==> t in k.status && k.status[t] == Blocked)
  }

  ghost predicate Inv(k: Kernel) {
    Conserved(k) && Waits(k) && StatusMatches(k) && forall s :: 0 <= s < |k.sems| ==> SemInv(k, s)
  }

  lemma {:induction false} QueuedMember(sems: seq<Sem>, s: nat, t: Tid)
    requires s < |sems|
    ensures Count(sems[s].queue, t) <= Queued(sems, t)
  {
    if s < |sems| - 1 {
      QueuedMember(sems[..|sems| - 1], s, t);
    }
  }

  lemma {:induction false} QueuedPair(sems: seq<Sem>, a: nat, b: nat, t: Tid)
    requires a < b < |sems|
    ensures Count(sems[a].queue, t) + Count(sems[b].queue, t) <= Queued(sems, t)
  {
    var n := |sems| - 1;
    if b == n {
      QueuedMember(sems[..n], a, t);
    } else {
      QueuedPair(sems[..n], a, b, t);
    }
  }

  /** A place excludes every other: the running thread is neither ready nor asleep. */
  lemma CurrentAlone(k: Kernel, t: Tid)
    requires Conserved(k) && k.current == Some(t)
    ensures t in k.alive && t !in k.ready
    ensures forall s :: 0 <= s < |k.sems| ==> t !in k.sems[s].queue
  {
    assert Places(k, t) == 1;
    assert Count(k.ready, t) == 0;
    forall s | 0 <= s < |k.sems| ensures t !in k.sems[s].queue {
      QueuedMember(k.sems, s, t);
    }
  }

  /** A ready thread is ready once, and nowhere else. */
  lemma ReadyAlone(k: Kernel, t: Tid)
    requires Conserved(k) && t in k.ready
    ensures t in k.alive && k.current != Some(t) && Count(k.ready, t) == 1
    ensures forall s :: 0 <= s < |k.sems| ==> t !in k.sems[s].queue
  {
    assert Places(k, t) <= 1 && Count(k.ready, t) >= 1;
    forall s | 0 <= s < |k.sems| ensures t !in k.sems[s].queue {
      QueuedMember(k.sems, s, t);
    }
  }

  /** A sleeping thread is in one queue, once, and nowhere else. */
  lemma SleeperAlone(k: Kernel, s: nat, t: Tid)
    requires Conserved(k) && s < |k.sems| && t in k.sems[s].queue
    ensures t in k.alive && k.current != Some(t) && t !in k.ready && Count(k.sems[s].queue, t) == 1
    ensures forall r :: 0 <= r < |k.sems| && r != s ==> t !in k.sems[r].queue
  {
    QueuedMember(k.sems, s, t);
    assert Places(k, t) <= 1 && Count(k.sems[s].queue, t) >= 1;
    assert Count(k.ready, t) == 0;
    forall r | 0 <= r < |k.sems| && r != s ensures t !in k.sems[r].queue {
      if r < s { QueuedPair(k.sems, r, s, t); } else { QueuedPair(k.sems, s, r, t); }
    }
  }

  // ---------------------------------------------------------------- P

  lemma TestWaits(k: Kernel, t: Tid, s: nat)
    requires Conserved(k) && Waits(k) && k.current == Some(t) && s < |k.sems|
    requires t in k.inP ==> k.inP[t] == s
    ensures Waits(Test(k, t, s))
  {
    CurrentAlone(k, t);
  }

  lemma TestStatus(k: Kernel, t: Tid, s: nat)
    requires Conserved(k) && StatusMatches(k) && k.current == Some(t) && s < |k.sems|
    ensures StatusMatches(Test(k, t, s))
  {
    CurrentAlone(k, t);
  }

  lemma TestSems(k: Kernel, t: Tid, s: nat, r: nat)
    requires Inv(k) && k.current == Some(t) && s < |k.sems| && r < |k.sems|
    requires t in k.inP ==> k.inP[t] == s
    ensures SemInv(Test(k, t, s), r)
  {
    var after := Test(k, t, s);
    assert SemInv(k, r);
    CurrentAlone(k, t);
    if r != s {
      assert Woken(after, r) == Woken(k, r);
    } else if k.sems[s].value != 0 {
      assert Woken(after, s) == Woken(k, s) - {t};
      assert t in k.inP ==> t in Woken(k, s);
    }
  }

  // ---------------------------------------------------------------- V

  lemma VeeWaits(k: Kernel, s: nat)
    requires Waits(k) && s < |k.sems|
    ensures Waits(Vee(k, s))
  {
    var q := k.sems[s].queue;
    if q != [] {
      assert forall t :: t in q[1..] ==> t in q;
    }
  }

  lemma PopOnce(q: seq<Tid>)
    requires q != [] && Count(q, q[0]) == 1
    ensures q[0] !in q[1..]
  {
    CountPop(q, q[0]);
  }

  lemma VeeStatus(k: Kernel, s: nat)
    requires Conserved(k) && StatusMatches(k) && s < |k.sems|
    ensures StatusMatches(Vee(k, s))
  {
    var q := k.sems[s].queue;
    if q != [] {
      SleeperAlone(k, s, q[0]);
      PopOnce(q);
      var r := Vee(k, s);
      forall a, t | 0 <= a < |r.sems| && t in r.sems[a].queue ensures t in r.status && r.status[t] == Blocked {
        assert t in k.sems[a].queue;
      }
    }
  }

  lemma VeeSems(k: Kernel, s: nat, r: nat)
    requires Inv(k) && s < |k.sems| && r < |k.sems|
    ensures SemInv(Vee(k, s), r)
  {
    var after := Vee(k, s);
    assert SemInv(k, r);
    var q := k.sems[s].queue;
    if r != s {
      assert Woken(after, r) == Woken(k, r);
    } else if q != [] {
      SleeperAlone(k, s, q[0]);
      PopOnce(q);
      assert forall t :: t in q <==> t == q[0] || t in q[1..];
      assert q[0] in k.inP && k.inP[q[0]] == s;
      assert Woken(after, s) == Woken(k, s) + {q[0]};
      assert q[0] !in Woken(k, s);
    }
  }

  // ---------------------------------------------------------------- all steps

  lemma StepSems(k: Kernel, op: Op, r: nat)
    requires Inv(k) && Enabled(k, op) && r < |Step(k, op).sems|
    ensures SemInv(Step(k, op), r)
  {
    match op
    case P(s) => TestSems(k, k.current.value, s, r);
    case Retest => TestSems(k, k.current.value, k.inP[k.current.value], r);
    case V(s) => VeeSems(k, s, r);
    case _ =>
      if r < |k.sems| {
        assert SemInv(k, r);
        assert Woken(Step(k, op), r) == Woken(k, r);
      }
  }

  lemma StepWaits(k: Kernel, op: Op)
    requires Inv(k) && Enabled(k, op)
    ensures Waits(Step(k, op))
  {
    match op
    case P(s) => TestWaits(k, k.current.value, s);
    case Retest => TestWaits(k, k.current.value, k.inP[k.current.value]);
    case V(s) => VeeWaits(k, s);
    case _ =>
  }

  lemma StepStatus(k: Kernel, op: Op)
    requires Inv(k) && Enabled(k, op)
    ensures StatusMatches(Step(k, op))
  {
    match op
    case NewSem(_) =>
    case Fork(t) =>
      forall s | 0 <= s < |k.sems| ensures t !in k.sems[s].queue {
        if t in k.sems[s].queue { SleeperAlone(k, s, t); }
      }
      if k.current == Some(t) { CurrentAlone(k, t); }
    case Yield =>
      if k.ready != [] {
        YieldStatus(k);
      }
    case Finish => CurrentAlone(k, k.current.value);
    case P(s) => TestStatus(k, k.current.value, s);
    case Retest => TestStatus(k, k.current.value, k.inP[k.current.value]);
    case V(s) => VeeStatus(k, s);
    case Dispatch =>
      ReadyAlone(k, k.ready[0]);
      NextStatus(k);
  }

  lemma YieldStatus(k: Kernel)
    requires Conserved(k) && StatusMatches(k) && Free(k) && k.ready != []
    ensures StatusMatches(Step(k, Yield))
  {
    var t := k.current.value;
    CurrentAlone(k, t);
    ReadyAlone(k, k.ready[0]);
    CountPush(k.ready, t, k.ready[0]);
    NextStatus(ReadyToRun(k, t).(current := None));
  }

  lemma NextStatus(k: Kernel)
    requires k.ready != [] && k.current == None && StatusMatches(k)
    requires Count(k.ready, k.ready[0]) == 1
    requires forall s :: 0 <= s < |k.sems| ==> k.ready[0] !in k.sems[s].queue
    ensures StatusMatches(RunNext(k))
  {
    PopOnce(k.ready);
  }

  /** Every step keeps the invariant. */
  lemma StepInv(k: Kernel, op: Op)
    requires Inv(k) && Enabled(k, op)
    ensures Inv(Step(k, op))
  {
    StepConserves(k, op);
    StepWaits(k, op);
    StepStatus(k, op);
    forall r | 0 <= r < |Step(k, op).sems| ensures SemInv(Step(k, op), r) {
      StepSems(k, op, r);
    }
  }

  // ---------------------------------------------------------------- whole runs

  ghost predicate Steps(k: Kernel, op: Op, r: Kernel) {
    Enabled(k, op) && r == Step(k, op)
  }

  ghost predicate Run(ks: seq<Kernel>, ops: seq<Op>) {
    |ks| == |ops| + 1 && forall i :: 0 <= i < |ops| ==> Steps(ks[i], ops[i], ks[i + 1])
  }

  lemma BootInv(k: Kernel)
    requires Boot(k)
    ensures Inv(k)
  {
  }

  /** In every run from boot the invariant holds throughout. */
  lemma {:induction false} RunInv(ks: seq<Kernel>, ops: seq<Op>, i: nat)
    requires Run(ks, ops) && Boot(ks[0]) && i <= |ops|
    ensures Inv(ks[i])
  {
    if i == 0 {
      BootInv(ks[0]);
    } else {
      RunInv(ks, ops, i - 1);
      assert Steps(ks[i - 1], ops[i - 1], ks[i]);
      StepInv(ks[i - 1], ops[i - 1]);
    }
  }

  /** In every run, a thread forked and not finished is running, ready, or asleep in one
      semaphore queue: exactly one of these, exactly once. */
  lemma EveryThreadInOnePlace(ks: seq<Kernel>, ops: seq<Op>, i: nat, t: Tid)
    requires Run(ks, ops) && Boot(ks[0]) && i <= |ops|
    ensures var k := ks[i];
            && (t in k.alive <==>
                  k.current == Some(t) || t in k.ready || exists s :: 0 <= s < |k.sems| && t in k.sems[s].queue)
            && !(k.current == Some(t) && t in k.ready)
            && Count(k.ready, t) <= 1
            && forall s :: 0 <= s < |k.sems| && t in k.sems[s].queue ==>
                 && k.current != Some(t) && t !in k.ready && Count(k.sems[s].queue, t) == 1
                 && forall r :: 0 <= r < |k.sems| && r != s ==> t !in k.sems[r].queue
  {
    RunInv(ks, ops, i);
    var k := ks[i];
    assert Places(k, t) == if t in k.alive then 1 else 0;
    if t in k.alive && k.current != Some(t) && t !in k.ready {
      SomeQueue(k.sems, t);
    }
    forall s | 0 <= s < |k.sems| && t in k.sems[s].queue
      ensures k.current != Some(t) && t !in k.ready && Count(k.sems[s].queue, t) == 1
      ensures t in k.alive && forall r :: 0 <= r < |k.sems| && r != s ==> t !in k.sems[r].queue
    {
      SleeperAlone(k, s, t);
    }
    if t in k.ready { ReadyAlone(k, t); }
    if k.current == Some(t) { CurrentAlone(k, t); }
  }

  lemma {:induction false} SomeQueue(sems: seq<Sem>, t: Tid)
    requires Queued(sems, t) > 0
    ensures exists s :: 0 <= s < |sems| && t in sems[s].queue
  {
    var n := |sems| - 1;
    if t !in sems[n].queue {
      SomeQueue(sems[..n], t);
      var s :| 0 <= s < n && t in sems[..n][s].queue;
      assert t in sems[s].queue;
    }
  }

  // ---------------------------------------------------------------- first come, first served

  /** The step hands the CPU to the first ready thread. */
  predicate Dispatches(k: Kernel, op: Op) {
    op == Dispatch || (op == Yield && k.ready != [])
  }

  ghost function Dispatched(ks: seq<Kernel>, ops: seq<Op>, i: nat, j: nat): (n: nat)
    requires |ks| == |ops| + 1 && i <= j <= |ops|
    decreases j
  {
    if i == j then 0 else Dispatched(ks, ops, i, j - 1) + if Dispatches(ks[j - 1], ops[j - 1]) then 1 else 0
  }

  /** A dispatch takes the head of the ready list; every other step only appends. */
  lemma StepReady(k: Kernel, op: Op)
    requires Enabled(k, op)
    ensures if Dispatches(k, op)
            then k.ready != [] && Step(k, op).current == Some(k.ready[0]) && k.ready[1..] <= Step(k, op).ready
            else k.ready <= Step(k, op).ready
  {
    if op == Yield && k.ready != [] {
      assert (k.ready + [k.current.value])[1..] == k.ready[1..] + [k.current.value];
    }
  }

  ghost predicate Waiting(k: Kernel, m: int, t: Tid) {
    0 <= m < |k.ready| && k.ready[m] == t
  }

  lemma WaitingStep(k: Kernel, op: Op, r: Kernel, m: nat, t: Tid)
    requires Steps(k, op, r) && Waiting(k, m, t)
    ensures !Dispatches(k, op) ==> Waiting(r, m, t)
    ensures Dispatches(k, op) && m > 0 ==> Waiting(r, m - 1, t)
    ensures Dispatches(k, op) && m == 0 ==> r.current == Some(t)
  {
    StepReady(k, op);
    if Dispatches(k, op) && m > 0 {
      assert k.ready[1..][m - 1] == k.ready[m];
    }
  }

  lemma {:induction false} QueueMoves(ks: seq<Kernel>, ops: seq<Op>, i: nat, j: nat, k: nat, t: Tid)
    requires Run(ks, ops) && i <= j <= |ops| && Waiting(ks[i], k, t) && Dispatched(ks, ops, i, j) <= k
    ensures Waiting(ks[j], k - Dispatched(ks, ops, i, j), t)
    decreases j
  {
    if i < j {
      QueueMoves(ks, ops, i, j - 1, k, t);
      assert Steps(ks[j - 1], ops[j - 1], ks[j]);
      WaitingStep(ks[j - 1], ops[j - 1], ks[j], k - Dispatched(ks, ops, i, j - 1), t);
    }
  }

  /** A ready thread with `k` others ahead of it runs at the (k+1)-th dispatch. */
  lemma RunsInTurn(ks: seq<Kernel>, ops: seq<Op>, i: nat, j: nat, k: nat)
    requires Run(ks, ops) && i < j <= |ops| && k < |ks[i].ready|
    requires Dispatches(ks[j - 1], ops[j - 1]) && Dispatched(ks, ops, i, j) == k + 1
    ensures ks[j].current == Some(ks[i].ready[k])
  {
    QueueMoves(ks, ops, i, j - 1, k, ks[i].ready[k]);
    assert Steps(ks[j - 1], ops[j - 1], ks[j]);
    WaitingStep(ks[j - 1], ops[j - 1], ks[j], 0, ks[i].ready[k]);
  }

  /** A V takes the head of its queue to the end of the ready list; every other step only
      appends to the queue. */
  lemma StepQueue(k: Kernel, op: Op, s: nat, r: Kernel)
    requires Enabled(k, op) && s < |k.sems| && r == Step(k, op)
    ensures s < |r.sems|
    ensures op == V(s) && k.sems[s].queue != [] ==>
              r.sems[s].queue == k.sems[s].queue[1..] && r.ready == k.ready + [k.sems[s].queue[0]]
    ensures op != V(s) ==> k.sems[s].queue <= r.sems[s].queue
  {
  }

  /** How many of the steps from `i` to `j` are Vs on the semaphore. */
  ghost function Vees(ops: seq<Op>, s: nat, i: nat, j: nat): (n: nat)
    requires i <= j <= |ops|
    decreases j
  {
    if i == j then 0 else Vees(ops, s, i, j - 1) + if ops[j - 1] == V(s) then 1 else 0
  }

  ghost predicate Asleep(k: Kernel, s: nat, m: int, t: Tid) {
    s < |k.sems| && 0 <= m < |k.sems[s].queue| && k.sems[s].queue[m] == t
  }

  lemma {:induction false} SleeperMoves(ks: seq<Kernel>, ops: seq<Op>, s: nat, i: nat, j: nat, m: nat, t: Tid)
    requires Run(ks, ops) && i <= j <= |ops| && Asleep(ks[i], s, m, t) && Vees(ops, s, i, j) <= m
    ensures Asleep(ks[j], s, m - Vees(ops, s, i, j), t)
    decreases j
  {
    if i < j {
      SleeperMoves(ks, ops, s, i, j - 1, m, t);
      assert Steps(ks[j - 1], ops[j - 1], ks[j]);
      SleeperStep(ks[j - 1], ops[j - 1], s, ks[j], m - Vees(ops, s, i, j - 1), t);
    }
  }

  lemma SleeperStep(k: Kernel, op: Op, s: nat, r: Kernel, m: nat, t: Tid)
    requires Steps(k, op, r) && Asleep(k, s, m, t)
    ensures op != V(s) ==> Asleep(r, s, m, t)
    ensures op == V(s) && m > 0 ==> Asleep(r, s, m - 1, t)
  {
    StepQueue(k, op, s, r);
  }

  /** A thread asleep with `m` others ahead of it is woken by the (m+1)-th V on the semaphore
      and not before: that V puts it at the end of the ready list. */
  lemma WokenInTurn(ks: seq<Kernel>, ops: seq<Op>, s: nat, i: nat, j: nat, m: nat)
    requires Run(ks, ops) && i < j <= |ops| && s < |ks[i].sems| && m < |ks[i].sems[s].queue|
    ensures Vees(ops, s, i, j) <= m ==> Asleep(ks[j], s, m - Vees(ops, s, i, j), ks[i].sems[s].queue[m])
    ensures Vees(ops, s, i, j) == m + 1 && ops[j - 1] == V(s) ==>
              ks[j].ready == ks[j - 1].ready + [ks[i].sems[s].queue[m]]
  {
    var t := ks[i].sems[s].queue[m];
    if Vees(ops, s, i, j) <= m {
      SleeperMoves(ks, ops, s, i, j, m, t);
    } else if Vees(ops, s, i, j) == m + 1 && ops[j - 1] == V(s) {
      SleeperMoves(ks, ops, s, i, j - 1, m, t);
      assert Steps(ks[j - 1], ops[j - 1], ks[j]);
      StepQueue(ks[j - 1], ops[j - 1], s, ks[j]);
    }
  }

  /** A step's effect on one semaphore. */
  ghost predicate SemStep(before: Sem, after: Sem, vee: bool) {
    if vee then after.value == before.value + 1 && after.ps == before.ps && after.vs == before.vs + 1
    else if after.ps == before.ps + 1 then before.value > 0 && after.value == before.value - 1 && after.vs == before.vs
    else after.value == before.value && after.ps == before.ps && after.vs == before.vs
  }

  /** What users of a semaphore rely on: a step changes its value only by a V adding one, or
      by the running thread's P going through, which takes one from a positive value. */
  lemma SemaphoreSteps(k: Kernel, op: Op, s: nat, r: Kernel)
    requires Inv(k) && Enabled(k, op) && s < |k.sems| && r == Step(k, op)
    ensures s < |r.sems| && SemStep(k.sems[s], r.sems[s], op == V(s))
    ensures r.sems[s].ps == k.sems[s].ps + 1 ==> k.current.Some? && r.current == k.current && Free(r)
  {
    assert SemInv(k, s);
    match op
    case P(a) => assert a < |k.sems|;
    case Retest =>
    case V(a) =>
    case _ =>
  }

  /** The P that goes through is the running thread's, called now or begun earlier. */
  lemma WhoPasses(k: Kernel, op: Op, s: nat, r: Kernel)
    requires Enabled(k, op) && s < |k.sems| && r == Step(k, op)
    requires s < |r.sems| && r.sems[s].ps == k.sems[s].ps + 1
    ensures k.current.Some?
    ensures op == P(s) || (op == Retest && k.inP[k.current.value] == s)
  {
  }

  /** A thread gets into P by calling it, and by nothing else. */
  lemma WhoWaits(k: Kernel, op: Op, s: nat, t: Tid, r: Kernel)
    requires Enabled(k, op) && r == Step(k, op) && t in r.inP && r.inP[t] == s
    ensures (t in k.inP && k.inP[t] == s) || (op == P(s) && k.current == Some(t))
  {
  }

  /** A thread whose P goes through is out of it. */
  lemma PassedIsOut(k: Kernel, op: Op, s: nat, r: Kernel)
    requires Inv(k) && Enabled(k, op) && s < |k.sems| && r == Step(k, op) && k.current.Some?
    requires s < |r.sems| && r.sems[s].ps == k.sems[s].ps + 1
    ensures k.current.value !in r.inP
  {
  }
}
