/**
 Lock of threads/synch.cc on top of the kernel of Kernel.dfy: a semaphore of initial value
 one and a lockHolder field.  The kernel's threads do anything else in between.
 */
module Locks {
  import opened Basics
  import opened Kernels

  /** How far a thread is between the P of Acquire and the V of Release: it has the
      semaphore but is not recorded, is recorded as holder, or is recorded no longer. */
  datatype Stage = Got | Inside | Leaving

  datatype Locked = Locked(k: Kernel, mutex: nat, lockHolder: Option<Tid>, stage: map<Tid, Stage>)

  datatype LockOp = Kern(op: Op) | SetHolder | ClearHolder

  /** The thread whose P on the mutex this kernel step completes. */
  ghost predicate Acquires(l: Locked, op: Op)
    requires Enabled(l.k, op) && l.mutex < |l.k.sems|
  {
    Step(l.k, op).sems[l.mutex].ps == l.k.sems[l.mutex].ps + 1
  }

  /** The mutex is private to the lock: only Release Vs it, and only after clearing
      lockHolder, whose assertion lets no one but the holder through. */
  ghost predicate Can(l: Locked, op: LockOp) {
    match op
    case Kern(op) =>
      && Enabled(l.k, op)
      && (op == V(l.mutex) ==>
            Free(l.k) && l.k.current.value in l.stage && l.stage[l.k.current.value] == Leaving)
    case SetHolder => Free(l.k) && l.k.current.value in l.stage && l.stage[l.k.current.value] == Got
    case ClearHolder => Free(l.k) && l.lockHolder == l.k.current
  }

  ghost function Do(l: Locked, op: LockOp): (r: Locked)
    requires Can(l, op) && l.mutex < |l.k.sems|
  {
    match op
    case Kern(op) =>
      var t := l.k.current;
      var stage := if op == V(l.mutex) then l.stage - {t.value}
                   else if t.Some? && Acquires(l, op) then l.stage[t.value := Got]
                   else l.stage;
      l.(k := Step(l.k, op), stage := stage)
    case SetHolder => l.(lockHolder := l.k.current, stage := l.stage[l.k.current.value := Inside])
    case ClearHolder => l.(lockHolder := None, stage := l.stage[l.k.current.value := Leaving])
  }

  /** The semaphore's value and the threads between P and V always add up to one, and a
      recorded holder is the thread inside. */
  ghost predicate LockInv(l: Locked) {
    && Inv(l.k) && l.mutex < |l.k.sems|
    && l.k.sems[l.mutex].value + |l.stage| == 1
    && (forall t :: l.lockHolder == Some(t) <==> t in l.stage && l.stage[t] == Inside)
  }

  ghost predicate NewLock(l: Locked) {
    && Inv(l.k) && l.mutex < |l.k.sems| && l.k.sems[l.mutex] == Sem(1, 1, [], 0, 0)
    && l.lockHolder == None && l.stage == map[]
  }

  /** A map of size at most one has at most one key. */
  lemma Single(m: map<Tid, Stage>, t: Tid, u: Tid)
    requires |m| <= 1 && t in m && u in m
    ensures t == u
  {
    if t != u {
      assert {t, u} <= m.Keys;
      SubsetSize({t, u}, m.Keys);
    }
  }

  lemma AtMostOne(l: Locked, t: Tid, u: Tid)
    requires LockInv(l) && t in l.stage && u in l.stage
    ensures t == u && l.k.sems[l.mutex].value == 0
  {
    assert SemInv(l.k, l.mutex);
    assert l.stage.Keys != {};
    Single(l.stage, t, u);
  }

  /** The three things a kernel step can do to the mutex. */
  lemma MutexEffect(l: Locked, op: Op, after: Kernel)
    requires LockInv(l) && Can(l, Kern(op)) && after == Step(l.k, op)
    ensures Inv(after) && l.mutex < |after.sems|
    ensures op == V(l.mutex) ==> after.sems[l.mutex].value == l.k.sems[l.mutex].value + 1 && !Acquires(l, op)
    ensures Acquires(l, op) ==>
              && l.k.current.Some? && l.k.sems[l.mutex].value > 0
              && after.sems[l.mutex].value == l.k.sems[l.mutex].value - 1
    ensures op != V(l.mutex) && !Acquires(l, op) ==> after.sems[l.mutex].value == l.k.sems[l.mutex].value
  {
    StepInv(l.k, op);
    SemaphoreSteps(l.k, op, l.mutex, after);
  }

  /** The stages and the mutex's value after a V, after a P gone through, or otherwise. */
  ghost predicate Restaged(l: Locked, t: Option<Tid>, vee: bool, through: bool, value: int, stage: map<Tid, Stage>)
    requires l.mutex < |l.k.sems|
  {
    var was := l.k.sems[l.mutex].value;
    if vee then
      t.Some? && t.value in l.stage && l.stage[t.value] == Leaving && stage == l.stage - {t.value} && value == was + 1
    else if through then
      t.Some? && was > 0 && value == was - 1 && stage == l.stage[t.value := Got]
    else
      stage == l.stage && value == was
  }

  lemma RestagedCounts(l: Locked, t: Option<Tid>, vee: bool, through: bool, value: int, stage: map<Tid, Stage>)
    requires LockInv(l) && l.mutex < |l.k.sems| && Restaged(l, t, vee, through, value, stage)
    ensures value + |stage| == 1
    ensures forall u :: l.lockHolder == Some(u) <==> u in stage && stage[u] == Inside
    ensures || stage.Keys == l.stage.Keys
            || (l.stage.Keys == {} && t.Some? && stage.Keys == {t.value})
            || (t.Some? && l.stage.Keys == {t.value} && stage.Keys == {})
  {
    assert SemInv(l.k, l.mutex);
    if vee {
      forall u | u in l.stage ensures u == t.value {
        AtMostOne(l, u, t.value);
      }
      assert l.stage.Keys == {t.value};
      assert stage.Keys == {};
    } else if through {
      assert |l.stage| == 0;
      assert l.stage == map[];
      assert stage == map[t.value := Got];
    }
  }

  /** What a step does to the set of threads between P and V: a thread enters only while
      there is none, and only the one in there leaves. */
  lemma LockSteps(l: Locked, op: LockOp)
    requires LockInv(l) && Can(l, op)
    ensures var before, after := l.stage.Keys, Do(l, op).stage.Keys;
            || after == before
            || (before == {} && l.k.current.Some? && after == {l.k.current.value})
            || (l.k.current.Some? && before == {l.k.current.value} && after == {})
  {
    var r := Do(l, op);
    if op.Kern? {
      MutexEffect(l, op.op, r.k);
      RestagedCounts(l, l.k.current, op.op == V(l.mutex), Acquires(l, op.op), r.k.sems[l.mutex].value, r.stage);
    } else {
      assert l.k.current.value in l.stage;
      assert r.stage.Keys == l.stage.Keys;
    }
  }

  lemma KernInv(l: Locked, op: Op)
    requires LockInv(l) && Can(l, Kern(op))
    ensures LockInv(Do(l, Kern(op)))
  {
    var r := Do(l, Kern(op));
    MutexEffect(l, op, r.k);
    RestagedCounts(l, l.k.current, op == V(l.mutex), Acquires(l, op), r.k.sems[l.mutex].value, r.stage);
  }

  lemma DoInv(l: Locked, op: LockOp)
    requires LockInv(l) && Can(l, op)
    ensures LockInv(Do(l, op))
  {
    match op
    case Kern(kop) => KernInv(l, kop);
    case _ =>
      var t := l.k.current.value;
      assert t in l.stage;
      var r := Do(l, op);
      assert r.stage.Keys == l.stage.Keys;
      forall u | u in l.stage ensures u == t {
        AtMostOne(l, u, t);
      }
  }

  ghost predicate Run(ls: seq<Locked>, ops: seq<LockOp>) {
    |ls| == |ops| + 1 && forall i :: 0 <= i < |ops| ==>
                           Can(ls[i], ops[i]) && ls[i].mutex < |ls[i].k.sems| && ls[i + 1] == Do(ls[i], ops[i])
  }

  lemma {:induction false} RunInv(ls: seq<Locked>, ops: seq<LockOp>, i: nat)
    requires Run(ls, ops) && NewLock(ls[0]) && i <= |ops|
    ensures LockInv(ls[i])
  {
    if i > 0 {
      RunInv(ls, ops, i - 1);
      DoInv(ls[i - 1], ops[i - 1]);
    }
  }

  /** In every interleaving at most one thread is between Acquire and Release, the mutex is
      worth one exactly when there is none, and a recorded holder is that thread. */
  lemma MutualExclusion(ls: seq<Locked>, ops: seq<LockOp>, i: nat, t: Tid, u: Tid)
    requires Run(ls, ops) && NewLock(ls[0]) && i <= |ops|
    ensures ls[i].mutex < |ls[i].k.sems|
    ensures t in ls[i].stage && u in ls[i].stage ==> t == u
    ensures ls[i].k.sems[ls[i].mutex].value == (if ls[i].stage == map[] then 1 else 0)
    ensures ls[i].lockHolder == Some(t) <==> t in ls[i].stage && ls[i].stage[t] == Inside
  {
    RunInv(ls, ops, i);
    assert SemInv(ls[i].k, ls[i].mutex);
    if t in ls[i].stage && u in ls[i].stage {
      AtMostOne(ls[i], t, u);
    }
    assert |ls[i].stage| == 0 <==> ls[i].stage == map[];
  }

  // ---------------------------------------------------------------- the lock as its owner

  /** The thread between P and V, if there is one. */
  ghost predicate OwnedBy(l: Locked, owner: Option<Tid>) {
    l.stage.Keys == if owner.Some? then {owner.value} else {}
  }

  /** The lock of a monitor: it is taken only while free, and given up by its owner. */
  ghost predicate OwnerStep(before: Option<Tid>, after: Option<Tid>, running: Option<Tid>) {
    || after == before
    || (before == None && after.Some? && after == running)
    || (before.Some? && before == running && after == None)
  }

  lemma OwnerSteps(l: Locked, op: LockOp, owner: Option<Tid>) returns (after: Option<Tid>)
    requires LockInv(l) && Can(l, op) && OwnedBy(l, owner)
    ensures OwnedBy(Do(l, op), after) && OwnerStep(owner, after, l.k.current)
  {
    LockSteps(l, op);
    var r := Do(l, op);
    if r.stage.Keys == l.stage.Keys {
      after := owner;
    } else if r.stage.Keys == {} {
      after := None;
      assert l.k.current.value in l.stage.Keys;
    } else {
      after := l.k.current;
    }
  }

  /** Every run of the lock over the kernel is a run of its owner: what the monitors assume
      of their lock. */
  lemma {:induction false} OwnerSimulates(ls: seq<Locked>, ops: seq<LockOp>, n: nat)
    returns (owners: seq<Option<Tid>>)
    requires Run(ls, ops) && NewLock(ls[0]) && n <= |ops|
    ensures |owners| == n + 1 && owners[0] == None
    ensures forall i :: 0 <= i <= n ==> OwnedBy(ls[i], owners[i])
    ensures forall i :: 0 <= i < n ==> OwnerStep(owners[i], owners[i + 1], ls[i].k.current)
  {
    if n == 0 {
      owners := [None];
    } else {
      owners := OwnerSimulates(ls, ops, n - 1);
      RunInv(ls, ops, n - 1);
      var next := OwnerSteps(ls[n - 1], ops[n - 1], owners[n - 1]);
      owners := owners + [next];
    }
  }
}
