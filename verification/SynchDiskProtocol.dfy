/**
 SynchDisk of filesys/synchdisk.cc over the raw disk of machine/disk.cc, on the kernel of
 Kernel.dfy and the lock of Lock.dfy: the lock lets one request out at a time, and a
 semaphore of initial value zero waits for the interrupt.  Requests are numbered as issued.
 */
module SynchDisks {
  import opened Basics
  import opened Kernels
  import L = Locks

  /** How far the thread holding the lock is: about to issue its request, waiting on the
      semaphore for request `n`, or about to release. */
  datatype Phase = Issuing | Waiting(n: nat) | Done(n: nat)

  /** `completed` counts the interrupts taken. */
  datatype State = State(
    l: L.Locked,
    semaphore: nat,
    active: bool,
    issued: nat,
    completed: nat,
    phase: map<Tid, Phase>)

  datatype Event = Lock(op: L.LockOp) | Issue | DiskInterrupt

  ghost predicate InPhase(s: State, t: Option<Tid>) {
    t.Some? && t.value in s.phase
  }

  /** The thread that runs is a caller waiting for its request. */
  ghost predicate CallerWaits(s: State) {
    InPhase(s, s.l.k.current) && s.phase[s.l.k.current.value].Waiting?
  }

  /** The semaphore is private: only the interrupt handler Vs it and only a caller that has
      issued a request Ps it.  A caller releases the lock last.  Everything else that
      threads do is unrestricted. */
  ghost predicate Enabled(s: State, e: Event) {
    match e
    case Lock(op) =>
      && L.Can(s.l, op)
      && (op != L.Kern(V(s.semaphore)))
      && (op == L.Kern(P(s.semaphore)) ==> CallerWaits(s))
      && (op == L.ClearHolder ==> InPhase(s, s.l.k.current) && s.phase[s.l.k.current.value].Done?)
    case Issue => Free(s.l.k) && InPhase(s, s.l.k.current) && s.phase[s.l.k.current.value].Issuing?
    case DiskInterrupt => s.active
  }

  /** The semaphore's P has gone through. */
  ghost predicate Passes(s: State, r: L.Locked)
    requires s.semaphore < |s.l.k.sems|
  {
    s.semaphore < |r.k.sems| && r.k.sems[s.semaphore].ps == s.l.k.sems[s.semaphore].ps + 1
  }

  ghost function Next(s: State, e: Event): (r: State)
    requires Enabled(s, e) && s.l.mutex < |s.l.k.sems| && s.semaphore < |s.l.k.sems|
  {
    var t := s.l.k.current;
    match e
    case Lock(op) =>
      var after := L.Do(s.l, op);
      var phase := if op == L.SetHolder then s.phase[t.value := Issuing]
                   else if op == L.ClearHolder then s.phase - {t.value}
                   else if Passes(s, after) && CallerWaits(s) then s.phase[t.value := Done(s.phase[t.value].n)]
                   else s.phase;
      s.(l := after, phase := phase)
    case Issue => s.(active := true, issued := s.issued + 1, phase := s.phase[t.value := Waiting(s.issued + 1)])
    case DiskInterrupt =>
      s.(l := s.l.(k := Vee(s.l.k, s.semaphore)), active := false, completed := s.completed + 1)
  }

  // ---------------------------------------------------------------- invariant

  /** The callers in a phase are those recorded as holding the lock: at most one. */
  ghost predicate Recorded(s: State) {
    forall t: Tid :: t in s.phase <==> s.l.lockHolder == Some(t)
  }

  /** Whoever is inside the semaphore's P is a caller waiting for its request. */
  ghost predicate OnlyCallersWait(s: State) {
    forall t :: t in s.l.k.inP && s.l.k.inP[t] == s.semaphore ==> t in s.phase && s.phase[t].Waiting?
  }

  /** The request being waited for is on the disk or has just completed; otherwise the disk
      is quiet and the semaphore empty. */
  ghost predicate OneRequest(holder: Option<Tid>, phase: map<Tid, Phase>,
                             active: bool, value: int, issued: nat, completed: nat)
  {
    && issued == completed + (if active then 1 else 0)
    && (if holder.Some? && holder.value in phase && phase[holder.value].Waiting?
        then phase[holder.value].n == issued && value == (if active then 0 else 1)
        else !active && value == 0)
    && (holder.Some? && holder.value in phase && phase[holder.value].Done? ==> phase[holder.value].n == completed)
  }

  ghost predicate Inv(s: State) {
    && L.LockInv(s.l) && s.semaphore < |s.l.k.sems| && s.semaphore != s.l.mutex
    && Recorded(s) && OnlyCallersWait(s)
    && OneRequest(s.l.lockHolder, s.phase, s.active, s.l.k.sems[s.semaphore].value, s.issued, s.completed)
  }

  ghost predicate Initial(s: State) {
    && L.NewLock(s.l) && s.semaphore < |s.l.k.sems| && s.semaphore != s.l.mutex
    && s.l.k.sems[s.semaphore] == Sem(0, 0, [], 0, 0)
    && (forall t :: t in s.l.k.inP ==> s.l.k.inP[t] != s.semaphore)
    && !s.active && s.issued == 0 && s.completed == 0 && s.phase == map[]
  }

  lemma InitialInv(s: State)
    requires Initial(s)
    ensures Inv(s)
  {
  }

  lemma IssueInv(s: State)
    requires Inv(s) && Enabled(s, Issue)
    ensures Inv(Next(s, Issue))
  {
  }

  lemma InterruptInv(s: State)
    requires Inv(s) && s.active
    ensures Inv(Next(s, DiskInterrupt))
  {
    var k, r := s.l.k, Vee(s.l.k, s.semaphore);
    StepInv(k, V(s.semaphore));
    SemaphoreSteps(k, V(s.semaphore), s.semaphore, r);
    SemaphoreSteps(k, V(s.semaphore), s.l.mutex, r);
  }

  /** Only lockHolder and the stages change. */
  lemma HolderInv(s: State, op: L.LockOp)
    requires Inv(s) && !op.Kern? && Enabled(s, Lock(op))
    ensures Inv(Next(s, Lock(op)))
  {
    L.DoInv(s.l, op);
    var t := s.l.k.current.value;
    if op.SetHolder? && s.l.lockHolder.Some? {
      L.AtMostOne(s.l, t, s.l.lockHolder.value);
    }
  }

  /** What a kernel step does to the semaphore and to those inside its P. */
  lemma SemaphoreEffect(s: State, op: Op, r: Kernel)
    requires Inv(s) && Enabled(s, Lock(L.Kern(op))) && r == Step(s.l.k, op)
    ensures s.semaphore < |r.sems| && SemStep(s.l.k.sems[s.semaphore], r.sems[s.semaphore], false)
    ensures r.sems[s.semaphore].ps == s.l.k.sems[s.semaphore].ps + 1 ==> CallerWaits(s) && s.l.k.current.value !in r.inP
    ensures forall t :: t in r.inP && r.inP[t] == s.semaphore ==> t in s.phase && s.phase[t].Waiting?
  {
    SemaphoreSteps(s.l.k, op, s.semaphore, r);
    if r.sems[s.semaphore].ps == s.l.k.sems[s.semaphore].ps + 1 {
      WhoPasses(s.l.k, op, s.semaphore, r);
      PassedIsOut(s.l.k, op, s.semaphore, r);
    }
    forall t | t in r.inP && r.inP[t] == s.semaphore ensures t in s.phase && s.phase[t].Waiting? {
      WhoWaits(s.l.k, op, s.semaphore, t, r);
    }
  }

  lemma KernelInv(s: State, op: Op)
    requires Inv(s) && Enabled(s, Lock(L.Kern(op)))
    ensures Inv(Next(s, Lock(L.Kern(op))))
  {
    L.DoInv(s.l, L.Kern(op));
    SemaphoreEffect(s, op, Step(s.l.k, op));
  }

  /** Every step of a caller, of any other thread and of the disk keeps the invariant. */
  lemma NextInv(s: State, e: Event)
    requires Inv(s) && Enabled(s, e)
    ensures Inv(Next(s, e))
  {
    match e
    case Lock(op) =>
      if op.Kern? {
        KernelInv(s, op.op);
      } else {
        HolderInv(s, op);
      }
    case Issue => IssueInv(s);
    case DiskInterrupt => InterruptInv(s);
  }

  // ---------------------------------------------------------------- whole runs

  ghost predicate Run(ss: seq<State>, es: seq<Event>) {
    |ss| == |es| + 1 && forall i :: 0 <= i < |es| ==>
      && Enabled(ss[i], es[i]) && ss[i].l.mutex < |ss[i].l.k.sems| && ss[i].semaphore < |ss[i].l.k.sems|
      && ss[i + 1] == Next(ss[i], es[i])
  }

  lemma {:induction false} RunInv(ss: seq<State>, es: seq<Event>, i: nat)
    requires Run(ss, es) && Initial(ss[0]) && i <= |es|
    ensures Inv(ss[i])
  {
    if i == 0 {
      InitialInv(ss[0]);
    } else {
      RunInv(ss, es, i - 1);
      NextInv(ss[i - 1], es[i - 1]);
    }
  }

  /** The step that takes a caller past its wait finds its own request completed. */
  lemma OwnCompletion(s: State, e: Event, t: Tid)
    requires Inv(s) && Enabled(s, e) && t in s.phase && s.phase[t].Waiting?
    requires t in Next(s, e).phase && Next(s, e).phase[t].Done?
    ensures s.completed == s.issued == s.phase[t].n == Next(s, e).phase[t].n && !s.active
  {
    assert e.Lock? && e.op.Kern?;
    SemaphoreEffect(s, e.op.op, Step(s.l.k, e.op.op));
  }

  /** In every interleaving of callers, other threads and interrupts: a request is issued only
      while the disk is inactive, so the disk's assertion holds; and a call that is past its
      wait has had the interrupt of its own request, the last one issued. */
  lemma OneAtATime(ss: seq<State>, es: seq<Event>, i: nat, t: Tid)
    requires Run(ss, es) && Initial(ss[0]) && i <= |es| && t in ss[i].phase
    ensures ss[i].phase[t].Issuing? ==> !ss[i].active
    ensures ss[i].phase[t].Waiting? ==> ss[i].phase[t].n == ss[i].issued
    ensures ss[i].phase[t].Done? ==> ss[i].phase[t].n == ss[i].completed == ss[i].issued && !ss[i].active
  {
    RunInv(ss, es, i);
  }
}
