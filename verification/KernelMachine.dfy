/**
 The scheduler, thread and semaphore operations in the form of the source: fields updated
 in place, each operation proved to take exactly the steps of Kernel.dfy.
 */
module KernelMachines {
  import opened Basics
  import opened Kernels

  /** The effect of interrupt handlers that V the semaphores `script` in turn. */
  function Interrupted(k: Kernel, script: seq<nat>): (r: Kernel)
    requires forall i :: 0 <= i < |script| ==> script[i] < |k.sems|
    ensures |r.sems| == |k.sems| && r.current == k.current
  {
    if script == [] then k
    else Vee(Interrupted(k, script[..|script| - 1]), script[|script| - 1])
  }

  /** The first `n` interrupts leave no thread ready. */
  ghost predicate StillIdle(k: Kernel, script: seq<nat>, n: nat) {
    && n <= |script| && (forall i :: 0 <= i < |script| ==> script[i] < |k.sems|)
    && forall i :: 0 <= i < n ==> Interrupted(k, script[..i]).ready == []
  }

  lemma IdleAgain(k: Kernel, script: seq<nat>, n: nat)
    requires StillIdle(k, script, n) && n < |script| && Interrupted(k, script[..n]).ready == []
    ensures StillIdle(k, script, n + 1)
    ensures Interrupted(k, script[..n + 1]) == Vee(Interrupted(k, script[..n]), script[n])
  {
    assert script[..n + 1][..n] == script[..n];
  }

  class Machine {
    var readyList: seq<Tid>
    var currentThread: Option<Tid>
    var status: map<Tid, Status>
    var sems: seq<Sem>
    ghost var alive: set<Tid>
    ghost var inP: map<Tid, nat>

    ghost function Now(): (k: Kernel)
      reads this
    {
      Kernel(readyList, currentThread, sems, alive, inP, status)
    }

    /** The main thread, running. */
    constructor (main: Tid)
      ensures Boot(Now()) && currentThread == Some(main)
    {
      readyList, currentThread, status, sems := [], Some(main), map[main := Running], [];
      alive, inP := {main}, map[];
    }

    /** Scheduler::ReadyToRun. */
    method ReadyToRun(t: Tid)
      modifies this
      ensures Now() == Kernels.ReadyToRun(old(Now()), t)
    {
      status := status[t := Ready];
      readyList := readyList + [t];
    }

    /** Scheduler::FindNextToRun. */
    method FindNextToRun() returns (t: Option<Tid>)
      modifies this`readyList
      ensures old(readyList) == [] ==> t == None && readyList == []
      ensures old(readyList) != [] ==> t == Some(old(readyList)[0]) && readyList == old(readyList)[1..]
    {
      if readyList == [] {
        return None;
      }
      t := Some(readyList[0]);
      readyList := readyList[1..];
    }

    /** Scheduler::Run. */
    method Run(nextThread: Tid)
      modifies this`currentThread, this`status
      ensures currentThread == Some(nextThread) && status == old(status)[nextThread := Running]
    {
      currentThread := Some(nextThread);
      status := status[nextThread := Running];
    }

    /** Thread::Fork. */
    method Fork(t: Tid)
      requires Enabled(Now(), Op.Fork(t))
      modifies this
      ensures Now() == Step(old(Now()), Op.Fork(t))
    {
      ReadyToRun(t);
      alive := alive + {t};
    }

    /** Thread::Yield. */
    method Yield()
      requires Enabled(Now(), Op.Yield)
      modifies this
      ensures Now() == Step(old(Now()), Op.Yield)
    {
      var self := currentThread.value;
      var next := FindNextToRun();
      if next.Some? {
        ReadyToRun(self);
        Run(next.value);
        ghost var r := old(readyList);
        assert (r + [self])[1..] == r[1..] + [self];
      }
    }

    /** The dispatcher's part of Thread::Sleep: idle until an interrupt makes a thread
        ready, then run the first one.  `script` lists the semaphores that interrupts V. */
    method Sleep(script: seq<nat>) returns (used: nat)
      requires currentThread == None && forall i :: 0 <= i < |script| ==> script[i] < |sems|
      modifies this
      ensures StillIdle(old(Now()), script, used)
      ensures var k := Interrupted(old(Now()), script[..used]);
              if k.ready == [] then used == |script| && Now() == k
              else Enabled(k, Dispatch) && Now() == Step(k, Dispatch)
    {
      used := 0;
      assert script[..0] == [];
      ghost var k := Now();
      var next := FindNextToRun();
      while next.None? && used < |script|
        invariant StillIdle(old(Now()), script, used)
        invariant k == Interrupted(old(Now()), script[..used])
        invariant next.None? ==> k.ready == [] && Now() == k
        invariant next.Some? ==> k.ready != [] && next.value == k.ready[0] && Now() == k.(ready := k.ready[1..])
      {
        IdleAgain(old(Now()), script, used);
        V(script[used]);
        k, used := Now(), used + 1;
        next := FindNextToRun();
      }
      if next.Some? {
        Run(next.value);
      }
    }

    /** The loop test of Semaphore::P: consume the value, or queue up and give up the CPU. */
    method TestValue(s: nat) returns (through: bool)
      requires currentThread.Some? && s < |sems|
      modifies this
      ensures Now() == Test(old(Now()), old(currentThread.value), s)
      ensures through <==> old(sems[s].value) != 0
    {
      var t, sem := currentThread.value, sems[s];
      if sem.value == 0 {
        sems := sems[s := sem.(queue := sem.queue + [t])];
        status := status[t := Blocked];
        currentThread := None;
        inP := inP[t := s];
        return false;
      }
      sems := sems[s := sem.(value := sem.value - 1, ps := sem.ps + 1)];
      inP := inP - {t};
      return true;
    }

    /** Semaphore::V. */
    method V(s: nat)
      requires s < |sems|
      modifies this
      ensures Now() == Vee(old(Now()), s)
    {
      var sem := sems[s];
      if sem.queue != [] {
        sems := sems[s := sem.(queue := sem.queue[1..])];
        ReadyToRun(sem.queue[0]);
      }
      sems := sems[s := sems[s].(value := sem.value + 1, vs := sem.vs + 1)];
    }

    /** Thread::Finish, up to the dispatcher. */
    method Finish()
      requires Enabled(Now(), Op.Finish)
      modifies this
      ensures Now() == Step(old(Now()), Op.Finish)
    {
      var t := currentThread.value;
      alive := alive - {t};
      status := status[t := Blocked];
      currentThread := None;
    }
  }
}
