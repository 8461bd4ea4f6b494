/**
 DinningPh of threads/dinningph.cc, used as threads/threadtest.cc uses it: one thread per
 index, alternating pickup and putdown, in every interleaving.  The monitor's lock is
 represented by its owner (see Lock.dfy), a waiter's semaphore by whether it was signalled.
 */
module Philosophers {
  import opened Basics

  const N := 5

  datatype Mood = Thinking | Hungry | Eating

  /** Where philosopher `i` is.  pickup: wants the lock, is about to become hungry, to test,
      to look at the outcome, to release after queueing, sleeps, wants the lock back, is
      about to release and return.  putdown: wants the lock, is about to think, to test the
      left neighbour, to test the right one, to release. */
  datatype Pc =
    | Away | WantSticks | Entering | Trying | Looking | Queued | Sleeping | WantBack | Leaving
    | AtTable | WantDown | Dropping | TestLeft | TestRight | Dropped

  /** `waiting` holds the philosophers in their own condition's queue, `signalled` those
      taken off it whose semaphore is worth one. */
  datatype Table = Table(owner: Option<nat>, state: seq<Mood>, pc: seq<Pc>, waiting: set<nat>, signalled: set<nat>)

  function Left(i: nat): (j: nat) { (i + 4) % 5 }

  function Right(i: nat): (j: nat) { (i + 1) % 5 }

  predicate Shape(s: Table) {
    |s.state| == N && |s.pc| == N
  }

  /** Whether `test(i)` lets philosopher `i` eat. */
  predicate MayEat(state: seq<Mood>, i: nat)
    requires |state| == N && i < N
  {
    state[Left(i)] != Eating && state[i] == Hungry && state[Right(i)] != Eating
  }

  /** `test(i)`, with the signal it sends. */
  function Test(s: Table, i: nat): (r: Table)
    requires Shape(s) && i < N
  {
    if !MayEat(s.state, i) then s
    else if i in s.waiting then
      s.(state := s.state[i := Eating], waiting := s.waiting - {i}, signalled := s.signalled + {i})
    else s.(state := s.state[i := Eating])
  }

  function Goto(s: Table, i: nat, p: Pc): (r: Table)
    requires Shape(s) && i < N
  {
    s.(pc := s.pc[i := p])
  }

  predicate CanStep(s: Table, i: nat)
    requires Shape(s) && i < N
  {
    match s.pc[i]
    case WantSticks => s.owner == None
    case WantBack => s.owner == None
    case WantDown => s.owner == None
    case Sleeping => i in s.signalled
    case _ => true
  }

  function Step(s: Table, i: nat): (r: Table)
    requires Shape(s) && i < N && CanStep(s, i)
    ensures Shape(r)
  {
    match s.pc[i]
    case Away => Goto(s, i, WantSticks)
    case WantSticks => Goto(s, i, Entering).(owner := Some(i))
    case Entering => Goto(s, i, Trying).(state := s.state[i := Hungry])
    case Trying => Goto(Test(s, i), i, Looking)
    case Looking =>
      if s.state[i] == Hungry then Goto(s, i, Queued).(waiting := s.waiting + {i}) else Goto(s, i, Leaving)
    case Queued => Goto(s, i, Sleeping).(owner := None)
    case Sleeping => Goto(s, i, WantBack).(signalled := s.signalled - {i})
    case WantBack => Goto(s, i, Leaving).(owner := Some(i))
    case Leaving => Goto(s, i, AtTable).(owner := None)
    case AtTable => Goto(s, i, WantDown)
    case WantDown => Goto(s, i, Dropping).(owner := Some(i))
    case Dropping => Goto(s, i, TestLeft).(state := s.state[i := Thinking])
    case TestLeft => Goto(Test(s, Left(i)), i, TestRight)
    case TestRight => Goto(Test(s, Right(i)), i, Dropped)
    case Dropped => Goto(s, i, Away).(owner := None)
  }

  function Initial(): (s: Table) {
    Table(None, seq(N, _ => Thinking), seq(N, _ => Away), {}, {})
  }

  // ---------------------------------------------------------------- invariant

  predicate Holds(p: Pc) {
    || p.Entering? || p.Trying? || p.Looking? || p.Queued? || p.Leaving?
    || p.Dropping? || p.TestLeft? || p.TestRight? || p.Dropped?
  }

  ghost predicate Exclusive(s: Table)
    requires Shape(s)
  {
    && (s.owner.Some? ==> s.owner.value < N)
    && forall i :: 0 <= i < N ==> (Holds(s.pc[i]) <==> s.owner == Some(i))
  }

  /** Neighbours never eat together. */
  ghost predicate Apart(s: Table)
    requires Shape(s)
  {
    forall i :: 0 <= i < N ==> !(s.state[i] == Eating && s.state[Right(i)] == Eating)
  }

  /** A philosopher's mood, as its position in pickup and putdown determines it. */
  ghost predicate MoodFits(s: Table, i: nat)
    requires Shape(s) && i < N
  {
    match s.pc[i]
    case Away => s.state[i] == Thinking
    case WantSticks => s.state[i] == Thinking
    case Entering => s.state[i] == Thinking
    case Trying => s.state[i] == Hungry
    case Looking => s.state[i] != Thinking
    case Queued => s.state[i] == Hungry
    case Sleeping => s.state[i] == if i in s.waiting then Hungry else Eating
    case WantBack => s.state[i] == Eating
    case Leaving => s.state[i] == Eating
    case AtTable => s.state[i] == Eating
    case WantDown => s.state[i] == Eating
    case Dropping => s.state[i] == Eating
    case TestLeft => s.state[i] == Thinking
    case TestRight => s.state[i] == Thinking
    case Dropped => s.state[i] == Thinking
  }

  /** Who waits and who was signalled. */
  ghost predicate WaitFits(s: Table, i: nat)
    requires Shape(s) && i < N
  {
    && (i in s.waiting ==> s.pc[i].Queued? || s.pc[i].Sleeping?)
    && (s.pc[i].Queued? ==> i in s.waiting)
    && (s.pc[i].Sleeping? ==> (i in s.waiting <==> i !in s.signalled))
    && (i in s.signalled ==> s.pc[i].Sleeping?)
  }

  ghost predicate Fed(s: Table, i: nat)
    requires Shape(s) && i < N
  {
    s.state[Left(i)] == Eating || s.state[Right(i)] == Eating
  }

  /** The owner is about to test philosopher `i`. */
  ghost predicate AboutToTest(s: Table, i: nat)
    requires Shape(s) && i < N
  {
    && s.owner.Some? && s.owner.value < N
    && var o := s.owner.value;
       || (o == i && s.pc[o].Trying?)
       || (s.pc[o].TestLeft? && (i == Left(o) || i == Right(o)))
       || (s.pc[o].TestRight? && i == Right(o))
  }

  /** A hungry philosopher has an eating neighbour, unless the owner is about to test. */
  ghost predicate Justified(s: Table, i: nat)
    requires Shape(s) && i < N
  {
    s.state[i] == Hungry ==> Fed(s, i) || AboutToTest(s, i)
  }

  ghost predicate Inv(s: Table) {
    && Shape(s) && Exclusive(s) && Apart(s)
    && forall i :: 0 <= i < N ==> MoodFits(s, i) && WaitFits(s, i) && Justified(s, i)
  }

  lemma TestKeeps(s: Table, i: nat)
    requires Shape(s) && i < N && Apart(s)
    ensures Apart(Test(s, i))
    ensures Test(s, i).state[i] == Hungry ==> Fed(Test(s, i), i)
    ensures forall j :: 0 <= j < N && j != i ==> Test(s, i).state[j] == s.state[j]
    ensures forall j :: 0 <= j < N && Fed(s, j) ==> Fed(Test(s, i), j)
  {
  }

  lemma StepExclusive(s: Table, i: nat)
    requires Shape(s) && Exclusive(s) && i < N && CanStep(s, i)
    ensures Exclusive(Step(s, i))
  {
  }

  lemma StepApart(s: Table, i: nat)
    requires Inv(s) && i < N && CanStep(s, i)
    ensures Apart(Step(s, i))
  {
    match s.pc[i]
    case Trying => TestKeeps(s, i);
    case TestLeft => TestKeeps(s, Left(i));
    case TestRight => TestKeeps(s, Right(i));
    case _ =>
  }

  lemma StepFits(s: Table, i: nat, j: nat)
    requires Inv(s) && i < N && j < N && CanStep(s, i)
    ensures MoodFits(Step(s, i), j) && WaitFits(Step(s, i), j)
  {
    assert MoodFits(s, i) && WaitFits(s, i) && MoodFits(s, j) && WaitFits(s, j);
    if i != j {
      assert Step(s, i).pc[j] == s.pc[j];
      assert Holds(s.pc[i]) ==> !Holds(s.pc[j]);
    }
  }

  /** While philosopher `i` is about to do something other than test, everyone hungry has
      an eating neighbour. */
  lemma NoTestPending(s: Table, i: nat, j: nat)
    requires Inv(s) && i < N && j < N && s.owner == Some(i)
    requires !s.pc[i].Trying? && !s.pc[i].TestLeft? && !s.pc[i].TestRight?
    ensures s.state[j] == Hungry ==> Fed(s, j)
  {
    assert Justified(s, j);
  }

  lemma Tested(s: Table, i: nat, j: nat, p: Pc, done: nat)
    requires Inv(s) && i < N && j < N && done < N && s.owner == Some(i)
    requires s.state[j] == Hungry ==> Fed(s, j) || j == done || AboutToTest(Goto(Test(s, done), i, p), j)
    ensures Justified(Goto(Test(s, done), i, p), j)
  {
    TestKeeps(s, done);
  }

  /** Becoming hungry takes nobody's eating neighbour away. */
  lemma EnteringJustified(s: Table, i: nat, j: nat)
    requires Inv(s) && i < N && j < N && s.pc[i].Entering?
    ensures Justified(Step(s, i), j)
  {
    NoTestPending(s, i, j);
    assert MoodFits(s, i);
  }

  /** Only the two neighbours lose an eating neighbour, and both are about to be tested. */
  lemma DroppingJustified(s: Table, i: nat, j: nat)
    requires Inv(s) && i < N && j < N && s.pc[i].Dropping?
    ensures Justified(Step(s, i), j)
  {
    NoTestPending(s, i, j);
    assert Left(i) == j <==> i == Right(j);
  }

  lemma QuietJustified(s: Table, i: nat, j: nat)
    requires Inv(s) && i < N && j < N && CanStep(s, i)
    requires !s.pc[i].Trying? && !s.pc[i].TestLeft? && !s.pc[i].TestRight? && !s.pc[i].Entering? && !s.pc[i].Dropping?
    ensures Justified(Step(s, i), j)
  {
    assert Justified(s, j);
    var r := Step(s, i);
    assert r.state == s.state;
    if s.owner == Some(i) {
      NoTestPending(s, i, j);
    } else if s.owner.Some? {
      assert r.pc[s.owner.value] == s.pc[s.owner.value];
    }
  }

  lemma StepJustified(s: Table, i: nat, j: nat)
    requires Inv(s) && i < N && j < N && CanStep(s, i)
    ensures Justified(Step(s, i), j)
  {
    assert Justified(s, j);
    match s.pc[i]
    case Trying => Tested(s, i, j, Looking, i);
    case TestLeft => Tested(s, i, j, TestRight, Left(i));
    case TestRight => Tested(s, i, j, Dropped, Right(i));
    case Entering => EnteringJustified(s, i, j);
    case Dropping => DroppingJustified(s, i, j);
    case _ => QuietJustified(s, i, j);
  }

  lemma StepInv(s: Table, i: nat)
    requires Inv(s) && i < N && CanStep(s, i)
    ensures Inv(Step(s, i))
  {
    StepExclusive(s, i);
    StepApart(s, i);
    forall j | 0 <= j < N ensures MoodFits(Step(s, i), j) && WaitFits(Step(s, i), j) && Justified(Step(s, i), j) {
      StepFits(s, i, j);
      StepJustified(s, i, j);
    }
  }

  // ---------------------------------------------------------------- whole runs

  ghost predicate Run(ss: seq<Table>, who: seq<nat>) {
    && |ss| == |who| + 1 && (forall k :: 0 <= k < |ss| ==> Shape(ss[k]))
    && forall k :: 0 <= k < |who| ==> who[k] < N && CanStep(ss[k], who[k]) && ss[k + 1] == Step(ss[k], who[k])
  }

  lemma {:induction false} RunInv(ss: seq<Table>, who: seq<nat>, k: nat)
    requires Run(ss, who) && ss[0] == Initial() && k <= |who|
    ensures Inv(ss[k])
  {
    if k > 0 {
      RunInv(ss, who, k - 1);
      StepInv(ss[k - 1], who[k - 1]);
    }
  }

  /** Neighbours never eat together; pickup returns, and putdown is entered, only with the
      caller eating; and whenever the lock is free each hungry philosopher has an eating
      neighbour. */
  lemma DiningIsSafe(ss: seq<Table>, who: seq<nat>, k: nat, i: nat)
    requires Run(ss, who) && ss[0] == Initial() && k <= |who| && i < N
    ensures !(ss[k].state[i] == Eating && ss[k].state[Right(i)] == Eating)
    ensures !(ss[k].state[i] == Eating && ss[k].state[Left(i)] == Eating)
    ensures ss[k].pc[i].AtTable? || ss[k].pc[i].WantDown? ==> ss[k].state[i] == Eating
    ensures ss[k].owner == None && ss[k].state[i] == Hungry ==> Fed(ss[k], i)
  {
    RunInv(ss, who, k);
    assert MoodFits(ss[k], i) && Justified(ss[k], i);
    assert Right(Left(i)) == i;
    assert !(ss[k].state[Left(i)] == Eating && ss[k].state[Right(Left(i))] == Eating);
  }

  /** Nobody is stuck: in every reachable state some philosopher that is not merely away can
      take a step, unless all are away. */
  lemma SomeoneMoves(ss: seq<Table>, who: seq<nat>, k: nat, i: nat)
    requires Run(ss, who) && ss[0] == Initial() && k <= |who| && i < N && !ss[k].pc[i].Away?
    ensures exists j :: 0 <= j < N && !ss[k].pc[j].Away? && CanStep(ss[k], j)
  {
    var s := ss[k];
    RunInv(ss, who, k);
    if s.owner.Some? {
      var o := s.owner.value;
      assert Holds(s.pc[o]) && CanStep(s, o);
    } else if !CanStep(s, i) {
      assert MoodFits(s, i) && WaitFits(s, i) && Justified(s, i);
      assert s.pc[i].Sleeping? && Fed(s, i);
      var j := if s.state[Left(i)] == Eating then Left(i) else Right(i);
      assert MoodFits(s, j) && WaitFits(s, j);
      assert CanStep(s, j);
    }
  }

  // ---------------------------------------------------------------- the monitor's code

  /** The monitor's data, updated in place. */
  class DinningPh {
    const state: array<Mood>
    var waiting: set<nat>
    var signalled: set<nat>

    ghost predicate Valid() {
      state.Length == N
    }

    /** The data as part of a table. */
    ghost function Data(s: Table): (r: Table)
      requires Valid()
      reads this, state
    {
      s.(state := state[..], waiting := waiting, signalled := signalled)
    }

    constructor ()
      ensures Valid() && fresh(state) && Data(Initial()) == Initial()
    {
      state := new Mood[N];
      waiting, signalled := {}, {};
      new;
      var i := 0;
      while i < N
        invariant 0 <= i <= N && forall k :: 0 <= k < i ==> state[k] == Thinking
        invariant waiting == {} && signalled == {}
      {
        state[i] := Thinking;
        i := i + 1;
      }
      assert state[..] == Initial().state;
    }

    /** Condition::Signal on the philosopher's own condition. */
    method Signal(i: nat)
      modifies this
      ensures waiting == old(waiting) - {i}
      ensures signalled == if i in old(waiting) then old(signalled) + {i} else old(signalled)
    {
      if i in waiting {
        waiting := waiting - {i};
        signalled := signalled + {i};
      }
    }

    /** DinningPh::test. */
    method TestIt(i: nat, ghost s: Table)
      requires Valid() && i < N && Shape(s)
      modifies this, state
      ensures Data(s) == Test(old(Data(s)), i)
    {
      if state[(i + 4) % 5] != Eating && state[i] == Hungry && state[(i + 1) % 5] != Eating {
        state[i] := Eating;
        Signal(i);
      }
    }

    /** The body of pickup from Acquire to Wait or Release. */
    method Pickup(who: nat, ghost s: Table) returns (mustWait: bool)
      requires Valid() && who < N && Shape(s) && s.pc[who].Entering? && Data(s) == s
      modifies this, state
      ensures var hungry := Step(s, who);
              var tried := Step(hungry, who);
              var after := Step(tried, who);
              Data(after) == after && (mustWait <==> after.pc[who].Queued?)
    {
      ghost var hungry := Step(s, who);
      state[who] := Hungry;
      assert Data(hungry) == hungry;
      TestIt(who, hungry);
      mustWait := state[who] == Hungry;
      if mustWait {
        waiting := waiting + {who};
      }
    }

    /** The body of putdown from Acquire to Release. */
    method Putdown(who: nat, ghost s: Table)
      requires Valid() && who < N && Shape(s) && s.pc[who].Dropping? && Data(s) == s
      modifies this, state
      ensures var thinking := Step(s, who);
              var left := Step(thinking, who);
              var after := Step(left, who);
              Data(after) == after && after.pc[who].Dropped?
    {
      ghost var thinking := Step(s, who);
      state[who] := Thinking;
      assert Data(thinking) == thinking;
      TestIt((who + 4) % 5, thinking);
      ghost var left := Step(thinking, who);
      assert Data(left) == left;
      TestIt((who + 1) % 5, left);
    }
  }
}
