/**
 class Interrupt of machine/interrupt.cc, proved to compute the functions of EventQueue.
 Its pending list is the sequence that LinkedList.List represents: SortedInsert is
 `Inserted` and SortedRemove takes the first element.
 */
module InterruptMachine {
  import opened Basics
  import opened LinkedList
  import opened EventQueue

  datatype IntStatus = IntOff | IntOn

  class Interrupt {
    const handlers: Handlers
    var pending: seq<Keyed<Event>>
    var level: IntStatus
    var inHandler: bool
    var yieldOnReturn: bool
    var status: Status
    var totalTicks: int
    var idleTicks: int
    var systemTicks: int
    var userTicks: int
    /** The handlers run so far; their number tells how far the script has got. */
    var fired: seq<Fired>

    ghost function Now(): Sim
      reads this
    {
      Sim(pending, totalTicks, idleTicks, systemTicks, userTicks, status, yieldOnReturn, fired)
    }

    ghost predicate Valid()
      reads this
    {
      Inv(Now()) && Ahead(handlers)
    }

    constructor (handlers: Handlers)
      requires Ahead(handlers)
      ensures Valid() && level == IntOff && !inHandler
      ensures Now() == Booted()
    {
      this.handlers := handlers;
      pending := [];
      level, inHandler, yieldOnReturn, status := IntOff, false, false, SystemMode;
      totalTicks, idleTicks, systemTicks, userTicks, fired := 0, 0, 0, 0, [];
      new;
      assert Now() == Booted();
    }

    method Schedule(e: Event, fromNow: int)
      requires fromNow > 0
      modifies this`pending
      ensures pending == Inserted(old(pending), Keyed(totalTicks + fromNow, e))
    {
      pending := Inserted(pending, Keyed(totalTicks + fromNow, e));
    }

    /** The call through toOccur->handler. */
    method CallHandler(e: Keyed<Event>)
      requires Ahead(handlers)
      modifies this`yieldOnReturn, this`fired, this`pending
      ensures Now() == Handled(old(Now()), e, handlers)
    {
      var r := React(handlers, |fired|);
      var i := 0;
      while i < |r.requests|
        invariant 0 <= i <= |r.requests|
        invariant fired == old(fired) && yieldOnReturn == old(yieldOnReturn)
        invariant Scheduled(pending, totalTicks, r.requests[i..]) == Scheduled(old(pending), totalTicks, r.requests)
      {
        assert r.requests[i..][1..] == r.requests[i + 1..];
        Schedule(r.requests[i].event, r.requests[i].fromNow);
        i := i + 1;
      }
      assert r.requests[i..] == [];
      yieldOnReturn := yieldOnReturn || r.wantsYield;
      fired := fired + [Fired(totalTicks, e)];
    }

    /** CheckIfDue, with interrupts disabled. */
    method CheckIfDue(advanceClock: bool) returns (b: bool)
      requires Valid() && level == IntOff && !inHandler
      modifies this
      ensures Valid() && level == IntOff && !inHandler
      ensures b == Fires(old(Now()), advanceClock)
      ensures Now() == Checked(old(Now()), advanceClock, handlers)
    {
      CheckedKeeps(Now(), advanceClock, handlers);
      if pending == [] {
        return false;
      }
      var toOccur := pending[0];
      pending := pending[1..];
      if advanceClock && toOccur.key > totalTicks {
        idleTicks := idleTicks + (toOccur.key - totalTicks);
        totalTicks := toOccur.key;
      } else if toOccur.key > totalTicks {
        pending := Inserted(pending, toOccur);
        return false;
      }
      if status == IdleMode && toOccur.item.kind == TimerInt && pending == [] {
        pending := Inserted(pending, toOccur);
        return false;
      }
      FireHandler(toOccur);
      return true;
    }

    /** Run the handler in system mode. */
    method FireHandler(e: Keyed<Event>)
      requires Ahead(handlers) && !inHandler
      modifies this`yieldOnReturn, this`fired, this`pending, this`status, this`inHandler
      ensures Now() == Handled(old(Now()), e, handlers) && !inHandler
    {
      var before := status;
      inHandler := true;
      status := SystemMode;
      CallHandler(e);
      status := before;
      inHandler := false;
    }

    /** `while (CheckIfDue(false));` */
    method RunDue()
      requires Valid() && level == IntOff && !inHandler
      modifies this
      ensures Valid() && level == IntOff && !inHandler
      ensures Now() == DueLoop(old(Now()), handlers)
    {
      ghost var s := Now();
      var more := true;
      while more
        invariant Valid() && level == IntOff && !inHandler
        invariant more ==> DueLoop(Now(), handlers) == DueLoop(s, handlers)
        invariant !more ==> Now() == DueLoop(s, handlers)
        decreases more, DueCount(pending, totalTicks)
      {
        if Fires(Now(), false) {
          CheckedShrinks(Now(), handlers);
        }
        CheckedKeeps(Now(), false, handlers);
        more := CheckIfDue(false);
      }
    }

    /** OneTick.  The result says whether the interrupted thread must yield. */
    method OneTick() returns (mustYield: bool)
      requires Valid() && !inHandler
      modifies this
      ensures Valid() && level == IntOn && !inHandler
      ensures Now() == EventQueue.OneTick(old(Now()), handlers)
      ensures Charges(old(Now()), Now())
      ensures |old(fired)| <= |fired|
      ensures mustYield <==> old(yieldOnReturn) || YieldAsked(handlers, |old(fired)|, |fired|)
    {
      ghost var s := Now();
      OneTickCharges(s, handlers);
      if status == SystemMode {
        totalTicks := totalTicks + SystemTick;
        systemTicks := systemTicks + SystemTick;
      } else {
        totalTicks := totalTicks + UserTick;
        userTicks := userTicks + UserTick;
      }
      level := IntOff;
      assert Now() == Ticked(s);
      RunDue();
      level := IntOn;
      mustYield := yieldOnReturn;
      yieldOnReturn := false;
    }

    /** Idle.  False means the machine halts. */
    method Idle() returns (goOn: bool)
      requires Valid() && level == IntOff && !inHandler
      modifies this
      ensures level == IntOff && !inHandler
      ensures goOn <==> Idled(old(Now()), handlers).Some?
      ensures goOn ==> Valid() && Some(Now()) == Idled(old(Now()), handlers)
    {
      status := IdleMode;
      goOn := CheckIfDue(true);
      if goOn {
        RunDue();
        yieldOnReturn := false;
        status := SystemMode;
      }
    }

    /** SetLevel.  A handler may not enable interrupts. */
    method SetLevel(now: IntStatus) returns (before: IntStatus, mustYield: bool)
      requires Valid() && (now == IntOn ==> !inHandler)
      modifies this
      ensures Valid() && inHandler == old(inHandler) && level == now && before == old(level)
      ensures now == IntOn && before == IntOff ==>
                && Now() == EventQueue.OneTick(old(Now()), handlers) && |old(fired)| <= |fired|
                && (mustYield <==> old(yieldOnReturn) || YieldAsked(handlers, |old(fired)|, |fired|))
      ensures !(now == IntOn && before == IntOff) ==> Now() == old(Now()) && !mustYield
    {
      before, mustYield := level, false;
      level := now;
      if now == IntOn && before == IntOff {
        mustYield := OneTick();
      }
    }
  }
}
