/**
 The interrupt and time simulator of machine/interrupt.cc.  Device handlers are a
 parameter: each handler that runs may ask for a context switch and schedule further
 interrupts, each at least one tick ahead, as Schedule asserts.
 */
module EventQueue {
  import opened Basics
  import opened LinkedList

  const UserTick := 1
  const SystemTick := 10

  datatype Status = IdleMode | SystemMode | UserMode
  datatype IntType = TimerInt | DiskInt | ConsoleWriteInt | ConsoleReadInt | NetworkSendInt | NetworkRecvInt
  datatype Event = Event(device: nat, kind: IntType)

  /** A handler that ran: when, and the interrupt it served with its due time. */
  datatype Fired = Fired(at: int, what: Keyed<Event>)

  datatype Request = Request(event: Event, fromNow: int)
  datatype Reaction = Reaction(requests: seq<Request>, wantsYield: bool)
  /** What the handlers ask for, in the order in which they run.  Any behaviour of the
      devices over a run is such a script. */
  type Handlers = seq<Reaction>

  function React(h: Handlers, n: nat): (r: Reaction) {
    if n < |h| then h[n] else Reaction([], false)
  }

  datatype Sim = Sim(
    pending: seq<Keyed<Event>>,
    totalTicks: int, idleTicks: int, systemTicks: int, userTicks: int,
    status: Status,
    yieldOnReturn: bool,
    fired: seq<Fired>)

  /** Schedule's ASSERT(fromNow > 0), for every handler. */
  ghost predicate Ahead(h: Handlers) {
    forall n, i :: 0 <= n < |h| && 0 <= i < |h[n].requests| ==> h[n].requests[i].fromNow > 0
  }

  function Scheduled(pending: seq<Keyed<Event>>, now: int, rs: seq<Request>): (r: seq<Keyed<Event>>)
    decreases |rs|
  {
    if rs == [] then pending
    else Scheduled(Inserted(pending, Keyed(now + rs[0].fromNow, rs[0].event)), now, rs[1..])
  }

  /** The interrupts a handler's requests put on the list. */
  function Asked(now: int, rs: seq<Request>): (r: multiset<Keyed<Event>>)
    decreases |rs|
  {
    if rs == [] then multiset{} else multiset{Keyed(now + rs[0].fromNow, rs[0].event)} + Asked(now, rs[1..])
  }

  /** Running the handler of `e`: its requests are scheduled, its yield is remembered. */
  function Handled(s: Sim, e: Keyed<Event>, h: Handlers): (t: Sim) {
    var r := React(h, |s.fired|);
    s.(pending := Scheduled(s.pending, s.totalTicks, r.requests),
       yieldOnReturn := s.yieldOnReturn || r.wantsYield,
       fired := s.fired + [Fired(s.totalTicks, e)])
  }

  /** Only the time-slice timer is left and nothing is runnable. */
  predicate NothingToDo(s: Sim) {
    s.status == IdleMode && |s.pending| == 1 && s.pending[0].item.kind == TimerInt
  }

  /** The clock moves to the next interrupt. */
  function Advanced(s: Sim): (t: Sim) {
    if s.pending != [] && s.pending[0].key > s.totalTicks
    then s.(idleTicks := s.idleTicks + (s.pending[0].key - s.totalTicks), totalTicks := s.pending[0].key)
    else s
  }

  /** CheckIfDue fires the first interrupt unless it is not due or there is nothing to do. */
  predicate Fires(s: Sim, advanceClock: bool) {
    && s.pending != []
    && (advanceClock || s.pending[0].key <= s.totalTicks)
    && !NothingToDo(s)
  }

  /** CheckIfDue: a first interrupt that is not fired is put back, behind others due at
      the same time. */
  function Checked(s: Sim, advanceClock: bool, h: Handlers): (t: Sim) {
    if s.pending == [] then s
    else
      var u := if advanceClock then Advanced(s) else s;
      var rest := s.pending[1..];
      if Fires(s, advanceClock) then Handled(u.(pending := rest), s.pending[0], h)
      else u.(pending := Inserted(rest, s.pending[0]))
  }

  function DueCount(c: seq<Keyed<Event>>, now: int): nat {
    if c == [] then 0 else DueCount(c[1..], now) + if c[0].key <= now then 1 else 0
  }

  // ---------------------------------------------------------------- lemmas on one check

  lemma {:induction false} DueInserted(c: seq<Keyed<Event>>, x: Keyed<Event>, now: int)
    ensures DueCount(Inserted(c, x), now) == DueCount(c, now) + if x.key <= now then 1 else 0
  {
    if c == [] || x.key < c[0].key {
      assert ([x] + c)[1..] == c;
    } else {
      DueInserted(c[1..], x, now);
      assert ([c[0]] + Inserted(c[1..], x))[1..] == Inserted(c[1..], x);
    }
  }

  /** Requests are never due at once, in whatever order the list is. */
  lemma {:induction false} ScheduledDue(c: seq<Keyed<Event>>, now: int, rs: seq<Request>)
    requires forall i :: 0 <= i < |rs| ==> rs[i].fromNow > 0
    ensures DueCount(Scheduled(c, now, rs), now) == DueCount(c, now)
    decreases |rs|
  {
    if rs != [] {
      var x := Keyed(now + rs[0].fromNow, rs[0].event);
      DueInserted(c, x, now);
      ScheduledDue(Inserted(c, x), now, rs[1..]);
    }
  }

  /** Requests are never due at once, and scheduling them keeps the list sorted. */
  lemma {:induction false} ScheduledKeeps(c: seq<Keyed<Event>>, now: int, rs: seq<Request>)
    requires Sorted(c) && forall i :: 0 <= i < |rs| ==> rs[i].fromNow > 0
    ensures Sorted(Scheduled(c, now, rs))
    ensures DueCount(Scheduled(c, now, rs), now) == DueCount(c, now)
    ensures multiset(Scheduled(c, now, rs)) == multiset(c) + Asked(now, rs)
    decreases |rs|
  {
    if rs != [] {
      var x := Keyed(now + rs[0].fromNow, rs[0].event);
      InsertedSorted(c, x);
      DueInserted(c, x, now);
      ScheduledKeeps(Inserted(c, x), now, rs[1..]);
    }
  }

  /** Each firing uses up one due interrupt, whatever its handler schedules. */
  lemma CheckedShrinks(s: Sim, h: Handlers)
    requires Ahead(h) && Fires(s, false)
    ensures DueCount(Checked(s, false, h).pending, s.totalTicks) < DueCount(s.pending, s.totalTicks)
  {
    ScheduledDue(s.pending[1..], s.totalTicks, React(h, |s.fired|).requests);
  }

  /** `while (CheckIfDue(false));`.  It terminates although handlers reschedule. */
  function DueLoop(s: Sim, h: Handlers): (t: Sim)
    requires Ahead(h)
    decreases DueCount(s.pending, s.totalTicks)
  {
    if Fires(s, false) then
      CheckedShrinks(s, h);
      DueLoop(Checked(s, false, h), h)
    else Checked(s, false, h)
  }

  // ---------------------------------------------------------------- what every step keeps

  /** Sorted list, consistent clocks, and a history in which no handler ran early. */
  ghost predicate Inv(s: Sim) {
    && Sorted(s.pending)
    && s.totalTicks == s.idleTicks + s.systemTicks + s.userTicks
    && (forall i :: 0 <= i < |s.fired| ==> s.fired[i].what.key <= s.fired[i].at <= s.totalTicks)
  }

  /** `t` continues `s`: time does not go back and the history only grows. */
  ghost predicate Continues(s: Sim, t: Sim) {
    s.totalTicks <= t.totalTicks && s.fired <= t.fired
  }

  /** Every interrupt on the list, now or later requested, is accounted for: it has been
      served or is still pending. */
  function Served(log: seq<Fired>): (r: multiset<Keyed<Event>>) {
    if log == [] then multiset{} else Served(log[..|log| - 1]) + multiset{log[|log| - 1].what}
  }

  function AskedBy(log: seq<Fired>, h: Handlers): (r: multiset<Keyed<Event>>) {
    if log == [] then multiset{}
    else
      AskedBy(log[..|log| - 1], h) + Asked(log[|log| - 1].at, React(h, |log| - 1).requests)
  }

  /** Conservation: pending = initial + asked for - served. */
  ghost predicate Conserves(initial: multiset<Keyed<Event>>, s: Sim, h: Handlers) {
    multiset(s.pending) + Served(s.fired) == initial + AskedBy(s.fired, h)
  }

  /** Running a handler whose interrupt `e` has come off the list. */
  lemma HandledKeeps(s: Sim, e: Keyed<Event>, h: Handlers)
    requires Inv(s) && Ahead(h) && e.key <= s.totalTicks
    ensures var t := Handled(s, e, h);
            && Inv(t) && Continues(s, t)
            && multiset(t.pending) == multiset(s.pending) + Asked(s.totalTicks, React(h, |s.fired|).requests)
            && Served(t.fired) == Served(s.fired) + multiset{e}
            && AskedBy(t.fired, h) == AskedBy(s.fired, h) + Asked(s.totalTicks, React(h, |s.fired|).requests)
  {
    var t := Handled(s, e, h);
    ScheduledKeeps(s.pending, s.totalTicks, React(h, |s.fired|).requests);
    assert t.fired[..|t.fired| - 1] == s.fired;
  }

  lemma AdvancedKeeps(s: Sim)
    requires Inv(s)
    ensures Inv(Advanced(s)) && Continues(s, Advanced(s))
    ensures s.pending != [] ==> s.pending[0].key <= Advanced(s).totalTicks
  {
  }

  lemma CheckedKeeps(s: Sim, advanceClock: bool, h: Handlers)
    requires Inv(s) && Ahead(h)
    ensures var t := Checked(s, advanceClock, h);
            && Inv(t) && Continues(s, t) && t.status == s.status
            && (!advanceClock ==> t.totalTicks == s.totalTicks && t.idleTicks == s.idleTicks)
            && t.systemTicks == s.systemTicks && t.userTicks == s.userTicks
  {
    if s.pending != [] {
      var e, rest := s.pending[0], s.pending[1..];
      AdvancedKeeps(s);
      var u := (if advanceClock then Advanced(s) else s).(pending := rest);
      if Fires(s, advanceClock) {
        HandledKeeps(u, e, h);
      } else {
        InsertedSorted(rest, e);
      }
    }
  }

  lemma CheckedConserves(s: Sim, advanceClock: bool, h: Handlers, initial: multiset<Keyed<Event>>)
    requires Inv(s) && Ahead(h) && Conserves(initial, s, h)
    ensures Conserves(initial, Checked(s, advanceClock, h), h)
  {
    if s.pending != [] {
      var u := if advanceClock then Advanced(s) else s;
      AdvancedKeeps(s);
      if Fires(s, advanceClock) {
        TakeFirst(u, h, initial);
      } else {
        PutBack(s.pending);
        assert Checked(s, advanceClock, h) == u.(pending := Inserted(s.pending[1..], s.pending[0]));
      }
    }
  }

  lemma TakeFirst(s: Sim, h: Handlers, initial: multiset<Keyed<Event>>)
    requires Inv(s) && Ahead(h) && Conserves(initial, s, h) && s.pending != [] && s.pending[0].key <= s.totalTicks
    ensures Conserves(initial, Handled(s.(pending := s.pending[1..]), s.pending[0], h), h)
  {
    assert s.pending == [s.pending[0]] + s.pending[1..];
    HandledConserves(s.(pending := s.pending[1..]), s.pending[0], h, initial);
  }

  lemma HandledConserves(s: Sim, e: Keyed<Event>, h: Handlers, initial: multiset<Keyed<Event>>)
    requires Inv(s) && Ahead(h) && e.key <= s.totalTicks
    requires multiset([e] + s.pending) + Served(s.fired) == initial + AskedBy(s.fired, h)
    ensures Conserves(initial, Handled(s, e, h), h)
  {
    HandledKeeps(s, e, h);
    Balance(multiset(s.pending), e, Served(s.fired), initial, AskedBy(s.fired, h),
            Asked(s.totalTicks, React(h, |s.fired|).requests));
  }

  lemma Balance<T>(rest: multiset<T>, e: T, served: multiset<T>,
                   initial: multiset<T>, asked: multiset<T>, more: multiset<T>)
    requires multiset{e} + rest + served == initial + asked
    ensures (rest + more) + (served + multiset{e}) == initial + (asked + more)
  {
    assert (rest + more) + (served + multiset{e}) == (multiset{e} + rest + served) + more;
    assert initial + (asked + more) == (initial + asked) + more;
  }

  /** The due-loop keeps everything, does not move the clock, and leaves nothing due,
      except the lone timer of an idle machine. */
  lemma {:induction false} DueLoopKeeps(s: Sim, h: Handlers)
    requires Inv(s) && Ahead(h)
    ensures var t := DueLoop(s, h);
            && Inv(t) && Continues(s, t) && t.status == s.status
            && t.totalTicks == s.totalTicks && t.idleTicks == s.idleTicks
            && t.systemTicks == s.systemTicks && t.userTicks == s.userTicks
            && (NoneDue(t) || NothingToDo(t))
    decreases DueCount(s.pending, s.totalTicks)
  {
    CheckedKeeps(s, false, h);
    if Fires(s, false) {
      CheckedShrinks(s, h);
      DueLoopKeeps(Checked(s, false, h), h);
    } else if s.pending != [] {
      PutBack(s.pending);
    }
  }

  ghost predicate NoneDue(s: Sim) {
    forall i :: 0 <= i < |s.pending| ==> s.pending[i].key > s.totalTicks
  }

  lemma {:induction false} DueLoopConserves(s: Sim, h: Handlers, initial: multiset<Keyed<Event>>)
    requires Inv(s) && Ahead(h) && Conserves(initial, s, h)
    ensures Conserves(initial, DueLoop(s, h), h)
    decreases DueCount(s.pending, s.totalTicks)
  {
    CheckedConserves(s, false, h, initial);
    if Fires(s, false) {
      CheckedKeeps(s, false, h);
      CheckedShrinks(s, h);
      DueLoopConserves(Checked(s, false, h), h, initial);
    }
  }

  /** Putting the first interrupt back leaves an earliest one in front. */
  lemma PutBack(c: seq<Keyed<Event>>)
    requires Sorted(c) && c != []
    ensures var r := Inserted(c[1..], c[0]);
            && |r| == |c| && (forall i :: 0 <= i < |r| ==> c[0].key <= r[i].key) && (|c| == 1 ==> r == c)
            && multiset(r) == multiset(c)
  {
    var r := Inserted(c[1..], c[0]);
    InsertedSorted(c[1..], c[0]);
    assert c == [c[0]] + c[1..];
    forall i | 0 <= i < |r| ensures c[0].key <= r[i].key {
      assert r[i] in multiset(r);
      assert r[i] in c;
    }
  }

  // ---------------------------------------------------------------- what the due-loop runs

  /** Some handler run between two points of the history asked for a yield. */
  ghost predicate YieldAsked(h: Handlers, from: nat, to: nat) {
    exists n :: from <= n < to && React(h, n).wantsYield
  }

  /** A yield is pending after the due-loop if and only if it was before, or a handler that
      ran in between asked for one. */
  lemma {:induction false} DueLoopYields(s: Sim, h: Handlers)
    requires Inv(s) && Ahead(h)
    ensures var t := DueLoop(s, h);
            |s.fired| <= |t.fired| && (t.yieldOnReturn <==> s.yieldOnReturn || YieldAsked(h, |s.fired|, |t.fired|))
    decreases DueCount(s.pending, s.totalTicks)
  {
    if Fires(s, false) {
      var u := Checked(s, false, h);
      CheckedShrinks(s, h);
      CheckedKeeps(s, false, h);
      DueLoopYields(u, h);
      assert u.yieldOnReturn <==> s.yieldOnReturn || React(h, |s.fired|).wantsYield;
    }
  }

  /** What lies in front of a later interrupt stays there. */
  lemma {:induction false} InsertedPrefix(c: seq<Keyed<Event>>, x: Keyed<Event>, d: nat)
    requires d <= |c| && forall i :: 0 <= i < d ==> c[i].key <= x.key
    ensures d <= |Inserted(c, x)| && forall i :: 0 <= i < d ==> Inserted(c, x)[i] == c[i]
  {
    if d > 0 {
      InsertedPrefix(c[1..], x, d - 1);
    }
  }

  lemma {:induction false} ScheduledPrefix(c: seq<Keyed<Event>>, now: int, rs: seq<Request>, d: nat)
    requires forall i :: 0 <= i < |rs| ==> rs[i].fromNow > 0
    requires d <= |c| && forall i :: 0 <= i < d ==> c[i].key <= now
    ensures d <= |Scheduled(c, now, rs)| && forall i :: 0 <= i < d ==> Scheduled(c, now, rs)[i] == c[i]
    decreases |rs|
  {
    if rs != [] {
      var x := Keyed(now + rs[0].fromNow, rs[0].event);
      InsertedPrefix(c, x, d);
      ScheduledPrefix(Inserted(c, x), now, rs[1..], d);
    }
  }

  /** In a sorted list the due interrupts come first. */
  lemma {:induction false} DueFirst(c: seq<Keyed<Event>>, now: int)
    requires Sorted(c)
    ensures DueCount(c, now) <= |c|
    ensures forall i :: 0 <= i < |c| ==> (i < DueCount(c, now) <==> c[i].key <= now)
  {
    if c != [] {
      DueFirst(c[1..], now);
      if c[0].key > now {
        forall i | 0 <= i < |c| ensures c[i].key > now {}
        assert forall i :: 0 <= i < |c[1..]| ==> c[1..][i].key > now;
        assert DueCount(c[1..], now) == 0;
      }
    }
  }

  /** Outside idle mode the due-loop runs the handlers of exactly the interrupts due, in the
      order in which they stand on the list, all at the present time. */
  lemma {:induction false} DueLoopServes(s: Sim, h: Handlers)
    requires Inv(s) && Ahead(h) && s.status != IdleMode
    ensures var t, d := DueLoop(s, h), DueCount(s.pending, s.totalTicks);
            && d <= |s.pending| && |t.fired| == |s.fired| + d && s.fired <= t.fired
            && forall i :: 0 <= i < d ==> t.fired[|s.fired| + i] == Fired(s.totalTicks, s.pending[i])
    decreases DueCount(s.pending, s.totalTicks)
  {
    DueFirst(s.pending, s.totalTicks);
    if Fires(s, false) {
      var u, t, d := Checked(s, false, h), DueLoop(s, h), DueCount(s.pending, s.totalTicks);
      CheckedShrinks(s, h);
      CheckedKeeps(s, false, h);
      DueLoopServes(u, h);
      var requests := React(h, |s.fired|).requests;
      ScheduledDue(s.pending[1..], s.totalTicks, requests);
      ScheduledPrefix(s.pending[1..], s.totalTicks, requests, d - 1);
      ServedFirst(s, u, t, d);
    }
  }

  lemma ServedFirst(s: Sim, u: Sim, t: Sim, d: nat)
    requires 0 < d <= |s.pending| && d - 1 <= |u.pending|
    requires forall i :: 0 <= i < d - 1 ==> u.pending[i] == s.pending[1..][i]
    requires u.fired == s.fired + [Fired(s.totalTicks, s.pending[0])]
    requires |t.fired| == |u.fired| + d - 1 && u.fired <= t.fired
    requires forall i :: 0 <= i < d - 1 ==> t.fired[|u.fired| + i] == Fired(s.totalTicks, u.pending[i])
    ensures s.fired <= t.fired
    ensures forall i :: 0 <= i < d ==> t.fired[|s.fired| + i] == Fired(s.totalTicks, s.pending[i])
  {
    forall i | 0 <= i < d ensures t.fired[|s.fired| + i] == Fired(s.totalTicks, s.pending[i]) {
      if i > 0 {
        assert t.fired[|u.fired| + (i - 1)] == Fired(s.totalTicks, u.pending[i - 1]);
        assert s.pending[1..][i - 1] == s.pending[i];
      }
    }
  }

  // ---------------------------------------------------------------- OneTick and Idle

  function Ticked(s: Sim): (t: Sim) {
    if s.status == SystemMode
    then s.(totalTicks := s.totalTicks + SystemTick, systemTicks := s.systemTicks + SystemTick)
    else s.(totalTicks := s.totalTicks + UserTick, userTicks := s.userTicks + UserTick)
  }

  /** OneTick, except for the context switch it may end with. */
  function OneTick(s: Sim, h: Handlers): (t: Sim)
    requires Ahead(h)
  {
    DueLoop(Ticked(s), h).(yieldOnReturn := false)
  }

  /** Idle: the machine halts (None) when there is nothing to wait for. */
  function Idled(s: Sim, h: Handlers): (t: Option<Sim>)
    requires Ahead(h)
  {
    var u := s.(status := IdleMode);
    if Fires(u, true) then Some(DueLoop(Checked(u, true, h), h).(yieldOnReturn := false, status := SystemMode))
    else None
  }

  /** A tick is ten ticks of system time in system mode and one of user time in user mode. */
  ghost predicate Charges(s: Sim, t: Sim) {
    && t.idleTicks == s.idleTicks
    && t.systemTicks == s.systemTicks + (if s.status == SystemMode then 10 else 0)
    && t.userTicks == s.userTicks + (if s.status == SystemMode then 0 else 1)
    && t.totalTicks == s.totalTicks + (if s.status == SystemMode then 10 else 1)
  }

  lemma OneTickCharges(s: Sim, h: Handlers)
    requires Inv(s) && Ahead(h)
    ensures var t := DueLoop(Ticked(s), h);
            && Inv(t) && Charges(s, t) && |s.fired| <= |t.fired|
            && (t.yieldOnReturn <==> s.yieldOnReturn || YieldAsked(h, |s.fired|, |t.fired|))
  {
    DueLoopKeeps(Ticked(s), h);
    DueLoopYields(Ticked(s), h);
  }

  /** After OneTick, outside idle mode, no pending interrupt is due; time has moved on by 10
      in system mode and by 1 in user mode, charged to that mode alone, no handler ran
      early, and no interrupt was lost or invented. */
  lemma OneTickKeeps(s: Sim, h: Handlers, initial: multiset<Keyed<Event>>)
    requires Inv(s) && Ahead(h) && s.status != IdleMode && Conserves(initial, s, h)
    ensures var t := OneTick(s, h);
            && Inv(t) && Continues(s, t) && s.totalTicks < t.totalTicks && t.status == s.status
            && NoneDue(t) && Conserves(initial, t, h) && !t.yieldOnReturn && Charges(s, t)
  {
    DueLoopKeeps(Ticked(s), h);
    DueLoopConserves(Ticked(s), h, initial);
  }

  /** Which handlers a tick runs: those of the interrupts due after 10 more ticks in system
      mode, after 1 more in user mode, in their order on the list. */
  lemma OneTickServes(s: Sim, h: Handlers)
    requires Inv(s) && Ahead(h) && s.status != IdleMode
    ensures var t, now := OneTick(s, h), s.totalTicks + if s.status == SystemMode then 10 else 1;
            && s.fired <= t.fired && |t.fired| - |s.fired| <= |s.pending|
            && (forall i :: 0 <= i < |s.pending| ==> (i < |t.fired| - |s.fired| <==> s.pending[i].key <= now))
            && (forall i :: 0 <= i < |t.fired| - |s.fired| ==> t.fired[|s.fired| + i] == Fired(now, s.pending[i]))
  {
    DueFirst(s.pending, Ticked(s).totalTicks);
    DueLoopServes(Ticked(s), h);
  }

  /** Idle halts exactly when nothing, or only the time-slice timer, is pending. */
  lemma IdledReturns(s: Sim, h: Handlers)
    requires Inv(s) && Ahead(h)
    ensures Idled(s, h).None? <==> s.pending == [] || (|s.pending| == 1 && s.pending[0].item.kind == TimerInt)
  {
  }

  /** When Idle returns the clock has moved just to the first interrupt, the time spent is
      idle time, that interrupt's handler ran first, and nothing is left due but possibly a
      lone timer. */
  lemma IdledKeeps(s: Sim, h: Handlers, initial: multiset<Keyed<Event>>)
    requires Inv(s) && Ahead(h) && Idled(s, h).Some? && Conserves(initial, s, h)
    ensures var t := Idled(s, h).value;
            && Inv(t) && Continues(s, t) && |s.fired| < |t.fired| && t.status == SystemMode
            && (NoneDue(t) || (|t.pending| == 1 && t.pending[0].item.kind == TimerInt))
            && Conserves(initial, t, h) && !t.yieldOnReturn && s.pending != []
            && t.totalTicks == (if s.pending[0].key > s.totalTicks then s.pending[0].key else s.totalTicks)
            && t.idleTicks - s.idleTicks == t.totalTicks - s.totalTicks
            && t.systemTicks == s.systemTicks && t.userTicks == s.userTicks
            && t.fired[|s.fired|] == Fired(t.totalTicks, s.pending[0])
  {
    var u := s.(status := IdleMode);
    CheckedKeeps(u, true, h);
    CheckedConserves(u, true, h, initial);
    CheckedLogs(u, h);
    LoopAfter(Checked(u, true, h), h, initial);
  }

  lemma LoopAfter(v: Sim, h: Handlers, initial: multiset<Keyed<Event>>)
    requires Inv(v) && Ahead(h) && v.status == IdleMode && Conserves(initial, v, h)
    ensures var t := DueLoop(v, h).(yieldOnReturn := false, status := SystemMode);
            && Inv(t) && Continues(v, t)
            && (NoneDue(t) || (|t.pending| == 1 && t.pending[0].item.kind == TimerInt))
            && Conserves(initial, t, h) && t.totalTicks == v.totalTicks && t.idleTicks == v.idleTicks
            && t.systemTicks == v.systemTicks && t.userTicks == v.userTicks
  {
    DueLoopKeeps(v, h);
    DueLoopConserves(v, h, initial);
  }

  lemma CheckedLogs(s: Sim, h: Handlers)
    requires Inv(s) && Fires(s, true)
    ensures var t := Checked(s, true, h);
            && |t.fired| == |s.fired| + 1 && t.fired[|s.fired|] == Fired(t.totalTicks, s.pending[0])
            && t.totalTicks == (if s.pending[0].key > s.totalTicks then s.pending[0].key else s.totalTicks)
  {
  }

  // ---------------------------------------------------------------- runs

  /** What can happen to the simulator from outside: a device schedules an interrupt,
      interrupts are re-enabled or a user instruction ends (a tick), or the machine idles. */
  datatype Step = Schedule(request: Request) | Tick(mode: Status) | Idle

  ghost predicate Allowed(s: Sim, step: Step, h: Handlers)
    requires Ahead(h)
  {
    match step
    case Schedule(r) => r.fromNow > 0
    case Tick(mode) => mode != IdleMode
    case Idle => Idled(s, h).Some?
  }

  ghost function After(s: Sim, step: Step, h: Handlers): (t: Sim)
    requires Ahead(h) && Allowed(s, step, h)
  {
    match step
    case Schedule(r) => s.(pending := Scheduled(s.pending, s.totalTicks, [r]))
    case Tick(mode) => OneTick(s.(status := mode), h)
    case Idle => Idled(s, h).value
  }

  /** A run through the states `ss`. */
  ghost predicate Run(ss: seq<Sim>, steps: seq<Step>, h: Handlers)
    requires Ahead(h)
  {
    && |ss| == |steps| + 1
    && forall i :: 0 <= i < |steps| ==> Allowed(ss[i], steps[i], h) && ss[i + 1] == After(ss[i], steps[i], h)
  }

  /** The interrupts that devices scheduled from outside in the first `n` steps. */
  ghost function Outside(ss: seq<Sim>, steps: seq<Step>, n: nat): (m: multiset<Keyed<Event>>)
    requires n <= |steps| < |ss|
  {
    if n == 0 then multiset{}
    else Outside(ss, steps, n - 1) +
         if steps[n - 1].Schedule? then Asked(ss[n - 1].totalTicks, [steps[n - 1].request]) else multiset{}
  }

  /** What one step does to the account of interrupts. */
  ghost function Charged(s: Sim, step: Step, account: multiset<Keyed<Event>>): (m: multiset<Keyed<Event>>) {
    account + if step.Schedule? then Asked(s.totalTicks, [step.request]) else multiset{}
  }

  lemma ScheduleKeeps(s: Sim, r: Request, h: Handlers, account: multiset<Keyed<Event>>)
    requires Inv(s) && Conserves(account, s, h) && r.fromNow > 0
    ensures var t := s.(pending := Scheduled(s.pending, s.totalTicks, [r]));
            Inv(t) && Continues(s, t) && Conserves(account + Asked(s.totalTicks, [r]), t, h)
  {
    ScheduledKeeps(s.pending, s.totalTicks, [r]);
    var more := Asked(s.totalTicks, [r]);
    assert (multiset(s.pending) + more) + Served(s.fired) == (multiset(s.pending) + Served(s.fired)) + more;
    assert (account + more) + AskedBy(s.fired, h) == (account + AskedBy(s.fired, h)) + more;
  }

  /** Every step keeps the invariant and the account; a tick leaves nothing due. */
  lemma AfterKeeps(s: Sim, step: Step, h: Handlers, account: multiset<Keyed<Event>>)
    requires Inv(s) && Ahead(h) && Allowed(s, step, h) && Conserves(account, s, h)
    ensures var t := After(s, step, h);
            && Inv(t) && Continues(s, t) && Conserves(Charged(s, step, account), t, h)
            && (step.Tick? ==> NoneDue(t) && s.totalTicks < t.totalTicks)
            && (step.Idle? ==> |s.fired| < |t.fired|)
  {
    match step
    case Schedule(r) => ScheduleKeeps(s, r, h, account);
    case Tick(mode) =>
      assert account + multiset{} == account;
      OneTickKeeps(s.(status := mode), h, account);
    case Idle =>
      assert account + multiset{} == account;
      IdledKeeps(s, h, account);
  }

  /** Over every run from a state satisfying the invariant: the list stays sorted, the
      clocks add up, time never goes back, no handler ran before its time, every interrupt
      scheduled from outside or by a handler is still pending or was served exactly once,
      and after every tick nothing pending is due. */
  lemma {:induction false} RunKeeps(ss: seq<Sim>, steps: seq<Step>, h: Handlers,
                                    initial: multiset<Keyed<Event>>, n: nat)
    requires Ahead(h) && Run(ss, steps, h) && n <= |steps|
    requires Inv(ss[0]) && Conserves(initial, ss[0], h)
    ensures Inv(ss[n]) && Continues(ss[0], ss[n])
    ensures Conserves(initial + Outside(ss, steps, n), ss[n], h)
    ensures n > 0 && steps[n - 1].Tick? ==> NoneDue(ss[n])
  {
    if n == 0 {
      assert initial + multiset{} == initial;
    } else {
      RunKeeps(ss, steps, h, initial, n - 1);
      var account := initial + Outside(ss, steps, n - 1);
      AfterKeeps(ss[n - 1], steps[n - 1], h, account);
      assert Charged(ss[n - 1], steps[n - 1], account) == initial + Outside(ss, steps, n);
    }
  }

  /** How many of the first `n` steps are ticks in this mode. */
  ghost function TicksIn(steps: seq<Step>, mode: Status, n: nat): (count: nat)
    requires n <= |steps|
  {
    if n == 0 then 0 else TicksIn(steps, mode, n - 1) + if steps[n - 1] == Tick(mode) then 1 else 0
  }

  lemma AfterCharges(s: Sim, step: Step, h: Handlers)
    requires Inv(s) && Ahead(h) && Allowed(s, step, h)
    ensures var t := After(s, step, h);
            && t.systemTicks == s.systemTicks + (if step == Tick(SystemMode) then 10 else 0)
            && t.userTicks == s.userTicks + (if step == Tick(UserMode) then 1 else 0)
            && (!step.Idle? ==> t.idleTicks == s.idleTicks)
  {
    match step
    case Schedule(r) =>
    case Tick(mode) => OneTickCharges(s.(status := mode), h);
    case Idle =>
      CheckedKeeps(s.(status := IdleMode), true, h);
      DueLoopKeeps(Checked(s.(status := IdleMode), true, h), h);
  }

  lemma {:induction false} ChargesUpTo(ss: seq<Sim>, steps: seq<Step>, h: Handlers, n: nat)
    requires Ahead(h) && Run(ss, steps, h) && n <= |steps| && forall i :: 0 <= i <= n ==> Inv(ss[i])
    ensures ss[n].systemTicks == ss[0].systemTicks + 10 * TicksIn(steps, SystemMode, n)
    ensures ss[n].userTicks == ss[0].userTicks + TicksIn(steps, UserMode, n)
  {
    if n > 0 {
      ChargesUpTo(ss, steps, h, n - 1);
      AfterCharges(ss[n - 1], steps[n - 1], h);
    }
  }

  /** Over every run: system time is ten for every tick in system mode, user time one for
      every tick in user mode, and all other time is idle. */
  lemma RunCharges(ss: seq<Sim>, steps: seq<Step>, h: Handlers, initial: multiset<Keyed<Event>>, n: nat)
    requires Ahead(h) && Run(ss, steps, h) && n <= |steps|
    requires Inv(ss[0]) && Conserves(initial, ss[0], h)
    ensures ss[n].systemTicks == ss[0].systemTicks + 10 * TicksIn(steps, SystemMode, n)
    ensures ss[n].userTicks == ss[0].userTicks + TicksIn(steps, UserMode, n)
    ensures ss[n].totalTicks - ss[n].idleTicks == ss[n].systemTicks + ss[n].userTicks
  {
    forall i | 0 <= i <= n ensures Inv(ss[i]) {
      RunKeeps(ss, steps, h, initial, i);
    }
    ChargesUpTo(ss, steps, h, n);
  }

  /** The simulator as constructed. */
  function Booted(): (s: Sim) {
    Sim([], 0, 0, 0, 0, SystemMode, false, [])
  }

  /** Runs start from it: nothing pending, nothing served. */
  lemma BootKeeps(h: Handlers)
    ensures Inv(Booted()) && Conserves(multiset{}, Booted(), h)
  {
  }
}
