/**
 The simulated disk of machine/disk.cc: how long a request takes, when the track buffer
 serves it, and the one-request-at-a-time discipline.  Time is counted in ticks; the
 head passes one sector every RotationTime ticks, sector k of a track during the
 intervals [RotationTime * n, RotationTime * (n + 1)) with n % SectorsPerTrack == k.
 */
module DiskTiming {
  import opened Basics

  const SectorsPerTrack := 32
  const NumTracks := 32
  const NumSectors := SectorsPerTrack * NumTracks
  const RotationTime := 500
  const SeekTime := 500

  function Abs(n: int): nat {
    if n < 0 then -n else n
  }

  /** Division as C performs it, truncating toward zero. */
  function CDiv(n: int, d: nat): int
    requires 0 < d
  {
    if n >= 0 then n / d else -((-n) / d)
  }

  function Seek(last: nat, newSector: nat): (seek: nat) {
    Abs(newSector / SectorsPerTrack - last / SectorsPerTrack) * SeekTime
  }

  /** TimeToSeek's second result: the wait until the next sector boundary. */
  function Settle(now: nat, seek: nat): (rotation: nat) {
    var over := (now + seek) % RotationTime;
    if over > 0 then RotationTime - over else 0
  }

  function ModuloDiff(to: nat, from: nat): (d: nat) {
    ((to % SectorsPerTrack) - (from % SectorsPerTrack) + SectorsPerTrack) % SectorsPerTrack
  }

  /** The first sector boundary after the seek. */
  function TimeAfter(now: nat, last: nat, newSector: nat): (t: nat) {
    now + Seek(last, newSector) + Settle(now, Seek(last, newSector))
  }

  predicate Buffered(now: nat, last: nat, bufferInit: nat, newSector: nat, writing: bool) {
    !writing && Seek(last, newSector) == 0
    && CDiv(TimeAfter(now, last, newSector) - bufferInit, RotationTime)
       > ModuloDiff(newSector, bufferInit / RotationTime)
  }

  /** The latency when the track buffer does not apply. */
  function MediaLatency(now: nat, last: nat, newSector: nat): (ticks: nat) {
    TimeAfter(now, last, newSector) - now
    + ModuloDiff(newSector, TimeAfter(now, last, newSector) / RotationTime) * RotationTime + RotationTime
  }

  /** ComputeLatency. */
  function Latency(now: nat, last: nat, bufferInit: nat, newSector: nat, writing: bool): (ticks: nat) {
    if Buffered(now, last, bufferInit, newSector, writing) then RotationTime
    else MediaLatency(now, last, newSector)
  }

  // ---------------------------------------------------------------- meaning

  /** The rotational position of sector, or of sector interval, `n`. */
  function Position(n: nat): nat {
    n % SectorsPerTrack
  }

  /** The head passes over sector `s` completely during [t, t + RotationTime). */
  predicate Passes(t: nat, s: nat)
    ensures Passes(t, s) <==> t % 500 == 0 && t / 500 % 32 == s % 32
  {
    t % RotationTime == 0 && Position(t / RotationTime) == Position(s)
  }

  /** The first moment at or after `from` at which the sector begins to pass. */
  ghost predicate FirstPass(from: nat, s: nat, at: int) {
    from <= at && Passes(at, s) && forall t: nat :: from <= t && Passes(t, s) ==> at <= t
  }

  /** Where the track buffer starts: at the first sector boundary after a seek; without a
      seek it goes on as it was. */
  ghost predicate BufferStarts(now: nat, last: nat, newSector: nat, before: nat, after: nat) {
    var there := now + 500 * Tracks(last, newSector);
    if there == now then after == before else after % 500 == 0 && there <= after < there + 500
  }

  /** ModuloDiff is the number of sectors to wait until a rotational position recurs. */
  lemma ModuloDiffMeaning(to: nat, from: nat)
    ensures ModuloDiff(to, from) < SectorsPerTrack
    ensures Position(from + ModuloDiff(to, from)) == Position(to)
    ensures forall m: nat :: from <= m && Position(m) == Position(to) ==> from + ModuloDiff(to, from) <= m
  {
    var a, b := Position(to), Position(from);
    assert ModuloDiff(to, from) == if a >= b then a - b else a - b + SectorsPerTrack;
    PositionAfter(from, ModuloDiff(to, from));
    forall m: nat | from <= m && Position(m) == a ensures from + ModuloDiff(to, from) <= m {
      NotBefore(from, m, ModuloDiff(to, from));
    }
  }

  /** Within one turn a position comes up once. */
  lemma NotBefore(from: nat, m: nat, d: nat)
    requires from <= m && d < SectorsPerTrack && Position(m) == Position(from + d)
    ensures from + d <= m
  {
    if m < from + d {
      PositionAfter(from, m - from);
      PositionAfter(from, d);
    }
  }

  lemma PositionAfter(from: nat, d: nat)
    requires d < SectorsPerTrack
    ensures var b := Position(from);
            Position(from + d) == if b + d < SectorsPerTrack then b + d else b + d - SectorsPerTrack
  {
  }

  lemma AfterBounds(now: nat, last: nat, newSector: nat)
    requires last < NumSectors && newSector < NumSectors
    ensures TimeAfter(now, last, newSector) % RotationTime == 0
    ensures now + Seek(last, newSector) <= TimeAfter(now, last, newSector) < now + Seek(last, newSector) + RotationTime
    ensures Seek(last, newSector) <= (NumTracks - 1) * SeekTime
  {
    SettleBoundary(now, Seek(last, newSector));
    assert newSector / SectorsPerTrack < NumTracks && last / SectorsPerTrack < NumTracks;
  }

  lemma SettleBoundary(now: nat, seek: nat)
    ensures (now + seek + Settle(now, seek)) % RotationTime == 0 && Settle(now, seek) < RotationTime
  {
    var q := (now + seek) / RotationTime;
    var n := if (now + seek) % RotationTime == 0 then q else q + 1;
    assert now + seek + Settle(now, seek) == RotationTime * n;
    BoundaryOf(n);
  }

  /** The tracks between two sectors. */
  function Tracks(a: nat, b: nat): (n: nat)
    ensures n == a / 32 - b / 32 || n == b / 32 - a / 32
  {
    Abs(a / SectorsPerTrack - b / SectorsPerTrack)
  }

  /** The head reaches the track after 500 ticks for each track it crosses. */
  lemma SeekTakes(last: nat, newSector: nat)
    ensures Seek(last, newSector) == 500 * Tracks(last, newSector)
  {
  }

  /** A request the track buffer does not serve ends on a sector boundary just as the
      requested sector has passed the head, at the first such moment once the head has
      crossed the tracks between, at 500 ticks each; it takes from 500 to 31999 ticks. */
  lemma MediaExact(now: nat, last: nat, newSector: nat)
    requires last < NumSectors && newSector < NumSectors
    ensures FirstPass(now + 500 * Tracks(last, newSector), newSector, now + MediaLatency(now, last, newSector) - 500)
    ensures 500 <= MediaLatency(now, last, newSector) <= 31999
  {
    SeekTakes(last, newSector);
    var after := TimeAfter(now, last, newSector);
    var n := after / RotationTime;
    AfterBounds(now, last, newSector);
    ModuloDiffMeaning(newSector, n);
    var done := now + MediaLatency(now, last, newSector);
    BoundaryOf(n + ModuloDiff(newSector, n));
    forall t: nat | now + Seek(last, newSector) <= t && Passes(t, newSector) ensures done <= t + RotationTime {
      NextBoundary(now + Seek(last, newSector), after, t);
    }
  }

  lemma BoundaryOf(n: nat)
    ensures (RotationTime * n) % RotationTime == 0 && (RotationTime * n) / RotationTime == n
  {
  }

  /** A boundary at or after `from` is at or after the first one. */
  lemma NextBoundary(from: nat, after: nat, t: nat)
    requires after % RotationTime == 0 && t % RotationTime == 0 && from <= t && after < from + RotationTime
    ensures after <= t && after / RotationTime <= t / RotationTime
    ensures t == RotationTime * (t / RotationTime) && after == RotationTime * (after / RotationTime)
  {
  }

  /** A sector that begins to pass at `t`, in interval `n` or later, has passed by the next
      boundary. */
  lemma SeenBefore(from: nat, t: nat, after: nat, n: nat)
    requires from <= t < after && from % RotationTime == t % RotationTime == after % RotationTime == 0
    requires n <= t / RotationTime
    ensures RotationTime * n + RotationTime <= after
  {
    NextBoundary(t + 1, t + RotationTime, after);
  }

  /** The track buffer serves a read exactly when the head is on the track and, since
      bufferInit, the sector has begun to pass under it. */
  lemma BufferedExact(now: nat, last: nat, bufferInit: nat, newSector: nat)
    requires last < NumSectors && newSector < NumSectors && bufferInit % RotationTime == 0
    ensures Buffered(now, last, bufferInit, newSector, false) <==>
              && newSector / 32 == last / 32
              && exists t: nat :: bufferInit <= t < now && Passes(t, newSector)
  {
    var after, m := TimeAfter(now, last, newSector), bufferInit / RotationTime;
    var d := ModuloDiff(newSector, m);
    AfterBounds(now, last, newSector);
    ModuloDiffMeaning(newSector, m);
    BoundaryOf(m + d);
    WholeIntervals(bufferInit, after, d);
    if newSector / SectorsPerTrack == last / SectorsPerTrack {
      if t: nat :| bufferInit <= t < now && Passes(t, newSector) {
        SeenBefore(bufferInit, t, after, m + d);
      }
      assert RotationTime * (m + d) + RotationTime <= after ==> Passes(RotationTime * (m + d), newSector);
    }
  }

  /** More than `d` whole intervals lie between two boundaries exactly when the later is
      at least d + 1 intervals on. */
  lemma WholeIntervals(from: nat, to: nat, d: nat)
    requires from % RotationTime == 0 && to % RotationTime == 0
    ensures from == RotationTime * (from / RotationTime)
    ensures CDiv(to - from, RotationTime) > d <==> from + RotationTime * d + RotationTime <= to
  {
  }

  /** What ComputeLatency comes to: 500 ticks for a read of a sector that has begun to pass
      since the buffer started on this track; otherwise the request ends when the sector
      has passed for the first time after the seek. */
  lemma LatencyExact(now: nat, last: nat, bufferInit: nat, newSector: nat, writing: bool)
    requires last < NumSectors && newSector < NumSectors && bufferInit % RotationTime == 0
    ensures var ticks := Latency(now, last, bufferInit, newSector, writing);
            if !writing && newSector / 32 == last / 32 && exists t: nat :: bufferInit <= t < now && Passes(t, newSector)
            then ticks == 500
            else FirstPass(now + 500 * Tracks(last, newSector), newSector, now + ticks - 500)
  {
    BufferedExact(now, last, bufferInit, newSector);
    MediaExact(now, last, newSector);
  }

  /** Every request takes from 500 to 31999 ticks, and the track buffer never makes one
      slower. */
  lemma LatencyBounds(now: nat, last: nat, bufferInit: nat, newSector: nat, writing: bool)
    requires last < NumSectors && newSector < NumSectors
    ensures 500 <= Latency(now, last, bufferInit, newSector, writing) <= MediaLatency(now, last, newSector) <= 31999
  {
    MediaExact(now, last, newSector);
  }

  /** The track buffer has started at least one sector before the request is done. */
  lemma StartsInTime(now: nat, last: nat, newSector: nat, before: nat, after: nat, writing: bool)
    requires last < NumSectors && newSector < NumSectors && before % RotationTime == 0 && before <= now
    requires BufferStarts(now, last, newSector, before, after)
    ensures after % RotationTime == 0
    ensures after + RotationTime <= now + Latency(now, last, before, newSector, writing)
  {
    SeekTakes(last, newSector);
    LatencyBounds(now, last, before, newSector, writing);
    if Tracks(last, newSector) > 0 {
      MediaExact(now, last, newSector);
      NextBoundary(now + Seek(last, newSector), after, now + MediaLatency(now, last, newSector) - RotationTime);
    }
  }

  // ---------------------------------------------------------------- the device

  class Disk {
    /** The file that stands for the disk's surface. */
    var sectors: seq<seq<Byte>>
    /** How often the client's handler has been called. */
    var handled: nat
    var active: bool
    var lastSector: nat
    var bufferInit: nat
    ghost var doneAt: nat

    /** At time `now`: positions are in range, and the track buffer has started to fill
        unless the request that moved the head is still running. */
    ghost predicate Valid(now: nat)
      reads this
    {
      && |sectors| == NumSectors && lastSector < NumSectors && bufferInit % RotationTime == 0
      && (if active then bufferInit + RotationTime <= doneAt else bufferInit <= now)
    }

    constructor (now: nat, contents: seq<seq<Byte>>)
      requires |contents| == NumSectors
      ensures Valid(now) && !active && lastSector == 0 && bufferInit == 0 && handled == 0 && sectors == contents
    {
      sectors, handled := contents, 0;
      active, lastSector, bufferInit, doneAt := false, 0, 0, 0;
    }

    /** UpdateLast. */
    method UpdateLast(now: nat, newSector: nat)
      modifies this`lastSector, this`bufferInit
      ensures lastSector == newSector
      ensures BufferStarts(now, old(lastSector), newSector, old(bufferInit), bufferInit)
    {
      SeekTakes(lastSector, newSector);
      SettleBoundary(now, Seek(lastSector, newSector));
      var seek := Seek(lastSector, newSector);
      var rotate := Settle(now, seek);
      if seek != 0 {
        bufferInit := now + seek + rotate;
      }
      lastSector := newSector;
    }

    /** What ReadRequest and WriteRequest share: only when idle; the completion interrupt is
        due `ticks` from now. */
    method Request(now: nat, newSector: nat, writing: bool) returns (ticks: nat)
      requires Valid(now) && !active && newSector < NumSectors
      modifies this`active, this`lastSector, this`bufferInit, this`doneAt
      ensures Valid(now) && active && lastSector == newSector
      ensures BufferStarts(now, old(lastSector), newSector, old(bufferInit), bufferInit)
      ensures ticks == Latency(now, old(lastSector), old(bufferInit), newSector, writing) && doneAt == now + ticks
      ensures 500 <= ticks <= 31999
    {
      LatencyBounds(now, lastSector, bufferInit, newSector, writing);
      ghost var last, before := lastSector, bufferInit;
      ticks := Latency(now, lastSector, bufferInit, newSector, writing);
      active := true;
      UpdateLast(now, newSector);
      StartsInTime(now, last, newSector, before, bufferInit, writing);
      doneAt := now + ticks;
    }

    /** ReadRequest: the data is transferred at once, the interrupt comes later. */
    method ReadRequest(now: nat, sector: nat) returns (data: seq<Byte>, ticks: nat)
      requires Valid(now) && !active && sector < NumSectors
      modifies this`active, this`lastSector, this`bufferInit, this`doneAt
      ensures Valid(now) && active && lastSector == sector && data == sectors[sector]
      ensures BufferStarts(now, old(lastSector), sector, old(bufferInit), bufferInit)
      ensures ticks == Latency(now, old(lastSector), old(bufferInit), sector, false) && doneAt == now + ticks
    {
      data := sectors[sector];
      ticks := Request(now, sector, false);
    }

    /** WriteRequest. */
    method WriteRequest(now: nat, sector: nat, data: seq<Byte>) returns (ticks: nat)
      requires Valid(now) && !active && sector < NumSectors
      modifies this`sectors, this`active, this`lastSector, this`bufferInit, this`doneAt
      ensures Valid(now) && active && lastSector == sector && sectors == old(sectors)[sector := data]
      ensures BufferStarts(now, old(lastSector), sector, old(bufferInit), bufferInit)
      ensures ticks == Latency(now, old(lastSector), old(bufferInit), sector, true) && doneAt == now + ticks
    {
      sectors := sectors[sector := data];
      ticks := Request(now, sector, true);
    }

    /** HandleInterrupt, at or after the time the request was due: the client's handler is
        called with the disk idle again. */
    method HandleInterrupt(now: nat)
      requires Valid(now) && active && doneAt <= now
      modifies this`active, this`handled
      ensures Valid(now) && !active && handled == old(handled) + 1
    {
      active := false;
      handled := handled + 1;
    }
  }
}
