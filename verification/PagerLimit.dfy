/**
 How much can be written before swap runs out.  Frames and swap slots together hold
 SwapSize + NumPhysPages dirty pages and no more; at that many every reference to an absent
 page stops the machine, and a run that gets there is given for every large enough program.
 */
module PagerLimit {
  import opened Basics
  import opened PagerState
  import opened PagerSpec
  import opened PagerProofs
  import opened PagerAccess
  import opened PagerSwitch
  import opened PagerRuns
  import opened PagerLoss
  import Clock

  const Capacity := SwapSize + NumPhysPages

  // ---------------------------------------------------------------- counting

  ghost predicate Occupied(d: set<PageRef>, place: map<PageRef, int>, k: int) {
    exists p :: p in d && p in place && place[p] == k
  }

  /** Things at different places below `n` are at most `n`; if they are `n`, every place is
      taken. */
  lemma {:induction false} Placed(d: set<PageRef>, place: map<PageRef, int>, n: nat)
    requires d <= place.Keys && forall p :: p in d ==> 0 <= place[p] < n
    requires forall p, q :: p in d && q in d && place[p] == place[q] ==> p == q
    ensures |d| <= n
    ensures |d| == n ==> forall k :: 0 <= k < n ==> Occupied(d, place, k)
  {
    if n == 0 {
      forall p | p in d ensures false {}
      assert d == {};
    } else if Occupied(d, place, n - 1) {
      var p :| p in d && place[p] == n - 1;
      Placed(d - {p}, place, n - 1);
      assert |d| == |d - {p}| + 1;
      assert forall k :: Occupied(d - {p}, place, k) ==> Occupied(d, place, k);
    } else {
      Placed(d, place, n - 1);
    }
  }

  ghost function Dirties(s: State): (d: set<PageRef>) {
    set p | p in s.pageTable && Dirty(s, p)
  }

  ghost function Homes(s: State): (m: map<PageRef, int>) {
    map p | p in s.pageTable :: s.pageTable[p].physicalPage
  }

  /** The dirty pages in frames, and those in swap. */
  ghost function DirtyIn(s: State, resident: bool): (d: set<PageRef>) {
    set p | p in s.pageTable && Dirty(s, p) && s.pageTable[p].valid == resident
  }

  /** A dirty page that is absent owns a swap slot. */
  lemma AbsentDirty(s: State, p: PageRef)
    requires Inv(s) && Dirty(s, p) && !s.pageTable[p].valid
    ensures OwnsSlot(s, p, s.pageTable[p].physicalPage)
    ensures 0 <= s.pageTable[p].physicalPage < SwapSize && s.swapMap[s.pageTable[p].physicalPage]
  {
    AbsentUncached(s, p);
  }

  lemma DirtyFrames(s: State)
    requires Inv(s)
    ensures |DirtyIn(s, true)| <= NumPhysPages
    ensures |DirtyIn(s, true)| == NumPhysPages ==>
              forall f :: 0 <= f < NumPhysPages ==> s.memMap[f] && s.ipt[f].Some? && Dirty(s, s.ipt[f].value)
  {
    var d := DirtyIn(s, true);
    Placed(d, Homes(s), NumPhysPages);
    if |d| == NumPhysPages {
      forall f | 0 <= f < NumPhysPages ensures s.memMap[f] && s.ipt[f].Some? && Dirty(s, s.ipt[f].value) {
        assert Occupied(d, Homes(s), f);
        var p :| p in d && Homes(s)[p] == f;
        assert OwnsFrame(s, p, f);
      }
    }
  }

  lemma DirtySlots(s: State)
    requires Inv(s)
    ensures |DirtyIn(s, false)| <= SwapSize
    ensures |DirtyIn(s, false)| == SwapSize ==> FirstClear(s.swapMap) == -1
  {
    var d := DirtyIn(s, false);
    forall p | p in d ensures OwnsSlot(s, p, Homes(s)[p]) && 0 <= Homes(s)[p] < SwapSize && s.swapMap[Homes(s)[p]] {
      AbsentDirty(s, p);
    }
    Placed(d, Homes(s), SwapSize);
    if |d| == SwapSize {
      forall k | 0 <= k < SwapSize ensures s.swapMap[k] {
        assert Occupied(d, Homes(s), k);
        var p :| p in d && Homes(s)[p] == k;
      }
    }
  }

  /** In every reachable state at most Capacity pages are dirty, and when that many are, the
      next eviction finds no swap slot for its victim. */
  lemma DirtyLimit(s: State)
    requires Inv(s)
    ensures |Dirties(s)| <= Capacity
    ensures |Dirties(s)| == Capacity ==> SwapExhausted(s)
  {
    DirtyFrames(s);
    DirtySlots(s);
    var r, q := DirtyIn(s, true), DirtyIn(s, false);
    assert Dirties(s) == r + q && r !! q;
    assert |r + q| == |r| + |q|;
    if |Dirties(s)| == Capacity {
      FullyNamed(s);
      DirtyVictim(s);
    }
  }

  /** Choosing a dirty victim moves its mark to the page table. */
  lemma DirtyVictim(s: State)
    requires Inv(s) && FirstClear(s.memMap) == -1 && AllFramesNamed(s) && Dirty(s, VictimPage(s))
    ensures Chosen(s).pageTable[VictimPage(s)].dirty
  {
    ChosenKeeps(s, map[]);
    assert Dirty(Chosen(s), VictimPage(s));
  }

  // ---------------------------------------------------------------- whole runs

  /** The pages written to. */
  function WrittenPages(written: map<Loc, Byte>): (d: set<PageRef>) {
    set l | l in written :: PageOf(l)
  }

  /** No run gets further than Capacity pages written, and once that many have been, every
      reference to an absent page stops the machine. */
  lemma WriteLimit(s: State, f: Flat, ops: seq<Op>, t: State, values: seq<int>)
    requires Simulates(s, f) && Run(s, ops, t, values)
    ensures var d := WrittenPages(FlatRun(f, ops).written);
            |d| <= Capacity && (|d| == Capacity ==> Inv(t) && SwapExhausted(t))
  {
    PagingTransparent(s, f, ops, t, values);
    var d := WrittenPages(FlatRun(f, ops).written);
    assert d <= Dirties(t);
    SubsetSize(d, Dirties(t));
    DirtyLimit(t);
  }

  // ---------------------------------------------------------------- a run that gets there

  /** Absent and clean. */
  ghost predicate Quiet(s: State, q: PageRef) {
    q in s.pageTable && !s.pageTable[q].valid && !s.pageTable[q].dirty
  }

  lemma TlbSweptQuiet(s: State, j: nat, q: PageRef)
    requires Inv(s) && Quiet(s, q) && j <= TLBSize
    ensures TlbSwept(s, j).pageTable[q] == s.pageTable[q]
  {
    AbsentUncached(s, q);
    SlotOfCached(s, q);
  }

  lemma WriteBackQuiet(s: State, k: nat, use: bool, q: PageRef)
    requires Inv(s) && Quiet(s, q) && k < TLBSize && s.tlb[k].valid
    ensures WriteBack(s, k, use).pageTable[q] == s.pageTable[q]
  {
    AbsentUncached(s, q);
    assert Cached(s, PageRef(s.current, s.tlb[k].virtualPage), k);
  }

  lemma TlbClockQuiet(s: State, q: PageRef)
    requires Inv(s) && Quiet(s, q)
    ensures Quiet(TlbClock(s), q)
  {
    if FirstClear(SlotValids(s.tlb)) == -1 {
      var v := Clock.Victim(SlotUses(s.tlb), s.tlbHand);
      var t := TlbSwept(s, Clock.Distance(SlotUses(s.tlb), s.tlbHand));
      assert SlotValids(s.tlb)[v];
      TlbSweptQuiet(s, Clock.Distance(SlotUses(s.tlb), s.tlbHand), q);
      WriteBackQuiet(s, v, false, q);
      assert t.tlb[v].virtualPage == s.tlb[v].virtualPage;
    }
  }

  lemma FetchInstallQuiet(s: State, p: PageRef, f: nat, q: PageRef)
    requires Inv(s) && p in s.pageTable && !s.pageTable[p].valid && f < NumPhysPages && !s.memMap[f]
    requires Quiet(s, q) && q != p
    ensures Quiet(Install(Fetched(s, p, f), p), q)
  {
    FetchedInv(s, p, f);
    TlbClockQuiet(Fetched(s, p, f), q);
  }

  /** Loading a page leaves the others that are absent and clean alone. */
  lemma LoadedQuiet(s: State, p: PageRef, t: State, q: PageRef)
    requires Loadable(s, p) && !s.pageTable[p].valid && t == Loaded(s, p) && Quiet(s, q) && q != p
    ensures Quiet(t, q)
  {
    if FirstClear(s.memMap) != -1 {
      FetchInstallQuiet(s, p, FirstClear(s.memMap), q);
    } else {
      EvictedReady(s, p);
      EvictedKeeps(s, Anonymous(s, p), map[]);
      FetchInstallQuiet(Evicted(s, Anonymous(s, p)), p, VictimFrame(s), q);
    }
  }

  /** The first `j` pages have been written to, and no other page has been referenced. */
  ghost predicate Stage(s: State, pr: Program, j: nat) {
    && Inv(s) && s.programs == [pr] && s.current == 0 && Capacity <= pr.numPages && j <= Capacity
    && (forall i :: 0 <= i < j ==> Dirty(s, Page(i)))
    && (forall i :: j <= i < pr.numPages ==> Quiet(s, Page(i)))
  }

  function PagesBelow(j: nat): (d: set<PageRef>)
    ensures forall p :: p in d <==> p.space == 0 && 0 <= p.vpn < j
    ensures |d| == j
  {
    if j == 0 then {} else PagesBelow(j - 1) + {Page(j - 1)}
  }

  lemma InUse(s: State, pr: Program, j: nat, p: PageRef)
    requires Stage(s, pr, j) && p in s.pageTable && !Quiet(s, p)
    ensures p in PagesBelow(j)
  {
    assert p == Page(p.vpn);
  }

  /** Fewer than Capacity pages in use leave a frame or a swap slot. */
  lemma StageRoom(s: State, pr: Program, j: nat)
    requires Stage(s, pr, j) && j < Capacity
    ensures !SwapExhausted(s)
  {
    if FirstClear(s.memMap) == -1 && FirstClear(s.swapMap) == -1 {
      var r := ResidentPages(s, NumPhysPages);
      var q := SwappedPages(s, SwapSize);
      assert r !! q;
      assert |r + q| == |r| + |q|;
      forall p | p in r + q ensures p in PagesBelow(j) {
        InUse(s, pr, j, p);
      }
      SubsetSize(r + q, PagesBelow(j));
    }
  }

  lemma WrittenStage(u: State, t: State, pr: Program, j: nat)
    requires Inv(u) && u.programs == [pr] && u.current == 0 && j < Capacity <= pr.numPages
    requires InSpace(u, PageSize * j) && SlotOf(u.tlb, PageSize * j / PageSize, 0) != -1
    requires t == Touched(u, PageSize * j, true).(memory := t.memory) && |t.memory| == |u.memory|
    requires forall i :: 0 <= i < j ==> Dirty(u, Page(i))
    requires forall i :: j < i < pr.numPages ==> Quiet(u, Page(i))
    ensures Stage(t, pr, j + 1)
  {
    var v := Touched(u, PageSize * j, true);
    TouchedKeeps(u, PageSize * j, 1, true, map[]);
    MemoryFree(v, t.memory);
    assert PageRef(u.current, PageSize * j / PageSize) == Page(j);
    forall i | 0 <= i < j + 1 ensures Dirty(t, Page(i)) {
      assert Dirty(v, Page(i));
      assert forall k :: Cached(v, Page(i), k) ==> Cached(t, Page(i), k);
    }
  }

  lemma LoadedStage(s: State, u: State, pr: Program, j: nat)
    requires Stage(s, pr, j) && j < Capacity && Loadable(s, Page(j)) && u == Loaded(s, Page(j))
    ensures u.programs == [pr] && u.current == 0
    ensures forall i :: 0 <= i < j ==> Dirty(u, Page(i))
    ensures forall i :: j < i < pr.numPages ==> Quiet(u, Page(i))
  {
    assert Quiet(s, Page(j));
    AbsentUncached(s, Page(j));
    LoadKept(s, Page(j), u, map[]);
    forall i | j < i < pr.numPages ensures Quiet(u, Page(i)) {
      assert Quiet(s, Page(i));
      LoadedQuiet(s, Page(j), u, Page(i));
    }
  }

  lemma NextCompletes(s: State, pr: Program, j: nat, value: int)
    requires Stage(s, pr, j) && j < Capacity
    ensures InSpace(s, PageSize * j) && SafeWrite(s, PageSize * j, 1, value).Done?
  {
    StageRoom(s, pr, j);
    SafeWriteCompletes(s, PageSize * j, 1, value);
  }

  /** Writing the next page. */
  lemma NextWrite(s: State, pr: Program, j: nat, value: Byte) returns (t: State)
    requires Stage(s, pr, j) && j < Capacity
    ensures Takes(s, Write(PageSize * j, 1, value), t, value as int) && Stage(t, pr, j + 1)
  {
    var addr := PageSize * j;
    assert PageRef(s.current, addr / PageSize) == Page(j) && Quiet(s, Page(j));
    NextCompletes(s, pr, j, value as int);
    t := SafeWrite(s, addr, 1, value as int).after;
    var u := WriteFaults(s, addr, value as int);
    LoadedStage(s, u, pr, j);
    SecondWrites(u, addr, value as int);
    WrittenStage(u, t, pr, j);
  }

  /** Write the first byte of each page from `j` up to Capacity. */
  function WritesFrom(j: nat, value: Byte): (ops: seq<Op>)
    requires j <= Capacity
    decreases Capacity - j
  {
    if j == Capacity then [] else [Write(PageSize * j, 1, value as int)] + WritesFrom(j + 1, value)
  }

  lemma {:induction false} FillsUp(s: State, pr: Program, j: nat, value: Byte) returns (t: State, values: seq<int>)
    requires Stage(s, pr, j)
    ensures Run(s, WritesFrom(j, value), t, values) && Stage(t, pr, Capacity)
    decreases Capacity - j
  {
    if j == Capacity {
      t, values := s, [];
    } else {
      var u := NextWrite(s, pr, j, value);
      t, values := FillsUp(u, pr, j + 1, value);
      RunFirst(s, Write(PageSize * j, 1, value as int), u, value as int, WritesFrom(j + 1, value), t, values);
      values := [value as int] + values;
    }
  }

  lemma RunFirst(s: State, op: Op, u: State, v: int, ops: seq<Op>, t: State, values: seq<int>)
    requires Takes(s, op, u, v) && op.Write? && Inv(u) && Run(u, ops, t, values)
    ensures Run(s, [op] + ops, t, [v] + values)
  {
    assert ([op] + ops)[1..] == ops && ([v] + values)[1..] == values;
  }

  lemma BootStage(pr: Program, memory: seq<Byte>, swap: seq<Byte>, junk: seq<Entry>)
    requires ValidProgram(pr) && Capacity <= pr.numPages
    requires |memory| == MemorySize && |swap| == SwapSize * PageSize && |junk| == TLBSize
    ensures Stage(Boot(pr, memory, swap, junk), pr, 0)
  {
    BootInv(pr, memory, swap, junk);
  }

  lemma StageFull(t: State, pr: Program)
    requires Stage(t, pr, Capacity)
    ensures SwapExhausted(t)
  {
    forall p | p in PagesBelow(Capacity) ensures p in Dirties(t) {
      assert p == Page(p.vpn) && Dirty(t, Page(p.vpn));
    }
    SubsetSize(PagesBelow(Capacity), Dirties(t));
    DirtyLimit(t);
  }

  /** A reference to an absent page. */
  ghost predicate Misses(t: State, op: Op) {
    && (op.Read? || op.Write?) && ValidSize(op.size) && t.current < |t.programs| && InSpace(t, op.addr)
    && PageRef(t.current, op.addr / PageSize) in t.pageTable
    && !t.pageTable[PageRef(t.current, op.addr / PageSize)].valid
  }

  ghost predicate Stops(t: State, op: Op) {
    Inv(t) && Legal(t, op) && Exec(t, op).Stop?
  }

  /** Once swap is exhausted, every reference to an absent page stops the machine. */
  lemma MissStops(t: State, op: Op)
    requires Inv(t) && SwapExhausted(t) && Misses(t, op)
    ensures Stops(t, op)
  {
    match op
    case Read(addr, size) => SafeReadCompletes(t, addr, size);
    case Write(addr, size, value) => SafeWriteCompletes(t, addr, size, value);
  }

  /** A page in swap slot 0 is absent. */
  lemma SomeMiss(t: State, pr: Program) returns (op: Op)
    requires Inv(t) && t.programs == [pr] && t.current == 0 && t.swapMap[0]
    ensures Misses(t, op)
  {
    var p :| OwnsSlot(t, p, 0);
    op := Read(PageSize * p.vpn, 1);
    assert p == PageRef(0, op.addr / PageSize);
  }

  lemma StageStuck(t: State, pr: Program) returns (next: Op)
    requires Stage(t, pr, Capacity)
    ensures Misses(t, next) && forall op :: Misses(t, op) ==> Stops(t, op)
  {
    StageFull(t, pr);
    next := SomeMiss(t, pr);
    forall op | Misses(t, op) ensures Stops(t, op) {
      MissStops(t, op);
    }
  }

  /** The bound of NeverStops is tight: every program with Capacity pages or more, just
      booted, may write to its first Capacity pages in turn, and the next reference to a
      page that is absent by then, of which there are some, stops the machine. */
  lemma SwapRunsOut(pr: Program, memory: seq<Byte>, swap: seq<Byte>, junk: seq<Entry>, value: Byte)
    returns (t: State, values: seq<int>, next: Op)
    requires ValidProgram(pr) && Capacity <= pr.numPages
    requires |memory| == MemorySize && |swap| == SwapSize * PageSize && |junk| == TLBSize
    ensures var s := Boot(pr, memory, swap, junk); Inv(s) && Run(s, WritesFrom(0, value), t, values)
    ensures Misses(t, next) && forall op :: Misses(t, op) ==> Stops(t, op)
  {
    BootStage(pr, memory, swap, junk);
    t, values := FillsUp(Boot(pr, memory, swap, junk), pr, 0, value);
    next := StageStuck(t, pr);
  }
}
