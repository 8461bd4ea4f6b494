/**
 What an unsafe SaveState costs: a page whose dirty mark is forgotten is dropped by the next
 eviction that picks it, and then reads as the executable again.  A run in which that
 happens is given for every executable with code.
 */
module PagerLoss {
  import opened Basics
  import opened PagerState
  import opened PagerSpec
  import opened PagerProofs
  import opened PagerAccess
  import opened PagerSwitch
  import opened PagerRuns
  import opened PagerLayout
  import Clock

  // ---------------------------------------------------------------- an absent, clean page

  /** The page is absent and clean, and the executable supplies byte `o` of it. */
  ghost predicate FromFile(s: State, p: PageRef, o: nat) {
    && p in s.pageTable && !s.pageTable[p].valid && !s.pageTable[p].dirty && p.vpn >= 0 && o < PageSize
    && p.space < |s.programs| && p.vpn < s.programs[p.space].noInitData
    && s.programs[p.space].codeInFile + PageSize * p.vpn + o < |s.programs[p.space].image|
  }

  function FileByte(s: State, p: PageRef, o: nat): (b: Byte)
    requires p.space < |s.programs| && p.vpn >= 0
    requires s.programs[p.space].codeInFile + PageSize * p.vpn + o < |s.programs[p.space].image|
  {
    s.programs[p.space].image[s.programs[p.space].codeInFile + PageSize * p.vpn + o]
  }

  /** The page's frame holds byte `b` at offset `o`. */
  ghost predicate InFrame(s: State, p: PageRef, o: nat, b: Byte) {
    p in s.pageTable && s.pageTable[p].valid && ByteAt(s.memory, s.pageTable[p].physicalPage, o, b)
  }

  lemma ContentsFromFile(s: State, p: PageRef, f: nat, o: nat)
    requires Fetchable(s, p) && FromFile(s, p, o) && f < NumPhysPages
    ensures Contents(s, p, f)[o] == FileByte(s, p, o)
  {
  }

  lemma FetchedByte(s: State, p: PageRef, f: nat, o: nat)
    requires Fetchable(s, p) && FromFile(s, p, o) && f < NumPhysPages
    ensures InFrame(Fetched(s, p, f), p, o, FileByte(s, p, o))
  {
    ContentsFromFile(s, p, f, o);
    OwnPage(s.memory, f, Contents(s, p, f), o);
  }

  /** The TLB clock moves no page. */
  lemma InstallStays(s: State, p: PageRef, o: nat, b: Byte)
    requires Inv(s) && InFrame(s, p, o, b)
    ensures InFrame(Install(s, p), p, o, b)
  {
    TlbClockKeeps(s, map[]);
    assert TlbClock(s).pageTable[p].physicalPage == s.pageTable[p].physicalPage;
  }

  lemma FetchInstallByte(s: State, p: PageRef, f: nat, o: nat)
    requires Inv(s) && FromFile(s, p, o) && f < NumPhysPages && !s.memMap[f]
    ensures InFrame(Install(Fetched(s, p, f), p), p, o, FileByte(s, p, o))
  {
    FetchedInv(s, p, f);
    FetchedByte(s, p, f, o);
    InstallStays(Fetched(s, p, f), p, o, FileByte(s, p, o));
  }

  lemma StaysFromFile(s: State, t: State, p: PageRef, o: nat)
    requires Inv(s) && Inv(t) && AbsentStay(s, t) && t.programs == s.programs && FromFile(s, p, o)
    ensures FromFile(t, p, o) && FileByte(t, p, o) == FileByte(s, p, o)
  {
    assert p in t.pageTable;
  }

  lemma EvictedFromFile(s: State, p: PageRef, o: nat, t: State)
    requires Inv(s) && FromFile(s, p, o) && FirstClear(s.memMap) == -1 && CanEvict(s)
    requires t == Evicted(s, Anonymous(s, p))
    ensures Inv(t) && FromFile(t, p, o) && FileByte(t, p, o) == FileByte(s, p, o) && !t.memMap[VictimFrame(s)]
  {
    EvictedKeeps(s, Anonymous(s, p), map[]);
    StaysFromFile(s, t, p, o);
  }

  lemma LoadedByte(s: State, p: PageRef, o: nat, t: State)
    requires Loadable(s, p) && FromFile(s, p, o) && t == Loaded(s, p)
    ensures InFrame(t, p, o, FileByte(s, p, o))
  {
    if FirstClear(s.memMap) != -1 {
      FetchInstallByte(s, p, FirstClear(s.memMap), o);
    } else {
      var u := Evicted(s, Anonymous(s, p));
      EvictedFromFile(s, p, o, u);
      FetchInstallByte(u, p, VictimFrame(s), o);
    }
  }

  lemma ReadInFrame(t: State, addr: nat, b: Byte)
    requires Inv(t) && InSpace(t, addr) && ReadMem(t, addr, 1).Done?
    requires InFrame(t, PageRef(t.current, addr / PageSize), addr % PageSize, b)
    ensures ReadMem(t, addr, 1).value == Decode([b])
  {
    SlotFacts(t, addr, 1);
    var a := Physical(t, addr);
    assert t.memory[a..a + 1] == [t.memory[a]];
  }

  lemma AbsentFaults(s: State, addr: nat) returns (t: State)
    requires Inv(s) && InSpace(s, addr) && SafeRead(s, addr, 1).Done?
    requires !s.pageTable[PageRef(s.current, addr / PageSize)].valid
    ensures Loadable(s, PageRef(s.current, addr / PageSize)) && t == Loaded(s, PageRef(s.current, addr / PageSize))
    ensures Inv(t) && InSpace(t, addr) && t.current == s.current && ReadMem(t, addr, 1) == SafeRead(s, addr, 1)
  {
    var p := PageRef(s.current, addr / PageSize);
    AbsentUncached(s, p);
    SlotOfCached(s, p);
    FaultLoads(s, addr);
    t := Fault(s, addr).after;
    FaultKeeps(s, addr, 1, map[]);
    SecondRead(s, addr, 1, t);
  }

  /** In every state: an absent, clean page reads as the executable, whatever was ever
      written to it. */
  lemma AbsentCleanReads(s: State, addr: nat)
    requires Inv(s) && InSpace(s, addr) && SafeRead(s, addr, 1).Done?
    requires FromFile(s, PageRef(s.current, addr / PageSize), addr % PageSize)
    ensures SafeRead(s, addr, 1).value == Decode([FileByte(s, PageRef(s.current, addr / PageSize), addr % PageSize)])
  {
    var p, o := PageRef(s.current, addr / PageSize), addr % PageSize;
    var t := AbsentFaults(s, addr);
    LoadedByte(s, p, o, t);
    ReadInFrame(t, addr, FileByte(s, p, o));
  }

  // ---------------------------------------------------------------- a clean victim

  /** In every state: a resident page that is clean and not in the TLB is dropped, not
      written to swap, when it is the victim. */
  lemma CleanVictimDropped(s: State, anonymous: bool)
    requires Inv(s) && FirstClear(s.memMap) == -1 && CanEvict(s)
    requires !s.pageTable[VictimPage(s)].dirty && !InTlb(s, VictimPage(s))
    ensures var t, p := Evicted(s, anonymous), VictimPage(s);
            && p in t.pageTable && !t.pageTable[p].valid && !t.pageTable[p].dirty
            && t.tlb == s.tlb && t.swapMap == s.swapMap
  {
    var f, p, u := VictimFrame(s), VictimPage(s), FrameClock(s);
    assert s.memMap[f];
    assert OwnsFrame(s, p, f);
    assert u.pageTable[p].physicalPage == f && u.tlb == s.tlb && !u.pageTable[p].dirty;
    var k := SlotWithFrame(s.tlb, f, 0);
    if k != -1 {
      assert OwnsFrame(s, PageRef(s.current, s.tlb[k].virtualPage), f);
      assert Cached(s, p, k);
    }
    assert Chosen(s) == u;
  }

  // ---------------------------------------------------------------- a run that loses a write

  function Page(i: int): (p: PageRef) {
    PageRef(0, i)
  }

  /** Slots as the allocator may return them: all naming page 0. */
  function StaleTlb(): (r: seq<Entry>) {
    var e := Entry(0, 0, false, false, false, false);
    [e, e, e, e]
  }

  /** One space, running; the first `j` frames hold pages 0 to j-1, the clock is at its
      start, and no use bit among the first five pages is set in the page table. */
  ghost predicate Filling(s: State, pr: Program, j: nat) {
    && Inv(s) && s.programs == [pr] && s.current == 0 && pr.numPages >= 8 && s.frameHand == 0 && !s.swapMap[0]
    && (forall f :: 0 <= f < NumPhysPages ==> (s.memMap[f] <==> f < j))
    && (forall i :: 0 <= i < 5 ==> Page(i) in s.pageTable && !s.pageTable[Page(i)].use)
    && (forall i :: 0 <= i < 5 ==>
          if i < j then OwnsFrame(s, Page(i), i) else !s.pageTable[Page(i)].valid)
  }

  /** Besides, page 0 is taken for clean and out of the TLB, which has room. */
  ghost predicate Forgotten(s: State, pr: Program, j: nat) {
    && 1 <= j && Filling(s, pr, j) && !s.pageTable[Page(0)].dirty
    && (forall k :: 0 <= k < TLBSize && s.tlb[k].valid ==> s.tlb[k].virtualPage != 0)
    && (forall k :: j - 1 <= k < TLBSize ==> !s.tlb[k].valid)
  }

  lemma FillingNamed(s: State, pr: Program, j: nat, i: nat)
    requires Filling(s, pr, j) && i < j <= NumPhysPages
    ensures s.ipt[i] == Some(Page(i))
  {
    assert OwnsFrame(s, Page(i), i);
  }

  /** With a slot to spare the TLB clock does not turn. */
  lemma SlotToSpare(s: State, j: nat)
    requires |s.tlb| == TLBSize && s.tlbHand < TLBSize && j < TLBSize && !s.tlb[j].valid
    ensures TlbClock(s) == s && FreeSlot(s) <= j && !s.tlb[FreeSlot(s)].valid
  {
    assert !SlotValids(s.tlb)[j];
  }

  /** Loading the next page into the next frame. */
  lemma FillNext(s: State, pr: Program, j: nat, k: nat)
    requires Filling(s, pr, j) && j < NumPhysPages && k < TLBSize && !s.tlb[k].valid
    ensures Loadable(s, Page(j)) && Filling(Loaded(s, Page(j)), pr, j + 1)
    ensures var t, e := Loaded(s, Page(j)), s.pageTable[Page(j)].(valid := true, physicalPage := j);
            && t.pageTable == s.pageTable[Page(j) := e]
            && exists f :: 0 <= f <= k && !s.tlb[f].valid && t.tlb == s.tlb[f := e]
  {
    var p := Page(j);
    FirstFreeFrame(s.memMap, j);
    LoadReady(s, p);
    AbsentUncached(s, p);
    var u, t := Fetched(s, p, j), Loaded(s, p);
    LoadedKeeps(s, p, map[]);
    FillsFree(s, pr, j, k, u);
    FilledShape(s, t, pr, j);
  }

  lemma FirstFreeFrame(bits: seq<bool>, j: nat)
    requires j < |bits| && forall f :: 0 <= f < |bits| ==> (bits[f] <==> f < j)
    ensures FirstClear(bits) == j
  {
    assert !bits[j];
  }

  lemma FillsFree(s: State, pr: Program, j: nat, k: nat, u: State)
    requires Filling(s, pr, j) && j < NumPhysPages && k < TLBSize && !s.tlb[k].valid && u == Fetched(s, Page(j), j)
    ensures var e := s.pageTable[Page(j)].(valid := true, physicalPage := j);
            && u.pageTable == s.pageTable[Page(j) := e] && u.tlb == s.tlb && !u.swapMap[0]
            && Install(u, Page(j)) == u.(tlb := s.tlb[FreeSlot(u) := e])
            && FreeSlot(u) <= k && !s.tlb[FreeSlot(u)].valid
  {
    assert u.tlb == s.tlb;
    SlotToSpare(u, k);
  }

  lemma FilledPage(s: State, t: State, j: nat, i: nat)
    requires Page(i) in s.pageTable && Page(j) in s.pageTable && !s.pageTable[Page(i)].use
    requires if i < j then OwnsFrame(s, Page(i), i) else !s.pageTable[Page(i)].valid
    requires t.pageTable == s.pageTable[Page(j) := s.pageTable[Page(j)].(valid := true, physicalPage := j)]
    ensures Page(i) in t.pageTable && !t.pageTable[Page(i)].use
    ensures if i < j + 1 then OwnsFrame(t, Page(i), i) else !t.pageTable[Page(i)].valid
  {
  }

  lemma FilledShape(s: State, t: State, pr: Program, j: nat)
    requires Filling(s, pr, j) && j < NumPhysPages && Inv(t) && t.programs == s.programs && t.current == s.current
    requires t.frameHand == s.frameHand && t.memMap == s.memMap[j := true] && !t.swapMap[0]
    requires t.pageTable == s.pageTable[Page(j) := s.pageTable[Page(j)].(valid := true, physicalPage := j)]
    ensures Filling(t, pr, j + 1)
  {
    forall i | 0 <= i < 5
      ensures Page(i) in t.pageTable && !t.pageTable[Page(i)].use
      ensures if i < j + 1 then OwnsFrame(t, Page(i), i) else !t.pageTable[Page(i)].valid
    {
      FilledPage(s, t, j, i);
    }
  }

  lemma TouchedFilling(s: State, pr: Program, j: nat, addr: nat, writing: bool)
    requires Filling(s, pr, j) && InSpace(s, addr) && SlotOf(s.tlb, addr / PageSize, 0) != -1
    ensures Filling(Touched(s, addr, writing), pr, j)
  {
    TouchedKeeps(s, addr, 1, writing, map[]);
    var t := Touched(s, addr, writing);
    forall i | 0 <= i < 5 && i < j ensures OwnsFrame(t, Page(i), i) {
      assert OwnsFrame(s, Page(i), i);
    }
  }

  /** While a frame is free, references complete. */
  lemma FillingCompletes(s: State, pr: Program, j: nat, addr: nat, value: int)
    requires Filling(s, pr, j) && j < NumPhysPages && InSpace(s, addr)
    ensures SafeRead(s, addr, 1).Done? && SafeWrite(s, addr, 1, value).Done?
  {
    assert !s.memMap[j];
    SafeReadCompletes(s, addr, 1);
    SafeWriteCompletes(s, addr, 1, value);
  }

  lemma ForgottenNext(s: State, t: State, pr: Program, j: nat, e: Entry, f: nat)
    requires Forgotten(s, pr, j) && j < NumPhysPages && Filling(t, pr, j + 1)
    requires e.virtualPage == j && t.pageTable == s.pageTable[Page(j) := e]
    requires f <= j - 1 && t.tlb == s.tlb[f := e]
    ensures Forgotten(t, pr, j + 1)
  {
    assert t.pageTable[Page(0)] == s.pageTable[Page(0)];
  }

  lemma LoadForgotten(s: State, pr: Program, j: nat, t: State)
    requires Forgotten(s, pr, j) && j < NumPhysPages && Loadable(s, Page(j)) && t == Loaded(s, Page(j))
    ensures Forgotten(t, pr, j + 1)
  {
    FillNext(s, pr, j, j - 1);
    var e := s.pageTable[Page(j)].(valid := true, physicalPage := j);
    assert e.virtualPage == j;
    var f :| 0 <= f <= j - 1 && !s.tlb[f].valid && t.tlb == s.tlb[f := e];
    ForgottenNext(s, t, pr, j, e, f);
  }

  lemma TouchedForgotten(s: State, pr: Program, j: nat, addr: nat)
    requires Forgotten(s, pr, j) && InSpace(s, addr) && SlotOf(s.tlb, addr / PageSize, 0) != -1
    ensures Forgotten(Touched(s, addr, false), pr, j)
  {
    TouchedFilling(s, pr, j, addr, false);
  }

  /** The second attempt of a read sets use bits of the TLB and nothing else. */
  lemma SecondIsTouched(u: State, addr: nat)
    requires Inv(u) && InSpace(u, addr) && ReadMem(u, addr, 1).Done?
    ensures SlotOf(u.tlb, addr / PageSize, 0) != -1 && ReadMem(u, addr, 1).after == Touched(u, addr, false)
  {
  }

  /** Referring to the next page. */
  lemma ReadNext(s: State, pr: Program, j: nat) returns (t: State, v: int)
    requires Forgotten(s, pr, j) && j < NumPhysPages
    ensures Takes(s, Read(PageSize * j, 1), t, v) && Forgotten(t, pr, j + 1)
  {
    var addr := PageSize * j;
    assert PageRef(s.current, addr / PageSize) == Page(j);
    assert !s.pageTable[Page(j)].valid;
    FillingCompletes(s, pr, j, addr, 0);
    var o := SafeRead(s, addr, 1);
    var u := AbsentFaults(s, addr);
    LoadForgotten(s, pr, j, u);
    SecondIsTouched(u, addr);
    TouchedForgotten(u, pr, j + 1, addr);
    t, v := o.after, o.value;
  }

  // ---------------------------------------------------------------- the eviction

  /** No use bit is set, so the clock takes the frame at its hand: page 0's. */
  lemma ForgottenVictim(s: State, pr: Program)
    requires Forgotten(s, pr, NumPhysPages)
    ensures FirstClear(s.memMap) == -1 && AllFramesNamed(s) && VictimPage(s) == Page(0) && !InTlb(s, Page(0))
  {
    FullyNamed(s);
    forall f | 0 <= f < NumPhysPages ensures !FrameUses(s)[f] {
      FillingNamed(s, pr, NumPhysPages, f);
    }
    assert Clock.Distance(FrameUses(s), 0) == 0;
    FillingNamed(s, pr, NumPhysPages, 0);
  }

  lemma ForgottenEvictable(s: State, pr: Program)
    requires Forgotten(s, pr, NumPhysPages)
    ensures FirstClear(s.memMap) == -1 && AllFramesNamed(s) && CanEvict(s) && !SwapExhausted(s)
  {
    ForgottenVictim(s, pr);
    var u := FrameClock(s);
    assert s.pageTable[Page(0)].physicalPage == 0 by { assert OwnsFrame(s, Page(0), 0); }
    CanEvictUnless(s);
    forall k | 0 <= k < TLBSize && s.tlb[k].valid ensures s.tlb[k].physicalPage != 0 {
      assert OwnsFrame(s, PageRef(0, s.tlb[k].virtualPage), s.tlb[k].physicalPage);
    }
    assert Chosen(s) == u && !u.pageTable[Page(0)].dirty;
  }

  /** The page was dropped. */
  ghost predicate Lost(s: State, pr: Program) {
    && Inv(s) && s.programs == [pr] && s.current == 0 && Page(0) in s.pageTable
    && !s.pageTable[Page(0)].valid && !s.pageTable[Page(0)].dirty && !s.swapMap[0]
  }

  lemma EvictedLost(s: State, pr: Program, anonymous: bool, t: State)
    requires Forgotten(s, pr, NumPhysPages) && CanEvict(s) && t == Evicted(s, anonymous)
    ensures Lost(t, pr) && t.tlb == s.tlb
  {
    ForgottenVictim(s, pr);
    CleanVictimDropped(s, anonymous);
    EvictedKeeps(s, anonymous, map[]);
  }

  /** Another page's fetch leaves page 0 lost. */
  lemma FetchedLost(s: State, pr: Program, p: PageRef, f: nat)
    requires Lost(s, pr) && p in s.pageTable && p != Page(0) && !s.pageTable[p].valid
    requires f < NumPhysPages && !s.memMap[f]
    ensures Lost(Fetched(s, p, f), pr) && Fetched(s, p, f).tlb == s.tlb
  {
    FetchedInv(s, p, f);
  }

  lemma InstallLost(s: State, pr: Program, p: PageRef)
    requires Lost(s, pr) && p in s.pageTable && !s.tlb[3].valid && Inv(Install(s, p))
    ensures Lost(Install(s, p), pr)
  {
    SlotToSpare(s, 3);
  }

  lemma FetchInstallLost(s: State, pr: Program, p: PageRef, f: nat)
    requires Lost(s, pr) && p in s.pageTable && p != Page(0) && p.space == 0 && !s.pageTable[p].valid
    requires f < NumPhysPages && !s.memMap[f] && !s.tlb[3].valid
    ensures Lost(Install(Fetched(s, p, f), p), pr)
  {
    AbsentUncached(s, p);
    FetchInstallKeeps(s, p, f, map[]);
    FetchedLost(s, pr, p, f);
    InstallLost(Fetched(s, p, f), pr, p);
  }

  lemma LoadLoses(s: State, pr: Program, t: State)
    requires Forgotten(s, pr, NumPhysPages) && Loadable(s, Page(4)) && t == Loaded(s, Page(4))
    ensures Lost(t, pr)
  {
    ForgottenEvictable(s, pr);
    assert !s.pageTable[Page(4)].valid;
    var u := Evicted(s, Anonymous(s, Page(4)));
    EvictedReady(s, Page(4));
    EvictedLost(s, pr, Anonymous(s, Page(4)), u);
    FetchInstallLost(u, pr, Page(4), VictimFrame(s));
  }

  lemma TouchedLost(s: State, pr: Program, addr: nat)
    requires Lost(s, pr) && InSpace(s, addr) && SlotOf(s.tlb, addr / PageSize, 0) != -1
    ensures Lost(Touched(s, addr, false), pr)
  {
    TouchedKeeps(s, addr, 1, false, map[]);
  }

  lemma ReadEvicting(s: State, pr: Program) returns (t: State, v: int)
    requires Forgotten(s, pr, NumPhysPages)
    ensures Takes(s, Read(PageSize * 4, 1), t, v) && Lost(t, pr)
  {
    var addr := PageSize * 4;
    assert PageRef(s.current, addr / PageSize) == Page(4);
    assert !s.pageTable[Page(4)].valid;
    ForgottenEvictable(s, pr);
    SafeReadCompletes(s, addr, 1);
    var o := SafeRead(s, addr, 1);
    var u := AbsentFaults(s, addr);
    LoadLoses(s, pr, u);
    SecondIsTouched(u, addr);
    TouchedLost(u, pr, addr);
    t, v := o.after, o.value;
  }

  // ---------------------------------------------------------------- the write and the switch

  lemma WriteFaults(s: State, addr: nat, value: int) returns (t: State)
    requires Inv(s) && InSpace(s, addr) && SafeWrite(s, addr, 1, value).Done?
    requires !s.pageTable[PageRef(s.current, addr / PageSize)].valid
    ensures Loadable(s, PageRef(s.current, addr / PageSize)) && t == Loaded(s, PageRef(s.current, addr / PageSize))
    ensures Inv(t) && InSpace(t, addr) && WriteMem(t, addr, 1, value) == SafeWrite(s, addr, 1, value)
  {
    var p := PageRef(s.current, addr / PageSize);
    AbsentUncached(s, p);
    SlotOfCached(s, p);
    FaultLoads(s, addr);
    t := Fault(s, addr).after;
    FaultKeeps(s, addr, 1, map[]);
    SecondWrite(s, addr, 1, value, t);
  }

  lemma SecondWrites(u: State, addr: nat, value: int)
    requires Inv(u) && InSpace(u, addr) && WriteMem(u, addr, 1, value).Done?
    ensures SlotOf(u.tlb, addr / PageSize, 0) != -1
    ensures var t := WriteMem(u, addr, 1, value).after;
            t == Touched(u, addr, true).(memory := t.memory) && |t.memory| == |u.memory|
  {
    SlotFacts(u, addr, 1);
  }

  lemma StoredFilling(s: State, t: State, pr: Program)
    requires Filling(s, pr, 1) && |t.memory| == MemorySize && t == s.(memory := t.memory)
    ensures Filling(t, pr, 1)
  {
    MemoryFree(s, t.memory);
    assert OwnsFrame(s, Page(0), 0);
  }

  /** A write to page 0 of a machine just booted leaves its dirty mark in TLB slot 0 alone. */
  lemma FirstWrite(s: State, pr: Program, addr: nat, value: Byte) returns (t: State)
    requires Filling(s, pr, 0) && addr < PageSize && s.tlb == StaleTlb()
    ensures Takes(s, Write(addr, 1, value), t, value) && Filling(t, pr, 1)
    ensures t.tlb[0].virtualPage == 0 && t.tlb[1..] == StaleTlb()[1..]
  {
    assert PageRef(s.current, addr / PageSize) == Page(0);
    assert !s.pageTable[Page(0)].valid;
    FillingCompletes(s, pr, 0, addr, value);
    t := SafeWrite(s, addr, 1, value).after;
    var u := WriteFaults(s, addr, value);
    FirstFill(s, pr, u);
    SecondWrites(u, addr, value);
    WrittenFirst(u, t, pr, addr);
  }

  lemma FirstFill(s: State, pr: Program, u: State)
    requires Filling(s, pr, 0) && s.tlb == StaleTlb() && Loadable(s, Page(0)) && u == Loaded(s, Page(0))
    ensures Filling(u, pr, 1) && |u.tlb| == TLBSize
    ensures u.tlb == StaleTlb()[0 := u.tlb[0]] && u.tlb[0].virtualPage == 0
  {
    FillNext(s, pr, 0, 0);
    assert s.pageTable[Page(0)].virtualPage == 0;
  }

  lemma WrittenFirst(u: State, t: State, pr: Program, addr: nat)
    requires Filling(u, pr, 1) && InSpace(u, addr) && addr < PageSize && SlotOf(u.tlb, addr / PageSize, 0) != -1
    requires |u.tlb| == TLBSize && u.tlb == StaleTlb()[0 := u.tlb[0]] && u.tlb[0].virtualPage == 0
    requires t == Touched(u, addr, true).(memory := t.memory) && |t.memory| == |u.memory|
    ensures Filling(t, pr, 1) && t.tlb[0].virtualPage == 0 && t.tlb[1..] == StaleTlb()[1..]
  {
    TouchedFilling(u, pr, 1, addr, true);
    StoredFilling(Touched(u, addr, true), t, pr);
    FirstTlb(u, t, addr);
  }

  lemma FirstTlb(u: State, t: State, addr: nat)
    requires |u.tlb| == TLBSize && u.tlb == StaleTlb()[0 := u.tlb[0]] && u.tlb[0].virtualPage == 0 && addr < PageSize
    requires SlotOf(u.tlb, addr / PageSize, 0) != -1 && t.tlb == Touched(u, addr, true).tlb
    ensures t.tlb[0].virtualPage == 0 && t.tlb[1..] == StaleTlb()[1..]
  {
    assert forall k :: 1 <= k < TLBSize ==> !u.tlb[k].valid;
    assert SlotOf(u.tlb, addr / PageSize, 0) == 0;
  }

  /** SaveState takes page 0's bits from slot 3, which is stale and clean. */
  lemma SwitchForgets(s: State, pr: Program) returns (t: State)
    requires Filling(s, pr, 1) && s.tlb[0].virtualPage == 0 && s.tlb[1..] == StaleTlb()[1..]
    ensures Takes(s, Switch(0, StaleTlb(), StaleTlb()), t, 0) && Forgotten(t, pr, 1)
  {
    t := Switched(s, 0, StaleTlb(), StaleTlb());
    assert forall k :: 1 <= k < TLBSize ==> s.tlb[k] == s.tlb[1..][k - 1];
    assert OwnsFrame(s, Page(0), 0);
    SwitchedResident(s, 0, StaleTlb(), StaleTlb());
    forall i | 0 <= i < 5
      ensures var e := s.pageTable[Page(i)]; t.pageTable[Page(i)] == if i == 0 then e.(dirty := false) else e
    {
      SwitchedEntry(s, 0, StaleTlb(), StaleTlb(), Page(i));
    }
    assert OwnsFrame(t, Page(0), 0);
  }

  // ---------------------------------------------------------------- the whole run

  /** The operation takes the machine from `s` to `t`; a switch need not be safe. */
  ghost predicate Takes(s: State, op: Op, t: State, v: int) {
    Inv(s) && Callable(s, op) && Exec(s, op) == Done(t, v)
  }

  /** The machine performs `ops` through the states `ss`. */
  ghost predicate Performs(ss: seq<State>, ops: seq<Op>, values: seq<int>)
    decreases |ops|
  {
    && |ss| == |ops| + 1 && |values| == |ops|
    && (ops != [] ==> Takes(ss[0], ops[0], ss[1], values[0]) && Performs(ss[1..], ops[1..], values[1..]))
  }

  lemma PerformsFirst(s: State, op: Op, v: int, ss: seq<State>, ops: seq<Op>, values: seq<int>)
    requires Performs(ss, ops, values) && Takes(s, op, ss[0], v)
    ensures Performs([s] + ss, [op] + ops, [v] + values)
  {
    assert ([s] + ss)[1..] == ss && ([op] + ops)[1..] == ops && ([v] + values)[1..] == values;
  }

  /** Refer to page 4, which takes page 0's frame, and to the address written; to page 3
      before that, to page 2, and to page 1. */
  function Reads4(addr: nat): seq<Op> { [Read(PageSize * 4, 1)] + [Read(addr, 1)] }

  function Reads3(addr: nat): seq<Op> { [Read(PageSize * 3, 1)] + Reads4(addr) }

  function Reads2(addr: nat): seq<Op> { [Read(PageSize * 2, 1)] + Reads3(addr) }

  function Reads1(addr: nat): seq<Op> { [Read(PageSize * 1, 1)] + Reads2(addr) }

  /** Write, give the CPU to a kernel thread and get it back, refer to four more pages, read
      again. */
  function LosingOps(addr: nat, value: Byte): (ops: seq<Op>)
    ensures |ops| == 7
  {
    [Write(addr, 1, value)] + ([Switch(0, StaleTlb(), StaleTlb())] + Reads1(addr))
  }

  lemma BootFilling(h: Header, image: seq<Byte>, memory: seq<Byte>, swap: seq<Byte>)
    requires |memory| == MemorySize && |swap| == SwapSize * PageSize
    ensures var s := Boot(Layout(h, image), memory, swap, StaleTlb());
            Filling(s, Layout(h, image), 0) && s.tlb == StaleTlb()
  {
    LayoutCovers(h, image);
    BootInv(Layout(h, image), memory, swap, StaleTlb());
    var s := Boot(Layout(h, image), memory, swap, StaleTlb());
    forall i | 0 <= i < 5
      ensures Page(i) in s.pageTable && s.pageTable[Page(i)] == Entry(i, -1, false, false, false, false)
    {
    }
    assert s.tlb == StaleTlb();
  }

  lemma {:induction false} FlatQuiet(f: Flat, ops: seq<Op>)
    requires forall i :: 0 <= i < |ops| ==> ops[i].Read? || (ops[i].Switch? && ops[i].next == f.current)
    ensures FlatRun(f, ops) == f
    decreases |ops|
  {
    if ops != [] {
      assert FlatExec(f, ops[0]) == f;
      FlatQuiet(f, ops[1..]);
    }
  }

  /** What flat memory holds at the end of that run. */
  lemma FlatKeepsWrite(pr: Program, addr: nat, value: Byte)
    ensures var flat := FlatRun(Flat([pr], map[], 0), LosingOps(addr, value)[..6]);
            FlatValue(flat, Read(addr, 1)) == Some(Decode([value]))
  {
    var ops, f := LosingOps(addr, value)[..6], Flat([pr], map[], 0);
    var g := FlatExec(f, ops[0]);
    assert forall i :: 0 <= i < |ops[1..]| ==> ops[1..][i] == ops[i + 1];
    FlatQuiet(g, ops[1..]);
    EncodeBytes(value);
    assert KnownAt([pr], g.written, Loc(0, addr), 0) == Some(value);
    var b := Promised([pr], g.written, Loc(0, addr), 1);
    assert b.Some? && b.value == [value];
  }

  lemma DecodeByte(a: Byte, b: Byte)
    requires a != b
    ensures Decode([a]) != Decode([b])
  {
  }

  /** For every executable with code, every address of its first page that the file supplies
      and every value: the last read of this run returns the file's byte, where flat memory
      holds the value written.  If they differ, the write is lost. */
  lemma SaveStateLosesWrite(h: Header, image: seq<Byte>, memory: seq<Byte>, swap: seq<Byte>, addr: nat, value: Byte)
    returns (ss: seq<State>, values: seq<int>)
    requires |memory| == MemorySize && |swap| == SwapSize * PageSize
    requires h.code.size > 0 && addr < PageSize && h.code.inFileAddr + addr < |image|
    ensures Performs(ss, LosingOps(addr, value), values)
    ensures ss[0] == Boot(Layout(h, image), memory, swap, StaleTlb())
    ensures values[6] == Decode([image[h.code.inFileAddr + addr]])
    ensures var flat := FlatRun(Flat([Layout(h, image)], map[], 0), LosingOps(addr, value)[..6]);
            && FlatValue(flat, Read(addr, 1)) == Some(Decode([value]))
            && (image[h.code.inFileAddr + addr] != value ==> FlatValue(flat, Read(addr, 1)) != Some(values[6]))
  {
    var pr := Layout(h, image);
    var s0 := Boot(pr, memory, swap, StaleTlb());
    LayoutCovers(h, image);
    BootFilling(h, image, memory, swap);
    assert pr.image[pr.codeInFile + addr] == image[h.code.inFileAddr + addr];
    ss, values := LosingRun(s0, pr, addr, value);
    FlatKeepsWrite(pr, addr, value);
    if image[h.code.inFileAddr + addr] != value {
      DecodeByte(image[h.code.inFileAddr + addr], value);
    }
  }

  /** The last value read is the executable's byte. */
  ghost predicate EndsWith(values: seq<int>, pr: Program, addr: nat) {
    && pr.codeInFile + addr < |pr.image| && values != []
    && values[|values| - 1] == Decode([pr.image[pr.codeInFile + addr]])
  }

  lemma EndsFirst(v: int, values: seq<int>, pr: Program, addr: nat)
    requires EndsWith(values, pr, addr)
    ensures EndsWith([v] + values, pr, addr)
  {
  }

  lemma LosingRun(s: State, pr: Program, addr: nat, value: Byte) returns (ss: seq<State>, values: seq<int>)
    requires Filling(s, pr, 0) && s.tlb == StaleTlb()
    requires addr < PageSize && pr.noInitData > 0 && pr.codeInFile + addr < |pr.image|
    ensures Performs(ss, LosingOps(addr, value), values) && ss[0] == s
    ensures EndsWith(values, pr, addr)
  {
    var t := FirstWrite(s, pr, addr, value);
    ss, values := LosingSwitch(t, pr, addr);
    PerformsFirst(s, Write(addr, 1, value), value, ss, [Switch(0, StaleTlb(), StaleTlb())] + Reads1(addr), values);
    EndsFirst(value, values, pr, addr);
    ss, values := [s] + ss, [value as int] + values;
  }

  lemma LosingSwitch(s: State, pr: Program, addr: nat) returns (ss: seq<State>, values: seq<int>)
    requires Filling(s, pr, 1) && s.tlb[0].virtualPage == 0 && s.tlb[1..] == StaleTlb()[1..]
    requires addr < PageSize && pr.noInitData > 0 && pr.codeInFile + addr < |pr.image|
    ensures Performs(ss, [Switch(0, StaleTlb(), StaleTlb())] + Reads1(addr), values) && ss[0] == s
    ensures EndsWith(values, pr, addr)
  {
    var t := SwitchForgets(s, pr);
    ss, values := From1(t, pr, addr);
    PerformsFirst(s, Switch(0, StaleTlb(), StaleTlb()), 0, ss, Reads1(addr), values);
    EndsFirst(0, values, pr, addr);
    ss, values := [s] + ss, [0] + values;
  }

  lemma ReadFirst(s: State, a: nat, t: State, v: int,
                  ss: seq<State>, ops: seq<Op>, values: seq<int>, pr: Program, addr: nat)
    requires Takes(s, Read(a, 1), t, v) && Performs(ss, ops, values) && ss[0] == t && EndsWith(values, pr, addr)
    ensures Performs([s] + ss, [Read(a, 1)] + ops, [v] + values) && EndsWith([v] + values, pr, addr)
  {
    PerformsFirst(s, Read(a, 1), v, ss, ops, values);
  }

  lemma From1(s: State, pr: Program, addr: nat) returns (ss: seq<State>, values: seq<int>)
    requires Forgotten(s, pr, 1)
    requires addr < PageSize && pr.noInitData > 0 && pr.codeInFile + addr < |pr.image|
    ensures Performs(ss, Reads1(addr), values) && ss[0] == s && EndsWith(values, pr, addr)
  {
    var t, v := ReadNext(s, pr, 1);
    ss, values := From2(t, pr, addr);
    ReadFirst(s, PageSize * 1, t, v, ss, Reads2(addr), values, pr, addr);
    ss, values := [s] + ss, [v] + values;
  }

  lemma From2(s: State, pr: Program, addr: nat) returns (ss: seq<State>, values: seq<int>)
    requires Forgotten(s, pr, 2)
    requires addr < PageSize && pr.noInitData > 0 && pr.codeInFile + addr < |pr.image|
    ensures Performs(ss, Reads2(addr), values) && ss[0] == s && EndsWith(values, pr, addr)
  {
    var t, v := ReadNext(s, pr, 2);
    ss, values := From3(t, pr, addr);
    ReadFirst(s, PageSize * 2, t, v, ss, Reads3(addr), values, pr, addr);
    ss, values := [s] + ss, [v] + values;
  }

  lemma From3(s: State, pr: Program, addr: nat) returns (ss: seq<State>, values: seq<int>)
    requires Forgotten(s, pr, 3)
    requires addr < PageSize && pr.noInitData > 0 && pr.codeInFile + addr < |pr.image|
    ensures Performs(ss, Reads3(addr), values) && ss[0] == s && EndsWith(values, pr, addr)
  {
    var t, v := ReadNext(s, pr, 3);
    ss, values := From4(t, pr, addr);
    ReadFirst(s, PageSize * 3, t, v, ss, Reads4(addr), values, pr, addr);
    ss, values := [s] + ss, [v] + values;
  }

  lemma From4(s: State, pr: Program, addr: nat) returns (ss: seq<State>, values: seq<int>)
    requires Forgotten(s, pr, 4)
    requires addr < PageSize && pr.noInitData > 0 && pr.codeInFile + addr < |pr.image|
    ensures Performs(ss, Reads4(addr), values) && ss[0] == s && EndsWith(values, pr, addr)
  {
    var t, v := ReadEvicting(s, pr);
    ss, values := FromLost(t, pr, addr);
    ReadFirst(s, PageSize * 4, t, v, ss, [Read(addr, 1)], values, pr, addr);
    ss, values := [s] + ss, [v] + values;
  }

  lemma FromLost(s: State, pr: Program, addr: nat) returns (ss: seq<State>, values: seq<int>)
    requires Lost(s, pr) && addr < PageSize && pr.noInitData > 0 && pr.codeInFile + addr < |pr.image|
    ensures Performs(ss, [Read(addr, 1)], values) && ss[0] == s && EndsWith(values, pr, addr)
  {
    var t, v := LastRead(s, pr, addr);
    assert Performs([t], [], []);
    PerformsFirst(s, Read(addr, 1), v, [t], [], []);
    ss, values := [s] + [t], [v] + [];
    assert [Read(addr, 1)] + [] == [Read(addr, 1)];
  }

  lemma LastRead(s: State, pr: Program, addr: nat) returns (t: State, v: int)
    requires Lost(s, pr) && addr < PageSize && pr.noInitData > 0 && pr.codeInFile + addr < |pr.image|
    ensures Takes(s, Read(addr, 1), t, v) && v == Decode([pr.image[pr.codeInFile + addr]])
  {
    assert PageRef(s.current, addr / PageSize) == Page(0) && addr % PageSize == addr;
    assert FirstClear(s.swapMap) != -1;
    SafeReadCompletes(s, addr, 1);
    t, v := SafeRead(s, addr, 1).after, SafeRead(s, addr, 1).value;
    assert FromFile(s, Page(0), addr);
    AbsentCleanReads(s, addr);
  }
}
