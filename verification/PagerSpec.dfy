/**
 What each routine of the pager does to the state, as functions on values.  The
 clocks are given in closed form rather than as loops, and `Loaded` is AddrSpace::load
 with its twelve leaves factored into get-a-frame, fill-it, install-in-TLB.
 */
module PagerSpec {
  import opened Basics
  import opened PagerState
  import Clock

  // ---------------------------------------------------------------- frame clock

  function OwnerUses(s: State, f: nat): bool
    requires f < |s.ipt|
  {
    s.ipt[f].Some? && s.ipt[f].value in s.pageTable && s.pageTable[s.ipt[f].value].use
  }

  /** The use bits the frame clock looks at: those of the entries the inverted page
      table points to. */
  function FrameUses(s: State): (r: seq<bool>)
    requires |s.ipt| == NumPhysPages
    ensures |r| == NumPhysPages
  {
    seq(NumPhysPages, f requires 0 <= f < NumPhysPages => OwnerUses(s, f))
  }

  function Passed(s: State, e: Entry, j: nat): bool
    requires s.frameHand < NumPhysPages
  {
    e.valid && 0 <= e.physicalPage < NumPhysPages
    && Clock.Ahead(s.frameHand, e.physicalPage, NumPhysPages) < j
  }

  /** The frame clock after passing `j` frames: their owners' use bits are clear. */
  function FrameSwept(s: State, j: nat): (t: State)
    requires s.frameHand < NumPhysPages && j <= NumPhysPages
  {
    s.(pageTable := map p | p in s.pageTable ::
         if Passed(s, s.pageTable[p], j) then s.pageTable[p].(use := false) else s.pageTable[p],
       frameHand := Clock.Ring(s.frameHand, j, NumPhysPages))
  }

  function VictimFrame(s: State): (f: nat)
    requires |s.ipt| == NumPhysPages && s.frameHand < NumPhysPages
    ensures f < NumPhysPages
  {
    Clock.Victim(FrameUses(s), s.frameHand)
  }

  /** getNextSCSWAP: sweep to the victim and step past it. */
  function FrameClock(s: State): (t: State)
    requires |s.ipt| == NumPhysPages && s.frameHand < NumPhysPages
  {
    FrameSwept(s, Clock.Distance(FrameUses(s), s.frameHand)).(frameHand := (VictimFrame(s) + 1) % NumPhysPages)
  }

  // ---------------------------------------------------------------- TLB clock

  function SlotUses(tlb: seq<Entry>): (r: seq<bool>)
    ensures |r| == |tlb|
  {
    seq(|tlb|, k requires 0 <= k < |tlb| => tlb[k].use)
  }

  function SlotValids(tlb: seq<Entry>): (r: seq<bool>)
    ensures |r| == |tlb|
  {
    seq(|tlb|, k requires 0 <= k < |tlb| => tlb[k].valid)
  }

  /** First slot, at or after `from`, that caches virtual page `vpn`; -1 if none. */
  function SlotOf(tlb: seq<Entry>, vpn: int, from: nat): (k: int)
    requires from <= |tlb|
    ensures k == -1 ==> forall i :: from <= i < |tlb| && tlb[i].valid ==> tlb[i].virtualPage != vpn
    ensures k != -1 ==> from <= k < |tlb| && tlb[k].valid && tlb[k].virtualPage == vpn
    decreases |tlb| - from
  {
    if from == |tlb| then -1
    else if tlb[from].valid && tlb[from].virtualPage == vpn then from
    else SlotOf(tlb, vpn, from + 1)
  }

  /** saveVictimTLBInfo with the use bit it stores: the slot's page gets that use bit
      and the slot's dirty bit. */
  function WriteBack(s: State, k: nat, use: bool): (t: State)
    requires k < |s.tlb|
  {
    var p := PageRef(s.current, s.tlb[k].virtualPage);
    if p in s.pageTable
    then s.(pageTable := s.pageTable[p := s.pageTable[p].(use := use, dirty := s.tlb[k].dirty)])
    else s
  }

  function SlotPassed(s: State, p: PageRef, j: nat): bool
    requires |s.tlb| == TLBSize && s.tlbHand < TLBSize
  {
    var k := SlotOf(s.tlb, p.vpn, 0);
    p.space == s.current && k != -1 && Clock.Ahead(s.tlbHand, k, TLBSize) < j
  }

  /** The TLB clock after passing `j` slots: their use bits are clear, and their pages'
      entries are marked used and carry the slots' dirty bits. */
  function TlbSwept(s: State, j: nat): (t: State)
    requires |s.tlb| == TLBSize && s.tlbHand < TLBSize && j <= TLBSize
  {
    s.(tlb := seq(TLBSize, k requires 0 <= k < TLBSize =>
         s.tlb[k].(use := Clock.Swept(SlotUses(s.tlb), s.tlbHand, j)[k])),
       pageTable := map p | p in s.pageTable ::
         if SlotPassed(s, p, j)
         then s.pageTable[p].(use := true, dirty := s.tlb[SlotOf(s.tlb, p.vpn, 0)].dirty)
         else s.pageTable[p],
       tlbHand := Clock.Ring(s.tlbHand, j, TLBSize))
  }

  /** getNextSCTLB: the slot it returns. */
  function FreeSlot(s: State): (k: nat)
    requires |s.tlb| == TLBSize && s.tlbHand < TLBSize
    ensures k < TLBSize
  {
    var free := FirstClear(SlotValids(s.tlb));
    if free != -1 then free else Clock.Victim(SlotUses(s.tlb), s.tlbHand)
  }

  /** getNextSCTLB: its effect.  An invalid slot is taken as it is; otherwise the
      clock sweeps, writes the victim back and steps past it. */
  function TlbClock(s: State): (t: State)
    requires |s.tlb| == TLBSize && s.tlbHand < TLBSize
  {
    if FirstClear(SlotValids(s.tlb)) != -1 then s
    else
      var v := Clock.Victim(SlotUses(s.tlb), s.tlbHand);
      WriteBack(TlbSwept(s, Clock.Distance(SlotUses(s.tlb), s.tlbHand)), v, false)
        .(tlbHand := (v + 1) % TLBSize)
  }

  /** getNextSCTLB followed by useThisTLBIndex. */
  function Install(s: State, p: PageRef): (t: State)
    requires |s.tlb| == TLBSize && s.tlbHand < TLBSize && p in s.pageTable
  {
    var t := TlbClock(s);
    t.(tlb := t.tlb[FreeSlot(s) := t.pageTable[p]])
  }

  // ---------------------------------------------------------------- eviction

  /** First valid slot, at or after `from`, mapped to `frame`; -1 if none. */
  function SlotWithFrame(tlb: seq<Entry>, frame: int, from: nat): (k: int)
    requires from <= |tlb|
    ensures k == -1 ==> forall i :: from <= i < |tlb| && tlb[i].valid ==> tlb[i].physicalPage != frame
    ensures k != -1 ==> from <= k < |tlb| && tlb[k].valid && tlb[k].physicalPage == frame
    decreases |tlb| - from
  {
    if from == |tlb| then -1
    else if tlb[from].valid && tlb[from].physicalPage == frame then from
    else SlotWithFrame(tlb, frame, from + 1)
  }

  /** updateSwapVictimInfo: if the victim is in the TLB, its slot is dropped and its
      use and dirty bits move to the page table. */
  function Unload(s: State, p: PageRef): (t: State)
    requires p in s.pageTable
  {
    var k := SlotWithFrame(s.tlb, s.pageTable[p].physicalPage, 0);
    if k == -1 then s
    else s.(tlb := s.tlb[k := s.tlb[k].(valid := false)],
            pageTable := s.pageTable[p := s.pageTable[p].(use := s.tlb[k].use, dirty := s.tlb[k].dirty)])
  }

  /** writeIntoSwap: the page in frame `f` moves to swap slot `k`. */
  function SwapOut(s: State, p: PageRef, f: nat, k: nat): (t: State)
    requires Shape(s) && p in s.pageTable && f < NumPhysPages && k < SwapSize
  {
    s.(swapMap := s.swapMap[k := true],
       pageTable := s.pageTable[p := s.pageTable[p].(valid := false, physicalPage := k)],
       swap := WithPage(s.swap, k, PageAt(s.memory, f)),
       memMap := s.memMap[f := false])
  }

  /** A clean victim is forgotten. */
  function Drop(s: State, p: PageRef, f: nat): (t: State)
    requires Shape(s) && p in s.pageTable && f < NumPhysPages
  {
    s.(pageTable := s.pageTable[p := s.pageTable[p].(valid := false, physicalPage := -1)],
       memMap := s.memMap[f := false])
  }

  function Zeros(): (page: seq<Byte>)
    ensures |page| == PageSize
  {
    seq(PageSize, _ => 0)
  }

  predicate AllFramesNamed(s: State) {
    && |s.ipt| == NumPhysPages && s.frameHand < NumPhysPages
    && forall f :: 0 <= f < NumPhysPages ==> s.ipt[f].Some? && s.ipt[f].value in s.pageTable
  }

  function VictimPage(s: State): (p: PageRef)
    requires AllFramesNamed(s)
    ensures p in s.pageTable
  {
    s.ipt[VictimFrame(s)].value
  }

  /** The state once a victim is chosen and out of the TLB. */
  function Chosen(s: State): (t: State)
    requires AllFramesNamed(s)
    ensures t.pageTable.Keys == s.pageTable.Keys
  {
    Unload(FrameClock(s), VictimPage(s))
  }

  /** Memory is full, the victim is dirty and no swap slot is free: writeIntoSwap
      stops the machine. */
  predicate SwapExhausted(s: State) {
    && FirstClear(s.memMap) == -1
    && AllFramesNamed(s)
    && Chosen(s).pageTable[VictimPage(s)].dirty
    && FirstClear(s.swapMap) == -1
  }

  ghost predicate CanEvict(s: State) {
    && AllFramesNamed(s) && Shape(Chosen(s)) && |s.swapMap| == SwapSize
    && (Chosen(s).pageTable[VictimPage(s)].dirty ==> FirstClear(s.swapMap) != -1)
  }

  /** Page `p` leaves frame `f`: to a swap slot if it is dirty, otherwise for good.  Only a
      load of an anonymous page zeroes the frame of a clean victim. */
  function Removed(s: State, p: PageRef, f: nat, anonymous: bool): (t: State)
    requires Shape(s) && p in s.pageTable && f < NumPhysPages
    requires s.pageTable[p].dirty ==> FirstClear(s.swapMap) != -1
  {
    if s.pageTable[p].dirty then SwapOut(s, p, f, FirstClear(s.swapMap))
    else
      var u := Drop(s, p, f);
      if anonymous then u.(memory := WithPage(u.memory, f, Zeros())) else u
  }

  /** The state with a frame made free. */
  function Evicted(s: State, anonymous: bool): (t: State)
    requires CanEvict(s)
  {
    Removed(Chosen(s), VictimPage(s), VictimFrame(s), anonymous)
  }

  // ---------------------------------------------------------------- load

  /** Page `p` takes over frame `f`, filled with `page`. */
  function Mapped(s: State, p: PageRef, f: nat, page: seq<Byte>): (t: State)
    requires Shape(s) && p in s.pageTable && f < NumPhysPages && |page| == PageSize
  {
    s.(memMap := s.memMap[f := true],
       memory := WithPage(s.memory, f, page),
       pageTable := s.pageTable[p := s.pageTable[p].(valid := true, physicalPage := f)],
       ipt := s.ipt[f := Some(p)])
  }

  ghost predicate Fetchable(s: State, p: PageRef) {
    && Shape(s) && p in s.pageTable
    && (s.pageTable[p].dirty ==> 0 <= s.pageTable[p].physicalPage < SwapSize)
  }

  /** What an absent page is filled with in frame `f`: its swap slot when it is dirty,
      the executable when it is clean and file backed, and otherwise whatever the
      frame already holds. */
  function Contents(s: State, p: PageRef, f: nat): (page: seq<Byte>)
    requires Fetchable(s, p) && f < NumPhysPages
    ensures |page| == PageSize
  {
    if s.pageTable[p].dirty then PageAt(s.swap, s.pageTable[p].physicalPage)
    else if p.vpn < s.programs[p.space].noInitData
    then ReadImage(s.programs[p.space], p.vpn, PageAt(s.memory, f))
    else PageAt(s.memory, f)
  }

  /** Fetch an absent page into free frame `f`; a dirty one gives up its swap slot. */
  function Fetched(s: State, p: PageRef, f: nat): (t: State)
    requires Fetchable(s, p) && f < NumPhysPages
  {
    var e := s.pageTable[p];
    Mapped(s, p, f, Contents(s, p, f))
      .(swapMap := if e.dirty then s.swapMap[e.physicalPage := false] else s.swapMap)
  }

  predicate Anonymous(s: State, p: PageRef)
    requires p in s.pageTable && p.space < |s.programs|
  {
    !s.pageTable[p].dirty && p.vpn >= s.programs[p.space].noInitData
  }
}
