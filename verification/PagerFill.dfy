/**
 What load leaves in the frame it fills, byte by byte, and in the entries of the pages it
 moves.  Where neither swap nor the executable supplies a byte the frame keeps what another
 page left there, except on one path of load, which zeroes it.
 */
module PagerFill {
  import opened Basics
  import opened PagerState
  import opened PagerSpec
  import opened PagerProofs
  import opened PagerSwitch
  import Clock

  function MemoryByte(s: State, f: int, o: nat): (b: int)
    requires Shape(s) && 0 <= f < NumPhysPages && o < PageSize
  {
    s.memory[f * PageSize + o]
  }

  function SwapByte(s: State, k: int, o: nat): (b: int)
    requires Shape(s) && 0 <= k < SwapSize && o < PageSize
  {
    s.swap[k * PageSize + o]
  }

  // ---------------------------------------------------------------- one byte of the frame

  /** What filling frame `f` makes of one of its bytes. */
  function FilledByte(s: State, p: PageRef, f: int, o: nat): (b: int)
    requires Shape(s) && p in s.pageTable && 0 <= f < NumPhysPages && o < PageSize
    requires s.pageTable[p].dirty ==> 0 <= s.pageTable[p].physicalPage < SwapSize
  {
    var pr := s.programs[p.space];
    if s.pageTable[p].dirty then SwapByte(s, s.pageTable[p].physicalPage, o)
    else if p.vpn < pr.noInitData && pr.codeInFile + 128 * p.vpn + o < |pr.image|
    then pr.image[pr.codeInFile + 128 * p.vpn + o]
    else MemoryByte(s, f, o)
  }

  lemma FetchedByte(s: State, p: PageRef, f: nat, o: nat)
    requires Fetchable(s, p) && f < NumPhysPages && o < PageSize && Shape(Fetched(s, p, f))
    ensures MemoryByte(Fetched(s, p, f), f, o) == FilledByte(s, p, f, o)
  {
    var page := Contents(s, p, f);
    OwnPage(s.memory, f, page, o);
  }

  /** The clock and the TLB have nothing to do with memory. */
  lemma InstallMemory(s: State, p: PageRef)
    requires |s.tlb| == TLBSize && s.tlbHand < TLBSize && p in s.pageTable
    ensures var t := Install(s, p); t.memory == s.memory && t.swap == s.swap
  {
  }

  /** Eviction leaves the frame's bytes to the next page, unless the victim is clean and the
      page to come is anonymous: then it zeroes them. */
  lemma EvictedByte(s: State, anonymous: bool, o: nat)
    requires Inv(s) && FirstClear(s.memMap) == -1 && CanEvict(s) && o < PageSize
    ensures Shape(Evicted(s, anonymous))
    ensures MemoryByte(Evicted(s, anonymous), VictimFrame(s), o) ==
              if anonymous && !Dirty(s, VictimPage(s)) then 0 else MemoryByte(s, VictimFrame(s), o)
  {
    EvictedKeeps(s, anonymous, map[]);
    VictimMark(s);
    var f := VictimFrame(s);
    OwnPage(Chosen(s).memory, f, Zeros(), o);
    assert Chosen(s).memory == s.memory;
  }

  lemma VictimMark(s: State)
    requires Inv(s) && FirstClear(s.memMap) == -1 && AllFramesNamed(s)
    ensures Chosen(s).pageTable[VictimPage(s)].dirty <==> Dirty(s, VictimPage(s))
  {
    var c := FrameClock(s);
    assert s.memMap[VictimFrame(s)];
    FrameClockSynced(s);
    SyncedKeeps(s, c, map[]);
    UnloadKeeps(c, VictimPage(s), VictimFrame(s), map[]);
    assert forall k :: Cached(c, VictimPage(s), k) <==> Cached(s, VictimPage(s), k);
    assert c.tlb == s.tlb;
  }

  /** The swap slot of another page is left alone. */
  lemma EvictedSlot(s: State, anonymous: bool, p: PageRef, o: nat)
    requires Inv(s) && FirstClear(s.memMap) == -1 && CanEvict(s) && o < PageSize
    requires p in s.pageTable && !s.pageTable[p].valid && s.pageTable[p].dirty
    ensures var t, k := Evicted(s, anonymous), s.pageTable[p].physicalPage;
            Shape(t) && 0 <= k < SwapSize && SwapByte(t, k, o) == SwapByte(s, k, o)
  {
    EvictedKeeps(s, anonymous, map[]);
    ChosenKeeps(s, map[]);
    var k := s.pageTable[p].physicalPage;
    if Chosen(s).pageTable[VictimPage(s)].dirty {
      var f, j := VictimFrame(s), FirstClear(s.swapMap);
      assert j != k;
      OtherPage(s.swap, j, PageAt(s.memory, f), k, o, s.swap[k * PageSize + o]);
      assert Chosen(s).swap == s.swap && Chosen(s).memory == s.memory;
    }
  }

  // ---------------------------------------------------------------- load

  /** The frame load takes. */
  function FrameFor(s: State): (f: int)
    requires Inv(s) && (FirstClear(s.memMap) == -1 ==> AllFramesNamed(s))
    ensures 0 <= f < NumPhysPages
  {
    if FirstClear(s.memMap) != -1 then FirstClear(s.memMap) else VictimFrame(s)
  }

  /** Load found no free frame and its victim was clean. */
  ghost predicate CleanEviction(s: State) {
    FirstClear(s.memMap) == -1 && AllFramesNamed(s) && !Dirty(s, VictimPage(s))
  }

  /** What the program finds at an offset of a page loaded into frame `f`, if a clean page
      was evicted or not. */
  function ByteFor(s: State, p: PageRef, f: int, clean: bool, o: nat): (b: int)
    requires Shape(s) && p in s.pageTable && 0 <= f < NumPhysPages && o < PageSize
    requires s.pageTable[p].dirty ==> 0 <= s.pageTable[p].physicalPage < SwapSize
  {
    var pr := s.programs[p.space];
    if s.pageTable[p].dirty then SwapByte(s, s.pageTable[p].physicalPage, o)
    else if p.vpn >= pr.noInitData && clean then 0
    else if p.vpn < pr.noInitData && pr.codeInFile + 128 * p.vpn + o < |pr.image|
    then pr.image[pr.codeInFile + 128 * p.vpn + o]
    else MemoryByte(s, f, o)
  }

  ghost function LoadedByte(s: State, p: PageRef, o: nat): (b: int)
    requires Inv(s) && p in s.pageTable && !s.pageTable[p].valid && o < PageSize
    requires FirstClear(s.memMap) == -1 ==> AllFramesNamed(s)
  {
    ByteFor(s, p, FrameFor(s), CleanEviction(s), o)
  }

  /** Filling from a state that differs from `s` in the bytes of the frame. */
  lemma FillAgrees(s: State, u: State, p: PageRef, f: nat, clean: bool, o: nat)
    requires Shape(s) && Shape(u) && p in s.pageTable && f < NumPhysPages && o < PageSize
    requires u.programs == s.programs && u.pageTable[p] == s.pageTable[p]
    requires s.pageTable[p].dirty ==>
               var k := s.pageTable[p].physicalPage; 0 <= k < SwapSize && SwapByte(u, k, o) == SwapByte(s, k, o)
    requires MemoryByte(u, f, o) == if Anonymous(s, p) && clean then 0 else MemoryByte(s, f, o)
    ensures FilledByte(u, p, f, o) == ByteFor(s, p, f, clean, o)
  {
  }

  /** Byte `o` of a frame is `b`. */
  ghost predicate FrameHolds(t: State, f: int, o: nat, b: int) {
    0 <= f * PageSize + o < |t.memory| && t.memory[f * PageSize + o] == b
  }

  lemma FetchInstallByte(s: State, p: PageRef, f: nat, o: nat, t: State)
    requires Inv(s) && p in s.pageTable && !s.pageTable[p].valid && f < NumPhysPages && !s.memMap[f] && o < PageSize
    requires Fetchable(s, p) && |s.tlb| == TLBSize && t == Install(Fetched(s, p, f), p)
    ensures FrameHolds(t, f, o, FilledByte(s, p, f, o))
  {
    FetchedInv(s, p, f);
    FetchedByte(s, p, f, o);
    InstallMemory(Fetched(s, p, f), p);
  }

  lemma LoadedFree(s: State, p: PageRef, t: State, o: nat)
    requires Loadable(s, p) && !s.pageTable[p].valid && FirstClear(s.memMap) != -1 && t == Loaded(s, p)
    requires o < PageSize
    ensures FrameHolds(t, FrameFor(s), o, LoadedByte(s, p, o))
  {
    FetchInstallByte(s, p, FirstClear(s.memMap), o, t);
  }

  /** After an eviction the frame is filled as LoadedByte says. */
  lemma EvictedFill(s: State, p: PageRef, u: State, o: nat)
    requires Inv(s) && p in s.pageTable && !s.pageTable[p].valid && p.space < |s.programs| && o < PageSize
    requires FirstClear(s.memMap) == -1 && CanEvict(s) && u == Evicted(s, Anonymous(s, p))
    ensures Inv(u) && Fetchable(u, p) && FilledByte(u, p, VictimFrame(s), o) == LoadedByte(s, p, o)
  {
    EvictedReady(s, p);
    EvictedKeeps(s, Anonymous(s, p), map[]);
    EvictedByte(s, Anonymous(s, p), o);
    if s.pageTable[p].dirty {
      EvictedSlot(s, Anonymous(s, p), p, o);
    }
    FillAgrees(s, u, p, VictimFrame(s), !Dirty(s, VictimPage(s)), o);
  }

  lemma LoadedEvicting(s: State, p: PageRef, t: State, o: nat)
    requires Loadable(s, p) && !s.pageTable[p].valid && FirstClear(s.memMap) == -1 && t == Loaded(s, p)
    requires o < PageSize
    ensures AllFramesNamed(s) && FrameHolds(t, FrameFor(s), o, LoadedByte(s, p, o))
  {
    var u := Evicted(s, Anonymous(s, p));
    EvictedReady(s, p);
    EvictedFill(s, p, u, o);
    FetchInstallByte(u, p, VictimFrame(s), o, t);
  }

  /** For every load of an absent page and every offset: a page written before gets its bytes
      back from its swap slot, a file-backed one those of the executable, and any other byte
      is zero if load had to evict a clean page for an anonymous one, and otherwise what the
      frame last held, whoever wrote it. */
  lemma LoadedExact(s: State, p: PageRef, t: State, o: nat)
    requires Loadable(s, p) && !s.pageTable[p].valid && t == Loaded(s, p) && o < PageSize
    ensures FirstClear(s.memMap) == -1 ==> AllFramesNamed(s)
    ensures FrameHolds(t, FrameFor(s), o, LoadedByte(s, p, o))
  {
    if FirstClear(s.memMap) != -1 {
      LoadedFree(s, p, t, o);
    } else {
      LoadedEvicting(s, p, t, o);
    }
  }

  ghost predicate AllZero(t: State, f: int) {
    forall o: nat :: o < PageSize ==> FrameHolds(t, f, o, 0)
  }

  ghost predicate AnonymousByte(s: State, t: State, o: nat)
    requires o < PageSize
  {
    && Inv(s) && (FirstClear(s.memMap) == -1 ==> AllFramesNamed(s))
    && FrameHolds(t, FrameFor(s), o, if CleanEviction(s) then 0 else MemoryByte(s, FrameFor(s), o))
  }

  /** Memory a program never wrote and its executable does not supply: bss and stack start as
      zeros exactly when load evicts a clean page for them, or finds zeros in the frame. */
  lemma AnonymousZero(s: State, p: PageRef, t: State)
    requires Loadable(s, p) && !s.pageTable[p].valid && t == Loaded(s, p)
    requires !s.pageTable[p].dirty && p.vpn >= s.programs[p.space].noInitData
    ensures FirstClear(s.memMap) == -1 ==> AllFramesNamed(s)
    ensures AllZero(t, FrameFor(s)) <==> CleanEviction(s) || AllZero(s, FrameFor(s))
  {
    forall o: nat | o < PageSize ensures AnonymousByte(s, t, o) {
      LoadedExact(s, p, t, o);
    }
    assert AnonymousByte(s, t, 0);
    if AllZero(t, FrameFor(s)) && !CleanEviction(s) {
      forall o: nat | o < PageSize ensures FrameHolds(s, FrameFor(s), o, 0) {
        assert AnonymousByte(s, t, o) && FrameHolds(t, FrameFor(s), o, 0);
      }
    }
    if CleanEviction(s) || AllZero(s, FrameFor(s)) {
      forall o: nat | o < PageSize ensures FrameHolds(t, FrameFor(s), o, 0) {
        assert AnonymousByte(s, t, o);
        assert CleanEviction(s) || FrameHolds(s, FrameFor(s), o, 0);
      }
    }
  }

  // ---------------------------------------------------------------- entries

  /** Taking a page out of the TLB: its slot becomes invalid and its entry gets the slot's use
      and dirty bits; if no slot holds it, nothing changes. */
  lemma UnloadSaves(s: State, p: PageRef, f: nat)
    requires Inv(s) && OwnsFrame(s, p, f)
    ensures !InTlb(s, p) ==> Unload(s, p) == s
    ensures forall k :: Cached(s, p, k) ==>
              var t := Unload(s, p);
              && !t.tlb[k].valid && (forall l :: 0 <= l < TLBSize && l != k ==> t.tlb[l] == s.tlb[l])
              && t.pageTable[p].use == s.tlb[k].use && t.pageTable[p].dirty == s.tlb[k].dirty
              && (forall q :: q in s.pageTable && q != p ==> t.pageTable[q] == s.pageTable[q])
  {
    var k := SlotWithFrame(s.tlb, f, 0);
    if k != -1 {
      assert OwnsFrame(s, PageRef(s.current, s.tlb[k].virtualPage), f);
      assert Cached(s, p, k);
    }
    forall l | Cached(s, p, l) ensures l == k {
      assert s.tlb[l].physicalPage == f;
    }
  }

  /** A page that leaves its frame keeps its use and dirty bits: to the first free swap slot if
      it is dirty, nowhere otherwise; no other entry changes. */
  lemma RemovedEntry(s: State, p: PageRef, f: nat, anonymous: bool)
    requires Shape(s) && p in s.pageTable && f < NumPhysPages
    requires s.pageTable[p].dirty ==> FirstClear(s.swapMap) != -1
    ensures var t, e := Removed(s, p, f, anonymous), s.pageTable[p];
            && t.pageTable[p] == e.(valid := false, physicalPage := t.pageTable[p].physicalPage)
            && t.pageTable[p].physicalPage == (if e.dirty then FirstClear(s.swapMap) else -1)
            && (forall q :: q in s.pageTable && q != p ==> t.pageTable[q] == s.pageTable[q])
            && t.tlb == s.tlb && t.ipt == s.ipt
  {
  }

  /** A page fetched keeps its use and dirty bits; no other entry changes. */
  lemma FetchedEntry(s: State, p: PageRef, f: nat)
    requires Fetchable(s, p) && f < NumPhysPages
    ensures var e := Fetched(s, p, f).pageTable[p];
            && e.valid && e.physicalPage == f && e.use == s.pageTable[p].use && e.dirty == s.pageTable[p].dirty
            && e.virtualPage == s.pageTable[p].virtualPage
    ensures forall q :: q in s.pageTable && q != p ==> Fetched(s, p, f).pageTable[q] == s.pageTable[q]
  {
  }

  /** A switch empties the TLB, puts its clock at the start and touches no memory, no frame and
      no swap slot. */
  lemma SwitchedRest(s: State, next: nat, junk1: seq<Entry>, junk2: seq<Entry>)
    requires |s.tlb| == TLBSize && |junk2| == TLBSize
    ensures var t := Switched(s, next, junk1, junk2);
            && t.current == next && t.tlbHand == 0 && |t.tlb| == TLBSize
            && (forall k :: 0 <= k < TLBSize ==> !t.tlb[k].valid)
            && t.memory == s.memory && t.swap == s.swap && t.memMap == s.memMap && t.swapMap == s.swapMap
            && t.ipt == s.ipt && t.frameHand == s.frameHand && t.programs == s.programs
  {
  }
}
