/**
 The pager as the source runs it: one object holding the machine's memory and TLB, the
 kernel's bitmaps, inverted page table and clock hands, and every page table.  Each
 method is proved to compute the corresponding function of PagerSpec.
 */
module PagerMachine {
  import opened Basics
  import opened PagerState
  import opened PagerSpec
  import opened PagerProofs
  import opened PagerAccess
  import opened PagerSwitch
  import opened PagerClocks
  import opened PagerRuns
  import Clock

  class Pager {
    const mainMemory: array<Byte>
    var programs: seq<Program>
    var pageTable: map<PageRef, Entry>
    var tlb: seq<Entry>
    var ipt: seq<Option<PageRef>>
    var memBitMap: seq<bool>
    var swapBitMap: seq<bool>
    var swapFile: seq<Byte>
    var indexTLBSndChc: nat
    var indexSWAPSndChc: nat
    var indexSWAPFIFO: nat
    var current: nat

    ghost function Now(): State
      reads this, mainMemory
    {
      State(programs, pageTable, tlb, ipt, memBitMap, swapBitMap, mainMemory[..], swapFile,
            indexTLBSndChc, indexSWAPSndChc, current)
    }

    /** The machine as Initialize leaves it, with the first address space constructed. */
    constructor (pr: Program, memory: array<Byte>, swap: seq<Byte>, leftover: seq<Entry>)
      requires ValidProgram(pr) && memory.Length == MemorySize && |swap| == SwapSize * PageSize && |leftover| == TLBSize
      ensures mainMemory == memory && Now() == Boot(pr, memory[..], swap, leftover)
      ensures Inv(Now()) && Transparent(Now(), map[])
    {
      mainMemory, programs, swapFile, current := memory, [pr], swap, 0;
      pageTable := map v: int | 0 <= v < pr.numPages :: PageRef(0, v) := Entry(v, -1, false, false, false, false);
      tlb := EmptyTlb(leftover);
      ipt, memBitMap, swapBitMap := [None, None, None, None], [false, false, false, false], seq(SwapSize, _ => false);
      indexTLBSndChc, indexSWAPSndChc, indexSWAPFIFO := 0, 0, 0;
      new;
      assert Now() == Boot(pr, memory[..], swap, leftover);
      BootInv(pr, memory[..], swap, leftover);
    }

    // -------------------------------------------------------------- bitmaps

    /** MemBitMap->Find(). */
    method FindFrame() returns (f: int)
      modifies this`memBitMap
      ensures f == FirstClear(old(memBitMap))
      ensures memBitMap == if f == -1 then old(memBitMap) else old(memBitMap)[f := true]
    {
      f := FirstClear(memBitMap);
      if f != -1 {
        memBitMap := memBitMap[f := true];
      }
    }

    /** SWAPBitMap->Find(). */
    method FindSwapPage() returns (k: int)
      modifies this`swapBitMap
      ensures k == FirstClear(old(swapBitMap))
      ensures swapBitMap == if k == -1 then old(swapBitMap) else old(swapBitMap)[k := true]
    {
      k := FirstClear(swapBitMap);
      if k != -1 {
        swapBitMap := swapBitMap[k := true];
      }
    }

    // -------------------------------------------------------------- page copies

    method CopyIn(f: nat, page: seq<Byte>)
      requires f < NumPhysPages && mainMemory.Length == MemorySize && |page| == PageSize
      modifies mainMemory
      ensures mainMemory[..] == WithPage(old(mainMemory[..]), f, page)
    {
      ghost var before := mainMemory[..];
      var i := 0;
      while i < PageSize
        invariant 0 <= i <= PageSize
        invariant forall m :: f * PageSize <= m < f * PageSize + i ==> mainMemory[m] == page[m - f * PageSize]
        invariant forall m :: 0 <= m < f * PageSize || f * PageSize + i <= m < MemorySize ==> mainMemory[m] == before[m]
      {
        mainMemory[f * PageSize + i] := page[i];
        i := i + 1;
      }
      assert mainMemory[..] == Splice(before, f * PageSize, page);
    }

    /** clearPhysicalPage. */
    method ClearPhysicalPage(f: nat)
      requires f < NumPhysPages && mainMemory.Length == MemorySize
      modifies mainMemory
      ensures mainMemory[..] == WithPage(old(mainMemory[..]), f, Zeros())
    {
      CopyIn(f, Zeros());
    }

    /** ReadAt of one page of the executable into frame `f`. */
    method ReadExecutable(f: nat, vpn: nat)
      requires f < NumPhysPages && mainMemory.Length == MemorySize && current < |programs|
      modifies mainMemory
      ensures mainMemory[..] == WithPage(old(mainMemory[..]), f,
                                         ReadImage(programs[current], vpn, PageAt(old(mainMemory[..]), f)))
    {
      var pr := programs[current];
      CopyIn(f, ReadImage(pr, vpn, PageAt(mainMemory[..], f)));
    }

    // -------------------------------------------------------------- TLB clock

    /** saveVictimTLBInfo. */
    method SaveVictimTLBInfo(tlbIndex: nat, oldUse: bool)
      requires tlbIndex < |tlb| && PageRef(current, tlb[tlbIndex].virtualPage) in pageTable
      modifies this`pageTable
      ensures var p := PageRef(current, tlb[tlbIndex].virtualPage);
              pageTable == old(pageTable)[p := old(pageTable[p]).(use := oldUse || tlb[tlbIndex].use,
                                                                  dirty := tlb[tlbIndex].dirty)]
    {
      var p := PageRef(current, tlb[tlbIndex].virtualPage);
      var use := if oldUse then oldUse else tlb[tlbIndex].use;
      pageTable := pageTable[p := pageTable[p].(use := use, dirty := tlb[tlbIndex].dirty)];
    }

    /** getNextSCTLB: first the scan for an invalid slot, then the clock. */
    method GetNextSCTLB() returns (freeSpace: nat)
      requires Inv(Now())
      modifies this`tlb, this`pageTable, this`indexTLBSndChc
      ensures freeSpace == FreeSlot(old(Now()))
      ensures Now() == TlbClock(old(Now()))
    {
      ghost var s := Now();
      var x := 0;
      while x < TLBSize
        invariant 0 <= x <= TLBSize
        invariant forall i :: 0 <= i < x ==> tlb[i].valid
      {
        if !tlb[x].valid {
          assert SlotValids(tlb)[x] == false && forall i :: 0 <= i < x ==> SlotValids(tlb)[i];
          return x;
        }
        x := x + 1;
      }
      freeSpace := GetClockedSlot();
    }

    /** The clock loop of getNextSCTLB, entered when every slot is valid. */
    method GetClockedSlot() returns (freeSpace: nat)
      requires Inv(Now()) && forall i :: 0 <= i < TLBSize ==> tlb[i].valid
      modifies this`tlb, this`pageTable, this`indexTLBSndChc
      ensures freeSpace == FreeSlot(old(Now()))
      ensures Now() == TlbClock(old(Now()))
    {
      ghost var path := TlbPath(Now());
      ghost var j := 0;
      freeSpace := 0;
      var find := false;
      while !find
        invariant 0 <= j < |path|
        invariant !find ==> Now() == path[j]
        invariant find ==> j == |path| - 1 && freeSpace == path[j].tlbHand && Now() == SlotTaken(path[j])
        decreases !find, |path| - j
      {
        assert SlotReady(path[j]) && (j < |path| - 1 ==> SlotStep(path[j], path[j + 1]));
        if tlb[indexTLBSndChc].use {
          PassSlot();
          j := j + 1;
        } else {
          find := true;
          freeSpace := TakeSlot();
        }
      }
    }

    /** One turn of the clock loop over a used slot. */
    method PassSlot()
      requires SlotReady(Now())
      modifies this`tlb, this`pageTable, this`indexTLBSndChc
      ensures Now() == SlotSkipped(old(Now()))
    {
      tlb := tlb[indexTLBSndChc := tlb[indexTLBSndChc].(use := false)];
      SaveVictimTLBInfo(indexTLBSndChc, true);
      indexTLBSndChc := (indexTLBSndChc + 1) % TLBSize;
    }

    /** The last turn of the clock loop, over an unused slot. */
    method TakeSlot() returns (freeSpace: nat)
      requires SlotReady(Now()) && !tlb[indexTLBSndChc].use
      modifies this`pageTable, this`indexTLBSndChc
      ensures freeSpace == old(indexTLBSndChc)
      ensures Now() == SlotTaken(old(Now()))
    {
      freeSpace := indexTLBSndChc;
      SaveVictimTLBInfo(freeSpace, false);
      indexTLBSndChc := (indexTLBSndChc + 1) % TLBSize;
    }

    /** useThisTLBIndex. */
    method UseThisTLBIndex(tlbIndex: nat, vpn: int)
      requires tlbIndex < |tlb| && PageRef(current, vpn) in pageTable
      modifies this`tlb
      ensures tlb == old(tlb)[tlbIndex := pageTable[PageRef(current, vpn)]]
    {
      tlb := tlb[tlbIndex := pageTable[PageRef(current, vpn)]];
    }

    /** The two calls that end every leaf of load. */
    method EnterTLB(vpn: int)
      requires Inv(Now()) && PageRef(current, vpn) in pageTable
      modifies this`tlb, this`pageTable, this`indexTLBSndChc
      ensures Now() == Install(old(Now()), PageRef(current, vpn))
    {
      var tlbSpace := GetNextSCTLB();
      UseThisTLBIndex(tlbSpace, vpn);
    }

    // -------------------------------------------------------------- frame clock and eviction

    /** getNextSCSWAP.  Its checks that every frame is named and valid cannot fail. */
    method GetNextSCSWAP() returns (freeSpace: nat)
      requires Inv(Now()) && FirstClear(memBitMap) == -1 && AllFramesNamed(Now())
      modifies this`pageTable, this`indexSWAPSndChc
      ensures freeSpace == VictimFrame(old(Now()))
      ensures Now() == FrameClock(old(Now()))
    {
      ghost var path := FramePath(Now());
      ghost var j := 0;
      freeSpace := 0;
      var find := false;
      while !find
        invariant 0 <= j < |path|
        invariant !find ==> Now() == path[j]
        invariant find ==> j == |path| - 1 && freeSpace == path[j].frameHand && Now() == FrameTaken(path[j])
        decreases !find, |path| - j
      {
        assert FrameReady(path[j]) && (j < |path| - 1 ==> FrameStep(path[j], path[j + 1]));
        var p := ipt[indexSWAPSndChc].value;
        assert pageTable[p].valid;
        if pageTable[p].use {
          PassFrame();
          j := j + 1;
        } else {
          find := true;
          freeSpace := TakeFrame();
        }
      }
    }

    /** The last turn of the clock loop, over an unused frame. */
    method TakeFrame() returns (freeSpace: nat)
      modifies this`indexSWAPSndChc
      ensures freeSpace == old(indexSWAPSndChc) && Now() == FrameTaken(old(Now()))
    {
      freeSpace := indexSWAPSndChc;
      indexSWAPSndChc := (indexSWAPSndChc + 1) % NumPhysPages;
    }

    /** One turn of the clock loop over a used frame. */
    method PassFrame()
      requires FrameReady(Now())
      modifies this`pageTable, this`indexSWAPSndChc
      ensures Now() == FrameSkipped(old(Now()))
    {
      var p := ipt[indexSWAPSndChc].value;
      pageTable := pageTable[p := pageTable[p].(use := false)];
      indexSWAPSndChc := (indexSWAPSndChc + 1) % NumPhysPages;
    }

    /** updateSwapVictimInfo. */
    method UpdateSwapVictimInfo(swapIndex: nat)
      requires swapIndex < |ipt| && ipt[swapIndex].Some? && ipt[swapIndex].value in pageTable
      modifies this`tlb, this`pageTable
      ensures Now() == Unload(old(Now()), ipt[swapIndex].value)
    {
      var p := ipt[swapIndex].value;
      var index := 0;
      while index < |tlb|
        invariant 0 <= index <= |tlb| && tlb == old(tlb) && pageTable == old(pageTable)
        invariant SlotWithFrame(tlb, pageTable[p].physicalPage, 0) ==
                    SlotWithFrame(tlb, pageTable[p].physicalPage, index)
      {
        if tlb[index].valid && tlb[index].physicalPage == pageTable[p].physicalPage {
          var slot := tlb[index];
          tlb := tlb[index := slot.(valid := false)];
          pageTable := pageTable[p := pageTable[p].(use := slot.use, dirty := slot.dirty)];
          break;
        }
        index := index + 1;
      }
    }

    /** writeIntoSwap.  It stops the machine only when no swap slot is free. */
    method WriteIntoSwap(f: nat) returns (ok: bool)
      requires Shape(Now()) && f < NumPhysPages && ipt[f].Some? && ipt[f].value in pageTable
      requires indexSWAPFIFO == f
      modifies this`swapBitMap, this`pageTable, this`swapFile, this`memBitMap
      ensures ok <==> FirstClear(old(swapBitMap)) != -1
      ensures ok ==> Now() == SwapOut(old(Now()), ipt[f].value, f, FirstClear(old(swapBitMap)))
    {
      var swapPage := FindSwapPage();
      if swapPage == -1 {
        return false;
      }
      var p := ipt[f].value;
      pageTable := pageTable[p := pageTable[p].(valid := false, physicalPage := swapPage)];
      swapFile := WithPage(swapFile, swapPage, PageAt(mainMemory[..], f));
      memBitMap := memBitMap[indexSWAPFIFO := false];
      return true;
    }

    /** The eviction sequence of load: choose a victim, take it out of the TLB, and
        either swap it out or drop it. */
    method Evict(zero: bool) returns (ok: bool)
      requires Inv(Now()) && FirstClear(memBitMap) == -1
      modifies this, mainMemory
      ensures ok <==> !SwapExhausted(old(Now()))
      ensures ok ==> CanEvict(old(Now())) && Now() == Evicted(old(Now()), zero)
    {
      ghost var s := Now();
      FullyNamed(s);
      CanEvictUnless(s);
      ChooseVictim();
      ok := RemoveVictim(zero);
    }

    /** The chosen victim leaves its frame. */
    method RemoveVictim(zero: bool) returns (ok: bool)
      requires Shape(Now()) && indexSWAPFIFO < NumPhysPages && ipt[indexSWAPFIFO].Some?
      requires OwnsFrame(Now(), ipt[indexSWAPFIFO].value, indexSWAPFIFO)
      modifies this`swapBitMap, this`pageTable, this`swapFile, this`memBitMap, mainMemory
      ensures ok <==> (old(pageTable)[ipt[indexSWAPFIFO].value].dirty ==> FirstClear(old(swapBitMap)) != -1)
      ensures ok ==> Now() == Removed(old(Now()), ipt[indexSWAPFIFO].value, indexSWAPFIFO, zero)
    {
      var p := ipt[indexSWAPFIFO].value;
      var victimDirty := pageTable[p].dirty;
      if victimDirty {
        ok := WriteIntoSwap(pageTable[p].physicalPage);
      } else {
        DropVictim(zero);
        ok := true;
      }
    }

    /** The victim is chosen and out of the TLB. */
    method ChooseVictim()
      requires Inv(Now()) && FirstClear(memBitMap) == -1 && AllFramesNamed(Now())
      modifies this
      ensures Now() == Chosen(old(Now())) && indexSWAPFIFO == VictimFrame(old(Now())) < NumPhysPages
      ensures Inv(Now()) && ipt[indexSWAPFIFO] == Some(VictimPage(old(Now())))
      ensures OwnsFrame(Now(), VictimPage(old(Now())), indexSWAPFIFO)
    {
      ChosenKeeps(Now(), map[]);
      indexSWAPFIFO := GetNextSCSWAP();
      UpdateSwapVictimInfo(indexSWAPFIFO);
    }

    /** The branch of load for a clean victim. */
    method DropVictim(zero: bool)
      requires Shape(Now()) && indexSWAPFIFO < NumPhysPages && ipt[indexSWAPFIFO].Some?
      requires OwnsFrame(Now(), ipt[indexSWAPFIFO].value, indexSWAPFIFO)
      modifies this`pageTable, this`memBitMap, mainMemory
      ensures var f := indexSWAPFIFO;
              var t := Drop(old(Now()), ipt[f].value, f);
              Now() == if zero then t.(memory := WithPage(t.memory, f, Zeros())) else t
    {
      var p := ipt[indexSWAPFIFO].value;
      var oldPhysicalPage := pageTable[p].physicalPage;
      pageTable := pageTable[p := pageTable[p].(valid := false, physicalPage := -1)];
      memBitMap := memBitMap[oldPhysicalPage := false];
      if zero {
        ClearPhysicalPage(oldPhysicalPage);
      }
    }

    // -------------------------------------------------------------- load

    /** readFromSwap. */
    method ReadFromSwap(f: nat, swapPage: nat)
      requires Shape(Now()) && f < NumPhysPages && swapPage < SwapSize
      modifies this`swapBitMap, mainMemory
      ensures swapBitMap == old(swapBitMap)[swapPage := false]
      ensures mainMemory[..] == WithPage(old(mainMemory[..]), f, PageAt(swapFile, swapPage))
    {
      swapBitMap := swapBitMap[swapPage := false];
      CopyIn(f, PageAt(swapFile, swapPage));
    }

    /** The read that fills frame `f` for an absent page. */
    method Fill(vpn: nat, f: nat)
      requires Fetchable(Now(), PageRef(current, vpn)) && f < NumPhysPages
      modifies this`swapBitMap, mainMemory
      ensures mainMemory[..] == WithPage(old(mainMemory[..]), f, Contents(old(Now()), PageRef(current, vpn), f))
      ensures var e := pageTable[PageRef(current, vpn)];
              swapBitMap == if e.dirty then old(swapBitMap)[e.physicalPage := false] else old(swapBitMap)
    {
      var e := pageTable[PageRef(current, vpn)];
      if e.dirty {
        ReadFromSwap(f, e.physicalPage);
      } else if vpn < programs[current].noInitData {
        ReadExecutable(f, vpn);
      } else {
        SamePageBack(mainMemory[..], f);
      }
    }

    /** Bring the absent page into frame `f`, which Find has just marked. */
    method Fetch(vpn: nat, f: nat)
      requires Fetchable(Now(), PageRef(current, vpn)) && f < NumPhysPages && memBitMap[f]
      modifies this`pageTable, this`ipt, this`swapBitMap, mainMemory
      ensures Now() == Fetched(old(Now()), PageRef(current, vpn), f)
    {
      var p := PageRef(current, vpn);
      Fill(vpn, f);
      pageTable := pageTable[p := pageTable[p].(valid := true, physicalPage := f)];
      ipt := ipt[f := Some(p)];
      assert memBitMap == memBitMap[f := true];
    }

    /** AddrSpace::load.  False means an ASSERT stopped the machine, which happens
        exactly when the victim needs a swap slot and none is free. */
    method Load(vpn: nat) returns (ok: bool)
      requires Inv(Now()) && PageRef(current, vpn) in pageTable
      modifies this, mainMemory
      ensures ok <==> old(pageTable[PageRef(current, vpn)].valid) || !SwapExhausted(old(Now()))
      ensures ok ==> Loadable(old(Now()), old(PageRef(current, vpn)))
      ensures ok ==> Now() == Loaded(old(Now()), old(PageRef(current, vpn)))
    {
      var p := PageRef(current, vpn);
      if pageTable[p].valid {
        EnterTLB(vpn);
        return true;
      }
      ok := LoadAbsent(vpn);
    }

    /** The cases of load for a page that is not resident. */
    method LoadAbsent(vpn: nat) returns (ok: bool)
      requires Inv(Now()) && PageRef(current, vpn) in pageTable && !pageTable[PageRef(current, vpn)].valid
      modifies this, mainMemory
      ensures ok <==> !SwapExhausted(old(Now()))
      ensures ok ==> Loadable(old(Now()), old(PageRef(current, vpn)))
      ensures ok ==> Now() == Loaded(old(Now()), old(PageRef(current, vpn)))
    {
      ghost var s := Now();
      var p := PageRef(current, vpn);
      var zero := !pageTable[p].dirty && vpn >= programs[current].noInitData;
      var freeFrame := FindFrame();
      if freeFrame != -1 {
        LoadedFree(s, p);
        Place(s, vpn, freeFrame);
        return true;
      }
      ok := Evict(zero);
      if ok {
        LoadedEvicting(s, p);
        ghost var t := Now();
        freeFrame := FindFrame();
        assert freeFrame != -1;
        Place(t, vpn, freeFrame);
      }
    }

    /** Fill the frame Find has just marked in state `t`, and enter the page in the TLB. */
    method Place(ghost t: State, vpn: nat, f: nat)
      requires Inv(t) && f < NumPhysPages && !t.memMap[f] && Now() == t.(memMap := t.memMap[f := true])
      requires PageRef(current, vpn) in t.pageTable && !t.pageTable[PageRef(current, vpn)].valid
      modifies this, mainMemory
      ensures Fetchable(t, PageRef(t.current, vpn))
      ensures Now() == Install(Fetched(t, PageRef(t.current, vpn), f), PageRef(t.current, vpn))
    {
      ghost var p := PageRef(current, vpn);
      FetchMarked(t, p, f);
      Fetch(vpn, f);
      FetchedInv(t, p, f);
      EnterTLB(vpn);
    }

    // -------------------------------------------------------------- memory references

    /** Machine::Translate with a TLB. */
    method Translate(virtAddr: nat, size: nat, writing: bool) returns (x: Exception, physAddr: int)
      modifies this`tlb
      ensures x == Translation(old(Now()), virtAddr, size, writing)
      ensures x != NoException ==> tlb == old(tlb)
      ensures x == NoException ==>
                SlotOf(old(tlb), virtAddr / PageSize, 0) != -1
                && physAddr == Physical(old(Now()), virtAddr) && Now() == Touched(old(Now()), virtAddr, writing)
      ensures x == NoException ==> exists k :: MarksSlot(old(tlb), tlb, virtAddr / PageSize, k, writing)
    {
      physAddr := 0;
      if (size == 4 && virtAddr % 4 != 0) || (size == 2 && virtAddr % 2 != 0) {
        return AddressError, physAddr;
      }
      var vpn, offset := virtAddr / PageSize, virtAddr % PageSize;
      var i := 0;
      while i < |tlb| && !(tlb[i].valid && tlb[i].virtualPage == vpn)
        invariant 0 <= i <= |tlb|
        invariant SlotOf(tlb, vpn, 0) == SlotOf(tlb, vpn, i)
      {
        i := i + 1;
      }
      if i == |tlb| {
        return PageFault, physAddr;
      }
      if tlb[i].readOnly && writing {
        return ReadOnlyException, physAddr;
      }
      var pageFrame := tlb[i].physicalPage;
      if pageFrame < 0 || pageFrame >= NumPhysPages {
        return BusError, physAddr;
      }
      tlb := tlb[i := tlb[i].(use := true, dirty := tlb[i].dirty || writing)];
      assert MarksSlot(old(tlb), tlb, vpn, i, writing);
      return NoException, pageFrame * PageSize + offset;
    }

    /** RaiseException as ExceptionHandler treats it: a page fault loads the page, any
        other exception stops the machine. */
    method RaiseException(x: Exception, badVAddr: nat) returns (stopped: bool)
      requires Inv(Now()) && PageRef(current, badVAddr / PageSize) in pageTable && x != NoException
      modifies this, mainMemory
      ensures x != PageFault ==> stopped
      ensures x == PageFault ==> (stopped <==> Fault(old(Now()), badVAddr).Stop?)
      ensures !stopped ==> Fault(old(Now()), badVAddr) == Retry(Now())
    {
      stopped := true;
      if x == PageFault {
        var ok := Load(badVAddr / PageSize);
        stopped := !ok;
      }
    }

    /** Machine::ReadMem.  `ok` is its result; `stopped` reports a failed ASSERT. */
    method ReadMem(addr: nat, size: nat) returns (ok: bool, stopped: bool, value: int)
      requires Inv(Now()) && ValidSize(size) && InSpace(Now(), addr)
      modifies this, mainMemory
      ensures var o := PagerAccess.ReadMem(old(Now()), addr, size);
              match o
              case Done(t, v) => ok && !stopped && Now() == t && value == v
              case Retry(t) => !ok && !stopped && Now() == t
              case Stop => !ok && stopped
    {
      ok, stopped, value := false, false, 0;
      ghost var s := Now();
      var x, physicalAddress := Translate(addr, size, false);
      if x != NoException {
        assert Now() == s;
        stopped := RaiseException(x, addr);
        return;
      }
      SlotFacts(s, addr, size);
      value := Decode(mainMemory[physicalAddress..physicalAddress + size]);
      assert s.memory[physicalAddress..physicalAddress + size] == mainMemory[physicalAddress..physicalAddress + size];
      ok := true;
    }

    /** Machine::WriteMem. */
    method WriteMem(addr: nat, size: nat, value: int) returns (ok: bool, stopped: bool)
      requires Inv(Now()) && ValidSize(size) && InSpace(Now(), addr)
      modifies this, mainMemory
      ensures var o := PagerAccess.WriteMem(old(Now()), addr, size, value);
              match o
              case Done(t, _) => ok && !stopped && Now() == t
              case Retry(t) => !ok && !stopped && Now() == t
              case Stop => !ok && stopped
    {
      ok, stopped := false, false;
      ghost var s := Now();
      var x, physicalAddress := Translate(addr, size, true);
      if x != NoException {
        assert Now() == s;
        stopped := RaiseException(x, addr);
        return;
      }
      SlotFacts(s, addr, size);
      Store(physicalAddress, Encode(value, size));
      ok := true;
    }

    /** The little-endian stores of WriteMem. */
    method Store(a: nat, bytes: seq<Byte>)
      requires a + |bytes| <= mainMemory.Length
      modifies mainMemory
      ensures mainMemory[..] == Splice(old(mainMemory[..]), a, bytes)
    {
      ghost var before := mainMemory[..];
      var i := 0;
      while i < |bytes|
        invariant 0 <= i <= |bytes|
        invariant forall m :: a <= m < a + i ==> mainMemory[m] == bytes[m - a]
        invariant forall m :: 0 <= m < a || a + i <= m < mainMemory.Length ==> mainMemory[m] == before[m]
      {
        mainMemory[a + i] := bytes[i];
        i := i + 1;
      }
      assert mainMemory[..] == Splice(before, a, bytes);
    }

    /** Machine::SafeReadMem: the retry loop makes at most two attempts. */
    method SafeReadMem(addr: nat, size: nat) returns (stopped: bool, value: int)
      requires Inv(Now()) && ValidSize(size) && InSpace(Now(), addr)
      modifies this, mainMemory
      ensures var o := SafeRead(old(Now()), addr, size);
              if o.Done? then !stopped && Now() == o.after && value == o.value else stopped
    {
      ghost var s := Now();
      var ok;
      ok, stopped, value := ReadMem(addr, size);
      ghost var attempts := 1;
      while !ok && !stopped
        invariant 1 <= attempts <= 2
        invariant attempts == 1 && !ok && !stopped ==> PagerAccess.ReadMem(s, addr, size) == Retry(Now())
        invariant attempts == 2 ==> ok || stopped
        invariant ok ==> !stopped && SafeRead(s, addr, size) == Done(Now(), value)
        invariant stopped ==> SafeRead(s, addr, size).Stop?
        decreases 2 - attempts
      {
        SecondRead(s, addr, size, Now());
        ok, stopped, value := ReadMem(addr, size);
        attempts := attempts + 1;
      }
    }

    /** Machine::SafeWriteMem. */
    method SafeWriteMem(addr: nat, size: nat, value: int) returns (stopped: bool)
      requires Inv(Now()) && ValidSize(size) && InSpace(Now(), addr)
      modifies this, mainMemory
      ensures var o := SafeWrite(old(Now()), addr, size, value);
              if o.Done? then !stopped && Now() == o.after else stopped
    {
      ghost var s := Now();
      var ok;
      ok, stopped := WriteMem(addr, size, value);
      ghost var attempts := 1;
      while !ok && !stopped
        invariant 1 <= attempts <= 2
        invariant attempts == 1 && !ok && !stopped ==> PagerAccess.WriteMem(s, addr, size, value) == Retry(Now())
        invariant attempts == 2 ==> ok || stopped
        invariant ok ==> !stopped && SafeWrite(s, addr, size, value) == Done(Now(), value)
        invariant stopped ==> SafeWrite(s, addr, size, value).Stop?
        decreases 2 - attempts
      {
        SecondWrite(s, addr, size, value, Now());
        ok, stopped := WriteMem(addr, size, value);
        attempts := attempts + 1;
      }
    }

    // -------------------------------------------------------------- context switch

    /** AddrSpace::SaveState.  `junk` is what the allocator returns for the new TLB. */
    method SaveState(junk: seq<Entry>)
      requires |junk| == |tlb|
      requires forall k :: 0 <= k < |tlb| ==> PageRef(current, tlb[k].virtualPage) in pageTable
      modifies this`tlb, this`pageTable
      ensures Now() == Saved(old(Now()), junk)
    {
      ghost var s := Now();
      var i := 0;
      while i < |tlb|
        invariant 0 <= i <= |tlb|
        invariant tlb == s.tlb && Now() == SavedSlots(s, i)
      {
        var p := PageRef(current, tlb[i].virtualPage);
        pageTable := pageTable[p := pageTable[p].(use := tlb[i].use, dirty := tlb[i].dirty)];
        i := i + 1;
      }
      tlb := EmptyTlb(junk);
    }

    /** AddrSpace::RestoreState for the space that Run switches to. */
    method RestoreState(next: nat, junk: seq<Entry>)
      modifies this`tlb, this`indexTLBSndChc, this`current
      ensures Now() == Restored(old(Now()), next, junk)
    {
      current := next;
      indexTLBSndChc := 0;
      tlb := EmptyTlb(junk);
    }
  }

  lemma LoadedFree(s: State, p: PageRef)
    requires Inv(s) && p in s.pageTable && p.space == s.current && !s.pageTable[p].valid && FirstClear(s.memMap) != -1
    ensures Loadable(s, p) && Fetchable(s, p) && !SwapExhausted(s)
    ensures Loaded(s, p) == Install(Fetched(s, p, FirstClear(s.memMap)), p)
  {
  }

  lemma LoadedEvicting(s: State, p: PageRef)
    requires Inv(s) && p in s.pageTable && p.space == s.current && !s.pageTable[p].valid
    requires FirstClear(s.memMap) == -1 && CanEvict(s)
    ensures Loadable(s, p)
    ensures var t, f := Evicted(s, Anonymous(s, p)), VictimFrame(s);
            && Inv(t) && Fetchable(t, p) && t.current == s.current && !t.pageTable[p].valid && !t.memMap[f]
            && FirstClear(t.memMap) == f && Loaded(s, p) == Install(Fetched(t, p, f), p)
  {
    EvictedReady(s, p);
    EvictedFrame(s, Anonymous(s, p));
  }

  lemma SamePageBack(store: seq<Byte>, k: nat)
    requires (k + 1) * PageSize <= |store|
    ensures WithPage(store, k, PageAt(store, k)) == store
  {
  }

  /** Marking the frame first, as Find does, changes nothing in the outcome. */
  lemma FetchMarked(s: State, p: PageRef, f: nat)
    requires Fetchable(s, p) && f < NumPhysPages
    ensures Fetchable(s.(memMap := s.memMap[f := true]), p)
    ensures Fetched(s.(memMap := s.memMap[f := true]), p, f) == Fetched(s, p, f)
  {
    var t := s.(memMap := s.memMap[f := true]);
    assert Shape(t);
    assert t.memMap[f := true] == s.memMap[f := true];
    assert Contents(t, p, f) == Contents(s, p, f);
  }

  lemma FrameSweptNone(s: State)
    requires s.frameHand < NumPhysPages
    ensures FrameSwept(s, 0) == s
  {
    assert FrameSwept(s, 0).pageTable == s.pageTable;
  }

  lemma TlbSweptNone(s: State)
    requires |s.tlb| == TLBSize && s.tlbHand < TLBSize
    ensures TlbSwept(s, 0) == s
  {
    var t := TlbSwept(s, 0);
    assert t.pageTable == s.pageTable;
    assert forall k :: 0 <= k < TLBSize ==> t.tlb[k] == s.tlb[k];
    assert t.tlb == s.tlb;
  }

  /** The slot under the hand names a page of the running space. */
  ghost predicate SlotReady(g: State) {
    g.tlbHand < |g.tlb| && PageRef(g.current, g.tlb[g.tlbHand].virtualPage) in g.pageTable
  }

  ghost function SlotSkipped(g: State): State
    requires SlotReady(g)
  {
    var k := g.tlbHand;
    var p := PageRef(g.current, g.tlb[k].virtualPage);
    g.(tlb := g.tlb[k := g.tlb[k].(use := false)],
       pageTable := g.pageTable[p := g.pageTable[p].(use := true, dirty := g.tlb[k].dirty)],
       tlbHand := (k + 1) % TLBSize)
  }

  ghost function SlotTaken(g: State): State
    requires SlotReady(g)
  {
    var k := g.tlbHand;
    var p := PageRef(g.current, g.tlb[k].virtualPage);
    g.(pageTable := g.pageTable[p := g.pageTable[p].(use := false, dirty := g.tlb[k].dirty)],
       tlbHand := (k + 1) % TLBSize)
  }

  /** Consecutive states of the TLB clock, each but the last at a used slot. */
  ghost predicate SlotSteps(path: seq<State>) {
    && (forall j :: 0 <= j < |path| ==> SlotReady(path[j]))
    && (forall j :: 0 < j < |path| ==> SlotStep(path[j - 1], path[j]))
  }

  ghost predicate SlotStep(g: State, h: State) {
    SlotReady(g) && g.tlb[g.tlbHand].use && h == SlotSkipped(g)
  }

  /** The states the TLB clock goes through: one per slot passed, at most one
      revolution, ending at the slot it takes. */
  lemma TlbPath(s: State) returns (path: seq<State>)
    requires Inv(s) && forall i :: 0 <= i < TLBSize ==> s.tlb[i].valid
    ensures 0 < |path| <= TLBSize + 1 && path[0] == s && SlotSteps(path)
    ensures var g := path[|path| - 1];
            !g.tlb[g.tlbHand].use && g.tlbHand == FreeSlot(s) && SlotTaken(g) == TlbClock(s)
  {
    var d := Clock.Distance(SlotUses(s.tlb), s.tlbHand);
    path := TlbPathTo(s, d);
    TlbSweptReady(s, d);
    TlbClockTakes(s, d);
  }

  lemma {:induction false} TlbPathTo(s: State, n: nat) returns (path: seq<State>)
    requires Inv(s) && forall i :: 0 <= i < TLBSize ==> s.tlb[i].valid
    requires n <= Clock.Distance(SlotUses(s.tlb), s.tlbHand)
    ensures |path| == n + 1 && path[0] == s && path[n] == TlbSwept(s, n) && SlotSteps(path)
  {
    if n == 0 {
      TlbSweptNone(s);
      TlbSweptReady(s, 0);
      path := [s];
    } else {
      path := TlbPathTo(s, n - 1);
      TlbSkips(s, n - 1);
      SlotStepsExtend(path, TlbSwept(s, n));
      path := path + [TlbSwept(s, n)];
    }
  }

  lemma SlotStepsExtend(path: seq<State>, g: State)
    requires 0 < |path| && SlotSteps(path) && SlotReady(g) && SlotStep(path[|path| - 1], g)
    ensures SlotSteps(path + [g])
  {
  }

  lemma TlbSweptReady(s: State, j: nat)
    requires Inv(s) && (forall i :: 0 <= i < TLBSize ==> s.tlb[i].valid)
    requires j <= Clock.Distance(SlotUses(s.tlb), s.tlbHand)
    ensures var t := TlbSwept(s, j);
            SlotReady(t) && (t.tlb[t.tlbHand].use <==> j < Clock.Distance(SlotUses(s.tlb), s.tlbHand))
  {
    TlbSweepUse(s, j);
    TlbSweptSlotNamed(s, j);
  }

  lemma TlbSkips(s: State, j: nat)
    requires Inv(s) && (forall i :: 0 <= i < TLBSize ==> s.tlb[i].valid)
    requires j < Clock.Distance(SlotUses(s.tlb), s.tlbHand)
    ensures SlotStep(TlbSwept(s, j), TlbSwept(s, j + 1)) && SlotReady(TlbSwept(s, j + 1))
  {
    assert FirstClear(SlotValids(s.tlb)) == -1;
    TlbSweptReady(s, j);
    TlbSweptReady(s, j + 1);
    TlbSweptSlotNamed(s, j);
    TlbSweepStep(s, j);
  }

  lemma TlbClockTakes(s: State, d: nat)
    requires Inv(s) && (forall i :: 0 <= i < TLBSize ==> s.tlb[i].valid)
    requires d == Clock.Distance(SlotUses(s.tlb), s.tlbHand)
    ensures SlotReady(TlbSwept(s, d)) && TlbSwept(s, d).tlbHand == FreeSlot(s)
    ensures SlotTaken(TlbSwept(s, d)) == TlbClock(s)
  {
    assert FirstClear(SlotValids(s.tlb)) == -1;
    TlbSweptSlotNamed(s, d);
  }

  /** The entry named for the frame under the hand exists. */
  ghost predicate FrameReady(g: State) {
    g.frameHand < |g.ipt| && g.ipt[g.frameHand].Some? && g.ipt[g.frameHand].value in g.pageTable
    && g.pageTable[g.ipt[g.frameHand].value].valid
  }

  ghost function FrameSkipped(g: State): State
    requires FrameReady(g)
  {
    var p := g.ipt[g.frameHand].value;
    g.(pageTable := g.pageTable[p := g.pageTable[p].(use := false)], frameHand := (g.frameHand + 1) % NumPhysPages)
  }

  ghost function FrameTaken(g: State): State {
    g.(frameHand := (g.frameHand + 1) % NumPhysPages)
  }

  /** Consecutive states of the frame clock, each but the last at a used frame. */
  ghost predicate FrameSteps(path: seq<State>) {
    && (forall j :: 0 <= j < |path| ==> FrameReady(path[j]))
    && (forall j :: 0 < j < |path| ==> FrameStep(path[j - 1], path[j]))
  }

  ghost predicate FrameStep(g: State, h: State) {
    FrameReady(g) && g.pageTable[g.ipt[g.frameHand].value].use && h == FrameSkipped(g)
  }

  /** The states the frame clock goes through. */
  lemma FramePath(s: State) returns (path: seq<State>)
    requires Inv(s) && AllFramesNamed(s) && FirstClear(s.memMap) == -1
    ensures 0 < |path| <= NumPhysPages + 1 && path[0] == s && FrameSteps(path)
    ensures var g := path[|path| - 1];
            && !g.pageTable[g.ipt[g.frameHand].value].use
            && g.frameHand == VictimFrame(s) && FrameTaken(g) == FrameClock(s)
  {
    var d := Clock.Distance(FrameUses(s), s.frameHand);
    path := FramePathTo(s, d);
    FrameSweptReady(s, d);
  }

  lemma {:induction false} FramePathTo(s: State, n: nat) returns (path: seq<State>)
    requires Inv(s) && AllFramesNamed(s) && FirstClear(s.memMap) == -1
    requires n <= Clock.Distance(FrameUses(s), s.frameHand)
    ensures |path| == n + 1 && path[0] == s && path[n] == FrameSwept(s, n) && FrameSteps(path)
  {
    if n == 0 {
      FrameSweptNone(s);
      FrameSweptReady(s, 0);
      path := [s];
    } else {
      path := FramePathTo(s, n - 1);
      FrameSkips(s, n - 1);
      FrameStepsExtend(path, FrameSwept(s, n));
      path := path + [FrameSwept(s, n)];
    }
  }

  lemma FrameStepsExtend(path: seq<State>, g: State)
    requires 0 < |path| && FrameSteps(path) && FrameReady(g) && FrameStep(path[|path| - 1], g)
    ensures FrameSteps(path + [g])
  {
  }

  lemma FrameSweptReady(s: State, j: nat)
    requires Inv(s) && AllFramesNamed(s) && FirstClear(s.memMap) == -1
    requires j <= Clock.Distance(FrameUses(s), s.frameHand)
    ensures var t := FrameSwept(s, j);
            && FrameReady(t)
            && (t.pageTable[t.ipt[t.frameHand].value].use <==> j < Clock.Distance(FrameUses(s), s.frameHand))
  {
    FrameSweepUse(s, j);
    assert s.memMap[Clock.Ring(s.frameHand, j, NumPhysPages)];
  }

  lemma FrameSkips(s: State, j: nat)
    requires Inv(s) && AllFramesNamed(s) && FirstClear(s.memMap) == -1
    requires j < Clock.Distance(FrameUses(s), s.frameHand)
    ensures FrameStep(FrameSwept(s, j), FrameSwept(s, j + 1)) && FrameReady(FrameSwept(s, j + 1))
  {
    FrameSweptReady(s, j);
    FrameSweptReady(s, j + 1);
    FrameSweepStep(s, j);
  }

  lemma TlbSweptSlotNamed(s: State, j: nat)
    requires Inv(s) && j <= TLBSize && forall i :: 0 <= i < TLBSize ==> s.tlb[i].valid
    ensures var t := TlbSwept(s, j);
            t.tlbHand < TLBSize && PageRef(t.current, t.tlb[t.tlbHand].virtualPage) in t.pageTable
            && t.tlb[t.tlbHand] == s.tlb[t.tlbHand].(use := t.tlb[t.tlbHand].use)
  {
    var k := Clock.Ring(s.tlbHand, j, TLBSize);
    assert OwnsFrame(s, PageRef(s.current, s.tlb[k].virtualPage), s.tlb[k].physicalPage);
  }
}
