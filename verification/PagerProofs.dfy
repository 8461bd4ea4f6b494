/**
 Every step of the pager keeps the ownership invariant `Inv` and the relation
 `Transparent` to the flat memory, and never forgets that a page is dirty.
 */
module PagerProofs {
  import opened Basics
  import opened PagerState
  import opened PagerSpec
  import Clock

  /** `t` is as good as `s`: what a step of the pager must establish. */
  ghost predicate Keeps(s: State, t: State, w: map<Loc, Byte>) {
    && Inv(t) && t.programs == s.programs && t.current == s.current
    && (forall p :: Dirty(s, p) ==> Dirty(t, p))
    && (Transparent(s, w) ==> Transparent(t, w))
  }

  // ---------------------------------------------------------------- framing

  /** Every page is where it was, whatever happened to the TLB and to use bits. */
  ghost predicate SameHomes(s: State, t: State) {
    && Shape(s) && Shape(t)
    && t.programs == s.programs && t.ipt == s.ipt
    && t.memMap == s.memMap && t.swapMap == s.swapMap && t.memory == s.memory && t.swap == s.swap
    && (forall p :: p in s.pageTable ==>
          && t.pageTable[p].valid == s.pageTable[p].valid
          && t.pageTable[p].physicalPage == s.pageTable[p].physicalPage
          && (!s.pageTable[p].valid ==> t.pageTable[p].dirty == s.pageTable[p].dirty))
  }

  lemma SameHomesOwned(s: State, t: State)
    requires SameHomes(s, t) && FramesOwned(s) && SlotsOwned(s)
    ensures FramesOwned(t) && SlotsOwned(t)
  {
    assert forall p, k :: OwnsFrame(s, p, k) <==> OwnsFrame(t, p, k);
    assert forall p, k :: OwnsSlot(s, p, k) <==> OwnsSlot(t, p, k);
    forall k | 0 <= k < SwapSize && t.swapMap[k] ensures exists p :: OwnsSlot(t, p, k) {
      var p :| OwnsSlot(s, p, k);
    }
  }

  lemma SameHomesTransparent(s: State, t: State, w: map<Loc, Byte>)
    requires SameHomes(s, t) && forall p :: Dirty(s, p) ==> Dirty(t, p)
    ensures Transparent(s, w) ==> Transparent(t, w)
  {
    if Transparent(s, w) {
      forall l ensures Faithful(t, w, l) { assert Faithful(s, w, l); }
    }
  }

  lemma OtherPage(store: seq<Byte>, k: nat, page: seq<Byte>, j: int, o: nat, b: Byte)
    requires (k + 1) * PageSize <= |store| && |page| == PageSize && o < PageSize && j != k
    ensures ByteAt(store, j, o, b) ==> ByteAt(WithPage(store, k, page), j, o, b)
  {
    assert ByteAt(store, j, o, b) ==> (j * PageSize + o) / PageSize != k;
  }

  lemma OwnPage(store: seq<Byte>, k: nat, page: seq<Byte>, o: nat)
    requires (k + 1) * PageSize <= |store| && |page| == PageSize && o < PageSize
    ensures ByteAt(WithPage(store, k, page), k, o, page[o])
  {
  }

  // ---------------------------------------------------------------- clocks

  /** `t` differs from `s` only in use bits, clock hands and page-table dirty bits that
      have caught up with the TLB. */
  ghost predicate Synced(s: State, t: State) {
    && Shape(s) && Shape(t)
    && t == s.(pageTable := t.pageTable, tlb := t.tlb, tlbHand := t.tlbHand, frameHand := t.frameHand)
    && (forall p :: p in s.pageTable ==>
          && t.pageTable[p] == s.pageTable[p].(use := t.pageTable[p].use, dirty := t.pageTable[p].dirty)
          && (s.pageTable[p].dirty ==> t.pageTable[p].dirty)
          && (t.pageTable[p].dirty ==> Dirty(s, p)))
    && (forall k :: 0 <= k < TLBSize ==> t.tlb[k] == s.tlb[k].(use := t.tlb[k].use))
  }

  lemma SyncedKeeps(s: State, t: State, w: map<Loc, Byte>)
    requires Inv(s) && Synced(s, t)
    ensures Keeps(s, t, w)
  {
    assert forall p, k :: Cached(s, p, k) <==> Cached(t, p, k);
    assert forall p, k :: Cached(s, p, k) ==> OwnsFrame(s, p, s.tlb[k].physicalPage);
    SameHomesOwned(s, t);
    SyncedCoherent(s, t);
    SameHomesTransparent(s, t, w);
  }

  lemma SyncedCoherent(s: State, t: State)
    requires Inv(s) && Synced(s, t)
    ensures TlbCoherent(t)
  {
    assert forall p, k, l :: Cached(s, p, k) && Cached(s, p, l) ==> k == l;
    forall k | 0 <= k < TLBSize && t.tlb[k].valid
      ensures var p := PageRef(t.current, t.tlb[k].virtualPage);
              OwnsFrame(t, p, t.tlb[k].physicalPage) && (t.pageTable[p].dirty ==> t.tlb[k].dirty)
    {
      var p := PageRef(t.current, t.tlb[k].virtualPage);
      assert Cached(s, p, k) && OwnsFrame(s, p, s.tlb[k].physicalPage);
    }
  }

  lemma FrameSweptSynced(s: State, j: nat, hand: nat)
    requires Inv(s) && j <= NumPhysPages && hand < NumPhysPages
    ensures Synced(s, FrameSwept(s, j).(frameHand := hand))
  {
  }

  lemma FrameClockSynced(s: State)
    requires Inv(s)
    ensures Synced(s, FrameClock(s))
  {
    FrameSweptSynced(s, Clock.Distance(FrameUses(s), s.frameHand), (VictimFrame(s) + 1) % NumPhysPages);
  }

  lemma SlotOfCached(s: State, p: PageRef)
    requires Inv(s)
    ensures SlotOf(s.tlb, p.vpn, 0) != -1 && p.space == s.current <==> InTlb(s, p)
    ensures forall k :: Cached(s, p, k) ==> k == SlotOf(s.tlb, p.vpn, 0)
  {
    if p.space == s.current && SlotOf(s.tlb, p.vpn, 0) != -1 {
      assert Cached(s, p, SlotOf(s.tlb, p.vpn, 0));
    }
  }

  lemma TlbSweptSynced(s: State, j: nat)
    requires Inv(s) && j <= TLBSize
    ensures Synced(s, TlbSwept(s, j))
  {
    var t := TlbSwept(s, j);
    forall p | p in s.pageTable
      ensures s.pageTable[p].dirty ==> t.pageTable[p].dirty
      ensures t.pageTable[p].dirty ==> Dirty(s, p)
    {
      SlotOfCached(s, p);
      if SlotPassed(s, p, j) {
        assert Cached(s, p, SlotOf(s.tlb, p.vpn, 0));
      }
    }
  }

  lemma WriteBackSynced(s: State, k: nat, use: bool, hand: nat)
    requires Inv(s) && k < TLBSize && s.tlb[k].valid && hand < TLBSize
    ensures Synced(s, WriteBack(s, k, use).(tlbHand := hand))
  {
    assert Cached(s, PageRef(s.current, s.tlb[k].virtualPage), k);
  }

  lemma SyncedTrans(s: State, u: State, t: State)
    requires Synced(s, u) && Synced(u, t)
    ensures Synced(s, t)
  {
    forall p | p in s.pageTable && t.pageTable[p].dirty ensures Dirty(s, p) {
      if !u.pageTable[p].dirty {
        var k :| Cached(u, p, k) && u.tlb[k].dirty;
        assert Cached(s, p, k);
      }
    }
  }

  /** Sweeping `j` slots and writing slot `v` back. */
  lemma SweepSynced(s: State, j: nat, v: nat, t: State)
    requires Inv(s) && j <= TLBSize && v < TLBSize && s.tlb[v].valid
    requires t == WriteBack(TlbSwept(s, j), v, false).(tlbHand := (v + 1) % TLBSize)
    ensures Synced(s, t)
  {
    var u := TlbSwept(s, j);
    TlbSweptSynced(s, j);
    SyncedKeeps(s, u, map[]);
    WriteBackSynced(u, v, false, (v + 1) % TLBSize);
    SyncedTrans(s, u, t);
  }

  /** The TLB clock changes use bits, its hand, and dirty bits that catch up with the TLB; the
      page of the slot it returns, if the slot is in use, has its dirty bit in the page table. */
  lemma TlbClockSynced(s: State)
    requires Inv(s)
    ensures Synced(s, TlbClock(s))
    ensures s.tlb[FreeSlot(s)].valid ==>
              var p := PageRef(s.current, s.tlb[FreeSlot(s)].virtualPage);
              p in s.pageTable && TlbClock(s).pageTable[p].dirty == s.tlb[FreeSlot(s)].dirty
  {
    if FirstClear(SlotValids(s.tlb)) == -1 {
      var v := Clock.Victim(SlotUses(s.tlb), s.tlbHand);
      assert SlotValids(s.tlb)[v];
      SweepSynced(s, Clock.Distance(SlotUses(s.tlb), s.tlbHand), v, TlbClock(s));
      assert OwnsFrame(s, PageRef(s.current, s.tlb[v].virtualPage), s.tlb[v].physicalPage);
    }
  }

  /** getNextSCTLB keeps everything, and the page of the slot it returns, if the slot
      is in use, has its dirty bit in the page table. */
  lemma TlbClockKeeps(s: State, w: map<Loc, Byte>)
    requires Inv(s)
    ensures Keeps(s, TlbClock(s), w)
    ensures forall k :: 0 <= k < TLBSize ==> TlbClock(s).tlb[k] == s.tlb[k].(use := TlbClock(s).tlb[k].use)
    ensures var t := TlbClock(s); t == s.(pageTable := t.pageTable, tlb := t.tlb, tlbHand := t.tlbHand)
    ensures forall p :: p in s.pageTable ==> TlbClock(s).pageTable[p].valid == s.pageTable[p].valid
    ensures s.tlb[FreeSlot(s)].valid ==>
              var p := PageRef(s.current, s.tlb[FreeSlot(s)].virtualPage);
              p in s.pageTable && TlbClock(s).pageTable[p].dirty == s.tlb[FreeSlot(s)].dirty
  {
    TlbClockSynced(s);
    SyncedKeeps(s, TlbClock(s), w);
  }

  /** Putting a resident page into the slot getNextSCTLB returns. */
  lemma InstallKeeps(s: State, p: PageRef, w: map<Loc, Byte>)
    requires Inv(s) && p in s.pageTable && p.space == s.current && s.pageTable[p].valid && !InTlb(s, p)
    ensures Keeps(s, Install(s, p), w)
    ensures InTlb(Install(s, p), p)
  {
    TlbClockKeeps(s, w);
    var t, k := TlbClock(s), FreeSlot(s);
    assert !InTlb(t, p) by { forall l ensures !Cached(t, p, l) { assert !Cached(s, p, l); } }
    ReplaceSlotKeeps(t, p, k, w);
    assert Cached(Install(s, p), p, k);
  }

  lemma ReplaceSlotKeeps(s: State, p: PageRef, k: nat, w: map<Loc, Byte>)
    requires Inv(s) && p in s.pageTable && p.space == s.current && s.pageTable[p].valid && !InTlb(s, p)
    requires k < TLBSize
    requires s.tlb[k].valid ==> s.pageTable[PageRef(s.current, s.tlb[k].virtualPage)].dirty == s.tlb[k].dirty
    ensures Keeps(s, s.(tlb := s.tlb[k := s.pageTable[p]]), w)
  {
    var t := s.(tlb := s.tlb[k := s.pageTable[p]]);
    assert forall q, l :: l != k ==> (Cached(t, q, l) <==> Cached(s, q, l));
    forall l | 0 <= l < TLBSize && l != k && s.tlb[l].valid ensures s.tlb[l].virtualPage != p.vpn {
      assert !Cached(s, p, l);
    }
    assert TlbCoherent(t);
    SameHomesOwned(s, t);
    SameHomesTransparent(s, t, w);
  }

  // ---------------------------------------------------------------- eviction

  lemma UnloadKeeps(s: State, p: PageRef, f: nat, w: map<Loc, Byte>)
    requires Inv(s) && OwnsFrame(s, p, f)
    ensures var t := Unload(s, p);
            && Keeps(s, t, w) && OwnsFrame(t, p, f) && !InTlb(t, p)
            && (t.pageTable[p].dirty <==> Dirty(s, p))
            && (forall q :: InTlb(t, q) ==> InTlb(s, q))
  {
    var t, k := Unload(s, p), SlotWithFrame(s.tlb, f, 0);
    if k == -1 {
      assert forall l :: !Cached(s, p, l);
    } else {
      assert OwnsFrame(s, PageRef(s.current, s.tlb[k].virtualPage), f);
      assert Cached(s, p, k);
      UnloadSlotKeeps(s, p, k, w);
    }
  }

  lemma UnloadSlotKeeps(s: State, p: PageRef, k: nat, w: map<Loc, Byte>)
    requires Inv(s) && p in s.pageTable && Cached(s, p, k)
    ensures var t := s.(tlb := s.tlb[k := s.tlb[k].(valid := false)],
                        pageTable := s.pageTable[p := s.pageTable[p].(use := s.tlb[k].use, dirty := s.tlb[k].dirty)]);
            && Keeps(s, t, w) && !InTlb(t, p)
            && (t.pageTable[p].dirty <==> Dirty(s, p))
            && (forall q :: InTlb(t, q) ==> InTlb(s, q))
  {
    var u := WriteBack(s, k, s.tlb[k].use).(tlbHand := s.tlbHand);
    WriteBackSynced(s, k, s.tlb[k].use, s.tlbHand);
    SyncedKeeps(s, u, w);
    assert forall l :: Cached(s, p, l) ==> l == k;
    InvalidateKeeps(u, p, k, w);
    assert forall q, l :: Cached(u, q, l) <==> Cached(s, q, l);
  }

  lemma InvalidateKeeps(s: State, p: PageRef, k: nat, w: map<Loc, Byte>)
    requires Inv(s) && p in s.pageTable && Cached(s, p, k) && s.pageTable[p].dirty == s.tlb[k].dirty
    ensures var t := s.(tlb := s.tlb[k := s.tlb[k].(valid := false)]);
            && Keeps(s, t, w)
            && (forall q, l :: Cached(t, q, l) <==> Cached(s, q, l) && q != p)
  {
    var t := s.(tlb := s.tlb[k := s.tlb[k].(valid := false)]);
    assert forall q, l :: Cached(t, q, l) <==> Cached(s, q, l) && l != k;
    assert forall l :: Cached(s, p, l) ==> l == k;
    SameHomesOwned(s, t);
    assert TlbCoherent(t);
    SameHomesTransparent(s, t, w);
  }

  /** Homes of pages other than `p` are untouched. */
  ghost predicate OthersStay(s: State, t: State, p: PageRef) {
    && Shape(s) && Shape(t)
    && t.programs == s.programs && t.current == s.current && t.tlb == s.tlb
    && (forall q :: q in s.pageTable && q != p ==> t.pageTable[q] == s.pageTable[q])
  }

  lemma SwapOutInv(s: State, p: PageRef, f: nat, k: nat)
    requires Inv(s) && OwnsFrame(s, p, f) && !InTlb(s, p) && s.pageTable[p].dirty
    requires f < NumPhysPages && k < SwapSize && !s.swapMap[k]
    ensures Inv(SwapOut(s, p, f, k))
  {
    var t := SwapOut(s, p, f, k);
    assert forall q, g :: OwnsFrame(t, q, g) <==> q != p && OwnsFrame(s, q, g);
    assert forall q, g :: OwnsSlot(t, q, g) <==> (q == p && g == k) || OwnsSlot(s, q, g);
    forall g | 0 <= g < SwapSize && t.swapMap[g] ensures exists q :: OwnsSlot(t, q, g) {
      if g == k {
        assert OwnsSlot(t, p, k);
      } else {
        var q :| OwnsSlot(s, q, g);
        assert OwnsSlot(t, q, g);
      }
    }
    UncachedCoherent(s, t, p);
  }

  lemma UncachedCoherent(s: State, t: State, p: PageRef)
    requires Inv(s) && OthersStay(s, t, p) && !InTlb(s, p)
    ensures TlbCoherent(t)
    ensures forall q, l :: Cached(t, q, l) <==> Cached(s, q, l)
    ensures forall q :: q != p ==> (Dirty(t, q) <==> Dirty(s, q))
  {
    assert forall q, l :: Cached(t, q, l) <==> Cached(s, q, l);
    forall k | 0 <= k < TLBSize && t.tlb[k].valid
      ensures var q := PageRef(t.current, t.tlb[k].virtualPage);
              OwnsFrame(t, q, t.tlb[k].physicalPage) && (t.pageTable[q].dirty ==> t.tlb[k].dirty)
    {
      var q := PageRef(s.current, s.tlb[k].virtualPage);
      assert Cached(s, q, k) && OwnsFrame(s, q, s.tlb[k].physicalPage);
    }
  }

  lemma SwapOutKeeps(s: State, p: PageRef, f: nat, k: nat, w: map<Loc, Byte>)
    requires Inv(s) && OwnsFrame(s, p, f) && !InTlb(s, p) && s.pageTable[p].dirty
    requires f < NumPhysPages && k < SwapSize && !s.swapMap[k]
    ensures Keeps(s, SwapOut(s, p, f, k), w)
  {
    var t := SwapOut(s, p, f, k);
    SwapOutInv(s, p, f, k);
    UncachedCoherent(s, t, p);
    if Transparent(s, w) {
      forall l ensures Faithful(t, w, l) { SwapOutFaithful(s, p, f, k, w, l); }
    }
  }

  lemma SwapOutFaithful(s: State, p: PageRef, f: nat, k: nat, w: map<Loc, Byte>, l: Loc)
    requires Inv(s) && OwnsFrame(s, p, f) && f < NumPhysPages && k < SwapSize && !s.swapMap[k]
    requires Faithful(s, w, l)
    ensures Faithful(SwapOut(s, p, f, k), w, l)
  {
    var o, b := l.addr % PageSize, Known(s.programs, w, l);
    if b.Some? && PageOf(l) == p {
      OwnPage(s.swap, k, PageAt(s.memory, f), o);
    } else if b.Some? && PageOf(l) in s.pageTable && !s.pageTable[PageOf(l)].valid && s.pageTable[PageOf(l)].dirty {
      OtherPage(s.swap, k, PageAt(s.memory, f), s.pageTable[PageOf(l)].physicalPage, o, b.value);
    }
  }

  lemma DropInv(s: State, p: PageRef, f: nat)
    requires Inv(s) && OwnsFrame(s, p, f) && !InTlb(s, p) && !s.pageTable[p].dirty && f < NumPhysPages
    ensures Inv(Drop(s, p, f))
  {
    var t := Drop(s, p, f);
    assert forall q, g :: OwnsFrame(t, q, g) <==> q != p && OwnsFrame(s, q, g);
    assert forall q, g :: OwnsSlot(t, q, g) <==> OwnsSlot(s, q, g);
    forall g | 0 <= g < SwapSize && t.swapMap[g] ensures exists q :: OwnsSlot(t, q, g) {
      var q :| OwnsSlot(s, q, g);
    }
    UncachedCoherent(s, t, p);
  }

  lemma DropKeeps(s: State, p: PageRef, f: nat, w: map<Loc, Byte>)
    requires Inv(s) && OwnsFrame(s, p, f) && !InTlb(s, p) && !s.pageTable[p].dirty && f < NumPhysPages
    ensures Keeps(s, Drop(s, p, f), w)
  {
    var t := Drop(s, p, f);
    DropInv(s, p, f);
    UncachedCoherent(s, t, p);
    assert !Dirty(s, p);
    if Transparent(s, w) {
      forall l ensures Faithful(t, w, l) { assert Faithful(s, w, l); }
    }
  }

  lemma MemoryFree(s: State, m: seq<Byte>)
    requires Inv(s) && |m| == MemorySize
    ensures Inv(s.(memory := m))
    ensures forall p :: Dirty(s.(memory := m), p) <==> Dirty(s, p)
  {
    var t := s.(memory := m);
    assert forall q, l :: Cached(t, q, l) <==> Cached(s, q, l);
    assert forall p, k :: OwnsFrame(s, p, k) <==> OwnsFrame(t, p, k);
    assert forall p, k :: OwnsSlot(s, p, k) <==> OwnsSlot(t, p, k);
    forall k | 0 <= k < SwapSize && t.swapMap[k] ensures exists p :: OwnsSlot(t, p, k) {
      var p :| OwnsSlot(s, p, k);
    }
  }

  /** A frame nobody owns may be overwritten. */
  lemma ScribbleKeeps(s: State, f: nat, page: seq<Byte>, w: map<Loc, Byte>)
    requires Inv(s) && f < NumPhysPages && !s.memMap[f] && |page| == PageSize
    ensures Keeps(s, s.(memory := WithPage(s.memory, f, page)), w)
  {
    var t := s.(memory := WithPage(s.memory, f, page));
    MemoryFree(s, t.memory);
    if Transparent(s, w) {
      forall l ensures Faithful(t, w, l) { ScribbleFaithful(s, f, page, w, l); }
    }
  }

  lemma ScribbleFaithful(s: State, f: nat, page: seq<Byte>, w: map<Loc, Byte>, l: Loc)
    requires Inv(s) && f < NumPhysPages && !s.memMap[f] && |page| == PageSize && Faithful(s, w, l)
    ensures Faithful(s.(memory := WithPage(s.memory, f, page)), w, l)
  {
    var b := Known(s.programs, w, l);
    if b.Some? && PageOf(l) in s.pageTable && s.pageTable[PageOf(l)].valid {
      OtherPage(s.memory, f, page, s.pageTable[PageOf(l)].physicalPage, l.addr % PageSize, b.value);
    }
  }

  /** What eviction does for a page that was not resident: nothing. */
  ghost predicate AbsentStay(s: State, t: State) {
    && (forall q :: q in s.pageTable && q in t.pageTable && !s.pageTable[q].valid ==> t.pageTable[q] == s.pageTable[q])
    && (forall q :: InTlb(t, q) ==> InTlb(s, q))
  }

  lemma FullyNamed(s: State)
    requires Inv(s) && FirstClear(s.memMap) == -1
    ensures AllFramesNamed(s)
  {
    forall f | 0 <= f < NumPhysPages ensures s.ipt[f].Some? && s.ipt[f].value in s.pageTable {
      assert s.memMap[f];
    }
  }

  /** Eviction goes through exactly when swap is not exhausted. */
  lemma CanEvictUnless(s: State)
    requires Inv(s) && FirstClear(s.memMap) == -1
    ensures CanEvict(s) <==> !SwapExhausted(s)
  {
    FullyNamed(s);
    ChosenKeeps(s, map[]);
  }

  lemma ChosenKeeps(s: State, w: map<Loc, Byte>)
    requires Inv(s) && FirstClear(s.memMap) == -1 && AllFramesNamed(s)
    ensures var t := Chosen(s);
            && Keeps(s, t, w)
            && OwnsFrame(t, VictimPage(s), VictimFrame(s)) && !InTlb(t, VictimPage(s))
            && t.memMap == s.memMap && t.swapMap == s.swapMap
  {
    var f, p, c := VictimFrame(s), VictimPage(s), FrameClock(s);
    assert s.memMap[f];
    FrameClockSynced(s);
    SyncedKeeps(s, c, w);
    UnloadKeeps(c, p, f, w);
  }

  lemma ChosenAbsentStay(s: State)
    requires Inv(s) && FirstClear(s.memMap) == -1 && AllFramesNamed(s)
    ensures AbsentStay(s, Chosen(s))
  {
    var p, c, t := VictimPage(s), FrameClock(s), Chosen(s);
    assert s.memMap[VictimFrame(s)];
    assert c.tlb == s.tlb && c.current == s.current;
    forall q | InTlb(t, q) ensures InTlb(s, q) {
      var k :| Cached(t, q, k);
      assert Cached(s, q, k);
    }
  }

  lemma AbsentStayTrans(s: State, t: State, u: State)
    requires s.pageTable.Keys == t.pageTable.Keys && AbsentStay(s, t) && t.current == u.current && t.tlb == u.tlb
    requires forall q :: q in t.pageTable && q in u.pageTable && !t.pageTable[q].valid ==>
               u.pageTable[q] == t.pageTable[q]
    ensures AbsentStay(s, u)
  {
    forall q | InTlb(u, q) ensures InTlb(s, q) {
      var k :| Cached(u, q, k);
      assert Cached(t, q, k);
    }
  }

  lemma KeepsTrans(s: State, t: State, u: State, w: map<Loc, Byte>)
    requires Inv(s) && Keeps(s, t, w) && Keeps(t, u, w)
    ensures Keeps(s, u, w)
  {
  }

  lemma EvictedAbsentStay(s: State, anonymous: bool)
    requires Inv(s) && FirstClear(s.memMap) == -1 && CanEvict(s)
    ensures AbsentStay(s, Evicted(s, anonymous))
  {
    ChosenKeeps(s, map[]);
    ChosenAbsentStay(s);
    EvictedTable(s, anonymous);
    ResidentLeaves(s, Chosen(s), Evicted(s, anonymous), VictimPage(s));
  }

  lemma ResidentLeaves(s: State, t: State, u: State, p: PageRef)
    requires s.pageTable.Keys == t.pageTable.Keys && AbsentStay(s, t) && t.current == u.current && t.tlb == u.tlb
    requires p in t.pageTable && t.pageTable[p].valid
    requires p in u.pageTable && u.pageTable == t.pageTable[p := u.pageTable[p]]
    ensures AbsentStay(s, u)
  {
    AbsentStayTrans(s, t, u);
  }

  lemma EvictedTable(s: State, anonymous: bool)
    requires CanEvict(s)
    ensures var t, u, p := Chosen(s), Evicted(s, anonymous), VictimPage(s);
            && p in u.pageTable && u.pageTable == t.pageTable[p := u.pageTable[p]] && !u.pageTable[p].valid
            && u.tlb == t.tlb && u.current == t.current
  {
  }

  lemma EvictedFrame(s: State, anonymous: bool)
    requires Inv(s) && FirstClear(s.memMap) == -1 && CanEvict(s)
    ensures var t := Evicted(s, anonymous);
            && t.memMap == s.memMap[VictimFrame(s) := false]
            && FirstClear(t.memMap) == VictimFrame(s)
  {
    ChosenKeeps(s, map[]);
    assert Evicted(s, anonymous).memMap == s.memMap[VictimFrame(s) := false];
    OnlyClear(s.memMap, VictimFrame(s));
  }

  lemma OnlyClear(bits: seq<bool>, f: nat)
    requires FirstClear(bits) == -1 && f < |bits|
    ensures FirstClear(bits[f := false]) == f
  {
    assert !bits[f := false][f];
  }

  /** With memory full, eviction frees exactly the victim's frame, and BitMap::Find
      then returns that frame. */
  lemma EvictedKeeps(s: State, anonymous: bool, w: map<Loc, Byte>)
    requires Inv(s) && FirstClear(s.memMap) == -1 && CanEvict(s)
    ensures var t := Evicted(s, anonymous);
            && Keeps(s, t, w) && AbsentStay(s, t)
            && t.memMap == s.memMap[VictimFrame(s) := false]
            && FirstClear(t.memMap) == VictimFrame(s)
  {
    EvictedFrame(s, anonymous);
    EvictedAbsentStay(s, anonymous);
    ChosenKeeps(s, w);
    RemovedKeeps(Chosen(s), VictimPage(s), VictimFrame(s), anonymous, w);
    KeepsTrans(s, Chosen(s), Evicted(s, anonymous), w);
  }

  lemma RemovedKeeps(s: State, p: PageRef, f: nat, anonymous: bool, w: map<Loc, Byte>)
    requires Inv(s) && OwnsFrame(s, p, f) && !InTlb(s, p) && f < NumPhysPages
    requires s.pageTable[p].dirty ==> FirstClear(s.swapMap) != -1
    ensures s.pageTable[p].dirty ==> Keeps(s, SwapOut(s, p, f, FirstClear(s.swapMap)), w)
    ensures !s.pageTable[p].dirty && !anonymous ==> Keeps(s, Drop(s, p, f), w)
    ensures !s.pageTable[p].dirty && anonymous ==>
              Keeps(s, Drop(s, p, f).(memory := WithPage(s.memory, f, Zeros())), w)
  {
    if s.pageTable[p].dirty {
      SwapOutKeeps(s, p, f, FirstClear(s.swapMap), w);
    } else {
      DropKeeps(s, p, f, w);
      var t := Drop(s, p, f);
      ScribbleKeeps(t, f, Zeros(), w);
      KeepsTrans(s, t, t.(memory := WithPage(t.memory, f, Zeros())), w);
    }
  }

  // ---------------------------------------------------------------- load

  lemma AbsentUncached(s: State, p: PageRef)
    requires Inv(s) && p in s.pageTable && !s.pageTable[p].valid
    ensures !InTlb(s, p)
  {
    forall l ensures !Cached(s, p, l) {
      assert Cached(s, p, l) ==> OwnsFrame(s, p, s.tlb[l].physicalPage);
    }
  }

  lemma FetchedFrames(s: State, p: PageRef, f: nat)
    requires Inv(s) && p in s.pageTable && !s.pageTable[p].valid && f < NumPhysPages && !s.memMap[f]
    ensures Shape(Fetched(s, p, f)) && FramesOwned(Fetched(s, p, f)) && OwnsFrame(Fetched(s, p, f), p, f)
  {
    FrameFilled(s, Fetched(s, p, f), p, f);
  }

  lemma FrameFilled(s: State, t: State, p: PageRef, f: nat)
    requires Shape(s) && Shape(t) && FramesOwned(s) && p in s.pageTable && !s.pageTable[p].valid
    requires f < NumPhysPages && !s.memMap[f] && t.memMap == s.memMap[f := true] && t.ipt == s.ipt[f := Some(p)]
    requires t.pageTable == s.pageTable[p := s.pageTable[p].(valid := true, physicalPage := f)]
    ensures FramesOwned(t) && OwnsFrame(t, p, f)
  {
    assert forall q, g :: OwnsFrame(t, q, g) <==> (q == p && g == f) || OwnsFrame(s, q, g);
  }

  lemma FetchedSlots(s: State, p: PageRef, f: nat)
    requires Inv(s) && p in s.pageTable && !s.pageTable[p].valid && f < NumPhysPages && !s.memMap[f]
    requires Shape(Fetched(s, p, f))
    ensures SlotsOwned(Fetched(s, p, f))
  {
    SlotReleased(s, Fetched(s, p, f), p);
  }

  lemma SlotReleased(s: State, t: State, p: PageRef)
    requires Shape(s) && SlotsOwned(s) && Shape(t) && p in s.pageTable && !s.pageTable[p].valid
    requires t.pageTable.Keys == s.pageTable.Keys && t.pageTable[p].valid
    requires forall q :: q in s.pageTable && q != p ==> t.pageTable[q] == s.pageTable[q]
    requires t.swapMap == if s.pageTable[p].dirty then s.swapMap[s.pageTable[p].physicalPage := false] else s.swapMap
    ensures SlotsOwned(t)
  {
    var k := s.pageTable[p].physicalPage;
    assert forall q, g :: OwnsSlot(t, q, g) <==> q != p && OwnsSlot(s, q, g);
    assert s.pageTable[p].dirty ==> OwnsSlot(s, p, k);
    forall g | 0 <= g < SwapSize && t.swapMap[g] ensures exists q :: OwnsSlot(t, q, g) {
      var q :| OwnsSlot(s, q, g);
      assert OwnsSlot(t, q, g);
    }
    forall q | q in t.pageTable && !t.pageTable[q].valid && t.pageTable[q].dirty
      ensures 0 <= t.pageTable[q].physicalPage < SwapSize && t.swapMap[t.pageTable[q].physicalPage]
    {
      assert OwnsSlot(s, q, s.pageTable[q].physicalPage);
    }
  }

  lemma FetchedInv(s: State, p: PageRef, f: nat)
    requires Inv(s) && p in s.pageTable && !s.pageTable[p].valid && f < NumPhysPages && !s.memMap[f]
    ensures Inv(Fetched(s, p, f)) && OwnsFrame(Fetched(s, p, f), p, f)
    ensures forall q :: Dirty(s, q) ==> Dirty(Fetched(s, p, f), q)
    ensures forall q :: InTlb(Fetched(s, p, f), q) ==> InTlb(s, q)
  {
    FetchedFrames(s, p, f);
    FetchedSlots(s, p, f);
    AbsentUncached(s, p);
    UncachedCoherent(s, Fetched(s, p, f), p);
  }

  /** Bringing an absent page into a free frame. */
  lemma FetchedKeeps(s: State, p: PageRef, f: nat, w: map<Loc, Byte>)
    requires Inv(s) && p in s.pageTable && !s.pageTable[p].valid && f < NumPhysPages && !s.memMap[f]
    ensures Keeps(s, Fetched(s, p, f), w)
  {
    FetchedInv(s, p, f);
    if Transparent(s, w) {
      forall l ensures Faithful(Fetched(s, p, f), w, l) { FetchedFaithful(s, p, f, w, l); }
    }
  }

  lemma FetchedFaithful(s: State, p: PageRef, f: nat, w: map<Loc, Byte>, l: Loc)
    requires Inv(s) && p in s.pageTable && !s.pageTable[p].valid && f < NumPhysPages && !s.memMap[f]
    requires Transparent(s, w)
    ensures Faithful(Fetched(s, p, f), w, l)
  {
    var q, o, b := PageOf(l), l.addr % PageSize, Known(s.programs, w, l);
    assert Faithful(s, w, l);
    if b.Some? && q == p {
      ContentsByte(s, p, f, w, l);
      OwnPage(s.memory, f, Contents(s, p, f), o);
    } else if b.Some? && q in s.pageTable && s.pageTable[q].valid {
      OtherPage(s.memory, f, Contents(s, p, f), s.pageTable[q].physicalPage, o, b.value);
    }
  }

  /** The bytes fetched for an absent page are the promised ones. */
  lemma ContentsByte(s: State, p: PageRef, f: nat, w: map<Loc, Byte>, l: Loc)
    requires Inv(s) && p in s.pageTable && !s.pageTable[p].valid && f < NumPhysPages
    requires Transparent(s, w) && PageOf(l) == p && Known(s.programs, w, l).Some?
    ensures Contents(s, p, f)[l.addr % PageSize] == Known(s.programs, w, l).value
  {
    assert Faithful(s, w, l);
    if !s.pageTable[p].dirty {
      AbsentUncached(s, p);
      assert !Dirty(s, p);
      assert l !in w;
    }
  }

  lemma EvictedReady(s: State, p: PageRef)
    requires Inv(s) && p in s.pageTable && p.space < |s.programs| && !s.pageTable[p].valid
    requires FirstClear(s.memMap) == -1 && CanEvict(s)
    ensures var t := Evicted(s, Anonymous(s, p));
            && Inv(t) && Fetchable(t, p) && !t.pageTable[p].valid && !t.memMap[VictimFrame(s)]
            && (InTlb(t, p) ==> InTlb(s, p))
  {
    EvictedKeeps(s, Anonymous(s, p), map[]);
  }

  /** A page of the running space whose load will not stop the machine. */
  ghost predicate Loadable(s: State, p: PageRef) {
    && Inv(s) && p in s.pageTable && p.space == s.current
    && (!s.pageTable[p].valid && FirstClear(s.memMap) == -1 ==> CanEvict(s))
  }

  /** AddrSpace::load, factored: an absent page gets the first free frame, or the
      victim's frame when there is none, and any page then enters the TLB. */
  function Loaded(s: State, p: PageRef): (t: State)
    requires Loadable(s, p)
  {
    if s.pageTable[p].valid then Install(s, p)
    else if FirstClear(s.memMap) != -1 then
      Install(Fetched(s, p, FirstClear(s.memMap)), p)
    else
      EvictedReady(s, p);
      Install(Fetched(Evicted(s, Anonymous(s, p)), p, VictimFrame(s)), p)
  }

  /** Fetching into a free frame and installing in the TLB. */
  lemma FetchInstallKeeps(s: State, p: PageRef, f: nat, w: map<Loc, Byte>)
    requires Inv(s) && p in s.pageTable && p.space == s.current && !s.pageTable[p].valid && !InTlb(s, p)
    requires f < NumPhysPages && !s.memMap[f]
    ensures Keeps(s, Install(Fetched(s, p, f), p), w)
    ensures InTlb(Install(Fetched(s, p, f), p), p)
  {
    FetchedInv(s, p, f);
    FetchedKeeps(s, p, f, w);
    InstallKeeps(Fetched(s, p, f), p, w);
    KeepsTrans(s, Fetched(s, p, f), Install(Fetched(s, p, f), p), w);
  }

  /** Every load keeps the ownership invariant and the flat memory, and leaves the
      page in the TLB. */
  lemma LoadedKeeps(s: State, p: PageRef, w: map<Loc, Byte>)
    requires Loadable(s, p) && !InTlb(s, p)
    ensures Keeps(s, Loaded(s, p), w)
    ensures InTlb(Loaded(s, p), p)
  {
    if s.pageTable[p].valid {
      InstallKeeps(s, p, w);
    } else if FirstClear(s.memMap) != -1 {
      FetchInstallKeeps(s, p, FirstClear(s.memMap), w);
    } else {
      var t := Evicted(s, Anonymous(s, p));
      EvictedReady(s, p);
      EvictedKeeps(s, Anonymous(s, p), w);
      FetchInstallKeeps(t, p, VictimFrame(s), w);
      KeepsTrans(s, t, Loaded(s, p), w);
    }
  }
}
