/** How one iteration of each clock loop relates to the closed forms of PagerSpec. */
module PagerClocks {
  import opened Basics
  import opened PagerState
  import opened PagerSpec
  import opened PagerProofs
  import Clock

  /** The frame clock goes on exactly while it has not travelled its distance. */
  lemma FrameSweepUse(s: State, j: nat)
    requires Inv(s) && AllFramesNamed(s) && FirstClear(s.memMap) == -1
    requires j <= Clock.Distance(FrameUses(s), s.frameHand)
    ensures var t := FrameSwept(s, j);
            var p := s.ipt[t.frameHand].value;
            p in t.pageTable && (t.pageTable[p].use <==> j < Clock.Distance(FrameUses(s), s.frameHand))
  {
    var h := Clock.Ring(s.frameHand, j, NumPhysPages);
    Clock.SweepStep(FrameUses(s), s.frameHand, j);
    assert s.memMap[h];
    assert FrameUses(s)[h] == s.pageTable[s.ipt[h].value].use;
  }

  /** Passing frame `j` of the sweep clears one more use bit. */
  lemma FrameSweepStep(s: State, j: nat)
    requires Inv(s) && AllFramesNamed(s) && FirstClear(s.memMap) == -1 && j < NumPhysPages
    ensures var t := FrameSwept(s, j);
            var p := s.ipt[t.frameHand].value;
            && p in t.pageTable
            && FrameSwept(s, j + 1) == t.(pageTable := t.pageTable[p := t.pageTable[p].(use := false)],
                                          frameHand := (t.frameHand + 1) % NumPhysPages)
  {
    var h := Clock.Ring(s.frameHand, j, NumPhysPages);
    assert s.memMap[h];
    RingNext(s.frameHand, j);
    FrameSweepTable(s, j, h, s.ipt[h].value);
    var t, u := FrameSwept(s, j), FrameSwept(s, j + 1);
    assert u == t.(pageTable := u.pageTable, frameHand := u.frameHand);
  }

  lemma RingNext(hand: nat, j: nat)
    requires hand < NumPhysPages && j < NumPhysPages
    ensures Clock.Ring(hand, j + 1, NumPhysPages) == (Clock.Ring(hand, j, NumPhysPages) + 1) % NumPhysPages
  {
  }

  lemma FrameSweepTable(s: State, j: nat, h: nat, p: PageRef)
    requires Inv(s) && j < NumPhysPages && h == Clock.Ring(s.frameHand, j, NumPhysPages) && OwnsFrame(s, p, h)
    ensures var t := FrameSwept(s, j).pageTable;
            FrameSwept(s, j + 1).pageTable == t[p := t[p].(use := false)]
  {
    var t, u := FrameSwept(s, j).pageTable, FrameSwept(s, j + 1).pageTable;
    forall q | q in s.pageTable ensures u[q] == t[p := t[p].(use := false)][q] {
      FramePassed(s, j, h, p, q);
    }
  }

  /** One more frame passed is one more owner passed. */
  lemma FramePassed(s: State, j: nat, h: nat, p: PageRef, q: PageRef)
    requires Inv(s) && j < NumPhysPages && h == Clock.Ring(s.frameHand, j, NumPhysPages) && OwnsFrame(s, p, h)
    requires q in s.pageTable
    ensures Passed(s, s.pageTable[q], j + 1) <==> Passed(s, s.pageTable[q], j) || q == p
  {
    if s.pageTable[q].valid {
      Clock.AheadRing(s.frameHand, s.pageTable[q].physicalPage, j, NumPhysPages);
      assert s.pageTable[q].physicalPage == h <==> q == p;
    }
  }

  /** The TLB clock goes on exactly while it has not travelled its distance. */
  lemma TlbSweepUse(s: State, j: nat)
    requires |s.tlb| == TLBSize && s.tlbHand < TLBSize && j <= Clock.Distance(SlotUses(s.tlb), s.tlbHand)
    ensures var t := TlbSwept(s, j);
            t.tlb[t.tlbHand].use <==> j < Clock.Distance(SlotUses(s.tlb), s.tlbHand)
  {
    Clock.SweepStep(SlotUses(s.tlb), s.tlbHand, j);
  }

  /** Passing slot `j` of the sweep clears its use bit and writes it back as used. */
  lemma TlbSweepStep(s: State, j: nat)
    requires Inv(s) && FirstClear(SlotValids(s.tlb)) == -1
    requires j < Clock.Distance(SlotUses(s.tlb), s.tlbHand)
    ensures var t := TlbSwept(s, j);
            var k := t.tlbHand;
            var p := PageRef(s.current, s.tlb[k].virtualPage);
            && p in t.pageTable
            && var e := t.pageTable[p].(use := true, dirty := s.tlb[k].dirty);
               TlbSwept(s, j + 1) == t.(tlb := t.tlb[k := t.tlb[k].(use := false)],
                                        pageTable := t.pageTable[p := e],
                                        tlbHand := (k + 1) % TLBSize)
  {
    var k := Clock.Ring(s.tlbHand, j, TLBSize);
    assert SlotValids(s.tlb)[k];
    TlbSweepTable(s, j, k);
    TlbSweepSlots(s, j, k);
    RingNext(s.tlbHand, j);
    var t, u := TlbSwept(s, j), TlbSwept(s, j + 1);
    assert u == t.(pageTable := u.pageTable, tlb := u.tlb, tlbHand := u.tlbHand);
  }

  lemma TlbSweepSlots(s: State, j: nat, k: nat)
    requires |s.tlb| == TLBSize && s.tlbHand < TLBSize
    requires j < Clock.Distance(SlotUses(s.tlb), s.tlbHand) && k == Clock.Ring(s.tlbHand, j, TLBSize)
    ensures var t := TlbSwept(s, j).tlb; TlbSwept(s, j + 1).tlb == t[k := t[k].(use := false)]
  {
    Clock.SweepStep(SlotUses(s.tlb), s.tlbHand, j);
  }

  lemma TlbSweepTable(s: State, j: nat, k: nat)
    requires Inv(s) && j < TLBSize && k == Clock.Ring(s.tlbHand, j, TLBSize) && s.tlb[k].valid
    ensures var p := PageRef(s.current, s.tlb[k].virtualPage);
            var t := TlbSwept(s, j).pageTable;
            p in s.pageTable &&
            TlbSwept(s, j + 1).pageTable == t[p := t[p].(use := true, dirty := s.tlb[k].dirty)]
  {
    var p := PageRef(s.current, s.tlb[k].virtualPage);
    assert OwnsFrame(s, p, s.tlb[k].physicalPage);
    var t, u := TlbSwept(s, j).pageTable, TlbSwept(s, j + 1).pageTable;
    forall q | q in s.pageTable ensures u[q] == t[p := t[p].(use := true, dirty := s.tlb[k].dirty)][q] {
      SlotReached(s, j, k, q);
    }
  }

  lemma SlotReached(s: State, j: nat, k: nat, q: PageRef)
    requires Inv(s) && j < TLBSize && k == Clock.Ring(s.tlbHand, j, TLBSize) && s.tlb[k].valid
    ensures SlotPassed(s, q, j + 1) <==> SlotPassed(s, q, j) || q == PageRef(s.current, s.tlb[k].virtualPage)
    ensures q == PageRef(s.current, s.tlb[k].virtualPage) ==> SlotOf(s.tlb, q.vpn, 0) == k
  {
    var l := SlotOf(s.tlb, q.vpn, 0);
    SlotOfCached(s, q);
    if q == PageRef(s.current, s.tlb[k].virtualPage) { assert Cached(s, q, k); }
    if l != -1 { Clock.AheadRing(s.tlbHand, l, j, TLBSize); }
  }

  /** getNextSCSWAP: the victim is the first frame from the hand whose owner's use bit is
      clear, or the hand's frame if all are set. */
  lemma FrameClockPicks(s: State)
    requires |s.ipt| == NumPhysPages && s.frameHand < NumPhysPages
    ensures var v, hand := VictimFrame(s), s.frameHand;
            && (if forall f :: 0 <= f < NumPhysPages ==> OwnerUses(s, f) then v == hand else !OwnerUses(s, v))
            && (forall f :: 0 <= f < NumPhysPages && Clock.Before(hand, f, v, NumPhysPages) ==> OwnerUses(s, f))
            && FrameClock(s).frameHand == (v + 1) % NumPhysPages
  {
    var uses := FrameUses(s);
    assert forall f :: 0 <= f < NumPhysPages ==> uses[f] == OwnerUses(s, f);
    Clock.VictimExact(uses, s.frameHand);
  }

  /** Exactly the owners of the frames passed lose their use bits; nothing else changes but
      the hand. */
  lemma FrameClockClears(s: State, p: PageRef)
    requires Inv(s) && p in s.pageTable
    ensures var t, e := FrameClock(s), s.pageTable[p];
            var distance := Clock.Distance(FrameUses(s), s.frameHand);
            var passed := e.valid && Clock.Ahead(s.frameHand, e.physicalPage, NumPhysPages) < distance;
            && t.pageTable.Keys == s.pageTable.Keys && t.pageTable[p] == (if passed then e.(use := false) else e)
            && t == s.(pageTable := t.pageTable, frameHand := t.frameHand)
  {
    assert s.pageTable[p].valid ==> 0 <= s.pageTable[p].physicalPage < NumPhysPages;
  }

  /** getNextSCTLB takes the first invalid slot if there is one; on a full TLB it takes the
      first slot from the hand whose use bit is clear, or the hand's slot if all are set. */
  lemma TlbClockPicks(s: State)
    requires |s.tlb| == TLBSize && s.tlbHand < TLBSize
    ensures var v, hand := FreeSlot(s), s.tlbHand;
            if exists i :: 0 <= i < TLBSize && !s.tlb[i].valid
            then !s.tlb[v].valid && (forall i :: 0 <= i < v ==> s.tlb[i].valid)
            else && (if forall i :: 0 <= i < TLBSize ==> s.tlb[i].use then v == hand else !s.tlb[v].use)
                 && (forall i :: 0 <= i < TLBSize && Clock.Before(hand, i, v, TLBSize) ==> s.tlb[i].use)
  {
    var valids, uses := SlotValids(s.tlb), SlotUses(s.tlb);
    assert forall i :: 0 <= i < TLBSize ==> valids[i] == s.tlb[i].valid && uses[i] == s.tlb[i].use;
    Clock.VictimExact(uses, s.tlbHand);
  }

  /** What the sweep does to the entry of the page in slot `k`, before the victim's. */
  lemma TlbSweptEntry(s: State, k: nat, j: nat)
    requires Inv(s) && k < TLBSize && s.tlb[k].valid && j <= TLBSize
    ensures var t, p := TlbSwept(s, j), PageRef(s.current, s.tlb[k].virtualPage);
            && p in s.pageTable && p in t.pageTable
            && t.pageTable[p] == if Clock.Ahead(s.tlbHand, k, TLBSize) < j
                                 then s.pageTable[p].(use := true, dirty := s.tlb[k].dirty) else s.pageTable[p]
  {
    var p := PageRef(s.current, s.tlb[k].virtualPage);
    assert OwnsFrame(s, p, s.tlb[k].physicalPage);
    SlotOfCached(s, p);
    assert Cached(s, p, k);
  }

  /** The sweep on a full TLB saves every slot it visits: a slot passed gives its use bit to
      its page's entry, the victim leaves that bit clear, and both store their dirty bit; a
      slot not reached keeps everything. */
  lemma TlbClockSaves(s: State, k: nat)
    requires Inv(s) && FirstClear(SlotValids(s.tlb)) == -1 && k < TLBSize
    ensures var t, p := TlbClock(s), PageRef(s.current, s.tlb[k].virtualPage);
            var passed := Clock.Ahead(s.tlbHand, k, TLBSize) < Clock.Distance(SlotUses(s.tlb), s.tlbHand);
            && p in s.pageTable && p in t.pageTable && |t.tlb| == TLBSize && t.tlbHand == (FreeSlot(s) + 1) % TLBSize
            && t.tlb[k] == s.tlb[k].(use := s.tlb[k].use && !passed)
            && t.pageTable[p] == (if k == FreeSlot(s) then s.pageTable[p].(use := false, dirty := s.tlb[k].dirty)
                                  else if passed then s.pageTable[p].(use := true, dirty := s.tlb[k].dirty)
                                  else s.pageTable[p])
  {
    var v, d := FreeSlot(s), Clock.Distance(SlotUses(s.tlb), s.tlbHand);
    assert SlotValids(s.tlb)[k] && SlotValids(s.tlb)[v];
    TlbSweptEntry(s, k, d);
    TlbSweptEntry(s, v, d);
    assert k != v ==> s.tlb[k].virtualPage != s.tlb[v].virtualPage;
  }
}
