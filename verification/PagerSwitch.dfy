/**
 Context switches (AddrSpace::SaveState and RestoreState as Scheduler::Run calls
 them), creation of address spaces, and the capacity of the swap file.
 */
module PagerSwitch {
  import opened Basics
  import opened PagerState
  import opened PagerSpec
  import opened PagerProofs

  // ---------------------------------------------------------------- SaveState

  /** The first `n` iterations of SaveState's copy loop.  It copies from every slot,
      valid or not. */
  function SavedSlots(s: State, n: nat): (t: State)
    requires n <= |s.tlb|
    ensures t == s.(pageTable := t.pageTable)
    ensures t.pageTable.Keys == s.pageTable.Keys
  {
    if n == 0 then s else WriteBack(SavedSlots(s, n - 1), n - 1, s.tlb[n - 1].use)
  }

  /** A newly allocated TLB: slots hold whatever the allocator returned, all invalid. */
  function EmptyTlb(junk: seq<Entry>): (tlb: seq<Entry>)
    ensures |tlb| == |junk|
    ensures forall k :: 0 <= k < |tlb| ==> !tlb[k].valid
  {
    seq(|junk|, k requires 0 <= k < |junk| => junk[k].(valid := false))
  }

  function Saved(s: State, junk: seq<Entry>): (t: State) {
    SavedSlots(s, |s.tlb|).(tlb := EmptyTlb(junk))
  }

  /** RestoreState for space `next`. */
  function Restored(s: State, next: nat, junk: seq<Entry>): (t: State) {
    s.(tlb := EmptyTlb(junk), tlbHand := 0, current := next)
  }

  function SlotPage(s: State, k: nat): PageRef
    requires k < |s.tlb|
  {
    PageRef(s.current, s.tlb[k].virtualPage)
  }

  /** No later slot, valid or not, names the page of slot `k`. */
  predicate LastNaming(s: State, k: nat)
    requires k < |s.tlb|
  {
    forall l :: k < l < |s.tlb| ==> s.tlb[l].virtualPage != s.tlb[k].virtualPage
  }

  /** SaveState indexes its page table with every slot's page number. */
  ghost predicate SlotsNamePages(s: State) {
    forall k :: 0 <= k < |s.tlb| ==> SlotPage(s, k) in s.pageTable
  }

  /** What a caller of SaveState has to check: the last slot naming a page is dirty if
      the page is, and is not dirty if the page is absent and clean. */
  ghost predicate SafeToSave(s: State) {
    && SlotsNamePages(s)
    && forall k :: 0 <= k < |s.tlb| && LastNaming(s, k) ==>
         && (Dirty(s, SlotPage(s, k)) ==> s.tlb[k].dirty)
         && (!s.pageTable[SlotPage(s, k)].valid && s.tlb[k].dirty ==> s.pageTable[SlotPage(s, k)].dirty)
  }

  /** The last of the first `n` slots that names `p`; -1 if none does. */
  function LastSlot(s: State, p: PageRef, n: nat): (k: int)
    requires n <= |s.tlb|
    ensures k != -1 ==> 0 <= k < n && SlotPage(s, k) == p
    ensures forall l :: 0 <= l < n && SlotPage(s, l) == p ==> l <= k
  {
    if n == 0 then -1 else if SlotPage(s, n - 1) == p then n - 1 else LastSlot(s, p, n - 1)
  }

  lemma {:induction false} SavedDirty(s: State, n: nat, p: PageRef)
    requires n <= |s.tlb| && p in s.pageTable
    ensures var e := SavedSlots(s, n).pageTable[p];
            var k := LastSlot(s, p, n);
            e == if k == -1 then s.pageTable[p] else s.pageTable[p].(use := s.tlb[k].use, dirty := s.tlb[k].dirty)
  {
    if n > 0 {
      SavedDirty(s, n - 1, p);
    }
  }

  lemma LastNamingIs(s: State, k: nat)
    requires |s.tlb| == TLBSize && k < TLBSize && LastNaming(s, k)
    ensures LastSlot(s, SlotPage(s, k), TLBSize) == k
  {
    assert SlotPage(s, LastSlot(s, SlotPage(s, k), TLBSize)) == SlotPage(s, k);
  }

  /** A TLB with every slot in use is safe to save. */
  lemma FullTlbSafe(s: State)
    requires Inv(s) && forall k :: 0 <= k < TLBSize ==> s.tlb[k].valid
    ensures SafeToSave(s)
  {
    forall k | 0 <= k < TLBSize
      ensures SlotPage(s, k) in s.pageTable && (s.tlb[k].dirty <==> Dirty(s, SlotPage(s, k)))
    {
      assert OwnsFrame(s, SlotPage(s, k), s.tlb[k].physicalPage);
      assert Cached(s, SlotPage(s, k), k);
      assert forall l :: Cached(s, SlotPage(s, k), l) ==> l == k;
    }
  }

  /** The state after the switch. */
  function Switched(s: State, next: nat, junk1: seq<Entry>, junk2: seq<Entry>): (t: State) {
    Restored(Saved(s, junk1), next, junk2)
  }

  /** What a switch does to one page: its home stays, its bits come from the last slot
      naming it. */
  lemma SwitchedEntry(s: State, next: nat, junk1: seq<Entry>, junk2: seq<Entry>, p: PageRef)
    requires |s.tlb| == TLBSize && p in s.pageTable
    ensures var t, k := Switched(s, next, junk1, junk2), LastSlot(s, p, TLBSize);
            && p in t.pageTable
            && t.pageTable[p] == (if k == -1 then s.pageTable[p]
                                  else s.pageTable[p].(use := s.tlb[k].use, dirty := s.tlb[k].dirty))
            && (Dirty(t, p) <==> t.pageTable[p].dirty)
  {
    SavedDirty(s, TLBSize, p);
    var t := Switched(s, next, junk1, junk2);
    assert forall l :: !Cached(t, p, l);
  }

  lemma LastSlotNames(s: State, p: PageRef)
    requires |s.tlb| == TLBSize && LastSlot(s, p, TLBSize) != -1
    ensures LastNaming(s, LastSlot(s, p, TLBSize))
  {
    var k := LastSlot(s, p, TLBSize);
    forall l | k < l < TLBSize ensures s.tlb[l].virtualPage != s.tlb[k].virtualPage {
      assert SlotPage(s, l) != p;
    }
  }

  /** No slot names the page, so its dirty mark is the page table's. */
  lemma UnnamedDirty(s: State, p: PageRef)
    requires |s.tlb| == TLBSize && LastSlot(s, p, TLBSize) == -1
    ensures forall l :: !Cached(s, p, l)
  {
    forall l ensures !Cached(s, p, l) { assert Cached(s, p, l) ==> SlotPage(s, l) == p; }
  }

  lemma SwitchedPage(s: State, next: nat, junk1: seq<Entry>, junk2: seq<Entry>, p: PageRef)
    requires Inv(s) && SafeToSave(s) && p in s.pageTable
    ensures var t := Switched(s, next, junk1, junk2);
            && p in t.pageTable && (Dirty(s, p) ==> Dirty(t, p))
            && (!s.pageTable[p].valid ==> t.pageTable[p].dirty == s.pageTable[p].dirty)
  {
    var k := LastSlot(s, p, TLBSize);
    SwitchedEntry(s, next, junk1, junk2, p);
    if k == -1 {
      UnnamedDirty(s, p);
    } else {
      LastSlotNames(s, p);
    }
  }

  /** An entry may change its use and dirty bits, but not its dirty bit while absent. */
  ghost predicate Stays(before: Entry, after: Entry) {
    && after == before.(use := after.use, dirty := after.dirty)
    && (!before.valid ==> after.dirty == before.dirty)
  }

  lemma StaysHome(s: State, t: State)
    requires Shape(s) && t.pageTable.Keys == s.pageTable.Keys && |t.tlb| == TLBSize && t.current < |s.programs|
    requires t == s.(pageTable := t.pageTable, tlb := t.tlb, tlbHand := 0, current := t.current)
    requires forall p :: p in s.pageTable ==> Stays(s.pageTable[p], t.pageTable[p])
    ensures SameHomes(s, t)
  {
  }

  /** A switch moves no page, and with a safe TLB it claims no swap slot. */
  lemma SwitchedHomes(s: State, next: nat, junk1: seq<Entry>, junk2: seq<Entry>)
    requires Inv(s) && SafeToSave(s) && next < |s.programs| && |junk1| == |junk2| == TLBSize
    ensures SameHomes(s, Switched(s, next, junk1, junk2))
  {
    var t := Switched(s, next, junk1, junk2);
    forall p | p in s.pageTable ensures Stays(s.pageTable[p], t.pageTable[p]) {
      SwitchedEntry(s, next, junk1, junk2, p);
      SwitchedPage(s, next, junk1, junk2, p);
    }
    StaysHome(s, t);
  }

  /** The new TLB is empty, so a state whose pages are at home satisfies the invariant. */
  lemma EmptyTlbInv(s: State, t: State)
    requires Inv(s) && SameHomes(s, t) && forall k :: 0 <= k < TLBSize ==> !t.tlb[k].valid
    ensures Inv(t)
  {
    SameHomesOwned(s, t);
  }

  /** A safe switch from one address space to another keeps every space transparent. */
  lemma SwitchKeeps(s: State, next: nat, junk1: seq<Entry>, junk2: seq<Entry>, w: map<Loc, Byte>)
    requires Inv(s) && SafeToSave(s) && next < |s.programs| && |junk1| == |junk2| == TLBSize
    ensures var t := Switched(s, next, junk1, junk2);
            && Inv(t) && t.programs == s.programs && t.current == next
            && (forall p :: Dirty(s, p) ==> Dirty(t, p))
            && (Transparent(s, w) ==> Transparent(t, w))
  {
    var t := Switched(s, next, junk1, junk2);
    SwitchedHomes(s, next, junk1, junk2);
    EmptyTlbInv(s, t);
    forall p | Dirty(s, p) ensures Dirty(t, p) {
      SwitchedPage(s, next, junk1, junk2, p);
    }
    SameHomesTransparent(s, t, w);
  }

  /** Slots that name resident pages only can spoil dirty marks, not ownership. */
  lemma SwitchedResident(s: State, next: nat, junk1: seq<Entry>, junk2: seq<Entry>)
    requires Inv(s) && SlotsNamePages(s) && next < |s.programs| && |junk1| == |junk2| == TLBSize
    requires forall k :: 0 <= k < TLBSize ==> s.pageTable[SlotPage(s, k)].valid
    ensures Inv(Switched(s, next, junk1, junk2))
  {
    var t := Switched(s, next, junk1, junk2);
    forall p | p in s.pageTable ensures Stays(s.pageTable[p], t.pageTable[p]) {
      SwitchedEntry(s, next, junk1, junk2, p);
    }
    StaysHome(s, t);
    EmptyTlbInv(s, t);
  }

  /** A page taken for dirty claims its swap slot, which only its owner may. */
  lemma OneClaimant(t: State, p: PageRef, q: PageRef, x: int)
    requires Inv(t) && OwnsSlot(t, p, x)
    requires q in t.pageTable && Dirty(t, q) && !t.pageTable[q].valid && t.pageTable[q].physicalPage == x
    ensures p == q
  {
    AbsentUncached(t, q);
    assert OwnsSlot(t, q, x);
  }

  lemma UnsafeSlot(s: State, next: nat, junk1: seq<Entry>, junk2: seq<Entry>, k: nat)
    requires Inv(s) && SlotsNamePages(s) && k < TLBSize && LastNaming(s, k)
    requires var t := Switched(s, next, junk1, junk2); Inv(t) && forall p :: Dirty(s, p) ==> Dirty(t, p)
    ensures Dirty(s, SlotPage(s, k)) ==> s.tlb[k].dirty
    ensures !s.pageTable[SlotPage(s, k)].valid && s.tlb[k].dirty ==> s.pageTable[SlotPage(s, k)].dirty
  {
    var t, p := Switched(s, next, junk1, junk2), SlotPage(s, k);
    LastNamingIs(s, k);
    SwitchedEntry(s, next, junk1, junk2, p);
    if !s.pageTable[p].valid && s.tlb[k].dirty {
      var x := t.pageTable[p].physicalPage;
      assert OwnsSlot(t, p, x);
      var q :| OwnsSlot(s, q, x);
      SwitchedEntry(s, next, junk1, junk2, q);
      assert Dirty(s, q);
      OneClaimant(t, p, q, x);
    }
  }

  /** Exactly when a switch is right: it keeps the ownership invariant and forgets no
      dirty page if and only if SaveState was safe to call. */
  lemma SwitchExact(s: State, next: nat, junk1: seq<Entry>, junk2: seq<Entry>)
    requires Inv(s) && SlotsNamePages(s) && next < |s.programs| && |junk1| == |junk2| == TLBSize
    ensures var t := Switched(s, next, junk1, junk2);
            Inv(t) && (forall p :: Dirty(s, p) ==> Dirty(t, p)) <==> SafeToSave(s)
  {
    var t := Switched(s, next, junk1, junk2);
    if SafeToSave(s) {
      SwitchKeeps(s, next, junk1, junk2, map[]);
    }
    if Inv(t) && forall p :: Dirty(s, p) ==> Dirty(t, p) {
      forall k | 0 <= k < TLBSize && LastNaming(s, k)
        ensures Dirty(s, SlotPage(s, k)) ==> s.tlb[k].dirty
        ensures !s.pageTable[SlotPage(s, k)].valid && s.tlb[k].dirty ==> s.pageTable[SlotPage(s, k)].dirty
      {
        UnsafeSlot(s, next, junk1, junk2, k);
      }
    }
  }

  /** The failing family: if the last slot naming a dirty page is clean, the switch takes
      the page for clean wherever it is. */
  lemma StaleSlotForgets(s: State, next: nat, junk1: seq<Entry>, junk2: seq<Entry>, k: nat)
    requires |s.tlb| == TLBSize && k < TLBSize && !s.tlb[k].dirty && LastNaming(s, k)
    requires SlotPage(s, k) in s.pageTable
    ensures !Dirty(Switched(s, next, junk1, junk2), SlotPage(s, k))
    ensures Switched(s, next, junk1, junk2).pageTable[SlotPage(s, k)].valid == s.pageTable[SlotPage(s, k)].valid
  {
    LastNamingIs(s, k);
    SwitchedEntry(s, next, junk1, junk2, SlotPage(s, k));
  }

  // ---------------------------------------------------------------- new address spaces

  /** The AddrSpace constructor: an entry per page, all absent and clean. */
  function Spawned(s: State, pr: Program): (t: State) {
    var n := |s.programs|;
    s.(programs := s.programs + [pr],
       pageTable := s.pageTable + map v: int | 0 <= v < pr.numPages ::
         PageRef(n, v) := Entry(v, -1, false, false, false, false))
  }

  lemma SpawnedShape(s: State, pr: Program)
    requires Shape(s) && ValidProgram(pr)
    ensures Shape(Spawned(s, pr))
    ensures forall p :: p in s.pageTable ==> Spawned(s, pr).pageTable[p] == s.pageTable[p]
    ensures forall p :: p in Spawned(s, pr).pageTable && p !in s.pageTable ==>
              Spawned(s, pr).pageTable[p] == Entry(p.vpn, -1, false, false, false, false)
  {
    var t, n := Spawned(s, pr), |s.programs|;
    var fresh' := map v: int | 0 <= v < pr.numPages :: PageRef(n, v) := Entry(v, -1, false, false, false, false);
    forall p ensures p in t.pageTable <==> IsPage(t.programs, p) {
      assert p in fresh' <==> p.space == n && 0 <= p.vpn < pr.numPages;
    }
  }

  lemma SpawnedInv(s: State, pr: Program)
    requires Inv(s) && ValidProgram(pr)
    ensures Inv(Spawned(s, pr))
    ensures forall p :: Dirty(Spawned(s, pr), p) <==> Dirty(s, p)
  {
    var t := Spawned(s, pr);
    SpawnedShape(s, pr);
    assert forall p, k :: Cached(s, p, k) <==> Cached(t, p, k);
    assert forall p, k :: OwnsFrame(s, p, k) <==> OwnsFrame(t, p, k);
    assert forall p, k :: OwnsSlot(s, p, k) <==> OwnsSlot(t, p, k);
    forall k | 0 <= k < SwapSize && t.swapMap[k] ensures exists p :: OwnsSlot(t, p, k) {
      var p :| OwnsSlot(s, p, k);
    }
    assert forall p, k :: Cached(s, p, k) ==> OwnsFrame(s, p, s.tlb[k].physicalPage);
  }

  /** Creating an address space disturbs no other. */
  lemma SpawnKeeps(s: State, pr: Program, w: map<Loc, Byte>)
    requires Inv(s) && ValidProgram(pr) && Transparent(s, w)
    ensures Inv(Spawned(s, pr)) && Transparent(Spawned(s, pr), w)
  {
    var t := Spawned(s, pr);
    SpawnedInv(s, pr);
    SpawnedShape(s, pr);
    forall l ensures Faithful(t, w, l) {
      assert Faithful(s, w, l);
      if PageOf(l) in s.pageTable {
        assert l.space < |s.programs|;
      }
    }
  }

  // ---------------------------------------------------------------- swap capacity

  /** With the first `n` frames all marked there are `n` resident pages. */
  lemma {:induction false} ResidentPages(s: State, n: nat) returns (r: set<PageRef>)
    requires Inv(s) && n <= NumPhysPages && forall f :: 0 <= f < n ==> s.memMap[f]
    ensures |r| == n && r <= s.pageTable.Keys
    ensures forall p :: p in r ==> s.pageTable[p].valid && s.pageTable[p].physicalPage < n
  {
    r := {};
    if n > 0 {
      r := ResidentPages(s, n - 1);
      assert OwnsFrame(s, s.ipt[n - 1].value, n - 1);
      r := r + {s.ipt[n - 1].value};
    }
  }

  /** With the first `n` swap slots all marked there are `n` swapped-out pages. */
  lemma {:induction false} SwappedPages(s: State, n: nat) returns (r: set<PageRef>)
    requires Inv(s) && n <= SwapSize && forall k :: 0 <= k < n ==> s.swapMap[k]
    ensures |r| == n && r <= s.pageTable.Keys
    ensures forall p :: p in r ==>
              !s.pageTable[p].valid && s.pageTable[p].dirty && s.pageTable[p].physicalPage < n
  {
    r := {};
    if n > 0 {
      r := SwappedPages(s, n - 1);
      var k := n - 1;
      assert s.swapMap[k];
      var p :| OwnsSlot(s, p, k);
      r := r + {p};
    }
  }

  /** If all page tables together hold at most SwapSize + NumPhysPages - 1 pages,
      writeIntoSwap always finds a slot, even though the page being loaded may still
      occupy one. */
  lemma SwapSuffices(s: State)
    requires Inv(s) && |s.pageTable| <= SwapSize + NumPhysPages - 1
    ensures !SwapExhausted(s)
  {
    if FirstClear(s.memMap) == -1 && FirstClear(s.swapMap) == -1 {
      var r := ResidentPages(s, NumPhysPages);
      var q := SwappedPages(s, SwapSize);
      assert r !! q;
      assert |r + q| == |r| + |q|;
      SubsetSize(r + q, s.pageTable.Keys);
    }
  }
}
