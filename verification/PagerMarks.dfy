/**
 Which references mark which pages.  A completed reference marks the slot of its page used,
 and dirty if it wrote; no other page becomes dirty, whatever was loaded or evicted on the
 way.  Hence the dirty pages are exactly the pages written to, and only writes use up swap.
 */
module PagerMarks {
  import opened Basics
  import opened PagerState
  import opened PagerSpec
  import opened PagerProofs
  import opened PagerAccess
  import opened PagerSwitch
  import opened PagerRuns
  import opened PagerLimit
  import Clock

  // ---------------------------------------------------------------- no page becomes dirty

  ghost predicate NoDirtier(s: State, t: State) {
    forall p :: Dirty(t, p) ==> Dirty(s, p)
  }

  lemma NoDirtierTrans(s: State, t: State, u: State)
    requires NoDirtier(s, t) && NoDirtier(t, u)
    ensures NoDirtier(s, u)
  {
  }

  lemma SyncedMarks(s: State, t: State)
    requires Inv(s) && Synced(s, t)
    ensures NoDirtier(s, t)
  {
    forall p | Dirty(t, p) ensures Dirty(s, p) {
      if !t.pageTable[p].dirty {
        var k :| Cached(t, p, k) && t.tlb[k].dirty;
        assert Cached(s, p, k);
      }
    }
  }

  /** The same slots, and page-table dirty bits that were there before. */
  lemma SameMarks(s: State, t: State)
    requires t.tlb == s.tlb && t.current == s.current
    requires forall p :: p in t.pageTable ==> p in s.pageTable && t.pageTable[p].dirty == s.pageTable[p].dirty
    ensures NoDirtier(s, t)
  {
    assert forall p, k :: Cached(t, p, k) <==> Cached(s, p, k);
  }

  lemma TlbClockMarks(s: State)
    requires Inv(s)
    ensures NoDirtier(s, TlbClock(s))
  {
    TlbClockSynced(s);
    SyncedMarks(s, TlbClock(s));
  }

  /** A slot that copies its page's entry marks nothing new. */
  lemma CopiedMarks(s: State, p: PageRef, k: nat)
    requires Inv(s) && p in s.pageTable && p.space == s.current && k < TLBSize
    ensures NoDirtier(s, s.(tlb := s.tlb[k := s.pageTable[p]]))
  {
    var t := s.(tlb := s.tlb[k := s.pageTable[p]]);
    forall q | Dirty(t, q) ensures Dirty(s, q) {
      if !t.pageTable[q].dirty {
        var l :| Cached(t, q, l) && t.tlb[l].dirty;
        assert l != k ==> Cached(s, q, l);
      }
    }
  }

  lemma InstallMarks(s: State, p: PageRef)
    requires Inv(s) && p in s.pageTable && p.space == s.current
    ensures NoDirtier(s, Install(s, p))
  {
    TlbClockKeeps(s, map[]);
    TlbClockMarks(s);
    CopiedMarks(TlbClock(s), p, FreeSlot(s));
    NoDirtierTrans(s, TlbClock(s), Install(s, p));
  }

  lemma FetchedMarks(s: State, p: PageRef, f: nat)
    requires Fetchable(s, p) && f < NumPhysPages
    ensures NoDirtier(s, Fetched(s, p, f))
  {
    SameMarks(s, Fetched(s, p, f));
  }

  lemma UnloadMarks(s: State, p: PageRef, f: nat)
    requires Inv(s) && OwnsFrame(s, p, f)
    ensures NoDirtier(s, Unload(s, p))
  {
    var t := Unload(s, p);
    UnloadKeeps(s, p, f, map[]);
    forall q | Dirty(t, q) && q != p ensures Dirty(s, q) {
      if !t.pageTable[q].dirty {
        var l :| Cached(t, q, l) && t.tlb[l].dirty;
        assert Cached(s, q, l);
      }
    }
    assert Dirty(t, p) ==> t.pageTable[p].dirty;
  }

  lemma ChosenMarks(s: State)
    requires Inv(s) && FirstClear(s.memMap) == -1 && AllFramesNamed(s)
    ensures NoDirtier(s, Chosen(s))
  {
    var c := FrameClock(s);
    assert s.memMap[VictimFrame(s)];
    FrameClockSynced(s);
    SyncedKeeps(s, c, map[]);
    SyncedMarks(s, c);
    UnloadMarks(c, VictimPage(s), VictimFrame(s));
    NoDirtierTrans(s, c, Chosen(s));
  }

  lemma RemovedMarks(s: State, p: PageRef, f: nat, anonymous: bool)
    requires Shape(s) && p in s.pageTable && f < NumPhysPages
    requires s.pageTable[p].dirty ==> FirstClear(s.swapMap) != -1
    ensures NoDirtier(s, Removed(s, p, f, anonymous))
  {
    SameMarks(s, Removed(s, p, f, anonymous));
  }

  lemma EvictedMarks(s: State, anonymous: bool)
    requires Inv(s) && FirstClear(s.memMap) == -1 && CanEvict(s)
    ensures NoDirtier(s, Evicted(s, anonymous))
  {
    ChosenMarks(s);
    RemovedMarks(Chosen(s), VictimPage(s), VictimFrame(s), anonymous);
    NoDirtierTrans(s, Chosen(s), Evicted(s, anonymous));
  }

  lemma FetchInstallMarks(s: State, p: PageRef, f: nat)
    requires Inv(s) && p in s.pageTable && p.space == s.current && !s.pageTable[p].valid
    requires f < NumPhysPages && !s.memMap[f]
    ensures NoDirtier(s, Install(Fetched(s, p, f), p))
  {
    FetchedInv(s, p, f);
    FetchedMarks(s, p, f);
    InstallMarks(Fetched(s, p, f), p);
    NoDirtierTrans(s, Fetched(s, p, f), Install(Fetched(s, p, f), p));
  }

  /** Loading a page, with all that it evicts, makes no page dirty. */
  lemma LoadedMarks(s: State, p: PageRef, t: State)
    requires Loadable(s, p) && t == Loaded(s, p)
    ensures NoDirtier(s, t)
  {
    if s.pageTable[p].valid {
      InstallMarks(s, p);
    } else if FirstClear(s.memMap) != -1 {
      FetchInstallMarks(s, p, FirstClear(s.memMap));
    } else {
      var u := Evicted(s, Anonymous(s, p));
      EvictedReady(s, p);
      EvictedKeeps(s, Anonymous(s, p), map[]);
      EvictedMarks(s, Anonymous(s, p));
      FetchInstallMarks(u, p, VictimFrame(s));
      NoDirtierTrans(s, u, t);
    }
  }

  // ---------------------------------------------------------------- one reference

  /** From `u` to `t` slot `k`, which names `p`, was marked; nothing else changed but, by a
      write, memory. */
  ghost predicate Marks(u: State, t: State, p: PageRef, k: int, writing: bool) {
    && Cached(u, p, k) && MarksSlot(u.tlb, t.tlb, p.vpn, k, writing)
    && t == u.(tlb := t.tlb, memory := t.memory) && (!writing ==> t.memory == u.memory)
  }

  /** Exactly the page referred to becomes dirty, and only by a write. */
  ghost predicate MarksDirty(s: State, t: State, p: PageRef, writing: bool) {
    forall q :: Dirty(t, q) <==> Dirty(s, q) || (writing && q == p)
  }

  lemma MarkedDirty(u: State, t: State, p: PageRef, k: int, writing: bool)
    requires Inv(u) && p in u.pageTable && Marks(u, t, p, k, writing)
    ensures MarksDirty(u, t, p, writing)
  {
    assert forall q, l :: Cached(t, q, l) <==> Cached(u, q, l);
    assert forall q :: Cached(u, q, k) ==> q == p;
    forall q ensures Dirty(t, q) <==> Dirty(u, q) || (writing && q == p) {
      if exists l :: Cached(u, q, l) && u.tlb[l].dirty {
        var l :| Cached(u, q, l) && u.tlb[l].dirty;
        assert Cached(t, q, l) && t.tlb[l].dirty;
      }
      if exists l :: Cached(t, q, l) && t.tlb[l].dirty {
        var l :| Cached(t, q, l) && t.tlb[l].dirty;
        assert Cached(u, q, l);
      }
    }
  }

  lemma TouchedMarks(u: State, t: State, addr: nat, size: nat, writing: bool) returns (k: int)
    requires Inv(u) && ValidSize(size) && Aligned(addr, size) && InSpace(u, addr)
    requires SlotOf(u.tlb, addr / PageSize, 0) != -1 && t == Touched(u, addr, writing).(memory := t.memory)
    requires !writing ==> t.memory == u.memory
    ensures Marks(u, t, PageRef(u.current, addr / PageSize), k, writing)
  {
    SlotFacts(u, addr, size);
    k := SlotOf(u.tlb, addr / PageSize, 0);
  }

  /** The state in which the page referred to is in the TLB. */
  ghost function Present(s: State, p: PageRef): (u: State)
    requires Loadable(s, p)
  {
    if InTlb(s, p) then s else Loaded(s, p)
  }

  lemma HitPresent(s: State, addr: nat)
    requires Inv(s) && InSpace(s, addr) && SlotOf(s.tlb, addr / PageSize, 0) != -1
    ensures Loadable(s, PageRef(s.current, addr / PageSize)) && Present(s, PageRef(s.current, addr / PageSize)) == s
  {
    var p, k := PageRef(s.current, addr / PageSize), SlotOf(s.tlb, addr / PageSize, 0);
    assert Cached(s, p, k) && OwnsFrame(s, p, s.tlb[k].physicalPage);
  }

  lemma MissPresent(s: State, addr: nat, size: nat, u: State)
    requires Inv(s) && ValidSize(size) && Aligned(addr, size) && InSpace(s, addr)
    requires SlotOf(s.tlb, addr / PageSize, 0) == -1 && Fault(s, addr) == Retry(u)
    ensures Loadable(s, PageRef(s.current, addr / PageSize)) && u == Present(s, PageRef(s.current, addr / PageSize))
    ensures Inv(u) && InSpace(u, addr) && u.current == s.current
  {
    MissUncached(s, PageRef(s.current, addr / PageSize));
    FaultLoads(s, addr);
    FaultKeeps(s, addr, size, map[]);
  }

  /** What the first attempt leaves to the one that completes. */
  lemma ReadAttempt(s: State, addr: nat, size: nat) returns (u: State)
    requires Inv(s) && ValidSize(size) && InSpace(s, addr) && SafeRead(s, addr, size).Done?
    ensures Loadable(s, PageRef(s.current, addr / PageSize)) && u == Present(s, PageRef(s.current, addr / PageSize))
    ensures Inv(u) && InSpace(u, addr) && u.current == s.current && ReadMem(u, addr, size) == SafeRead(s, addr, size)
  {
    if SlotOf(s.tlb, addr / PageSize, 0) != -1 {
      HitPresent(s, addr);
      u := s;
    } else {
      u := Fault(s, addr).after;
      MissPresent(s, addr, size, u);
      SecondRead(s, addr, size, u);
    }
  }

  lemma WriteAttempt(s: State, addr: nat, size: nat, value: int) returns (u: State)
    requires Inv(s) && ValidSize(size) && InSpace(s, addr) && SafeWrite(s, addr, size, value).Done?
    ensures Loadable(s, PageRef(s.current, addr / PageSize)) && u == Present(s, PageRef(s.current, addr / PageSize))
    ensures Inv(u) && InSpace(u, addr) && u.current == s.current
    ensures WriteMem(u, addr, size, value) == SafeWrite(s, addr, size, value)
  {
    if SlotOf(s.tlb, addr / PageSize, 0) != -1 {
      HitPresent(s, addr);
      u := s;
    } else {
      u := Fault(s, addr).after;
      MissPresent(s, addr, size, u);
      SecondWrite(s, addr, size, value, u);
    }
  }

  lemma ReadMarks(u: State, addr: nat, size: nat) returns (k: int)
    requires Inv(u) && ValidSize(size) && InSpace(u, addr) && ReadMem(u, addr, size).Done?
    ensures Marks(u, ReadMem(u, addr, size).after, PageRef(u.current, addr / PageSize), k, false)
  {
    k := TouchedMarks(u, ReadMem(u, addr, size).after, addr, size, false);
  }

  lemma WriteMarks(u: State, addr: nat, size: nat, value: int) returns (k: int)
    requires Inv(u) && ValidSize(size) && InSpace(u, addr) && WriteMem(u, addr, size, value).Done?
    ensures Marks(u, WriteMem(u, addr, size, value).after, PageRef(u.current, addr / PageSize), k, true)
  {
    k := TouchedMarks(u, WriteMem(u, addr, size, value).after, addr, size, true);
  }

  /** A completed reference, from the state in which its page is in the TLB, marks the slot
      of its page used, and dirty if it wrote, and touches no other slot. */
  lemma ReferenceMarks(s: State, op: Op) returns (u: State, k: int)
    requires Inv(s) && Legal(s, op) && (op.Read? || op.Write?) && Exec(s, op).Done?
    ensures var p := PageRef(s.current, op.addr / PageSize);
            && Loadable(s, p) && u == Present(s, p) && Inv(u) && p in u.pageTable
            && Marks(u, Exec(s, op).after, p, k, op.Write?)
  {
    match op
    case Read(addr, size) =>
      u := ReadAttempt(s, addr, size);
      k := ReadMarks(u, addr, size);
    case Write(addr, size, value) =>
      u := WriteAttempt(s, addr, size, value);
      k := WriteMarks(u, addr, size, value);
  }

  /** Loading makes no page dirty and forgets none. */
  lemma PresentDirty(s: State, p: PageRef, u: State)
    requires Loadable(s, p) && u == Present(s, p)
    ensures MarksDirty(s, u, p, false)
  {
    if !InTlb(s, p) {
      LoadKept(s, p, u, map[]);
      LoadedMarks(s, p, u);
    }
  }

  /** In every state: after a completed reference a page is dirty if and only if it was, or
      the reference wrote to it. */
  lemma ReferenceDirties(s: State, op: Op)
    requires Inv(s) && Legal(s, op) && (op.Read? || op.Write?) && Exec(s, op).Done?
    ensures MarksDirty(s, Exec(s, op).after, PageRef(s.current, op.addr / PageSize), op.Write?)
  {
    var u, k := ReferenceMarks(s, op);
    var p := PageRef(s.current, op.addr / PageSize);
    PresentDirty(s, p, u);
    MarkedDirty(u, Exec(s, op).after, p, k, op.Write?);
  }

  // ---------------------------------------------------------------- whole runs

  /** The dirty pages are those written to. */
  ghost predicate DirtyIsWritten(s: State, f: Flat) {
    Inv(s) && s.current == f.current && Dirties(s) == WrittenPages(f.written)
  }

  /** The bytes of an aligned reference lie on one page. */
  lemma OverlayPages(w: map<Loc, Byte>, l: Loc, bytes: seq<Byte>)
    requires bytes != [] && l.addr % PageSize + |bytes| <= PageSize
    ensures WrittenPages(Overlay(w, l, bytes)) == WrittenPages(w) + {PageOf(l)}
  {
    var o := Overlay(w, l, bytes);
    forall p | p in WrittenPages(o) ensures p in WrittenPages(w) + {PageOf(l)} {
      var m :| m in o && PageOf(m) == p;
      if m !in w {
        SamePage(l.addr, m.addr);
      }
    }
    forall p | p in WrittenPages(w) ensures p in WrittenPages(o) {
      var m :| m in w && PageOf(m) == p;
      assert m in o;
    }
    assert l in o;
  }

  /** All operations but a switch, which may take a stale slot's word for a dirty mark. */
  ghost predicate Unswitched(ops: seq<Op>) {
    forall i :: 0 <= i < |ops| ==> !ops[i].Switch?
  }

  lemma MarksSet(s: State, t: State, p: PageRef, writing: bool)
    requires MarksDirty(s, t, p, writing)
    ensures Dirties(t) == Dirties(s) || writing
    ensures writing ==> Dirties(t) == Dirties(s) + {p}
  {
    if writing {
      assert Dirty(t, p);
    }
    assert !writing ==> Dirties(t) == Dirties(s);
  }

  lemma WriteDirty(s: State, f: Flat, op: Op, t: State)
    requires DirtyIsWritten(s, f) && Inv(t) && t.current == s.current && op.Write?
    requires ValidSize(op.size) && Aligned(op.addr, op.size)
    requires MarksDirty(s, t, PageRef(s.current, op.addr / PageSize), true)
    ensures DirtyIsWritten(t, FlatExec(f, op))
  {
    MarksSet(s, t, PageRef(s.current, op.addr / PageSize), true);
    FitsPage(op.addr, op.size);
    OverlayPages(f.written, Loc(f.current, op.addr), Encode(op.value, op.size));
  }

  /** A completed reference was aligned and leaves the running space running. */
  lemma ReferenceStays(s: State, op: Op)
    requires Inv(s) && Legal(s, op) && (op.Read? || op.Write?) && Exec(s, op).Done?
    ensures Aligned(op.addr, op.size) && Exec(s, op).after.current == s.current
  {
    match op
    case Read(addr, size) => SafeReadKeeps(s, addr, size, map[]); SafeReadCompletes(s, addr, size);
    case Write(addr, size, value) =>
      var u, k := ReferenceMarks(s, op);
      var v := WriteAttempt(s, addr, size, value);
      SafeWriteCompletes(s, addr, size, value);
  }

  lemma StepDirty(s: State, f: Flat, op: Op, t: State)
    requires DirtyIsWritten(s, f) && Legal(s, op) && !op.Switch? && Exec(s, op).Done? && t == Exec(s, op).after
    ensures DirtyIsWritten(t, FlatExec(f, op))
  {
    ExecInv(s, op);
    if op.Spawn? {
      SpawnedInv(s, op.program);
      assert Dirties(t) == Dirties(s);
    } else {
      ReferenceDirties(s, op);
      ReferenceStays(s, op);
      if op.Write? {
        WriteDirty(s, f, op, t);
      } else {
        MarksSet(s, t, PageRef(s.current, op.addr / PageSize), false);
      }
    }
  }

  /** Over every run of reads, writes and new spaces, the dirty pages at the end are exactly
      the pages written to. */
  lemma {:induction false} DirtyExact(s: State, f: Flat, ops: seq<Op>, t: State, values: seq<int>)
    requires DirtyIsWritten(s, f) && Unswitched(ops) && Run(s, ops, t, values)
    ensures DirtyIsWritten(t, FlatRun(f, ops))
    decreases |ops|
  {
    if ops != [] {
      StepDirty(s, f, ops[0], Exec(s, ops[0]).after);
      DirtyExact(Exec(s, ops[0]).after, FlatExec(f, ops[0]), ops[1..], t, values[1..]);
    }
  }

  // ---------------------------------------------------------------- what it takes to stop

  /** A dirty victim was dirty before it was chosen. */
  lemma ChosenDirty(s: State)
    requires Inv(s) && FirstClear(s.memMap) == -1 && AllFramesNamed(s)
    requires Chosen(s).pageTable[VictimPage(s)].dirty
    ensures Dirty(s, VictimPage(s)) && s.pageTable[VictimPage(s)].valid
  {
    ChosenMarks(s);
    assert s.memMap[VictimFrame(s)];
    assert Dirty(Chosen(s), VictimPage(s));
  }

  lemma OneMore(s: State, q: set<PageRef>, v: PageRef)
    requires q <= s.pageTable.Keys && forall p :: p in q ==> !s.pageTable[p].valid && s.pageTable[p].dirty
    requires Dirty(s, v) && s.pageTable[v].valid
    ensures |Dirties(s)| > |q|
  {
    assert forall p :: p in q ==> p in Dirties(s);
    assert v !in q;
    SubsetSize(q + {v}, Dirties(s));
  }

  /** Swap is exhausted only once more pages are dirty than there are swap slots. */
  lemma ExhaustedDirty(s: State)
    requires Inv(s) && SwapExhausted(s)
    ensures |Dirties(s)| > SwapSize
  {
    var q := SwappedPages(s, SwapSize);
    ChosenDirty(s);
    OneMore(s, q, VictimPage(s));
  }

  /** Over every run of reads, writes and new spaces: as long as no more pages have been
      written to than there are swap slots, the next aligned reference completes, however
      many pages there are. */
  lemma FewWritesNeverStop(s: State, f: Flat, ops: seq<Op>, t: State, values: seq<int>, op: Op)
    requires DirtyIsWritten(s, f) && Unswitched(ops) && Run(s, ops, t, values)
    requires |WrittenPages(FlatRun(f, ops).written)| <= SwapSize
    requires Legal(t, op) && (op.Read? || op.Write?) && Aligned(op.addr, op.size)
    ensures Inv(t) && Exec(t, op).Done?
  {
    DirtyExact(s, f, ops, t, values);
    UnexhaustedCompletes(t, op);
  }

  lemma UnexhaustedCompletes(t: State, op: Op)
    requires Inv(t) && |Dirties(t)| <= SwapSize
    requires Legal(t, op) && (op.Read? || op.Write?) && Aligned(op.addr, op.size)
    ensures Exec(t, op).Done?
  {
    if SwapExhausted(t) {
      ExhaustedDirty(t);
    }
    match op
    case Read(addr, size) => SafeReadCompletes(t, addr, size);
    case Write(addr, size, value) => SafeWriteCompletes(t, addr, size, value);
  }

  lemma BootDirty(pr: Program, memory: seq<Byte>, swap: seq<Byte>, junk: seq<Entry>)
    requires ValidProgram(pr) && |memory| == MemorySize && |swap| == SwapSize * PageSize && |junk| == TLBSize
    ensures DirtyIsWritten(Boot(pr, memory, swap, junk), Flat([pr], map[], 0))
  {
    BootInv(pr, memory, swap, junk);
    var s := Boot(pr, memory, swap, junk);
    assert Dirties(s) == {};
  }

  /** An aligned read inside a program. */
  predicate ReadsIn(pr: Program, op: Op) {
    op.Read? && ValidSize(op.size) && Aligned(op.addr, op.size) && op.addr / PageSize < pr.numPages
  }

  lemma ReadStays(s: State, pr: Program, op: Op) returns (t: State, v: int)
    requires Inv(s) && s.programs == [pr] && s.current == 0 && Dirties(s) == {} && ReadsIn(pr, op)
    ensures Legal(s, op) && Exec(s, op) == Done(t, v)
    ensures Inv(t) && t.programs == [pr] && t.current == 0 && Dirties(t) == {}
  {
    UnexhaustedCompletes(s, op);
    t, v := Exec(s, op).after, Exec(s, op).value;
    SafeReadKeeps(s, op.addr, op.size, map[]);
    ReferenceDirties(s, op);
    MarksSet(s, t, PageRef(s.current, op.addr / PageSize), false);
  }

  lemma {:induction false} ReadsRun(s: State, pr: Program, ops: seq<Op>) returns (t: State, values: seq<int>)
    requires Inv(s) && s.programs == [pr] && s.current == 0 && Dirties(s) == {}
    requires forall i :: 0 <= i < |ops| ==> ReadsIn(pr, ops[i])
    ensures Run(s, ops, t, values)
    decreases |ops|
  {
    if ops == [] {
      t, values := s, [];
    } else {
      var u, v := ReadStays(s, pr, ops[0]);
      var rest;
      t, rest := ReadsRun(u, pr, ops[1..]);
      values := [v] + rest;
      assert values[1..] == rest;
    }
  }

  /** A program that only reads never stops: from boot, every sequence of aligned reads
      completes, however many pages it touches. */
  lemma ReadsNeverStop(pr: Program, memory: seq<Byte>, swap: seq<Byte>, junk: seq<Entry>, ops: seq<Op>)
    returns (t: State, values: seq<int>)
    requires ValidProgram(pr) && |memory| == MemorySize && |swap| == SwapSize * PageSize && |junk| == TLBSize
    requires forall i :: 0 <= i < |ops| ==> ReadsIn(pr, ops[i])
    ensures Inv(Boot(pr, memory, swap, junk)) && Run(Boot(pr, memory, swap, junk), ops, t, values)
  {
    BootDirty(pr, memory, swap, junk);
    t, values := ReadsRun(Boot(pr, memory, swap, junk), pr, ops);
  }
}
