/**
 The state of the demand pager: the globals of threads/system.cc, the machine's
 TLB and main memory, the swap file, and the page tables of all address spaces.
 */
module PagerState {
  import opened Basics

  const PageSize := 128
  const NumPhysPages := 4
  const TLBSize := 4
  const SwapSize := 64
  const UserStackSize := 1024
  const MemorySize := NumPhysPages * PageSize

  /** One page of one address space.  It stands for a `TranslationEntry*` into that
      space's page table, which is what the inverted page table stores. */
  datatype PageRef = PageRef(space: nat, vpn: int)

  /** One virtual address of one address space. */
  datatype Loc = Loc(space: nat, addr: nat)

  datatype Entry = Entry(virtualPage: int, physicalPage: int,
                         valid: bool, readOnly: bool, use: bool, dirty: bool)

  /** An executable and the page layout the AddrSpace constructor derives from its
      header.  Pages [0, noInitData) are file backed, the others are anonymous. */
  datatype Program = Program(image: seq<Byte>, codeInFile: nat,
                             initData: nat, noInitData: nat, numPages: nat)

  datatype State = State(
    programs: seq<Program>,
    pageTable: map<PageRef, Entry>,
    tlb: seq<Entry>,
    ipt: seq<Option<PageRef>>,
    memMap: seq<bool>,
    swapMap: seq<bool>,
    memory: seq<Byte>,
    swap: seq<Byte>,
    tlbHand: nat,
    frameHand: nat,
    current: nat)

  function PageOf(l: Loc): PageRef {
    PageRef(l.space, l.addr / PageSize)
  }

  predicate ValidProgram(pr: Program) {
    pr.initData <= pr.noInitData <= pr.numPages
  }

  predicate IsPage(programs: seq<Program>, p: PageRef) {
    p.space < |programs| && 0 <= p.vpn < programs[p.space].numPages
  }

  /** The byte the executable supplies for address `a`, if it supplies one: `a` lies
      on a file-backed page and inside the file. */
  function ImageByte(pr: Program, a: nat): (b: Option<Byte>) {
    if a < pr.noInitData * PageSize && pr.codeInFile + a < |pr.image|
    then Some(pr.image[pr.codeInFile + a]) else None
  }

  /** The flat memory that user programs are promised: the executable's bytes
      overlaid with everything written so far.  None where nothing is promised. */
  function Known(programs: seq<Program>, written: map<Loc, Byte>, l: Loc): (b: Option<Byte>) {
    if l in written then Some(written[l])
    else if l.space < |programs| then ImageByte(programs[l.space], l.addr)
    else None
  }

  // ---------------------------------------------------------------- pages of a store

  function PageAt(store: seq<Byte>, k: nat): (page: seq<Byte>)
    requires (k + 1) * PageSize <= |store|
    ensures |page| == PageSize
    ensures forall o :: 0 <= o < PageSize ==> page[o] == store[k * PageSize + o]
  {
    store[k * PageSize..(k + 1) * PageSize]
  }

  function WithPage(store: seq<Byte>, k: nat, page: seq<Byte>): (r: seq<Byte>)
    requires (k + 1) * PageSize <= |store| && |page| == PageSize
    ensures |r| == |store|
    ensures forall o :: 0 <= o < PageSize ==> r[k * PageSize + o] == page[o]
    ensures forall i :: 0 <= i < |store| && i / PageSize != k ==> r[i] == store[i]
  {
    Splice(store, k * PageSize, page)
  }

  /** What a frame holding `before` contains after ReadAt of one page of the executable:
      a read that runs off the end of the file leaves the rest of the frame alone. */
  function ReadImage(pr: Program, vpn: nat, before: seq<Byte>): (page: seq<Byte>)
    requires |before| == PageSize
    ensures |page| == PageSize
  {
    seq(PageSize, o requires 0 <= o < PageSize =>
      var at := pr.codeInFile + PageSize * vpn + o;
      if at < |pr.image| then pr.image[at] else before[o])
  }

  // ---------------------------------------------------------------- the TLB

  /** Slot `k` of the TLB is in use for page `p`. */
  ghost predicate Cached(s: State, p: PageRef, k: int) {
    0 <= k < |s.tlb| && s.tlb[k].valid && p == PageRef(s.current, s.tlb[k].virtualPage)
  }

  ghost predicate InTlb(s: State, p: PageRef) {
    exists k :: Cached(s, p, k)
  }

  /** The page has been written to since it was last read from the executable,
      according to its page-table entry or to the TLB slot that shadows it. */
  ghost predicate Dirty(s: State, p: PageRef) {
    p in s.pageTable && (s.pageTable[p].dirty || exists k :: Cached(s, p, k) && s.tlb[k].dirty)
  }

  // ---------------------------------------------------------------- the invariant

  ghost predicate Shape(s: State) {
    && |s.tlb| == TLBSize && |s.ipt| == NumPhysPages
    && |s.memMap| == NumPhysPages && |s.swapMap| == SwapSize
    && |s.memory| == MemorySize && |s.swap| == SwapSize * PageSize
    && s.tlbHand < TLBSize && s.frameHand < NumPhysPages
    && s.current < |s.programs|
    && (forall i :: 0 <= i < |s.programs| ==> ValidProgram(s.programs[i]))
    && (forall p :: p in s.pageTable <==> IsPage(s.programs, p))
    && (forall p :: p in s.pageTable ==> s.pageTable[p].virtualPage == p.vpn && !s.pageTable[p].readOnly)
  }

  ghost predicate OwnsFrame(s: State, p: PageRef, f: int) {
    p in s.pageTable && s.pageTable[p].valid && s.pageTable[p].physicalPage == f
  }

  ghost predicate OwnsSlot(s: State, p: PageRef, k: int) {
    p in s.pageTable && !s.pageTable[p].valid && s.pageTable[p].dirty && s.pageTable[p].physicalPage == k
  }

  /** Frame f is marked exactly when the inverted page table names a valid entry
      mapped to f, and every valid entry is the one named for its frame. */
  ghost predicate FramesOwned(s: State)
    requires Shape(s)
  {
    && (forall f :: 0 <= f < NumPhysPages ==>
          (s.memMap[f] <==> s.ipt[f].Some? && OwnsFrame(s, s.ipt[f].value, f)))
    && (forall p :: p in s.pageTable && s.pageTable[p].valid ==>
          var f := s.pageTable[p].physicalPage; 0 <= f < NumPhysPages && s.ipt[f] == Some(p))
  }

  /** Marked swap slots correspond one to one to the invalid dirty entries. */
  ghost predicate SlotsOwned(s: State)
    requires Shape(s)
  {
    && (forall p :: p in s.pageTable && !s.pageTable[p].valid && s.pageTable[p].dirty ==>
          var k := s.pageTable[p].physicalPage; 0 <= k < SwapSize && s.swapMap[k])
    && (forall p, q, k :: OwnsSlot(s, p, k) && OwnsSlot(s, q, k) ==> p == q)
    && (forall k :: 0 <= k < SwapSize && s.swapMap[k] ==> exists p :: OwnsSlot(s, p, k))
  }

  /** Valid TLB slots name distinct pages, agree with the page table's frame and are
      at least as dirty as the page table. */
  ghost predicate TlbCoherent(s: State)
    requires Shape(s)
  {
    && (forall k :: 0 <= k < TLBSize && s.tlb[k].valid ==>
          var p := PageRef(s.current, s.tlb[k].virtualPage);
          && OwnsFrame(s, p, s.tlb[k].physicalPage)
          && (s.pageTable[p].dirty ==> s.tlb[k].dirty)
          && !s.tlb[k].readOnly)
    && (forall k, l :: 0 <= k < l < TLBSize && s.tlb[k].valid && s.tlb[l].valid ==>
          s.tlb[k].virtualPage != s.tlb[l].virtualPage)
  }

  ghost predicate Inv(s: State) {
    Shape(s) && FramesOwned(s) && SlotsOwned(s) && TlbCoherent(s)
  }

  // ---------------------------------------------------------------- transparency

  ghost predicate ByteAt(store: seq<Byte>, page: int, o: nat, b: Byte) {
    0 <= page * PageSize + o < |store| && store[page * PageSize + o] == b
  }

  /** The pager keeps byte `b` at offset `o` of page `p`: in its frame if it is
      resident, in its swap slot if it is absent and dirty. */
  ghost predicate Stores(s: State, p: PageRef, o: nat, b: Byte) {
    p in s.pageTable ==>
      var e := s.pageTable[p];
      && (e.valid ==> ByteAt(s.memory, e.physicalPage, o, b))
      && (!e.valid && e.dirty ==> ByteAt(s.swap, e.physicalPage, o, b))
  }

  ghost predicate Faithful(s: State, written: map<Loc, Byte>, l: Loc) {
    Known(s.programs, written, l).Some? ==>
      Stores(s, PageOf(l), l.addr % PageSize, Known(s.programs, written, l).value)
  }

  /** The machine still behaves like the flat memory: written bytes are on dirty
      pages, and every promised byte is in the frame or swap slot of its page (a page
      in neither is clean, so its promised bytes are those of the executable). */
  ghost predicate Transparent(s: State, written: map<Loc, Byte>) {
    && (forall l :: l in written ==> Dirty(s, PageOf(l)))
    && (forall l :: Faithful(s, written, l))
  }
}
