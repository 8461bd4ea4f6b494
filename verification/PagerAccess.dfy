/**
 Memory references: Machine::Translate, ReadMem, WriteMem and the retrying
 SafeReadMem/SafeWriteMem, together with the page-fault dispatch to AddrSpace::load.
 */
module PagerAccess {
  import opened Basics
  import opened PagerState
  import opened PagerSpec
  import opened PagerProofs

  // ---------------------------------------------------------------- machine words

  const Word := 0x1_0000_0000

  predicate ValidSize(size: nat) {
    size == 1 || size == 2 || size == 4
  }

  /** The integer ReadMem returns for little-endian bytes: a signed char, an unsigned
      short or a signed word. */
  function Decode(bytes: seq<Byte>): (v: int)
    requires ValidSize(|bytes|)
  {
    if |bytes| == 1 then
      if bytes[0] < 128 then bytes[0] else bytes[0] - 256
    else if |bytes| == 2 then bytes[0] + 256 * bytes[1]
    else
      var b0: int, b1: int, b2: int, b3: int := bytes[0], bytes[1], bytes[2], bytes[3];
      var u := b0 + 256 * (b1 + 256 * (b2 + 256 * b3));
      if u < Word / 2 then u else u - Word
  }

  /** The low `size` bytes of `value`, least significant first, as WriteMem stores them. */
  function Encode(value: int, size: nat): (bytes: seq<Byte>)
    ensures |bytes| == size
    decreases size
  {
    if size == 0 then [] else [value % 256] + Encode(value / 256, size - 1)
  }

  lemma EncodeBytes(value: int)
    ensures Encode(value, 1) == [value % 256]
    ensures Encode(value, 2) == [value % 256, value / 256 % 256]
    ensures Encode(value, 4) == [value % 256, value / 256 % 256, value / 256 / 256 % 256, value / 256 / 256 / 256 % 256]
  {
    var a, b, c := value / 256, value / 256 / 256, value / 256 / 256 / 256;
    assert Encode(c, 1) == [c % 256];
    assert Encode(b, 2) == [b % 256] + Encode(c, 1);
    assert Encode(a, 3) == [a % 256] + Encode(b, 2);
    assert Encode(a, 1) == [a % 256];
  }

  /** A stored value reads back as itself, reduced to the width of the access. */
  lemma DecodeEncode(value: int, size: nat)
    requires ValidSize(size)
    ensures var v := Decode(Encode(value, size));
            && (size == 1 ==> -128 <= v < 128 && exists d :: value == v + 256 * d)
            && (size == 2 ==> 0 <= v < 0x1_0000 && exists d :: value == v + 0x1_0000 * d)
            && (size == 4 ==> -(Word / 2) <= v < Word / 2 && exists d :: value == v + Word * d)
  {
    EncodeBytes(value);
    var v := Decode(Encode(value, size));
    var a, b, c := value / 256, value / 256 / 256, value / 256 / 256 / 256;
    if size == 1 {
      var d := if v < 0 then a + 1 else a;
      assert value == v + 256 * d;
    } else if size == 2 {
      assert value == v + 0x1_0000 * b;
    } else {
      var d := if v < 0 then c / 256 + 1 else c / 256;
      assert value == v + Word * d;
    }
  }

  // ---------------------------------------------------------------- one attempt

  datatype Exception = NoException | PageFault | ReadOnlyException | BusError | AddressError

  predicate Aligned(addr: nat, size: nat) {
    (size == 4 ==> addr % 4 == 0) && (size == 2 ==> addr % 2 == 0)
  }

  /** The exception Translate reports when there is a TLB. */
  function Translation(s: State, addr: nat, size: nat, writing: bool): (x: Exception) {
    var k := SlotOf(s.tlb, addr / PageSize, 0);
    if !Aligned(addr, size) then AddressError
    else if k == -1 then PageFault
    else if s.tlb[k].readOnly && writing then ReadOnlyException
    else if !(0 <= s.tlb[k].physicalPage < NumPhysPages) then BusError
    else NoException
  }

  /** The physical address Translate produces. */
  function Physical(s: State, addr: nat): (a: int)
    requires SlotOf(s.tlb, addr / PageSize, 0) != -1
  {
    s.tlb[SlotOf(s.tlb, addr / PageSize, 0)].physicalPage * PageSize + addr % PageSize
  }

  /** Translate's side effect: the slot is marked used and, for a write, dirty. */
  function Touched(s: State, addr: nat, writing: bool): (t: State)
    requires SlotOf(s.tlb, addr / PageSize, 0) != -1
  {
    var k := SlotOf(s.tlb, addr / PageSize, 0);
    s.(tlb := s.tlb[k := s.tlb[k].(use := true, dirty := s.tlb[k].dirty || writing)])
  }

  /** Slot `k`, which names the page, was marked used, and dirty if written; no other slot
      changed. */
  ghost predicate MarksSlot(before: seq<Entry>, after: seq<Entry>, vpn: int, k: int, writing: bool) {
    && 0 <= k < |before| == |after| && before[k].valid && before[k].virtualPage == vpn
    && after[k].use && after[k] == before[k].(use := true, dirty := after[k].dirty)
    && (after[k].dirty <==> before[k].dirty || writing)
    && (forall l :: 0 <= l < |before| && l != k ==> after[l] == before[l])
  }

  /** The address lies on a page of the running space; load does not check this. */
  predicate InSpace(s: State, addr: nat)
    requires s.current < |s.programs|
  {
    addr / PageSize < s.programs[s.current].numPages
  }

  /** One call of ReadMem or WriteMem: it completes, or it faults and the page is
      loaded, or an ASSERT stops the machine. */
  datatype Outcome = Stop | Retry(after: State) | Done(after: State, value: int)

  lemma LoadReady(s: State, p: PageRef)
    requires Inv(s) && p in s.pageTable && p.space == s.current && (!s.pageTable[p].valid ==> !SwapExhausted(s))
    ensures Loadable(s, p)
  {
    if FirstClear(s.memMap) == -1 {
      CanEvictUnless(s);
    }
  }

  function Fault(s: State, addr: nat): (o: Outcome)
    requires Inv(s) && PageRef(s.current, addr / PageSize) in s.pageTable
  {
    var p := PageRef(s.current, addr / PageSize);
    if !s.pageTable[p].valid && SwapExhausted(s) then Stop
    else
      LoadReady(s, p);
      Retry(Loaded(s, p))
  }

  function ReadMem(s: State, addr: nat, size: nat): (o: Outcome)
    requires Inv(s) && ValidSize(size) && InSpace(s, addr)
  {
    match Translation(s, addr, size, false)
    case NoException =>
      SlotFacts(s, addr, size);
      var a := Physical(s, addr);
      Done(Touched(s, addr, false), Decode(s.memory[a..a + size]))
    case PageFault => Fault(s, addr)
    case _ => Stop
  }

  function WriteMem(s: State, addr: nat, size: nat, value: int): (o: Outcome)
    requires Inv(s) && ValidSize(size) && InSpace(s, addr)
    ensures o.Done? ==> o.value == value
  {
    match Translation(s, addr, size, true)
    case NoException =>
      SlotFacts(s, addr, size);
      var t := Touched(s, addr, true);
      Done(t.(memory := Splice(t.memory, Physical(s, addr), Encode(value, size))), value)
    case PageFault => Fault(s, addr)
    case _ => Stop
  }

  // ---------------------------------------------------------------- what an attempt means

  /** The flat memory after the bytes are written from `l` on. */
  function Overlay(w: map<Loc, Byte>, l: Loc, bytes: seq<Byte>): (r: map<Loc, Byte>)
    ensures forall m :: m in r <==> m in w || (m.space == l.space && l.addr <= m.addr < l.addr + |bytes|)
    ensures forall m :: m in r ==>
      r[m] == if m.space == l.space && l.addr <= m.addr < l.addr + |bytes| then bytes[m.addr - l.addr] else w[m]
    decreases |bytes|
  {
    if bytes == [] then w
    else Overlay(w[l := bytes[0]], Loc(l.space, l.addr + 1), bytes[1..])
  }

  lemma KnownOverlay(programs: seq<Program>, w: map<Loc, Byte>, l: Loc, bytes: seq<Byte>, m: Loc)
    ensures Known(programs, Overlay(w, l, bytes), m)
         == if m.space == l.space && l.addr <= m.addr < l.addr + |bytes| then Some(bytes[m.addr - l.addr])
            else Known(programs, w, m)
  {
    var r := Overlay(w, l, bytes);
    assert m in r || m !in r;
  }

  function KnownAt(programs: seq<Program>, w: map<Loc, Byte>, l: Loc, i: nat): (b: Option<Byte>) {
    Known(programs, w, Loc(l.space, l.addr + i))
  }

  /** The bytes flat memory promises for a read, when it promises all of them. */
  function Promised(programs: seq<Program>, w: map<Loc, Byte>, l: Loc, size: nat): (b: Option<seq<Byte>>)
    ensures b.Some? <==> forall i :: 0 <= i < size ==> KnownAt(programs, w, l, i).Some?
    ensures b.Some? ==> |b.value| == size
    ensures b.Some? ==> forall i :: 0 <= i < size ==> KnownAt(programs, w, l, i) == Some(b.value[i])
    decreases size
  {
    if size == 0 then Some([])
    else
      var front := Promised(programs, w, l, size - 1);
      var k := KnownAt(programs, w, l, size - 1);
      if front.Some? && k.Some? then Some(front.value + [k.value]) else None
  }

  /** An aligned reference stays inside one page, hence inside the frame it maps to. */
  lemma SlotFacts(s: State, addr: nat, size: nat)
    requires Inv(s) && ValidSize(size) && Aligned(addr, size) && InSpace(s, addr)
    requires SlotOf(s.tlb, addr / PageSize, 0) != -1
    ensures var k := SlotOf(s.tlb, addr / PageSize, 0);
            var p := PageRef(s.current, addr / PageSize);
            && Cached(s, p, k) && OwnsFrame(s, p, s.tlb[k].physicalPage)
            && 0 <= s.tlb[k].physicalPage < NumPhysPages && !s.tlb[k].readOnly
            && (forall q, l :: Cached(s, q, l) && l == k ==> q == p)
    ensures addr % PageSize + size <= PageSize
  {
    FitsPage(addr, size);
  }

  lemma FitsPage(addr: nat, size: nat)
    requires ValidSize(size) && Aligned(addr, size)
    ensures addr % PageSize + size <= PageSize
  {
    var q := addr / PageSize;
    if size == 4 {
      assert addr % PageSize == 4 * (addr / 4 - 32 * q);
    } else if size == 2 {
      assert addr % PageSize == 2 * (addr / 2 - 64 * q);
    }
  }

  lemma SamePage(addr: nat, b: nat)
    requires addr <= b && addr % PageSize + b - addr < PageSize
    ensures b / PageSize == addr / PageSize && b % PageSize == addr % PageSize + b - addr
  {
  }

  /** Setting use and dirty bits of a cached page. */
  lemma TouchedKeeps(s: State, addr: nat, size: nat, writing: bool, w: map<Loc, Byte>)
    requires Inv(s) && ValidSize(size) && Aligned(addr, size) && InSpace(s, addr)
    requires SlotOf(s.tlb, addr / PageSize, 0) != -1
    ensures Keeps(s, Touched(s, addr, writing), w)
    ensures writing ==> Dirty(Touched(s, addr, writing), PageRef(s.current, addr / PageSize))
  {
    var t, k := Touched(s, addr, writing), SlotOf(s.tlb, addr / PageSize, 0);
    var p := PageRef(s.current, addr / PageSize);
    SlotFacts(s, addr, size);
    assert forall q, l :: Cached(s, q, l) <==> Cached(t, q, l);
    assert Cached(t, p, k);
    SameHomesOwned(s, t);
    assert TlbCoherent(t) by {
      assert forall q, f :: OwnsFrame(s, q, f) <==> OwnsFrame(t, q, f);
    }
    SameHomesTransparent(s, t, w);
  }

  /** A promised byte of a cached page is in the frame the page is mapped to. */
  lemma FrameByte(s: State, p: PageRef, w: map<Loc, Byte>, l: Loc)
    requires Inv(s) && Transparent(s, w) && PageOf(l) == p && p in s.pageTable && s.pageTable[p].valid
    requires Known(s.programs, w, l).Some?
    ensures var a := s.pageTable[p].physicalPage * PageSize + l.addr % PageSize;
            0 <= a < MemorySize && s.memory[a] == Known(s.programs, w, l).value
  {
    assert Faithful(s, w, l);
  }

  /** A read that completes returns the promised bytes. */
  lemma ReadMemExact(s: State, addr: nat, size: nat, w: map<Loc, Byte>)
    requires Inv(s) && Transparent(s, w) && ValidSize(size) && InSpace(s, addr)
    requires ReadMem(s, addr, size).Done?
    ensures Keeps(s, ReadMem(s, addr, size).after, w)
    ensures var b := Promised(s.programs, w, Loc(s.current, addr), size);
            b.Some? ==> ReadMem(s, addr, size).value == Decode(b.value)
  {
    TouchedKeeps(s, addr, size, false, w);
    var b := Promised(s.programs, w, Loc(s.current, addr), size);
    if b.Some? {
      ReadBytes(s, addr, size, w);
    }
  }

  lemma ReadBytes(s: State, addr: nat, size: nat, w: map<Loc, Byte>)
    requires Inv(s) && Transparent(s, w) && ValidSize(size) && Aligned(addr, size) && InSpace(s, addr)
    requires SlotOf(s.tlb, addr / PageSize, 0) != -1
    requires Promised(s.programs, w, Loc(s.current, addr), size).Some?
    ensures var a := Physical(s, addr);
            && 0 <= a <= a + size <= MemorySize
            && s.memory[a..a + size] == Promised(s.programs, w, Loc(s.current, addr), size).value
  {
    SlotFacts(s, addr, size);
    var b, a := Promised(s.programs, w, Loc(s.current, addr), size).value, Physical(s, addr);
    var got := s.memory[a..a + size];
    forall i | 0 <= i < size ensures got[i] == b[i] {
      assert KnownAt(s.programs, w, Loc(s.current, addr), i) == Some(b[i]);
      ReadByte(s, addr, i, w);
      assert got[i] == s.memory[a + i];
    }
  }

  lemma ReadByte(s: State, addr: nat, i: nat, w: map<Loc, Byte>)
    requires Inv(s) && Transparent(s, w) && addr % PageSize + i < PageSize
    requires KnownAt(s.programs, w, Loc(s.current, addr), i).Some?
    requires var p := PageRef(s.current, addr / PageSize); p in s.pageTable && s.pageTable[p].valid
    ensures var a := s.pageTable[PageRef(s.current, addr / PageSize)].physicalPage * PageSize + addr % PageSize;
            0 <= a + i < MemorySize && KnownAt(s.programs, w, Loc(s.current, addr), i) == Some(s.memory[a + i])
  {
    SamePage(addr, addr + i);
    FrameByte(s, PageRef(s.current, addr / PageSize), w, Loc(s.current, addr + i));
  }

  /** A write that completes updates the flat memory and nothing else. */
  lemma WriteMemExact(s: State, addr: nat, size: nat, value: int, w: map<Loc, Byte>)
    requires Inv(s) && Transparent(s, w) && ValidSize(size) && InSpace(s, addr)
    requires WriteMem(s, addr, size, value).Done?
    ensures var t := WriteMem(s, addr, size, value).after;
            && Inv(t) && t.programs == s.programs && t.current == s.current
            && Transparent(t, Overlay(w, Loc(s.current, addr), Encode(value, size)))
  {
    TouchedKeeps(s, addr, size, true, w);
    SlotFacts(s, addr, size);
    StoreTransparent(Touched(s, addr, true), addr, Physical(s, addr), Encode(value, size), w);
  }

  /** `a` is where the resident page holding `addr` keeps it. */
  ghost predicate Located(s: State, addr: nat, a: int) {
    var p := PageRef(s.current, addr / PageSize);
    p in s.pageTable && s.pageTable[p].valid && a == s.pageTable[p].physicalPage * PageSize + addr % PageSize
  }

  /** Storing into the frame of a dirty resident page, without crossing its end. */
  lemma StoreTransparent(s: State, addr: nat, a: nat, bytes: seq<Byte>, w: map<Loc, Byte>)
    requires Inv(s) && Transparent(s, w) && addr % PageSize + |bytes| <= PageSize
    requires Located(s, addr, a) && Dirty(s, PageRef(s.current, addr / PageSize))
    ensures a + |bytes| <= MemorySize
    ensures var t := s.(memory := Splice(s.memory, a, bytes));
            Inv(t) && Transparent(t, Overlay(w, Loc(s.current, addr), bytes))
  {
    var t := s.(memory := Splice(s.memory, a, bytes));
    MemoryFree(s, t.memory);
    OverlayDirty(s, addr, bytes, w);
    forall l ensures Faithful(t, Overlay(w, Loc(s.current, addr), bytes), l) {
      StoredByte(s, addr, a, bytes, w, l);
    }
  }

  lemma OverlayDirty(s: State, addr: nat, bytes: seq<Byte>, w: map<Loc, Byte>)
    requires Transparent(s, w) && addr % PageSize + |bytes| <= PageSize
    requires Dirty(s, PageRef(s.current, addr / PageSize))
    ensures forall l :: l in Overlay(w, Loc(s.current, addr), bytes) ==> Dirty(s, PageOf(l))
  {
    forall l | l in Overlay(w, Loc(s.current, addr), bytes) ensures Dirty(s, PageOf(l)) {
      if l.space == s.current && addr <= l.addr < addr + |bytes| {
        SamePage(addr, l.addr);
      }
    }
  }

  lemma StoredByte(s: State, addr: nat, a: nat, bytes: seq<Byte>, w: map<Loc, Byte>, l: Loc)
    requires Inv(s) && Transparent(s, w) && addr % PageSize + |bytes| <= PageSize
    requires Located(s, addr, a) && a + |bytes| <= MemorySize
    ensures Faithful(s.(memory := Splice(s.memory, a, bytes)), Overlay(w, Loc(s.current, addr), bytes), l)
  {
    KnownOverlay(s.programs, w, Loc(s.current, addr), bytes, l);
    if l.space == s.current && addr <= l.addr < addr + |bytes| {
      SplicedByte(s.memory, s.pageTable[PageRef(s.current, addr / PageSize)].physicalPage, addr, bytes, l.addr);
    } else if PageOf(l) in s.pageTable && Known(s.programs, w, l).Some? {
      assert Faithful(s, w, l);
      StoredMiss(s, addr, a, bytes, l, Known(s.programs, w, l).value);
    }
  }

  lemma StoredMiss(s: State, addr: nat, a: nat, bytes: seq<Byte>, l: Loc, b: Byte)
    requires Inv(s) && addr % PageSize + |bytes| <= PageSize
    requires Located(s, addr, a) && a + |bytes| <= MemorySize
    requires PageOf(l) in s.pageTable && !(l.space == s.current && addr <= l.addr < addr + |bytes|)
    requires Stores(s, PageOf(l), l.addr % PageSize, b)
    ensures Stores(s.(memory := Splice(s.memory, a, bytes)), PageOf(l), l.addr % PageSize, b)
  {
    var p, q := PageRef(s.current, addr / PageSize), PageOf(l);
    if s.pageTable[q].valid {
      var f, g := s.pageTable[p].physicalPage, s.pageTable[q].physicalPage;
      assert q != p ==> f != g;
      AwayFrom(f, addr, |bytes|, g, l.addr, q == p);
    }
  }

  /** Bytes of another frame, or of the same page outside the range, are not hit. */
  lemma AwayFrom(f: int, addr: nat, size: nat, g: int, b: nat, same: bool)
    requires addr % PageSize + size <= PageSize
    requires if same then f == g && addr / PageSize == b / PageSize && !(addr <= b < addr + size) else f != g
    ensures var a := f * PageSize + addr % PageSize;
            !(a <= g * PageSize + b % PageSize < a + size)
  {
  }

  lemma SplicedByte(store: seq<Byte>, frame: nat, addr: nat, bytes: seq<Byte>, b: nat)
    requires addr <= b < addr + |bytes| && addr % PageSize + |bytes| <= PageSize
    requires (frame + 1) * PageSize <= |store|
    ensures b / PageSize == addr / PageSize
    ensures ByteAt(Splice(store, frame * PageSize + addr % PageSize, bytes), frame, b % PageSize, bytes[b - addr])
  {
    SamePage(addr, b);
  }

  /** A reference that faults leaves a state in which the same reference translates. */
  lemma FaultKeeps(s: State, addr: nat, size: nat, w: map<Loc, Byte>)
    requires Inv(s) && ValidSize(size) && Aligned(addr, size) && InSpace(s, addr)
    requires SlotOf(s.tlb, addr / PageSize, 0) == -1 && Fault(s, addr).Retry?
    ensures Keeps(s, Fault(s, addr).after, w)
    ensures InTlb(Fault(s, addr).after, PageRef(s.current, addr / PageSize))
  {
    var p := PageRef(s.current, addr / PageSize);
    FaultLoads(s, addr);
    MissUncached(s, p);
    LoadKept(s, p, Fault(s, addr).after, w);
  }

  lemma LoadKept(s: State, p: PageRef, t: State, w: map<Loc, Byte>)
    requires Loadable(s, p) && !InTlb(s, p) && t == Loaded(s, p)
    ensures Keeps(s, t, w) && InTlb(t, p)
  {
    LoadedKeeps(s, p, w);
  }

  lemma FaultLoads(s: State, addr: nat)
    requires Inv(s) && PageRef(s.current, addr / PageSize) in s.pageTable && Fault(s, addr).Retry?
    ensures Loadable(s, PageRef(s.current, addr / PageSize))
    ensures Fault(s, addr).after == Loaded(s, PageRef(s.current, addr / PageSize))
  {
    LoadReady(s, PageRef(s.current, addr / PageSize));
  }

  lemma MissUncached(s: State, p: PageRef)
    requires SlotOf(s.tlb, p.vpn, 0) == -1
    ensures !InTlb(s, p)
  {
  }

  lemma CachedTranslates(s: State, addr: nat, size: nat)
    requires Inv(s) && ValidSize(size) && Aligned(addr, size) && InSpace(s, addr)
    requires InTlb(s, PageRef(s.current, addr / PageSize))
    ensures Translation(s, addr, size, false) == NoException
    ensures Translation(s, addr, size, true) == NoException
  {
    SlotOfCached(s, PageRef(s.current, addr / PageSize));
    SlotFacts(s, addr, size);
  }

  // ---------------------------------------------------------------- retrying references

  /** SafeReadMem: at most two attempts. */
  function SafeRead(s: State, addr: nat, size: nat): (o: Outcome)
    requires Inv(s) && ValidSize(size) && InSpace(s, addr)
    ensures !o.Retry?
  {
    var o := ReadMem(s, addr, size);
    if o.Retry? then
      FaultKeeps(s, addr, size, map[]);
      CachedTranslates(o.after, addr, size);
      ReadMem(o.after, addr, size)
    else o
  }

  function SafeWrite(s: State, addr: nat, size: nat, value: int): (o: Outcome)
    requires Inv(s) && ValidSize(size) && InSpace(s, addr)
    ensures !o.Retry? && (o.Done? ==> o.value == value)
  {
    var o := WriteMem(s, addr, size, value);
    if o.Retry? then
      FaultKeeps(s, addr, size, map[]);
      CachedTranslates(o.after, addr, size);
      WriteMem(o.after, addr, size, value)
    else o
  }

  /** After a fault the second attempt is the one that counts. */
  lemma SecondRead(s: State, addr: nat, size: nat, t: State)
    requires Inv(s) && ValidSize(size) && InSpace(s, addr) && ReadMem(s, addr, size) == Retry(t)
    ensures Inv(t) && InSpace(t, addr)
    ensures ReadMem(t, addr, size) == SafeRead(s, addr, size)
  {
    FaultKeeps(s, addr, size, map[]);
  }

  lemma SecondWrite(s: State, addr: nat, size: nat, value: int, t: State)
    requires Inv(s) && ValidSize(size) && InSpace(s, addr) && WriteMem(s, addr, size, value) == Retry(t)
    ensures Inv(t) && InSpace(t, addr)
    ensures WriteMem(t, addr, size, value) == SafeWrite(s, addr, size, value)
  {
    FaultKeeps(s, addr, size, map[]);
  }

  /** Exactly when a reference does not complete: it is misaligned, or its page must
      be fetched and the victim finds no swap slot. */
  predicate Fails(s: State, addr: nat, size: nat)
    requires Inv(s) && InSpace(s, addr)
  {
    || !Aligned(addr, size)
    || (!s.pageTable[PageRef(s.current, addr / PageSize)].valid && SwapExhausted(s))
  }

  /** A retried reference completes if and only if it does not fail. */
  lemma SafeReadCompletes(s: State, addr: nat, size: nat)
    requires Inv(s) && ValidSize(size) && InSpace(s, addr)
    ensures SafeRead(s, addr, size).Stop? <==> Fails(s, addr, size)
  {
    if Aligned(addr, size) && SlotOf(s.tlb, addr / PageSize, 0) != -1 {
      SlotFacts(s, addr, size);
    } else if Aligned(addr, size) && Fault(s, addr).Retry? {
      RetryTranslates(s, addr, size);
    }
  }

  lemma RetryTranslates(s: State, addr: nat, size: nat)
    requires Inv(s) && ValidSize(size) && Aligned(addr, size) && InSpace(s, addr)
    requires SlotOf(s.tlb, addr / PageSize, 0) == -1 && Fault(s, addr).Retry?
    ensures var t := Fault(s, addr).after;
            && Inv(t) && InSpace(t, addr)
            && Translation(t, addr, size, false) == NoException && Translation(t, addr, size, true) == NoException
  {
    FaultKeeps(s, addr, size, map[]);
    CachedTranslates(Fault(s, addr).after, addr, size);
  }

  lemma SafeWriteCompletes(s: State, addr: nat, size: nat, value: int)
    requires Inv(s) && ValidSize(size) && InSpace(s, addr)
    ensures SafeWrite(s, addr, size, value).Stop? <==> Fails(s, addr, size)
  {
    if Aligned(addr, size) && SlotOf(s.tlb, addr / PageSize, 0) != -1 {
      SlotFacts(s, addr, size);
    } else if Aligned(addr, size) && Fault(s, addr).Retry? {
      RetryTranslates(s, addr, size);
    }
  }

  /** A retried read keeps everything, whether or not memory was transparent before. */
  lemma SafeReadKeeps(s: State, addr: nat, size: nat, w: map<Loc, Byte>)
    requires Inv(s) && ValidSize(size) && InSpace(s, addr) && SafeRead(s, addr, size).Done?
    ensures Keeps(s, SafeRead(s, addr, size).after, w)
  {
    var o := ReadMem(s, addr, size);
    if o.Done? {
      ReadMemKeeps(s, addr, size, w);
    } else {
      FaultKeeps(s, addr, size, w);
      SecondRead(s, addr, size, o.after);
      ReadMemKeeps(o.after, addr, size, w);
      KeepsTrans(s, o.after, SafeRead(s, addr, size).after, w);
    }
  }

  lemma ReadMemKeeps(s: State, addr: nat, size: nat, w: map<Loc, Byte>)
    requires Inv(s) && ValidSize(size) && InSpace(s, addr) && ReadMem(s, addr, size).Done?
    ensures Keeps(s, ReadMem(s, addr, size).after, w)
  {
    TouchedKeeps(s, addr, size, false, w);
  }

  lemma WriteMemInv(s: State, addr: nat, size: nat, value: int)
    requires Inv(s) && ValidSize(size) && InSpace(s, addr) && WriteMem(s, addr, size, value).Done?
    ensures Inv(WriteMem(s, addr, size, value).after)
  {
    TouchedKeeps(s, addr, size, true, map[]);
    SlotFacts(s, addr, size);
    var t, u := Touched(s, addr, true), WriteMem(s, addr, size, value).after;
    MemoryFree(t, u.memory);
  }

  lemma SafeWriteInv(s: State, addr: nat, size: nat, value: int)
    requires Inv(s) && ValidSize(size) && InSpace(s, addr) && SafeWrite(s, addr, size, value).Done?
    ensures Inv(SafeWrite(s, addr, size, value).after)
  {
    var o := WriteMem(s, addr, size, value);
    if o.Done? {
      WriteMemInv(s, addr, size, value);
    } else {
      FaultKeeps(s, addr, size, map[]);
      WriteMemInv(o.after, addr, size, value);
    }
  }

  /** A retried read returns the promised bytes. */
  lemma SafeReadExact(s: State, addr: nat, size: nat, w: map<Loc, Byte>)
    requires Inv(s) && Transparent(s, w) && ValidSize(size) && InSpace(s, addr)
    requires SafeRead(s, addr, size).Done?
    ensures Keeps(s, SafeRead(s, addr, size).after, w)
    ensures var b := Promised(s.programs, w, Loc(s.current, addr), size);
            b.Some? ==> SafeRead(s, addr, size).value == Decode(b.value)
  {
    var o := ReadMem(s, addr, size);
    if o.Done? {
      ReadMemExact(s, addr, size, w);
    } else {
      FaultKeeps(s, addr, size, w);
      ReadMemExact(o.after, addr, size, w);
      KeepsTrans(s, o.after, SafeRead(s, addr, size).after, w);
    }
  }

  /** A retried write updates the flat memory with the encoded value. */
  lemma SafeWriteExact(s: State, addr: nat, size: nat, value: int, w: map<Loc, Byte>)
    requires Inv(s) && Transparent(s, w) && ValidSize(size) && InSpace(s, addr)
    requires SafeWrite(s, addr, size, value).Done?
    ensures var t := SafeWrite(s, addr, size, value).after;
            && Inv(t) && t.programs == s.programs && t.current == s.current
            && Transparent(t, Overlay(w, Loc(s.current, addr), Encode(value, size)))
  {
    var o := WriteMem(s, addr, size, value);
    if o.Done? {
      WriteMemExact(s, addr, size, value, w);
    } else {
      FaultKeeps(s, addr, size, w);
      WriteMemExact(o.after, addr, size, value, w);
    }
  }
}
