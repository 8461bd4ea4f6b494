/**
 Whole runs: any interleaving of reads, writes, context switches and new address
 spaces, compared with a flat memory that performs the same operations.
 */
module PagerRuns {
  import opened Basics
  import opened PagerState
  import opened PagerSpec
  import opened PagerProofs
  import opened PagerAccess
  import opened PagerSwitch

  // ---------------------------------------------------------------- boot

  /** The machine after Initialize, with no address space yet but one to come. */
  function Boot(pr: Program, memory: seq<Byte>, swap: seq<Byte>, junk: seq<Entry>): (s: State) {
    var table := map v: int | 0 <= v < pr.numPages :: PageRef(0, v) := Entry(v, -1, false, false, false, false);
    State([pr], table, EmptyTlb(junk),
          [None, None, None, None], [false, false, false, false], seq(SwapSize, _ => false),
          memory, swap, 0, 0, 0)
  }

  lemma BootInv(pr: Program, memory: seq<Byte>, swap: seq<Byte>, junk: seq<Entry>)
    requires ValidProgram(pr) && |memory| == MemorySize && |swap| == SwapSize * PageSize && |junk| == TLBSize
    ensures Inv(Boot(pr, memory, swap, junk)) && Transparent(Boot(pr, memory, swap, junk), map[])
  {
    var s := Boot(pr, memory, swap, junk);
    forall p ensures p in s.pageTable <==> IsPage(s.programs, p) {
      assert p in s.pageTable ==> IsPage(s.programs, p);
    }
    assert Shape(s);
    forall l ensures Faithful(s, map[], l) {}
  }

  // ---------------------------------------------------------------- operations

  datatype Op =
    | Read(addr: nat, size: nat)
    | Write(addr: nat, size: nat, value: int)
    | Switch(next: nat, junk1: seq<Entry>, junk2: seq<Entry>)
    | Spawn(program: Program)

  /** What the callers of the pager guarantee: addresses lie in the running space, and
      switches go to an existing space and index inside the page table. */
  ghost predicate Callable(s: State, op: Op) {
    match op
    case Read(addr, size) => ValidSize(size) && s.current < |s.programs| && InSpace(s, addr)
    case Write(addr, size, _) => ValidSize(size) && s.current < |s.programs| && InSpace(s, addr)
    case Switch(next, junk1, junk2) => SlotsNamePages(s) && next < |s.programs| && |junk1| == |junk2| == TLBSize
    case Spawn(pr) => ValidProgram(pr)
  }

  /** Besides, a switch finds a TLB that is safe to save. */
  ghost predicate Legal(s: State, op: Op) {
    Callable(s, op) && (op.Switch? ==> SafeToSave(s))
  }

  ghost function Exec(s: State, op: Op): (o: Outcome)
    requires Inv(s) && Callable(s, op)
  {
    match op
    case Read(addr, size) => SafeRead(s, addr, size)
    case Write(addr, size, value) => SafeWrite(s, addr, size, value)
    case Switch(next, junk1, junk2) => Done(Switched(s, next, junk1, junk2), 0)
    case Spawn(pr) => Done(Spawned(s, pr), 0)
  }

  /** Every legal operation keeps the ownership invariant. */
  lemma ExecInv(s: State, op: Op)
    requires Inv(s) && Legal(s, op) && Exec(s, op).Done?
    ensures Inv(Exec(s, op).after)
  {
    match op
    case Read(addr, size) => SafeReadKeeps(s, addr, size, map[]);
    case Write(addr, size, value) => SafeWriteInv(s, addr, size, value);
    case Switch(next, junk1, junk2) => SwitchKeeps(s, next, junk1, junk2, map[]);
    case Spawn(pr) => SpawnedInv(s, pr);
  }

  // ---------------------------------------------------------------- the flat machine

  /** The reference: one flat byte array per space, no frames, no TLB, no swap. */
  datatype Flat = Flat(programs: seq<Program>, written: map<Loc, Byte>, current: nat)

  function FlatExec(f: Flat, op: Op): (g: Flat) {
    match op
    case Read(_, _) => f
    case Write(addr, size, value) => f.(written := Overlay(f.written, Loc(f.current, addr), Encode(value, size)))
    case Switch(next, _, _) => f.(current := next)
    case Spawn(pr) => f.(programs := f.programs + [pr])
  }

  /** What a read must return, where flat memory promises all its bytes. */
  function FlatValue(f: Flat, op: Op): (v: Option<int>) {
    if op.Read? && ValidSize(op.size) then
      var b := Promised(f.programs, f.written, Loc(f.current, op.addr), op.size);
      if b.Some? then Some(Decode(b.value)) else None
    else None
  }

  ghost predicate Simulates(s: State, f: Flat) {
    Inv(s) && s.programs == f.programs && s.current == f.current && Transparent(s, f.written)
  }

  /** One operation: the pager and the flat memory stay in step and agree on what is read. */
  lemma StepSimulates(s: State, f: Flat, op: Op)
    requires Simulates(s, f) && Legal(s, op) && Exec(s, op).Done?
    ensures Simulates(Exec(s, op).after, FlatExec(f, op))
    ensures FlatValue(f, op).Some? ==> Exec(s, op).value == FlatValue(f, op).value
  {
    match op
    case Read(addr, size) => SafeReadExact(s, addr, size, f.written);
    case Write(addr, size, value) => SafeWriteExact(s, addr, size, value, f.written);
    case Switch(next, junk1, junk2) => SwitchKeeps(s, next, junk1, junk2, f.written);
    case Spawn(pr) => SpawnKeeps(s, pr, f.written);
  }

  /** A run of the pager: from `s`, performing `ops`, ending in `t` and returning `values`. */
  ghost predicate Run(s: State, ops: seq<Op>, t: State, values: seq<int>)
    requires Inv(s)
    decreases |ops|
  {
    |values| == |ops| &&
    if ops == [] then t == s
    else Legal(s, ops[0]) && Exec(s, ops[0]).Done? && Exec(s, ops[0]).value == values[0]
         && (ExecInv(s, ops[0]); Run(Exec(s, ops[0]).after, ops[1..], t, values[1..]))
  }

  function FlatRun(f: Flat, ops: seq<Op>): (g: Flat)
    decreases |ops|
  {
    if ops == [] then f else FlatRun(FlatExec(f, ops[0]), ops[1..])
  }

  /** A later operation finds the flat memory that the first one left to the others. */
  lemma FlatRunFirst(f: Flat, ops: seq<Op>, i: nat)
    requires 0 < i < |ops|
    ensures FlatRun(f, ops[..i]) == FlatRun(FlatExec(f, ops[0]), ops[1..][..i - 1])
  {
    assert ops[..i][1..] == ops[1..][..i - 1];
  }

  /** The value is what flat memory holds, wherever it promises the bytes. */
  ghost predicate Agrees(f: Flat, op: Op, value: int) {
    FlatValue(f, op).Some? ==> value == FlatValue(f, op).value
  }

  lemma AgreesLater(f: Flat, ops: seq<Op>, values: seq<int>, i: nat)
    requires 0 < i < |ops| == |values|
    requires Agrees(FlatRun(FlatExec(f, ops[0]), ops[1..][..i - 1]), ops[1..][i - 1], values[1..][i - 1])
    ensures Agrees(FlatRun(f, ops[..i]), ops[i], values[i])
  {
    FlatRunFirst(f, ops, i);
  }

  /** Paging transparency: after any run, every value read equals what the flat
      memory holds at that point, wherever flat memory promises the bytes read, and
      the pager still simulates the flat memory. */
  lemma {:induction false} PagingTransparent(s: State, f: Flat, ops: seq<Op>, t: State, values: seq<int>)
    requires Simulates(s, f) && Run(s, ops, t, values)
    ensures Simulates(t, FlatRun(f, ops))
    ensures forall i :: 0 <= i < |ops| ==> Agrees(FlatRun(f, ops[..i]), ops[i], values[i])
    decreases |ops|
  {
    if ops != [] {
      StepSimulates(s, f, ops[0]);
      var g := FlatExec(f, ops[0]);
      PagingTransparent(Exec(s, ops[0]).after, g, ops[1..], t, values[1..]);
      forall i | 0 < i < |ops| ensures Agrees(FlatRun(f, ops[..i]), ops[i], values[i]) {
        AgreesLater(f, ops, values, i);
      }
    }
  }

  /** No operation of a run ever stops the machine while all page tables together hold
      at most SwapSize + NumPhysPages - 1 pages and references are aligned. */
  lemma NeverStops(s: State, op: Op)
    requires Inv(s) && Legal(s, op) && |s.pageTable| <= SwapSize + NumPhysPages - 1
    requires op.Read? || op.Write? ==> Aligned(op.addr, op.size)
    ensures Exec(s, op).Done?
  {
    SwapSuffices(s);
    match op
    case Read(addr, size) => SafeReadCompletes(s, addr, size);
    case Write(addr, size, value) => SafeWriteCompletes(s, addr, size, value);
    case _ =>
  }
}
