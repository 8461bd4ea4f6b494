/**
 Whole runs of the file system on the disk's bytes: any sequence of Create, Remove, and
 writes and reads through a freshly opened file behaves as one map from names to contents.
 */
module FileRuns {
  import opened Basics
  import opened SectorFiles
  import opened DiskCodec
  import opened Directories
  import opened FileSystems
  import V = Volumes

  datatype Op =
    | Create(name: seq<Byte>, size: nat, leftover: Header)
    | Remove(name: seq<Byte>)
    | Write(name: seq<Byte>, data: seq<Byte>, position: nat)
    | Read(name: seq<Byte>, numBytes: int, position: nat)

  /** What a call returns: success, a number of bytes, or bytes. */
  datatype Result = Flag(ok: bool) | Count(n: nat) | Bytes(data: seq<Byte>)

  ghost predicate Legal(v: Volume, op: Op)
    requires V.Inv(v)
  {
    CString(op.name) && (op.Create? ==> Encodable(op.leftover) && V.Creatable(v, op.name, op.size))
  }

  // ---------------------------------------------------------------- what the disk goes through

  ghost predicate CreateStep(d: Sectors, v: Volume, op: Op, e: Sectors, w: Volume, r: Result)
    requires Represents(d, v) && Legal(v, op) && op.Create?
  {
    && r.Flag? && V.Create(v, op.name, op.size, op.leftover) == (w, r.ok)
    && if r.ok then CreateFlush(d, v, e, w) else e == d
  }

  ghost predicate RemoveStep(d: Sectors, v: Volume, op: Op, e: Sectors, w: Volume, r: Result)
    requires Represents(d, v) && Legal(v, op) && op.Remove?
  {
    && r.Flag? && V.Removable(v, op.name) && V.Remove(v, op.name) == (w, r.ok)
    && if r.ok then RemoveFlush(d, v, e, w) else e == d
  }

  /** Open and WriteAt; nothing if the name is absent. */
  ghost predicate WriteStep(d: Sectors, v: Volume, op: Op, e: Sectors, w: Volume, r: Result)
    requires Represents(d, v) && op.Write?
  {
    && w == v && r.Count?
    && if IndexOf(v.table, Key(op.name)) == -1 then e == d && r.n == 0
       else
         var h := HeaderFor(v, Key(op.name));
         && r.n == Clip(|op.data|, op.position, h.numBytes) && OnlyData(d, e, h)
         && FileBytes(e, h) ==
              if r.n == 0 then FileBytes(d, h) else Splice(FileBytes(d, h), op.position, op.data[..r.n])
  }

  /** What ReadAt returns from a file with these bytes. */
  ghost predicate ReadsFrom(bytes: seq<Byte>, numBytes: int, position: nat, data: seq<Byte>) {
    var n := Clip(numBytes, position, |bytes|);
    data == if n == 0 then [] else bytes[position..position + n]
  }

  /** Open and ReadAt; nothing if the name is absent. */
  ghost predicate ReadStep(d: Sectors, v: Volume, op: Op, e: Sectors, w: Volume, r: Result)
    requires Represents(d, v) && op.Read?
  {
    && w == v && e == d && r.Bytes?
    && if IndexOf(v.table, Key(op.name)) == -1 then r.data == []
       else
         ReadsFrom(FileBytes(d, HeaderFor(v, Key(op.name))), op.numBytes, op.position, r.data)
  }

  ghost predicate Step(d: Sectors, v: Volume, op: Op, e: Sectors, w: Volume, r: Result)
    requires Represents(d, v) && Legal(v, op)
  {
    match op
    case Create(_, _, _) => CreateStep(d, v, op, e, w, r)
    case Remove(_) => RemoveStep(d, v, op, e, w, r)
    case Write(_, _, _) => WriteStep(d, v, op, e, w, r)
    case Read(_, _, _) => ReadStep(d, v, op, e, w, r)
  }

  // ---------------------------------------------------------------- the map

  /** What the call does to the contents of its own name, as a map does. */
  ghost predicate MapStep(before: Option<seq<Byte>>, op: Op, after: Option<seq<Byte>>, r: Result) {
    match op
    case Create(_, size, _) =>
      r.Flag? && if r.ok then before == None && after.Some? && |after.value| == size else after == before
    case Remove(_) => r.Flag? && (r.ok <==> before.Some?) && after == None
    case Write(_, data, position) =>
      && r.Count?
      && if before == None then after == None && r.n == 0
         else
           && r.n == Clip(|data|, position, |before.value|)
           && after == Some(if r.n == 0 then before.value else Splice(before.value, position, data[..r.n]))
    case Read(_, numBytes, position) =>
      && r.Bytes? && after == before
      && if before == None then r.data == [] else ReadsFrom(before.value, numBytes, position, r.data)
  }

  /** One call acts on its own name as on a map, and on no other name. */
  ghost predicate ActsAsMap(d: Sectors, v: Volume, op: Op, e: Sectors, w: Volume, r: Result)
    requires Represents(d, v) && Represents(e, w)
  {
    && MapStep(Contents(d, v, Key(op.name)), op, Contents(e, w, Key(op.name)), r)
    && forall key :: key != Key(op.name) ==> Contents(e, w, key) == Contents(d, v, key)
  }

  // ---------------------------------------------------------------- each call

  lemma CreateActs(d: Sectors, v: Volume, op: Op, e: Sectors, w: Volume, r: Result)
    requires Represents(d, v) && Legal(v, op) && op.Create? && CreateStep(d, v, op, e, w, r)
    ensures Represents(e, w) && ActsAsMap(d, v, op, e, w, r)
  {
    if r.ok {
      FileCreated(d, e, v, w, op.name, op.size, op.leftover);
    }
  }

  lemma RemoveActs(d: Sectors, v: Volume, op: Op, e: Sectors, w: Volume, r: Result)
    requires Represents(d, v) && Legal(v, op) && op.Remove? && RemoveStep(d, v, op, e, w, r)
    ensures Represents(e, w) && ActsAsMap(d, v, op, e, w, r)
  {
    V.RemoveInv(v, op.name);
    V.RemoveDefined(v, op.name);
    if r.ok {
      var freed :| RemoveWrites(d, v, e, w, freed);
      RemoveFlushed(d, freed, e, v, w, v.table[IndexOf(v.table, Key(op.name))].sector);
      RemoveContents(d, e, v, w, op.name);
    }
  }

  lemma WriteActs(d: Sectors, v: Volume, op: Op, e: Sectors, w: Volume, r: Result)
    requires Represents(d, v) && op.Write? && WriteStep(d, v, op, e, w, r)
    ensures Represents(e, w) && ActsAsMap(d, v, op, e, w, r)
  {
    if IndexOf(v.table, Key(op.name)) != -1 {
      var h := HeaderFor(v, Key(op.name));
      assert |FileBytes(d, h)| == h.numBytes;
      FileWritten(d, e, v, Key(op.name));
    }
  }

  lemma ReadActs(d: Sectors, v: Volume, op: Op, e: Sectors, w: Volume, r: Result)
    requires Represents(d, v) && op.Read? && ReadStep(d, v, op, e, w, r)
    ensures Represents(e, w) && ActsAsMap(d, v, op, e, w, r)
  {
  }

  /** Every call keeps the volume on the disk and acts as on a map. */
  lemma StepActs(d: Sectors, v: Volume, op: Op, e: Sectors, w: Volume, r: Result)
    requires Represents(d, v) && Legal(v, op) && Step(d, v, op, e, w, r)
    ensures Represents(e, w) && ActsAsMap(d, v, op, e, w, r)
  {
    match op
    case Create(_, _, _) => CreateActs(d, v, op, e, w, r);
    case Remove(_) => RemoveActs(d, v, op, e, w, r);
    case Write(_, _, _) => WriteActs(d, v, op, e, w, r);
    case Read(_, _, _) => ReadActs(d, v, op, e, w, r);
  }

  // ---------------------------------------------------------------- the class takes these steps

  /** Open a file and write through it. */
  method WriteNamed(fs: FileSystem, op: Op) returns (n: nat)
    requires fs.Valid() && op.Write? && CString(op.name)
    modifies fs.disk
    ensures fs.Valid() && WriteStep(old(fs.disk.sectors), fs.volume, op, fs.disk.sectors, fs.volume, Count(n))
  {
    n := 0;
    var file := fs.Open(op.name);
    if file != null {
      n := file.WriteAt(op.data, op.position);
      FileWritten(old(fs.disk.sectors), fs.disk.sectors, fs.volume, Key(op.name));
    }
  }

  /** Read from an open file. */
  method ReadOpened(file: OpenFile, numBytes: int, position: nat) returns (data: seq<Byte>)
    requires file.Valid()
    ensures ReadsFrom(FileBytes(file.disk.sectors, file.hdr), numBytes, position, data)
  {
    data := file.ReadAt(numBytes, position);
  }

  /** Open a file and read from it. */
  method ReadNamed(fs: FileSystem, op: Op) returns (data: seq<Byte>)
    requires fs.Valid() && op.Read? && CString(op.name)
    ensures ReadStep(fs.disk.sectors, fs.volume, op, fs.disk.sectors, fs.volume, Bytes(data))
  {
    data := [];
    var file := fs.Open(op.name);
    if file != null {
      data := ReadOpened(file, op.numBytes, op.position);
    }
  }

  /** Every call on a mounted file system is a step, so what holds of every run of steps
      holds of every sequence of calls. */
  method Perform(fs: FileSystem, op: Op) returns (r: Result)
    requires fs.Valid() && Legal(fs.volume, op)
    modifies fs, fs.disk
    ensures fs.Valid() && Step(old(fs.disk.sectors), old(fs.volume), op, fs.disk.sectors, fs.volume, r)
  {
    match op {
      case Create(name, size, leftover) =>
        var ok := fs.Create(name, size, leftover);
        r := Flag(ok);
      case Remove(name) =>
        var ok := fs.Remove(name);
        r := Flag(ok);
      case Write(_, _, _) =>
        var n := WriteNamed(fs, op);
        r := Count(n);
      case Read(_, _, _) =>
        var data := ReadNamed(fs, op);
        r := Bytes(data);
    }
  }

  // ---------------------------------------------------------------- whole runs

  /** A run through the disks `ds`, which hold the volumes `vs`. */
  ghost predicate Run(ds: seq<Sectors>, vs: seq<Volume>, ops: seq<Op>, rs: seq<Result>)
    requires |ds| == |vs| == |ops| + 1 == |rs| + 1 && Represents(ds[0], vs[0])
    decreases |ops|
  {
    ops != [] ==>
      && Legal(vs[0], ops[0]) && Step(ds[0], vs[0], ops[0], ds[1], vs[1], rs[0])
      && (StepActs(ds[0], vs[0], ops[0], ds[1], vs[1], rs[0]); Run(ds[1..], vs[1..], ops[1..], rs[1..]))
  }

  ghost predicate Taken(d: Sectors, v: Volume, op: Op, e: Sectors, w: Volume, r: Result) {
    Represents(d, v) && Legal(v, op) && Step(d, v, op, e, w, r)
  }

  lemma {:induction false} RunAt(ds: seq<Sectors>, vs: seq<Volume>, ops: seq<Op>, rs: seq<Result>, i: nat)
    requires |ds| == |vs| == |ops| + 1 == |rs| + 1 && Represents(ds[0], vs[0])
    requires Run(ds, vs, ops, rs) && i < |ops|
    ensures Taken(ds[i], vs[i], ops[i], ds[i + 1], vs[i + 1], rs[i])
    decreases |ops|
  {
    if i > 0 {
      StepActs(ds[0], vs[0], ops[0], ds[1], vs[1], rs[0]);
      RunAt(ds[1..], vs[1..], ops[1..], rs[1..], i - 1);
    }
  }

  /** Over every run from a disk that holds a volume, every disk holds one, and every call
      acts as on one map from names to contents. */
  lemma RunActs(ds: seq<Sectors>, vs: seq<Volume>, ops: seq<Op>, rs: seq<Result>, i: nat)
    requires |ds| == |vs| == |ops| + 1 == |rs| + 1 && Represents(ds[0], vs[0])
    requires Run(ds, vs, ops, rs) && i < |ops|
    ensures Represents(ds[i], vs[i]) && Represents(ds[i + 1], vs[i + 1])
    ensures ActsAsMap(ds[i], vs[i], ops[i], ds[i + 1], vs[i + 1], rs[i])
  {
    RunAt(ds, vs, ops, rs, i);
    StepActs(ds[i], vs[i], ops[i], ds[i + 1], vs[i + 1], rs[i]);
  }

  // ---------------------------------------------------------------- the history of one name

  /** What a name holds on a disk. */
  ghost function Under(d: Sectors, v: Volume, key: seq<Byte>): (c: Option<seq<Byte>>) {
    if Represents(d, v) then Contents(d, v, key) else None
  }

  ghost function Unders(ds: seq<Sectors>, vs: seq<Volume>, key: seq<Byte>): (cs: seq<Option<seq<Byte>>>)
    requires |ds| == |vs|
    ensures |cs| == |ds| && forall i :: 0 <= i < |ds| ==> cs[i] == Under(ds[i], vs[i], key)
  {
    if ds == [] then [] else [Under(ds[0], vs[0], key)] + Unders(ds[1..], vs[1..], key)
  }

  /** A call on the name acts as on a map, a call on another leaves it alone. */
  ghost predicate NameStep(before: Option<seq<Byte>>, op: Op, after: Option<seq<Byte>>, r: Result, key: seq<Byte>) {
    if Key(op.name) == key then MapStep(before, op, after, r) else after == before
  }

  /** `cs` is what one name holds through a run. */
  ghost predicate History(cs: seq<Option<seq<Byte>>>, ops: seq<Op>, rs: seq<Result>, key: seq<Byte>) {
    && |cs| == |ops| + 1 == |rs| + 1
    && forall i :: 0 <= i < |ops| ==> NameStep(cs[i], ops[i], cs[i + 1], rs[i], key)
  }

  lemma RunUnder(ds: seq<Sectors>, vs: seq<Volume>, ops: seq<Op>, rs: seq<Result>, key: seq<Byte>, i: nat)
    requires |ds| == |vs| == |ops| + 1 == |rs| + 1 && Represents(ds[0], vs[0])
    requires Run(ds, vs, ops, rs) && i < |ops|
    ensures NameStep(Under(ds[i], vs[i], key), ops[i], Under(ds[i + 1], vs[i + 1], key), rs[i], key)
  {
    RunActs(ds, vs, ops, rs, i);
  }

  /** Every run gives every name such a history. */
  lemma RunHistory(ds: seq<Sectors>, vs: seq<Volume>, ops: seq<Op>, rs: seq<Result>, key: seq<Byte>)
    requires |ds| == |vs| == |ops| + 1 == |rs| + 1 && Represents(ds[0], vs[0])
    requires Run(ds, vs, ops, rs)
    ensures History(Unders(ds, vs, key), ops, rs, key)
  {
    var cs := Unders(ds, vs, key);
    forall i | 0 <= i < |ops| ensures NameStep(cs[i], ops[i], cs[i + 1], rs[i], key) {
      RunUnder(ds, vs, ops, rs, key, i);
    }
  }

  lemma {:induction false} HistoryStays(cs: seq<Option<seq<Byte>>>, ops: seq<Op>, rs: seq<Result>, key: seq<Byte>,
                                        i: nat, j: nat)
    requires History(cs, ops, rs, key) && i <= j < |cs| && forall k :: i <= k < j ==> Key(ops[k].name) != key
    ensures cs[j] == cs[i]
    decreases j
  {
    if i < j {
      HistoryStays(cs, ops, rs, key, i, j - 1);
      assert NameStep(cs[j - 1], ops[j - 1], cs[j], rs[j - 1], key);
    }
  }

  /** A read of at least a file's length from its start returns all of it. */
  lemma ReadsAll(cs: seq<Option<seq<Byte>>>, ops: seq<Op>, rs: seq<Result>, i: nat)
    requires i < |ops| && History(cs, ops, rs, Key(ops[i].name)) && ops[i].Read? && ops[i].position == 0
    ensures cs[i].Some? && |cs[i].value| <= ops[i].numBytes ==> rs[i] == Bytes(cs[i].value)
  {
    assert NameStep(cs[i], ops[i], cs[i + 1], rs[i], Key(ops[i].name));
    if cs[i].Some? && |cs[i].value| <= ops[i].numBytes {
      assert Clip(ops[i].numBytes, 0, |cs[i].value|) == |cs[i].value|;
      assert cs[i].value[0..|cs[i].value|] == cs[i].value;
    }
  }

  /** A read returns what the last write to the same place stored, unless a call in between
      was on the same name. */
  lemma ReadsBack(cs: seq<Option<seq<Byte>>>, ops: seq<Op>, rs: seq<Result>, i: nat, j: nat)
    requires i < j < |ops| && History(cs, ops, rs, Key(ops[i].name)) && ops[i].Write? && ops[j].Read?
    requires Key(ops[j].name) == Key(ops[i].name) && forall k :: i < k < j ==> Key(ops[k].name) != Key(ops[i].name)
    requires ops[j].position == ops[i].position && ops[j].numBytes == |ops[i].data|
    ensures rs[i].Count? && rs[i].n <= |ops[i].data| && rs[j] == Bytes(ops[i].data[..rs[i].n])
  {
    HistoryStays(cs, ops, rs, Key(ops[i].name), i + 1, j);
    assert NameStep(cs[i], ops[i], cs[i + 1], rs[i], Key(ops[i].name));
    assert NameStep(cs[j], ops[j], cs[j + 1], rs[j], Key(ops[i].name));
    if cs[i].Some? && rs[i].n > 0 {
      SplicedBack(cs[i].value, ops[i].position, ops[i].data[..rs[i].n]);
    }
  }

  lemma SplicedBack(store: seq<Byte>, at: nat, data: seq<Byte>)
    requires at + |data| <= |store|
    ensures Splice(store, at, data)[at..at + |data|] == data
  {
  }

  // ---------------------------------------------------------------- handles that outlive their file

  /** Right after a Remove the file's data sectors belong to no one. */
  lemma RemovedUnowned(v: Volume, name: seq<Byte>, w: Volume, k: int)
    requires V.Inv(v) && V.Removable(v, name) && V.Remove(v, name) == (w, true)
    requires k in DataSectors(HeaderFor(v, Key(name)))
    ensures !V.Owned(w, k)
  {
    var s, h := v.table[IndexOf(v.table, Key(name))].sector, HeaderFor(v, Key(name));
    DataMember(h, k);
    V.RemoveInv(v, name);
    assert V.Owns(v, s, k);
    forall t ensures !V.Owns(w, t, k) {
      assert V.Owns(w, t, k) ==> V.Owns(v, t, k) && t != s;
    }
  }

  /** While no file owns a sector of it, an old handle may be written through: nothing
      anyone can read changes. */
  lemma StaleHandleHarmless(d: Sectors, e: Sectors, v: Volume, h: Header)
    requires Represents(d, v) && OnlyData(d, e, h) && forall k :: k in DataSectors(h) ==> !V.Owned(v, k)
    ensures Represents(e, v)
    ensures forall key :: Contents(e, v, key) == Contents(d, v, key)
  {
    forall s | s in v.headers ensures e[s] == d[s] && FileBytes(e, v.headers[s]) == FileBytes(d, v.headers[s]) {
      StaleFile(d, e, v, h, s);
    }
    forall key ensures Contents(e, v, key) == Contents(d, v, key) {
      var i := IndexOf(v.table, key);
      if i != -1 { assert V.IsHead(v.table, v.table[i].sector); }
    }
  }

  lemma StaleFile(d: Sectors, e: Sectors, v: Volume, h: Header, s: int)
    requires V.Inv(v) && OnlyData(d, e, h) && s in v.headers
    requires forall k :: k in DataSectors(h) ==> !V.Owned(v, k)
    ensures e[s] == d[s] && FileBytes(e, v.headers[s]) == FileBytes(d, v.headers[s])
  {
    assert V.Owns(v, s, s);
    assert s !in DataSectors(h);
    forall k | k in DataSectors(h) && k in DataSectors(v.headers[s]) ensures false {
      DataMember(v.headers[s], k);
      assert V.Owns(v, s, k);
    }
    OtherFileUnchanged(d, e, h, v.headers[s]);
  }

  /** WriteAt with this byte through `h` is within its file and changes the file `g`. */
  ghost predicate Harms(d: Sectors, h: Header, g: Header, pos: nat, b: Byte)
    requires DiskShape(d) && ValidHeader(h) && ValidHeader(g)
  {
    && Clip(1, pos, h.numBytes) == 1
    && forall e :: OnlyData(d, e, h) && FileBytes(e, h) == Splice(FileBytes(d, h), pos, [b]) ==>
         FileBytes(e, g) != FileBytes(d, g)
  }

  /** Once a file owns a data sector of it, there is a byte to write through the old handle
      that changes the other file. */
  lemma StaleHandleHarms(d: Sectors, h: Header, g: Header, i: nat) returns (pos: nat, b: Byte)
    requires DiskShape(d) && ValidHeader(h) && ValidHeader(g) && i < g.numSectors
    requires g.dataSectors[i] in DataSectors(h)
    ensures Harms(d, h, g, pos, b)
  {
    var k := g.dataSectors[i];
    var j :| 0 <= j < h.numSectors && h.dataSectors[j] == k;
    pos, b := j * SectorSize, if d[k][0] == 0 then 1 else 0;
    SectorStart(h, j);
    SectorStart(g, i);
    forall e | OnlyData(d, e, h) && FileBytes(e, h) == Splice(FileBytes(d, h), pos, [b])
      ensures FileBytes(e, g) != FileBytes(d, g)
    {
      assert FileBytes(e, h)[pos] == b;
      assert FileBytes(e, g)[i * SectorSize] == e[k][0] && FileBytes(d, g)[i * SectorSize] == d[k][0];
    }
  }

  /** The first byte of a data sector. */
  lemma SectorStart(h: Header, j: nat)
    requires ValidHeader(h) && j < h.numSectors
    ensures j * SectorSize < h.numBytes
    ensures forall d :: DiskShape(d) ==> FileByte(d, h, j * SectorSize) == d[h.dataSectors[j]][0]
  {
    assert j * SectorSize / SectorSize == j && j * SectorSize % SectorSize == 0;
  }

  /** The lowest clear bits in order do not depend on how many are taken. */
  lemma {:induction false} LowestStarts(bits: seq<bool>, n: nat, i: nat)
    requires i < n
    ensures V.Lowest(bits, n)[i] == V.Lowest(bits, i + 1)[i]
  {
    if n > i + 1 {
      LowestStarts(bits, n - 1, i);
    }
  }

  /** A Create that succeeds. */
  ghost predicate Creates(v: Volume, op: Op, w: Volume) {
    V.Inv(v) && op.Create? && Legal(v, op) && V.Create(v, op.name, op.size, op.leftover) == (w, true)
  }

  /** A Remove that succeeds. */
  ghost predicate Removes(v: Volume, name: seq<Byte>, w: Volume) {
    V.Inv(v) && V.Removable(v, name) && V.Remove(v, name) == (w, true)
  }

  /** The volume files `h` under a name. */
  ghost predicate Filed(v: Volume, key: seq<Byte>, h: Header) {
    V.Inv(v) && IndexOf(v.table, key) != -1 && HeaderFor(v, key) == h
  }

  /** The data sectors of a created file are the lowest that are clear once its header has
      a sector. */
  lemma CreatedData(v: Volume, op: Op, w: Volume, i: nat) returns (h: Header)
    requires Creates(v, op, w) && i < V.SectorsFor(op.size)
    ensures Filed(w, Key(op.name), h) && ValidHeader(h) && i < h.numSectors && FirstClear(v.bits) != -1
    ensures h.dataSectors[i] == V.Lowest(v.bits[FirstClear(v.bits) := true], i + 1)[i]
  {
    V.CreateInv(v, op.name, op.size, op.leftover);
    AddedKeeps(v.table, UnusedFrom(v.table, 0), op.name, FirstClear(v.bits));
    LowestStarts(v.bits[FirstClear(v.bits) := true], V.SectorsFor(op.size), i);
    h := HeaderFor(w, Key(op.name));
  }

  /** Create a file, keep it open, remove it and create another: the data of the new file
      lies in the sectors of the old one, as far as both reach. */
  lemma SectorsReused(v: Volume, first: Op, w: Volume, x: Volume, second: Op, y: Volume, i: nat)
    returns (h: Header, g: Header)
    requires Creates(v, first, w) && Removes(w, first.name, x) && Creates(x, second, y)
    requires i < V.SectorsFor(first.size) && i < V.SectorsFor(second.size)
    ensures Filed(w, Key(first.name), h) && ValidHeader(h) && i < h.numSectors
    ensures Filed(y, Key(second.name), g) && ValidHeader(g) && i < g.numSectors
    ensures g.dataSectors[i] == h.dataSectors[i]
  {
    h := CreatedData(v, first, w, i);
    V.RemoveUndoesCreate(v, first.name, first.size, first.leftover, w);
    g := CreatedData(x, second, y, i);
  }

  /** So after Create, Open, Remove and Create the old handle can be used to change the new
      file, whatever the disk and whatever the names and sizes, unless a file is empty. */
  lemma StaleAfterReuse(d: Sectors, v: Volume, first: Op, w: Volume, x: Volume, second: Op, y: Volume)
    returns (h: Header, g: Header, pos: nat, b: Byte)
    requires Creates(v, first, w) && Removes(w, first.name, x) && Creates(x, second, y)
    requires first.size > 0 && second.size > 0 && Represents(d, y)
    ensures Filed(w, Key(first.name), h) && Filed(y, Key(second.name), g)
    ensures ValidHeader(h) && ValidHeader(g) && Harms(d, h, g, pos, b)
  {
    h, g := SectorsReused(v, first, w, x, second, y, 0);
    pos, b := StaleHandleHarms(d, h, g, 0);
  }
}
