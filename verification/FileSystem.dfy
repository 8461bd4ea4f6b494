/**
 FileSystem of filesys/filesys.cc over the bytes of the disk.  The class is proved to keep
 a Volume (Volume.dfy) encoded on the disk, and to behave towards its callers as a map from
 names to file contents.
 */
module FileSystems {
  import opened Basics
  import opened BitMaps
  import opened SectorFiles
  import opened DiskCodec
  import opened Directories
  import opened FreeMaps
  import V = Volumes

  type Volume = V.Volume

  /** The disk holds the volume: headers in their sectors, the free map and the directory
      in their files. */
  ghost predicate Represents(d: Sectors, v: Volume) {
    && DiskShape(d) && V.Inv(v)
    && (forall s :: s in v.headers ==> HeaderOf(d[s]) == v.headers[s])
    && MapOf(FileBytes(d, v.headers[V.FreeMapSector])) == v.bits
    && TableOf(FileBytes(d, v.headers[V.DirectorySector])) == v.table
  }

  /** The bytes of a disk determine the volume on it. */
  lemma OneVolume(d: Sectors, v: Volume, w: Volume)
    requires Represents(d, v) && Represents(d, w)
    ensures v == w
  {
    assert v.headers[V.FreeMapSector] == w.headers[V.FreeMapSector];
    assert v.headers[V.DirectorySector] == w.headers[V.DirectorySector];
    assert v.table == w.table;
    forall s ensures s in v.headers <==> s in w.headers {
      assert s in v.headers <==> s == V.FreeMapSector || s == V.DirectorySector || V.IsHead(v.table, s);
    }
    forall s | s in v.headers ensures v.headers[s] == w.headers[s] {
      assert v.headers[s] == HeaderOf(d[s]);
    }
    assert v.headers == w.headers;
  }

  /** The header filed under a name. */
  ghost function HeaderFor(v: Volume, key: seq<Byte>): (h: Header)
    requires V.Inv(v) && IndexOf(v.table, key) != -1
    ensures ValidHeader(h)
  {
    var s := v.table[IndexOf(v.table, key)].sector;
    assert V.IsHead(v.table, s);
    v.headers[s]
  }

  /** What a caller can read under a name. */
  ghost function Contents(d: Sectors, v: Volume, key: seq<Byte>): (c: Option<seq<Byte>>)
    requires DiskShape(d) && V.Inv(v)
  {
    if IndexOf(v.table, key) == -1 then None else Some(FileBytes(d, HeaderFor(v, key)))
  }

  /** Every name but one reads the same on both disks. */
  ghost predicate OthersAlike(d: Sectors, e: Sectors, v: Volume, w: Volume, key: seq<Byte>) {
    && DiskShape(d) && V.Inv(v) && DiskShape(e) && V.Inv(w)
    && forall other :: other != key ==> Contents(e, w, other) == Contents(d, v, other)
  }

  lemma DataMember(h: Header, k: int)
    requires ValidHeader(h)
    ensures k in DataSectors(h) <==> k in V.Data(h)
  {
    assert forall i :: 0 <= i < h.numSectors ==> V.Data(h)[i] == h.dataSectors[i];
    if k in V.Data(h) {
      var i :| 0 <= i < |V.Data(h)| && V.Data(h)[i] == k;
      assert h.dataSectors[i] == k;
    }
  }

  /** Two files of a volume share no data sector, and a data sector is no header. */
  lemma Apart(v: Volume, s: int, t: int)
    requires V.Inv(v) && s in v.headers && t in v.headers
    ensures s != t ==> DataSectors(v.headers[s]) !! DataSectors(v.headers[t])
    ensures s !in DataSectors(v.headers[t])
  {
    forall k | k in DataSectors(v.headers[s]) && k in DataSectors(v.headers[t]) ensures s == t {
      DataMember(v.headers[s], k);
      DataMember(v.headers[t], k);
      assert V.Owns(v, s, k) && V.Owns(v, t, k);
    }
    DataMember(v.headers[t], s);
    if s in V.Data(v.headers[t]) {
      assert V.Owns(v, s, s) && V.Owns(v, t, s);
    }
  }

  // ---------------------------------------------------------------- writing one file

  /** `e` differs from `d` at most in the data of file `s`. */
  ghost predicate OnlyData(d: Sectors, e: Sectors, h: Header) {
    && DiskShape(d) && DiskShape(e) && ValidHeader(h)
    && forall k :: 0 <= k < NumSectors && k !in DataSectors(h) ==> e[k] == d[k]
  }

  /** Writing the data of one file leaves all headers and all other files alone. */
  lemma DataWritten(d: Sectors, e: Sectors, v: Volume, s: int, t: int)
    requires V.Inv(v) && s in v.headers && t in v.headers && OnlyData(d, e, v.headers[s])
    ensures e[t] == d[t]
    ensures t != s ==> FileBytes(e, v.headers[t]) == FileBytes(d, v.headers[t])
  {
    Apart(v, t, s);
    if t != s {
      OtherFileUnchanged(d, e, v.headers[s], v.headers[t]);
    }
  }

  lemma WrittenRepresents(d: Sectors, e: Sectors, v: Volume, key: seq<Byte>)
    requires Represents(d, v) && IndexOf(v.table, key) != -1 && OnlyData(d, e, HeaderFor(v, key))
    ensures Represents(e, v)
  {
    var s := v.table[IndexOf(v.table, key)].sector;
    assert V.IsHead(v.table, s);
    forall t | t in v.headers ensures e[t] == d[t] {
      DataWritten(d, e, v, s, t);
    }
    DataWritten(d, e, v, s, V.FreeMapSector);
    DataWritten(d, e, v, s, V.DirectorySector);
  }

  /** Writing through an open user file keeps the volume and every other file. */
  lemma FileWritten(d: Sectors, e: Sectors, v: Volume, key: seq<Byte>)
    requires Represents(d, v) && IndexOf(v.table, key) != -1 && OnlyData(d, e, HeaderFor(v, key))
    ensures Represents(e, v) && OthersAlike(d, e, v, v, key)
  {
    WrittenRepresents(d, e, v, key);
    forall other | other != key ensures Contents(e, v, other) == Contents(d, v, other) {
      OtherContents(d, e, v, key, other);
    }
  }

  lemma OtherFile(d: Sectors, e: Sectors, v: Volume, key: seq<Byte>, other: seq<Byte>)
    requires V.Inv(v) && IndexOf(v.table, key) != -1 && IndexOf(v.table, other) != -1 && other != key
    requires OnlyData(d, e, HeaderFor(v, key))
    ensures FileBytes(e, HeaderFor(v, other)) == FileBytes(d, HeaderFor(v, other))
  {
    var i, j := IndexOf(v.table, key), IndexOf(v.table, other);
    assert V.IsHead(v.table, v.table[i].sector) && V.IsHead(v.table, v.table[j].sector);
    DataWritten(d, e, v, v.table[i].sector, v.table[j].sector);
  }

  lemma OtherContents(d: Sectors, e: Sectors, v: Volume, key: seq<Byte>, other: seq<Byte>)
    requires V.Inv(v) && IndexOf(v.table, key) != -1 && other != key && OnlyData(d, e, HeaderFor(v, key))
    ensures Contents(e, v, other) == Contents(d, v, other)
  {
    if IndexOf(v.table, other) != -1 {
      OtherFile(d, e, v, key, other);
    }
  }

  // ---------------------------------------------------------------- flushing

  /** The sector holds part of the free map or of the directory. */
  ghost predicate SystemData(v: Volume, k: int)
    requires V.Inv(v)
  {
    k in DataSectors(v.headers[V.FreeMapSector]) || k in DataSectors(v.headers[V.DirectorySector])
  }

  /** From `d` to `e` a free sector may have become a header and the two system files were
      rewritten, to hold the volume `w`. */
  ghost predicate Rewritten(d: Sectors, e: Sectors, v: Volume, w: Volume, added: int) {
    && Represents(d, v) && V.Inv(w) && DiskShape(e)
    && w.headers[V.FreeMapSector] == v.headers[V.FreeMapSector]
    && w.headers[V.DirectorySector] == v.headers[V.DirectorySector]
    && !V.Owned(v, added)
    && (forall k :: 0 <= k < NumSectors && k != added && !SystemData(v, k) ==> e[k] == d[k])
    && (forall s :: s in w.headers && s != added ==> s in v.headers && w.headers[s] == v.headers[s])
    && (added in w.headers ==> HeaderOf(e[added]) == w.headers[added])
    && MapOf(FileBytes(e, v.headers[V.FreeMapSector])) == w.bits
    && TableOf(FileBytes(e, v.headers[V.DirectorySector])) == w.table
  }

  lemma RewrittenRepresents(d: Sectors, e: Sectors, v: Volume, w: Volume, added: int)
    requires Rewritten(d, e, v, w, added)
    ensures Represents(e, w)
  {
    forall s | s in w.headers ensures HeaderOf(e[s]) == w.headers[s] {
      if s != added {
        Apart(v, s, V.FreeMapSector);
        Apart(v, s, V.DirectorySector);
      }
    }
  }

  /** A user file's data is untouched. */
  lemma RewrittenFile(d: Sectors, e: Sectors, v: Volume, w: Volume, added: int, s: int)
    requires Rewritten(d, e, v, w, added) && s in v.headers && s != V.FreeMapSector && s != V.DirectorySector
    ensures FileBytes(e, v.headers[s]) == FileBytes(d, v.headers[s])
  {
    var h := v.headers[s];
    Apart(v, s, V.FreeMapSector);
    Apart(v, s, V.DirectorySector);
    forall i | 0 <= i < h.numBytes ensures FileByte(e, h, i) == FileByte(d, h, i) {
      ByteSector(h, i);
      var k := h.dataSectors[i / SectorSize];
      assert k in DataSectors(h);
      DataMember(h, k);
      assert V.Owns(v, s, k);
    }
  }

  lemma RewrittenContents(d: Sectors, e: Sectors, v: Volume, w: Volume, added: int, key: seq<Byte>)
    requires Rewritten(d, e, v, w, added) && IndexOf(w.table, key) == IndexOf(v.table, key)
    requires IndexOf(v.table, key) != -1 ==> w.table[IndexOf(v.table, key)] == v.table[IndexOf(v.table, key)]
    ensures Represents(e, w) && Contents(e, w, key) == Contents(d, v, key)
  {
    RewrittenRepresents(d, e, v, w, added);
    var i := IndexOf(v.table, key);
    if i != -1 {
      var s := v.table[i].sector;
      assert V.IsHead(v.table, s);
      assert V.IsHead(w.table, s);
      assert V.Owns(v, s, s);
      RewrittenFile(d, e, v, w, added, s);
    }
  }

  /** Two directories agree on every name but one. */
  ghost predicate SameBut(t: seq<DirEntry>, u: seq<DirEntry>, name: seq<Byte>) {
    && EncodableTable(t) && EncodableTable(u)
    && forall key :: key != name ==>
         IndexOf(u, key) == IndexOf(t, key) && (IndexOf(t, key) != -1 ==> u[IndexOf(t, key)] == t[IndexOf(t, key)])
  }

  lemma RewrittenOthers(d: Sectors, e: Sectors, v: Volume, w: Volume, added: int, name: seq<Byte>)
    requires Rewritten(d, e, v, w, added) && SameBut(v.table, w.table, name)
    ensures Represents(e, w)
    ensures forall key :: key != name ==> Contents(e, w, key) == Contents(d, v, key)
  {
    RewrittenRepresents(d, e, v, w, added);
    forall key | key != name ensures Contents(e, w, key) == Contents(d, v, key) {
      RewrittenContents(d, e, v, w, added, key);
    }
  }

  lemma CreatedEntry(v: Volume, w: Volume, name: seq<Byte>, size: nat, leftover: Header)
    requires V.Inv(v) && CString(name) && V.Creatable(v, name, size) && Encodable(leftover)
    requires V.Create(v, name, size, leftover) == (w, true)
    ensures SameBut(v.table, w.table, Key(name))
    ensures var i := IndexOf(w.table, Key(name));
            i != -1 && w.table[i].sector in w.headers && w.headers[w.table[i].sector].numBytes == size
  {
    AddedKeeps(v.table, UnusedFrom(v.table, 0), name, FirstClear(v.bits));
  }

  /** A created file can be read, has the size asked for, and disturbs no other file. */
  lemma CreateContents(d: Sectors, e: Sectors, v: Volume, w: Volume,
                       name: seq<Byte>, size: nat, leftover: Header, added: int)
    requires CString(name) && Encodable(leftover) && V.Inv(v) && V.Creatable(v, name, size)
    requires V.Create(v, name, size, leftover) == (w, true) && Rewritten(d, e, v, w, added)
    ensures Represents(e, w)
    ensures Contents(e, w, Key(name)).Some? && |Contents(e, w, Key(name)).value| == size
    ensures forall key :: key != Key(name) ==> Contents(e, w, key) == Contents(d, v, key)
  {
    CreatedEntry(v, w, name, size, leftover);
    RewrittenOthers(d, e, v, w, added, Key(name));
  }

  /** A removed file can no longer be read; every other one still can. */
  lemma RemoveContents(d: Sectors, e: Sectors, v: Volume, w: Volume, name: seq<Byte>)
    requires V.Inv(v) && V.Removable(v, name) && V.Remove(v, name) == (w, true) && Rewritten(d, e, v, w, -1)
    ensures Represents(e, w)
    ensures Contents(e, w, Key(name)) == None
    ensures forall key :: key != Key(name) ==> Contents(e, w, key) == Contents(d, v, key)
  {
    RemovedKeeps(v.table, IndexOf(v.table, Key(name)));
    RewrittenOthers(d, e, v, w, -1, Key(name));
  }

  // ---------------------------------------------------------------- the order of writes

  /** Create writes the header, then the directory, then the free map. */
  ghost predicate CreateWrites(d: Sectors, v: Volume, e: Sectors, w: Volume, headed: Sectors, filed: Sectors)
    requires Represents(d, v)
  {
    var sector := FirstClear(v.bits);
    && 0 <= sector < NumSectors && sector in w.headers && |w.headers[sector].dataSectors| == NumDirect
    && headed == d[sector := HeaderBytes(w.headers[sector])]
    && OnlyData(headed, filed, v.headers[V.DirectorySector])
    && TableOf(FileBytes(filed, v.headers[V.DirectorySector])) == w.table
    && OnlyData(filed, e, v.headers[V.FreeMapSector])
    && MapOf(FileBytes(e, v.headers[V.FreeMapSector])) == w.bits
  }

  /** Remove writes the free map, then the directory. */
  ghost predicate RemoveWrites(d: Sectors, v: Volume, e: Sectors, w: Volume, freed: Sectors)
    requires Represents(d, v)
  {
    && OnlyData(d, freed, v.headers[V.FreeMapSector])
    && MapOf(FileBytes(freed, v.headers[V.FreeMapSector])) == w.bits
    && OnlyData(freed, e, v.headers[V.DirectorySector])
    && TableOf(FileBytes(e, v.headers[V.DirectorySector])) == w.table
  }

  /** The disk went from `d` to `e` by the writes of a Create that made `w` of `v`. */
  ghost predicate CreateFlush(d: Sectors, v: Volume, e: Sectors, w: Volume) {
    Represents(d, v) && exists headed, filed :: CreateWrites(d, v, e, w, headed, filed)
  }

  /** The disk went from `d` to `e` by the writes of a Remove that made `w` of `v`. */
  ghost predicate RemoveFlush(d: Sectors, v: Volume, e: Sectors, w: Volume) {
    Represents(d, v) && exists freed :: RemoveWrites(d, v, e, w, freed)
  }

  lemma SystemFilesApart(d: Sectors, e: Sectors, v: Volume)
    requires V.Inv(v)
    ensures OnlyData(d, e, v.headers[V.FreeMapSector]) ==>
              FileBytes(e, v.headers[V.DirectorySector]) == FileBytes(d, v.headers[V.DirectorySector])
    ensures OnlyData(d, e, v.headers[V.DirectorySector]) ==>
              FileBytes(e, v.headers[V.FreeMapSector]) == FileBytes(d, v.headers[V.FreeMapSector])
  {
    if OnlyData(d, e, v.headers[V.FreeMapSector]) {
      DataWritten(d, e, v, V.FreeMapSector, V.DirectorySector);
    }
    if OnlyData(d, e, v.headers[V.DirectorySector]) {
      DataWritten(d, e, v, V.DirectorySector, V.FreeMapSector);
    }
  }

  /** The writes of Create reach the new header's sector and the system files only. */
  lemma CreateTouches(d: Sectors, headed: Sectors, filed: Sectors, e: Sectors, v: Volume, b: seq<Byte>, sector: int)
    requires V.Inv(v) && DiskShape(d) && 0 <= sector < NumSectors && !V.Owned(v, sector)
    requires headed == d[sector := b]
    requires OnlyData(headed, filed, v.headers[V.DirectorySector])
    requires OnlyData(filed, e, v.headers[V.FreeMapSector])
    ensures e[sector] == b
    ensures forall k :: 0 <= k < NumSectors && k != sector && !SystemData(v, k) ==> e[k] == d[k]
    ensures FileBytes(e, v.headers[V.DirectorySector]) == FileBytes(filed, v.headers[V.DirectorySector])
  {
    SystemFilesApart(filed, e, v);
    assert !V.Owns(v, V.FreeMapSector, sector) && !V.Owns(v, V.DirectorySector, sector);
    DataMember(v.headers[V.FreeMapSector], sector);
    DataMember(v.headers[V.DirectorySector], sector);
  }

  /** Header, then directory, then free map. */
  lemma CreateFlushed(d: Sectors, headed: Sectors, filed: Sectors, e: Sectors, v: Volume, w: Volume, sector: int)
    requires Represents(d, v) && V.Inv(w) && 0 <= sector < NumSectors && !V.Owned(v, sector)
    requires sector in w.headers && w.headers == v.headers[sector := w.headers[sector]]
    requires headed == d[sector := HeaderBytes(w.headers[sector])]
    requires OnlyData(headed, filed, v.headers[V.DirectorySector])
    requires TableOf(FileBytes(filed, v.headers[V.DirectorySector])) == w.table
    requires OnlyData(filed, e, v.headers[V.FreeMapSector])
    requires MapOf(FileBytes(e, v.headers[V.FreeMapSector])) == w.bits
    ensures Rewritten(d, e, v, w, sector)
  {
    CreateTouches(d, headed, filed, e, v, HeaderBytes(w.headers[sector]), sector);
    HeaderRoundTrip(w.headers[sector]);
    assert !V.Owns(v, V.FreeMapSector, sector) && !V.Owns(v, V.DirectorySector, sector);
  }

  lemma CreateRewrites(d: Sectors, e: Sectors, v: Volume, w: Volume, sector: int)
    requires CreateFlush(d, v, e, w) && V.Inv(w) && sector == FirstClear(v.bits) && !V.Owned(v, sector)
    requires sector in w.headers && w.headers == v.headers[sector := w.headers[sector]]
    ensures Rewritten(d, e, v, w, sector) && Represents(e, w)
    ensures w.headers[V.FreeMapSector] == v.headers[V.FreeMapSector]
    ensures w.headers[V.DirectorySector] == v.headers[V.DirectorySector]
  {
    var headed, filed :| CreateWrites(d, v, e, w, headed, filed);
    CreateFlushed(d, headed, filed, e, v, w, sector);
    RewrittenRepresents(d, e, v, w, sector);
  }

  /** So the map from names to contents changes at the new name only. */
  lemma FileCreated(d: Sectors, e: Sectors, v: Volume, w: Volume, name: seq<Byte>, size: nat, leftover: Header)
    requires CreateFlush(d, v, e, w) && CString(name) && Encodable(leftover) && V.Creatable(v, name, size)
    requires V.Create(v, name, size, leftover) == (w, true)
    ensures Represents(e, w)
    ensures Contents(e, w, Key(name)).Some? && |Contents(e, w, Key(name)).value| == size
    ensures forall key :: key != Key(name) ==> Contents(e, w, key) == Contents(d, v, key)
  {
    var sector := FirstClear(v.bits);
    V.CreateInv(v, name, size, leftover);
    assert !V.Owned(v, sector);
    CreateRewrites(d, e, v, w, sector);
    CreateContents(d, e, v, w, name, size, leftover, sector);
  }

  /** Free map, then directory. */
  lemma RemoveFlushed(d: Sectors, freed: Sectors, e: Sectors, v: Volume, w: Volume, s: int)
    requires Represents(d, v) && V.Inv(w)
    requires w.headers == v.headers - {s} && s != V.FreeMapSector && s != V.DirectorySector
    requires OnlyData(d, freed, v.headers[V.FreeMapSector])
    requires MapOf(FileBytes(freed, v.headers[V.FreeMapSector])) == w.bits
    requires OnlyData(freed, e, v.headers[V.DirectorySector])
    requires TableOf(FileBytes(e, v.headers[V.DirectorySector])) == w.table
    ensures Rewritten(d, e, v, w, -1)
  {
    SystemFilesApart(freed, e, v);
    forall t ensures !V.Owns(v, t, -1) {
      if t in v.headers {
        DataMember(v.headers[t], -1);
      }
    }
  }

  lemma HeaderKept(headed: Sectors, mapped: Sectors, e: Sectors, w: Volume, s: int)
    requires V.Inv(w) && s in w.headers
    requires OnlyData(headed, mapped, w.headers[V.FreeMapSector])
    requires OnlyData(mapped, e, w.headers[V.DirectorySector])
    requires headed[s] == HeaderBytes(w.headers[s])
    ensures HeaderOf(e[s]) == w.headers[s]
  {
    DataWritten(headed, mapped, w, V.FreeMapSector, s);
    DataWritten(mapped, e, w, V.DirectorySector, s);
    HeaderRoundTrip(w.headers[s]);
  }

  /** Headers, then free map, then directory, of a volume without user files. */
  lemma FormatFlushed(headed: Sectors, mapped: Sectors, e: Sectors, w: Volume)
    requires V.Inv(w) && DiskShape(headed) && w.headers.Keys == {V.FreeMapSector, V.DirectorySector}
    requires headed[V.FreeMapSector] == HeaderBytes(w.headers[V.FreeMapSector])
    requires headed[V.DirectorySector] == HeaderBytes(w.headers[V.DirectorySector])
    requires OnlyData(headed, mapped, w.headers[V.FreeMapSector])
    requires MapOf(FileBytes(mapped, w.headers[V.FreeMapSector])) == w.bits
    requires OnlyData(mapped, e, w.headers[V.DirectorySector])
    requires TableOf(FileBytes(e, w.headers[V.DirectorySector])) == w.table
    ensures Represents(e, w)
  {
    SystemFilesApart(mapped, e, w);
    HeaderKept(headed, mapped, e, w, V.FreeMapSector);
    HeaderKept(headed, mapped, e, w, V.DirectorySector);
  }

  /** The headers of the two system files. */
  function SystemHeaders(mapHdr: Header, dirHdr: Header): (m: map<int, Header>) {
    map[V.FreeMapSector := mapHdr, V.DirectorySector := dirHdr]
  }

  class FileSystem {
    const disk: SynchDisk
    var freeMapFile: OpenFile
    var directoryFile: OpenFile
    ghost var volume: Volume

    ghost predicate Valid()
      reads this, disk
    {
      && Represents(disk.sectors, volume)
      && freeMapFile.disk == disk && freeMapFile.hdr == volume.headers[V.FreeMapSector]
      && directoryFile.disk == disk && directoryFile.hdr == volume.headers[V.DirectorySector]
    }

    /** The first steps of formatting: mark the two well-known sectors, allocate both
        system files and write their headers. */
    static method LayOut(disk: SynchDisk, tableLeftover: seq<DirEntry>, mapLeftover: Header, dirLeftover: Header)
      returns (freeMap: BitMap, directory: Directory, mapHdr: FileHeader, dirHdr: FileHeader)
      requires DiskShape(disk.sectors)
      requires EncodableTable(tableLeftover) && Encodable(mapLeftover) && Encodable(dirLeftover)
      modifies disk
      ensures fresh(freeMap) && fresh(freeMap.words) && IsFreeMap(freeMap)
      ensures DiskShape(disk.sectors) && ValidTable(directory.table) && NoneInUse(directory.table)
      ensures V.Formatted(directory.table, mapLeftover, dirLeftover) ==
                V.Volume(freeMap.Bits(), directory.table, SystemHeaders(mapHdr.Value(), dirHdr.Value()))
      ensures |mapHdr.dataSectors| == NumDirect == |dirHdr.dataSectors|
      ensures disk.sectors[V.FreeMapSector] == HeaderBytes(mapHdr.Value())
      ensures disk.sectors[V.DirectorySector] == HeaderBytes(dirHdr.Value())
    {
      freeMap := new BitMap(NumSectors);
      directory := new Directory(tableLeftover);
      mapHdr := new FileHeader(mapLeftover);
      dirHdr := new FileHeader(dirLeftover);
      freeMap.Mark(V.FreeMapSector);
      freeMap.Mark(V.DirectorySector);
      assert freeMap.Bits() == V.BlankBits();
      AllocateSystemFiles(freeMap, mapHdr, dirHdr, directory.table);
      disk.WriteSector(V.FreeMapSector, HeaderBytes(mapHdr.Value()));
      disk.WriteSector(V.DirectorySector, HeaderBytes(dirHdr.Value()));
    }

    /** Both assertions of formatting hold: there is enough space. */
    static method AllocateSystemFiles(freeMap: BitMap, mapHdr: FileHeader, dirHdr: FileHeader,
                                      ghost table: seq<DirEntry>)
      requires IsFreeMap(freeMap) && freeMap.Bits() == V.BlankBits() && mapHdr != dirHdr
      requires |mapHdr.dataSectors| == NumDirect == |dirHdr.dataSectors|
      modifies freeMap.words, mapHdr, dirHdr
      ensures V.Formatted(table, old(mapHdr.Value()), old(dirHdr.Value())) ==
                V.Volume(freeMap.Bits(), table, SystemHeaders(mapHdr.Value(), dirHdr.Value()))
      ensures |mapHdr.dataSectors| == NumDirect == |dirHdr.dataSectors|
    {
      V.FormatFits();
      var mapFits := mapHdr.Allocate(freeMap, FreeMapFileSize);
      assert mapFits;
      var dirFits := dirHdr.Allocate(freeMap, DirectoryFileSize);
      assert dirFits;
    }

    /** Format the disk: whatever it held, no name can be read from it now. */
    constructor Format(disk: SynchDisk, tableLeftover: seq<DirEntry>, mapLeftover: Header, dirLeftover: Header)
      requires DiskShape(disk.sectors)
      requires EncodableTable(tableLeftover) && Encodable(mapLeftover) && Encodable(dirLeftover)
      modifies disk
      ensures Valid() && this.disk == disk
      ensures forall key :: Read(key) == None
    {
      var freeMap, directory, mapHdr, dirHdr := LayOut(disk, tableLeftover, mapLeftover, dirLeftover);
      ghost var w := V.Volume(freeMap.Bits(), directory.table, SystemHeaders(mapHdr.Value(), dirHdr.Value()));
      V.FormatInv(directory.table, mapLeftover, dirLeftover);
      assert V.Inv(w);
      HeaderRoundTrip(mapHdr.Value());
      HeaderRoundTrip(dirHdr.Value());
      this.disk := disk;
      freeMapFile := new OpenFile(disk, HeaderOf(disk.sectors[V.FreeMapSector]));
      directoryFile := new OpenFile(disk, HeaderOf(disk.sectors[V.DirectorySector]));
      volume := w;
      new;
      FlushFormatted(freeMap, directory);
    }

    /** The last steps of formatting: write the free map and the empty directory. */
    method FlushFormatted(freeMap: BitMap, directory: Directory)
      requires V.Inv(volume) && IsFreeMap(freeMap) && DiskShape(disk.sectors)
      requires volume.bits == freeMap.Bits() && volume.table == directory.table
      requires volume.headers.Keys == {V.FreeMapSector, V.DirectorySector}
      requires disk.sectors[V.FreeMapSector] == HeaderBytes(volume.headers[V.FreeMapSector])
      requires disk.sectors[V.DirectorySector] == HeaderBytes(volume.headers[V.DirectorySector])
      requires freeMapFile.disk == disk && freeMapFile.hdr == volume.headers[V.FreeMapSector]
      requires directoryFile.disk == disk && directoryFile.hdr == volume.headers[V.DirectorySector]
      modifies disk
      ensures Valid()
    {
      ghost var headed := disk.sectors;
      WriteMap(freeMap, freeMapFile);
      ghost var mapped := disk.sectors;
      FlushDirectory(directory.table);
      FormatFlushed(headed, mapped, disk.sectors, volume);
    }

    /** Mount a disk already formatted. */
    constructor Mount(disk: SynchDisk, ghost v: Volume)
      requires Represents(disk.sectors, v)
      ensures Valid() && this.disk == disk && volume == v
      ensures forall key :: Read(key) == Contents(disk.sectors, v, key)
    {
      this.disk, volume := disk, v;
      var b := disk.ReadSector(V.FreeMapSector);
      freeMapFile := new OpenFile(disk, HeaderOf(b));
      b := disk.ReadSector(V.DirectorySector);
      directoryFile := new OpenFile(disk, HeaderOf(b));
    }

    /** What Open and ReadAt return under a name. */
    ghost function Read(key: seq<Byte>): (c: Option<seq<Byte>>)
      requires Valid()
      reads this, disk
    {
      Contents(disk.sectors, volume, key)
    }

    /** Directory::FetchFrom. */
    method FetchDirectory() returns (directory: Directory)
      requires Valid()
      ensures fresh(directory) && directory.table == volume.table
    {
      var b := directoryFile.ReadAt(DirectoryFileSize, 0);
      assert b == FileBytes(disk.sectors, directoryFile.hdr);
      directory := new Directory.Fetch(b);
    }

    /** Directory::WriteBack. */
    method FlushDirectory(table: seq<DirEntry>)
      requires directoryFile.disk == disk && directoryFile.Valid() && directoryFile.hdr.numBytes == DirectoryFileSize
      requires EncodableTable(table)
      modifies disk
      ensures OnlyData(old(disk.sectors), disk.sectors, directoryFile.hdr)
      ensures TableOf(FileBytes(disk.sectors, directoryFile.hdr)) == table
    {
      TableRoundTrip(table);
      var b := TableBytes(table);
      var n := directoryFile.WriteAt(b, 0);
      assert FileBytes(disk.sectors, directoryFile.hdr) == b;
    }

    /** FileHeader::FetchFrom on a new header. */
    method FetchHeader(sector: int) returns (hdr: FileHeader)
      requires Valid() && sector in volume.headers
      ensures fresh(hdr) && hdr.Value() == volume.headers[sector]
    {
      var b := disk.ReadSector(sector);
      hdr := new FileHeader(HeaderOf(b));
    }

    /** BitMap::FetchFrom on a new map. */
    method FetchFreeMap() returns (freeMap: BitMap)
      requires Valid()
      ensures fresh(freeMap) && fresh(freeMap.words) && IsFreeMap(freeMap) && freeMap.Bits() == volume.bits
    {
      freeMap := new BitMap(NumSectors);
      FetchMap(freeMap, freeMapFile);
    }

    /** Create: exactly the effect of Volumes.Create; a file it makes has the size asked
        for, and no other file changes. */
    method Create(name: seq<Byte>, initialSize: nat, leftover: Header) returns (success: bool)
      requires Valid() && CString(name) && V.Creatable(volume, name, initialSize) && Encodable(leftover)
      modifies this, disk
      ensures Valid() && (volume, success) == V.Create(old(volume), name, initialSize, leftover)
      ensures if success then CreateFlush(old(disk.sectors), old(volume), disk.sectors, volume)
              else disk.sectors == old(disk.sectors)
      ensures success ==> Read(Key(name)).Some? && |Read(Key(name)).value| == initialSize
      ensures forall key :: key != Key(name) ==> Read(key) == old(Read(key))
    {
      var directory := FetchDirectory();
      var sector := FindSector(directory, name);
      if sector != -1 {
        return false;
      }
      var freeMap := FetchFreeMap();
      var hdr := new FileHeader(leftover);
      success, sector := ReserveFor(directory, freeMap, hdr, name, initialSize, volume);
      if success {
        CommitCreate(name, initialSize, leftover, sector, hdr, directory, freeMap);
      }
    }

    /** The lookup with which Create starts. */
    method FindSector(directory: Directory, name: seq<Byte>) returns (sector: int)
      requires Valid() && CString(name) && directory.table == volume.table
      ensures sector == -1 <==> IndexOf(volume.table, Key(name)) == -1
    {
      V.RemoveFinds(volume, name);
      sector := directory.Find(name);
    }

    /** What the steps below make of a volume. */
    static method ReserveFor(directory: Directory, freeMap: BitMap, hdr: FileHeader, name: seq<Byte>, size: nat,
                             ghost v: Volume)
      returns (success: bool, sector: int)
      requires V.Inv(v) && CString(name) && V.Creatable(v, name, size) && IsFreeMap(freeMap)
      requires directory.table == v.table && freeMap.Bits() == v.bits && Encodable(hdr.Value())
      requires IndexOf(v.table, Key(name)) == -1
      modifies directory, freeMap.words, hdr
      ensures !success ==> V.Create(v, name, size, old(hdr.Value())) == (v, false)
      ensures success ==> sector == FirstClear(v.bits) && |hdr.dataSectors| == NumDirect
      ensures success ==> V.Create(v, name, size, old(hdr.Value())) ==
                            (V.Volume(freeMap.Bits(), directory.table, v.headers[sector := hdr.Value()]), true)
    {
      success, sector := Reserve(directory, freeMap, hdr, name, size);
    }

    /** The steps of Create between looking up the name and flushing. */
    static method Reserve(directory: Directory, freeMap: BitMap, hdr: FileHeader, name: seq<Byte>, size: nat)
      returns (success: bool, sector: int)
      requires ValidTable(directory.table) && IsFreeMap(freeMap) && |hdr.dataSectors| == NumDirect
      requires CString(name) && IndexOf(directory.table, Key(name)) == -1
      requires !V.Overruns(freeMap.Bits(), directory.table, size)
      modifies directory, freeMap.words, hdr
      ensures sector == FirstClear(old(freeMap.Bits()))
      ensures success <==> && sector != -1 && UnusedFrom(old(directory.table), 0) != -1
                           && V.SectorsFor(size) <= CountClear(old(freeMap.Bits())[sector := true])
      ensures success ==> var ks := V.Lowest(old(freeMap.Bits())[sector := true], V.SectorsFor(size));
                          && |ks| <= NumDirect && hdr.Value() == V.Allocated(old(hdr.Value()), size, ks)
                          && freeMap.Bits() == V.Marked(old(freeMap.Bits())[sector := true], ks)
                          && directory.table ==
                               Added(old(directory.table), UnusedFrom(old(directory.table), 0), name, sector)
    {
      sector := freeMap.Find();
      if sector == -1 {
        return false, sector;
      }
      V.SectorsFit(size);
      success := directory.Add(name, sector);
      if success {
        success := hdr.Allocate(freeMap, size);
      }
    }

    /** The last step of Create: everything worked, flush all changes. */
    method CommitCreate(ghost name: seq<Byte>, ghost size: nat, ghost leftover: Header,
                        sector: int, hdr: FileHeader, directory: Directory, freeMap: BitMap)
      requires Valid() && CString(name) && V.Creatable(volume, name, size) && Encodable(leftover) && IsFreeMap(freeMap)
      requires sector == FirstClear(volume.bits) && |hdr.dataSectors| == NumDirect
      requires V.Create(volume, name, size, leftover) ==
                 (V.Volume(freeMap.Bits(), directory.table, volume.headers[sector := hdr.Value()]), true)
      modifies this`volume, disk
      ensures Valid() && (volume, true) == V.Create(old(volume), name, size, leftover)
      ensures CreateFlush(old(disk.sectors), old(volume), disk.sectors, volume)
      ensures Read(Key(name)).Some? && |Read(Key(name)).value| == size
      ensures forall key :: key != Key(name) ==> Read(key) == old(Read(key))
    {
      ghost var d, v := disk.sectors, volume;
      ghost var w := V.Volume(freeMap.Bits(), directory.table, volume.headers[sector := hdr.Value()]);
      V.CreateInv(v, name, size, leftover);
      assert !v.bits[sector];
      FlushCreated(sector, hdr, directory, freeMap, w);
      FileCreated(d, disk.sectors, v, w, name, size, leftover);
    }

    /** The last step of Remove. */
    method CommitRemove(ghost name: seq<Byte>, ghost sector: int, directory: Directory, freeMap: BitMap)
      requires Valid() && V.Removable(volume, name) && IsFreeMap(freeMap)
      requires sector != V.FreeMapSector && sector != V.DirectorySector
      requires V.Remove(volume, name) == (V.Volume(freeMap.Bits(), directory.table, volume.headers - {sector}), true)
      modifies this`volume, disk
      ensures Valid() && (volume, true) == V.Remove(old(volume), name)
      ensures RemoveFlush(old(disk.sectors), old(volume), disk.sectors, volume)
      ensures Read(Key(name)) == None
      ensures forall key :: key != Key(name) ==> Read(key) == old(Read(key))
    {
      ghost var d, v := disk.sectors, volume;
      ghost var w := V.Volume(freeMap.Bits(), directory.table, volume.headers - {sector});
      V.RemoveInv(v, name);
      FlushRemoved(directory, freeMap, sector, w);
      RemoveContents(d, disk.sectors, v, w, name);
    }

    /** Store a created file's header, the directory and the free map. */
    method WriteCreated(sector: int, hdr: FileHeader, directory: Directory, freeMap: BitMap, ghost w: Volume)
      requires Valid() && V.Inv(w) && IsFreeMap(freeMap)
      requires sector == FirstClear(volume.bits) && 0 <= sector < NumSectors
      requires |hdr.dataSectors| == NumDirect && w.headers == volume.headers[sector := hdr.Value()]
      requires w.table == directory.table && w.bits == freeMap.Bits()
      modifies disk
      ensures CreateFlush(old(disk.sectors), volume, disk.sectors, w)
    {
      disk.WriteSector(sector, HeaderBytes(hdr.Value()));
      ghost var headed := disk.sectors;
      FlushDirectory(directory.table);
      ghost var filed := disk.sectors;
      WriteMap(freeMap, freeMapFile);
      assert CreateWrites(old(disk.sectors), volume, disk.sectors, w, headed, filed);
    }

    /** The disk then holds the new volume. */
    method FlushCreated(sector: int, hdr: FileHeader, directory: Directory, freeMap: BitMap, ghost w: Volume)
      requires Valid() && V.Inv(w) && IsFreeMap(freeMap)
      requires sector == FirstClear(volume.bits) && 0 <= sector < NumSectors && !V.Owned(volume, sector)
      requires |hdr.dataSectors| == NumDirect && w.headers == volume.headers[sector := hdr.Value()]
      requires w.table == directory.table && w.bits == freeMap.Bits()
      modifies this`volume, disk
      ensures Valid() && volume == w && CreateFlush(old(disk.sectors), old(volume), disk.sectors, w)
    {
      ghost var d := disk.sectors;
      WriteCreated(sector, hdr, directory, freeMap, w);
      CreateRewrites(d, disk.sectors, volume, w, sector);
      Adopt(w);
    }

    /** The volume is now the one the disk holds. */
    ghost method Adopt(w: Volume)
      requires Represents(disk.sectors, w) && freeMapFile.disk == directoryFile.disk == disk
      requires freeMapFile.hdr == w.headers[V.FreeMapSector] && directoryFile.hdr == w.headers[V.DirectorySector]
      modifies this`volume
      ensures Valid() && volume == w
    {
      volume := w;
    }

    /** Store the free map and the directory. */
    method FlushRemoved(directory: Directory, freeMap: BitMap, ghost s: int, ghost w: Volume)
      requires Valid() && V.Inv(w) && IsFreeMap(freeMap)
      requires w.headers == volume.headers - {s} && s != V.FreeMapSector && s != V.DirectorySector
      requires w.table == directory.table && w.bits == freeMap.Bits()
      modifies this`volume, disk
      ensures volume == w && Rewritten(old(disk.sectors), disk.sectors, old(volume), w, -1)
      ensures RemoveFlush(old(disk.sectors), old(volume), disk.sectors, w)
      ensures Valid()
    {
      ghost var d := disk.sectors;
      WriteMap(freeMap, freeMapFile);
      ghost var freed := disk.sectors;
      FlushDirectory(directory.table);
      assert RemoveWrites(d, volume, disk.sectors, w, freed);
      RemoveFlushed(d, freed, disk.sectors, volume, w, s);
      RewrittenRepresents(d, disk.sectors, volume, w, -1);
      volume := w;
    }

    /** The steps of Remove between reading the header and flushing. */
    static method Release(directory: Directory, freeMap: BitMap, fileHdr: FileHeader,
                          name: seq<Byte>, sector: int, ghost v: Volume)
      requires V.Inv(v) && CString(name) && IsFreeMap(freeMap)
      requires directory.table == v.table && freeMap.Bits() == v.bits
      requires IndexOf(v.table, Key(name)) != -1 && sector == v.table[IndexOf(v.table, Key(name))].sector
      requires sector in v.headers && fileHdr.Value() == v.headers[sector]
      modifies directory, freeMap.words
      ensures V.Removable(v, name)
      ensures V.Remove(v, name) == (V.Volume(freeMap.Bits(), directory.table, v.headers - {sector}), true)
    {
      V.RemoveDefined(v, name);
      fileHdr.Deallocate(freeMap);
      freeMap.Clear(sector);
      var removed := directory.Remove(name);
      V.RemovedIs(v, name, IndexOf(v.table, Key(name)), sector, V.Data(fileHdr.Value()));
    }

    /** Remove: exactly the effect of Volumes.Remove; Deallocate's assertion holds, and no
        other file changes. */
    method Remove(name: seq<Byte>) returns (success: bool)
      requires Valid() && CString(name)
      modifies this, disk
      ensures Valid() && V.Removable(old(volume), name) && (volume, success) == V.Remove(old(volume), name)
      ensures if success then RemoveFlush(old(disk.sectors), old(volume), disk.sectors, volume)
              else disk.sectors == old(disk.sectors)
      ensures Read(Key(name)) == None
      ensures forall key :: key != Key(name) ==> Read(key) == old(Read(key))
    {
      var sector, directory, freeMap := Withdraw(name);
      if sector == -1 {
        return false;
      }
      CommitRemove(name, sector, directory, freeMap);
      return true;
    }

    /** The steps of Remove before anything is flushed. */
    method Withdraw(name: seq<Byte>) returns (sector: int, directory: Directory, freeMap: BitMap)
      requires Valid() && CString(name)
      ensures V.Removable(volume, name) && IsFreeMap(freeMap)
      ensures sector != V.FreeMapSector && sector != V.DirectorySector
      ensures sector == -1 <==> IndexOf(volume.table, Key(name)) == -1
      ensures sector != -1 ==>
                V.Remove(volume, name) == (V.Volume(freeMap.Bits(), directory.table, volume.headers - {sector}), true)
    {
      V.RemoveFinds(volume, name);
      directory := FetchDirectory();
      freeMap := FetchFreeMap();
      sector := directory.Find(name);
      if sector != -1 {
        var fileHdr := FetchHeader(sector);
        Release(directory, freeMap, fileHdr, name, sector, volume);
      }
    }

    /** Open: an OpenFile on the named file, or null. */
    method Open(name: seq<Byte>) returns (file: OpenFile?)
      requires Valid() && CString(name)
      ensures file == null <==> Read(Key(name)) == None
      ensures file != null ==> IndexOf(volume.table, Key(name)) != -1 && file.hdr == HeaderFor(volume, Key(name))
      ensures file != null ==> file.Valid() && file.disk == disk && fresh(file) && file.seekPosition == 0
      ensures file != null ==> Read(Key(name)) == Some(FileBytes(disk.sectors, file.hdr))
    {
      var directory := FetchDirectory();
      var sector := directory.Find(name);
      V.RemoveDefined(volume, name);
      file := null;
      if sector >= 0 {
        var hdr := FetchHeader(sector);
        file := new OpenFile(disk, hdr.Value());
      }
    }
  }
}
