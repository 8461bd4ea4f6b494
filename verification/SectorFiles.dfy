/**
 OpenFile of filesys/openfile.cc over a disk of whole sectors: byte-granular reads and
 writes of a file whose header lists its data sectors.
 */
module SectorFiles {
  import opened Basics

  const SectorSize := 128
  const NumSectors := 1024
  const NumDirect := 30
  const MaxFileSize := NumDirect * SectorSize

  /** FileHeader: only the first `numSectors` entries of `dataSectors` mean anything. */
  datatype Header = Header(numBytes: int, numSectors: int, dataSectors: seq<int>)

  type Sectors = seq<seq<Byte>>

  ghost predicate DiskShape(d: Sectors) {
    |d| == NumSectors && forall k :: 0 <= k < NumSectors ==> |d[k]| == SectorSize
  }

  /** A header as Allocate produces it: its data sectors exist and are distinct. */
  ghost predicate ValidHeader(h: Header) {
    && 0 <= h.numBytes <= MaxFileSize && h.numSectors == DivRoundUp(h.numBytes, SectorSize)
    && |h.dataSectors| == NumDirect
    && (forall i :: 0 <= i < h.numSectors ==> 0 <= h.dataSectors[i] < NumSectors)
    && (forall i, j :: 0 <= i < j < h.numSectors ==> h.dataSectors[i] != h.dataSectors[j])
  }

  ghost function DataSectors(h: Header): set<int>
    requires ValidHeader(h)
  {
    set i | 0 <= i < h.numSectors :: h.dataSectors[i]
  }

  /** ByteToSector. */
  function ByteToSector(h: Header, offset: nat): (s: int)
    requires offset / SectorSize < |h.dataSectors|
  {
    h.dataSectors[offset / SectorSize]
  }

  lemma ByteSector(h: Header, offset: nat)
    requires ValidHeader(h) && offset < h.numBytes
    ensures offset / SectorSize < h.numSectors <= NumDirect
    ensures 0 <= ByteToSector(h, offset) < NumSectors
  {
  }

  function FileByte(d: Sectors, h: Header, i: nat): (b: Byte)
    requires DiskShape(d) && ValidHeader(h) && i < h.numBytes
  {
    ByteSector(h, i);
    d[ByteToSector(h, i)][i % SectorSize]
  }

  /** The contents of a file. */
  function FileBytes(d: Sectors, h: Header): (s: seq<Byte>)
    requires DiskShape(d) && ValidHeader(h)
    ensures |s| == h.numBytes
  {
    seq(h.numBytes, i requires 0 <= i < h.numBytes => FileByte(d, h, i))
  }

  /** How many of `n` bytes at `position` lie inside a file of `length` bytes. */
  function Clip(n: int, position: nat, length: nat): (m: nat)
    ensures m == 0 <==> n <= 0 || position >= length
    ensures m > 0 ==> m <= n && position + m <= length && (m == n || position + m == length)
  {
    if n <= 0 || position >= length then 0
    else if position + n > length then length - position else n
  }

  class SynchDisk {
    var sectors: Sectors

    method ReadSector(sector: int) returns (data: seq<Byte>)
      requires 0 <= sector < |sectors|
      ensures data == sectors[sector]
    {
      data := sectors[sector];
    }

    method WriteSector(sector: int, data: seq<Byte>)
      requires 0 <= sector < |sectors|
      modifies this
      ensures sectors == old(sectors)[sector := data]
    {
      sectors := sectors[sector := data];
    }
  }

  class OpenFile {
    const disk: SynchDisk
    const hdr: Header
    var seekPosition: nat

    ghost predicate Valid()
      reads disk
    {
      DiskShape(disk.sectors) && ValidHeader(hdr)
    }

    constructor (disk: SynchDisk, hdr: Header)
      ensures this.disk == disk && this.hdr == hdr && seekPosition == 0
    {
      this.disk, this.hdr, seekPosition := disk, hdr, 0;
    }

    /** Read the sectors first..last of the file into a new buffer. */
    method ReadSectors(firstSector: nat, lastSector: nat) returns (buf: array<Byte>)
      requires Valid() && firstSector <= lastSector < hdr.numSectors
      ensures fresh(buf) && buf.Length == (1 + lastSector - firstSector) * SectorSize
      ensures forall m :: 0 <= m < buf.Length ==>
                var s := hdr.dataSectors[firstSector + m / SectorSize];
                0 <= s < NumSectors && buf[m] == disk.sectors[s][m % SectorSize]
    {
      var n := 1 + lastSector - firstSector;
      buf := new Byte[n * SectorSize];
      var i := firstSector;
      while i <= lastSector
        invariant firstSector <= i <= lastSector + 1
        invariant forall m :: 0 <= m < (i - firstSector) * SectorSize ==>
                    buf[m] == disk.sectors[hdr.dataSectors[firstSector + m / SectorSize]][m % SectorSize]
      {
        var data := disk.ReadSector(ByteToSector(hdr, i * SectorSize));
        Put(buf, (i - firstSector) * SectorSize, data);
        i := i + 1;
      }
    }

    /** ReadAt: the bytes from `position` on, as many as were asked for or as the file has. */
    method ReadAt(numBytes: int, position: nat) returns (into: seq<Byte>)
      requires Valid()
      ensures |into| == 0 <==> numBytes <= 0 || position >= hdr.numBytes
      ensures into != [] ==>
                && |into| <= numBytes && position + |into| <= hdr.numBytes
                && (|into| == numBytes || position + |into| == hdr.numBytes)
                && into == FileBytes(disk.sectors, hdr)[position..position + |into|]
      ensures |into| == Clip(numBytes, position, hdr.numBytes)
    {
      if numBytes <= 0 || position >= hdr.numBytes {
        return [];
      }
      var n := if position + numBytes > hdr.numBytes then hdr.numBytes - position else numBytes;
      var firstSector := position / SectorSize;
      var lastSector := (position + n - 1) / SectorSize;
      ByteSector(hdr, position + n - 1);
      var buf := ReadSectors(firstSector, lastSector);
      var from := position - firstSector * SectorSize;
      into := buf[from..from + n];
      ghost var bytes := FileBytes(disk.sectors, hdr);
      forall k | 0 <= k < n ensures into[k] == bytes[position + k] {
        SectorIndex(firstSector, from + k);
        assert into[k] == buf[from + k];
        assert bytes[position + k] == FileByte(disk.sectors, hdr, position + k);
      }
    }

    /** Write a buffer back as the sectors firstSector.. of the file. */
    method WriteSectors(firstSector: nat, lastSector: nat, buf: seq<Byte>)
      requires Valid() && firstSector <= lastSector < hdr.numSectors
      requires |buf| == (1 + lastSector - firstSector) * SectorSize
      modifies disk
      ensures Flushed(old(disk.sectors), disk.sectors, hdr, buf, firstSector, lastSector + 1)
    {
      var i := firstSector;
      while i <= lastSector
        invariant firstSector <= i <= lastSector + 1
        invariant Flushed(old(disk.sectors), disk.sectors, hdr, buf, firstSector, i)
      {
        FlushedNext(old(disk.sectors), disk.sectors, hdr, buf, firstSector, i);
        disk.WriteSector(ByteToSector(hdr, i * SectorSize), Chunk(buf, i - firstSector));
        i := i + 1;
      }
    }

    /** WriteAt: the clipped data is spliced into the file; nothing else on the disk
        changes. */
    method WriteAt(from: seq<Byte>, position: nat) returns (numBytes: nat)
      requires Valid()
      modifies disk
      ensures Valid() && numBytes == Clip(|from|, position, hdr.numBytes)
      ensures numBytes == 0 <==> from == [] || position >= hdr.numBytes
      ensures numBytes == 0 ==> disk.sectors == old(disk.sectors)
      ensures numBytes > 0 ==>
                && numBytes <= |from| && position + numBytes <= hdr.numBytes
                && (numBytes == |from| || position + numBytes == hdr.numBytes)
                && FileBytes(disk.sectors, hdr) ==
                     Splice(FileBytes(old(disk.sectors), hdr), position, from[..numBytes])
      ensures forall k :: 0 <= k < NumSectors && k !in DataSectors(hdr) ==> disk.sectors[k] == old(disk.sectors)[k]
    {
      if |from| <= 0 || position >= hdr.numBytes {
        return 0;
      }
      numBytes := if position + |from| > hdr.numBytes then hdr.numBytes - position else |from|;
      var firstSector := position / SectorSize;
      var lastSector := (position + numBytes - 1) / SectorSize;
      ByteSector(hdr, position + numBytes - 1);
      var buf := PrepareBuffer(from[..numBytes], position, firstSector, lastSector);
      WriteSectors(firstSector, lastSector, buf);
      FlushedSplice(old(disk.sectors), disk.sectors, hdr, buf, position, from[..numBytes], firstSector, lastSector);
    }

    /** Fill the buffer of WriteAt: partially modified sectors are read first. */
    method PrepareBuffer(from: seq<Byte>, position: nat, firstSector: nat, lastSector: nat) returns (out: seq<Byte>)
      requires Valid() && 0 < |from| && position + |from| <= hdr.numBytes
      requires firstSector == position / SectorSize && lastSector == (position + |from| - 1) / SectorSize
      ensures |out| == (1 + lastSector - firstSector) * SectorSize
      ensures Prepared(out, firstSector * SectorSize, FileBytes(disk.sectors, hdr), position, from)
    {
      var buf := new Byte[(1 + lastSector - firstSector) * SectorSize];
      LoadEdges(buf, firstSector, lastSector, position == firstSector * SectorSize,
                position + |from| == (lastSector + 1) * SectorSize);
      ghost var before := buf[..];
      Put(buf, position - firstSector * SectorSize, from);
      out := buf[..];
      PutPrepared(before, out, FileBytes(disk.sectors, hdr), position, from, firstSector, lastSector);
    }

    /** Read in the first and last sector, if they are to be partially modified. */
    method LoadEdges(buf: array<Byte>, firstSector: nat, lastSector: nat, firstAligned: bool, lastAligned: bool)
      requires Valid() && firstSector <= lastSector && buf.Length == (1 + lastSector - firstSector) * SectorSize
      modifies buf
      ensures !firstAligned ==> Holds(buf[..], 0, FileBytes(disk.sectors, hdr), firstSector * SectorSize)
      ensures !lastAligned ==>
                Holds(buf[..], lastSector - firstSector, FileBytes(disk.sectors, hdr), firstSector * SectorSize)
    {
      if !firstAligned {
        LoadSector(buf, 0, firstSector);
      }
      ghost var before := buf[..];
      if !lastAligned && (firstSector != lastSector || firstAligned) {
        LoadSector(buf, lastSector - firstSector, lastSector);
        if firstSector != lastSector {
          assert forall m :: 0 <= m < SectorSize ==> m / SectorSize != lastSector - firstSector;
          assert forall m :: 0 <= m < SectorSize ==> buf[m] == before[m];
        }
      }
    }

    /** Read sector `j` of the file, as far as the file reaches, into slot `slot` of the
        buffer. */
    method LoadSector(buf: array<Byte>, slot: nat, j: nat)
      requires Valid() && (slot + 1) * SectorSize <= buf.Length && slot <= j
      modifies buf
      ensures Holds(buf[..], slot, FileBytes(disk.sectors, hdr), (j - slot) * SectorSize)
      ensures forall m :: 0 <= m < buf.Length && m / SectorSize != slot ==> buf[m] == old(buf[m])
    {
      var chunk := ReadAt(SectorSize, j * SectorSize);
      Put(buf, slot * SectorSize, chunk);
    }

    /** Read from the seek position, which advances by the number of bytes read. */
    method Read(numBytes: int) returns (into: seq<Byte>)
      requires Valid()
      modifies this
      ensures Valid() && seekPosition == old(seekPosition) + |into|
      ensures |into| == Clip(numBytes, old(seekPosition), hdr.numBytes)
      ensures into != [] ==> into == FileBytes(disk.sectors, hdr)[old(seekPosition)..seekPosition]
    {
      into := ReadAt(numBytes, seekPosition);
      seekPosition := seekPosition + |into|;
    }

    /** Write at the seek position, which advances by the number of bytes written. */
    method Write(from: seq<Byte>) returns (numBytes: nat)
      requires Valid() && disk as object != this
      modifies this, disk
      ensures Valid() && seekPosition == old(seekPosition) + numBytes
      ensures numBytes == Clip(|from|, old(seekPosition), hdr.numBytes)
      ensures numBytes > 0 ==>
                FileBytes(disk.sectors, hdr) ==
                  Splice(FileBytes(old(disk.sectors), hdr), old(seekPosition), from[..numBytes])
      ensures numBytes == 0 ==> disk.sectors == old(disk.sectors)
      ensures forall k :: 0 <= k < NumSectors && k !in DataSectors(hdr) ==> disk.sectors[k] == old(disk.sectors)[k]
    {
      numBytes := WriteAt(from, seekPosition);
      seekPosition := seekPosition + numBytes;
    }
  }

  /** Writing a file leaves every file with other data sectors unchanged. */
  lemma OtherFileUnchanged(d: Sectors, e: Sectors, h: Header, g: Header)
    requires DiskShape(d) && DiskShape(e) && ValidHeader(h) && ValidHeader(g)
    requires forall k :: 0 <= k < NumSectors && k !in DataSectors(h) ==> e[k] == d[k]
    requires DataSectors(h) !! DataSectors(g)
    ensures FileBytes(e, g) == FileBytes(d, g)
  {
    forall i | 0 <= i < g.numBytes ensures FileByte(e, g, i) == FileByte(d, g, i) {
      ByteSector(g, i);
      assert g.dataSectors[i / SectorSize] in DataSectors(g);
    }
  }

  /** Slot `slot` of a buffer whose start corresponds to position `base` holds the
      file's bytes. */
  ghost predicate Holds(buf: seq<Byte>, slot: nat, was: seq<Byte>, base: nat) {
    forall m :: 0 <= m < |buf| && slot * SectorSize <= m < (slot + 1) * SectorSize && base + m < |was| ==>
      buf[m] == was[base + m]
  }

  /** What the buffer of a write must hold: the file with the new bytes spliced in, at
      every position inside the file. */
  ghost predicate Prepared(buf: seq<Byte>, base: nat, was: seq<Byte>, position: nat, data: seq<Byte>) {
    forall m :: 0 <= m < |buf| && base + m < |was| ==>
      buf[m] == if position <= base + m < position + |data| then data[base + m - position] else was[base + m]
  }

  /** A buffer whose partially modified edge sectors were loaded is prepared once the
      new bytes are in it. */
  lemma PutPrepared(before: seq<Byte>, buf: seq<Byte>, was: seq<Byte>,
                    position: nat, data: seq<Byte>, first: nat, last: nat)
    requires 0 < |data| && first == position / SectorSize && last == (position + |data| - 1) / SectorSize
    requires |buf| == |before| == (1 + last - first) * SectorSize
    requires position != first * SectorSize ==> Holds(before, 0, was, first * SectorSize)
    requires position + |data| != (last + 1) * SectorSize ==> Holds(before, last - first, was, first * SectorSize)
    requires var at := position - first * SectorSize;
             && at >= 0 && at + |data| <= |buf|
             && (forall m :: at <= m < at + |data| ==> buf[m] == data[m - at])
             && (forall m :: 0 <= m < |buf| && !(at <= m < at + |data|) ==> buf[m] == before[m])
    ensures Prepared(buf, first * SectorSize, was, position, data)
  {
    forall m | 0 <= m < |buf| && first * SectorSize + m < |was|
      ensures buf[m] == if position <= first * SectorSize + m < position + |data|
                        then data[first * SectorSize + m - position] else was[first * SectorSize + m]
    {
      if first * SectorSize + m < position {
        assert m < SectorSize;
      } else if position + |data| <= first * SectorSize + m {
        assert (last - first) * SectorSize <= m < (last - first + 1) * SectorSize;
      }
    }
  }

  function Chunk(buf: seq<Byte>, m: nat): (c: seq<Byte>)
    requires (m + 1) * SectorSize <= |buf|
    ensures |c| == SectorSize
  {
    buf[m * SectorSize..(m + 1) * SectorSize]
  }

  ghost predicate Among(h: Header, k: int, first: nat, end: nat)
    requires end <= |h.dataSectors|
  {
    exists j :: first <= j < end && h.dataSectors[j] == k
  }

  /** The disk `e` after the sectors first..end of a file have been written from `buf`
      to disk `d`. */
  ghost predicate Flushed(d: Sectors, e: Sectors, h: Header, buf: seq<Byte>, first: nat, end: nat)
    requires ValidHeader(h) && first <= end <= h.numSectors && |buf| >= (end - first) * SectorSize
  {
    && DiskShape(d) && DiskShape(e)
    && (forall j :: first <= j < end ==> e[h.dataSectors[j]] == Chunk(buf, j - first))
    && (forall k :: 0 <= k < NumSectors && !Among(h, k, first, end) ==> e[k] == d[k])
  }

  /** bcopy into a buffer. */
  method Put(buf: array<Byte>, at: nat, data: seq<Byte>)
    requires at + |data| <= buf.Length
    modifies buf
    ensures forall m :: at <= m < at + |data| ==> buf[m] == data[m - at]
    ensures forall m :: 0 <= m < buf.Length && !(at <= m < at + |data|) ==> buf[m] == old(buf[m])
  {
    forall k | 0 <= k < |data| {
      buf[at + k] := data[k];
    }
  }

  /** Flushing a prepared buffer splices the data into the file's bytes. */
  lemma FlushedSplice(d: Sectors, e: Sectors, h: Header, buf: seq<Byte>,
                      position: nat, data: seq<Byte>, first: nat, last: nat)
    requires DiskShape(d) && ValidHeader(h) && first <= last < h.numSectors && |buf| == (1 + last - first) * SectorSize
    requires Flushed(d, e, h, buf, first, last + 1)
    requires position + |data| <= h.numBytes
    requires first * SectorSize <= position && position + |data| <= (last + 1) * SectorSize
    requires Prepared(buf, first * SectorSize, FileBytes(d, h), position, data)
    ensures FileBytes(e, h) == Splice(FileBytes(d, h), position, data)
    ensures forall k :: 0 <= k < NumSectors && k !in DataSectors(h) ==> e[k] == d[k]
  {
    var r := Splice(FileBytes(d, h), position, data);
    forall i | 0 <= i < h.numBytes ensures FileBytes(e, h)[i] == r[i] {
      FlushedByte(d, e, h, buf, first, last, i);
    }
    forall k | 0 <= k < NumSectors && k !in DataSectors(h) ensures e[k] == d[k] {
      assert !Among(h, k, first, last + 1);
    }
  }

  lemma FlushedByte(d: Sectors, e: Sectors, h: Header, buf: seq<Byte>, first: nat, last: nat, i: nat)
    requires DiskShape(d) && ValidHeader(h) && first <= last < h.numSectors && |buf| == (1 + last - first) * SectorSize
    requires Flushed(d, e, h, buf, first, last + 1) && i < h.numBytes
    ensures FileByte(e, h, i) ==
              if first * SectorSize <= i < (last + 1) * SectorSize then buf[i - first * SectorSize]
              else FileByte(d, h, i)
  {
    ByteSector(h, i);
    var j := i / SectorSize;
    if first <= j <= last {
      var m := i - first * SectorSize;
      assert e[h.dataSectors[j]] == Chunk(buf, j - first);
      assert m == (j - first) * SectorSize + i % SectorSize;
    } else {
      assert !Among(h, h.dataSectors[j], first, last + 1);
    }
  }

  lemma FlushedNext(d: Sectors, e: Sectors, h: Header, buf: seq<Byte>, first: nat, i: nat)
    requires ValidHeader(h) && first <= i < h.numSectors && |buf| >= (i + 1 - first) * SectorSize
    requires Flushed(d, e, h, buf, first, i)
    ensures Flushed(d, e[h.dataSectors[i] := Chunk(buf, i - first)], h, buf, first, i + 1)
  {
    var s := h.dataSectors[i];
    var g := e[s := Chunk(buf, i - first)];
    forall k | 0 <= k < NumSectors && !Among(h, k, first, i + 1) ensures g[k] == d[k] {
      assert k != s && !Among(h, k, first, i);
    }
  }

  lemma SectorIndex(first: nat, m: nat)
    ensures (first * SectorSize + m) / SectorSize == first + m / SectorSize
    ensures (first * SectorSize + m) % SectorSize == m % SectorSize
  {
  }
}
