/**
 How the file system's structures are laid out as bytes: file headers (one sector of
 little-endian ints), the directory table (20-byte entries) and the free map (one bit a
 sector).
 */
module DiskCodec {
  import opened Basics
  import opened SectorFiles
  import opened BitMaps

  const NumDirEntries := 10
  const EntrySize := 20
  const DirectoryFileSize := NumDirEntries * EntrySize
  const FreeMapFileSize := NumSectors / 8
  const NameField := 10

  datatype DirEntry = DirEntry(inUse: bool, sector: int, name: seq<Byte>)

  predicate Int32(n: int) {
    -0x8000_0000 <= n < 0x8000_0000
  }

  // ---------------------------------------------------------------- ints

  function IntByte(n: int, k: nat): (b: Byte)
    requires k < 4
  {
    (if k == 0 then n else if k == 1 then n / 0x100 else if k == 2 then n / 0x1_0000 else n / 0x100_0000) % 256
  }

  function IntOf(b0: int, b1: int, b2: int, b3: int): (n: int) {
    var u := b0 + 0x100 * b1 + 0x1_0000 * b2 + 0x100_0000 * b3;
    if u < 0x8000_0000 then u else u - 0x1_0000_0000
  }

  lemma IntRoundTrip(n: int)
    requires Int32(n)
    ensures IntOf(IntByte(n, 0), IntByte(n, 1), IntByte(n, 2), IntByte(n, 3)) == n
  {
    var q1, q2, q3 := n / 0x100, n / 0x1_0000, n / 0x100_0000;
    assert n == 0x100 * q1 + IntByte(n, 0);
    assert q1 == 0x100 * q2 + IntByte(n, 1);
    assert q2 == 0x100 * q3 + IntByte(n, 2);
    assert -0x80 <= q3 < 0x80;
  }

  function IntAt(b: seq<Byte>, at: nat): (n: int)
    requires at + 4 <= |b|
  {
    IntOf(b[at], b[at + 1], b[at + 2], b[at + 3])
  }

  /** Four bytes hold a 32-bit int in two's complement, least significant first. */
  ghost predicate HoldsInt(b: seq<Byte>, at: nat, n: int) {
    && at + 4 <= |b|
    && var b0: int, b1: int, b2: int, b3: int := b[at], b[at + 1], b[at + 2], b[at + 3];
       b0 + 0x100 * b1 + 0x1_0000 * b2 + 0x100_0000 * b3 == if n >= 0 then n else n + 0x1_0000_0000
  }

  lemma IntHeld(b: seq<Byte>, at: nat, n: int)
    requires at + 4 <= |b| && Int32(n)
    requires b[at] == IntByte(n, 0) && b[at + 1] == IntByte(n, 1)
    requires b[at + 2] == IntByte(n, 2) && b[at + 3] == IntByte(n, 3)
    ensures HoldsInt(b, at, n)
  {
    var q1, q2, q3 := n / 0x100, n / 0x1_0000, n / 0x100_0000;
    assert n == 0x100 * q1 + IntByte(n, 0);
    assert q1 == 0x100 * q2 + IntByte(n, 1);
    assert q2 == 0x100 * q3 + IntByte(n, 2);
    assert IntByte(n, 3) == if q3 >= 0 then q3 else q3 + 0x100;
  }

  // ---------------------------------------------------------------- file headers

  function Field(h: Header, k: nat): int
    requires k < NumDirect + 2 && |h.dataSectors| == NumDirect
  {
    if k == 0 then h.numBytes else if k == 1 then h.numSectors else h.dataSectors[k - 2]
  }

  ghost predicate Encodable(h: Header) {
    |h.dataSectors| == NumDirect && forall k :: 0 <= k < NumDirect + 2 ==> Int32(Field(h, k))
  }

  /** The sector FileHeader::WriteBack writes. */
  function HeaderBytes(h: Header): (b: seq<Byte>)
    requires |h.dataSectors| == NumDirect
    ensures |b| == SectorSize
  {
    seq(SectorSize, j requires 0 <= j < SectorSize => IntByte(Field(h, j / 4), j % 4))
  }

  /** The header FileHeader::FetchFrom reads. */
  function HeaderOf(b: seq<Byte>): (h: Header)
    requires |b| == SectorSize
    ensures |h.dataSectors| == NumDirect
  {
    Header(IntAt(b, 0), IntAt(b, 4), seq(NumDirect, k requires 0 <= k < NumDirect => IntAt(b, 8 + 4 * k)))
  }

  /** Four bytes holding an int, wherever they lie, read as that int. */
  lemma IntDecodes(b: seq<Byte>, at: nat, n: int)
    requires at + 4 <= |b| && Int32(n)
    requires b[at] == IntByte(n, 0) && b[at + 1] == IntByte(n, 1)
    requires b[at + 2] == IntByte(n, 2) && b[at + 3] == IntByte(n, 3)
    ensures IntAt(b, at) == n
  {
    IntRoundTrip(n);
  }

  lemma HeaderByte(h: Header, k: nat, r: nat)
    requires Encodable(h) && k < NumDirect + 2 && r < 4
    ensures HeaderBytes(h)[4 * k + r] == IntByte(Field(h, k), r)
  {
    var j := 4 * k + r;
    assert j / 4 == k && j % 4 == r;
    assert HeaderBytes(h)[j] == IntByte(Field(h, j / 4), j % 4);
  }

  lemma HeaderField(h: Header, k: nat)
    requires Encodable(h) && k < NumDirect + 2
    ensures IntAt(HeaderBytes(h), 4 * k) == Field(h, k)
  {
    HeaderByte(h, k, 0);
    HeaderByte(h, k, 1);
    HeaderByte(h, k, 2);
    HeaderByte(h, k, 3);
    IntDecodes(HeaderBytes(h), 4 * k, Field(h, k));
  }

  lemma FieldHeld(h: Header, k: nat)
    requires Encodable(h) && k < NumDirect + 2
    ensures HoldsInt(HeaderBytes(h), 4 * k, Field(h, k))
  {
    HeaderByte(h, k, 0);
    HeaderByte(h, k, 1);
    HeaderByte(h, k, 2);
    HeaderByte(h, k, 3);
    IntHeld(HeaderBytes(h), 4 * k, Field(h, k));
  }

  /** A header's sector: length, number of sectors, then the 30 sector numbers. */
  lemma HeaderLayout(h: Header)
    requires Encodable(h)
    ensures var b := HeaderBytes(h);
            && HoldsInt(b, 0, h.numBytes) && HoldsInt(b, 4, h.numSectors)
            && forall k :: 0 <= k < 30 ==> HoldsInt(b, 8 + 4 * k, h.dataSectors[k])
  {
    FieldHeld(h, 0);
    FieldHeld(h, 1);
    forall k | 0 <= k < 30 ensures HoldsInt(HeaderBytes(h), 8 + 4 * k, h.dataSectors[k]) {
      FieldHeld(h, k + 2);
    }
  }

  lemma HeaderFromFields(b: seq<Byte>, h: Header)
    requires |b| == SectorSize && |h.dataSectors| == NumDirect
    requires IntAt(b, 0) == h.numBytes && IntAt(b, 4) == h.numSectors
    requires forall k :: 0 <= k < NumDirect ==> IntAt(b, 8 + 4 * k) == h.dataSectors[k]
    ensures HeaderOf(b) == h
  {
    var g := HeaderOf(b);
    forall k | 0 <= k < NumDirect ensures g.dataSectors[k] == h.dataSectors[k] {
      assert g.dataSectors[k] == IntAt(b, 8 + 4 * k);
    }
    assert g.dataSectors == h.dataSectors;
  }

  /** A header read back is the header written. */
  lemma HeaderRoundTrip(h: Header)
    requires Encodable(h)
    ensures HeaderOf(HeaderBytes(h)) == h
  {
    var b := HeaderBytes(h);
    HeaderField(h, 0);
    HeaderField(h, 1);
    forall k | 0 <= k < NumDirect ensures IntAt(b, 8 + 4 * k) == h.dataSectors[k] {
      HeaderField(h, k + 2);
    }
    HeaderFromFields(b, h);
  }

  // ---------------------------------------------------------------- directory

  ghost predicate EncodableEntry(e: DirEntry) {
    Int32(e.sector) && |e.name| == NameField
  }

  ghost predicate EncodableTable(t: seq<DirEntry>) {
    |t| == NumDirEntries && forall i :: 0 <= i < |t| ==> EncodableEntry(t[i])
  }

  /** Byte `r` of an entry: flag, padding, sector number, name, padding. */
  function EntryByte(e: DirEntry, r: nat): (b: Byte)
    requires r < EntrySize && |e.name| == NameField
  {
    if r == 0 then (if e.inUse then 1 else 0)
    else if 4 <= r < 8 then IntByte(e.sector, r - 4)
    else if 8 <= r < 18 then e.name[r - 8]
    else 0
  }

  /** The bytes Directory::WriteBack writes. */
  function TableBytes(t: seq<DirEntry>): (b: seq<Byte>)
    requires EncodableTable(t)
    ensures |b| == DirectoryFileSize
  {
    seq(DirectoryFileSize, j requires 0 <= j < DirectoryFileSize => EntryByte(t[j / EntrySize], j % EntrySize))
  }

  function EntryAt(b: seq<Byte>, i: nat): (e: DirEntry)
    requires (i + 1) * EntrySize <= |b|
    ensures |e.name| == NameField
  {
    DirEntry(b[EntrySize * i] != 0, IntAt(b, EntrySize * i + 4), b[EntrySize * i + 8..EntrySize * i + 18])
  }

  /** The table Directory::FetchFrom reads. */
  function TableOf(b: seq<Byte>): (t: seq<DirEntry>)
    requires |b| == DirectoryFileSize
    ensures |t| == NumDirEntries
  {
    seq(NumDirEntries, i requires 0 <= i < NumDirEntries => EntryAt(b, i))
  }

  lemma EntryBytes(t: seq<DirEntry>, i: nat, r: nat)
    requires EncodableTable(t) && i < NumDirEntries && r < EntrySize
    ensures TableBytes(t)[EntrySize * i + r] == EntryByte(t[i], r)
  {
    var j := EntrySize * i + r;
    assert j / EntrySize == i && j % EntrySize == r;
    assert TableBytes(t)[j] == EntryByte(t[j / EntrySize], j % EntrySize);
  }

  lemma EntryDecodes(b: seq<Byte>, i: nat, e: DirEntry)
    requires (i + 1) * EntrySize <= |b| && EncodableEntry(e)
    requires forall r :: 0 <= r < EntrySize ==> b[EntrySize * i + r] == EntryByte(e, r)
    ensures EntryAt(b, i) == e
  {
    EntryDecodesAt(b, EntrySize * i, e);
  }

  lemma EntryDecodesAt(b: seq<Byte>, from: nat, e: DirEntry)
    requires from + EntrySize <= |b| && EncodableEntry(e)
    requires forall r :: 0 <= r < EntrySize ==> b[from + r] == EntryByte(e, r)
    ensures (b[from] != 0) == e.inUse && IntAt(b, from + 4) == e.sector && b[from + 8..from + 18] == e.name
  {
    assert b[from + 0] == EntryByte(e, 0);
    SectorDecodes(b, from, e);
    var name := b[from + 8..from + 18];
    forall k | 0 <= k < NameField ensures name[k] == e.name[k] {
      assert b[from + (8 + k)] == EntryByte(e, 8 + k);
    }
    assert name == e.name;
  }

  lemma SectorDecodes(b: seq<Byte>, from: nat, e: DirEntry)
    requires from + EntrySize <= |b| && EncodableEntry(e)
    requires forall r :: 0 <= r < EntrySize ==> b[from + r] == EntryByte(e, r)
    ensures IntAt(b, from + 4) == e.sector
  {
    var at := from + 4;
    assert b[at] == IntByte(e.sector, 0) by { assert b[from + 4] == EntryByte(e, 4); }
    assert b[at + 1] == IntByte(e.sector, 1) by { assert b[from + 5] == EntryByte(e, 5); }
    assert b[at + 2] == IntByte(e.sector, 2) by { assert b[from + 6] == EntryByte(e, 6); }
    assert b[at + 3] == IntByte(e.sector, 3) by { assert b[from + 7] == EntryByte(e, 7); }
    IntDecodes(b, at, e.sector);
  }

  lemma EntryRoundTrip(t: seq<DirEntry>, i: nat)
    requires EncodableTable(t) && i < NumDirEntries
    ensures EntryAt(TableBytes(t), i) == t[i]
  {
    forall r | 0 <= r < EntrySize ensures TableBytes(t)[EntrySize * i + r] == EntryByte(t[i], r) {
      EntryBytes(t, i, r);
    }
    EntryDecodes(TableBytes(t), i, t[i]);
  }

  /** An entry's 20 bytes: the flag, three bytes of padding, the sector, ten bytes of name and
      two of padding. */
  lemma EntryLayout(t: seq<DirEntry>, i: nat)
    requires EncodableTable(t) && i < NumDirEntries
    ensures var b, at := TableBytes(t), 20 * i;
            && b[at] == (if t[i].inUse then 1 else 0) && HoldsInt(b, at + 4, t[i].sector)
            && forall k :: 0 <= k < 10 ==> b[at + 8 + k] == t[i].name[k]
  {
    EntryBytes(t, i, 0);
    SectorHeld(t, i);
    forall k | 0 <= k < 10 ensures TableBytes(t)[20 * i + 8 + k] == t[i].name[k] {
      EntryBytes(t, i, 8 + k);
    }
  }

  lemma SectorHeld(t: seq<DirEntry>, i: nat)
    requires EncodableTable(t) && i < NumDirEntries
    ensures HoldsInt(TableBytes(t), EntrySize * i + 4, t[i].sector)
  {
    EntryBytes(t, i, 4);
    EntryBytes(t, i, 5);
    EntryBytes(t, i, 6);
    EntryBytes(t, i, 7);
    IntHeld(TableBytes(t), EntrySize * i + 4, t[i].sector);
  }

  /** A directory read back is the directory written. */
  lemma TableRoundTrip(t: seq<DirEntry>)
    requires EncodableTable(t)
    ensures TableOf(TableBytes(t)) == t
  {
    forall i | 0 <= i < NumDirEntries ensures TableOf(TableBytes(t))[i] == t[i] {
      EntryRoundTrip(t, i);
    }
  }

  // ---------------------------------------------------------------- free map

  /** The free map BitMap::FetchFrom reads. */
  function MapOf(b: seq<Byte>): (bits: seq<bool>)
    requires |b| == FreeMapFileSize
    ensures |bits| == NumSectors
  {
    seq(NumSectors, i requires 0 <= i < NumSectors => BitOf(b[i / 8], i % 8))
  }
}
