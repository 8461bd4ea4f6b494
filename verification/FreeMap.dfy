/**
 BitMap::FetchFrom and BitMap::WriteBack of userprog/bitmap.cc: the words of a bit map as
 the bytes of a file, and FileHeader::Allocate/Deallocate of filesys/filehdr.cc, which
 take sectors out of such a map and return them.
 */
module FreeMaps {
  import opened Basics
  import opened BitMaps
  import opened SectorFiles
  import opened DiskCodec
  import opened Volumes

  // ---------------------------------------------------------------- bits and bytes

  /** `c << j`. */
  function Shifted(c: nat, j: nat): (r: nat) {
    if j == 0 then c else 2 * Shifted(c, j - 1)
  }

  /** `w >> j`. */
  function Halved(w: nat, j: nat): (r: nat) {
    if j == 0 then w else Halved(w / 2, j - 1)
  }

  /** Below bit `j` the low part decides, from there on the shifted part. */
  lemma {:induction false} BitOfSum(a: nat, c: nat, j: nat, k: nat)
    requires a < Pow2(j)
    ensures BitOf(a + Shifted(c, j), k) == if k < j then BitOf(a, k) else BitOf(c, k - j)
    decreases j
  {
    if j > 0 {
      assert (a + Shifted(c, j)) / 2 == a / 2 + Shifted(c, j - 1);
      assert (a + Shifted(c, j)) % 2 == a % 2;
      if k > 0 {
        BitOfSum(a / 2, c, j - 1, k - 1);
      }
    } else {
      assert a == 0;
    }
  }

  lemma {:induction false} BitOfHalved(w: nat, j: nat, k: nat)
    ensures BitOf(Halved(w, j), k) == BitOf(w, k + j)
    decreases j
  {
    if j > 0 {
      BitOfHalved(w / 2, j - 1, k);
    }
  }

  lemma ByteUnits(c: nat)
    ensures Shifted(c, 8) == 256 * c && Halved(c, 8) == c / 256 && Pow2(8) == 256
  {
    assert Shifted(c, 1) == 2 * c && Pow2(1) == 2;
    assert Shifted(c, 2) == 4 * c && Pow2(2) == 4;
    assert Shifted(c, 4) == 16 * c && Pow2(4) == 16;
    assert Shifted(c, 6) == 64 * c && Pow2(6) == 64;
    assert Halved(c / 64 / 2, 1) == c / 64 / 2 / 2;
    assert Halved(c / 64, 2) == c / 64 / 4;
    assert Halved(c / 16, 4) == Halved(c / 16 / 4, 2);
    assert Halved(c / 4, 6) == Halved(c / 4 / 4, 4);
  }

  /** A word is its low byte and the bits above it. */
  lemma LowByte(a: Byte, c: nat, k: nat)
    ensures BitOf(a + 256 * c, k) == if k < 8 then BitOf(a, k) else BitOf(c, k - 8)
  {
    ByteUnits(c);
    BitOfSum(a, c, 8, k);
  }

  /** The little-endian word stored in four bytes. */
  function WordOf(b0: Byte, b1: Byte, b2: Byte, b3: Byte): (w: nat) {
    b0 + 256 * (b1 + 256 * (b2 + 256 * b3))
  }

  lemma WordBits(b: seq<Byte>, k: nat)
    requires |b| == 4 && k < 32
    ensures BitOf(WordOf(b[0], b[1], b[2], b[3]), k) == BitOf(b[k / 8], k % 8)
  {
    var c3: nat := b[3];
    var c2: nat := 256 * c3 + b[2];
    var c1: nat := 256 * c2 + b[1];
    LowByte(b[0], c1, k);
    if k < 8 {
      assert k / 8 == 0 && k % 8 == k;
    } else if k < 16 {
      assert k / 8 == 1 && k % 8 == k - 8;
      LowByte(b[1], c2, k - 8);
    } else if k < 24 {
      assert k / 8 == 2 && k % 8 == k - 16;
      LowByte(b[1], c2, k - 8);
      LowByte(b[2], c3, k - 16);
    } else {
      assert k / 8 == 3 && k % 8 == k - 24;
      LowByte(b[1], c2, k - 8);
      LowByte(b[2], c3, k - 16);
    }
  }

  /** Byte `m` of a word. */
  function WordByte(w: nat, m: nat): (b: Byte)
    requires m < 4
  {
    (if m == 0 then w else if m == 1 then w / 256 else if m == 2 then w / 256 / 256 else w / 256 / 256 / 256) % 256
  }

  lemma HighBits(w: nat, k: nat)
    ensures BitOf(w / 256, k) == BitOf(w, k + 8)
  {
    ByteUnits(w);
    BitOfHalved(w, 8, k);
  }

  lemma WordByteBits(w: nat, m: nat, k: nat)
    requires m < 4 && k < 8
    ensures BitOf(WordByte(w, m), k) == BitOf(w, 8 * m + k)
  {
    var h := if m == 0 then w else if m == 1 then w / 256 else if m == 2 then w / 256 / 256 else w / 256 / 256 / 256;
    LowByte(h % 256, h / 256, k);
    HighBits(w, k);
    HighBits(w / 256, k);
    HighBits(w, k + 8);
    HighBits(w / 256 / 256, k);
    HighBits(w / 256, k + 8);
    HighBits(w, k + 16);
  }

  // ---------------------------------------------------------------- the free map file

  const NumWords := NumSectors / BitsInWord

  ghost predicate IsFreeMap(m: BitMap) {
    m.Valid() && m.numBits == NumSectors
  }

  /** The map as stored in the file. */
  method FetchMap(m: BitMap, file: OpenFile)
    requires IsFreeMap(m) && file.Valid() && file.hdr.numBytes == FreeMapFileSize
    modifies m.words
    ensures m.Bits() == MapOf(FileBytes(file.disk.sectors, file.hdr))
  {
    var b := file.ReadAt(NumWords * 4, 0);
    assert b == FileBytes(file.disk.sectors, file.hdr);
    var i := 0;
    while i < NumWords
      invariant 0 <= i <= NumWords
      invariant forall j :: 0 <= j < i ==> WordHolds(m.words[j], b, j)
    {
      m.words[i] := WordOf(b[4 * i], b[4 * i + 1], b[4 * i + 2], b[4 * i + 3]);
      WordFetched(b, i);
      i := i + 1;
    }
    WordsFetched(m.words[..], b);
    assert m.Bits() == BitsOf(m.words[..]);
  }

  /** The bits of the words of a free map. */
  ghost function BitsOf(words: seq<nat>): (bits: seq<bool>)
    requires |words| == NumWords
  {
    seq(NumSectors, k requires 0 <= k < NumSectors => BitOf(words[k / 32], k % 32))
  }

  lemma WordsFetched(words: seq<nat>, b: seq<Byte>)
    requires |words| == NumWords && |b| == FreeMapFileSize
    requires forall j :: 0 <= j < NumWords ==> WordHolds(words[j], b, j)
    ensures BitsOf(words) == MapOf(b)
  {
    forall k | 0 <= k < NumSectors ensures BitsOf(words)[k] == MapOf(b)[k] {
      assert WordHolds(words[k / 32], b, k / 32);
      WordIndex(k / 32, k);
    }
  }

  /** The bytes of the words of a free map. */
  function MapImage(words: seq<nat>): (b: seq<Byte>)
    requires |words| == NumWords
    ensures |b| == FreeMapFileSize
  {
    seq(NumWords * 4, j requires 0 <= j < NumWords * 4 => WordByte(words[j / 4], j % 4))
  }

  /** The map read from those bytes is the map written. */
  lemma MapRoundTrip(words: seq<nat>)
    requires |words| == NumWords
    ensures MapOf(MapImage(words)) == BitsOf(words)
  {
    var b := MapImage(words);
    forall k | 0 <= k < NumSectors ensures MapOf(b)[k] == BitsOf(words)[k] {
      ByteIndex(k);
      assert b[k / 8] == WordByte(words[k / 8 / 4], k / 8 % 4);
      WordByteBits(words[k / 32], k % 32 / 8, k % 8);
    }
  }

  lemma ByteIndex(k: nat)
    ensures k / 8 / 4 == k / 32 && k / 8 % 4 == k % 32 / 8 && 8 * (k % 32 / 8) + k % 8 == k % 32
  {
  }

  /** The word has the bits of its four bytes. */
  ghost predicate WordHolds(w: nat, b: seq<Byte>, i: nat) {
    4 * i + 4 <= |b| && forall k :: 0 <= k < 32 ==> BitOf(w, k) == BitOf(b[4 * i + k / 8], k % 8)
  }

  lemma WordFetched(b: seq<Byte>, i: nat)
    requires 4 * i + 4 <= |b|
    ensures WordHolds(WordOf(b[4 * i], b[4 * i + 1], b[4 * i + 2], b[4 * i + 3]), b, i)
  {
    var w := WordOf(b[4 * i], b[4 * i + 1], b[4 * i + 2], b[4 * i + 3]);
    forall k | 0 <= k < 32 ensures BitOf(w, k) == BitOf(b[4 * i + k / 8], k % 8) {
      WordBits(b[4 * i..4 * i + 4], k);
    }
  }

  lemma WordIndex(i: nat, k: nat)
    requires 32 * i <= k < 32 * i + 32
    ensures k / 32 == i && k % 32 == k - 32 * i && k / 8 == 4 * i + (k - 32 * i) / 8 && k % 8 == (k - 32 * i) % 8
  {
  }

  /** Store the map in the file: what is read back is the map written. */
  method WriteMap(m: BitMap, file: OpenFile)
    requires IsFreeMap(m) && file.Valid() && file.hdr.numBytes == FreeMapFileSize
    modifies file.disk
    ensures file.Valid() && MapOf(FileBytes(file.disk.sectors, file.hdr)) == m.Bits()
    ensures forall k :: 0 <= k < NumSectors && k !in DataSectors(file.hdr) ==>
              file.disk.sectors[k] == old(file.disk.sectors)[k]
  {
    var b := MapImage(m.words[..]);
    MapRoundTrip(m.words[..]);
    assert m.Bits() == BitsOf(m.words[..]);
    var n := file.WriteAt(b, 0);
    assert FileBytes(file.disk.sectors, file.hdr) == b;
  }

  // ---------------------------------------------------------------- file headers

  class FileHeader {
    var numBytes: int
    var numSectors: int
    var dataSectors: seq<int>

    function Value(): Header
      reads this
    {
      Header(numBytes, numSectors, dataSectors)
    }

    /** A new header holds whatever memory held. */
    constructor (leftover: Header)
      ensures Value() == leftover
    {
      numBytes, numSectors, dataSectors := leftover.numBytes, leftover.numSectors, leftover.dataSectors;
    }

    /** Take as many sectors as the file needs out of the map, or none at all. */
    method Allocate(freeMap: BitMap, fileSize: nat) returns (ok: bool)
      requires IsFreeMap(freeMap) && |dataSectors| == NumDirect
      requires fileSize <= MaxFileSize || CountClear(freeMap.Bits()) < SectorsFor(fileSize)
      modifies this, freeMap.words
      ensures ok <==> SectorsFor(fileSize) <= CountClear(old(freeMap.Bits()))
      ensures !ok ==> freeMap.Bits() == old(freeMap.Bits())
      ensures ok ==> var ks := Lowest(old(freeMap.Bits()), SectorsFor(fileSize));
                     && freeMap.Bits() == Marked(old(freeMap.Bits()), ks)
                     && |ks| <= NumDirect && Value() == Allocated(old(Value()), fileSize, ks)
    {
      SectorsFit(fileSize);
      numBytes := fileSize;
      numSectors := DivRoundUp(fileSize, SectorSize);
      var clear := freeMap.NumClear();
      if clear < numSectors {
        return false;
      }
      TakeSectors(freeMap);
      return true;
    }

    /** The loop of Allocate. */
    method TakeSectors(freeMap: BitMap)
      requires IsFreeMap(freeMap) && 0 <= numSectors <= NumDirect == |dataSectors|
      requires numSectors <= CountClear(freeMap.Bits())
      modifies this`dataSectors, freeMap.words
      ensures freeMap.Bits() == Marked(old(freeMap.Bits()), Lowest(old(freeMap.Bits()), numSectors))
      ensures dataSectors == Splice(old(dataSectors), 0, Lowest(old(freeMap.Bits()), numSectors))
    {
      ghost var bits, were := freeMap.Bits(), dataSectors;
      assert Marked(bits, []) == bits;
      var i := 0;
      while i < numSectors
        invariant 0 <= i <= numSectors
        invariant freeMap.Bits() == Marked(bits, Lowest(bits, i))
        invariant dataSectors == Splice(were, 0, Lowest(bits, i))
      {
        LowestNext(bits, i, were);
        var r := freeMap.Find();
        dataSectors := dataSectors[i := r];
        i := i + 1;
      }
    }

    /** Return the data sectors to the map.  Every one of them is still marked. */
    method Deallocate(freeMap: BitMap)
      requires IsFreeMap(freeMap) && ValidHeader(Value())
      requires forall k :: k in Data(Value()) ==> 0 <= k < NumSectors && freeMap.Bits()[k]
      modifies freeMap.words
      ensures freeMap.Bits() == Cleared(old(freeMap.Bits()), Data(Value()))
    {
      ghost var bits, ks := freeMap.Bits(), Data(Value());
      assert Cleared(bits, ks[..0]) == bits;
      var i := 0;
      while i < numSectors
        invariant 0 <= i <= numSectors == |ks|
        invariant freeMap.Bits() == Cleared(bits, ks[..i])
      {
        assert dataSectors[i] == ks[i] && ks[i] in ks && ks[i] !in ks[..i];
        var marked := freeMap.Test(dataSectors[i]);
        assert marked;
        freeMap.Clear(dataSectors[i]);
        assert ks[..i + 1] == ks[..i] + [ks[i]];
        assert Cleared(bits, ks[..i])[ks[i] := false] == Cleared(bits, ks[..i + 1]);
        i := i + 1;
      }
      assert ks[..i] == ks;
    }
  }

  /** Find succeeds once more while NumClear allows it. */
  lemma LowestNext(bits: seq<bool>, i: nat, were: seq<int>)
    requires i < CountClear(bits) && i < |were|
    ensures var r := FirstClear(Marked(bits, Lowest(bits, i)));
            && r != -1
            && Marked(bits, Lowest(bits, i))[r := true] == Marked(bits, Lowest(bits, i + 1))
            && Splice(were, 0, Lowest(bits, i))[i := r] == Splice(were, 0, Lowest(bits, i + 1))
  {
    LowestExact(bits, i);
    MarkedCount(bits, Lowest(bits, i));
    FindIffClear(Marked(bits, Lowest(bits, i)));
    var r := FirstClear(Marked(bits, Lowest(bits, i)));
    assert Lowest(bits, i + 1) == Lowest(bits, i) + [r];
    assert Splice(were, 0, Lowest(bits, i))[i := r] == Splice(were, 0, Lowest(bits, i) + [r]);
  }
}
