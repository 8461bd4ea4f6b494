/**
 The AddrSpace constructor's page arithmetic, and exactly when load gives a program the
 bytes its executable (bin/noff.h) holds for it.
 */
module PagerLayout {
  import opened Basics
  import opened PagerState

  datatype Segment = Segment(virtualAddr: nat, inFileAddr: nat, size: nat)

  datatype Header = Header(code: Segment, initData: Segment, uninitData: Segment)

  /** Every file-backed page is read from the code segment's place in the file. */
  function Layout(h: Header, image: seq<Byte>): (pr: Program) {
    var initData := DivRoundUp(h.code.size, PageSize);
    var noInitData := initData + DivRoundUp(h.initData.size, PageSize);
    var size := h.code.size + h.initData.size + h.uninitData.size + UserStackSize;
    Program(image, h.code.inFileAddr, initData, noInitData, DivRoundUp(size, PageSize))
  }

  /** For every header load's three page ranges cover the address space, each has exactly
      as many pages as its segments need, and at least seven at the top are anonymous. */
  lemma LayoutCovers(h: Header, image: seq<Byte>)
    ensures var pr := Layout(h, image);
            && ValidProgram(pr) && pr.image == image && pr.codeInFile == h.code.inFileAddr
            && (pr.initData - 1) * 128 < h.code.size <= pr.initData * 128
            && (pr.noInitData - pr.initData - 1) * 128 < h.initData.size <= (pr.noInitData - pr.initData) * 128
            && pr.noInitData <= pr.numPages - 7
            && (var size := h.code.size + h.initData.size + h.uninitData.size + 1024;
                (pr.numPages - 1) * 128 < size <= pr.numPages * 128)
  {
  }

  /** The program finds byte `i` of the segment at its address, if the file holds it. */
  predicate SuppliesByte(h: Header, image: seq<Byte>, seg: Segment, i: nat) {
    i < seg.size && seg.inFileAddr + i < |image| ==>
      ImageByte(Layout(h, image), seg.virtualAddr + i) == Some(image[seg.inFileAddr + i])
  }

  ghost predicate Supplies(h: Header, image: seq<Byte>, seg: Segment) {
    forall i: nat :: SuppliesByte(h, image, seg, i)
  }

  /** The segment lies in memory as it lies in the file, counted from the code segment's
      place there, and on file-backed pages. */
  predicate InPlace(h: Header, seg: Segment) {
    || seg.size == 0
    || (&& seg.inFileAddr == h.code.inFileAddr + seg.virtualAddr
        && seg.virtualAddr + seg.size <= Layout(h, []).noInitData * PageSize)
  }

  /** An image of `n` bytes, all zero but one. */
  function Spike(n: nat, at: nat): (image: seq<Byte>)
    ensures |image| == n
  {
    seq(n, i => if i == at then 1 else 0)
  }

  lemma OutOfPlace(h: Header, seg: Segment)
    requires !InPlace(h, seg)
    ensures exists image :: !Supplies(h, image, seg)
  {
    if seg.inFileAddr != h.code.inFileAddr + seg.virtualAddr {
      var image := Spike(seg.inFileAddr + 1, seg.inFileAddr);
      assert !SuppliesByte(h, image, seg, 0);
      assert !Supplies(h, image, seg);
    } else {
      var image, i := Spike(seg.inFileAddr + seg.size, 0), seg.size - 1;
      assert !SuppliesByte(h, image, seg, i);
      assert !Supplies(h, image, seg);
    }
  }

  lemma InPlaceSupplies(h: Header, seg: Segment, image: seq<Byte>)
    requires InPlace(h, seg)
    ensures Supplies(h, image, seg)
  {
    forall i: nat ensures SuppliesByte(h, image, seg, i) {
    }
  }

  /** Exactly when load supplies a segment, whatever the file holds. */
  lemma SuppliesExact(h: Header, seg: Segment)
    ensures (forall image :: Supplies(h, image, seg)) <==> InPlace(h, seg)
  {
    if InPlace(h, seg) {
      forall image ensures Supplies(h, image, seg) { InPlaceSupplies(h, seg, image); }
    } else {
      OutOfPlace(h, seg);
    }
  }

  /** For the two segments of an executable: the code starts at address 0, and the data
      is displaced from its place in the file as the code is. */
  lemma SegmentsExact(h: Header)
    ensures (forall image :: Supplies(h, image, h.code)) <==> h.code.size == 0 || h.code.virtualAddr == 0
    ensures h.code.virtualAddr == 0 && h.initData.size > 0 ==>
              ((forall image :: Supplies(h, image, h.initData)) <==>
                && h.initData.inFileAddr - h.initData.virtualAddr == h.code.inFileAddr - h.code.virtualAddr
                && h.initData.virtualAddr + h.initData.size <= Layout(h, []).noInitData * PageSize)
  {
    SuppliesExact(h, h.code);
    SuppliesExact(h, h.initData);
    LayoutCovers(h, []);
  }

  /** Data that follows the code in memory and in the file is in place. */
  lemma ContiguousInPlace(h: Header)
    requires h.code.virtualAddr == 0
    requires h.initData.virtualAddr == h.code.size && h.initData.inFileAddr == h.code.inFileAddr + h.code.size
    ensures InPlace(h, h.code) && InPlace(h, h.initData)
  {
    LayoutCovers(h, []);
  }

  /** Data on a page of its own but right behind the code in the file is not: the program
      reads other bytes. */
  lemma PaddedDataMisread(image: seq<Byte>)
    requires |image| == 240 && image[140] != image[168]
    ensures var h := Header(Segment(0, 40, 100), Segment(128, 140, 100), Segment(228, 0, 0));
            && !Supplies(h, image, h.initData)
            && ImageByte(Layout(h, image), h.initData.virtualAddr) == Some(image[168])
            && image[h.initData.inFileAddr] != image[168]
  {
    var h := Header(Segment(0, 40, 100), Segment(128, 140, 100), Segment(228, 0, 0));
    assert Layout(h, image).noInitData == 2;
    assert !SuppliesByte(h, image, h.initData, 0);
  }

  /** Where a segment is in place, the flat memory programs are promised starts with it. */
  lemma FlatStarts(h: Header, image: seq<Byte>, seg: Segment, i: nat)
    requires InPlace(h, seg) && i < seg.size && seg.inFileAddr + i < |image|
    ensures Known([Layout(h, image)], map[], Loc(0, seg.virtualAddr + i)) == Some(image[seg.inFileAddr + i])
  {
    InPlaceSupplies(h, seg, image);
    assert SuppliesByte(h, image, seg, i);
  }
}
