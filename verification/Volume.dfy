/**
 What FileSystem keeps on disk, as values: the free map, the directory table and the file
 headers.  Create and Remove of filesys/filesys.cc as functions on such a volume, and the
 invariant every sequence of them keeps: each sector marked in the free map belongs to
 exactly one file (as its header or as data), and every other sector is free.
 */
module Volumes {
  import opened Basics
  import opened BitMaps
  import opened SectorFiles
  import opened DiskCodec
  import opened Directories

  const FreeMapSector := 0
  const DirectorySector := 1

  datatype Volume = Volume(bits: seq<bool>, table: seq<DirEntry>, headers: map<int, Header>)

  // ---------------------------------------------------------------- free map

  function Marked(bits: seq<bool>, ks: seq<int>): (r: seq<bool>)
    ensures |r| == |bits|
  {
    seq(|bits|, k requires 0 <= k < |bits| => bits[k] || k in ks)
  }

  function Cleared(bits: seq<bool>, ks: seq<int>): (r: seq<bool>)
    ensures |r| == |bits|
  {
    seq(|bits|, k requires 0 <= k < |bits| => bits[k] && k !in ks)
  }

  /** The sectors `n` calls of Find hand out. */
  function Lowest(bits: seq<bool>, n: nat): (ks: seq<int>)
    ensures |ks| == n
  {
    if n == 0 then [] else
      var ks := Lowest(bits, n - 1);
      ks + [FirstClear(Marked(bits, ks))]
  }

  ghost predicate Distinct(ks: seq<int>) {
    forall i, j :: 0 <= i < j < |ks| ==> ks[i] != ks[j]
  }

  ghost predicate AllClear(bits: seq<bool>, ks: seq<int>) {
    forall k :: k in ks ==> 0 <= k < |bits| && !bits[k]
  }

  lemma {:induction false} MarkedCount(bits: seq<bool>, ks: seq<int>)
    requires Distinct(ks) && AllClear(bits, ks)
    ensures CountClear(Marked(bits, ks)) == CountClear(bits) - |ks|
  {
    if ks == [] {
      assert Marked(bits, ks) == bits;
    } else {
      var n := |ks| - 1;
      var rest := ks[..n];
      assert ks == rest + [ks[n]];
      assert forall k :: k in rest ==> k in ks;
      MarkedCount(bits, rest);
      assert ks[n] in ks;
      CountMark(Marked(bits, rest), ks[n]);
      assert Marked(bits, ks) == Marked(bits, rest)[ks[n] := true];
    }
  }

  /** While NumClear allows it, Find hands out distinct clear sectors in increasing order,
      leaving no clear sector below the last one. */
  lemma {:induction false} LowestExact(bits: seq<bool>, n: nat)
    requires n <= CountClear(bits)
    ensures AllClear(bits, Lowest(bits, n))
    ensures forall i, j :: 0 <= i < j < n ==> Lowest(bits, n)[i] < Lowest(bits, n)[j]
    ensures forall k :: n > 0 && 0 <= k < Lowest(bits, n)[n - 1] ==> Marked(bits, Lowest(bits, n))[k]
  {
    if n > 0 {
      LowestExact(bits, n - 1);
      var ks := Lowest(bits, n - 1);
      MarkedCount(bits, ks);
      FindIffClear(Marked(bits, ks));
      var k := FirstClear(Marked(bits, ks));
      assert Marked(bits, ks)[k] == (bits[k] || k in ks);
      if n > 1 {
        assert ks[n - 2] in ks;
        assert k != ks[n - 2];
      }
      forall j | 0 <= j < k ensures Marked(bits, ks + [k])[j] {
        assert Marked(bits, ks)[j];
      }
    }
  }

  // ---------------------------------------------------------------- operations

  /** The data sectors a header lists. */
  function Data(h: Header): (ks: seq<int>) {
    if 0 <= h.numSectors <= |h.dataSectors| then h.dataSectors[..h.numSectors] else []
  }

  /** A header after Allocate; entries it does not fill keep what memory held. */
  function Allocated(leftover: Header, size: nat, ks: seq<int>): (h: Header)
    requires |ks| <= |leftover.dataSectors|
  {
    Header(size, |ks|, Splice(leftover.dataSectors, 0, ks))
  }

  function SectorsFor(size: nat): (n: nat) {
    DivRoundUp(size, SectorSize)
  }

  /** Create would take sectors for more data than a header has entries for, and write past
      the end of the header's table. */
  predicate Overruns(bits: seq<bool>, table: seq<DirEntry>, size: nat) {
    && FirstClear(bits) != -1 && UnusedFrom(table, 0) != -1
    && NumDirect < SectorsFor(size) <= CountClear(bits[FirstClear(bits) := true])
  }

  /** What callers of Create must see to: the name is taken, or the data fits a header, or
      there is no room for the file anyway. */
  predicate Creatable(v: Volume, name: seq<Byte>, size: nat)
    requires forall i :: 0 <= i < |v.table| ==> |v.table[i].name| == NameField
  {
    IndexOf(v.table, Key(name)) != -1 || !Overruns(v.bits, v.table, size)
  }

  /** The indices at which the loop of Allocate stores into the header's table, from its
      `i`-th turn on. */
  function LoopStores(i: nat, numSectors: nat): (stores: seq<nat>)
    decreases numSectors - i
  {
    if i < numSectors then [i] + LoopStores(i + 1, numSectors) else []
  }

  /** The indices at which Create, followed as it is written and whatever the size, stores
      into the table of its new header. */
  function TableStores(v: Volume, name: seq<Byte>, size: nat): (stores: seq<nat>)
    requires forall i :: 0 <= i < |v.table| ==> |v.table[i].name| == NameField
  {
    var sector := FirstClear(v.bits);
    if IndexOf(v.table, Key(name)) != -1 then []
    else if sector == -1 then []
    else if UnusedFrom(v.table, 0) == -1 then []
    else if CountClear(v.bits[sector := true]) < SectorsFor(size) then []
    else LoopStores(0, SectorsFor(size))
  }

  lemma {:induction false} LoopStoresExact(i: nat, numSectors: nat)
    requires i <= numSectors
    ensures |LoopStores(i, numSectors)| == numSectors - i
    ensures forall k :: 0 <= k < numSectors - i ==> LoopStores(i, numSectors)[k] == i + k
    decreases numSectors - i
  {
    if i < numSectors {
      LoopStoresExact(i + 1, numSectors);
    }
  }

  /** Exactly when Create stays inside the header's table: every store is to an existing
      entry if and only if the call is Creatable. */
  lemma CreateStaysInside(v: Volume, name: seq<Byte>, size: nat)
    requires forall i :: 0 <= i < |v.table| ==> |v.table[i].name| == NameField
    ensures (forall k :: k in TableStores(v, name, size) ==> k < NumDirect) <==> Creatable(v, name, size)
    ensures |TableStores(v, name, size)| <= NumDirect <==> Creatable(v, name, size)
  {
    LoopStoresExact(0, SectorsFor(size));
    var stores := TableStores(v, name, size);
    if !Creatable(v, name, size) {
      assert stores[NumDirect] == NumDirect;
      assert NumDirect in stores;
    } else {
      forall k | k in stores ensures k < NumDirect {
        var i :| 0 <= i < |stores| && stores[i] == k;
      }
    }
  }

  /** FileSystem::Create. */
  function Create(v: Volume, name: seq<Byte>, size: nat, leftover: Header): (r: (Volume, bool))
    requires |leftover.dataSectors| == NumDirect
    requires forall i :: 0 <= i < |v.table| ==> |v.table[i].name| == NameField
    requires Creatable(v, name, size)
  {
    var sector := FirstClear(v.bits);
    var slot := UnusedFrom(v.table, 0);
    if IndexOf(v.table, Key(name)) != -1 || sector == -1 || slot == -1 then (v, false)
    else
      var bits := v.bits[sector := true];
      if CountClear(bits) < SectorsFor(size) then (v, false)
      else
        var ks := Lowest(bits, SectorsFor(size));
        var hdr := Allocated(leftover, size, ks);
        (Volume(Marked(bits, ks), Added(v.table, slot, name, sector), v.headers[sector := hdr]), true)
  }

  /** Remove finds a header wherever the directory points. */
  predicate Removable(v: Volume, name: seq<Byte>) {
    && (forall i :: 0 <= i < |v.table| ==> |v.table[i].name| == NameField)
    && var i := IndexOf(v.table, Key(name));
       i != -1 ==> v.table[i].sector in v.headers && 0 <= v.table[i].sector < |v.bits|
  }

  /** FileSystem::Remove. */
  function Remove(v: Volume, name: seq<Byte>): (r: (Volume, bool))
    requires Removable(v, name)
  {
    var i := IndexOf(v.table, Key(name));
    if i == -1 then (v, false)
    else
      var s := v.table[i].sector;
      var bits := Cleared(v.bits, Data(v.headers[s]))[s := false];
      (Volume(bits, v.table[i := v.table[i].(inUse := false)], v.headers - {s}), true)
  }

  // ---------------------------------------------------------------- invariant

  ghost predicate IsHead(t: seq<DirEntry>, s: int) {
    exists i :: 0 <= i < |t| && t[i].inUse && t[i].sector == s
  }

  /** Sector `k` is the header `s` or one of its data sectors. */
  ghost predicate Owns(v: Volume, s: int, k: int) {
    s in v.headers && (k == s || k in Data(v.headers[s]))
  }

  ghost predicate Owned(v: Volume, k: int) {
    exists s :: Owns(v, s, k)
  }

  /** The headers are those of the two system files and of the directory's entries. */
  ghost predicate Filed(t: seq<DirEntry>, heads: set<int>) {
    && ValidTable(t)
    && (forall s :: s in heads <==> s == FreeMapSector || s == DirectorySector || IsHead(t, s))
    && (forall i :: 0 <= i < |t| && t[i].inUse ==> t[i].sector != FreeMapSector && t[i].sector != DirectorySector)
    && (forall i, j :: 0 <= i < j < |t| && t[i].inUse && t[j].inUse ==> t[i].sector != t[j].sector)
  }

  ghost predicate GoodHeader(s: int, h: Header) {
    0 <= s < NumSectors && ValidHeader(h) && Encodable(h) && s !in Data(h)
  }

  ghost predicate GoodHeaders(v: Volume) {
    && (forall s :: s in v.headers ==> GoodHeader(s, v.headers[s]))
    && FreeMapSector in v.headers && v.headers[FreeMapSector].numBytes == FreeMapFileSize
    && DirectorySector in v.headers && v.headers[DirectorySector].numBytes == DirectoryFileSize
  }

  /** No sector has two owners. */
  ghost predicate Disjoint(v: Volume) {
    forall s, t, k :: Owns(v, s, k) && Owns(v, t, k) ==> s == t
  }

  /** The free map marks exactly the owned sectors. */
  ghost predicate Accounted(v: Volume) {
    |v.bits| == NumSectors && forall k :: 0 <= k < NumSectors ==> (v.bits[k] <==> Owned(v, k))
  }

  ghost predicate Inv(v: Volume) {
    Filed(v.table, v.headers.Keys) && GoodHeaders(v) && Disjoint(v) && Accounted(v)
  }

  // ---------------------------------------------------------------- Create

  lemma AllocatedData(leftover: Header, size: nat, ks: seq<int>)
    requires |ks| <= |leftover.dataSectors|
    ensures Data(Allocated(leftover, size, ks)) == ks
    ensures forall i :: 0 <= i < |ks| ==> Allocated(leftover, size, ks).dataSectors[i] == ks[i]
  {
    var h := Allocated(leftover, size, ks);
    assert forall i :: 0 <= i < |ks| ==> h.dataSectors[i] == ks[i];
  }

  lemma AllocatedEncodable(leftover: Header, size: nat, ks: seq<int>)
    requires Encodable(leftover) && size <= MaxFileSize && |ks| <= NumDirect
    requires forall i :: 0 <= i < |ks| ==> 0 <= ks[i] < NumSectors
    ensures Encodable(Allocated(leftover, size, ks))
  {
    var h := Allocated(leftover, size, ks);
    forall k | 0 <= k < NumDirect + 2 ensures Int32(Field(h, k)) {
      assert Int32(Field(leftover, k));
    }
  }

  lemma SectorsFit(size: nat)
    ensures size <= MaxFileSize <==> SectorsFor(size) <= NumDirect
  {
  }

  /** A file that can be made at all has at most the size a header can describe. */
  lemma CreatedFits(v: Volume, name: seq<Byte>, size: nat, leftover: Header)
    requires ValidTable(v.table) && Encodable(leftover) && Creatable(v, name, size)
    requires Create(v, name, size, leftover).1
    ensures size <= MaxFileSize
  {
    SectorsFit(size);
  }

  lemma GoodAllocated(leftover: Header, size: nat, ks: seq<int>, s: int)
    requires size <= MaxFileSize && Encodable(leftover) && |ks| == SectorsFor(size)
    requires forall i :: 0 <= i < |ks| ==> 0 <= ks[i] < NumSectors
    requires forall i, j :: 0 <= i < j < |ks| ==> ks[i] < ks[j]
    requires 0 <= s < NumSectors && s !in ks
    ensures |ks| <= NumDirect
    ensures GoodHeader(s, Allocated(leftover, size, ks)) && Data(Allocated(leftover, size, ks)) == ks
  {
    SectorsFit(size);
    AllocatedData(leftover, size, ks);
    AllocatedEncodable(leftover, size, ks);
  }

  lemma AllocatedGood(bits: seq<bool>, size: nat, leftover: Header, s: int)
    requires size <= MaxFileSize && Encodable(leftover) && |bits| == NumSectors
    requires SectorsFor(size) <= CountClear(bits) && 0 <= s < NumSectors && bits[s]
    ensures var ks := Lowest(bits, SectorsFor(size));
            && |ks| <= NumDirect
            && GoodHeader(s, Allocated(leftover, size, ks)) && Data(Allocated(leftover, size, ks)) == ks
  {
    LowestExact(bits, SectorsFor(size));
    var ks := Lowest(bits, SectorsFor(size));
    forall i | 0 <= i < |ks| ensures 0 <= ks[i] < NumSectors {
      assert ks[i] in ks;
    }
    GoodAllocated(leftover, size, ks, s);
  }

  /** What a successful Create does to ownership. */
  lemma CreatedOwns(v: Volume, name: seq<Byte>, size: nat, leftover: Header, s: int, k: int)
    requires Inv(v) && CString(name) && Creatable(v, name, size) && Encodable(leftover)
    requires Create(v, name, size, leftover).1
    ensures var sector := FirstClear(v.bits);
            var w := Create(v, name, size, leftover).0;
            && sector !in v.headers
            && (Owns(w, s, k) <==>
                 if s == sector then k == sector || k in Lowest(v.bits[sector := true], SectorsFor(size))
                 else Owns(v, s, k))
  {
    CreatedFits(v, name, size, leftover);
    var sector := FirstClear(v.bits);
    if sector in v.headers {
      assert Owns(v, sector, sector);
    }
    AllocatedGood(v.bits[sector := true], size, leftover, sector);
  }

  /** Sectors handed out by Create had no owner. */
  lemma FreshUnowned(v: Volume, size: nat, s: int, k: int)
    requires Accounted(v) && FirstClear(v.bits) != -1
    requires SectorsFor(size) <= CountClear(v.bits[FirstClear(v.bits) := true])
    requires k == FirstClear(v.bits) || k in Lowest(v.bits[FirstClear(v.bits) := true], SectorsFor(size))
    ensures 0 <= k < NumSectors && !v.bits[k] && !Owns(v, s, k)
  {
    var sector := FirstClear(v.bits);
    LowestExact(v.bits[sector := true], SectorsFor(size));
    assert 0 <= k < NumSectors && !v.bits[k];
    assert Owns(v, s, k) ==> Owned(v, k);
  }

  lemma CreateDisjoint(v: Volume, name: seq<Byte>, size: nat, leftover: Header)
    requires Inv(v) && CString(name) && Creatable(v, name, size) && Encodable(leftover)
    requires Create(v, name, size, leftover).1
    ensures Disjoint(Create(v, name, size, leftover).0)
  {
    var w := Create(v, name, size, leftover).0;
    var sector := FirstClear(v.bits);
    forall s, t, k | Owns(w, s, k) && Owns(w, t, k) ensures s == t {
      CreatedOwns(v, name, size, leftover, s, k);
      CreatedOwns(v, name, size, leftover, t, k);
      if s == sector && t != sector { FreshUnowned(v, size, t, k); }
      if t == sector && s != sector { FreshUnowned(v, size, s, k); }
    }
  }

  lemma CreateAccounts(v: Volume, name: seq<Byte>, size: nat, leftover: Header)
    requires Inv(v) && CString(name) && Creatable(v, name, size) && Encodable(leftover)
    requires Create(v, name, size, leftover).1
    ensures Accounted(Create(v, name, size, leftover).0)
  {
    var w := Create(v, name, size, leftover).0;
    var sector := FirstClear(v.bits);
    var ks := Lowest(v.bits[sector := true], SectorsFor(size));
    forall k | 0 <= k < NumSectors ensures w.bits[k] <==> Owned(w, k) {
      assert w.bits[k] <==> v.bits[k] || k == sector || k in ks;
      CreatedOwns(v, name, size, leftover, sector, k);
      if Owned(v, k) {
        var s :| Owns(v, s, k);
        CreatedOwns(v, name, size, leftover, s, k);
        assert Owns(w, s, k);
      }
      if k == sector || k in ks { assert Owns(w, sector, k); }
      if Owned(w, k) {
        var s :| Owns(w, s, k);
        CreatedOwns(v, name, size, leftover, s, k);
        assert s != sector ==> Owns(v, s, k);
      }
    }
  }

  lemma AddedFiled(t: seq<DirEntry>, heads: set<int>, slot: nat, name: seq<Byte>, sector: int)
    requires Filed(t, heads) && CString(name) && Int32(sector) && sector !in heads
    requires slot < |t| && !t[slot].inUse && IndexOf(t, Key(name)) == -1
    ensures Filed(Added(t, slot, name, sector), heads + {sector})
  {
    var u := Added(t, slot, name, sector);
    AddedKeeps(t, slot, name, sector);
    assert u[slot].sector == sector && u[slot].inUse;
    forall i | 0 <= i < |t| && t[i].inUse ensures t[i].sector in heads && u[i] == t[i] {
      assert IsHead(t, t[i].sector);
    }
    forall s ensures s in heads + {sector} <==> s == FreeMapSector || s == DirectorySector || IsHead(u, s) {
      if IsHead(t, s) {
        var i :| 0 <= i < |t| && t[i].inUse && t[i].sector == s;
        assert u[i].inUse && u[i].sector == s;
      }
      if IsHead(u, s) {
        var i :| 0 <= i < |u| && u[i].inUse && u[i].sector == s;
        assert i != slot ==> t[i].inUse;
      }
    }
  }

  lemma CreateGood(v: Volume, name: seq<Byte>, size: nat, leftover: Header)
    requires Inv(v) && CString(name) && Creatable(v, name, size) && Encodable(leftover)
    requires Create(v, name, size, leftover).1
    ensures var w := Create(v, name, size, leftover).0; Filed(w.table, w.headers.Keys) && GoodHeaders(w)
  {
    CreatedFits(v, name, size, leftover);
    var sector := FirstClear(v.bits);
    CreatedOwns(v, name, size, leftover, sector, sector);
    AllocatedGood(v.bits[sector := true], size, leftover, sector);
    AddedFiled(v.table, v.headers.Keys, UnusedFrom(v.table, 0), name, sector);
  }

  /** Create keeps the invariant; when it fails nothing changes. */
  lemma CreateInv(v: Volume, name: seq<Byte>, size: nat, leftover: Header)
    requires Inv(v) && CString(name) && Creatable(v, name, size) && Encodable(leftover)
    ensures Inv(Create(v, name, size, leftover).0)
    ensures !Create(v, name, size, leftover).1 ==> Create(v, name, size, leftover).0 == v
  {
    if Create(v, name, size, leftover).1 {
      CreateGood(v, name, size, leftover);
      CreateDisjoint(v, name, size, leftover);
      CreateAccounts(v, name, size, leftover);
    }
  }

  /** Create succeeds exactly when the name is new, the directory has room and the disk has
      room for the header and the data. */
  lemma CreateSucceeds(v: Volume, name: seq<Byte>, size: nat, leftover: Header)
    requires Inv(v) && CString(name) && Creatable(v, name, size) && Encodable(leftover)
    ensures var (w, ok) := Create(v, name, size, leftover);
            && (ok <==> && IndexOf(v.table, Key(name)) == -1
                        && (exists i :: 0 <= i < |v.table| && !v.table[i].inUse)
                        && CountClear(v.bits) >= 1 + SectorsFor(size))
            && (ok ==> CountClear(w.bits) == CountClear(v.bits) - 1 - SectorsFor(size))
  {
    FindIffClear(v.bits);
    var sector := FirstClear(v.bits);
    if sector != -1 {
      CountMark(v.bits, sector);
      var bits := v.bits[sector := true];
      if SectorsFor(size) <= CountClear(bits) {
        LowestExact(bits, SectorsFor(size));
        MarkedCount(bits, Lowest(bits, SectorsFor(size)));
      }
    }
  }

  // ---------------------------------------------------------------- Remove

  /** Remove finds a header for the name, and every sector it clears was marked. */
  lemma RemoveDefined(v: Volume, name: seq<Byte>)
    requires Inv(v)
    ensures Removable(v, name)
    ensures var i := IndexOf(v.table, Key(name));
            i != -1 ==>
              var s := v.table[i].sector;
              && s in v.headers && GoodHeader(s, v.headers[s]) && s != FreeMapSector && s != DirectorySector
              && v.bits[s]
              && forall k :: k in Data(v.headers[s]) ==> 0 <= k < NumSectors && k != s && v.bits[k]
  {
    var i := IndexOf(v.table, Key(name));
    if i != -1 {
      var s := v.table[i].sector;
      assert IsHead(v.table, s);
      assert Owns(v, s, s);
      forall k | k in Data(v.headers[s]) ensures 0 <= k < NumSectors && v.bits[k] {
        assert Owns(v, s, k);
      }
    }
  }

  /** Of this, where the header is. */
  lemma RemoveFinds(v: Volume, name: seq<Byte>)
    requires Inv(v)
    ensures Removable(v, name)
    ensures IndexOf(v.table, Key(name)) != -1 ==>
              var s := v.table[IndexOf(v.table, Key(name))].sector;
              s in v.headers && 0 <= s && s != FreeMapSector && s != DirectorySector
  {
    RemoveDefined(v, name);
  }

  lemma RemoveAccounts(v: Volume, name: seq<Byte>)
    requires Inv(v) && IndexOf(v.table, Key(name)) != -1
    ensures Removable(v, name) && Disjoint(Remove(v, name).0) && Accounted(Remove(v, name).0)
  {
    RemoveDefined(v, name);
    var w := Remove(v, name).0;
    var gone := v.table[IndexOf(v.table, Key(name))].sector;
    forall s, k ensures Owns(w, s, k) <==> s != gone && Owns(v, s, k) {
    }
    forall k | 0 <= k < NumSectors ensures w.bits[k] <==> Owned(w, k) {
      assert w.bits[k] <==> v.bits[k] && !Owns(v, gone, k);
      StillOwned(v, w, gone, k);
    }
  }

  /** A sector keeps its owner unless that was removed. */
  lemma StillOwned(v: Volume, w: Volume, gone: int, k: int)
    requires Disjoint(v) && forall s :: Owns(w, s, k) <==> s != gone && Owns(v, s, k)
    ensures Owned(w, k) <==> Owned(v, k) && !Owns(v, gone, k)
  {
    if Owned(v, k) && !Owns(v, gone, k) {
      var s :| Owns(v, s, k);
      assert Owns(w, s, k);
    }
    if Owned(w, k) {
      var s :| Owns(w, s, k);
      assert Owns(v, s, k);
    }
  }

  lemma RemovedFiled(t: seq<DirEntry>, heads: set<int>, i: nat)
    requires Filed(t, heads) && i < |t| && t[i].inUse
    ensures Filed(t[i := t[i].(inUse := false)], heads - {t[i].sector})
  {
    var u := t[i := t[i].(inUse := false)];
    RemovedKeeps(t, i);
    forall s ensures s in heads - {t[i].sector} <==> s == FreeMapSector || s == DirectorySector || IsHead(u, s) {
      if IsHead(t, s) && s != t[i].sector {
        var j :| 0 <= j < |t| && t[j].inUse && t[j].sector == s;
        assert u[j].inUse && u[j].sector == s;
      }
      if IsHead(u, s) {
        var j :| 0 <= j < |u| && u[j].inUse && u[j].sector == s;
        assert t[j].inUse && j != i;
        assert IsHead(t, s);
      }
    }
  }

  lemma ClearedCount(bits: seq<bool>, ks: seq<int>, s: int)
    requires Distinct(ks) && 0 <= s < |bits| && bits[s] && s !in ks
    requires forall k :: k in ks ==> 0 <= k < |bits| && bits[k]
    ensures CountClear(Cleared(bits, ks)[s := false]) == CountClear(bits) + 1 + |ks|
  {
    var r := Cleared(bits, ks)[s := false];
    MarkedCount(r, ks + [s]);
    assert Marked(r, ks + [s]) == bits;
  }

  /** Remove keeps the invariant, succeeds exactly on names in the directory, and returns
      the header's and the data sectors to the free map. */
  lemma RemoveInv(v: Volume, name: seq<Byte>)
    requires Inv(v)
    ensures Removable(v, name) && Inv(Remove(v, name).0)
    ensures var (w, ok) := Remove(v, name);
            && (ok <==> IndexOf(v.table, Key(name)) != -1)
            && (ok ==> CountClear(w.bits) ==
                         CountClear(v.bits) + 1 + |Data(v.headers[v.table[IndexOf(v.table, Key(name))].sector])|)
  {
    RemoveDefined(v, name);
    var i := IndexOf(v.table, Key(name));
    if i != -1 {
      var s := v.table[i].sector;
      RemovedFiled(v.table, v.headers.Keys, i);
      assert (v.headers - {s}).Keys == v.headers.Keys - {s};
      RemoveAccounts(v, name);
      ClearedCount(v.bits, Data(v.headers[s]), s);
    }
  }

  lemma UndoneBits(bits: seq<bool>, sector: nat, ks: seq<int>)
    requires sector < |bits| && !bits[sector] && AllClear(bits[sector := true], ks)
    ensures Cleared(Marked(bits[sector := true], ks), ks)[sector := false] == bits
  {
    assert forall k :: k in ks ==> !bits[sector := true][k];
  }

  lemma UndoneTable(t: seq<DirEntry>, slot: nat, name: seq<Byte>, sector: int)
    requires ValidTable(t) && CString(name) && Int32(sector)
    requires slot < |t| && !t[slot].inUse && IndexOf(t, Key(name)) == -1
    ensures var u := Added(t, slot, name, sector);
            var w := u[slot := u[slot].(inUse := false)];
            && IndexOf(u, Key(name)) == slot
            && EncodableTable(w) && forall key :: IndexOf(w, key) == IndexOf(t, key)
  {
    AddedKeeps(t, slot, name, sector);
    StrNCopyKey(t[slot].name, name);
    RemovedKeeps(Added(t, slot, name, sector), slot);
  }

  lemma RemovedIs(w: Volume, name: seq<Byte>, slot: nat, sector: int, ks: seq<int>)
    requires Removable(w, name) && IndexOf(w.table, Key(name)) == slot && w.table[slot].sector == sector
    requires Data(w.headers[sector]) == ks
    ensures Remove(w, name) ==
            (Volume(Cleared(w.bits, ks)[sector := false], w.table[slot := w.table[slot].(inUse := false)],
                    w.headers - {sector}), true)
  {
  }

  lemma UndoneVolume(v: Volume, name: seq<Byte>, slot: nat, sector: int, hdr: Header, w: Volume)
    requires ValidTable(v.table) && CString(name) && Int32(sector)
    requires slot < |v.table| && !v.table[slot].inUse && IndexOf(v.table, Key(name)) == -1
    requires 0 <= sector < |v.bits| && !v.bits[sector] && sector !in v.headers
    requires AllClear(v.bits[sector := true], Data(hdr))
    requires w.bits == Marked(v.bits[sector := true], Data(hdr)) && w.headers == v.headers[sector := hdr]
    requires w.table == Added(v.table, slot, name, sector)
    ensures Removable(w, name)
    ensures var (x, ok) := Remove(w, name);
            && ok && x.bits == v.bits && x.headers == v.headers
            && EncodableTable(x.table) && forall key :: IndexOf(x.table, key) == IndexOf(v.table, key)
  {
    UndoneTable(v.table, slot, name, sector);
    RemovedIs(w, name, slot, sector, Data(hdr));
    UndoneBits(v.bits, sector, Data(hdr));
    assert w.headers - {sector} == v.headers;
  }

  /** Removing a file just created restores the free map, the headers and what the
      directory files under every name. */
  lemma RemoveUndoesCreate(v: Volume, name: seq<Byte>, size: nat, leftover: Header, w: Volume)
    requires Inv(v) && CString(name) && Creatable(v, name, size) && Encodable(leftover)
    requires Create(v, name, size, leftover) == (w, true)
    ensures Removable(w, name)
    ensures var (x, ok) := Remove(w, name);
            && ok && x.bits == v.bits && x.headers == v.headers
            && EncodableTable(x.table) && forall key :: IndexOf(x.table, key) == IndexOf(v.table, key)
  {
    CreatedFits(v, name, size, leftover);
    var sector, slot := FirstClear(v.bits), UnusedFrom(v.table, 0);
    CreatedOwns(v, name, size, leftover, sector, sector);
    AllocatedGood(v.bits[sector := true], size, leftover, sector);
    LowestExact(v.bits[sector := true], SectorsFor(size));
    UndoneVolume(v, name, slot, sector, w.headers[sector], w);
  }

  // ---------------------------------------------------------------- formatting

  /** All sectors free but the two well-known header sectors. */
  function BlankBits(): (bits: seq<bool>)
    ensures |bits| == NumSectors
  {
    seq(NumSectors, _ => false)[FreeMapSector := true][DirectorySector := true]
  }

  /** What formatting leaves: the free map's file, the directory's file and no others. */
  function Formatted(table: seq<DirEntry>, mapLeftover: Header, dirLeftover: Header): (v: Volume)
    requires |mapLeftover.dataSectors| == NumDirect && |dirLeftover.dataSectors| == NumDirect
  {
    var bits := BlankBits();
    SectorsFit(FreeMapFileSize);
    SectorsFit(DirectoryFileSize);
    var ks := Lowest(bits, SectorsFor(FreeMapFileSize));
    var rest := Marked(bits, ks);
    var ls := Lowest(rest, SectorsFor(DirectoryFileSize));
    Volume(Marked(rest, ls), table,
           map[FreeMapSector := Allocated(mapLeftover, FreeMapFileSize, ks),
               DirectorySector := Allocated(dirLeftover, DirectoryFileSize, ls)])
  }

  lemma {:induction false} CountFree(bits: seq<bool>)
    requires forall k :: 0 <= k < |bits| ==> !bits[k]
    ensures CountClear(bits) == |bits|
  {
    if bits != [] {
      CountFree(bits[..|bits| - 1]);
    }
  }

  /** There is room for both files: the assertions on Allocate hold. */
  lemma FormatFits()
    ensures CountClear(BlankBits()) == NumSectors - 2
    ensures var ks := Lowest(BlankBits(), SectorsFor(FreeMapFileSize));
            CountClear(Marked(BlankBits(), ks)) == NumSectors - 2 - SectorsFor(FreeMapFileSize)
  {
    var none: seq<bool> := seq(NumSectors, _ => false);
    CountFree(none);
    CountMark(none, FreeMapSector);
    CountMark(none[FreeMapSector := true], DirectorySector);
    LowestExact(BlankBits(), SectorsFor(FreeMapFileSize));
    MarkedCount(BlankBits(), Lowest(BlankBits(), SectorsFor(FreeMapFileSize)));
  }

  lemma FormatOwned(v: Volume, rest: seq<bool>, ks: seq<int>, ls: seq<int>)
    requires v.headers.Keys == {FreeMapSector, DirectorySector}
    requires Data(v.headers[FreeMapSector]) == ks && Data(v.headers[DirectorySector]) == ls
    requires AllClear(BlankBits(), ks) && rest == Marked(BlankBits(), ks)
    requires AllClear(rest, ls) && v.bits == Marked(rest, ls)
    ensures Disjoint(v) && Accounted(v)
  {
    forall k ensures Owns(v, FreeMapSector, k) <==> k == FreeMapSector || k in ks {
    }
    forall k ensures Owns(v, DirectorySector, k) <==> k == DirectorySector || k in ls {
    }
    forall k | 0 <= k < NumSectors ensures v.bits[k] <==> Owned(v, k) {
      assert Owned(v, k) <==> Owns(v, FreeMapSector, k) || Owns(v, DirectorySector, k);
      assert v.bits[k] <==> rest[k] || k in ls;
      assert rest[k] <==> BlankBits()[k] || k in ks;
    }
    forall s, t, k | Owns(v, s, k) && Owns(v, t, k) ensures s == t {
      assert k in ls ==> !rest[k];
      assert k in ks ==> rest[k] && !BlankBits()[k];
    }
  }

  lemma FormatHeaders(v: Volume, mapHdr: Header, dirHdr: Header)
    requires v.headers == map[FreeMapSector := mapHdr, DirectorySector := dirHdr]
    requires GoodHeader(FreeMapSector, mapHdr) && mapHdr.numBytes == FreeMapFileSize
    requires GoodHeader(DirectorySector, dirHdr) && dirHdr.numBytes == DirectoryFileSize
    requires ValidTable(v.table) && NoneInUse(v.table)
    ensures Filed(v.table, v.headers.Keys) && GoodHeaders(v)
  {
  }

  /** A freshly formatted volume satisfies the invariant. */
  lemma FormatInv(table: seq<DirEntry>, mapLeftover: Header, dirLeftover: Header)
    requires ValidTable(table) && NoneInUse(table) && Encodable(mapLeftover) && Encodable(dirLeftover)
    ensures Inv(Formatted(table, mapLeftover, dirLeftover))
  {
    FormatFits();
    var bits := BlankBits();
    var ks := Lowest(bits, SectorsFor(FreeMapFileSize));
    var rest := Marked(bits, ks);
    var ls := Lowest(rest, SectorsFor(DirectoryFileSize));
    AllocatedGood(bits, FreeMapFileSize, mapLeftover, FreeMapSector);
    AllocatedGood(rest, DirectoryFileSize, dirLeftover, DirectorySector);
    var v := Formatted(table, mapLeftover, dirLeftover);
    FormatHeaders(v, Allocated(mapLeftover, FreeMapFileSize, ks), Allocated(dirLeftover, DirectoryFileSize, ls));
    assert AllClear(bits, ks) by { LowestExact(bits, SectorsFor(FreeMapFileSize)); }
    assert AllClear(rest, ls) by { LowestExact(rest, SectorsFor(DirectoryFileSize)); }
    FormatOwned(v, rest, ks, ls);
  }

  /** How many sectors a formatted disk has left for data once a header is taken. */
  lemma FormatLeaves(table: seq<DirEntry>, mapLeftover: Header, dirLeftover: Header)
    requires |mapLeftover.dataSectors| == NumDirect && |dirLeftover.dataSectors| == NumDirect
    ensures var bits := Formatted(table, mapLeftover, dirLeftover).bits;
            && FirstClear(bits) != -1 && CountClear(bits[FirstClear(bits) := true]) == 1018
  {
    FormatFits();
    var rest := Marked(BlankBits(), Lowest(BlankBits(), SectorsFor(FreeMapFileSize)));
    LowestExact(rest, SectorsFor(DirectoryFileSize));
    MarkedCount(rest, Lowest(rest, SectorsFor(DirectoryFileSize)));
    var bits := Formatted(table, mapLeftover, dirLeftover).bits;
    FindIffClear(bits);
    CountMark(bits, FirstClear(bits));
  }

  /** On every freshly formatted disk, every name and every size from 3841 to 130304 make
      Create overrun: it stores past the 30 entries of its header. */
  lemma FormattedOverruns(table: seq<DirEntry>, mapLeftover: Header, dirLeftover: Header, name: seq<Byte>, size: nat)
    requires ValidTable(table) && NoneInUse(table) && Encodable(mapLeftover) && Encodable(dirLeftover)
    requires CString(name) && MaxFileSize < size <= 130304
    ensures var v := Formatted(table, mapLeftover, dirLeftover);
            && Inv(v) && !Creatable(v, name, size)
            && exists k :: k in TableStores(v, name, size) && k >= NumDirect
  {
    FormatInv(table, mapLeftover, dirLeftover);
    FormatLeaves(table, mapLeftover, dirLeftover);
    EmptyOverruns(Formatted(table, mapLeftover, dirLeftover), name, size);
  }

  /** With an empty directory and 1018 sectors left behind a header's. */
  lemma EmptyOverruns(v: Volume, name: seq<Byte>, size: nat)
    requires ValidTable(v.table) && NoneInUse(v.table) && MaxFileSize < size <= 130304
    requires FirstClear(v.bits) != -1 && CountClear(v.bits[FirstClear(v.bits) := true]) == 1018
    ensures !Creatable(v, name, size) && exists k :: k in TableStores(v, name, size) && k >= NumDirect
  {
    SectorsFit(size);
    assert SectorsFor(size) <= 1018;
    assert !v.table[0].inUse;
    CreateStaysInside(v, name, size);
  }

  // ---------------------------------------------------------------- whole runs

  datatype Op = CreateFile(name: seq<Byte>, size: nat, leftover: Header) | RemoveFile(name: seq<Byte>)

  /** What callers of Create and Remove see to. */
  ghost predicate Legal(v: Volume, op: Op)
    requires Inv(v)
  {
    CString(op.name) && (op.CreateFile? ==> Creatable(v, op.name, op.size) && Encodable(op.leftover))
  }

  /** The volume after one call of Create or Remove. */
  ghost function After(v: Volume, op: Op): (w: Volume)
    requires Inv(v) && Legal(v, op)
  {
    match op
    case CreateFile(name, size, leftover) => Create(v, name, size, leftover).0
    case RemoveFile(name) =>
      RemoveDefined(v, name);
      Remove(v, name).0
  }

  lemma AfterInv(v: Volume, op: Op)
    requires Inv(v) && Legal(v, op)
    ensures Inv(After(v, op))
  {
    match op
    case CreateFile(name, size, leftover) => CreateInv(v, name, size, leftover);
    case RemoveFile(name) => RemoveInv(v, name);
  }

  ghost predicate Run(v: Volume, ops: seq<Op>, w: Volume)
    requires Inv(v)
    decreases |ops|
  {
    if ops == [] then w == v
    else Legal(v, ops[0]) && (AfterInv(v, ops[0]); Run(After(v, ops[0]), ops[1..], w))
  }

  lemma {:induction false} RunInv(v: Volume, ops: seq<Op>, w: Volume)
    requires Inv(v) && Run(v, ops, w)
    ensures Inv(w)
    decreases |ops|
  {
    if ops != [] {
      AfterInv(v, ops[0]);
      RunInv(After(v, ops[0]), ops[1..], w);
    }
  }

  /** On a formatted disk, after any creations and removals, a sector is marked in the map
      exactly when some file owns it, and no two files share a sector. */
  lemma NoLeaksNoSharing(table: seq<DirEntry>, mapLeftover: Header, dirLeftover: Header,
                         v: Volume, ops: seq<Op>, w: Volume)
    requires ValidTable(table) && NoneInUse(table) && Encodable(mapLeftover) && Encodable(dirLeftover)
    requires v == Formatted(table, mapLeftover, dirLeftover)
    requires (FormatInv(table, mapLeftover, dirLeftover); Run(v, ops, w))
    ensures |w.bits| == NumSectors
    ensures forall k :: 0 <= k < NumSectors ==> (w.bits[k] <==> exists s :: Owns(w, s, k))
    ensures forall s, t, k :: Owns(w, s, k) && Owns(w, t, k) ==> s == t
  {
    FormatInv(table, mapLeftover, dirLeftover);
    RunInv(v, ops, w);
    forall k | 0 <= k < NumSectors ensures w.bits[k] <==> exists s :: Owns(w, s, k) {
      assert Owned(w, k) <==> exists s :: Owns(w, s, k);
    }
  }
}
