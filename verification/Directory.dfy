/**
 Directory of filesys/directory.cc: a fixed table of entries, searched by the first nine
 characters of a name.
 */
module Directories {
  import opened Basics
  import opened DiskCodec

  const FileNameMaxLen := 9

  /** Character `i` of a C string, whose terminator is a zero. */
  function At(name: seq<Byte>, i: nat): (c: Byte) {
    if i < |name| then name[i] else 0
  }

  ghost predicate CString(name: seq<Byte>) {
    0 !in name
  }

  /** What of a name counts: nine characters, short names padded with zeros. */
  function Key(name: seq<Byte>): (k: seq<Byte>)
    ensures |k| == FileNameMaxLen == 9
  {
    seq(FileNameMaxLen, i requires 0 <= i < FileNameMaxLen => At(name, i))
  }

  /** `strncmp(a, name, FileNameMaxLen)` finds no difference from character `i` on. */
  predicate StrNEqual(a: seq<Byte>, name: seq<Byte>, i: nat)
    requires |a| == NameField && i <= FileNameMaxLen
    decreases FileNameMaxLen - i
  {
    i == FileNameMaxLen || (a[i] == At(name, i) && (a[i] == 0 || StrNEqual(a, name, i + 1)))
  }

  /** `strncpy(a, name, FileNameMaxLen)`: the last byte of the field is left alone. */
  function StrNCopy(a: seq<Byte>, name: seq<Byte>): (r: seq<Byte>)
    requires |a| == NameField
    ensures |r| == NameField
  {
    Key(name) + [a[FileNameMaxLen]]
  }

  /** After a zero come only zeros. */
  ghost predicate Padded(a: seq<Byte>) {
    |a| == NameField && forall i, j :: 0 <= i < j < FileNameMaxLen && a[i] == 0 ==> a[j] == 0
  }

  lemma {:induction false} StrNEqualFrom(a: seq<Byte>, name: seq<Byte>, i: nat)
    requires Padded(a) && CString(name) && i <= FileNameMaxLen
    ensures StrNEqual(a, name, i) <==> forall j :: i <= j < FileNameMaxLen ==> a[j] == At(name, j)
    decreases FileNameMaxLen - i
  {
    if i < FileNameMaxLen {
      StrNEqualFrom(a, name, i + 1);
    }
  }

  /** On a stored name, strncmp compares keys. */
  lemma StrNEqualKey(a: seq<Byte>, name: seq<Byte>)
    requires Padded(a) && CString(name)
    ensures StrNEqual(a, name, 0) <==> a[..FileNameMaxLen] == Key(name)
  {
    StrNEqualFrom(a, name, 0);
    if StrNEqual(a, name, 0) {
      assert a[..FileNameMaxLen] == Key(name);
    } else {
      var j :| 0 <= j < FileNameMaxLen && a[j] != At(name, j);
      assert a[..FileNameMaxLen][j] != Key(name)[j];
    }
  }

  /** A name as stored is padded and has the key it was stored under. */
  lemma StrNCopyKey(a: seq<Byte>, name: seq<Byte>)
    requires |a| == NameField && CString(name)
    ensures Padded(StrNCopy(a, name)) && StrNCopy(a, name)[..FileNameMaxLen] == Key(name)
  {
    assert forall i :: 0 <= i < FileNameMaxLen && At(name, i) == 0 ==> |name| <= i;
  }

  predicate HasKey(e: DirEntry, key: seq<Byte>)
    requires |e.name| == NameField
  {
    e.inUse && e.name[..FileNameMaxLen] == key
  }

  /** Names are stored padded, and no two entries in use share a key. */
  ghost predicate ValidTable(t: seq<DirEntry>) {
    && EncodableTable(t)
    && (forall i :: 0 <= i < |t| && t[i].inUse ==> Padded(t[i].name))
    && (forall i, j :: 0 <= i < j < |t| && t[i].inUse && t[j].inUse ==>
          t[i].name[..FileNameMaxLen] != t[j].name[..FileNameMaxLen])
  }

  /** The first entry at or after `from` in use under `key`, or -1. */
  function IndexFrom(t: seq<DirEntry>, key: seq<Byte>, from: nat): (r: int)
    requires from <= |t| && forall i :: 0 <= i < |t| ==> |t[i].name| == NameField
    ensures r == -1 <==> forall i :: from <= i < |t| ==> !HasKey(t[i], key)
    ensures r != -1 ==> from <= r < |t| && HasKey(t[r], key) && forall i :: from <= i < r ==> !HasKey(t[i], key)
    decreases |t| - from
  {
    if from == |t| then -1 else if HasKey(t[from], key) then from else IndexFrom(t, key, from + 1)
  }

  function IndexOf(t: seq<DirEntry>, key: seq<Byte>): (r: int)
    requires forall i :: 0 <= i < |t| ==> |t[i].name| == NameField
    ensures r == -1 <==> forall i :: 0 <= i < |t| ==> !HasKey(t[i], key)
    ensures r != -1 ==> 0 <= r < |t| && HasKey(t[r], key) && forall i :: 0 <= i < r ==> !HasKey(t[i], key)
  {
    IndexFrom(t, key, 0)
  }

  /** The first entry at or after `from` not in use, or -1. */
  function UnusedFrom(t: seq<DirEntry>, from: nat): (r: int)
    requires from <= |t|
    ensures r == -1 <==> forall i :: from <= i < |t| ==> t[i].inUse
    ensures r != -1 ==> from <= r < |t| && !t[r].inUse && forall i :: from <= i < r ==> t[i].inUse
    decreases |t| - from
  {
    if from == |t| then -1 else if !t[from].inUse then from else UnusedFrom(t, from + 1)
  }

  /** The table with an entry added under `name`. */
  function Added(t: seq<DirEntry>, slot: nat, name: seq<Byte>, sector: int): (u: seq<DirEntry>)
    requires slot < |t| && |t[slot].name| == NameField
  {
    t[slot := DirEntry(true, sector, StrNCopy(t[slot].name, name))]
  }

  /** Adding an absent name keeps the table valid and files exactly that name. */
  lemma AddedKeeps(t: seq<DirEntry>, slot: nat, name: seq<Byte>, sector: int)
    requires ValidTable(t) && CString(name) && Int32(sector)
    requires slot < |t| && !t[slot].inUse && IndexOf(t, Key(name)) == -1
    ensures ValidTable(Added(t, slot, name, sector))
    ensures IndexOf(Added(t, slot, name, sector), Key(name)) == slot
    ensures forall key :: key != Key(name) ==> IndexOf(Added(t, slot, name, sector), key) == IndexOf(t, key)
  {
    var u := Added(t, slot, name, sector);
    StrNCopyKey(t[slot].name, name);
    assert HasKey(u[slot], Key(name));
    forall i | 0 <= i < |t| && i != slot && t[i].inUse
      ensures t[i].name[..FileNameMaxLen] != u[slot].name[..FileNameMaxLen]
    {
      assert !HasKey(t[i], Key(name));
    }
    assert forall i :: 0 <= i < |t| && i != slot ==> u[i] == t[i];
    forall key | key != Key(name) ensures IndexOf(u, key) == IndexOf(t, key) {
      var i, j := IndexOf(t, key), IndexOf(u, key);
      if i != -1 { assert HasKey(u[i], key); }
      if j != -1 { assert HasKey(t[j], key); }
    }
  }

  /** Removing a name keeps the table valid and unfiles exactly that name. */
  lemma RemovedKeeps(t: seq<DirEntry>, i: nat)
    requires ValidTable(t) && i < |t| && t[i].inUse
    ensures var u := t[i := t[i].(inUse := false)];
            && ValidTable(u)
            && IndexOf(u, t[i].name[..FileNameMaxLen]) == -1
            && forall key :: key != t[i].name[..FileNameMaxLen] ==> IndexOf(u, key) == IndexOf(t, key)
  {
    var u := t[i := t[i].(inUse := false)];
    forall k | 0 <= k < |t| ensures !HasKey(u[k], t[i].name[..FileNameMaxLen]) {
      if k < i { assert t[k].inUse ==> t[k].name[..FileNameMaxLen] != t[i].name[..FileNameMaxLen]; }
      if k > i { assert t[k].inUse ==> t[i].name[..FileNameMaxLen] != t[k].name[..FileNameMaxLen]; }
    }
    forall key | key != t[i].name[..FileNameMaxLen] ensures IndexOf(u, key) == IndexOf(t, key) {
      var j, k := IndexOf(t, key), IndexOf(u, key);
      if j != -1 { assert HasKey(u[j], key); }
      if k != -1 { assert HasKey(t[k], key); }
    }
  }

  ghost predicate NoneInUse(t: seq<DirEntry>) {
    forall i :: 0 <= i < |t| ==> !t[i].inUse
  }

  class Directory {
    var table: seq<DirEntry>

    /** An empty directory; the other fields of its entries hold whatever memory held. */
    constructor (leftover: seq<DirEntry>)
      requires EncodableTable(leftover)
      ensures ValidTable(table) && |table| == |leftover| && NoneInUse(table)
      ensures forall i :: 0 <= i < |table| ==> table[i] == leftover[i].(inUse := false)
    {
      table := leftover;
      new;
      var i := 0;
      while i < |table|
        invariant 0 <= i <= |table| == |leftover|
        invariant forall k :: 0 <= k < |table| ==>
                    table[k] == if k < i then leftover[k].(inUse := false) else leftover[k]
      {
        table := table[i := table[i].(inUse := false)];
        i := i + 1;
      }
    }

    /** The directory stored in the bytes of the directory file. */
    constructor Fetch(b: seq<Byte>)
      requires |b| == DirectoryFileSize
      ensures table == TableOf(b)
    {
      table := TableOf(b);
    }

    method FindIndex(name: seq<Byte>) returns (r: int)
      requires ValidTable(table) && CString(name)
      ensures r == IndexOf(table, Key(name))
    {
      var i := 0;
      while i < |table|
        invariant 0 <= i <= |table|
        invariant forall k :: 0 <= k < i ==> !HasKey(table[k], Key(name))
      {
        if table[i].inUse {
          StrNEqualKey(table[i].name, name);
          if StrNEqual(table[i].name, name, 0) {
            assert HasKey(table[i], Key(name));
            return i;
          }
        }
        i := i + 1;
      }
      return -1;
    }

    method Find(name: seq<Byte>) returns (sector: int)
      requires ValidTable(table) && CString(name)
      ensures var i := IndexOf(table, Key(name));
              sector == if i == -1 then -1 else table[i].sector
    {
      var i := FindIndex(name);
      if i != -1 {
        return table[i].sector;
      }
      return -1;
    }

    method Add(name: seq<Byte>, newSector: int) returns (ok: bool)
      requires ValidTable(table) && CString(name) && Int32(newSector)
      modifies this
      ensures ValidTable(table)
      ensures ok <==> IndexOf(old(table), Key(name)) == -1 && UnusedFrom(old(table), 0) != -1
      ensures table == if ok then Added(old(table), UnusedFrom(old(table), 0), name, newSector) else old(table)
    {
      var found := FindIndex(name);
      if found != -1 {
        return false;
      }
      var i := 0;
      while i < |table|
        invariant 0 <= i <= |table| && table == old(table)
        invariant forall k :: 0 <= k < i ==> table[k].inUse
      {
        if !table[i].inUse {
          AddedKeeps(table, i, name, newSector);
          table := Added(table, i, name, newSector);
          return true;
        }
        i := i + 1;
      }
      return false;
    }

    method Remove(name: seq<Byte>) returns (ok: bool)
      requires ValidTable(table) && CString(name)
      modifies this
      ensures ValidTable(table)
      ensures var i := IndexOf(old(table), Key(name));
              && (ok <==> i != -1)
              && table == if ok then old(table)[i := old(table)[i].(inUse := false)] else old(table)
    {
      var i := FindIndex(name);
      if i == -1 {
        return false;
      }
      RemovedKeeps(table, i);
      table := table[i := table[i].(inUse := false)];
      return true;
    }
  }
}
