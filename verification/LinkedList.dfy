/**
 List of threads/list.h: a singly linked list with first and last pointers, used both
 as a queue and, through the Sorted operations, as a priority queue.
 */
module LinkedList {
  import opened Basics

  // ---------------------------------------------------------------- the abstract list

  datatype Keyed<T> = Keyed(key: int, item: T)

  /** Insertion in front of the first element with a larger key. */
  function Inserted<T>(c: seq<Keyed<T>>, x: Keyed<T>): (r: seq<Keyed<T>>)
    ensures |r| == |c| + 1
  {
    if c == [] || x.key < c[0].key then [x] + c else [c[0]] + Inserted(c[1..], x)
  }

  predicate Sorted<T>(c: seq<Keyed<T>>) {
    forall i, j :: 0 <= i < j < |c| ==> c[i].key <= c[j].key
  }

  /** Where the insertion goes: `i` elements, none larger, stay in front, and the
      element behind, if any, is larger. */
  lemma {:induction false} InsertedAt<T>(c: seq<Keyed<T>>, x: Keyed<T>, i: nat)
    requires i <= |c| && (forall k :: 0 <= k < i ==> c[k].key <= x.key) && (i < |c| ==> x.key < c[i].key)
    ensures Inserted(c, x) == c[..i] + [x] + c[i..]
  {
    if i > 0 {
      var t := c[1..];
      InsertedAt(t, x, i - 1);
      assert c[..i] == [c[0]] + t[..i - 1];
      assert c[i..] == t[i - 1..];
      assert [c[0]] + (t[..i - 1] + [x] + t[i - 1..]) == c[..i] + [x] + c[i..];
    }
  }

  /** Where a sorted list takes an element. */
  lemma {:induction false} InsertionPoint<T>(c: seq<Keyed<T>>, x: Keyed<T>) returns (i: nat)
    ensures i <= |c| && (forall k :: 0 <= k < i ==> c[k].key <= x.key) && (i < |c| ==> x.key < c[i].key)
  {
    i := 0;
    if c != [] && c[0].key <= x.key {
      i := InsertionPoint(c[1..], x);
      i := i + 1;
      assert forall k :: 0 < k < i ==> c[k] == c[1..][k - 1];
    }
  }

  /** Insertion keeps a sorted list sorted and adds exactly the new element. */
  lemma {:induction false} InsertedSorted<T>(c: seq<Keyed<T>>, x: Keyed<T>)
    requires Sorted(c)
    ensures Sorted(Inserted(c, x))
    ensures multiset(Inserted(c, x)) == multiset(c) + multiset{x}
  {
    var i := InsertionPoint(c, x);
    InsertedAt(c, x, i);
    PlacedSorted(c, x, i);
    PlacedOnce(c, x, i);
  }

  lemma PlacedOnce<T>(c: seq<T>, x: T, i: nat)
    requires i <= |c|
    ensures multiset(c[..i] + [x] + c[i..]) == multiset(c) + multiset{x}
  {
    assert c == c[..i] + c[i..];
  }

  lemma {:induction false} PlacedSorted<T>(c: seq<Keyed<T>>, x: Keyed<T>, i: nat)
    requires Sorted(c) && i <= |c|
    requires (forall k :: 0 <= k < i ==> c[k].key <= x.key) && (i < |c| ==> x.key < c[i].key)
    ensures Sorted(c[..i] + [x] + c[i..])
  {
    var r := c[..i] + [x] + c[i..];
    forall a, b | 0 <= a < b < |r| ensures r[a].key <= r[b].key {
      var a', b' := if a < i then a else a - 1, if b < i then b else b - 1;
      assert a != i ==> r[a] == c[a'];
      assert b != i ==> r[b] == c[b'];
      assert b > i ==> c[i].key <= c[b'].key;
    }
  }

  // ---------------------------------------------------------------- the linked list

  class ListElement<T> {
    var next: ListElement?<T>
    var key: int
    var item: T

    constructor (anItem: T, sortKey: int)
      ensures item == anItem && key == sortKey && next == null
    {
      item, key, next := anItem, sortKey, null;
    }
  }

  class List<T> {
    var first: ListElement?<T>
    var last: ListElement?<T>
    ghost var spine: seq<ListElement<T>>
    ghost var contents: seq<Keyed<T>>

    ghost predicate Valid()
      reads this, spine
    {
      && Linked()
      && |contents| == |spine|
      && (forall i :: 0 <= i < |spine| ==> contents[i] == Keyed(spine[i].key, spine[i].item))
    }

    /** The pointers run along the spine. */
    ghost predicate Linked()
      reads this, spine
    {
      && (first == null <==> spine == [])
      && (spine != [] ==> first == spine[0] && last == spine[|spine| - 1] && last.next == null)
      && (forall i :: 0 < i < |spine| ==> spine[i - 1].next == spine[i])
      && (forall i, j :: 0 <= i < j < |spine| ==> spine[i] != spine[j])
    }

    constructor ()
      ensures Valid() && contents == [] && spine == []
    {
      first, last, spine, contents := null, null, [], [];
    }

    method Append(item: T)
      requires Valid()
      modifies this, spine
      ensures Valid() && fresh(set n | n in spine && n !in old(spine))
      ensures contents == old(contents) + [Keyed(0, item)]
    {
      var element := new ListElement(item, 0);
      if first == null {
        first, last := element, element;
      } else {
        last.next := element;
        last := element;
      }
      spine := spine + [element];
      contents := contents + [Keyed(0, item)];
    }

    method SortedInsert(item: T, sortKey: int)
      requires Valid()
      modifies this, spine
      ensures Valid() && fresh(set n | n in spine && n !in old(spine))
      ensures contents == Inserted(old(contents), Keyed(sortKey, item))
    {
      var element := new ListElement(item, sortKey);
      ghost var x := Keyed(sortKey, item);
      if first == null {
        first, last, spine, contents := element, element, [element], [x];
      } else if sortKey < first.key {
        element.next := first;
        first := element;
        spine, contents := [element] + spine, [x] + contents;
      } else {
        InsertBehind(element);
      }
    }

    /** The last branch of SortedInsert: some element stays in front of the new one. */
    method InsertBehind(element: ListElement<T>)
      requires Valid() && spine != [] && spine[0].key <= element.key && element !in spine && element.next == null
      modifies this`last, this`spine, this`contents, spine, element`next
      ensures Valid() && forall n :: n in spine ==> n == element || n in old(spine)
      ensures contents == Inserted(old(contents), Keyed(element.key, element.item))
    {
      var ptr, i := FindPlace(element.key);
      ghost var x := Keyed(element.key, element.item);
      InsertedAt(contents, x, i + 1);
      LinkAfter(ptr, element, i);
      contents := contents[..i + 1] + [x] + contents[i + 1..];
      forall k | 0 <= k < |spine| ensures contents[k] == Keyed(spine[k].key, spine[k].item) {
        assert k <= i ==> spine[k] == old(spine)[k] && contents[k] == old(contents)[k];
        assert k > i + 1 ==> spine[k] == old(spine)[k - 1] && contents[k] == old(contents)[k - 1];
      }
    }

    /** The search loop of SortedInsert: the last element before one with a larger key. */
    method FindPlace(sortKey: int) returns (ptr: ListElement<T>, ghost i: nat)
      requires Valid() && spine != [] && spine[0].key <= sortKey
      ensures i < |spine| && ptr == spine[i]
      ensures forall k :: 0 <= k <= i ==> spine[k].key <= sortKey
      ensures i + 1 < |spine| ==> sortKey < spine[i + 1].key
    {
      ptr, i := first, 0;
      while ptr.next != null && !(sortKey < ptr.next.key)
        invariant i < |spine| && ptr == spine[i]
        invariant forall k :: 0 <= k <= i ==> spine[k].key <= sortKey
        decreases |spine| - i
      {
        assert i + 1 < |spine| && spine[i].next == spine[i + 1];
        ptr, i := ptr.next, i + 1;
      }
      assert i + 1 < |spine| ==> spine[i].next == spine[i + 1];
    }

    /** Relink so that `element` follows `ptr`. */
    method LinkAfter(ptr: ListElement<T>, element: ListElement<T>, ghost i: nat)
      requires Linked() && i < |spine| && ptr == spine[i] && element !in spine && element.next == null
      modifies this`last, this`spine, ptr`next, element`next
      ensures Linked() && spine == old(spine[..i + 1] + [element] + spine[i + 1..])
    {
      assert i + 1 < |spine| ==> spine[i].next == spine[i + 1];
      if ptr.next != null {
        element.next := ptr.next;
        ptr.next := element;
      } else {
        last.next := element;
        last := element;
      }
      spine := spine[..i + 1] + [element] + spine[i + 1..];
    }

    /** SortedRemove; Remove is the same with the key ignored. */
    method SortedRemove() returns (r: Option<Keyed<T>>)
      requires Valid()
      modifies this
      ensures Valid() && forall n :: n in spine ==> n in old(spine)
      ensures old(contents) == [] ==> r == None && contents == []
      ensures old(contents) != [] ==> r == Some(old(contents)[0]) && contents == old(contents)[1..]
    {
      if first == null {
        return None;
      }
      var element := first;
      assert first == last ==> |spine| == 1;
      assert |spine| > 1 ==> spine[0].next == spine[1];
      r := Some(Keyed(element.key, element.item));
      if first == last {
        first, last := null, null;
      } else {
        first := element.next;
      }
      spine, contents := spine[1..], contents[1..];
    }
  }
}
