/**
 The singly linked list with first and last pointers (threads/list.cc), under the ready list,
 the semaphore queues and the pending interrupts.  Its value is the sequence of its keys and items.
 */
module LinkedLists {
  import opened Associations

  datatype Keyed<+T> = Keyed(key: int, item: T)

  ghost predicate Sorted<T>(s: seq<Keyed<T>>) {
    forall i, j :: 0 <= i < j < |s| ==> s[i].key <= s[j].key
  }

  /** x goes in front of the first element with a greater key. */
  function Insert<T>(s: seq<Keyed<T>>, x: Keyed<T>): seq<Keyed<T>> {
    if s == [] || x.key < s[0].key then [x] + s else [s[0]] + Insert(s[1..], x)
  }

  /** The number of elements x is placed behind. */
  ghost function InsertIndex<T>(s: seq<Keyed<T>>, x: Keyed<T>): (k: nat)
    ensures k <= |s|
  {
    if s == [] || x.key < s[0].key then 0 else 1 + InsertIndex(s[1..], x)
  }

  /** Insert adds exactly x, at one place, in front of a greater key and behind all that are not. */
  lemma {:induction false} InsertSplits<T>(s: seq<Keyed<T>>, x: Keyed<T>)
    ensures var k := InsertIndex(s, x);
            && Insert(s, x) == s[..k] + [x] + s[k..]
            && (forall i :: 0 <= i < k ==> s[i].key <= x.key)
            && (k < |s| ==> x.key < s[k].key)
  {
    var k := InsertIndex(s, x);
    if s == [] || x.key < s[0].key {
      assert s[..0] + [x] + s[0..] == [x] + s;
    } else {
      InsertSplits(s[1..], x);
      assert s[..k] == [s[0]] + s[1..][..k - 1];
      assert s[k..] == s[1..][k - 1..];
    }
  }

  /** Insertion keeps a sorted list sorted, and puts x behind every equal key. */
  lemma InsertSorted<T>(s: seq<Keyed<T>>, x: Keyed<T>)
    requires Sorted(s)
    ensures Sorted(Insert(s, x))
    ensures forall i :: InsertIndex(s, x) <= i < |s| ==> x.key < s[i].key
  {
    InsertSplits(s, x);
  }

  /** Insertion neither loses nor duplicates an element. */
  lemma InsertMultiset<T>(s: seq<Keyed<T>>, x: Keyed<T>)
    ensures multiset(Insert(s, x)) == multiset(s) + multiset{x}
  {
    var k := InsertIndex(s, x);
    InsertSplits(s, x);
    assert s == s[..k] + s[k..];
  }

  /** The position found by a scan is where Insert puts x. */
  lemma {:induction false} InsertAt<T>(s: seq<Keyed<T>>, x: Keyed<T>, k: nat)
    requires k <= |s|
    requires forall i :: 0 <= i < k ==> s[i].key <= x.key
    requires k < |s| ==> x.key < s[k].key
    ensures Insert(s, x) == s[..k] + [x] + s[k..]
  {
    if k == 0 {
      assert s[..0] + [x] + s[0..] == [x] + s;
    } else {
      InsertAt(s[1..], x, k - 1);
      assert s[..k] == [s[0]] + s[1..][..k - 1];
      assert s[k..] == s[1..][k - 1..];
    }
  }

  /** Element by element, what putting x in between numbers k and k + 1 does. */
  lemma Between<X>(s: seq<X>, k: nat, x: X)
    requires k + 1 < |s|
    ensures var t := s[..k + 1] + [x] + s[k + 1..];
            && |t| == |s| + 1 && t[k + 1] == x
            && (forall i :: 0 <= i <= k ==> t[i] == s[i])
            && (forall i :: k + 1 < i < |t| ==> t[i] == s[i - 1])
  {
  }

  class ListElement<T> {
    var next: ListElement?<T>
    const key: int
    const item: T

    constructor (item: T, key: int)
      ensures this.item == item && this.key == key && next == null
    {
      this.item, this.key := item, key;
      next := null;
    }
  }

  class List<T> {
    var first: ListElement?<T>
    var last: ListElement?<T>
    ghost var spine: seq<ListElement<T>>

    ghost function Nodes(): set<object>
      reads this
    {
      set e | e in spine
    }

    ghost predicate Valid()
      reads this, Nodes()
    {
      && (spine == [] ==> first == null && last == null)
      && (spine != [] ==> first == spine[0] && last == spine[|spine| - 1] && last.next == null)
      && (forall i :: 0 <= i < |spine| - 1 ==> spine[i].next == spine[i + 1])
      && (forall i, j :: 0 <= i < j < |spine| ==> spine[i] != spine[j])
    }

    ghost function Contents(): (s: seq<Keyed<T>>)
      reads this
      ensures |s| == |spine|
    {
      seq(|spine|, i requires 0 <= i < |spine| reads this => Keyed(spine[i].key, spine[i].item))
    }

    constructor ()
      ensures Valid() && Contents() == [] && spine == []
    {
      first, last, spine := null, null, [];
    }

    method IsEmpty() returns (r: bool)
      requires Valid()
      ensures r <==> Contents() == []
    {
      r := first == null;
    }

    method Append(item: T)
      requires Valid()
      modifies this, Nodes()
      ensures Valid() && Contents() == old(Contents()) + [Keyed(0, item)]
      ensures fresh(Nodes() - old(Nodes()))
    {
      var element := new ListElement(item, 0);
      if first == null {
        first := element;
        last := element;
      } else {
        last.next := element;
        last := element;
      }
      spine := spine + [element];
    }

    method Prepend(item: T)
      requires Valid()
      modifies this, Nodes()
      ensures Valid() && Contents() == [Keyed(0, item)] + old(Contents())
      ensures fresh(Nodes() - old(Nodes()))
    {
      var element := new ListElement(item, 0);
      if first == null {
        first := element;
        last := element;
      } else {
        element.next := first;
        first := element;
      }
      spine := [element] + spine;
    }

    /** Removes the first element; None says the list was empty. */
    method SortedRemove() returns (r: Option<Keyed<T>>)
      requires Valid()
      modifies this
      ensures Valid()
      ensures r == if old(Contents()) == [] then None else Some(old(Contents())[0])
      ensures Contents() == if old(Contents()) == [] then [] else old(Contents())[1..]
      ensures Nodes() <= old(Nodes())
    {
      if first == null {
        return None;
      }
      var element := first;
      if first == last {
        first := null;
        last := null;
      } else {
        first := element.next;
      }
      r := Some(Keyed(element.key, element.item));
      spine := spine[1..];
    }

    method Remove() returns (r: Option<T>)
      requires Valid()
      modifies this
      ensures Valid()
      ensures r == if old(Contents()) == [] then None else Some(old(Contents())[0].item)
      ensures Contents() == if old(Contents()) == [] then [] else old(Contents())[1..]
      ensures Nodes() <= old(Nodes())
    {
      var x := SortedRemove();
      r := if x.None? then None else Some(x.value.item);
    }

    method SortedInsert(item: T, sortKey: int)
      requires Valid()
      modifies this, Nodes()
      ensures Valid() && Contents() == Insert(old(Contents()), Keyed(sortKey, item))
      ensures fresh(Nodes() - old(Nodes()))
    {
      var element := new ListElement(item, sortKey);
      ghost var s, x := Contents(), Keyed(sortKey, item);
      if first == null {
        first := element;
        last := element;
        spine := [element];
      } else if sortKey < first.key {
        element.next := first;
        first := element;
        spine := [element] + spine;
        InsertAt(s, x, 0);
      } else {
        var ptr, k := FindPlace(sortKey);
        InsertAt(s, x, k + 1);
        if ptr.next != null {
          LinkMiddle(ptr, element, k);
        } else {
          LinkLast(element);
          assert s[..k + 1] == s && s[k + 1..] == [];
        }
      }
    }

    /** Links a new element in between elements number k and k + 1. */
    method LinkMiddle(ptr: ListElement<T>, element: ListElement<T>, ghost k: nat)
      requires Valid() && k + 1 < |spine| && ptr == spine[k] && element !in spine
      modifies this`spine, ptr, element
      ensures Valid() && spine == old(spine[..k + 1] + [element] + spine[k + 1..])
      ensures Contents() == old(Contents()[..k + 1]) + [Keyed(element.key, element.item)] + old(Contents()[k + 1..])
    {
      element.next := ptr.next;
      ptr.next := element;
      ghost var s := spine;
      spine := s[..k + 1] + [element] + s[k + 1..];
      Between(s, k, element);
      forall i | 0 <= i < |spine| - 1 ensures spine[i].next == spine[i + 1] {
        if i > k + 1 {
          assert s[i - 1].next == s[i - 1 + 1];
        } else if i < k {
          assert s[i].next == s[i + 1];
        } else {
          assert s[k + 1] == spine[k + 2];
        }
      }
      assert last == spine[|spine| - 1];
    }

    /** Links a new element in behind the last one. */
    method LinkLast(element: ListElement<T>)
      requires Valid() && spine != [] && element !in spine && element.next == null
      modifies this, last
      ensures Valid() && spine == old(spine) + [element]
      ensures Contents() == old(Contents()) + [Keyed(element.key, element.item)]
    {
      last.next := element;
      last := element;
      spine := spine + [element];
    }

    /** The scan of SortedInsert: the element, number k, behind which sortKey belongs. */
    method FindPlace(sortKey: int) returns (ptr: ListElement<T>, ghost k: nat)
      requires Valid() && first != null && first.key <= sortKey
      ensures k < |spine| && ptr == spine[k]
      ensures forall i :: 0 <= i <= k ==> spine[i].key <= sortKey
      ensures k + 1 < |spine| ==> sortKey < spine[k + 1].key
      ensures ptr.next != null <==> k + 1 < |spine|
    {
      ptr, k := first, 0;
      while ptr.next != null
        invariant 0 <= k < |spine| && ptr == spine[k]
        invariant forall i :: 0 <= i <= k ==> spine[i].key <= sortKey
        invariant k + 1 < |spine| ==> ptr.next == spine[k + 1]
        decreases |spine| - k
      {
        if sortKey < ptr.next.key {
          return;
        }
        ptr := ptr.next;
        k := k + 1;
      }
    }
  }
}
