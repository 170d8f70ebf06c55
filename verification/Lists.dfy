/** `lib/list.hh`: the singly linked list with keys that holds ready threads,
    waiting threads and pending interrupts. */
module Lists {
  datatype Entry<T> = Entry(item: T, key: int)

  // ------------------------------------------------------------ sorted lists as sequences

  /** `a` belongs strictly before `b`, going up or down. */
  predicate Before(up: bool, a: int, b: int) { if up then a < b else a > b }

  ghost predicate Sorted<T>(s: seq<Entry<T>>, up: bool) {
    forall i, j {:trigger s[i], s[j]} :: 0 <= i < j < |s| ==> !Before(up, s[j].key, s[i].key)
  }

  /** Where an entry with `key` goes: before the first entry it precedes strictly. */
  function Place<T>(s: seq<Entry<T>>, key: int, up: bool): (p: nat)
    ensures p <= |s|
    ensures forall i :: 0 <= i < p ==> !Before(up, key, s[i].key)
    ensures p < |s| ==> Before(up, key, s[p].key)
  {
    if s == [] || Before(up, key, s[0].key) then 0 else
      var r := Place(s[1..], key, up);
      assert forall i :: 0 < i <= r && i < |s| ==> s[i] == s[1..][i - 1];
      1 + r
  }

  /** `s` with `e` put in at `p`. */
  function InsertAt<T>(s: seq<T>, p: nat, e: T): (r: seq<T>)
    requires p <= |s|
    ensures |r| == |s| + 1
    ensures forall i {:trigger r[i]} :: 0 <= i < |r| ==> r[i] == if i < p then s[i] else if i == p then e else s[i - 1]
  {
    seq(|s| + 1, i requires 0 <= i < |s| + 1 => if i < p then s[i] else if i == p then e else s[i - 1])
  }

  /** `s` with its `p`th element taken out. */
  function RemoveAt<T>(s: seq<T>, p: nat): (r: seq<T>)
    requires p < |s|
    ensures |r| == |s| - 1
    ensures forall i {:trigger r[i]} :: 0 <= i < |r| ==> r[i] == if i < p then s[i] else s[i + 1]
  {
    seq(|s| - 1, i requires 0 <= i < |s| - 1 => if i < p then s[i] else s[i + 1])
  }

  lemma InsertAtIs<T>(s: seq<T>, p: nat, e: T)
    requires p <= |s|
    ensures InsertAt(s, p, e) == s[..p] + [e] + s[p..] && s == s[..p] + s[p..]
  {
    assert InsertAt(s, p, e) == s[..p] + [e] + s[p..];
  }

  lemma RemoveAtIs<T>(s: seq<T>, p: nat)
    requires p < |s|
    ensures RemoveAt(s, p) == s[..p] + s[p + 1..] && s == s[..p] + [s[p]] + s[p + 1..]
  {
    assert RemoveAt(s, p) == s[..p] + s[p + 1..];
  }

  function Insert<T>(s: seq<Entry<T>>, e: Entry<T>, up: bool): (r: seq<Entry<T>>)
    ensures |r| == |s| + 1
  {
    InsertAt(s, Place(s, e.key, up), e)
  }

  lemma InsertSorted<T>(s: seq<Entry<T>>, e: Entry<T>, up: bool)
    requires Sorted(s, up)
    ensures Sorted(Insert(s, e, up), up)
  {
    var p, r := Place(s, e.key, up), Insert(s, e, up);
    forall i, j {:trigger r[i], r[j]} | 0 <= i < j < |r| ensures !Before(up, r[j].key, r[i].key) {
      if i == p && p < |s| { assert j - 1 == p || !Before(up, s[j - 1].key, s[p].key); }
    }
  }

  lemma InsertKeeps<T>(s: seq<Entry<T>>, e: Entry<T>, up: bool)
    ensures multiset(Insert(s, e, up)) == multiset(s) + multiset{e}
  {
    InsertAtIs(s, Place(s, e.key, up), e);
  }

  /** The entries with one key, in order. */
  function WithKey<T>(s: seq<Entry<T>>, key: int): seq<Entry<T>> {
    if s == [] then [] else WithKey(s[..|s| - 1], key) + if s[|s| - 1].key == key then [s[|s| - 1]] else []
  }

  lemma {:induction false} WithKeyJoin<T>(s: seq<Entry<T>>, t: seq<Entry<T>>, key: int)
    ensures WithKey(s + t, key) == WithKey(s, key) + WithKey(t, key)
  {
    if t == [] {
      assert s + t == s;
    } else {
      var n := |t| - 1;
      WithKeyJoin(s, t[..n], key);
      assert (s + t)[..|s + t| - 1] == s + t[..n];
    }
  }

  lemma {:induction false} WithoutKey<T>(s: seq<Entry<T>>, key: int)
    requires forall i :: 0 <= i < |s| ==> s[i].key != key
    ensures WithKey(s, key) == []
  {
    if s != [] { WithoutKey(s[..|s| - 1], key); }
  }

  /** Insertion is stable: among equal keys the new entry is last, and the order of the
      others does not change. */
  lemma InsertStable<T>(s: seq<Entry<T>>, e: Entry<T>, up: bool, key: int)
    requires Sorted(s, up)
    ensures WithKey(Insert(s, e, up), key) == WithKey(s, key) + if key == e.key then [e] else []
  {
    hide WithKey, Place, InsertAt, Sorted;
    var p := Place(s, e.key, up);
    InsertAtIs(s, p, e);
    StableJoin(s[..p], s[p..], e, key);
    if key == e.key { NotBehind(s, key, up, p); }
  }

  lemma StableJoin<T>(front: seq<Entry<T>>, back: seq<Entry<T>>, e: Entry<T>, key: int)
    ensures WithKey(front + back, key) == WithKey(front, key) + WithKey(back, key)
    ensures WithKey(front + [e] + back, key) == WithKey(front, key) + (if key == e.key then [e] else []) + WithKey(back, key)
  {
    WithKeyJoin(front, back, key);
    WithKeyJoin(front + [e], back, key);
    WithKeyJoin(front, [e], key);
    assert [e][..0] == [];
  }

  lemma NotBehind<T>(s: seq<Entry<T>>, key: int, up: bool, p: nat)
    requires Sorted(s, up) && p == Place(s, key, up)
    ensures WithKey(s[p..], key) == []
  {
    var back := s[p..];
    forall i | 0 <= i < |back| ensures back[i].key != key { assert back[i] == s[p + i]; }
    WithoutKey(back, key);
  }

  /** The head of a sorted list: no entry precedes it, and it is the first of its key. */
  lemma HeadIsFirst<T>(s: seq<Entry<T>>, up: bool)
    requires Sorted(s, up) && s != []
    ensures forall e :: e in s ==> !Before(up, e.key, s[0].key)
    ensures WithKey(s, s[0].key) == [s[0]] + WithKey(s[1..], s[0].key)
  {
    assert s == [s[0]] + s[1..];
    WithKeyJoin([s[0]], s[1..], s[0].key);
    assert [s[0]][..0] == [];
  }

  // ------------------------------------------------------------------ removing by item

  /** The first entry with `item`, or the length. */
  function Position<T(==)>(s: seq<Entry<T>>, item: T): (p: nat)
    ensures p <= |s|
    ensures forall i :: 0 <= i < p ==> s[i].item != item
    ensures p < |s| ==> s[p].item == item
  {
    if s == [] || s[0].item == item then 0 else
      var r := Position(s[1..], item);
      assert forall i :: 0 < i <= r && i < |s| ==> s[i] == s[1..][i - 1];
      1 + r
  }

  function RemoveItem<T(==)>(s: seq<Entry<T>>, item: T): seq<Entry<T>> {
    var p := Position(s, item);
    if p == |s| then s else RemoveAt(s, p)
  }

  lemma RemoveKeeps<T>(s: seq<Entry<T>>, item: T, up: bool)
    ensures Sorted(s, up) ==> Sorted(RemoveItem(s, item), up)
    ensures var p := Position(s, item); multiset(s) == multiset(RemoveItem(s, item)) + if p < |s| then multiset{s[p]} else multiset{}
  {
    var p := Position(s, item);
    if p < |s| { RemoveAtIs(s, p); }
  }

  // ------------------------------------------------------------------------- the class

  class Node<T> {
    var item: T
    var key: int
    var next: Node?<T>

    constructor (item: T, key: int)
      ensures this.item == item && this.key == key && next == null
    {
      this.item, this.key, next := item, key, null;
    }
  }

  ghost predicate NoRepeats<T>(s: seq<T>) {
    forall i, j {:trigger s[i], s[j]} :: 0 <= i < j < |s| ==> s[i] != s[j]
  }

  lemma Differs<T>(s: seq<T>, i: nat)
    requires NoRepeats(s) && i < |s|
    ensures forall j {:trigger s[j]} :: 0 <= j < |s| && j != i ==> s[j] != s[i]
  {
  }

  lemma InsertNoRepeats<T>(s: seq<T>, p: nat, e: T)
    requires NoRepeats(s) && p <= |s| && e !in s
    ensures NoRepeats(InsertAt(s, p, e))
  {
  }

  lemma RemoveNoRepeats<T>(s: seq<T>, p: nat)
    requires NoRepeats(s) && p < |s|
    ensures NoRepeats(RemoveAt(s, p))
  {
  }

  class List<T(==)> {
    var first: Node?<T>
    var last: Node?<T>
    /** The nodes from first to last. */
    ghost var nodes: seq<Node<T>>

    ghost predicate Valid()
      reads this, nodes
    {
      && first == (if nodes == [] then null else nodes[0])
      && last == (if nodes == [] then null else nodes[|nodes| - 1])
      && (forall i {:trigger nodes[i].next} :: 0 <= i < |nodes| ==> nodes[i].next == if i + 1 < |nodes| then nodes[i + 1] else null)
      && NoRepeats(nodes)
    }

    ghost function Contents(): (s: seq<Entry<T>>)
      reads this, nodes
      ensures |s| == |nodes| && forall i {:trigger s[i]} :: 0 <= i < |s| ==> s[i] == Entry(nodes[i].item, nodes[i].key)
    {
      seq(|nodes|, i requires 0 <= i < |nodes| reads this, nodes => Entry(nodes[i].item, nodes[i].key))
    }

    constructor ()
      ensures Valid() && Contents() == [] && nodes == []
    {
      first, last, nodes := null, null, [];
    }

    method IsEmpty() returns (b: bool)
      requires Valid()
      ensures b <==> Contents() == []
    {
      b := first == null;
    }

    method Append(item: T)
      requires Valid()
      modifies this, nodes
      ensures Valid() && Contents() == old(Contents()) + [Entry(item, 0)]
      ensures fresh(set n | n in nodes && n !in old(nodes))
    {
      var element := new Node(item, 0);
      var empty := IsEmpty();
      if empty {
        first := element;
        last := element;
        nodes := [element];
      } else {
        last.next := element;
        last := element;
        nodes := nodes + [element];
      }
      assert Contents() == old(Contents()) + [Entry(item, 0)];
    }

    method Prepend(item: T)
      requires Valid()
      modifies this, nodes
      ensures Valid() && Contents() == [Entry(item, 0)] + old(Contents())
      ensures fresh(set n | n in nodes && n !in old(nodes))
    {
      var element := new Node(item, 0);
      PutFirst(element);
    }

    /** Link a new node in front. */
    method PutFirst(element: Node<T>)
      requires Valid() && element !in nodes && element.next == null
      modifies this, element
      ensures Valid() && nodes == [element] + old(nodes)
      ensures Contents() == [Entry(old(element.item), old(element.key))] + old(Contents())
      ensures element.item == old(element.item) && element.key == old(element.key)
    {
      if first == null {
        first := element;
        last := element;
      } else {
        element.next := first;
        first := element;
      }
      nodes := [element] + nodes;
      assert Contents() == [Entry(old(element.item), old(element.key))] + old(Contents());
    }

    /** Link a new node behind the `i`th. */
    method PutAfter(ptr: Node<T>, element: Node<T>, ghost i: nat)
      requires Valid() && i < |nodes| && ptr == nodes[i] && element !in nodes && element.next == null
      modifies this, ptr, element
      ensures Valid() && nodes == InsertAt(old(nodes), i + 1, element)
      ensures Contents() == InsertAt(old(Contents()), i + 1, Entry(old(element.item), old(element.key)))
    {
      hide NoRepeats;
      InsertNoRepeats(nodes, i + 1, element);
      Differs(nodes, i);
      ghost var s := InsertAt(Contents(), i + 1, Entry(element.item, element.key));
      if ptr.next == null {
        last.next := element;
        last := element;
      } else {
        element.next := ptr.next;
        ptr.next := element;
      }
      nodes := InsertAt(nodes, i + 1, element);
      assert Contents() == s;
    }

    /** The walk of both sorted insertions. */
    method InsertBy(item: T, sortKey: int, up: bool)
      requires Valid()
      modifies this, nodes
      ensures Valid() && Contents() == Insert(old(Contents()), Entry(item, sortKey), up)
      ensures fresh(set n | n in nodes && n !in old(nodes))
    {
      var element := new Node(item, sortKey);
      if first == null || Before(up, sortKey, first.key) {
        PlaceIs(Contents(), sortKey, up, 0);
        PutFirst(element);
      } else {
        var ptr, i := Walk(sortKey, up);
        PutAfter(ptr, element, i);
      }
      assert Contents() == Insert(old(Contents()), Entry(item, sortKey), up);
    }

    /** The last node that does not come after `sortKey`, when the first does not. */
    method Walk(sortKey: int, up: bool) returns (ptr: Node<T>, ghost i: nat)
      requires Valid() && first != null && !Before(up, sortKey, first.key)
      ensures i < |nodes| && ptr == nodes[i] && Place(Contents(), sortKey, up) == i + 1
    {
      hide NoRepeats, Place;
      ghost var s := Contents();
      ptr, i := first, 0;
      while ptr.next != null && !Before(up, sortKey, ptr.next.key)
        invariant i < |nodes| && ptr == nodes[i]
        invariant forall j {:trigger s[j]} :: 0 <= j <= i ==> !Before(up, sortKey, s[j].key)
        decreases |nodes| - i
      {
        ptr := ptr.next;
        i := i + 1;
      }
      assert i + 1 < |nodes| ==> ptr.next == nodes[i + 1] && Before(up, sortKey, s[i + 1].key);
      PlaceIs(s, sortKey, up, i + 1);
    }

    /** Insert keeping the keys increasing. */
    method SortedInsert(item: T, sortKey: int)
      requires Valid()
      modifies this, nodes
      ensures Valid() && Contents() == Insert(old(Contents()), Entry(item, sortKey), true)
      ensures fresh(set n | n in nodes && n !in old(nodes))
    {
      InsertBy(item, sortKey, true);
    }

    /** Insert keeping the keys decreasing. */
    method SortedInsertInverted(item: T, sortKey: int)
      requires Valid()
      modifies this, nodes
      ensures Valid() && Contents() == Insert(old(Contents()), Entry(item, sortKey), false)
      ensures fresh(set n | n in nodes && n !in old(nodes))
    {
      InsertBy(item, sortKey, false);
    }

    method Has(item: T) returns (b: bool)
      requires Valid()
      ensures b <==> exists e :: e in Contents() && e.item == item
    {
      var ptr := first;
      ghost var i, s := 0, Contents();
      while ptr != null
        invariant i <= |nodes| && ptr == if i < |nodes| then nodes[i] else null
        invariant forall j {:trigger s[j]} :: 0 <= j < i ==> s[j].item != item
        decreases |nodes| - i
      {
        if ptr.item == item {
          assert s[i] in s;
          return true;
        }
        ptr := ptr.next;
        i := i + 1;
      }
      return false;
    }

    /** Remove the head, which is returned as a sequence: empty when the list is. */
    method SortedPop() returns (head: seq<Entry<T>>)
      requires Valid()
      modifies this
      ensures Valid() && old(Contents()) == head + Contents() && |head| == (if old(Contents()) == [] then 0 else 1)
      ensures forall i {:trigger nodes[i]} :: 0 <= i < |nodes| ==> nodes[i] in old(nodes)
    {
      var empty := IsEmpty();
      if empty {
        return [];
      }
      var element := first;
      head := [Entry(element.item, element.key)];
      if first == last {
        first, last := null, null;
      } else {
        first := element.next;
      }
      nodes := nodes[1..];
      assert old(Contents()) == head + Contents();
    }

    /** Remove the first entry with `item`, if there is one. */
    method Remove(item: T)
      requires Valid()
      modifies this, nodes
      ensures Valid() && Contents() == RemoveItem(old(Contents()), item)
      ensures forall i {:trigger nodes[i]} :: 0 <= i < |nodes| ==> nodes[i] in old(nodes)
    {
      var ptr, prev, i := Find(item);
      if ptr != null {
        Unlink(ptr, prev, i);
      }
    }

    /** The walk of `Remove`: the first node with `item`, if any, and the one before it. */
    method Find(item: T) returns (ptr: Node?<T>, prev: Node?<T>, ghost i: nat)
      requires Valid()
      ensures i == Position(Contents(), item) && ptr == (if i < |nodes| then nodes[i] else null)
      ensures prev == if i == 0 then null else nodes[i - 1]
    {
      hide Position, NoRepeats;
      ghost var s := Contents();
      ptr, prev, i := first, null, 0;
      while ptr != null && ptr.item != item
        invariant i <= |nodes| && ptr == (if i < |nodes| then nodes[i] else null) && prev == if i == 0 then null else nodes[i - 1]
        invariant forall j {:trigger s[j]} :: 0 <= j < i ==> s[j].item != item
        decreases |nodes| - i
      {
        prev, ptr := ptr, ptr.next;
        i := i + 1;
      }
      PositionIs(s, item, i);
    }

    method Unlink(ptr: Node<T>, prev: Node?<T>, ghost i: nat)
      requires Valid() && i < |nodes| && ptr == nodes[i] && prev == if i == 0 then null else nodes[i - 1]
      modifies this, nodes
      ensures Valid() && Contents() == RemoveAt(old(Contents()), i) && nodes == RemoveAt(old(nodes), i)
    {
      hide NoRepeats;
      ghost var s := RemoveAt(Contents(), i);
      RemoveNoRepeats(nodes, i);
      Differs(nodes, i);
      if i > 0 { Differs(nodes, i - 1); }
      if prev != null {
        prev.next := ptr.next;
      }
      if first == ptr {
        first := ptr.next;
      }
      if last == ptr {
        last := prev;
      }
      nodes := RemoveAt(nodes, i);
      assert Contents() == s;
    }
  }

  lemma PlaceIs<T>(s: seq<Entry<T>>, key: int, up: bool, p: nat)
    requires p <= |s| && (forall i {:trigger s[i]} :: 0 <= i < p ==> !Before(up, key, s[i].key)) && (p < |s| ==> Before(up, key, s[p].key))
    ensures Place(s, key, up) == p
  {
    var q := Place(s, key, up);
    assert q < |s| ==> !(q < p);
    assert p < |s| ==> !(p < q);
  }

  lemma PositionIs<T>(s: seq<Entry<T>>, item: T, p: nat)
    requires p <= |s| && (forall i {:trigger s[i]} :: 0 <= i < p ==> s[i].item != item) && (p < |s| ==> s[p].item == item)
    ensures Position(s, item) == p
  {
    var q := Position(s, item);
    assert q < |s| ==> !(q < p);
    assert p < |s| ==> !(p < q);
  }
}
