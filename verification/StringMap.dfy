/** The string map of strmap.c: a singly linked list with the newest key first. */
module StringMaps {
  import opened Options

  datatype Entry = Entry(key: string, value: string)

  /** The position of the first entry named `key`, or the number of entries. */
  function Find(es: seq<Entry>, key: string): (i: nat)
    ensures i <= |es|
    ensures i < |es| ==> es[i].key == key
    ensures forall j :: 0 <= j < i ==> es[j].key != key
  {
    if es == [] || es[0].key == key then 0 else 1 + Find(es[1..], key)
  }

  function Bound(es: seq<Entry>, key: string): Option<string> {
    if Find(es, key) < |es| then Some(es[Find(es, key)].value) else None
  }

  function WithPut(es: seq<Entry>, key: string, value: string): seq<Entry> {
    var i := Find(es, key);
    if i < |es| then es[i := Entry(key, value)] else [Entry(key, value)] + es
  }

  function Skipped<T>(s: seq<T>, i: nat): (t: seq<T>)
    requires i < |s|
    ensures |t| == |s| - 1 && forall j :: 0 <= j < |t| ==> t[j] == s[if j < i then j else j + 1]
  {
    s[..i] + s[i + 1..]
  }

  function WithRemoved(es: seq<Entry>, key: string): seq<Entry> {
    var i := Find(es, key);
    if i < |es| then Skipped(es, i) else es
  }

  ghost predicate DistinctKeys(es: seq<Entry>) {
    forall i, j :: 0 <= i < j < |es| ==> es[i].key != es[j].key
  }

  lemma FindIs(es: seq<Entry>, key: string, i: nat)
    requires i <= |es| && (i < |es| ==> es[i].key == key) && forall j :: 0 <= j < i ==> es[j].key != key
    ensures Find(es, key) == i
  {
  }

  /** A put binds its key and nothing else. */
  lemma BoundAfterPut(es: seq<Entry>, key: string, value: string, other: string)
    ensures Bound(WithPut(es, key, value), other) == if other == key then Some(value) else Bound(es, other)
  {
    var i, es' := Find(es, key), WithPut(es, key, value);
    if other == key {
      FindIs(es', key, if i < |es| then i else 0);
    } else {
      FindIs(es', other, if i < |es| then Find(es, other) else Find(es, other) + 1);
    }
  }

  /** A removal unbinds its key and nothing else. */
  lemma BoundAfterRemove(es: seq<Entry>, key: string, other: string)
    requires DistinctKeys(es)
    ensures Bound(WithRemoved(es, key), other) == if other == key then None else Bound(es, other)
  {
    var i, k, es' := Find(es, key), Find(es, other), WithRemoved(es, key);
    if i < |es| {
      FindIs(es', other, if other == key then |es'| else if k < i then k else k - 1);
    }
  }

  class MapNode {
    const key: string
    var value: string
    var next: MapNode?

    constructor (key: string, value: string, next: MapNode?)
      ensures this.key == key && this.value == value && this.next == next
    {
      this.key := key;
      this.value := value;
      this.next := next;
    }
  }

  class StringMap {
    var head: MapNode?
    var size: nat
    /** The nodes from the head on, and what they hold. */
    ghost var spine: seq<MapNode>
    ghost var entries: seq<Entry>
    ghost var repr: set<object>

    ghost predicate Valid()
      reads this, repr
    {
      && this in repr && Owned(spine, repr)
      && size == |spine| == |entries|
      && Linked(spine, head)
      && Unshared(spine)
      && DistinctKeys(entries)
      && Shows(spine, entries)
    }

    constructor ()
      ensures Valid() && entries == [] && fresh(repr)
    {
      head := null;
      size := 0;
      spine := [];
      entries := [];
      repr := {this};
    }

    /** string_map_put: an old key gets the new value in place, a new one goes to the front. */
    method Put(key: string, value: string)
      requires Valid()
      modifies repr
      ensures Valid() && entries == WithPut(old(entries), key, value) && fresh(repr - old(repr))
    {
      hide WithPut, Unshared, DistinctKeys;
      var current := head;
      ghost var i := 0;
      while current != null && current.key != key
        invariant 0 <= i <= |spine| && current == NodeAt(spine, i)
        invariant forall j :: 0 <= j < i ==> entries[j].key != key
        decreases |spine| - i
      {
        current := current.next;
        i := i + 1;
      }
      FindIs(entries, key, i);
      PutKeepsDistinct(entries, key, value);
      if current != null {
        Replace(current, value, i);
      } else {
        Prepend(key, value);
      }
    }

    method Replace(current: MapNode, value: string, ghost i: nat)
      requires Valid() && i < |spine| && spine[i] == current && Find(entries, current.key) == i
      modifies this`entries, current`value
      ensures Valid() && entries == WithPut(old(entries), current.key, value)
    {
      hide DistinctKeys;
      PutKeepsDistinct(entries, current.key, value);
      current.value := value;
      entries := WithPut(entries, current.key, value);
    }

    method Prepend(key: string, value: string)
      requires Valid() && Find(entries, key) == |entries|
      modifies this
      ensures Valid() && entries == WithPut(old(entries), key, value)
      ensures fresh(repr - old(repr))
    {
      hide DistinctKeys, Linked, Shows, Unshared, Owned;
      PutKeepsDistinct(entries, key, value);
      assert forall n :: n in spine ==> n in repr by { OwnedAre(spine, repr); }
      var node := new MapNode(key, value, head);
      Prepended(node, spine, head, entries, repr);
      head := node;
      size := size + 1;
      spine := [node] + spine;
      repr := repr + {node};
      entries := [Entry(key, value)] + entries;
    }

    /** string_map_get. */
    method Get(key: string) returns (r: Option<string>)
      requires Valid()
      ensures r == Bound(entries, key)
    {
      var current := head;
      ghost var i := 0;
      while current != null && current.key != key
        invariant 0 <= i <= |spine| && current == NodeAt(spine, i)
        invariant forall j :: 0 <= j < i ==> entries[j].key != key
        decreases |spine| - i
      {
        current := current.next;
        i := i + 1;
      }
      FindIs(entries, key, i);
      r := if current == null then None else Some(current.value);
    }

    /** The head moves on. */
    method UnlinkHead()
      requires Valid() && head != null
      modifies this
      ensures Valid() && entries == Skipped(old(entries), 0)
      ensures repr == old(repr)
    {
      hide Unshared, Skipped, DistinctKeys, Owned;
      SkippedIsDistinct(entries, 0);
      UnsharedWithout(spine, 0);
      head := head.next;
      size := size - 1;
      spine := Skipped(spine, 0);
      entries := Skipped(entries, 0);
    }

    /** The node before the one that goes skips it. */
    method UnlinkAfter(prev: MapNode, current: MapNode, ghost i: nat)
      requires Valid() && 0 < i < |spine| && spine[i] == current && prev == spine[i - 1]
      modifies this, prev`next
      ensures Valid() && entries == Skipped(old(entries), i)
      ensures repr == old(repr)
    {
      hide Unshared, Skipped, DistinctKeys, Shows;
      SkippedIsDistinct(entries, i);
      UnsharedWithout(spine, i);
      AloneInSpine(spine, i);
      prev.next := current.next;
      SkippedIsLinked(spine, i, head);
      SkippedShows(spine, entries, i);
      size := size - 1;
      spine := Skipped(spine, i);
      entries := Skipped(entries, i);
    }

    /** string_map_remove: the node before the entry, or the head, skips it. */
    method Remove(key: string)
      requires Valid()
      modifies repr
      ensures Valid() && entries == WithRemoved(old(entries), key) && repr == old(repr)
    {
      hide Unshared, Skipped, DistinctKeys;
      var current := head;
      var prev: MapNode? := null;
      ghost var i := 0;
      while current != null && current.key != key
        invariant 0 <= i <= |spine| && current == NodeAt(spine, i)
        invariant prev == if i == 0 then null else spine[i - 1]
        invariant forall j :: 0 <= j < i ==> entries[j].key != key
        decreases |spine| - i
      {
        prev := current;
        current := current.next;
        i := i + 1;
      }
      FindIs(entries, key, i);
      if current != null {
        if prev == null {
          UnlinkHead();
        } else {
          UnlinkAfter(prev, current, i);
        }
      }
    }
  }

  lemma PutKeepsDistinct(es: seq<Entry>, key: string, value: string)
    requires DistinctKeys(es)
    ensures DistinctKeys(WithPut(es, key, value))
  {
  }

  lemma SkippedIsDistinct(es: seq<Entry>, i: nat)
    requires i < |es| && DistinctKeys(es)
    ensures DistinctKeys(Skipped(es, i))
  {
  }

  ghost predicate Unshared(spine: seq<MapNode>) {
    forall i, j :: 0 <= i < j < |spine| ==> spine[i] != spine[j]
  }

  ghost predicate Owned(spine: seq<MapNode>, repr: set<object>) {
    forall i :: 0 <= i < |spine| ==> spine[i] in repr
  }

  lemma UnsharedWithout(spine: seq<MapNode>, i: nat)
    requires i < |spine| && Unshared(spine)
    ensures Unshared(Skipped(spine, i))
    ensures forall repr :: Owned(spine, repr) ==> Owned(Skipped(spine, i), repr)
  {
  }

  lemma AloneInSpine(spine: seq<MapNode>, i: nat)
    requires Unshared(spine) && 0 < i < |spine|
    ensures forall j :: 0 <= j < |spine| && j + 1 != i ==> spine[j] != spine[i - 1]
  {
  }

  lemma SkippedIsLinked(spine: seq<MapNode>, i: nat, head: MapNode?)
    requires 0 < i < |spine| && head == spine[0] && spine[i - 1].next == NodeAt(spine, i + 1)
    requires forall k :: 0 <= k < |spine| && k + 1 != i ==> spine[k].next == NodeAt(spine, k + 1)
    ensures Linked(Skipped(spine, i), head)
  {
    hide Skipped;
    var spine' := Skipped(spine, i);
    forall j | 0 <= j < |spine'| ensures spine'[j].next == NodeAt(spine', j + 1) {
      assert spine'[j] == spine[if j < i then j else j + 1];
    }
  }

  lemma SkippedShows(spine: seq<MapNode>, entries: seq<Entry>, i: nat)
    requires i < |spine| == |entries| && Shows(spine, entries)
    ensures Shows(Skipped(spine, i), Skipped(entries, i))
  {
    hide Skipped;
  }

  ghost predicate Shows(spine: seq<MapNode>, entries: seq<Entry>)
    requires |spine| == |entries|
    reads spine`value
  {
    forall i :: 0 <= i < |spine| ==> entries[i] == Entry(spine[i].key, spine[i].value)
  }

  lemma OwnedAre(spine: seq<MapNode>, repr: set<object>)
    requires Owned(spine, repr)
    ensures forall n :: n in spine ==> n in repr
  {
  }

  /** A new node before the head of a list. */
  lemma Prepended(node: MapNode, spine: seq<MapNode>, head: MapNode?, entries: seq<Entry>, repr: set<object>)
    requires |spine| == |entries| && node !in repr && node.next == head
    requires Owned(spine, repr) && Linked(spine, head) && Unshared(spine) && Shows(spine, entries)
    ensures Owned([node] + spine, repr + {node}) && Unshared([node] + spine) && Linked([node] + spine, node)
    ensures Shows([node] + spine, [Entry(node.key, node.value)] + entries)
  {
    forall i | 0 < i <= |spine| ensures ([node] + spine)[i].next == NodeAt([node] + spine, i + 1) {
      assert spine[i - 1].next == NodeAt(spine, i);
    }
  }

  ghost function NodeAt(spine: seq<MapNode>, i: nat): MapNode? {
    if i < |spine| then spine[i] else null
  }

  ghost predicate Linked(spine: seq<MapNode>, head: MapNode?)
    reads spine`next
  {
    head == NodeAt(spine, 0) && forall i :: 0 <= i < |spine| ==> spine[i].next == NodeAt(spine, i + 1)
  }
}
