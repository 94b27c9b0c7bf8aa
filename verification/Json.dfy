/** JSON values as parson.c holds them, and the finite maps that its objects stand for. */

module Options {
  datatype Option<+T> = None | Some(value: T)
}

/** A JSON value. Text is a sequence of bytes, each written as the character with that code. A number is
    the real a double would round, and an object is the item list of its hash table in storage order. */
module Json {
  import opened Options

  datatype Value =
    | Null
    | Bool(b: bool)
    | Num(x: real)
    | Str(s: string)
    | Arr(items: seq<Value>)
    | Obj(members: seq<Member>)

  datatype Member = Member(key: string, val: Value)

  ghost predicate UniqueKeys(ms: seq<Member>) {
    forall i, j :: 0 <= i < j < |ms| ==> ms[i].key != ms[j].key
  }

  /** The position of the first member named `key`, or `|ms|` when there is none. */
  function IndexOf(ms: seq<Member>, key: string): (i: nat)
    ensures i <= |ms|
    ensures i < |ms| ==> ms[i].key == key
    ensures forall j :: 0 <= j < i ==> ms[j].key != key
  {
    if ms == [] || ms[0].key == key then 0 else 1 + IndexOf(ms[1..], key)
  }

  predicate Has(ms: seq<Member>, key: string) {
    IndexOf(ms, key) < |ms|
  }

  function Get(ms: seq<Member>, key: string): Option<Value> {
    if Has(ms, key) then Some(ms[IndexOf(ms, key)].val) else None
  }

  /** Item order after an insertion of a new key. */
  function Added(ms: seq<Member>, key: string, val: Value): seq<Member> {
    ms + [Member(key, val)]
  }

  /** Item order after a set: an old key keeps its place, a new one goes last. */
  function Assigned(ms: seq<Member>, key: string, val: Value): seq<Member> {
    var i := IndexOf(ms, key);
    if i < |ms| then ms[i := Member(key, val)] else Added(ms, key, val)
  }

  /** `s` without its element `i`: the last element takes the free slot. */
  function SwapOut<T>(s: seq<T>, i: nat): (t: seq<T>)
    requires i < |s|
    ensures |t| == |s| - 1
  {
    var last := |s| - 1;
    if i < last then s[..last][i := s[last]] else s[..last]
  }

  /** Item order after a removal. */
  function Removed(ms: seq<Member>, key: string): seq<Member> {
    if Has(ms, key) then SwapOut(ms, IndexOf(ms, key)) else ms
  }

  ghost function AsMap(ms: seq<Member>): map<string, Value>
    requires UniqueKeys(ms)
  {
    map i | 0 <= i < |ms| :: ms[i].key := ms[i].val
  }

  /** The values parson builds: object keys are C strings and differ from each other. */
  ghost predicate WellFormed(v: Value) {
    match v
    case Arr(items) => forall i :: 0 <= i < |items| ==> WellFormed(items[i])
    case Obj(members) => WellFormedMembers(members)
    case _ => true
  }

  ghost predicate WellFormedMembers(ms: seq<Member>) {
    UniqueKeys(ms) && forall i :: 0 <= i < |ms| ==> '\0' !in ms[i].key && WellFormed(ms[i].val)
  }

  /** How many levels below `v` its deepest value lies. */
  function Level(v: Value): nat {
    match v
    case Arr(items) => ItemsLevel(items)
    case Obj(members) => MembersLevel(members)
    case _ => 0
  }

  function ItemsLevel(items: seq<Value>): nat {
    if items == [] then 0 else Max(1 + Level(items[0]), ItemsLevel(items[1..]))
  }

  function MembersLevel(ms: seq<Member>): nat {
    if ms == [] then 0 else Max(1 + Level(ms[0].val), MembersLevel(ms[1..]))
  }

  function Max(a: nat, b: nat): nat {
    if a < b then b else a
  }

  lemma {:induction false} MembersLevelAtMost(ms: seq<Member>, bound: nat)
    ensures MembersLevel(ms) <= bound <==> forall i :: 0 <= i < |ms| ==> Level(ms[i].val) < bound
  {
    if ms != [] {
      MembersLevelAtMost(ms[1..], bound);
      assert ms == [ms[0]] + ms[1..];
    }
  }

  lemma {:induction false} ItemsLevelAtMost(items: seq<Value>, bound: nat)
    ensures ItemsLevel(items) <= bound <==> forall i :: 0 <= i < |items| ==> Level(items[i]) < bound
  {
    if items != [] {
      ItemsLevelAtMost(items[1..], bound);
      assert items == [items[0]] + items[1..];
    }
  }
}
