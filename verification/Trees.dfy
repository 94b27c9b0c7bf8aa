/** json_validate against the conformance relation its header describes. */
module Validation {
  import opened Json

  predicate SameType(a: Value, b: Value) {
    match a
    case Null => b.Null?
    case Bool(_) => b.Bool?
    case Num(_) => b.Num?
    case Str(_) => b.Str?
    case Arr(_) => b.Arr?
    case Obj(_) => b.Obj?
  }

  /** json_validate. */
  predicate Validate(schema: Value, value: Value)
    decreases schema, 2
  {
    if !SameType(schema, value) && !schema.Null? then false
    else match schema
      case Arr(items) => |items| == 0 || ValidateItems(items[0], value.items)
      case Obj(members) =>
        if |members| == 0 then true
        else if |value.members| < |members| then false
        else ValidateMembers(members, members, value.members)
      case _ => true
  }

  /** The loop over array items. */
  predicate ValidateItems(schema: Value, items: seq<Value>)
    decreases schema, 3, items
  {
    items == [] || (Validate(schema, items[0]) && ValidateItems(schema, items[1..]))
  }

  /** The loop over the keys of the schema `all`, of which `rest` are still to be looked at. */
  predicate ValidateMembers(all: seq<Member>, rest: seq<Member>, members: seq<Member>)
    requires |rest| <= |all| && rest == all[|all| - |rest|..]
    decreases all, 1, rest
  {
    if rest == [] then true
    else
      var key := rest[0].key;
      && Has(members, key)
      && Validate(Get(all, key).value, Get(members, key).value)
      && ValidateMembers(all, rest[1..], members)
  }

  // ---------------------------------------------------------------- what it decides

  /** Fields of the same names and types; the first item of an array schema speaks for all items; an empty
      array or object allows every array or object, and null allows everything. */
  ghost predicate Conforms(schema: Value, value: Value) {
    match schema
    case Null => true
    case Arr(items) =>
      value.Arr? && (items == [] || forall i :: 0 <= i < |value.items| ==> Conforms(items[0], value.items[i]))
    case Obj(members) =>
      value.Obj? && forall i :: 0 <= i < |members| ==> Covers(members[i], value.members)
    case _ => SameType(schema, value)
  }

  /** The member that a schema field asks for is there and conforms. */
  ghost predicate Covers(field: Member, members: seq<Member>) {
    Has(members, field.key) && Conforms(field.val, Get(members, field.key).value)
  }

  function KeySet(ms: seq<Member>): (keys: set<string>)
    ensures forall k :: k in keys <==> exists i :: 0 <= i < |ms| && ms[i].key == k
    ensures |keys| <= |ms|
  {
    if ms == [] then {}
    else
      assert ms == [ms[0]] + ms[1..];
      {ms[0].key} + KeySet(ms[1..])
  }

  lemma {:induction false} UniqueKeyCount(ms: seq<Member>)
    requires UniqueKeys(ms)
    ensures |KeySet(ms)| == |ms|
  {
    if ms != [] {
      var rest := KeySet(ms[1..]);
      UniqueKeyCount(ms[1..]);
      assert ms[0].key !in rest;
      assert KeySet(ms) == {ms[0].key} + rest;
    }
  }

  /** A member list with all the keys of another one is at least as long: the count test of json_validate
      rejects nothing that the member loop would accept. */
  lemma EnoughMembers(fields: seq<Member>, members: seq<Member>)
    requires UniqueKeys(fields) && forall i :: 0 <= i < |fields| ==> Has(members, fields[i].key)
    ensures |fields| <= |members|
  {
    UniqueKeyCount(fields);
    forall k | k in KeySet(fields) ensures k in KeySet(members) {
      assert members[IndexOf(members, k)].key == k;
    }
    assert KeySet(members) == KeySet(fields) + (KeySet(members) - KeySet(fields));
  }

  lemma {:induction false} ItemsIff(schema: Value, items: seq<Value>)
    requires forall i :: 0 <= i < |items| ==> Validate(schema, items[i]) == Conforms(schema, items[i])
    ensures ValidateItems(schema, items) <==> forall i :: 0 <= i < |items| ==> Conforms(schema, items[i])
  {
    if items != [] {
      ItemsIff(schema, items[1..]);
      assert items == [items[0]] + items[1..];
    }
  }

  lemma {:induction false} MembersIff(all: seq<Member>, rest: seq<Member>, members: seq<Member>)
    requires UniqueKeys(all) && |rest| <= |all| && rest == all[|all| - |rest|..]
    requires forall i :: 0 <= i < |all| && Has(members, all[i].key) ==>
               Validate(all[i].val, Get(members, all[i].key).value) ==
               Conforms(all[i].val, Get(members, all[i].key).value)
    ensures ValidateMembers(all, rest, members) <==> forall i :: 0 <= i < |rest| ==> Covers(rest[i], members)
    decreases rest
  {
    hide Validate, Conforms, IndexOf;
    if rest != [] {
      var at := |all| - |rest|;
      assert IndexOf(all, rest[0].key) == at;
      MembersIff(all, rest[1..], members);
      if ValidateMembers(all, rest, members) {
        forall i | 0 <= i < |rest| ensures Covers(rest[i], members) {
          assert i > 0 ==> rest[i] == rest[1..][i - 1];
        }
      }
    }
  }

  /** json_validate decides conformance. */
  lemma {:induction false} ValidateIffConforms(schema: Value, value: Value)
    requires WellFormed(schema)
    ensures Validate(schema, value) <==> Conforms(schema, value)
    decreases schema
  {
    match schema
    case Arr(items) =>
      if items != [] && value.Arr? {
        forall i | 0 <= i < |value.items|
          ensures Validate(items[0], value.items[i]) == Conforms(items[0], value.items[i])
        {
          ValidateIffConforms(items[0], value.items[i]);
        }
        ItemsIff(items[0], value.items);
      }
    case Obj(members) =>
      if value.Obj? {
        forall i | 0 <= i < |members| && Has(value.members, members[i].key)
          ensures Validate(members[i].val, Get(value.members, members[i].key).value) ==
                  Conforms(members[i].val, Get(value.members, members[i].key).value)
        {
          ValidateIffConforms(members[i].val, Get(value.members, members[i].key).value);
        }
        MembersIff(members, members, value.members);
        if Conforms(schema, value) {
          forall i | 0 <= i < |members| ensures Has(value.members, members[i].key) {
            assert Covers(members[i], value.members);
          }
          EnoughMembers(members, value.members);
        }
      }
    case _ =>
  }

  // ---------------------------------------------------------------- transitivity

  /** As a schema, `v` never says "any array". */
  ghost predicate NoOpenArray(v: Value) {
    match v
    case Arr(items) => items != [] && NoOpenArray(items[0])
    case Obj(members) => forall i :: 0 <= i < |members| ==> NoOpenArray(members[i].val)
    case _ => true
  }

  /** A schema with no array open to all items can stand in the middle. */
  lemma {:induction false} ConformsIsTransitive(a: Value, b: Value, c: Value)
    requires Conforms(a, b) && Conforms(b, c) && NoOpenArray(b)
    ensures Conforms(a, c)
    decreases b
  {
    match a
    case Arr(items) =>
      if items != [] {
        forall i | 0 <= i < |c.items| ensures Conforms(items[0], c.items[i]) {
          ConformsIsTransitive(items[0], b.items[0], c.items[i]);
        }
      }
    case Obj(members) =>
      forall i | 0 <= i < |members| ensures Covers(members[i], c.members) {
        assert Covers(members[i], b.members);
        var field := b.members[IndexOf(b.members, members[i].key)];
        assert Covers(field, c.members);
        ConformsIsTransitive(members[i].val, field.val, Get(c.members, field.key).value);
      }
    case _ =>
  }

  // Which values can stand in the middle is decided on lists of values that one schema has to accept
  // together, because all items of an array answer to the same item schema.

  ghost predicate Accepts(schema: Value, values: seq<Value>) {
    forall i :: 0 <= i < |values| ==> Conforms(schema, values[i])
  }

  predicate AllArrays(values: seq<Value>) {
    forall i :: 0 <= i < |values| ==> values[i].Arr?
  }

  predicate AllWithKey(values: seq<Value>, key: string) {
    forall i :: 0 <= i < |values| ==> values[i].Obj? && Has(values[i].members, key)
  }

  /** All items of the arrays, those of the first array first. */
  function Gather(values: seq<Value>): (items: seq<Value>)
    requires AllArrays(values)
    ensures forall i, j :: 0 <= i < |values| && 0 <= j < |values[i].items| ==> values[i].items[j] in items
    ensures forall x :: x in items ==> exists i :: 0 <= i < |values| && x in values[i].items
    ensures values != [] && values[0].items != [] ==> items != [] && items[0] == values[0].items[0]
  {
    if values == [] then [] else values[0].items + Gather(values[1..])
  }

  /** The values that the objects hold under `key`. */
  function Column(values: seq<Value>, key: string): (column: seq<Value>)
    requires AllWithKey(values, key)
    ensures |column| == |values|
    ensures forall i :: 0 <= i < |values| ==> column[i] == Get(values[i].members, key).value
  {
    if values == [] then [] else [Get(values[0].members, key).value] + Column(values[1..], key)
  }

  function Size(v: Value): nat {
    match v
    case Arr(items) => 1 + TotalSize(items)
    case Obj(members) => 1 + MembersSize(members)
    case _ => 1
  }

  function TotalSize(values: seq<Value>): nat {
    if values == [] then 0 else Size(values[0]) + TotalSize(values[1..])
  }

  function MembersSize(ms: seq<Member>): nat {
    if ms == [] then 0 else Size(ms[0].val) + MembersSize(ms[1..])
  }

  lemma {:induction false} TotalSizeConcat(a: seq<Value>, b: seq<Value>)
    ensures TotalSize(a + b) == TotalSize(a) + TotalSize(b)
  {
    if a == [] {
      assert a + b == b;
    } else {
      assert (a + b)[1..] == a[1..] + b;
      TotalSizeConcat(a[1..], b);
    }
  }

  lemma {:induction false} GatherIsSmaller(values: seq<Value>)
    requires AllArrays(values)
    ensures TotalSize(Gather(values)) + |values| == TotalSize(values)
  {
    if values != [] {
      TotalSizeConcat(values[0].items, Gather(values[1..]));
      GatherIsSmaller(values[1..]);
    }
  }

  lemma {:induction false} MemberIsSmaller(ms: seq<Member>, i: nat)
    requires i < |ms|
    ensures Size(ms[i].val) <= MembersSize(ms)
  {
    if i > 0 {
      MemberIsSmaller(ms[1..], i - 1);
    }
  }

  lemma {:induction false} ColumnIsSmaller(values: seq<Value>, key: string)
    requires AllWithKey(values, key)
    ensures TotalSize(Column(values, key)) + |values| <= TotalSize(values)
  {
    if values != [] {
      MemberIsSmaller(values[0].members, IndexOf(values[0].members, key));
      ColumnIsSmaller(values[1..], key);
    }
  }

  /** Some schema accepts all of `values` and yet refuses something that the first of them, as a schema,
      allows: an empty array stands where the other values leave room for an item type. */
  predicate Loose(values: seq<Value>)
    requires values != []
    decreases TotalSize(values)
  {
    if AllArrays(values) then
      var items := Gather(values);
      GatherIsSmaller(values);
      if values[0].items == [] then
        items == [] || (!items[0].Null? && forall i :: 0 <= i < |items| ==> SameType(items[0], items[i]))
      else Loose(items)
    else if values[0].Obj? then
      exists i :: 0 <= i < |values[0].members| && LooseColumn(values, values[0].members[i].key)
    else false
  }

  predicate LooseColumn(values: seq<Value>, key: string)
    requires values != []
    decreases TotalSize(values), 0
  {
    && AllWithKey(values, key)
    && (ColumnIsSmaller(values, key); Loose(Column(values, key)))
  }

  /** A schema that asks for the type of `v` and nothing else. */
  function Bare(v: Value): Value {
    match v
    case Arr(_) => Arr([])
    case Obj(_) => Obj([])
    case _ => v
  }

  /** A value that conforms to `v`. */
  function Least(v: Value): Value {
    match v
    case Arr(_) => Arr([])
    case Obj(members) => Obj(LeastMembers(members))
    case _ => v
  }

  function LeastMembers(ms: seq<Member>): (r: seq<Member>)
    ensures |r| == |ms| && forall i :: 0 <= i < |r| ==> r[i] == Member(ms[i].key, Least(ms[i].val))
  {
    if ms == [] then [] else [Member(ms[0].key, Least(ms[0].val))] + LeastMembers(ms[1..])
  }

  lemma SameKeysSameIndex(ms: seq<Member>, ns: seq<Member>, i: nat)
    requires UniqueKeys(ms) && |ms| == |ns| && forall j :: 0 <= j < |ms| ==> ms[j].key == ns[j].key
    requires i < |ms|
    ensures IndexOf(ns, ms[i].key) == i
  {
  }

  lemma {:induction false} LeastConforms(v: Value)
    requires WellFormed(v)
    ensures Conforms(v, Least(v))
    decreases v
  {
    if v.Obj? {
      forall i | 0 <= i < |v.members| ensures Covers(v.members[i], LeastMembers(v.members)) {
        SameKeysSameIndex(v.members, LeastMembers(v.members), i);
        LeastConforms(v.members[i].val);
      }
    }
  }

  ghost predicate AllWellFormed(values: seq<Value>) {
    forall i :: 0 <= i < |values| ==> WellFormed(values[i])
  }

  lemma GatherWellFormed(values: seq<Value>)
    requires AllWellFormed(values) && AllArrays(values)
    ensures AllWellFormed(Gather(values))
  {
    forall k | 0 <= k < |Gather(values)| ensures WellFormed(Gather(values)[k]) {
      var x := Gather(values)[k];
      assert x in Gather(values);
      var i :| 0 <= i < |values| && x in values[i].items;
      assert WellFormed(values[i]);
    }
  }

  lemma ColumnWellFormed(values: seq<Value>, key: string)
    requires AllWellFormed(values) && AllWithKey(values, key)
    ensures AllWellFormed(Column(values, key))
  {
    forall i | 0 <= i < |values| ensures WellFormed(Column(values, key)[i]) {
      assert WellFormed(values[i]) && WellFormedMembers(values[i].members);
    }
  }

  /** An item schema that accepts all gathered items makes an array schema that accepts all the arrays. */
  lemma ArraysAccepted(values: seq<Value>, s: Value)
    requires AllArrays(values) && Accepts(s, Gather(values))
    ensures Accepts(Arr([s]), values)
  {
    forall i, j | 0 <= i < |values| && 0 <= j < |values[i].items| ensures Conforms(s, values[i].items[j]) {
      assert values[i].items[j] in Gather(values);
    }
  }

  lemma ArraysAccept(values: seq<Value>, s: Value)
    requires AllArrays(values) && Accepts(Arr([s]), values)
    ensures Accepts(s, Gather(values))
  {
    forall k | 0 <= k < |Gather(values)| ensures Conforms(s, Gather(values)[k]) {
      var x := Gather(values)[k];
      assert x in Gather(values);
      var i :| 0 <= i < |values| && x in values[i].items;
      assert Conforms(Arr([s]), values[i]);
    }
  }

  lemma OneItemSchema(s: Value, item: Value)
    ensures Conforms(Arr([s]), Arr([item])) <==> Conforms(s, item)
  {
    assert Arr([s]).items[0] == s && Arr([item]).items[0] == item;
  }

  lemma OneItemIsWellFormed(v: Value)
    requires WellFormed(v)
    ensures WellFormed(Arr([v]))
  {
  }

  lemma ScalarsAreWellFormed(items: seq<Value>)
    ensures WellFormed(Null) && WellFormed(Bool(true))
    ensures items != [] && !items[0].Null? ==> WellFormed(Bare(items[0]))
  {
  }

  /** Where `Loose` holds, there are trees that break transitivity. */
  lemma {:induction false} LooseBreaks(values: seq<Value>) returns (a: Value, c: Value)
    requires values != [] && AllWellFormed(values) && Loose(values)
    ensures Accepts(a, values) && Conforms(values[0], c) && !Conforms(a, c)
    ensures WellFormed(a) && WellFormed(c)
    decreases TotalSize(values)
  {
    hide WellFormed;
    if AllArrays(values) {
      var items := Gather(values);
      GatherIsSmaller(values);
      var s, y;
      if values[0].items == [] {
        s, y := if items == [] then Bool(true) else Bare(items[0]), Null;
        ScalarsAreWellFormed(items);
      } else {
        GatherWellFormed(values);
        s, y := LooseBreaks(items);
      }
      a, c := Arr([s]), Arr([y]);
      ArraysAccepted(values, s);
      OneItemSchema(s, y);
      OneItemIsWellFormed(s);
      OneItemIsWellFormed(y);
    } else {
      var i :| 0 <= i < |values[0].members| && LooseColumn(values, values[0].members[i].key);
      a, c := LooseColumnBreaks(values, i);
    }
  }

  lemma MembersWellFormed(v: Value)
    requires WellFormed(v) && v.Obj?
    ensures WellFormedMembers(v.members)
  {
  }

  /** A value that conforms to the object `v` and holds `y` under the key of its member `i`. */
  lemma LeastWith(v: Value, i: nat, y: Value) returns (c: Value)
    requires WellFormed(v) && v.Obj? && i < |v.members| && Conforms(v.members[i].val, y)
    ensures Conforms(v, c) && c.Obj? && Has(c.members, v.members[i].key)
    ensures Get(c.members, v.members[i].key).value == y
    ensures WellFormed(y) ==> WellFormed(c)
  {
    hide WellFormed, Least;
    assert WellFormedMembers(v.members) by { MembersWellFormed(v); }
    var ms := v.members;
    var cs := LeastMembers(ms)[i := Member(ms[i].key, y)];
    c := Obj(cs);
    SameKeysSameIndex(ms, cs, i);
    forall j | 0 <= j < |ms| ensures Covers(ms[j], cs) {
      SameKeysSameIndex(ms, cs, j);
      LeastConforms(ms[j].val);
    }
    if WellFormed(y) {
      ReplacedIsWellFormed(ms, i, y);
    }
  }

  lemma {:induction false} LeastIsWellFormed(v: Value)
    requires WellFormed(v)
    ensures WellFormed(Least(v))
    decreases v
  {
    if v.Obj? {
      var ms := LeastMembers(v.members);
      forall i | 0 <= i < |ms| ensures WellFormed(ms[i].val) && '\0' !in ms[i].key {
        LeastIsWellFormed(v.members[i].val);
      }
      assert WellFormedMembers(ms);
    }
  }

  lemma ReplacedIsWellFormed(ms: seq<Member>, i: nat, y: Value)
    requires WellFormedMembers(ms) && i < |ms| && WellFormed(y)
    ensures WellFormed(Obj(LeastMembers(ms)[i := Member(ms[i].key, y)]))
  {
    var cs := LeastMembers(ms)[i := Member(ms[i].key, y)];
    forall j | 0 <= j < |cs| ensures WellFormed(cs[j].val) && cs[j].key == ms[j].key { LeastIsWellFormed(ms[j].val); }
    assert WellFormedMembers(cs);
  }

  lemma OneFieldSchema(field: Member, ms: seq<Member>)
    ensures Conforms(Obj([field]), Obj(ms)) <==> Covers(field, ms)
  {
    assert Obj([field]).members[0] == field;
  }

  lemma {:induction false} LooseColumnBreaks(values: seq<Value>, i: nat) returns (a: Value, c: Value)
    requires values != [] && AllWellFormed(values)
    requires values[0].Obj? && i < |values[0].members| && LooseColumn(values, values[0].members[i].key)
    ensures Accepts(a, values) && Conforms(values[0], c) && !Conforms(a, c)
    ensures WellFormed(a) && WellFormed(c)
    decreases TotalSize(values), 0
  {
    var key := values[0].members[i].key;
    var column := Column(values, key);
    ColumnIsSmaller(values, key);
    ColumnWellFormed(values, key);
    hide Conforms, Loose;
    var s, y := LooseBreaks(column);
    assert WellFormed(values[0]);
    SameKeysSameIndex(values[0].members, values[0].members, i);
    c := LeastWith(values[0], i, y);
    a := Obj([Member(key, s)]);
    forall j | 0 <= j < |values| ensures Conforms(a, values[j]) {
      assert Conforms(s, column[j]);
      OneFieldSchema(Member(key, s), values[j].members);
    }
    OneFieldSchema(Member(key, s), c.members);
  }

  /** Values that break transitivity show that `Loose` holds. */
  lemma {:induction false} BreaksLoose(values: seq<Value>, a: Value, c: Value)
    requires values != [] && AllWellFormed(values)
    requires Accepts(a, values) && Conforms(values[0], c) && !Conforms(a, c)
    ensures Loose(values)
    decreases TotalSize(values), 1
  {
    hide WellFormed;
    assert Conforms(a, values[0]);
    if a.Arr? {
      BreaksLooseArrays(values, a, c);
    } else {
      BreaksLooseObjects(values, a, c);
    }
  }

  lemma {:induction false} BreaksLooseArrays(values: seq<Value>, a: Value, c: Value)
    requires values != [] && AllWellFormed(values) && a.Arr?
    requires Accepts(a, values) && Conforms(values[0], c) && !Conforms(a, c)
    ensures Loose(values)
    decreases TotalSize(values), 0
  {
    hide WellFormed, Covers;
    forall i | 0 <= i < |values| ensures values[i].Arr? && Conforms(Arr([a.items[0]]), values[i]) {
      assert Conforms(a, values[i]);
    }
    var s, items := a.items[0], Gather(values);
    GatherIsSmaller(values);
    ArraysAccept(values, s);
    if values[0].items == [] {
      forall i | 0 <= i < |items| ensures !items[0].Null? && SameType(items[0], items[i]) {
        assert Conforms(s, items[0]) && Conforms(s, items[i]);
      }
    } else {
      var k :| 0 <= k < |c.items| && !Conforms(s, c.items[k]);
      GatherWellFormed(values);
      BreaksLoose(items, s, c.items[k]);
    }
  }

  lemma {:induction false} BreaksLooseObjects(values: seq<Value>, a: Value, c: Value)
    requires values != [] && AllWellFormed(values) && a.Obj?
    requires Accepts(a, values) && Conforms(values[0], c) && !Conforms(a, c)
    ensures Loose(values)
    decreases TotalSize(values), 0
  {
    forall i | 0 <= i < |values| ensures values[i].Obj? {
      assert Conforms(a, values[i]);
    }
    var k :| 0 <= k < |a.members| && !Covers(a.members[k], c.members);
    var key := a.members[k].key;
    forall i | 0 <= i < |values| ensures Covers(a.members[k], values[i].members) {
      assert Conforms(a, values[i]);
    }
    var at := IndexOf(values[0].members, key);
    assert Covers(values[0].members[at], c.members);
    ColumnIsSmaller(values, key);
    ColumnWellFormed(values, key);
    hide WellFormed, Conforms, SameType;
    BreaksLoose(Column(values, key), a.members[k].val, Get(c.members, key).value);
    assert LooseColumn(values, values[0].members[at].key);
  }

  /** For all schemas and values that parson can build. */
  ghost predicate TransitiveThrough(b: Value) {
    forall a, c :: WellFormed(a) && WellFormed(c) && Conforms(a, b) && Conforms(b, c) ==> Conforms(a, c)
  }

  /** Exactly the values that are not loose make conformance transitive, and these do so for all schemas and values. */
  lemma TransitiveIffNotLoose(b: Value)
    requires WellFormed(b)
    ensures TransitiveThrough(b) <==> !Loose([b])
    ensures !Loose([b]) ==> forall a, c :: Conforms(a, b) && Conforms(b, c) ==> Conforms(a, c)
  {
    if Loose([b]) {
      var a, c := LooseBreaks([b]);
      assert Conforms(a, [b][0]);
    }
    forall a, c | Conforms(a, b) && Conforms(b, c) && !Conforms(a, c) ensures Loose([b]) {
      BreaksLoose([b], a, c);
    }
  }

  /** A value without an empty array in a schema position is never loose. */
  lemma NoOpenArrayIsNotLoose(b: Value)
    requires WellFormed(b) && NoOpenArray(b)
    ensures !Loose([b])
  {
    forall a, c | Conforms(a, b) && Conforms(b, c) ensures Conforms(a, c) {
      ConformsIsTransitive(a, b, c);
    }
    TransitiveIffNotLoose(b);
  }

}

/** json_value_equals and json_value_deep_copy. */
module Equality {
  import opened Options
  import opened Json
  import opened ObjectTable
  import opened ArrayBuffer
  import opened Doubles
  import opened Tolerance
  import S = Serializer
  import V = Validation

  /** json_value_equals, for any rounding of differences. Objects are compared over the keys of the first one only. */
  predicate Equals(a: Value, b: Value, round: real -> real)
    decreases a, 2
  {
    if !V.SameType(a, b) then false
    else match a
      case Arr(items) => |items| == |b.items| && EqualItems(items, b.items, round)
      case Obj(members) => |members| == |b.members| && EqualMembers(members, members, b.members, round)
      case Str(s) => s == b.s
      case Bool(x) => x == b.b
      case Num(x) => Close(x, b.x, round)
      case Null => true
  }

  predicate EqualItems(xs: seq<Value>, ys: seq<Value>, round: real -> real)
    requires |xs| == |ys|
    decreases xs, 1
  {
    xs == [] || (Equals(xs[0], ys[0], round) && EqualItems(xs[1..], ys[1..], round))
  }

  /** The loop over the keys of `all`, of which `rest` are still to be looked at. */
  predicate EqualMembers(all: seq<Member>, rest: seq<Member>, others: seq<Member>, round: real -> real)
    requires |rest| <= |all| && rest == all[|all| - |rest|..]
    decreases all, 1, rest
  {
    if rest == [] then true
    else
      var key := rest[0].key;
      && Has(others, key)
      && Equals(Get(all, key).value, Get(others, key).value, round)
      && EqualMembers(all, rest[1..], others, round)
  }

  /** `others` holds an equal value under the key of `m`. */
  ghost predicate Matches(m: Member, others: seq<Member>, round: real -> real) {
    Has(others, m.key) && Equals(m.val, Get(others, m.key).value, round)
  }

  lemma {:induction false} EqualItemsIff(xs: seq<Value>, ys: seq<Value>, round: real -> real)
    requires |xs| == |ys|
    ensures EqualItems(xs, ys, round) <==> forall i :: 0 <= i < |xs| ==> Equals(xs[i], ys[i], round)
  {
    if xs != [] {
      EqualItemsIff(xs[1..], ys[1..], round);
      assert xs == [xs[0]] + xs[1..] && ys == [ys[0]] + ys[1..];
    }
  }

  lemma {:induction false} EqualMembersIff(all: seq<Member>, rest: seq<Member>, others: seq<Member>,
                                           round: real -> real)
    requires UniqueKeys(all) && |rest| <= |all| && rest == all[|all| - |rest|..]
    ensures EqualMembers(all, rest, others, round) <==> forall i :: 0 <= i < |rest| ==> Matches(rest[i], others, round)
    decreases rest
  {
    hide Equals;
    if rest != [] {
      UniqueIndex(all, rest[0].key, |all| - |rest|);
      EqualMembersIff(all, rest[1..], others, round);
      assert rest == [rest[0]] + rest[1..];
    }
  }

  /** The same tree, up to the order of the members of objects, and numbers that are close. */
  ghost predicate SameTree(a: Value, b: Value, round: real -> real)
    decreases a
  {
    match a
    case Null => b == Null
    case Bool(x) => b == Bool(x)
    case Str(s) => b == Str(s)
    case Num(x) => b.Num? && Close(x, b.x, round)
    case Arr(items) =>
      b.Arr? && |items| == |b.items| && forall i :: 0 <= i < |items| ==> SameTree(items[i], b.items[i], round)
    case Obj(ms) =>
      && b.Obj? && |ms| == |b.members|
      && forall i :: 0 <= i < |ms| ==>
           exists j :: 0 <= j < |b.members| && b.members[j].key == ms[i].key &&
                       SameTree(ms[i].val, b.members[j].val, round)
  }

  /** Exactly the same trees in this sense are equal. */
  lemma {:induction false} EqualsIffSameTree(a: Value, b: Value, round: real -> real)
    requires WellFormed(a) && WellFormed(b)
    ensures Equals(a, b, round) <==> SameTree(a, b, round)
    decreases a, 0
  {
    if V.SameType(a, b) {
      match a
      case Arr(items) =>
        if |items| == |b.items| {
          forall i | 0 <= i < |items|
            ensures Equals(items[i], b.items[i], round) <==> SameTree(items[i], b.items[i], round)
          {
            EqualsIffSameTree(items[i], b.items[i], round);
          }
          EqualItemsIff(items, b.items, round);
        }
      case Obj(ms) =>
        forall i | 0 <= i < |ms|
          ensures Matches(ms[i], b.members, round) <==>
                  exists j :: 0 <= j < |b.members| && b.members[j].key == ms[i].key &&
                              SameTree(ms[i].val, b.members[j].val, round)
        {
          MatchesIffSameTree(ms[i], b.members, round);
        }
        EqualMembersIff(ms, ms, b.members, round);
      case _ =>
    }
  }

  lemma {:induction false} MatchesIffSameTree(m: Member, others: seq<Member>, round: real -> real)
    requires WellFormed(m.val) && WellFormedMembers(others)
    ensures Matches(m, others, round) <==>
            exists j :: 0 <= j < |others| && others[j].key == m.key && SameTree(m.val, others[j].val, round)
    decreases m.val, 1
  {
    forall j | 0 <= j < |others| && others[j].key == m.key ensures IndexOf(others, m.key) == j {
      UniqueIndex(others, m.key, j);
    }
    if Has(others, m.key) {
      EqualsIffSameTree(m.val, others[IndexOf(others, m.key)].val, round);
    }
  }

  lemma {:induction false} EqualsIsReflexive(v: Value, round: real -> real)
    requires WellFormed(v) && Rounding(round)
    ensures Equals(v, v, round)
    decreases v
  {
    match v
    case Arr(items) =>
      forall i | 0 <= i < |items| ensures Equals(items[i], items[i], round) { EqualsIsReflexive(items[i], round); }
      EqualItemsIff(items, items, round);
    case Obj(ms) =>
      forall i | 0 <= i < |ms| ensures Matches(ms[i], ms, round) {
        UniqueIndex(ms, ms[i].key, i);
        EqualsIsReflexive(ms[i].val, round);
      }
      EqualMembersIff(ms, ms, ms, round);
    case Num(x) => CloseWithin(x, x, UNIT20, round);
    case _ =>
  }

  /** Two objects of the same size where the keys of one are keys of the other have the same keys. */
  lemma SameKeys(ms: seq<Member>, others: seq<Member>, key: string)
    requires UniqueKeys(ms) && UniqueKeys(others) && |ms| == |others|
    requires forall i :: 0 <= i < |ms| ==> Has(others, ms[i].key)
    requires Has(others, key)
    ensures Has(ms, key)
  {
    V.UniqueKeyCount(ms);
    V.UniqueKeyCount(others);
    var mine, theirs := V.KeySet(ms), V.KeySet(others);
    forall k | k in mine ensures k in theirs {
      assert others[IndexOf(others, k)].key == k;
    }
    SubsetOfSameSize(mine, theirs);
    assert others[IndexOf(others, key)].key == key;
    assert key in mine;
    var i :| 0 <= i < |ms| && ms[i].key == key;
  }

  lemma SubsetOfSameSize(a: set<string>, b: set<string>)
    requires a <= b && |a| == |b|
    ensures a == b
  {
    assert b == a + (b - a);
    assert |b - a| == 0;
  }

  /** Although only the keys of one side are walked, the comparison is symmetric. */
  lemma {:induction false} EqualsIsSymmetric(a: Value, b: Value, round: real -> real)
    requires WellFormed(a) && WellFormed(b) && Equals(a, b, round) && Rounding(round)
    ensures Equals(b, a, round)
    decreases a
  {
    match a
    case Arr(items) =>
      EqualItemsIff(items, b.items, round);
      forall i | 0 <= i < |items| ensures Equals(b.items[i], items[i], round) {
        EqualsIsSymmetric(items[i], b.items[i], round);
      }
      EqualItemsIff(b.items, items, round);
    case Obj(ms) =>
      var others := b.members;
      EqualMembersIff(ms, ms, others, round);
      forall i | 0 <= i < |ms| ensures Has(others, ms[i].key) { assert Matches(ms[i], others, round); }
      forall j | 0 <= j < |others| ensures Matches(others[j], ms, round) {
        UniqueIndex(others, others[j].key, j);
        SameKeys(ms, others, others[j].key);
        var m := ms[IndexOf(ms, others[j].key)];
        assert Matches(m, others, round);
        EqualsIsSymmetric(m.val, others[j].val, round);
      }
      EqualMembersIff(others, others, ms, round);
    case Num(x) => CloseIsEven(x, b.x, round);
    case _ =>
  }

  // ---------------------------------------------------------------- transitivity

  /** All numbers are integers. */
  ghost predicate IntegerNumbers(v: Value) {
    match v
    case Num(x) => x == x.Floor as real
    case Arr(items) => forall i :: 0 <= i < |items| ==> IntegerNumbers(items[i])
    case Obj(members) => forall i :: 0 <= i < |members| ==> IntegerNumbers(members[i].val)
    case _ => true
  }

  /** All numbers are 2^33 in size at least. */
  ghost predicate LargeNumbers(v: Value) {
    match v
    case Num(x) => Abs(x) >= TWO33
    case Arr(items) => forall i :: 0 <= i < |items| ==> LargeNumbers(items[i])
    case Obj(members) => forall i :: 0 <= i < |members| ==> LargeNumbers(members[i].val)
    case _ => true
  }

  /** Equality of numbers passes through those of `b`, between numbers like those of `a`, `b` and `c`. */
  ghost predicate Passes(a: Value, b: Value, c: Value) {
    (IntegerNumbers(a) && IntegerNumbers(b) && IntegerNumbers(c)) ||
    (S.Printable(a) && S.Printable(b) && S.Printable(c) && LargeNumbers(b))
  }

  /** On trees whose numbers are integers the comparison is transitive, and so it is on trees of doubles through one
      with large numbers only. */
  lemma {:induction false} EqualsIsTransitive(a: Value, b: Value, c: Value, round: real -> real)
    requires WellFormed(a) && WellFormed(b) && WellFormed(c) && Rounding(round)
    requires Passes(a, b, c)
    requires Equals(a, b, round) && Equals(b, c, round)
    ensures Equals(a, c, round)
    decreases a
  {
    PrintableParts(a);
    PrintableParts(b);
    PrintableParts(c);
    match a
    case Arr(items) =>
      EqualItemsIff(items, b.items, round);
      EqualItemsIff(b.items, c.items, round);
      forall i | 0 <= i < |items| ensures Equals(items[i], c.items[i], round) {
        EqualsIsTransitive(items[i], b.items[i], c.items[i], round);
      }
      EqualItemsIff(items, c.items, round);
    case Obj(ms) =>
      EqualMembersIff(ms, ms, b.members, round);
      EqualMembersIff(b.members, b.members, c.members, round);
      forall i | 0 <= i < |ms| ensures Matches(ms[i], c.members, round) {
        assert Matches(ms[i], b.members, round);
        var m := b.members[IndexOf(b.members, ms[i].key)];
        assert Matches(m, c.members, round);
        EqualsIsTransitive(ms[i].val, m.val, Get(c.members, ms[i].key).value, round);
      }
      EqualMembersIff(ms, ms, c.members, round);
    case Num(x) =>
      if IntegerNumbers(a) && IntegerNumbers(b) && IntegerNumbers(c) {
        IntegersApart(x, b.x, round);
        IntegersApart(b.x, c.x, round);
      } else {
        NoNeighbours(x, b.x, c.x, round);
      }
    case _ =>
  }

  /** The parts of a tree have the numbers of the tree. */
  lemma PrintableParts(v: Value)
    ensures v.Arr? ==> (S.Printable(v) <==> forall i :: 0 <= i < |v.items| ==> S.Printable(v.items[i]))
    ensures v.Obj? ==> (S.Printable(v) <==> forall i :: 0 <= i < |v.members| ==> S.Printable(v.members[i].val))
  {
    match v
    case Arr(items) => S.PrintableItemsAll(items);
    case Obj(members) => S.PrintableMembersAll(members);
    case _ =>
  }

  lemma IntegersApart(x: real, y: real, round: real -> real)
    requires Rounding(round) && x == x.Floor as real && y == y.Floor as real && Close(x, y, round)
    ensures x == y
  {
    FarApart(x, y, round);
    var d := x.Floor - y.Floor;
    assert d as real == x - y;
  }

  /** Between small numbers the tolerance adds up. */
  lemma EqualsIsNotTransitive(round: real -> real)
    requires Rounding(round)
    ensures Equals(Num(0.0), Num(UNIT20), round) && Equals(Num(UNIT20), Num(UNIT19), round)
    ensures !Equals(Num(0.0), Num(UNIT19), round)
  {
    CloseWithin(0.0, UNIT20, UNIT20, round);
    CloseWithin(UNIT20, UNIT19, UNIT20, round);
    if Close(0.0, UNIT19, round) {
      FarApart(0.0, UNIT19, round);
    }
  }

  /** The tree with each small number replaced by one of its two neighbours. */
  ghost function Shift(v: Value, up: bool): Value
    decreases v, 1
  {
    match v
    case Num(x) => Num(if Abs(x) >= TWO33 then x else if up then Above(x) else Below(x))
    case Arr(items) => Arr(ShiftItems(items, up))
    case Obj(members) => Obj(ShiftMembers(members, up))
    case _ => v
  }

  ghost function ShiftItems(items: seq<Value>, up: bool): (r: seq<Value>)
    ensures |r| == |items| && forall i :: 0 <= i < |r| ==> r[i] == Shift(items[i], up)
    decreases items, 0
  {
    if items == [] then [] else [Shift(items[0], up)] + ShiftItems(items[1..], up)
  }

  ghost function ShiftMembers(ms: seq<Member>, up: bool): (r: seq<Member>)
    ensures |r| == |ms| && forall i :: 0 <= i < |r| ==> r[i] == Member(ms[i].key, Shift(ms[i].val, up))
    decreases ms, 0
  {
    if ms == [] then [] else [Member(ms[0].key, Shift(ms[0].val, up))] + ShiftMembers(ms[1..], up)
  }

  /** Either shift is a tree of doubles that equals the tree. */
  lemma {:induction false} ShiftedEquals(v: Value, up: bool, round: real -> real)
    requires WellFormed(v) && S.Printable(v) && Rounding(round)
    ensures WellFormed(Shift(v, up)) && S.Printable(Shift(v, up)) && Equals(Shift(v, up), v, round)
    decreases v
  {
    hide IsDouble, Rounding, Close, Above, Below;
    PrintableParts(v);
    PrintableParts(Shift(v, up));
    match v
    case Arr(items) =>
      forall i | 0 <= i < |items|
        ensures WellFormed(Shift(items[i], up)) && S.Printable(Shift(items[i], up))
        ensures Equals(Shift(items[i], up), items[i], round)
      {
        ShiftedEquals(items[i], up, round);
      }
      EqualItemsIff(ShiftItems(items, up), items, round);
    case Obj(ms) =>
      var xs := ShiftMembers(ms, up);
      forall i | 0 <= i < |ms|
        ensures WellFormed(xs[i].val) && S.Printable(xs[i].val) && Matches(xs[i], ms, round)
      {
        ShiftedEquals(ms[i].val, up, round);
        UniqueIndex(ms, ms[i].key, i);
      }
      EqualMembersIff(xs, xs, ms, round);
    case Num(x) =>
      if Abs(x) < TWO33 {
        Neighbours(x);
      }
      CloseWithin(Shift(v, up).x, x, UNIT20, round);
    case _ =>
  }

  /** Where there is a small number the two shifts differ by more than the tolerance. */
  lemma {:induction false} ShiftsApart(v: Value, round: real -> real)
    requires WellFormed(v) && S.Printable(v) && !LargeNumbers(v) && Rounding(round)
    ensures !Equals(Shift(v, false), Shift(v, true), round)
    decreases v
  {
    hide IsDouble, Above, Below;
    PrintableParts(v);
    match v
    case Arr(items) =>
      var i :| 0 <= i < |items| && !LargeNumbers(items[i]);
      ShiftsApart(items[i], round);
      EqualItemsIff(ShiftItems(items, false), ShiftItems(items, true), round);
    case Obj(ms) =>
      var i :| 0 <= i < |ms| && !LargeNumbers(ms[i].val);
      var xs, ys := ShiftMembers(ms, false), ShiftMembers(ms, true);
      ShiftsApart(ms[i].val, round);
      UniqueIndex(ys, ys[i].key, i);
      assert !Matches(xs[i], ys, round);
      EqualMembersIff(xs, xs, ys, round);
    case Num(x) =>
      Units();
      Neighbours(x);
      assert round(Above(x) - Below(x)) == Above(x) - Below(x);
      assert round(-(Above(x) - Below(x))) == Below(x) - Above(x);
      assert Below(x) - Above(x) == -(Above(x) - Below(x));
  }

  /** Between trees that the parser can build, equality passes through `b`. */
  ghost predicate EqualityPassesThrough(b: Value, round: real -> real) {
    forall a, c ::
      (WellFormed(a) && WellFormed(c) && S.Printable(a) && S.Printable(c) &&
       Equals(a, b, round) && Equals(b, c, round)) ==> Equals(a, c, round)
  }

  /** Between trees of doubles, equality passes through a tree exactly when every number in it is 2^33 in size at
      least, where neighbouring doubles are further apart than the tolerance. */
  lemma PassesThroughIffLarge(b: Value, round: real -> real)
    requires WellFormed(b) && S.Printable(b) && Rounding(round)
    ensures EqualityPassesThrough(b, round) <==> LargeNumbers(b)
  {
    hide IsDouble, Rounding, Equals, Shift, LargeNumbers;
    if LargeNumbers(b) {
      forall a, c | WellFormed(a) && WellFormed(c) && S.Printable(a) && S.Printable(c) &&
                    Equals(a, b, round) && Equals(b, c, round)
        ensures Equals(a, c, round)
      {
        EqualsIsTransitive(a, b, c, round);
      }
    } else {
      ShiftedEquals(b, false, round);
      ShiftedEquals(b, true, round);
      EqualsIsSymmetric(Shift(b, true), b, round);
      ShiftsApart(b, round);
    }
  }

  /** json_value_deep_copy: gives back an equal tree with the items in the same order. Object values are
      looked up by key and added one by one, and on distinct keys no addition fails. */
  method DeepCopy(value: Value) returns (r: Option<Value>)
    requires WellFormed(value)
    ensures r == Some(value)
    ensures forall round :: Rounding(round) ==> Equals(value, r.value, round)
  {
    forall round | Rounding(round) ensures Equals(value, value, round) { EqualsIsReflexive(value, round); }
    match value
    case Arr(items) =>
      var copy := new JsonArray();
      for i := 0 to |items|
        invariant copy.Valid() && fresh(copy) && fresh(copy.items)
        invariant copy.Contents() == items[..i]
      {
        var item := DeepCopy(items[i]);
        if item.None? { return None; }
        copy.Add(item.value);
      }
      assert items[..|items|] == items;
      r := Some(Arr(copy.Contents()));
    case Obj(members) =>
      var copy := CopyMembers(members);
      if copy == null { return None; }
      r := Some(Obj(copy.Contents()));
    case _ => r := Some(value);
  }

  method CopyMembers(members: seq<Member>) returns (copy: JsonObject?)
    requires WellFormedMembers(members)
    ensures copy != null && copy.Valid() && fresh(copy.Repr()) && copy.Contents() == members
  {
    hide Layout, InStep, WellFormed, IndexOf, Equals, UniqueKeys, JsonObject.Valid, JsonObject.Shape;
    copy := new JsonObject.Init(HashString, 0);
    for i := 0 to |members|
      invariant copy != null && copy.Valid() && fresh(copy.Repr())
      invariant copy.Contents() == members[..i]
    {
      var key := members[i].key;
      UniqueIndex(members, key, i);
      NamesAreFresh(members, i);
      var item := DeepCopy(Get(members, key).value);
      if item.None? { return null; }
      var added := copy.Add(key, item.value);
      if !added { return null; }
    }
  }
}
