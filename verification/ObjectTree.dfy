/** Dotted sets and lookups on objects that hold other objects by reference, as json_object_dotset_value updates them:
    the object at the end of the path changes in place, and everything else stays where it is. */
module ObjectTree {
  import opened Options
  import opened Json
  import D = DotPath

  /** What a name is bound to: an object by reference, or another value. */
  datatype Slot = Leaf(v: Value) | Nested(o: TreeObject)

  datatype Item = Item(key: string, slot: Slot)

  class TreeObject {
    var items: seq<Item>
    /** This object and all that it reaches. */
    ghost var repr: set<object>

    /** A tree: the objects below different names have nothing in common. */
    ghost predicate Valid()
      reads this, repr
      decreases repr
    {
      && this in repr
      && (forall i :: 0 <= i < |items| ==> items[i].slot.Leaf? ==> !items[i].slot.v.Obj?)
      && (forall i :: 0 <= i < |items| ==> items[i].slot.Nested? ==>
            var o := items[i].slot.o; o in repr && o.repr <= repr && this !in o.repr && o.Valid())
      && (forall i, j :: 0 <= i < j < |items| && items[i].slot.Nested? && items[j].slot.Nested? ==>
            items[i].slot.o.repr !! items[j].slot.o.repr)
    }

    /** The value this tree stands for. */
    ghost function Members(): (ms: seq<Member>)
      requires Valid()
      reads repr
      ensures |ms| == |items|
      ensures forall i :: 0 <= i < |ms| ==> ms[i] == Member(items[i].key, ValueAt(i))
      decreases repr, 1
    {
      seq(|items|, i requires 0 <= i < |items| && Valid() reads this, repr => Member(items[i].key, ValueAt(i)))
    }

    ghost function ValueAt(i: nat): Value
      requires Valid() && i < |items|
      reads repr
      decreases repr, 0
    {
      match items[i].slot
      case Leaf(v) => v
      case Nested(o) => Obj(o.Members())
    }

    constructor ()
      ensures Valid() && Members() == [] && fresh(repr)
    {
      items := [];
      repr := {this};
    }

    method Find(key: string) returns (i: nat)
      requires Valid()
      ensures i == IndexOf(Members(), key)
    {
      i := 0;
      while i < |items| && items[i].key != key
        invariant i <= |items| && forall j :: 0 <= j < i ==> items[j].key != key
      {
        i := i + 1;
      }
      if i < |items| {
        D.FirstIndex(Members(), key, i);
      }
    }

    /** Binds the name of an item to another slot. */
    method Replace(i: nat, slot: Slot)
      requires Valid() && i < |items| && Separate(slot, repr)
      modifies this
      ensures Valid() && repr == old(repr) + old(SlotRepr(slot))
      ensures Members() == old(Members())[i := Member(old(items[i].key), old(SlotValue(slot)))]
    {
      items := items[i := Item(items[i].key, slot)];
      repr := repr + SlotRepr(slot);
    }

    method Append(key: string, slot: Slot)
      requires Valid() && Separate(slot, repr)
      modifies this
      ensures Valid() && repr == old(repr) + old(SlotRepr(slot))
      ensures Members() == Added(old(Members()), key, old(SlotValue(slot)))
    {
      items := items + [Item(key, slot)];
      repr := repr + SlotRepr(slot);
    }

    /** json_object_set_value. */
    method SetSlot(key: string, slot: Slot)
      requires Valid() && Separate(slot, repr)
      modifies this
      ensures Valid() && repr == old(repr) + old(SlotRepr(slot))
      ensures Members() == Assigned(old(Members()), key, old(SlotValue(slot)))
    {
      var i := Find(key);
      if i < |items| {
        Replace(i, slot);
      } else {
        Append(key, slot);
      }
    }

    /** json_object_dotset_value. The objects on the way are kept and updated in place; one that is missing is built
        before it is hung into the tree; a set that fails leaves every object as it was. */
    method DotSet(name: string, slot: Slot) returns (ok: bool)
      requires Valid() && Separate(slot, repr)
      modifies repr
      ensures Valid() && old(repr) <= repr && fresh(repr - old(repr) - old(SlotRepr(slot)))
      ensures ok == D.DotSet(old(Members()), name, old(SlotValue(slot))).Some?
      ensures Members() == if ok then D.DotSet(old(Members()), name, old(SlotValue(slot))).value else old(Members())
      decreases |name|, 0
    {
      hide D.DotSet, SlotValue, SlotRepr, IndexOf, D.DotPos;
      DotSetStep(Members(), name, SlotValue(slot));
      var d := D.DotPos(name);
      if d == |name| {
        SetSlot(name, slot);
        return true;
      }
      var i := Find(name[..d]);
      if i < |items| {
        if items[i].slot.Leaf? { return false; }
        ok := SetBelow(i, name[d + 1..], slot);
      } else {
        ok := SetMissing(name[..d], name[d + 1..], slot);
      }
    }

    /** A missing level: the rest of the path is built in a new object. */
    method SetMissing(key: string, rest: string, slot: Slot) returns (ok: bool)
      requires Valid() && Separate(slot, repr)
      modifies this
      ensures Valid() && old(repr) <= repr && fresh(repr - old(repr) - old(SlotRepr(slot)))
      ensures ok == D.DotSet([], rest, old(SlotValue(slot))).Some?
      ensures Members() == if ok then Added(old(Members()), key, Obj(D.DotSet([], rest, old(SlotValue(slot))).value))
                           else old(Members())
      decreases |rest|, 1
    {
      hide D.DotSet;
      var o := new TreeObject();
      ok := o.DotSet(rest, slot);
      if ok {
        Append(key, Nested(o));
      }
    }

    /** The set goes on in the object at item `i`, which stays the one it was: no item of this object changes. */
    method SetBelow(i: nat, rest: string, slot: Slot) returns (ok: bool)
      requires Valid() && Separate(slot, repr) && i < |items| && items[i].slot.Nested?
      modifies repr
      ensures Valid() && old(repr) <= repr && fresh(repr - old(repr) - old(SlotRepr(slot)))
      ensures items == old(items) && ok == D.DotSet(old(items[i].slot.o.Members()), rest, old(SlotValue(slot))).Some?
      ensures var sub := D.DotSet(old(items[i].slot.o.Members()), rest, old(SlotValue(slot)));
              Members() == if ok then old(Members())[i := Member(old(items[i].key), Obj(sub.value))] else old(Members())
      decreases |rest|, 2
    {
      hide D.DotSet, D.DotPos, SlotValue, IndexOf;
      ghost var ms := Members();
      ok := EnterBelow(i, rest, slot);
      Rejoined(this, i, ms);
    }

    /** The set in the nested object `i`, whose siblings stay as they are. */
    method EnterBelow(i: nat, rest: string, slot: Slot) returns (ok: bool)
      requires Valid() && Separate(slot, repr) && i < |items| && items[i].slot.Nested?
      modifies repr
      ensures items == old(items) && this in repr && old(repr) <= repr
      ensures fresh(repr - old(repr) - old(SlotRepr(slot)))
      ensures var o := items[i].slot.o; o in repr && o.repr <= repr && this !in o.repr && o.Valid()
      ensures ok == D.DotSet(old(items[i].slot.o.Members()), rest, old(SlotValue(slot))).Some?
      ensures items[i].slot.o.Members() ==
              if ok then D.DotSet(old(items[i].slot.o.Members()), rest, old(SlotValue(slot))).value
              else old(items[i].slot.o.Members())
      ensures forall j :: 0 <= j < |items| && j != i && items[j].slot.Nested? ==>
                var o := items[j].slot.o;
                o in repr && o.repr <= repr && this !in o.repr && o.Valid() && o.repr == old(o.repr) &&
                o.repr !! items[i].slot.o.repr && o.Members() == old(o.Members())
      decreases |rest|, 1
    {
      hide D.DotSet, D.DotPos, SlotValue, IndexOf;
      var o := items[i].slot.o;
      Siblings(this, i);
      ok := o.DotSet(rest, slot);
      repr := repr + o.repr;
    }

    /** json_object_dotget_value. */
    method DotGet(name: string) returns (r: Option<Slot>)
      requires Valid()
      ensures r.Some? ==> (r.value.Nested? ==> r.value.o in repr && r.value.o.Valid())
      ensures D.DotGet(Members(), name) == if r.Some? then Some(SlotValue(r.value)) else None
      decreases |name|
    {
      hide D.DotGet, IndexOf;
      DotGetStep(Members(), name);
      var d := D.DotPos(name);
      var i := Find(if d == |name| then name else name[..d]);
      if i == |items| { return None; }
      if d == |name| { return Some(items[i].slot); }
      if items[i].slot.Leaf? { return None; }
      r := items[i].slot.o.DotGet(name[d + 1..]);
    }
  }

  /** All objects of a slot. */
  ghost function SlotRepr(slot: Slot): set<object>
    reads if slot.Nested? then {slot.o} else {}
  {
    if slot.Nested? then slot.o.repr else {}
  }

  ghost function SlotValue(slot: Slot): Value
    requires slot.Nested? ==> slot.o.Valid()
    reads if slot.Nested? then {slot.o} + slot.o.repr else {}
  {
    match slot
    case Leaf(v) => v
    case Nested(o) => Obj(o.Members())
  }

  /** A slot that can be hung into a tree with the objects `repr`: it shares none of them. */
  ghost predicate Separate(slot: Slot, repr: set<object>)
    reads if slot.Nested? then {slot.o} + slot.o.repr else {}
  {
    match slot
    case Leaf(v) => !v.Obj?
    case Nested(o) => o.Valid() && o.repr !! repr
  }

  /** A tree in which the nested object `i` was changed, and nothing else. */
  lemma Rejoined(tree: TreeObject, i: nat, ms: seq<Member>)
    requires tree in tree.repr && i < |tree.items| == |ms| && tree.items[i].slot.Nested?
    requires forall j :: 0 <= j < |tree.items| ==> ms[j].key == tree.items[j].key
    requires forall j :: 0 <= j < |tree.items| && tree.items[j].slot.Leaf? ==>
               !tree.items[j].slot.v.Obj? && ms[j].val == tree.items[j].slot.v
    requires forall j :: 0 <= j < |tree.items| && tree.items[j].slot.Nested? ==>
               var o := tree.items[j].slot.o; o in tree.repr && o.repr <= tree.repr && tree !in o.repr && o.Valid()
    requires forall j, k :: 0 <= j < k < |tree.items| && tree.items[j].slot.Nested? && tree.items[k].slot.Nested? ==>
               tree.items[j].slot.o.repr !! tree.items[k].slot.o.repr
    requires forall j :: 0 <= j < |tree.items| && j != i && tree.items[j].slot.Nested? ==>
               ms[j].val == Obj(tree.items[j].slot.o.Members())
    ensures tree.Valid()
    ensures tree.Members() == ms[i := Member(ms[i].key, Obj(tree.items[i].slot.o.Members()))]
  {
    forall j | 0 <= j < |tree.items|
      ensures tree.Members()[j] == if j == i then Member(ms[i].key, Obj(tree.items[i].slot.o.Members())) else ms[j]
    {
      assert tree.Members()[j] == Member(tree.items[j].key, tree.ValueAt(j));
    }
  }

  lemma Siblings(tree: TreeObject, i: nat)
    requires tree.Valid() && i < |tree.items| && tree.items[i].slot.Nested?
    ensures forall j :: 0 <= j < |tree.items| && j != i && tree.items[j].slot.Nested? ==>
              tree.items[j].slot.o.repr !! tree.items[i].slot.o.repr
  {
  }

  lemma DotSetStep(ms: seq<Member>, name: string, value: Value)
    ensures var d, i := D.DotPos(name), IndexOf(ms, name[..D.DotPos(name)]);
            D.DotSet(ms, name, value) ==
            if d == |name| then Some(Assigned(ms, name, value))
            else if i < |ms| && !ms[i].val.Obj? then None
            else
              match D.DotSet(if i < |ms| then ms[i].val.members else [], name[d + 1..], value)
              case None => None
              case Some(sub) =>
                Some(if i < |ms| then ms[i := Member(ms[i].key, Obj(sub))] else Added(ms, name[..d], Obj(sub)))
  {
  }

  lemma DotGetStep(ms: seq<Member>, name: string)
    ensures var d := D.DotPos(name);
            var i := IndexOf(ms, if d == |name| then name else name[..d]);
            D.DotGet(ms, name) ==
            if i == |ms| then None
            else if d == |name| then Some(ms[i].val)
            else if ms[i].val.Obj? then D.DotGet(ms[i].val.members, name[d + 1..])
            else None
  {
  }
}
