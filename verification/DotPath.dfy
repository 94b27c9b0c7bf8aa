/** Dotted paths: json_object_dotget_value and json_object_dotset_value. */
module DotPath {
  import opened Options
  import opened Json

  // ---------------------------------------------------------------- names

  /** strchr(name, '.'): the position of the first dot, or the length. */
  function DotPos(name: string): (d: nat)
    ensures d <= |name| && (d < |name| ==> name[d] == '.') && forall k :: 0 <= k < d ==> name[k] != '.'
  {
    if name == "" || name[0] == '.' then 0 else 1 + DotPos(name[1..])
  }

  function DotGet(ms: seq<Member>, name: string): Option<Value>
    decreases |name|
  {
    var d := DotPos(name);
    if d == |name| then Get(ms, name)
    else match Get(ms, name[..d])
      case Some(Obj(sub)) => DotGet(sub, name[d + 1..])
      case _ => None
  }

  /** A missing level is created, and an existing value that is no object is never overwritten on the way. */
  function DotSet(ms: seq<Member>, name: string, value: Value): Option<seq<Member>>
    decreases |name|
  {
    var d := DotPos(name);
    if d == |name| then Some(Assigned(ms, name, value))
    else match Get(ms, name[..d])
      case Some(Obj(sub)) =>
        (match DotSet(sub, name[d + 1..], value)
         case None => None
         case Some(sub') => Some(Assigned(ms, name[..d], Obj(sub'))))
      case Some(_) => None
      case None =>
        (match DotSet([], name[d + 1..], value)
         case None => None
         case Some(sub') => Some(Added(ms, name[..d], Obj(sub'))))
  }

  // ---------------------------------------------------------------- paths

  /** The keys along a dotted name. */
  function Path(name: string): (path: seq<string>)
    ensures path != []
    decreases |name|
  {
    var d := DotPos(name);
    if d == |name| then [name] else [name[..d]] + Path(name[d + 1..])
  }

  /** The value that a walk along `path` arrives at. */
  function Walk(ms: seq<Member>, path: seq<string>): Option<Value>
    requires path != []
    decreases path
  {
    if |path| == 1 then Get(ms, path[0])
    else match Get(ms, path[0])
      case Some(Obj(sub)) => Walk(sub, path[1..])
      case _ => None
  }

  lemma {:induction false} DotGetWalks(ms: seq<Member>, name: string)
    ensures DotGet(ms, name) == Walk(ms, Path(name))
    decreases |name|
  {
    var d := DotPos(name);
    if d < |name| {
      var path := Path(name);
      assert path[1..] == Path(name[d + 1..]);
      if Get(ms, name[..d]).Some? && Get(ms, name[..d]).value.Obj? {
        DotGetWalks(Get(ms, name[..d]).value.members, name[d + 1..]);
      }
    }
  }

  lemma GetAssigned(ms: seq<Member>, key: string, value: Value, other: string)
    ensures Get(Assigned(ms, key, value), other) == if other == key then Some(value) else Get(ms, other)
  {
    var i, ms' := IndexOf(ms, key), Assigned(ms, key, value);
    FirstIndex(ms', key, i);
    if other != key {
      if Has(ms, other) {
        FirstIndex(ms', other, IndexOf(ms, other));
      } else {
        assert IndexOf(ms', other) == |ms'|;
      }
    }
  }

  lemma FirstIndex(ms: seq<Member>, key: string, i: nat)
    requires i < |ms| && ms[i].key == key && forall j :: 0 <= j < i ==> ms[j].key != key
    ensures IndexOf(ms, key) == i
  {
  }

  /** The object a set at `key` descends into: a missing one counts as empty. */
  function Below(ms: seq<Member>, key: string): Option<seq<Member>> {
    match Get(ms, key)
    case None => Some([])
    case Some(Obj(sub)) => Some(sub)
    case Some(_) => None
  }

  /** A set along a path of keys. */
  function SetPath(ms: seq<Member>, path: seq<string>, value: Value): Option<seq<Member>>
    requires path != []
    decreases path
  {
    if |path| == 1 then Some(Assigned(ms, path[0], value))
    else match Below(ms, path[0])
      case None => None
      case Some(sub) =>
        match SetPath(sub, path[1..], value)
        case None => None
        case Some(sub') => Some(Assigned(ms, path[0], Obj(sub')))
  }

  lemma {:induction false} DotSetIsSetPath(ms: seq<Member>, name: string, value: Value)
    ensures DotSet(ms, name, value) == SetPath(ms, Path(name), value)
    decreases |name|
  {
    var d := DotPos(name);
    if d < |name| {
      assert Path(name)[1..] == Path(name[d + 1..]);
      var below := Below(ms, name[..d]);
      if below.Some? {
        DotSetIsSetPath(below.value, name[d + 1..], value);
      }
    }
  }

  // ---------------------------------------------------------------- laws

  /** The object that a set descends into along `path`. */
  function BelowPath(ms: seq<Member>, path: seq<string>): Option<seq<Member>>
    requires path != []
  {
    match Walk(ms, path)
    case None => Some([])
    case Some(Obj(sub)) => Some(sub)
    case Some(_) => None
  }

  lemma WalkStep(ms: seq<Member>, path: seq<string>)
    requires |path| > 1
    ensures Below(ms, path[0]).Some? ==> Walk(ms, path) == Walk(Below(ms, path[0]).value, path[1..])
    ensures Below(ms, path[0]).None? ==> Walk(ms, path) == None
  {
  }

  /** A set succeeds exactly when no key before the last one holds something other than an object. */
  lemma {:induction false} SetSucceedsIff(ms: seq<Member>, path: seq<string>, value: Value)
    requires path != []
    ensures SetPath(ms, path, value).Some? <==> forall k :: 0 < k < |path| ==> BelowPath(ms, path[..k]).Some?
    decreases path
  {
    if |path| > 1 {
      var rest, below := path[1..], Below(ms, path[0]);
      assert BelowPath(ms, path[..1]).Some? == below.Some?;
      if below.Some? {
        SetSucceedsIff(below.value, rest, value);
        forall k | 1 < k < |path| ensures BelowPath(ms, path[..k]) == BelowPath(below.value, rest[..k - 1]) {
          WalkStep(ms, path[..k]);
          assert path[..k][1..] == rest[..k - 1];
        }
        if SetPath(ms, path, value).Some? {
          forall k | 0 < k < |path| ensures BelowPath(ms, path[..k]).Some? {
            assert k > 1 ==> BelowPath(below.value, rest[..k - 1]).Some?;
          }
        } else {
          var k :| 0 < k < |rest| && BelowPath(below.value, rest[..k]).None?;
          assert BelowPath(ms, path[..k + 1]).None?;
        }
      }
    }
  }

  /** At the path of a set the new value is found, and beyond it the parts of that value. */
  lemma {:induction false} WalkAtOrBeyond(ms: seq<Member>, path: seq<string>, value: Value, more: seq<string>)
    requires path != [] && SetPath(ms, path, value).Some?
    ensures Walk(SetPath(ms, path, value).value, path + more) ==
            if more == [] then Some(value) else if value.Obj? then Walk(value.members, more) else None
    decreases path
  {
    var ms' := SetPath(ms, path, value).value;
    assert path + more == [path[0]] + (path[1..] + more);
    if |path| == 1 {
      GetAssigned(ms, path[0], value, path[0]);
      assert (path + more)[1..] == more;
    } else {
      var sub := Below(ms, path[0]).value;
      GetAssigned(ms, path[0], Obj(SetPath(sub, path[1..], value).value), path[0]);
      WalkAtOrBeyond(sub, path[1..], value, more);
    }
  }

  /** Before the end of the path there are objects, each what it was, or new, with the rest of the path set. */
  lemma {:induction false} WalkBefore(ms: seq<Member>, path: seq<string>, value: Value, k: nat)
    requires 0 < k < |path| && SetPath(ms, path, value).Some?
    ensures BelowPath(ms, path[..k]).Some?
    ensures var inside := SetPath(BelowPath(ms, path[..k]).value, path[k..], value);
            inside.Some? && Walk(SetPath(ms, path, value).value, path[..k]) == Some(Obj(inside.value))
    decreases k
  {
    var sub := Below(ms, path[0]).value;
    GetAssigned(ms, path[0], Obj(SetPath(sub, path[1..], value).value), path[0]);
    if k > 1 {
      WalkBefore(sub, path[1..], value, k - 1);
      assert path[1..][..k - 1] == path[..k][1..];
      assert path[1..][k - 1..] == path[k..];
      WalkStep(ms, path[..k]);
    }
  }

  /** Neither path leads through the other. */
  ghost predicate Unrelated(p: seq<string>, q: seq<string>) {
    !(p <= q) && !(q <= p)
  }

  /** A set leaves alone every path that is neither a prefix nor an extension of its own. */
  lemma {:induction false} WalkElsewhere(ms: seq<Member>, path: seq<string>, value: Value, other: seq<string>)
    requires path != [] && SetPath(ms, path, value).Some? && Unrelated(path, other)
    ensures Walk(SetPath(ms, path, value).value, other) == Walk(ms, other)
    decreases path
  {
    if |path| == 1 {
      GetAssigned(ms, path[0], value, other[0]);
    } else {
      var sub := Below(ms, path[0]).value;
      GetAssigned(ms, path[0], Obj(SetPath(sub, path[1..], value).value), other[0]);
      if other[0] == path[0] {
        assert path == [path[0]] + path[1..] && other == [other[0]] + other[1..];
        WalkElsewhere(sub, path[1..], value, other[1..]);
        WalkStep(ms, other);
      }
    }
  }

  /** A set keeps trees well formed when its keys are C strings. */
  lemma {:induction false} SetKeepsWellFormed(ms: seq<Member>, path: seq<string>, value: Value)
    requires path != [] && SetPath(ms, path, value).Some?
    requires WellFormedMembers(ms) && WellFormed(value) && forall i :: 0 <= i < |path| ==> '\0' !in path[i]
    ensures WellFormedMembers(SetPath(ms, path, value).value)
    decreases path
  {
    if |path| > 1 {
      var sub := Below(ms, path[0]).value;
      SetKeepsWellFormed(sub, path[1..], value);
    }
  }

  /** A successful json_object_dotset_value makes json_object_dotget_value return the value. */
  lemma GetAfterSet(ms: seq<Member>, name: string, value: Value)
    requires DotSet(ms, name, value).Some?
    ensures DotGet(DotSet(ms, name, value).value, name) == Some(value)
  {
    DotSetIsSetPath(ms, name, value);
    DotGetWalks(DotSet(ms, name, value).value, name);
    WalkAtOrBeyond(ms, Path(name), value, []);
    assert Path(name) + [] == Path(name);
  }

  /** The keys of a path with dots between them. */
  function WithDots(path: seq<string>): string
    requires path != []
  {
    if |path| == 1 then path[0] else path[0] + "." + WithDots(path[1..])
  }

  /** The path of a name is its parts between the dots. */
  lemma {:induction false} PathIsBetweenDots(name: string)
    ensures WithDots(Path(name)) == name && forall i :: 0 <= i < |Path(name)| ==> '.' !in Path(name)[i]
    decreases |name|
  {
    var d := DotPos(name);
    if d < |name| {
      PathIsBetweenDots(name[d + 1..]);
      assert Path(name)[1..] == Path(name[d + 1..]);
      assert name == name[..d] + "." + name[d + 1..];
    }
  }

  lemma PathOfKey(key: string)
    requires '.' !in key
    ensures Path(key) == [key]
  {
  }

  lemma PathOfDotted(key: string, rest: string)
    requires '.' !in key
    ensures Path(key + "." + rest) == [key] + Path(rest)
  {
    var name := key + "." + rest;
    assert name[|key|] == '.' && forall k :: 0 <= k < |key| ==> name[k] == key[k];
    assert DotPos(name) == |key|;
    assert name[..|key|] == key && name[|key| + 1..] == rest;
  }
}
