/** A JSON array: a buffer that doubles when it is full. */
module ArrayBuffer {
  import opened Json

  class JsonArray {
    var items: array<Value>
    var count: nat
    var capacity: nat

    ghost predicate Valid()
      reads this
    {
      count <= capacity == items.Length
    }

    function Contents(): (vs: seq<Value>)
      requires Valid()
      reads this, items
    {
      items[..count]
    }

    constructor ()
      ensures Valid() && fresh(items) && Contents() == []
    {
      items := new Value[0];
      count, capacity := 0, 0;
    }

    /** json_array_resize: fails on capacity 0. */
    method Resize(newCapacity: nat) returns (ok: bool)
      requires Valid() && count <= newCapacity
      modifies this
      ensures Valid() && ok == (newCapacity != 0) && Contents() == old(Contents())
      ensures if ok then fresh(items) && capacity == newCapacity else items == old(items)
    {
      if newCapacity == 0 { return false; }
      var newItems := new Value[newCapacity];
      for i := 0 to count
        invariant unchanged(this)
        invariant forall j :: 0 <= j < i ==> newItems[j] == items[j]
      {
        newItems[i] := items[i];
      }
      items, capacity := newItems, newCapacity;
      ok := true;
      assert items[..count] == old(items[..count]);
    }

    method Add(value: Value)
      requires Valid()
      modifies this, items
      ensures Valid() && (items == old(items) || fresh(items))
      ensures Contents() == old(Contents()) + [value]
    {
      if count >= capacity {
        var ok := Resize(if capacity * 2 > 16 then capacity * 2 else 16);
      }
      items[count] := value;
      count := count + 1;
    }
  }
}

/** The parsing loops over a text and a cursor, filling tables and arrays, against the functions of `Parser`. */
module ParserLoops {
  import opened Options
  import opened Json
  import opened ObjectTable
  import opened ArrayBuffer
  import opened CString
  import opened StringLiteral
  import opened Numeral
  import P = Parser

  method SkipWhitespaces(s: string, p: nat) returns (q: nat)
    ensures q == SkipSpaces(s, p)
  {
    q := p;
    while IsSpace(At(s, q))
      invariant SkipSpaces(s, q) == SkipSpaces(s, p)
      decreases |s| - q
    {
      q := q + 1;
    }
  }

  method ParseValue(s: string, p: nat, nesting: nat) returns (r: Option<P.Parsed>)
    ensures r == P.ParseValue(s, p, nesting, P.MAX_NESTING)
    decreases |s| - SkipSpaces(s, p), 3
  {
    if nesting > P.MAX_NESTING { return None; }
    var q := SkipWhitespaces(s, p);
    var c := At(s, q);
    if c == '{' {
      r := ParseObjectValue(s, q, nesting + 1);
    } else if c == '[' {
      r := ParseArrayValue(s, q, nesting + 1);
    } else if c == '\"' {
      var piece := GetQuotedString(s, q);
      r := if piece.None? then None else Some(P.Parsed(Str(piece.value.out), piece.value.next));
    } else if c == 'f' || c == 't' {
      r := if OccursAt(s, q, "true") then P.Literal(s, q, "true", Bool(true))
           else P.Literal(s, q, "false", Bool(false));
    } else if c == '-' || IsDigit(c) {
      var number := ParseNumber(s, q);
      r := if number.None? then None else Some(P.Parsed(Num(number.value.value), number.value.next));
    } else if c == 'n' {
      r := P.Literal(s, q, "null", Null);
    } else {
      r := None;
    }
  }

  /** Steps over the comma after an element, unless the list ends there. */
  method SkipSeparator(s: string, p: nat, closer: char) returns (more: bool, q: nat)
    ensures P.AfterElement(s, p, closer) == if more then P.More(q) else P.Stop(q)
  {
    q := SkipWhitespaces(s, p);
    if At(s, q) != ',' { return false, q; }
    q := SkipWhitespaces(s, q + 1);
    more := At(s, q) != closer;
  }

  method ParseMember(s: string, p: nat, nesting: nat) returns (r: Option<P.ParsedMember>)
    ensures r == P.ParseMember(s, p, nesting, P.MAX_NESTING)
    decreases |s| - p, 1
  {
    hide P.ParseValue, P.Stepped, QuotedString;
    var key := GetQuotedString(s, p);
    if key.None? { return None; }
    if '\0' in key.value.out { return None; }
    var colon := SkipWhitespaces(s, key.value.next);
    if At(s, colon) != ':' { return None; }
    var parsed := ParseValue(s, colon + 1, nesting);
    if parsed.None? { return None; }
    r := Some(P.ParsedMember(Member(key.value.out, parsed.value.val), parsed.value.next));
  }

  method ParseObjectValue(s: string, p: nat, nesting: nat) returns (r: Option<P.Parsed>)
    requires At(s, p) == '{'
    ensures r == P.ParseObject(s, p, nesting, P.MAX_NESTING)
    decreases |s| - p, 2
  {
    hide P.ParseMembers, P.Stepped, JsonObject.Valid, IndexOf, HashString;
    var obj := new JsonObject.Init(HashString, 0);
    var q := SkipWhitespaces(s, p + 1);
    if At(s, q) == '}' { return Some(P.Parsed(Obj([]), q + 1)); }
    var ok, next := ParseMembersInto(obj, s, q, nesting);
    if !ok { return None; }
    var end := SkipWhitespaces(s, next);
    if At(s, end) != '}' { return None; }
    r := Some(P.Parsed(Obj(obj.Contents()), end + 1));
  }

  /** The member loop of parse_object_value. */
  method ParseMembersInto(obj: JsonObject, s: string, p: nat, nesting: nat) returns (ok: bool, q: nat)
    requires obj.Valid()
    modifies obj.Repr()
    ensures obj.Valid() && fresh(obj.Repr() - old(obj.Repr()))
    ensures var r := P.ParseMembers(s, p, nesting, P.MAX_NESTING, old(obj.Contents()));
            ok == r.Some? && (ok ==> r.value == P.ParsedMembers(obj.Contents(), q))
    decreases |s| - p, 2
  {
    hide P.ParseMembers, P.ParseMember, P.AfterElement, P.Stepped;
    hide Layout, InStep, IndexOf, JsonObject.Valid, JsonObject.Shape;
    q := p;
    while At(s, q) != '\0'
      invariant p <= q
      invariant obj.Valid() && fresh(obj.Repr() - old(obj.Repr()))
      invariant P.ParseMembers(s, p, nesting, P.MAX_NESTING, old(obj.Contents())) ==
                P.ParseMembers(s, q, nesting, P.MAX_NESTING, obj.Contents())
      decreases |s| - q
    {
      UnfoldMembers(s, q, nesting, P.MAX_NESTING, obj.Contents());
      var parsed := ParseMember(s, q, nesting);
      if parsed.None? { return false, q; }
      var added := obj.Add(parsed.value.member.key, parsed.value.member.val);
      if !added { return false, q; }
      var more;
      more, q := SkipSeparator(s, parsed.value.next, '}');
      if !more { return true, q; }
    }
    UnfoldMembers(s, q, nesting, P.MAX_NESTING, obj.Contents());
    ok := true;
  }

  lemma UnfoldMembers(s: string, p: nat, nesting: nat, limit: nat, acc: seq<Member>)
    ensures P.ParseMembers(s, p, nesting, limit, acc) ==
            if At(s, p) == '\0' then Some(P.ParsedMembers(acc, p))
            else match P.ParseMember(s, p, nesting, limit)
              case None => None
              case Some(parsed) =>
                if Has(acc, parsed.member.key) then None
                else match P.AfterElement(s, parsed.next, '}')
                  case Stop(at) => Some(P.ParsedMembers(acc + [parsed.member], at))
                  case More(at) => P.ParseMembers(s, at, nesting, limit, acc + [parsed.member])
  {
  }

  method ParseArrayValue(s: string, p: nat, nesting: nat) returns (r: Option<P.Parsed>)
    requires At(s, p) == '['
    ensures r == P.ParseArray(s, p, nesting, P.MAX_NESTING)
    decreases |s| - p, 2
  {
    hide P.ParseItems, P.Stepped;
    var arr := new JsonArray();
    var q := SkipWhitespaces(s, p + 1);
    if At(s, q) == ']' { return Some(P.Parsed(Arr([]), q + 1)); }
    var ok, next := ParseItemsInto(arr, s, q, nesting);
    if !ok { return None; }
    var end := SkipWhitespaces(s, next);
    if At(s, end) != ']' { return None; }
    var trimmed := arr.Resize(arr.count);
    if !trimmed { return None; }
    r := Some(P.Parsed(Arr(arr.Contents()), end + 1));
  }

  /** The item loop of parse_array_value. A list that ends at its closer has items, so trimming it works. */
  method ParseItemsInto(arr: JsonArray, s: string, p: nat, nesting: nat) returns (ok: bool, q: nat)
    requires arr.Valid()
    modifies arr, arr.items
    ensures arr.Valid() && (arr.items == old(arr.items) || fresh(arr.items))
    ensures var r := P.ParseItems(s, p, nesting, P.MAX_NESTING, old(arr.Contents()));
            ok == r.Some? && (ok ==> r.value == P.ParsedItems(arr.Contents(), q))
    ensures ok ==> arr.count > 0 || At(s, q) == '\0'
    decreases |s| - p, 5
  {
    hide P.ParseItems, P.ParseValue, P.AfterElement, P.Stepped;
    q := p;
    while At(s, q) != '\0'
      invariant p <= q
      invariant arr.Valid() && (arr.items == old(arr.items) || fresh(arr.items))
      invariant P.ParseItems(s, p, nesting, P.MAX_NESTING, old(arr.Contents())) ==
                P.ParseItems(s, q, nesting, P.MAX_NESTING, arr.Contents())
      decreases |s| - q
    {
      UnfoldItems(s, q, nesting, P.MAX_NESTING, arr.Contents());
      var parsed := ParseValue(s, q, nesting);
      if parsed.None? { return false, q; }
      arr.Add(parsed.value.val);
      var more;
      more, q := SkipSeparator(s, parsed.value.next, ']');
      if !more { return true, q; }
    }
    UnfoldItems(s, q, nesting, P.MAX_NESTING, arr.Contents());
    ok := true;
  }

  lemma UnfoldItems(s: string, p: nat, nesting: nat, limit: nat, acc: seq<Value>)
    ensures P.ParseItems(s, p, nesting, limit, acc) ==
            if At(s, p) == '\0' then Some(P.ParsedItems(acc, p))
            else match P.ParseValue(s, p, nesting, limit)
              case None => None
              case Some(parsed) =>
                match P.AfterElement(s, parsed.next, ']')
                case Stop(at) => Some(P.ParsedItems(acc + [parsed.val], at))
                case More(at) => P.ParseItems(s, at, nesting, limit, acc + [parsed.val])
  {
  }

  /** json_parse_string. */
  method ParseString(s: string) returns (r: Option<Value>)
    ensures r == P.ParseString(s)
  {
    hide P.ParseValue;
    var start := 0;
    if At(s, 0) == 0xEF as char && At(s, 1) == 0xBB as char && At(s, 2) == 0xBF as char {
      start := 3;
    }
    var parsed := ParseValue(s, start, 0);
    r := if parsed.None? then None else Some(parsed.value.val);
  }
}
