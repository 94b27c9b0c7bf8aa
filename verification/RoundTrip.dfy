/** Parsing what the serializer wrote gives the tree back. */
module RoundTrip {
  import opened Options
  import opened Json
  import opened CString
  import opened StringLiteral
  import opened Decimals
  import opened Doubles
  import opened Numeral
  import opened Serializer
  import opened Parser

  // ---------------------------------------------------------------- white space

  ghost predicate AllSpaces(s: string, p: nat, q: nat) {
    p <= q && forall k :: p <= k < q ==> IsSpace(At(s, k))
  }

  lemma {:induction false} SkipThrough(s: string, p: nat, q: nat)
    requires AllSpaces(s, p, q)
    ensures SkipSpaces(s, p) == SkipSpaces(s, q)
    decreases q - p
  {
    if p < q {
      assert IsSpace(At(s, p));
      SkipThrough(s, p + 1, q);
    }
  }

  lemma OccursSpaces(s: string, p: nat, t: string)
    requires OccursAt(s, p, t) && forall k :: 0 <= k < |t| ==> IsSpace(t[k])
    ensures AllSpaces(s, p, p + |t|) && SkipSpaces(s, p) == SkipSpaces(s, p + |t|)
  {
    forall k | p <= k < p + |t| ensures IsSpace(At(s, k)) {
      OccursChar(s, p, t, k - p);
    }
    SkipThrough(s, p, p + |t|);
  }

  /** A value's text starts with a character that begins a value and closes nothing. */
  lemma FirstChar(v: Value, level: nat, style: Style)
    requires Printable(v)
    ensures var t := Text(v, level, style);
            && |t| > 0 && !IsSpace(t[0]) && t[0] != '\0' && t[0] != ']' && t[0] != '}' && t[0] != ','
  {
  }

  lemma StartsAtFirstChar(s: string, p: nat, v: Value, level: nat, style: Style)
    requires Printable(v) && OccursAt(s, p, Text(v, level, style))
    ensures SkipSpaces(s, p) == p && At(s, p) == Text(v, level, style)[0]
  {
    FirstChar(v, level, style);
    OccursChar(s, p, Text(v, level, style), 0);
  }

  lemma ParseFromSpaces(s: string, p: nat, q: nat, nesting: nat, limit: nat)
    requires SkipSpaces(s, p) == q && SkipSpaces(s, q) == q && ParseValue(s, q, nesting, limit).Some?
    ensures p <= q && ParseValue(s, p, nesting, limit) == ParseValue(s, q, nesting, limit)
  {
  }

  // ---------------------------------------------------------------- separators

  lemma LineBreakIsSpace(style: Style)
    ensures forall k :: 0 <= k < |IfPretty(style, "\n")| ==> IsSpace(IfPretty(style, "\n")[k])
  {
  }

  lemma IndentIsSpace(level: nat, style: Style)
    ensures forall k :: 0 <= k < |IfPretty(style, Indent(level))| ==> IsSpace(IfPretty(style, Indent(level))[k])
  {
  }

  /** The last element is followed by the closer. */
  lemma LastElementEnds(s: string, p: nat, style: Style, closer: char)
    requires closer == ']' || closer == '}'
    requires OccursAt(s, p, ElementEnd(true, style))
    requires At(s, SkipSpaces(s, p + |ElementEnd(true, style)|)) == closer
    ensures AfterElement(s, p, closer) == Stop(SkipSpaces(s, p + |ElementEnd(true, style)|))
    ensures !ExtendsNumber(At(s, p))
  {
    assert ElementEnd(true, style) == IfPretty(style, "\n");
    LineBreakIsSpace(style);
    OccursSpaces(s, p, IfPretty(style, "\n"));
    assert IsSpace(At(s, p)) || SkipSpaces(s, p) == p;
  }

  /** An inner element is followed by a comma and the start of the next one. */
  lemma InnerElementContinues(s: string, p: nat, style: Style, closer: char)
    requires OccursAt(s, p, ElementEnd(false, style))
    requires At(s, SkipSpaces(s, p + |ElementEnd(false, style)|)) != closer
    ensures AfterElement(s, p, closer) == More(SkipSpaces(s, p + |ElementEnd(false, style)|))
    ensures !ExtendsNumber(At(s, p))
  {
    OccursSplit(s, p, ",", IfPretty(style, "\n"));
    OccursChar(s, p, ",", 0);
    LineBreakIsSpace(style);
    OccursSpaces(s, p + 1, IfPretty(style, "\n"));
  }

  // ---------------------------------------------------------------- arrays

  lemma NothingLeft(level: nat, style: Style)
    ensures ItemsText([], level, style) == "" && MembersText([], level, style) == ""
  {
  }

  /** The parts of the text of an item list. */
  lemma ItemsParts(s: string, p: nat, items: seq<Value>, level: nat, style: Style)
    requires items != [] && PrintableItems(items) && OccursAt(s, p, ItemsText(items, level, style))
    ensures var start := p + |IfPretty(style, Indent(level + 1))|;
            var end := start + |Text(items[0], level + 1, style)|;
            var next := end + |ElementEnd(|items| == 1, style)|;
            && SkipSpaces(s, p) == start
            && OccursAt(s, start, Text(items[0], level + 1, style))
            && OccursAt(s, end, ElementEnd(|items| == 1, style))
            && OccursAt(s, next, ItemsText(items[1..], level, style))
            && next + |ItemsText(items[1..], level, style)| == p + |ItemsText(items, level, style)|
            && (|items| == 1 ==> ItemsText(items[1..], level, style) == "")
  {
    hide OccursAt, Text, ElementEnd, Indent;
    var ind, t, ee := IfPretty(style, Indent(level + 1)), Text(items[0], level + 1, style),
                      ElementEnd(|items| == 1, style);
    var rest := ItemsText(items[1..], level, style);
    OccursSplit(s, p, ind + t + ee, rest);
    OccursSplit(s, p, ind + t, ee);
    OccursSplit(s, p, ind, t);
    IndentIsSpace(level + 1, style);
    OccursSpaces(s, p, ind);
    StartsAtFirstChar(s, p + |ind|, items[0], level + 1, style);
  }

  /** The first item of a list parses, and the list goes on or ends as it should. */
  lemma {:induction false} FirstItemRoundTrip(items: seq<Value>, s: string, p: nat, level: nat, style: Style,
                                              nesting: nat, limit: nat)
    requires items != [] && PrintableItems(items)
    requires WellFormed(items[0]) && nesting + Level(items[0]) <= limit
    requires OccursAt(s, p, ItemsText(items, level, style))
    requires At(s, SkipSpaces(s, p + |ItemsText(items, level, style)|)) == ']'
    ensures var end := SkipSpaces(s, p) + |Text(items[0], level + 1, style)|;
            var next := end + |ElementEnd(|items| == 1, style)|;
            && At(s, SkipSpaces(s, p)) != '\0'
            && ParseValue(s, SkipSpaces(s, p), nesting, limit) == Some(Parsed(items[0], end))
            && OccursAt(s, next, ItemsText(items[1..], level, style))
            && next + |ItemsText(items[1..], level, style)| == p + |ItemsText(items, level, style)|
            && AfterElement(s, end, ']') ==
               if |items| == 1 then Stop(SkipSpaces(s, next)) else More(SkipSpaces(s, next))
    decreases items, 0
  {
    hide OccursAt, Text, ElementEnd, Indent, AfterElement, ParseValue, SkipSpaces, Stepped, ExtendsNumber, ItemsText;
    ItemsParts(s, p, items, level, style);
    var start := SkipSpaces(s, p);
    var end := start + |Text(items[0], level + 1, style)|;
    FirstChar(items[0], level + 1, style);
    StartsAtFirstChar(s, start, items[0], level + 1, style);
    if |items| == 1 {
      LastElementEnds(s, end, style, ']');
    } else {
      var next := end + |ElementEnd(false, style)|;
      ItemsParts(s, next, items[1..], level, style);
      FirstChar(items[1], level + 1, style);
      StartsAtFirstChar(s, SkipSpaces(s, next), items[1], level + 1, style);
      InnerElementContinues(s, end, style, ']');
    }
    ValueRoundTrip(items[0], s, start, level + 1, style, nesting, limit);
  }

  lemma {:induction false} ItemsRoundTrip(items: seq<Value>, s: string, p: nat, level: nat, style: Style,
                                          nesting: nat, limit: nat, acc: seq<Value>)
    requires items != [] && PrintableItems(items)
    requires forall i :: 0 <= i < |items| ==> WellFormed(items[i])
    requires nesting + ItemsLevel(items) <= limit + 1
    requires OccursAt(s, p, ItemsText(items, level, style))
    requires At(s, SkipSpaces(s, p + |ItemsText(items, level, style)|)) == ']'
    ensures ParseItems(s, SkipSpaces(s, p), nesting, limit, acc) ==
            Some(ParsedItems(acc + items, SkipSpaces(s, p + |ItemsText(items, level, style)|)))
    decreases items, 1
  {
    hide OccursAt, Text, ElementEnd, Indent, AfterElement, ParseValue, SkipSpaces, Stepped, WellFormed, Printable,
         ItemsText;
    FirstItemRoundTrip(items, s, p, level, style, nesting, limit);
    var next := SkipSpaces(s, p) + |Text(items[0], level + 1, style)| + |ElementEnd(|items| == 1, style)|;
    if |items| == 1 {
      NothingLeft(level, style);
      assert items[1..] == [] && acc + items == acc + [items[0]];
    } else {
      ItemsRoundTrip(items[1..], s, next, level, style, nesting, limit, acc + [items[0]]);
      assert acc + items == acc + [items[0]] + items[1..];
    }
  }

  // ---------------------------------------------------------------- objects

  lemma MembersParts(s: string, p: nat, ms: seq<Member>, level: nat, style: Style)
    requires ms != [] && PrintableMembers(ms) && OccursAt(s, p, MembersText(ms, level, style))
    ensures var key := p + |IfPretty(style, Indent(level + 1))|;
            var start := key + |KeyText(ms[0].key, style)|;
            var end := start + |Text(ms[0].val, level + 1, style)|;
            var next := end + |ElementEnd(|ms| == 1, style)|;
            && SkipSpaces(s, p) == key && At(s, key) == '\"'
            && OccursAt(s, key, KeyText(ms[0].key, style))
            && OccursAt(s, start, Text(ms[0].val, level + 1, style))
            && OccursAt(s, end, ElementEnd(|ms| == 1, style))
            && OccursAt(s, next, MembersText(ms[1..], level, style))
            && next + |MembersText(ms[1..], level, style)| == p + |MembersText(ms, level, style)|
            && (|ms| == 1 ==> MembersText(ms[1..], level, style) == "")
  {
    hide OccursAt, Text, ElementEnd, Indent;
    var ind, k, t, ee := IfPretty(style, Indent(level + 1)), KeyText(ms[0].key, style),
                         Text(ms[0].val, level + 1, style), ElementEnd(|ms| == 1, style);
    var rest := MembersText(ms[1..], level, style);
    OccursSplit(s, p, ind + k + t + ee, rest);
    OccursSplit(s, p, ind + k + t, ee);
    OccursSplit(s, p, ind + k, t);
    OccursSplit(s, p, ind, k);
    IndentIsSpace(level + 1, style);
    OccursSpaces(s, p, ind);
    OccursChar(s, p + |ind|, k, 0);
  }

  lemma KeyParts(s: string, p: nat, key: string, style: Style)
    requires OccursAt(s, p, KeyText(key, style))
    ensures var colon := p + |Quote(key, style.escapeSlashes)|;
            && QuotedString(s, p) == Some(Piece(key, colon))
            && At(s, colon) == ':' && SkipSpaces(s, colon) == colon
            && SkipSpaces(s, colon + 1) == SkipSpaces(s, p + |KeyText(key, style)|)
  {
    hide OccursAt, Quote, QuotedString;
    var quoted := Quote(key, style.escapeSlashes);
    OccursSplit(s, p, quoted + ":", IfPretty(style, " "));
    OccursSplit(s, p, quoted, ":");
    QuoteRoundTrip(s, p, key, style.escapeSlashes);
    OccursChar(s, p + |quoted|, ":", 0);
    OccursSpaces(s, p + |quoted| + 1, IfPretty(style, " "));
  }

  lemma MemberRoundTrip(m: Member, s: string, p: nat, level: nat, style: Style, nesting: nat, limit: nat)
    requires Printable(m.val) && WellFormed(m.val) && nesting + Level(m.val) <= limit && '\0' !in m.key
    requires OccursAt(s, p, KeyText(m.key, style))
    requires OccursAt(s, p + |KeyText(m.key, style)|, Text(m.val, level, style))
    requires !ExtendsNumber(At(s, p + |KeyText(m.key, style)| + |Text(m.val, level, style)|))
    ensures ParseMember(s, p, nesting, limit) ==
            Some(ParsedMember(m, p + |KeyText(m.key, style)| + |Text(m.val, level, style)|))
    decreases m.val, 3
  {
    hide OccursAt, Text, Quote, QuotedString, KeyText, ExtendsNumber, SkipSpaces, ParseValue, Stepped, Printable,
         WellFormed, Level;
    var start := p + |KeyText(m.key, style)|;
    KeyParts(s, p, m.key, style);
    StartsAtFirstChar(s, start, m.val, level, style);
    ValueRoundTrip(m.val, s, start, level, style, nesting, limit);
    ParseFromSpaces(s, p + |Quote(m.key, style.escapeSlashes)| + 1, start, nesting, limit);
  }

  /** The first member of a list parses, and the list goes on or ends as it should. */
  lemma {:induction false} FirstMemberRoundTrip(ms: seq<Member>, s: string, p: nat, level: nat, style: Style,
                                                nesting: nat, limit: nat)
    requires ms != [] && PrintableMembers(ms) && '\0' !in ms[0].key
    requires WellFormed(ms[0].val) && nesting + Level(ms[0].val) <= limit
    requires OccursAt(s, p, MembersText(ms, level, style))
    requires At(s, SkipSpaces(s, p + |MembersText(ms, level, style)|)) == '}'
    ensures var end := SkipSpaces(s, p) + |KeyText(ms[0].key, style)| + |Text(ms[0].val, level + 1, style)|;
            var next := end + |ElementEnd(|ms| == 1, style)|;
            && At(s, SkipSpaces(s, p)) != '\0'
            && ParseMember(s, SkipSpaces(s, p), nesting, limit) == Some(ParsedMember(ms[0], end))
            && OccursAt(s, next, MembersText(ms[1..], level, style))
            && next + |MembersText(ms[1..], level, style)| == p + |MembersText(ms, level, style)|
            && AfterElement(s, end, '}') ==
               if |ms| == 1 then Stop(SkipSpaces(s, next)) else More(SkipSpaces(s, next))
    decreases ms, 0
  {
    hide OccursAt, Text, KeyText, ElementEnd, Indent, AfterElement, ParseMember, SkipSpaces, Stepped, ExtendsNumber,
         MembersText;
    MembersParts(s, p, ms, level, style);
    var key := SkipSpaces(s, p);
    var end := key + |KeyText(ms[0].key, style)| + |Text(ms[0].val, level + 1, style)|;
    if |ms| == 1 {
      LastElementEnds(s, end, style, '}');
    } else {
      MembersParts(s, end + |ElementEnd(false, style)|, ms[1..], level, style);
      InnerElementContinues(s, end, style, '}');
    }
    MemberRoundTrip(ms[0], s, key, level + 1, style, nesting, limit);
  }

  lemma {:induction false} MembersRoundTrip(ms: seq<Member>, s: string, p: nat, level: nat, style: Style,
                                            nesting: nat, limit: nat, acc: seq<Member>)
    requires ms != [] && PrintableMembers(ms) && UniqueKeys(acc + ms)
    requires forall i :: 0 <= i < |ms| ==> '\0' !in ms[i].key && WellFormed(ms[i].val)
    requires nesting + MembersLevel(ms) <= limit + 1
    requires OccursAt(s, p, MembersText(ms, level, style))
    requires At(s, SkipSpaces(s, p + |MembersText(ms, level, style)|)) == '}'
    ensures ParseMembers(s, SkipSpaces(s, p), nesting, limit, acc) ==
            Some(ParsedMembers(acc + ms, SkipSpaces(s, p + |MembersText(ms, level, style)|)))
    decreases ms, 1
  {
    hide OccursAt, Text, KeyText, ElementEnd, Indent, AfterElement, ParseMember, SkipSpaces, Stepped, WellFormed,
         Printable, UniqueKeys, Has, MembersText;
    FirstMemberRoundTrip(ms, s, p, level, style, nesting, limit);
    var next := SkipSpaces(s, p) + |KeyText(ms[0].key, style)| + |Text(ms[0].val, level + 1, style)|
                + |ElementEnd(|ms| == 1, style)|;
    KeyIsNew(acc, ms);
    if |ms| == 1 {
      NothingLeft(level, style);
      assert ms[1..] == [] && acc + ms == acc + [ms[0]];
    } else {
      assert acc + ms == acc + [ms[0]] + ms[1..];
      MembersRoundTrip(ms[1..], s, next, level, style, nesting, limit, acc + [ms[0]]);
    }
  }

  lemma KeyIsNew(acc: seq<Member>, ms: seq<Member>)
    requires ms != [] && UniqueKeys(acc + ms)
    ensures !Has(acc, ms[0].key)
  {
    forall i | 0 <= i < |acc| ensures acc[i].key != ms[0].key {
      assert (acc + ms)[i] == acc[i] && (acc + ms)[|acc|] == ms[0];
    }
  }

  // ---------------------------------------------------------------- values

  /** Text `open + "\n" + body + indent + close`, as parsed from its opening bracket. */
  lemma BracketParts(s: string, p: nat, open: string, body: string, level: nat, style: Style, close: string)
    requires |open| == |close| == 1 && !IsSpace(close[0])
    requires OccursAt(s, p, open + IfPretty(style, "\n") + body + IfPretty(style, Indent(level)) + close)
    ensures var start := p + 1 + |IfPretty(style, "\n")|;
            var end := start + |body|;
            && At(s, p) == open[0]
            && OccursAt(s, start, body)
            && SkipSpaces(s, p + 1) == SkipSpaces(s, start)
            && SkipSpaces(s, end) == end + |IfPretty(style, Indent(level))|
            && At(s, SkipSpaces(s, end)) == close[0]
  {
    hide OccursAt, Indent;
    var nl, ind := IfPretty(style, "\n"), IfPretty(style, Indent(level));
    OccursSplit(s, p, open + nl + body + ind, close);
    OccursSplit(s, p, open + nl + body, ind);
    OccursSplit(s, p, open + nl, body);
    OccursSplit(s, p, open, nl);
    OccursChar(s, p, open, 0);
    LineBreakIsSpace(style);
    OccursSpaces(s, p + 1, nl);
    IndentIsSpace(level, style);
    OccursSpaces(s, p + 1 + |nl| + |body|, ind);
    OccursChar(s, p + 1 + |nl| + |body| + |ind|, close, 0);
  }

  lemma ArrayParts(s: string, p: nat, items: seq<Value>, level: nat, style: Style)
    requires items != [] && Printable(Arr(items)) && OccursAt(s, p, Text(Arr(items), level, style))
    ensures var start := p + 1 + |IfPretty(style, "\n")|;
            var end := start + |ItemsText(items, level, style)|;
            && At(s, p) == '[' && SkipSpaces(s, p + 1) == SkipSpaces(s, start)
            && OccursAt(s, start, ItemsText(items, level, style))
            && At(s, SkipSpaces(s, end)) == ']'
            && SkipSpaces(s, end) + 1 == p + |Text(Arr(items), level, style)|
  {
    hide OccursAt, ItemsText, Indent, IfPretty, SkipSpaces;
    BracketParts(s, p, "[", ItemsText(items, level, style), level, style, "]");
  }

  lemma ObjectParts(s: string, p: nat, ms: seq<Member>, level: nat, style: Style)
    requires ms != [] && Printable(Obj(ms)) && OccursAt(s, p, Text(Obj(ms), level, style))
    ensures var start := p + 1 + |IfPretty(style, "\n")|;
            var end := start + |MembersText(ms, level, style)|;
            && At(s, p) == '{' && SkipSpaces(s, p + 1) == SkipSpaces(s, start)
            && OccursAt(s, start, MembersText(ms, level, style))
            && At(s, SkipSpaces(s, end)) == '}'
            && SkipSpaces(s, end) + 1 == p + |Text(Obj(ms), level, style)|
  {
    hide OccursAt, MembersText, Indent, IfPretty, SkipSpaces;
    BracketParts(s, p, "{", MembersText(ms, level, style), level, style, "}");
  }

  lemma ArrayRoundTrip(items: seq<Value>, s: string, p: nat, level: nat, style: Style, nesting: nat, limit: nat)
    requires Printable(Arr(items)) && WellFormed(Arr(items)) && nesting + ItemsLevel(items) <= limit + 1
    requires OccursAt(s, p, Text(Arr(items), level, style))
    ensures At(s, p) == '['
    ensures ParseArray(s, p, nesting, limit) == Some(Parsed(Arr(items), p + |Text(Arr(items), level, style)|))
    decreases items, 3
  {
    if items == [] {
      EmptyBrackets(s, p, "[]");
    } else {
      FullArrayRoundTrip(items, s, p, level, style, nesting, limit);
    }
  }

  lemma FullArrayRoundTrip(items: seq<Value>, s: string, p: nat, level: nat, style: Style, nesting: nat, limit: nat)
    requires items != []
    requires Printable(Arr(items)) && WellFormed(Arr(items)) && nesting + ItemsLevel(items) <= limit + 1
    requires OccursAt(s, p, Text(Arr(items), level, style))
    ensures At(s, p) == '['
    ensures ParseArray(s, p, nesting, limit) == Some(Parsed(Arr(items), p + |Text(Arr(items), level, style)|))
    decreases items, 2
  {
    hide OccursAt, Text, ItemsText, ParseItems, ItemsLevel, Indent, IfPretty, SkipSpaces, Stepped;
    var start := p + 1 + |IfPretty(style, "\n")|;
    ArrayParts(s, p, items, level, style);
    ItemsParts(s, start, items, level, style);
    FirstChar(items[0], level + 1, style);
    StartsAtFirstChar(s, SkipSpaces(s, start), items[0], level + 1, style);
    ItemsRoundTrip(items, s, start, level, style, nesting, limit, []);
    assert [] + items == items;
  }

  lemma ObjectRoundTrip(ms: seq<Member>, s: string, p: nat, level: nat, style: Style, nesting: nat, limit: nat)
    requires Printable(Obj(ms)) && WellFormed(Obj(ms)) && nesting + MembersLevel(ms) <= limit + 1
    requires OccursAt(s, p, Text(Obj(ms), level, style))
    ensures At(s, p) == '{'
    ensures ParseObject(s, p, nesting, limit) == Some(Parsed(Obj(ms), p + |Text(Obj(ms), level, style)|))
    decreases ms, 3
  {
    if ms == [] {
      EmptyBrackets(s, p, "{}");
    } else {
      FullObjectRoundTrip(ms, s, p, level, style, nesting, limit);
    }
  }

  lemma FullObjectRoundTrip(ms: seq<Member>, s: string, p: nat, level: nat, style: Style, nesting: nat, limit: nat)
    requires ms != []
    requires Printable(Obj(ms)) && WellFormed(Obj(ms)) && nesting + MembersLevel(ms) <= limit + 1
    requires OccursAt(s, p, Text(Obj(ms), level, style))
    ensures At(s, p) == '{'
    ensures ParseObject(s, p, nesting, limit) == Some(Parsed(Obj(ms), p + |Text(Obj(ms), level, style)|))
    decreases ms, 2
  {
    hide OccursAt, Text, MembersText, ParseMembers, MembersLevel, Indent, IfPretty, SkipSpaces, Stepped, WellFormed,
         Printable, UniqueKeys;
    var start := p + 1 + |IfPretty(style, "\n")|;
    ObjectIsBuilt(ms);
    ObjectParts(s, p, ms, level, style);
    MembersParts(s, start, ms, level, style);
    assert [] + ms == ms;
    MembersRoundTrip(ms, s, start, level, style, nesting, limit, []);
  }

  lemma ObjectIsBuilt(ms: seq<Member>)
    requires Printable(Obj(ms)) && WellFormed(Obj(ms))
    ensures PrintableMembers(ms) && UniqueKeys(ms)
    ensures forall i :: 0 <= i < |ms| ==> '\0' !in ms[i].key && WellFormed(ms[i].val)
  {
  }

  lemma EmptyBrackets(s: string, p: nat, t: string)
    requires |t| == 2 && OccursAt(s, p, t) && !IsSpace(t[1])
    ensures At(s, p) == t[0] && At(s, p + 1) == t[1] && SkipSpaces(s, p + 1) == p + 1
  {
    OccursChar(s, p, t, 0);
    OccursChar(s, p, t, 1);
  }

  lemma LiteralRoundTrip(s: string, p: nat, t: string)
    requires t == "null" || t == "true" || t == "false"
    requires OccursAt(s, p, t)
    ensures At(s, p) == t[0] && SkipSpaces(s, p) == p
    ensures t == "false" ==> !OccursAt(s, p, "true")
  {
    OccursChar(s, p, t, 0);
    if OccursAt(s, p, "true") {
      OccursChar(s, p, "true", 0);
    }
  }

  /** Parsing the text of a tree anywhere in a larger text gives the tree, in the same key order, and leaves
      exactly what follows, when that cannot extend a number. */
  lemma {:induction false} ValueRoundTrip(v: Value, s: string, p: nat, level: nat, style: Style,
                                          nesting: nat, limit: nat)
    requires Printable(v) && WellFormed(v) && nesting + Level(v) <= limit
    requires OccursAt(s, p, Text(v, level, style))
    requires v.Num? ==> !ExtendsNumber(At(s, p + |Text(v, level, style)|))
    ensures ParseValue(s, p, nesting, limit) == Some(Parsed(v, p + |Text(v, level, style)|))
    decreases v, 2
  {
    hide OccursAt, ParseArray, ParseObject, ParseValue, ExtendsNumber, ParseNumber, QuotedString, IsDouble, NumberText,
         Stepped, ItemsText, MembersText, EscapeAll, ItemsLevel, MembersLevel;
    StartsAtFirstChar(s, p, v, level, style);
    match v
    case Null => WordRoundTrip(s, p, v, nesting, limit);
    case Bool(b) => WordRoundTrip(s, p, v, nesting, limit);
    case Num(x) =>
      NumberChars(x);
      NumberRoundTrip(s, p, x);
      NumberIsParsed(s, p, x, nesting, limit);
    case Str(str) =>
      QuoteRoundTrip(s, p, str, style.escapeSlashes);
      QuoteIsParsed(s, p, nesting, limit);
    case Arr(items) =>
      ArrayRoundTrip(items, s, p, level, style, nesting + 1, limit);
      BracketIsParsed(s, p, nesting, limit);
    case Obj(ms) =>
      ObjectRoundTrip(ms, s, p, level, style, nesting + 1, limit);
      BracketIsParsed(s, p, nesting, limit);
  }

  // The branches of parse_value, by the first character.

  lemma WordRoundTrip(s: string, p: nat, v: Value, nesting: nat, limit: nat)
    requires (v.Null? || v.Bool?) && nesting <= limit
    requires var t := if v.Null? then "null" else if v.b then "true" else "false"; OccursAt(s, p, t)
    ensures var t := if v.Null? then "null" else if v.b then "true" else "false";
            ParseValue(s, p, nesting, limit) == Some(Parsed(v, p + |t|))
  {
    hide OccursAt;
    LiteralRoundTrip(s, p, if v.Null? then "null" else if v.b then "true" else "false");
  }

  lemma NumberIsParsed(s: string, p: nat, x: real, nesting: nat, limit: nat)
    requires nesting <= limit && SkipSpaces(s, p) == p && (At(s, p) == '-' || IsDigit(At(s, p)))
    requires ParseNumber(s, p).Some? && ParseNumber(s, p).value.value == x
    ensures ParseValue(s, p, nesting, limit) == Some(Parsed(Num(x), ParseNumber(s, p).value.next))
  {
    hide ParseNumber;
  }

  lemma QuoteIsParsed(s: string, p: nat, nesting: nat, limit: nat)
    requires nesting <= limit && SkipSpaces(s, p) == p && At(s, p) == '\"' && QuotedString(s, p).Some?
    ensures var piece := QuotedString(s, p).value;
            ParseValue(s, p, nesting, limit) == Some(Parsed(Str(piece.out), piece.next))
  {
    hide QuotedString;
  }

  lemma BracketIsParsed(s: string, p: nat, nesting: nat, limit: nat)
    requires nesting <= limit && SkipSpaces(s, p) == p
    ensures At(s, p) == '[' ==> ParseValue(s, p, nesting, limit) == ParseArray(s, p, nesting + 1, limit)
    ensures At(s, p) == '{' ==> ParseValue(s, p, nesting, limit) == ParseObject(s, p, nesting + 1, limit)
  {
    hide ParseArray, ParseObject;
  }

  /** The text of a tree is read back whatever follows it, if that does not go on a number. */
  lemma SerializeThenParseWithTail(v: Value, style: Style, tail: string)
    requires Printable(v) && WellFormed(v) && Level(v) <= MAX_NESTING
    requires v.Num? && tail != "" ==> !ExtendsNumber(tail[0])
    ensures ParseString(Text(v, 0, style) + tail) == Some(v)
  {
    hide Text, OccursAt;
    var t := Text(v, 0, style);
    assert OccursAt(t + tail, 0, t) by { StartOccurs(t, tail); }
    FirstCharIsAscii(v, 0, style);
    ValueRoundTrip(v, t + tail, 0, 0, style, 0, MAX_NESTING);
  }

  lemma StartOccurs(t: string, tail: string)
    ensures OccursAt(t + tail, 0, t)
  {
    assert (t + tail)[0..|t|] == t;
  }

  /** json_parse_string inverts json_serialize_to_string and json_serialize_to_string_pretty. */
  lemma SerializeThenParse(v: Value, style: Style)
    requires Printable(v) && WellFormed(v) && Level(v) <= MAX_NESTING
    ensures ParseString(Text(v, 0, style)) == Some(v)
  {
    hide Text, ParseString;
    SerializeThenParseWithTail(v, style, "");
    assert Text(v, 0, style) + "" == Text(v, 0, style);
  }

  lemma WholeOccurs(t: string)
    ensures OccursAt(t, 0, t)
  {
  }

  lemma FirstCharIsAscii(v: Value, level: nat, style: Style)
    requires Printable(v)
    ensures |Text(v, level, style)| > 0 && Text(v, level, style)[0] as int < 0x80
  {
  }

  // ---------------------------------------------------------------- parsed trees can be printed

  /** Every parsed number is a finite double. */
  lemma {:induction false} ParsedIsPrintable(s: string, p: nat, nesting: nat, limit: nat)
    requires ParseValue(s, p, nesting, limit).Some?
    ensures Printable(ParseValue(s, p, nesting, limit).value.val)
    decreases |s| - SkipSpaces(s, p), 3
  {
    hide Stepped, ParseMembers, ParseItems, ParseNumber, QuotedString, IsDouble;
    var q := SkipSpaces(s, p);
    if At(s, q) == '{' {
      var start := SkipSpaces(s, q + 1);
      if At(s, start) != '}' {
        ParsedMembersPrintable(s, start, nesting + 1, limit, []);
      }
    } else if At(s, q) == '[' {
      var start := SkipSpaces(s, q + 1);
      if At(s, start) != ']' {
        ParsedItemsPrintable(s, start, nesting + 1, limit, []);
      }
    } else if At(s, q) == '-' || IsDigit(At(s, q)) {
      ParsedNumberIsDouble(s, q);
    }
  }

  lemma {:induction false} ParsedItemsPrintable(s: string, p: nat, nesting: nat, limit: nat, acc: seq<Value>)
    requires ParseItems(s, p, nesting, limit, acc).Some? && PrintableItems(acc)
    ensures PrintableItems(ParseItems(s, p, nesting, limit, acc).value.items)
    decreases |s| - p, 4
  {
    hide Stepped, AfterElement, ParseValue, Printable, PrintableItems;
    if At(s, p) != '\0' {
      ParsedIsPrintable(s, p, nesting, limit);
      var parsed := ParseValue(s, p, nesting, limit).value;
      PrintableItemsAll(acc);
      PrintableItemsAll(acc + [parsed.val]);
      var after := AfterElement(s, parsed.next, ']');
      if after.More? {
        ParsedItemsPrintable(s, after.at, nesting, limit, acc + [parsed.val]);
      }
    }
  }

  lemma {:induction false} ParsedMembersPrintable(s: string, p: nat, nesting: nat, limit: nat, acc: seq<Member>)
    requires ParseMembers(s, p, nesting, limit, acc).Some? && PrintableMembers(acc)
    ensures PrintableMembers(ParseMembers(s, p, nesting, limit, acc).value.members)
    decreases |s| - p, 2
  {
    hide Stepped, AfterElement, ParseMember, Printable, PrintableMembers;
    if At(s, p) != '\0' {
      ParsedMemberPrintable(s, p, nesting, limit);
      var parsed := ParseMember(s, p, nesting, limit).value;
      PrintableMembersAll(acc);
      PrintableMembersAll(acc + [parsed.member]);
      var after := AfterElement(s, parsed.next, '}');
      if after.More? {
        ParsedMembersPrintable(s, after.at, nesting, limit, acc + [parsed.member]);
      }
    }
  }

  lemma {:induction false} ParsedMemberPrintable(s: string, p: nat, nesting: nat, limit: nat)
    requires ParseMember(s, p, nesting, limit).Some?
    ensures Printable(ParseMember(s, p, nesting, limit).value.member.val)
    decreases |s| - p, 1
  {
    hide Printable, ParseValue;
    ParsedIsPrintable(s, SkipSpaces(s, QuotedString(s, p).value.next) + 1, nesting, limit);
  }

  lemma ParsedStringIsPrintable(s: string)
    requires ParseString(s).Some?
    ensures Printable(ParseString(s).value)
  {
    hide ParseValue, Printable;
    if ParseValue(s, 0, 0, MAX_NESTING).Some? {
      ParsedIsPrintable(s, 0, 0, MAX_NESTING);
    }
    if ParseValue(s, 3, 0, MAX_NESTING).Some? {
      ParsedIsPrintable(s, 3, 0, MAX_NESTING);
    }
  }

  /** Whatever text was parsed, the text that is printed for the result parses to the same tree. */
  lemma ParseThenSerialize(s: string, style: Style)
    requires ParseString(s).Some?
    ensures Printable(ParseString(s).value) && ParseString(Text(ParseString(s).value, 0, style)) == ParseString(s)
  {
    hide Text, ParseString, Printable, WellFormed, Level;
    ParsedStringIsPrintable(s);
    ParsedStringIsWellFormed(s);
    SerializeThenParse(ParseString(s).value, style);
  }
}
