/** What serialized text looks like, byte by byte: a pen that goes over the text knows how deep it is in brackets and
    whether it is inside a string literal. */
module Layout {
  import opened Grammar

  /** `entered`: the byte before was an opening bracket. `escaped`: it was the backslash of an escape. */
  datatype Pen = Pen(depth: nat, quoted: bool, escaped: bool, entered: bool)

  const START: Pen := Pen(0, false, false, false)

  predicate IsOpener(c: char) {
    c == '[' || c == '{'
  }

  predicate IsCloser(c: char) {
    c == ']' || c == '}'
  }

  function Moved(pen: Pen, c: char): Pen {
    if pen.quoted then
      if pen.escaped then pen.(escaped := false)
      else if c == '\\' then pen.(escaped := true)
      else pen.(quoted := c != '\"')
    else if IsOpener(c) then Pen(pen.depth + 1, false, false, true)
    else Pen(if IsCloser(c) && pen.depth > 0 then pen.depth - 1 else pen.depth, c == '\"', false, false)
  }

  function MovedOver(pen: Pen, t: string): Pen
    decreases |t|
  {
    if t == "" then pen else MovedOver(Moved(pen, t[0]), t[1..])
  }

  function Blanks(n: nat): (t: string)
    ensures |t| == n && forall k :: 0 <= k < n ==> t[k] == ' '
  {
    seq(n, _ => ' ')
  }

  /** A new line with four blanks for each bracket that is open. */
  function NewLine(depth: nat): string {
    "\n" + Blanks(4 * depth)
  }

  /** What pretty printing puts before a byte: a new line behind an opening bracket and before a closing one, but
      nothing between the two. */
  function Before(c: char, pen: Pen): string {
    if pen.quoted || pen.entered == IsCloser(c) then ""
    else NewLine(if IsCloser(c) && pen.depth > 0 then pen.depth - 1 else pen.depth)
  }

  /** What it puts behind a byte: a new line behind a comma and a blank behind a colon. */
  function Behind(c: char, pen: Pen): string {
    if pen.quoted then "" else if c == ',' then NewLine(pen.depth) else if c == ':' then " " else ""
  }

  /** The text laid out in lines. */
  function Formatted(t: string, pen: Pen): string {
    if t == "" then ""
    else Before(t[0], pen) + [t[0]] + Behind(t[0], pen) + Formatted(t[1..], Moved(pen, t[0]))
  }

  /** The text without the white space outside of its literals. */
  function Minified(t: string, pen: Pen): string {
    if t == "" then ""
    else if !pen.quoted && IsBlank(t[0]) then Minified(t[1..], pen)
    else [t[0]] + Minified(t[1..], Moved(pen, t[0]))
  }

  /** No white space outside of literals, and in literals no control character, and a slash behind a backslash exactly
      when slashes are escaped. */
  predicate Tight(t: string, pen: Pen, escapeSlashes: bool) {
    t == "" ||
    (&& (if pen.quoted then ' ' <= t[0] && (t[0] == '/' ==> pen.escaped == escapeSlashes) else !IsBlank(t[0]))
     && Tight(t[1..], Moved(pen, t[0]), escapeSlashes))
  }

  lemma {:induction false} MovedOverJoin(a: string, b: string, pen: Pen)
    ensures MovedOver(pen, a + b) == MovedOver(MovedOver(pen, a), b)
  {
    if a == "" {
      assert a + b == b;
    } else {
      assert (a + b)[1..] == a[1..] + b;
      MovedOverJoin(a[1..], b, Moved(pen, a[0]));
    }
  }

  lemma {:induction false} FormattedJoin(a: string, b: string, pen: Pen)
    ensures Formatted(a + b, pen) == Formatted(a, pen) + Formatted(b, MovedOver(pen, a))
  {
    hide Before, Behind;
    if a == "" {
      assert a + b == b;
    } else {
      assert (a + b)[1..] == a[1..] + b;
      FormattedJoin(a[1..], b, Moved(pen, a[0]));
    }
  }

  lemma {:induction false} TightJoin(a: string, b: string, pen: Pen, escapeSlashes: bool)
    ensures Tight(a + b, pen, escapeSlashes) <==>
            Tight(a, pen, escapeSlashes) && Tight(b, MovedOver(pen, a), escapeSlashes)
  {
    if a == "" {
      assert a + b == b;
    } else {
      assert (a + b)[1..] == a[1..] + b;
      TightJoin(a[1..], b, Moved(pen, a[0]), escapeSlashes);
    }
  }

  lemma {:induction false} BlanksGo(t: string, rest: string, pen: Pen)
    requires !pen.quoted && forall k :: 0 <= k < |t| ==> IsBlank(t[k])
    ensures Minified(t + rest, pen) == Minified(rest, pen)
  {
    if t == "" {
      assert t + rest == rest;
    } else {
      assert (t + rest)[1..] == t[1..] + rest;
      BlanksGo(t[1..], rest, pen);
    }
  }

  /** What pretty printing adds is white space outside of literals: without that the text is what it was. */
  lemma {:induction false} FormattedMinifies(t: string, pen: Pen, escapeSlashes: bool)
    requires Tight(t, pen, escapeSlashes)
    ensures Minified(Formatted(t, pen), pen) == t
    decreases |t|
  {
    hide Tight, Before, Behind, Moved;
    if t != "" {
      var next := Moved(pen, t[0]);
      var rest := Formatted(t[1..], next);
      FirstIsTight(t, pen, escapeSlashes);
      FormattedMinifies(t[1..], next, escapeSlashes);
      var before, behind := Before(t[0], pen), Behind(t[0], pen);
      AddedIsBlank(t[0], pen);
      assert Formatted(t, pen) == before + ([t[0]] + (behind + rest));
      if !pen.quoted {
        BlanksGo(before, [t[0]] + (behind + rest), pen);
      }
      assert ([t[0]] + (behind + rest))[1..] == behind + rest;
      if behind != "" {
        BlanksGo(behind, rest, next);
      } else {
        assert behind + rest == rest;
      }
      assert t == [t[0]] + t[1..];
    }
  }

  lemma FirstIsTight(t: string, pen: Pen, escapeSlashes: bool)
    requires t != "" && Tight(t, pen, escapeSlashes)
    ensures Tight(t[1..], Moved(pen, t[0]), escapeSlashes) && (!pen.quoted ==> !IsBlank(t[0]))
  {
  }

  lemma AddedIsBlank(c: char, pen: Pen)
    ensures forall k :: 0 <= k < |Before(c, pen)| ==> IsBlank(Before(c, pen)[k])
    ensures forall k :: 0 <= k < |Behind(c, pen)| ==> IsBlank(Behind(c, pen)[k])
    ensures pen.quoted ==> Before(c, pen) == "" && Behind(c, pen) == ""
    ensures Behind(c, pen) != "" ==> !Moved(pen, c).quoted
  {
  }

  lemma {:induction false} TightIsMinified(t: string, pen: Pen, escapeSlashes: bool)
    requires Tight(t, pen, escapeSlashes)
    ensures Minified(t, pen) == t
    decreases |t|
  {
    if t != "" {
      TightIsMinified(t[1..], Moved(pen, t[0]), escapeSlashes);
    }
  }

  lemma FirstEntered(c: char, pen: Pen)
    requires !IsCloser(c) && !pen.quoted && pen.entered
    ensures var pen' := pen.(entered := false);
            && Before(c, pen) == NewLine(pen.depth) && Before(c, pen') == ""
            && Behind(c, pen) == Behind(c, pen') && Moved(pen, c) == Moved(pen', c)
  {
    hide NewLine;
  }

  /** Behind an opening bracket the first byte, unless it closes, goes to a new line. */
  lemma EnteredFormatted(t: string, pen: Pen, escapeSlashes: bool)
    requires t != "" && !IsCloser(t[0]) && !pen.quoted && pen.entered
    ensures Formatted(t, pen) == NewLine(pen.depth) + Formatted(t, pen.(entered := false))
    ensures MovedOver(pen, t) == MovedOver(pen.(entered := false), t)
    ensures Tight(t, pen, escapeSlashes) == Tight(t, pen.(entered := false), escapeSlashes)
  {
    hide NewLine, IsBlank, Moved, Before, Behind, IsCloser;
    FirstEntered(t[0], pen);
    var next := Moved(pen, t[0]);
    PutInFront(NewLine(pen.depth), [t[0]], Behind(t[0], pen), Formatted(t[1..], next));
  }

  lemma PutInFront(a: string, b: string, c: string, d: string)
    ensures a + b + c + d == a + ("" + b + c + d)
  {
  }
}

/** The texts of the serializer, laid out. */
module SerializerLayout {
  import opened CString
  import opened Json
  import opened Layout
  import opened Serializer
  import opened Unicode
  import D = Decimals
  import Doubles
  import Grammar
  import Recognition
  import RoundTrip
  import S = StringLiteral

  /** The pen between two tokens of a value at some level. */
  function Between(level: nat): Pen {
    Pen(level, false, false, false)
  }

  function Compact(escapeSlashes: bool): Style {
    Style(false, escapeSlashes)
  }

  function Pretty(escapeSlashes: bool): Style {
    Style(true, escapeSlashes)
  }

  /** The compact text is tight, laid out it is the pretty one, and the pen is at the same level behind it. */
  ghost predicate Lays(compact: string, pretty: string, pen: Pen, escapeSlashes: bool) {
    && Formatted(compact, pen) == pretty && Tight(compact, pen, escapeSlashes)
    && MovedOver(pen, compact) == pen
  }

  lemma LaysJoin(a: string, a': string, b: string, b': string, pen: Pen, escapeSlashes: bool)
    requires Lays(a, a', pen, escapeSlashes) && Lays(b, b', pen, escapeSlashes)
    ensures Lays(a + b, a' + b', pen, escapeSlashes)
  {
    MovedOverJoin(a, b, pen);
    FormattedJoin(a, b, pen);
    TightJoin(a, b, pen, escapeSlashes);
  }

  // ---------------------------------------------------------------- tokens

  /** A byte that is no white space, and in which no literal, bracket or list shows. */
  predicate IsInert(c: char) {
    !Grammar.IsBlank(c) && c != '\"' && !IsOpener(c) && !IsCloser(c) && c != ',' && c != ':'
  }

  lemma {:induction false} InertLays(t: string, level: nat, escapeSlashes: bool)
    requires forall k :: 0 <= k < |t| ==> IsInert(t[k])
    ensures Lays(t, t, Between(level), escapeSlashes)
    decreases |t|
  {
    if t != "" {
      InertLays(t[1..], level, escapeSlashes);
      assert t == [t[0]] + t[1..];
    }
  }

  lemma NumberLays(x: real, level: nat, escapeSlashes: bool)
    requires Doubles.IsDouble(x)
    ensures Lays(D.NumberText(x), D.NumberText(x), Between(level), escapeSlashes)
  {
    hide D.NumberText, Doubles.IsDouble;
    D.NumberChars(x);
    InertLays(D.NumberText(x), level, escapeSlashes);
  }

  // ---------------------------------------------------------------- string literals

  function Inside(level: nat): Pen {
    Pen(level, true, false, false)
  }

  lemma OneLays(c: char, pen: Pen, escapeSlashes: bool)
    requires pen.quoted && ' ' <= c && (c == '/' ==> pen.escaped == escapeSlashes)
    ensures Formatted([c], pen) == [c] && Tight([c], pen, escapeSlashes) && MovedOver(pen, [c]) == Moved(pen, c)
  {
    assert [c][1..] == "";
  }

  /** A backslash and the byte it escapes. */
  lemma PairLays(c: char, level: nat, escapeSlashes: bool)
    requires ' ' <= c && (c == '/' ==> escapeSlashes)
    ensures Lays(['\\', c], ['\\', c], Inside(level), escapeSlashes)
  {
    var pen := Inside(level);
    var next := Moved(pen, '\\');
    OneLays('\\', pen, escapeSlashes);
    OneLays(c, next, escapeSlashes);
    assert ['\\', c] == ['\\'] + [c];
    FormattedJoin(['\\'], [c], pen);
    TightJoin(['\\'], [c], pen, escapeSlashes);
    MovedOverJoin(['\\'], [c], pen);
  }

  lemma {:induction false} RestLays(t: string, level: nat, escapeSlashes: bool)
    requires forall k :: 0 <= k < |t| ==>
               ' ' <= t[k] && t[k] != '\"' && t[k] != '\\' && (t[k] == '/' ==> !escapeSlashes)
    ensures Lays(t, t, Inside(level), escapeSlashes)
    decreases |t|
  {
    if t != "" {
      RestLays(t[1..], level, escapeSlashes);
      assert t == [t[0]] + t[1..];
    }
  }

  lemma CharLays(c: char, level: nat, escapeSlashes: bool)
    ensures Lays(S.EscapeChar(c, escapeSlashes), S.EscapeChar(c, escapeSlashes), Inside(level), escapeSlashes)
  {
    hide Lays, Inside;
    var t := S.EscapeChar(c, escapeSlashes);
    if t[0] == '\\' {
      var rest := t[2..];
      assert t == ['\\', t[1]] + rest;
      PairLays(t[1], level, escapeSlashes);
      RestLays(rest, level, escapeSlashes);
      LaysJoin(['\\', t[1]], ['\\', t[1]], rest, rest, Inside(level), escapeSlashes);
    } else {
      RestLays(t, level, escapeSlashes);
    }
  }

  lemma {:induction false} BodyLays(str: string, level: nat, escapeSlashes: bool)
    ensures var t := S.EscapeAll(str, escapeSlashes); Lays(t, t, Inside(level), escapeSlashes)
  {
    hide S.EscapeChar;
    if str != "" {
      var first, rest := S.EscapeChar(str[0], escapeSlashes), S.EscapeAll(str[1..], escapeSlashes);
      CharLays(str[0], level, escapeSlashes);
      BodyLays(str[1..], level, escapeSlashes);
      LaysJoin(first, first, rest, rest, Inside(level), escapeSlashes);
    }
  }

  lemma QuotationMarks(level: nat, escapeSlashes: bool)
    ensures Formatted("\"", Between(level)) == "\"" && Tight("\"", Between(level), escapeSlashes)
    ensures MovedOver(Between(level), "\"") == Inside(level)
    ensures Formatted("\"", Inside(level)) == "\"" && Tight("\"", Inside(level), escapeSlashes)
    ensures MovedOver(Inside(level), "\"") == Between(level)
  {
    assert "\""[1..] == "";
  }

  lemma QuoteLays(str: string, level: nat, escapeSlashes: bool)
    ensures var t := S.Quote(str, escapeSlashes); Lays(t, t, Between(level), escapeSlashes)
  {
    hide S.EscapeAll, Formatted, Tight, MovedOver, Between, Inside;
    var body := S.EscapeAll(str, escapeSlashes);
    BodyLays(str, level, escapeSlashes);
    QuotationMarks(level, escapeSlashes);
    FormattedJoin("\"" + body, "\"", Between(level));
    FormattedJoin("\"", body, Between(level));
    TightJoin("\"" + body, "\"", Between(level), escapeSlashes);
    TightJoin("\"", body, Between(level), escapeSlashes);
    MovedOverJoin("\"" + body, "\"", Between(level));
    MovedOverJoin("\"", body, Between(level));
  }

  // ---------------------------------------------------------------- values

  lemma {:induction false} IndentIsBlanks(level: nat)
    ensures Indent(level) == Blanks(4 * level)
  {
    if level > 0 {
      IndentIsBlanks(level - 1);
    }
  }

  lemma NotCloserFirst(v: Value, level: nat, style: Style)
    requires Printable(v)
    ensures var t := Text(v, level, style); t != "" && !IsCloser(t[0])
  {
    hide D.NumberText, S.EscapeAll, ItemsText, MembersText, Doubles.IsDouble;
    if v.Num? {
      D.NumberChars(v.x);
    }
  }

  lemma {:induction false} TextLays(v: Value, level: nat, escapeSlashes: bool)
    requires Printable(v)
    ensures Lays(Text(v, level, Compact(escapeSlashes)), Text(v, level, Pretty(escapeSlashes)), Between(level),
                 escapeSlashes)
    decreases v, 1
  {
    hide Lays, D.NumberText, S.Quote, ItemsText, MembersText, Doubles.IsDouble;
    match v
    case Null => InertLays("null", level, escapeSlashes);
    case Bool(b) => InertLays(if b then "true" else "false", level, escapeSlashes);
    case Num(x) => NumberLays(x, level, escapeSlashes);
    case Str(str) => QuoteLays(str, level, escapeSlashes);
    case Arr(items) => ArrayLays(items, level, escapeSlashes);
    case Obj(ms) => ObjectLays(ms, level, escapeSlashes);
  }

  lemma NothingLays(open: char, close: char, level: nat, escapeSlashes: bool)
    requires IsOpener(open) && IsCloser(close)
    ensures Lays([open, close], [open, close], Between(level), escapeSlashes)
  {
    var pen := Between(level);
    assert [open, close] == [open] + [close];
    FormattedJoin([open], [close], pen);
    TightJoin([open], [close], pen, escapeSlashes);
    MovedOverJoin([open], [close], pen);
  }

  lemma OpenLays(open: char, level: nat, escapeSlashes: bool)
    requires IsOpener(open)
    ensures Formatted([open], Between(level)) == [open] && Tight([open], Between(level), escapeSlashes)
    ensures MovedOver(Between(level), [open]) == Between(level + 1).(entered := true)
  {
    assert [open][1..] == "";
  }

  lemma CloseLays(close: char, level: nat, escapeSlashes: bool)
    requires IsCloser(close)
    ensures Formatted([close], Between(level + 1)) == NewLine(level) + [close]
    ensures Tight([close], Between(level + 1), escapeSlashes)
    ensures MovedOver(Between(level + 1), [close]) == Between(level)
  {
    assert [close][1..] == "";
  }

  /** Brackets around a list: `pretty` is the list laid out from its first byte on, without its last line break. */
  lemma BracketLays(open: char, close: char, compact: string, pretty: string, level: nat, escapeSlashes: bool)
    requires IsOpener(open) && IsCloser(close) && compact != "" && !IsCloser(compact[0])
    requires Lays(compact, pretty, Between(level + 1), escapeSlashes)
    ensures Lays([open] + compact + [close], [open] + NewLine(level + 1) + pretty + NewLine(level) + [close],
                 Between(level), escapeSlashes)
  {
    hide Formatted, Tight, MovedOver, NewLine;
    var pen, inner := Between(level), Between(level + 1);
    OpenLays(open, level, escapeSlashes);
    CloseLays(close, level, escapeSlashes);
    EnteredFormatted(compact, inner.(entered := true), escapeSlashes);
    FormattedJoin([open] + compact, [close], pen);
    FormattedJoin([open], compact, pen);
    TightJoin([open] + compact, [close], pen, escapeSlashes);
    TightJoin([open], compact, pen, escapeSlashes);
    MovedOverJoin([open] + compact, [close], pen);
    MovedOverJoin([open], compact, pen);
    assert [open] + (NewLine(level + 1) + pretty) + (NewLine(level) + [close]) ==
           [open] + NewLine(level + 1) + pretty + NewLine(level) + [close];
  }

  /** A list of elements: `inner` is the list laid out from its first byte on, without its last line break. */
  ghost predicate ListLays(compact: string, pretty: string, inner: string, level: nat, escapeSlashes: bool) {
    && compact != "" && !IsCloser(compact[0])
    && pretty == Indent(level + 1) + inner + "\n"
    && Lays(compact, inner, Between(level + 1), escapeSlashes)
  }

  lemma {:induction false} ArrayLays(items: seq<Value>, level: nat, escapeSlashes: bool)
    requires PrintableItems(items)
    ensures Lays(Text(Arr(items), level, Compact(escapeSlashes)), Text(Arr(items), level, Pretty(escapeSlashes)),
                 Between(level), escapeSlashes)
    decreases items, 1
  {
    hide Lays, ListLays, ItemsText, Indent, Blanks;
    if items == [] {
      NothingLays('[', ']', level, escapeSlashes);
    } else {
      var compact := ItemsText(items, level, Compact(escapeSlashes));
      var pretty := ItemsText(items, level, Pretty(escapeSlashes));
      var inner := ItemsLay(items, level, escapeSlashes);
      ListInBrackets('[', ']', compact, pretty, inner, level, escapeSlashes);
      assert "[" + "" + compact + "" + "]" == ['['] + compact + [']'];
    }
  }

  lemma ListInBrackets(open: char, close: char, compact: string, pretty: string, inner: string, level: nat,
                       escapeSlashes: bool)
    requires IsOpener(open) && IsCloser(close) && ListLays(compact, pretty, inner, level, escapeSlashes)
    ensures Lays([open] + compact + [close], [open] + "\n" + pretty + Indent(level) + [close], Between(level),
                 escapeSlashes)
  {
    hide Lays, Indent, Blanks;
    BracketLays(open, close, compact, inner, level, escapeSlashes);
    IndentIsBlanks(level);
    IndentIsBlanks(level + 1);
    assert [open] + ("\n" + Indent(level + 1)) + inner + ("\n" + Indent(level)) + [close] ==
           [open] + "\n" + (Indent(level + 1) + inner + "\n") + Indent(level) + [close];
  }

  lemma MarkLays(mark: char, pen: Pen, escapeSlashes: bool)
    requires (mark == ',' || mark == ':') && !pen.quoted && !pen.escaped && !pen.entered
    ensures Lays([mark], [mark] + (if mark == ',' then NewLine(pen.depth) else " "), pen, escapeSlashes)
  {
    assert [mark][1..] == "";
  }

  /** The last element of a list. */
  lemma LastLays(compact: string, pretty: string, level: nat, escapeSlashes: bool)
    requires compact != "" && !IsCloser(compact[0]) && Lays(compact, pretty, Between(level + 1), escapeSlashes)
    ensures ListLays(compact, Indent(level + 1) + pretty + "\n", pretty, level, escapeSlashes)
  {
  }

  /** An element and the rest of its list. */
  lemma MoreLays(compact: string, pretty: string, rest: string, prettyRest: string, inner: string, level: nat,
                 escapeSlashes: bool)
    requires compact != "" && !IsCloser(compact[0]) && Lays(compact, pretty, Between(level + 1), escapeSlashes)
    requires ListLays(rest, prettyRest, inner, level, escapeSlashes)
    ensures ListLays(compact + "," + rest, Indent(level + 1) + pretty + ",\n" + prettyRest,
                     pretty + ("," + NewLine(level + 1)) + inner, level, escapeSlashes)
  {
    hide Lays, Indent, Blanks;
    var pen := Between(level + 1);
    MarkLays(',', pen, escapeSlashes);
    LaysJoin(compact, pretty, ",", "," + NewLine(level + 1), pen, escapeSlashes);
    LaysJoin(compact + ",", pretty + ("," + NewLine(level + 1)), rest, inner, pen, escapeSlashes);
    IndentIsBlanks(level + 1);
    BreaksMove(Indent(level + 1), pretty, inner);
  }

  lemma BreaksMove(indent: string, pretty: string, inner: string)
    ensures indent + pretty + ",\n" + (indent + inner + "\n") ==
            indent + (pretty + ("," + ("\n" + indent)) + inner) + "\n"
  {
  }

  lemma FirstItemText(items: seq<Value>, level: nat, style: Style)
    requires items != [] && PrintableItems(items)
    ensures ItemsText(items, level, style) ==
            IfPretty(style, Indent(level + 1)) + Text(items[0], level + 1, style) + ElementEnd(|items| == 1, style)
            + ItemsText(items[1..], level, style)
  {
    hide Text, Indent, ElementEnd, IfPretty;
  }

  lemma CompactItems(items: seq<Value>, level: nat, escapeSlashes: bool)
    requires items != [] && PrintableItems(items)
    ensures var style := Compact(escapeSlashes);
            var first := Text(items[0], level + 1, style);
            ItemsText(items, level, style) ==
            if |items| == 1 then first else first + "," + ItemsText(items[1..], level, style)
  {
    hide Text, Indent, ItemsText;
    FirstItemText(items, level, Compact(escapeSlashes));
    if |items| == 1 {
      RoundTrip.NothingLeft(level, Compact(escapeSlashes));
      assert items[1..] == [];
    }
  }

  lemma PrettyItems(items: seq<Value>, level: nat, escapeSlashes: bool)
    requires items != [] && PrintableItems(items)
    ensures var style := Pretty(escapeSlashes);
            var first := Text(items[0], level + 1, style);
            ItemsText(items, level, style) ==
            if |items| == 1 then Indent(level + 1) + first + "\n"
            else Indent(level + 1) + first + ",\n" + ItemsText(items[1..], level, style)
  {
    hide Text, Indent, ItemsText;
    FirstItemText(items, level, Pretty(escapeSlashes));
    if |items| == 1 {
      RoundTrip.NothingLeft(level, Pretty(escapeSlashes));
      assert items[1..] == [];
    }
  }

  lemma {:induction false} ItemsLay(items: seq<Value>, level: nat, escapeSlashes: bool) returns (inner: string)
    requires items != [] && PrintableItems(items)
    ensures ListLays(ItemsText(items, level, Compact(escapeSlashes)), ItemsText(items, level, Pretty(escapeSlashes)),
                     inner, level, escapeSlashes)
    decreases items, 0
  {
    hide Lays, ListLays, Text, Indent, ItemsText;
    var compact := Text(items[0], level + 1, Compact(escapeSlashes));
    inner := Text(items[0], level + 1, Pretty(escapeSlashes));
    CompactItems(items, level, escapeSlashes);
    PrettyItems(items, level, escapeSlashes);
    TextLays(items[0], level + 1, escapeSlashes);
    NotCloserFirst(items[0], level + 1, Compact(escapeSlashes));
    if |items| == 1 {
      LastLays(compact, inner, level, escapeSlashes);
    } else {
      var rest := ItemsLay(items[1..], level, escapeSlashes);
      MoreLays(compact, inner, ItemsText(items[1..], level, Compact(escapeSlashes)),
               ItemsText(items[1..], level, Pretty(escapeSlashes)), rest, level, escapeSlashes);
      inner := inner + ("," + NewLine(level + 1)) + rest;
    }
  }

  lemma {:induction false} ObjectLays(ms: seq<Member>, level: nat, escapeSlashes: bool)
    requires PrintableMembers(ms)
    ensures Lays(Text(Obj(ms), level, Compact(escapeSlashes)), Text(Obj(ms), level, Pretty(escapeSlashes)),
                 Between(level), escapeSlashes)
    decreases ms, 1
  {
    hide Lays, ListLays, MembersText, Indent, Blanks;
    if ms == [] {
      NothingLays('{', '}', level, escapeSlashes);
    } else {
      var compact := MembersText(ms, level, Compact(escapeSlashes));
      var pretty := MembersText(ms, level, Pretty(escapeSlashes));
      var inner := MembersLay(ms, level, escapeSlashes);
      ListInBrackets('{', '}', compact, pretty, inner, level, escapeSlashes);
      assert "{" + "" + compact + "" + "}" == ['{'] + compact + ['}'];
    }
  }

  /** A key, its colon and its value. */
  lemma MemberLays(key: string, compact: string, pretty: string, level: nat, escapeSlashes: bool)
    requires Lays(compact, pretty, Between(level), escapeSlashes)
    ensures var t := KeyText(key, Compact(escapeSlashes)) + compact;
            && Lays(t, KeyText(key, Pretty(escapeSlashes)) + pretty, Between(level), escapeSlashes)
            && t != "" && !IsCloser(t[0])
  {
    hide Lays, S.EscapeAll;
    var quoted, pen := S.Quote(key, escapeSlashes), Between(level);
    QuoteLays(key, level, escapeSlashes);
    MarkLays(':', pen, escapeSlashes);
    LaysJoin(quoted, quoted, ":", ":" + " ", pen, escapeSlashes);
    LaysJoin(quoted + ":", quoted + (":" + " "), compact, pretty, pen, escapeSlashes);
    assert quoted + ":" + "" == quoted + ":" && quoted + ":" + " " == quoted + (":" + " ");
  }

  /** The text of a member list, with its first member in one piece. */
  lemma FirstMemberText(ms: seq<Member>, level: nat, style: Style)
    requires ms != [] && PrintableMembers(ms)
    ensures MembersText(ms, level, style) ==
            IfPretty(style, Indent(level + 1)) + (KeyText(ms[0].key, style) + Text(ms[0].val, level + 1, style))
            + ElementEnd(|ms| == 1, style) + MembersText(ms[1..], level, style)
  {
    hide Text, Indent, KeyText, ElementEnd, IfPretty;
    Regroup(IfPretty(style, Indent(level + 1)), KeyText(ms[0].key, style), Text(ms[0].val, level + 1, style));
  }

  lemma Regroup(a: string, b: string, c: string)
    ensures a + b + c == a + (b + c)
  {
  }

  lemma CompactMembers(ms: seq<Member>, level: nat, escapeSlashes: bool)
    requires ms != [] && PrintableMembers(ms)
    ensures var style := Compact(escapeSlashes);
            var first := KeyText(ms[0].key, style) + Text(ms[0].val, level + 1, style);
            MembersText(ms, level, style) ==
            if |ms| == 1 then first else first + "," + MembersText(ms[1..], level, style)
  {
    hide Text, Indent, KeyText, MembersText;
    FirstMemberText(ms, level, Compact(escapeSlashes));
    if |ms| == 1 {
      RoundTrip.NothingLeft(level, Compact(escapeSlashes));
      assert ms[1..] == [];
    }
  }

  lemma PrettyMembers(ms: seq<Member>, level: nat, escapeSlashes: bool)
    requires ms != [] && PrintableMembers(ms)
    ensures var style := Pretty(escapeSlashes);
            var first := KeyText(ms[0].key, style) + Text(ms[0].val, level + 1, style);
            MembersText(ms, level, style) ==
            if |ms| == 1 then Indent(level + 1) + first + "\n"
            else Indent(level + 1) + first + ",\n" + MembersText(ms[1..], level, style)
  {
    hide Text, Indent, KeyText, MembersText;
    FirstMemberText(ms, level, Pretty(escapeSlashes));
    if |ms| == 1 {
      RoundTrip.NothingLeft(level, Pretty(escapeSlashes));
      assert ms[1..] == [];
    }
  }

  lemma {:induction false} MembersLay(ms: seq<Member>, level: nat, escapeSlashes: bool) returns (inner: string)
    requires ms != [] && PrintableMembers(ms)
    ensures ListLays(MembersText(ms, level, Compact(escapeSlashes)), MembersText(ms, level, Pretty(escapeSlashes)),
                     inner, level, escapeSlashes)
    decreases ms, 0
  {
    hide Lays, ListLays, Text, Indent, KeyText, MembersText;
    var key, compact := ms[0].key, Text(ms[0].val, level + 1, Compact(escapeSlashes));
    var pretty := Text(ms[0].val, level + 1, Pretty(escapeSlashes));
    CompactMembers(ms, level, escapeSlashes);
    PrettyMembers(ms, level, escapeSlashes);
    TextLays(ms[0].val, level + 1, escapeSlashes);
    MemberLays(key, compact, pretty, level + 1, escapeSlashes);
    compact := KeyText(key, Compact(escapeSlashes)) + compact;
    inner := KeyText(key, Pretty(escapeSlashes)) + pretty;
    if |ms| == 1 {
      LastLays(compact, inner, level, escapeSlashes);
    } else {
      var rest := MembersLay(ms[1..], level, escapeSlashes);
      MoreLays(compact, inner, MembersText(ms[1..], level, Compact(escapeSlashes)),
               MembersText(ms[1..], level, Pretty(escapeSlashes)), rest, level, escapeSlashes);
      inner := inner + ("," + NewLine(level + 1)) + rest;
    }
  }

  // ---------------------------------------------------------------- the two styles

  /** The pretty text is the compact one laid out: a line for each element, with four blanks for each open bracket,
      and a blank behind each colon. */
  lemma PrettyIsFormatted(v: Value, escapeSlashes: bool)
    requires Printable(v)
    ensures Text(v, 0, Pretty(escapeSlashes)) == Formatted(Text(v, 0, Compact(escapeSlashes)), START)
  {
    hide Text, Formatted;
    TextLays(v, 0, escapeSlashes);
  }

  /** The compact text has no white space outside of string literals, and every slash in a literal is escaped or none
      is; the pretty text without its white space outside of literals is the compact one. */
  lemma CompactIsTight(v: Value, escapeSlashes: bool)
    requires Printable(v)
    ensures Tight(Text(v, 0, Compact(escapeSlashes)), START, escapeSlashes)
    ensures Minified(Text(v, 0, Compact(escapeSlashes)), START) == Text(v, 0, Compact(escapeSlashes))
    ensures Minified(Text(v, 0, Pretty(escapeSlashes)), START) == Text(v, 0, Compact(escapeSlashes))
  {
    hide Text, Formatted, Tight, Minified;
    TextLays(v, 0, escapeSlashes);
    TightIsMinified(Text(v, 0, Compact(escapeSlashes)), START, escapeSlashes);
    FormattedMinifies(Text(v, 0, Compact(escapeSlashes)), START, escapeSlashes);
  }

  // ---------------------------------------------------------------- the form of string literals

  lemma {:induction false} EscapedJoin(a: string, b: string, escapeSlashes: bool)
    ensures S.EscapeAll(a + b, escapeSlashes) == S.EscapeAll(a, escapeSlashes) + S.EscapeAll(b, escapeSlashes)
  {
    if a == "" {
      assert a + b == b;
    } else {
      assert (a + b)[1..] == a[1..] + b;
      EscapedJoin(a[1..], b, escapeSlashes);
    }
  }

  lemma {:induction false} EscapedBytes(bytes: string)
    requires forall k :: 0 <= k < |bytes| ==> bytes[k] as int >= 0x80
    ensures |S.EscapeAll(bytes, false)| == |bytes|
  {
    if bytes != "" {
      EscapedBytes(bytes[1..]);
    }
  }

  lemma EscapedOne(c: char, escapeSlashes: bool)
    ensures S.EscapeAll([c], escapeSlashes) == S.EscapeChar(c, escapeSlashes)
    ensures |S.EscapeChar(c, escapeSlashes)| <= 6
  {
    assert [c][1..] == "";
  }

  /** However a character is written in a literal, the serializer writes it no longer than that. */
  lemma CharIsShortest(t: string, p: nat, q: nat, out: string)
    requires Grammar.CharAt(t, p, q, out)
    ensures |S.EscapeAll(out, false)| <= q - p
  {
    hide S.EscapeAll;
    if At(t, p) == '\\' && At(t, p + 1) == 'u' {
      var cp :| IsScalar(cp) && Grammar.CodePointAt(t, p + 2, q, cp) && out == Encode(cp);
      if cp < 0x80 {
        EscapedOne(out[0], false);
        assert out == [out[0]];
      } else {
        EncodedBytes(cp);
        EscapedBytes(out);
      }
    } else {
      EscapedOne(out[0], false);
      assert out == [out[0]];
    }
  }

  lemma EncodedBytes(cp: nat)
    requires IsScalar(cp) && cp >= 0x80
    ensures |Encode(cp)| <= 4 && forall k :: 0 <= k < |Encode(cp)| ==> Encode(cp)[k] as int >= 0x80
  {
  }

  lemma {:induction false} BodyIsShortest(t: string, p: nat, q: nat, str: string)
    requires Grammar.CharsAt(t, p, q, str)
    ensures |S.EscapeAll(str, false)| + 1 <= q - p
    decreases |t| - p
  {
    hide Grammar.CharAt, S.EscapeChar;
    if At(t, p) != '\"' {
      var next, out :| Grammar.CharAt(t, p, next, out) && p < next && out <= str &&
                       Grammar.CharsAt(t, next, q, str[|out|..]);
      Recognition.NoCharAtNul(t, p, next, out);
      CharIsShortest(t, p, next, out);
      BodyIsShortest(t, next, q, str[|out|..]);
      EscapedJoin(out, str[|out|..], false);
      assert out + str[|out|..] == str;
    }
  }

  /** Among all literals for a string the one that is written is a shortest; escaping slashes adds one byte for each
      slash. */
  lemma QuoteIsShortest(t: string, p: nat, q: nat, str: string)
    requires Grammar.StringAt(t, p, q, str)
    ensures |S.Quote(str, false)| <= q - p
    ensures |S.Quote(str, true)| == |S.Quote(str, false)| + multiset(str)['/']
  {
    hide S.EscapeAll, Grammar.CharsAt;
    BodyIsShortest(t, p + 1, q, str);
    SlashesCount(str);
  }

  lemma SlashCounts(c: char)
    ensures |S.EscapeChar(c, true)| == |S.EscapeChar(c, false)| + if c == '/' then 1 else 0
  {
  }

  lemma {:induction false} SlashesCount(str: string)
    ensures |S.EscapeAll(str, true)| == |S.EscapeAll(str, false)| + multiset(str)['/']
  {
    hide S.EscapeChar;
    if str != "" {
      SlashCounts(str[0]);
      SlashesCount(str[1..]);
      assert str == [str[0]] + str[1..];
    }
  }

  /** A control character without a short escape is written with two lower-case hexadecimal digits. */
  lemma ControlCharacterText(c: char, escapeSlashes: bool)
    requires c < ' ' && forall letter :: !Grammar.IsShortEscape(letter, c)
    ensures S.EscapeChar(c, escapeSlashes) ==
            "\\u00" + ["0123456789abcdef"[c as int / 16], "0123456789abcdef"[c as int % 16]]
  {
    assert !Grammar.IsShortEscape('b', c) && !Grammar.IsShortEscape('f', c) && !Grammar.IsShortEscape('n', c)
           && !Grammar.IsShortEscape('r', c) && !Grammar.IsShortEscape('t', c);
  }
}
