/** The compact and the pretty serializer of parson.c. */
module Serializer {
  import opened Json
  import opened StringLiteral
  import opened Decimals
  import opened Doubles

  /** Pretty printing on or off, and the slash setting of json_set_escape_slashes. */
  datatype Style = Style(pretty: bool, escapeSlashes: bool)

  const INDENT: string := "    "

  /** All numbers are finite doubles, as a JSON number always is in the code. */
  ghost predicate Printable(v: Value) {
    match v
    case Num(x) => IsDouble(x)
    case Arr(items) => PrintableItems(items)
    case Obj(members) => PrintableMembers(members)
    case _ => true
  }

  ghost predicate PrintableItems(items: seq<Value>) {
    items == [] || (Printable(items[0]) && PrintableItems(items[1..]))
  }

  ghost predicate PrintableMembers(ms: seq<Member>) {
    ms == [] || (Printable(ms[0].val) && PrintableMembers(ms[1..]))
  }

  function Indent(level: nat): (t: string)
    ensures forall k :: 0 <= k < |t| ==> t[k] == ' '
  {
    if level == 0 then "" else INDENT + Indent(level - 1)
  }

  /** Text that only the pretty form has. */
  function IfPretty(style: Style, t: string): string {
    if style.pretty then t else ""
  }

  /** The text json_serialize_to_buffer_r writes for `v` at a nesting level. */
  function Text(v: Value, level: nat, style: Style): (t: string)
    requires Printable(v)
    decreases v
  {
    match v
    case Null => "null"
    case Bool(b) => if b then "true" else "false"
    case Num(x) => NumberText(x)
    case Str(s) => Quote(s, style.escapeSlashes)
    case Arr(items) =>
      if items == [] then "[]"
      else "[" + IfPretty(style, "\n") + ItemsText(items, level, style) + IfPretty(style, Indent(level)) + "]"
    case Obj(members) =>
      if members == [] then "{}"
      else "{" + IfPretty(style, "\n") + MembersText(members, level, style) + IfPretty(style, Indent(level)) + "}"
  }

  /** A comma unless the element is the last one, and the end of its line. */
  function ElementEnd(last: bool, style: Style): string {
    (if last then "" else ",") + IfPretty(style, "\n")
  }

  function ItemsText(items: seq<Value>, level: nat, style: Style): string
    requires PrintableItems(items)
    decreases items
  {
    if items == [] then ""
    else
      IfPretty(style, Indent(level + 1)) + Text(items[0], level + 1, style) + ElementEnd(|items| == 1, style)
      + ItemsText(items[1..], level, style)
  }

  function KeyText(key: string, style: Style): string {
    Quote(key, style.escapeSlashes) + ":" + IfPretty(style, " ")
  }

  function MembersText(ms: seq<Member>, level: nat, style: Style): string
    requires PrintableMembers(ms)
    decreases ms
  {
    if ms == [] then ""
    else
      IfPretty(style, Indent(level + 1)) + KeyText(ms[0].key, style) + Text(ms[0].val, level + 1, style)
      + ElementEnd(|ms| == 1, style) + MembersText(ms[1..], level, style)
  }

  lemma {:induction false} PrintableItemsAll(items: seq<Value>)
    ensures PrintableItems(items) <==> forall i :: 0 <= i < |items| ==> Printable(items[i])
  {
    if items != [] {
      PrintableItemsAll(items[1..]);
      assert items == [items[0]] + items[1..];
    }
  }

  lemma {:induction false} PrintableMembersAll(ms: seq<Member>)
    ensures PrintableMembers(ms) <==> forall i :: 0 <= i < |ms| ==> Printable(ms[i].val)
  {
    if ms != [] {
      PrintableMembersAll(ms[1..]);
      assert ms == [ms[0]] + ms[1..];
    }
  }

  // ---------------------------------------------------------------- the text as a C string

  ghost predicate NoNul(t: string) {
    forall k :: 0 <= k < |t| ==> t[k] != '\0'
  }

  lemma {:induction false} EscapedHasNoNul(s: string, escapeSlashes: bool)
    ensures NoNul(EscapeAll(s, escapeSlashes))
  {
    if s != "" {
      EscapedHasNoNul(s[1..], escapeSlashes);
    }
  }

  lemma NumberHasNoNul(x: real)
    requires IsDouble(x)
    ensures NoNul(NumberText(x))
  {
    hide NumberText, IsDouble;
    NumberChars(x);
  }

  lemma KeyTextIsCString(key: string, style: Style)
    ensures NoNul(KeyText(key, style)) && |KeyText(key, style)| > 0
  {
    hide EscapeAll;
    EscapedHasNoNul(key, style.escapeSlashes);
  }

  lemma LayoutIsCString(level: nat, last: bool, style: Style)
    ensures NoNul(IfPretty(style, Indent(level))) && NoNul(ElementEnd(last, style))
  {
  }

  lemma Joined(a: string, b: string)
    requires NoNul(a) && NoNul(b)
    ensures NoNul(a + b)
  {
  }

  /** strlen of a serialization is its length: the text holds no NUL byte, even where the strings in it do. And
      each level of nesting takes two bytes at least. */
  lemma {:induction false} TextIsCString(v: Value, level: nat, style: Style)
    requires Printable(v)
    ensures NoNul(Text(v, level, style)) && |Text(v, level, style)| > 2 * Level(v)
    decreases v
  {
    hide NumberText, EscapeAll, ItemsText, MembersText, PrintableItems, PrintableMembers, IsDouble;
    match v
    case Num(x) => NumberHasNoNul(x);
    case Str(s) => EscapedHasNoNul(s, style.escapeSlashes);
    case Arr(items) => ItemsTextIsCString(items, level, style);
    case Obj(members) => MembersTextIsCString(members, level, style);
    case _ =>
  }

  lemma {:induction false} ItemsTextIsCString(items: seq<Value>, level: nat, style: Style)
    requires PrintableItems(items)
    ensures NoNul(ItemsText(items, level, style)) && |ItemsText(items, level, style)| + 1 >= 2 * ItemsLevel(items)
    decreases items
  {
    hide Text, Printable;
    if items != [] {
      TextIsCString(items[0], level + 1, style);
      ItemsTextIsCString(items[1..], level, style);
    }
  }

  lemma {:induction false} MembersTextIsCString(ms: seq<Member>, level: nat, style: Style)
    requires PrintableMembers(ms)
    ensures NoNul(MembersText(ms, level, style)) && |MembersText(ms, level, style)| + 1 >= 2 * MembersLevel(ms)
    decreases ms
  {
    hide Text, Printable, KeyText, Indent, NoNul;
    if ms == [] {
      EscapedHasNoNul("", style.escapeSlashes);
    } else {
      KeyTextIsCString(ms[0].key, style);
      TextIsCString(ms[0].val, level + 1, style);
      MembersTextIsCString(ms[1..], level, style);
      var before, end := IfPretty(style, Indent(level + 1)), ElementEnd(|ms| == 1, style);
      assert NoNul(before) && NoNul(end) by { LayoutIsCString(level + 1, |ms| == 1, style); }
      Joined(before, KeyText(ms[0].key, style));
      Joined(before + KeyText(ms[0].key, style), Text(ms[0].val, level + 1, style));
      Joined(before + KeyText(ms[0].key, style) + Text(ms[0].val, level + 1, style), end);
      Joined(before + KeyText(ms[0].key, style) + Text(ms[0].val, level + 1, style) + end,
             MembersText(ms[1..], level, style));
    }
  }
}
