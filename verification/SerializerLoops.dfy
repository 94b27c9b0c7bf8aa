/** The serializer as it runs: once with a null buffer, to measure, and once into a buffer of that size plus
    one. `start` is where the value at hand starts in the buffer and `out` what was written from there on. */
module SerializerLoops {
  import opened Json
  import opened StringLiteral
  import opened Decimals
  import opened Doubles
  import S = Serializer

  const NUM_BUF_SIZE: nat := 64

  /** A buffer that is written to has room for `t` and a terminator at `start`. */
  predicate Fits(buf: array?<char>, start: nat, t: string) {
    buf != null ==> start + |t| < buf.Length
  }

  ghost predicate Holds(buf: array?<char>, start: nat, t: string)
    reads buf
  {
    buf != null ==> start + |t| <= buf.Length && forall k :: 0 <= k < |t| ==> buf[start + k] == t[k]
  }

  /** Only the cells from `start` to `end`, and the terminator there, have changed. */
  twostate predicate OnlyWrote(buf: array?<char>, start: nat, end: nat)
    reads buf
  {
    buf != null ==> forall k :: 0 <= k < buf.Length && (k < start || k > end) ==> buf[k] == old(buf[k])
  }

  ghost predicate Terminated(buf: array?<char>, end: nat)
    reads buf
  {
    buf != null ==> end < buf.Length && buf[end] == '\0'
  }

  /** APPEND_STRING. */
  method Append(token: string, buf: array?<char>, start: nat, ghost out: string, total: nat) returns (total': nat)
    requires total == |out| && Holds(buf, start, out) && Fits(buf, start, out + token)
    modifies buf
    ensures total' == |out + token| && Holds(buf, start, out + token) && Terminated(buf, start + total')
    ensures OnlyWrote(buf, start + total, start + total')
    ensures out == "" ==> out + token == token
  {
    if buf != null {
      forall k | 0 <= k < |token| {
        buf[start + total + k] := token[k];
      }
      buf[start + total + |token|] := '\0';
    }
    total' := total + |token|;
  }

  /** One turn of the loop of json_serialize_string: a character that stands for itself is stored as it is. */
  method AppendEscaped(c: char, buf: array?<char>, start: nat, ghost out: string, total: nat, escapeSlashes: bool)
    returns (total': nat)
    requires total == |out| && Holds(buf, start, out) && Fits(buf, start, out + EscapeChar(c, escapeSlashes))
    modifies buf
    ensures var out' := out + EscapeChar(c, escapeSlashes); total' == |out'| && Holds(buf, start, out')
    ensures OnlyWrote(buf, start + total, start + total')
  {
    var t := EscapeChar(c, escapeSlashes);
    if t == [c] && c != '/' {
      if buf != null {
        buf[start + total] := c;
      }
      total' := total + 1;
    } else {
      total' := Append(t, buf, start, out, total);
    }
  }

  /** json_serialize_string. */
  lemma EscapedFrom(str: string, i: nat, escapeSlashes: bool)
    requires i <= |str|
    ensures EscapeAll(str[i..], escapeSlashes) ==
            if i == |str| then "" else EscapeChar(str[i], escapeSlashes) + EscapeAll(str[i + 1..], escapeSlashes)
  {
    hide EscapeChar;
    assert i < |str| ==> str[i..][1..] == str[i + 1..];
  }

  method SerializeString(str: string, buf: array?<char>, start: nat, escapeSlashes: bool) returns (written: nat)
    requires Fits(buf, start, Quote(str, escapeSlashes))
    modifies buf
    ensures written == |Quote(str, escapeSlashes)|
    ensures Holds(buf, start, Quote(str, escapeSlashes)) && Terminated(buf, start + written)
    ensures OnlyWrote(buf, start, start + written)
  {
    hide EscapeChar, EscapeAll;
    ghost var whole := Quote(str, escapeSlashes);
    var total := Append("\"", buf, start, "", 0);
    ghost var out := "\"";
    for i := 0 to |str|
      invariant total == |out| && Holds(buf, start, out)
      invariant whole == out + EscapeAll(str[i..], escapeSlashes) + "\""
      invariant OnlyWrote(buf, start, start + total)
    {
      ghost var t := EscapeChar(str[i], escapeSlashes);
      EscapedFrom(str, i, escapeSlashes);
      assert whole == out + t + EscapeAll(str[i + 1..], escapeSlashes) + "\"";
      total := AppendEscaped(str[i], buf, start, out, total, escapeSlashes);
      out := out + t;
    }
    EscapedFrom(str, |str|, escapeSlashes);
    assert whole == out + "\"";
    written := Append("\"", buf, start, out, total);
  }

  /** Printed numbers fit the number buffer with room to spare, so the terminator does. */
  lemma NumberFits(x: real)
    requires IsDouble(x)
    ensures |NumberText(x)| <= 24 < NUM_BUF_SIZE
  {
    hide IsDouble;
    NumberIsShort(x);
  }

  /** Text that only the pretty form has. */
  method AppendIfPretty(style: S.Style, token: string, buf: array?<char>, start: nat, ghost out: string, total: nat)
    returns (total': nat)
    requires total == |out| && Holds(buf, start, out) && Fits(buf, start, out + S.IfPretty(style, token))
    modifies buf
    ensures total' == |out + S.IfPretty(style, token)| && Holds(buf, start, out + S.IfPretty(style, token))
    ensures OnlyWrote(buf, start + total, start + total')
  {
    if style.pretty {
      total' := Append(token, buf, start, out, total);
    } else {
      total' := total;
      assert out + "" == out;
    }
  }

  /** APPEND_INDENT. */
  method AppendIndent(style: S.Style, level: nat, buf: array?<char>, start: nat, ghost out: string, total: nat)
    returns (total': nat)
    requires total == |out| && Holds(buf, start, out) && Fits(buf, start, out + S.IfPretty(style, S.Indent(level)))
    modifies buf
    ensures var out' := out + S.IfPretty(style, S.Indent(level)); total' == |out'| && Holds(buf, start, out')
    ensures OnlyWrote(buf, start + total, start + total')
  {
    total' := total;
    ghost var out', whole := out, out + S.IfPretty(style, S.Indent(level));
    if style.pretty {
      for i := 0 to level
        invariant total' == |out'| && total <= total' && Holds(buf, start, out')
        invariant whole == out' + S.Indent(level - i)
        invariant OnlyWrote(buf, start + total, start + total')
      {
        assert whole == out' + S.INDENT + S.Indent(level - i - 1);
        total' := Append(S.INDENT, buf, start, out', total');
        out' := out' + S.INDENT;
      }
    }
    assert whole == out';
  }

  /** json_serialize_to_buffer_r. Numbers are printed into `numBuf` while measuring. */
  method SerializeToBufferR(value: Value, buf: array?<char>, start: nat, level: nat, style: S.Style,
                            numBuf: array?<char>)
    returns (written: nat)
    requires S.Printable(value) && Fits(buf, start, S.Text(value, level, style))
    requires buf == null ==> numBuf != null && numBuf.Length == NUM_BUF_SIZE
    modifies buf, if buf == null then numBuf else null
    ensures written == |S.Text(value, level, style)|
    ensures Holds(buf, start, S.Text(value, level, style)) && Terminated(buf, start + written)
    ensures OnlyWrote(buf, start, start + written)
    decreases value, 2
  {
    match value
    case Null => written := Append("null", buf, start, "", 0);
    case Bool(b) => written := Append(if b then "true" else "false", buf, start, "", 0);
    case Num(x) => written := SerializeNumber(x, buf, start, numBuf);
    case Str(str) => written := SerializeString(str, buf, start, style.escapeSlashes);
    case Arr(items) => written := SerializeArray(items, buf, start, level, style, numBuf);
    case Obj(members) => written := SerializeObject(members, buf, start, level, style, numBuf);
  }

  method SerializeNumber(x: real, buf: array?<char>, start: nat, numBuf: array?<char>) returns (written: nat)
    requires IsDouble(x) && Fits(buf, start, NumberText(x))
    requires buf == null ==> numBuf != null && numBuf.Length == NUM_BUF_SIZE
    modifies buf, if buf == null then numBuf else null
    ensures written == |NumberText(x)|
    ensures Holds(buf, start, NumberText(x)) && Terminated(buf, start + written)
    ensures OnlyWrote(buf, start, start + written)
  {
    NumberFits(x);
    if buf != null {
      written := Append(NumberText(x), buf, start, "", 0);
    } else {
      written := Append(NumberText(x), numBuf, 0, "", 0);
    }
  }

  /** Serializes a nested value after `out`. */
  method AppendValue(value: Value, buf: array?<char>, start: nat, ghost out: string, total: nat, level: nat,
                     style: S.Style, numBuf: array?<char>) returns (total': nat)
    requires S.Printable(value) && total == |out| && Holds(buf, start, out)
    requires Fits(buf, start, out + S.Text(value, level, style))
    requires buf == null ==> numBuf != null && numBuf.Length == NUM_BUF_SIZE
    modifies buf, if buf == null then numBuf else null
    ensures var out' := out + S.Text(value, level, style); total' == |out'| && Holds(buf, start, out')
    ensures OnlyWrote(buf, start + total, start + total')
    decreases value, 3
  {
    var written := SerializeToBufferR(value, buf, start + total, level, style, numBuf);
    total' := total + written;
  }

  method AppendElementEnd(last: bool, buf: array?<char>, start: nat, ghost out: string, total: nat, style: S.Style)
    returns (total': nat)
    requires total == |out| && Holds(buf, start, out) && Fits(buf, start, out + S.ElementEnd(last, style))
    modifies buf
    ensures var out' := out + S.ElementEnd(last, style); total' == |out'| && Holds(buf, start, out')
    ensures OnlyWrote(buf, start + total, start + total')
  {
    total' := total;
    ghost var out' := out;
    if !last {
      total' := Append(",", buf, start, out, total');
      out' := out + ",";
    }
    assert out + S.ElementEnd(last, style) == out' + S.IfPretty(style, "\n");
    total' := AppendIfPretty(style, "\n", buf, start, out', total');
  }

  /** One turn of the loop over array items. */
  method AppendItem(items: seq<Value>, i: nat, buf: array?<char>, start: nat, ghost out: string, total: nat,
                    level: nat, style: S.Style, numBuf: array?<char>) returns (total': nat)
    requires i < |items| && S.Printable(items[i]) && total == |out| && Holds(buf, start, out)
    requires Fits(buf, start, out + ItemText(items, i, level, style))
    requires buf == null ==> numBuf != null && numBuf.Length == NUM_BUF_SIZE
    modifies buf, if buf == null then numBuf else null
    ensures var out' := out + ItemText(items, i, level, style); total' == |out'| && Holds(buf, start, out')
    ensures OnlyWrote(buf, start + total, start + total')
    decreases items, 0
  {
    hide S.Text, S.ElementEnd, S.Indent, S.IfPretty;
    ghost var ind := S.IfPretty(style, S.Indent(level + 1));
    ghost var text, end := S.Text(items[i], level + 1, style), S.ElementEnd(i == |items| - 1, style);
    assert out + ItemText(items, i, level, style) == out + ind + text + end;
    total' := AppendIndent(style, level + 1, buf, start, out, total);
    total' := AppendValue(items[i], buf, start, out + ind, total', level + 1, style, numBuf);
    total' := AppendElementEnd(i == |items| - 1, buf, start, out + ind + text, total', style);
  }

  ghost function ItemText(items: seq<Value>, i: nat, level: nat, style: S.Style): string
    requires i < |items| && S.Printable(items[i])
  {
    S.IfPretty(style, S.Indent(level + 1)) + S.Text(items[i], level + 1, style) + S.ElementEnd(i == |items| - 1, style)
  }

  lemma ItemsTextFrom(items: seq<Value>, i: nat, level: nat, style: S.Style)
    requires i < |items| && S.PrintableItems(items[i..])
    ensures S.Printable(items[i]) && S.PrintableItems(items[i + 1..])
    ensures S.ItemsText(items[i..], level, style) ==
            ItemText(items, i, level, style) + S.ItemsText(items[i + 1..], level, style)
  {
    assert items[i..][1..] == items[i + 1..];
  }

  /** The loop over the items, after `out`. */
  method AppendItems(items: seq<Value>, buf: array?<char>, start: nat, ghost out: string, total: nat, level: nat,
                     style: S.Style, numBuf: array?<char>) returns (total': nat)
    requires S.PrintableItems(items) && total == |out| && Holds(buf, start, out)
    requires Fits(buf, start, out + S.ItemsText(items, level, style))
    requires buf == null ==> numBuf != null && numBuf.Length == NUM_BUF_SIZE
    modifies buf, if buf == null then numBuf else null
    ensures var out' := out + S.ItemsText(items, level, style); total' == |out'| && Holds(buf, start, out')
    ensures OnlyWrote(buf, start + total, start + total')
    decreases items, 1
  {
    hide S.ItemsText, ItemText;
    ghost var whole, written := out + S.ItemsText(items, level, style), out;
    total' := total;
    for i := 0 to |items|
      invariant total <= total' == |written| && Holds(buf, start, written)
      invariant S.PrintableItems(items[i..])
      invariant whole == written + S.ItemsText(items[i..], level, style)
      invariant OnlyWrote(buf, start + total, start + total')
    {
      ItemsTextFrom(items, i, level, style);
      ghost var text := ItemText(items, i, level, style);
      assert whole == written + text + S.ItemsText(items[i + 1..], level, style);
      total' := AppendItem(items, i, buf, start, written, total', level, style, numBuf);
      written := written + text;
    }
    EmptyItems(level, style);
  }

  method SerializeArray(items: seq<Value>, buf: array?<char>, start: nat, level: nat, style: S.Style,
                        numBuf: array?<char>) returns (written: nat)
    requires S.PrintableItems(items) && Fits(buf, start, S.Text(Arr(items), level, style))
    requires buf == null ==> numBuf != null && numBuf.Length == NUM_BUF_SIZE
    modifies buf, if buf == null then numBuf else null
    ensures written == |S.Text(Arr(items), level, style)|
    ensures Holds(buf, start, S.Text(Arr(items), level, style)) && Terminated(buf, start + written)
    ensures OnlyWrote(buf, start, start + written)
    decreases items, 2
  {
    hide S.ItemsText, S.Indent, S.IfPretty;
    ghost var whole := S.Text(Arr(items), level, style);
    ghost var open := if items == [] then "[" else "[" + S.IfPretty(style, "\n");
    ghost var body := S.ItemsText(items, level, style);
    ghost var indent := if items == [] then "" else S.IfPretty(style, S.Indent(level));
    assert whole == open + body + indent + "]" by { EmptyItems(level, style); }
    var total := Append("[", buf, start, "", 0);
    if |items| > 0 {
      total := AppendIfPretty(style, "\n", buf, start, "[", total);
    }
    total := AppendItems(items, buf, start, open, total, level, style, numBuf);
    if |items| > 0 {
      total := AppendIndent(style, level, buf, start, open + body, total);
    }
    written := Append("]", buf, start, open + body + indent, total);
  }

  lemma EmptyItems(level: nat, style: S.Style)
    ensures S.ItemsText([], level, style) == "" && S.MembersText([], level, style) == ""
  {
  }

  /** Serializes a key after `out`. */
  method AppendKey(key: string, buf: array?<char>, start: nat, ghost out: string, total: nat, style: S.Style)
    returns (total': nat)
    requires total == |out| && Holds(buf, start, out) && Fits(buf, start, out + S.KeyText(key, style))
    modifies buf
    ensures var out' := out + S.KeyText(key, style); total' == |out'| && Holds(buf, start, out')
    ensures OnlyWrote(buf, start + total, start + total')
  {
    hide Quote, S.IfPretty;
    ghost var quoted := Quote(key, style.escapeSlashes);
    assert out + S.KeyText(key, style) == out + quoted + ":" + S.IfPretty(style, " ");
    var written := SerializeString(key, buf, start + total, style.escapeSlashes);
    total' := Append(":", buf, start, out + quoted, total + written);
    total' := AppendIfPretty(style, " ", buf, start, out + quoted + ":", total');
  }

  /** One turn of the loop over object members. */
  method AppendMember(ms: seq<Member>, i: nat, buf: array?<char>, start: nat, ghost out: string, total: nat,
                      level: nat, style: S.Style, numBuf: array?<char>) returns (total': nat)
    requires i < |ms| && S.Printable(ms[i].val) && total == |out| && Holds(buf, start, out)
    requires Fits(buf, start, out + MemberText(ms, i, level, style))
    requires buf == null ==> numBuf != null && numBuf.Length == NUM_BUF_SIZE
    modifies buf, if buf == null then numBuf else null
    ensures var out' := out + MemberText(ms, i, level, style); total' == |out'| && Holds(buf, start, out')
    ensures OnlyWrote(buf, start + total, start + total')
    decreases ms, 0
  {
    hide S.Text, S.ElementEnd, S.Indent, S.IfPretty, S.KeyText;
    ghost var ind, key := S.IfPretty(style, S.Indent(level + 1)), S.KeyText(ms[i].key, style);
    ghost var text, end := S.Text(ms[i].val, level + 1, style), S.ElementEnd(i == |ms| - 1, style);
    assert out + MemberText(ms, i, level, style) == out + ind + key + text + end;
    total' := AppendIndent(style, level + 1, buf, start, out, total);
    total' := AppendKey(ms[i].key, buf, start, out + ind, total', style);
    total' := AppendValue(ms[i].val, buf, start, out + ind + key, total', level + 1, style, numBuf);
    total' := AppendElementEnd(i == |ms| - 1, buf, start, out + ind + key + text, total', style);
  }

  ghost function MemberText(ms: seq<Member>, i: nat, level: nat, style: S.Style): string
    requires i < |ms| && S.Printable(ms[i].val)
  {
    S.IfPretty(style, S.Indent(level + 1)) + S.KeyText(ms[i].key, style) + S.Text(ms[i].val, level + 1, style)
    + S.ElementEnd(i == |ms| - 1, style)
  }

  lemma MembersTextFrom(ms: seq<Member>, i: nat, level: nat, style: S.Style)
    requires i < |ms| && S.PrintableMembers(ms[i..])
    ensures S.Printable(ms[i].val) && S.PrintableMembers(ms[i + 1..])
    ensures S.MembersText(ms[i..], level, style) ==
            MemberText(ms, i, level, style) + S.MembersText(ms[i + 1..], level, style)
  {
    assert ms[i..][1..] == ms[i + 1..];
  }

  /** The loop over the members, after `out`. */
  method AppendMembers(ms: seq<Member>, buf: array?<char>, start: nat, ghost out: string, total: nat, level: nat,
                     style: S.Style, numBuf: array?<char>) returns (total': nat)
    requires S.PrintableMembers(ms) && total == |out| && Holds(buf, start, out)
    requires Fits(buf, start, out + S.MembersText(ms, level, style))
    requires buf == null ==> numBuf != null && numBuf.Length == NUM_BUF_SIZE
    modifies buf, if buf == null then numBuf else null
    ensures var out' := out + S.MembersText(ms, level, style); total' == |out'| && Holds(buf, start, out')
    ensures OnlyWrote(buf, start + total, start + total')
    decreases ms, 1
  {
    hide S.MembersText, MemberText;
    ghost var whole, written := out + S.MembersText(ms, level, style), out;
    total' := total;
    for i := 0 to |ms|
      invariant total <= total' == |written| && Holds(buf, start, written)
      invariant S.PrintableMembers(ms[i..])
      invariant whole == written + S.MembersText(ms[i..], level, style)
      invariant OnlyWrote(buf, start + total, start + total')
    {
      MembersTextFrom(ms, i, level, style);
      ghost var text := MemberText(ms, i, level, style);
      assert whole == written + text + S.MembersText(ms[i + 1..], level, style);
      total' := AppendMember(ms, i, buf, start, written, total', level, style, numBuf);
      written := written + text;
    }
    EmptyItems(level, style);
  }

  method SerializeObject(ms: seq<Member>, buf: array?<char>, start: nat, level: nat, style: S.Style,
                         numBuf: array?<char>) returns (written: nat)
    requires S.PrintableMembers(ms) && Fits(buf, start, S.Text(Obj(ms), level, style))
    requires buf == null ==> numBuf != null && numBuf.Length == NUM_BUF_SIZE
    modifies buf, if buf == null then numBuf else null
    ensures written == |S.Text(Obj(ms), level, style)|
    ensures Holds(buf, start, S.Text(Obj(ms), level, style)) && Terminated(buf, start + written)
    ensures OnlyWrote(buf, start, start + written)
    decreases ms, 2
  {
    hide S.MembersText, S.Indent, S.IfPretty;
    ghost var whole := S.Text(Obj(ms), level, style);
    ghost var open := if ms == [] then "{" else "{" + S.IfPretty(style, "\n");
    ghost var body := S.MembersText(ms, level, style);
    ghost var indent := if ms == [] then "" else S.IfPretty(style, S.Indent(level));
    assert whole == open + body + indent + "}" by { EmptyItems(level, style); }
    var total := Append("{", buf, start, "", 0);
    if |ms| > 0 {
      total := AppendIfPretty(style, "\n", buf, start, "{", total);
    }
    total := AppendMembers(ms, buf, start, open, total, level, style, numBuf);
    if |ms| > 0 {
      total := AppendIndent(style, level, buf, start, open + body, total);
    }
    written := Append("}", buf, start, open + body + indent, total);
  }

  // ---------------------------------------------------------------- the two passes

  /** json_serialization_size and its pretty form: the measured length plus one. */
  method SerializationSize(value: Value, style: S.Style) returns (size: nat)
    requires S.Printable(value)
    ensures size == |S.Text(value, 0, style)| + 1
  {
    var numBuf := new char[NUM_BUF_SIZE];
    var res := SerializeToBufferR(value, null, 0, 0, style, numBuf);
    size := res + 1;
  }

  /** json_serialize_to_buffer and its pretty form. Succeeds exactly when the buffer holds the text and its
      terminator; a buffer that is too small is not touched, and nothing is written past the terminator. */
  method SerializeToBuffer(value: Value, buf: array<char>, bufSize: nat, style: S.Style) returns (ok: bool)
    requires S.Printable(value) && bufSize <= buf.Length
    modifies buf
    ensures ok == (bufSize > |S.Text(value, 0, style)|)
    ensures !ok ==> buf[..] == old(buf[..])
    ensures ok ==> var n := |S.Text(value, 0, style)|;
              buf[..n] == S.Text(value, 0, style) && buf[n] == '\0' && buf[n + 1..] == old(buf[n + 1..])
  {
    var needed := SerializationSize(value, style);
    if needed == 0 || bufSize < needed { return false; }
    var written := SerializeToBufferR(value, buf, 0, 0, style, null);
    ok := true;
  }

  /** json_serialize_to_string and its pretty form: a buffer of the measured size always holds the text, with
      its terminator in the last cell. */
  method SerializeToString(value: Value, style: S.Style) returns (buf: array?<char>)
    requires S.Printable(value)
    ensures buf != null && fresh(buf)
    ensures buf[..] == S.Text(value, 0, style) + "\0"
  {
    var size := SerializationSize(value, style);
    var b := new char[size];
    var ok := SerializeToBuffer(value, b, size, style);
    if !ok { return null; }
    buf := b;
  }
}
