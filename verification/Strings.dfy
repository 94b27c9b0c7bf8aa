/** JSON string literals: the scan for the closing quote, the decoding of escapes, and their inverse. */
module StringLiteral {
  import opened Options
  import opened CString
  import opened Unicode

  const BACKSPACE: char := 0x08 as char
  const FORM_FEED: char := 0x0C as char

  /** A decoded piece of text and the position after it. */
  datatype Piece = Piece(out: string, next: nat)

  // ---------------------------------------------------------------- \u escapes

  /** hex_char_to_int. */
  function HexDigit(c: char): (d: int)
    ensures -1 <= d < 16
  {
    if '0' <= c <= '9' then c as int - '0' as int
    else if 'a' <= c <= 'f' then c as int - 'a' as int + 10
    else if 'A' <= c <= 'F' then c as int - 'A' as int + 10
    else -1
  }

  /** parse_utf16_hex: the UTF-16 unit that four digits spell. */
  function HexUnit(s: string, p: nat): (r: Option<nat>)
    ensures r.Some? ==> r.value < 0x10000 && p + 4 <= |s|
  {
    var x1, x2, x3, x4 := HexDigit(At(s, p)), HexDigit(At(s, p + 1)), HexDigit(At(s, p + 2)), HexDigit(At(s, p + 3));
    if x1 == -1 || x2 == -1 || x3 == -1 || x4 == -1 then None
    else Some(x1 * 0x1000 + x2 * 0x100 + x3 * 0x10 + x4)
  }

  /** What parse_utf16 makes of the escape whose `u` stands at `p`. */
  function Utf16Escape(s: string, p: nat): (r: Option<Piece>)
    ensures r.Some? ==> p < r.value.next <= |s| && |r.value.out| < r.value.next - p
  {
    match HexUnit(s, p + 1)
    case None => None
    case Some(cp) =>
      if cp < 0xD800 || cp > 0xDFFF then Some(Piece(Encode(cp), p + 5))
      else if cp > 0xDBFF then None
      else if At(s, p + 5) != '\\' || At(s, p + 6) != 'u' then None
      else match HexUnit(s, p + 7)
        case None => None
        case Some(trail) =>
          if trail < 0xDC00 || trail > 0xDFFF then None
          else Some(Piece(Encode((cp - 0xD800) % 0x400 * 0x400 + (trail - 0xDC00) % 0x400 + 0x10000), p + 11))
  }

  /** The escape at `p` spells the code point `cp`: as one unit, or as the surrogate pair of section 2.1 of
      RFC 2781. */
  ghost predicate Spells(s: string, p: nat, cp: nat, next: nat) {
    if cp < 0x10000 then
      HexUnit(s, p + 1) == Some(cp) && next == p + 5
    else
      && HexUnit(s, p + 1) == Some(0xD800 + (cp - 0x10000) / 0x400 % 0x400)
      && At(s, p + 5) == '\\' && At(s, p + 6) == 'u'
      && HexUnit(s, p + 7) == Some(0xDC00 + (cp - 0x10000) % 0x400)
      && next == p + 11
  }

  /** An escape is accepted exactly when it spells a scalar value, and it becomes that value's one UTF-8
      sequence. Unpaired surrogates spell nothing. */
  lemma EscapeIffSpells(s: string, p: nat, next: nat, out: string)
    ensures Utf16Escape(s, p) == Some(Piece(out, next)) <==>
            exists cp :: IsScalar(cp) && Spells(s, p, cp, next) && out == Encode(cp)
  {
    hide Encode, HexUnit;
    forall cp | IsScalar(cp) && Spells(s, p, cp, next)
      ensures Utf16Escape(s, p) == Some(Piece(Encode(cp), next))
    {
      if cp >= 0x10000 {
        assert cp == (cp - 0x10000) / 0x400 * 0x400 + (cp - 0x10000) % 0x400 + 0x10000;
      }
    }
    if Utf16Escape(s, p) == Some(Piece(out, next)) {
      var lead := HexUnit(s, p + 1).value;
      if lead < 0xD800 || lead > 0xDFFF {
        assert IsScalar(lead) && Spells(s, p, lead, next);
      } else {
        var trail := HexUnit(s, p + 7).value;
        var cp := (lead - 0xD800) * 0x400 + (trail - 0xDC00) + 0x10000;
        assert IsScalar(cp) && Spells(s, p, cp, next);
      }
    }
  }

  /** The bytes of an accepted escape read back as one UTF-8 sequence for the code point spelled. */
  lemma EscapeIsUtf8(s: string, p: nat, cp: nat, next: nat)
    requires IsScalar(cp) && Spells(s, p, cp, next)
    ensures var r := Utf16Escape(s, p);
            r.Some? && VerifySequence(r.value.out, 0) == Some(Decoded(cp, |r.value.out|))
  {
    EscapeIffSpells(s, p, next, Encode(cp));
    assert OccursAt(Encode(cp), 0, Encode(cp));
    EncodeThenVerify(Encode(cp), 0, cp);
  }

  // ---------------------------------------------------------------- scanning and decoding

  /** Where skip_quotes ends, from inside the quotes at `p`: after the closing quote. */
  function ClosingQuote(s: string, p: nat): (r: Option<nat>)
    ensures r.Some? ==> p < r.value <= |s| && s[r.value - 1] == '\"'
    ensures r.Some? ==> forall k :: p <= k < r.value ==> s[k] != '\0'
    decreases |s| - p
  {
    if At(s, p) == '\"' then Some(p + 1)
    else if At(s, p) == '\0' then None
    else if At(s, p) == '\\' then if At(s, p + 1) == '\0' then None else ClosingQuote(s, p + 2)
    else ClosingQuote(s, p + 1)
  }

  /** The one-letter escapes. */
  function SimpleEscape(c: char): Option<char> {
    if c == '\"' || c == '\\' || c == '/' then Some(c)
    else if c == 'b' then Some(BACKSPACE)
    else if c == 'f' then Some(FORM_FEED)
    else if c == 'n' then Some('\n')
    else if c == 'r' then Some('\r')
    else if c == 't' then Some('\t')
    else None
  }

  /** One turn of the loop of process_string. */
  function Decode(s: string, p: nat): (r: Option<Piece>)
    requires At(s, p) != '\0'
    ensures r.Some? ==> p < r.value.next && 1 <= |r.value.out| <= r.value.next - p
  {
    if At(s, p) == '\\' then
      if At(s, p + 1) == 'u' then Utf16Escape(s, p + 1)
      else match SimpleEscape(At(s, p + 1))
        case None => None
        case Some(c) => Some(Piece([c], p + 2))
    else if At(s, p) < ' ' then None
    else Some(Piece([At(s, p)], p + 1))
  }

  /** What process_string makes of the span from `p` to `end`, and where its cursor stops. */
  function Unescaped(s: string, p: nat, end: nat): Option<Piece>
    decreases |s| - p
  {
    if At(s, p) == '\0' || p >= end then Some(Piece("", p))
    else match Decode(s, p)
      case None => None
      case Some(piece) => Prepend(piece.out, Unescaped(s, piece.next, end))
  }

  function Prepend(out: string, r: Option<Piece>): Option<Piece> {
    match r
    case None => None
    case Some(rest) => Some(Piece(out + rest.out, rest.next))
  }

  /** get_quoted_string. */
  function QuotedString(s: string, p: nat): (r: Option<Piece>)
    ensures r.Some? ==> p < r.value.next <= |s|
    ensures r.Some? ==> forall k :: p <= k < r.value.next ==> s[k] != '\0'
  {
    if At(s, p) != '\"' then None
    else match ClosingQuote(s, p + 1)
      case None => None
      case Some(q) =>
        match Unescaped(s, p + 1, q - 1)
        case None => None
        case Some(piece) => Some(Piece(piece.out, q))
  }

  /** Hexadecimal digits are neither quotes nor backslashes, so the scan steps over them one by one. */
  lemma ScanOverUnit(s: string, p: nat)
    requires HexUnit(s, p).Some?
    ensures ClosingQuote(s, p) == ClosingQuote(s, p + 4)
  {
    assert ClosingQuote(s, p) == ClosingQuote(s, p + 1);
    assert ClosingQuote(s, p + 1) == ClosingQuote(s, p + 2);
    assert ClosingQuote(s, p + 2) == ClosingQuote(s, p + 3);
  }

  /** Each decoding step leaves the scan for the closing quote at an unescaped character. */
  lemma DecodeKeepsScan(s: string, p: nat)
    requires At(s, p) != '\0' && At(s, p) != '\"' && Decode(s, p).Some?
    ensures ClosingQuote(s, p) == ClosingQuote(s, Decode(s, p).value.next)
  {
    if At(s, p) == '\\' && At(s, p + 1) == 'u' {
      ScanOverUnit(s, p + 2);
      if Decode(s, p).value.next == p + 12 {
        assert ClosingQuote(s, p + 6) == ClosingQuote(s, p + 8);
        ScanOverUnit(s, p + 8);
      }
    }
  }

  /** On a span accepted by the scan, decoding consumes exactly that span, and its output with a terminator
      fits in the bytes of the span plus one. */
  lemma {:induction false} DecodingConsumesSpan(s: string, p: nat, end: nat)
    requires ClosingQuote(s, p) == Some(end + 1)
    ensures Unescaped(s, p, end).Some? ==>
              Unescaped(s, p, end).value.next == end && |Unescaped(s, p, end).value.out| <= end - p
    decreases |s| - p
  {
    if p < end && Decode(s, p).Some? {
      DecodeKeepsScan(s, p);
      DecodingConsumesSpan(s, Decode(s, p).value.next, end);
    }
  }

  ghost predicate SameSpan(s: string, t: string, p: nat, end: nat) {
    end < |s| && end < |t| && forall k :: p <= k <= end ==> s[k] == t[k]
  }

  /** A `\u` escape is decided by the text up to the closing quote. */
  lemma EscapeDependsOnSpan(s: string, t: string, p: nat, end: nat)
    requires SameSpan(s, t, p, end) && p < end && s[end] == '\"'
    ensures Utf16Escape(s, p) == Utf16Escape(t, p)
  {
    hide Encode;
    UnitDependsOnSpan(s, t, p + 1, end);
    if HexUnit(s, p + 1).Some? && At(s, p + 5) == '\\' {
      if At(s, p + 6) == 'u' {
        UnitDependsOnSpan(s, t, p + 7, end);
      }
    }
  }

  lemma UnitDependsOnSpan(s: string, t: string, p: nat, end: nat)
    requires SameSpan(s, t, p, end) && p <= end && s[end] == '\"'
    ensures HexUnit(s, p) == HexUnit(t, p)
    ensures HexUnit(s, p).Some? ==> p + 4 <= end
  {
  }

  /** Decoding never depends on anything past the closing quote. */
  lemma {:induction false} DecodingDependsOnSpan(s: string, t: string, p: nat, end: nat)
    requires ClosingQuote(s, p) == Some(end + 1) && SameSpan(s, t, p, end)
    ensures Unescaped(s, p, end) == Unescaped(t, p, end)
    decreases |s| - p
  {
    if p < end {
      if At(s, p) == '\\' && At(s, p + 1) == 'u' {
        EscapeDependsOnSpan(s, t, p + 1, end);
      }
      if Decode(s, p).Some? {
        DecodeKeepsScan(s, p);
        DecodingDependsOnSpan(s, t, Decode(s, p).value.next, end);
      }
    }
  }

  // ---------------------------------------------------------------- how far the reader looks

  /** How many bytes parse_utf16_hex looks at: it stops at a NUL, and otherwise looks at all four. */
  function UnitReads(s: string, p: nat): (n: nat)
    ensures 1 <= n <= 4
  {
    if At(s, p) == '\0' then 1 else if At(s, p + 1) == '\0' then 2 else if At(s, p + 2) == '\0' then 3 else 4
  }

  /** A byte of the four is looked at exactly when no NUL stands before it: none behind the terminating NUL is. */
  lemma UnitReadsUpToNul(s: string, p: nat, k: nat)
    ensures p <= k < p + UnitReads(s, p) <==> p <= k < p + 4 && forall j :: p <= j < k ==> At(s, j) != '\0'
    ensures p <= |s| ==> p + UnitReads(s, p) - 1 <= |s|
  {
    if p <= k < p + 4 && forall j :: p <= j < k ==> At(s, j) != '\0' {
      assert k > p ==> At(s, p) != '\0';
      assert k > p + 1 ==> At(s, p + 1) != '\0';
      assert k > p + 2 ==> At(s, p + 2) != '\0';
    }
  }

  /** The rest of a string literal from `p` to its closing quote at `end`. */
  ghost predicate InLiteral(s: string, p: nat, end: nat) {
    p <= end < |s| && s[end] == '\"' && forall k :: p <= k <= end ==> s[k] != '\0'
  }

  /** A unit is read past the closing quote exactly when the quote stands among its four places. */
  lemma UnitLooksPastQuote(s: string, p: nat, end: nat)
    requires InLiteral(s, p, end)
    ensures p + UnitReads(s, p) - 1 > end <==> end < p + 3
    ensures (exists k :: end < k < p + UnitReads(s, p) && At(s, k) != '\0') <==> end < p + 3 && At(s, end + 1) != '\0'
  {
    UnitReadsUpToNul(s, p, end + 1);
    forall k | end < k < p + UnitReads(s, p) && At(s, k) != '\0' ensures At(s, end + 1) != '\0' {
      UnitReadsUpToNul(s, p, k);
    }
  }

  /** The last position parse_utf16 looks at, for the escape whose `u` stands at `p`. */
  function EscapeReach(s: string, p: nat): nat {
    match HexUnit(s, p + 1)
    case None => p + UnitReads(s, p + 1)
    case Some(cp) =>
      if !(0xD800 <= cp <= 0xDBFF) then p + 4
      else if At(s, p + 5) != '\\' then p + 5
      else if At(s, p + 6) != 'u' then p + 6
      else p + 6 + UnitReads(s, p + 7)
  }

  /** The closing quote at `end` cuts off a unit of the escape whose `u` stands at `p`: the first one, or the second
      one of what starts as a surrogate pair. */
  predicate IsCut(s: string, p: nat, end: nat) {
    end < p + 4 ||
    (HexUnit(s, p + 1).Some? && 0xD800 <= HexUnit(s, p + 1).value <= 0xDBFF &&
     At(s, p + 5) == '\\' && At(s, p + 6) == 'u' && end < p + 10)
  }

  /** An escape is read past the closing quote exactly when the quote cuts off one of its units; then it is refused. */
  lemma EscapeLooksPastQuote(s: string, p: nat, end: nat)
    requires InLiteral(s, p, end) && p < end
    ensures EscapeReach(s, p) > end <==> IsCut(s, p, end)
    ensures IsCut(s, p, end) ==> Utf16Escape(s, p) == None
  {
    hide UnitReads, Encode;
    UnitLooksPastQuote(s, p + 1, end);
    UnitInLiteral(s, p + 1, end);
    if HexUnit(s, p + 1).Some? && At(s, p + 5) == '\\' && At(s, p + 6) == 'u' {
      UnitLooksPastQuote(s, p + 7, end);
      UnitInLiteral(s, p + 7, end);
    }
  }

  lemma UnitInLiteral(s: string, p: nat, end: nat)
    requires InLiteral(s, p, end)
    ensures HexUnit(s, p).Some? ==> p + 4 <= end
  {
  }

  /** The last position process_string looks at in the span from `p` to the closing quote at `end`. */
  function Reach(s: string, p: nat, end: nat): nat
    decreases |s| - p
  {
    if At(s, p) == '\0' || p >= end then p
    else match Decode(s, p)
      case Some(piece) => Reach(s, piece.next, end)
      case None => if At(s, p) != '\\' then p else if At(s, p + 1) != 'u' then p + 1 else EscapeReach(s, p + 1)
  }

  /** Where decoding stops, if it does. */
  function StopsAt(s: string, p: nat, end: nat): (r: Option<nat>)
    ensures r.None? <==> Unescaped(s, p, end).Some?
    decreases |s| - p
  {
    if At(s, p) == '\0' || p >= end then None
    else match Decode(s, p)
      case Some(piece) => StopsAt(s, piece.next, end)
      case None => Some(p)
  }

  /** process_string looks past the closing quote exactly when it stops at an escape that the quote cuts off. A string
      that it accepts is never read past the quote. */
  lemma {:induction false} DecodingLooksPastQuote(s: string, p: nat, end: nat)
    requires ClosingQuote(s, p) == Some(end + 1)
    ensures Unescaped(s, p, end).Some? ==> Reach(s, p, end) == end
    ensures Reach(s, p, end) > end <==>
            var q := StopsAt(s, p, end);
            q.Some? && At(s, q.value) == '\\' && At(s, q.value + 1) == 'u' && IsCut(s, q.value + 1, end)
    decreases |s| - p
  {
    hide EscapeReach, IsCut, Utf16Escape;
    if p < end {
      if Decode(s, p).Some? {
        DecodeKeepsScan(s, p);
        DecodingLooksPastQuote(s, Decode(s, p).value.next, end);
      } else if At(s, p) == '\\' && At(s, p + 1) == 'u' {
        EscapeLooksPastQuote(s, p + 1, end);
      }
    }
  }

  /** It never looks past the terminating NUL. */
  lemma {:induction false} DecodingStaysInText(s: string, p: nat, end: nat)
    requires ClosingQuote(s, p) == Some(end + 1)
    ensures Reach(s, p, end) <= |s|
    decreases |s| - p
  {
    hide Utf16Escape, UnitReads;
    if p < end {
      if Decode(s, p).Some? {
        DecodeKeepsScan(s, p);
        DecodingStaysInText(s, Decode(s, p).value.next, end);
      } else if At(s, p) == '\\' && At(s, p + 1) == 'u' {
        UnitReadsUpToNul(s, p + 2, p);
        if HexUnit(s, p + 2).Some? && At(s, p + 6) == '\\' && At(s, p + 7) == 'u' {
          UnitReadsUpToNul(s, p + 8, p);
        }
      }
    }
  }

  /** In the literal "\\u12" two bytes behind the closing quote are looked at when there are any. */
  lemma ShortUnitLooksPastQuote(c: char, d: char)
    requires c != '\0'
    ensures var s := "\"\\u12\"" + [c, d];
            ClosingQuote(s, 1) == Some(6) && StopsAt(s, 1, 5) == Some(1) && Reach(s, 1, 5) == 6 && s[6] == c
  {
    var s := "\"\\u12\"" + [c, d];
    assert s[1] == '\\' && s[2] == 'u' && s[3] == '1' && s[4] == '2' && s[5] == '\"' && s[6] == c && |s| == 8;
    assert ClosingQuote(s, 5) == Some(6);
    assert ClosingQuote(s, 3) == Some(6);
    assert HexUnit(s, 3) == None;
  }

  // ---------------------------------------------------------------- quoting

  function HexChar(d: nat): char
    requires d < 16
  {
    if d < 10 then ('0' as int + d) as char else ('a' as int + d - 10) as char
  }

  /** json_serialize_string on one character. */
  function EscapeChar(c: char, escapeSlashes: bool): (t: string)
    ensures |t| > 0
  {
    if c == '"' then "\\\""
    else if c == '\\' then "\\\\"
    else if c == BACKSPACE then "\\b"
    else if c == FORM_FEED then "\\f"
    else if c == '\n' then "\\n"
    else if c == '\r' then "\\r"
    else if c == '\t' then "\\t"
    else if c < ' ' then "\\u00" + [HexChar(c as int / 16), HexChar(c as int % 16)]
    else if c == '/' && escapeSlashes then "\\/"
    else [c]
  }

  function EscapeAll(str: string, escapeSlashes: bool): string {
    if str == "" then "" else EscapeChar(str[0], escapeSlashes) + EscapeAll(str[1..], escapeSlashes)
  }

  /** The text json_serialize_string writes. */
  function Quote(str: string, escapeSlashes: bool): string {
    "\"" + EscapeAll(str, escapeSlashes) + "\""
  }

  lemma HexCharDigit(d: nat)
    requires d < 16
    ensures HexDigit(HexChar(d)) == d
  {
  }

  /** One written character reads back as itself. */
  lemma EscapeCharDecodes(s: string, p: nat, c: char, escapeSlashes: bool)
    requires OccursAt(s, p, EscapeChar(c, escapeSlashes))
    ensures At(s, p) != '\0' && At(s, p) != '\"'
    ensures Decode(s, p) == Some(Piece([c], p + |EscapeChar(c, escapeSlashes)|))
  {
    var t := EscapeChar(c, escapeSlashes);
    forall k | 0 <= k < |t| ensures At(s, p + k) == t[k] {
      OccursChar(s, p, t, k);
    }
    if t[0] == '\\' && t[1] == 'u' {
      assert At(s, p + 2) == t[2] == '0' && At(s, p + 3) == t[3] == '0';
      assert At(s, p + 4) == t[4] == HexChar(c as int / 16) && At(s, p + 5) == t[5] == HexChar(c as int % 16);
      ControlUnit(s, p + 2, c);
    }
  }

  lemma ControlUnit(s: string, p: nat, c: char)
    requires c < ' ' && At(s, p) == '0' && At(s, p + 1) == '0'
    requires At(s, p + 2) == HexChar(c as int / 16) && At(s, p + 3) == HexChar(c as int % 16)
    ensures HexUnit(s, p) == Some(c as int)
  {
    hide HexChar, HexDigit;
    HexCharDigit(c as int / 16);
    HexCharDigit(c as int % 16);
    ZeroIsHexZero();
  }

  lemma ZeroIsHexZero()
    ensures HexDigit('0') == 0
  {
  }

  lemma {:induction false} BodyDecodes(s: string, p: nat, str: string, escapeSlashes: bool)
    requires OccursAt(s, p, EscapeAll(str, escapeSlashes))
    requires At(s, p + |EscapeAll(str, escapeSlashes)|) == '\"'
    ensures var end := p + |EscapeAll(str, escapeSlashes)|;
            ClosingQuote(s, p) == Some(end + 1) && Unescaped(s, p, end) == Some(Piece(str, end))
    decreases |str|
  {
    hide EscapeChar, Decode, OccursAt;
    if str != "" {
      var first, rest := EscapeChar(str[0], escapeSlashes), EscapeAll(str[1..], escapeSlashes);
      OccursSplit(s, p, first, rest);
      EscapeCharDecodes(s, p, str[0], escapeSlashes);
      DecodeKeepsScan(s, p);
      BodyDecodes(s, p + |first|, str[1..], escapeSlashes);
      assert str == [str[0]] + str[1..];
    }
  }

  /** Quoting any byte string and reading it back gives the same bytes, right up to the closing quote. */
  lemma QuoteRoundTrip(s: string, p: nat, str: string, escapeSlashes: bool)
    requires OccursAt(s, p, Quote(str, escapeSlashes))
    ensures QuotedString(s, p) == Some(Piece(str, p + |Quote(str, escapeSlashes)|))
  {
    hide EscapeAll, ClosingQuote, Unescaped, OccursAt;
    var body := EscapeAll(str, escapeSlashes);
    OccursSplit(s, p, "\"" + body, "\"");
    OccursSplit(s, p, "\"", body);
    OccursChar(s, p, "\"", 0);
    OccursChar(s, p + 1 + |body|, "\"", 0);
    BodyDecodes(s, p + 1, str, escapeSlashes);
  }

  /** Four hexadecimal digits, each in either case, that stand for `u`. */
  ghost predicate IsUnit(t: string, u: nat) {
    && u < 0x10000 && |t| == 4
    && IsHexOf(t[0], u / 0x1000) && IsHexOf(t[1], u / 0x100 % 16)
    && IsHexOf(t[2], u / 0x10 % 16) && IsHexOf(t[3], u % 16)
  }

  /** An escape of the code point from its `u` on: one unit or a surrogate pair. */
  ghost predicate IsEscapeOf(t: string, cp: nat) {
    if cp < 0x10000 then |t| == 5 && t[0] == 'u' && IsUnit(t[1..], cp)
    else
      && |t| == 11 && t[0] == 'u' && t[5..7] == "\\u"
      && IsUnit(t[1..5], 0xD800 + (cp - 0x10000) / 0x400 % 0x400)
      && IsUnit(t[7..], 0xDC00 + (cp - 0x10000) % 0x400)
  }

  lemma HexOfIsDigit(c: char, d: nat)
    requires d < 16
    ensures IsHexOf(c, d) <==> HexDigit(c) == d
  {
  }

  lemma UnitIsRead(s: string, p: nat, t: string, u: nat)
    requires IsUnit(t, u) && OccursAt(s, p, t)
    ensures HexUnit(s, p) == Some(u)
  {
    hide IsHexOf, HexDigit;
    forall k | 0 <= k < 4 ensures At(s, p + k) == t[k] {
      OccursChar(s, p, t, k);
    }
    assert At(s, p + 0) == t[0];
    HexOfIsDigit(t[0], u / 0x1000);
    HexOfIsDigit(t[1], u / 0x100 % 16);
    HexOfIsDigit(t[2], u / 0x10 % 16);
    HexOfIsDigit(t[3], u % 16);
    HexDigitsOf(u);
  }

  lemma HexDigitsOf(u: nat)
    ensures u == u / 0x1000 * 0x1000 + u / 0x100 % 16 * 0x100 + u / 0x10 % 16 * 0x10 + u % 16
  {
    assert u / 0x10 == u / 0x100 * 16 + u / 0x10 % 16;
    assert u / 0x100 == u / 0x1000 * 16 + u / 0x100 % 16;
  }

  /** Every scalar value written as an escape, with digits in either case, decodes to its UTF-8 sequence. */
  lemma EscapeTextDecodes(s: string, p: nat, cp: nat, t: string)
    requires IsScalar(cp) && IsEscapeOf(t, cp) && OccursAt(s, p, t)
    ensures Utf16Escape(s, p) == Some(Piece(Encode(cp), p + |t|))
  {
    hide IsUnit, HexUnit, Encode, OccursAt;
    if cp < 0x10000 {
      assert t == [t[0]] + t[1..];
      OccursSplit(s, p, [t[0]], t[1..]);
      UnitIsRead(s, p + 1, t[1..], cp);
    } else {
      var lead, trail := t[1..5], t[7..];
      assert t == [t[0]] + lead + "\\u" + trail;
      OccursSplit(s, p, [t[0]] + lead + "\\u", trail);
      OccursSplit(s, p, [t[0]] + lead, "\\u");
      OccursSplit(s, p, [t[0]], lead);
      UnitIsRead(s, p + 1, lead, 0xD800 + (cp - 0x10000) / 0x400 % 0x400);
      UnitIsRead(s, p + 7, trail, 0xDC00 + (cp - 0x10000) % 0x400);
      OccursChar(s, p + 5, "\\u", 0);
      OccursChar(s, p + 5, "\\u", 1);
    }
    assert Spells(s, p, cp, p + |t|);
    EscapeIffSpells(s, p, p + |t|, Encode(cp));
  }

  // ---------------------------------------------------------------- the loops

  /** Steps the cursor over a quoted string. */
  method SkipQuotes(s: string, p: nat) returns (ok: bool, q: nat)
    ensures ok <==> At(s, p) == '\"' && ClosingQuote(s, p + 1).Some?
    ensures ok ==> q == ClosingQuote(s, p + 1).value
  {
    q := p;
    if At(s, q) != '\"' { return false, q; }
    q := q + 1;
    while At(s, q) != '\"'
      invariant ClosingQuote(s, q) == ClosingQuote(s, p + 1)
      decreases |s| - q
    {
      if At(s, q) == '\0' {
        return false, q;
      } else if At(s, q) == '\\' {
        q := q + 1;
        if At(s, q) == '\0' { return false, q; }
      }
      q := q + 1;
    }
    q := q + 1;
    ok := true;
  }

  /** parse_utf16_hex, with the number of bytes it looks at. */
  method ParseUtf16Hex(s: string, p: nat) returns (r: Option<nat>, looked: nat)
    ensures r == HexUnit(s, p) && looked == UnitReads(s, p)
  {
    looked := 1;
    if At(s, p) == '\0' { return None, looked; }
    looked := 2;
    if At(s, p + 1) == '\0' { return None, looked; }
    looked := 3;
    if At(s, p + 2) == '\0' { return None, looked; }
    looked := 4;
    if At(s, p + 3) == '\0' { return None, looked; }
    var x1, x2, x3, x4 := HexDigit(At(s, p)), HexDigit(At(s, p + 1)), HexDigit(At(s, p + 2)), HexDigit(At(s, p + 3));
    if x1 == -1 || x2 == -1 || x3 == -1 || x4 == -1 { return None, looked; }
    r := Some(x1 * 0x1000 + x2 * 0x100 + x3 * 0x10 + x4);
  }

  /** The stores for a code point of one unit; the index is left at the last byte. */
  method StoreUnit(cp: nat, output: array<char>, o: nat) returns (o': nat)
    requires IsScalar(cp) && cp < 0x10000 && o + |Encode(cp)| <= output.Length
    modifies output
    ensures o' + 1 == o + |Encode(cp)| && output[..o' + 1] == old(output[..o]) + Encode(cp)
  {
    o' := o;
    if cp < 0x80 {
      output[o'] := cp as char;
    } else if cp < 0x800 {
      output[o'] := (cp / 0x40 % 0x20 + 0xC0) as char;
      output[o' + 1] := (cp % 0x40 + 0x80) as char;
      o' := o' + 1;
    } else {
      output[o'] := (cp / 0x1000 % 0x10 + 0xE0) as char;
      output[o' + 1] := (cp / 0x40 % 0x40 + 0x80) as char;
      output[o' + 2] := (cp % 0x40 + 0x80) as char;
      o' := o' + 2;
    }
  }

  method StorePair(cp: nat, output: array<char>, o: nat) returns (o': nat)
    requires IsScalar(cp) && 0x10000 <= cp && o + |Encode(cp)| <= output.Length
    modifies output
    ensures o' + 1 == o + |Encode(cp)| && output[..o' + 1] == old(output[..o]) + Encode(cp)
  {
    output[o] := (cp / 0x40000 % 8 + 0xF0) as char;
    output[o + 1] := (cp / 0x1000 % 0x40 + 0x80) as char;
    output[o + 2] := (cp / 0x40 % 0x40 + 0x80) as char;
    output[o + 3] := (cp % 0x40 + 0x80) as char;
    o' := o + 3;
  }

  /** Decodes the escape whose `u` stands at `p` into `output` from index `o` on. Both indices are left at
      the last character read and written, as the caller steps over those. */
  method ParseUtf16(s: string, p: nat, output: array<char>, o: nat)
    returns (ok: bool, p': nat, o': nat, ghost reach: nat)
    requires Utf16Escape(s, p).Some? ==> o + |Utf16Escape(s, p).value.out| <= output.Length
    modifies output
    ensures ok == Utf16Escape(s, p).Some? && reach == EscapeReach(s, p)
    ensures ok ==>
              && p' == Utf16Escape(s, p).value.next - 1
              && o' == o + |Utf16Escape(s, p).value.out| - 1
              && output[..o' + 1] == old(output[..o]) + Utf16Escape(s, p).value.out
  {
    hide HexUnit, UnitReads, Encode;
    p', o' := p + 1, o;
    var unit, looked := ParseUtf16Hex(s, p');
    reach := p' + looked - 1;
    if unit.None? { return false, p', o', reach; }
    UnitReadsFour(s, p');
    var cp := unit.value;
    if cp < 0xD800 || cp > 0xDFFF {
      o' := StoreUnit(cp, output, o');
    } else if cp <= 0xDBFF {
      var lead := cp;
      p' := p' + 4;
      reach := p';
      if At(s, p') != '\\' { return false, p', o', reach; }
      reach := p' + 1;
      if At(s, p' + 1) != 'u' { return false, p', o', reach; }
      p' := p' + 2;
      unit, looked := ParseUtf16Hex(s, p');
      reach := p' + looked - 1;
      if unit.None? || unit.value < 0xDC00 || unit.value > 0xDFFF { return false, p', o', reach; }
      var trail := unit.value;
      cp := (lead - 0xD800) % 0x400 * 0x400 + (trail - 0xDC00) % 0x400 + 0x10000;
      o' := StorePair(cp, output, o');
    } else {
      return false, p', o', reach;
    }
    p' := p' + 3;
    ok := true;
  }

  lemma UnitReadsFour(s: string, p: nat)
    requires HexUnit(s, p).Some?
    ensures UnitReads(s, p) == 4
  {
  }

  /** One turn of the loop of process_string, with room for what it stores. */
  method DecodeInto(s: string, p: nat, output: array<char>, o: nat)
    returns (ok: bool, p': nat, o': nat, ghost reach: nat)
    requires At(s, p) != '\0'
    requires Decode(s, p).Some? ==> o + |Decode(s, p).value.out| <= output.Length
    modifies output
    ensures ok == Decode(s, p).Some?
    ensures !ok ==> reach == if At(s, p) != '\\' then p
                             else if At(s, p + 1) != 'u' then p + 1 else EscapeReach(s, p + 1)
    ensures ok ==>
              && p' == Decode(s, p).value.next
              && o' == o + |Decode(s, p).value.out|
              && output[..o'] == old(output[..o]) + Decode(s, p).value.out
  {
    hide Encode, Utf16Escape, IsScalar, EscapeReach;
    p', o', reach := p, o, p;
    if At(s, p') == '\\' {
      p', reach := p' + 1, p' + 1;
      if At(s, p') == 'u' {
        ok, p', o', reach := ParseUtf16(s, p', output, o');
        if !ok { return; }
      } else {
        var c := SimpleEscape(At(s, p'));
        if c.None? { return false, p', o', reach; }
        output[o'] := c.value;
      }
    } else if At(s, p') < ' ' {
      return false, p', o', reach;
    } else {
      output[o'] := At(s, p');
    }
    o' := o' + 1;
    p' := p' + 1;
    ok := true;
  }

  /** Decodes the `len` characters from `start` on, which end at a closing quote, in a buffer of `len + 1`. */
  method ProcessString(s: string, start: nat, len: nat) returns (r: Option<string>, ghost reach: nat)
    requires ClosingQuote(s, start) == Some(start + len + 1)
    ensures reach == Reach(s, start, start + len)
    ensures r == match Unescaped(s, start, start + len)
                 case None => None
                 case Some(piece) => Some(piece.out)
  {
    hide Decode, EscapeReach;
    var output := new char[len + 1];
    var p: nat, o: nat := start, 0;
    PrependNothing(Unescaped(s, p, start + len));
    while At(s, p) != '\0' && p - start < len
      invariant start <= p && o <= p - start <= len
      invariant ClosingQuote(s, p) == Some(start + len + 1)
      invariant Unescaped(s, start, start + len) == Prepend(output[..o], Unescaped(s, p, start + len))
      invariant Reach(s, start, start + len) == Reach(s, p, start + len)
      decreases start + len - p
    {
      DecodeFits(s, p, start + len);
      ghost var p0, written := p, output[..o];
      var ok, p', o', last := DecodeInto(s, p, output, o);
      if !ok { return None, last; }
      p, o := p', o';
      PrependTwice(written, Decode(s, p0).value.out, Unescaped(s, p, start + len));
    }
    assert output[..o] + "" == output[..o];
    output[o] := '\0';
    var finalSize := o + 1;
    var resized := new char[finalSize](i requires 0 <= i < finalSize <= output.Length reads output => output[i]);
    assert resized[..o] == output[..o];
    r, reach := Some(resized[..o]), p;
  }

  lemma PrependNothing(r: Option<Piece>)
    ensures Prepend("", r) == r
  {
    if r.Some? {
      assert "" + r.value.out == r.value.out;
    }
  }

  lemma PrependTwice(a: string, b: string, r: Option<Piece>)
    ensures Prepend(a, Prepend(b, r)) == Prepend(a + b, r)
  {
    if r.Some? {
      assert a + (b + r.value.out) == a + b + r.value.out;
    }
  }

  lemma DecodeFits(s: string, p: nat, end: nat)
    requires ClosingQuote(s, p) == Some(end + 1) && p < end
    ensures Decode(s, p).Some? ==>
              && p < Decode(s, p).value.next <= end
              && |Decode(s, p).value.out| <= Decode(s, p).value.next - p
              && ClosingQuote(s, Decode(s, p).value.next) == Some(end + 1)
  {
    if Decode(s, p).Some? {
      DecodeKeepsScan(s, p);
    }
  }

  /** The contents of a quoted string, and the position after it. */
  method GetQuotedString(s: string, p: nat) returns (r: Option<Piece>)
    ensures r == QuotedString(s, p)
  {
    var ok, q := SkipQuotes(s, p);
    if !ok { return None; }
    var inputLen := q - p - 2;
    var out, _ := ProcessString(s, p + 1, inputLen);
    if out.None? { return None; }
    r := Some(Piece(out.value, q));
  }
}
