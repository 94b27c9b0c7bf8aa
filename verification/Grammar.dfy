/** The JSON that the parser reads, written as a relation between a text and a value: what may stand where, without
    saying how it is read. */
module Grammar {
  import opened Json
  import opened CString
  import opened Unicode
  import opened Numeral
  import Doubles

  /** White space of the C locale. */
  predicate IsBlank(c: char) {
    c == ' ' || c == '\t' || c == '\n' || c == '\r' || c as int == 0x0B || c as int == 0x0C
  }

  /** Nothing but white space from `p` to `q`. */
  ghost predicate Gap(s: string, p: nat, q: nat) {
    p <= q && forall k :: p <= k < q ==> IsBlank(At(s, k))
  }

  ghost predicate TokenAt(s: string, p: nat, q: nat, token: string) {
    q == p + |token| && forall k :: 0 <= k < |token| ==> At(s, p + k) == token[k]
  }

  // ---------------------------------------------------------------- strings

  /** Four hexadecimal digits, in either case, that stand for `u`. */
  ghost predicate UnitAt(s: string, p: nat, u: nat) {
    && u < 0x10000
    && IsHexOf(At(s, p), u / 0x1000)
    && IsHexOf(At(s, p + 1), u / 0x100 % 0x10)
    && IsHexOf(At(s, p + 2), u / 0x10 % 0x10)
    && IsHexOf(At(s, p + 3), u % 0x10)
  }

  /** Behind a `\u` the code point `cp` is written: as one unit, or as a high and a low surrogate. */
  ghost predicate CodePointAt(s: string, p: nat, q: nat, cp: nat) {
    if cp < 0x10000 then UnitAt(s, p, cp) && q == p + 4
    else
      && UnitAt(s, p, 0xD800 + (cp - 0x10000) / 0x400)
      && At(s, p + 4) == '\\' && At(s, p + 5) == 'u'
      && UnitAt(s, p + 6, 0xDC00 + (cp - 0x10000) % 0x400)
      && q == p + 10
  }

  /** The letter behind a backslash, and the character both stand for. */
  predicate IsShortEscape(letter: char, c: char) {
    || (letter == '\"' && c == '\"')
    || (letter == '\\' && c == '\\')
    || (letter == '/' && c == '/')
    || (letter == 'b' && c as int == 0x08)
    || (letter == 'f' && c as int == 0x0C)
    || (letter == 'n' && c as int == 0x0A)
    || (letter == 'r' && c as int == 0x0D)
    || (letter == 't' && c as int == 0x09)
  }

  /** One character of a string: itself, unless it is a control character, a quote or a backslash, or an escape. */
  ghost predicate CharAt(s: string, p: nat, q: nat, out: string) {
    if At(s, p) != '\\' then
      At(s, p) as int >= 0x20 && At(s, p) != '\"' && q == p + 1 && out == [At(s, p)]
    else if At(s, p + 1) != 'u' then
      q == p + 2 && |out| == 1 && IsShortEscape(At(s, p + 1), out[0])
    else
      exists cp :: IsScalar(cp) && CodePointAt(s, p + 2, q, cp) && out == Encode(cp)
  }

  /** From inside the quotes at `p`, characters that stand for `t`, and the closing quote before `q`. */
  ghost predicate CharsAt(s: string, p: nat, q: nat, t: string)
    decreases |s| - p
  {
    if At(s, p) == '\"' then t == "" && q == p + 1
    else
      exists next, out ::
        CharAt(s, p, next, out) && p < next && out <= t && CharsAt(s, next, q, t[|out|..])
  }

  ghost predicate StringAt(s: string, p: nat, q: nat, t: string) {
    At(s, p) == '\"' && CharsAt(s, p + 1, q, t)
  }

  // ---------------------------------------------------------------- numbers

  /** As many digits as stand there, maybe none. */
  ghost predicate DigitRun(s: string, p: nat, q: nat) {
    p <= q && (forall k :: p <= k < q ==> IsDigit(At(s, k))) && !IsDigit(At(s, q))
  }

  /** Where the digits of an exponent would start, behind the "e" at `p` and a sign. */
  function ExponentDigits(s: string, p: nat): nat {
    if At(s, p + 1) == '+' || At(s, p + 1) == '-' then p + 2 else p + 1
  }

  predicate ExponentFollows(s: string, p: nat) {
    (At(s, p) == 'e' || At(s, p) == 'E') && IsDigit(At(s, ExponentDigits(s, p)))
  }

  /** A numeral without its sign: digits from `p` to `dot`, digits behind a dot up to `end`, and an exponent up to
      `q`, each as long as it can be. There is some digit before the exponent. */
  ghost predicate NumeralAt(s: string, p: nat, dot: nat, end: nat, q: nat) {
    && DigitRun(s, p, dot)
    && (if At(s, dot) == '.' then DigitRun(s, dot + 1, end) else end == dot)
    && (p < dot || dot + 1 < end)
    && (if ExponentFollows(s, end) then DigitRun(s, ExponentDigits(s, end), q) else q == end)
  }

  /** The number that such a numeral denotes. */
  ghost function Denoted(s: string, p: nat, dot: nat, end: nat, q: nat): real
    requires dot <= end
  {
    var fraction := if dot == end then 0.0 else DigitsValue(s, dot + 1, end) as real * Ten(dot + 1 - end);
    var power := if ExponentFollows(s, end) then DigitsValue(s, ExponentDigits(s, end), q) else 0;
    (DigitsValue(s, p, dot) as real + fraction) * Ten(if At(s, end + 1) == '-' then -power else power)
  }

  /** A leading zero is the whole number, or a dot follows it. */
  ghost predicate NoLeadingZero(s: string, p: nat, q: nat) {
    At(s, p) == '0' && q > p + 1 ==> At(s, p + 1) == '.'
  }

  /** "0x" and a hexadecimal digit, maybe behind a dot. */
  predicate LooksHexadecimal(s: string, p: nat) {
    && At(s, p) == '0' && (At(s, p + 1) == 'x' || At(s, p + 1) == 'X')
    && (IsHex(At(s, p + 2)) || (At(s, p + 2) == '.' && IsHex(At(s, p + 3))))
  }

  /** A numeral with or without a minus sign, whose number rounds to the finite double `x`. */
  ghost predicate DoubleAt(s: string, p: nat, q: nat, x: real) {
    exists dot, end :: DoubleWithin(s, p, dot, end, q, x)
  }

  ghost predicate DoubleWithin(s: string, p: nat, dot: nat, end: nat, q: nat, x: real) {
    var first := if At(s, p) == '-' then p + 1 else p;
    && NumeralAt(s, first, dot, end, q) && NoLeadingZero(s, first, q) && !LooksHexadecimal(s, first)
    && var r := Denoted(s, first, dot, end, q);
       -Doubles.OverflowLimit() < r < Doubles.OverflowLimit()
       && x == Doubles.Round(if At(s, p) == '-' then -r else r)
  }

  /** A minus sign that no digit follows, no dot and digit, and neither "inf" nor "nan" in any case. Where strtod
      does not report that it converts nothing, it counts as 0 and takes no character. */
  ghost predicate LoneMinusAt(s: string, p: nat, q: nat, x: real) {
    && !STRTOD_SETS_EINVAL && At(s, p) == '-' && q == p && x == 0.0
    && !IsDigit(At(s, p + 1)) && !(At(s, p + 1) == '.' && IsDigit(At(s, p + 2)))
    && !(IsLetter(At(s, p + 1), 'i') && IsLetter(At(s, p + 2), 'n') && IsLetter(At(s, p + 3), 'f'))
    && !(IsLetter(At(s, p + 1), 'n') && IsLetter(At(s, p + 2), 'a') && IsLetter(At(s, p + 3), 'n'))
  }

  ghost predicate NumberAt(s: string, p: nat, q: nat, x: real) {
    ((At(s, p) == '-' || IsDigit(At(s, p))) && DoubleAt(s, p, q, x)) || LoneMinusAt(s, p, q, x)
  }

  // ---------------------------------------------------------------- values

  /** White space and a value. */
  ghost predicate ValueAt(s: string, p: nat, q: nat, v: Value)
    decreases v, 1
  {
    exists a :: Gap(s, p, a) && SpelledAt(s, a, q, v)
  }

  ghost predicate SpelledAt(s: string, p: nat, q: nat, v: Value)
    decreases v, 0
  {
    match v
    case Null => TokenAt(s, p, q, "null")
    case Bool(b) => TokenAt(s, p, q, if b then "true" else "false")
    case Num(x) => NumberAt(s, p, q, x)
    case Str(t) => StringAt(s, p, q, t)
    case Arr(items) => At(s, p) == '[' && ItemsAt(s, p + 1, q, items)
    case Obj(members) => At(s, p) == '{' && UniqueKeys(members) && MembersAt(s, p + 1, q, members)
  }

  /** White space and the character `c` before `q`. */
  ghost predicate MarkAt(s: string, p: nat, q: nat, c: char) {
    q > 0 && Gap(s, p, q - 1) && At(s, q - 1) == c
  }

  /** Items with commas between them, maybe one more comma, and the closing bracket. */
  ghost predicate ItemsAt(s: string, p: nat, q: nat, items: seq<Value>)
    decreases items
  {
    if items == [] then MarkAt(s, p, q, ']')
    else
      exists a :: ValueAt(s, p, a, items[0]) &&
        ((|items| == 1 && MarkAt(s, a, q, ']')) ||
         exists b :: MarkAt(s, a, b, ',') && ItemsAt(s, b, q, items[1..]))
  }

  /** A key is a string without NUL bytes. */
  ghost predicate KeyAt(s: string, p: nat, q: nat, key: string) {
    '\0' !in key && exists a, b :: Gap(s, p, a) && StringAt(s, a, b, key) && MarkAt(s, b, q, ':')
  }

  ghost predicate MembersAt(s: string, p: nat, q: nat, ms: seq<Member>)
    decreases ms
  {
    if ms == [] then MarkAt(s, p, q, '}')
    else
      exists a, b :: KeyAt(s, p, a, ms[0].key) && ValueAt(s, a, b, ms[0].val) &&
        ((|ms| == 1 && MarkAt(s, b, q, '}')) ||
         exists c :: MarkAt(s, b, c, ',') && MembersAt(s, c, q, ms[1..]))
  }

  /** Where the first value may start: behind the UTF-8 byte order mark, if there is one. */
  function TextStart(s: string): nat {
    if At(s, 0) as int == 0xEF && At(s, 1) as int == 0xBB && At(s, 2) as int == 0xBF then 3 else 0
  }

  /** A text is a value; what stands behind the value is not looked at. */
  ghost predicate TextOf(s: string, v: Value) {
    exists q :: ValueAt(s, TextStart(s), q, v)
  }
}

/** The parser reads exactly what the grammar says. */
module Recognition {
  import opened Options
  import opened Json
  import opened CString
  import opened Unicode
  import opened Grammar
  import opened Parser
  import D = Decimals
  import Doubles
  import N = Numeral
  import RoundTrip
  import S = StringLiteral

  // ---------------------------------------------------------------- white space

  /** A gap that ends before something else than white space is what the parser skips. */
  lemma {:induction false} GapIsSkipped(s: string, p: nat, q: nat)
    requires Gap(s, p, q)
    ensures SkipSpaces(s, p) == SkipSpaces(s, q)
    ensures !IsBlank(At(s, q)) ==> SkipSpaces(s, p) == q
    decreases q - p
  {
    if p < q {
      assert IsBlank(At(s, p));
      GapIsSkipped(s, p + 1, q);
    }
  }

  lemma SkippedIsGap(s: string, p: nat)
    ensures Gap(s, p, SkipSpaces(s, p)) && !IsBlank(At(s, SkipSpaces(s, p)))
  {
  }

  // ---------------------------------------------------------------- strings

  lemma UnitIff(s: string, p: nat, u: nat)
    ensures UnitAt(s, p, u) <==> S.HexUnit(s, p) == Some(u)
  {
    hide IsHexOf, S.HexDigit;
    if u < 0x10000 {
      S.HexDigitsOf(u);
      S.HexOfIsDigit(At(s, p), u / 0x1000);
      S.HexOfIsDigit(At(s, p + 1), u / 0x100 % 0x10);
      S.HexOfIsDigit(At(s, p + 2), u / 0x10 % 0x10);
      S.HexOfIsDigit(At(s, p + 3), u % 0x10);
    }
  }

  lemma CodePointIff(s: string, p: nat, q: nat, cp: nat)
    requires IsScalar(cp)
    ensures CodePointAt(s, p + 1, q, cp) <==> S.Spells(s, p, cp, q)
  {
    hide UnitAt, S.HexUnit;
    if cp < 0x10000 {
      UnitIff(s, p + 1, cp);
    } else {
      UnitIff(s, p + 1, 0xD800 + (cp - 0x10000) / 0x400);
      UnitIff(s, p + 7, 0xDC00 + (cp - 0x10000) % 0x400);
    }
  }

  lemma ShortEscapeIff(letter: char, c: char)
    ensures IsShortEscape(letter, c) <==> S.SimpleEscape(letter) == Some(c)
  {
  }

  lemma CharIff(s: string, p: nat, q: nat, out: string)
    requires At(s, p) != '\0' && At(s, p) != '\"'
    ensures CharAt(s, p, q, out) <==> S.Decode(s, p) == Some(S.Piece(out, q))
  {
    hide CodePointAt, Encode, S.Utf16Escape, S.Spells, IsShortEscape, S.SimpleEscape;
    if At(s, p) == '\\' {
      if At(s, p + 1) == 'u' {
        S.EscapeIffSpells(s, p + 1, q, out);
        forall cp | IsScalar(cp) ensures CodePointAt(s, p + 2, q, cp) <==> S.Spells(s, p + 1, cp, q) {
          CodePointIff(s, p + 1, q, cp);
        }
      } else if |out| == 1 {
        assert out == [out[0]];
        ShortEscapeIff(At(s, p + 1), out[0]);
      }
    }
  }

  lemma {:induction false} CharsIff(s: string, p: nat, q: nat, t: string)
    ensures CharsAt(s, p, q, t) <==>
            S.ClosingQuote(s, p) == Some(q) && S.Unescaped(s, p, q - 1) == Some(S.Piece(t, q - 1))
    decreases |s| - p
  {
    hide CharAt, S.Decode;
    if At(s, p) != '\"' {
      if CharsAt(s, p, q, t) {
        CharsAreDecoded(s, p, q, t);
      }
      if S.ClosingQuote(s, p) == Some(q) && S.Unescaped(s, p, q - 1) == Some(S.Piece(t, q - 1)) {
        DecodedAreChars(s, p, q, t);
      }
    }
  }

  lemma NoCharAtNul(s: string, p: nat, q: nat, out: string)
    requires CharAt(s, p, q, out)
    ensures At(s, p) != '\0'
  {
  }

  lemma {:induction false} CharsAreDecoded(s: string, p: nat, q: nat, t: string)
    requires At(s, p) != '\"' && CharsAt(s, p, q, t)
    ensures S.ClosingQuote(s, p) == Some(q) && S.Unescaped(s, p, q - 1) == Some(S.Piece(t, q - 1))
    decreases |s| - p, 0
  {
    hide CharAt, S.Decode;
    var next, out :| CharAt(s, p, next, out) && p < next && out <= t && CharsAt(s, next, q, t[|out|..]);
    NoCharAtNul(s, p, next, out);
    CharIff(s, p, next, out);
    S.DecodeKeepsScan(s, p);
    CharsIff(s, next, q, t[|out|..]);
    assert out + t[|out|..] == t;
  }

  lemma {:induction false} DecodedAreChars(s: string, p: nat, q: nat, t: string)
    requires At(s, p) != '\"' && S.ClosingQuote(s, p) == Some(q)
    requires S.Unescaped(s, p, q - 1) == Some(S.Piece(t, q - 1))
    ensures CharsAt(s, p, q, t)
    decreases |s| - p, 0
  {
    hide CharAt, S.Decode;
    var piece := S.Decode(s, p).value;
    CharIff(s, p, piece.next, piece.out);
    S.DecodeKeepsScan(s, p);
    assert t[|piece.out|..] == S.Unescaped(s, piece.next, q - 1).value.out;
    CharsIff(s, piece.next, q, t[|piece.out|..]);
  }

  lemma StringIff(s: string, p: nat, q: nat, t: string)
    ensures StringAt(s, p, q, t) <==> S.QuotedString(s, p) == Some(S.Piece(t, q))
  {
    hide CharsAt, S.ClosingQuote, S.Unescaped;
    if At(s, p) == '\"' {
      CharsIff(s, p + 1, q, t);
      var end := S.ClosingQuote(s, p + 1);
      if end.Some? {
        S.DecodingConsumesSpan(s, p + 1, end.value - 1);
      }
    }
  }

  // ---------------------------------------------------------------- numbers

  lemma RunIff(s: string, p: nat, q: nat)
    ensures DigitRun(s, p, q) <==> q == N.DigitsEnd(s, p)
  {
    if DigitRun(s, p, q) {
      D.DigitsStop(s, p, q);
    }
  }

  /** The places of a numeral are where strtod finds them. */
  lemma PlacesIff(s: string, p: nat, dot: nat, end: nat, q: nat)
    ensures NumeralAt(s, N.WholeStart(s, p), dot, end, q) <==>
            N.AnyDigits(s, p) && dot == N.WholeEnd(s, p) && end == N.FractionEnd(s, p) && q == N.NumeralEnd(s, p)
  {
    hide DigitRun, N.DigitsEnd;
    RunIff(s, N.WholeStart(s, p), dot);
    RunIff(s, dot + 1, end);
    RunIff(s, ExponentDigits(s, end), q);
  }

  lemma ScaledSum(whole: real, fraction: real, t: real, x: real, u: real, v: real)
    requires t * x == 1.0 && v == t * u
    ensures (whole + fraction * x) * v == (whole * t + fraction) * u
  {
    assert (whole + fraction * x) * t == whole * t + fraction * (t * x);
    assert (whole + fraction * x) * v == (whole + fraction * x) * t * u;
  }

  /** The number denoted is the one strtod computes. */
  lemma DenotedIsScanned(s: string, p: nat)
    requires N.AnyDigits(s, p)
    ensures Denoted(s, N.WholeStart(s, p), N.WholeEnd(s, p), N.FractionEnd(s, p), N.NumeralEnd(s, p)) ==
            N.Mantissa(s, p) as real * N.Ten(N.Exponent(s, p))
  {
    hide N.Ten, N.Tens, N.DigitsValue, N.DigitsEnd;
    var dot, end := N.WholeEnd(s, p), N.FractionEnd(s, p);
    if At(s, dot) == '.' {
      var places: int := end - dot - 1;
      var e: int := N.Exponent(s, p) + places;
      D.TenAdds(e - places, places);
      D.TenAdds(0 - places, places);
      D.TensIsTen(0);
      D.OneIsTens();
      ScaledSum(N.DigitsValue(s, N.WholeStart(s, p), dot) as real, N.DigitsValue(s, dot + 1, end) as real,
                N.Tens(places) as real, N.Ten(0 - places), N.Ten(e - places), N.Ten(e));
    }
  }

  lemma LeadingZeroIff(s: string, p: nat, q: nat)
    requires p < q
    ensures N.IsDecimal(s, p, q) <==> NoLeadingZero(s, N.WholeStart(s, p), q)
  {
  }

  lemma DoubleIff(s: string, p: nat, q: nat, x: real)
    ensures DoubleAt(s, p, q, x) <==> N.Strtod(s, p).Decimal? && N.ParseNumber(s, p) == Some(N.Number(x, q))
  {
    hide DoubleWithin, N.Strtod, N.ParseNumber;
    var dot, end := N.WholeEnd(s, p), N.FractionEnd(s, p);
    DoubleWithinIff(s, p, q, x);
    if DoubleAt(s, p, q, x) {
      var dot', end' :| DoubleWithin(s, p, dot', end', q, x);
      assert dot' == dot && end' == end by { WithinIsAtItsPlaces(s, p, dot', end', q, x); }
    }
  }

  lemma WithinIsAtItsPlaces(s: string, p: nat, dot: nat, end: nat, q: nat, x: real)
    requires DoubleWithin(s, p, dot, end, q, x)
    ensures dot == N.WholeEnd(s, p) && end == N.FractionEnd(s, p)
  {
    hide N.FractionEnd, N.WholeEnd, N.NumeralEnd, N.AnyDigits;
    PlacesIff(s, p, dot, end, q);
  }

  lemma DoubleWithinIff(s: string, p: nat, q: nat, x: real)
    ensures DoubleWithin(s, p, N.WholeEnd(s, p), N.FractionEnd(s, p), q, x) <==>
            N.Strtod(s, p).Decimal? && N.ParseNumber(s, p) == Some(N.Number(x, q))
  {
    hide NumeralAt, Denoted, N.Mantissa, N.Exponent, N.Ten, N.IsDecimal, N.AnyDigits, Doubles.Round,
         Doubles.OverflowLimit, NoLeadingZero, N.NumeralEnd, N.FractionEnd, N.WholeEnd;
    var first, end := N.WholeStart(s, p), N.NumeralEnd(s, p);
    PlacesIff(s, p, N.WholeEnd(s, p), N.FractionEnd(s, p), q);
    if N.AnyDigits(s, p) {
      DigitsAreFinite(s, p);
      DenotedIsScanned(s, p);
      if LooksHexadecimal(s, first) {
        assert N.Strtod(s, p) == N.NotDecimal;
      } else {
        var r := Denoted(s, first, N.WholeEnd(s, p), N.FractionEnd(s, p), end);
        assert N.Strtod(s, p) == N.Decimal(if At(s, p) == '-' then -r else r, end);
        LeadingZeroIff(s, p, end);
      }
    }
  }

  lemma DigitsAreFinite(s: string, p: nat)
    requires N.AnyDigits(s, p)
    ensures !N.IsNotFinite(s, N.WholeStart(s, p))
  {
  }

  lemma NumberIff(s: string, p: nat, q: nat, x: real)
    requires At(s, p) == '-' || N.IsDigit(At(s, p))
    ensures NumberAt(s, p, q, x) <==> N.ParseNumber(s, p) == Some(N.Number(x, q))
  {
    hide DoubleAt, N.Strtod, Doubles.Round, Doubles.OverflowLimit, N.IsDecimal;
    DoubleIff(s, p, q, x);
    if At(s, p) == '-' {
      NothingConvertedIffBareMinus(s, p);
    } else {
      DigitConverts(s, p);
    }
  }

  // ---------------------------------------------------------------- what is parsed is spelled

  lemma TokenIff(s: string, p: nat, q: nat, token: string)
    requires '\0' !in token && token != ""
    ensures TokenAt(s, p, q, token) <==> OccursAt(s, p, token) && q == p + |token|
  {
    if OccursAt(s, p, token) {
      forall k | 0 <= k < |token| ensures At(s, p + k) == token[k] {
        OccursChar(s, p, token, k);
      }
    }
    if TokenAt(s, p, q, token) {
      assert At(s, p + (|token| - 1)) == token[|token| - 1];
      forall k | 0 <= k < |token| ensures s[p + k] == token[k] {
        assert At(s, p + k) == token[k];
      }
    }
  }

  lemma ScalarSpelled(s: string, p: nat, nesting: nat, limit: nat)
    requires SkipSpaces(s, p) == p && At(s, p) != '{' && At(s, p) != '[' && ParseValue(s, p, nesting, limit).Some?
    ensures var r := ParseValue(s, p, nesting, limit).value; SpelledAt(s, p, r.next, r.val)
  {
    hide S.QuotedString, StringAt, NumberAt, N.ParseNumber, TokenAt, OccursAt, SkipSpaces, Stepped;
    var r := ParseValue(s, p, nesting, limit).value;
    TokenIff(s, p, r.next, "true");
    TokenIff(s, p, r.next, "false");
    TokenIff(s, p, r.next, "null");
    match r.val
    case Str(t) => StringIff(s, p, r.next, t);
    case Num(x) => NumberIff(s, p, r.next, x);
    case _ =>
  }

  lemma {:induction false} ParsedIsValue(s: string, p: nat, nesting: nat, limit: nat)
    requires ParseValue(s, p, nesting, limit).Some?
    ensures var r := ParseValue(s, p, nesting, limit).value; ValueAt(s, p, r.next, r.val)
    decreases |s| - SkipSpaces(s, p), 3
  {
    hide S.QuotedString, ParseObject, ParseArray, N.ParseNumber, SpelledAt, Stepped;
    var q := SkipSpaces(s, p);
    SkippedIsGap(s, p);
    if At(s, q) == '{' {
      ObjectIsSpelled(s, q, nesting + 1, limit);
    } else if At(s, q) == '[' {
      ArrayIsSpelled(s, q, nesting + 1, limit);
    } else {
      assert ParseValue(s, q, nesting, limit) == ParseValue(s, p, nesting, limit);
      ScalarSpelled(s, q, nesting, limit);
    }
  }

  lemma MarkFound(s: string, p: nat, c: char)
    requires At(s, SkipSpaces(s, p)) == c
    ensures MarkAt(s, p, SkipSpaces(s, p) + 1, c)
  {
    SkippedIsGap(s, p);
  }

  lemma {:induction false} ArrayIsSpelled(s: string, p: nat, nesting: nat, limit: nat)
    requires At(s, p) == '[' && ParseArray(s, p, nesting, limit).Some?
    ensures var r := ParseArray(s, p, nesting, limit).value; SpelledAt(s, p, r.next, r.val)
    decreases |s| - p, 2
  {
    hide ParseItems, MarkAt, Stepped;
    var q := SkipSpaces(s, p + 1);
    if At(s, q) == ']' {
      MarkFound(s, p + 1, ']');
    } else {
      SkippedIsGap(s, p + 1);
      ItemsAreSpelled(s, p + 1, nesting, limit, []);
    }
  }

  /** The items that the loop adds, from the gap before the first of them to the closing bracket. */
  lemma {:induction false} ItemsAreSpelled(s: string, p: nat, nesting: nat, limit: nat, acc: seq<Value>)
    requires ParseItems(s, SkipSpaces(s, p), nesting, limit, acc).Some?
    requires var r := ParseItems(s, SkipSpaces(s, p), nesting, limit, acc).value; At(s, SkipSpaces(s, r.next)) == ']'
    ensures var r := ParseItems(s, SkipSpaces(s, p), nesting, limit, acc).value;
            acc <= r.items && ItemsAt(s, p, SkipSpaces(s, r.next) + 1, r.items[|acc|..])
    decreases |s| - SkipSpaces(s, p), 4
  {
    hide ParseValue, ValueAt, MarkAt, Stepped, SkipSpaces, AfterElement;
    var start := SkipSpaces(s, p);
    var r := ParseItems(s, start, nesting, limit, acc).value;
    SkippedIsGap(s, p);
    GapIsSkipped(s, p, start);
    assert At(s, start) != '\0';
    var parsed := ParseValue(s, start, nesting, limit).value;
    RoundTrip.ParseFromSpaces(s, p, start, nesting, limit);
    ParsedIsValue(s, p, nesting, limit);
    AfterMarks(s, parsed.next, ']');
    match AfterElement(s, parsed.next, ']')
    case Stop(at) =>
      assert r.items[|acc|..] == [parsed.val];
    case More(at) =>
      var comma := SkipSpaces(s, parsed.next) + 1;
      ItemsAreSpelled(s, comma, nesting, limit, acc + [parsed.val]);
      var added := r.items[|acc|..];
      assert added[0] == parsed.val && added[1..] == r.items[|acc + [parsed.val]|..];
  }

  /** What stands behind an element: the closer, a comma and the closer, or a comma and more. */
  lemma AfterMarks(s: string, p: nat, closer: char)
    ensures var after, comma := AfterElement(s, p, closer), SkipSpaces(s, p) + 1;
            && SkipSpaces(s, after.at) == after.at
            && (after.Stop? && At(s, after.at) == closer && closer != ',' ==>
                 MarkAt(s, p, after.at + 1, closer) ||
                 (MarkAt(s, p, comma, ',') && MarkAt(s, comma, after.at + 1, closer)))
            && (after.More? ==> MarkAt(s, p, comma, ',') && SkipSpaces(s, comma) == after.at && p < after.at)
  {
    SkippedIsGap(s, p);
    SkippedIsGap(s, SkipSpaces(s, p) + 1);
  }

  lemma {:induction false} ObjectIsSpelled(s: string, p: nat, nesting: nat, limit: nat)
    requires At(s, p) == '{' && ParseObject(s, p, nesting, limit).Some? && nesting > 0
    ensures var r := ParseObject(s, p, nesting, limit).value; SpelledAt(s, p, r.next, r.val)
    decreases |s| - p, 2
  {
    hide ParseMembers, MembersAt, Stepped, SkipSpaces, WellFormedMembers, MembersLevel, UniqueKeys;
    var q := SkipSpaces(s, p + 1);
    if At(s, q) == '}' {
      MarkFound(s, p + 1, '}');
      NoMembers(s, p + 1, q + 1);
    } else {
      MembersAreSpelled(s, p + 1, nesting, limit, []);
      ParsedKeysAreUnique(s, q, nesting, limit);
      var ms := ParseMembers(s, q, nesting, limit, []).value.members;
      assert ms[0..] == ms;
    }
  }

  lemma NoMembers(s: string, p: nat, q: nat)
    requires MarkAt(s, p, q, '}')
    ensures MembersAt(s, p, q, []) && UniqueKeys([])
  {
  }

  lemma ParsedKeysAreUnique(s: string, p: nat, nesting: nat, limit: nat)
    requires nesting > 0 && ParseMembers(s, p, nesting, limit, []).Some?
    ensures UniqueKeys(ParseMembers(s, p, nesting, limit, []).value.members)
  {
    hide ParseMembers;
    ParsedMembersWellFormed(s, p, nesting, limit, []);
  }

  lemma {:induction false} MemberIsSpelled(s: string, p: nat, nesting: nat, limit: nat)
    requires ParseMember(s, SkipSpaces(s, p), nesting, limit).Some?
    ensures var r := ParseMember(s, SkipSpaces(s, p), nesting, limit).value;
            exists a :: KeyAt(s, p, a, r.member.key) && ValueAt(s, a, r.next, r.member.val)
    decreases |s| - SkipSpaces(s, p), 1
  {
    hide ParseValue, ValueAt, S.QuotedString, StringAt, Stepped, SkipSpaces;
    var start := SkipSpaces(s, p);
    SkippedIsGap(s, p);
    var key := S.QuotedString(s, start).value;
    StringIff(s, start, key.next, key.out);
    MarkFound(s, key.next, ':');
    var colon := SkipSpaces(s, key.next) + 1;
    assert KeyAt(s, p, colon, key.out);
    ParsedIsValue(s, colon, nesting, limit);
  }

  /** The members that the loop adds, from the gap before the first of them to the closing brace. */
  lemma {:induction false} MembersAreSpelled(s: string, p: nat, nesting: nat, limit: nat, acc: seq<Member>)
    requires ParseMembers(s, SkipSpaces(s, p), nesting, limit, acc).Some?
    requires var r := ParseMembers(s, SkipSpaces(s, p), nesting, limit, acc).value;
             At(s, SkipSpaces(s, r.next)) == '}'
    ensures var r := ParseMembers(s, SkipSpaces(s, p), nesting, limit, acc).value;
            acc <= r.members && MembersAt(s, p, SkipSpaces(s, r.next) + 1, r.members[|acc|..])
    decreases |s| - SkipSpaces(s, p), 2
  {
    hide ParseMember, KeyAt, ValueAt, MarkAt, Stepped, SkipSpaces, AfterElement, Has;
    var start := SkipSpaces(s, p);
    var r := ParseMembers(s, start, nesting, limit, acc).value;
    SkippedIsGap(s, p);
    GapIsSkipped(s, p, start);
    assert At(s, start) != '\0';
    var parsed := ParseMember(s, start, nesting, limit).value;
    MemberIsSpelled(s, p, nesting, limit);
    AfterMarks(s, parsed.next, '}');
    match AfterElement(s, parsed.next, '}')
    case Stop(at) =>
      var added := r.members[|acc|..];
      assert added == [parsed.member] && added[0] == parsed.member && added[1..] == [];
    case More(at) =>
      var comma := SkipSpaces(s, parsed.next) + 1;
      MembersAreSpelled(s, comma, nesting, limit, acc + [parsed.member]);
      var added := r.members[|acc|..];
      assert added[0] == parsed.member && added[1..] == r.members[|acc + [parsed.member]|..];
  }

  // ---------------------------------------------------------------- what is spelled is parsed

  lemma SpelledStarts(s: string, p: nat, q: nat, v: Value)
    requires SpelledAt(s, p, q, v)
    ensures SkipSpaces(s, p) == p && At(s, p) != '\0' && At(s, p) != ']' && At(s, p) != '}' && At(s, p) != ','
    ensures v.Null? ==> At(s, p) == 'n'
    ensures v.Bool? ==> At(s, p) == if v.b then 't' else 'f'
    ensures v.Num? ==> At(s, p) == '-' || N.IsDigit(At(s, p))
    ensures v.Str? ==> At(s, p) == '\"'
  {
    hide DoubleAt, CharsAt, ItemsAt, MembersAt, UniqueKeys;
    match v
    case Null => assert At(s, p + 0) == "null"[0];
    case Bool(b) => assert At(s, p + 0) == (if b then "true" else "false")[0];
    case _ =>
  }

  lemma SpelledScalarParses(s: string, p: nat, q: nat, v: Value, nesting: nat, limit: nat)
    requires SpelledAt(s, p, q, v) && !v.Arr? && !v.Obj? && nesting <= limit
    ensures ParseValue(s, p, nesting, limit) == Some(Parsed(v, q))
  {
    hide S.QuotedString, StringAt, NumberAt, N.ParseNumber, TokenAt, OccursAt, SkipSpaces, Stepped;
    SpelledStarts(s, p, q, v);
    match v
    case Null => TokenIff(s, p, q, "null");
    case Bool(b) =>
      TokenIff(s, p, q, "true");
      TokenIff(s, p, q, "false");
      if OccursAt(s, p, "true") {
        OccursChar(s, p, "true", 0);
      }
    case Num(x) => NumberIff(s, p, q, x);
    case Str(t) => StringIff(s, p, q, t);
  }

  lemma MarkSkipped(s: string, p: nat, q: nat, c: char)
    requires MarkAt(s, p, q, c) && !IsBlank(c)
    ensures SkipSpaces(s, p) == q - 1 && At(s, q - 1) == c
  {
    GapIsSkipped(s, p, q - 1);
  }

  lemma {:induction false} ValueParses(s: string, p: nat, q: nat, v: Value, nesting: nat, limit: nat)
    requires ValueAt(s, p, q, v) && nesting + Level(v) <= limit
    ensures ParseValue(s, p, nesting, limit) == Some(Parsed(v, q))
    ensures var a := SkipSpaces(s, p); At(s, a) != '\0' && At(s, a) != ']' && At(s, a) != '}'
    decreases v, 2
  {
    hide S.QuotedString, ParseObject, ParseArray, N.ParseNumber, SpelledAt, Stepped, OccursAt, Level, SkipSpaces;
    var a :| Gap(s, p, a) && SpelledAt(s, a, q, v);
    SpelledStarts(s, a, q, v);
    GapIsSkipped(s, p, a);
    match v
    case Arr(items) => ArrayParses(s, a, q, items, nesting, limit);
    case Obj(ms) => ObjectParses(s, a, q, ms, nesting, limit);
    case _ => SpelledScalarParses(s, a, q, v, nesting, limit);
    RoundTrip.ParseFromSpaces(s, p, a, nesting, limit);
  }

  lemma {:induction false} ArrayParses(s: string, p: nat, q: nat, items: seq<Value>, nesting: nat, limit: nat)
    requires SpelledAt(s, p, q, Arr(items)) && nesting + Level(Arr(items)) <= limit
    ensures ParseValue(s, p, nesting, limit) == Some(Parsed(Arr(items), q))
    decreases items, 1
  {
    hide ItemsAt, ParseItems, Stepped, SkipSpaces, MarkAt;
    SpelledStarts(s, p, q, Arr(items));
    if items == [] {
      NoItems(s, p + 1, q);
      MarkSkipped(s, p + 1, q, ']');
    } else {
      ItemsParse(s, p + 1, q, items, nesting + 1, limit, []);
      assert [] + items == items;
    }
  }

  lemma NoItems(s: string, p: nat, q: nat)
    requires ItemsAt(s, p, q, [])
    ensures MarkAt(s, p, q, ']')
  {
  }

  lemma AfterMark(s: string, p: nat, q: nat, closer: char)
    requires MarkAt(s, p, q, closer) && (closer == ']' || closer == '}')
    ensures AfterElement(s, p, closer) == Stop(q - 1) && SkipSpaces(s, q - 1) == q - 1
  {
    MarkSkipped(s, p, q, closer);
  }

  lemma AfterComma(s: string, p: nat, q: nat, closer: char)
    requires MarkAt(s, p, q, ',')
    ensures var next := SkipSpaces(s, q);
            && AfterElement(s, p, closer) == (if At(s, next) == closer then Stop(next) else More(next))
            && SkipSpaces(s, next) == next
  {
    MarkSkipped(s, p, q, ',');
  }

  lemma ParsesAlike(s: string, p: nat, nesting: nat, limit: nat)
    ensures ParseValue(s, SkipSpaces(s, p), nesting, limit) == ParseValue(s, p, nesting, limit)
  {
  }

  /** The loop reads on to the closing bracket. */
  lemma {:induction false} ItemsParse(s: string, p: nat, q: nat, items: seq<Value>, nesting: nat, limit: nat,
                                      acc: seq<Value>)
    requires ItemsAt(s, p, q, items) && items != [] && nesting + ItemsLevel(items) <= limit + 1
    ensures var start := SkipSpaces(s, p);
            var r := ParseItems(s, start, nesting, limit, acc);
            && At(s, start) != ']'
            && r.Some? && r.value.items == acc + items
            && At(s, SkipSpaces(s, r.value.next)) == ']' && SkipSpaces(s, r.value.next) + 1 == q
    decreases items, 0
  {
    hide ValueAt, MarkAt, ParseValue, Stepped, SkipSpaces, AfterElement, Level;
    var a :| ValueAt(s, p, a, items[0]) &&
      ((|items| == 1 && MarkAt(s, a, q, ']')) ||
       exists b :: MarkAt(s, a, b, ',') && ItemsAt(s, b, q, items[1..]));
    ValueParses(s, p, a, items[0], nesting, limit);
    ParsesAlike(s, p, nesting, limit);
    if |items| == 1 && MarkAt(s, a, q, ']') {
      MarkSkipped(s, a, q, ']');
      AfterMark(s, a, q, ']');
      assert acc + items == acc + [items[0]];
    } else {
      var b :| MarkAt(s, a, b, ',') && ItemsAt(s, b, q, items[1..]);
      AfterComma(s, a, b, ']');
      if |items| == 1 {
        MarkSkipped(s, b, q, ']');
        assert acc + items == acc + [items[0]];
      } else {
        ItemsParse(s, b, q, items[1..], nesting, limit, acc + [items[0]]);
        assert acc + items == acc + [items[0]] + items[1..];
      }
    }
  }

  lemma {:induction false} ObjectParses(s: string, p: nat, q: nat, ms: seq<Member>, nesting: nat, limit: nat)
    requires SpelledAt(s, p, q, Obj(ms)) && nesting + Level(Obj(ms)) <= limit
    ensures ParseValue(s, p, nesting, limit) == Some(Parsed(Obj(ms), q))
    decreases ms, 3
  {
    hide MembersAt, ParseMembers, Stepped, SkipSpaces, MarkAt, UniqueKeys;
    SpelledStarts(s, p, q, Obj(ms));
    if ms == [] {
      NoMembersLeft(s, p + 1, q);
      MarkSkipped(s, p + 1, q, '}');
    } else {
      assert [] + ms == ms;
      MembersParse(s, p + 1, q, ms, nesting + 1, limit, []);
    }
  }

  lemma NoMembersLeft(s: string, p: nat, q: nat)
    requires MembersAt(s, p, q, [])
    ensures MarkAt(s, p, q, '}')
  {
  }

  lemma {:induction false} MemberParses(s: string, p: nat, a: nat, q: nat, m: Member, nesting: nat, limit: nat)
    requires KeyAt(s, p, a, m.key) && ValueAt(s, a, q, m.val) && nesting + Level(m.val) <= limit
    ensures var start := SkipSpaces(s, p);
            At(s, start) == '\"' && ParseMember(s, start, nesting, limit) == Some(ParsedMember(m, q))
    decreases m.val, 3
  {
    hide CharsAt, S.QuotedString, ValueAt, ParseValue, Stepped, SkipSpaces, Level, MarkAt;
    var start, end :| Gap(s, p, start) && StringAt(s, start, end, m.key) && MarkAt(s, end, a, ':');
    GapIsSkipped(s, p, start);
    StringIff(s, start, end, m.key);
    MarkSkipped(s, end, a, ':');
    ValueParses(s, a, q, m.val, nesting, limit);
  }

  lemma {:induction false} MembersParse(s: string, p: nat, q: nat, ms: seq<Member>, nesting: nat, limit: nat,
                                        acc: seq<Member>)
    requires MembersAt(s, p, q, ms) && ms != [] && UniqueKeys(acc + ms) && nesting + MembersLevel(ms) <= limit + 1
    ensures var start := SkipSpaces(s, p);
            var r := ParseMembers(s, start, nesting, limit, acc);
            && At(s, start) != '}'
            && r.Some? && r.value.members == acc + ms
            && At(s, SkipSpaces(s, r.value.next)) == '}' && SkipSpaces(s, r.value.next) + 1 == q
    decreases ms, 2
  {
    hide KeyAt, ValueAt, MarkAt, ParseMember, Stepped, SkipSpaces, AfterElement, Level, UniqueKeys, Has;
    var a, b :| KeyAt(s, p, a, ms[0].key) && ValueAt(s, a, b, ms[0].val) &&
      ((|ms| == 1 && MarkAt(s, b, q, '}')) ||
       exists c :: MarkAt(s, b, c, ',') && MembersAt(s, c, q, ms[1..]));
    MemberParses(s, p, a, b, ms[0], nesting, limit);
    RoundTrip.KeyIsNew(acc, ms);
    if |ms| == 1 && MarkAt(s, b, q, '}') {
      AfterMark(s, b, q, '}');
      MarkSkipped(s, b, q, '}');
      assert acc + ms == acc + [ms[0]];
    } else {
      var c :| MarkAt(s, b, c, ',') && MembersAt(s, c, q, ms[1..]);
      AfterComma(s, b, c, '}');
      if |ms| == 1 {
        NoMembersLeft(s, c, q);
        MarkSkipped(s, c, q, '}');
        assert acc + ms == acc + [ms[0]];
      } else {
        assert acc + ms == acc + [ms[0]] + ms[1..];
        MembersParse(s, c, q, ms[1..], nesting, limit, acc + [ms[0]]);
      }
    }
  }

  // ---------------------------------------------------------------- the parser and the grammar

  /** The parser finds a value from `p` to `q` exactly when the grammar has it there and it is not nested too deep. */
  lemma ParsedIffValue(s: string, p: nat, q: nat, v: Value, nesting: nat, limit: nat)
    ensures ParseValue(s, p, nesting, limit) == Some(Parsed(v, q)) <==>
            ValueAt(s, p, q, v) && nesting + Level(v) <= limit
  {
    hide ParseValue, ValueAt, Level;
    if ParseValue(s, p, nesting, limit) == Some(Parsed(v, q)) {
      ParsedIsValue(s, p, nesting, limit);
      ParsedIsWellFormed(s, p, nesting, limit);
    }
    if ValueAt(s, p, q, v) && nesting + Level(v) <= limit {
      ValueParses(s, p, q, v, nesting, limit);
    }
  }

  /** json_parse_string finds exactly the value that a text is, if that is nested to 2048 levels at most. */
  lemma ParsedIffText(s: string, v: Value)
    ensures ParseString(s) == Some(v) <==> TextOf(s, v) && Level(v) <= 2048
  {
    hide ParseValue, ValueAt, Level;
    var start := TextStart(s);
    var r := ParseValue(s, start, 0, MAX_NESTING);
    assert ParseString(s) == if r.None? then None else Some(r.value.val);
    if r.Some? {
      ParsedIffValue(s, start, r.value.next, r.value.val, 0, MAX_NESTING);
    }
    forall q | ValueAt(s, start, q, v) && Level(v) <= 2048 ensures r == Some(Parsed(v, q)) {
      ParsedIffValue(s, start, q, v, 0, MAX_NESTING);
    }
  }
}
