/** A complete value is parsed the same whatever text is put behind it, so no proper prefix of a serialized
    object, array or string is read as a value. */
module Locality {
  import opened Options
  import opened Json
  import opened CString
  import opened StringLiteral
  import opened Numeral
  import opened Serializer
  import opened Parser
  import Doubles
  import RoundTrip

  lemma AtInPrefix(s: string, t: string, p: nat)
    requires s <= t && p < |s|
    ensures At(t, p) == At(s, p) == s[p]
  {
  }

  lemma {:induction false} SkipIsLocal(s: string, t: string, p: nat)
    requires s <= t && SkipSpaces(s, p) < |s|
    ensures SkipSpaces(t, p) == SkipSpaces(s, p)
    decreases |s| - p
  {
    AtInPrefix(s, t, p);
    if IsSpace(s[p]) {
      SkipIsLocal(s, t, p + 1);
    }
  }

  // ---------------------------------------------------------------- strings and literals

  lemma {:induction false} ClosingQuoteIsLocal(s: string, t: string, p: nat)
    requires s <= t && ClosingQuote(s, p).Some?
    ensures ClosingQuote(t, p) == ClosingQuote(s, p)
    decreases |s| - p
  {
    AtInPrefix(s, t, p);
    if At(s, p) == '\\' {
      AtInPrefix(s, t, p + 1);
      ClosingQuoteIsLocal(s, t, p + 2);
    } else if At(s, p) != '\"' {
      ClosingQuoteIsLocal(s, t, p + 1);
    }
  }

  lemma QuotedIsLocal(s: string, t: string, p: nat)
    requires s <= t && QuotedString(s, p).Some?
    ensures QuotedString(t, p) == QuotedString(s, p)
  {
    hide ClosingQuote, Unescaped;
    var q := ClosingQuote(s, p + 1).value;
    ClosingQuoteIsLocal(s, t, p + 1);
    assert SameSpan(s, t, p + 1, q - 1);
    DecodingDependsOnSpan(s, t, p + 1, q - 1);
  }

  lemma OccursIsLocal(s: string, t: string, p: nat, token: string)
    requires s <= t && p + |token| <= |s|
    ensures OccursAt(t, p, token) == OccursAt(s, p, token)
  {
    assert s[p..p + |token|] == t[p..p + |token|];
  }

  // ---------------------------------------------------------------- numbers

  /** What can stand behind a number in a list. */
  predicate EndsNumber(c: char) {
    IsSpace(c) || c == ',' || c == ']' || c == '}'
  }

  lemma {:induction false} DigitsEndIsLocal(s: string, t: string, p: nat)
    requires s <= t && DigitsEnd(s, p) < |s|
    ensures DigitsEnd(t, p) == DigitsEnd(s, p)
    decreases |s| - p
  {
    AtInPrefix(s, t, p);
    if IsDigit(At(s, p)) {
      DigitsEndIsLocal(s, t, p + 1);
    }
  }

  lemma {:induction false} DigitsValueIsLocal(s: string, t: string, p: nat, q: nat)
    requires s <= t && q <= |s|
    ensures DigitsValue(t, p, q) == DigitsValue(s, p, q)
    decreases q - p
  {
    if p < q {
      AtInPrefix(s, t, q - 1);
      DigitsValueIsLocal(s, t, p, q - 1);
    }
  }

  /** A numeral that ends inside the text. */
  ghost predicate EndsInside(s: string, p: nat) {
    && !IsHexNumeral(s, WholeStart(s, p)) && AnyDigits(s, p)
    && NumeralEnd(s, p) < |s| && EndsNumber(At(s, NumeralEnd(s, p)))
  }

  lemma WholeIsLocal(s: string, t: string, p: nat)
    requires s <= t && EndsInside(s, p)
    ensures WholeStart(t, p) == WholeStart(s, p) && WholeEnd(t, p) == WholeEnd(s, p) < |s|
    ensures At(t, p) == At(s, p) && At(t, WholeEnd(s, p)) == At(s, WholeEnd(s, p))
  {
    hide DigitsEnd, IsHexNumeral;
    assert WholeEnd(s, p) <= FractionEnd(s, p) <= NumeralEnd(s, p);
    AtInPrefix(s, t, p);
    DigitsEndIsLocal(s, t, WholeStart(s, p));
    AtInPrefix(s, t, WholeEnd(s, p));
  }

  lemma FractionIsLocal(s: string, t: string, p: nat)
    requires s <= t && EndsInside(s, p)
    ensures FractionEnd(t, p) == FractionEnd(s, p) < |s|
    ensures At(t, FractionEnd(s, p)) == At(s, FractionEnd(s, p))
  {
    hide DigitsEnd, IsHexNumeral, WholeEnd, WholeStart, AnyDigits;
    WholeIsLocal(s, t, p);
    if At(s, WholeEnd(s, p)) == '.' {
      DigitsEndIsLocal(s, t, WholeEnd(s, p) + 1);
    }
    AtInPrefix(s, t, FractionEnd(s, p));
  }

  /** The exponent, or that there is none: what ends the number is no "e". */
  lemma ExponentIsLocal(s: string, t: string, p: nat)
    requires s <= t && EndsInside(s, p)
    ensures HasExponent(t, p) == HasExponent(s, p) && NumeralEnd(t, p) == NumeralEnd(s, p)
    ensures Exponent(t, p) == Exponent(s, p)
  {
    hide DigitsEnd, IsHexNumeral, WholeEnd, FractionEnd, WholeStart, AnyDigits, DigitsValue;
    WholeIsLocal(s, t, p);
    FractionIsLocal(s, t, p);
    if HasExponent(s, p) {
      AtInPrefix(s, t, FractionEnd(s, p) + 1);
      AtInPrefix(s, t, ExponentStart(s, p));
      DigitsEndIsLocal(s, t, ExponentStart(s, p));
      DigitsValueIsLocal(s, t, ExponentStart(s, p), NumeralEnd(s, p));
    }
  }

  lemma MantissaIsLocal(s: string, t: string, p: nat)
    requires s <= t && EndsInside(s, p)
    ensures Mantissa(t, p) == Mantissa(s, p)
  {
    hide DigitsEnd, IsHexNumeral, WholeEnd, FractionEnd, WholeStart, AnyDigits, DigitsValue, Tens;
    WholeIsLocal(s, t, p);
    FractionIsLocal(s, t, p);
    DigitsValueIsLocal(s, t, WholeStart(s, p), WholeEnd(s, p));
    DigitsValueIsLocal(s, t, WholeEnd(s, p) + 1, FractionEnd(s, p));
  }

  /** What the numeral starts with does not turn hexadecimal, infinite or NaN by what is put behind it. */
  lemma StartIsLocal(s: string, t: string, p: nat)
    requires s <= t && EndsInside(s, p)
    ensures !IsHexNumeral(t, WholeStart(s, p)) && !IsNotFinite(t, WholeStart(s, p))
    ensures AnyDigits(t, p)
  {
    hide ExponentStart;
    var q := WholeStart(s, p);
    WholeIsLocal(s, t, p);
    FractionIsLocal(s, t, p);
    AtInPrefix(s, t, q);
    if At(s, q) == '0' {
      AtInPrefix(s, t, q + 1);
    }
  }

  lemma StrtodIsLocal(s: string, t: string, p: nat)
    requires s <= t && Strtod(s, p).Decimal? && Strtod(s, p).next < |s| && EndsNumber(At(s, Strtod(s, p).next))
    ensures Strtod(t, p) == Strtod(s, p)
  {
    hide Mantissa, Exponent, Ten, NumeralEnd, IsHexNumeral, IsNotFinite, EndsNumber, AnyDigits;
    WholeIsLocal(s, t, p);
    StartIsLocal(s, t, p);
    ExponentIsLocal(s, t, p);
    MantissaIsLocal(s, t, p);
  }

  lemma NumberIsLocal(s: string, t: string, p: nat)
    requires s <= t && At(s, p) != '\0' && ParseNumber(s, p).Some?
    requires var next := ParseNumber(s, p).value.next; next < |s| && EndsNumber(At(s, next))
    requires At(s, p) == '-' || IsDigit(At(s, p))
    ensures ParseNumber(t, p) == ParseNumber(s, p)
  {
    hide Strtod, Doubles.OverflowLimit, Doubles.Round, IsDecimal;
    StrtodIsLocal(s, t, p);
    DecimalIsLocal(s, t, p, Strtod(s, p).next);
  }

  lemma DecimalIsLocal(s: string, t: string, p: nat, q: nat)
    requires s <= t && p <= q < |s|
    ensures IsDecimal(t, p, q) == IsDecimal(s, p, q)
  {
  }

  // ---------------------------------------------------------------- lists

  /** What stands behind an element of a list that is closed. */
  lemma AfterIsLocal(s: string, t: string, p: nat, closer: char)
    requires s <= t && (closer == ']' || closer == '}')
    requires var after := AfterElement(s, p, closer);
             if after.Stop? then At(s, after.at) == closer else At(s, after.at) != '\0'
    ensures AfterElement(t, p, closer) == AfterElement(s, p, closer)
    ensures p < |s| && EndsNumber(At(s, p))
  {
    var comma := SkipSpaces(s, p);
    SkipIsLocal(s, t, p);
    AtInPrefix(s, t, comma);
    assert IsSpace(At(s, p)) || comma == p;
    if At(s, comma) == ',' {
      SkipIsLocal(s, t, comma + 1);
      AtInPrefix(s, t, SkipSpaces(s, comma + 1));
    }
  }

  lemma AfterEndsAtNoSpace(s: string, p: nat, closer: char)
    ensures SkipSpaces(s, AfterElement(s, p, closer).at) == AfterElement(s, p, closer).at
  {
  }

  /** A value that is parsed from `s` is parsed the same from every text that starts with `s`. A number has to
      be followed by a character that ends it. */
  lemma {:induction false} ValueIsLocal(s: string, t: string, p: nat, nesting: nat, limit: nat)
    requires s <= t && ParseValue(s, p, nesting, limit).Some?
    requires var r := ParseValue(s, p, nesting, limit).value;
             r.val.Num? ==> r.next < |s| && EndsNumber(At(s, r.next))
    ensures ParseValue(t, p, nesting, limit) == ParseValue(s, p, nesting, limit)
    decreases |s| - SkipSpaces(s, p), 3
  {
    hide ParseObject, ParseArray, QuotedString, ParseNumber, Stepped;
    var q := SkipSpaces(s, p);
    SkipIsLocal(s, t, p);
    AtInPrefix(s, t, q);
    var c := At(s, q);
    if c == '{' {
      ObjectIsLocal(s, t, q, nesting + 1, limit);
    } else if c == '[' {
      ArrayIsLocal(s, t, q, nesting + 1, limit);
    } else if c == '\"' {
      QuotedIsLocal(s, t, q);
    } else if c == 't' || c == 'f' {
      BoolIsLocal(s, t, q);
    } else if c == 'n' {
      OccursIsLocal(s, t, q, "null");
    } else {
      NumberIsLocal(s, t, q);
    }
  }

  /** Which of the two words stands at `p`, if one does. */
  lemma BoolIsLocal(s: string, t: string, p: nat)
    requires s <= t && (OccursAt(s, p, "true") || OccursAt(s, p, "false"))
    ensures OccursAt(t, p, "true") == OccursAt(s, p, "true")
    ensures OccursAt(t, p, "false") == OccursAt(s, p, "false")
  {
    forall x | x == s || x == t ensures !(OccursAt(x, p, "true") && OccursAt(x, p, "false")) {
      if OccursAt(x, p, "true") && OccursAt(x, p, "false") {
        OccursChar(x, p, "true", 0);
        OccursChar(x, p, "false", 0);
      }
    }
    if OccursAt(s, p, "true") {
      OccursIsLocal(s, t, p, "true");
    } else {
      OccursIsLocal(s, t, p, "false");
    }
  }

  lemma {:induction false} ObjectIsLocal(s: string, t: string, p: nat, nesting: nat, limit: nat)
    requires s <= t && At(s, p) == At(t, p) == '{' && ParseObject(s, p, nesting, limit).Some?
    ensures ParseObject(t, p, nesting, limit) == ParseObject(s, p, nesting, limit)
    decreases |s| - p, 2
  {
    hide ParseMembers, Stepped;
    var q := SkipSpaces(s, p + 1);
    SkipIsLocal(s, t, p + 1);
    AtInPrefix(s, t, q);
    if At(s, q) != '}' {
      var next := ParseMembers(s, q, nesting, limit, []).value.next;
      MembersAreLocal(s, t, q, nesting, limit, []);
      SkipIsLocal(s, t, next);
      AtInPrefix(s, t, SkipSpaces(s, next));
    }
  }

  lemma {:induction false} MemberIsLocal(s: string, t: string, p: nat, nesting: nat, limit: nat)
    requires s <= t && ParseMember(s, p, nesting, limit).Some?
    requires var r := ParseMember(s, p, nesting, limit).value; r.next < |s| && EndsNumber(At(s, r.next))
    ensures ParseMember(t, p, nesting, limit) == ParseMember(s, p, nesting, limit)
    decreases |s| - p, 1
  {
    hide ParseValue, Stepped, QuotedString, EndsNumber;
    var key := QuotedString(s, p).value;
    var colon := SkipSpaces(s, key.next);
    QuotedIsLocal(s, t, p);
    SkipIsLocal(s, t, key.next);
    AtInPrefix(s, t, colon);
    ValueIsLocal(s, t, colon + 1, nesting, limit);
  }

  lemma {:induction false} MembersAreLocal(s: string, t: string, p: nat, nesting: nat, limit: nat, acc: seq<Member>)
    requires s <= t && ParseMembers(s, p, nesting, limit, acc).Some?
    requires At(s, SkipSpaces(s, ParseMembers(s, p, nesting, limit, acc).value.next)) == '}'
    ensures ParseMembers(t, p, nesting, limit, acc) == ParseMembers(s, p, nesting, limit, acc)
    decreases |s| - p, 2
  {
    hide ParseMember, Stepped, AfterElement, EndsNumber;
    assert At(s, p) != '\0';
    AtInPrefix(s, t, p);
    var parsed := ParseMember(s, p, nesting, limit).value;
    var after := AfterElement(s, parsed.next, '}');
    AfterEndsAtNoSpace(s, parsed.next, '}');
    AfterIsLocal(s, t, parsed.next, '}');
    MemberIsLocal(s, t, p, nesting, limit);
    if after.More? {
      MembersAreLocal(s, t, after.at, nesting, limit, acc + [parsed.member]);
    }
  }

  lemma {:induction false} ArrayIsLocal(s: string, t: string, p: nat, nesting: nat, limit: nat)
    requires s <= t && At(s, p) == At(t, p) == '[' && ParseArray(s, p, nesting, limit).Some?
    ensures ParseArray(t, p, nesting, limit) == ParseArray(s, p, nesting, limit)
    decreases |s| - p, 2
  {
    hide ParseItems, Stepped;
    var q := SkipSpaces(s, p + 1);
    SkipIsLocal(s, t, p + 1);
    AtInPrefix(s, t, q);
    if At(s, q) != ']' {
      var next := ParseItems(s, q, nesting, limit, []).value.next;
      ItemsAreLocal(s, t, q, nesting, limit, []);
      SkipIsLocal(s, t, next);
      AtInPrefix(s, t, SkipSpaces(s, next));
    }
  }

  lemma {:induction false} ItemsAreLocal(s: string, t: string, p: nat, nesting: nat, limit: nat, acc: seq<Value>)
    requires s <= t && ParseItems(s, p, nesting, limit, acc).Some?
    requires At(s, SkipSpaces(s, ParseItems(s, p, nesting, limit, acc).value.next)) == ']'
    ensures ParseItems(t, p, nesting, limit, acc) == ParseItems(s, p, nesting, limit, acc)
    decreases |s| - p, 4
  {
    hide ParseValue, Stepped, AfterElement, EndsNumber;
    assert At(s, p) != '\0';
    AtInPrefix(s, t, p);
    var parsed := ParseValue(s, p, nesting, limit).value;
    var after := AfterElement(s, parsed.next, ']');
    AfterEndsAtNoSpace(s, parsed.next, ']');
    AfterIsLocal(s, t, parsed.next, ']');
    ValueIsLocal(s, t, p, nesting, limit);
    if after.More? {
      ItemsAreLocal(s, t, after.at, nesting, limit, acc + [parsed.val]);
    }
  }

  // ---------------------------------------------------------------- prefixes

  /** No proper prefix of the text of an object, an array or a string is read as a value. */
  lemma ProperPrefixNeverParses(v: Value, style: Style, s: string)
    requires Printable(v) && WellFormed(v) && (v.Obj? || v.Arr? || v.Str?) && s < Text(v, 0, style)
    ensures ParseString(s) == None
  {
    hide Text, ParseValue, Printable, WellFormed;
    var t, larger := Text(v, 0, style), Max(MAX_NESTING, Level(v));
    RoundTrip.FirstCharIsAscii(v, 0, style);
    RoundTrip.WholeOccurs(t);
    RoundTrip.ValueRoundTrip(v, t, 0, 0, style, 0, larger);
    NestingLimitIsExact(t, 0, 0, MAX_NESTING, larger);
    if ParseValue(s, 0, 0, MAX_NESTING).Some? {
      assert !ParseValue(s, 0, 0, MAX_NESTING).value.val.Num? by { StartsNoNumber(v, style, s); }
      ValueIsLocal(s, t, 0, 0, MAX_NESTING);
      assert false;
    }
  }

  lemma StartsNoNumber(v: Value, style: Style, s: string)
    requires Printable(v) && (v.Obj? || v.Arr? || v.Str?) && s < Text(v, 0, style)
    ensures var r := ParseValue(s, 0, 0, MAX_NESTING); r.Some? ==> !r.value.val.Num?
  {
    hide ParseMembers, ParseItems, ParseNumber, QuotedString, ItemsText, MembersText, EscapeAll;
    assert s != "" ==> At(s, 0) == Text(v, 0, style)[0] && SkipSpaces(s, 0) == 0;
  }
}
