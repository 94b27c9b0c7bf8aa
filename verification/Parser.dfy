/** The recursive-descent parser of parson.c. A cursor is a position in the text; the functions say what each
    routine makes of the text at a position, and the methods are its loops. */
module Parser {
  import opened Options
  import opened Json
  import opened CString
  import opened StringLiteral
  import opened Numeral

  const MAX_NESTING: nat := 2048

  datatype Parsed = Parsed(val: Value, next: nat)
  datatype ParsedItems = ParsedItems(items: seq<Value>, next: nat)
  datatype ParsedMembers = ParsedMembers(members: seq<Member>, next: nat)
  datatype ParsedMember = ParsedMember(member: Member, next: nat)

  /** What follows an element: the end of the list, or another element. */
  datatype Continuation = Stop(at: nat) | More(at: nat)

  function AfterElement(s: string, p: nat, closer: char): (c: Continuation)
    ensures Stepped(s, p, c.at)
    ensures c.More? ==> p < c.at
  {
    var comma := SkipSpaces(s, p);
    if At(s, comma) != ',' then Stop(comma)
    else
      var next := SkipSpaces(s, comma + 1);
      if At(s, next) == closer then Stop(next) else More(next)
  }

  /** The cursor went from `p` to `q` without passing a NUL. */
  predicate Stepped(s: string, p: nat, q: nat) {
    p <= q && (p <= |s| ==> q <= |s|) && forall k :: p <= k < q ==> At(s, k) != '\0'
  }

  function Literal(s: string, p: nat, token: string, val: Value): (r: Option<Parsed>)
    requires '\0' !in token
    ensures r.Some? ==> Stepped(s, p, r.value.next) && r.value.next == p + |token|
  {
    if OccursAt(s, p, token) then Some(Parsed(val, p + |token|)) else None
  }

  /** parse_value: the nesting limit is a parameter, `MAX_NESTING` in the library. */
  function ParseValue(s: string, p: nat, nesting: nat, limit: nat): (r: Option<Parsed>)
    ensures r.Some? ==> p <= r.value.next && Stepped(s, p, r.value.next)
    decreases |s| - SkipSpaces(s, p), 3
  {
    if nesting > limit then None
    else
      var q := SkipSpaces(s, p);
      var c := At(s, q);
      if c == '{' then ParseObject(s, q, nesting + 1, limit)
      else if c == '[' then ParseArray(s, q, nesting + 1, limit)
      else if c == '\"' then
        match QuotedString(s, q)
        case None => None
        case Some(piece) => Some(Parsed(Str(piece.out), piece.next))
      else if c == 't' || c == 'f' then
        if OccursAt(s, q, "true") then Literal(s, q, "true", Bool(true)) else Literal(s, q, "false", Bool(false))
      else if c == '-' || IsDigit(c) then
        match ParseNumber(s, q)
        case None => None
        case Some(number) => Some(Parsed(Num(number.value), number.next))
      else if c == 'n' then Literal(s, q, "null", Null)
      else None
  }

  /** parse_object_value at an opening brace. */
  function ParseObject(s: string, p: nat, nesting: nat, limit: nat): (r: Option<Parsed>)
    requires At(s, p) == '{'
    ensures r.Some? ==> p <= r.value.next && Stepped(s, p, r.value.next)
    decreases |s| - p, 2
  {
    var q := SkipSpaces(s, p + 1);
    if At(s, q) == '}' then Some(Parsed(Obj([]), q + 1))
    else match ParseMembers(s, q, nesting, limit, [])
      case None => None
      case Some(parsed) =>
        var end := SkipSpaces(s, parsed.next);
        if At(s, end) != '}' then None else Some(Parsed(Obj(parsed.members), end + 1))
  }

  /** A key, a colon and a value. Keys with NUL bytes are not supported. */
  function ParseMember(s: string, p: nat, nesting: nat, limit: nat): (r: Option<ParsedMember>)
    ensures r.Some? ==> Stepped(s, p, r.value.next) && p < r.value.next
    decreases |s| - p, 1
  {
    match QuotedString(s, p)
    case None => None
    case Some(key) =>
      var colon := SkipSpaces(s, key.next);
      if '\0' in key.out || At(s, colon) != ':' then None
      else match ParseValue(s, colon + 1, nesting, limit)
        case None => None
        case Some(parsed) => Some(ParsedMember(Member(key.out, parsed.val), parsed.next))
  }

  /** The member loop, with the members stored so far. */
  function ParseMembers(s: string, p: nat, nesting: nat, limit: nat, acc: seq<Member>): (r: Option<ParsedMembers>)
    ensures r.Some? ==> p <= r.value.next && Stepped(s, p, r.value.next)
    decreases |s| - p, 2
  {
    if At(s, p) == '\0' then Some(ParsedMembers(acc, p))
    else match ParseMember(s, p, nesting, limit)
      case None => None
      case Some(parsed) =>
        if Has(acc, parsed.member.key) then None
        else match AfterElement(s, parsed.next, '}')
          case Stop(at) => Some(ParsedMembers(acc + [parsed.member], at))
          case More(at) => ParseMembers(s, at, nesting, limit, acc + [parsed.member])
  }

  /** parse_array_value at an opening bracket. */
  function ParseArray(s: string, p: nat, nesting: nat, limit: nat): (r: Option<Parsed>)
    requires At(s, p) == '['
    ensures r.Some? ==> p <= r.value.next && Stepped(s, p, r.value.next)
    decreases |s| - p, 2
  {
    var q := SkipSpaces(s, p + 1);
    if At(s, q) == ']' then Some(Parsed(Arr([]), q + 1))
    else match ParseItems(s, q, nesting, limit, [])
      case None => None
      case Some(parsed) =>
        var end := SkipSpaces(s, parsed.next);
        if At(s, end) != ']' then None else Some(Parsed(Arr(parsed.items), end + 1))
  }

  /** The item loop, with the items stored so far. */
  function ParseItems(s: string, p: nat, nesting: nat, limit: nat, acc: seq<Value>): (r: Option<ParsedItems>)
    ensures r.Some? ==> p <= r.value.next && Stepped(s, p, r.value.next)
    decreases |s| - p, 4
  {
    if At(s, p) == '\0' then Some(ParsedItems(acc, p))
    else match ParseValue(s, p, nesting, limit)
      case None => None
      case Some(parsed) =>
        match AfterElement(s, parsed.next, ']')
        case Stop(at) => Some(ParsedItems(acc + [parsed.val], at))
        case More(at) => ParseItems(s, at, nesting, limit, acc + [parsed.val])
  }

  /** json_parse_string: a UTF-8 byte order mark is stepped over. */
  function ParseString(s: string): Option<Value> {
    var start := if At(s, 0) == 0xEF as char && At(s, 1) == 0xBB as char && At(s, 2) == 0xBF as char then 3 else 0;
    match ParseValue(s, start, 0, MAX_NESTING)
    case None => None
    case Some(parsed) => Some(parsed.val)
  }

  // ---------------------------------------------------------------- progress

  /** A minus sign that no digit follows, no dot and digit, and neither "inf" nor "nan". */
  predicate BareMinus(s: string, p: nat) {
    At(s, p) == '-' && !IsDigit(At(s, p + 1)) && !(At(s, p + 1) == '.' && IsDigit(At(s, p + 2)))
    && !IsNotFinite(s, p + 1)
  }

  /** Those are the minus signs of which strtod converts nothing. */
  lemma NothingConvertedIffBareMinus(s: string, p: nat)
    requires At(s, p) == '-'
    ensures Strtod(s, p).NoConversion? <==> BareMinus(s, p)
  {
    hide Mantissa, Exponent, Ten, IsNotFinite;
    var q := p + 1;
    assert DigitsEnd(s, q) == q <==> !IsDigit(At(s, q));
    assert DigitsEnd(s, q + 1) == q + 1 <==> !IsDigit(At(s, q + 1));
  }

  /** A successful parse moves the cursor past the first character of the value, except that a minus sign without a
      numeral is taken for 0 and left in place where strtod does not report it. */
  lemma ParseAdvancesUnlessBareMinus(s: string, p: nat, nesting: nat, limit: nat)
    requires ParseValue(s, p, nesting, limit).Some?
    ensures var q, next := SkipSpaces(s, p), ParseValue(s, p, nesting, limit).value.next;
            if BareMinus(s, q) then !STRTOD_SETS_EINVAL && next == q else next > q
  {
    hide Strtod;
    var q := SkipSpaces(s, p);
    if At(s, q) == '{' {
      ObjectAdvances(s, q, nesting + 1, limit);
    } else if At(s, q) == '[' {
      ArrayAdvances(s, q, nesting + 1, limit);
    } else if IsDigit(At(s, q)) {
      assert Strtod(s, q) != NoConversion by { DigitConverts(s, q); }
    } else if At(s, q) == '-' {
      NothingConvertedIffBareMinus(s, q);
    }
  }

  lemma DigitConverts(s: string, p: nat)
    requires IsDigit(At(s, p))
    ensures !Strtod(s, p).NoConversion?
  {
  }

  lemma ObjectAdvances(s: string, p: nat, nesting: nat, limit: nat)
    requires At(s, p) == '{' && ParseObject(s, p, nesting, limit).Some?
    ensures ParseObject(s, p, nesting, limit).value.next > p
  {
  }

  lemma ArrayAdvances(s: string, p: nat, nesting: nat, limit: nat)
    requires At(s, p) == '[' && ParseArray(s, p, nesting, limit).Some?
    ensures ParseArray(s, p, nesting, limit).value.next > p
  {
  }

  /** The text "-" is refused where strtod reports it, and otherwise parses as the number 0 with the whole text left
      over. */
  lemma BareMinusParses()
    ensures ParseValue("-", 0, 0, MAX_NESTING) == if STRTOD_SETS_EINVAL then None else Some(Parsed(Num(0.0), 0))
    ensures ParseString("-") == if STRTOD_SETS_EINVAL then None else Some(Num(0.0))
  {
  }

  ghost predicate Advances(s: string, p: nat, nesting: nat, limit: nat) {
    ParseValue(s, p, nesting, limit).Some? ==> ParseValue(s, p, nesting, limit).value.next > SkipSpaces(s, p)
  }

  /** Every successful parse of every text moves the cursor strictly forward exactly where strtod reports that it
      converted nothing. */
  lemma AllAdvanceIff()
    ensures (forall s, p, nesting, limit :: Advances(s, p, nesting, limit)) <==> STRTOD_SETS_EINVAL
  {
    hide ParseValue;
    BareMinusParses();
    assert SkipSpaces("-", 0) == 0;
    if STRTOD_SETS_EINVAL {
      forall s, p, nesting, limit ensures Advances(s, p, nesting, limit) {
        if ParseValue(s, p, nesting, limit).Some? {
          ParseAdvancesUnlessBareMinus(s, p, nesting, limit);
        }
      }
    } else {
      assert !Advances("-", 0, 0, MAX_NESTING);
    }
  }

  // ---------------------------------------------------------------- what comes out

  /** Every parsed value is one the tables can hold, and stays within the nesting limit. */
  lemma {:induction false} ParsedIsWellFormed(s: string, p: nat, nesting: nat, limit: nat)
    requires ParseValue(s, p, nesting, limit).Some?
    ensures var v := ParseValue(s, p, nesting, limit).value.val;
            WellFormed(v) && nesting + Level(v) <= limit
    decreases |s| - SkipSpaces(s, p), 3
  {
    hide Stepped, ParseMembers, ParseItems, ParseNumber, QuotedString;
    var q := SkipSpaces(s, p);
    if At(s, q) == '{' {
      var start := SkipSpaces(s, q + 1);
      if At(s, start) != '}' {
        ParsedMembersWellFormed(s, start, nesting + 1, limit, []);
      }
    } else if At(s, q) == '[' {
      var start := SkipSpaces(s, q + 1);
      if At(s, start) != ']' {
        ParsedItemsWellFormed(s, start, nesting + 1, limit, []);
      }
    }
  }

  /** All items are well formed and fit under `nesting` more levels. */
  ghost predicate FitItems(items: seq<Value>, nesting: nat, limit: nat) {
    && (forall i :: 0 <= i < |items| ==> WellFormed(items[i]))
    && (items == [] || nesting + ItemsLevel(items) <= limit + 1)
  }

  ghost predicate FitMembers(ms: seq<Member>, nesting: nat, limit: nat) {
    WellFormedMembers(ms) && (ms == [] || nesting + MembersLevel(ms) <= limit + 1)
  }

  lemma {:induction false} ItemsLevelAppend(items: seq<Value>, v: Value)
    ensures ItemsLevel(items + [v]) == Max(ItemsLevel(items), 1 + Level(v))
  {
    if items == [] {
      assert items + [v] == [v];
    } else {
      assert (items + [v])[1..] == items[1..] + [v];
      ItemsLevelAppend(items[1..], v);
    }
  }

  lemma {:induction false} MembersLevelAppend(ms: seq<Member>, m: Member)
    ensures MembersLevel(ms + [m]) == Max(MembersLevel(ms), 1 + Level(m.val))
  {
    if ms == [] {
      assert ms + [m] == [m];
    } else {
      assert (ms + [m])[1..] == ms[1..] + [m];
      MembersLevelAppend(ms[1..], m);
    }
  }

  lemma {:induction false} ParsedItemsWellFormed(s: string, p: nat, nesting: nat, limit: nat, acc: seq<Value>)
    requires nesting > 0 && ParseItems(s, p, nesting, limit, acc).Some? && FitItems(acc, nesting, limit)
    ensures FitItems(ParseItems(s, p, nesting, limit, acc).value.items, nesting, limit)
    decreases |s| - p, 4
  {
    hide Stepped, AfterElement;
    if At(s, p) != '\0' {
      ParsedIsWellFormed(s, p, nesting, limit);
      var parsed := ParseValue(s, p, nesting, limit).value;
      ItemsLevelAppend(acc, parsed.val);
      var after := AfterElement(s, parsed.next, ']');
      if after.More? {
        ParsedItemsWellFormed(s, after.at, nesting, limit, acc + [parsed.val]);
      }
    }
  }

  lemma {:induction false} ParsedMembersWellFormed(s: string, p: nat, nesting: nat, limit: nat, acc: seq<Member>)
    requires nesting > 0 && ParseMembers(s, p, nesting, limit, acc).Some? && FitMembers(acc, nesting, limit)
    ensures FitMembers(ParseMembers(s, p, nesting, limit, acc).value.members, nesting, limit)
    decreases |s| - p, 2
  {
    hide Stepped, AfterElement;
    if At(s, p) != '\0' {
      ParsedMemberWellFormed(s, p, nesting, limit);
      var parsed := ParseMember(s, p, nesting, limit).value;
      MembersLevelAppend(acc, parsed.member);
      var after := AfterElement(s, parsed.next, '}');
      if after.More? {
        ParsedMembersWellFormed(s, after.at, nesting, limit, acc + [parsed.member]);
      }
    }
  }

  lemma {:induction false} ParsedMemberWellFormed(s: string, p: nat, nesting: nat, limit: nat)
    requires ParseMember(s, p, nesting, limit).Some?
    ensures var m := ParseMember(s, p, nesting, limit).value.member;
            '\0' !in m.key && WellFormed(m.val) && nesting + Level(m.val) <= limit
    decreases |s| - p, 1
  {
    ParsedIsWellFormed(s, SkipSpaces(s, QuotedString(s, p).value.next) + 1, nesting, limit);
  }

  // ---------------------------------------------------------------- the nesting limit

  /** `strict` is `lax`, but for values that lie too deep. */
  ghost predicate CutAt(strict: Option<Parsed>, lax: Option<Parsed>, nesting: nat, limit: nat) {
    strict == if lax.Some? && nesting + Level(lax.value.val) <= limit then lax else None
  }

  lemma ParsedStringIsWellFormed(s: string)
    requires ParseString(s).Some?
    ensures WellFormed(ParseString(s).value) && Level(ParseString(s).value) <= MAX_NESTING
  {
    hide ParseValue;
    if ParseValue(s, 0, 0, MAX_NESTING).Some? {
      ParsedIsWellFormed(s, 0, 0, MAX_NESTING);
    }
    if ParseValue(s, 3, 0, MAX_NESTING).Some? {
      ParsedIsWellFormed(s, 3, 0, MAX_NESTING);
    }
  }

  /** Text that parses under some larger limit is rejected under `limit` exactly when its deepest value lies
      deeper than that; otherwise the result is the same. */
  lemma {:induction false} NestingLimitIsExact(s: string, p: nat, nesting: nat, limit: nat, larger: nat)
    requires limit <= larger
    ensures CutAt(ParseValue(s, p, nesting, limit), ParseValue(s, p, nesting, larger), nesting, limit)
    decreases |s| - SkipSpaces(s, p), 3
  {
    hide Stepped, ParseObject, ParseArray, ParseNumber, QuotedString;
    var q := SkipSpaces(s, p);
    if nesting <= limit {
      if At(s, q) == '{' {
        ObjectLimitIsExact(s, q, nesting, limit, larger);
      } else if At(s, q) == '[' {
        ArrayLimitIsExact(s, q, nesting, limit, larger);
      }
    }
  }

  lemma {:induction false} ObjectLimitIsExact(s: string, p: nat, nesting: nat, limit: nat, larger: nat)
    requires At(s, p) == '{' && nesting <= limit <= larger
    ensures CutAt(ParseObject(s, p, nesting + 1, limit), ParseObject(s, p, nesting + 1, larger), nesting, limit)
    decreases |s| - p, 2
  {
    hide Stepped, ParseMembers;
    var start := SkipSpaces(s, p + 1);
    if At(s, start) != '}' {
      MembersLimitIsExact(s, start, nesting + 1, limit, larger, []);
    }
  }

  lemma {:induction false} ArrayLimitIsExact(s: string, p: nat, nesting: nat, limit: nat, larger: nat)
    requires At(s, p) == '[' && nesting <= limit <= larger
    ensures CutAt(ParseArray(s, p, nesting + 1, limit), ParseArray(s, p, nesting + 1, larger), nesting, limit)
    decreases |s| - p, 2
  {
    hide Stepped, ParseItems;
    var start := SkipSpaces(s, p + 1);
    if At(s, start) != ']' {
      ItemsLimitIsExact(s, start, nesting + 1, limit, larger, []);
    }
  }

  ghost predicate ItemsCutAt(strict: Option<ParsedItems>, lax: Option<ParsedItems>, nesting: nat, limit: nat) {
    strict == if lax.Some? && nesting + ItemsLevel(lax.value.items) <= limit + 1 then lax else None
  }

  lemma {:induction false} ItemsLimitIsExact(s: string, p: nat, nesting: nat, limit: nat, larger: nat,
                                             acc: seq<Value>)
    requires 0 < nesting <= limit + 1 && limit <= larger && nesting + ItemsLevel(acc) <= limit + 1
    ensures ItemsCutAt(ParseItems(s, p, nesting, limit, acc), ParseItems(s, p, nesting, larger, acc), nesting, limit)
    decreases |s| - p, 4
  {
    hide Stepped, AfterElement, ParseValue;
    if At(s, p) != '\0' {
      NestingLimitIsExact(s, p, nesting, limit, larger);
      if ParseValue(s, p, nesting, larger).Some? {
        var parsed := ParseValue(s, p, nesting, larger).value;
        ItemsLevelAppend(acc, parsed.val);
        var after := AfterElement(s, parsed.next, ']');
        if after.More? {
          if nesting + Level(parsed.val) <= limit {
            ItemsLimitIsExact(s, after.at, nesting, limit, larger, acc + [parsed.val]);
          } else {
            ItemsLevelGrows(s, after.at, nesting, larger, acc + [parsed.val]);
          }
        }
      }
    }
  }

  lemma {:induction false} ItemsLevelGrows(s: string, p: nat, nesting: nat, limit: nat, acc: seq<Value>)
    ensures ParseItems(s, p, nesting, limit, acc).Some? ==>
              ItemsLevel(ParseItems(s, p, nesting, limit, acc).value.items) >= ItemsLevel(acc)
    decreases |s| - p
  {
    hide Stepped, AfterElement, ParseValue;
    if At(s, p) != '\0' && ParseValue(s, p, nesting, limit).Some? {
      var parsed := ParseValue(s, p, nesting, limit).value;
      ItemsLevelAppend(acc, parsed.val);
      var after := AfterElement(s, parsed.next, ']');
      if after.More? {
        ItemsLevelGrows(s, after.at, nesting, limit, acc + [parsed.val]);
      }
    }
  }

  ghost predicate MembersCutAt(strict: Option<ParsedMembers>, lax: Option<ParsedMembers>, nesting: nat, limit: nat) {
    strict == if lax.Some? && nesting + MembersLevel(lax.value.members) <= limit + 1 then lax else None
  }

  lemma {:induction false} MembersLimitIsExact(s: string, p: nat, nesting: nat, limit: nat, larger: nat,
                                               acc: seq<Member>)
    requires 0 < nesting <= limit + 1 && limit <= larger && nesting + MembersLevel(acc) <= limit + 1
    ensures MembersCutAt(ParseMembers(s, p, nesting, limit, acc), ParseMembers(s, p, nesting, larger, acc),
                         nesting, limit)
    decreases |s| - p, 2
  {
    hide Stepped, AfterElement, ParseMember;
    if At(s, p) != '\0' {
      MemberLimitIsExact(s, p, nesting, limit, larger);
      if ParseMember(s, p, nesting, larger).Some? {
        var parsed := ParseMember(s, p, nesting, larger).value;
        MembersLevelAppend(acc, parsed.member);
        var after := AfterElement(s, parsed.next, '}');
        if after.More? {
          if nesting + Level(parsed.member.val) <= limit {
            MembersLimitIsExact(s, after.at, nesting, limit, larger, acc + [parsed.member]);
          } else {
            MembersLevelGrows(s, after.at, nesting, larger, acc + [parsed.member]);
          }
        }
      }
    }
  }

  lemma {:induction false} MemberLimitIsExact(s: string, p: nat, nesting: nat, limit: nat, larger: nat)
    requires limit <= larger
    ensures var strict, lax := ParseMember(s, p, nesting, limit), ParseMember(s, p, nesting, larger);
            strict == if lax.Some? && nesting + Level(lax.value.member.val) <= limit then lax else None
    decreases |s| - p, 1
  {
    hide Stepped, ParseValue;
    if QuotedString(s, p).Some? {
      NestingLimitIsExact(s, SkipSpaces(s, QuotedString(s, p).value.next) + 1, nesting, limit, larger);
    }
  }

  lemma {:induction false} MembersLevelGrows(s: string, p: nat, nesting: nat, limit: nat, acc: seq<Member>)
    ensures ParseMembers(s, p, nesting, limit, acc).Some? ==>
              MembersLevel(ParseMembers(s, p, nesting, limit, acc).value.members) >= MembersLevel(acc)
    decreases |s| - p
  {
    hide Stepped, AfterElement, ParseMember;
    if At(s, p) != '\0' && ParseMember(s, p, nesting, limit).Some? {
      var parsed := ParseMember(s, p, nesting, limit).value;
      MembersLevelAppend(acc, parsed.member);
      var after := AfterElement(s, parsed.next, '}');
      if after.More? {
        MembersLevelGrows(s, after.at, nesting, limit, acc + [parsed.member]);
      }
    }
  }
}
