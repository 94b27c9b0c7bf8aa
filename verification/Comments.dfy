/** remove_comments: blanking comments in place, and json_parse_string_with_comments. */
module Comments {
  import opened Options
  import opened Json
  import opened CString
  import opened StringLiteral
  import opened Decimals
  import opened Doubles
  import opened Serializer
  import Grammar
  import P = Parser
  import ParserLoops
  import Recognition
  import RoundTrip

  function Blanks(n: nat): (t: string)
    ensures |t| == n && forall k :: 0 <= k < n ==> t[k] == ' '
  {
    seq(n, _ => ' ')
  }

  /** strstr: the first place where `token` occurs before the terminating NUL. */
  function Find(s: string, p: nat, token: string): (r: Option<nat>)
    ensures r.Some? ==> p <= r.value && r.value + |token| <= |s|
    decreases |s| - p
  {
    if OccursAt(s, p, token) then Some(p)
    else if At(s, p) == '\0' then None
    else Find(s, p + 1, token)
  }

  /** What the scan of remove_comments leaves of the text from `p` on. */
  function Strip(s: string, p: nat, inString: bool, escaped: bool, open: string, close: string): (t: string)
    requires p <= |s| && open != "" && close != ""
    ensures |t| == |s| - p
    decreases |s| - p
  {
    if At(s, p) == '\0' then s[p..]
    else if s[p] == '\\' && !escaped then [s[p]] + Strip(s, p + 1, inString, true, open, close)
    else if s[p] == '\"' && !escaped then [s[p]] + Strip(s, p + 1, !inString, false, open, close)
    else if !inString && OccursAt(s, p, open) then
      match Find(s, p + |open|, close)
      case None => Blanks(|open|) + s[p + |open|..]
      case Some(q) => Blanks(q + |close| - p) + Strip(s, q + |close|, false, false, open, close)
    else [s[p]] + Strip(s, p + 1, inString, false, open, close)
  }

  // ---------------------------------------------------------------- in place

  ghost predicate SameFrom(s: string, t: string, p: nat) {
    |s| == |t| && forall k :: p <= k < |s| ==> s[k] == t[k]
  }

  /** The scan has turned `s` into `now` up to `p`. */
  ghost predicate Done(s: string, now: string, p: nat, inString: bool, escaped: bool, open: string, close: string)
    requires open != "" && close != ""
  {
    && p <= |s| && SameFrom(s, now, p)
    && var out := Strip(s, 0, false, false, open, close);
       Strip(s, p, inString, escaped, open, close) == out[p..] && forall k :: 0 <= k < p ==> now[k] == out[k]
  }

  method Blank(text: array<char>, from: nat, to: nat)
    requires from <= to <= text.Length
    modifies text
    ensures forall k :: 0 <= k < text.Length ==> text[k] == if from <= k < to then ' ' else old(text[k])
  {
    for i := from to to
      invariant forall k :: 0 <= k < text.Length ==> text[k] == if from <= k < i then ' ' else old(text[k])
    {
      text[i] := ' ';
    }
  }

  /** Overwrites the comment that starts at `p` with spaces; `end` is the position after it. */
  method BlankComment(text: array<char>, p: nat, open: string, close: string, ghost s: string, ghost escaped: bool)
    returns (closed: bool, end: nat)
    requires open != "" && close != "" && Done(s, text[..], p, false, escaped, open, close)
    requires p < |s| && s[p] != '\0' && (escaped || (s[p] != '\\' && s[p] != '\"')) && OccursAt(s, p, open)
    modifies text
    ensures if closed then p < end && Done(s, text[..], end, false, false, open, close)
            else text[..] == Strip(s, 0, false, false, open, close)
  {
    hide Strip, OccursAt;
    StepSame(s, text[..], p, open, close);
    var found := Find(text[..], p + |open|, close);
    ghost var now := text[..];
    if found.None? {
      Blank(text, p, p + |open|);
      StepOpenComment(s, now, p, escaped, open, close, text[..]);
      return false, p;
    }
    closed, end := true, found.value + |close|;
    StripComment(s, p, escaped, open, close);
    Blank(text, p, end);
    StepComment(s, now, p, escaped, open, close, end, text[..]);
  }

  /** Overwrites the comments of a text with spaces. */
  method RemoveComments(text: array<char>, open: string, close: string)
    requires '\0' !in open && '\0' !in close
    modifies text
    ensures text[..] == if open == "" || close == "" then old(text[..])
                        else Strip(old(text[..]), 0, false, false, open, close)
  {
    hide Strip, Find, OccursAt, Done, Blanks, SameFrom;
    if |open| == 0 || |close| == 0 { return; }
    ghost var s := text[..];
    NothingDone(s, open, close);
    var p: nat, inString, escaped := 0, false, false;
    while p < text.Length && text[p] != '\0'
      invariant Done(s, text[..], p, inString, escaped, open, close)
      decreases text.Length - p
    {
      var current := text[p];
      DoneSame(s, text[..], p, inString, escaped, open, close);
      StepSame(s, text[..], p, open, close);
      if current == '\\' && !escaped {
        StepCopy(s, text[..], p, inString, escaped, open, close, inString, true);
        escaped := true;
        p := p + 1;
        continue;
      } else if current == '\"' && !escaped {
        StepCopy(s, text[..], p, inString, escaped, open, close, !inString, false);
        inString := !inString;
      } else if !inString && OccursAt(text[..], p, open) {
        var closed, end := BlankComment(text, p, open, close, s, escaped);
        if !closed { return; }
        p := end - 1;
      } else {
        StepCopy(s, text[..], p, inString, escaped, open, close, inString, false);
      }
      escaped := false;
      p := p + 1;
    }
    DoneSame(s, text[..], p, inString, escaped, open, close);
    StepStop(s, text[..], p, inString, escaped, open, close);
  }

  /** What the scan reads at `p` has not been changed yet. */
  lemma NothingDone(s: string, open: string, close: string)
    requires open != "" && close != ""
    ensures Done(s, s, 0, false, false, open, close)
  {
  }

  lemma DoneSame(s: string, now: string, p: nat, inString: bool, escaped: bool, open: string, close: string)
    requires open != "" && close != "" && Done(s, now, p, inString, escaped, open, close)
    ensures p <= |s| && SameFrom(s, now, p)
  {
  }

  lemma StepSame(s: string, now: string, p: nat, open: string, close: string)
    requires SameFrom(s, now, p) && p < |s|
    ensures now[p] == s[p] && OccursAt(s, p, open) == OccursAt(now, p, open)
    ensures OccursAt(s, p, open) ==> p + |open| <= |s| && Find(s, p + |open|, close) == Find(now, p + |open|, close)
  {
    SameOccurs(s, now, p, open);
    if OccursAt(s, p, open) {
      SameFind(s, now, p + |open|, close);
    }
  }

  /** A byte of code or of a string is kept. */
  lemma StepCopy(s: string, now: string, p: nat, inString: bool, escaped: bool, open: string, close: string,
                 inString': bool, escaped': bool)
    requires open != "" && close != "" && Done(s, now, p, inString, escaped, open, close)
    requires p < |s| && s[p] != '\0'
    requires if s[p] == '\\' && !escaped then inString' == inString && escaped'
             else if s[p] == '\"' && !escaped then inString' == !inString && !escaped'
             else (inString || !OccursAt(s, p, open)) && inString' == inString && !escaped'
    ensures Done(s, now, p + 1, inString', escaped', open, close)
  {
    SplitOff(Strip(s, 0, false, false, open, close), p, [s[p]], Strip(s, p + 1, inString', escaped', open, close));
  }

  lemma StripComment(s: string, p: nat, escaped: bool, open: string, close: string)
    requires open != "" && close != ""
    requires p < |s| && s[p] != '\0' && (escaped || (s[p] != '\\' && s[p] != '\"')) && OccursAt(s, p, open)
    requires Find(s, p + |open|, close).Some?
    ensures var end := Find(s, p + |open|, close).value + |close|;
            Strip(s, p, false, escaped, open, close) == Blanks(end - p) + Strip(s, end, false, false, open, close)
  {
  }

  /** A comment becomes spaces. */
  lemma StepComment(s: string, now: string, p: nat, escaped: bool, open: string, close: string, end: nat,
                    now': string)
    requires open != "" && close != "" && Done(s, now, p, false, escaped, open, close)
    requires p <= end <= |s|
    requires Strip(s, p, false, escaped, open, close) == Blanks(end - p) + Strip(s, end, false, false, open, close)
    requires |now'| == |now|
    requires forall k :: 0 <= k < |now| ==> now'[k] == if p <= k < end then ' ' else now[k]
    ensures Done(s, now', end, false, false, open, close)
  {
    hide Strip;
    var out := Strip(s, 0, false, false, open, close);
    SplitOff(out, p, Blanks(end - p), Strip(s, end, false, false, open, close));
    forall k | p <= k < end ensures out[k] == ' ' {
      assert out[p + (k - p)] == ' ';
    }
  }

  lemma SplitOff(out: string, p: nat, first: string, rest: string)
    requires p <= |out| && out[p..] == first + rest
    ensures out[p + |first|..] == rest && forall k :: 0 <= k < |first| ==> out[p + k] == first[k]
  {
    forall k | 0 <= k < |first| ensures out[p + k] == first[k] {
      assert out[p..][k] == first[k];
    }
    assert out[p..][|first|..] == rest;
  }

  /** A comment that is not closed loses its opening token only. */
  lemma StepOpenComment(s: string, now: string, p: nat, escaped: bool, open: string, close: string, now': string)
    requires open != "" && close != "" && Done(s, now, p, false, escaped, open, close)
    requires p < |s| && s[p] != '\0' && (escaped || (s[p] != '\\' && s[p] != '\"')) && OccursAt(s, p, open)
    requires Find(s, p + |open|, close).None? && |now'| == |now|
    requires forall k :: 0 <= k < |now| ==> now'[k] == if p <= k < p + |open| then ' ' else now[k]
    ensures Strip(s, 0, false, false, open, close) == now'
  {
    var out := Strip(s, 0, false, false, open, close);
    SplitOff(out, p, Blanks(|open|), s[p + |open|..]);
    hide Strip, OccursAt, Find;
    forall k | 0 <= k < |s| ensures out[k] == now'[k] {
      if k >= p + |open| {
        assert out[k] == out[p + |open|..][k - p - |open|];
      } else if k >= p {
        assert out[p + (k - p)] == ' ';
      }
    }
  }

  lemma StepStop(s: string, now: string, p: nat, inString: bool, escaped: bool, open: string, close: string)
    requires open != "" && close != "" && Done(s, now, p, inString, escaped, open, close)
    requires p == |s| || now[p] == '\0'
    ensures now == Strip(s, 0, false, false, open, close)
  {
    var out := Strip(s, 0, false, false, open, close);
    forall k | p <= k < |s| ensures out[k] == now[k] {
      assert out[k] == out[p..][k - p];
    }
  }

  lemma SameOccurs(s: string, t: string, p: nat, token: string)
    requires SameFrom(s, t, p)
    ensures OccursAt(s, p, token) == OccursAt(t, p, token)
  {
    if p + |token| <= |s| {
      assert s[p..p + |token|] == t[p..p + |token|];
    }
  }

  lemma {:induction false} SameFind(s: string, t: string, p: nat, token: string)
    requires SameFrom(s, t, p)
    ensures Find(s, p, token) == Find(t, p, token)
    decreases |s| - p
  {
    SameOccurs(s, t, p, token);
    if p < |s| {
      SameFind(s, t, p + 1, token);
    }
  }

  // ---------------------------------------------------------------- the lexer it stands for

  /** The pieces of a text: code, the escapes that hide a quote or backslash outside strings, string literals,
      comments, a comment without an end, and what is left after the last of them. */
  datatype Token =
    | Code(c: char)
    | Escape(c: char)
    | Literal(text: string)
    | Comment(text: string)
    | OpenComment(token: string, rest: string)
    | Rest(text: string)

  datatype Lexed = Last(token: Token) | First(token: Token, next: nat)

  /** The token at `p`. */
  function Lex(s: string, p: nat, open: string, close: string): (r: Lexed)
    requires p <= |s| && open != "" && close != ""
    ensures r.First? ==> p < r.next <= |s|
  {
    if At(s, p) == '\0' then Last(Rest(s[p..]))
    else if s[p] == '\\' then
      if At(s, p + 1) == '\"' || At(s, p + 1) == '\\' then First(Escape(s[p + 1]), p + 2)
      else First(Code(s[p]), p + 1)
    else if s[p] == '\"' then
      match ClosingQuote(s, p + 1)
      case None => Last(Rest(s[p..]))
      case Some(q) => First(Literal(s[p..q]), q)
    else if OccursAt(s, p, open) then
      match Find(s, p + |open|, close)
      case None => Last(OpenComment(open, s[p + |open|..]))
      case Some(q) => First(Comment(s[p..q + |close|]), q + |close|)
    else First(Code(s[p]), p + 1)
  }

  function Tokens(s: string, p: nat, open: string, close: string): seq<Token>
    requires p <= |s| && open != "" && close != ""
    decreases |s| - p
  {
    match Lex(s, p, open, close)
    case Last(token) => [token]
    case First(token, next) => [token] + Tokens(s, next, open, close)
  }

  /** The bytes of a token. */
  function Source(t: Token): string {
    match t
    case Code(c) => [c]
    case Escape(c) => ['\\', c]
    case Literal(text) => text
    case Comment(text) => text
    case OpenComment(token, rest) => token + rest
    case Rest(text) => text
  }

  /** A token with its comment bytes blanked. */
  function Blanked(t: Token): string {
    match t
    case Comment(text) => Blanks(|text|)
    case OpenComment(token, rest) => Blanks(|token|) + rest
    case _ => Source(t)
  }

  function Concat(ts: seq<Token>, text: Token -> string): string {
    if ts == [] then "" else text(ts[0]) + Concat(ts[1..], text)
  }

  /** Inside a string literal everything is kept, up to and with the closing quote. */
  lemma {:induction false} StripInString(s: string, p: nat, open: string, close: string)
    requires p <= |s| && open != "" && close != ""
    ensures match ClosingQuote(s, p)
            case None => Strip(s, p, true, false, open, close) == s[p..]
            case Some(q) =>
              Strip(s, p, true, false, open, close) == s[p..q] + Strip(s, q, false, false, open, close)
    decreases |s| - p
  {
    hide OccursAt, Find;
    if At(s, p) != '\0' && s[p] != '\"' {
      var next := if s[p] == '\\' && At(s, p + 1) != '\0' then p + 2 else p + 1;
      StripInString(s, next, open, close);
      StripOneInString(s, p, next, open, close);
    }
  }

  lemma StripOneInString(s: string, p: nat, next: nat, open: string, close: string)
    requires p < |s| && open != "" && close != "" && s[p] != '\0' && s[p] != '\"'
    requires next == if s[p] == '\\' && At(s, p + 1) != '\0' then p + 2 else p + 1
    ensures next <= |s|
    ensures At(s, p) == '\\' && At(s, p + 1) == '\0' ==> Strip(s, p, true, false, open, close) == s[p..]
    ensures At(s, p) != '\\' || At(s, p + 1) != '\0' ==>
              && Strip(s, p, true, false, open, close) == s[p..next] + Strip(s, next, true, false, open, close)
              && ClosingQuote(s, p) == ClosingQuote(s, next)
  {
    hide OccursAt, Find;
    if s[p] == '\\' {
      assert Strip(s, p, true, false, open, close) == [s[p]] + Strip(s, p + 1, true, true, open, close);
    }
  }

  lemma StripEscapedChar(s: string, p: nat, open: string, close: string)
    requires p < |s| && open != "" && close != "" && s[p] == '\\'
    ensures Strip(s, p, false, false, open, close) ==
            if At(s, p + 1) == '\"' || At(s, p + 1) == '\\' then
              if OccursAt(s, p + 1, open) then [s[p]] + Strip(s, p + 1, false, true, open, close)
              else [s[p], s[p + 1]] + Strip(s, p + 2, false, false, open, close)
            else [s[p]] + Strip(s, p + 1, false, false, open, close)
  {
    hide OccursAt, Find;
    assert Strip(s, p, false, false, open, close) == [s[p]] + Strip(s, p + 1, false, true, open, close);
  }

  /** One token of the lexer is what the scan does from `p` to the next token. */
  lemma StripOneToken(s: string, p: nat, open: string, close: string)
    requires p <= |s| && open != "" && close != "" && open[0] != '\"' && open[0] != '\\'
    ensures match Lex(s, p, open, close)
            case Last(token) => Strip(s, p, false, false, open, close) == Blanked(token)
            case First(token, next) =>
              Strip(s, p, false, false, open, close) == Blanked(token) + Strip(s, next, false, false, open, close)
  {
    hide OccursAt, Find, ClosingQuote;
    if At(s, p) == '\\' {
      if At(s, p + 1) == '\"' || At(s, p + 1) == '\\' {
        OpeningChar(s, p + 1, open);
      }
      StripEscapedChar(s, p, open, close);
    } else if At(s, p) == '\"' {
      StripLiteral(s, p, open, close);
    }
  }

  /** The tokens make up the text. */
  lemma {:induction false} TokensCoverText(s: string, p: nat, open: string, close: string)
    requires p <= |s| && open != "" && close != ""
    ensures Concat(Tokens(s, p, open, close), Source) == s[p..]
    decreases |s| - p
  {
    LexCoversText(s, p, open, close);
    hide Lex, Source;
    match Lex(s, p, open, close)
    case Last(token) =>
      assert Concat([token], Source) == Source(token) + "";
    case First(token, next) =>
      TokensCoverText(s, next, open, close);
      assert s[p..] == s[p..next] + s[next..];
      assert ([token] + Tokens(s, next, open, close))[1..] == Tokens(s, next, open, close);
  }

  lemma LexCoversText(s: string, p: nat, open: string, close: string)
    requires p <= |s| && open != "" && close != ""
    ensures match Lex(s, p, open, close)
            case Last(token) => Source(token) == s[p..]
            case First(token, next) => Source(token) == s[p..next]
  {
    hide ClosingQuote, Find;
    if OccursAt(s, p, open) {
      assert s[p..] == s[p..p + |open|] + s[p + |open|..];
    }
  }

  /** remove_comments blanks exactly the comments of the text: code, escapes and string literals keep their
      bytes. The opening token is one that does not itself start with a quote or a backslash. */
  lemma {:induction false} StripBlanksComments(s: string, p: nat, open: string, close: string)
    requires p <= |s| && open != "" && close != "" && open[0] != '\"' && open[0] != '\\'
    ensures Strip(s, p, false, false, open, close) == Concat(Tokens(s, p, open, close), Blanked)
    decreases |s| - p
  {
    StripOneToken(s, p, open, close);
    hide Strip, Lex, Blanked;
    match Lex(s, p, open, close)
    case Last(token) =>
      assert Concat([token], Blanked) == Blanked(token) + "";
    case First(token, next) =>
      StripBlanksComments(s, next, open, close);
      assert ([token] + Tokens(s, next, open, close))[1..] == Tokens(s, next, open, close);
  }

  lemma OpeningChar(s: string, p: nat, open: string)
    requires open != ""
    ensures OccursAt(s, p, open) ==> At(s, p) == open[0]
  {
    if OccursAt(s, p, open) {
      OccursChar(s, p, open, 0);
    }
  }

  lemma StripLiteral(s: string, p: nat, open: string, close: string)
    requires p < |s| && s[p] == '\"' && open != "" && close != ""
    ensures match ClosingQuote(s, p + 1)
            case None => Strip(s, p, false, false, open, close) == s[p..]
            case Some(q) => Strip(s, p, false, false, open, close) == s[p..q] + Strip(s, q, false, false, open, close)
  {
    StripInString(s, p + 1, open, close);
    assert Strip(s, p, false, false, open, close) == [s[p]] + Strip(s, p + 1, true, false, open, close);
  }

  // ---------------------------------------------------------------- serialized text

  /** The scan leaves the text from `p` to `q` as it is, and is outside strings at both ends. */
  ghost predicate Kept(s: string, p: nat, q: nat, open: string, close: string) {
    && p <= q <= |s| && open != "" && close != ""
    && Strip(s, p, false, false, open, close) == s[p..q] + Strip(s, q, false, false, open, close)
  }

  lemma KeptTrans(s: string, p: nat, q: nat, r: nat, open: string, close: string)
    requires Kept(s, p, q, open, close) && Kept(s, q, r, open, close)
    ensures Kept(s, p, r, open, close)
  {
    hide Strip;
    var rest := Strip(s, r, false, false, open, close);
    assert s[p..q] + (s[q..r] + rest) == s[p..q] + s[q..r] + rest;
    assert s[p..q] + s[q..r] == s[p..r];
  }

  /** A byte that starts no string, escape or comment. */
  predicate IsPlain(c: char) {
    c != '\0' && c != '\"' && c != '\\' && c != '/'
  }

  lemma {:induction false} PlainKept(s: string, p: nat, t: string, open: string, close: string)
    requires OccursAt(s, p, t) && open != "" && open[0] == '/' && close != ""
    requires forall k :: 0 <= k < |t| ==> IsPlain(t[k])
    ensures Kept(s, p, p + |t|, open, close)
    decreases |t|
  {
    if t == "" {
      assert s[p..p] == "";
    } else {
      OccursChar(s, p, t, 0);
      OpeningChar(s, p, open);
      OccursSplit(s, p, [t[0]], t[1..]);
      assert t == [t[0]] + t[1..];
      PlainKept(s, p + 1, t[1..], open, close);
      assert Kept(s, p, p + 1, open, close) by { assert s[p..p + 1] == [s[p]]; }
      KeptTrans(s, p, p + 1, p + |t|, open, close);
    }
  }

  lemma QuoteKept(s: string, p: nat, str: string, style: Style, open: string, close: string)
    requires OccursAt(s, p, Quote(str, style.escapeSlashes)) && open != "" && close != ""
    ensures Kept(s, p, p + |Quote(str, style.escapeSlashes)|, open, close)
  {
    hide Quote, Unescaped;
    QuoteRoundTrip(s, p, str, style.escapeSlashes);
    StripLiteral(s, p, open, close);
  }

  lemma IndentKept(s: string, p: nat, level: nat, style: Style, open: string, close: string)
    requires OccursAt(s, p, IfPretty(style, Indent(level))) && open != "" && open[0] == '/' && close != ""
    ensures Kept(s, p, p + |IfPretty(style, Indent(level))|, open, close)
  {
    PlainKept(s, p, IfPretty(style, Indent(level)), open, close);
  }

  lemma {:induction false} TextKept(v: Value, s: string, p: nat, level: nat, style: Style, open: string, close: string)
    requires Printable(v) && OccursAt(s, p, Text(v, level, style)) && open != "" && open[0] == '/' && close != ""
    ensures Kept(s, p, p + |Text(v, level, style)|, open, close)
    decreases v, 2
  {
    hide OccursAt, Kept, Quote;
    match v
    case Null => PlainKept(s, p, "null", open, close);
    case Bool(b) => PlainKept(s, p, if b then "true" else "false", open, close);
    case Num(x) => NumberKept(s, p, x, open, close);
    case Str(str) => QuoteKept(s, p, str, style, open, close);
    case Arr(items) =>
      if items == [] {
        PlainKept(s, p, "[]", open, close);
      } else {
        ArrayKept(items, s, p, level, style, open, close);
      }
    case Obj(ms) =>
      if ms == [] {
        PlainKept(s, p, "{}", open, close);
      } else {
        ObjectKept(ms, s, p, level, style, open, close);
      }
  }

  lemma {:induction false} ArrayKept(items: seq<Value>, s: string, p: nat, level: nat, style: Style, open: string,
                                     close: string)
    requires items != [] && PrintableItems(items) && OccursAt(s, p, Text(Arr(items), level, style))
    requires open != "" && open[0] == '/' && close != ""
    ensures Kept(s, p, p + |Text(Arr(items), level, style)|, open, close)
    decreases items, 3
  {
    hide OccursAt, Kept, ItemsText, Indent;
    BracketSplit(s, p, "[", ItemsText(items, level, style), level, style, "]", open, close);
    ItemsKept(items, s, p + 1 + |IfPretty(style, "\n")|, level, style, open, close);
    BracketKept(s, p, "[", ItemsText(items, level, style), level, style, "]", open, close);
  }

  lemma {:induction false} ObjectKept(ms: seq<Member>, s: string, p: nat, level: nat, style: Style, open: string,
                                      close: string)
    requires ms != [] && PrintableMembers(ms) && OccursAt(s, p, Text(Obj(ms), level, style))
    requires open != "" && open[0] == '/' && close != ""
    ensures Kept(s, p, p + |Text(Obj(ms), level, style)|, open, close)
    decreases ms, 3
  {
    hide OccursAt, Kept, MembersText, Indent;
    BracketSplit(s, p, "{", MembersText(ms, level, style), level, style, "}", open, close);
    MembersKept(ms, s, p + 1 + |IfPretty(style, "\n")|, level, style, open, close);
    BracketKept(s, p, "{", MembersText(ms, level, style), level, style, "}", open, close);
  }

  lemma NumberKept(s: string, p: nat, x: real, open: string, close: string)
    requires IsDouble(x) && OccursAt(s, p, NumberText(x)) && open != "" && open[0] == '/' && close != ""
    ensures Kept(s, p, p + |NumberText(x)|, open, close)
  {
    hide NumberText, IsDouble, OccursAt;
    NumberChars(x);
    PlainKept(s, p, NumberText(x), open, close);
  }

  lemma BracketSplit(s: string, p: nat, left: string, body: string, level: nat, style: Style, right: string,
                     open: string, close: string)
    requires |left| == |right| == 1
    requires OccursAt(s, p, left + IfPretty(style, "\n") + body + IfPretty(style, Indent(level)) + right)
    ensures OccursAt(s, p + 1 + |IfPretty(style, "\n")|, body)
  {
    hide OccursAt;
    var nl, ind := IfPretty(style, "\n"), IfPretty(style, Indent(level));
    OccursSplit(s, p, left + nl + body + ind, right);
    OccursSplit(s, p, left + nl + body, ind);
    OccursSplit(s, p, left + nl, body);
  }

  lemma BracketKept(s: string, p: nat, left: string, body: string, level: nat, style: Style, right: string,
                    open: string, close: string)
    requires |left| == |right| == 1 && IsPlain(left[0]) && IsPlain(right[0])
    requires open != "" && open[0] == '/' && close != ""
    requires OccursAt(s, p, left + IfPretty(style, "\n") + body + IfPretty(style, Indent(level)) + right)
    requires var start := p + 1 + |IfPretty(style, "\n")|; Kept(s, start, start + |body|, open, close)
    ensures Kept(s, p, p + |left + IfPretty(style, "\n") + body + IfPretty(style, Indent(level)) + right|, open, close)
  {
    hide OccursAt, Kept;
    var nl, ind := IfPretty(style, "\n"), IfPretty(style, Indent(level));
    OccursSplit(s, p, left + nl + body + ind, right);
    OccursSplit(s, p, left + nl + body, ind);
    OccursSplit(s, p, left + nl, body);
    var start := p + 1 + |nl|;
    var end := start + |body|;
    PlainKept(s, p, left + nl, open, close);
    KeptTrans(s, p, start, end, open, close);
    IndentKept(s, end, level, style, open, close);
    KeptTrans(s, p, end, end + |ind|, open, close);
    PlainKept(s, end + |ind|, right, open, close);
    KeptTrans(s, p, end + |ind|, end + |ind| + 1, open, close);
  }

  lemma {:induction false} ItemsKept(items: seq<Value>, s: string, p: nat, level: nat, style: Style,
                                     open: string, close: string)
    requires PrintableItems(items) && OccursAt(s, p, ItemsText(items, level, style))
    requires open != "" && open[0] == '/' && close != ""
    ensures Kept(s, p, p + |ItemsText(items, level, style)|, open, close)
    decreases items, 1
  {
    hide OccursAt, Kept, Text, Indent;
    if items == [] {
      PlainKept(s, p, "", open, close);
    } else {
      var ind, t, ee := IfPretty(style, Indent(level + 1)), Text(items[0], level + 1, style),
                        ElementEnd(|items| == 1, style);
      var rest := ItemsText(items[1..], level, style);
      OccursSplit(s, p, ind + t + ee, rest);
      OccursSplit(s, p, ind + t, ee);
      OccursSplit(s, p, ind, t);
      IndentKept(s, p, level + 1, style, open, close);
      TextKept(items[0], s, p + |ind|, level + 1, style, open, close);
      KeptTrans(s, p, p + |ind|, p + |ind + t|, open, close);
      PlainKept(s, p + |ind + t|, ee, open, close);
      KeptTrans(s, p, p + |ind + t|, p + |ind + t + ee|, open, close);
      ItemsKept(items[1..], s, p + |ind + t + ee|, level, style, open, close);
      KeptTrans(s, p, p + |ind + t + ee|, p + |ind + t + ee + rest|, open, close);
    }
  }

  lemma KeyKept(s: string, p: nat, key: string, style: Style, open: string, close: string)
    requires OccursAt(s, p, KeyText(key, style)) && open != "" && open[0] == '/' && close != ""
    ensures Kept(s, p, p + |KeyText(key, style)|, open, close)
  {
    hide OccursAt, Kept, Quote;
    var quoted, colon := Quote(key, style.escapeSlashes), ":" + IfPretty(style, " ");
    assert KeyText(key, style) == quoted + colon;
    OccursSplit(s, p, quoted, colon);
    QuoteKept(s, p, key, style, open, close);
    PlainKept(s, p + |quoted|, colon, open, close);
    KeptTrans(s, p, p + |quoted|, p + |quoted + colon|, open, close);
  }

  lemma {:induction false} MembersKept(ms: seq<Member>, s: string, p: nat, level: nat, style: Style,
                                       open: string, close: string)
    requires PrintableMembers(ms) && OccursAt(s, p, MembersText(ms, level, style))
    requires open != "" && open[0] == '/' && close != ""
    ensures Kept(s, p, p + |MembersText(ms, level, style)|, open, close)
    decreases ms, 1
  {
    hide OccursAt, Kept, Text, Indent, KeyText;
    if ms == [] {
      PlainKept(s, p, "", open, close);
    } else {
      var ind, k, t, ee := IfPretty(style, Indent(level + 1)), KeyText(ms[0].key, style),
                           Text(ms[0].val, level + 1, style), ElementEnd(|ms| == 1, style);
      var rest := MembersText(ms[1..], level, style);
      OccursSplit(s, p, ind + k + t + ee, rest);
      OccursSplit(s, p, ind + k + t, ee);
      OccursSplit(s, p, ind + k, t);
      OccursSplit(s, p, ind, k);
      IndentKept(s, p, level + 1, style, open, close);
      KeyKept(s, p + |ind|, ms[0].key, style, open, close);
      KeptTrans(s, p, p + |ind|, p + |ind + k|, open, close);
      TextKept(ms[0].val, s, p + |ind + k|, level + 1, style, open, close);
      KeptTrans(s, p, p + |ind + k|, p + |ind + k + t|, open, close);
      PlainKept(s, p + |ind + k + t|, ee, open, close);
      KeptTrans(s, p, p + |ind + k + t|, p + |ind + k + t + ee|, open, close);
      MembersKept(ms[1..], s, p + |ind + k + t + ee|, level, style, open, close);
      KeptTrans(s, p, p + |ind + k + t + ee|, p + |ind + k + t + ee + rest|, open, close);
    }
  }

  /** Removing comments of either kind leaves serialized text alone, whatever its strings contain. */
  lemma StripKeepsSerialized(v: Value, style: Style, open: string, close: string)
    requires Printable(v) && open != "" && open[0] == '/' && close != ""
    ensures Strip(Text(v, 0, style), 0, false, false, open, close) == Text(v, 0, style)
  {
    hide Text;
    var t := Text(v, 0, style);
    RoundTrip.WholeOccurs(t);
    TextKept(v, t, 0, 0, style, open, close);
    assert Strip(t, |t|, false, false, open, close) == "";
    assert t[0..|t|] + "" == t;
  }

  /** json_parse_string_with_comments. No byte order mark is stepped over here. */
  function ParseWithComments(s: string): Option<Value> {
    var once := Strip(s, 0, false, false, "/*", "*/");
    var twice := Strip(once, 0, false, false, "//", "\n");
    match P.ParseValue(twice, 0, 0, P.MAX_NESTING)
    case None => None
    case Some(parsed) => Some(parsed.val)
  }

  /** The copy, the two passes over it and the parse. */
  method ParseStringWithComments(s: string) returns (r: Option<Value>)
    ensures r == ParseWithComments(s)
  {
    hide Strip, P.ParseValue;
    var copy := new char[|s|](i requires 0 <= i < |s| => s[i]);
    assert copy[..] == s;
    RemoveComments(copy, "/*", "*/");
    RemoveComments(copy, "//", "\n");
    var parsed := ParserLoops.ParseValue(copy[..], 0, 0);
    r := if parsed.None? then None else Some(parsed.value.val);
  }

  /** Parsing with comments also inverts both serializers. */
  lemma SerializeThenParseWithComments(v: Value, style: Style)
    requires Printable(v) && WellFormed(v) && Level(v) <= P.MAX_NESTING
    ensures ParseWithComments(Text(v, 0, style)) == Some(v)
  {
    hide Text, Strip, OccursAt;
    StripKeepsSerialized(v, style, "/*", "*/");
    StripKeepsSerialized(v, style, "//", "\n");
    RoundTrip.WholeOccurs(Text(v, 0, style));
    RoundTrip.ValueRoundTrip(v, Text(v, 0, style), 0, 0, style, 0, P.MAX_NESTING);
  }

  /** The text with the comments between two tokens blanked. */
  function WithoutComments(s: string, open: string, close: string): string
    requires open != "" && close != ""
  {
    Concat(Tokens(s, 0, open, close), Blanked)
  }

  /** What is parsed is the value at the start of the text in which first the block comments are blanked, and then the
      line comments of what is left. */
  lemma ParsedWithCommentsIff(s: string, v: Value)
    ensures ParseWithComments(s) == Some(v) <==>
            Level(v) <= 2048 &&
            exists q :: Grammar.ValueAt(WithoutComments(WithoutComments(s, "/*", "*/"), "//", "\n"), 0, q, v)
  {
    hide Strip, Tokens, Concat, P.ParseValue, Grammar.ValueAt, Level;
    var once := WithoutComments(s, "/*", "*/");
    StripBlanksComments(s, 0, "/*", "*/");
    var twice := WithoutComments(once, "//", "\n");
    StripBlanksComments(once, 0, "//", "\n");
    var r := P.ParseValue(twice, 0, 0, P.MAX_NESTING);
    if r.Some? {
      Recognition.ParsedIffValue(twice, 0, r.value.next, r.value.val, 0, P.MAX_NESTING);
    }
    forall q | Grammar.ValueAt(twice, 0, q, v) && Level(v) <= 2048 ensures r == Some(P.Parsed(v, q)) {
      Recognition.ParsedIffValue(twice, 0, q, v, 0, P.MAX_NESTING);
    }
  }
}
