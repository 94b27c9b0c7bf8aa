/** The text "%1.17g" makes of a double: seventeen significant digits without the zeros at their end, and an exponent
    where the number is large or small. Reading it gives the double back. */
module Decimals {
  import opened CString
  import opened Doubles
  import opened Numeral
  import opened Options

  // ---------------------------------------------------------------- digits

  function DecimalDigits(n: nat): (t: string)
    ensures |t| > 0 && AllDigits(t)
    ensures t[0] == '0' ==> n == 0 && |t| == 1
  {
    var last := ('0' as int + n % 10) as char;
    if n < 10 then [last] else DecimalDigits(n / 10) + [last]
  }

  predicate AllDigits(t: string) {
    forall k :: 0 <= k < |t| ==> IsDigit(t[k])
  }

  /** The number that digits spell. */
  function Value(t: string): int {
    if t == "" then 0 else 10 * Value(t[..|t| - 1]) + (t[|t| - 1] as int - '0' as int)
  }

  function Zeros(n: nat): (t: string)
    ensures |t| == n && AllDigits(t)
  {
    if n == 0 then "" else Zeros(n - 1) + "0"
  }

  lemma {:induction false} ValueOfDigits(n: nat)
    ensures Value(DecimalDigits(n)) == n
    decreases n
  {
    var last := [('0' as int + n % 10) as char];
    if n < 10 {
      assert last[..0] == "";
    } else {
      var t := DecimalDigits(n / 10) + last;
      assert t[..|t| - 1] == DecimalDigits(n / 10);
      ValueOfDigits(n / 10);
    }
  }

  lemma {:induction false} ValueOfJoined(a: string, b: string)
    ensures Value(a + b) == Value(a) * Tens(|b|) + Value(b)
    decreases |b|
  {
    if b == "" {
      assert a + b == a;
    } else {
      var front := b[..|b| - 1];
      assert (a + b)[..|a + b| - 1] == a + front;
      ValueOfJoined(a, front);
      assert Value(a) * Tens(|b|) == 10 * (Value(a) * Tens(|front|));
    }
  }

  lemma {:induction false} ValueOfZeros(n: nat)
    ensures Value(Zeros(n)) == 0
  {
    if n > 0 {
      assert Zeros(n)[..n - 1] == Zeros(n - 1);
      ValueOfZeros(n - 1);
    }
  }

  // ---------------------------------------------------------------- the text of a number

  /** `c` times ten to the `e`. */
  datatype Digits = Digits(c: nat, e: int)

  function Amount(d: Digits): real {
    d.c as real * Ten(d.e)
  }

  /** A number as text is written: sign, digits before and behind the dot, exponent. */
  datatype Parts = Parts(whole: string, fraction: string, exponent: Option<int>)

  ghost predicate Readable(parts: Parts) {
    parts.whole != "" && AllDigits(parts.whole) && AllDigits(parts.fraction)
  }

  function PartsOf(d: Digits): (parts: Parts)
    requires d.c > 0
    ensures Readable(parts)
  {
    var t := DecimalDigits(d.c);
    var point := d.e + |t| - 1;
    if point < -4 || point >= 17 then Parts(t[..1], t[1..], Some(point))
    else if point < 0 then Parts("0", Zeros(-point - 1) + t, None)
    else if d.e < 0 then Parts(t[..point + 1], t[point + 1..], None)
    else Parts(t + Zeros(d.e), "", None)
  }

  function FractionText(fraction: string): string {
    if fraction == "" then "" else "." + fraction
  }

  function ExponentDigits(e: nat): string {
    (if e < 10 then "0" else "") + DecimalDigits(e)
  }

  function ExponentText(exponent: Option<int>): string {
    match exponent
    case None => ""
    case Some(e) => if e < 0 then "e-" + ExponentDigits(-e) else "e+" + ExponentDigits(e)
  }

  function Spelled(parts: Parts): string {
    parts.whole + FractionText(parts.fraction) + ExponentText(parts.exponent)
  }

  function Denotes(parts: Parts): real {
    var e := if parts.exponent.Some? then parts.exponent.value else 0;
    Value(parts.whole + parts.fraction) as real * Ten(e - |parts.fraction|)
  }

  lemma {:induction false} TensIsTen(e: nat)
    ensures Tens(e) as real == Ten(e)
  {
    if e > 0 {
      TensIsTen(e - 1);
    }
  }

  /** However the digits are laid out, the text denotes the same number. */
  lemma PartsDenote(d: Digits)
    requires d.c > 0
    ensures Denotes(PartsOf(d)) == Amount(d)
  {
    hide Ten, Value, Tens, DecimalDigits, Zeros;
    var t := DecimalDigits(d.c);
    var point := d.e + |t| - 1;
    ValueOfDigits(d.c);
    if point < -4 || point >= 17 {
      assert t[..1] + t[1..] == t;
    } else if point < 0 {
      assert "0" + (Zeros(-point - 1) + t) == "0" + Zeros(-point - 1) + t;
      ValueOfJoined("0" + Zeros(-point - 1), t);
      LeadingZeros(-point - 1);
    } else if d.e < 0 {
      assert t[..point + 1] + t[point + 1..] == t;
    } else {
      assert t + Zeros(d.e) + "" == t + Zeros(d.e);
      ValueOfJoined(t, Zeros(d.e));
      ValueOfZeros(d.e);
      TensIsTen(d.e);
      assert Ten(0) == 1.0 by { TensIsTen(0); assert Tens(0) == 1 by { OneIsTens(); } }
    }
  }

  lemma OneIsTens()
    ensures Tens(0) == 1
  {
  }

  lemma LeadingZeros(n: nat)
    ensures Value("0" + Zeros(n)) == 0
  {
    ValueOfJoined("0", Zeros(n));
    ValueOfZeros(n);
    assert Value("0") == 0 by { assert "0"[..0] == ""; }
  }

  // ---------------------------------------------------------------- reading it back

  /** Reading one of these after a numeral could make it longer. */
  predicate ExtendsNumber(c: char) {
    IsDigit(c) || c == '.' || c == 'e' || c == 'E' || c == 'x' || c == 'X'
  }

  /** Digits stand at `p`, and no digit behind them. */
  ghost predicate DigitsAt(s: string, p: nat, t: string) {
    OccursAt(s, p, t) && AllDigits(t) && !IsDigit(At(s, p + |t|))
  }

  lemma {:induction false} DigitsStop(s: string, p: nat, q: nat)
    requires p <= q && (forall k :: p <= k < q ==> IsDigit(At(s, k))) && !IsDigit(At(s, q))
    ensures DigitsEnd(s, p) == q
    decreases q - p
  {
    if p < q {
      DigitsStop(s, p + 1, q);
    }
  }

  lemma {:induction false} DigitsSpell(s: string, p: nat, t: string)
    requires OccursAt(s, p, t)
    ensures DigitsValue(s, p, p + |t|) == Value(t)
    decreases |t|
  {
    if t != "" {
      var front, last := t[..|t| - 1], t[|t| - 1..];
      assert t == front + last;
      OccursSplit(s, p, front, last);
      OccursChar(s, p, t, |t| - 1);
      DigitsSpell(s, p, front);
    }
  }

  lemma DigitsRead(s: string, p: nat, t: string)
    requires DigitsAt(s, p, t)
    ensures DigitsEnd(s, p) == p + |t| && DigitsValue(s, p, p + |t|) == Value(t)
    ensures t != "" ==> At(s, p) == t[0]
    ensures |t| > 1 ==> IsDigit(At(s, p + 1))
  {
    hide OccursAt, IsDigit, DigitsEnd;
    forall k | p <= k < p + |t| ensures IsDigit(At(s, k)) && At(s, k) == t[k - p] {
      OccursChar(s, p, t, k - p);
    }
    DigitsStop(s, p, p + |t|);
    DigitsSpell(s, p, t);
  }

  /** Where the parts of a text stand. */
  ghost predicate PartsAt(s: string, q: nat, parts: Parts) {
    var dot := q + |parts.whole|;
    var frac := dot + |FractionText(parts.fraction)|;
    && Readable(parts)
    && DigitsAt(s, q, parts.whole)
    && (if parts.fraction == "" then At(s, dot) != '.' else At(s, dot) == '.' && DigitsAt(s, dot + 1, parts.fraction))
    && (match parts.exponent
        case None => !IsLetter(At(s, frac), 'e')
        case Some(e) =>
          && At(s, frac) == 'e' && At(s, frac + 1) == (if e < 0 then '-' else '+')
          && DigitsAt(s, frac + 2, ExponentDigits(if e < 0 then -e else e)))
    && !IsLetter(At(s, q + 1), 'x')
  }

  /** Where a number without its sign ends. */
  function EndOf(q: nat, parts: Parts): nat {
    q + |parts.whole| + |FractionText(parts.fraction)| + |ExponentText(parts.exponent)|
  }

  lemma ExponentValue(e: nat)
    ensures Value(ExponentDigits(e)) == e && AllDigits(ExponentDigits(e)) && |ExponentDigits(e)| > 0
  {
    hide Value, DecimalDigits;
    ValueOfDigits(e);
    if e < 10 {
      assert "0" + Zeros(0) == "0";
      LeadingZeros(0);
      ValueOfJoined("0", DecimalDigits(e));
    } else {
      assert "" + DecimalDigits(e) == DecimalDigits(e);
    }
  }

  function StartOf(p: nat, negative: bool): nat {
    if negative then p + 1 else p
  }

  /** The sign and the parts of a number stand at `p`. */
  ghost predicate NumberAt(s: string, p: nat, negative: bool, parts: Parts) {
    (negative <==> At(s, p) == '-') && PartsAt(s, StartOf(p, negative), parts)
  }

  lemma WholeRead(s: string, p: nat, negative: bool, parts: Parts)
    requires NumberAt(s, p, negative, parts)
    ensures var q := StartOf(p, negative);
            && WholeStart(s, p) == q && WholeEnd(s, p) == q + |parts.whole|
            && DigitsValue(s, q, q + |parts.whole|) == Value(parts.whole)
            && !IsHexNumeral(s, q) && !IsNotFinite(s, q)
  {
    hide DigitsAt, Value, DigitsValue, DigitsEnd, ExponentDigits;
    var q := StartOf(p, negative);
    DigitsRead(s, q, parts.whole);
    assert IsDigit(At(s, q));
  }

  lemma FractionRead(s: string, p: nat, negative: bool, parts: Parts)
    requires NumberAt(s, p, negative, parts)
    ensures FractionEnd(s, p) == StartOf(p, negative) + |parts.whole| + |FractionText(parts.fraction)|
    ensures Mantissa(s, p) == Value(parts.whole + parts.fraction)
  {
    hide DigitsAt, Value, DigitsValue, DigitsEnd, ExponentDigits, Tens, AllDigits;
    var dot := StartOf(p, negative) + |parts.whole|;
    WholeRead(s, p, negative, parts);
    if parts.fraction == "" {
      assert parts.whole + "" == parts.whole;
    } else {
      DigitsRead(s, dot + 1, parts.fraction);
      ValueOfJoined(parts.whole, parts.fraction);
    }
  }

  lemma ExponentDigitsRead(s: string, p: nat, e: int)
    requires At(s, FractionEnd(s, p)) == 'e' && At(s, FractionEnd(s, p) + 1) == (if e < 0 then '-' else '+')
    requires DigitsAt(s, FractionEnd(s, p) + 2, ExponentDigits(if e < 0 then -e else e))
    ensures HasExponent(s, p) && ExponentStart(s, p) == FractionEnd(s, p) + 2
    ensures NumeralEnd(s, p) == FractionEnd(s, p) + |ExponentText(Some(e))|
    ensures DigitsValue(s, ExponentStart(s, p), NumeralEnd(s, p)) == if e < 0 then -e else e
  {
    hide DigitsAt, Value, DigitsValue, DigitsEnd, ExponentDigits, AllDigits, FractionEnd, WholeEnd;
    var size := if e < 0 then -e else e;
    ExponentValue(size);
    DigitsRead(s, FractionEnd(s, p) + 2, ExponentDigits(size));
    assert IsDigit(At(s, FractionEnd(s, p) + 2)) by { FirstDigit(ExponentDigits(size)); }
  }

  lemma ExponentRead(s: string, p: nat, negative: bool, parts: Parts)
    requires NumberAt(s, p, negative, parts)
    ensures NumeralEnd(s, p) == EndOf(StartOf(p, negative), parts)
    ensures Exponent(s, p) == (if parts.exponent.Some? then parts.exponent.value else 0) - |parts.fraction|
  {
    hide DigitsAt, Value, DigitsValue, DigitsEnd, ExponentDigits, AllDigits, FractionEnd, WholeEnd, HasExponent,
         ExponentStart, NumeralEnd;
    WholeRead(s, p, negative, parts);
    FractionRead(s, p, negative, parts);
    match parts.exponent
    case None => NoExponentRead(s, p);
    case Some(e) => ExponentDigitsRead(s, p, e);
  }

  lemma NoExponentRead(s: string, p: nat)
    requires !IsLetter(At(s, FractionEnd(s, p)), 'e')
    ensures !HasExponent(s, p) && NumeralEnd(s, p) == FractionEnd(s, p)
  {
  }

  lemma FirstDigit(t: string)
    requires t != "" && AllDigits(t)
    ensures IsDigit(t[0])
  {
  }

  /** strtod takes the whole text and finds the number it denotes. */
  lemma StrtodOfParts(s: string, p: nat, negative: bool, parts: Parts)
    requires NumberAt(s, p, negative, parts)
    ensures Strtod(s, p) == Decimal(if negative then -Denotes(parts) else Denotes(parts),
                                    EndOf(StartOf(p, negative), parts))
  {
    hide PartsAt, Value, Ten, Mantissa, Exponent, NumeralEnd, IsHexNumeral, IsNotFinite;
    WholeRead(s, p, negative, parts);
    FractionRead(s, p, negative, parts);
    ExponentRead(s, p, negative, parts);
    assert parts.whole != "" by { WholeIsThere(s, StartOf(p, negative), parts); }
  }

  lemma WholeIsThere(s: string, q: nat, parts: Parts)
    requires PartsAt(s, q, parts)
    ensures parts.whole != ""
  {
  }

  // ---------------------------------------------------------------- seventeen digits

  /** The exponent of the first digit of a number, from `k` on. */
  function TenExponent(x: real, k: int): (g: int)
    requires x >= Ten(k)
    ensures k <= g && Ten(g) <= x < Ten(g + 1)
    decreases (x / Ten(k)).Floor
  {
    if x < Ten(k + 1) then k
    else
      TenthIsLess(x, k);
      TenExponent(x, k + 1)
  }

  lemma TenthIsLess(x: real, k: int)
    requires x >= Ten(k + 1)
    ensures 0 <= (x / Ten(k + 1)).Floor < (x / Ten(k)).Floor
  {
    hide Ten;
    TenGrows(k);
    QuotientIsMonotone(Ten(k + 1), x, Ten(k + 1));
    var y := x / Ten(k + 1);
    assert x == y * Ten(k + 1);
    QuotientBy(Ten(k + 1), 1.0, Ten(k + 1));
    QuotientBy(x, 10.0 * y, Ten(k));
  }

  lemma TenGrows(k: int)
    ensures Ten(k + 1) == 10.0 * Ten(k)
  {
  }

  /** The same number without zeros at the end. */
  function Stripped(c: nat, e: int): (d: Digits)
    requires c > 0
    ensures 0 < d.c <= c && d.c % 10 != 0 && e <= d.e
  {
    if c % 10 != 0 then Digits(c, e) else Stripped(c / 10, e + 1)
  }

  lemma {:induction false} StrippedIsSame(c: nat, e: int)
    requires c > 0
    ensures Amount(Stripped(c, e)) == c as real * Ten(e)
  {
    hide Ten;
    if c % 10 == 0 {
      StrippedIsSame(c / 10, e + 1);
      TenGrows(e);
      assert c as real == 10.0 * (c / 10) as real;
    }
  }

  /** Numbers from here on are printed; every double but zero lies above. */
  const LEAST: int := -358

  /** The seventeen digits that are nearest to a positive number. */
  function SeventeenDigits(x: real): (d: Digits)
    requires x >= Ten(LEAST)
    ensures 0 < d.c
  {
    var g := TenExponent(x, LEAST);
    SeventeenAreThere(x, g);
    Stripped(Nearest(x / Ten(g - 16)), g - 16)
  }

  lemma {:induction false} TenAdds(a: int, n: nat)
    ensures Ten(a + n) == Tens(n) as real * Ten(a)
  {
    if n > 0 {
      TenGrows(a + n - 1);
      TenAdds(a, n - 1);
      assert Tens(n) as real == 10.0 * Tens(n - 1) as real;
    }
  }

  lemma SixteenTens()
    ensures Tens(16) == 1_0000_0000_0000_0000
  {
    assert Tens(8) == 1_0000_0000;
    TenAddsUp(8, 8);
  }

  lemma {:induction false} TenAddsUp(a: nat, b: nat)
    ensures Tens(a + b) == Tens(a) * Tens(b)
  {
    if b > 0 {
      TenAddsUp(a, b - 1);
      assert Tens(a) * (10 * Tens(b - 1)) == 10 * (Tens(a) * Tens(b - 1));
    }
  }

  lemma SeventeenAreThere(x: real, g: int)
    requires Ten(g) <= x < Ten(g + 1)
    ensures 1_0000_0000_0000_0000 <= Nearest(x / Ten(g - 16)) <= 10_0000_0000_0000_0000
  {
    hide Ten, Tens, Nearest;
    SixteenTens();
    TenAdds(g - 16, 16);
    TenGrows(g);
    var u := Ten(g - 16);
    QuotientIsWithin(x, u, 10000000000000000.0, 100000000000000000.0);
    NearestBetween(x / u, 1_0000_0000_0000_0000, 10_0000_0000_0000_0000);
  }

  /** What is printed differs from the number by one part in 2 * 10^16 at most. */
  lemma SeventeenAreNear(x: real)
    requires x >= Ten(LEAST)
    ensures SeventeenDigits(x).c < 10_0000_0000_0000_0000 && Near(Amount(SeventeenDigits(x)), x)
  {
    hide Ten, Tens, Nearest, Stripped, TenExponent, Near;
    var g := TenExponent(x, LEAST);
    SeventeenAreThere(x, g);
    var u := Ten(g - 16);
    var y := x / u;
    QuotientTimes(x, u);
    SixteenTens();
    TenAdds(g - 16, 16);
    assert Ten(g) == 10000000000000000.0 * u by { assert g - 16 + 16 == g; }
    StrippedIsSame(Nearest(y), g - 16);
    var d := SeventeenDigits(x);
    HalfUnitIsNear(Nearest(y), y, u, x, Amount(d));
  }

  lemma HalfUnitIsNear(n: int, y: real, u: real, x: real, d: real)
    requires u > 0.0 && x == y * u && x >= 10000000000000000.0 * u && -0.5 <= y - n as real <= 0.5 && d == n as real * u
    ensures Near(d, x)
  {
    assert Abs(n as real - y) <= 0.5;
    hide Abs;
    DistanceInUnits(n as real, y, u, d, x);
    AtMostTimes(Abs(n as real - y), 0.5, u, Abs(d - x), 0.5 * u);
  }

  // ---------------------------------------------------------------- printing

  lemma {:induction false} TenBelowPow(k: nat)
    ensures Ten(0 - k) <= Pow2(-3 * k) && Ten(k) >= Pow2(3 * k)
  {
    if k > 0 {
      TenBelowPow(k - 1);
      TenGrows(0 - k);
      TenGrows(k - 1);
      EightTimes(-3 * k);
      EightTimes(3 * (k - 1));
    }
  }

  lemma EightTimes(e: int)
    ensures Pow2(e + 3) == 8.0 * Pow2(e)
  {
    Doubling(e);
    Doubling(e + 1);
    Doubling(e + 2);
  }

  lemma DoubleIsPrinted(x: real)
    requires IsDouble(x) && x > 0.0
    ensures x >= Ten(LEAST)
  {
    hide Ten, Pow2;
    TenBelowPow(358);
    LeastDouble(x);
  }

  lemma LeastDouble(x: real)
    requires IsDouble(x) && x > 0.0
    ensures x >= Pow2(-1074)
  {
    hide Pow2;
    var m, e :| HasDigits(x, m, e);
    if e > -1074 { Smaller(-1074, e); }
    PositiveMantissa(x, m, Pow2(e));
  }

  lemma PositiveMantissa(x: real, m: int, u: real)
    requires x > 0.0 && u > 0.0 && x == m as real * u
    ensures x >= u
  {
    if m <= 0 {
      AtMostTimes(m as real, 0.0, u, x, 0.0);
      assert false;
    }
    AtMostTimes(1.0, m as real, u, u, x);
  }

  /** sprintf with "%1.17g", for the finite doubles. */
  function NumberText(x: real): (t: string)
    requires IsDouble(x)
    ensures |t| > 0
  {
    if x == 0.0 then "0"
    else if x < 0.0 then
      NegatedDouble(x);
      DoubleIsPrinted(-x);
      "-" + Spelled(PartsOf(SeventeenDigits(-x)))
    else
      DoubleIsPrinted(x);
      Spelled(PartsOf(SeventeenDigits(x)))
  }

  /** A numeral starts with a digit that is not 0, or with 0 and a dot. */
  ghost predicate StartsDecimal(parts: Parts) {
    parts.whole != "" && (parts.whole[0] != '0' || (|parts.whole| == 1 && parts.fraction != ""))
  }

  lemma PartsStartDecimal(d: Digits)
    requires d.c > 0
    ensures StartsDecimal(PartsOf(d))
  {
  }

  lemma ExponentIsAt(s: string, p: nat, exponent: Option<int>)
    requires OccursAt(s, p, ExponentText(exponent)) && !ExtendsNumber(At(s, p + |ExponentText(exponent)|))
    ensures match exponent
            case None => !IsLetter(At(s, p), 'e')
            case Some(e) =>
              && At(s, p) == 'e' && At(s, p + 1) == (if e < 0 then '-' else '+')
              && DigitsAt(s, p + 2, ExponentDigits(if e < 0 then -e else e))
    ensures !IsDigit(At(s, p)) && At(s, p) != '.' && !IsLetter(At(s, p), 'x')
  {
    hide OccursAt, ExponentDigits, Value;
    if exponent.Some? {
      var e := exponent.value;
      var sign, size := if e < 0 then "e-" else "e+", if e < 0 then -e else e;
      ExponentValue(size);
      OccursSplit(s, p, sign, ExponentDigits(size));
      OccursChar(s, p, sign, 0);
      OccursChar(s, p, sign, 1);
    }
  }

  lemma FractionIsAt(s: string, p: nat, fraction: string)
    requires OccursAt(s, p, FractionText(fraction)) && AllDigits(fraction)
    requires var c := At(s, p + |FractionText(fraction)|); !IsDigit(c) && c != '.' && !IsLetter(c, 'x')
    ensures if fraction == "" then At(s, p) != '.' else At(s, p) == '.' && DigitsAt(s, p + 1, fraction)
    ensures !IsDigit(At(s, p)) && !IsLetter(At(s, p), 'x')
  {
    hide OccursAt, AllDigits;
    if fraction != "" {
      OccursSplit(s, p, ".", fraction);
      OccursChar(s, p, ".", 0);
    }
  }

  lemma WholeIsAt(s: string, p: nat, whole: string)
    requires OccursAt(s, p, whole) && whole != "" && AllDigits(whole)
    requires var c := At(s, p + |whole|); !IsDigit(c) && !IsLetter(c, 'x')
    ensures DigitsAt(s, p, whole) && !IsLetter(At(s, p + 1), 'x')
  {
    hide OccursAt;
    if |whole| > 1 {
      OccursChar(s, p, whole, 1);
    }
  }

  lemma PartsAreAt(s: string, q: nat, parts: Parts)
    requires Readable(parts) && OccursAt(s, q, Spelled(parts)) && !ExtendsNumber(At(s, EndOf(q, parts)))
    ensures PartsAt(s, q, parts)
  {
    hide OccursAt, DigitsAt, ExponentDigits, AllDigits, FractionText, ExponentText, ExtendsNumber;
    var f, e := FractionText(parts.fraction), ExponentText(parts.exponent);
    OccursSplit(s, q, parts.whole + f, e);
    OccursSplit(s, q, parts.whole, f);
    ExponentIsAt(s, q + |parts.whole| + |f|, parts.exponent);
    FractionIsAt(s, q + |parts.whole|, parts.fraction);
    WholeIsAt(s, q, parts.whole);
  }

  lemma PartsAreDecimal(s: string, p: nat, negative: bool, parts: Parts)
    requires NumberAt(s, p, negative, parts) && StartsDecimal(parts)
    ensures IsDecimal(s, p, EndOf(StartOf(p, negative), parts))
  {
    hide Value, ExponentDigits, ExponentText;
    var q := StartOf(p, negative);
    DigitsRead(s, q, parts.whole);
  }

  lemma SignIsAt(s: string, p: nat, negative: bool, parts: Parts)
    requires OccursAt(s, p, if negative then "-" else "") && PartsAt(s, StartOf(p, negative), parts)
    ensures NumberAt(s, p, negative, parts)
  {
    hide OccursAt;
    if negative {
      OccursChar(s, p, "-", 0);
    } else {
      DigitsRead(s, p, parts.whole);
    }
  }

  /** The text of a number that is not 0, with its sign. */
  lemma SignedRoundTrip(s: string, p: nat, x: real, negative: bool)
    requires IsDouble(x) && x > 0.0 && x >= Ten(LEAST)
    requires var t := (if negative then "-" else "") + Spelled(PartsOf(SeventeenDigits(x)));
             OccursAt(s, p, t) && !ExtendsNumber(At(s, p + |t|))
    ensures var t := (if negative then "-" else "") + Spelled(PartsOf(SeventeenDigits(x)));
            ParseNumber(s, p) == Some(Number(if negative then -x else x, p + |t|))
  {
    hide IsDouble, Ten, SeventeenDigits, PartsOf, PartsAt, FractionText, ExponentText, OccursAt, Strtod,
         IsDecimal, Round, OverflowLimit, Near;
    var d := SeventeenDigits(x);
    var parts := PartsOf(d);
    var sign, q := if negative then "-" else "", StartOf(p, negative);
    OccursSplit(s, p, sign, Spelled(parts));
    PartsAreAt(s, q, parts);
    SignIsAt(s, p, negative, parts);
    PartsStartDecimal(d);
    PartsAreDecimal(s, p, negative, parts);
    StrtodOfParts(s, p, negative, parts);
    PartsDenote(d);
    SeventeenAreNear(x);
    NearRoundsBack(x, Amount(d));
    NearIsBelowOverflow(x, Amount(d));
    RoundIsOdd(Amount(d));
  }

  lemma ZeroRoundTrip(s: string, p: nat)
    requires OccursAt(s, p, "0") && !ExtendsNumber(At(s, p + 1))
    ensures ParseNumber(s, p) == Some(Number(0.0, p + 1))
  {
    var parts := Parts("0", "", None);
    OccursChar(s, p, "0", 0);
    PartsAreAt(s, p, parts);
    StrtodOfParts(s, p, false, parts);
    assert Value("0" + "") == 0 by { LeadingZeros(0); assert "0" + Zeros(0) == "0" + ""; }
    hide Value, Ten, Strtod, Pow2, PartsAt, OccursAt;
  }

  /** Every finite double is read back from the text it is printed as, when what follows cannot extend it. */
  lemma NumberRoundTrip(s: string, p: nat, x: real)
    requires IsDouble(x)
    requires OccursAt(s, p, NumberText(x)) && !ExtendsNumber(At(s, p + |NumberText(x)|))
    ensures ParseNumber(s, p) == Some(Number(x, p + |NumberText(x)|))
  {
    hide IsDouble, OccursAt, ParseNumber, SeventeenDigits, PartsOf, Spelled, ExtendsNumber;
    if x == 0.0 {
      ZeroRoundTrip(s, p);
    } else if x < 0.0 {
      NegatedDouble(x);
      DoubleIsPrinted(-x);
      SignedRoundTrip(s, p, -x, true);
    } else {
      DoubleIsPrinted(x);
      assert "" + Spelled(PartsOf(SeventeenDigits(x))) == Spelled(PartsOf(SeventeenDigits(x)));
      SignedRoundTrip(s, p, x, false);
    }
  }

  // ---------------------------------------------------------------- what the texts look like

  predicate IsNumberChar(c: char) {
    IsDigit(c) || c == '-' || c == '+' || c == '.' || c == 'e'
  }

  ghost predicate AllNumberChars(t: string) {
    forall k :: 0 <= k < |t| ==> IsNumberChar(t[k])
  }

  lemma SpelledChars(parts: Parts)
    requires Readable(parts)
    ensures AllNumberChars(Spelled(parts)) && IsDigit(Spelled(parts)[0])
  {
    hide Value, DecimalDigits;
    assert AllNumberChars(FractionText(parts.fraction));
    assert AllNumberChars(ExponentText(parts.exponent));
  }

  /** The text is made of digits, signs, dots and "e", and starts with a digit or a minus sign. */
  lemma NumberChars(x: real)
    requires IsDouble(x)
    ensures AllNumberChars(NumberText(x)) && (IsDigit(NumberText(x)[0]) || NumberText(x)[0] == '-')
  {
    hide IsDouble, SeventeenDigits, PartsOf, Spelled, Ten;
    if x < 0.0 {
      NegatedDouble(x);
      DoubleIsPrinted(-x);
      SpelledChars(PartsOf(SeventeenDigits(-x)));
    } else if x > 0.0 {
      DoubleIsPrinted(x);
      SpelledChars(PartsOf(SeventeenDigits(x)));
    }
  }

  /** The number of digits tells the size of a number. */
  lemma {:induction false} DigitCount(n: nat, k: nat)
    requires k > 0
    ensures |DecimalDigits(n)| <= k <==> n < Tens(k)
    decreases k
  {
    if k == 1 {
      assert Tens(1) == 10;
    } else if n >= 10 {
      DigitCount(n / 10, k - 1);
    } else {
      assert Tens(k) >= 10;
    }
  }

  /** The most characters a double takes: a sign, seventeen digits, a dot, and an exponent of three digits. */
  const MAX_TEXT: nat := 24

  lemma TenIsMonotone(a: int, b: int)
    requires a <= b
    ensures Ten(a) <= Ten(b)
    decreases b - a
  {
    if a < b {
      TenGrows(b - 1);
      TenIsMonotone(a, b - 1);
    }
  }

  lemma AmountAtLeast(d: Digits)
    requires d.c > 0
    ensures Amount(d) >= Ten(d.e + |DecimalDigits(d.c)| - 1)
  {
    hide Ten, Tens, DecimalDigits;
    var n := |DecimalDigits(d.c)|;
    if n > 1 {
      DigitCount(d.c, n - 1);
    } else {
      assert Tens(0) == 1 by { OneIsTens(); }
    }
    TenAdds(d.e, n - 1);
    TimesMonotone(Tens(n - 1) as real, d.c as real, Ten(d.e));
  }

  lemma NineDoublings(e: int)
    ensures Pow2(e + 9) == 512.0 * Pow2(e)
  {
    hide Pow2;
    EightTimes(e);
    EightTimes(e + 3);
    EightTimes(e + 6);
  }

  lemma OverflowBelowTen()
    ensures OverflowLimit() <= Ten(342)
  {
    hide Pow2, Ten;
    NineDoublings(970);
    NineDoublings(979);
    NineDoublings(988);
    NineDoublings(997);
    NineDoublings(1006);
    NineDoublings(1015);
    Smaller(1024, 1026);
    TenBelowPow(342);
  }

  /** The exponent of the first digit of a printed number. */
  lemma PointIsSmall(x: real)
    requires IsDouble(x) && x >= Ten(LEAST)
    ensures var d := SeventeenDigits(x);
            |DecimalDigits(d.c)| <= 17 && -375 < d.e + |DecimalDigits(d.c)| - 1 < 342
  {
    hide Ten, Tens, DecimalDigits, Pow2, Near, IsDouble;
    var d := SeventeenDigits(x);
    var point := d.e + |DecimalDigits(d.c)| - 1;
    SeventeenAreNear(x);
    SixteenTens();
    TensGrows(16);
    DigitCount(d.c, 17);
    assert x > 0.0;
    NearIsBelowOverflow(x, Amount(d));
    OverflowBelowTen();
    AmountAtLeast(d);
    if point >= 342 { TenIsMonotone(342, point); }
  }

  lemma TensGrows(n: nat)
    ensures Tens(n + 1) == 10 * Tens(n)
  {
  }

  lemma PartsAreShort(d: Digits)
    requires d.c > 0 && |DecimalDigits(d.c)| <= 17 && -375 < d.e + |DecimalDigits(d.c)| - 1 < 342
    ensures |Spelled(PartsOf(d))| < MAX_TEXT
  {
    hide DecimalDigits;
    var point := d.e + |DecimalDigits(d.c)| - 1;
    var size := if point < 0 then -point else point;
    assert Tens(3) == 1000 && Tens(1) == 10;
    DigitCount(size, 1);
    DigitCount(size, 3);
  }

  /** The text of a double is no longer than that. */
  lemma NumberIsShort(x: real)
    requires IsDouble(x)
    ensures |NumberText(x)| <= MAX_TEXT
  {
    hide IsDouble, SeventeenDigits, PartsOf, Spelled, Ten, DecimalDigits;
    if x < 0.0 {
      NegatedDouble(x);
      DoubleIsPrinted(-x);
      PointIsSmall(-x);
      PartsAreShort(SeventeenDigits(-x));
    } else if x > 0.0 {
      DoubleIsPrinted(x);
      PointIsSmall(x);
      PartsAreShort(SeventeenDigits(x));
    }
  }

  // ---------------------------------------------------------------- whole numbers

  lemma {:induction false} ShiftedDigits(c: nat, e: nat)
    requires c > 0
    ensures DecimalDigits(c * Tens(e)) == DecimalDigits(c) + Zeros(e)
  {
    hide Tens;
    if e == 0 {
      assert Tens(0) == 1 by { OneIsTens(); }
    } else {
      TensTimes(c, e);
      ShiftedDigits(c, e - 1);
      TenTimesDigits(c * Tens(e - 1));
    }
  }

  lemma TensTimes(c: nat, e: nat)
    requires c > 0 && e > 0
    ensures c * Tens(e) == 10 * (c * Tens(e - 1)) > 0
  {
    var m := Tens(e - 1);
    assert c * (10 * m) == 10 * (c * m);
    assert c * m > 0;
  }

  lemma TenTimesDigits(n: nat)
    requires n > 0
    ensures DecimalDigits(10 * n) == DecimalDigits(n) + "0"
  {
  }

  lemma {:induction false} StrippedShifted(n: nat, k: nat)
    requires n > 0
    ensures n * Tens(k) > 0 && Stripped(n * Tens(k), 0 - k) == Stripped(n, 0)
  {
    hide Tens;
    if k == 0 {
      assert Tens(0) == 1 by { OneIsTens(); }
    } else {
      TensTimes(n, k);
      StrippedShifted(n, k - 1);
      TenTimesStripped(n * Tens(k - 1), 0 - k);
    }
  }

  lemma TenTimesStripped(c: nat, e: int)
    requires c > 0
    ensures Stripped(10 * c, e) == Stripped(c, e + 1)
  {
  }

  lemma {:induction false} StrippedWhole(n: nat, e: nat)
    requires n > 0
    ensures var d := Stripped(n, e); d.e >= e && n == d.c * Tens(d.e - e)
  {
    hide Tens;
    assert Tens(0) == 1 by { OneIsTens(); }
    if n % 10 == 0 {
      StrippedWhole(n / 10, e + 1);
      var d := Stripped(n, e);
      TensTimes(d.c, d.e - e);
    }
  }

  lemma WholeExponent(n: nat)
    requires 0 < n < Tens(16) && n as real >= Ten(LEAST)
    ensures 0 <= TenExponent(n as real, LEAST) < 16
  {
    hide Ten, Tens, TenExponent;
    var g := TenExponent(n as real, LEAST);
    TensIsTen(16);
    TensIsTen(0);
    assert Tens(0) == 1 by { OneIsTens(); }
    if g >= 16 { TenIsMonotone(16, g); }
    if g < 0 { TenIsMonotone(g + 1, 0); }
  }

  lemma WholeSeventeen(n: nat)
    requires 0 < n < Tens(16) && n as real >= Ten(LEAST)
    ensures SeventeenDigits(n as real) == Stripped(n, 0)
  {
    hide Ten, Tens, TenExponent, Stripped, Nearest;
    var x := n as real;
    var g := TenExponent(x, LEAST);
    WholeExponent(n);
    var k := 16 - g;
    var u := Ten(g - 16);
    TenAdds(g - 16, k);
    assert Ten(0) == 1.0 by { TensIsTen(0); OneIsTens(); }
    WholeInUnits(n, Tens(k), u);
    NearestWithin(x / u, n * Tens(k));
    StrippedShifted(n, k);
  }

  lemma WholeInUnits(n: nat, m: nat, u: real)
    requires u > 0.0 && m as real * u == 1.0
    ensures n as real / u == (n * m) as real
  {
    assert (n * m) as real == n as real * m as real;
    assert n as real == n as real * m as real * u;
    QuotientBy(n as real, (n * m) as real, u);
  }

  /** A whole number below 10^16 is printed with its digits. */
  lemma WholeText(n: nat)
    requires n < Tens(16) && IsDouble(n as real)
    ensures NumberText(n as real) == DecimalDigits(n)
  {
    hide IsDouble, Ten, Tens, SeventeenDigits, Stripped;
    if n > 0 {
      DoubleIsPrinted(n as real);
      WholeSeventeen(n);
      StrippedWhole(n, 0);
      var d := Stripped(n, 0);
      ShiftedDigits(d.c, d.e);
      DigitCount(n, 16);
    }
  }

  lemma WholeIsDouble(n: int)
    requires -MANTISSAS <= n <= MANTISSAS
    ensures IsDouble(n as real)
  {
    hide IsDouble;
    MultipleIsDouble(n, 0);
  }

  lemma WholeIsShort(n: nat)
    requires n < 100000 && IsDouble(n as real)
    ensures |NumberText(n as real)| <= 5
  {
    hide IsDouble, NumberText, DecimalDigits;
    SixteenTens();
    assert Tens(5) == 100000;
    WholeText(n);
    DigitCount(n, 5);
  }

  // ---------------------------------------------------------------- the form of a printed number

  /** No number of seventeen digits at most is nearer to `x` than `r`, which is one of them. */
  ghost predicate IsNearest(r: real, x: real) {
    && (exists d: Digits :: d.c < Tens(17) && Amount(d) == r)
    && forall d: Digits :: d.c < Tens(17) ==> Abs(r - x) <= Abs(Amount(d) - x)
  }

  lemma SeventeenTens()
    ensures Tens(17) == 10_0000_0000_0000_0000
  {
    SixteenTens();
    TensGrows(16);
  }

  /** A multiple of the unit is no nearer than the nearest one. */
  lemma MultipleIsNoNearer(x: real, u: real, n: int, r: real, k: int, a: real)
    requires u > 0.0 && n == Nearest(x / u) && r == n as real * u && a == k as real * u
    ensures Abs(r - x) <= Abs(a - x)
  {
    hide Nearest, Abs;
    var y := x / u;
    QuotientTimes(x, u);
    NearestIsNearest(y, k);
    DistanceInUnits(n as real, y, u, r, x);
    DistanceInUnits(k as real, y, u, a, x);
    AtMostTimes(Abs(n as real - y), Abs(k as real - y), u, Abs(r - x), Abs(a - x));
  }

  lemma AmountInUnits(d: Digits, g: int)
    requires d.e >= g
    ensures Amount(d) == (d.c * Tens(d.e - g)) as real * Ten(g)
  {
    hide Ten, Tens;
    TenAdds(g, d.e - g);
    var t := Tens(d.e - g);
    assert (d.c * t) as real == d.c as real * t as real;
    assert d.c as real * (t as real * Ten(g)) == d.c as real * t as real * Ten(g);
  }

  lemma ShortAmountIsBelow(d: Digits, g: int)
    requires d.c < Tens(17) && d.e + 17 <= g
    ensures Amount(d) <= Ten(g)
  {
    hide Ten, Tens;
    TenAdds(d.e, 17);
    AtMostTimes(d.c as real, Tens(17) as real, Ten(d.e), Amount(d), Ten(d.e + 17));
    TenIsMonotone(d.e + 17, g);
  }

  lemma NoneIsNearer(x: real, g: int, n: int, r: real, d: Digits)
    requires Ten(g) <= x < Ten(g + 1) && n == Nearest(x / Ten(g - 16)) && r == n as real * Ten(g - 16)
    requires d.c < Tens(17)
    ensures Abs(r - x) <= Abs(Amount(d) - x)
  {
    hide Ten, Tens, Nearest, Amount;
    if d.e >= g - 16 {
      AmountInUnits(d, g - 16);
      MultipleIsNoNearer(x, Ten(g - 16), n, r, d.c * Tens(d.e - (g - 16)), Amount(d));
    } else {
      ShortAmountIsBelow(d, g);
      SixteenTens();
      TenAdds(g - 16, 16);
      MultipleIsNoNearer(x, Ten(g - 16), n, r, 1_0000_0000_0000_0000, Ten(g));
    }
  }

  lemma SeventeenAreNearest(x: real)
    requires x >= Ten(LEAST)
    ensures IsNearest(Amount(SeventeenDigits(x)), x)
  {
    hide Ten, Tens, Nearest, Stripped, TenExponent, Amount, Abs;
    var d, g := SeventeenDigits(x), TenExponent(x, LEAST);
    SeventeenAreThere(x, g);
    var n := Nearest(x / Ten(g - 16));
    StrippedIsSame(n, g - 16);
    SeventeenTens();
    SeventeenAreNear(x);
    forall d': Digits | d'.c < Tens(17) ensures Abs(Amount(d) - x) <= Abs(Amount(d') - x) {
      NoneIsNearer(x, g, n, Amount(d), d');
    }
  }

  /** The text of a number without its sign: digits, digits behind a dot, and a signed power of ten. */
  ghost predicate IsWritten(t: string, whole: string, fraction: string, sign: string, power: string) {
    && t == whole + (if fraction == "" then "" else "." + fraction) + (if power == "" then "" else "e" + sign + power)
    && whole != "" && AllDigits(whole) && AllDigits(fraction) && AllDigits(power) && (sign == "+" || sign == "-")
  }

  function WrittenValue(whole: string, fraction: string, sign: string, power: string): real {
    Value(whole + fraction) as real * Ten((if sign == "-" then -Value(power) else Value(power)) - |fraction|)
  }

  /** No zero stands at the start of the digits before the dot, other than a single one with a fraction behind it, nor
      at the end of those behind it. There is a power exactly when the number is below 10^-4 or 10^17 at least; then
      one digit that is not 0 stands before the dot, and the power has two digits or more, as few as it can. */
  ghost predicate IsShort(whole: string, fraction: string, sign: string, power: string) {
    && whole != "" && (whole[0] == '0' ==> whole == "0" && fraction != "")
    && (fraction != "" ==> fraction[|fraction| - 1] != '0')
    && (power == "" <==> Ten(-4) <= WrittenValue(whole, fraction, sign, power) < Ten(17))
    && (power != "" ==> |whole| == 1 && whole[0] != '0' && |power| >= 2 && (|power| > 2 ==> power[0] != '0'))
  }

  /** What "%1.17g" makes of a positive number: the nearest seventeen digits at most, in the shortest form. */
  ghost predicate IsPrinted(t: string, x: real) {
    exists whole, fraction, sign, power ::
      && IsWritten(t, whole, fraction, sign, power)
      && IsShort(whole, fraction, sign, power)
      && IsNearest(WrittenValue(whole, fraction, sign, power), x)
  }

  /** The size of a number by the place of its first digit. */
  lemma PointTellsSize(d: Digits, k: int)
    requires d.c > 0
    ensures Amount(d) < Ten(k) <==> d.e + |DecimalDigits(d.c)| <= k
  {
    hide Ten, Tens, DecimalDigits;
    var n := |DecimalDigits(d.c)|;
    DigitCount(d.c, n);
    TenAdds(d.e, n);
    BelowTimes(d.c as real, Tens(n) as real, Ten(d.e), Amount(d), Ten(d.e + n));
    AmountAtLeast(d);
    if d.e + n <= k {
      TenIsMonotone(d.e + n, k);
    } else {
      TenIsMonotone(k, d.e + n - 1);
    }
  }

  lemma LastDigit(n: nat)
    ensures var t := DecimalDigits(n); t[|t| - 1] == ('0' as int + n % 10) as char
  {
  }

  lemma PowerIsShort(e: nat)
    ensures var t := ExponentDigits(e);
            AllDigits(t) && |t| >= 2 && (|t| > 2 ==> t[0] != '0') && Value(t) == e
  {
    hide Value, DecimalDigits;
    ExponentValue(e);
    assert e >= 10 ==> |DecimalDigits(e)| >= 2 by { assert Tens(1) == 10; DigitCount(e, 1); }
    assert e < 10 ==> |DecimalDigits(e)| <= 1 by { assert Tens(1) == 10; DigitCount(e, 1); }
  }

  function SignOf(exponent: Option<int>): string {
    if exponent.Some? && exponent.value < 0 then "-" else "+"
  }

  function PowerOf(exponent: Option<int>): string {
    if exponent.None? then "" else ExponentDigits(if exponent.value < 0 then -exponent.value else exponent.value)
  }

  lemma PartsAreWritten(parts: Parts)
    requires Readable(parts)
    ensures IsWritten(Spelled(parts), parts.whole, parts.fraction, SignOf(parts.exponent), PowerOf(parts.exponent))
    ensures WrittenValue(parts.whole, parts.fraction, SignOf(parts.exponent), PowerOf(parts.exponent)) == Denotes(parts)
  {
    hide Value, ExponentDigits, Ten, AllDigits;
    assert AllDigits("") && Value("") == 0 by { NothingIsZero(); }
    if parts.exponent.Some? {
      var e := parts.exponent.value;
      PowerIsShort(if e < 0 then -e else e);
    }
  }

  lemma NothingIsZero()
    ensures AllDigits("") && Value("") == 0
  {
  }

  lemma PartsAreInShortForm(d: Digits)
    requires d.c > 0 && d.c % 10 != 0
    ensures var parts := PartsOf(d);
            IsShort(parts.whole, parts.fraction, SignOf(parts.exponent), PowerOf(parts.exponent))
  {
    hide Value, DecimalDigits, Ten, Amount, ExponentDigits, WrittenValue;
    var parts := PartsOf(d);
    PartsAreWritten(parts);
    PartsDenote(d);
    PointTellsSize(d, -4);
    PointTellsSize(d, 17);
    LastDigit(d.c);
    if parts.exponent.Some? {
      var e := parts.exponent.value;
      PowerIsShort(if e < 0 then -e else e);
    }
  }

  /** A positive double is printed as its seventeen nearest digits in the shortest form. */
  lemma NumberIsPrinted(x: real)
    requires IsDouble(x) && x > 0.0
    ensures IsPrinted(NumberText(x), x)
  {
    hide IsDouble, Ten, SeventeenDigits, PartsOf, Spelled, IsShort, IsWritten, IsNearest, WrittenValue, Amount;
    DoubleIsPrinted(x);
    var d := SeventeenDigits(x);
    var parts := PartsOf(d);
    assert d.c % 10 != 0 by { SeventeenEndInNoZero(x); }
    SeventeenAreNearest(x);
    PartsAreInShortForm(d);
    PartsAreWritten(parts);
    PartsDenote(d);
  }

  /** A negative one is printed as its opposite behind a minus sign. */
  lemma NegativeIsPrinted(x: real, y: real)
    requires IsDouble(x) && IsDouble(y) && x > 0.0 && y == -x
    ensures NumberText(y) == "-" + NumberText(x)
  {
    hide IsDouble, Ten, SeventeenDigits, PartsOf, Spelled;
    assert -y == x;
  }

  lemma SeventeenEndInNoZero(x: real)
    requires x >= Ten(LEAST)
    ensures SeventeenDigits(x).c % 10 != 0
  {
  }
}
