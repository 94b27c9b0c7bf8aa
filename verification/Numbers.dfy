/** Numbers in JSON text: strtod, and the checks of the parser around it. */
module Numeral {
  import opened CString
  import opened Doubles
  import opened Options

  function Tens(e: nat): (n: nat)
    ensures n > 0
  {
    if e == 0 then 1 else 10 * Tens(e - 1)
  }

  /** Ten to the `e`. */
  function Ten(e: int): (r: real)
    ensures r > 0.0
    decreases if e < 0 then -e else e
  {
    if e == 0 then 1.0 else if e > 0 then 10.0 * Ten(e - 1) else Ten(e + 1) / 10.0
  }

  predicate IsDigit(c: char) {
    '0' <= c <= '9'
  }

  predicate IsHex(c: char) {
    IsDigit(c) || 'a' <= c <= 'f' || 'A' <= c <= 'F'
  }

  /** The end of the run of digits from `p` on. */
  function DigitsEnd(s: string, p: nat): (q: nat)
    ensures p <= q && (p <= |s| ==> q <= |s|)
    ensures forall k :: p <= k < q ==> IsDigit(At(s, k))
    ensures !IsDigit(At(s, q))
    decreases |s| - p
  {
    if IsDigit(At(s, p)) then DigitsEnd(s, p + 1) else p
  }

  /** The number that the characters from `p` to `q` spell in base ten. */
  function DigitsValue(s: string, p: nat, q: nat): int
    decreases q - p
  {
    if q <= p then 0 else 10 * DigitsValue(s, p, q - 1) + (At(s, q - 1) as int - '0' as int)
  }

  /** What strtod makes of a text. */
  datatype Scanned =
    | NoConversion
    | NotDecimal
    | Decimal(value: real, next: nat)

  // The parts of a numeral at `p`: where the digits before and behind the dot and those of the exponent stand.

  function WholeStart(s: string, p: nat): nat {
    if At(s, p) == '-' then p + 1 else p
  }

  function WholeEnd(s: string, p: nat): (q: nat)
    ensures p <= WholeStart(s, p) <= q && (p <= |s| ==> q <= |s|)
  {
    DigitsEnd(s, WholeStart(s, p))
  }

  function FractionEnd(s: string, p: nat): (q: nat)
    ensures WholeEnd(s, p) <= q && (p <= |s| ==> q <= |s|)
  {
    var dot := WholeEnd(s, p);
    if At(s, dot) == '.' then DigitsEnd(s, dot + 1) else dot
  }

  function ExponentStart(s: string, p: nat): (q: nat)
    ensures FractionEnd(s, p) < q
  {
    var e := FractionEnd(s, p);
    if At(s, e + 1) == '-' || At(s, e + 1) == '+' then e + 2 else e + 1
  }

  predicate AnyDigits(s: string, p: nat) {
    WholeStart(s, p) < WholeEnd(s, p) || WholeEnd(s, p) + 1 < FractionEnd(s, p)
  }

  predicate HasExponent(s: string, p: nat) {
    IsLetter(At(s, FractionEnd(s, p)), 'e') && IsDigit(At(s, ExponentStart(s, p)))
  }

  function NumeralEnd(s: string, p: nat): (q: nat)
    ensures FractionEnd(s, p) <= q && (p <= |s| ==> q <= |s|)
  {
    if HasExponent(s, p) then DigitsEnd(s, ExponentStart(s, p)) else FractionEnd(s, p)
  }

  /** The digits before and behind the dot as one number. */
  function Mantissa(s: string, p: nat): int {
    var dot, end := WholeEnd(s, p), FractionEnd(s, p);
    if At(s, dot) != '.' then DigitsValue(s, WholeStart(s, p), dot)
    else DigitsValue(s, WholeStart(s, p), dot) * Tens(end - dot - 1) + DigitsValue(s, dot + 1, end)
  }

  /** The power of ten the mantissa is to be taken with. */
  function Exponent(s: string, p: nat): int {
    var e := if HasExponent(s, p) then DigitsValue(s, ExponentStart(s, p), NumeralEnd(s, p)) else 0;
    var places := if At(s, WholeEnd(s, p)) == '.' then FractionEnd(s, p) - WholeEnd(s, p) - 1 else 0;
    (if At(s, FractionEnd(s, p) + 1) == '-' then -e else e) - places
  }

  /** The span strtod takes at `p` and the number it denotes, before rounding. Hexadecimal numerals, infinities and
      NaNs are `NotDecimal`: the caller rejects all of them. */
  function Strtod(s: string, p: nat): (r: Scanned)
    ensures r.Decimal? ==> p < r.next && (p <= |s| ==> r.next <= |s|)
  {
    if IsHexNumeral(s, WholeStart(s, p)) || IsNotFinite(s, WholeStart(s, p)) then NotDecimal
    else if !AnyDigits(s, p) then NoConversion
    else
      var value := Mantissa(s, p) as real * Ten(Exponent(s, p));
      Decimal(if At(s, p) == '-' then -value else value, NumeralEnd(s, p))
  }

  lemma NumeralHasNoNul(s: string, p: nat)
    ensures forall k :: p <= k < NumeralEnd(s, p) ==> At(s, k) != '\0'
  {
  }

  predicate IsHexNumeral(s: string, q: nat) {
    && At(s, q) == '0'
    && IsLetter(At(s, q + 1), 'x')
    && (IsHex(At(s, q + 2)) || (At(s, q + 2) == '.' && IsHex(At(s, q + 3))))
  }

  predicate IsNotFinite(s: string, q: nat) {
    || (IsLetter(At(s, q), 'i') && IsLetter(At(s, q + 1), 'n') && IsLetter(At(s, q + 2), 'f'))
    || (IsLetter(At(s, q), 'n') && IsLetter(At(s, q + 1), 'a') && IsLetter(At(s, q + 2), 'n'))
  }

  /** `c` is the letter `lower` in either case. */
  predicate IsLetter(c: char, lower: char) {
    c == lower || c as int + 0x20 == lower as int
  }

  /** is_decimal: no superfluous leading zero. */
  predicate IsDecimal(s: string, p: nat, q: nat)
    requires p <= q
  {
    && !(q - p > 1 && At(s, p) == '0' && At(s, p + 1) != '.')
    && !(q - p > 2 && At(s, p) == '-' && At(s, p + 1) == '0' && At(s, p + 2) != '.')
  }

  datatype Number = Number(value: real, next: nat)

  /** Whether strtod sets errno to EINVAL when it converts nothing. POSIX leaves that open: musl does, glibc does
      not. */
  const STRTOD_SETS_EINVAL: bool

  /** parse_number_value: the double nearest to the numeral, unless that would be infinite. Where strtod converts
      nothing, that is an error if errno says so; otherwise the value is 0 and the cursor stays. */
  function ParseNumber(s: string, p: nat): (r: Option<Number>)
    ensures r.Some? ==> p <= r.value.next && (p <= |s| ==> r.value.next <= |s|)
    ensures r.Some? ==> (r.value.next == p <==> Strtod(s, p).NoConversion?)
    ensures r.Some? ==> forall k :: p <= k < r.value.next ==> At(s, k) != '\0'
  {
    NumeralHasNoNul(s, p);
    match Strtod(s, p)
    case NotDecimal => None
    case NoConversion => if STRTOD_SETS_EINVAL then None else Some(Number(0.0, p))
    case Decimal(x, q) =>
      if x <= -OverflowLimit() || x >= OverflowLimit() then None
      else if !IsDecimal(s, p, q) then None
      else Some(Number(Round(x), q))
  }

  /** What is parsed is a double. */
  lemma ParsedNumberIsDouble(s: string, p: nat)
    requires ParseNumber(s, p).Some?
    ensures IsDouble(ParseNumber(s, p).value.value)
  {
    hide Strtod, IsDouble, Round, OverflowLimit, Pow2;
    match Strtod(s, p)
    case NoConversion => MultipleIsDouble(0, 0);
    case Decimal(x, _) => RoundIsDouble(x);
  }
}
