/** The numbers a double can hold, and rounding to the nearest of them. */
module Doubles {
  const MANTISSAS: int := 0x20_0000_0000_0000

  function Pow2(e: int): (r: real)
    ensures r > 0.0
    decreases if e < 0 then -e else e
  {
    if e == 0 then 1.0 else if e > 0 then 2.0 * Pow2(e - 1) else Pow2(e + 1) / 2.0
  }

  /** A finite double: a mantissa of 53 bits times a power of two. */
  ghost predicate IsDouble(x: real) {
    exists m, e :: HasDigits(x, m, e)
  }

  ghost predicate HasDigits(x: real, m: int, e: int) {
    -MANTISSAS < m < MANTISSAS && -1074 <= e <= 971 && x == m as real * Pow2(e)
  }

  /** A rounding keeps order and sign, and doubles as they are. */
  ghost predicate Rounding(round: real -> real) {
    (forall x, y :: x <= y ==> round(x) <= round(y)) &&
    (forall x :: round(-x) == -round(x)) &&
    (forall x :: IsDouble(x) ==> round(x) == x)
  }

  function Abs(x: real): real {
    if x < 0.0 then -x else x
  }

  lemma {:induction false} Doubling(e: int)
    ensures Pow2(e + 1) == 2.0 * Pow2(e)
  {
  }

  lemma {:induction false} Smaller(e: int, g: int)
    requires e < g
    ensures 2.0 * Pow2(e) <= Pow2(g)
    decreases g - e
  {
    Doubling(e);
    if e + 1 < g {
      Smaller(e + 1, g);
    }
  }

  lemma {:induction false} Multiple(e: int, g: int) returns (k: int)
    requires g <= e
    ensures Pow2(e) == k as real * Pow2(g)
    decreases e - g
  {
    if e == g { return 1; }
    Doubling(e - 1);
    var half := Multiple(e - 1, g);
    k := 2 * half;
    assert k as real == 2.0 * half as real;
  }

  lemma MultipleIsDouble(n: int, g: int)
    requires -MANTISSAS <= n <= MANTISSAS && -1074 <= g < 971
    ensures IsDouble(n as real * Pow2(g))
  {
    var x := n as real * Pow2(g);
    if n == MANTISSAS || n == -MANTISSAS {
      Doubling(g);
      assert n as real == 2.0 * (n / 2) as real;
      assert HasDigits(x, n / 2, g + 1);
    } else {
      assert HasDigits(x, n, g);
    }
  }

  /** Doubles from 2^52 units on are whole multiples of the unit. */
  lemma OnGrid(x: real, g: int) returns (n: int)
    requires IsDouble(x) && Abs(x) >= 4503599627370496.0 * Pow2(g)
    ensures x == n as real * Pow2(g)
  {
    hide Pow2;
    var m, e :| HasDigits(x, m, e);
    ExponentAtLeast(x, m, e, g);
    var k := Multiple(e, g);
    n := m * k;
    ProductOfWholes(m, k, Pow2(g));
  }

  lemma ExponentAtLeast(x: real, m: int, e: int, g: int)
    requires HasDigits(x, m, e) && Abs(x) >= 4503599627370496.0 * Pow2(g)
    ensures e >= g
  {
    hide Pow2;
    if e < g {
      Smaller(e, g);
      SmallProduct(m, Pow2(e));
    }
  }

  lemma SmallProduct(m: int, u: real)
    requires -MANTISSAS < m < MANTISSAS && u > 0.0
    ensures Abs(m as real * u) < 9007199254740992.0 * u
  {
    LessTimes(m as real, 9007199254740992.0, u);
    LessTimes(-9007199254740992.0, m as real, u);
  }

  lemma LessTimes(a: real, b: real, u: real)
    requires a < b && u > 0.0
    ensures a * u < b * u
  {
    assert (b - a) * u > 0.0;
  }

  lemma ProductOfWholes(m: int, k: int, u: real)
    ensures m as real * (k as real * u) == (m * k) as real * u
  {
    assert (m * k) as real == m as real * k as real;
  }

  lemma NegatedDouble(x: real)
    requires IsDouble(x)
    ensures IsDouble(-x)
  {
    hide Pow2;
    var m, e :| HasDigits(x, m, e);
    assert (-m) as real * Pow2(e) == -(m as real * Pow2(e));
    assert HasDigits(-x, -m, e);
  }

  // ---------------------------------------------------------------- rounding to nearest

  const MIN_EXPONENT: int := -1074
  const MAX_EXPONENT: int := 971
  const TWO52: real := 4503599627370496.0
  const TWO53: real := 9007199254740992.0

  /** The nearest whole number, and of two the even one. */
  function Nearest(y: real): (n: int)
    ensures -0.5 <= y - n as real <= 0.5
  {
    var rest := y - y.Floor as real;
    if rest < 0.5 || (rest == 0.5 && y.Floor % 2 == 0) then y.Floor else y.Floor + 1
  }

  lemma NearestWithin(y: real, n: int)
    requires Abs(y - n as real) < 0.5
    ensures Nearest(y) == n
  {
  }

  lemma NearestIsMonotone(y: real, z: real)
    requires y <= z
    ensures Nearest(y) <= Nearest(z)
  {
  }

  /** The exponent of the unit a positive number is rounded to, from `e` on: the number has at most 53 bits before
      the unit, and 53 where the exponent is not the least one. */
  function UnitExponent(x: real, e: int): (g: int)
    requires x > 0.0 && (e == MIN_EXPONENT || x >= TWO52 * Pow2(e))
    ensures e <= g && x < TWO53 * Pow2(g) && (g == MIN_EXPONENT || x >= TWO52 * Pow2(g))
    decreases (x / Pow2(e)).Floor
  {
    if x < TWO53 * Pow2(e) then e
    else
      UnitHalves(x, e);
      UnitExponent(x, e + 1)
  }

  lemma UnitHalves(x: real, e: int)
    requires x >= TWO53 * Pow2(e)
    ensures 0 <= (x / Pow2(e + 1)).Floor < (x / Pow2(e)).Floor && x >= TWO52 * Pow2(e + 1)
  {
    hide Pow2;
    Doubling(e);
    var y, u := x / Pow2(e), Pow2(e);
    assert x == y * u;
    assert y >= TWO53 by { if y < TWO53 { LessTimes(y, TWO53, u); } }
    assert x / Pow2(e + 1) == y / 2.0 by { QuotientBy(x, y / 2.0, Pow2(e + 1)); }
  }

  lemma QuotientBy(x: real, y: real, u: real)
    requires u > 0.0 && x == y * u
    ensures x / u == y
  {
    var z := x / u;
    assert z * u == x;
    if z < y { LessTimes(z, y, u); }
    if y < z { LessTimes(y, z, u); }
  }

  function Unit(x: real): (u: real)
    requires x > 0.0
    ensures u > 0.0
  {
    Pow2(UnitExponent(x, MIN_EXPONENT))
  }

  /** The nearest multiple of a unit. */
  function RoundTo(x: real, u: real): real
    requires u > 0.0
  {
    Nearest(x / u) as real * u
  }

  /** Rounding to the nearest double, and of two to the one with the even mantissa, for numbers that do not round
      to an infinity. */
  function Round(x: real): real
    decreases x < 0.0
  {
    if x == 0.0 then 0.0
    else if x < 0.0 then -Round(-x)
    else RoundTo(x, Unit(x))
  }

  /** The same with the products named. */
  lemma AtMostTimes(a: real, b: real, u: real, x: real, y: real)
    requires a <= b && u > 0.0 && x == a * u && y == b * u
    ensures x <= y
  {
    TimesMonotone(a, b, u);
  }

  lemma BelowTimes(a: real, b: real, u: real, x: real, y: real)
    requires a < b && u > 0.0 && x == a * u && y == b * u
    ensures x < y
  {
    LessTimes(a, b, u);
  }

  lemma QuotientTimes(x: real, u: real)
    requires u > 0.0
    ensures x == x / u * u
  {
  }

  lemma TimesMonotone(a: real, b: real, u: real)
    requires a <= b && u > 0.0
    ensures a * u <= b * u
  {
    assert (b - a) * u >= 0.0;
  }

  lemma QuotientIsWithin(x: real, u: real, low: real, high: real)
    requires u > 0.0 && low * u <= x < high * u
    ensures low <= x / u < high && x == x / u * u
  {
    var y := x / u;
    assert x == y * u;
    if y < low { LessTimes(y, low, u); }
    if y >= high { TimesMonotone(high, y, u); }
  }

  /** The bits before the unit. */
  function Low(x: real): real
    requires x > 0.0
  {
    if UnitExponent(x, MIN_EXPONENT) == MIN_EXPONENT then 0.0 else TWO52
  }

  /** A positive number in its units. */
  lemma InUnits(x: real)
    requires x > 0.0
    ensures Low(x) <= x / Unit(x) < TWO53 && x == x / Unit(x) * Unit(x)
  {
    hide Pow2;
    QuotientIsWithin(x, Unit(x), Low(x), TWO53);
  }

  lemma RoundToBounds(x: real, u: real, low: int, high: int)
    requires u > 0.0 && low as real <= x / u < high as real
    ensures low as real * u <= RoundTo(x, u) <= high as real * u
  {
    hide Nearest;
    NearestBetween(x / u, low, high);
    TimesMonotone(low as real, Nearest(x / u) as real, u);
    TimesMonotone(Nearest(x / u) as real, high as real, u);
  }

  lemma NearestBetween(y: real, low: int, high: int)
    requires low as real <= y < high as real
    ensures low <= Nearest(y) <= high
  {
  }

  lemma RoundBounds(x: real)
    requires x > 0.0
    ensures Low(x) * Unit(x) <= Round(x) <= TWO53 * Unit(x)
  {
    hide RoundTo, Unit, UnitExponent;
    InUnits(x);
    RoundToBounds(x, Unit(x), if Low(x) == 0.0 then 0 else 4503599627370496, 9007199254740992);
  }

  lemma UnitIsPower(x: real)
    requires x > 0.0
    ensures Unit(x) == Pow2(UnitExponent(x, MIN_EXPONENT))
  {
  }

  lemma RoundIsMonotoneAbove(x: real, y: real)
    requires 0.0 < x <= y
    ensures Round(x) <= Round(y)
  {
    hide RoundTo, Unit, Low;
    var g, h := UnitExponent(x, MIN_EXPONENT), UnitExponent(y, MIN_EXPONENT);
    if g == h {
      assert Unit(x) == Unit(y) by { UnitIsPower(x); UnitIsPower(y); }
      RoundInSameUnit(x, y, Unit(x));
    } else {
      UnitGrows(x, y);
      RoundBounds(x);
      RoundBounds(y);
    }
  }

  lemma RoundInSameUnit(x: real, y: real, u: real)
    requires x <= y && u > 0.0
    ensures RoundTo(x, u) <= RoundTo(y, u)
  {
    hide Nearest;
    QuotientIsMonotone(x, y, u);
    NearestIsMonotone(x / u, y / u);
    TimesMonotone(Nearest(x / u) as real, Nearest(y / u) as real, u);
  }

  lemma QuotientIsMonotone(x: real, y: real, u: real)
    requires x <= y && u > 0.0
    ensures x / u <= y / u
  {
    var a, b := x / u, y / u;
    assert a * u == x && b * u == y;
    if a > b { LessTimes(b, a, u); }
  }

  lemma UnitGrows(x: real, y: real)
    requires 0.0 < x <= y && UnitExponent(x, MIN_EXPONENT) != UnitExponent(y, MIN_EXPONENT)
    ensures TWO53 * Unit(x) <= Low(y) * Unit(y)
  {
    hide Pow2;
    var g, h := UnitExponent(x, MIN_EXPONENT), UnitExponent(y, MIN_EXPONENT);
    if g < h {
      Smaller(g, h);
    } else {
      Smaller(h, g);
      assert false;
    }
  }

  /** Rounding to nearest keeps order. */
  lemma RoundIsMonotone(x: real, y: real)
    requires x <= y
    ensures Round(x) <= Round(y)
  {
    hide RoundTo, Unit;
    if x > 0.0 {
      RoundIsMonotoneAbove(x, y);
    } else if y < 0.0 {
      RoundIsMonotoneAbove(-y, -x);
    } else {
      if x < 0.0 { RoundKeepsSign(-x); }
      if y > 0.0 { RoundKeepsSign(y); }
    }
  }

  lemma RoundKeepsSign(x: real)
    requires x > 0.0
    ensures Round(x) >= 0.0
  {
    hide Unit, Round;
    RoundBounds(x);
    TimesMonotone(0.0, Low(x), Unit(x));
  }

  lemma RoundAt(x: real, n: int)
    requires x > 0.0 && Abs(x / Unit(x) - n as real) < 0.5
    ensures Round(x) == n as real * Unit(x)
  {
    hide Nearest, Unit;
    NearestWithin(x / Unit(x), n);
  }

  /** A double is a whole number of its units. */
  lemma DoubleInUnits(x: real) returns (n: int)
    requires IsDouble(x) && x > 0.0
    ensures x == n as real * Unit(x) && x / Unit(x) == n as real
  {
    hide Pow2, UnitExponent;
    var g := UnitExponent(x, MIN_EXPONENT);
    if g == MIN_EXPONENT {
      var m, e :| HasDigits(x, m, e);
      var k := Multiple(e, g);
      n := m * k;
      ProductOfWholes(m, k, Pow2(g));
    } else {
      n := OnGrid(x, g);
    }
    QuotientBy(x, n as real, Unit(x));
  }

  /** A double is rounded to itself. */
  lemma RoundFixesDoubles(x: real)
    requires IsDouble(x)
    ensures Round(x) == x
  {
    hide IsDouble, Unit;
    if x > 0.0 {
      var n := DoubleInUnits(x);
      RoundAt(x, n);
    } else if x < 0.0 {
      NegatedDouble(x);
      var n := DoubleInUnits(-x);
      RoundAt(-x, n);
    }
  }

  lemma RoundIsRounding()
    ensures Rounding(Round)
  {
    hide Round, IsDouble;
    forall x, y | x <= y ensures Round(x) <= Round(y) {
      RoundIsMonotone(x, y);
    }
    forall x ensures Round(-x) == -Round(x) {
      RoundIsOdd(x);
    }
    forall x | IsDouble(x) ensures Round(x) == x {
      RoundFixesDoubles(x);
    }
  }

  lemma RoundIsOdd(x: real)
    ensures Round(-x) == -Round(x)
  {
  }

  // ---------------------------------------------------------------- what rounding to nearest finds

  lemma NearestIsNearest(y: real, k: int)
    ensures Abs(Nearest(y) as real - y) <= Abs(k as real - y)
  {
    hide Nearest;
    var n := Nearest(y);
    if k < n {
      assert k as real <= n as real - 1.0;
    } else if k > n {
      assert k as real >= n as real + 1.0;
    }
  }

  lemma RoundToIsNearest(x: real, u: real, k: int, z: real)
    requires u > 0.0 && z == k as real * u
    ensures Abs(RoundTo(x, u) - x) <= Abs(z - x)
  {
    hide Nearest, Abs;
    var y := x / u;
    NearestIsNearest(y, k);
    DistanceInUnits(Nearest(y) as real, y, u, RoundTo(x, u), x);
    DistanceInUnits(k as real, y, u, z, x);
    TimesMonotone(Abs(Nearest(y) as real - y), Abs(k as real - y), u);
  }

  lemma DistanceInUnits(a: real, b: real, u: real, x: real, y: real)
    requires u > 0.0 && x == a * u && y == b * u
    ensures Abs(x - y) == Abs(a - b) * u
  {
    assert x - y == (a - b) * u;
    if a < b { LessTimes(a, b, u); } else { TimesMonotone(b, a, u); }
  }

  /** No double is nearer than the one a number is rounded to. */
  lemma RoundFindsNearest(x: real, z: real)
    requires IsDouble(z)
    ensures Abs(Round(x) - x) <= Abs(z - x)
    decreases x < 0.0
  {
    hide Unit, RoundTo, IsDouble, UnitExponent, Low;
    if x < 0.0 {
      NegatedDouble(z);
      RoundFindsNearest(-x, -z);
      RoundIsOdd(x);
    } else if x > 0.0 {
      RoundFindsNearestAbove(x, z);
    }
  }

  lemma RoundFindsNearestAbove(x: real, z: real)
    requires x > 0.0 && IsDouble(z)
    ensures Abs(Round(x) - x) <= Abs(z - x)
  {
    hide Unit, RoundTo, IsDouble, UnitExponent, Low, Abs;
    if z > 0.0 && z >= Low(x) * Unit(x) {
      var k := WholeUnits(x, z);
      RoundToIsNearest(x, Unit(x), k, z);
    } else {
      FartherBelow(x, z);
    }
  }

  lemma WholeUnits(x: real, z: real) returns (k: int)
    requires x > 0.0 && z > 0.0 && IsDouble(z) && z >= Low(x) * Unit(x)
    ensures z == k as real * Unit(x)
  {
    hide Pow2;
    var g := UnitExponent(x, MIN_EXPONENT);
    if g == MIN_EXPONENT {
      var m, e :| HasDigits(z, m, e);
      var n := Multiple(e, g);
      k := m * n;
      ProductOfWholes(m, n, Pow2(g));
    } else {
      k := OnGrid(z, g);
    }
  }

  lemma FartherBelow(x: real, z: real)
    requires x > 0.0 && (z <= 0.0 || z < Low(x) * Unit(x))
    ensures Abs(Round(x) - x) <= Abs(z - x)
  {
    hide Unit, RoundTo, UnitExponent, Abs;
    var low := if Low(x) == 0.0 then 0 else 4503599627370496;
    var r := Low(x) * Unit(x);
    InUnits(x);
    FartherThanMultiple(x, z, Unit(x), low, x / Unit(x), r);
    RoundToIsNearest(x, Unit(x), low, r);
  }

  lemma FartherThanMultiple(x: real, z: real, u: real, low: nat, y: real, r: real)
    requires u > 0.0 && x == y * u && low as real <= y && r == low as real * u && (z <= 0.0 || z < r)
    ensures Abs(r - x) <= Abs(z - x)
  {
    AtMostTimes(low as real, y, u, r, x);
    AtMostTimes(0.0, low as real, u, 0.0, r);
  }

  /** The least number that rounds to an infinity. */
  function OverflowLimit(): real {
    Pow2(970) * 18014398509481983.0
  }

  lemma UnitBelowOverflow(x: real)
    requires 0.0 < x < OverflowLimit()
    ensures UnitExponent(x, MIN_EXPONENT) <= MAX_EXPONENT
  {
    hide Pow2;
    var g := UnitExponent(x, MIN_EXPONENT);
    if g > MAX_EXPONENT {
      Doubling(970);
      Smaller(971, g);
    }
  }

  lemma FullMantissa(x: real)
    requires 0.0 < x < OverflowLimit() && UnitExponent(x, MIN_EXPONENT) == MAX_EXPONENT
    ensures Nearest(x / Unit(x)) < MANTISSAS
  {
    hide Pow2;
    Doubling(970);
    QuotientIsWithin(x, Unit(x), 0.0, 18014398509481983.0 / 2.0);
  }

  /** Numbers that do not overflow are rounded to doubles. */
  lemma RoundIsDouble(x: real)
    requires Abs(x) < OverflowLimit()
    ensures IsDouble(Round(x))
  {
    hide IsDouble, OverflowLimit, Unit;
    if x > 0.0 {
      RoundAboveIsDouble(x);
    } else if x < 0.0 {
      RoundAboveIsDouble(-x);
      NegatedDouble(Round(-x));
    } else {
      MultipleIsDouble(0, 0);
    }
  }

  lemma DigitsMakeDouble(x: real, m: int, e: int)
    requires HasDigits(x, m, e)
    ensures IsDouble(x)
  {
  }

  lemma RoundedDigits(x: real)
    requires 0.0 < x < OverflowLimit()
    ensures var n, g := Nearest(x / Unit(x)), UnitExponent(x, MIN_EXPONENT);
            && Round(x) == n as real * Pow2(g)
            && (HasDigits(Round(x), n, g) <==> n < MANTISSAS)
  {
    hide Nearest, Pow2, OverflowLimit;
    UnitBelowOverflow(x);
    InUnits(x);
    NearestBetween(x / Unit(x), 0, MANTISSAS);
  }

  lemma RoundAboveIsDouble(x: real)
    requires 0.0 < x < OverflowLimit()
    ensures IsDouble(Round(x))
  {
    hide IsDouble, OverflowLimit, Nearest, Pow2, UnitExponent, HasDigits;
    UnitBelowOverflow(x);
    InUnits(x);
    var n, g := Nearest(x / Unit(x)), UnitExponent(x, MIN_EXPONENT);
    RoundedDigits(x);
    NearestBetween(x / Unit(x), 0, MANTISSAS);
    if g == MAX_EXPONENT {
      FullMantissa(x);
      DigitsMakeDouble(Round(x), n, g);
    } else {
      MultipleIsDouble(n, g);
    }
  }

  // ---------------------------------------------------------------- seventeen digits are enough

  /** Twice ten to the sixteenth. */
  const PRECISION: real := 20000000000000000.0

  /** `d` differs from `x` by at most one part in 2 * 10^16. */
  predicate Near(d: real, x: real) {
    Abs(d - x) * PRECISION <= x
  }

  lemma NearInUnits(x: real, d: real, n: int, u: real)
    requires u > 0.0 && x == n as real * u && Near(d, x)
    ensures Near(d / u, n as real)
  {
    hide Abs;
    QuotientTimes(d, u);
    DistanceInUnits(d / u, n as real, u, d, x);
    GapInUnits(Abs(d / u - n as real), n as real, u, Abs(d - x), x);
  }

  lemma GapInUnits(gap: real, k: real, u: real, distance: real, x: real)
    requires u > 0.0 && distance == gap * u && x == k * u && distance * PRECISION <= x
    ensures gap * PRECISION <= k
  {
    if gap * PRECISION > k {
      BelowTimes(k, gap * PRECISION, u, x, distance * PRECISION);
      assert false;
    }
  }

  /** A number that is near a double lies in the unit of that double, or below the power of two that the double is,
      where units are half as large. */
  lemma UnitOfNear(x: real, d: real, n: int)
    requires x > 0.0 && x == n as real * Unit(x) && Near(d, x) && d > 0.0
    ensures Unit(d) == Unit(x) || (n == 4503599627370496 && Unit(x) == 2.0 * Unit(d))
  {
    hide Pow2, Near;
    var g, h := UnitExponent(x, MIN_EXPONENT), UnitExponent(d, MIN_EXPONENT);
    if h > g {
      NearIsBelow(x, d, n);
      Smaller(g, h);
      assert false;
    } else if h < g {
      Smaller(h, g);
      NearPowerOfTwo(x, d, n);
      if h < g - 1 {
        Smaller(h, g - 1);
        Doubling(g - 1);
        assert false;
      }
      Doubling(h);
    }
  }

  lemma NearIsBelow(x: real, d: real, n: int)
    requires x > 0.0 && x == n as real * Unit(x) && Near(d, x)
    ensures d < TWO53 * Unit(x)
  {
    hide Pow2, UnitExponent, Unit;
    InUnits(x);
    QuotientBy(x, n as real, Unit(x));
    NearInUnits(x, d, n, Unit(x));
    QuotientTimes(d, Unit(x));
    NearBelowPower(d / Unit(x), n, Unit(x), d);
  }

  lemma NearBelowPower(y: real, n: int, u: real, d: real)
    requires Near(y, n as real) && n <= 9007199254740991 && u > 0.0 && d == y * u
    ensures d < TWO53 * u && d < 9007199254740991.5 * u
  {
    NearIsWithinHalf(y, n);
    BelowTimes(y, 9007199254740991.5, u, d, 9007199254740991.5 * u);
  }

  lemma NearPowerOfTwo(x: real, d: real, n: int)
    requires x > 0.0 && x == n as real * Unit(x) && Near(d, x)
    requires d < TWO52 * Unit(x) && UnitExponent(x, MIN_EXPONENT) != MIN_EXPONENT
    ensures n == 4503599627370496 && d >= TWO52 / 2.0 * Unit(x)
  {
    hide Pow2, UnitExponent, Unit;
    InUnits(x);
    QuotientBy(x, n as real, Unit(x));
    NearInUnits(x, d, n, Unit(x));
    QuotientTimes(d, Unit(x));
    NearPowerInUnits(d / Unit(x), n, Unit(x), d);
  }

  lemma NearPowerInUnits(y: real, n: int, u: real, d: real)
    requires Near(y, n as real) && 4503599627370496 <= n <= 9007199254740991 && u > 0.0 && d == y * u
    requires d < TWO52 * u
    ensures n == 4503599627370496 && d >= TWO52 / 2.0 * u
  {
    hide Near;
    if y >= TWO52 {
      AtMostTimes(TWO52, y, u, TWO52 * u, d);
      assert false;
    }
    NearIsWithinHalf(y, n);
    AtMostTimes(TWO52 / 2.0, y, u, TWO52 / 2.0 * u, d);
  }

  lemma NearIsPositive(x: real, d: real)
    requires x > 0.0 && Near(d, x)
    ensures d > 0.0
  {
  }

  /** A number that differs from a double by one part in 2 * 10^16 at most is rounded to that double. */
  lemma NearRoundsBack(x: real, d: real)
    requires IsDouble(x) && x > 0.0 && Near(d, x)
    ensures Round(d) == x
  {
    hide Near, IsDouble, Unit, RoundTo, Round, UnitExponent;
    var n := DoubleInUnits(x);
    InUnits(x);
    NearIsPositive(x, d);
    UnitOfNear(x, d, n);
    if Unit(d) == Unit(x) {
      RoundsToMultiple(x, d, n);
    } else {
      assert x == (2 * n) as real * Unit(d) by { TwiceAsMany(n, Unit(d)); }
      RoundsToMultiple(x, d, 2 * n);
    }
  }

  lemma TwiceAsMany(n: int, u: real)
    ensures n as real * (2.0 * u) == (2 * n) as real * u
  {
    assert (2 * n) as real == 2.0 * n as real;
  }

  lemma RoundsToMultiple(x: real, d: real, n: int)
    requires d > 0.0 && x == n as real * Unit(d) && n <= 9007199254740992 && Near(d, x)
    ensures Round(d) == x
  {
    hide Near, Unit, Round;
    NearInUnits(x, d, n, Unit(d));
    NearIsWithinHalf(d / Unit(d), n);
    RoundAt(d, n);
  }

  lemma NearIsWithinHalf(y: real, n: int)
    requires Near(y, n as real) && n <= 9007199254740992
    ensures Abs(y - n as real) < 0.5
  {
  }

  lemma DoubleBelowOverflow(x: real)
    requires IsDouble(x)
    ensures Abs(x) < OverflowLimit()
  {
    hide Pow2;
    var m, e :| HasDigits(x, m, e);
    Doubling(970);
    if e < 971 { Smaller(e, 971); }
    SmallerProduct(m, Pow2(e), Pow2(971));
  }

  lemma SmallerProduct(m: int, u: real, v: real)
    requires -MANTISSAS < m < MANTISSAS && 0.0 < u <= v
    ensures Abs(m as real * u) <= 9007199254740991.0 * v
  {
    var x, most := m as real * u, 9007199254740991.0 * u;
    AtMostTimes(m as real, 9007199254740991.0, u, x, most);
    AtMostTimes(-9007199254740991.0, m as real, u, -most, x);
  }

  lemma UnitOfDouble(x: real)
    requires IsDouble(x) && x > 0.0
    ensures Unit(x) <= Pow2(971)
  {
    hide Pow2, IsDouble;
    DoubleBelowOverflow(x);
    UnitBelowOverflow(x);
    var g := UnitExponent(x, MIN_EXPONENT);
    if g < 971 { Smaller(g, 971); }
  }

  lemma NearIsAtMost(x: real, d: real, n: int, v: real)
    requires x > 0.0 && x == n as real * Unit(x) && Near(d, x) && Unit(x) <= v
    ensures d < 9007199254740991.5 * v
  {
    hide Pow2, UnitExponent, Unit, Near;
    var u := Unit(x);
    InUnits(x);
    QuotientBy(x, n as real, u);
    NearInUnits(x, d, n, u);
    QuotientTimes(d, u);
    NearBelowPower(d / u, n, u, d);
    AtMostTimes(u, v, 9007199254740991.5, 9007199254740991.5 * u, 9007199254740991.5 * v);
  }

  lemma NearIsBelowOverflow(x: real, d: real)
    requires IsDouble(x) && x > 0.0 && Near(d, x)
    ensures 0.0 < d < OverflowLimit()
  {
    hide Pow2, IsDouble, Near, Unit;
    var n := DoubleInUnits(x);
    NearIsPositive(x, d);
    UnitOfDouble(x);
    NearIsAtMost(x, d, n, Pow2(971));
    Doubling(970);
  }
}
