/** Comparing doubles with the tolerance of json_value_equals: which doubles lie within it of a given one. */
module Tolerance {
  import opened Doubles

  /** The double nearest to 0.000001. */
  const EPSILON: real := 4722366482869645.0 / 4722366482869645213696.0

  /** fabs(x - y) < 0.000001, where the difference is rounded. */
  predicate Close(x: real, y: real, round: real -> real) {
    Abs(round(x - y)) < EPSILON
  }

  const UNIT19: real := 1.0 / 524288.0
  const UNIT20: real := 1.0 / 1048576.0
  const UNIT21: real := 1.0 / 2097152.0
  const TWO32: real := 4294967296.0
  const TWO33: real := 8589934592.0

  lemma Units()
    ensures Pow2(0) == 1.0 && Pow2(-19) == UNIT19 && Pow2(-20) == UNIT20 && Pow2(-21) == UNIT21
    ensures UNIT20 < EPSILON < UNIT19 && EPSILON < 3.0 * UNIT21
  {
    assert Pow2(-4) == 0.0625;
    assert Pow2(-8) == 0.00390625;
    assert Pow2(-12) == 1.0 / 4096.0;
    assert Pow2(-16) == 1.0 / 65536.0;
  }

  lemma EightHalvings(e: int)
    ensures Pow2(e) == 256.0 * Pow2(e - 8)
  {
    hide Pow2;
    Doubling(e - 8);
    Doubling(e - 7);
    Doubling(e - 6);
    Doubling(e - 5);
    Doubling(e - 4);
    Doubling(e - 3);
    Doubling(e - 2);
    Doubling(e - 1);
  }

  lemma PowerOfEpsilon()
    ensures Pow2(-72) == 1.0 / 4722366482869645213696.0
  {
    hide Pow2;
    assert Pow2(0) == 1.0 by { Units(); }
    EightHalvings(0);
    EightHalvings(-8);
    EightHalvings(-16);
    EightHalvings(-24);
    EightHalvings(-32);
    EightHalvings(-40);
    EightHalvings(-48);
    EightHalvings(-56);
    EightHalvings(-64);
  }

  lemma EpsilonIsDouble()
    ensures IsDouble(EPSILON)
  {
    hide Pow2;
    PowerOfEpsilon();
    assert HasDigits(EPSILON, 4722366482869645, -72);
  }

  /** The tolerance of the code is the double that its literal 0.000001 is rounded to. */
  lemma EpsilonIsLiteral()
    ensures Round(0.000001) == EPSILON
  {
    EpsilonIsDouble();
    NearRoundsBack(EPSILON, 0.000001);
  }

  // ---------------------------------------------------------------- neighbours within the tolerance

  function Ceiling(x: real): int {
    -((-x).Floor)
  }

  /** A double at most 2^-20 above `x`. */
  function Above(x: real): real
    decreases x < 0.0
  {
    if x < 0.0 then -Below(-x)
    else if x >= TWO32 then ((x * 1048576.0).Floor + 1) as real * UNIT20
    else (Ceiling(x * 2097152.0) + 1) as real * UNIT21
  }

  function Below(x: real): real
    decreases x < 0.0
  {
    if x < 0.0 then -Above(-x)
    else if x >= TWO32 then ((x * 1048576.0).Floor - 1) as real * UNIT20
    else (Ceiling(x * 2097152.0) - 2) as real * UNIT21
  }

  /** Below 2^33 in size, every double has two doubles around it that are each within the tolerance of it, but not of
      each other. */
  lemma Neighbours(x: real)
    requires IsDouble(x) && Abs(x) < TWO33
    ensures IsDouble(Below(x)) && IsDouble(Above(x)) && IsDouble(Above(x) - Below(x))
    ensures 0.0 <= x - Below(x) <= UNIT20 && 0.0 <= Above(x) - x <= UNIT20
    ensures Above(x) - Below(x) >= 3.0 * UNIT21
    decreases x < 0.0
  {
    hide IsDouble, Below, Above;
    if x < 0.0 {
      NegatedDouble(x);
      Neighbours(-x);
      Mirrored(x);
    } else if x >= TWO32 {
      FarNeighbours(x);
    } else {
      NearNeighbours(x);
    }
  }

  lemma Mirrored(x: real)
    requires x < 0.0 && IsDouble(Below(-x)) && IsDouble(Above(-x))
    ensures Below(x) == -Above(-x) && Above(x) == -Below(-x) && IsDouble(Below(x)) && IsDouble(Above(x))
  {
    hide IsDouble;
    NegatedDouble(Below(-x));
    NegatedDouble(Above(-x));
  }

  lemma FarNeighbours(x: real)
    requires IsDouble(x) && TWO32 <= x < TWO33
    ensures IsDouble(Below(x)) && IsDouble(Above(x)) && IsDouble(Above(x) - Below(x))
    ensures x - Below(x) == UNIT20 == Above(x) - x
  {
    hide IsDouble, Pow2;
    Units();
    var n := OnGrid(x, -20);
    assert x * 1048576.0 == n as real;
    MultipleIsDouble(n - 1, -20);
    MultipleIsDouble(n + 1, -20);
    MultipleIsDouble(2, -20);
    OneUnitAway(x, n);
  }

  lemma OneUnitAway(x: real, n: int)
    requires TWO32 <= x && x * 1048576.0 == n as real
    ensures Above(x) == (n + 1) as real * UNIT20 && Below(x) == (n - 1) as real * UNIT20
    ensures x - Below(x) == UNIT20 == Above(x) - x && Above(x) - Below(x) == 2 as real * UNIT20
  {
    assert (x * 1048576.0).Floor == n;
  }

  lemma NearNeighbours(x: real)
    requires IsDouble(x) && 0.0 <= x < TWO32
    ensures IsDouble(Below(x)) && IsDouble(Above(x)) && IsDouble(Above(x) - Below(x))
    ensures 0.0 <= x - Below(x) <= UNIT20 && 0.0 <= Above(x) - x <= UNIT20 && Above(x) - Below(x) == 3.0 * UNIT21
  {
    hide IsDouble, Pow2;
    Units();
    if x >= 2147483648.0 {
      var n := OnGrid(x, -21);
      assert Ceiling(x * 2097152.0) == n;
    }
    var q := Ceiling(x * 2097152.0);
    MultipleIsDouble(q - 2, -21);
    MultipleIsDouble(q + 1, -21);
    MultipleIsDouble(3, -21);
    assert Above(x) - Below(x) == 3 as real * UNIT21;
  }

  /** From 2^33 on in size, all doubles within the tolerance of one are within the tolerance of each other. */
  lemma NoNeighbours(a: real, x: real, c: real, round: real -> real)
    requires IsDouble(a) && IsDouble(x) && IsDouble(c) && Rounding(round) && Abs(x) >= TWO33
    requires Close(a, x, round) && Close(x, c, round)
    ensures Close(a, c, round)
  {
    hide Close, Rounding, HasDigits, IsDouble;
    if x < 0.0 {
      NegatedDouble(a);
      NegatedDouble(x);
      NegatedDouble(c);
      CloseIsEven(a, x, round);
      CloseIsEven(x, c, round);
      CloseIsEven(a, c, round);
      NoNeighboursAbove(-a, -x, -c, round);
    } else {
      NoNeighboursAbove(a, x, c, round);
    }
  }

  lemma CloseIsEven(x: real, y: real, round: real -> real)
    requires Rounding(round)
    ensures Close(-x, -y, round) == Close(x, y, round) == Close(y, x, round)
  {
    assert -x - -y == -(x - y) && y - x == -(x - y);
  }

  lemma NoNeighboursAbove(a: real, x: real, c: real, round: real -> real)
    requires IsDouble(a) && IsDouble(x) && IsDouble(c) && Rounding(round) && x >= TWO33
    requires Close(a, x, round) && Close(x, c, round)
    ensures Close(a, c, round)
  {
    CloseIsEven(x, c, round);
    OneOfTwo(a, x, round);
    OneOfTwo(c, x, round);
    CloseWithin(a, c, UNIT20, round);
  }

  /** A double close to `x` is `x`, or the double next to 2^33 where the doubles become twice as dense. */
  lemma OneOfTwo(a: real, x: real, round: real -> real)
    requires IsDouble(a) && IsDouble(x) && Rounding(round) && x >= TWO33 && Close(a, x, round)
    ensures a == x || (x == TWO33 && a == x - UNIT20)
  {
    hide IsDouble, Pow2, Rounding, Close;
    Units();
    FarApart(a, x, round);
    var n := OnGrid(x, -19);
    if a >= TWO33 {
      var k := OnGrid(a, -19);
      assert (k - n) as real * UNIT19 == a - x;
    } else {
      var k := OnGrid(a, -20);
      assert n >= 4503599627370496;
      assert (k - 2 * n) as real * UNIT20 == a - x;
    }
  }

  /** Doubles that are close are less than 2^-19 apart. */
  lemma FarApart(x: real, y: real, round: real -> real)
    requires Rounding(round) && Close(x, y, round)
    ensures Abs(x - y) < UNIT19
  {
    Units();
    MultipleIsDouble(1, -19);
    MultipleIsDouble(-1, -19);
    assert round(UNIT19) == UNIT19 && round(-UNIT19) == -UNIT19;
    assert x - y >= UNIT19 ==> round(x - y) >= round(UNIT19);
    assert x - y <= -UNIT19 ==> round(x - y) <= round(-UNIT19);
  }

  lemma CloseWithin(x: real, y: real, d: real, round: real -> real)
    requires Rounding(round) && d == UNIT20 && Abs(x - y) <= d
    ensures Close(x, y, round)
  {
    Units();
    MultipleIsDouble(1, -20);
    MultipleIsDouble(-1, -20);
    assert round(UNIT20) == UNIT20 && round(-UNIT20) == -UNIT20;
    assert round(-UNIT20) <= round(x - y) <= round(UNIT20);
  }
}
