/** A floating-point number as a ratio at a decimal place, and the 64-bit value that the fast printer has of it. */
module FloatRatio {
  import opened Powers
  import opened Decimal
  import opened IntegerText
  import opened Grisu
  import opened FallbackFormat

  /** f * 2^e / 10^place, rounded half to even. */
  function RoundedAt(f: nat, e: int, place: int): nat {
    RoundHalfEven(RatioNum(f, e, place), RatioDen(e, place))
  }

  /** It is the integer nearest to the quotient of the powers written out, and the even one of two. */
  lemma RoundedAtIsNearest(f: nat, e: int, place: int)
    ensures var num := f * Pow(2, if e > 0 then e else 0) * Pow(10, if place < 0 then -place else 0);
            var den := Pow(2, if e < 0 then -e else 0) * Pow(10, if place > 0 then place else 0);
            num >= 0 && den > 0 && IsNearestEven(num, den, RoundedAt(f, e, place))
  {
    RatioParts(f, e, place);
    hide Pow, RatioNum, RatioDen, RoundHalfEven, IsNearestEven;
    RoundIsNearest(RatioNum(f, e, place), RatioDen(e, place));
  }

  // Ratios.

  lemma RoundSameRatio(a: nat, b: nat, c: nat, d: nat)
    requires b > 0 && d > 0 && a * d == c * b
    ensures RoundHalfEven(a, b) == RoundHalfEven(c, d)
  {
    hide RoundHalfEven;
    RoundScaled(a, b, d);
    RoundScaled(c, d, b);
  }

  lemma ThreePowers(a: nat, m: nat, b: nat, n: nat)
    requires n == a + m + b
    ensures Pow(10, a) * Pow(10, m) * Pow(10, b) == Pow(10, n)
  {
    hide *;
    PowAdd(10, a, m);
    PowAdd(10, a + m, b);
    Replace(Pow(10, a), Pow(10, m), Pow(10, b), Pow(10, a + m), Pow(10, n));
  }

  lemma TwoPowers(c: nat, d: nat, n: nat)
    requires n == c + d
    ensures Pow(10, c) * Pow(10, d) == Pow(10, n)
  {
    hide *;
    PowAdd(10, c, d);
  }

  lemma Replace(x: int, y: int, z: int, p: int, q: int)
    requires p == x * y && q == p * z
    ensures x * y * z == q
  {
  }

  lemma Regroup(x: int, y: int, a: int, m: int, b: int, n: int)
    requires a * m * b == n
    ensures x * a * m * (y * b) == x * y * n
  {
    MulAssoc(x, a, m);
    MulProducts(x, a * m, y, b);
  }

  lemma MulProducts(x: int, p: int, y: int, q: int)
    ensures x * p * (y * q) == x * y * (p * q)
  {
    MulAssoc(x * p, y, q);
    MulSwap(x, p, y);
    MulAssoc(x * y, p, q);
  }

  /** Lowering the place by `m` multiplies the ratio by 10^m. */
  lemma RatioStep(f: nat, e: int, place: int, m: nat)
    ensures RatioNum(f, e, place) * Pow(10, m) * RatioDen(e, place - m) == RatioNum(f, e, place - m) * RatioDen(e, place)
  {
    hide *;
    var a, b, c, d := Max0(-place), Max0(place - m), Max0(m - place), Max0(place);
    var x, y := f * Pow(2, Max0(e)), Pow(2, Max0(-e));
    RatioParts(f, e, place);
    RatioParts(f, e, place - m);
    assert -(place - m) == m - place;
    PlacesBalance(place, m);
    ThreePowers(a, m, b, c + d);
    TwoPowers(c, d, c + d);
    Regroup(x, y, Pow(10, a), Pow(10, m), Pow(10, b), Pow(10, c + d));
    MulProducts(x, Pow(10, c), y, Pow(10, d));
  }

  lemma RatioParts(f: nat, e: int, place: int)
    ensures RatioNum(f, e, place) == f * Pow(2, Max0(e)) * Pow(10, Max0(-place))
    ensures RatioDen(e, place) == Pow(2, Max0(-e)) * Pow(10, Max0(place))
  {
  }

  lemma PlacesBalance(place: int, m: nat)
    ensures Max0(-place) + m + Max0(place - m) == Max0(m - place) + Max0(place)
  {
  }

  lemma RoundedLower(f: nat, e: int, place: int, m: nat)
    ensures RatioNum(f, e, place) * Pow(10, m) >= 0
    ensures RoundHalfEven(RatioNum(f, e, place) * Pow(10, m), RatioDen(e, place)) == RoundedAt(f, e, place - m)
  {
    RatioStep(f, e, place, m);
    hide Pow, RatioNum, RatioDen, RoundHalfEven;
    MulBound(0, 0, RatioNum(f, e, place), Pow(10, m));
    RoundSameRatio(RatioNum(f, e, place) * Pow(10, m), RatioDen(e, place), RatioNum(f, e, place - m), RatioDen(e, place - m));
  }

  lemma RoundedHigher(f: nat, e: int, place: int, m: nat)
    ensures RatioDen(e, place) * Pow(10, m) > 0
    ensures RoundHalfEven(RatioNum(f, e, place), RatioDen(e, place) * Pow(10, m)) == RoundedAt(f, e, place + m)
  {
    RatioStep(f, e, place + m, m);
    hide Pow, RatioNum, RatioDen, RoundHalfEven;
    var a, b, c, d, p := RatioNum(f, e, place), RatioDen(e, place), RatioNum(f, e, place + m), RatioDen(e, place + m), Pow(10, m);
    MulStrict(0, b, p);
    MulSwap(c, p, b);
    MulAssoc(c, b, p);
    RoundSameRatio(a, b * p, c, d);
  }

  // What the fast printer's answer means for the exact number.

  lemma Below(v: real, d: real, num: real, c: real)
    requires d > 0.0 && v * d == num
    ensures v < c <==> num < c * d
  {
    if v < c {
      assert (c - v) * d > 0.0;
    }
  }

  lemma Above(v: real, d: real, num: real, c: real)
    requires d > 0.0 && v * d == num
    ensures c < v <==> c * d < num
  {
    if c < v {
      assert (v - c) * d > 0.0;
    }
  }

  lemma RealProduct(a: int, b: int)
    ensures (a * b) as real == a as real * b as real
  {
  }

  lemma Divide(num: nat, den: nat) returns (v: real)
    requires den > 0
    ensures v * den as real == num as real
  {
    v := num as real / den as real;
  }

  /** An exact number inside the error interval rounds to the digits that are right for the whole interval. */
  lemma InsideTheInterval(value: nat, error: nat, n: nat, unit: nat, num: nat, den: nat)
    requires den > 0 && unit > 0 && AllRoundTo(value, error, n, unit)
    requires (value - error) * den < num < (value + error) * den
    ensures den * unit > 0 && n == RoundHalfEven(num, den * unit)
  {
    var v := Divide(num, den);
    WithinError(v, value, error, num, den);
    assert RoundsTo(v, n, unit);
    NearAsIntegers(v, n, unit, num, den);
    MulStrict(0, den, unit);
    RoundIsNearest(num, den * unit);
    MulSwap(n, unit, den);
    MulAssoc(n, den, unit);
    assert IsNearestEven(num, den * unit, n);
    NearestIsUnique(num, den * unit, n, RoundHalfEven(num, den * unit));
  }

  lemma WithinError(v: real, value: nat, error: nat, num: nat, den: nat)
    requires den > 0 && v * den as real == num as real
    requires (value - error) * den < num < (value + error) * den
    ensures -(error as real) < v - value as real < error as real
  {
    RealProduct(value - error, den);
    RealProduct(value + error, den);
    Above(v, den as real, num as real, (value - error) as real);
    Below(v, den as real, num as real, (value + error) as real);
  }

  lemma NearAsIntegers(v: real, n: nat, unit: nat, num: nat, den: nat)
    requires den > 0 && v * den as real == num as real && RoundsTo(v, n, unit)
    ensures (2 * (n * unit) - unit) * den < 2 * num < (2 * (n * unit) + unit) * den
    ensures 2 * (num - n * unit * den) < den * unit && -(den * unit) < 2 * (num - n * unit * den)
  {
    var low, high := 2 * (n * unit) - unit, 2 * (n * unit) + unit;
    RealProduct(low, den);
    RealProduct(high, den);
    Twice(v, den as real, num as real);
    Above(2.0 * v, den as real, 2.0 * num as real, low as real);
    Below(2.0 * v, den as real, 2.0 * num as real, high as real);
    Spread(n * unit, unit, den);
  }

  lemma Twice(v: real, d: real, num: real)
    requires v * d == num
    ensures 2.0 * v * d == 2.0 * num
  {
  }

  lemma Spread(a: int, unit: int, den: int)
    ensures (2 * a - unit) * den == 2 * (a * den) - den * unit
    ensures (2 * a + unit) * den == 2 * (a * den) + den * unit
  {
  }

  /** The value in fixed-point units, f, is less than one unit away from f0 * 2^e0 * 10^k. */
  ghost predicate WithinOneUnit(f0: nat, e0: int, k: int, f: nat, one: nat)
    requires one > 0
  {
    var num, den := RatioNum(f0, e0, -k), RatioDen(e0, -k);
    (f - 1) * den < num * one < (f + 1) * den
  }

  /** Digits correct for the interval are those of the exact number. */
  lemma CorrectIsExact(f0: nat, e0: int, k: int, f: nat, one: nat, exp: int, n: nat)
    requires one > 0 && WithinOneUnit(f0, e0, k, f, one) && Correct(f, one, exp, n)
    ensures n == RoundedAt(f0, e0, exp - k)
  {
    var num, den := RatioNum(f0, e0, -k), RatioDen(e0, -k);
    hide Pow, RatioNum, RatioDen, RoundHalfEven, AllRoundTo, DigitCount;
    if exp >= 0 {
      var p := Pow(10, exp);
      MulStrict(0, p, one);
      MulBound(0, 0, num, one);
      InsideTheInterval(f, 1, n, p * one, num * one, den);
      MulAssoc(den, p, one);
      RoundedHigher(f0, e0, -k, exp);
      RoundScaled(num, den * p, one);
    } else {
      var p := Pow(10, -exp);
      MulBound(0, 0, num, one);
      TenTimesInside(f, num * one, den, p);
      MulBound(0, 0, num * one, p);
      MulBound(0, 0, f, p);
      InsideTheInterval(f * p, p, n, one, num * one * p, den);
      MulSwap(num, one, p);
      RoundedLower(f0, e0, -k, -exp);
      RoundScaled(num * p, den, one);
    }
  }

  lemma TenTimesInside(f: nat, num: nat, den: nat, p: nat)
    requires p > 0 && (f - 1) * den < num < (f + 1) * den
    ensures (f * p - p) * den < num * p < (f * p + p) * den
  {
    MulStrict((f - 1) * den, num, p);
    MulStrict(num, (f + 1) * den, p);
    MulSwap(f - 1, den, p);
    MulSwap(f + 1, den, p);
    assert (f - 1) * p == f * p - p && (f + 1) * p == f * p + p;
  }

  // The decimal exponent.

  lemma CancelRatio(a: nat, p: nat, b: nat, c: nat, d: nat)
    requires p > 0 && b > 0 && d > 0 && a * p * b == c * d
    ensures c < p * b <==> a < d
  {
    MulAssoc(a, p, b);
    MulStrict(0, p, b);
    var q := p * b;
    if c < q {
      MulStrict(c, q, d);
      MulCancelLess(a, d, q);
    }
    if a < d {
      MulStrict(a, d, q);
      MulCancelLess(c, q, d);
    }
  }

  /** Whether the number is below 10^place can be asked at any lower place. */
  lemma BelowAt(f0: nat, e0: int, place: int, m: nat)
    ensures RatioNum(f0, e0, place - m) < Pow(10, m) * RatioDen(e0, place - m)
       <==> RatioNum(f0, e0, place) < RatioDen(e0, place)
  {
    RatioStep(f0, e0, place, m);
    hide Pow, RatioNum, RatioDen;
    CancelRatio(RatioNum(f0, e0, place), Pow(10, m), RatioDen(e0, place - m), RatioNum(f0, e0, place - m), RatioDen(e0, place));
  }

  /** How many digits the integral part of a fixed-point value has. */
  function IntegralDigitCount(f: nat, e: int): nat
    requires e <= 0
  {
    var one := Pow(2, -e);
    var integral: nat := f / one;
    DigitCount(integral)
  }

  /** What the digit generator's value is to the number: -e fractional bits, and less than one unit off. */
  ghost predicate Approximates(f: nat, e: int, k: int, f0: nat, e0: int) {
    && -60 <= e <= -32 && f < W64 && f / Pow(2, -e) != 0 && -1000 < k < 1000
    && WithinOneUnit(f0, e0, k, f, Pow(2, -e))
  }

  /** A value that is exactly right approximates the number. */
  lemma ExactApproximates(f: nat, e: int, k: int, f0: nat, e0: int)
    requires -60 <= e <= -32 && f < W64 && f / Pow(2, -e) != 0 && -1000 < k < 1000
    requires f * RatioDen(e0, -k) == RatioNum(f0, e0, -k) * Pow(2, -e)
    ensures Approximates(f, e, k, f0, e0)
  {
    hide Pow, RatioNum, RatioDen;
    var den := RatioDen(e0, -k);
    assert (f - 1) * den == f * den - den && (f + 1) * den == f * den + den;
  }

  lemma DigitsOfValue(f: nat, e: int, k: int, f0: nat, e0: int)
    requires Approximates(f, e, k, f0, e0)
    ensures Pow(2, -e) > 0 && f / Pow(2, -e) >= 0
    ensures var one, kappa := Pow(2, -e), IntegralDigitCount(f, e);
            && 1 <= kappa <= 10 && kappa == DigitCount(f / one) && 20 < Pow(10, kappa - 1) * one <= f < Pow(10, kappa) * one
  {
    hide Pow, DigitCount, WithinOneUnit;
    OneBounds(-e);
    WordQuotient(f, Pow(2, -e));
    StartBounds(f, Pow(2, -e), DigitCount(f / Pow(2, -e)));
  }

  /** The place above the first digit of the value is that of the number: it is below 10^top, and not below 10^(top - 1)
      unless the value is exactly there and the number just below. */
  lemma TopOfNumber(f: nat, e: int, k: int, f0: nat, e0: int)
    requires Approximates(f, e, k, f0, e0)
    ensures var kappa := IntegralDigitCount(f, e);
            && RatioNum(f0, e0, kappa - k) < RatioDen(e0, kappa - k)
            && (RatioNum(f0, e0, kappa - k - 1) < RatioDen(e0, kappa - k - 1) ==> f == Pow(10, kappa - 1) * Pow(2, -e))
  {
    var one, kappa := Pow(2, -e), IntegralDigitCount(f, e);
    DigitsOfValue(f, e, k, f0, e0);
    hide Pow, RatioNum, RatioDen, IntegralDigitCount, DigitCount;
    var num, den := RatioNum(f0, e0, -k), RatioDen(e0, -k);
    BelowAt(f0, e0, kappa - k, kappa);
    assert kappa - k - kappa == -k;
    BelowUnits(f + 1, Pow(10, kappa), one, num, den);
    BelowAt(f0, e0, kappa - k - 1, kappa - 1);
    assert kappa - k - 1 - (kappa - 1) == -k;
    if num < Pow(10, kappa - 1) * den {
      NotAbove(f, Pow(10, kappa - 1), one, num, den);
    }
  }

  lemma BelowUnits(f: nat, p: nat, one: nat, num: nat, den: nat)
    requires one > 0 && den > 0 && f <= p * one && num * one < f * den
    ensures num < p * den
  {
    MulMono(f, p * one, den);
    MulSwap(p, one, den);
    MulCancelLess(num, p * den, one);
  }

  lemma NotAbove(f: nat, p: nat, one: nat, num: nat, den: nat)
    requires one > 0 && den > 0 && num < p * den && (f - 1) * den < num * one
    ensures f <= p * one
  {
    MulStrict(num, p * den, one);
    MulSwap(p, den, one);
    MulCancelLess(f - 1, p * one, den);
  }

  /** The exact printer's estimate of the exponent, when the fast one gives up. */
  lemma EstimateHolds(f0: nat, e0: int, top: int)
    requires RatioNum(f0, e0, top) < RatioDen(e0, top)
    ensures RatioNum(f0, e0, top - 1) < 10 * RatioDen(e0, top - 1)
  {
    BelowAt(f0, e0, top, 1);
    PowersOfTen01();
  }
}
