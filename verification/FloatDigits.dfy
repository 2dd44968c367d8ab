/** How many decimal digits a floating-point number has, and what is lost by printing fewer. */
module FloatDigits {
  import opened Powers
  import opened Decimal
  import opened FallbackFormat
  import opened FloatRatio
  import TrailingZeros

  // Where the digits of a number end.

  lemma RoundWhole(q: nat, d: nat)
    requires d > 0
    ensures q * d >= 0 && RoundHalfEven(q * d, d) == q
  {
    DivModUnique(q * d, d, q, 0);
  }

  /** No digit of f0 * 2^e0 stands below the place of 10^e0, nor behind the point of an integer. */
  lemma ExactlyAt(f0: nat, e0: int, place: int)
    requires place <= 0 && place <= e0
    ensures e0 >= 0 ==> RoundedAt(f0, e0, place) == f0 * Pow(2, e0) * Pow(10, -place)
    ensures e0 < 0 ==> RoundedAt(f0, e0, place) * Pow(2, -e0) == f0 * Pow(10, -place)
  {
    hide *;
    PartsBelow(f0, e0, place);
    if e0 >= 0 {
      var q := f0 * Pow(2, e0) * Pow(10, -place);
      RoundedIs(f0, e0, place);
      ProductNat(f0, Pow(2, e0), Pow(10, -place));
      RoundWhole(q, 1);
    } else {
      var m, n := -e0, e0 - place;
      PowAdd(10, m, n);
      PowProduct(2, 5, m);
      var q := f0 * Pow(5, m) * Pow(10, n);
      ProductNat(f0, Pow(5, m), Pow(10, n));
      Shuffle(f0, Pow(5, m), Pow(10, n), Pow(2, m), Pow(10, m), Pow(10, -place));
      RoundedIs(f0, e0, place);
      RoundWhole(q, Pow(2, m));
    }
  }

  lemma RoundedIs(f0: nat, e0: int, place: int)
    ensures RoundedAt(f0, e0, place) == RoundHalfEven(RatioNum(f0, e0, place), RatioDen(e0, place))
  {
  }

  lemma ProductNat(a: nat, b: nat, c: nat)
    ensures a * b * c >= 0
  {
    MulBound(0, 0, a, b);
    MulBound(0, 0, a * b, c);
  }

  lemma Shuffle(f: int, a: int, b: int, t: int, ten: int, all: int)
    requires ten == t * a && all == ten * b
    ensures f * a * b * t == f * all
  {
    MulSwap(f * a, b, t);
    MulSwap(f, a, t);
    MulAssoc(f, t, a);
    MulAssoc(f, t * a, b);
  }

  lemma PartsBelow(f0: nat, e0: int, place: int)
    requires place <= 0
    ensures e0 >= 0 ==> RatioNum(f0, e0, place) == f0 * Pow(2, e0) * Pow(10, -place) && RatioDen(e0, place) == 1
    ensures e0 < 0 ==> RatioNum(f0, e0, place) == f0 * Pow(10, -place) && RatioDen(e0, place) == Pow(2, -e0)
  {
  }

  /** From there on down, rounding at a lower place only appends zeros. */
  lemma SameBelow(f0: nat, e0: int, place: int, lower: int)
    requires lower <= place <= 0 && place <= e0
    ensures RoundedAt(f0, e0, lower) == RoundedAt(f0, e0, place) * Pow(10, place - lower)
  {
    hide *;
    ExactlyAt(f0, e0, place);
    ExactlyAt(f0, e0, lower);
    var r, p := RoundedAt(f0, e0, place), Pow(10, place - lower);
    PowAdd(10, -place, place - lower);
    if e0 >= 0 {
      MulAssoc(f0 * Pow(2, e0), Pow(10, -place), p);
    } else {
      MulAssoc(f0, Pow(10, -place), p);
      MulSwap(r, Pow(2, -e0), p);
      MulCancel(RoundedAt(f0, e0, lower), r * p, Pow(2, -e0));
    }
  }

  // 767 digits are enough for every double.

  lemma FirstPowers()
    ensures Pow(5, 3) == 125 && Pow(5, 4) == 625 && Pow(2, 1) == 2 && Pow(2, 4) == 16
  {
  }

  lemma Fives59()
    ensures Pow(5, 59) <= Pow(2, 137) && Pow(5, 12) == 244140625
  {
    hide *;
    FirstPowers();
    PowAdd(5, 4, 4);
    PowAdd(5, 8, 8);
    PowAdd(5, 16, 16);
    PowAdd(5, 32, 16);
    PowAdd(5, 48, 8);
    PowAdd(5, 56, 3);
    PowAdd(5, 8, 4);
    WordPowers();
    PowAdd(2, 64, 64);
    PowAdd(2, 4, 4);
    PowAdd(2, 128, 8);
    PowAdd(2, 136, 1);
  }

  lemma Twos28()
    ensures Pow(2, 28) == 268435456
  {
    hide *;
    FirstPowers();
    PowAdd(2, 4, 4);
    PowAdd(2, 8, 4);
    PowAdd(2, 12, 4);
    PowAdd(2, 12, 16);
  }

  /** 5^307 is below 2^713. */
  lemma FivesBelowTwos()
    ensures Pow(5, 307) < Pow(2, 713)
  {
    hide *;
    Fives59();
    Twos28();
    PowPow(5, 59, 5);
    PowPow(2, 137, 5);
    PowBelow(Pow(5, 59), Pow(2, 137), 5);
    PowAdd(5, 295, 12);
    PowAdd(2, 685, 28);
    var a: nat, b: nat := Pow(5, 295), Pow(2, 685);
    MulMono(a, b, 244140625);
    MulStrict(244140625, 268435456, b);
  }

  /** Twice the largest significand with all the fives of the smallest exponent. */
  lemma DoubleDigits()
    ensures Pow(2, 54) * Pow(5, 1074) < Pow(10, 767)
  {
    hide *;
    FivesBelowTwos();
    PowAdd(5, 307, 767);
    PowAdd(2, 54, 713);
    PowProduct(2, 5, 767);
    var a, b, c, d := Pow(2, 54), Pow(5, 307), Pow(5, 767), Pow(2, 713);
    MulStrict(b, d, a);
    MulAssoc(a, b, c);
    MulStrict(b * a, d * a, c);
  }

  /** Twice the number reaches the place below the top of the value. */
  lemma TwiceReaches(f: nat, e: int, k: int, f0: nat, e0: int)
    requires e <= 0 && Approximates(f, e, k, f0, e0)
    ensures var top := IntegralDigitCount(f, e) - k; 2 * RatioNum(f0, e0, top - 1) > RatioDen(e0, top - 1)
  {
    hide *;
    var kappa := IntegralDigitCount(f, e);
    UnitsOfValue(f, e, k, f0, e0);
    var num, den, p: nat := RatioNum(f0, e0, -k), RatioDen(e0, -k), Pow(10, kappa - 1);
    TwiceUnits(f, p, Pow(2, -e), num, den);
    var t := kappa - k - 1;
    RatioStep(f0, e0, t, kappa - 1);
    assert t - (kappa - 1) == -k;
    TwiceAt(RatioNum(f0, e0, t), RatioDen(e0, t), p, num, den);
  }

  lemma UnitsOfValue(f: nat, e: int, k: int, f0: nat, e0: int)
    requires e <= 0 && Approximates(f, e, k, f0, e0)
    ensures var one, kappa := Pow(2, -e), IntegralDigitCount(f, e);
            && one > 0 && kappa >= 1 && f > 20 && Pow(10, kappa - 1) * one <= f
            && (f - 1) * RatioDen(e0, -k) < RatioNum(f0, e0, -k) * one
  {
    DigitsOfValue(f, e, k, f0, e0);
    hide Pow, RatioNum, RatioDen, IntegralDigitCount;
  }

  lemma TwiceUnits(f: nat, p: nat, one: nat, num: nat, den: nat)
    requires one > 0 && den > 0 && f > 1 && p * one <= f && (f - 1) * den < num * one
    ensures p * den < 2 * num
  {
    MulMono(f, 2 * (f - 1), den);
    MulMono(p * one, f, den);
    MulSwap(p, one, den);
    MulAssoc(2, f - 1, den);
    MulAssoc(2, num, one);
    MulCancelLess(p * den, 2 * num, one);
  }

  lemma TwiceAt(top: nat, topDen: nat, p: nat, num: nat, den: nat)
    requires p > 0 && den > 0 && topDen > 0 && top * p * den == num * topDen && p * den < 2 * num
    ensures topDen < 2 * top
  {
    MulAssoc(top, p, den);
    var q := p * den;
    MulStrict(0, p, den);
    MulStrict(q, 2 * num, topDen);
    MulAssoc(2, num, topDen);
    MulAssoc(2, top, q);
    MulCancelLess(topDen, 2 * top, q);
  }

  /** The 767 digits below the top of a double are all it has. */
  lemma DigitsOfDouble(f: nat, e: int, k: int, f0: nat, e0: int)
    requires e <= 0 && Approximates(f, e, k, f0, e0) && f0 < 0x20_0000_0000_0000 && -1074 <= e0 <= 971
    ensures var place := IntegralDigitCount(f, e) - k - 767; place <= 0 && place <= e0
  {
    hide *;
    var t := IntegralDigitCount(f, e) - k - 1;
    TwiceReaches(f, e, k, f0, e0);
    if e0 >= 0 {
      if t >= 767 {
        IntegerIsShort(f0, e0, t);
      }
    } else if t >= 767 + e0 {
      FractionIsShort(f0, -e0, t);
    }
  }

  lemma IntegerIsShort(f0: nat, e0: nat, t: nat)
    requires f0 < 0x20_0000_0000_0000 && e0 <= 971 && t >= 767
    ensures 2 * RatioNum(f0, e0, t) <= RatioDen(e0, t)
  {
    hide *;
    IntegerRatio(f0, e0, t);
    PowersOfSignificand();
    PowAdd(2, 54, e0);
    PowMono(2, 54 + e0, 1026);
    PowPow(2, 3, 342);
    PowBelow(8, 10, 342);
    PowMono(10, 342, t);
    MulMono(2 * f0, Pow(2, 54), Pow(2, e0));
    MulAssoc(2, f0, Pow(2, e0));
  }

  lemma PowersOfSignificand()
    ensures Pow(2, 54) == 0x40_0000_0000_0000 && Pow(2, 3) == 8
  {
    hide *;
    FirstPowers();
    PowAdd(2, 1, 1);
    PowAdd(2, 2, 1);
    PowAdd(2, 3, 3);
    Twos28();
    PowAdd(2, 28, 16);
    PowAdd(2, 44, 6);
    PowAdd(2, 50, 4);
    PowAdd(2, 4, 4);
    PowAdd(2, 8, 8);
  }

  lemma FractionIsShort(f0: nat, m: int, t: int)
    requires f0 < 0x20_0000_0000_0000 && 0 < m <= 1074 && t + m >= 767
    ensures 2 * RatioNum(f0, -m, t) <= RatioDen(-m, t)
  {
    hide *;
    PartsBelow(f0, -m, -m);
    RatioStep(f0, -m, t, t + m);
    assert t - (t + m) == -m;
    PowProduct(2, 5, m);
    PowersOfSignificand();
    DoubleDigits();
    PowMono(5, m, 1074);
    PowMono(10, 767, t + m);
    MulMono(2 * f0, Pow(2, 54), Pow(5, m));
    MulMono(Pow(5, m), Pow(5, 1074), Pow(2, 54));
    Bounded(RatioNum(f0, -m, t), RatioDen(-m, t), Pow(10, t + m), Pow(2, m), Pow(5, m), f0);
  }

  lemma Bounded(num: nat, den: nat, p: nat, two: nat, five: nat, f0: nat)
    requires p > 0 && two > 0 && den > 0 && num * p * two == f0 * (two * five) * den && 2 * f0 * five <= p
    ensures 2 * num <= den
  {
    if 2 * num > den {
      var q := p * two;
      MulStrict(0, p, two);
      MulAssoc(num, p, two);
      MulStrict(den, 2 * num, q);
      MulAssoc(2, num, q);
      MulSwap(f0, two, five);
      MulAssoc(f0, two, five);
      MulAssoc(f0, five, two);
      MulMono(2 * f0 * five, p, two);
      MulAssoc(2, f0, five);
      MulAssoc(2, f0 * five, two);
      MulMono(2 * (f0 * five * two), p * two, den);
      MulAssoc(2, f0 * five * two, den);
    }
  }

  /** More than 767 digits below the top add nothing but zeros. */
  lemma NothingLost(f: nat, e: int, k: int, f0: nat, e0: int, precision: nat)
    requires e <= 0 && Approximates(f, e, k, f0, e0) && f0 < 0x20_0000_0000_0000 && -1074 <= e0 <= 971 && precision >= 767
    ensures var top := IntegralDigitCount(f, e) - k;
            RoundedAt(f0, e0, top - precision) == RoundedAt(f0, e0, top - 767) * Pow(10, precision - 767)
  {
    hide *;
    DigitsOfDouble(f, e, k, f0, e0);
    var top := IntegralDigitCount(f, e) - k;
    SameBelow(f0, e0, top - 767, top - precision);
    assert top - 767 - (top - precision) == precision - 767;
  }

  // What fixed output beyond 767 places loses.

  /** How far `x` is from the nearest multiple of `d`. */
  function Off(x: nat, d: nat): nat
    requires d > 0
  {
    if 2 * (x % d) <= d then x % d else d - x % d
  }

  lemma RoundedOff(x: nat, d: nat) returns (o: int)
    requires d > 0
    ensures x == RoundHalfEven(x, d) * d + o && (o == Off(x, d) || -o == Off(x, d))
  {
    var q, r := x / d, x % d;
    assert x == q * d + r;
    assert (q + 1) * d == q * d + d;
    o := if RoundHalfEven(x, d) == q then r else r - d;
  }

  /** Rounding first and scaling afterwards gives the same exactly if the number is close enough to the rounded one. */
  lemma KeepsDigits(x: nat, d: nat, p: nat)
    requires d > 0 && p > 0 && p % 2 == 0
    ensures x * p >= 0
    ensures RoundHalfEven(x * p, d) == RoundHalfEven(x, d) * p <==> 2 * Off(x, d) * p <= d
  {
    hide *;
    var r := RoundHalfEven(x, d);
    var o := RoundedOff(x, d);
    MulBound(0, 0, x, p);
    ScaledOff(x, r, d, o, p);
    RoundIsNearest(x * p, d);
    NearestMeans(x * p, d, r * p, o * p);
    EvenProductIsEven(r, p);
    SignDoesNotMatter(o, Off(x, d), p, d);
    if IsNearestEven(x * p, d, r * p) {
      NearestIsUnique(x * p, d, r * p, RoundHalfEven(x * p, d));
    }
  }

  lemma ScaledOff(x: int, r: int, d: int, o: int, p: int)
    requires x == r * d + o
    ensures x * p == r * p * d + o * p
  {
    MulSwap(r, d, p);
    assert (r * d + o) * p == r * d * p + o * p;
  }

  lemma NearestMeans(a: nat, d: nat, n: int, off: int)
    requires d > 0 && a == n * d + off
    ensures n % 2 == 0 ==> (IsNearestEven(a, d, n) <==> 2 * off <= d && 0 <= 2 * off + d)
  {
  }

  lemma EvenProductIsEven(r: int, p: int)
    requires p % 2 == 0
    ensures r * p % 2 == 0
  {
    var h := p / 2;
    MulAssoc(2, h, r);
    MulSwap(r, 2, h);
    assert r * (2 * h) == 2 * (h * r);
  }

  lemma SignDoesNotMatter(o: int, off: nat, p: nat, d: nat)
    requires o == off || -o == off
    ensures 2 * (o * p) <= d && 0 <= 2 * (o * p) + d <==> 2 * off * p <= d
  {
    MulAssoc(2, off, p);
    MulBound(0, 0, off, p);
  }

  lemma TenPowerIsEven(j: nat)
    requires j > 0
    ensures Pow(10, j) % 2 == 0
  {
    hide *;
    PowStep(10, j - 1);
    TenTimesIsEven(Pow(10, j - 1));
  }

  lemma TenTimesIsEven(p: int)
    ensures 10 * p % 2 == 0
  {
    assert 10 * p == 2 * (5 * p);
  }

  /** Fixed output with more than 767 places shows the number rounded at the last place asked for exactly if what lies
      behind place 767 is less than half a unit of that last place away, or exactly half. */
  lemma FixedKeeps(f0: nat, e0: int, precision: nat)
    requires precision > 767
    ensures RoundedAt(f0, e0, 0 - precision) == RoundedAt(f0, e0, -767) * Pow(10, precision - 767)
       <==> e0 >= 0 || 2 * Off(f0 * Pow(10, 767), Pow(2, -e0)) * Pow(10, precision - 767) <= Pow(2, -e0)
  {
    hide *;
    if e0 >= 0 {
      SameBelow(f0, e0, -767, 0 - precision);
    } else {
      var j := precision - 767;
      PartsBelow(f0, e0, -767);
      PartsBelow(f0, e0, 0 - precision);
      RoundedIs(f0, e0, -767);
      RoundedIs(f0, e0, 0 - precision);
      PowAdd(10, 767, j);
      MulAssoc(f0, Pow(10, 767), Pow(10, j));
      MulBound(0, 0, f0, Pow(10, 767));
      TenPowerIsEven(j);
      KeepsDigits(f0 * Pow(10, 767), Pow(2, -e0), Pow(10, j));
    }
  }

  /** With all the places a number has, nothing is cut exactly if the significand ends in enough zero bits. */
  lemma FixedKeepsAll(f0: nat, e0: int, precision: nat)
    requires precision > 767 && precision + e0 >= 0
    ensures RoundedAt(f0, e0, 0 - precision) == RoundedAt(f0, e0, -767) * Pow(10, precision - 767)
       <==> e0 >= -767 || f0 % Pow(2, -e0 - 767) == 0
  {
    hide *;
    if e0 >= -767 {
      SameBelow(f0, e0, -767, 0 - precision);
    } else {
      var m, j, r := -e0, precision - 767, RoundedAt(f0, e0, -767);
      ExactlyAt(f0, e0, 0 - precision);
      PowAdd(10, 767, j);
      MulAssoc(f0, Pow(10, 767), Pow(10, j));
      MulSwap(r, Pow(10, j), Pow(2, m));
      CancelBoth(RoundedAt(f0, e0, 0 - precision), r * Pow(10, j), Pow(2, m));
      CancelBoth(r * Pow(2, m), f0 * Pow(10, 767), Pow(10, j));
      WholeAtPlace(f0, m);
    }
  }

  lemma CancelBoth(a: int, b: int, c: nat)
    requires c > 0
    ensures a == b <==> a * c == b * c
  {
    if a * c == b * c {
      MulCancel(a, b, c);
    }
  }

  lemma WholeAtPlace(f0: nat, m: nat)
    requires m > 767
    ensures RoundedAt(f0, 0 - m, -767) * Pow(2, m) == f0 * Pow(10, 767) <==> f0 % Pow(2, m - 767) == 0
  {
    hide *;
    var r, s: nat := RoundedAt(f0, 0 - m, -767), Pow(2, m - 767);
    PowProduct(2, 5, 767);
    PowAdd(2, m - 767, 767);
    MulSwap(f0, Pow(2, 767), Pow(5, 767));
    MulAssoc(f0, Pow(2, 767), Pow(5, 767));
    MulAssoc(r, s, Pow(2, 767));
    CancelBoth(r * s, f0 * Pow(5, 767), Pow(2, 767));
    if r * s == f0 * Pow(5, 767) {
      TrailingZeros.MultipleMod(r, s);
      PowOf5IsOdd(767);
      TrailingZeros.OddFactor(f0, Pow(5, 767), m - 767);
    }
    if f0 % s == 0 {
      var k := f0 / s;
      WholeQuotientIs(f0, s, k);
      MulSwap(k, s, Pow(5, 767));
      PartsBelow(f0, 0 - m, -767);
      RoundedIs(f0, 0 - m, -767);
      MulBound(0, 0, k, Pow(5, 767));
      MulAssoc(k * Pow(5, 767), s, Pow(2, 767));
      RoundWhole(k * Pow(5, 767), Pow(2, m));
    }
  }

  lemma WholeQuotientIs(n: nat, d: nat, k: int)
    requires d > 0 && k == n / d && n % d == 0
    ensures n == k * d && k >= 0
  {
    if k < 0 {
      MulMono(k, -1, d);
    }
  }

  /** The smallest double is cut. */
  lemma SmallestDoubleIsCut()
    ensures RoundedAt(1, -1074, -1074) != RoundedAt(1, -1074, -767) * Pow(10, 307)
  {
    hide *;
    FixedKeepsAll(1, -1074, 1074);
    PowMono(2, 1, 307);
    FirstPowers();
    DivModUnique(1, Pow(2, 307), 0, 1);
  }
}
