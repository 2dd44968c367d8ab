/** Floating-point numbers as decimal digits: the fast printer, and the exact one when the fast one gives up. */
module FloatText {
  import opened Powers
  import opened Decimal
  import opened IntegerText
  import opened Grisu
  import opened FallbackFormat
  import opened FloatRatio
  import opened FloatDigits

  // Printing.

  const MAX_DOUBLE_DIGITS: nat := 767

  /** The decimal place at which the output is rounded. `top` is the place above the first digit. With no precision at all
      it is the place of the first digit, or the one above if that digit cannot be rounded with certainty. */
  function Place(precision: nat, isFixed: bool, top: int, firstDigitOpen: bool): int {
    var digits := if precision > MAX_DOUBLE_DIGITS then MAX_DOUBLE_DIGITS else precision;
    if isFixed then -digits
    else if digits == 0 then (if firstDigitOpen then top else top - 1)
    else top - digits
  }

  /** How many digits there are between a place and the top; one digit is shown in any case. */
  function DigitsTo(place: int, top: int): (d: nat)
    ensures d >= 1
  {
    if place >= top then 1 else top - place
  }

  /** The digits and the exponent together are `rounded` units of 10^place. The digits start at the top, or one higher if
      all of them carried. A place above the top shows nothing. */
  ghost predicate Denotes(buf: seq<char>, exp: int, place: int, top: int, rounded: nat) {
    if place > top then buf == [] && rounded == 0
    else
      var d := DigitsTo(place, top);
      && AllDigits(buf) && exp >= place && Number(buf) * Pow(10, exp - place) == rounded
      && |buf| + exp == place + d + (if rounded == Pow(10, d) then 1 else 0)
  }

  /** What is printed before zeros at the end are removed: all the digits that are asked for, unless fixed output needs
      one more for a carry. The fast printer's first digit is significant. */
  ghost predicate Printed(buf: seq<char>, exp: int, gaveUp: bool, isFixed: bool, place: int, top: int, rounded: nat) {
    && Denotes(buf, exp, place, top, rounded)
    && (!isFixed ==> |buf| == DigitsTo(place, top))
    && (!gaveUp && place < top ==> rounded >= Pow(10, top - place - 1))
  }

  /** The first digit is a zero exactly if the number, as rounded, has fewer digits than its place asks for. */
  lemma FirstDigitShown(buf: seq<char>, exp: int, place: int, top: int, rounded: nat)
    requires place <= top && buf != [] && Denotes(buf, exp, place, top, rounded)
    ensures buf[0] == '0' <==> rounded < Pow(10, DigitsTo(place, top) - 1)
  {
    var d, m := DigitsTo(place, top), exp - place;
    assert Pow(10, d) == 10 * Pow(10, d - 1);
    LeadingZero(buf);
    hide Number;
    var p := Pow(10, |buf| - 1);
    PowAdd(10, |buf| - 1, m);
    if Number(buf) < p {
      MulStrict(Number(buf), p, Pow(10, m));
    } else {
      MulMono(p, Number(buf), Pow(10, m));
    }
  }

  lemma {:induction false} LeadingZero(s: seq<char>)
    requires s != [] && AllDigits(s)
    ensures s[0] == '0' <==> Number(s) < Pow(10, |s| - 1)
  {
    if |s| == 1 {
      assert s[..0] == [];
    } else {
      LeadingZero(s[..|s| - 1]);
    }
  }

  /** Rounding does not take a number below a power of ten that it reaches. */
  lemma RoundedReaches(f0: nat, e0: int, place: int, top: int)
    requires place < top && RatioNum(f0, e0, top - 1) >= RatioDen(e0, top - 1)
    ensures RoundedAt(f0, e0, place) >= Pow(10, top - place - 1)
  {
    var m := top - place - 1;
    RoundedLower(f0, e0, top - 1, m);
    hide Pow, RatioNum, RatioDen;
    var a, b, p := RatioNum(f0, e0, top - 1), RatioDen(e0, top - 1), Pow(10, m);
    MulMono(b, a, p);
    RoundAtLeast(a * p, b, p);
    assert top - 1 - m == place;
  }

  lemma RoundAtLeast(a: nat, b: nat, c: nat)
    requires b > 0 && a >= b * c
    ensures RoundHalfEven(a, b) >= c
  {
    var q := a / b;
    assert a == q * b + a % b;
    if q < c {
      MulMono(q + 1, c, b);
      assert (q + 1) * b == q * b + b;
      MulSwap(1, b, c);
    }
  }

  /** Digits that are right for the interval round up to no less than the power of ten that the value reaches. */
  lemma DoneReaches(f: nat, one: nat, kappa: nat, exp: int, n: int)
    requires one > 0 && kappa >= 1 && exp < kappa && Pow(10, kappa - 1) * one <= f && Correct(f, one, exp, n)
    ensures n >= Pow(10, kappa - 1 - exp)
  {
    var c := Pow(10, kappa - 1 - exp);
    hide Pow;
    if exp >= 0 {
      var unit := Pow(10, exp) * one;
      TwoPowers(kappa - 1 - exp, exp, kappa - 1);
      MulAssoc(c, Pow(10, exp), one);
      MulStrict(0, Pow(10, exp), one);
      var v := f as real;
      assert RoundsTo(v, n, unit);
      NotBelow(f, n, c, unit);
    } else {
      var p := Pow(10, -exp);
      TwoPowers(kappa - 1, -exp, kappa - 1 - exp);
      MulMono(Pow(10, kappa - 1) * one, f, p);
      MulSwap(Pow(10, kappa - 1), one, p);
      var v := (f * p) as real;
      assert RoundsTo(v, n, one);
      NotBelow(f * p, n, c, one);
    }
  }

  lemma NotBelow(f: int, n: int, c: int, unit: nat)
    requires unit > 0 && c * unit <= f && RoundsTo(f as real, n, unit)
    ensures n >= c
  {
    if n < c {
      MulMono(n + 1, c, unit);
    }
  }

  lemma DoneDenotes(buf: seq<char>, f0: nat, e0: int, k: int, f: nat, one: nat, exp: int, raised: nat, n: int, top: int,
                    isFixed: bool)
    requires one > 0 && WithinOneUnit(f0, e0, k, f, one) && Correct(f, one, exp, n) && exp - k <= top
    requires !isFixed ==> |buf| == DigitsTo(exp - k, top)
    requires exp - k < top ==> n >= Pow(10, top - (exp - k) - 1)
    requires AllDigits(buf) && Number(buf) * Pow(10, raised) == n
    requires |buf| + raised == DigitsTo(exp - k, top) + (if n == Pow(10, DigitsTo(exp - k, top)) then 1 else 0)
    ensures Printed(buf, exp - k + raised, false, isFixed, exp - k, top, RoundedAt(f0, e0, exp - k))
  {
    hide Pow, Number, WithinOneUnit, Correct, RoundedAt, DigitsTo;
    NumberBound(buf);
    MulBound(0, 0, Number(buf), Pow(10, raised));
    CorrectIsExact(f0, e0, k, f, one, exp, n);
  }

  lemma EndedDenotes(handler: FixedHandler, f0: nat, e0: int, k: int, f: nat, one: nat, kappa: nat, exp: int)
    requires one > 0 && kappa >= 1 && Pow(10, kappa - 1) * one <= f && WithinOneUnit(f0, e0, k, f, one)
    requires Ended(handler, Done, f, one, kappa, exp, -k)
    ensures kappa - exp == if handler.precision > 1 then handler.precision else 1
    ensures Printed(handler.buf, exp + handler.exp10, false, handler.isFixed, exp - k, kappa - k, RoundedAt(f0, e0, exp - k))
  {
    hide Pow, Number, WithinOneUnit, Correct, RoundedAt, Printed, FixedHandler.Settled;
    var raised := handler.exp10 + k;
    var n := Number(handler.buf) * Pow(10, raised);
    SettledLength(handler, n, kappa - exp, raised);
    DoneReaches(f, one, kappa, exp, n);
    DoneDenotes(handler.buf, f0, e0, k, f, one, exp, raised, n, kappa - k, handler.isFixed);
  }

  lemma GivenUp(handler: FixedHandler, f: nat, one: nat, kappa: nat, exp: int, exp10: int)
    ensures Ended(handler, Error, f, one, kappa, exp, exp10) ==> |handler.buf| == kappa - exp && handler.exp10 == exp10
  {
  }

  lemma ExactDenotes(buf: seq<char>, digits: nat, raised: nat, f0: nat, e0: int, exp10: int, isFixed: bool)
    requires digits > 0 && RatioNum(f0, e0, exp10) * Pow(10, digits - 1) >= 0
    requires Rounded(buf, digits, raised, RatioNum(f0, e0, exp10) * Pow(10, digits - 1), RatioDen(e0, exp10))
    ensures var place := exp10 - (digits - 1);
            Printed(buf, place + raised, true, isFixed, place, exp10 + 1, RoundedAt(f0, e0, place))
  {
    hide Pow, Number, RatioNum, RatioDen, RoundHalfEven, RoundedAt;
    RoundedLower(f0, e0, exp10, digits - 1);
  }

  lemma OneDigitDenotes(buf: seq<char>, f0: nat, e0: int, exp10: int, isFixed: bool)
    requires AllDigits(buf) && |buf| == 1
    requires Number(buf) == RoundHalfEven(RatioNum(f0, e0, exp10), 10 * RatioDen(e0, exp10))
    ensures Printed(buf, exp10 + 1, true, isFixed, exp10 + 1, exp10 + 1, RoundedAt(f0, e0, exp10 + 1))
  {
    PowersOfTen01();
    NumberBound(buf);
    hide Pow, Number, RatioNum, RatioDen, RoundHalfEven, RoundedAt;
    RoundedHigher(f0, e0, exp10, 1);
  }

  lemma NoDigitsDenote(f0: nat, e0: int, k: int, f: nat, one: nat, exp: int, place: int, top: int)
    requires one > 0 && WithinOneUnit(f0, e0, k, f, one) && Correct(f, one, place + k, 0) && top < place
    ensures Printed([], exp, false, true, place, top, RoundedAt(f0, e0, place))
  {
    hide Pow, WithinOneUnit, Correct, RoundedAt;
    CorrectIsExact(f0, e0, k, f, one, place + k, 0);
  }

  lemma SettledLength(handler: FixedHandler, n: int, count: nat, raised: int)
    requires handler.Settled(n, count, raised)
    ensures AllDigits(handler.buf) && 0 <= raised <= 1 && Number(handler.buf) * Pow(10, raised) == n
    ensures |handler.buf| + raised == count + (if n == Pow(10, count) then 1 else 0)
    ensures !handler.isFixed ==> |handler.buf| == count
  {
  }

  /** A zero at the end can move into the exponent. */
  lemma DropZero(buf: seq<char>, exp: int, place: int, top: int, rounded: nat)
    requires place <= top && buf != [] && buf[|buf| - 1] == '0' && Denotes(buf, exp, place, top, rounded)
    ensures Denotes(buf[..|buf| - 1], exp + 1, place, top, rounded)
  {
    var kept := buf[..|buf| - 1];
    assert buf == kept + ['0'];
    NumberSnoc(kept, '0');
    var m := exp - place;
    assert Pow(10, m + 1) == 10 * Pow(10, m);
    MulAssoc(Number(kept), 10, Pow(10, m));
  }

  /** The digits of a positive number, before zeros at the end are removed. */
  method Print(f0: nat, e0: int, predecessorCloser: bool, limit: nat, isFixed: bool, f: nat, e: int, cachedExp10: int)
    returns (buf: seq<char>, exp: int, gaveUp: bool)
    requires 0 < f0 < 0x20_0000_0000_0000 && limit <= MAX_DOUBLE_DIGITS && Approximates(f, e, cachedExp10, f0, e0)
    ensures var kappa := IntegralDigitCount(f, e);
            kappa >= 1 &&
            var top := kappa - cachedExp10;
            var place := Place(limit, isFixed, top, FirstDigitOpen(f, Pow(2, -e), kappa));
            Printed(buf, exp, gaveUp, isFixed, place, top, RoundedAt(f0, e0, place))
  {
    hide Pow, Number, DigitCount, IntegralDigitCount, WithinOneUnit, Correct, RoundedAt, Printed, RatioNum, RatioDen, Rounded,
         RoundHalfEven, FirstDigitOpen, FixedHandler.Settled, Ended, AtLeastOne, DigitsTo;
    ghost var one, k, kappa: nat := Pow(2, -e), cachedExp10, IntegralDigitCount(f, e);
    DigitsOfValue(f, e, k, f0, e0);
    TopOfNumber(f, e, k, f0, e0);
    ghost var top := kappa - k;
    var handler := new FixedHandler(limit, -cachedExp10, isFixed);
    var result;
    result, exp := GenDigits(f, e, 1, handler);
    gaveUp := result == Error;
    if result == Error {
      GivenUp(handler, f, one, kappa, exp, -k);
      exp := exp + |handler.buf| - cachedExp10 - 1;
      assert exp == top - 1;
      EstimateHolds(f0, e0, top);
      buf, exp := Format(f0, e0, predecessorCloser, handler.precision, exp);
      if handler.precision > 0 {
        MulBound(0, 0, RatioNum(f0, e0, top - 1), Pow(10, handler.precision - 1));
        ExactDenotes(buf, handler.precision, exp - (top - handler.precision), f0, e0, top - 1, isFixed);
      } else {
        OneDigitDenotes(buf, f0, e0, top - 1, isFixed);
      }
    } else {
      if isFixed && handler.precision < 0 {
        NoDigitsDenote(f0, e0, k, f, one, kappa - k, 0 - limit, top);
      } else if isFixed && handler.precision == 0 {
        ShortDenotes(handler.buf, f0, e0, k, f, one, exp);
      } else {
        EndedDenotes(handler, f0, e0, k, f, one, kappa, exp);
      }
      exp := exp + handler.exp10;
      buf := handler.buf;
    }
  }

  lemma ShortDigit(buf: seq<char>)
    requires buf in {['0'], ['1']}
    ensures AllDigits(buf) && |buf| == 1 && Number(buf) * Pow(10, 0) == Number(buf) && Number(buf) != Pow(10, 1)
  {
    PowersOfTen01();
    assert buf[..0] == [];
  }

  /** A single digit at the place above the first one. */
  lemma ShortDenotes(buf: seq<char>, f0: nat, e0: int, k: int, f: nat, one: nat, exp: int)
    requires one > 0 && WithinOneUnit(f0, e0, k, f, one) && buf in {['0'], ['1']} && Correct(f, one, exp, Number(buf))
    ensures Printed(buf, exp - k, false, true, exp - k, exp - k, RoundedAt(f0, e0, exp - k))
  {
    hide Pow, Number, WithinOneUnit, Correct, RoundedAt, Printed;
    ShortDigit(buf);
    DoneDenotes(buf, f0, e0, k, f, one, exp, 0, Number(buf), exp - k, true);
  }

  /** What the caller gets for the precision asked for, `top` being the place above the first digit. Fixed output is
      rounded at that many places, but at no more than 767. Other output is rounded at that many digits: it has no more than
      767 of them, and yet stands for the number rounded at the last digit asked for. */
  ghost predicate AsAsked(buf: seq<char>, exp: int, precision: nat, isFixed: bool, showPoint: bool, top: int, f0: nat, e0: int) {
    && (isFixed && precision <= 767 ==> Denotes(buf, exp, 0 - precision, top, RoundedAt(f0, e0, 0 - precision)))
    && (isFixed && precision > 767 ==> Denotes(buf, exp, -767, top, RoundedAt(f0, e0, -767)))
    && (!isFixed && 1 <= precision <= 767 ==> Denotes(buf, exp, top - precision, top, RoundedAt(f0, e0, top - precision)))
    && (!isFixed && showPoint && precision >= 1 ==> |buf| == if precision <= 767 then precision else 767)
    && (!isFixed && precision >= 1 && -1074 <= e0 <= 971 ==>
          && exp >= top - precision && AllDigits(buf)
          && Number(buf) * Pow(10, exp - (top - precision)) == RoundedAt(f0, e0, top - precision))
  }

  lemma AskedFor(buf: seq<char>, exp: int, precision: nat, isFixed: bool, showPoint: bool, open: bool,
                 f: nat, e: int, k: int, f0: nat, e0: int)
    requires e <= 0 && Approximates(f, e, k, f0, e0) && f0 < 0x20_0000_0000_0000
    requires var top := IntegralDigitCount(f, e) - k;
             var place := Place(precision, isFixed, top, open);
             Denotes(buf, exp, place, top, RoundedAt(f0, e0, place)) && (!isFixed && showPoint ==> |buf| == DigitsTo(place, top))
    ensures AsAsked(buf, exp, precision, isFixed, showPoint, IntegralDigitCount(f, e) - k, f0, e0)
  {
    var top := IntegralDigitCount(f, e) - k;
    hide RoundedAt, Approximates, Number, Pow, IntegralDigitCount;
    if !isFixed && precision >= 1 && -1074 <= e0 <= 971 {
      if precision >= 767 {
        NothingLost(f, e, k, f0, e0, precision);
        MoreZeros(Number(buf), exp - (top - 767), precision - 767, RoundedAt(f0, e0, top - 767));
        assert exp - (top - 767) + (precision - 767) == exp - (top - precision);
      }
    }
  }

  lemma MoreZeros(n: int, m: nat, j: nat, rounded: nat)
    requires n * Pow(10, m) == rounded
    ensures n * Pow(10, m + j) == rounded * Pow(10, j)
  {
    PowAdd(10, m, j);
    MulAssoc(n, Pow(10, m), Pow(10, j));
  }

  /** Prints f0 * 2^e0. The fast printer works on a 64-bit value less than one unit from f0 * 2^e0 * 10^cachedExp10; the
      exact one takes over when it gives up. */
  method FormatFloat(f0: nat, e0: int, predecessorCloser: bool, precision: nat, isFixed: bool, showPoint: bool,
                     f: nat, e: int, cachedExp10: int)
    returns (buf: seq<char>, exp: int, gaveUp: bool)
    requires f0 < 0x20_0000_0000_0000
    requires f0 > 0 ==> Approximates(f, e, cachedExp10, f0, e0)
    ensures f0 == 0 ==> forall i :: 0 <= i < |buf| ==> buf[i] == '0'
    ensures f0 == 0 ==> if isFixed && precision > 0 then |buf| == precision && exp == 0 - precision else |buf| == 1 && exp == 0
    ensures f0 > 0 ==>
              var kappa := IntegralDigitCount(f, e);
              kappa >= 1 &&
              var top := kappa - cachedExp10;
              var place := Place(precision, isFixed, top, FirstDigitOpen(f, Pow(2, -e), kappa));
              && Denotes(buf, exp, place, top, RoundedAt(f0, e0, place))
              && (!isFixed && showPoint ==> |buf| == DigitsTo(place, top))
              && (buf != [] ==> (buf[0] == '0' <==> RoundedAt(f0, e0, place) < Pow(10, DigitsTo(place, top) - 1)))
              && (!gaveUp && place < top ==> RoundedAt(f0, e0, place) >= Pow(10, top - place - 1))
    ensures f0 > 0 ==> AsAsked(buf, exp, precision, isFixed, showPoint, IntegralDigitCount(f, e) - cachedExp10, f0, e0)
    ensures f0 > 0 && !isFixed && !showPoint && buf != [] ==> buf[|buf| - 1] != '0'
  {
    hide RoundedAt, Denotes, DigitsTo, IntegralDigitCount, Pow, WithinOneUnit, FirstDigitOpen, AsAsked;
    gaveUp := false;
    if f0 == 0 {
      if precision == 0 || !isFixed {
        return ['0'], 0, false;
      }
      return seq(precision, _ => '0'), 0 - precision, false;
    }
    var limit := if precision > MAX_DOUBLE_DIGITS then MAX_DOUBLE_DIGITS else precision;
    buf, exp, gaveUp := Print(f0, e0, predecessorCloser, limit, isFixed, f, e, cachedExp10);
    ghost var kappa := IntegralDigitCount(f, e);
    ghost var top := kappa - cachedExp10;
    ghost var place := Place(limit, isFixed, top, FirstDigitOpen(f, Pow(2, -e), kappa));
    if !isFixed && !showPoint {
      var numDigits := |buf|;
      assert buf[..numDigits] == buf;
      while numDigits > 0 && buf[numDigits - 1] == '0'
        invariant 0 <= numDigits <= |buf|
        invariant Denotes(buf[..numDigits], exp, place, top, RoundedAt(f0, e0, place))
      {
        DropZero(buf[..numDigits], exp, place, top, RoundedAt(f0, e0, place));
        assert buf[..numDigits][..numDigits - 1] == buf[..numDigits - 1];
        numDigits := numDigits - 1;
        exp := exp + 1;
      }
      buf := buf[..numDigits];
    }
    AskedFor(buf, exp, precision, isFixed, showPoint, FirstDigitOpen(f, Pow(2, -e), kappa), f, e, cachedExp10, f0, e0);
    if buf != [] {
      NothingAboveTheTop(buf, exp, place, top, RoundedAt(f0, e0, place));
      FirstDigitShown(buf, exp, place, top, RoundedAt(f0, e0, place));
    }
  }

  lemma NothingAboveTheTop(buf: seq<char>, exp: int, place: int, top: int, rounded: nat)
    requires Denotes(buf, exp, place, top, rounded) && buf != []
    ensures place <= top
  {
  }

  /** With a precision of at least one, all digits asked for are significant, whichever printer answers, unless the number
      lies just below a power of ten that the value hits. */
  lemma DigitsAreSignificant(f: nat, e: int, k: int, f0: nat, e0: int, place: int)
    requires Approximates(f, e, k, f0, e0) && place < IntegralDigitCount(f, e) - k
    ensures var kappa := IntegralDigitCount(f, e);
            kappa >= 1 && (RoundedAt(f0, e0, place) < Pow(10, kappa - k - place - 1) ==>
                             && f == Pow(10, kappa - 1) * Pow(2, -e)
                             && RatioNum(f0, e0, kappa - k - 1) < RatioDen(e0, kappa - k - 1))
  {
    hide Pow, RatioNum, RatioDen, RoundedAt, IntegralDigitCount, DigitCount, WithinOneUnit;
    var top := IntegralDigitCount(f, e) - k;
    DigitsOfValue(f, e, k, f0, e0);
    TopOfNumber(f, e, k, f0, e0);
    if RatioNum(f0, e0, top - 1) >= RatioDen(e0, top - 1) {
      RoundedReaches(f0, e0, place, top);
    }
  }

  // Two numbers printed with no precision at all.

  /** 2.5 and 2.75 in quarters. */
  predicate IsExample(f0: nat, e0: int, quarters: nat) {
    (f0 == 5 && e0 == -1 && quarters == 10) || (f0 == 11 && e0 == -2 && quarters == 11)
  }

  lemma RatioOfExample(f0: nat, e0: int, quarters: nat, k: int)
    requires IsExample(f0, e0, quarters) && k >= 0
    ensures RatioNum(f0, e0, -k) == f0 * Pow(10, k) && RatioDen(e0, -k) * quarters == 4 * f0
  {
    assert Pow(2, 0) == 1 && Pow(2, 1) == 2 && Pow(2, 2) == 4 && Pow(10, 0) == 1;
    hide Pow;
    assert Max0(-(-k)) == k && Max0(-k) == 0;
  }

  /** Their scaled values are exact: `quarters` quarters of 10^k units of one. */
  lemma ExampleIsExact(f: nat, e: int, k: int, f0: nat, e0: int, quarters: nat) returns (h: nat)
    requires IsExample(f0, e0, quarters) && Approximates(f, e, k, f0, e0)
    ensures k >= 0 && f == quarters * h && Pow(10, k) * Pow(2, -e) == 4 * h
  {
    var q := Pow(2, -e - 2);
    PowAdd(2, 2, -e - 2);
    assert Pow(2, 2) == 4;
    OneBounds(-e);
    hide Pow, RatioNum, RatioDen;
    NotScaledDown(f, Pow(2, -e), k, f0, e0, quarters);
    RatioOfExample(f0, e0, quarters, k);
    h := Pow(10, k) * q;
    MulBound(0, 0, Pow(10, k), q);
    MulSwap(Pow(10, k), 4, q);
    FourTimes(Pow(10, k), q, f0);
    Squeeze(f, f0, RatioDen(e0, -k), quarters, h);
  }

  lemma FourTimes(p: int, q: int, f0: int)
    ensures p * (4 * q) == 4 * (p * q) && f0 * p * (4 * q) == 4 * f0 * (p * q)
  {
    MulAssoc(f0, p, 4 * q);
    MulAssoc(p, 4, q);
    MulAssoc(4, p, q);
    MulAssoc(f0, 4, p * q);
  }

  lemma Squeeze(f: int, f0: int, den: int, quarters: int, h: int)
    requires den > 0 && den * quarters == 4 * f0 && (f - 1) * den < 4 * f0 * h < (f + 1) * den
    ensures f == quarters * h
  {
    MulAssoc(den, quarters, h);
    var x := quarters * h;
    MulCancelLess(f - 1, x, den);
    MulCancelLess(x, f + 1, den);
  }

  lemma NotScaledDown(f: nat, one: nat, k: int, f0: nat, e0: int, quarters: nat)
    requires IsExample(f0, e0, quarters) && one > 4 && f / one != 0 && WithinOneUnit(f0, e0, k, f, one)
    ensures k >= 0
  {
    AtLeastOneUnit(f, one);
    if k < 0 {
      SmallRatio(f0, e0, quarters, k);
      hide RatioNum, RatioDen, Pow;
      MulBound(one - 1, 20, f - 1, RatioDen(e0, -k));
    }
  }

  lemma SmallRatio(f0: nat, e0: int, quarters: nat, k: int)
    requires IsExample(f0, e0, quarters) && k < 0
    ensures RatioNum(f0, e0, -k) == f0 <= 11 && RatioDen(e0, -k) >= 20
  {
    assert Pow(2, 0) == 1 && Pow(2, 1) == 2 && Pow(2, 2) == 4 && Pow(10, 0) == 1 && Pow(10, 1) == 10;
    PowMono(10, 1, -k);
    hide Pow;
    MulBound(2, 10, Pow(2, Max0(-e0)), Pow(10, -k));
  }

  lemma AtLeastOneUnit(f: nat, one: nat)
    requires one > 0 && f / one != 0
    ensures f >= one
  {
    if f < one {
      DivModUnique(f, one, 0, f);
    }
  }

  lemma SamePower(f: nat, one: nat, kappa: nat, k: nat)
    requires kappa >= 1 && Pow(10, kappa - 1) * one <= f < Pow(10, kappa) * one
    requires Pow(10, k) * one <= f < 10 * (Pow(10, k) * one)
    ensures kappa == k + 1
  {
    assert Pow(10, k + 1) == 10 * Pow(10, k);
    hide Pow;
    MulAssoc(10, Pow(10, k), one);
    if kappa - 1 > k {
      PowMono(10, k + 1, kappa - 1);
      MulMono(Pow(10, k + 1), Pow(10, kappa - 1), one);
    } else if kappa <= k {
      PowMono(10, kappa, k);
      MulMono(Pow(10, kappa), Pow(10, k), one);
    }
  }

  lemma OpenAtHalf(f: nat, one: nat, kappa: nat, h: nat, quarters: nat)
    requires kappa >= 1 && Pow(10, kappa - 1) * one == 4 * h && h > 2 && f == quarters * h && (quarters == 10 || quarters == 11)
    ensures FirstDigitOpen(f, one, kappa) <==> quarters == 10
  {
    hide Pow;
    if quarters == 10 {
      DivModUnique(f, 4 * h, 2, 2 * h);
    } else {
      DivModUnique(f, 4 * h, 2, 3 * h);
    }
  }

  lemma ExampleDigits(f: nat, e: int, k: int, f0: nat, e0: int, quarters: nat)
    requires IsExample(f0, e0, quarters) && Approximates(f, e, k, f0, e0)
    ensures var kappa := IntegralDigitCount(f, e);
            kappa >= 1 && kappa - k == 1 && (FirstDigitOpen(f, Pow(2, -e), kappa) <==> quarters == 10)
  {
    hide Pow, IntegralDigitCount, WithinOneUnit, DigitCount, FirstDigitOpen;
    var h := ExampleIsExact(f, e, k, f0, e0, quarters);
    DigitsOfValue(f, e, k, f0, e0);
    var kappa := IntegralDigitCount(f, e);
    SamePower(f, Pow(2, -e), kappa, k);
    OpenAtHalf(f, Pow(2, -e), kappa, h, quarters);
  }

  /** With no precision at all 2.5 becomes no tens, and 2.75 becomes three units: the halfway case is left to the exact
      printer, which then rounds one place higher. */
  lemma NoPrecisionAtAll(f: nat, e: int, k: int)
    ensures Approximates(f, e, k, 5, -1) ==>
              var kappa := IntegralDigitCount(f, e);
              kappa >= 1 && Place(0, false, kappa - k, FirstDigitOpen(f, Pow(2, -e), kappa)) == 1
    ensures Approximates(f, e, k, 11, -2) ==>
              var kappa := IntegralDigitCount(f, e);
              kappa >= 1 && Place(0, false, kappa - k, FirstDigitOpen(f, Pow(2, -e), kappa)) == 0
    ensures RoundedAt(5, -1, 1) == 0 && RoundedAt(11, -2, 0) == 3
  {
    ExampleRounding();
    hide Pow, IntegralDigitCount, FirstDigitOpen, Approximates, RoundedAt;
    if Approximates(f, e, k, 5, -1) {
      ExampleDigits(f, e, k, 5, -1, 10);
    }
    if Approximates(f, e, k, 11, -2) {
      ExampleDigits(f, e, k, 11, -2, 11);
    }
  }

  /** Values like that occur. */
  lemma ExamplesOccur()
    ensures Approximates(10 * 0x400_0000_0000_0000, -60, 0, 5, -1) && Approximates(11 * 0x400_0000_0000_0000, -60, 0, 11, -2)
  {
    PowersOf2();
    assert Pow(2, 60) == 2 * Pow(2, 59);
    RatioOfExample(5, -1, 10, 0);
    RatioOfExample(11, -2, 11, 0);
    hide RatioNum, RatioDen;
    ExactApproximates(10 * 0x400_0000_0000_0000, -60, 0, 5, -1);
    ExactApproximates(11 * 0x400_0000_0000_0000, -60, 0, 11, -2);
  }

  lemma ExampleRounding()
    ensures RoundedAt(5, -1, 1) == 0 && RoundedAt(11, -2, 0) == 3
  {
    assert Pow(2, 0) == 1 && Pow(2, 1) == 2 && Pow(2, 2) == 4 && Pow(10, 0) == 1 && Pow(10, 1) == 10;
  }
}
