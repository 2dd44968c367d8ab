/** Digit generation from a 64-bit fixed-point value that is only known up to an error: it either gives digits that are
    right for every real number in the error interval, or gives up. */
module Grisu {
  import opened Powers
  import opened Decimal
  import opened IntegerText

  datatype Direction = Unknown | Up | Down

  datatype DigitsResult = More | Done | Error

  /** Which way to round a remainder that is off by up to `error`. */
  function RoundDirection(divisor: nat, remainder: nat, error: nat): Direction
    requires remainder < divisor && error < divisor - error
  {
    if remainder <= divisor - remainder && error * 2 <= divisor - remainder * 2 then Down
    else if remainder >= error && remainder - error >= divisor - (remainder - error) then Up
    else Unknown
  }

  /** A decided direction is the strictly nearest one for every real remainder within the error. */
  lemma DirectionIsNearest(divisor: nat, remainder: nat, error: nat, x: real)
    requires remainder < divisor && error < divisor - error
    requires -(error as real) < x - remainder as real < error as real
    ensures RoundDirection(divisor, remainder, error) == Down ==> -(divisor as real) < 2.0 * x < divisor as real
    ensures RoundDirection(divisor, remainder, error) == Up ==> divisor as real < 2.0 * x < 3.0 * divisor as real
  {
  }

  /** The direction is left open exactly when the halfway point lies inside the error interval. */
  lemma DirectionUnknownIffHalfwayInside(divisor: nat, remainder: nat, error: nat)
    requires remainder < divisor && error < divisor - error
    ensures RoundDirection(divisor, remainder, error) == Unknown
            <==> 2 * remainder - 2 * error < divisor < 2 * remainder + 2 * error
  {
  }

  /** `n` is the one nearest integer to `v / unit`. */
  ghost predicate RoundsTo(v: real, n: int, unit: nat) {
    -(unit as real) < 2.0 * (v - (n * unit) as real) < unit as real
  }

  lemma RoundsToOneInteger(v: real, m: int, n: int, unit: nat)
    requires unit > 0 && RoundsTo(v, m, unit) && RoundsTo(v, n, unit)
    ensures m == n
  {
    var d := m - n;
    assert d * unit == m * unit - n * unit;
    if d > 0 {
      MulMono(1, d, unit);
    } else if d < 0 {
      MulMono(d, -1, unit);
    }
  }

  /** Every real number less than `error` away from `value` rounds to `n` in steps of `unit`. */
  ghost predicate AllRoundTo(value: nat, error: nat, n: int, unit: nat) {
    forall v: real :: -(error as real) < v - value as real < error as real ==> RoundsTo(v, n, unit)
  }

  /** The digits so far with a decided direction are right for the whole interval. */
  lemma DecidedIsCorrect(value: nat, error: nat, n: nat, divisor: nat, remainder: nat)
    requires remainder < divisor && error < divisor - error && value == n * divisor + remainder
    ensures var dir := RoundDirection(divisor, remainder, error);
            dir != Unknown ==> AllRoundTo(value, error, if dir == Up then n + 1 else n, divisor)
  {
    hide RoundDirection, RoundsTo;
    var dir := RoundDirection(divisor, remainder, error);
    if dir != Unknown {
      var m := if dir == Up then n + 1 else n;
      forall v: real | -(error as real) < v - value as real < error as real
        ensures RoundsTo(v, m, divisor)
      {
        DecidedAt(v, error, n, divisor, remainder, n * divisor);
      }
    }
  }

  lemma DecidedAt(v: real, error: nat, n: nat, divisor: nat, remainder: nat, w: nat)
    requires remainder < divisor && error < divisor - error && w == n * divisor
    requires -(error as real) < v - (w + remainder) as real < error as real
    ensures RoundDirection(divisor, remainder, error) == Down ==> RoundsTo(v, n, divisor)
    ensures RoundDirection(divisor, remainder, error) == Up ==> RoundsTo(v, n + 1, divisor)
  {
    hide RoundDirection;
    assert (n + 1) * divisor == w + divisor;
    DirectionIsNearest(divisor, remainder, error, v - w as real);
  }

  lemma PowersOfTen01()
    ensures Pow(10, 0) == 1 && Pow(10, 1) == 10
  {
  }

  function Bump(direction: Direction): nat {
    if direction == Up then 1 else 0
  }

  class FixedHandler {
    var buf: seq<char>
    var precision: int
    var exp10: int
    const isFixed: bool

    constructor (precision: int, exp10: int, isFixed: bool)
      ensures buf == [] && this.precision == precision && this.exp10 == exp10 && this.isFixed == isFixed
    {
      buf := [];
      this.precision, this.exp10, this.isFixed := precision, exp10, isFixed;
    }

    /** Fixes the precision and rounds at once when no digit is asked for. */
    method OnStart(divisor: nat, remainder: nat, error: nat, exp: nat) returns (result: DigitsResult)
      requires buf == [] && remainder < divisor && error < divisor - error
      modifies this`buf, this`precision
      ensures precision == old(precision) + if isFixed then exp + exp10 else 0
      ensures !isFixed || precision > 0 ==> result == More && buf == []
      ensures isFixed && precision < 0 ==> result == Done && buf == []
      ensures isFixed && precision == 0 ==>
                match RoundDirection(divisor, remainder, error)
                case Unknown => result == Error && buf == []
                case Up => result == Done && buf == ['1']
                case Down => result == Done && buf == ['0']
    {
      if !isFixed {
        return More;
      }
      precision := precision + exp + exp10;
      if precision > 0 {
        return More;
      }
      if precision < 0 {
        return Done;
      }
      var dir := RoundDirection(divisor, remainder, error);
      if dir == Unknown {
        return Error;
      }
      buf := buf + [if dir == Up then '1' else '0'];
      return Done;
    }

    /** Takes one more digit; at the last one rounds, carrying to the left. */
    method OnDigit(digit: char, divisor: nat, remainder: nat, error: nat, integral: bool) returns (result: DigitsResult)
      requires IsDigit(digit) && AllDigits(buf) && remainder < divisor
      requires integral ==> error == 1 && divisor > 2
      modifies this`buf, this`exp10
      ensures result != Done ==> buf == old(buf) + [digit] && exp10 == old(exp10)
      ensures result == More ==> |buf| < precision && (integral || error < remainder)
      ensures integral ==> (result == More <==> |old(buf)| + 1 < precision)
      ensures integral && result == Error ==> RoundDirection(divisor, remainder, error) == Unknown
      ensures result == Done ==>
                && |old(buf)| + 1 >= precision && error < divisor - error
                && RoundDirection(divisor, remainder, error) != Unknown
                && Settled(Number(old(buf) + [digit]) + Bump(RoundDirection(divisor, remainder, error)),
                           |old(buf)| + 1, exp10 - old(exp10))
    {
      buf := buf + [digit];
      if !integral && error >= remainder {
        return Error;
      }
      if |buf| < precision {
        return More;
      }
      if !integral {
        if error >= divisor || error >= divisor - error {
          return Error;
        }
      }
      var dir := RoundDirection(divisor, remainder, error);
      NumberBound(buf);
      if dir != Up {
        PowersOfTen01();
        return if dir == Down then Done else Error;
      }
      RoundUpLast();
      return Done;
    }

    /** Bumps the last digit and carries; a carry out of the first digit lengthens fixed output and raises the exponent of
        the other. */
    method RoundUpLast()
      requires buf != [] && AllDigits(buf)
      modifies this`buf, this`exp10
      ensures Settled(Number(old(buf)) + 1, |old(buf)|, exp10 - old(exp10))
    {
      hide Number;
      NumberBound(buf);
      ghost var kept, digit := buf[..|buf| - 1], buf[|buf| - 1];
      assert buf == kept + [digit];
      NumberSnoc(kept, digit);
      NumberSnoc(kept, (digit as int + 1) as char);
      assert buf[|buf| - 1 := (digit as int + 1) as char] == kept + [(digit as int + 1) as char];
      var raised;
      buf, raised := PropagateCarry(buf[|buf| - 1 := (buf[|buf| - 1] as int + 1) as char]);
      PowersOfTen01();
      if raised == 1 {
        if isFixed {
          NumberSnoc(buf, '0');
          buf := buf + ['0'];
        } else {
          exp10 := exp10 + 1;
        }
      }
    }

    /** The digits stand for `n`; when the carry left the first of `count` digits they are one more, or stand for a
        tenth of it with a raised exponent. */
    ghost predicate Settled(n: int, count: nat, raised: int)
      reads this
    {
      && AllDigits(buf)
      && raised == (if !isFixed && n == Pow(10, count) then 1 else 0)
      && |buf| == count + (if isFixed && n == Pow(10, count) then 1 else 0)
      && Number(buf) * Pow(10, raised) == n
    }
  }

  /** What a successful run promises. The value and its unit error are scaled by ten for every fractional digit, so that
      all digits before the last place make up whole multiples of the returned place. */
  ghost predicate Correct(f: nat, one: nat, exp: int, n: int) {
    if exp >= 0 then AllRoundTo(f, 1, n, Pow(10, exp) * one) else AllRoundTo(f * Pow(10, -exp), Pow(10, -exp), n, one)
  }

  /** The state between two digits of the integral part. */
  ghost predicate Integral(f: nat, one: nat, n: int, exp: nat, integral: nat, fractional: nat) {
    f == n * (Pow(10, exp) * one) + (integral * one + fractional) && integral < Pow(10, exp) && fractional < one
  }

  /** The state after `j` digits of the fractional part. */
  ghost predicate Fractional(f: nat, one: nat, n: int, j: nat, fractional: nat) {
    f * Pow(10, j) == n * one + fractional && fractional < one
  }

  lemma IntegralStart(f: nat, one: nat, exp: nat)
    requires one > 0 && f / one < Pow(10, exp)
    ensures Integral(f, one, 0, exp, f / one, f % one)
  {
  }

  lemma IntegralStep(f: nat, one: nat, n: nat, exp: nat, integral: nat, fractional: nat)
    requires exp > 0 && Integral(f, one, n, exp, integral, fractional)
    ensures var p := Pow(10, exp - 1);
            var digit, rest := integral / p, integral % p;
            && 0 <= digit <= 9 && Integral(f, one, n * 10 + digit, exp - 1, rest, fractional)
            && 0 <= rest * one + fractional < p * one
            && f == (n * 10 + digit) * (p * one) + (rest * one + fractional)
  {
    var p := Pow(10, exp - 1);
    assert Pow(10, exp) == 10 * p;
    hide Pow;
    MulAssoc(10, p, one);
    var digit, rest := integral / p, integral % p;
    assert integral == digit * p + rest;
    SplitIntegral(f, n, p, digit, rest, one, fractional);
  }

  lemma SplitIntegral(f: nat, n: nat, p: nat, digit: int, rest: nat, one: nat, fractional: nat)
    requires f == n * (10 * (p * one)) + ((digit * p + rest) * one + fractional)
    requires 0 <= digit * p + rest < 10 * p && rest < p && fractional < one
    ensures 0 <= digit <= 9 && 0 <= rest * one + fractional < p * one
    ensures f == (n * 10 + digit) * (p * one) + (rest * one + fractional)
  {
    if digit > 9 {
      MulMono(10, digit, p);
    } else if digit < 0 {
      MulMono(digit, -1, p);
    }
    SplitProducts(n, p * one, digit, p, rest, one);
    MulMono(rest + 1, p, one);
    assert (rest + 1) * one == rest * one + one;
  }

  lemma SplitProducts(n: int, u: int, digit: int, p: int, rest: int, one: int)
    requires u == p * one
    ensures n * (10 * u) + (digit * p + rest) * one == (n * 10 + digit) * u + rest * one
  {
    MulAssoc(n, 10, u);
    MulAssoc(digit, p, one);
    assert (digit * p + rest) * one == digit * p * one + rest * one;
    assert (n * 10 + digit) * u == n * 10 * u + digit * u;
  }

  lemma FractionalStart(f: nat, one: nat, n: nat, fractional: nat)
    requires Integral(f, one, n, 0, 0, fractional)
    ensures Fractional(f, one, n, 0, fractional)
  {
  }

  lemma FractionalStep(f: nat, one: nat, n: nat, j: nat, fractional: nat)
    requires one > 0 && Fractional(f, one, n, j, fractional)
    ensures var digit, rest := fractional * 10 / one, fractional * 10 % one;
            0 <= digit <= 9 && Fractional(f, one, n * 10 + digit, j + 1, rest)
  {
    var digit, rest := fractional * 10 / one, fractional * 10 % one;
    assert fractional * 10 == digit * one + rest;
    if digit > 9 {
      MulMono(10, digit, one);
    }
    MulSwap(f, Pow(10, j), 10);
    MulAssoc(f, 10, Pow(10, j));
    assert (n * 10 + digit) * one == n * 10 * one + digit * one;
    MulSwap(n, 10, one);
    MulAssoc(n, one, 10);
  }

  /** 10^j stays below 2^60, and so below 19 digits. */
  lemma FewFractionalDigits(j: nat, one: nat)
    requires Pow(10, j) < one <= 0x1000_0000_0000_0000
    ensures j <= 18
  {
    PowersOf10();
    if j > 18 {
      PowMono(10, 19, j);
    }
  }

  /** The divisors the code selects by the number of digits left. */
  function DigitDivisor(exp: nat): (d: nat)
    requires 1 <= exp <= 10
    ensures d == Pow(10, exp - 1)
  {
    PowersOf10();
    match exp
    case 10 => 1000000000
    case 9 => 100000000
    case 8 => 10000000
    case 7 => 1000000
    case 6 => 100000
    case 5 => 10000
    case 4 => 1000
    case 3 => 100
    case 2 => 10
    case _ => 1
  }

  function AtLeastOne(p: int): nat {
    if p > 1 then p else 1
  }

  /** The first digit cannot be rounded with certainty: the halfway point behind it is less than one unit away. */
  predicate FirstDigitOpen(f: nat, one: nat, kappa: nat)
    requires kappa >= 1
  {
    var d := Pow(10, kappa - 1) * one;
    d > 2 && RoundDirection(d, f % d, 1) == Unknown
  }

  /** How digit generation ends, `kappa` being the number of integral digits: with settled digits that are correct at the
      returned place, or with the digits given up and the position of the first one still known. */
  ghost predicate Ended(handler: FixedHandler, result: DigitsResult, f: nat, one: nat, kappa: nat, exp: int, exp10: int)
    reads handler
  {
    && result != More && exp < kappa
    && (result == Error ==> AllDigits(handler.buf) && |handler.buf| == kappa - exp && handler.exp10 == exp10)
    && (result == Done ==>
          && kappa - exp == AtLeastOne(handler.precision)
          && exp10 <= handler.exp10 <= exp10 + 1
          && var n := Number(handler.buf) * Pow(10, handler.exp10 - exp10);
          && handler.Settled(n, kappa - exp, handler.exp10 - exp10)
          && Correct(f, one, exp, n))
  }

  /** Digits of the integral part; `More` when they are all out and more are wanted. */
  method IntegralDigits(f: nat, one: nat, kappa: nat, handler: FixedHandler, ghost exp10: int)
    returns (result: DigitsResult, exp: nat)
    requires 4 < one && one <= f < W64 && 1 <= kappa <= 10 && handler.buf == [] && handler.exp10 == exp10
    requires Pow(10, kappa - 1) <= f / one < Pow(10, kappa)
    modifies handler`buf, handler`exp10
    ensures result != More ==> Ended(handler, result, f, one, kappa, exp, exp10)
    ensures handler.precision <= 1 ==> result != More && (result == Error <==> FirstDigitOpen(f, one, kappa))
    ensures result == More ==>
              && exp == 0 && |handler.buf| == kappa < handler.precision && AllDigits(handler.buf) && handler.exp10 == exp10
              && Number(handler.buf) >= 0 && Integral(f, one, Number(handler.buf), 0, 0, f % one)
  {
    hide Pow, Number, Integral, Correct, FixedHandler.Settled, RoundDirection, FirstDigitOpen;
    var integral: nat, fractional: nat := f / one, f % one;
    exp := kappa;
    result := More;
    IntegralStart(f, one, kappa);
    NumberBound([]);
    NoNumber();
    while exp > 0
      invariant 0 <= exp <= kappa && |handler.buf| == kappa - exp && AllDigits(handler.buf) && handler.exp10 == exp10
      invariant result == More && (exp < kappa ==> kappa - exp < handler.precision)
      invariant handler.precision == old(handler.precision)
      invariant Number(handler.buf) >= 0 && Integral(f, one, Number(handler.buf), exp, integral, fractional)
    {
      ghost var before := handler.buf;
      IntegralStep(f, one, Number(handler.buf), exp, integral, fractional);
      var digit := integral / DigitDivisor(exp);
      integral := integral % DigitDivisor(exp);
      exp := exp - 1;
      var remainder := integral * one + fractional;
      var divisor := Pow(10, exp) * one;
      DivisorFits(f, one, kappa, exp);
      NumberSnoc(before, DigitChar(digit));
      NumberBound(before + [DigitChar(digit)]);
      result := handler.OnDigit(DigitChar(digit), divisor, remainder, 1, true);
      if result != More {
        if exp == kappa - 1 {
          FirstDigit(f, one, kappa, digit, remainder);
        }
        if result == Done {
          IntegralEnds(handler, f, one, kappa, exp, exp10, before + [DigitChar(digit)], integral, fractional);
        }
        return;
      }
    }
    NothingLeft(f, one, Number(handler.buf), integral, fractional);
  }

  lemma FirstDigit(f: nat, one: nat, kappa: nat, digit: nat, remainder: nat)
    requires kappa >= 1 && 4 < Pow(10, kappa - 1) * one && remainder < Pow(10, kappa - 1) * one
    requires f == digit * (Pow(10, kappa - 1) * one) + remainder
    ensures FirstDigitOpen(f, one, kappa) <==> RoundDirection(Pow(10, kappa - 1) * one, remainder, 1) == Unknown
  {
    hide RoundDirection, Pow;
    DivModUnique(f, Pow(10, kappa - 1) * one, digit, remainder);
  }

  lemma NoNumber()
    ensures Number([]) == 0
  {
  }

  lemma NothingLeft(f: nat, one: nat, n: int, integral: nat, fractional: nat)
    requires Integral(f, one, n, 0, integral, fractional)
    ensures integral == 0
  {
  }

  /** The shifted power of ten fits a 64-bit word, and an error of one is less than half of it. */
  lemma DivisorFits(f: nat, one: nat, kappa: nat, exp: nat)
    requires 4 < one && exp < kappa && Pow(10, kappa - 1) <= f / one
    ensures 4 < one <= Pow(10, exp) * one <= f
  {
    PowMono(10, exp, kappa - 1);
    MulMono(1, Pow(10, exp), one);
    MulMono(Pow(10, exp), f / one, one);
  }

  /** Digits of the fractional part, with the error growing by ten each time. */
  method FractionalDigits(f: nat, one: nat, ghost kappa: nat, handler: FixedHandler, ghost exp10: int)
    returns (result: DigitsResult, exp: int)
    requires 4 < one <= 0x1000_0000_0000_0000 && kappa <= 10
    requires |handler.buf| == kappa < handler.precision && AllDigits(handler.buf) && handler.exp10 == exp10
    requires Number(handler.buf) >= 0 && Integral(f, one, Number(handler.buf), 0, 0, f % one)
    modifies handler`buf, handler`exp10
    ensures Ended(handler, result, f, one, kappa, exp, exp10) && kappa - exp <= 29
  {
    hide Pow, Number, Integral, Fractional, Correct, FixedHandler.Settled, RoundDirection;
    var fractional: nat, error: nat := f % one, 1;
    ghost var j := 0;
    exp := 0;
    FractionalStart(f, one, Number(handler.buf), fractional);
    PowersOfTen01();
    while true
      invariant exp == -j && error == Pow(10, j) < one
      invariant |handler.buf| == kappa + j < handler.precision && AllDigits(handler.buf) && handler.exp10 == exp10
      invariant Number(handler.buf) >= 0 && Fractional(f, one, Number(handler.buf), j, fractional)
      decreases one - error
    {
      ghost var before := handler.buf;
      FewFractionalDigits(j, one);
      FractionalBound(f, one, Number(before), j, fractional);
      FractionalStep(f, one, Number(before), j, fractional);
      assert fractional * 10 < W64 && error * 10 < W64;
      fractional := fractional * 10;
      error := error * 10;
      var digit := DigitChar(fractional / one);
      fractional := fractional % one;
      exp := exp - 1;
      j := j + 1;
      PowTen(j);
      NumberSnoc(before, digit);
      NumberBound(before + [digit]);
      result := handler.OnDigit(digit, one, fractional, error, false);
      if result != More {
        if result == Done {
          FractionalEnds(handler, f, one, kappa, j, exp10, before + [digit], fractional);
        }
        return;
      }
    }
  }

  lemma PowTen(j: nat)
    requires j > 0
    ensures Pow(10, j) == 10 * Pow(10, j - 1)
  {
  }

  lemma FractionalBound(f: nat, one: nat, n: int, j: nat, fractional: nat)
    requires Fractional(f, one, n, j, fractional)
    ensures fractional < one
  {
  }

  lemma IntegralEnds(handler: FixedHandler, f: nat, one: nat, kappa: nat, exp: nat, exp10: int, digits: seq<char>,
                     integral: nat, fractional: nat)
    requires 4 < one && exp < kappa && |digits| == kappa - exp == AtLeastOne(handler.precision) && Number(digits) >= 0
    requires Integral(f, one, Number(digits), exp, integral, fractional)
    requires var divisor, remainder := Pow(10, exp) * one, integral * one + fractional;
             && 4 < divisor && remainder < divisor && RoundDirection(divisor, remainder, 1) != Unknown
             && handler.Settled(Number(digits) + Bump(RoundDirection(divisor, remainder, 1)), kappa - exp, handler.exp10 - exp10)
    ensures Ended(handler, Done, f, one, kappa, exp, exp10)
  {
    hide Pow, Number, Integral, Correct, FixedHandler.Settled, RoundDirection, AllRoundTo;
    var divisor, remainder := Pow(10, exp) * one, integral * one + fractional;
    IntegralTotal(f, one, Number(digits), exp, integral, fractional);
    DecidedIsCorrect(f, 1, Number(digits), divisor, remainder);
    var n := Number(digits) + Bump(RoundDirection(divisor, remainder, 1));
    SettledMeans(handler, n, kappa - exp, handler.exp10 - exp10);
    CorrectIntegral(f, one, exp, n);
  }

  lemma FractionalEnds(handler: FixedHandler, f: nat, one: nat, kappa: nat, j: nat, exp10: int, digits: seq<char>,
                       fractional: nat)
    requires 4 < one && j > 0 && |digits| == kappa + j == AtLeastOne(handler.precision) && Number(digits) >= 0
    requires Fractional(f, one, Number(digits), j, fractional) && Pow(10, j) < one - Pow(10, j)
    requires fractional < one && RoundDirection(one, fractional, Pow(10, j)) != Unknown
    requires handler.Settled(Number(digits) + Bump(RoundDirection(one, fractional, Pow(10, j))), kappa + j, handler.exp10 - exp10)
    ensures Ended(handler, Done, f, one, kappa, 0 - j, exp10)
  {
    hide Pow, Number, Fractional, Correct, FixedHandler.Settled, RoundDirection, AllRoundTo;
    FractionalTotal(f, one, Number(digits), j, fractional);
    DecidedIsCorrect(f * Pow(10, j), Pow(10, j), Number(digits), one, fractional);
    var n := Number(digits) + Bump(RoundDirection(one, fractional, Pow(10, j)));
    SettledMeans(handler, n, kappa + j, handler.exp10 - exp10);
    CorrectFractional(f, one, j, n);
  }

  lemma SettledMeans(handler: FixedHandler, n: int, count: nat, raised: int)
    requires handler.Settled(n, count, raised)
    ensures 0 <= raised <= 1 && Number(handler.buf) * Pow(10, raised) == n
  {
  }

  lemma IntegralTotal(f: nat, one: nat, n: int, exp: nat, integral: nat, fractional: nat)
    requires Integral(f, one, n, exp, integral, fractional)
    ensures f == n * (Pow(10, exp) * one) + (integral * one + fractional)
  {
  }

  lemma FractionalTotal(f: nat, one: nat, n: int, j: nat, fractional: nat)
    requires Fractional(f, one, n, j, fractional)
    ensures f * Pow(10, j) >= 0 && f * Pow(10, j) == n * one + fractional
  {
  }

  lemma CorrectIntegral(f: nat, one: nat, exp: nat, n: int)
    requires AllRoundTo(f, 1, n, Pow(10, exp) * one)
    ensures Correct(f, one, exp, n)
  {
  }

  lemma CorrectFractional(f: nat, one: nat, j: nat, n: int)
    requires j > 0 && AllRoundTo(f * Pow(10, j), Pow(10, j), n, one)
    ensures Correct(f, one, 0 - j, n)
  {
  }

  /** Generates digits of f * 2^e until the handler is satisfied or gives up; at most thirty characters are written. */
  method GenDigits(f: nat, e: int, unit: nat, handler: FixedHandler) returns (result: DigitsResult, exp: int)
    requires -60 <= e <= -32 && f < W64 && f / Pow(2, -e) != 0 && unit == 1
    requires handler.buf == []
    modifies handler`buf, handler`exp10, handler`precision
    ensures result != More && |handler.buf| <= 30
    ensures var one, kappa := Pow(2, -e), DigitCount(f / Pow(2, -e));
            && handler.precision == old(handler.precision) + (if handler.isFixed then kappa + old(handler.exp10) else 0)
            && if handler.isFixed && handler.precision < 0 then
                 && result == Done && handler.buf == [] && handler.exp10 == old(handler.exp10)
                 && exp == kappa && Correct(f, one, kappa - handler.precision, 0)
               else if handler.isFixed && handler.precision == 0 then
                 && exp == kappa && handler.exp10 == old(handler.exp10)
                 && if result == Done
                    then handler.buf in {['0'], ['1']} && Correct(f, one, exp, Number(handler.buf))
                    else handler.buf == []
               else
                 && Ended(handler, result, f, one, kappa, exp, old(handler.exp10))
                 && (handler.precision <= 1 ==> (result == Error <==> FirstDigitOpen(f, one, kappa)))
  {
    hide Pow, Number, DigitCount, Correct, Integral, FirstDigitOpen;
    OneBounds(-e);
    var one := Pow(2, -e);
    WordQuotient(f, one);
    CountDigits32Correct(f / one);
    DigitCountBounds(f / one);
    exp := CountDigits32(f / one);
    ghost var kappa: nat := exp;
    StartBounds(f, one, kappa);
    result := handler.OnStart(Pow(10, exp - 1) * one, f / 10, unit * 10, exp);
    if result != More {
      StartIsCorrect(f, one, kappa);
      if handler.precision < 0 {
        BelowEveryPlace(f, one, kappa, kappa - handler.precision);
      }
      return;
    }
    result, exp := IntegralDigits(f, one, exp, handler, handler.exp10);
    if result != More {
      return;
    }
    result, exp := FractionalDigits(f, one, kappa, handler, handler.exp10);
  }

  lemma OneBounds(k: nat)
    requires 32 <= k <= 60
    ensures 0x1_0000_0000 <= Pow(2, k) <= 0x1000_0000_0000_0000
  {
    WordPowers();
    PowMono(2, 32, k);
    PowMono(2, k, 60);
    PowAdd(2, 60, 4);
    assert Pow(2, 4) == 16;
  }

  lemma StartBounds(f: nat, one: nat, kappa: nat)
    requires 0x1_0000_0000 <= one && f < W64 && kappa == DigitCount(f / one) && f / one > 0
    ensures f / one < 0x1_0000_0000 && 1 <= kappa <= 10 && one <= f
    ensures Pow(10, kappa - 1) <= f / one < Pow(10, kappa)
    ensures f / 10 < Pow(10, kappa - 1) * one <= f < Pow(10, kappa) * one && 20 < Pow(10, kappa - 1) * one
  {
    DigitCountBounds(f / one);
    PowersOf10();
    hide DigitCount;
    WordQuotient(f, one);
    if kappa > 10 {
      PowMono(10, 10, kappa - 1);
    }
    hide Pow;
    Enclosed(f, one, Pow(10, kappa - 1), kappa);
  }

  lemma WordQuotient(f: nat, one: nat)
    requires 0x1_0000_0000 <= one && f < W64
    ensures 0 <= f / one < 0x1_0000_0000
  {
    var q := f / one;
    assert f == q * one + f % one;
    if q >= 0x1_0000_0000 {
      MulBound(0x1_0000_0000, 0x1_0000_0000, q, one);
    }
  }

  lemma Enclosed(f: nat, one: nat, p: nat, kappa: nat)
    requires kappa >= 1 && 20 < one && p == Pow(10, kappa - 1) <= f / one < Pow(10, kappa)
    ensures one <= p * one <= f < 10 * (p * one) == Pow(10, kappa) * one
  {
    var q := f / one;
    assert f == q * one + f % one;
    MulMono(p, q, one);
    MulMono(1, p, one);
    MulMono(q + 1, 10 * p, one);
    assert (q + 1) * one == q * one + one;
    MulAssoc(10, p, one);
  }

  /** Rounding at the place above the first digit, on a tenth of the value to stay within 64 bits. */
  lemma StartIsCorrect(f: nat, one: nat, kappa: nat)
    requires kappa >= 1 && f / 10 < Pow(10, kappa - 1) * one && 20 < Pow(10, kappa - 1) * one
    ensures var dir := RoundDirection(Pow(10, kappa - 1) * one, f / 10, 10);
            && (dir == Up ==> Correct(f, one, kappa, Number(['1'])))
            && (dir == Down ==> Correct(f, one, kappa, Number(['0'])))
  {
    var d := Pow(10, kappa - 1) * one;
    MulAssoc(10, Pow(10, kappa - 1), one);
    assert Pow(10, kappa) * one == 10 * d;
    NumberSnoc([], '1');
    NumberSnoc([], '0');
    assert [] + ['1'] == ['1'] && [] + ['0'] == ['0'];
    TenthDecides(f, d);
  }

  lemma TenthDecides(f: nat, d: nat)
    requires f / 10 < d && 20 < d
    ensures RoundDirection(d, f / 10, 10) == Up ==> AllRoundTo(f, 1, 1, 10 * d)
    ensures RoundDirection(d, f / 10, 10) == Down ==> AllRoundTo(f, 1, 0, 10 * d)
  {
    var r, t := f / 10, f % 10;
    assert f as real == 10.0 * r as real + t as real;
    forall v: real | -1.0 < v - f as real < 1.0
      ensures RoundDirection(d, f / 10, 10) == Up ==> RoundsTo(v, 1, 10 * d)
      ensures RoundDirection(d, f / 10, 10) == Down ==> RoundsTo(v, 0, 10 * d)
    {
      DirectionIsNearest(d, r, 10, v / 10.0);
    }
  }

  /** A place two above the first digit, or higher, rounds everything to zero. */
  lemma BelowEveryPlace(f: nat, one: nat, kappa: nat, place: int)
    requires f < Pow(10, kappa) * one && place > kappa
    ensures Correct(f, one, place, 0)
  {
    PowMono(10, kappa + 1, place);
    var u, w := Pow(10, place) * one, Pow(10, kappa) * one;
    MulAssoc(10, Pow(10, kappa), one);
    MulMono(Pow(10, kappa + 1), Pow(10, place), one);
    assert u >= 10 * w;
    forall v: real | -1.0 < v - f as real < 1.0
      ensures RoundsTo(v, 0, u)
    {
    }
  }
}
