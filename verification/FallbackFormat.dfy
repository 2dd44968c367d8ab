/** Correctly rounded decimal digits of a binary floating-point number by exact big-integer division. */
module FallbackFormat {
  import opened Powers
  import opened Bigits
  import opened Columns
  import opened BigintOrder
  import opened BigintSteps
  import opened BigintClass
  import opened Decimal

  /** No scaling of `n` by ten makes it equal to `d`. */
  ghost predicate TenfoldsMiss(n: nat, d: nat) {
    forall k: nat :: n * Pow(10, k) != d
  }

  /** Equality with a denominator of smaller exponent is the one case in which the first comparison of a division goes
      wrong; it does not come about. */
  ghost predicate NeverMissed(numerator: Bigint, denominator: Bigint)
    reads numerator, denominator
  {
    numerator.exp > denominator.exp ==> TenfoldsMiss(numerator.Value(), denominator.Value())
  }

  /** What the digits say: `digits` digits are correct for `ratio` times a power of ten, with `raised` telling that the
      carry went through all of them and the exponent was raised. */
  ghost predicate Rounded(buf: seq<char>, digits: nat, raised: nat, total: nat, den: nat)
    requires den > 0
  {
    && |buf| == digits && AllDigits(buf)
    && raised <= 1
    && (raised == 1 <==> RoundHalfEven(total, den) == Pow(10, digits))
    && Number(buf) * Pow(10, raised) == RoundHalfEven(total, den)
  }

  /** There is only one correct answer. */
  lemma RoundedIsUnique(s: seq<char>, t: seq<char>, digits: nat, raisedS: nat, raisedT: nat, total: nat, den: nat)
    requires den > 0 && Rounded(s, digits, raisedS, total, den) && Rounded(t, digits, raisedT, total, den)
    ensures s == t && raisedS == raisedT
  {
    assert raisedS == raisedT;
    MulCancel(Number(s), Number(t), Pow(10, raisedS));
    NumberInjective(s, t);
  }

  /** A carry through all digits leaves a one and zeros. */
  lemma RaisedIsOneAndZeros(s: seq<char>, digits: nat, total: nat, den: nat)
    requires den > 0 && digits > 0 && Rounded(s, digits, 1, total, den)
    ensures s[0] == '1' && forall i :: 0 < i < |s| ==> s[i] == '0'
  {
    var t := seq(digits, i => if i == 0 then '1' else '0');
    NumberOfZeros(t);
    assert Pow(10, digits) == Pow(10, digits - 1) * 10 && Pow(10, 1) == 10;
    MulCancel(Number(s), Number(t), 10);
    NumberInjective(s, t);
  }

  /** Ten times a remainder is again a dividend below ten times the divisor, and at most one bigit longer. */
  lemma TenTimesFits(s: seq<Bigit>, e: nat, d: seq<Bigit>, ed: nat)
    requires Fits(s, e, |d| + ed) && Trimmed(d) && Scaled(s, e) < 10 * Scaled(d, ed)
    ensures |s| + e <= |d| + ed + 1
  {
    if s != [0] {
      ScaledTop(s, e);
      ScaledBound(d, ed);
      WeightStep(|d| + ed);
      if |s| - 1 + e >= |d| + ed + 1 {
        PowMono(B, |d| + ed + 1, |s| - 1 + e);
      }
    }
  }

  /** The digits of `n` are out, and `cur` over the denominator is what the remaining digits have to show. */
  ghost predicate Pending(n: nat, cur: nat, d: nat, total: nat) {
    n * (10 * d) + cur == total && cur < 10 * d
  }

  lemma {:induction false} PendingStart(cur: nat, d: nat, start: nat)
    requires cur == start < 10 * d
    ensures Pending(0, cur, d, Whole(start, 0))
  {
  }

  function Whole(start: nat, i: nat): nat {
    start * Pow(10, i)
  }

  /** One digit more: the quotient is a digit, and the digits with the remainder still make up the whole. */
  lemma DigitStep(n: nat, cur: nat, d: nat, total: nat)
    requires d > 0 && Pending(n, cur, d, total)
    ensures 0 <= cur / d <= 9 && (cur / d == 0 ==> cur % d == cur)
    ensures (n * 10 + cur / d) * d + cur % d == total
    ensures Pending(n * 10 + cur / d, cur % d * 10, d, total * 10)
  {
    var q, r := cur / d, cur % d;
    assert cur == q * d + r;
    if q > 9 {
      MulMono(10, q, d);
    }
    MulAssoc(n, 10, d);
    var m := n * 10 + q;
    assert m * d == n * 10 * d + q * d;
    MulSwap(m, 10, d);
    MulAssoc(m, 10, d);
  }

  lemma WholeStep(start: nat, i: nat)
    ensures Whole(start, i + 1) == Whole(start, i) * 10
  {
    MulSwap(start, Pow(10, i), 10);
    MulAssoc(start, 10, Pow(10, i));
  }

  /** What the last digit and remainder say about the rounded ratio. */
  lemma LastDigit(n: nat, cur: nat, d: nat, total: nat)
    requires d > 0 && Pending(n, cur, d, total)
    ensures var digit, r := cur / d, cur % d;
            RoundHalfEven(total, d) ==
            if 2 * r > d || (2 * r == d && digit % 2 != 0) then n * 10 + digit + 1 else n * 10 + digit
  {
    hide *;
    DigitStep(n, cur, d, total);
    RoundedOf(total, d, n * 10 + cur / d, cur % d);
    SameParity(n, cur / d);
  }

  lemma RoundedOf(total: nat, d: nat, q: nat, r: nat)
    requires r < d && total == q * d + r
    ensures RoundHalfEven(total, d) == if 2 * r > d || (2 * r == d && q % 2 != 0) then q + 1 else q
  {
    DivModUnique(total, d, q, r);
  }

  lemma SameParity(n: int, digit: int)
    ensures (n * 10 + digit) % 2 == digit % 2
  {
  }

  /** Generates the given number of digits of numerator / denominator, the first one in front of the decimal point. */
  method GenerateDigits(numerator: Bigint, denominator: Bigint, numDigits: nat) returns (buf: seq<char>, raised: nat)
    requires numerator != denominator && denominator.Valid() && denominator.Value() > 0 && numDigits > 0
    requires Fits(numerator.bigits, numerator.exp, denominator.NumBigits())
    requires numerator.Value() < 10 * denominator.Value() && NeverMissed(numerator, denominator)
    modifies numerator
    ensures Rounded(buf, numDigits, raised, old(numerator.Value()) * Pow(10, numDigits - 1), old(denominator.Value()))
  {
    hide Scaled, Pow, Weight, Val, Comparison, Pending, Whole, Rounded;
    ghost var start, startExp, d := numerator.Value(), numerator.exp, denominator.Value();
    TenTimesFits(numerator.bigits, numerator.exp, denominator.bigits, denominator.exp);
    PendingStart(start, d, start);
    WholeStart(start);
    buf := [];
    var i := 0;
    while i < numDigits - 1
      invariant 0 <= i <= numDigits - 1 && i == |buf| && AllDigits(buf) && Number(buf) >= 0
      invariant denominator.Valid() && denominator.Value() == d
      invariant Fits(numerator.bigits, numerator.exp, denominator.NumBigits())
      invariant numerator.NumBigits() <= denominator.NumBigits() + 1
      invariant numerator.exp <= startExp && (numerator.exp > denominator.exp ==> numerator.Value() == Whole(start, i))
      invariant Pending(Number(buf), numerator.Value(), d, Whole(start, i))
    {
      DigitStep(Number(buf), numerator.Value(), d, Whole(start, i));
      NotMissed(numerator, denominator, start, i);
      var digit := numerator.DivmodAssign(denominator);
      NumberSnoc(buf, DigitChar(digit));
      WholeStep(start, i);
      buf := buf + [DigitChar(digit)];
      MultiplyByTen(numerator, denominator);
      i := i + 1;
    }
    NotMissed(numerator, denominator, start, i);
    buf, raised := FinishDigits(numerator, denominator, buf, Whole(start, i));
    WholeIs(start, i);
  }

  lemma WholeStart(start: nat)
    ensures Whole(start, 0) == start
  {
  }

  lemma WholeIs(start: nat, i: nat)
    ensures Whole(start, i) == start * Pow(10, i)
  {
  }

  /** While no division has succeeded the numerator is the first one scaled by ten, which never equals the denominator. */
  lemma NotMissed(numerator: Bigint, denominator: Bigint, start: nat, i: nat)
    requires numerator.exp > denominator.exp ==>
               numerator.Value() == Whole(start, i) && TenfoldsMiss(start, denominator.Value())
    ensures numerator.exp > denominator.exp ==> numerator.Value() != denominator.Value()
  {
  }

  method MultiplyByTen(numerator: Bigint, denominator: Bigint)
    requires numerator != denominator && denominator.Valid() && numerator.Value() < denominator.Value()
    requires Fits(numerator.bigits, numerator.exp, denominator.NumBigits())
    modifies numerator
    ensures numerator.exp == old(numerator.exp) && numerator.Value() == old(numerator.Value()) * 10
    ensures Fits(numerator.bigits, numerator.exp, denominator.NumBigits())
    ensures numerator.NumBigits() <= denominator.NumBigits() + 1
  {
    hide Scaled, Pow, Weight, Val;
    ZeroStays(numerator.bigits, numerator.exp);
    numerator.MultiplyU32(10);
    ZeroStays(numerator.bigits, numerator.exp);
    TenTimesFits(numerator.bigits, numerator.exp, denominator.bigits, denominator.exp);
  }

  /** The last digit, and the rounding of the whole. */
  method FinishDigits(numerator: Bigint, denominator: Bigint, digits: seq<char>, ghost total: nat)
    returns (buf: seq<char>, raised: nat)
    requires numerator != denominator && denominator.Valid() && denominator.Value() > 0 && AllDigits(digits)
    requires Fits(numerator.bigits, numerator.exp, denominator.NumBigits())
    requires numerator.NumBigits() <= denominator.NumBigits() + 1
    requires numerator.exp > denominator.exp ==> numerator.Value() != denominator.Value()
    requires Number(digits) >= 0 && Pending(Number(digits), numerator.Value(), denominator.Value(), total)
    modifies numerator
    ensures Rounded(buf, |digits| + 1, raised, total, old(denominator.Value()))
  {
    hide Scaled, Pow, Weight, Val, Comparison, Pending, RoundHalfEven, Number, Digit, DigitChar, Rounded, Bigint.Longest,
         Bigint.Decides;
    ghost var n, d := Number(digits), denominator.Value();
    DigitStep(n, numerator.Value(), d, total);
    LastDigit(n, numerator.Value(), d, total);
    var digit := numerator.DivmodAssign(denominator);
    ZeroStays(denominator.bigits, denominator.exp);
    var result := Bigint.AddCompare(numerator, numerator, denominator);
    if result > 0 || (result == 0 && digit % 2 != 0) {
      if digit == 9 {
        TenIsOverflow(digits);
        buf, raised := PropagateCarry(digits + [OVERFLOW]);
        CarriedRounded(digits, buf, raised, total, d);
        return;
      }
      digit := digit + 1;
    }
    raised := 0;
    buf := digits + [DigitChar(digit)];
    PlainRounded(digits, digit, total, d);
  }

  lemma TenIsOverflow(digits: seq<char>)
    ensures (digits + [OVERFLOW])[..|digits|] == digits && '0' <= OVERFLOW
    ensures Number(digits + [OVERFLOW]) == Number(digits) * 10 + 10
  {
    NumberSnoc(digits, OVERFLOW);
  }

  lemma CarriedRounded(digits: seq<char>, buf: seq<char>, raised: nat, total: nat, d: nat)
    requires d > 0 && |buf| == |digits| + 1 && AllDigits(buf) && raised <= 1
    requires Number(buf) * Pow(10, raised) == Number(digits) * 10 + 10 == RoundHalfEven(total, d)
    requires raised == 1 <==> Number(digits) * 10 + 10 == Pow(10, |digits| + 1)
    ensures Rounded(buf, |digits| + 1, raised, total, d)
  {
  }

  lemma PlainRounded(digits: seq<char>, digit: nat, total: nat, d: nat)
    requires d > 0 && AllDigits(digits) && digit <= 9 && RoundHalfEven(total, d) == Number(digits) * 10 + digit
    ensures Rounded(digits + [DigitChar(digit)], |digits| + 1, 0, total, d)
  {
    hide RoundHalfEven;
    var buf := digits + [DigitChar(digit)];
    NumberSnoc(digits, DigitChar(digit));
    PowZero(10);
    NumberBound(buf);
  }

  lemma ZeroStays(s: seq<Bigit>, e: nat)
    requires Trimmed(s)
    ensures s == [0] <==> Scaled(s, e) == 0
  {
    ScaledZero(s, e);
  }

  // The ratio of a double to a power of ten.

  function Max0(x: int): nat {
    if x > 0 then x else 0
  }

  /** Numerator and denominator of f * 2^e / 10^exp10. */
  function RatioNum(f: nat, e: int, exp10: int): nat {
    f * Pow(2, Max0(e)) * Pow(10, Max0(-exp10))
  }

  function RatioDen(e: int, exp10: int): (d: nat)
    ensures d > 0
  {
    MulStrict(0, Pow(2, Max0(-e)), Pow(10, Max0(exp10)));
    Pow(2, Max0(-e)) * Pow(10, Max0(exp10))
  }

  /** Sets up numerator / denominator == f * 2^e / 10^exp10, both made longer by `shift` bits. */
  method SetRatio(numerator: Bigint, denominator: Bigint, f: nat, e: int, shift: nat, exp10: int)
    requires numerator != denominator && 0 < f < 0x20_0000_0000_0000 && 1 <= shift <= 2
    requires -0x4000_0000 < exp10 < 0x4000_0000 && RatioNum(f, e, exp10) < 10 * RatioDen(e, exp10)
    modifies numerator, denominator
    ensures numerator.Valid() && numerator.Value() == RatioNum(f, e, exp10) * Pow(2, shift)
    ensures denominator.Valid() && denominator.Value() == RatioDen(e, exp10) * Pow(2, shift)
    ensures NeverMissed(numerator, denominator)
  {
    hide Scaled, Pow, Weight, Val, RatioNum, RatioDen;
    SmallPowers();
    var significand := f * (if shift == 2 then 4 else 2);
    if e >= 0 {
      EstimateOfInteger(f, e, exp10);
      IntegerSetup(f, e, exp10, shift);
      numerator.Assign(significand);
      numerator.ShiftLeft(e);
      denominator.AssignPow10(exp10);
      denominator.ShiftLeft(shift);
    } else if exp10 < 0 {
      FractionSetup(f, e, exp10, shift);
      numerator.AssignPow10(-exp10);
      numerator.MultiplyU64(significand);
      denominator.Assign(1);
      denominator.ShiftLeft(shift - e);
    } else {
      MixedSetup(f, e, exp10, shift);
      numerator.Assign(significand);
      denominator.AssignPow10(exp10);
      denominator.ShiftLeft(shift - e);
    }
  }

  /** Prints the given number of correctly rounded digits of f * 2^e. `exp10` is the caller's estimate of the decimal
      exponent: the number is below 10^(exp10 + 1). The digits, times ten to the returned exponent, are the number rounded
      half to even at the last place asked for; with no digit asked for the place is the one above the estimate. */
  method Format(f: nat, e: int, predecessorCloser: bool, numDigits: nat, exp10: int)
    returns (buf: seq<char>, newExp10: int)
    requires 0 < f < 0x20_0000_0000_0000
    requires -0x4000_0000 < exp10 < 0x4000_0000 && RatioNum(f, e, exp10) < 10 * RatioDen(e, exp10)
    ensures numDigits > 0 ==>
              && newExp10 - (exp10 - (numDigits - 1)) >= 0
              && Rounded(buf, numDigits, newExp10 - (exp10 - (numDigits - 1)),
                         RatioNum(f, e, exp10) * Pow(10, numDigits - 1), RatioDen(e, exp10))
    ensures numDigits == 0 ==>
              && newExp10 == exp10 + 1 && |buf| == 1 && AllDigits(buf)
              && Number(buf) == RoundHalfEven(RatioNum(f, e, exp10), 10 * RatioDen(e, exp10))
  {
    hide Scaled, Pow, Weight, Val, RatioNum, RatioDen, Rounded;
    var numerator := new Bigint();
    var denominator := new Bigint();
    var shift := if predecessorCloser then 2 else 1;
    SetRatio(numerator, denominator, f, e, shift, exp10);
    ghost var n, d, k := RatioNum(f, e, exp10), RatioDen(e, exp10), Pow(2, shift);
    RatioPositive(f, e, exp10);
    Lengthened(n, d, k);
    ZeroStays(numerator.bigits, numerator.exp);
    newExp10 := exp10 - (numDigits - 1);
    if numDigits == 0 {
      denominator.MultiplyU32(10);
      ZeroStays(denominator.bigits, denominator.exp);
      var c := Bigint.AddCompare(numerator, numerator, denominator);
      buf := if c > 0 then ['1'] else ['0'];
      NumberSnoc([], buf[0]);
      assert [] + [buf[0]] == buf;
      HalfOrLess(n, d, k);
      return;
    }
    var raised;
    buf, raised := GenerateDigits(numerator, denominator, numDigits);
    newExp10 := newExp10 + raised;
    RoundedScaled(buf, numDigits, raised, n, d, k);
  }

  lemma SmallPowers()
    ensures Pow(2, 1) == 2 && Pow(2, 2) == 4
  {
  }

  lemma RatioPositive(f: nat, e: int, exp10: int)
    requires f > 0
    ensures RatioNum(f, e, exp10) > 0
  {
    MulStrict(0, f, Pow(2, Max0(e)));
    MulStrict(0, f * Pow(2, Max0(e)), Pow(10, Max0(-exp10)));
  }

  lemma Lengthened(n: nat, d: nat, k: nat)
    requires n < 10 * d && k > 0
    ensures n * k < 10 * (d * k)
    ensures n > 0 ==> n * k > 0
    ensures d > 0 ==> d * k > 0
  {
    MulStrict(n, 10 * d, k);
    MulAssoc(10, d, k);
    if n > 0 {
      MulStrict(0, n, k);
    }
    if d > 0 {
      MulStrict(0, d, k);
    }
  }

  /** A number of at least one has no negative decimal exponent estimate. */
  lemma EstimateOfInteger(f: nat, e: int, exp10: int)
    requires f > 0 && e >= 0 && RatioNum(f, e, exp10) < 10 * RatioDen(e, exp10)
    ensures exp10 >= 0
  {
    if exp10 < 0 {
      MulStrict(0, f, Pow(2, e));
      PowMono(10, 1, -exp10);
      MulBound(1, 10, f * Pow(2, e), Pow(10, -exp10));
    }
  }

  lemma IntegerSetup(f: nat, e: int, exp10: int, shift: nat)
    requires e >= 0 && exp10 >= 0
    ensures f * Pow(2, shift) * Pow(2, e) == RatioNum(f, e, exp10) * Pow(2, shift)
    ensures Pow(10, exp10) * Pow(2, shift) == RatioDen(e, exp10) * Pow(2, shift)
    ensures e / 32 > exp10 / 32 ==> TenfoldsMiss(RatioNum(f, e, exp10) * Pow(2, shift), RatioDen(e, exp10) * Pow(2, shift))
  {
    hide *;
    IntegerRatio(f, e, exp10);
    MulSwap(f, Pow(2, shift), Pow(2, e));
    if e / 32 > exp10 / 32 {
      IntegerMissed(f, e, exp10, shift);
    }
  }

  lemma IntegerRatio(f: nat, e: int, exp10: int)
    requires e >= 0 && exp10 >= 0
    ensures RatioNum(f, e, exp10) == f * Pow(2, e) && RatioDen(e, exp10) == Pow(10, exp10)
  {
  }

  lemma IntegerMissed(f: nat, e: nat, n: nat, shift: nat)
    requires e > n
    ensures TenfoldsMiss(f * Pow(2, e) * Pow(2, shift), Pow(10, n) * Pow(2, shift))
  {
    var x, p := f * Pow(2, e), Pow(2, shift);
    hide Pow;
    forall k: nat
      ensures x * p * Pow(10, k) != Pow(10, n) * p
    {
      TooManyTwos(f, e, n, k);
      UnequalProducts(x, p, Pow(10, k), Pow(10, n));
    }
  }

  lemma UnequalProducts(x: int, p: nat, w: int, y: int)
    requires p > 0 && x * w != y
    ensures x * p * w != y * p
  {
    MulSwap(x, p, w);
    if x * w * p == y * p {
      MulCancel(x * w, y, p);
    }
  }

  /** 10^n has only n factors of two. */
  lemma TooManyTwos(f: nat, e: nat, n: nat, k: nat)
    requires e > n
    ensures f * Pow(2, e) * Pow(10, k) != Pow(10, n)
  {
    hide *;
    PowProduct(5, 2, n);
    PowAdd(2, e - n, n);
    PowStep(2, e - n - 1);
    PowOf5IsOdd(n);
    EvenIsNotOdd(f, Pow(2, e - n - 1), Pow(2, n), Pow(10, k), Pow(5, n));
  }

  lemma EvenIsNotOdd(f: int, h: int, t: nat, w: int, o: int)
    requires t > 0 && o % 2 == 1
    ensures f * (2 * h * t) * w != o * t
  {
    MulSwap(f, 2 * h * t, w);
    MulAssoc(f * w, 2 * h, t);
    EvenProduct(f * w, h);
    if f * w * (2 * h) * t == o * t {
      MulCancel(f * w * (2 * h), o, t);
    }
  }

  lemma EvenProduct(x: int, h: int)
    ensures x * (2 * h) % 2 == 0
  {
    MulAssoc(x, 2, h);
    MulSwap(x, 2, h);
    assert x * (2 * h) == 2 * (x * h);
  }

  lemma {:induction false} TwosNotFive(n: nat)
    ensures Pow(2, n) % 5 != 0
  {
    if n == 0 {
    } else {
      TwosNotFive(n - 1);
    }
  }

  lemma FractionSetup(f: nat, e: int, exp10: int, shift: nat)
    requires e < 0 && exp10 < 0
    ensures Pow(10, -exp10) * (f * Pow(2, shift)) == RatioNum(f, e, exp10) * Pow(2, shift)
    ensures 1 * Pow(2, shift - e) == RatioDen(e, exp10) * Pow(2, shift)
    ensures TenfoldsMiss(RatioNum(f, e, exp10) * Pow(2, shift), RatioDen(e, exp10) * Pow(2, shift))
  {
    hide *;
    FractionRatio(f, e, exp10);
    MulAssoc(Pow(10, -exp10), f, Pow(2, shift));
    PowAdd(2, -e, shift);
    FractionMissed(f, -exp10, shift, shift - e);
  }

  lemma FractionMissed(f: nat, m: nat, shift: nat, r: nat)
    requires m > 0
    ensures TenfoldsMiss(f * Pow(10, m) * Pow(2, shift), Pow(2, r))
  {
    hide Pow;
    forall k: nat
      ensures f * Pow(10, m) * Pow(2, shift) * Pow(10, k) != Pow(2, r)
    {
      PowerOf2Missed(f, m, shift, k, r);
    }
  }

  lemma FractionRatio(f: nat, e: int, exp10: int)
    requires e < 0 && exp10 < 0
    ensures RatioNum(f, e, exp10) == f * Pow(10, -exp10) && RatioDen(e, exp10) == Pow(2, -e)
  {
  }

  /** A multiple of ten is not a power of two. */
  lemma PowerOf2Missed(f: nat, m: nat, shift: nat, k: nat, r: nat)
    requires m > 0
    ensures f * Pow(10, m) * Pow(2, shift) * Pow(10, k) != Pow(2, r)
  {
    TwosNotFive(r);
    var t := Pow(10, m - 1);
    assert Pow(10, m) == 10 * t;
    hide Pow;
    TenDivides(f, t, Pow(2, shift), Pow(10, k));
  }

  lemma TenDivides(f: nat, t: nat, s: nat, w: nat)
    ensures (f * (10 * t) * s * w) % 5 == 0
  {
    var m := f * t * s * w;
    MulSwap(f, 10, t);
    assert f * (10 * t) == 10 * (f * t);
    MulAssoc(10, f * t, s);
    MulAssoc(10, f * t * s, w);
  }

  lemma MixedSetup(f: nat, e: int, exp10: int, shift: nat)
    requires e < 0 && exp10 >= 0
    ensures f * Pow(2, shift) == RatioNum(f, e, exp10) * Pow(2, shift)
    ensures Pow(10, exp10) * Pow(2, shift - e) == RatioDen(e, exp10) * Pow(2, shift)
  {
    hide *;
    MixedRatio(f, e, exp10);
    PowAdd(2, -e, shift);
    MulSwap(Pow(10, exp10), Pow(2, -e), Pow(2, shift));
    MulAssoc(Pow(10, exp10), Pow(2, -e), Pow(2, shift));
  }

  lemma MixedRatio(f: nat, e: int, exp10: int)
    requires e < 0 && exp10 >= 0
    ensures RatioNum(f, e, exp10) == f && RatioDen(e, exp10) == Pow(10, exp10) * Pow(2, -e)
  {
  }

  lemma HalfOrLess(n: nat, d: nat, k: nat)
    requires d > 0 && n < 10 * d && k > 0
    ensures 2 * (n * k) > d * k * 10 <==> RoundHalfEven(n, 10 * d) == 1
    ensures RoundHalfEven(n, 10 * d) <= 1
  {
    DivModUnique(n, 10 * d, 0, n);
    MulAssoc(2, n, k);
    MulSwap(d, k, 10);
    if 2 * n > d * 10 {
      MulStrict(d * 10, 2 * n, k);
    } else {
      MulMono(2 * n, d * 10, k);
    }
  }

  lemma RoundedScaled(buf: seq<char>, digits: nat, raised: nat, n: nat, d: nat, k: nat)
    requires d > 0 && k > 0 && digits > 0 && d * k > 0
    requires Rounded(buf, digits, raised, n * k * Pow(10, digits - 1), d * k)
    ensures Rounded(buf, digits, raised, n * Pow(10, digits - 1), d)
  {
    MulSwap(n, k, Pow(10, digits - 1));
    RoundScaled(n * Pow(10, digits - 1), d, k);
  }
}
