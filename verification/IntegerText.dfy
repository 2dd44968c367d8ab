/** Unsigned integers as decimal text: counting the digits, writing them and reading them back. */
module IntegerText {
  import opened Powers
  import opened Decimal

  const INT_MAX: nat := 0x7FFF_FFFF

  /** The number of decimal digits, one for zero. */
  function DigitCount(n: nat): (k: nat)
    ensures k >= 1
  {
    if n < 10 then 1 else 1 + DigitCount(n / 10)
  }

  lemma {:induction false} DigitCountBounds(n: nat)
    ensures n < Pow(10, DigitCount(n))
    ensures n > 0 ==> Pow(10, DigitCount(n) - 1) <= n
  {
    if n < 10 {
    } else {
      DigitCountBounds(n / 10);
    }
  }

  lemma DigitCountIs(n: nat, k: nat)
    requires k >= 1 && n < Pow(10, k) && (k == 1 || Pow(10, k - 1) <= n)
    ensures DigitCount(n) == k
  {
    var d := DigitCount(n);
    DigitCountBounds(n);
    if d < k {
      PowMono(10, d, k - 1);
    } else if d > k {
      if n > 0 {
        PowMono(10, k, d - 1);
      }
    }
  }

  method CountDigitsFallback(n: nat) returns (count: nat)
    ensures count == DigitCount(n)
  {
    var rest := n;
    count := 1;
    while true
      invariant count - 1 + DigitCount(rest) == DigitCount(n)
      decreases rest
    {
      if rest < 10 {
        return;
      }
      if rest < 100 {
        return count + 1;
      }
      DigitCountIs(rest, if rest < 1000 then 3 else if rest < 10000 then 4 else DigitCount(rest)) by {
        SmallPowersOf10();
        DigitCountBounds(rest);
      }
      if rest < 1000 {
        return count + 2;
      }
      if rest < 10000 {
        return count + 3;
      }
      FourDigitsLess(rest);
      rest := rest / 10000;
      count := count + 4;
    }
  }

  lemma SmallPowersOf10()
    ensures Pow(10, 1) == 10 && Pow(10, 2) == 100 && Pow(10, 3) == 1000 && Pow(10, 4) == 10000
  {
  }

  lemma FourDigitsLess(n: nat)
    requires n >= 10000
    ensures DigitCount(n) == 4 + DigitCount(n / 10000)
  {
    assert n / 10 / 10 == n / 100 && n / 100 / 10 == n / 1000 && n / 1000 / 10 == n / 10000;
    assert DigitCount(n) == 1 + DigitCount(n / 10);
    assert DigitCount(n / 10) == 1 + DigitCount(n / 100);
    assert DigitCount(n / 100) == 1 + DigitCount(n / 1000);
    assert DigitCount(n / 1000) == 1 + DigitCount(n / 10000);
  }

  // The table-driven versions.

  /** The index of the highest set bit. */
  function HighestBit(n: nat): nat
    requires n > 0
  {
    if n == 1 then 0 else 1 + HighestBit(n / 2)
  }

  function OrOne(n: nat): (m: nat)
    ensures m > 0
  {
    if n % 2 == 0 then n + 1 else n
  }

  lemma {:induction false} HighestBitBounds(n: nat)
    requires n > 0
    ensures Pow(2, HighestBit(n)) <= n < Pow(2, HighestBit(n) + 1)
  {
    if n == 1 {
    } else {
      HighestBitBounds(n / 2);
    }
  }

  /** The 64-entry table from the highest bit of a number to the most digits it can have, by its runs. */
  function BsrToLog10(b: nat): (t: nat)
    ensures 1 <= t <= 20
  {
    if b < 3 then 1
    else if b < 6 then 2
    else if b < 9 then 3
    else if b < 13 then 4
    else if b < 16 then 5
    else if b < 19 then 6
    else if b < 23 then 7
    else if b < 26 then 8
    else if b < 29 then 9
    else if b < 33 then 10
    else if b < 36 then 11
    else if b < 39 then 12
    else if b < 43 then 13
    else if b < 46 then 14
    else if b < 49 then 15
    else if b < 53 then 16
    else if b < 56 then 17
    else if b < 59 then 18
    else if b < 63 then 19
    else 20
  }

  /** The 21-entry table that starts with two zeros and goes on with the powers of ten. */
  function ZeroOrPowerOf10(t: nat): nat {
    if t <= 1 then 0 else Pow(10, t - 1)
  }

  /** The threshold in each entry of the 32-bit table, by its runs; its text has as many characters as it has digits. */
  function IncThreshold(b: nat): nat {
    if b < 3 then 0
    else if b < 6 then 10
    else if b < 9 then 100
    else if b < 12 then 1000
    else if b < 15 then 10000
    else if b < 18 then 100000
    else if b < 21 then 1000000
    else if b < 24 then 10000000
    else if b < 27 then 100000000
    else 1000000000
  }

  /** The entry that lifts a number at or above the threshold over the next multiple of 2^32. */
  function CountDigitsInc(b: nat): nat {
    DigitCount(IncThreshold(b)) * 0x1_0000_0000 - IncThreshold(b)
  }

  function CountDigits64(n: nat): int
    requires n < 0x1_0000_0000_0000_0000
  {
    var t := BsrToLog10(HighestBit(OrOne(n)));
    t - if n < ZeroOrPowerOf10(t) then 1 else 0
  }

  function CountDigits32(n: nat): nat
    requires n < 0x1_0000_0000
  {
    (n + CountDigitsInc(HighestBit(OrOne(n)))) / 0x1_0000_0000
  }

  lemma BitBelow(n: nat, w: nat)
    requires (w == 32 && n < 0x1_0000_0000) || (w == 64 && n < 0x1_0000_0000_0000_0000)
    ensures HighestBit(OrOne(n)) < w
  {
    HighestBitBounds(OrOne(n));
    WordPowers();
    if HighestBit(OrOne(n)) >= w {
      PowMono(2, w, HighestBit(OrOne(n)));
    }
  }

  /** The powers of two at the ends of the runs. */
  lemma PowersOf2()
    ensures Pow(2, 3) == 8
    ensures Pow(2, 6) == 64
    ensures Pow(2, 9) == 512
    ensures Pow(2, 13) == 8192
    ensures Pow(2, 16) == 65536
    ensures Pow(2, 19) == 524288
    ensures Pow(2, 23) == 8388608
    ensures Pow(2, 26) == 67108864
    ensures Pow(2, 29) == 536870912
    ensures Pow(2, 33) == 8589934592
    ensures Pow(2, 36) == 68719476736
    ensures Pow(2, 39) == 549755813888
    ensures Pow(2, 43) == 8796093022208
    ensures Pow(2, 46) == 70368744177664
    ensures Pow(2, 49) == 562949953421312
    ensures Pow(2, 53) == 9007199254740992
    ensures Pow(2, 56) == 72057594037927936
    ensures Pow(2, 59) == 576460752303423488
    ensures Pow(2, 63) == 9223372036854775808
  {
    assert Pow(2, 3) == 8 && Pow(2, 4) == 16;
    hide Pow;
    PowAdd(2, 3, 3);
    PowAdd(2, 6, 3);
    PowAdd(2, 9, 4);
    PowAdd(2, 13, 3);
    PowAdd(2, 16, 3);
    PowAdd(2, 19, 4);
    PowAdd(2, 23, 3);
    PowAdd(2, 26, 3);
    PowAdd(2, 29, 4);
    PowAdd(2, 33, 3);
    PowAdd(2, 36, 3);
    PowAdd(2, 39, 4);
    PowAdd(2, 43, 3);
    PowAdd(2, 46, 3);
    PowAdd(2, 49, 4);
    PowAdd(2, 53, 3);
    PowAdd(2, 56, 3);
    PowAdd(2, 59, 4);
  }

  lemma PowersOf10()
    ensures Pow(10, 0) == 1
    ensures Pow(10, 1) == 10
    ensures Pow(10, 2) == 100
    ensures Pow(10, 3) == 1000
    ensures Pow(10, 4) == 10000
    ensures Pow(10, 5) == 100000
    ensures Pow(10, 6) == 1000000
    ensures Pow(10, 7) == 10000000
    ensures Pow(10, 8) == 100000000
    ensures Pow(10, 9) == 1000000000
    ensures Pow(10, 10) == 10000000000
    ensures Pow(10, 11) == 100000000000
    ensures Pow(10, 12) == 1000000000000
    ensures Pow(10, 13) == 10000000000000
    ensures Pow(10, 14) == 100000000000000
    ensures Pow(10, 15) == 1000000000000000
    ensures Pow(10, 16) == 10000000000000000
    ensures Pow(10, 17) == 100000000000000000
    ensures Pow(10, 18) == 1000000000000000000
    ensures Pow(10, 19) == 10000000000000000000
    ensures Pow(10, 20) == 100000000000000000000
  {
  }

  lemma Run(b: nat, first: nat, next: nat)
    requires first <= b < next
    ensures Pow(2, first) <= Pow(2, b) && Pow(2, b + 1) <= Pow(2, next)
  {
    PowMono(2, first, b);
    PowMono(2, b + 1, next);
  }

  /** A number with highest bit `b` has as many digits as its table entry, or one fewer. */
  lemma BsrToLog10Fits(b: nat)
    requires b < 64
    ensures var t := BsrToLog10(b);
            Pow(2, b + 1) <= Pow(10, t) && (t > 1 ==> Pow(10, t - 2) <= Pow(2, b))
  {
    PowersOf2();
    PowersOf10();
    WordPowers();
    hide Pow;
    if b < 3 {
      Run(b, 0, 3);
    } else if b < 6 {
      Run(b, 3, 6);
    } else if b < 9 {
      Run(b, 6, 9);
    } else if b < 13 {
      Run(b, 9, 13);
    } else if b < 16 {
      Run(b, 13, 16);
    } else if b < 19 {
      Run(b, 16, 19);
    } else if b < 23 {
      Run(b, 19, 23);
    } else if b < 26 {
      Run(b, 23, 26);
    } else if b < 29 {
      Run(b, 26, 29);
    } else if b < 33 {
      Run(b, 29, 33);
    } else if b < 36 {
      Run(b, 33, 36);
    } else if b < 39 {
      Run(b, 36, 39);
    } else if b < 43 {
      Run(b, 39, 43);
    } else if b < 46 {
      Run(b, 43, 46);
    } else if b < 49 {
      Run(b, 46, 49);
    } else if b < 53 {
      Run(b, 49, 53);
    } else if b < 56 {
      Run(b, 53, 56);
    } else if b < 59 {
      Run(b, 56, 59);
    } else if b < 63 {
      Run(b, 59, 63);
    } else {
      Run(b, 63, 64);
    }
  }

  lemma HighestBitOfOrOne(n: nat)
    ensures var b := HighestBit(OrOne(n));
            n < Pow(2, b + 1) && (n > 0 ==> Pow(2, b) <= n)
  {
    HighestBitBounds(OrOne(n));
    var b := HighestBit(OrOne(n));
    if n > 0 && n % 2 == 0 && b > 0 {
      assert Pow(2, b) == 2 * Pow(2, b - 1);
    }
  }

  /** A number with highest bit `b` has `t` or `t - 1` digits when the powers of ten around `t` enclose that bit. */
  lemma DigitsAtBit(n: nat, b: nat, t: nat)
    requires b == HighestBit(OrOne(n)) && t >= 1
    requires Pow(2, b + 1) <= Pow(10, t) && (t > 1 ==> Pow(10, t - 2) <= Pow(2, b))
    ensures DigitCount(n) == if n < ZeroOrPowerOf10(t) && n > 0 then t - 1 else if n == 0 then 1 else t
  {
    HighestBitOfOrOne(n);
    SmallPowersOf10();
    hide Pow, HighestBit, OrOne, DigitCount;
    if n == 0 || t == 1 {
      DigitCountIs(n, 1);
    } else {
      DigitCountIs(n, if n < Pow(10, t - 1) then t - 1 else t);
    }
  }

  /** The 64-bit table lookup counts the digits. */
  lemma CountDigits64Correct(n: nat)
    requires n < 0x1_0000_0000_0000_0000
    ensures CountDigits64(n) == DigitCount(n)
  {
    BitBelow(n, 64);
    var b := HighestBit(OrOne(n));
    BsrToLog10Fits(b);
    DigitsAtBit(n, b, BsrToLog10(b));
  }

  /** The same for the thresholds of the 32-bit table. */
  lemma IncThresholdFits(b: nat)
    requires b < 32
    ensures var t := DigitCount(IncThreshold(b));
            && IncThreshold(b) == ZeroOrPowerOf10(t) <= 1000000000
            && Pow(2, b + 1) <= Pow(10, t) && (t > 1 ==> Pow(10, t - 2) <= Pow(2, b))
  {
    EveryThirdPowerOf2();
    PowersOf10();
    WordPowers();
    hide Pow, DigitCount;
    if b < 3 {
      Run(b, 0, 3);
      DigitCountIs(0, 1);
    } else if b < 6 {
      Run(b, 3, 6);
      DigitCountIs(10, 2);
    } else if b < 9 {
      Run(b, 6, 9);
      DigitCountIs(100, 3);
    } else if b < 12 {
      Run(b, 9, 12);
      DigitCountIs(1000, 4);
    } else if b < 15 {
      Run(b, 12, 15);
      DigitCountIs(10000, 5);
    } else if b < 18 {
      Run(b, 15, 18);
      DigitCountIs(100000, 6);
    } else if b < 21 {
      Run(b, 18, 21);
      DigitCountIs(1000000, 7);
    } else if b < 24 {
      Run(b, 21, 24);
      DigitCountIs(10000000, 8);
    } else if b < 27 {
      Run(b, 24, 27);
      DigitCountIs(100000000, 9);
    } else {
      Run(b, 27, 32);
      DigitCountIs(1000000000, 10);
    }
  }

  lemma EveryThirdPowerOf2()
    ensures Pow(2, 0) == 1
    ensures Pow(2, 3) == 8
    ensures Pow(2, 6) == 64
    ensures Pow(2, 9) == 512
    ensures Pow(2, 12) == 4096
    ensures Pow(2, 15) == 32768
    ensures Pow(2, 18) == 262144
    ensures Pow(2, 21) == 2097152
    ensures Pow(2, 24) == 16777216
    ensures Pow(2, 27) == 134217728
  {
    assert Pow(2, 3) == 8;
    hide Pow;
    PowAdd(2, 3, 3);
    PowAdd(2, 6, 3);
    PowAdd(2, 9, 3);
    PowAdd(2, 12, 3);
    PowAdd(2, 15, 3);
    PowAdd(2, 18, 3);
    PowAdd(2, 21, 3);
    PowAdd(2, 24, 3);
  }

  /** The branch-free 32-bit lookup agrees. */
  lemma CountDigits32Correct(n: nat)
    requires n < 0x1_0000_0000
    ensures CountDigits32(n) == DigitCount(n)
  {
    hide HighestBit, OrOne, DigitCount, IncThreshold, Pow;
    BitBelow(n, 32);
    var b := HighestBit(OrOne(n));
    IncThresholdFits(b);
    DigitsAtBit(n, b, DigitCount(IncThreshold(b)));
    ZeroBit();
    UpperHalf(n, DigitCount(IncThreshold(b)), IncThreshold(b));
  }

  lemma ZeroBit()
    ensures HighestBit(OrOne(0)) == 0 && IncThreshold(0) == 0 && DigitCount(0) == 1
  {
  }

  /** Adding the table entry moves the digit count into the upper half of the sum. */
  lemma UpperHalf(n: nat, t: nat, d: nat)
    requires n < 0x1_0000_0000 && t > 0 && d <= 1000000000
    ensures t * 0x1_0000_0000 - d >= 0
    ensures (n + (t * 0x1_0000_0000 - d)) / 0x1_0000_0000 == if n < d then t - 1 else t
  {
  }

  // Writing.

  /** The decimal text of a number. */
  function DecimalText(n: nat): (s: seq<char>) {
    if n < 10 then [DigitChar(n)] else DecimalText(n / 10) + [DigitChar(n % 10)]
  }

  lemma {:induction false} DecimalTextIsNumber(n: nat)
    ensures |DecimalText(n)| == DigitCount(n) && AllDigits(DecimalText(n)) && Number(DecimalText(n)) == n
  {
    if n < 10 {
      NumberSnoc([], DigitChar(n));
      assert [] + [DigitChar(n)] == [DigitChar(n)];
    } else {
      DecimalTextIsNumber(n / 10);
      NumberSnoc(DecimalText(n / 10), DigitChar(n % 10));
    }
  }

  /** The digits of `rest` are still to be written, to the left of `out`; nothing outside the text has changed. */
  ghost predicate Filled(was: seq<char>, now: seq<char>, out: nat, size: nat, rest: nat, value: nat) {
    && out <= size <= |now| == |was| && DigitCount(rest) <= out
    && DecimalText(rest) + now[out..size] == DecimalText(value) && now[..out] == was[..out] && now[size..] == was[size..]
  }

  ghost predicate Written(was: seq<char>, now: seq<char>, out: nat, size: nat, value: nat) {
    && out <= size <= |now| == |was|
    && now[out..size] == DecimalText(value) && now[..out] == was[..out] && now[size..] == was[size..]
  }

  /** Two digits at a time, from the right; `out` begins where the text begins. */
  method FormatDecimal(buffer: array<char>, value: nat, size: nat) returns (out: nat)
    requires DigitCount(value) <= size <= buffer.Length
    modifies buffer
    ensures out + DigitCount(value) == size && buffer[out..size] == DecimalText(value)
    ensures buffer[..out] == old(buffer[..out]) && buffer[size..] == old(buffer[size..])
  {
    hide *;
    ghost var was := buffer[..];
    NothingFilled(was, size, value);
    out := size;
    var rest := value;
    while rest >= 100
      invariant out <= size && Filled(was, buffer[..], out, size, rest, value)
    {
      PairFilled(was, buffer[..], out, size, rest, value);
      ghost var before := buffer[..];
      out := out - 2;
      buffer[out], buffer[out + 1] := DigitChar(rest % 100 / 10), DigitChar(rest % 100 % 10);
      assert buffer[..] == before[out := buffer[out]][out + 1 := buffer[out + 1]];
      rest := rest / 100;
    }
    LastFilled(was, buffer[..], out, size, rest, value);
    ghost var before := buffer[..];
    if rest < 10 {
      out := out - 1;
      buffer[out] := DigitChar(rest);
      assert buffer[..] == before[out := buffer[out]];
    } else {
      out := out - 2;
      buffer[out], buffer[out + 1] := DigitChar(rest / 10), DigitChar(rest % 10);
      assert buffer[..] == before[out := buffer[out]][out + 1 := buffer[out + 1]];
    }
    AllWritten(was, buffer[..], out, size, value);
    assert buffer[out..size] == buffer[..][out..size] && buffer[..out] == buffer[..][..out] && buffer[size..] == buffer[..][size..];
  }

  lemma NothingFilled(was: seq<char>, size: nat, value: nat)
    requires DigitCount(value) <= size <= |was|
    ensures Filled(was, was, size, size, value, value)
  {
    hide DecimalText, DigitCount;
    assert DecimalText(value) + [] == DecimalText(value);
  }

  lemma PairFilled(was: seq<char>, now: seq<char>, out: nat, size: nat, rest: nat, value: nat)
    requires Filled(was, now, out, size, rest, value) && rest >= 100
    ensures out >= 2
    ensures Filled(was, now[out - 2 := DigitChar(rest % 100 / 10)][out - 1 := DigitChar(rest % 100 % 10)], out - 2, size, rest / 100, value)
  {
    TwoDigits(rest);
    hide DecimalText, DigitCount, DigitChar;
    PairInFront(was, now, out, size, DigitChar(rest % 100 / 10), DigitChar(rest % 100 % 10));
    ConcatAssoc(DecimalText(rest / 100), [DigitChar(rest % 100 / 10), DigitChar(rest % 100 % 10)], now[out..size]);
  }

  lemma PairInFront(was: seq<char>, now: seq<char>, out: nat, size: nat, a: char, b: char)
    requires 2 <= out <= size <= |now| == |was| && now[..out] == was[..out] && now[size..] == was[size..]
    ensures var next := now[out - 2 := a][out - 1 := b];
            && next[out - 2..size] == [a, b] + now[out..size]
            && next[..out - 2] == was[..out - 2] && next[size..] == was[size..]
  {
    var next := now[out - 2 := a][out - 1 := b];
    assert next[..out - 2] == now[..out][..out - 2];
    assert next[size..] == now[size..];
    assert next[out - 2..size] == [a, b] + now[out..size];
  }

  lemma OneInFront(was: seq<char>, now: seq<char>, out: nat, size: nat, a: char)
    requires 1 <= out <= size <= |now| == |was| && now[..out] == was[..out] && now[size..] == was[size..]
    ensures var next := now[out - 1 := a];
            && next[out - 1..size] == [a] + now[out..size]
            && next[..out - 1] == was[..out - 1] && next[size..] == was[size..]
  {
    var next := now[out - 1 := a];
    assert next[..out - 1] == now[..out][..out - 1];
    assert next[size..] == now[size..];
    assert next[out - 1..size] == [a] + now[out..size];
  }

  lemma LastFilled(was: seq<char>, now: seq<char>, out: nat, size: nat, rest: nat, value: nat)
    requires Filled(was, now, out, size, rest, value) && rest < 100
    ensures out >= if rest < 10 then 1 else 2
    ensures rest < 10 ==> Written(was, now[out - 1 := DigitChar(rest)], out - 1, size, value)
    ensures rest >= 10 ==>
              Written(was, now[out - 2 := DigitChar(rest / 10)][out - 1 := DigitChar(rest % 10)], out - 2, size, value)
  {
    LastDigits(rest);
    hide DecimalText, DigitCount, DigitChar;
    if rest < 10 {
      OneInFront(was, now, out, size, DigitChar(rest));
    } else {
      PairInFront(was, now, out, size, DigitChar(rest / 10), DigitChar(rest % 10));
    }
  }

  lemma AllWritten(was: seq<char>, now: seq<char>, out: nat, size: nat, value: nat)
    requires Written(was, now, out, size, value)
    ensures out + DigitCount(value) == size <= |now| == |was|
    ensures now[out..size] == DecimalText(value) && now[..out] == was[..out] && now[size..] == was[size..]
  {
    DecimalTextIsNumber(value);
  }

  lemma ConcatAssoc(a: seq<char>, b: seq<char>, c: seq<char>)
    ensures a + (b + c) == a + b + c
  {
  }

  lemma LastDigits(n: nat)
    requires n < 100
    ensures DecimalText(n) == if n < 10 then [DigitChar(n)] else [DigitChar(n / 10), DigitChar(n % 10)]
    ensures DigitCount(n) == if n < 10 then 1 else 2
  {
  }

  lemma TwoDigits(n: nat)
    requires n >= 100
    ensures DecimalText(n) == DecimalText(n / 100) + [DigitChar(n % 100 / 10), DigitChar(n % 100 % 10)]
    ensures DigitCount(n) == DigitCount(n / 100) + 2
  {
    assert n / 10 / 10 == n / 100 && n / 10 % 10 == n % 100 / 10 && n % 10 == n % 100 % 10;
    assert DecimalText(n / 10) == DecimalText(n / 100) + [DigitChar(n / 10 % 10)];
  }

  // Reading.

  /** What the parser makes of a run of digits: more than ten characters are taken for an overflow. */
  function ParsedInt(digits: seq<char>, errorValue: int): int {
    if |digits| <= 10 && Number(digits) <= INT_MAX then Number(digits) else errorValue
  }

  lemma NoDigits()
    ensures Number([]) == 0
  {
  }

  lemma WrapStep(n: nat, d: nat)
    ensures (n % 0x1_0000_0000 * 10 + d) % 0x1_0000_0000 == (n * 10 + d) % 0x1_0000_0000
  {
    var q, r := n / 0x1_0000_0000, n % 0x1_0000_0000;
    assert n * 10 + d == q * 10 * 0x1_0000_0000 + (r * 10 + d);
  }

  /** The accumulator holds the number read so far, modulo 2^32. */
  ghost predicate Accumulated(s: seq<char>, begin: nat, p: nat, value: int) {
    begin <= p <= |s| && AllDigits(s[begin..p]) && value == Number(s[begin..p]) % W32
  }

  lemma AccumulateNext(s: seq<char>, begin: nat, p: nat, value: int)
    requires Accumulated(s, begin, p, value) && p < |s| && IsDigit(s[p])
    ensures Accumulated(s, begin, p + 1, (value * 10 + Digit(s[p])) % W32)
  {
    var front := s[begin..p];
    NumberBound(front);
    NumberSnoc(front, s[p]);
    assert s[begin..p + 1] == front + [s[p]];
    hide Number;
    WrapStep(Number(front), Digit(s[p]));
  }

  /** Whether the last accumulators can be trusted. */
  lemma DecideOverflow(s: seq<char>, begin: nat, p: nat, prev: int, value: int, errorValue: int)
    requires begin < p && Accumulated(s, begin, p - 1, prev) && Accumulated(s, begin, p, value)
    ensures ParsedInt(s[begin..p], errorValue) ==
            if p - begin <= 9 || (p - begin == 10 && prev * 10 + Digit(s[p - 1]) <= INT_MAX) then value else errorValue
  {
    var front, all := s[begin..p - 1], s[begin..p];
    assert all == front + [s[p - 1]];
    NumberSnoc(front, s[p - 1]);
    NumberBound(front);
    NumberBound(all);
    PowersOf10();
    hide Number, Pow;
    if |all| <= 9 {
      PowMono(10, |all|, 9);
    }
  }

  /** Reads the longest run of digits from `begin`. The 32-bit accumulator may wrap around. */
  method ParseNonnegativeInt(s: seq<char>, begin: nat, errorValue: int) returns (result: int, end: nat)
    requires begin < |s| && IsDigit(s[begin])
    ensures begin < end <= |s| && AllDigits(s[begin..end]) && (end < |s| ==> !IsDigit(s[end]))
    ensures result == ParsedInt(s[begin..end], errorValue)
  {
    hide Number, Pow, ParsedInt, Digit;
    var value, prev := 0, 0;
    var p := begin;
    NoDigits();
    assert s[begin..p] == [];
    while true
      invariant begin <= p < |s| && IsDigit(s[p]) && Accumulated(s, begin, p, value)
      decreases |s| - p
    {
      AccumulateNext(s, begin, p, value);
      prev := value;
      value := (value * 10 + Digit(s[p])) % 0x1_0000_0000;
      p := p + 1;
      if p == |s| || !IsDigit(s[p]) {
        break;
      }
    }
    end := p;
    DecideOverflow(s, begin, p, prev, value, errorValue);
    if p - begin <= 9 {
      return value, end;
    }
    if p - begin == 10 && prev * 10 + Digit(s[p - 1]) <= INT_MAX {
      return value, end;
    }
    return errorValue, end;
  }

  /** Writing a number and reading it back gives it again exactly when it is a nonnegative `int`. */
  lemma FormatThenParse(n: nat, errorValue: int)
    ensures ParsedInt(DecimalText(n), errorValue) == if n <= 0x7FFF_FFFF then n else errorValue
  {
    DecimalTextIsNumber(n);
    PowersOf10();
    if n <= INT_MAX {
      DigitCountBounds(n);
      if DigitCount(n) > 10 {
        PowMono(10, 10, DigitCount(n) - 1);
      }
    }
  }

  /** A run of digits is read as its number exactly when it fits an `int` and has at most ten characters. */
  lemma ParsedExactly(digits: seq<char>, errorValue: int)
    requires AllDigits(digits) && errorValue != Number(digits)
    ensures ParsedInt(digits, errorValue) == Number(digits) <==> |digits| <= 10 && Number(digits) <= 0x7FFF_FFFF
  {
  }

  /** Leading zeros count towards the limit: eleven characters that stand for one are refused. */
  lemma LeadingZerosOverflow()
    ensures Number("00000000001") == 1 && ParsedInt("00000000001", -1) == -1
  {
    var z: seq<char> := "0000000000";
    NumberOfZeros(z);
    NumberSnoc(z, '1');
    assert z + ['1'] == "00000000001";
  }
}
