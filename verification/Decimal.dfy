/** Decimal digit strings and the numbers they stand for, and rounding of a ratio half to even. */
module Decimal {
  import opened Powers

  /** A character's distance from '0'; a carry in progress makes it 10. */
  function Digit(c: char): int {
    c as int - '0' as int
  }

  function DigitChar(d: nat): (c: char)
    requires d <= 10
    ensures Digit(c) == d
  {
    ('0' as int + d) as char
  }

  predicate IsDigit(c: char) {
    '0' <= c <= '9'
  }

  predicate AllDigits(s: seq<char>) {
    forall i :: 0 <= i < |s| ==> IsDigit(s[i])
  }

  /** The number a digit string stands for, most significant digit first. */
  function Number(s: seq<char>): int {
    if s == [] then 0 else Number(s[..|s| - 1]) * 10 + Digit(s[|s| - 1])
  }

  lemma NumberSnoc(s: seq<char>, c: char)
    ensures Number(s + [c]) == Number(s) * 10 + Digit(c)
  {
    assert (s + [c])[..|s|] == s;
  }

  lemma {:induction false} NumberUpdate(s: seq<char>, i: nat, c: char)
    requires i < |s|
    ensures Number(s[i := c]) == Number(s) + (Digit(c) - Digit(s[i])) * Pow(10, |s| - 1 - i)
  {
    var n := |s| - 1;
    if i == n {
      assert s[i := c][..n] == s[..n];
    } else {
      assert s[i := c][..n] == s[..n][i := c];
      NumberUpdate(s[..n], i, c);
      MulAssoc(Digit(c) - Digit(s[i]), Pow(10, n - 1 - i), 10);
    }
  }

  lemma {:induction false} NumberBound(s: seq<char>)
    requires AllDigits(s)
    ensures 0 <= Number(s) < Pow(10, |s|)
  {
    if s == [] {
    } else {
      NumberBound(s[..|s| - 1]);
    }
  }

  /** Equal numbers of equal length have equal digits. */
  lemma {:induction false} NumberInjective(s: seq<char>, t: seq<char>)
    requires AllDigits(s) && AllDigits(t) && |s| == |t| && Number(s) == Number(t)
    ensures s == t
  {
    if s == [] {
    } else {
      hide Number;
      var n := |s| - 1;
      assert s == s[..n] + [s[n]] && t == t[..n] + [t[n]];
      NumberSnoc(s[..n], s[n]);
      NumberSnoc(t[..n], t[n]);
      NumberInjective(s[..n], t[..n]);
    }
  }

  /** A leading digit followed by zeros. */
  lemma {:induction false} NumberOfZeros(s: seq<char>)
    requires s != [] && forall i :: 0 < i < |s| ==> s[i] == '0'
    ensures Number(s) == Digit(s[0]) * Pow(10, |s| - 1)
  {
    if |s| == 1 {
      assert s[..0] == [];
    } else {
      NumberOfZeros(s[..|s| - 1]);
      MulAssoc(Digit(s[0]), Pow(10, |s| - 2), 10);
    }
  }

  /** The character before the last carry: '0' + 10. */
  const OVERFLOW: char := ':'

  /** Carries to the left from a last digit that has become ten; a carry out of the first digit leaves "10...0" one place
      short and is reported. */
  method PropagateCarry(digits: seq<char>) returns (buf: seq<char>, raised: nat)
    requires digits != [] && AllDigits(digits[..|digits| - 1]) && '0' <= digits[|digits| - 1] <= OVERFLOW
    ensures |buf| == |digits| && AllDigits(buf) && raised <= 1
    ensures Number(buf) * Pow(10, raised) == Number(digits)
    ensures raised == 1 <==> Number(digits) == Pow(10, |digits|)
  {
    hide Number, Pow, Digit;
    buf := digits;
    var i := |buf| - 1;
    while i > 0 && buf[i] == OVERFLOW
      invariant 0 <= i < |buf| == |digits|
      invariant forall k :: 0 <= k < i ==> IsDigit(buf[k])
      invariant IsDigit(buf[i]) || buf[i] == OVERFLOW
      invariant forall k :: i < k < |buf| ==> buf[k] == '0'
      invariant Number(buf) == Number(digits)
    {
      CarryLeft(buf, i);
      buf := buf[i := '0'];
      buf := buf[i - 1 := (buf[i - 1] as int + 1) as char];
      i := i - 1;
    }
    raised := 0;
    ghost var carried := buf;
    if buf[0] == OVERFLOW {
      buf := buf[0 := '1'];
      raised := 1;
      OneInFront(carried);
    } else {
      NumberBound(buf);
      NoRaise(Number(buf));
    }
  }

  /** A carry out of the first digit. */
  lemma OneInFront(s: seq<char>)
    requires s != [] && s[0] == OVERFLOW && forall k :: 0 < k < |s| ==> s[k] == '0'
    ensures Number(s) == Pow(10, |s|) && Number(s[0 := '1']) * Pow(10, 1) == Number(s)
  {
    NumberOfZeros(s);
    NumberOfZeros(s[0 := '1']);
    assert Digit(OVERFLOW) == 10 && Digit('1') == 1 && Pow(10, 1) == 10;
    PowStep(10, |s| - 1);
  }

  lemma NoRaise(n: int)
    ensures n * Pow(10, 0) == n
  {
  }

  lemma CarryLeft(s: seq<char>, i: nat)
    requires 0 < i < |s| && s[i] == OVERFLOW && IsDigit(s[i - 1])
    ensures Number(s[i := '0'][i - 1 := (s[i - 1] as int + 1) as char]) == Number(s)
  {
    hide Number, Pow, Digit;
    DigitOfNext(s[i - 1]);
    var c := (s[i - 1] as int + 1) as char;
    NumberUpdate(s, i, '0');
    NumberUpdate(s[i := '0'], i - 1, c);
    PowStep(10, |s| - 1 - i);
    assert |s| - 1 - (i - 1) == |s| - 1 - i + 1;
    CarryTen(Pow(10, |s| - 1 - i));
  }

  lemma DigitOfNext(c: char)
    requires IsDigit(c)
    ensures c < OVERFLOW && Digit((c as int + 1) as char) - Digit(c) == 1 && Digit('0') - Digit(OVERFLOW) == -10
  {
  }

  lemma CarryTen(p: int)
    ensures -10 * p + 1 * (10 * p) == 0
  {
  }

  // Rounding.

  /** `a / b` rounded to the nearest integer, a tie going to the even one. */
  function RoundHalfEven(a: nat, b: nat): nat
    requires b > 0
  {
    var q, r := a / b, a % b;
    if 2 * r > b || (2 * r == b && q % 2 == 1) then q + 1 else q
  }

  /** `n` is a nearest integer to `a / b`, and the even one when two are equally near. */
  ghost predicate IsNearestEven(a: nat, b: nat, n: int) {
    var off: int := 2 * (a - n * b);
    off <= b && off + b >= 0 && (off == b || off + b == 0 ==> n % 2 == 0)
  }

  lemma RoundIsNearest(a: nat, b: nat)
    requires b > 0
    ensures IsNearestEven(a, b, RoundHalfEven(a, b))
  {
    var q := a / b;
    assert a == q * b + a % b;
    assert (q + 1) * b == q * b + b;
  }

  lemma NearestIsUnique(a: nat, b: nat, m: int, n: int)
    requires b > 0 && IsNearestEven(a, b, m) && IsNearestEven(a, b, n)
    ensures m == n
  {
    hide *;
    NotBelowNearest(a, b, m, n);
    NotBelowNearest(a, b, n, m);
  }

  lemma NotBelowNearest(a: nat, b: nat, m: int, n: int)
    requires b > 0 && IsNearestEven(a, b, m) && IsNearestEven(a, b, n)
    ensures m <= n
  {
    if m > n {
      Spaced(m, n, b);
      TwoApart(m, n);
    }
  }

  lemma Spaced(m: int, n: int, b: nat)
    requires m > n
    ensures m * b >= n * b + b && (m > n + 1 ==> m * b >= n * b + 2 * b)
  {
    MulMono(n + 1, m, b);
    if m > n + 1 {
      MulMono(n + 2, m, b);
    }
  }

  lemma TwoApart(m: int, n: int)
    ensures m % 2 == 0 && n % 2 == 0 ==> m != n + 1
  {
  }

  /** A common factor does not change the rounded ratio. */
  lemma RoundScaled(a: nat, b: nat, k: nat)
    requires b > 0 && k > 0
    ensures a * k >= 0 && b * k > 0
    ensures RoundHalfEven(a * k, b * k) == RoundHalfEven(a, b)
  {
    var q, r := a / b, a % b;
    assert a == q * b + r;
    MulStrict(r, b, k);
    MulStrict(0, b, k);
    assert a * k == q * (b * k) + r * k by {
      MulAssoc(q, b, k);
      assert (q * b + r) * k == q * b * k + r * k;
    }
    DivModUnique(a * k, b * k, q, r * k);
    if 2 * r < b {
      MulStrict(2 * r, b, k);
    } else if 2 * r > b {
      MulStrict(b, 2 * r, k);
    }
  }
}
