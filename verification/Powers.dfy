/** Powers of natural numbers, and the few non-linear facts the other modules rely on. */
module Powers {

  /** One more than the largest 32-bit and 64-bit unsigned numbers. */
  const W32: nat := 0x1_0000_0000

  const W64: nat := 0x1_0000_0000_0000_0000

  function Pow(b: nat, e: nat): (p: nat)
    ensures b > 0 ==> p > 0
  {
    if e == 0 then 1 else b * Pow(b, e - 1)
  }

  lemma {:induction false} PowAdd(b: nat, x: nat, y: nat)
    ensures Pow(b, x + y) == Pow(b, x) * Pow(b, y)
    decreases x
  {
    if x == 0 {
    } else {
      PowAdd(b, x - 1, y);
      MulAssoc(b, Pow(b, x - 1), Pow(b, y));
    }
  }

  lemma {:induction false} PowMono(b: nat, x: nat, y: nat)
    requires b > 0 && x <= y
    ensures Pow(b, x) <= Pow(b, y)
    decreases y
  {
    if x == y {
    } else {
      PowMono(b, x, y - 1);
    }
  }

  lemma {:induction false} PowGrows(b: nat, x: nat, y: nat)
    requires b > 1 && x < y
    ensures Pow(b, x) < Pow(b, y)
  {
    PowMono(b, x + 1, y);
  }

  lemma {:induction false} PowProduct(a: nat, b: nat, e: nat)
    ensures Pow(a * b, e) == Pow(a, e) * Pow(b, e)
  {
    if e == 0 {
    } else {
      PowProduct(a, b, e - 1);
      var p, q := Pow(a, e - 1), Pow(b, e - 1);
      calc {
        a * b * (p * q);
        { MulAssoc(a * b, p, q); MulAssoc(a, b, p); }
        a * (b * p) * q;
        { MulAssoc(a, p, b); }
        a * p * b * q;
        { MulAssoc(a * p, b, q); }
        a * p * (b * q);
      }
    }
  }

  lemma {:induction false} PowPow(b: nat, x: nat, y: nat)
    ensures Pow(Pow(b, x), y) == Pow(b, x * y)
    decreases y
  {
    if y == 0 {
    } else {
      PowPow(b, x, y - 1);
      PowAdd(b, x, x * (y - 1));
      assert x + x * (y - 1) == x * y;
    }
  }

  lemma MulAssoc(a: int, b: int, c: int)
    ensures a * b * c == a * (b * c)
  {
  }

  lemma MulSwap(a: int, b: int, c: int)
    ensures a * b * c == a * c * b
  {
    MulAssoc(a, b, c);
    MulAssoc(a, c, b);
  }

  lemma Factor(p: int, q: int, v: int, d: int)
    ensures p * v + d * (p * q) == p * (v + d * q)
  {
    calc {
      p * (v + d * q);
      p * v + p * (d * q);
      { MulAssoc(p, d, q); MulAssoc(d, p, q); }
      p * v + d * (p * q);
    }
  }

  lemma MulMono(a: int, b: int, c: int)
    requires a <= b && c >= 0
    ensures a * c <= b * c
  {
  }

  lemma MulStrict(a: int, b: int, c: int)
    requires a < b && c > 0
    ensures a * c < b * c
  {
  }

  lemma MulBound(x: int, y: int, m: int, n: int)
    requires 0 <= x <= m && 0 <= y <= n
    ensures 0 <= x * y <= m * n
  {
    MulMono(x, m, y);
    MulMono(y, n, m);
  }

  /** A common factor cancels in a strict comparison. */
  lemma MulCancelLess(a: int, b: int, c: int)
    requires c > 0 && a * c < b * c
    ensures a < b
  {
    if a >= b {
      MulMono(b, a, c);
    }
  }

  lemma MulCancel(a: int, b: int, c: int)
    requires c > 0 && a * c == b * c
    ensures a == b
  {
    if a < b {
      MulStrict(a, b, c);
    } else if b < a {
      MulStrict(b, a, c);
    }
  }

  /** Quotient and remainder are the only decomposition with a small remainder. */
  lemma DivModUnique(a: int, b: int, q: int, r: int)
    requires b > 0 && 0 <= r < b && a == q * b + r
    ensures a / b == q && a % b == r
  {
    var d := a / b - q;
    assert (a / b) * b + a % b == a;
    assert d * b == r - a % b by {
      assert d * b == (a / b) * b - q * b;
    }
    if d >= 1 {
      MulMono(1, d, b);
    } else if d <= -1 {
      MulMono(d, -1, b);
    }
  }

  lemma WordPowers()
    ensures Pow(2, 32) == 0x1_0000_0000 && Pow(2, 64) == 0x1_0000_0000_0000_0000
  {
    assert Pow(2, 8) == 256;
    PowAdd(2, 8, 8);
    PowAdd(2, 16, 16);
    assert 0x1_0000 * 0x1_0000 == 0x1_0000_0000;
    PowAdd(2, 32, 32);
    hide *;
    assert Pow(2, 64) == Pow(2, 32) * Pow(2, 32);
  }

  lemma Distribute(a: int, b: int, w: int)
    ensures (a - b) * w == a * w - b * w
  {
  }

  lemma {:induction false} PowOf5IsOdd(n: nat)
    ensures Pow(5, n) % 2 == 1
  {
    if n == 0 {
    } else {
      PowOf5IsOdd(n - 1);
      hide Pow;
      FiveOdds(Pow(5, n - 1));
      PowStep(5, n - 1);
    }
  }

  lemma FiveOdds(p: nat)
    requires p % 2 == 1
    ensures 5 * p % 2 == 1
  {
  }

  lemma PowStep(b: nat, n: nat)
    ensures Pow(b, n + 1) == b * Pow(b, n)
  {
  }

  lemma {:induction false} PowBelow(a: nat, b: nat, e: nat)
    requires a <= b
    ensures Pow(a, e) <= Pow(b, e)
  {
    if e == 0 {
    } else {
      PowBelow(a, b, e - 1);
      MulBound(a, Pow(a, e - 1), b, Pow(b, e - 1));
    }
  }
}
