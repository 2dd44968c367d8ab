/** 64-bit multiplications built from 32-bit halves, as used without a 128-bit integer type. */
module WideMultiply {
  import opened Powers

  type Word = x: int | 0 <= x < W64

  /** lhs * rhs / 2^64, rounded half up. */
  function Multiply(lhs: Word, rhs: Word): Word {
    var a, b, c, d := lhs / W32, lhs % W32, rhs / W32, rhs % W32;
    var ac, bc, ad, bd := a * c % W64, b * c % W64, a * d % W64, b * d % W64;
    RoundedMiddle(ac, bc, ad, bd)
  }

  function RoundedMiddle(ac: Word, bc: Word, ad: Word, bd: Word): Word {
    var mid := (bd / W32 + ad % W32 + bc % W32 + 0x8000_0000) % W64;
    (ac + ad / W32 + bc / W32 + mid / W32) % W64
  }

  /** The same with a 128-bit product: the upper word plus the top bit of the lower one. */
  function MultiplyInt128(lhs: Word, rhs: Word): Word {
    var product := lhs as int * rhs % (W64 * W64);
    var f := product / W64;
    if product % W64 / 0x8000_0000_0000_0000 % 2 != 0 then (f + 1) % W64 else f
  }

  datatype Pair = Pair(high: Word, low: Word) {
    function Value(): nat {
      high * W64 + low
    }

    /** Adds a word; the carry is seen by the low word wrapping around. */
    function Plus(n: Word): Pair {
      var sum := (low + n) % W64;
      Pair((high + if sum < low then 1 else 0) % W64, sum)
    }
  }

  function Umul128(x: Word, y: Word): Pair {
    var a, b, c, d := x / W32, x % W32, y / W32, y % W32;
    var ac, bc, ad, bd := a * c % W64, b * c % W64, a * d % W64, b * d % W64;
    JoinedProducts(ac, bc, ad, bd)
  }

  function JoinedProducts(ac: Word, bc: Word, ad: Word, bd: Word): Pair {
    var intermediate := (bd / W32 + ad % W32 + bc % W32) % W64;
    Pair((ac + intermediate / W32 + ad / W32 + bc / W32) % W64, (intermediate * W32 % W64 + bd % W32) % W64)
  }

  function Umul192Upper64(x: Word, y: Pair): Word {
    Umul128(x, y.high).Plus(Umul128(x, y.low).high).high
  }

  function Umul192Middle64(x: Word, y: Pair): Word {
    (x as int * y.high % W64 + Umul128(x, y.low).high) % W64
  }

  const MAX_PARTIAL: nat := 0xFFFF_FFFE_0000_0001

  /** The four partial products make up the product, and none overflows. */
  lemma PartialProducts(x: Word, y: Word)
    ensures var a, b, c, d := x / W32, x % W32, y / W32, y % W32;
            && 0 <= a * c <= MAX_PARTIAL && 0 <= b * c <= MAX_PARTIAL
            && 0 <= a * d <= MAX_PARTIAL && 0 <= b * d <= MAX_PARTIAL
            && x as int * y == a * c * W64 + (a * d + b * c) * W32 + b * d
            && 0 <= x as int * y <= 0xFFFF_FFFF_FFFF_FFFE_0000_0000_0000_0001
  {
    var a, b, c, d := x / W32, x % W32, y / W32, y % W32;
    MulBound(a, c, 0xFFFF_FFFF, 0xFFFF_FFFF);
    MulBound(b, c, 0xFFFF_FFFF, 0xFFFF_FFFF);
    MulBound(a, d, 0xFFFF_FFFF, 0xFFFF_FFFF);
    MulBound(b, d, 0xFFFF_FFFF, 0xFFFF_FFFF);
    MulBound(x, y, 0xFFFF_FFFF_FFFF_FFFF, 0xFFFF_FFFF_FFFF_FFFF);
    ProductOfSums(a, b, c, d);
  }

  /** Adding up the halves loses no carry. */
  lemma HalvesAddUp(ac: nat, bc: nat, ad: nat, bd: nat, p: nat)
    requires ac <= MAX_PARTIAL && bc <= MAX_PARTIAL && ad <= MAX_PARTIAL && bd <= MAX_PARTIAL
    requires p == ac * W64 + (ad + bc) * W32 + bd && p <= 0xFFFF_FFFF_FFFF_FFFE_0000_0000_0000_0001
    ensures RoundedMiddle(ac, bc, ad, bd) == (p + 0x8000_0000_0000_0000) / W64
    ensures JoinedProducts(ac, bc, ad, bd).Value() == p
  {
    hide RoundedMiddle, JoinedProducts, Pair.Value;
    var upper, mid := ac + ad / W32 + bc / W32, bd / W32 + ad % W32 + bc % W32;
    MiddleSum(upper, mid, bd % W32, p);
    RoundedIs(ac, bc, ad, bd, upper, mid);
    JoinedIs(ac, bc, ad, bd, upper, mid);
  }

  lemma RoundedIs(ac: Word, bc: Word, ad: Word, bd: Word, upper: nat, mid: nat)
    requires upper == ac + ad / W32 + bc / W32 && mid == bd / W32 + ad % W32 + bc % W32
    requires upper + (mid + 0x8000_0000) / W32 < W64
    ensures RoundedMiddle(ac, bc, ad, bd) == upper + (mid + 0x8000_0000) / W32
  {
    Fits(mid + 0x8000_0000);
    Fits(upper + (mid + 0x8000_0000) / W32);
  }

  lemma JoinedIs(ac: Word, bc: Word, ad: Word, bd: Word, upper: nat, mid: nat)
    requires upper == ac + ad / W32 + bc / W32 && mid == bd / W32 + ad % W32 + bc % W32
    requires upper + mid / W32 < W64
    ensures JoinedProducts(ac, bc, ad, bd).Value() == (upper + mid / W32) * W64 + (mid * W32 % W64 + bd % W32) % W64
  {
    Fits(mid);
    Fits(upper + mid / W32);
  }

  /** The product from its upper word, the middle halves with their carry, and its lowest half. */
  lemma MiddleSum(upper: nat, mid: nat, low: nat, p: nat)
    requires p == upper * W64 + mid * W32 + low && low < W32 && mid < 3 * W32
    requires p <= 0xFFFF_FFFF_FFFF_FFFE_0000_0000_0000_0001
    ensures upper + (mid + 0x8000_0000) / W32 == (p + 0x8000_0000_0000_0000) / W64 < W64
    ensures 0 <= upper + mid / W32 < W64
    ensures (upper + mid / W32) * W64 + (mid * W32 % W64 + low) % W64 == p
  {
    var m, n := mid / W32, mid % W32;
    DivModUnique(mid * W32, W64, m, n * W32);
    Fits(n * W32 + low);
    var h, k := (mid + 0x8000_0000) / W32, (mid + 0x8000_0000) % W32;
    DivModUnique(p + 0x8000_0000_0000_0000, W64, upper + h, k * W32 + low);
  }

  /** A value below 2^64 does not wrap around. */
  lemma Fits(n: int)
    requires 0 <= n < W64
    ensures n % W64 == n
  {
  }

  lemma ProductOfSums(a: int, b: int, c: int, d: int)
    ensures (a * W32 + b) * (c * W32 + d) == a * c * W64 + (a * d + b * c) * W32 + b * d
  {
    calc {
      (a * W32 + b) * (c * W32 + d);
      a * W32 * (c * W32 + d) + b * (c * W32 + d);
      W32 * (a * (c * W32 + d)) + b * (c * W32 + d);
      { assert a * (c * W32 + d) == a * (c * W32) + a * d; MulAssoc(a, c, W32); }
      W32 * (W32 * (a * c) + a * d) + b * (c * W32 + d);
      { assert b * (c * W32 + d) == b * (c * W32) + b * d; MulAssoc(b, c, W32); }
      W32 * (W32 * (a * c) + a * d) + (W32 * (b * c) + b * d);
    }
  }

  /** Rounded half up at the middle of the product, with no carry lost. */
  lemma MultiplyRounds(x: Word, y: Word)
    ensures Multiply(x, y) == (x as int * y + 0x8000_0000_0000_0000) / W64
  {
    hide RoundedMiddle, JoinedProducts;
    PartialProducts(x, y);
    var a, b, c, d := x / W32, x % W32, y / W32, y % W32;
    Fits(a * c);
    Fits(b * c);
    Fits(a * d);
    Fits(b * d);
    HalvesAddUp(a * c, b * c, a * d, b * d, x as int * y);
  }

  lemma Umul128IsProduct(x: Word, y: Word)
    ensures Umul128(x, y).Value() == x as int * y
  {
    hide RoundedMiddle, JoinedProducts;
    PartialProducts(x, y);
    var a, b, c, d := x / W32, x % W32, y / W32, y % W32;
    Fits(a * c);
    Fits(b * c);
    Fits(a * d);
    Fits(b * d);
    HalvesAddUp(a * c, b * c, a * d, b * d, x as int * y);
  }

  /** With and without a 128-bit type the rounding is the same. */
  lemma MultiplyVariantsAgree(x: Word, y: Word)
    ensures MultiplyInt128(x, y) == Multiply(x, y)
  {
    hide Multiply;
    MultiplyRounds(x, y);
    PartialProducts(x, y);
    DivModUnique(x as int * y, W64 * W64, 0, x as int * y);
    TopBitRounds(x as int * y);
  }

  lemma TopBitRounds(p: nat)
    requires p <= 0xFFFF_FFFF_FFFF_FFFE_0000_0000_0000_0001
    ensures (p + 0x8000_0000_0000_0000) / W64
         == (if p % W64 / 0x8000_0000_0000_0000 % 2 != 0 then (p / W64 + 1) % W64 else p / W64)
  {
    var f, r := p / W64, p % W64;
    assert p == f * W64 + r;
  }

  /** The top word of the 192-bit product. */
  lemma Umul192UpperIsTopWord(x: Word, y: Pair)
    ensures Umul192Upper64(x, y) == x * y.Value() / (W64 * W64)
  {
    hide Umul128;
    Product192(x, y);
    AddCarries(Umul128(x, y.high), Umul128(x, y.low), x * y.Value());
  }

  /** The middle word of the 192-bit product. */
  lemma Umul192MiddleIsMiddleWord(x: Word, y: Pair)
    ensures Umul192Middle64(x, y) == x * y.Value() / W64 % W64
  {
    Product192(x, y);
    AddCarries(Umul128(x, y.high), Umul128(x, y.low), x * y.Value());
    MiddleIs(x, y);
    hide *;
  }

  lemma MiddleIs(x: Word, y: Pair)
    ensures Umul192Middle64(x, y) == (x as int * y.high % W64 + Umul128(x, y.low).high) % W64
  {
  }

  /** Adding the upper word of the lower product to the upper product. */
  lemma AddCarries(g0: Pair, g1: Pair, p: nat)
    requires p == g0.Value() * W64 + g1.Value() && g0.Value() <= 0xFFFF_FFFF_FFFF_FFFE_0000_0000_0000_0001
    ensures g0.Plus(g1.high).high == p / (W64 * W64)
    ensures (g0.Value() % W64 + g1.high) % W64 == p / W64 % W64
  {
    var q := g0.Value() + g1.high;
    assert p == q * W64 + g1.low;
    DivModUnique(p, W64, q, g1.low);
    var r, carry := g0.low + g1.high, if g0.low + g1.high < W64 then 0 else 1;
    DivModUnique(r, W64, carry, r - carry * W64);
    DivModUnique(g0.Value(), W64, g0.high, g0.low);
    DivModUnique(q, W64, g0.high + carry, r - carry * W64);
    DivModUnique(p, W64 * W64, g0.high + carry, (r - carry * W64) * W64 + g1.low);
    Fits(g0.high + carry);
  }

  lemma Product192(x: Word, y: Pair)
    ensures x * y.Value() == Umul128(x, y.high).Value() * W64 + Umul128(x, y.low).Value()
    ensures Umul128(x, y.high).Value() == x as int * y.high <= 0xFFFF_FFFF_FFFF_FFFE_0000_0000_0000_0001
  {
    hide Umul128;
    Umul128IsProduct(x, y.high);
    Umul128IsProduct(x, y.low);
    MulBound(x, y.high, 0xFFFF_FFFF_FFFF_FFFF, 0xFFFF_FFFF_FFFF_FFFF);
    AddMultiples(x, y.high, y.low);
  }

  lemma AddMultiples(x: int, h: int, l: int)
    ensures x * (h * W64 + l) == x * h * W64 + x * l
  {
    MulAssoc(x, h, W64);
    assert x * (h * W64 + l) == x * (h * W64) + x * l;
  }
}
