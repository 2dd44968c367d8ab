/** Divisibility by powers of five through multiplication by a modular inverse, and the removal of trailing decimal zeros
    that rests on it. */
module TrailingZeros {
  import opened Powers

  /** The inverse of a power of five modulo the word size, and the largest quotient by it that fits a word. */
  datatype Entry = Entry(modInv: nat, maxQuotient: nat)

  function DivtestTable32(exp: nat): Entry
    requires exp <= 10
  {
    match exp
    case 0 => Entry(0x0000_0001, 0xffff_ffff)
    case 1 => Entry(0xcccc_cccd, 0x3333_3333)
    case 2 => Entry(0xc28f_5c29, 0x0a3d_70a3)
    case 3 => Entry(0x26e9_78d5, 0x020c_49ba)
    case 4 => Entry(0x3afb_7e91, 0x0068_db8b)
    case 5 => Entry(0x0bcb_e61d, 0x0014_f8b5)
    case 6 => Entry(0x68c2_6139, 0x0004_31bd)
    case 7 => Entry(0xae8d_46a5, 0x0000_d6bf)
    case 8 => Entry(0x22e9_0e21, 0x0000_2af3)
    case 9 => Entry(0x3a2e_9c6d, 0x0000_0897)
    case _ => Entry(0x3ed6_1f49, 0x0000_01b7)
  }

  function DivtestTable64(exp: nat): Entry
    requires exp <= 23
  {
    match exp
    case 0 => Entry(0x0000_0000_0000_0001, 0xffff_ffff_ffff_ffff)
    case 1 => Entry(0xcccc_cccc_cccc_cccd, 0x3333_3333_3333_3333)
    case 2 => Entry(0x8f5c_28f5_c28f_5c29, 0x0a3d_70a3_d70a_3d70)
    case 3 => Entry(0x1cac_0831_26e9_78d5, 0x020c_49ba_5e35_3f7c)
    case 4 => Entry(0xd288_ce70_3afb_7e91, 0x0068_db8b_ac71_0cb2)
    case 5 => Entry(0x5d4e_8fb0_0bcb_e61d, 0x0014_f8b5_88e3_68f0)
    case 6 => Entry(0x790f_b656_68c2_6139, 0x0004_31bd_e82d_7b63)
    case 7 => Entry(0xe503_2477_ae8d_46a5, 0x0000_d6bf_94d5_e57a)
    case 8 => Entry(0xc767_074b_22e9_0e21, 0x0000_2af3_1dc4_6118)
    case 9 => Entry(0x8e47_ce42_3a2e_9c6d, 0x0000_0897_05f4_136b)
    case 10 => Entry(0x4fa7_f60d_3ed6_1f49, 0x0000_01b7_cdfd_9d7b)
    case 11 => Entry(0x0fee_6469_0c91_3975, 0x0000_0057_f5ff_85e5)
    case 12 => Entry(0x3662_e0e1_cf50_3eb1, 0x0000_0011_9799_812d)
    case 13 => Entry(0xa47a_2cf9_f643_3fbd, 0x0000_0003_84b8_4d09)
    case 14 => Entry(0x5418_6f65_3140_a659, 0x0000_0000_b424_dc35)
    case 15 => Entry(0x7738_1647_7040_2145, 0x0000_0000_2407_5f3d)
    case 16 => Entry(0xe4a4_d141_7cd9_a041, 0x0000_0000_0734_aca5)
    case 17 => Entry(0xc754_29d9_e5c5_200d, 0x0000_0000_0170_ef54)
    case 18 => Entry(0xc177_3b91_fac1_0669, 0x0000_0000_0049_c977)
    case 19 => Entry(0x26b1_7250_6559_ce15, 0x0000_0000_000e_c1e4)
    case 20 => Entry(0xd489_e3a9_adde_c2d1, 0x0000_0000_0002_f394)
    case 21 => Entry(0x90e8_60bb_892c_8d5d, 0x0000_0000_0000_971d)
    case 22 => Entry(0x502e_79bf_1b6f_4f79, 0x0000_0000_0000_1e39)
    case _ => Entry(0xdcd6_1859_6be3_0fe5, 0x0000_0000_0000_060b)
  }

  function DivisibleByPowerOf5_32(x: nat, exp: nat): bool
    requires x < W32 && exp <= 10
  {
    x * DivtestTable32(exp).modInv % W32 <= DivtestTable32(exp).maxQuotient
  }

  function DivisibleByPowerOf5_64(x: nat, exp: nat): bool
    requires x < W64 && exp <= 23
  {
    x * DivtestTable64(exp).modInv % W64 <= DivtestTable64(exp).maxQuotient
  }

  /** Multiplying by the inverse of `d` modulo `w` gives the quotient for a multiple of `d`, and something larger than any
      quotient for everything else. */
  lemma InverseTest(x: nat, d: nat, entry: Entry, w: nat)
    requires d > 0 && x < w && entry.modInv * d % w == 1 && entry.maxQuotient == (w - 1) / d
    ensures x * entry.modInv % w <= entry.maxQuotient <==> x % d == 0
    ensures x % d == 0 ==> x * entry.modInv % w == x / d
  {
    hide *;
    InverseAccepts(x, d, entry.modInv, w, entry.maxQuotient);
    InverseDivides(x, d, entry.modInv, w, entry.maxQuotient);
  }

  lemma InverseAccepts(x: nat, d: nat, inv: nat, w: nat, max: nat)
    requires d > 0 && x < w && inv * d % w == 1 && max == (w - 1) / d
    ensures x * inv % w <= max ==> x % d == 0
  {
    if x * inv % w <= max {
      PassesOnlyMultiples(x, d, inv, w, InverseQuotient(inv, d, w));
    }
  }

  lemma InverseDivides(x: nat, d: nat, inv: nat, w: nat, max: nat)
    requires d > 0 && x < w && inv * d % w == 1 && max == (w - 1) / d
    ensures x % d == 0 ==> x * inv % w == x / d <= max
  {
    if x % d == 0 {
      hide *;
      QuotientBound(x, d, w);
      MultipleIsDivided(x, WholeQuotient(x, d), d, inv, w, InverseQuotient(inv, d, w));
    }
  }

  function InverseQuotient(inv: nat, d: nat, w: nat): (t: int)
    requires w > 0 && inv * d % w == 1
    ensures inv * d == t * w + 1
  {
    inv * d / w
  }

  function WholeQuotient(x: nat, d: nat): (k: int)
    requires d > 0 && x % d == 0
    ensures x == k * d && k == x / d
  {
    x / d
  }

  lemma PassesOnlyMultiples(x: nat, d: nat, inv: nat, w: nat, t: int)
    requires d > 0 && x < w && inv * d == t * w + 1 && x * inv % w <= (w - 1) / d
    ensures x % d == 0
  {
    var q, s := x * inv % w, x * inv / w;
    assert x * inv == s * w + q;
    Congruence(x, d, inv, w, q, t, s);
    SmallQuotient(q, d, w);
    MulBound(0, 0, q, d);
    NearestMultiple(q * d, x, w, x * t - s * d);
    DivModUnique(x, d, q, 0);
  }

  lemma MultipleIsDivided(x: nat, k: int, d: nat, inv: nat, w: nat, t: int)
    requires x == k * d && 0 <= k < w && inv * d == t * w + 1
    ensures x * inv % w == k
  {
    MulSwap(k, d, inv);
    MulAssoc(k, inv, d);
    MulAssoc(k, t, w);
    assert k * (t * w + 1) == k * (t * w) + k;
    DivModUnique(x * inv, w, k * t, k);
  }

  lemma Congruence(x: int, d: int, inv: int, w: int, q: int, t: int, s: int)
    requires inv * d == t * w + 1 && x * inv == s * w + q
    ensures q * d == x + w * (x * t - s * d)
  {
    calc {
      q * d;
      (x * inv - s * w) * d;
      x * inv * d - s * w * d;
      { MulAssoc(x, inv, d); MulSwap(s, w, d); }
      x * (t * w + 1) - s * d * w;
      { MulAssoc(x, t, w); assert x * (t * w + 1) == x * (t * w) + x; }
      x + x * t * w - s * d * w;
      { Distribute(x * t, s * d, w); }
      x + w * (x * t - s * d);
    }
  }

  lemma SmallQuotient(q: nat, d: nat, w: nat)
    requires d > 0 && w > 0 && q <= (w - 1) / d
    ensures q * d < w
  {
    var m := (w - 1) / d;
    assert w - 1 == m * d + (w - 1) % d;
    MulMono(q, m, d);
  }

  lemma QuotientBound(x: nat, d: nat, w: nat)
    requires d > 0 && x < w && x % d == 0
    ensures x / d <= (w - 1) / d && x / d < w
  {
    var k, m := x / d, (w - 1) / d;
    assert x == k * d && w - 1 == m * d + (w - 1) % d;
    assert (m + 1) * d == m * d + d;
    if k > m {
      MulMono(m + 1, k, d);
    }
    if k >= w {
      MulMono(1, d, k);
    }
  }

  lemma NearestMultiple(a: nat, x: nat, w: nat, z: int)
    requires a < w && x < w && a == x + w * z
    ensures a == x
  {
    if z >= 1 {
      MulMono(1, z, w);
    } else if z <= -1 {
      MulMono(z, -1, w);
    }
  }

  lemma PowersOf5()
    ensures Pow(5, 0) == 1
    ensures Pow(5, 1) == 5
    ensures Pow(5, 2) == 25
    ensures Pow(5, 3) == 125
    ensures Pow(5, 4) == 625
    ensures Pow(5, 5) == 3125
    ensures Pow(5, 6) == 15625
    ensures Pow(5, 7) == 78125
    ensures Pow(5, 8) == 390625
    ensures Pow(5, 9) == 1953125
    ensures Pow(5, 10) == 9765625
    ensures Pow(5, 11) == 48828125
    ensures Pow(5, 12) == 244140625
    ensures Pow(5, 13) == 1220703125
    ensures Pow(5, 14) == 6103515625
    ensures Pow(5, 15) == 30517578125
    ensures Pow(5, 16) == 152587890625
    ensures Pow(5, 17) == 762939453125
    ensures Pow(5, 18) == 3814697265625
    ensures Pow(5, 19) == 19073486328125
    ensures Pow(5, 20) == 95367431640625
    ensures Pow(5, 21) == 476837158203125
    ensures Pow(5, 22) == 2384185791015625
    ensures Pow(5, 23) == 11920928955078125
  {
  }

  lemma TableEntries32(exp: nat)
    requires exp <= 10
    ensures DivtestTable32(exp).modInv * Pow(5, exp) % W32 == 1
    ensures DivtestTable32(exp).maxQuotient == (W32 - 1) / Pow(5, exp)
  {
    PowersOf5();
  }

  lemma TableEntries64(exp: nat)
    requires exp <= 23
    ensures DivtestTable64(exp).modInv * Pow(5, exp) % W64 == 1
    ensures DivtestTable64(exp).maxQuotient == (W64 - 1) / Pow(5, exp)
  {
    hide *;
    if exp <= 7 {
      LowEntries64(exp);
    } else if exp <= 15 {
      MiddleEntries64(exp);
    } else {
      HighEntries64(exp);
    }
  }

  lemma LowEntries64(exp: nat)
    requires exp <= 7
    ensures DivtestTable64(exp).modInv * Pow(5, exp) % W64 == 1
    ensures DivtestTable64(exp).maxQuotient == (W64 - 1) / Pow(5, exp)
  {
    PowersOf5();
  }

  lemma MiddleEntries64(exp: nat)
    requires 8 <= exp <= 15
    ensures DivtestTable64(exp).modInv * Pow(5, exp) % W64 == 1
    ensures DivtestTable64(exp).maxQuotient == (W64 - 1) / Pow(5, exp)
  {
    PowersOf5();
  }

  lemma HighEntries64(exp: nat)
    requires 16 <= exp <= 23
    ensures DivtestTable64(exp).modInv * Pow(5, exp) % W64 == 1
    ensures DivtestTable64(exp).maxQuotient == (W64 - 1) / Pow(5, exp)
  {
    PowersOf5();
  }

  /** Every entry of both tables decides divisibility, for every word. */
  lemma DivisibleByPowerOf5Correct32(x: nat, exp: nat)
    requires x < W32 && exp <= 10
    ensures DivisibleByPowerOf5_32(x, exp) <==> x % Pow(5, exp) == 0
  {
    TableEntries32(exp);
    InverseTest(x, Pow(5, exp), DivtestTable32(exp), W32);
  }

  lemma DivisibleByPowerOf5Correct64(x: nat, exp: nat)
    requires x < W64 && exp <= 23
    ensures DivisibleByPowerOf5_64(x, exp) <==> x % Pow(5, exp) == 0
  {
    TableEntries64(exp);
    InverseTest(x, Pow(5, exp), DivtestTable64(exp), W64);
  }

  // Removing trailing zeros.

  const MOD_INV1: nat := 0xCCCC_CCCD
  const MAX_QUOTIENT1: nat := 0x3333_3333
  const MOD_INV2: nat := 0xC28F_5C29
  const MAX_QUOTIENT2: nat := 0x0A3D_70A3
  const MOD_INV8: nat := 0xC767_074B_22E9_0E21
  const MAX_QUOTIENT8: nat := 0x0000_2AF3_1DC4_6118

  /** The number of trailing zero bits. */
  function TrailingTwos(n: nat): nat
    requires n > 0
  {
    if n % 2 == 1 then 0 else 1 + TrailingTwos(n / 2)
  }

  function Min(a: nat, b: nat): nat {
    if a < b then a else b
  }

  /** `s` decimal zeros came off `n`, leaving `m`, and no more could, or the cap was reached. */
  ghost predicate ZerosRemoved(n: nat, m: nat, s: nat, cap: nat) {
    m * Pow(10, s) == n && s <= cap && (s == cap || n % Pow(10, s + 1) != 0)
  }

  /** `t` factors of two are there, and no more unless `t` is the cap. */
  ghost predicate TwosCounted(n: nat, t: nat, cap: nat) {
    n % Pow(2, t) == 0 && t <= cap && (t == cap || n % Pow(2, t + 1) != 0)
  }

  lemma MultipleMod(k: int, d: nat)
    requires d > 0
    ensures k * d % d == 0
  {
    DivModUnique(k * d, d, k, 0);
  }

  lemma DividesPower(n: nat, b: nat, x: nat, y: nat)
    requires b > 0 && x <= y && n % Pow(b, y) == 0
    ensures n % Pow(b, x) == 0
  {
    var k := WholeQuotient(n, Pow(b, y));
    PowAdd(b, y - x, x);
    MulAssoc(k, Pow(b, y - x), Pow(b, x));
    MultipleMod(k * Pow(b, y - x), Pow(b, x));
  }

  lemma {:induction false} TrailingTwosBounds(n: nat)
    requires n > 0
    ensures n % Pow(2, TrailingTwos(n)) == 0 && n % Pow(2, TrailingTwos(n) + 1) != 0
  {
    if n % 2 == 1 {
    } else {
      TrailingTwosBounds(n / 2);
      var t := TrailingTwos(n / 2);
      Doubled(n / 2, Pow(2, t));
      Doubled(n / 2, Pow(2, t + 1));
      assert n == 2 * (n / 2);
      assert Pow(2, t + 2) == 2 * Pow(2, t + 1);
    }
  }

  lemma Doubled(m: nat, p: nat)
    requires p > 0
    ensures 2 * m % (2 * p) == 2 * (m % p)
  {
    var q := m / p;
    assert m == q * p + m % p;
    MulSwap(q, 2, p);
    assert q * (2 * p) == 2 * (q * p) by {
      MulAssoc(q, 2, p);
      MulAssoc(2, q, p);
    }
    DivModUnique(2 * m, 2 * p, q, 2 * (m % p));
  }

  lemma CountedTwos(n: nat, cap: nat)
    requires n > 0
    ensures TwosCounted(n, Min(TrailingTwos(n), cap), cap)
  {
    TrailingTwosBounds(n);
    DividesPower(n, 2, Min(TrailingTwos(n), cap), TrailingTwos(n));
  }

  /** An odd factor does not hide factors of two. */
  lemma {:induction false} OddFactor(c: nat, o: nat, s: nat)
    requires o % 2 == 1 && c * o % Pow(2, s) == 0
    ensures c % Pow(2, s) == 0
  {
    if s == 0 {
    } else {
      DividesPower(c * o, 2, 1, s);
      assert Pow(2, 1) == 2;
      OddTimesOdd(c, o);
      var h := c / 2;
      assert c == 2 * h;
      MulAssoc(2, h, o);
      Doubled(h * o, Pow(2, s - 1));
      Doubled(h, Pow(2, s - 1));
      OddFactor(h, o, s - 1);
    }
  }

  lemma OddTimesOdd(c: nat, o: nat)
    requires o % 2 == 1 && c * o % 2 == 0
    ensures c % 2 == 0
  {
    if c % 2 == 1 {
      OddProduct(c, c / 2, o);
    }
  }

  lemma OddProduct(c: int, h: int, o: int)
    requires c == 2 * h + 1 && o % 2 == 1
    ensures c * o % 2 == 1
  {
    hide *;
    TwiceAndOne(h, o);
    EvenAndOdd(h * o, o);
  }

  lemma TwiceAndOne(h: int, o: int)
    ensures (2 * h + 1) * o == 2 * (h * o) + o
  {
    MulAssoc(2, h, o);
  }

  lemma EvenAndOdd(x: int, o: int)
    requires o % 2 == 1
    ensures (2 * x + o) % 2 == 1
  {
  }

  /** `s` fives have come out of `n`, leaving `c`. */
  ghost predicate FivesOut(n: nat, c: nat, s: nat) {
    c * Pow(5, s) == n
  }

  lemma NoFivesOut(n: nat)
    ensures FivesOut(n, n, 0)
  {
  }

  /** Once the fives are out, shifting takes out the twos. Nothing more comes off if the twos or the fives are used up. */
  lemma FivesThenTwos(n: nat, c: nat, s: nat, t: nat, cap: nat)
    requires FivesOut(n, c, s) && s <= t && TwosCounted(n, t, cap) && (s == t || c % 5 != 0)
    ensures ZerosRemoved(n, c / Pow(2, s), s, cap) && c % Pow(2, s) == 0
  {
    DividesPower(n, 2, s, t);
    PowOf5IsOdd(s);
    OddFactor(c, Pow(5, s), s);
    var m := WholeQuotient(c, Pow(2, s));
    PowProduct(2, 5, s);
    MulAssoc(m, Pow(2, s), Pow(5, s));
    if s < cap && n % Pow(10, s + 1) == 0 {
      var k := WholeQuotient(n, Pow(10, s + 1));
      PowProduct(2, 5, s + 1);
      if s == t {
        MulSwap(k, Pow(2, s + 1), Pow(5, s + 1));
        MulAssoc(k, Pow(2, s + 1), Pow(5, s + 1));
        MultipleMod(k * Pow(5, s + 1), Pow(2, s + 1));
      } else {
        FiveLeft(c, k, Pow(2, s + 1), Pow(5, s));
      }
    }
  }

  lemma FiveLeft(c: nat, k: int, p: nat, f: nat)
    requires f > 0 && c * f == k * (p * (5 * f))
    ensures c % 5 == 0
  {
    MulAssoc(p, 5, f);
    MulAssoc(k, p * 5, f);
    MulCancel(c, k * (p * 5), f);
    MulAssoc(k, p, 5);
    MultipleMod(k * p, 5);
  }

  lemma DivideFives(n: nat, c: nat, s: nat, i: nat)
    requires FivesOut(n, c, s) && c % Pow(5, i) == 0
    ensures FivesOut(n, c / Pow(5, i), s + i)
  {
    var m := WholeQuotient(c, Pow(5, i));
    PowAdd(5, i, s);
    MulAssoc(m, Pow(5, i), Pow(5, s));
  }

  function TimesInverse1(x: nat): nat {
    x * MOD_INV1 % W32
  }

  function TimesInverse2(x: nat): nat {
    x * MOD_INV2 % W32
  }

  function TimesInverse8(x: nat): nat {
    x * MOD_INV8 % W64
  }

  /** The wrapped products by the inverses of 5, 5^2 and 5^8 test for divisibility, and divide. */
  lemma OneFive(x: nat)
    requires x < W32
    ensures TimesInverse1(x) <= MAX_QUOTIENT1 <==> x % 5 == 0
    ensures x % 5 == 0 ==> TimesInverse1(x) == x / 5
  {
    InverseTest(x, 5, Entry(MOD_INV1, MAX_QUOTIENT1), W32);
  }

  lemma TwoFives(x: nat)
    requires x < W32
    ensures TimesInverse2(x) <= MAX_QUOTIENT2 <==> x % 25 == 0
    ensures x % 25 == 0 ==> TimesInverse2(x) == x / 25
  {
    InverseTest(x, 25, Entry(MOD_INV2, MAX_QUOTIENT2), W32);
  }

  lemma EightFives(x: nat)
    requires x < W64
    ensures TimesInverse8(x) <= MAX_QUOTIENT8 <==> x % 390625 == 0
    ensures x % 390625 == 0 ==> TimesInverse8(x) == x / 390625
  {
    InverseTest(x, 390625, Entry(MOD_INV8, MAX_QUOTIENT8), W64);
  }

  lemma OneOfTwoFives(n: nat)
    ensures n % 5 == 0 && n % 25 != 0 ==> n / 5 % 5 != 0
  {
  }

  lemma FivesInBytes(q: nat)
    ensures q * 256 % 5 == 0 <==> q % 5 == 0
    ensures q % 5 == 0 ==> q * 256 / 5 == q / 5 * 256
  {
  }

  /** Takes trailing zeros off a nonzero 32-bit number, two fives at a time. */
  method RemoveTrailingZeros32(number: nat) returns (n: nat, s: nat)
    requires 0 < number < W32
    ensures ZerosRemoved(number, n, s, 7)
  {
    hide Pow, TwosCounted, ZerosRemoved, TrailingTwos, FivesOut, TimesInverse1, TimesInverse2, TimesInverse8;
    var t := Min(TrailingTwos(number), 7);
    CountedTwos(number, 7);
    PowersOf5();
    n := number;
    s := 0;
    NoFivesOut(number);
    while s + 1 < t
      invariant s <= t && n <= number && FivesOut(number, n, s)
    {
      TwoFives(n);
      if TimesInverse2(n) > MAX_QUOTIENT2 {
        break;
      }
      DivideFives(number, n, s, 2);
      n := TimesInverse2(n);
      s := s + 2;
    }
    assert s + 1 >= t || n % 25 != 0;
    OneOfTwoFives(n);
    OneFive(n);
    if s < t && TimesInverse1(n) <= MAX_QUOTIENT1 {
      DivideFives(number, n, s, 1);
      n := TimesInverse1(n);
      s := s + 1;
    }
    FivesThenTwos(number, n, s, t, 7);
    DivideNat(n, Pow(2, s));
    n := n / Pow(2, s);
  }

  /** The lower digits, without their twos, below the upper ones. */
  function Rejoined(quotient: nat, remainder: nat, s: nat): nat
    requires s <= 7
  {
    ShiftBoth(quotient, remainder, s);
    remainder / Pow(2, s) + quotient * Pow(10, 8 - s)
  }

  /** The unrolled tests on the lower eight decimal digits: `s` zeros have been found so far, and the fives divided out
      of `remainder`. */
  function StripLow(quotient: nat, remainder: nat, t: nat, s: nat): (r: (nat, nat))
    requires s <= 7
    decreases 7 - s
  {
    if s == 7 || t == s || TimesInverse1(remainder) > MAX_QUOTIENT1
    then (Rejoined(quotient, remainder, s), s)
    else StripLow(quotient, TimesInverse1(remainder), t, s + 1)
  }

  lemma {:induction false} StripLowCorrect(n: nat, q: nat, r: nat, t: nat, s: nat)
    requires s <= 7 && s <= t && r < W32 && TwosCounted(n, t, 16)
    requires FivesOut(n, q * Pow(2, 8) * Pow(5, 8 - s) + r, s)
    requires t >= 8 ==> n % Pow(5, 8) != 0
    ensures var (m, zeros) := StripLow(q, r, t, s); ZerosRemoved(n, m, zeros, 16)
    decreases 7 - s
  {
    hide Pow, TwosCounted, ZerosRemoved, TrailingTwos, FivesOut, TimesInverse1, TimesInverse2, TimesInverse8, Rejoined;
    var c := q * Pow(2, 8) * Pow(5, 8 - s) + r;
    OneFive(r);
    FivesOfTheQuotient(q, r, s);
    PowersOf5();
    if s == 7 || t == s || TimesInverse1(r) > MAX_QUOTIENT1 {
      if s == 7 && t >= 8 && c % 5 == 0 {
        DivideFives(n, c, 7, 1);
        MultipleMod(c / 5, Pow(5, 8));
      }
      FivesThenTwos(n, c, s, t, 16);
      RejoinedIs(q, r, s);
    } else {
      DivideFives(n, c, s, 1);
      StripLowCorrect(n, q, r / 5, t, s + 1);
    }
  }

  /** Five divides the part above the lower digits, and dividing it out keeps the two parts apart. */
  lemma FivesOfTheQuotient(q: nat, r: nat, s: nat)
    requires s <= 7
    ensures var high := q * Pow(2, 8) * Pow(5, 8 - s);
            && (high + r) % 5 == r % 5
            && (r % 5 == 0 ==> (high + r) / 5 == q * Pow(2, 8) * Pow(5, 8 - (s + 1)) + r / 5)
  {
    PowStep(5, 7 - s);
    hide Pow;
    FiveTimes(q * Pow(2, 8), Pow(5, 7 - s));
    DivideSum(q * Pow(2, 8) * Pow(5, 7 - s), r);
  }

  lemma FiveTimes(x: nat, f: nat)
    ensures x * (5 * f) == 5 * (x * f)
  {
    MulSwap(x, 5, f);
    MulAssoc(5, x, f);
    MulAssoc(x, 5, f);
  }

  lemma DivideSum(h: nat, r: nat)
    ensures (5 * h + r) % 5 == r % 5 && (5 * h + r) / 5 == h + r / 5
  {
  }

  lemma ShiftBoth(q: nat, r: nat, s: nat)
    requires s <= 7
    ensures (q * Pow(2, 8) * Pow(5, 8 - s) + r) / Pow(2, s) == r / Pow(2, s) + q * Pow(10, 8 - s) >= 0
  {
    hide Pow;
    DivideNat(r, Pow(2, s));
    DivideNat(q * Pow(2, 8) * Pow(5, 8 - s) + r, Pow(2, s));
    PowAdd(2, 8 - s, s);
    PowProduct(2, 5, 8 - s);
    ShiftSum(q, Pow(2, 8 - s), Pow(2, s), Pow(5, 8 - s), r);
  }

  lemma RejoinedIs(q: nat, r: nat, s: nat)
    requires s <= 7
    ensures (q * Pow(2, 8) * Pow(5, 8 - s) + r) / Pow(2, s) == Rejoined(q, r, s)
  {
    ShiftBoth(q, r, s);
  }

  lemma DivideNat(n: nat, d: nat)
    requires d > 0
    ensures n / d >= 0
  {
    var q := n / d;
    assert n == q * d + n % d;
    if q < 0 {
      MulMono(q, -1, d);
    }
  }

  lemma ShiftSum(q: nat, a: nat, p: nat, b: nat, r: nat)
    requires p > 0
    ensures (q * (a * p) * b + r) / p == r / p + q * (a * b)
  {
    calc {
      q * (a * p) * b;
      { MulAssoc(q, a, p); }
      q * a * p * b;
      { MulSwap(q * a, p, b); }
      q * a * b * p;
      { MulAssoc(q, a, b); }
      q * (a * b) * p;
    }
    DivideMultiple(q * (a * b), p, r);
  }

  lemma DivideMultiple(k: nat, p: nat, r: nat)
    requires p > 0
    ensures (k * p + r) / p == r / p + k
  {
    assert r == r / p * p + r % p;
    assert (k + r / p) * p == k * p + r / p * p;
    DivModUnique(k * p + r, p, k + r / p, r % p);
  }

  function Wrap32(n: int): nat {
    n % W32
  }

  lemma UpperDigits(number: nat, t: nat, candidate: nat)
    requires t >= 8 && TwosCounted(number, t, 16) && number < 0x1_0000_0000 * 100000000
    requires number % 390625 == 0 && candidate == number / 390625
    ensures Wrap32(candidate / 256) < W32 && FivesOut(number, Wrap32(candidate / 256) * 256, 8)
  {
    EighthPowers();
    hide Pow;
    assert candidate * 390625 == number;
    DividesPower(number, 2, 8, t);
    PowOf5IsOdd(8);
    OddFactor(candidate, Pow(5, 8), 8);
  }

  lemma EighthPowers()
    ensures Pow(2, 8) == 256 && Pow(5, 8) == 390625
  {
    assert Pow(2, 4) == 16 && Pow(5, 4) == 625;
  }

  lemma EightShifted(quotient: nat, s: nat)
    requires s >= 8
    ensures quotient * 256 / Pow(2, s) == quotient / Pow(2, s - 8) >= 0
  {
    assert Pow(2, 8) == 256;
    hide *;
    PowAdd(2, s - 8, 8);
    ShiftedAlike(quotient, Pow(2, s - 8), 256);
  }

  lemma ShiftedAlike(n: nat, p: nat, k: nat)
    requires p > 0 && k > 0
    ensures n * k / (p * k) == n / p >= 0
  {
    var a, r := n / p, n % p;
    DivideNat(n, p);
    SumTimes(n, a, p, r, k);
    MulStrict(r, p, k);
    MulMono(0, r, k);
    MulStrict(0, p, k);
    DivModUnique(n * k, p * k, a, r * k);
  }

  lemma SumTimes(n: int, a: int, p: int, r: int, k: int)
    requires n == a * p + r
    ensures n * k == a * (p * k) + r * k
  {
    MulAssoc(a, p, k);
    assert (a * p + r) * k == a * p * k + r * k;
  }

  /** The product is taken in 32 bits and wraps around. */
  lemma WrappedRemainder(number: nat, quotient: nat)
    requires number < 0x1_0000_0000 * 100000000 && quotient == Wrap32(number / 100000000)
    ensures quotient == number / 100000000
    ensures Wrap32(number - Wrap32(100000000 * quotient)) == number % 100000000 < W32
  {
    var k := 100000000 * quotient / W32;
    DivModUnique(number - 100000000 * quotient % W32, W32, k, number % 100000000);
  }

  lemma LowerDigits(number: nat, quotient: nat, remainder: nat)
    requires quotient == number / 100000000 && remainder == number % 100000000
    ensures FivesOut(number, quotient * Pow(2, 8) * Pow(5, 8 - 0) + remainder, 0)
  {
    PowersOf5();
    assert Pow(2, 8) == 256;
  }

  /** The loop over the quotient by 10^8, from which eight twos and eight fives are already gone. */
  method StripUpper(ghost number: nat, upper: nat, t: nat) returns (n: nat, s: nat)
    requires t >= 8 && TwosCounted(number, t, 16) && upper < W32 && FivesOut(number, upper * 256, 8)
    ensures ZerosRemoved(number, n, s, 16)
  {
    hide Pow, TwosCounted, ZerosRemoved, TrailingTwos, FivesOut, TimesInverse1;
    PowersOf5();
    var quotient: nat := upper;
    s := 8;
    while s < t
      invariant 8 <= s <= t && quotient < W32 && FivesOut(number, quotient * 256, s)
    {
      OneFive(quotient);
      if TimesInverse1(quotient) > MAX_QUOTIENT1 {
        break;
      }
      FivesInBytes(quotient);
      DivideFives(number, quotient * 256, s, 1);
      quotient := TimesInverse1(quotient);
      s := s + 1;
    }
    FivesInBytes(quotient);
    FivesThenTwos(number, quotient * 256, s, t, 16);
    EightShifted(quotient, s);
    n := quotient / Pow(2, s - 8);
  }

  /** Takes trailing zeros off a 64-bit number: eight at once when they are there, otherwise one by one from the lower
      eight digits. The quotient by 10^8 has to fit 32 bits, which covers every number below 10^17. */
  method RemoveTrailingZeros64(number: nat) returns (n: nat, s: nat)
    requires 0 < number < 0x1_0000_0000 * 100000000
    ensures ZerosRemoved(number, n, s, 16)
  {
    hide Pow, TwosCounted, ZerosRemoved, TrailingTwos, FivesOut, TimesInverse1, TimesInverse2, TimesInverse8, Wrap32, StripLow;
    var t := Min(TrailingTwos(number), 16);
    CountedTwos(number, 16);
    EightFives(number);
    PowersOf5();
    if t >= 8 {
      var candidate := TimesInverse8(number);
      if candidate <= MAX_QUOTIENT8 {
        var quotient := Wrap32(candidate / 0x100);
        UpperDigits(number, t, candidate);
        n, s := StripUpper(number, quotient, t);
        return;
      }
    }
    var quotient := Wrap32(number / 100000000);
    var remainder := Wrap32(number - Wrap32(100000000 * quotient));
    WrappedRemainder(number, quotient);
    LowerDigits(number, quotient, remainder);
    StripLowCorrect(number, quotient, remainder, t, 0);
    n, s := StripLow(quotient, remainder, t, 0).0, StripLow(quotient, remainder, t, 0).1;
  }
}
