/** The arithmetic behind the loops of the big integer: one step of each loop, and what the steps add up to. */
module BigintSteps {
  import opened Powers
  import opened Bigits
  import opened Columns
  import opened BigintOrder

  // The arithmetic of one loop step.

  lemma PowZero(b: nat)
    ensures Pow(b, 0) == 1
  {
  }

  lemma WeightStep(i: nat)
    ensures Weight(i + 1) == B * Weight(i)
  {
  }

  /** Before the first bigit nothing is done and nothing is carried. */
  lemma NoBigits(s: seq<Bigit>, value: nat)
    ensures Val(s[..0]) == 0 && Val(s[..0]) * value == 0 && 0 * Weight(0) == 0
  {
  }

  lemma CarryStep(low: int, w: int, t: int)
    ensures low + t * w == low + (t % B) * w + (t / B) * (B * w)
  {
    var q, r := t / B, t % B;
    assert t == q * B + r;
    MulAssoc(q, B, w);
    assert (q * B + r) * w == q * B * w + r * w;
  }

  lemma StepSum(now: int, was: int, w: int, x: int, value: int, carry: int, t: int)
    requires 0 <= t == x * value + carry && now + carry * w == was * value
    ensures now + (t % B) * w + (t / B) * (B * w) == (was + x * w) * value
  {
    CarryStep(now, w, t);
    calc {
      now + t * w;
      now + (x * value + carry) * w;
      was * value + x * value * w;
      { MulSwap(x, value, w); }
      was * value + x * w * value;
      (was + x * w) * value;
    }
  }

  /** One bigit of a product: the bigit `t % B` is stored and `t / B` is carried on. */
  lemma ProductStep(was: seq<Bigit>, now: seq<Bigit>, i: nat, value: nat, carry: nat, t: nat)
    requires i < |was| == |now| && now[i] == was[i]
    requires t == now[i] * value + carry
    requires Val(now[..i]) + carry * Weight(i) == Val(was[..i]) * value
    ensures var next := now[i := t % B];
            Val(next[..i + 1]) + (t / B) * Weight(i + 1) == Val(was[..i + 1]) * value
  {
    var next := now[i := t % B];
    var w, x := Weight(i), was[i];
    assert next[..i] == now[..i];
    ValStep(next, i);
    ValStep(was, i);
    StepSum(Val(now[..i]), Val(was[..i]), w, x, value, carry, t);
  }

  /** Multiplying by a single bigit: the 64-bit intermediate does not overflow and the carry is a bigit. */
  lemma NarrowCarry(x: Bigit, value: Bigit, carry: Bigit)
    ensures 0 <= x * value + carry < W64 && (x * value + carry) / B < B
  {
    BigitProduct(x, value);
  }

  /** Multiplying by the halves of a 64-bit factor: nothing overflows, and the carry reaches at most 2^64 - 1. */
  lemma WideCarry(x: Bigit, value: nat, carry: nat)
    requires value < W64 && carry < W64
    ensures var result := x * (value % B) + carry % B;
            && result < W64
            && result % B == (x * value + carry) % B
            && x * (value / B) + result / B + carry / B == (x * value + carry) / B < W64
  {
    var lower, upper := value % B, value / B;
    var result := x * lower + carry % B;
    BigitProduct(x, lower);
    BigitProduct(x, upper);
    MulAssoc(x, upper, B);
    assert x * value == x * lower + x * upper * B by {
      assert value == lower + upper * B;
      assert x * (lower + upper * B) == x * lower + x * (upper * B);
    }
    var q := x * upper + result / B + carry / B;
    assert x * value + carry == q * B + result % B;
    DivModUnique(x * value + carry, B, q, result % B);
    MulBound(x, value, 0xFFFF_FFFF, 0xFFFF_FFFF_FFFF_FFFF);
  }

  /** The 64-bit intermediates of the product by two 32-bit halves. */
  function LowerProduct(x: Bigit, lower: Bigit, carry: nat): nat {
    Times(x, lower) + carry % B
  }

  function UpperProduct(x: Bigit, upper: Bigit, result: nat, carry: nat): nat {
    Times(x, upper) + result / B + carry / B
  }

  lemma WideStep(was: seq<Bigit>, now: seq<Bigit>, i: nat, value: nat, carry: nat)
    requires i < |was| == |now| && now[i] == was[i]
    requires value < W64 && carry < W64
    requires Val(now[..i]) + carry * Weight(i) == Val(was[..i]) * value
    ensures var result := LowerProduct(now[i], value % B, carry);
            var next := now[i := result % B];
            && result < W64
            && UpperProduct(now[i], value / B, result, carry) < W64
            && Val(next[..i + 1]) + UpperProduct(now[i], value / B, result, carry) * Weight(i + 1) == Val(was[..i + 1]) * value
  {
    WideCarry(now[i], value, carry);
    MulNat(now[i], value);
    ProductStep(was, now, i, value, carry, now[i] * value + carry);
  }

  lemma MulNat(x: nat, y: nat)
    ensures x * y >= 0
  {
  }

  /** Shifting one bigit left by less than a word: `p` is the power shifted by, `p * q` is a word, `c` is shifted out and
      `t` is the bigit times the power. */
  lemma ShiftStep(x: Bigit, p: nat, q: nat, carry: nat, c: nat, t: int)
    requires 0 < p && 0 < q && p * q == B && carry < p && c == x / q && t == x * p
    ensures c < p && c < B
    ensures t % B + carry < B
    ensures (t % B + carry) % B == (t + carry) % B
    ensures c == (t + carry) / B
  {
    hide *;
    var r := x % q;
    DivModExact(x, q);
    OutBelow(x, p, q, c, r);
    InBelow(x, p, q, c, r);
    LowPart(t, c, r * p, carry);
  }

  lemma LowPart(t: int, c: int, u: int, carry: int)
    requires t == c * B + u && 0 <= u && 0 <= carry && u + carry < B
    ensures t % B + carry < B
    ensures (t % B + carry) % B == (t + carry) % B
    ensures c == (t + carry) / B
  {
  }

  lemma DivModExact(x: int, q: int)
    requires q > 0
    ensures x == (x / q) * q + x % q && 0 <= x % q < q
  {
  }

  lemma OutBelow(x: nat, p: nat, q: nat, c: int, r: nat)
    requires 0 < p && 0 < q && p * q == B && x < B && x == c * q + r
    ensures c < p <= B
  {
    if c >= p {
      MulMono(p, c, q);
    }
    MulMono(1, q, p);
  }

  lemma InBelow(x: int, p: nat, q: nat, c: int, r: nat)
    requires p * q == B && x == c * q + r && r < q
    ensures x * p == c * B + r * p && r * p + p <= B && r * p >= 0
  {
    MulAssoc(c, q, p);
    assert (c * q + r) * p == c * q * p + r * p;
    MulMono(r + 1, q, p);
    assert (r + 1) * p == r * p + p;
  }

  lemma ShiftFactors(rest: nat)
    requires rest < 32
    ensures Pow(2, rest) * Pow(2, 32 - rest) == B
  {
    PowAdd(2, rest, 32 - rest);
    WordPowers();
  }

  lemma ScaledShift(was: seq<Bigit>, now: seq<Bigit>, e: nat, shift: nat)
    requires Val(now) == Val(was) * Pow(2, shift % 32)
    ensures Scaled(now, e + shift / 32) == Scaled(was, e) * Pow(2, shift)
  {
    var n, r := shift / 32, shift % 32;
    WordPowers();
    PowPow(2, 32, n);
    PowAdd(2, 32 * n, r);
    PowAdd(B, e, n);
    RegroupShift(Val(was), Pow(2, r), Weight(e), Weight(n));
  }

  lemma RegroupShift(v: int, p: int, w: int, n: int)
    ensures v * p * (w * n) == v * w * (n * p)
  {
    MulAssoc(v * p, w, n);
    MulSwap(v, p, w);
    MulSwap(v * w, p, n);
    MulAssoc(v * w, n, p);
  }

  lemma MulGrows(v: nat, factor: nat)
    requires factor > 0
    ensures v <= v * factor
  {
    MulMono(1, factor, v);
  }

  /** A bigit shifted left, with what the bigit below shifted out. Shifts are products and quotients by powers of two. */
  function ShiftedIn(x: Bigit, factor: nat, carry: Bigit): Bigit {
    (x as int * factor % B + carry) % B
  }

  function ShiftedOut(x: Bigit, back: nat): (c: nat)
    requires back > 0
  {
    DivLe(x, back);
    x as int / back
  }

  lemma ShiftedBigit(was: seq<Bigit>, now: seq<Bigit>, i: nat, factor: nat, back: nat, carry: Bigit)
    requires i < |was| == |now| && now[i] == was[i]
    requires 0 < factor && 0 < back && factor * back == B && carry < factor
    requires Val(now[..i]) + carry * Weight(i) == Val(was[..i]) * factor
    ensures ShiftedOut(now[i], back) < factor && ShiftedOut(now[i], back) < B
    ensures var next := now[i := ShiftedIn(now[i], factor, carry)];
            Val(next[..i + 1]) + ShiftedOut(now[i], back) * Weight(i + 1) == Val(was[..i + 1]) * factor
  {
    ShiftStep(now[i], factor, back, carry, ShiftedOut(now[i], back), now[i] * factor);
    ProductStep(was, now, i, factor, carry, now[i] * factor + carry);
  }

  /** A product by a positive factor that grew by no zero bigits has no leading zeros, whatever the exponent. */
  lemma ScaledProduct(was: seq<Bigit>, now: seq<Bigit>, e: nat, factor: nat)
    requires Trimmed(was) && |now| >= |was| && factor > 0
    requires Val(now) == Val(was) * factor
    requires |now| > |was| ==> now[|now| - 1] != 0
    ensures Trimmed(now) && Scaled(now, e) == Scaled(was, e) * factor
  {
    TopNonzero(was);
    TopNonzero(now);
    hide Val, Weight;
    MulSwap(Val(was), factor, Weight(e));
    if |now| == |was| > 1 {
      MulGrows(Val(was), factor);
    }
  }

  // Squaring.

  lemma {:induction false} ColumnBound(a: seq<Bigit>, b: seq<Bigit>, c: nat, k: nat)
    requires k <= |a|
    ensures ColumnSum(a, b, c, k) <= k * 0xFFFF_FFFE_0000_0001
  {
    if k == 0 {
    } else {
      ColumnBound(a, b, c, k - 1);
      BigitProduct(a[k - 1], Get(b, c - (k - 1)));
    }
  }

  /** Room for a column: below 2^30 bigits neither the sum nor what is carried on overflows. */
  lemma ColumnRoom(n: seq<Bigit>, c: nat, k: nat, carried: nat)
    requires k <= |n| < 0x4000_0000 && carried <= |n| * B
    ensures carried + ColumnSum(n, n, c, k) < W64 * W64
    ensures (carried + ColumnSum(n, n, c, k)) / B <= |n| * B
  {
    ColumnBound(n, n, c, k);
    assert k * 0xFFFF_FFFE_0000_0001 <= |n| * 0xFFFF_FFFE_0000_0001;
  }

  lemma ColumnStep(n: seq<Bigit>, now: seq<Bigit>, c: nat, carried: nat, t: nat)
    requires c < |now| && t == carried + ColumnSum(n, n, c, |n|)
    requires Val(now[..c]) + carried * Weight(c) == SumOfColumns(n, n, c)
    ensures var next := now[c := t % B];
            Val(next[..c + 1]) + (t / B) * Weight(c + 1) == SumOfColumns(n, n, c + 1)
  {
    var next := now[c := t % B];
    assert next[..c] == now[..c];
    ValStep(next, c);
    assert SumOfColumns(n, n, c + 1) == SumOfColumns(n, n, c) + ColumnSum(n, n, c, |n|) * Weight(c);
    WeightStep(c);
    hide *;
    CarryStep(Val(now[..c]), Weight(c), t);
    AddDistribute(carried, ColumnSum(n, n, c, |n|), Weight(c));
  }

  lemma AddDistribute(a: int, b: int, w: int)
    ensures (a + b) * w == a * w + b * w
  {
  }

  /** The square of an n-bigit number fits 2n bigits, so the last column carries nothing out. */
  lemma NothingCarried(n: seq<Bigit>, r: seq<Bigit>, carry: nat)
    requires |r| == 2 * |n|
    requires Val(r) + carry * Weight(|r|) == Val(n) * Val(n)
    ensures carry == 0
  {
    ValBound(n);
    WeightAdd(|n|, |n|);
    hide *;
    SquareBelow(Val(n), Weight(|n|));
    if carry > 0 {
      MulMono(1, carry, Weight(|r|));
    }
  }

  lemma SquareBelow(v: nat, w: nat)
    requires v < w
    ensures v * v < w * w
  {
    MulBound(v, v, w - 1, w - 1);
    assert (w - 1) * (w - 1) == w * w - 2 * w + 1;
  }

  lemma ScaledSquare(n: seq<Bigit>, r: seq<Bigit>, e: nat)
    requires Val(r) == Val(n) * Val(n)
    ensures Scaled(r, 2 * e) == Scaled(n, e) * Scaled(n, e)
  {
    WeightAdd(e, e);
    SquareOfProduct(Val(n), Weight(e));
  }

  lemma SquareOfProduct(v: int, w: int)
    ensures v * v * (w * w) == v * w * (v * w)
  {
    RegroupShift(v, v, w, w);
    MulAssoc(v * w, w, v);
    MulSwap(v * w, w, v);
    MulAssoc(v * w, v, w);
  }

  // Powers of ten.

  lemma HalveStep(n: nat, bitmask: nat)
    requires bitmask > 0
    ensures n / bitmask == 2 * (n / (2 * bitmask)) + n / bitmask % 2
  {
    var q, r := n / bitmask, n % bitmask;
    var h := q / 2;
    MulAssoc(h, 2, bitmask);
    if q % 2 == 0 {
      assert q == h * 2;
      DivModUnique(n, 2 * bitmask, h, r);
    } else {
      assert q == h * 2 + 1;
      assert q * bitmask == h * 2 * bitmask + bitmask;
      DivModUnique(n, 2 * bitmask, h, bitmask + r);
    }
  }

  /** The bits of `n` from the one under the mask up. */
  function UpperBits(n: nat, mask: nat): (bits: nat)
    requires mask > 0
    ensures bits <= n
  {
    DivLe(n, mask);
    n / mask
  }

  /** The mask found first is the highest power of two in `n`. */
  lemma ScanStart(n: nat, top: nat)
    requires 0 < top <= n < 2 * top
    ensures Pow(5, UpperBits(n, top)) == 5
  {
    DivModUnique(n, top, 1, n - top);
    assert Pow(5, 1) == 5;
  }

  /** One round of the bit scan: squaring doubles the exponent of five, a set bit adds one to it. */
  lemma ScanStep(n: nat, top: nat)
    requires IsPow2(top) && top / 2 > 0
    ensures IsPow2(top / 2)
    ensures var v := Pow(5, UpperBits(n, top));
            Pow(5, UpperBits(n, top / 2)) == if UpperBits(n, top / 2) % 2 != 0 then v * v * 5 else v * v
  {
    hide *;
    HalfPow2(top);
    OneMoreBit(n, top / 2);
    SquareAndMultiply(UpperBits(n, top), UpperBits(n, top / 2));
  }

  lemma HalfPow2(top: nat)
    requires IsPow2(top) && top / 2 > 0
    ensures IsPow2(top / 2) && top == 2 * (top / 2)
  {
  }

  lemma OneMoreBit(n: nat, bitmask: nat)
    requires bitmask > 0
    ensures UpperBits(n, bitmask) == 2 * UpperBits(n, 2 * bitmask) + UpperBits(n, bitmask) % 2
  {
    HalveStep(n, bitmask);
  }

  lemma SquareAndMultiply(h: nat, j: nat)
    requires j == 2 * h + j % 2
    ensures Pow(5, j) == if j % 2 != 0 then Pow(5, h) * Pow(5, h) * 5 else Pow(5, h) * Pow(5, h)
  {
    PowAdd(5, h, h);
    if j % 2 != 0 {
      PowStep(5, 2 * h);
    }
  }

  lemma ScanEnd(n: nat, top: nat)
    requires IsPow2(top) && top / 2 == 0
    ensures Pow(2, n) * Pow(5, UpperBits(n, top)) == Pow(10, n)
  {
    assert top == 1;
    assert n / 1 == n;
    PowProduct(2, 5, n);
  }

  lemma NextPow2(top: nat)
    requires IsPow2(top)
    ensures IsPow2(2 * top)
  {
  }

  /** 5^j with j <= n < 2^30 is far below the 2^30 bigits that squaring can index. */
  lemma SizeOfPow5(s: seq<Bigit>, j: nat)
    requires Trimmed(s) && Scaled(s, 0) == Pow(5, j) && j < 0x4000_0000
    ensures |s| < 0x4000_0000
  {
    ScaledZero(s, 0);
    ScaledTop(s, 0);
    PowBelow(5, 8, j);
    assert Pow(2, 3) == 8;
    PowPow(2, 3, j);
    WordPowers();
    PowPow(2, 32, |s| - 1);
    if 3 * j < 32 * (|s| - 1) {
      PowGrows(2, 3 * j, 32 * (|s| - 1));
    }
  }

  // Subtraction and division.

  /** The borrow out of the aligned part meets a zero bigit. */
  ghost predicate BorrowStalls(a: seq<Bigit>, d: nat, b: seq<Bigit>) {
    d + |b| < |a| && Val(a[d..d + |b|]) < Val(b) && a[d + |b|] == 0
  }

  lemma ScaledPad(s: seq<Bigit>, e: nat, d: nat)
    ensures Scaled(Zeros(d) + s, e) == Scaled(s, e + d)
  {
    ValZeroPad(d, s);
    WeightAdd(e, d);
    MulSwap(Weight(d), Val(s), Weight(e));
    MulAssoc(Val(s), Weight(d), Weight(e));
  }

  lemma ScaledSplit(a: seq<Bigit>, e: nat, d: nat)
    requires d <= |a|
    ensures Scaled(a, e) == Scaled(a[..d], e) + Scaled(a[d..], e + d)
  {
    ValSplit(a, d);
    WeightAdd(d, e);
    SplitProduct(Val(a[..d]), Weight(d), Val(a[d..]), Weight(e));
  }

  lemma SplitProduct(low: int, w: int, high: int, we: int)
    ensures (low + w * high) * we == low * we + high * (w * we)
  {
    MulAssoc(high, w, we);
    assert (low + w * high) * we == low * we + w * high * we;
  }

  lemma ScaledUpdate(s: seq<Bigit>, e: nat, i: nat, x: Bigit)
    requires i < |s|
    ensures Scaled(s[i := x], e) == Scaled(s, e) + x * Weight(i + e) - s[i] * Weight(i + e)
  {
    ValUpdate(s, i, x);
    WeightAdd(i, e);
    UpdateProduct(Val(s), x, s[i], Weight(i), Weight(e));
  }

  lemma UpdateProduct(v: int, x: int, y: int, w: int, we: int)
    ensures (v + (x - y) * w) * we == v * we + x * (w * we) - y * (w * we)
  {
    MulAssoc(x - y, w, we);
    Distribute(x, y, w * we);
    assert (v + (x - y) * w) * we == v * we + (x - y) * w * we;
  }

  /** The scaled value decides like the value. */
  lemma ScaledOrder(a: seq<Bigit>, b: seq<Bigit>, e: nat)
    ensures Scaled(a, e) < Scaled(b, e) <==> Val(a) < Val(b)
  {
    if Val(a) < Val(b) {
      MulStrict(Val(a), Val(b), Weight(e));
    } else {
      MulMono(Val(b), Val(a), Weight(e));
    }
  }

  function Borrowed(borrow: nat, w: nat): nat {
    if borrow == 0 then 0 else w
  }

  /** The lower `j` bigits of `other` are subtracted, from bigit `d` of the minuend on. */
  ghost predicate PartlySubtracted(was: seq<Bigit>, now: seq<Bigit>, other: seq<Bigit>, d: nat, j: nat, e: nat, borrow: nat) {
    && j <= |other| && d + j <= |was| == |now| && borrow <= 1
    && now[..d] == was[..d] && now[d + j..] == was[d + j..]
    && Scaled(now[d..d + j], e) + Scaled(other[..j], e) == Scaled(was[d..d + j], e) + Borrowed(borrow, Weight(j + e))
  }

  lemma NothingSubtracted(was: seq<Bigit>, other: seq<Bigit>, d: nat, e: nat)
    requires d <= |was|
    ensures PartlySubtracted(was, was, other, d, 0, e, 0)
  {
    ScaledNone(e);
    assert was[d..d] == [] && other[..0] == [];
  }

  /** One bigit of the aligned part: what is borrowed is one unit of the next weight. */
  lemma BorrowStep(was: seq<Bigit>, before: seq<Bigit>, other: seq<Bigit>, d: nat, j: nat, e: nat, x: Bigit,
                   borrow: nat, borrow': nat)
    requires PartlySubtracted(was, before, other, d, j, e, borrow) && j < |other| && d + j < |was| && borrow' <= 1
    requires x == before[d + j] - other[j] - borrow + borrow' * B
    ensures PartlySubtracted(was, before[d + j := x], other, d, j + 1, e, borrow')
  {
    var i, now := d + j, before[d + j := x];
    NextSlices(was, before, d, j, x);
    assert other[..j + 1][..j] == other[..j];
    ScaledSnoc(now[d..i + 1], e);
    ScaledSnoc(was[d..i + 1], e);
    ScaledSnoc(other[..j + 1], e);
    WeightStep(j + e);
    hide Scaled, Val, Weight, Pow, Borrowed;
    BorrowSum(was[i], other[j], borrow, borrow', Weight(j + e));
  }

  lemma NextSlices(was: seq<Bigit>, before: seq<Bigit>, d: nat, j: nat, x: Bigit)
    requires d + j < |was| == |before| && before[..d] == was[..d] && before[d + j..] == was[d + j..]
    ensures before[d + j] == was[d + j] && was[d..d + j + 1][..j] == was[d..d + j]
    ensures var now := before[d + j := x];
            now[..d] == was[..d] && now[d + j + 1..] == was[d + j + 1..] && now[d..d + j + 1][..j] == before[d..d + j]
  {
    var i, now := d + j, before[d + j := x];
    assert before[i] == before[i..][0] == was[i..][0] == was[i];
    assert now[i + 1..] == before[i..][1..] == was[i..][1..];
    assert now[..d] == before[..d];
    assert now[d..i + 1][..j] == before[d..i];
  }

  lemma BorrowSum(x: int, y: int, borrow: nat, borrow': nat, w: nat)
    requires borrow <= 1 && borrow' <= 1
    ensures (x - y - borrow + borrow' * B) * w == x * w - y * w - Borrowed(borrow, w) + Borrowed(borrow', B * w)
  {
    assert (x - y) * w == x * w - y * w;
  }

  /** A comparison that finds the minuend no smaller leaves room for every bigit of the subtrahend. If nothing is left
      above the aligned part then that part covers the subtrahend. */
  lemma MinuendCovers(a: seq<Bigit>, ea: nat, b: seq<Bigit>, eb: nat)
    requires ea <= eb && Comparison(a, ea, b, eb) >= 0
    ensures eb - ea + |b| <= |a|
    ensures eb - ea + |b| == |a| ==> Scaled(a[eb - ea..eb - ea + |b|], eb) >= Scaled(b, eb)
  {
    if |a| + ea == |b| + eb {
      CompareTopsOrder(a, ea, b, eb);
      var d := eb - ea;
      assert a[d..d + |b|] == a[d..];
      ScaledSplit(a, ea, d);
      ScaledBound(a[..d], ea);
      if Val(a[d..]) < Val(b) {
        StepApart(Val(a[d..]), Val(b), Weight(eb));
      } else {
        ScaledOrder(a[d..], b, eb);
      }
    }
  }

  lemma StepApart(x: nat, y: nat, w: nat)
    requires x < y
    ensures x * w + w <= y * w
  {
    MulMono(x + 1, y, w);
  }

  /** The borrow is on its way through bigit `i` of `partial`; once it is gone that bigit is one less, or two when it
      was zero. */
  ghost predicate Borrowing(partial: seq<Bigit>, now: seq<Bigit>, i: nat, borrowed: nat, borrow: nat) {
    && borrow <= borrowed <= 1 && |now| == |partial|
    && (borrowed == 0 ==> now == partial)
    && (borrow == 1 ==> i < |partial| && (now == partial || (partial[i] == 0 && now == partial[i := B - 1])))
    && (borrow == 0 && borrowed == 1 ==>
          i < |partial| && now == partial[i := if partial[i] == 0 then B - 2 else partial[i] - 1])
  }

  lemma BorrowAgain(partial: seq<Bigit>, now: seq<Bigit>, i: nat, borrowed: nat, x: Bigit, borrow': nat)
    requires Borrowing(partial, now, i, borrowed, 1) && borrow' <= 1 && x == now[i] - 1 + borrow' * B
    ensures Borrowing(partial, now[i := x], i, borrowed, borrow')
    ensures borrow' == 1 ==> now[i] == 0 && x != 0
  {
  }

  /** Before the borrow goes on: there is a bigit left to take it from. */
  lemma BorrowBegins(was: seq<Bigit>, partial: seq<Bigit>, e: nat, other: seq<Bigit>, eo: nat, borrow: nat)
    requires e <= eo && Comparison(was, e, other, eo) >= 0
    requires PartlySubtracted(was, partial, other, eo - e, |other|, eo, borrow)
    ensures Borrowing(partial, partial, eo - e + |other|, borrow, borrow)
  {
    MinuendCovers(was, e, other, eo);
    assert other[..|other|] == other;
    ScaledBound(partial[eo - e..eo - e + |other|], eo);
  }

  /** The difference as a whole, from the aligned part and the bigit above it. */
  lemma Subtracted(was: seq<Bigit>, partial: seq<Bigit>, now: seq<Bigit>, e: nat, other: seq<Bigit>, eo: nat, borrow: nat)
    requires e <= eo && PartlySubtracted(was, partial, other, eo - e, |other|, eo, borrow)
    requires Borrowing(partial, now, eo - e + |other|, borrow, 0)
    ensures Scaled(now, e) + Scaled(other, eo) ==
            Scaled(was, e) + if BorrowStalls(was, eo - e, other) then (B - 1) * Weight(|other| + eo) else 0
  {
    var d, i := eo - e, eo - e + |other|;
    assert other[..|other|] == other;
    ThreeParts(was, e, d, i);
    ThreeParts(partial, e, d, i);
    ScaledOrder(was[d..i], other, eo);
    ScaledBound(partial[d..i], eo);
    if borrow == 1 {
      assert partial[i] == partial[i..][0] == was[i..][0] == was[i];
      ScaledUpdate(partial, e, i, now[i]);
      hide Scaled, Val, Weight, Pow;
      OneLess(partial[i], Weight(i + e));
    }
  }

  lemma ThreeParts(s: seq<Bigit>, e: nat, d: nat, i: nat)
    requires d <= i <= |s|
    ensures Scaled(s, e) == Scaled(s[..d], e) + Scaled(s[d..i], e + d) + Scaled(s[i..], e + i)
  {
    assert s[..i][..d] == s[..d] && s[..i][d..] == s[d..i];
    ScaledSplit(s, e, i);
    ScaledSplit(s[..i], e, d);
  }

  lemma OneLess(x: int, w: int)
    ensures x * w - (x - 1) * w == w
    ensures x == 0 ==> (B - 2) * w - x * w == (B - 1) * w - w
  {
  }

  /** A trimmed minuend at most one bigit longer than the subtrahend has a nonzero bigit to borrow from. */
  lemma NoStall(a: seq<Bigit>, ea: nat, b: seq<Bigit>, eb: nat)
    requires Trimmed(a) && b != [] && ea <= eb && |a| + ea <= |b| + eb + 1
    ensures !BorrowStalls(a, eb - ea, b)
  {
  }

  /** A borrow that stalls: 2^64 - 1. */
  lemma BorrowCanStall()
    ensures Comparison([0, 0, 1], 0, [1], 0) == 1 && BorrowStalls([0, 0, 1], 0, [1])
  {
    ValSingle(0);
    ValSingle(1);
  }

  /** A minuend two or more bigits longer than the subtrahend stays so: its bigit above the subtrahend has to run out
      before the next one is touched, and then the borrow stalls. */
  lemma LongStaysLong(a: seq<Bigit>, ea: nat, b: seq<Bigit>, eb: nat, left: seq<Bigit>)
    requires Trimmed(a) && Trimmed(left) && ea <= eb && |b| + eb + 1 < |a| + ea
    requires Scaled(left, ea) + Scaled(b, eb) ==
             Scaled(a, ea) + if BorrowStalls(a, eb - ea, b) then (B - 1) * Weight(|b| + eb) else 0
    ensures |b| + eb + 1 < |left| + ea
  {
    var d := eb - ea;
    var i, w := d + |b|, Weight(|b| + eb);
    var h := Val(a[i..]);
    assert a[..i][..d] == a[..d] && a[..i][d..] == a[d..i];
    ScaledSplit(a, ea, i);
    ScaledSplit(a[..i], ea, d);
    ScaledBound(b, eb);
    ScaledOrder(a[d..i], b, eb);
    UpperPart(a[i..]);
    WeightStep(|b| + eb);
    ScaledBound(left, ea);
    hide Scaled, Val, Weight, Pow;
    RoomAbove(Scaled(a[..d], ea), Scaled(a[d..i], eb), h, w, Scaled(b, eb), a[i] == 0, Scaled(left, ea));
    if |left| + ea <= |b| + eb + 1 {
      PowersOrder(|left| + ea, |b| + eb + 1);
    }
  }

  lemma LongIsLarge(s: seq<Bigit>)
    requires |s| > 1 && Trimmed(s)
    ensures Scaled(s, 0) >= B
  {
    ScaledTop(s, 0);
    PowersOrder(1, |s| - 1);
    assert Weight(1) == B * Weight(0);
  }

  lemma PowersOrder(m: nat, n: nat)
    requires m <= n
    ensures Weight(m) <= Weight(n)
  {
    PowMono(B, m, n);
  }

  lemma UpperPart(s: seq<Bigit>)
    requires |s| > 1 && Trimmed(s)
    ensures Val(s) >= B && (s[0] != 0 ==> Val(s) > B)
  {
    hide Val, Weight, Pow;
    var upper := s[1..];
    ValSplit(s, 1);
    ValSingle(s[0]);
    assert s[..1] == [s[0]];
    TopNonzero(upper);
    WeightStep(0);
    WeightZero();
    MulMono(1, Val(upper), B);
  }

  lemma WeightZero()
    ensures Weight(0) == 1
  {
  }

  lemma RoomAbove(low: nat, middle: nat, h: nat, w: nat, other: nat, zero: bool, left: int)
    requires h >= B && other < w && (middle < other && !zero ==> h > B)
    requires left + other == low + (middle + h * w) + if middle < other && zero then (B - 1) * w else 0
    ensures left >= B * w
  {
    if middle < other && !zero {
      MulMono(B + 1, h, w);
    } else {
      MulMono(B, h, w);
    }
  }

  /** Equal numbers end at the same weight. */
  lemma EqualTops(a: seq<Bigit>, ea: nat, b: seq<Bigit>, eb: nat)
    requires Trimmed(a) && Trimmed(b) && Scaled(a, ea) == Scaled(b, eb) > 0
    ensures |a| + ea == |b| + eb
  {
    ScaledZero(a, ea);
    ScaledZero(b, eb);
    if |a| + ea < |b| + eb {
      LongerIsGreater(a, ea, b, eb);
    } else if |a| + ea > |b| + eb {
      LongerIsGreater(b, eb, a, ea);
    }
  }

  /** What the sign of the comparison says when the divisor is not zero: only an equal number with a larger exponent is
      taken for a smaller one. */
  lemma ComparisonDecides(a: seq<Bigit>, ea: nat, b: seq<Bigit>, eb: nat)
    requires Fits(a, ea, |b| + eb) && Trimmed(b) && Scaled(b, eb) > 0
    ensures Comparison(a, ea, b, eb) < 0 <==>
            Scaled(a, ea) < Scaled(b, eb) || (Scaled(a, ea) == Scaled(b, eb) && ea > eb)
  {
    ScaledZero(b, eb);
    ComparisonOrder(a, ea, b, eb);
    if Scaled(a, ea) == Scaled(b, eb) {
      EqualTops(a, ea, b, eb);
    }
  }

  lemma AlignKeepsComparison(a: seq<Bigit>, ea: nat, b: seq<Bigit>, eb: nat)
    requires Fits(a, ea, |b| + eb) && Trimmed(b) && Scaled(b, eb) > 0 && Comparison(a, ea, b, eb) >= 0
    ensures var e := if ea > eb then eb else ea;
            var s := Zeros(ea - e) + a;
            Trimmed(s) && Scaled(s, e) == Scaled(a, ea) && Comparison(s, e, b, eb) >= 0
  {
    var e := if ea > eb then eb else ea;
    var s := Zeros(ea - e) + a;
    ScaledPad(a, e, ea - e);
    ScaledZero(a, ea);
    ComparisonDecides(a, ea, b, eb);
    ComparisonDecides(s, e, b, eb);
  }

  lemma ZeroFits(a: seq<Bigit>, ea: nat, b: seq<Bigit>, eb: nat)
    requires Trimmed(a) && b != [] && ea <= eb
    ensures Fits(a, ea, |b| + eb)
  {
  }

  /** Some multiples of the divisor are taken off; `rest` remains. */
  ghost predicate TakenOff(whole: nat, d: nat, quotient: nat, rest: nat) {
    whole == quotient * d + rest
  }

  lemma TakeOff(whole: nat, d: nat, quotient: nat, rest: nat)
    ensures TakenOff(whole, d, 0, whole)
    ensures TakenOff(whole, d, quotient, rest) && rest >= d ==> TakenOff(whole, d, quotient + 1, rest - d)
  {
    AddDistribute(quotient, 1, d);
  }

  lemma QuotientFound(whole: nat, d: nat, quotient: nat, rest: nat)
    requires TakenOff(whole, d, quotient, rest) && rest < d
    ensures quotient == whole / d && rest == whole % d
  {
    DivModUnique(whole, d, quotient, rest);
  }

  lemma NoTerms(n: seq<Bigit>, c: nat)
    ensures ColumnSum(n, n, c, 0) == 0
  {
  }

  lemma TermStep(n: seq<Bigit>, c: nat, i: nat)
    requires i < |n| && 0 <= c - i < |n|
    ensures ColumnSum(n, n, c, i + 1) == ColumnSum(n, n, c, i) + Times(n[i], n[c - i])
  {
  }

  lemma NoPad(s: seq<Bigit>)
    ensures Zeros(0) + s == s
  {
  }

  /** The bigits above `i` have moved up by `d` places, the others have not moved yet. */
  ghost predicate Moving(was: seq<Bigit>, now: seq<Bigit>, d: nat, i: int) {
    && -1 <= i < |was| && |now| == |was| + d
    && now[..i + 1] == was[..i + 1] && now[i + 1 + d..] == was[i + 1..]
  }

  lemma MoveOne(was: seq<Bigit>, now: seq<Bigit>, d: nat, i: nat)
    requires Moving(was, now, d, i)
    ensures now[i] == was[i]
    ensures d > 0 ==> Moving(was, now[i + d := now[i]], d, i - 1)
  {
    var next := now[i + d := now[i]];
    assert now[i] == now[..i + 1][i] == was[..i + 1][i] == was[i];
    if d > 0 {
      assert next[..i] == now[..i + 1][..i] == was[..i + 1][..i] == was[..i];
      assert next[i + d..] == [now[i]] + now[i + 1 + d..];
      assert was[i..] == [was[i]] + was[i + 1..];
    }
  }

  lemma MoveNone(was: seq<Bigit>, d: nat)
    ensures Moving(was, was + Zeros(d), d, |was| - 1)
  {
  }

  lemma AllMoved(was: seq<Bigit>, now: seq<Bigit>, d: nat)
    requires Moving(was, now, d, -1)
    ensures |now| == |was| + d && now[d..] == was
  {
    assert now[d..] == was[0..];
  }

  lemma NoColumnsYet(n: seq<Bigit>, r: seq<Bigit>)
    ensures Val(r[..0]) == 0 && SumOfColumns(n, n, 0) == 0
  {
  }

  lemma ScaledNone(e: nat)
    ensures Scaled([], e) == 0
  {
  }

  lemma ScaledSame(s: seq<Bigit>, e: nat)
    ensures forall t: seq<Bigit> :: Val(t) == Val(s) ==> Scaled(t, e) == Scaled(s, e)
  {
  }

  lemma DivLe(n: nat, d: nat)
    requires d > 0
    ensures 0 <= n / d <= n
  {
    var q := n / d;
    assert n == q * d + n % d;
    if q < 0 {
      MulMono(1, d, -q);
    } else {
      MulMono(1, d, q);
    }
  }

  predicate IsPow2(n: nat)
  {
    n == 1 || (n > 1 && n % 2 == 0 && IsPow2(n / 2))
  }

  lemma OneIsPow2()
    ensures IsPow2(1)
  {
  }
}
