/** Schoolbook products, column by column, and the two-word accumulator that sums a column. */
module Columns {
  import opened Powers
  import opened Bigits

  /** The bigit at index `i`, or zero outside the sequence. */
  function Get(s: seq<Bigit>, i: int): Bigit {
    if 0 <= i < |s| then s[i] else 0
  }

  /** The first `k` cross products `a[i] * b[c - i]` of column `c`. */
  function ColumnSum(a: seq<Bigit>, b: seq<Bigit>, c: nat, k: nat): nat
    requires k <= |a|
  {
    if k == 0 then 0 else ColumnSum(a, b, c, k - 1) + a[k - 1] * Get(b, c - (k - 1))
  }

  /** All columns below `m`, each at its weight. */
  function SumOfColumns(a: seq<Bigit>, b: seq<Bigit>, m: nat): nat {
    if m == 0 then 0 else SumOfColumns(a, b, m - 1) + ColumnSum(a, b, m - 1, |a|) * Weight(m - 1)
  }

  /** One row of the product: `b` moved up by `k` places. */
  function Row(b: seq<Bigit>, k: nat, m: nat): nat {
    if m == 0 then 0 else Row(b, k, m - 1) + Get(b, m - 1 - k) * Weight(m - 1)
  }

  lemma {:induction false} RowIsShift(b: seq<Bigit>, k: nat, m: nat)
    ensures m <= k ==> Row(b, k, m) == 0
    ensures k <= m <= k + |b| ==> Row(b, k, m) == Weight(k) * Val(b[..m - k])
    ensures k + |b| <= m ==> Row(b, k, m) == Weight(k) * Val(b)
  {
    if m == 0 {
    } else {
      RowIsShift(b, k, m - 1);
      ValWhole(b);
      if k < m <= k + |b| {
        var i := m - 1 - k;
        ValStep(b, i);
        PowAdd(B, k, i);
        Factor(Weight(k), Weight(i), Val(b[..i]), b[i]);
      }
    }
  }

  lemma {:induction false} ColumnSumPrefix(a: seq<Bigit>, a': seq<Bigit>, b: seq<Bigit>, c: nat, k: nat)
    requires k <= |a| <= |a'| && a'[..|a|] == a
    ensures ColumnSum(a', b, c, k) == ColumnSum(a, b, c, k)
  {
    if k == 0 {
    } else {
      ColumnSumPrefix(a, a', b, c, k - 1);
      assert a'[k - 1] == a'[..|a|][k - 1];
    }
  }

  lemma {:induction false} ColumnsSnoc(a: seq<Bigit>, x: Bigit, b: seq<Bigit>, m: nat)
    ensures SumOfColumns(a + [x], b, m) == SumOfColumns(a, b, m) + x * Row(b, |a|, m)
  {
    if m == 0 {
    } else {
      var c, w := m - 1, Weight(m - 1);
      ColumnsSnoc(a, x, b, c);
      ColumnSumPrefix(a, a + [x], b, c, |a|);
      var s, g := ColumnSum(a, b, c, |a|), Get(b, c - |a|);
      assert ColumnSum(a + [x], b, c, |a| + 1) == s + x * g;
      assert SumOfColumns(a + [x], b, m) == SumOfColumns(a + [x], b, c) + (s + x * g) * w;
      hide *;
      AddRow(SumOfColumns(a, b, c), x, Row(b, |a|, c), s, g, w);
    }
  }

  lemma AddRow(sum: int, x: int, row: int, s: int, g: int, w: int)
    ensures sum + x * row + (s + x * g) * w == sum + s * w + x * (row + g * w)
  {
    MulAssoc(x, g, w);
    assert (s + x * g) * w == s * w + x * g * w;
  }

  /** The columns together hold every cross product exactly once: they add up to the product. */
  lemma {:induction false} ColumnsAreProduct(a: seq<Bigit>, b: seq<Bigit>, m: nat)
    requires m >= |a| + |b|
    ensures SumOfColumns(a, b, m) == Val(a) * Val(b)
  {
    if a == [] {
      NoColumns(b, m);
    } else {
      var a', x := a[..|a| - 1], a[|a| - 1];
      assert a == a' + [x];
      ColumnsAreProduct(a', b, m);
      ColumnsSnoc(a', x, b, m);
      RowIsShift(b, |a'|, m);
      hide *;
      AddProduct(Val(a'), x, Weight(|a'|), Val(b));
    }
  }

  lemma AddProduct(v: int, x: int, w: int, b: int)
    ensures v * b + x * (w * b) == (v + x * w) * b
  {
    MulAssoc(x, w, b);
    assert (v + x * w) * b == v * b + x * w * b;
  }

  lemma {:induction false} NoColumns(b: seq<Bigit>, m: nat)
    ensures SumOfColumns([], b, m) == 0
  {
    if m == 0 {
    } else {
      NoColumns(b, m - 1);
    }
  }

  /** Below the diagonal of column `c` the cross products with `i > c` are zero. */
  lemma {:induction false} ColumnTail(a: seq<Bigit>, b: seq<Bigit>, c: nat, k: nat)
    requires c < k <= |a|
    ensures ColumnSum(a, b, c, k) == ColumnSum(a, b, c, c + 1)
  {
    if k == c + 1 {
    } else {
      ColumnTail(a, b, c, k - 1);
    }
  }

  /** In the upper half the cross products with `c - i >= |b|` are zero. */
  lemma {:induction false} ColumnHead(a: seq<Bigit>, b: seq<Bigit>, c: nat, k: nat)
    requires k <= |a| && c - k >= |b| - 1
    ensures ColumnSum(a, b, c, k) == 0
  {
    if k == 0 {
    } else {
      ColumnHead(a, b, c, k - 1);
    }
  }

  function Times(x: Bigit, y: Bigit): (t: nat)
    ensures t < W64
  {
    BigitProduct(x, y);
    (x as int) * y
  }

  lemma BigitProduct(x: Bigit, y: Bigit)
    ensures 0 <= x * y <= 0xFFFF_FFFE_0000_0001 < W64
  {
    MulBound(x, y, 0xFFFF_FFFF, 0xFFFF_FFFF);
  }

  lemma ShiftedWords(upper: nat, lower: nat)
    requires upper < W64 && lower < W64
    ensures upper * B % W64 + lower / B < W64 && upper / B < W64
    ensures upper / B * W64 + (upper * B % W64 + lower / B) == (upper * W64 + lower) / B
  {
    var q, r := upper / B, upper % B;
    DivModUnique(upper * B, W64, q, r * B);
    DivModUnique(upper * W64 + lower, B, q * W64 + r * B + lower / B, lower % B);
  }

  /** Two 64-bit words that hold the sum of a column when no 128-bit integer type is available. */
  class Accumulator {
    var lower: nat
    var upper: nat

    ghost predicate Valid()
      reads this
    {
      lower < W64 && upper < W64
    }

    ghost function Sum(): nat
      reads this
    {
      upper * W64 + lower
    }

    constructor ()
      ensures Valid() && Sum() == 0
    {
      lower, upper := 0, 0;
    }

    /** The low 32 bits of the sum. */
    function Low(): (r: Bigit)
      requires Valid()
      reads this
      ensures r == Sum() % B
    {
      assert Sum() % B == lower % B;
      lower % B
    }

    /** Adds a 64-bit term; the carry is seen by the lower word wrapping around. */
    method Add(n: nat)
      requires Valid() && n < W64
      modifies this
      ensures Valid()
      ensures old(Sum()) + n < W64 * W64 ==> Sum() == old(Sum()) + n
    {
      lower := (lower + n) % W64;
      if lower < n {
        upper := (upper + 1) % W64;
      }
    }

    /** Shifts both words right by one bigit; the operands of the bitwise or share no bits. */
    method ShiftBigit()
      requires Valid()
      modifies this
      ensures Valid()
      ensures Sum() == old(Sum()) / B
    {
      ShiftedWords(upper, lower);
      lower := upper * B % W64 + lower / B;
      upper := upper / B;
    }
  }
}
