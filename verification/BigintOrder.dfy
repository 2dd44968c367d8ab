/** Orders on bigit sequences scaled by a word exponent: what the comparison loops compute, and when it is the order
    of the numbers. */
module BigintOrder {
  import opened Powers
  import opened Bigits
  import opened Columns

  function Sign(x: int): (s: int)
  {
    if x > 0 then 1 else if x < 0 then -1 else 0
  }

  /** The number `s` stands for when its bottom bigit has weight `e`. */
  function Scaled(s: seq<Bigit>, e: nat): nat {
    Val(s) * Weight(e)
  }

  /** Compares from the top bigits down; when one sequence runs out first the longer one counts as greater. */
  function CompareTops(a: seq<Bigit>, b: seq<Bigit>): (c: int)
    decreases |a|
  {
    if a == [] || b == [] then Sign(|a| - |b|)
    else if a[|a| - 1] != b[|b| - 1] then (if a[|a| - 1] > b[|b| - 1] then 1 else -1)
    else CompareTops(a[..|a| - 1], b[..|b| - 1])
  }

  /** The whole three-way comparison, decided by the number of bigits first. */
  function Comparison(a: seq<Bigit>, ea: nat, b: seq<Bigit>, eb: nat): int {
    if |a| + ea != |b| + eb then Sign(|a| + ea - (|b| + eb)) else CompareTops(a, b)
  }

  /** `s` is free of leading zeros: zero is the one-bigit sequence. */
  predicate Trimmed(s: seq<Bigit>) {
    s != [] && (|s| > 1 ==> s[|s| - 1] != 0)
  }

  /** A trimmed zero may carry any exponent; it must not make the number look longer than `n` bigits. */
  predicate Fits(s: seq<Bigit>, e: nat, n: nat) {
    Trimmed(s) && (s == [0] ==> 1 + e <= n)
  }

  lemma ScaledBound(s: seq<Bigit>, e: nat)
    ensures Scaled(s, e) < Weight(|s| + e)
  {
    ValBound(s);
    MulStrict(Val(s), Weight(|s|), Weight(e));
    PowAdd(B, |s|, e);
  }

  lemma ScaledTop(s: seq<Bigit>, e: nat)
    requires s != [] && s[|s| - 1] != 0
    ensures Scaled(s, e) >= Weight(|s| - 1 + e)
  {
    TopNonzero(s);
    MulMono(Weight(|s| - 1), Val(s), Weight(e));
    PowAdd(B, |s| - 1, e);
  }

  lemma ScaledSnoc(s: seq<Bigit>, e: nat)
    requires s != []
    ensures Scaled(s, e) == Scaled(s[..|s| - 1], e) + s[|s| - 1] * Weight(|s| - 1 + e)
  {
    var n := |s| - 1;
    WeightAdd(n, e);
    AddProduct(Val(s[..n]), s[n], Weight(n), Weight(e));
  }

  lemma ScaledZero(s: seq<Bigit>, e: nat)
    requires Trimmed(s)
    ensures Scaled(s, e) == 0 <==> s == [0]
  {
    ValZeros(s);
    if Val(s) > 0 {
      MulMono(1, Val(s), Weight(e));
    }
    if s[|s| - 1] == 0 {
      assert s == [0];
    }
  }

  lemma TopDecides(low: nat, x: nat, low': nat, x': nat, w: nat)
    requires low < w && x < x'
    ensures low + x * w < low' + x' * w
  {
    MulMono(x + 1, x', w);
  }

  /** With equal top weights, `CompareTops` is the order of the numbers, except that equal numbers are ordered by the
      number of bigits they are stored in. */
  lemma {:induction false} CompareTopsOrder(a: seq<Bigit>, ea: nat, b: seq<Bigit>, eb: nat)
    requires |a| + ea == |b| + eb
    ensures CompareTops(a, b) ==
            if Scaled(a, ea) == Scaled(b, eb) then Sign(|a| - |b|) else Sign(Scaled(a, ea) - Scaled(b, eb))
    decreases |a|
  {
    if a == [] || b == [] {
      if a == [] && b == [] {
        assert Scaled(a, ea) == Scaled(b, eb);
      } else {
        assert a == [] ==> Scaled(a, ea) == 0;
        assert b == [] ==> Scaled(b, eb) == 0;
      }
    } else {
      var m, n := |a| - 1, |b| - 1;
      ScaledSnoc(a, ea);
      ScaledSnoc(b, eb);
      ScaledBound(a[..m], ea);
      ScaledBound(b[..n], eb);
      var w := Weight(m + ea);
      if a[m] < b[n] {
        TopDecides(Scaled(a[..m], ea), a[m], Scaled(b[..n], eb), b[n], w);
      } else if a[m] > b[n] {
        TopDecides(Scaled(b[..n], eb), b[n], Scaled(a[..m], ea), a[m], w);
      } else {
        CompareTopsOrder(a[..m], ea, b[..n], eb);
      }
    }
  }

  /** What `Comparison` decides for numbers without leading zeros. */
  lemma ComparisonOrder(a: seq<Bigit>, ea: nat, b: seq<Bigit>, eb: nat)
    requires Fits(a, ea, |b| + eb) && Fits(b, eb, |a| + ea)
    ensures Comparison(a, ea, b, eb) ==
            if Scaled(a, ea) == Scaled(b, eb) then Sign(|a| - |b|) else Sign(Scaled(a, ea) - Scaled(b, eb))
  {
    if |a| + ea < |b| + eb {
      LongerIsGreater(a, ea, b, eb);
    } else if |a| + ea > |b| + eb {
      LongerIsGreater(b, eb, a, ea);
    } else {
      CompareTopsOrder(a, ea, b, eb);
    }
  }

  lemma LongerIsGreater(a: seq<Bigit>, ea: nat, b: seq<Bigit>, eb: nat)
    requires |a| + ea < |b| + eb && Fits(b, eb, |a| + ea)
    ensures Scaled(a, ea) < Scaled(b, eb)
  {
    ScaledBound(a, ea);
    ScaledTop(b, eb);
    PowMono(B, |a| + ea, |b| - 1 + eb);
  }

  /** The comparison is exact unless the two numbers are equal but stored with different exponents, or one is a zero
      whose exponent makes it look longer than the other. */
  lemma ComparisonExact(a: seq<Bigit>, ea: nat, b: seq<Bigit>, eb: nat)
    requires Trimmed(a) && Trimmed(b)
    ensures Comparison(a, ea, b, eb) == Sign(Scaled(a, ea) - Scaled(b, eb))
            <==> && Fits(a, ea, |b| + eb) && Fits(b, eb, |a| + ea)
                 && !(ea != eb && Scaled(a, ea) == Scaled(b, eb))
  {
    ScaledZero(a, ea);
    ScaledZero(b, eb);
    if Fits(a, ea, |b| + eb) && Fits(b, eb, |a| + ea) {
      ComparisonOrder(a, ea, b, eb);
      if Scaled(a, ea) == Scaled(b, eb) {
        if |a| + ea < |b| + eb {
          LongerIsGreater(a, ea, b, eb);
        } else if |a| + ea > |b| + eb {
          LongerIsGreater(b, eb, a, ea);
        }
      }
    }
  }

  /** Two equal numbers that the comparison tells apart: 2^32 stored as one bigit at exponent 1 and as two at 0. */
  lemma ComparisonOfEqualsFails()
    ensures Scaled([1], 1) == Scaled([0, 1], 0) && Comparison([1], 1, [0, 1], 0) == -1
  {
    ValSingle(1);
    ValSingle(0);
    ValSnoc([0], 1);
    assert [0] + [1] == [0, 1];
    assert Weight(1) == B * Weight(0);
    assert [0, 1][..1] == [0] && [1][..0] == [];
    assert CompareTops([1], [0, 1]) == CompareTops([], [0]);
  }

  /** Equal numbers with nonzero bottom bigits have the same exponent, so for them the comparison is exact. */
  lemma SameExponent(a: seq<Bigit>, ea: nat, b: seq<Bigit>, eb: nat)
    requires a != [] && b != [] && a[0] != 0 && b[0] != 0
    requires Scaled(a, ea) == Scaled(b, eb)
    ensures ea == eb
  {
    if ea < eb {
      BottomBigit(a, ea, b, eb);
    } else if eb < ea {
      BottomBigit(b, eb, a, ea);
    }
  }

  lemma BottomBigit(a: seq<Bigit>, ea: nat, b: seq<Bigit>, eb: nat)
    requires a != [] && ea < eb && Scaled(a, ea) == Scaled(b, eb)
    ensures a[0] == 0
  {
    var d := eb - ea;
    PowAdd(B, d, ea);
    MulAssoc(Val(b), Weight(d), Weight(ea));
    MulCancel(Val(a), Val(b) * Weight(d), Weight(ea));
    ValSplit(a, 1);
    ValSingle(a[0]);
    assert a[..1] == [a[0]];
    assert Weight(1) == B * Weight(0) == B;
    assert Weight(d) == B * Weight(d - 1);
    var k := Val(b) * Weight(d - 1);
    assert Val(b) * Weight(d) == B * k by {
      MulAssoc(Val(b), B, Weight(d - 1));
      MulAssoc(B, Val(b), Weight(d - 1));
    }
    var r := Val(a[1..]);
    assert a[0] + B * r == B * k;
    DivModUnique(a[0] + B * r, B, r, a[0]);
    DivModUnique(B * k, B, k, 0);
  }

  // Splitting a number at a bigit position, for the comparison of a sum that is never formed.

  /** The part of the number at and above weight `i`. */
  function High(s: seq<Bigit>, e: nat, i: nat): nat
    decreases e + |s| - i
  {
    if i >= e + |s| then 0 else High(s, e, i + 1) * B + Get(s, i - e)
  }

  /** The part of the number below weight `i`. */
  function Low(s: seq<Bigit>, e: nat, i: nat): nat {
    if i <= e then 0 else if i - e <= |s| then Scaled(s[..i - e], e) else Scaled(s, e)
  }

  lemma {:induction false} HighLow(s: seq<Bigit>, e: nat, i: nat)
    ensures Scaled(s, e) == High(s, e, i) * Weight(i) + Low(s, e, i)
    ensures Low(s, e, i) < Weight(i)
    ensures i <= e ==> Low(s, e, i) == 0
    decreases e + |s| - i
  {
    LowBound(s, e, i);
    if i >= e + |s| {
      assert s[..|s|] == s;
    } else {
      HighLow(s, e, i + 1);
      LowStep(s, e, i);
      HighStep(Scaled(s, e), High(s, e, i + 1), Get(s, i - e), Weight(i), Low(s, e, i));
    }
  }

  lemma HighStep(v: nat, h: nat, g: nat, w: nat, low: nat)
    requires v == h * (B * w) + (g * w + low)
    ensures v == (h * B + g) * w + low
  {
    MulAssoc(h, B, w);
    assert (h * B + g) * w == h * B * w + g * w;
  }

  lemma LowBound(s: seq<Bigit>, e: nat, i: nat)
    ensures Low(s, e, i) < Weight(i)
  {
    if i > e && i - e <= |s| {
      ScaledBound(s[..i - e], e);
    } else if i > e {
      ScaledBound(s, e);
      PowMono(B, |s| + e, i);
    }
  }

  lemma LowStep(s: seq<Bigit>, e: nat, i: nat)
    requires i < e + |s|
    ensures Low(s, e, i + 1) == Get(s, i - e) * Weight(i) + Low(s, e, i)
  {
    if i >= e {
      var k := i - e;
      ScaledSnoc(s[..k + 1], e);
      assert s[..k + 1][..k] == s[..k];
      assert s[..0] == [];
      assert s[..|s|] == s;
    }
  }

  /** How far `c` is ahead of `a + b`, counting only the parts at and above weight `i`. */
  function Lead(a: seq<Bigit>, ea: nat, b: seq<Bigit>, eb: nat, c: seq<Bigit>, ec: nat, i: nat): int {
    var h: int := High(c, ec, i);
    h - High(a, ea, i) - High(b, eb, i)
  }

  lemma LeadStep(a: seq<Bigit>, ea: nat, b: seq<Bigit>, eb: nat, c: seq<Bigit>, ec: nat, i: nat)
    ensures Lead(a, ea, b, eb, c, ec, i) ==
            B * Lead(a, ea, b, eb, c, ec, i + 1) + Get(c, i - ec) - Get(a, i - ea) - Get(b, i - eb)
  {
  }

  lemma NoLead(a: seq<Bigit>, ea: nat, b: seq<Bigit>, eb: nat, c: seq<Bigit>, ec: nat, i: nat)
    requires i >= |a| + ea && i >= |b| + eb && i >= |c| + ec
    ensures Lead(a, ea, b, eb, c, ec, i) == 0
  {
  }

  /** What the lead at weight `i` says about the whole numbers. */
  lemma LeadDecides(a: seq<Bigit>, ea: nat, b: seq<Bigit>, eb: nat, c: seq<Bigit>, ec: nat, i: nat)
    ensures Lead(a, ea, b, eb, c, ec, i) < 0 ==> Scaled(a, ea) + Scaled(b, eb) > Scaled(c, ec)
    ensures Lead(a, ea, b, eb, c, ec, i) > 1 ==> Scaled(a, ea) + Scaled(b, eb) < Scaled(c, ec)
    ensures i <= ea && i <= eb && i <= ec ==>
              Sign(Scaled(a, ea) + Scaled(b, eb) - Scaled(c, ec)) == -Sign(Lead(a, ea, b, eb, c, ec, i))
  {
    HighLow(a, ea, i);
    HighLow(b, eb, i);
    HighLow(c, ec, i);
    PartsDecide(High(a, ea, i), Low(a, ea, i), High(b, eb, i), Low(b, eb, i), High(c, ec, i), Low(c, ec, i), Weight(i));
  }

  lemma PartsDecide(h1: int, l1: nat, h2: int, l2: nat, h: int, l: nat, w: nat)
    requires l1 < w && l2 < w && l < w
    ensures h - h1 - h2 < 0 ==> h1 * w + l1 + (h2 * w + l2) > h * w + l
    ensures h - h1 - h2 > 1 ==> h1 * w + l1 + (h2 * w + l2) < h * w + l
    ensures l1 == l2 == l == 0 ==> Sign(h1 * w + l1 + (h2 * w + l2) - (h * w + l)) == -Sign(h - h1 - h2)
  {
    var d := h - h1 - h2;
    assert d * w == h * w - h1 * w - h2 * w;
    if d < 0 {
      MulMono(d, -1, w);
    } else if d > 1 {
      MulMono(2, d, w);
    } else if d == 1 {
    }
  }
}
