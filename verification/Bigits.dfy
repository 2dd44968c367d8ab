/** Little-endian sequences of 32-bit big digits ("bigits") and the numbers they stand for. */
module Bigits {
  import opened Powers

  const B: nat := 0x1_0000_0000

  type Bigit = x: int | 0 <= x < B

  /** The weight of the bigit at index `i`. */
  function Weight(i: nat): (w: nat)
    ensures w > 0
  {
    Pow(B, i)
  }

  lemma WeightAdd(i: nat, j: nat)
    ensures Weight(i + j) == Weight(i) * Weight(j)
  {
    PowAdd(B, i, j);
  }

  /** The number a sequence of bigits stands for. */
  function Val(s: seq<Bigit>): nat {
    if s == [] then 0 else Val(s[..|s| - 1]) + s[|s| - 1] * Weight(|s| - 1)
  }

  lemma ValSnoc(s: seq<Bigit>, x: Bigit)
    ensures Val(s + [x]) == Val(s) + x * Weight(|s|)
  {
    assert (s + [x])[..|s|] == s;
  }

  lemma ValStep(s: seq<Bigit>, i: nat)
    requires i < |s|
    ensures Val(s[..i + 1]) == Val(s[..i]) + s[i] * Weight(i)
  {
    assert s[..i + 1] == s[..i] + [s[i]];
    ValSnoc(s[..i], s[i]);
  }

  lemma ValWhole(s: seq<Bigit>)
    ensures Val(s[..|s|]) == Val(s)
  {
    assert s[..|s|] == s;
  }

  lemma {:induction false} ValConcat(a: seq<Bigit>, b: seq<Bigit>)
    ensures Val(a + b) == Val(a) + Weight(|a|) * Val(b)
    decreases |b|
  {
    if b == [] {
      assert a + b == a;
    } else {
      var b', x := b[..|b| - 1], b[|b| - 1];
      assert a + b == (a + b') + [x];
      ValSnoc(a + b', x);
      ValSnoc(b', x);
      assert b == b' + [x];
      ValConcat(a, b');
      hide *;
      WeightAdd(|a|, |b'|);
      Factor(Weight(|a|), Weight(|b'|), Val(b'), x);
    }
  }

  lemma ValSplit(s: seq<Bigit>, k: nat)
    requires k <= |s|
    ensures Val(s) == Val(s[..k]) + Weight(k) * Val(s[k..])
  {
    assert s == s[..k] + s[k..];
    ValConcat(s[..k], s[k..]);
  }

  lemma {:induction false} ValBound(s: seq<Bigit>)
    ensures Val(s) < Weight(|s|)
  {
    if s == [] {
    } else {
      var n := |s| - 1;
      ValBound(s[..n]);
      MulMono(s[n], B - 1, Weight(n));
    }
  }

  lemma {:induction false} ValZeros(s: seq<Bigit>)
    ensures Val(s) == 0 <==> forall i :: 0 <= i < |s| ==> s[i] == 0
  {
    if s == [] {
    } else {
      var n := |s| - 1;
      ValZeros(s[..n]);
      if s[n] > 0 {
        MulMono(1, s[n], Weight(n));
      }
      assert forall i :: 0 <= i < n ==> s[..n][i] == s[i];
    }
  }

  /** A sequence has a nonzero top bigit exactly when its value needs that many bigits. */
  lemma TopNonzero(s: seq<Bigit>)
    requires s != []
    ensures s[|s| - 1] != 0 <==> Val(s) >= Weight(|s| - 1)
  {
    var n := |s| - 1;
    ValBound(s[..n]);
    if s[n] != 0 {
      MulMono(1, s[n], Weight(n));
    }
  }

  lemma ValUpdate(s: seq<Bigit>, i: nat, x: Bigit)
    requires i < |s|
    ensures Val(s[i := x]) == Val(s) + (x - s[i]) * Weight(i)
  {
    hide *;
    var t, w := s[i := x], Weight(i);
    assert t[..i] == s[..i] && t[i + 1..] == s[i + 1..];
    ValStep(s, i);
    ValStep(t, i);
    Distribute(x, s[i], w);
    ValSplit(s, i + 1);
    ValSplit(t, i + 1);
  }

  function Zeros(n: nat): (z: seq<Bigit>)
    ensures |z| == n && forall i :: 0 <= i < n ==> z[i] == 0
  {
    seq(n, _ => 0)
  }

  lemma ValZeroPad(n: nat, s: seq<Bigit>)
    ensures Val(Zeros(n) + s) == Weight(n) * Val(s)
  {
    ValZeros(Zeros(n));
    ValConcat(Zeros(n), s);
  }

  lemma ValSingle(x: Bigit)
    ensures Val([x]) == x
  {
    assert [x][..0] == [];
  }
}
