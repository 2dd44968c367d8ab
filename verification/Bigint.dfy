/** The in-place big integer: 32-bit bigits and a word exponent. */
module BigintClass {
  import opened Powers
  import opened Bigits
  import opened Columns
  import opened BigintOrder
  import opened BigintSteps

  /** Adds the cross products of a column of the lower half of a square. */
  method SumLowColumn(n: seq<Bigit>, c: nat, sum: Accumulator)
    requires c < |n| < 0x4000_0000 && sum.Valid() && sum.Sum() <= |n| * B
    modifies sum
    ensures sum.Valid() && sum.Sum() == old(sum.Sum()) + ColumnSum(n, n, c, |n|)
  {
    hide ColumnSum, Accumulator.Sum;
    ghost var carried := sum.Sum();
    var i, j := 0, c;
    NoTerms(n, c);
    while j >= 0
      invariant 0 <= i <= c + 1 && j == c - i
      invariant sum.Valid() && sum.Sum() == carried + ColumnSum(n, n, c, i)
    {
      TermStep(n, c, i);
      ColumnRoom(n, c, i + 1, carried);
      sum.Add(Times(n[i], n[j]));
      i, j := i + 1, j - 1;
    }
    ColumnTail(n, n, c, |n|);
  }

  /** Adds the cross products of a column of the upper half of a square. */
  method SumHighColumn(n: seq<Bigit>, c: nat, sum: Accumulator)
    requires |n| <= c < 2 * |n| && |n| < 0x4000_0000 && sum.Valid() && sum.Sum() <= |n| * B
    modifies sum
    ensures sum.Valid() && sum.Sum() == old(sum.Sum()) + ColumnSum(n, n, c, |n|)
  {
    hide ColumnSum, Accumulator.Sum;
    ghost var carried := sum.Sum();
    var j := |n| - 1;
    var i := c - j;
    ColumnHead(n, n, c, i);
    while i < |n|
      invariant c - (|n| - 1) <= i <= |n| && j == c - i
      invariant sum.Valid() && sum.Sum() == carried + ColumnSum(n, n, c, i)
    {
      TermStep(n, c, i);
      ColumnRoom(n, c, i + 1, carried);
      sum.Add(Times(n[i], n[j]));
      i, j := i + 1, j - 1;
    }
  }

  class Bigint {
    var bigits: seq<Bigit>
    var exp: nat

    ghost function Value(): nat
      reads this
    {
      Scaled(bigits, exp)
    }

    /** Every operation leaves a number without leading zero bigits. */
    ghost predicate Valid()
      reads this
    {
      Trimmed(bigits)
    }

    function NumBigits(): nat
      reads this
    {
      |bigits| + exp
    }

    constructor ()
      ensures bigits == [] && exp == 0
    {
      bigits, exp := [], 0;
    }

    method Assign(n: nat)
      requires n < W64
      modifies this
      ensures Valid() && Value() == n && exp == 0 && |bigits| <= 2
    {
      var rest := n;
      var digits: seq<Bigit> := [rest % B];
      rest := rest / B;
      ValSingle(digits[0]);
      while rest != 0
        invariant 1 <= |digits| <= 2 && Trimmed(digits)
        invariant |digits| == 2 ==> rest == 0
        invariant rest < B
        invariant Val(digits) + rest * Weight(|digits|) == n
      {
        assert Weight(1) == B * Weight(0);
        ValSnoc(digits, rest % B);
        digits := digits + [rest % B];
        rest := rest / B;
      }
      bigits := digits;
      exp := 0;
    }

    method MultiplyU32(value: Bigit)
      requires Valid() && value > 0
      modifies this
      ensures Valid() && exp == old(exp)
      ensures Value() == old(Value()) * value
    {
      hide Val, Weight, Pow, Scaled;
      ghost var was := bigits;
      var carry: Bigit := 0;
      var i := 0;
      NoBigits(was, value);
      while i < |bigits|
        invariant i <= |bigits| == |was| && exp == old(exp)
        invariant forall k :: i <= k < |was| ==> bigits[k] == was[k]
        invariant Val(bigits[..i]) + carry * Weight(i) == Val(was[..i]) * value
      {
        NarrowCarry(bigits[i], value, carry);
        var result := bigits[i] * value + carry;
        ProductStep(was, bigits, i, value, carry, result);
        bigits := bigits[i := result % B];
        carry := result / B;
        i := i + 1;
      }
      ValWhole(was);
      ValWhole(bigits);
      if carry != 0 {
        ValSnoc(bigits, carry);
        bigits := bigits + [carry];
      }
      ScaledProduct(was, bigits, exp, value);
    }

    method MultiplyU64(value: nat)
      requires Valid() && 0 < value < W64
      modifies this
      ensures Valid() && exp == old(exp)
      ensures Value() == old(Value()) * value
    {
      hide Val, Weight, Pow, Scaled, LowerProduct, UpperProduct;
      ghost var was := bigits;
      NoBigits(was, value);
      var lower, upper := value % B, value / B;
      var carry: nat := 0;
      var i := 0;
      while i < |bigits|
        invariant i <= |bigits| == |was| && exp == old(exp)
        invariant forall k :: i <= k < |was| ==> bigits[k] == was[k]
        invariant carry < W64
        invariant Val(bigits[..i]) + carry * Weight(i) == Val(was[..i]) * value
      {
        WideStep(was, bigits, i, value, carry);
        var result := LowerProduct(bigits[i], lower, carry);
        carry := UpperProduct(bigits[i], upper, result, carry);
        bigits := bigits[i := result % B];
        i := i + 1;
      }
      ValWhole(was);
      ValWhole(bigits);
      while carry != 0
        invariant |was| <= |bigits| && exp == old(exp)
        invariant |bigits| > |was| && carry == 0 ==> bigits[|bigits| - 1] != 0
        invariant Val(bigits) + carry * Weight(|bigits|) == Val(was) * value
      {
        CarryStep(Val(bigits), Weight(|bigits|), carry);
        ValSnoc(bigits, carry % B);
        WeightStep(|bigits|);
        bigits := bigits + [carry % B];
        carry := carry / B;
      }
      ScaledProduct(was, bigits, exp, value);
    }

    method ShiftLeft(shift: nat)
      requires Valid()
      modifies this
      ensures Valid() && exp == old(exp) + shift / 32
      ensures Value() == old(Value()) * Pow(2, shift)
    {
      hide Val, Weight, Pow, Scaled, ShiftedIn, ShiftedOut;
      ghost var was := bigits;
      exp := exp + shift / 32;
      var rest := shift % 32;
      if rest == 0 {
        PowZero(2);
        ScaledShift(was, bigits, old(exp), shift);
        return;
      }
      ShiftFactors(rest);
      var factor, back := Pow(2, rest), Pow(2, 32 - rest);
      var carry: Bigit := 0;
      var i := 0;
      NoBigits(was, factor);
      while i < |bigits|
        invariant i <= |bigits| == |was| && exp == old(exp) + shift / 32
        invariant forall k :: i <= k < |was| ==> bigits[k] == was[k]
        invariant carry < factor
        invariant Val(bigits[..i]) + carry * Weight(i) == Val(was[..i]) * factor
      {
        ShiftedBigit(was, bigits, i, factor, back, carry);
        var c := ShiftedOut(bigits[i], back);
        bigits := bigits[i := ShiftedIn(bigits[i], factor, carry)];
        carry := c;
        i := i + 1;
      }
      ValWhole(was);
      ValWhole(bigits);
      if carry != 0 {
        ValSnoc(bigits, carry);
        bigits := bigits + [carry];
      }
      ScaledProduct(was, bigits, exp, factor);
      ScaledShift(was, bigits, old(exp), shift);
    }

    /** Squares column by column: the lower half, then the upper half, of the result. */
    method Square()
      requires Valid() && |bigits| < 0x4000_0000
      modifies this
      ensures Valid() && exp == 2 * old(exp)
      ensures Value() == old(Value()) * old(Value())
    {
      hide Val, Weight, Pow, Scaled, SumOfColumns, ColumnSum, Accumulator.Sum;
      var n := bigits;
      var numBigits := |n|;
      bigits := Zeros(2 * numBigits);
      var sum := new Accumulator();
      var c := 0;
      NoColumnsYet(n, bigits);
      while c < numBigits
        invariant c <= numBigits && |bigits| == 2 * numBigits && exp == old(exp)
        invariant sum.Valid() && sum.Sum() <= numBigits * B
        invariant Val(bigits[..c]) + sum.Sum() * Weight(c) == SumOfColumns(n, n, c)
      {
        ghost var carried := sum.Sum();
        SumLowColumn(n, c, sum);
        ColumnRoom(n, c, numBigits, carried);
        ColumnStep(n, bigits, c, carried, sum.Sum());
        bigits := bigits[c := sum.Low()];
        sum.ShiftBigit();
        c := c + 1;
      }
      while c < 2 * numBigits
        invariant numBigits <= c <= 2 * numBigits && |bigits| == 2 * numBigits && exp == old(exp)
        invariant sum.Valid() && sum.Sum() <= numBigits * B
        invariant Val(bigits[..c]) + sum.Sum() * Weight(c) == SumOfColumns(n, n, c)
      {
        ghost var carried := sum.Sum();
        SumHighColumn(n, c, sum);
        ColumnRoom(n, c, numBigits, carried);
        ColumnStep(n, bigits, c, carried, sum.Sum());
        bigits := bigits[c := sum.Low()];
        sum.ShiftBigit();
        c := c + 1;
      }
      ColumnsAreProduct(n, n, c);
      ValWhole(bigits);
      NothingCarried(n, bigits, sum.Sum());
      RemoveLeadingZeros();
      exp := 2 * exp;
      ScaledSquare(n, bigits, old(exp));
    }

    method RemoveLeadingZeros()
      modifies this`bigits
      ensures |bigits| <= old(|bigits|)
      ensures Val(bigits) == Val(old(bigits))
      ensures old(bigits) != [] ==> Valid()
    {
      hide Val, Weight, Pow;
      var numBigits := |bigits| - 1;
      ValWhole(bigits);
      while numBigits > 0 && bigits[numBigits] == 0
        invariant -1 <= numBigits < |bigits| && (bigits != [] ==> numBigits >= 0)
        invariant bigits == old(bigits)
        invariant Val(bigits[..numBigits + 1]) == Val(bigits)
      {
        ValStep(bigits, numBigits);
        numBigits := numBigits - 1;
      }
      bigits := bigits[..numBigits + 1];
    }

    /** Assigns 10^n: 5^n by scanning the bits of `n` from the top, then a shift by `n`. The bit scan doubles a
        signed 32-bit mask past `n`. */
    method AssignPow10(n: nat)
      requires n < 0x4000_0000
      modifies this
      ensures Valid() && exp == n / 32 && Value() == Pow(10, n)
    {
      hide Val, Weight, Pow, Scaled, Trimmed, IsPow2, UpperBits;
      if n == 0 {
        PowZero(10);
        Assign(1);
        return;
      }
      var bitmask := 1;
      ghost var top := 1;
      OneIsPow2();
      while n >= bitmask
        invariant 0 < bitmask && 0 < top && IsPow2(top) && (bitmask == 1 || (bitmask == 2 * top && top <= n))
        decreases n - bitmask
      {
        NextPow2(top);
        top := bitmask;
        bitmask := bitmask * 2;
      }
      bitmask := bitmask / 2;
      ScanStart(n, top);
      Assign(5);
      bitmask := bitmask / 2;
      while bitmask != 0
        invariant 0 < top && IsPow2(top) && bitmask == top / 2
        invariant Valid() && exp == 0 && Value() == Pow(5, UpperBits(n, top))
        decreases bitmask
      {
        ScanStep(n, top);
        SizeOfPow5(bigits, UpperBits(n, top));
        Square();
        // The bit of n under the mask.
        if UpperBits(n, bitmask) % 2 != 0 {
          MultiplyU32(5);
        }
        top := bitmask;
        bitmask := bitmask / 2;
      }
      ScanEnd(n, top);
      ShiftLeft(n);
    }

    /** Gives both numbers the same bottom weight by appending zero bigits below. */
    method Align(other: Bigint)
      requires Valid()
      modifies this
      ensures exp == if old(exp) > other.exp then other.exp else old(exp)
      ensures bigits == Zeros(old(exp) - exp) + old(bigits)
      ensures Value() == old(Value())
    {
      hide Val, Weight, Pow, Scaled, Zeros, Trimmed, Moving;
      ghost var was := bigits;
      var difference := exp - other.exp;
      if difference <= 0 {
        NoPad(bigits);
        return;
      }
      var numBigits := |bigits|;
      MoveNone(was, difference);
      bigits := bigits + Zeros(difference);
      var i := numBigits - 1;
      while i >= 0
        invariant -1 <= i < numBigits && |bigits| == numBigits + difference && exp == old(exp)
        invariant Moving(was, bigits, difference, i)
      {
        MoveOne(was, bigits, difference, i);
        bigits := bigits[i + difference := bigits[i]];
        i := i - 1;
      }
      AllMoved(was, bigits, difference);
      bigits := Zeros(difference) + bigits[difference..];
      exp := exp - difference;
      ScaledPad(was, exp, difference);
    }

    method SubtractBigits(index: nat, other: Bigit, borrow: nat) returns (borrow': nat)
      requires index < |bigits| && borrow <= 1
      modifies this`bigits
      ensures borrow' <= 1 && |bigits| == old(|bigits|)
      ensures bigits == old(bigits)[index := bigits[index]]
      ensures bigits[index] == old(bigits)[index] - other - borrow + borrow' * B
    {
      var result := (bigits[index] - other - borrow) % W64;
      bigits := bigits[index := result % B];
      borrow' := result / 0x8000_0000_0000_0000;
    }

    /** Subtracts in place. The last loop keeps borrowing from one and the same bigit, so the difference is exact unless
        the borrow meets a zero bigit there. */
    method SubtractAligned(other: Bigint)
      requires this != other && exp <= other.exp
      requires bigits != [] && Comparison(bigits, exp, other.bigits, other.exp) >= 0
      modifies this`bigits
      ensures Valid() && |bigits| <= old(|bigits|)
      ensures Value() + other.Value() == old(Value()) +
                                         if BorrowStalls(old(bigits), other.exp - exp, other.bigits)
                                         then (B - 1) * Weight(other.NumBigits()) else 0
    {
      hide Val, Weight, Pow, Scaled, Comparison, CompareTops, PartlySubtracted, Borrowing, BorrowStalls;
      ghost var was, d, end := bigits, other.exp - exp, other.exp - exp + |other.bigits|;
      MinuendCovers(bigits, exp, other.bigits, other.exp);
      NothingSubtracted(was, other.bigits, d, other.exp);
      var borrow := 0;
      var i, j := other.exp - exp, 0;
      while j != |other.bigits|
        invariant 0 <= j <= |other.bigits| && i == d + j && borrow <= 1 && |bigits| == |was|
        invariant PartlySubtracted(was, bigits, other.bigits, d, j, other.exp, borrow)
      {
        ghost var before := bigits;
        var borrow' := SubtractBigits(i, other.bigits[j], borrow);
        BorrowStep(was, before, other.bigits, d, j, other.exp, bigits[i], borrow, borrow');
        borrow := borrow';
        i, j := i + 1, j + 1;
      }
      BorrowBegins(was, bigits, exp, other.bigits, other.exp, borrow);
      ghost var partial, borrowed := bigits, borrow;
      while borrow > 0
        invariant borrow <= 1 && |bigits| == |was| && i == end && (borrow == 1 ==> i < |bigits|)
        invariant Borrowing(partial, bigits, i, borrowed, borrow)
        decreases if borrow == 0 then 0 else if bigits[i] == 0 then 2 else 1
      {
        ghost var before := bigits;
        borrow := SubtractBigits(i, 0, borrow);
        BorrowAgain(partial, before, i, borrowed, bigits[i], borrow);
      }
      Subtracted(was, partial, bigits, exp, other.bigits, other.exp, borrowed);
      ScaledSame(bigits, exp);
      RemoveLeadingZeros();
    }

    /** Repeated subtraction. The quotient and remainder are the true ones unless the dividend equals the divisor and is
        stored with the larger exponent, when the first comparison takes it for the smaller of the two. */
    method DivmodAssign(divisor: Bigint) returns (quotient: nat)
      requires this != divisor && divisor.Valid() && divisor.Value() > 0
      requires Fits(bigits, exp, divisor.NumBigits()) && NumBigits() <= divisor.NumBigits() + 1
      modifies this
      ensures Fits(bigits, exp, divisor.NumBigits()) && NumBigits() <= divisor.NumBigits() + 1
      ensures exp <= old(exp) && (quotient > 0 ==> exp <= divisor.exp)
      ensures if old(Value()) == divisor.Value() && old(exp) > divisor.exp
              then quotient == 0 && Value() == old(Value()) && exp == old(exp)
              else quotient == old(Value()) / divisor.Value() && Value() == old(Value()) % divisor.Value()
    {
      hide Val, Weight, Pow, Scaled, Comparison, CompareTops, BorrowStalls, Zeros, TakenOff;
      ghost var whole, d := Value(), divisor.Value();
      TakeOff(whole, d, 0, whole);
      ComparisonDecides(bigits, exp, divisor.bigits, divisor.exp);
      var c := Compare(this, divisor);
      if c < 0 {
        if whole < d {
          QuotientFound(whole, d, 0, whole);
        }
        return 0;
      }
      AlignKeepsComparison(bigits, exp, divisor.bigits, divisor.exp);
      Align(divisor);
      quotient := 0;
      while true
        invariant divisor.Valid() && divisor.Value() == d
        invariant Valid() && exp <= divisor.exp && exp <= old(exp)
        invariant NumBigits() <= divisor.NumBigits() + 1
        invariant Comparison(bigits, exp, divisor.bigits, divisor.exp) >= 0
        invariant TakenOff(whole, d, quotient, Value()) && Value() >= d
        decreases Value()
      {
        TakeOff(whole, d, quotient, Value());
        NoStall(bigits, exp, divisor.bigits, divisor.exp);
        SubtractAligned(divisor);
        quotient := quotient + 1;
        ZeroFits(bigits, exp, divisor.bigits, divisor.exp);
        ComparisonDecides(bigits, exp, divisor.bigits, divisor.exp);
        c := Compare(this, divisor);
        if c < 0 {
          break;
        }
      }
      QuotientFound(whole, d, quotient, Value());
    }

    /** Why division asks for a dividend at most one bigit longer: after each pass of its loop a longer one is still longer,
        and another pass follows, for ever. */
    method PassNeverTheLast(divisor: Bigint) returns (again: bool)
      requires this != divisor && Valid() && divisor.Valid() && exp <= divisor.exp && NumBigits() > divisor.NumBigits() + 1
      modifies this`bigits
      ensures again && Valid() && exp <= divisor.exp && NumBigits() > divisor.NumBigits() + 1
    {
      hide Val, Weight, Pow, Scaled, BorrowStalls;
      ghost var was := bigits;
      SubtractAligned(divisor);
      LongStaysLong(was, exp, divisor.bigits, divisor.exp, bigits);
      var c := Compare(this, divisor);
      again := c >= 0;
    }

    /** Three-way comparison; see `ComparisonExact` for when it is the order of the two values. */
    static method Compare(lhs: Bigint, rhs: Bigint) returns (c: int)
      ensures c == Comparison(lhs.bigits, lhs.exp, rhs.bigits, rhs.exp)
    {
      if lhs.NumBigits() != rhs.NumBigits() {
        return if lhs.NumBigits() > rhs.NumBigits() then 1 else -1;
      }
      var i, j := |lhs.bigits| - 1, |rhs.bigits| - 1;
      var end := i - j;
      if end < 0 {
        end := 0;
      }
      assert lhs.bigits[..i + 1] == lhs.bigits && rhs.bigits[..j + 1] == rhs.bigits;
      while i >= end
        invariant end - 1 <= i < |lhs.bigits| && -1 <= j < |rhs.bigits|
        invariant i - j == |lhs.bigits| - |rhs.bigits|
        invariant end == if i - j < 0 then 0 else i - j
        invariant CompareTops(lhs.bigits, rhs.bigits) == CompareTops(lhs.bigits[..i + 1], rhs.bigits[..j + 1])
      {
        if lhs.bigits[i] != rhs.bigits[j] {
          return if lhs.bigits[i] > rhs.bigits[j] then 1 else -1;
        }
        assert lhs.bigits[..i + 1][..i] == lhs.bigits[..i];
        assert rhs.bigits[..j + 1][..j] == rhs.bigits[..j];
        i, j := i - 1, j - 1;
      }
      if i != j {
        return if i > j then 1 else -1;
      }
      return 0;
    }

    static function Longest(a: Bigint, b: Bigint): nat
      reads a, b
    {
      if a.NumBigits() > b.NumBigits() then a.NumBigits() else b.NumBigits()
    }

    /** Of two left operands one is longer than the right one, and not just a zero with an exponent; or one alone exceeds
        the right one. */
    static ghost predicate Decides(lhs1: Bigint, lhs2: Bigint, rhs: Bigint)
      reads lhs1, lhs2, rhs
    {
      || (lhs1.NumBigits() > rhs.NumBigits() && lhs1.bigits != [0])
      || (lhs2.NumBigits() > rhs.NumBigits() && lhs2.bigits != [0])
      || lhs1.Value() > rhs.Value() || lhs2.Value() > rhs.Value()
    }

    /** The order of `lhs1 + lhs2` and `rhs`, found from the top without forming the sum. Only the two tests on bigit
        counts can be misled, by a zero that is stored with an exponent and so looks too long. */
    static method AddCompare(lhs1: Bigint, lhs2: Bigint, rhs: Bigint) returns (c: int)
      requires lhs1.Valid() && lhs2.Valid() && rhs.Valid()
      ensures c == Sign(lhs1.Value() + lhs2.Value() - rhs.Value()) <==>
              && (Longest(lhs1, lhs2) + 1 < rhs.NumBigits() ==> rhs.bigits != [0])
              && (Longest(lhs1, lhs2) > rhs.NumBigits() ==> Decides(lhs1, lhs2, rhs))
      ensures Fits(lhs1.bigits, lhs1.exp, rhs.NumBigits()) && Fits(lhs2.bigits, lhs2.exp, rhs.NumBigits()) && rhs.bigits != [0]
              ==> c == Sign(lhs1.Value() + lhs2.Value() - rhs.Value())
    {
      ZeroOperands(lhs1, lhs2, rhs);
      hide Val, Weight, Pow, Scaled, Lead, High, Low;
      var maxBigits := if lhs1.NumBigits() > lhs2.NumBigits() then lhs1.NumBigits() else lhs2.NumBigits();
      var numBigits := rhs.NumBigits();
      if maxBigits + 1 < numBigits {
        if rhs.bigits != [0] {
          ShortSum(lhs1, lhs2, rhs, maxBigits);
        }
        return -1;
      }
      if maxBigits > numBigits {
        if lhs1.NumBigits() > numBigits && lhs1.bigits != [0] {
          LongerLeft(lhs1, rhs);
        }
        if lhs2.NumBigits() > numBigits && lhs2.bigits != [0] {
          LongerLeft(lhs2, rhs);
        }
        return 1;
      }
      c := CompareFromTop(lhs1, lhs2, rhs);
    }

    static method CompareFromTop(lhs1: Bigint, lhs2: Bigint, rhs: Bigint) returns (c: int)
      requires lhs1.NumBigits() <= rhs.NumBigits() && lhs2.NumBigits() <= rhs.NumBigits()
      ensures c == Sign(lhs1.Value() + lhs2.Value() - rhs.Value())
    {
      hide Val, Weight, Pow, Scaled, Lead, High, Low;
      var numBigits: int := rhs.NumBigits();
      var minExp := if lhs1.exp < lhs2.exp then lhs1.exp else lhs2.exp;
      minExp := if rhs.exp < minExp then rhs.exp else minExp;
      var borrow: nat := 0;
      var i := numBigits - 1;
      NoLead(lhs1.bigits, lhs1.exp, lhs2.bigits, lhs2.exp, rhs.bigits, rhs.exp, numBigits);
      while i >= minExp
        invariant minExp - 1 <= i < numBigits
        invariant borrow == 0 || borrow == B
        invariant borrow == B * Lead(lhs1.bigits, lhs1.exp, lhs2.bigits, lhs2.exp, rhs.bigits, rhs.exp, i + 1)
      {
        LeadStep(lhs1.bigits, lhs1.exp, lhs2.bigits, lhs2.exp, rhs.bigits, rhs.exp, i);
        LeadDecides(lhs1.bigits, lhs1.exp, lhs2.bigits, lhs2.exp, rhs.bigits, rhs.exp, i);
        var sum: nat := Get(lhs1.bigits, i - lhs1.exp) + Get(lhs2.bigits, i - lhs2.exp);
        var bigit: nat := Get(rhs.bigits, i - rhs.exp);
        if sum > bigit + borrow {
          return 1;
        }
        borrow := bigit + borrow - sum;
        if borrow > 1 {
          return -1;
        }
        borrow := borrow * B;
        i := i - 1;
      }
      LeadDecides(lhs1.bigits, lhs1.exp, lhs2.bigits, lhs2.exp, rhs.bigits, rhs.exp, minExp);
      return if borrow != 0 then -1 else 0;
    }

    /** The failing case: zero shifted by a word, plus one, is not found equal to one. */
    static method LongZeroMisleads() returns (c: int, ghost sum: nat, ghost other: nat)
      ensures c != 0 && sum == other
    {
      hide Val, Weight, Pow, Scaled;
      var zero := new Bigint();
      var left := new Bigint();
      var right := new Bigint();
      zero.Assign(0);
      zero.ShiftLeft(32);
      left.Assign(1);
      right.Assign(1);
      ScaledZero(zero.bigits, zero.exp);
      OneBigit(left);
      OneBigit(right);
      c := AddCompare(zero, left, right);
      sum, other := zero.Value() + left.Value(), right.Value();
    }

    static lemma OneBigit(n: Bigint)
      requires n.Valid() && n.exp == 0 && n.Value() < B
      ensures |n.bigits| == 1
    {
      if |n.bigits| > 1 {
        LongIsLarge(n.bigits);
      }
    }

    static lemma LongerLeft(lhs: Bigint, rhs: Bigint)
      requires lhs.Valid() && lhs.NumBigits() > rhs.NumBigits() && lhs.bigits != [0]
      ensures lhs.Value() > rhs.Value()
    {
      LongerIsGreater(rhs.bigits, rhs.exp, lhs.bigits, lhs.exp);
    }

    static lemma ZeroOperands(lhs1: Bigint, lhs2: Bigint, rhs: Bigint)
      ensures lhs1.bigits == [0] ==> lhs1.Value() == 0
      ensures lhs2.bigits == [0] ==> lhs2.Value() == 0
      ensures rhs.bigits == [0] ==> rhs.Value() == 0
    {
      ValSingle(0);
    }

    static lemma ShortSum(lhs1: Bigint, lhs2: Bigint, rhs: Bigint, n: nat)
      requires rhs.bigits != [] && rhs.bigits[|rhs.bigits| - 1] != 0
      requires lhs1.NumBigits() <= n && lhs2.NumBigits() <= n && n + 1 < rhs.NumBigits()
      ensures lhs1.Value() + lhs2.Value() < rhs.Value()
    {
      ScaledBound(lhs1.bigits, lhs1.exp);
      ScaledBound(lhs2.bigits, lhs2.exp);
      PowMono(B, lhs1.NumBigits(), n);
      PowMono(B, lhs2.NumBigits(), n);
      PowMono(B, n + 1, rhs.NumBigits() - 1);
      ScaledTop(rhs.bigits, rhs.exp);
    }
  }
}
