/** fmt's arbitrary-precision integer: an array of 32-bit bigits with a bigit exponent. */
module Bigints {
  import opened Arithmetic
  import opened Limbs
  import opened Squaring
  import opened Accumulators

  /** Where the low bigits are worth comparing: the longer operand ends in zeros below the shorter one. */
  ghost predicate TrailsInZeros(s: seq<uint32>, t: seq<uint32>) {
    |s| > |t| && s[|s| - |t|..] == t && forall k :: 0 <= k < |s| - |t| ==> s[k] == 0
  }

  /** The order that compare computes: positions first, then value, then number of stored bigits. */
  function Comparison(s: seq<uint32>, e: nat, t: seq<uint32>, f: nat): int {
    if |s| + e != |t| + f then Sign((|s| + e) - (|t| + f))
    else if Magnitude(s, e) != Magnitude(t, f) then Sign(Magnitude(s, e) - Magnitude(t, f))
    else Sign(|s| - |t|)
  }

  /** The borrow that leaves the aligned part meets a zero bigit just above the subtrahend. */
  predicate BorrowMeetsZero(s: seq<uint32>, e: nat, t: seq<uint32>, f: nat) {
    DigitAt(s, e, |t| + f) == 0 && Low(s, e, |t| + f) < Magnitude(t, f)
  }

  /** What a borrow that meets a zero bigit leaves too much. */
  function Leftover(s: seq<uint32>, e: nat, t: seq<uint32>, f: nat): int {
    if BorrowMeetsZero(s, e, t, f) then Shl(0x1_0000_0000 - 1, |t| + f) else 0
  }

  /** Equal to the divisor, which stores zeros below the number's own lowest bigit. */
  ghost predicate EqualityHidden(s: seq<uint32>, e: nat, t: seq<uint32>, f: nat) {
    |s| + e == |t| + f && TrailsInZeros(t, s)
  }

  class Bigint {
    var bigits: seq<uint32>
    var exp: nat

    ghost predicate Valid()
      reads this
    {
      WellFormed(bigits)
    }

    ghost function Value(): int
      reads this
    {
      Magnitude(bigits, exp)
    }

    function NumBigits(): nat
      reads this
    {
      |bigits| + exp
    }

    constructor ()
      ensures bigits == [] && exp == 0
    {
      bigits, exp := [], 0;
    }

    method Assign(other: Bigint)
      modifies this
      ensures bigits == old(other.bigits) && exp == old(other.exp)
    {
      bigits := other.bigits;
      exp := other.exp;
    }

    method AssignWord(n: uint64)
      modifies this
      ensures Valid() && Value() == n && exp == 0
      ensures n > 0 ==> Normal(bigits)
      ensures |bigits| <= 2
    {
      bigits := [];
      var rest := n;
      while true
        invariant Magnitude(bigits, 0) + Shl(rest, |bigits|) == n
        invariant |bigits| <= 2
        invariant rest < (if |bigits| == 0 then 0x1_0000_0000_0000_0000 else if |bigits| == 1 then 0x1_0000_0000 else 1)
        invariant n > 0 || bigits == []
        invariant bigits != [] ==> rest > 0
        decreases 2 - |bigits|
      {
        MagnitudeSnoc(bigits, rest % 0x1_0000_0000, 0);
        CarrySplit(rest, |bigits|);
        bigits := bigits + [rest % 0x1_0000_0000];
        rest := rest / 0x1_0000_0000;
        if rest == 0 {
          ShlZero(|bigits|);
          break;
        }
      }
      exp := 0;
    }

    method SubtractBits(index: nat, other: uint32, borrow: uint32) returns (borrow': uint32)
      requires index < |bigits| && borrow <= 1
      modifies this`bigits
      ensures |bigits| == old(|bigits|) && bigits == old(bigits)[index := bigits[index]]
      ensures borrow' <= 1
      ensures bigits[index] - borrow' * 0x1_0000_0000 == old(bigits[index]) - other - borrow
    {
      var result: uint64 := (bigits[index] - other - borrow) % 0x1_0000_0000_0000_0000;
      bigits := bigits[index := result % 0x1_0000_0000];
      borrow' := result / (0x1_0000_0000_0000_0000 / 2);
    }

    method RemoveLeadingZeros()
      modifies this`bigits
      ensures old(|bigits|) > 0 ==> Valid()
      ensures bigits <= old(bigits) && Value() == old(Value())
      ensures forall k :: |bigits| <= k < old(|bigits|) ==> old(bigits)[k] == 0
    {
      var numBigits := |bigits| - 1;
      while numBigits > 0 && bigits[numBigits] == 0
        invariant -1 <= numBigits < |bigits| && (|bigits| > 0 ==> numBigits >= 0)
        invariant forall k :: numBigits < k < |bigits| ==> bigits[k] == 0
      {
        numBigits := numBigits - 1;
      }
      MagnitudeLeadingZeros(bigits, exp, numBigits + 1);
      bigits := bigits[..numBigits + 1];
    }

    /** The loop that passes a borrow on; its index stays where it is. */
    method AbsorbBorrow(i: nat, borrow: uint32)
      requires borrow <= 1 && (borrow == 1 ==> i < |bigits|)
      modifies this`bigits
      ensures bigits == WithoutBorrow(old(bigits), i, borrow)
    {
      var borrow := borrow;
      ghost var out, mid := borrow, bigits;
      while borrow > 0
        invariant borrow <= out && (borrow == 0 ==> bigits == WithoutBorrow(mid, i, out))
        invariant borrow == 1 ==> bigits == mid || (mid[i] == 0 && bigits == mid[i := 0x1_0000_0000 - 1])
        decreases borrow, if borrow == 1 && bigits[i] == 0 then 1 else 0
      {
        borrow := SubtractBits(i, 0, borrow);
      }
    }

    /**
     * Subtracts other when the borrow can be absorbed by the first bigit above it. The loop
     * after the aligned part stays on one bigit, so a zero there is left as 2^32 - 2 and
     * absorbs the borrow it should have passed on.
     */
    method SubtractAligned(other: Bigint)
      requires this != other && Valid() && Normal(other.bigits)
      requires other.exp >= exp && Value() >= other.Value()
      modifies this`bigits
      ensures Valid()
      ensures Value() == old(Value()) - other.Value() + Leftover(old(bigits), exp, other.bigits, other.exp)
    {
      ghost var start := bigits;
      SubtrahendFits(start, exp, other.bigits, other.exp);
      var i, borrow := SubtractAll(other);
      ghost var mid := bigits;
      BorrowOut(start, mid, exp, other.bigits, other.exp, borrow);
      SubtractResult(start, mid, exp, other.bigits, other.exp, borrow);
      AbsorbBorrow(i, borrow);
      RemoveLeadingZeros();
    }

    /** The loop over the bigits of the subtrahend. */
    method SubtractAll(other: Bigint) returns (i: nat, borrow: uint32)
      requires this != other && exp <= other.exp && |other.bigits| + other.exp <= |bigits| + exp
      modifies this`bigits
      ensures |bigits| == |old(bigits)| && borrow <= 1 && i == |other.bigits| + other.exp - exp
      ensures Reduced(old(bigits), bigits, exp, other.bigits, other.exp, i, |other.bigits|, borrow)
    {
      ghost var start := bigits;
      borrow := 0;
      var j, n := 0, |other.bigits|;
      i := other.exp - exp;
      ShlZero(other.exp);
      while j != n
        invariant j <= n && i == other.exp - exp + j && borrow <= 1
        invariant |bigits| == |start|
        invariant Reduced(start, bigits, exp, other.bigits, other.exp, i, j, borrow)
      {
        ghost var before, carried := bigits, borrow;
        borrow := SubtractBits(i, other.bigits[j], borrow);
        ReducedStep(start, before, bigits, exp, other.bigits, other.exp, i, j, carried, borrow);
        i, j := i + 1, j + 1;
      }
    }

    method Multiply32(value: uint32)
      requires Valid() && value > 0
      modifies this`bigits
      ensures Valid() && Value() == old(Value()) * value
      ensures old(Normal(bigits)) ==> Normal(bigits)
    {
      ghost var start := bigits;
      var carry: uint32 := 0;
      var i, n := 0, |bigits|;
      ShlZero(exp);
      while i < n
        invariant i <= n && |bigits| == |start| == n
        invariant Scaled(start, bigits, exp, value, i, carry)
      {
        ghost var before, carried := bigits, carry;
        var digit: uint32;
        digit, carry := MultiplyWord(bigits[i], value, carry);
        bigits := bigits[i := digit];
        ScaledStep(start, before, bigits, exp, value, i, carried, carry);
        i := i + 1;
      }
      ScaledDone(start, bigits, exp, value, carry);
      if carry != 0 {
        MagnitudeSnoc(bigits, carry, exp);
        bigits := bigits + [carry];
      }
      ShlZero(n + exp);
    }

    method Multiply64(value: uint64)
      requires Valid() && value > 0
      modifies this`bigits
      ensures Valid() && Value() == old(Value()) * value
      ensures old(Normal(bigits)) ==> Normal(bigits)
    {
      ghost var start := bigits;
      var carry: uint64 := 0;
      var i, n := 0, |bigits|;
      ShlZero(exp);
      while i < n
        invariant i <= n && |bigits| == |start| == n
        invariant Scaled(start, bigits, exp, value, i, carry)
      {
        ghost var before, carried := bigits, carry;
        var digit: uint32;
        digit, carry := MultiplyDigit(bigits[i], value % 0x1_0000_0000, value / 0x1_0000_0000, carry);
        SplitProduct(before[i], value);
        bigits := bigits[i := digit];
        ScaledStep(start, before, bigits, exp, value, i, carried, carry);
        i := i + 1;
      }
      ScaledDone(start, bigits, exp, value, carry);
      ghost var total := Magnitude(start, exp) * value;
      while carry != 0
        invariant Magnitude(bigits, exp) + Shl(carry, |bigits| + exp) == total
        invariant carry == 0 ==> WellFormed(bigits) && (Normal(start) ==> Normal(bigits))
        decreases carry
      {
        MagnitudeSnoc(bigits, carry % 0x1_0000_0000, exp);
        CarrySplit(carry, |bigits| + exp);
        bigits := bigits + [carry % 0x1_0000_0000];
        carry := carry / 0x1_0000_0000;
      }
      ShlZero(|bigits| + exp);
    }

    method ShiftLeft(shift: nat)
      requires Valid()
      modifies this
      ensures Valid() && Value() == old(Value()) * Pow(2, shift)
      ensures exp == old(exp) + shift / 32
      ensures old(Normal(bigits)) ==> Normal(bigits)
    {
      ShiftSplit(bigits, exp, shift);
      exp := exp + shift / 32;
      if shift % 32 != 0 {
        ShiftWithinWord(Pow(2, shift % 32), Pow(2, 32 - shift % 32));
      }
    }

    /** The carry loop of the left shift; p is two to the shift and q two to what is left of the word. */
    method ShiftWithinWord(p: nat, q: nat)
      requires Valid() && p > 0 && q > 0 && p * q == 0x1_0000_0000
      modifies this`bigits
      ensures Valid() && Value() == old(Value()) * p
      ensures old(Normal(bigits)) ==> Normal(bigits)
    {
      ghost var start := bigits;
      var carry: uint32 := 0;
      var i, n := 0, |bigits|;
      ShlZero(exp);
      while i < n
        invariant i <= n && |bigits| == |start| == n && carry < p
        invariant Scaled(start, bigits, exp, p, i, carry)
      {
        ghost var before, carried := bigits, carry;
        var digit: uint32;
        digit, carry := ShiftDigit(bigits[i], p, q, carry);
        bigits := bigits[i := digit];
        ScaledStep(start, before, bigits, exp, p, i, carried, carry);
        i := i + 1;
      }
      ScaledDone(start, bigits, exp, p, carry);
      if carry != 0 {
        MagnitudeSnoc(bigits, carry, exp);
        bigits := bigits + [carry];
      }
      ShlZero(n + exp);
    }

    /** Lowers the exponent to other's by storing the low zeros explicitly. */
    method Align(other: Bigint)
      requires this != other
      modifies this
      ensures Value() == old(Value())
      ensures exp == Min(old(exp), other.exp)
      ensures old(exp) <= other.exp ==> bigits == old(bigits)
      ensures old(Normal(bigits)) ==> Normal(bigits)
    {
      ghost var start := bigits;
      var expDifference := exp - other.exp;
      if expDifference <= 0 {
        return;
      }
      MoveUp(expDifference);
      exp := exp - expDifference;
      AlignedValue(start, bigits, expDifference, exp);
    }

    /** Grows the array and moves every bigit up, from the top; the freed low places become zeros. */
    method MoveUp(distance: nat)
      modifies this`bigits
      ensures |bigits| == |old(bigits)| + distance
      ensures forall k :: 0 <= k < distance ==> bigits[k] == 0
      ensures forall k :: distance <= k < |bigits| ==> bigits[k] == old(bigits)[k - distance]
    {
      ghost var start := bigits;
      var numBigits := |bigits|;
      bigits := bigits + seq(distance, _ => 0);
      var i, j := numBigits - 1, numBigits - 1 + distance;
      while i >= 0
        invariant -1 <= i < numBigits && j == i + distance
        invariant |bigits| == numBigits + distance
        invariant forall k :: 0 <= k <= i ==> bigits[k] == start[k]
        invariant forall k :: j < k < |bigits| ==> bigits[k] == start[k - distance]
      {
        bigits := bigits[j := bigits[i]];
        i, j := i - 1, j - 1;
      }
      bigits := seq(distance, _ => 0) + bigits[distance..];
    }

    /**
     * Euclidean division by repeated subtraction: the remainder stays, the quotient is returned.
     * The one exception is a number equal to the divisor but stored with fewer bigits.
     */
    method DivmodAssign(divisor: Bigint) returns (quotient: int)
      requires this != divisor && Valid() && Normal(divisor.bigits)
      requires !Overshoots(bigits, exp, divisor.bigits, divisor.exp)
      requires Value() < 0x8000_0000 * divisor.Value()
      modifies this
      ensures Valid()
      ensures old(EqualityHidden(bigits, exp, divisor.bigits, divisor.exp)) ==>
                quotient == 0 && bigits == old(bigits) && exp == old(exp)
      ensures !old(EqualityHidden(bigits, exp, divisor.bigits, divisor.exp)) ==>
                quotient * divisor.Value() + Value() == old(Value()) && Value() < divisor.Value()
      ensures 0 <= quotient < 0x8000_0000
      ensures quotient == 0 ==> bigits == old(bigits) && exp == old(exp)
      ensures quotient > 0 ==> exp == Min(old(exp), divisor.exp)
    {
      CompareBelow(bigits, exp, divisor.bigits, divisor.exp);
      var order := Compare(this, divisor);
      if order < 0 {
        return 0;
      }
      ghost var v, d := Value(), divisor.Value();
      NormalIsPositive(divisor.bigits, divisor.exp);
      PositiveIsNormal(bigits, exp);
      Align(divisor);
      quotient := SubtractRepeatedly(divisor);
    }

    /** The do-while loop of the division. */
    method SubtractRepeatedly(divisor: Bigint) returns (quotient: int)
      requires this != divisor && Valid() && Normal(divisor.bigits) && exp <= divisor.exp
      requires divisor.Value() <= Value() < 0x8000_0000 * divisor.Value()
      modifies this`bigits
      ensures Valid() && 0 < quotient < 0x8000_0000
      ensures quotient * divisor.Value() + Value() == old(Value()) && Value() < divisor.Value()
    {
      ghost var v, d := Value(), divisor.Value();
      NormalIsPositive(divisor.bigits, divisor.exp);
      quotient := 0;
      while true
        invariant quotient >= 0 && Valid() && v == Times(quotient, d) + Value()
        invariant d <= Value() <= v
        decreases Value()
      {
        NoLeftover(bigits, exp, divisor.bigits, divisor.exp);
        SubtractAligned(divisor);
        quotient := quotient + 1;
        MagnitudeNonNegative(bigits, exp);
        CompareBelow(bigits, exp, divisor.bigits, divisor.exp);
        var order := Compare(this, divisor);
        if order < 0 {
          break;
        }
      }
      TimesIsProduct(quotient, d);
      QuotientBound(quotient, d, Value());
    }

    /** Stores the low word of a column and leaves the rest as the carry into the next. */
    method StoreColumn(n: seq<uint32>, c: nat, sum: Accumulator, ghost carry: nat)
      requires c < |bigits| && Carried(n, bigits, c, carry)
      requires sum.Value() == carry + Partial(n, c, |n|)
      modifies this`bigits, sum
      ensures |bigits| == old(|bigits|) && Carried(n, bigits, c + 1, sum.Value())
    {
      CarriedStep(n, bigits, c, carry, sum.Value() % 0x1_0000_0000, sum.Value() / 0x1_0000_0000);
      bigits := bigits[c := sum.Word()];
      sum.ShiftRight32();
    }

    /** Squares by columns of cross products, carried through a 128-bit accumulator. */
    method Square()
      requires Valid() && |bigits| < 0x4000_0000
      modifies this
      ensures Valid() && Value() == old(Value()) * old(Value())
      ensures exp == 2 * old(exp)
      ensures old(Normal(bigits)) ==> Normal(bigits)
    {
      var n := bigits;
      var numBigits := |n|;
      var numResultBigits := 2 * numBigits;
      bigits := seq(numResultBigits, _ => 0);
      var sum := new Accumulator();
      var bigitIndex := 0;
      ShlZero(0);
      while bigitIndex < numBigits
        invariant bigitIndex <= numBigits && |bigits| == numResultBigits && exp == old(exp)
        invariant Carried(n, bigits, bigitIndex, sum.Value())
      {
        ghost var carry := sum.Value();
        SumLowColumn(n, bigitIndex, sum);
        StoreColumn(n, bigitIndex, sum, carry);
        bigitIndex := bigitIndex + 1;
      }
      while bigitIndex < numResultBigits
        invariant numBigits <= bigitIndex <= numResultBigits && |bigits| == numResultBigits && exp == old(exp)
        invariant Carried(n, bigits, bigitIndex, sum.Value())
      {
        ghost var carry := sum.Value();
        SumHighColumn(n, bigitIndex, sum);
        StoreColumn(n, bigitIndex, sum, carry);
        bigitIndex := bigitIndex + 1;
      }
      ghost var all := bigits;
      RemoveLeadingZeros();
      SquareResult(n, all, bigits, sum.Value(), exp);
      exp := exp * 2;
    }

    /** One round of exponentiation: square, and multiply once more where the exponent has a bit. */
    method SquareAndMultiply(bit: bool, ghost done: nat)
      requires Normal(bigits) && exp == 0 && Value() == Pow(5, done) && done < 0x2000_0000
      modifies this
      ensures Normal(bigits) && exp == 0 && Value() == Pow(5, 2 * done + if bit then 1 else 0)
    {
      PowerFits(bigits, done);
      PowAdd(5, done, done);
      Square();
      if bit {
        Multiply32(5);
      }
    }

    /** Five to the power e, by scanning the bits of e from the top; 2^30 and above would overflow the mask. */
    method AssignPow5(e: nat)
      requires 0 < e < 0x4000_0000
      modifies this
      ensures Normal(bigits) && exp == 0 && Value() == Pow(5, e)
    {
      var bitmask := TopBit(e);
      ghost var weight: nat, done: nat := bitmask, 1;
      DivModUnique(e, weight, 1, e - weight);
      AssignWord(5);
      bitmask := bitmask / 2;
      while bitmask != 0
        invariant IsPowerOfTwo(weight) && bitmask == weight / 2 && done == e / weight
        invariant Normal(bigits) && exp == 0 && Value() == Pow(5, done)
        decreases weight
      {
        assert weight == 2 * bitmask;
        var bit := BitUnder(e, bitmask, done);
        SquareAndMultiply(bit, done);
        weight, bitmask, done := bitmask, bitmask / 2, 2 * done + if bit then 1 else 0;
      }
    }

    /** Ten to the power e: the power of five, shifted by the power of two. */
    method AssignPow10(e: nat)
      requires e < 0x4000_0000
      modifies this
      ensures Normal(bigits) && Value() == Pow(10, e)
      ensures exp == e / 32
    {
      if e == 0 {
        AssignWord(1);
        return;
      }
      AssignPow5(e);
      PowDistributes(5, 2, e);
      ShiftLeft(e);
    }
  }

  /** A zero stored with an exponent above the other number's top position. */
  predicate Overshoots(s: seq<uint32>, e: nat, t: seq<uint32>, f: nat) {
    s == [0] && 1 + e > |t| + f
  }

  method Compare(lhs: Bigint, rhs: Bigint) returns (r: int)
    ensures r == Comparison(lhs.bigits, lhs.exp, rhs.bigits, rhs.exp)
  {
    if lhs.NumBigits() != rhs.NumBigits() {
      return if lhs.NumBigits() > rhs.NumBigits() then 1 else -1;
    }
    var i, j := |lhs.bigits| - 1, |rhs.bigits| - 1;
    var end := if i - j < 0 then 0 else i - j;
    while i >= end
      invariant -1 <= i < |lhs.bigits| && -1 <= j < |rhs.bigits| && i - j == |lhs.bigits| - |rhs.bigits|
      invariant i >= end - 1
      invariant High(lhs.bigits, lhs.exp, i + 1 + lhs.exp) == High(rhs.bigits, rhs.exp, j + 1 + rhs.exp)
    {
      var lhsBigit, rhsBigit := lhs.bigits[i], rhs.bigits[j];
      if lhsBigit != rhsBigit {
        FirstDifference(lhs.bigits, lhs.exp, rhs.bigits, rhs.exp, i + lhs.exp);
        return if lhsBigit > rhsBigit then 1 else -1;
      }
      i, j := i - 1, j - 1;
    }
    SharedTop(lhs.bigits, lhs.exp, rhs.bigits, rhs.exp);
    if i != j {
      return if i > j then 1 else -1;
    }
    return 0;
  }

  lemma FirstDifference(s: seq<uint32>, e: nat, t: seq<uint32>, f: nat, p: nat)
    requires |s| + e == |t| + f && High(s, e, p + 1) == High(t, f, p + 1)
    ensures DigitAt(s, e, p) > DigitAt(t, f, p) ==> Comparison(s, e, t, f) == 1
    ensures DigitAt(s, e, p) < DigitAt(t, f, p) ==> Comparison(s, e, t, f) == -1
  {
    HighUnfold(s, e, p);
    HighUnfold(t, f, p);
    HighDecides(s, e, t, f, p);
    HighDecides(t, f, s, e, p);
  }

  /** Agreeing down to the higher exponent leaves only the low bigits of the longer number. */
  lemma SharedTop(s: seq<uint32>, e: nat, t: seq<uint32>, f: nat)
    requires |s| + e == |t| + f && High(s, e, Max(e, f)) == High(t, f, Max(e, f))
    ensures Comparison(s, e, t, f) == Sign(|s| - |t|)
  {
    var p := Max(e, f);
    HighLow(s, e, p);
    HighLow(t, f, p);
    LowBound(s, e, p);
    LowBound(t, f, p);
  }

  /**
   * For nonzero top bigits compare is the integer order, except that it calls two equal numbers
   * different exactly when one of them stores zeros below the other's lowest bigit.
   */
  lemma CompareIsOrder(s: seq<uint32>, e: nat, t: seq<uint32>, f: nat)
    requires Normal(s) && Normal(t)
    ensures Comparison(s, e, t, f) == Sign(Magnitude(s, e) - Magnitude(t, f))
            <==> !(|s| + e == |t| + f && (TrailsInZeros(s, t) || TrailsInZeros(t, s)))
  {
    if |s| + e > |t| + f {
      TopMonotone(s, e, t, f);
    } else if |s| + e < |t| + f {
      TopMonotone(t, f, s, e);
    } else if |s| > |t| {
      EqualIffTrailing(s, e, t, f);
    } else if |s| < |t| {
      EqualIffTrailing(t, f, s, e);
    }
  }

  lemma EqualIffTrailing(s: seq<uint32>, e: nat, t: seq<uint32>, f: nat)
    requires |s| + e == |t| + f && |s| > |t|
    ensures Magnitude(s, e) == Magnitude(t, f) <==> TrailsInZeros(s, t)
  {
    var d := |s| - |t|;
    if TrailsInZeros(s, t) {
      assert s == s[..d] + t;
      MagnitudePrepend(s[..d], t, e);
    }
    if Magnitude(s, e) == Magnitude(t, f) {
      forall k | 0 <= k < |s|
        ensures s[k] == if k < d then 0 else t[k - d]
      {
        MagnitudeDigitsUnique(s, e, t, f, k + e);
      }
    }
  }

  /** With zero stored at most as high as the other number, compare still tells which is smaller. */
  lemma CompareBelow(s: seq<uint32>, e: nat, t: seq<uint32>, f: nat)
    requires WellFormed(s) && Normal(t) && !Overshoots(s, e, t, f)
    ensures Comparison(s, e, t, f) < 0
            <==> Magnitude(s, e) < Magnitude(t, f) || (|s| + e == |t| + f && TrailsInZeros(t, s))
    ensures e <= f ==> (Comparison(s, e, t, f) < 0 <==> Magnitude(s, e) < Magnitude(t, f))
  {
    if Normal(s) {
      CompareIsOrder(s, e, t, f);
      if |s| + e == |t| + f && |t| > |s| {
        EqualIffTrailing(t, f, s, e);
      }
    } else {
      ZeroMagnitude(e);
      NormalIsPositive(t, f);
    }
  }

  /** A zero that overshoots is taken for the larger number, whatever that number is. */
  lemma CompareOvershoots(s: seq<uint32>, e: nat, t: seq<uint32>, f: nat)
    requires Normal(t) && Overshoots(s, e, t, f)
    ensures Comparison(s, e, t, f) == 1 && Magnitude(s, e) < Magnitude(t, f)
  {
    ZeroMagnitude(e);
    NormalIsPositive(t, f);
  }

  /** The sign of lhs1 + lhs2 - rhs, found from the top without forming the sum. */
  method AddCompare(lhs1: Bigint, lhs2: Bigint, rhs: Bigint) returns (r: int)
    requires lhs1.Valid() && lhs2.Valid() && Normal(rhs.bigits)
    ensures r == if Overshoots(lhs1.bigits, lhs1.exp, rhs.bigits, rhs.exp)
                    || Overshoots(lhs2.bigits, lhs2.exp, rhs.bigits, rhs.exp) then 1
                 else Sign(lhs1.Value() + lhs2.Value() - rhs.Value())
  {
    var maxLhsBigits := Max(lhs1.NumBigits(), lhs2.NumBigits());
    var numRhsBigits := rhs.NumBigits();
    if maxLhsBigits + 1 < numRhsBigits {
      SumTooShort(lhs1.bigits, lhs1.exp, lhs2.bigits, lhs2.exp, rhs.bigits, rhs.exp);
      return -1;
    }
    if maxLhsBigits > numRhsBigits {
      SumTooLong(lhs1.bigits, lhs1.exp, lhs2.bigits, lhs2.exp, rhs.bigits, rhs.exp);
      return 1;
    }
    var borrow: uint64 := 0;
    var minExp := Min(Min(lhs1.exp, lhs2.exp), rhs.exp);
    var i := numRhsBigits - 1;
    while i >= minExp
      invariant minExp - 1 <= i < numRhsBigits
      invariant 0 <= Deficit(lhs1, lhs2, rhs, i + 1) <= 1
      invariant borrow == Deficit(lhs1, lhs2, rhs, i + 1) * 0x1_0000_0000
    {
      DeficitStep(lhs1, lhs2, rhs, i);
      var sum: uint64 := (DigitAt(lhs1.bigits, lhs1.exp, i) as nat) + DigitAt(lhs2.bigits, lhs2.exp, i);
      var rhsBigit := DigitAt(rhs.bigits, rhs.exp, i);
      if sum > (rhsBigit as nat) + borrow {
        return 1;
      }
      borrow := (rhsBigit as nat) + borrow - sum;
      if borrow > 1 {
        return -1;
      }
      borrow := borrow * 0x1_0000_0000;
      i := i - 1;
    }
    DeficitAtBottom(lhs1, lhs2, rhs, minExp);
    return if borrow != 0 then -1 else 0;
  }

  /** How far the parts of lhs1 and lhs2 above position p stay below that of rhs. */
  ghost function Deficit(lhs1: Bigint, lhs2: Bigint, rhs: Bigint, p: nat): int
    reads lhs1, lhs2, rhs
  {
    High(rhs.bigits, rhs.exp, p) - High(lhs1.bigits, lhs1.exp, p) - High(lhs2.bigits, lhs2.exp, p)
  }

  lemma DeficitStep(lhs1: Bigint, lhs2: Bigint, rhs: Bigint, p: nat)
    ensures Deficit(lhs1, lhs2, rhs, p) == Deficit(lhs1, lhs2, rhs, p + 1) * 0x1_0000_0000
              + DigitAt(rhs.bigits, rhs.exp, p) - DigitAt(lhs1.bigits, lhs1.exp, p) - DigitAt(lhs2.bigits, lhs2.exp, p)
    ensures Deficit(lhs1, lhs2, rhs, p) < 0 ==> lhs1.Value() + lhs2.Value() > rhs.Value()
    ensures Deficit(lhs1, lhs2, rhs, p) > 1 ==> lhs1.Value() + lhs2.Value() < rhs.Value()
  {
    HighUnfold(lhs1.bigits, lhs1.exp, p);
    HighUnfold(lhs2.bigits, lhs2.exp, p);
    HighUnfold(rhs.bigits, rhs.exp, p);
    DeficitDecides(lhs1.bigits, lhs1.exp, lhs2.bigits, lhs2.exp, rhs.bigits, rhs.exp, p);
  }

  lemma DeficitDecides(s: seq<uint32>, e: nat, t: seq<uint32>, f: nat, u: seq<uint32>, g: nat, p: nat)
    ensures var d := High(u, g, p) - High(s, e, p) - High(t, f, p);
            && (d < 0 ==> Magnitude(s, e) + Magnitude(t, f) > Magnitude(u, g))
            && (d > 1 ==> Magnitude(s, e) + Magnitude(t, f) < Magnitude(u, g))
  {
    HighLow(s, e, p);
    HighLow(t, f, p);
    HighLow(u, g, p);
    LowBound(s, e, p);
    LowBound(t, f, p);
    LowBound(u, g, p);
    GapDecides(High(s, e, p), High(t, f, p), High(u, g, p), p);
  }

  lemma GapDecides(x: int, y: int, z: int, p: nat)
    ensures z < x + y ==> Shl(z, p) + B(p) <= Shl(x, p) + Shl(y, p)
    ensures z > x + y + 1 ==> Shl(x, p) + Shl(y, p) + 2 * B(p) <= Shl(z, p)
  {
    ShlAdd(x, y, p);
    if z < x + y {
      GapScales(z, x + y, 1, p);
    }
    if z > x + y + 1 {
      GapScales(x + y, z, 2, p);
    }
  }

  lemma GapScales(x: int, y: int, d: nat, p: nat)
    requires x + d <= y
    ensures Shl(x, p) + d * B(p) <= Shl(y, p)
  {
    ShlMonotone(x + d, y, p);
    ShlAdd(x, d, p);
    ShlTimes(1, d, p);
  }

  lemma DeficitAtBottom(lhs1: Bigint, lhs2: Bigint, rhs: Bigint, p: nat)
    requires p <= lhs1.exp && p <= lhs2.exp && p <= rhs.exp
    ensures Sign(lhs1.Value() + lhs2.Value() - rhs.Value()) == -Sign(Deficit(lhs1, lhs2, rhs, p))
  {
    HighLow(lhs1.bigits, lhs1.exp, p);
    HighLow(lhs2.bigits, lhs2.exp, p);
    HighLow(rhs.bigits, rhs.exp, p);
    var x, y, z: int := High(lhs1.bigits, lhs1.exp, p), High(lhs2.bigits, lhs2.exp, p), High(rhs.bigits, rhs.exp, p);
    ShlAdd(x, y, p);
    ShlMonotone(x + y, z, p);
    ShlMonotone(z, x + y, p);
  }

  lemma SumTooShort(s: seq<uint32>, e: nat, t: seq<uint32>, f: nat, u: seq<uint32>, g: nat)
    requires Normal(u) && |s| + e + 1 < |u| + g && |t| + f + 1 < |u| + g
    ensures Magnitude(s, e) + Magnitude(t, f) < Magnitude(u, g)
  {
    var m := |u| + g - 2;
    MagnitudeNonNegative(s, e);
    MagnitudeNonNegative(t, f);
    BMonotone(|s| + e, m);
    BMonotone(|t| + f, m);
    NormalIffLarge(u, g);
  }

  lemma SumTooLong(s: seq<uint32>, e: nat, t: seq<uint32>, f: nat, u: seq<uint32>, g: nat)
    requires WellFormed(s) && WellFormed(t) && Max(|s| + e, |t| + f) > |u| + g
    ensures Overshoots(s, e, u, g) || Overshoots(t, f, u, g) || Magnitude(s, e) + Magnitude(t, f) > Magnitude(u, g)
  {
    MagnitudeNonNegative(s, e);
    MagnitudeNonNegative(t, f);
    if |s| + e > |u| + g && Normal(s) {
      TopMonotone(s, e, u, g);
    }
    if |t| + f > |u| + g && Normal(t) {
      TopMonotone(t, f, u, g);
    }
  }

  lemma AlignedValue(s: seq<uint32>, r: seq<uint32>, d: nat, e: nat)
    requires |r| == |s| + d
    requires forall k :: 0 <= k < d ==> r[k] == 0
    requires forall k :: d <= k < |r| ==> r[k] == s[k - d]
    ensures Magnitude(r, e) == Magnitude(s, d + e)
    ensures Normal(s) ==> Normal(r)
  {
    assert r == r[..d] + s;
    MagnitudePrepend(r[..d], s, e);
  }

  lemma ZeroMagnitude(e: nat)
    ensures Magnitude([0], e) == 0
  {
    ShlZero(e);
    assert [0][..0] == [];
  }

  lemma PositiveIsNormal(s: seq<uint32>, e: nat)
    requires WellFormed(s) && Magnitude(s, e) > 0
    ensures Normal(s)
  {
    ZeroMagnitude(e);
  }

  lemma NormalIsPositive(s: seq<uint32>, e: nat)
    requires Normal(s)
    ensures Magnitude(s, e) > 0
  {
    NormalIffLarge(s, e);
    BMonotone(0, |s| - 1 + e);
  }

  /** A quotient that fits a word leaves at most one more bigit, and that one takes the borrow. */
  lemma NoLeftover(s: seq<uint32>, e: nat, t: seq<uint32>, f: nat)
    requires WellFormed(s) && Normal(t)
    requires Magnitude(t, f) <= Magnitude(s, e) < 0x8000_0000 * Magnitude(t, f)
    ensures Leftover(s, e, t, f) == 0
  {
    NormalIsPositive(t, f);
    PositiveIsNormal(s, e);
    OneMoreBigit(s, e, t, f);
    SubtrahendFits(s, e, t, f);
  }

  lemma QuotientBound(q: nat, d: nat, r: nat)
    requires q * d + r < 0x8000_0000 * d
    ensures q < 0x8000_0000
  {
    if q >= 0x8000_0000 {
      MulMonotone(0x8000_0000, q, d);
    }
  }

  lemma SubtrahendFits(s: seq<uint32>, e: nat, t: seq<uint32>, f: nat)
    requires |s| > 0 && Normal(t) && Magnitude(s, e) >= Magnitude(t, f)
    ensures |t| + f <= |s| + e
  {
    if |t| + f > |s| + e {
      TopMonotone(t, f, s, e);
    }
  }

  /** Below bigit i of s and bigit j of t, s less t is r, with a borrow out; above, r is still s. */
  ghost predicate Reduced(s: seq<uint32>, r: seq<uint32>, e: nat, t: seq<uint32>, f: nat, i: nat, j: nat, borrow: nat)
    requires i <= |s| == |r| && j <= |t| && i + e == j + f
  {
    && r[i..] == s[i..]
    && Low(r, e, i + e) == Low(s, e, i + e) - Low(t, f, i + e) + Shl(borrow, i + e)
  }

  lemma ReducedStep(s: seq<uint32>, r: seq<uint32>, r': seq<uint32>, e: nat, t: seq<uint32>, f: nat, i: nat, j: nat,
                    borrow: nat, borrow': nat)
    requires i < |s| == |r| == |r'| && j < |t| && i + e == j + f
    requires Reduced(s, r, e, t, f, i, j, borrow)
    requires r' == r[i := r'[i]]
    requires r'[i] - borrow' * 0x1_0000_0000 == r[i] - t[j] - borrow
    ensures Reduced(s, r', e, t, f, i + 1, j + 1, borrow')
  {
    assert r[i] == r[i..][0] == s[i];
    assert r'[i + 1..] == r[i..][1..] == s[i + 1..];
    var p, x: int := i + e, r'[i];
    LowStep(s, e, p);
    LowStep(r', e, p);
    LowStep(t, f, p);
    LowPrefix(r, r', e, p);
    ShlStep(borrow', p);
    ShlAdd(x, t[j], p);
    ShlAdd(x + t[j], borrow, p);
    ShlAdd(s[i], borrow' * 0x1_0000_0000, p);
  }

  function WithoutBorrow(s: seq<uint32>, i: nat, borrow: nat): seq<uint32>
    requires borrow > 0 ==> i < |s|
  {
    if borrow == 0 then s else s[i := if s[i] > 0 then s[i] - 1 else 0x1_0000_0000 - 2]
  }

  /** There is a borrow out of the aligned part exactly when that part is below the subtrahend. */
  lemma BorrowOut(s: seq<uint32>, r: seq<uint32>, e: nat, t: seq<uint32>, f: nat, borrow: nat)
    requires e <= |t| + f <= |s| + e && |s| == |r| && borrow <= 1 && |t| > 0
    requires Magnitude(s, e) >= Magnitude(t, f)
    requires Reduced(s, r, e, t, f, |t| + f - e, |t|, borrow)
    ensures borrow == 1 <==> Low(s, e, |t| + f) < Magnitude(t, f)
    ensures borrow == 1 ==> |t| + f < |s| + e
  {
    LowBound(r, e, |t| + f);
    ShlZero(|t| + f);
  }

  lemma SubtractResult(s: seq<uint32>, r: seq<uint32>, e: nat, t: seq<uint32>, f: nat, borrow: nat)
    requires e <= |t| + f <= |s| + e && |s| == |r| && borrow <= 1 && |t| > 0
    requires Reduced(s, r, e, t, f, |t| + f - e, |t|, borrow)
    requires borrow == 1 <==> Low(s, e, |t| + f) < Magnitude(t, f)
    requires borrow == 1 ==> |t| + f < |s| + e
    ensures Magnitude(WithoutBorrow(r, |t| + f - e, borrow), e) == Magnitude(s, e) - Magnitude(t, f)
              + Leftover(s, e, t, f)
  {
    var p := |t| + f;
    HighLow(s, e, p);
    HighLow(r, e, p);
    HighSuffix(s, r, e, p);
    ShlZero(p);
    if borrow == 1 {
      BorrowAbsorbed(r, e, p - e);
      assert r[p - e] == r[p - e..][0] == s[p - e];
    }
  }

  /** What the borrow loop takes off the number: one unit of its place, or of that less a whole bigit. */
  lemma BorrowAbsorbed(r: seq<uint32>, e: nat, i: nat)
    requires i < |r|
    ensures Magnitude(WithoutBorrow(r, i, 1), e)
         == Magnitude(r, e) - Shl(1, i + e) + if r[i] > 0 then 0 else Shl(0x1_0000_0000 - 1, i + e)
  {
    MagnitudeUpdate(r, e, i, if r[i] > 0 then r[i] - 1 else 0x1_0000_0000 - 2);
    ShlAdd(1, -1, i + e);
    ShlAdd(1, 0x1_0000_0000 - 2, i + e);
    ShlZero(i + e);
  }

  /** Below bigit i, r with the carry out of it is k times s; above, r is still s. */
  ghost predicate Scaled(s: seq<uint32>, r: seq<uint32>, e: nat, k: int, i: nat, carry: nat)
    requires i <= |s| == |r|
  {
    r[i..] == s[i..] && Low(r, e, i + e) + Shl(carry, i + e) == Low(s, e, i + e) * k
  }

  lemma ScaledStep(s: seq<uint32>, r: seq<uint32>, r': seq<uint32>, e: nat, k: int, i: nat, carry: nat, carry': nat)
    requires i < |s| == |r| == |r'|
    requires Scaled(s, r, e, k, i, carry)
    requires r' == r[i := r'[i]]
    requires r'[i] + carry' * 0x1_0000_0000 == r[i] * k + carry
    ensures Scaled(s, r', e, k, i + 1, carry')
  {
    assert r[i] == r[i..][0] == s[i];
    assert r'[i + 1..] == r[i..][1..] == s[i + 1..];
    var p := i + e;
    LowStep(s, e, p);
    LowStep(r', e, p);
    LowPrefix(r, r', e, p);
    ShlStep(carry', p);
    ShlAdd(r'[i], carry' * 0x1_0000_0000, p);
    ShlAdd(s[i] * k, carry, p);
    ShlTimes(s[i], k, p);
    DistributeOver(Low(s, e, p), Shl(s[i], p), k);
  }

  /** Without a carry left, a scaled number is complete and its top bigit is still right. */
  lemma ScaledDone(s: seq<uint32>, r: seq<uint32>, e: nat, k: int, carry: nat)
    requires |s| == |r| && k > 0
    requires Scaled(s, r, e, k, |s|, carry)
    ensures Magnitude(r, e) + Shl(carry, |s| + e) == Magnitude(s, e) * k
    ensures carry == 0 && WellFormed(s) ==> WellFormed(r) && (Normal(s) ==> Normal(r))
    ensures s == [0] ==> carry == 0
  {
    var p := |s| + e;
    ShlZero(p);
    ShlMonotone(0, carry, p);
    MagnitudeNonNegative(s, e);
    MagnitudeNonNegative(r, e);
    MulMonotone(1, k, Magnitude(s, e));
    if |s| > 0 {
      NormalIffLarge(s, e);
      NormalIffLarge(r, e);
    }
    if s == [0] {
      ShlZero(e);
      assert s[..0] == [];
      if r[0] != 0 {
        BMonotone(0, e);
      }
      assert r == [r[0]];
    }
  }

  /** Shifting a bigit left by less than a word splits it exactly between its place and the next. */
  method ShiftDigit(b: uint32, p: nat, q: nat, carry: uint32) returns (digit: uint32, carry': uint32)
    requires p * q == 0x1_0000_0000 && p > 0 && q > 0 && carry < p
    ensures carry' < p && digit + carry' * 0x1_0000_0000 == b * p + carry
  {
    ShiftDigitFits(b, p, q);
    carry' := b / q;
    digit := ((b as nat) * p) % 0x1_0000_0000 + carry;
  }

  lemma ShiftDigitFits(b: uint32, p: nat, q: nat)
    requires p * q == 0x1_0000_0000 && p > 0 && q > 0
    ensures (b * p) % 0x1_0000_0000 + p <= 0x1_0000_0000
    ensures (b * p) % 0x1_0000_0000 + (b / q) * 0x1_0000_0000 == b * p
    ensures b / q < p
  {
    var h, m := b / q, b % q;
    assert b == q * h + m;
    MulAssociative(p, q, h);
    DistributeOver(q * h, m, p);
    MulMonotone(m, q - 1, p);
    DistributeOver(q, -1, p);
    DivModUnique(b * p, 0x1_0000_0000, h, m * p);
    if h >= p {
      MulMonotone(p, h, q);
    }
  }

  /** One digit of the 32 x 32 bit product. */
  method MultiplyWord(b: uint32, value: uint32, carry: uint32) returns (digit: uint32, carry': uint32)
    ensures digit + carry' * 0x1_0000_0000 == b * value + carry
  {
    WordProduct(b, value);
    var result: uint64 := (b as nat) * value + carry;
    digit, carry' := result % 0x1_0000_0000, result / 0x1_0000_0000;
  }

  /** Neither intermediate of the 32 x 64 bit step overflows, and together they are the whole product. */
  lemma DoubleWord(x: nat, y: nat, carry: uint64, result: nat, carry': nat)
    requires x <= 0xFFFF_FFFE_0000_0001 && y <= 0xFFFF_FFFE_0000_0001
    requires result == x + carry % 0x1_0000_0000
    requires carry' == y + result / 0x1_0000_0000 + carry / 0x1_0000_0000
    ensures result < 0x1_0000_0000_0000_0000 && carry' < 0x1_0000_0000_0000_0000
    ensures result % 0x1_0000_0000 + carry' * 0x1_0000_0000 == x + y * 0x1_0000_0000 + carry
  {
  }

  /** One digit of the 32 x 64 bit product, by halves of the factor. */
  method MultiplyDigit(b: uint32, lower: uint32, upper: uint32, carry: uint64) returns (digit: uint32, carry': uint64)
    ensures digit + carry' * 0x1_0000_0000 == b * lower + (b * upper) * 0x1_0000_0000 + carry
  {
    WordProduct(b, lower);
    WordProduct(b, upper);
    var x, y: nat := (b as nat) * lower, (b as nat) * upper;
    var low := x + carry % 0x1_0000_0000;
    var high := y + low / 0x1_0000_0000 + carry / 0x1_0000_0000;
    DoubleWord(x, y, carry, low, high);
    var result: uint64 := low;
    digit, carry' := result % 0x1_0000_0000, high;
  }

  lemma SplitProduct(b: nat, value: uint64)
    ensures b * (value % 0x1_0000_0000) + (b * (value / 0x1_0000_0000)) * 0x1_0000_0000 == b * value
  {
    var lower, upper := value % 0x1_0000_0000, value / 0x1_0000_0000;
    assert value == upper * 0x1_0000_0000 + lower;
    DistributeOver(upper * 0x1_0000_0000, lower, b);
    MulAssociative(b, upper, 0x1_0000_0000);
  }

  /** A shift is a change of exponent followed by a shift of less than a word. */
  lemma ShiftSplit(s: seq<uint32>, e: nat, shift: nat)
    ensures Magnitude(s, e + shift / 32) * Pow(2, shift % 32) == Magnitude(s, e) * Pow(2, shift)
    ensures Pow(2, shift % 32) * Pow(2, 32 - shift % 32) == 0x1_0000_0000
    ensures Pow(2, shift % 32) > 0 && Pow(2, 32 - shift % 32) > 0
  {
    var q, r := shift / 32, shift % 32;
    MagnitudeIsShifted(s, e, q);
    ShiftIsPowerOfTwo(Magnitude(s, e), q, r);
    ShlTimes(Magnitude(s, e), Pow(2, r), q);
    PowAdd(2, r, 32 - r);
    PowersOfTwo();
    PowPositive(2, r);
    PowPositive(2, 32 - r);
  }

  /** The first c columns of n's square stand in r, up to a carry that the next column still takes. */
  ghost predicate Carried(n: seq<uint32>, r: seq<uint32>, c: nat, carry: nat)
    requires c <= |r|
  {
    && Low(r, 0, c) + Shl(carry, c) == Columns(n, c, |n|)
    && carry <= |n| * 0x1_0000_0000
  }

  /** The inner loop of square below the middle column: every row has a term. */
  method SumLowColumn(n: seq<uint32>, c: nat, sum: Accumulator)
    requires c < |n| < 0x4000_0000 && sum.Value() <= |n| * 0x1_0000_0000
    modifies sum
    ensures sum.Value() == old(sum.Value()) + Partial(n, c, |n|)
  {
    var i, j := 0, c;
    while j >= 0
      invariant i + j == c && -1 <= j
      invariant sum.Value() == old(sum.Value()) + Partial(n, c, i)
    {
      PartialFits(n, c, i, j, old(sum.Value()));
      sum.Add((n[i] as nat) * n[j]);
      i, j := i + 1, j - 1;
    }
    PartialTail(n, c, c + 1, |n|);
  }

  /** The inner loop of square from the middle column on: it starts at the first row with a term. */
  method SumHighColumn(n: seq<uint32>, c: nat, sum: Accumulator)
    requires |n| <= c < 2 * |n| && |n| < 0x4000_0000 && sum.Value() <= |n| * 0x1_0000_0000
    modifies sum
    ensures sum.Value() == old(sum.Value()) + Partial(n, c, |n|)
  {
    var j := |n| - 1;
    var i := c - j;
    PartialTail(n, c, 0, i);
    while i < |n|
      invariant i + j == c && 0 <= i <= |n|
      invariant sum.Value() == old(sum.Value()) + Partial(n, c, i)
    {
      PartialFits(n, c, i, j, old(sum.Value()));
      sum.Add((n[i] as nat) * n[j]);
      i, j := i + 1, j - 1;
    }
  }

  /** No column overflows the accumulator. */
  lemma PartialFits(n: seq<uint32>, c: nat, i: nat, j: nat, carry: nat)
    requires |n| < 0x4000_0000 && i < |n| && j < |n| && i + j == c && carry <= |n| * 0x1_0000_0000
    ensures Partial(n, c, i + 1) == Partial(n, c, i) + (n[i] as nat) * n[j]
    ensures carry + Partial(n, c, i + 1) < 0x1_0000_0000_0000_0000_0000_0000_0000_0000
    ensures (n[i] as nat) * n[j] < 0x1_0000_0000_0000_0000
  {
    PartialBound(n, c, i + 1);
    TermBound(n, c, i);
  }

  lemma CarriedStep(n: seq<uint32>, r: seq<uint32>, c: nat, carry: nat, digit: uint32, carry': nat)
    requires c < |r| && Carried(n, r, c, carry)
    requires digit + carry' * 0x1_0000_0000 == carry + Partial(n, c, |n|)
    ensures Carried(n, r[c := digit], c + 1, carry')
  {
    StoredColumn(n, r, c, carry, digit, carry', Partial(n, c, |n|));
    CarryBound(n, c, carry, digit, carry');
  }

  lemma StoredColumn(n: seq<uint32>, r: seq<uint32>, c: nat, carry: nat, digit: uint32, carry': nat, column: nat)
    requires c < |r| && column == Partial(n, c, |n|)
    requires digit + carry' * 0x1_0000_0000 == carry + column
    ensures Low(r[c := digit], 0, c + 1) + Shl(carry', c + 1) - Columns(n, c + 1, |n|)
         == Low(r, 0, c) + Shl(carry, c) - Columns(n, c, |n|)
  {
    LowAfterStore(r, c, digit);
    CarryOut(digit, carry', c);
    ShlAdd(carry, column, c);
  }

  lemma CarryOut(digit: int, carry: int, c: nat)
    ensures Shl(digit, c) + Shl(carry, c + 1) == Shl(digit + carry * 0x1_0000_0000, c)
  {
    ShlStep(carry, c);
    ShlAdd(digit, carry * 0x1_0000_0000, c);
  }

  lemma LowAfterStore(r: seq<uint32>, c: nat, x: uint32)
    requires c < |r|
    ensures Low(r[c := x], 0, c + 1) == Low(r, 0, c) + Shl(x, c)
  {
    LowStep(r[c := x], 0, c);
    LowPrefix(r, r[c := x], 0, c);
  }

  lemma CarryBound(n: seq<uint32>, c: nat, carry: nat, digit: nat, carry': nat)
    requires carry <= |n| * 0x1_0000_0000
    requires digit + carry' * 0x1_0000_0000 == carry + Partial(n, c, |n|)
    ensures carry' <= |n| * 0x1_0000_0000
  {
    PartialBound(n, c, |n|);
  }

  /** The last carry is zero: the square fits twice the bigits. */
  lemma SquareDone(n: seq<uint32>, r: seq<uint32>, carry: nat, e: nat)
    requires |r| == 2 * |n| && Carried(n, r, |r|, carry)
    ensures Magnitude(r, 2 * e) == Magnitude(n, e) * Magnitude(n, e)
    ensures Normal(n) ==> Magnitude(r, 2 * e) > 0
  {
    if Normal(n) {
      NormalIsPositive(n, e);
      MulPositive(Magnitude(n, e), Magnitude(n, e));
    }
    ColumnsAreSquare(n);
    LowBound(r, 0, |r|);
    var v, x := Val(n), Shl(Val(n), e);
    MagnitudeNonNegative(n, 0);
    assert v * v < B(|r|) by { SquareBound(v, |n|); }
    if carry > 0 {
      ShlMonotone(1, carry, |r|);
    }
    ShlZero(|r|);
    MagnitudeIsShifted(n, 0, e);
    MagnitudeIsShifted(r, 0, 2 * e);
    ShlShl(v * v, e, e);
    ShlTimes(v, v, e);
    ShlTimes(v, x, e);
  }

  lemma SquareResult(n: seq<uint32>, all: seq<uint32>, r: seq<uint32>, carry: nat, e: nat)
    requires |all| == 2 * |n| && Carried(n, all, |all|, carry)
    requires WellFormed(r) && r <= all && forall k :: |r| <= k < |all| ==> all[k] == 0
    ensures Magnitude(r, e * 2) == Magnitude(n, e) * Magnitude(n, e)
    ensures Normal(n) ==> Normal(r)
  {
    SquareDone(n, all, carry, e);
    assert r == all[..|r|];
    MagnitudeLeadingZeros(all, 2 * e, |r|);
    if Normal(n) {
      PositiveIsNormal(r, 2 * e);
    }
  }

  lemma SquareBound(v: nat, k: nat)
    requires v < B(k)
    ensures v * v < B(2 * k)
  {
    var b := B(k);
    BMonotone(0, k);
    MulStrict(v, b, b);
    MulMonotone(v, b, v);
    ShlTimes(1, b, k);
    ShlShl(1, k, k);
  }

  method TopBit(e: nat) returns (bitmask: nat)
    requires e > 0
    ensures IsPowerOfTwo(bitmask) && bitmask <= e < 2 * bitmask
  {
    bitmask := 1;
    while e >= bitmask
      invariant IsPowerOfTwo(bitmask) && bitmask / 2 <= e
      decreases e - bitmask
    {
      bitmask := bitmask * 2;
    }
    bitmask := bitmask / 2;
  }

  predicate IsPowerOfTwo(w: nat) {
    w == 1 || (w > 0 && w % 2 == 0 && IsPowerOfTwo(w / 2))
  }

  /** One step down the bits of e appends a bit to the part already read. */
  lemma NextBit(e: nat, b: nat)
    requires b > 0
    ensures e / b == 2 * (e / (2 * b)) + (e / b) % 2
    ensures e / (2 * b) <= e / 2
  {
    var h, r := e / (2 * b), e % (2 * b);
    assert e == h * (2 * b) + r;
    var bit := if r < b then 0 else 1;
    DivModUnique(e, b, 2 * h + bit, r - bit * b);
    MulMonotone(1, b, h);
  }

  /** The bit of e under the mask, behind the bits above it. */
  method BitUnder(e: nat, bitmask: nat, ghost done: nat) returns (bit: bool)
    requires bitmask > 0 && done == e / (2 * bitmask)
    ensures e / bitmask == 2 * done + (if bit then 1 else 0) && done <= e / 2
  {
    NextBit(e, bitmask);
    bit := (e / bitmask) % 2 != 0;
  }

  /** A power of five is short enough to be squared without overflowing the index. */
  lemma PowerFits(s: seq<uint32>, done: nat)
    requires Normal(s) && Val(s) == Pow(5, done) && done < 0x2000_0000
    ensures |s| < 0x4000_0000
  {
    NormalIffLarge(s, 0);
    PowBaseMonotone(5, 0x1_0000_0000, done);
    ShlIsProduct(1, done);
    if |s| - 1 > done {
      BMonotone(done + 1, |s| - 1);
      BMonotone(0, done);
    }
  }
}
