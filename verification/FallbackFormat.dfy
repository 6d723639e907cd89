/** fmt's exact digit generator: a variation of Steele and White's (FPP)^2 over big integers. */
module FallbackFormat {
  import opened Arithmetic
  import opened Limbs
  import opened Bigints
  import opened Decimal
  import opened FixedMode
  import opened ShortestMode

  function Up(x: int): nat {
    if x > 0 then x else 0
  }

  /** One unit in the last place of the significand, over the denominator below. */
  function Unit(e: int, exp10: int): int {
    Pow(2, Up(e)) * Pow(10, Up(-exp10))
  }

  /** The value f * 2^e is Numerator / Denominator * 10^exp10. */
  function Numerator(f: nat, e: int, exp10: int): int {
    f * Unit(e, exp10)
  }

  function Denominator(e: int, exp10: int): int {
    Pow(2, Up(-e)) * Pow(10, Up(exp10))
  }

  /** The numerator's exponent is at most the denominator's, so that their bigits stay aligned. */
  predicate StoredLow(e: int, exp10: int) {
    e < 0 || e / 32 <= exp10 / 32
  }

  /** What the callers of the generator provide: a significand with room for the shift, and a leading digit in range. */
  predicate Scaled(f: nat, e: int, exp10: int) {
    && 0 < f < 0x4000_0000_0000_0000
    && -0x2000_0000 < e < 0x2000_0000 && -0x2000_0000 < exp10 < 0x2000_0000
    && Numerator(f, e, exp10) < 10 * Denominator(e, exp10)
  }

  lemma UnitCases(e: int, exp10: int)
    ensures e >= 0 && exp10 >= 0 ==> Unit(e, exp10) == Pow(2, e) && Denominator(e, exp10) == Pow(10, exp10)
    ensures e < 0 && exp10 < 0 ==> Unit(e, exp10) == Pow(10, -exp10) && Denominator(e, exp10) == Pow(2, -e)
    ensures e < 0 && exp10 >= 0 ==> Unit(e, exp10) == 1 && Denominator(e, exp10) == Pow(2, -e) * Pow(10, exp10)
    ensures e >= 0 && exp10 < 0 ==> Denominator(e, exp10) == 1 && Unit(e, exp10) >= 10
  {
    if e >= 0 && exp10 < 0 {
      PowPositive(2, e);
      PowPositive(10, -exp10 - 1);
      MulMonotone(1, Pow(2, e), Pow(10, -exp10));
    }
  }

  /** A value of at least one has a nonnegative decimal exponent. */
  lemma IntegralExponent(f: nat, e: int, exp10: int)
    requires Scaled(f, e, exp10) && e >= 0
    ensures exp10 >= 0
  {
    UnitCases(e, exp10);
    if exp10 < 0 {
      MulMonotone(1, f, Unit(e, exp10));
    }
  }

  /** A value below ten to a negative power has enough negative binary exponent to align with it. */
  lemma SmallExponent(f: nat, e: int, exp10: int)
    requires Scaled(f, e, exp10) && e < 0 && exp10 < 0
    ensures -exp10 <= -e
  {
    UnitCases(e, exp10);
    var x, y := -exp10, -e;
    PowPositive(10, x);
    MulMonotone(1, f, Pow(10, x));
    assert Pow(10, x) == 10 * Pow(10, x - 1);
    PowBaseMonotone(2, 10, x - 1);
    if x > y {
      PowMonotone(2, y, x - 1);
    }
  }

  /** A power of ten times a small significand has no room for a large binary exponent. */
  lemma LargeNeverReaches(f: nat, e: nat, k: nat, shift: nat)
    requires 0 < f < 0x4000_0000_0000_0000 && e >= 32
    ensures NeverReaches(f * Pow(2, shift) * Pow(2, e), Pow(10, k) * Pow(2, shift))
  {
    forall i: nat
      ensures f * Pow(2, shift) * Pow(2, e) * Pow(10, i) != Pow(10, k) * Pow(2, shift)
    {
      PowPositive(2, shift);
      NotPowerOfTen(f, e, i, k);
      CommonFactor(f, Pow(2, shift), Pow(2, e), Pow(10, i), Pow(10, k));
    }
  }

  lemma CommonFactor(f: int, s: int, x: int, y: int, z: int)
    requires s > 0 && f * x * y != z
    ensures f * s * x * y != z * s
  {
    assert f * s * x == (f * x) * s;
    assert (f * x) * s * y == (f * x * y) * s;
    ProductOrder(f * x * y, z, s);
  }

  lemma NotPowerOfTen(f: nat, e: nat, i: nat, k: nat)
    requires 0 < f < 0x4000_0000_0000_0000 && e >= 32
    ensures f * Pow(2, e) * Pow(10, i) != Pow(10, k)
  {
    if k < i {
      TooLarge(f, e, i, k);
    } else {
      NotSmallerPower(f, e, k - i);
      CancelPower(f, e, i, k - i);
    }
  }

  lemma CancelPower(f: int, e: nat, i: nat, p: nat)
    requires f * Pow(2, e) != Pow(10, p)
    ensures f * Pow(2, e) * Pow(10, i) != Pow(10, p + i)
  {
    PowAdd(10, p, i);
    PowPositive(10, i);
    CancelLast(f, Pow(2, e), Pow(10, i), Pow(10, p), Pow(10, p + i));
  }

  lemma CancelLast(f: int, x: int, c: int, y: int, z: int)
    requires c > 0 && f * x != y && z == y * c
    ensures f * x * c != z
  {
    ProductOrder(f * x, y, c);
  }

  lemma NotSmallerPower(f: nat, e: nat, p: nat)
    requires 0 < f < 0x4000_0000_0000_0000 && e >= 32
    ensures f * Pow(2, e) != Pow(10, p)
  {
    PowDistributes(5, 2, p);
    if e > p {
      TooManyTwos(f, e, p);
    } else {
      TooManyFives(f, e, p);
    }
  }

  lemma TooLarge(f: nat, e: nat, i: nat, k: nat)
    requires f > 0 && k < i
    ensures f * Pow(2, e) * Pow(10, i) > Pow(10, k)
  {
    PowPositive(2, e);
    MulPositive(f, Pow(2, e));
    PowPositive(10, k);
    PowMonotone(10, k + 1, i);
    MulMonotone(1, f * Pow(2, e), Pow(10, i));
  }

  lemma TooManyTwos(f: nat, e: nat, p: nat)
    requires e > p
    ensures f * Pow(2, e) != Pow(5, p) * Pow(2, p)
  {
    PowPositive(2, p);
    PowAdd(2, e - p, p);
    FiveIsOdd(p);
    EvenTimes(f, Pow(2, e - p), Pow(2, e - p - 1));
    CancelFactor(f, Pow(2, e - p), Pow(2, p), Pow(5, p));
  }

  lemma EvenTimes(f: int, x: int, t: int)
    requires x == 2 * t
    ensures (f * x) % 2 == 0
  {
    assert f * x == 2 * (f * t);
  }

  lemma CancelFactor(f: int, x: int, c: int, y: int)
    requires c > 0 && f * x != y
    ensures f * (x * c) != y * c
  {
    MulAssociative(f, x, c);
    ProductOrder(f * x, y, c);
  }

  lemma TooManyFives(f: nat, e: nat, p: nat)
    requires 0 < f < 0x4000_0000_0000_0000 && 32 <= e <= p
    ensures f * Pow(2, e) < Pow(5, p) * Pow(2, p)
  {
    FiveTo32();
    PowMonotone(5, 32, p);
    PowPositive(2, p);
    PowMonotone(2, e, p);
    MulMonotone(Pow(2, e), Pow(2, p), f);
    MulStrict(f, Pow(5, p), Pow(2, p));
  }

  lemma {:induction false} FiveIsOdd(p: nat)
    ensures Pow(5, p) % 2 == 1
  {
    if p > 0 {
      FiveIsOdd(p - 1);
    }
  }

  lemma FiveTo32()
    ensures Pow(5, 32) >= 0x4000_0000_0000_0000
  {
    PowAdd(5, 16, 16);
    PowAdd(5, 8, 8);
    PowAdd(5, 4, 4);
  }

  /**
   * Sets up numerator and denominator so that numerator / denominator * 10^exp10 is the value, with
   * one or two extra factors of two that make the distances to the neighbouring boundaries integers.
   */
  method Prepare(f: nat, e: int, shift: nat, exp10: int)
    returns (numerator: Bigint, denominator: Bigint, lower: Bigint, upper: Bigint?)
    requires Scaled(f, e, exp10) && 1 <= shift <= 2
    ensures fresh({numerator, denominator, lower}) && lower !in {numerator, denominator}
    ensures shift == 1 <==> upper == null
    ensures upper != null ==> fresh(upper) && upper !in {numerator, denominator, lower} && Normal(upper.bigits)
    ensures Ready(numerator, denominator) && Normal(lower.bigits)
    ensures numerator.Value() == Numerator(f, e, exp10) * Pow(2, shift)
    ensures denominator.Value() == Denominator(e, exp10) * Pow(2, shift)
    ensures lower.Value() == Unit(e, exp10)
    ensures upper != null ==> upper.Value() == 2 * Unit(e, exp10)
    ensures lower.exp == numerator.exp && (StoredLow(e, exp10) <==> numerator.exp <= denominator.exp)
  {
    UnitCases(e, exp10);
    ShiftedFits(f, shift);
    var significand := f * Pow(2, shift);
    if e >= 0 {
      IntegralExponent(f, e, exp10);
      if e >= 32 {
        LargeNeverReaches(f, e, exp10, shift);
      }
      numerator, denominator, lower, upper := PrepareIntegral(significand, e, shift, exp10);
    } else if exp10 < 0 {
      SmallExponent(f, e, exp10);
      PowAdd(2, -e, shift);
      numerator, denominator, lower, upper := PrepareSmall(significand, -e, shift, -exp10);
    } else {
      numerator, denominator, lower, upper := PrepareFraction(significand, -e, shift, exp10);
    }
    Reorder(f, Pow(2, shift), Unit(e, exp10));
  }

  /** A new number: the word n, shifted left. */
  method ShiftedWord(n: uint64, shift: nat) returns (b: Bigint)
    requires n > 0
    ensures fresh(b) && Normal(b.bigits) && b.Value() == n * Pow(2, shift) && b.exp == shift / 32
  {
    b := new Bigint();
    b.AssignWord(n);
    b.ShiftLeft(shift);
  }

  /** A new number: a power of ten, shifted left. */
  method ShiftedPow10(x: nat, shift: nat) returns (b: Bigint)
    requires x < 0x4000_0000
    ensures fresh(b) && Normal(b.bigits) && b.Value() == Pow(10, x) * Pow(2, shift) && b.exp == x / 32 + shift / 32
  {
    b := new Bigint();
    b.AssignPow10(x);
    b.ShiftLeft(shift);
  }

  /** A new number: a copy, shifted left. */
  method ShiftedCopy(a: Bigint, shift: nat) returns (b: Bigint)
    requires Normal(a.bigits)
    ensures fresh(b) && Normal(b.bigits) && b.Value() == a.Value() * Pow(2, shift) && b.exp == a.exp + shift / 32
  {
    b := new Bigint();
    b.Assign(a);
    b.ShiftLeft(shift);
  }

  /** The distances to the boundaries, from a unit: the upper one is twice the lower one if it differs. */
  method Boundaries(unit: Bigint, shift: nat) returns (lower: Bigint, upper: Bigint?)
    requires Normal(unit.bigits) && 1 <= shift <= 2
    ensures fresh(lower) && Normal(lower.bigits) && lower.Value() == unit.Value() && lower.exp == unit.exp
    ensures shift == 1 <==> upper == null
    ensures upper != null ==>
              fresh(upper) && upper != lower && Normal(upper.bigits) && upper.Value() == 2 * unit.Value()
  {
    lower := ShiftedCopy(unit, 0);
    upper := null;
    if shift != 1 {
      upper := ShiftedCopy(unit, 1);
      assert Pow(2, 1) == 2;
    }
  }

  method PrepareIntegral(significand: uint64, e: nat, shift: nat, exp10: nat)
    returns (numerator: Bigint, denominator: Bigint, lower: Bigint, upper: Bigint?)
    requires significand > 0 && exp10 < 0x2000_0000 && 1 <= shift <= 2
    requires e >= 32 ==> NeverReaches(significand * Pow(2, e), Pow(10, exp10) * Pow(2, shift))
    ensures fresh({numerator, denominator, lower}) && lower !in {numerator, denominator}
    ensures shift == 1 <==> upper == null
    ensures upper != null ==> fresh(upper) && upper !in {numerator, denominator, lower} && Normal(upper.bigits)
    ensures Ready(numerator, denominator) && Normal(lower.bigits)
    ensures numerator.Value() == significand * Pow(2, e)
    ensures denominator.Value() == Pow(10, exp10) * Pow(2, shift)
    ensures lower.Value() == Pow(2, e)
    ensures upper != null ==> upper.Value() == 2 * Pow(2, e)
    ensures lower.exp == numerator.exp == e / 32 && denominator.exp == exp10 / 32
  {
    numerator := ShiftedWord(significand, e);
    lower := ShiftedWord(1, e);
    upper := null;
    if shift != 1 {
      upper := ShiftedWord(1, e + 1);
    }
    denominator := ShiftedPow10(exp10, shift);
    NormalIsPositive(numerator.bigits, numerator.exp);
  }

  lemma Reorder(a: int, b: int, c: int)
    ensures a * b * c == a * c * b && c * (a * b) == a * c * b
  {
    assert a * b * c == a * (b * c);
  }

  /** The shifted significand is still one word. */
  lemma ShiftedFits(f: nat, shift: nat)
    requires 0 < f < 0x4000_0000_0000_0000 && 1 <= shift <= 2
    ensures Pow(2, shift) == (if shift == 1 then 2 else 4)
    ensures 0 < f * Pow(2, shift) < 0x1_0000_0000_0000_0000
  {
    assert Pow(2, 1) == 2 && Pow(2, 2) == 4;
  }

  method PrepareSmall(significand: uint64, y: nat, shift: nat, x: nat)
    returns (numerator: Bigint, denominator: Bigint, lower: Bigint, upper: Bigint?)
    requires significand > 0 && 0 < x <= y < 0x2000_0000 && 1 <= shift <= 2
    ensures fresh({numerator, denominator, lower}) && lower !in {numerator, denominator}
    ensures shift == 1 <==> upper == null
    ensures upper != null ==> fresh(upper) && upper !in {numerator, denominator, lower} && Normal(upper.bigits)
    ensures Ready(numerator, denominator) && Normal(lower.bigits)
    ensures numerator.Value() == significand * Pow(10, x)
    ensures denominator.Value() == Pow(2, y + shift)
    ensures lower.Value() == Pow(10, x)
    ensures upper != null ==> upper.Value() == 2 * Pow(10, x)
    ensures lower.exp == numerator.exp <= denominator.exp
  {
    numerator := new Bigint();
    numerator.AssignPow10(x);
    lower, upper := Boundaries(numerator, shift);
    numerator.Multiply64(significand);
    NormalIsPositive(numerator.bigits, numerator.exp);
    denominator := ShiftedWord(1, y + shift);
  }

  method PrepareFraction(significand: uint64, y: nat, shift: nat, exp10: nat)
    returns (numerator: Bigint, denominator: Bigint, lower: Bigint, upper: Bigint?)
    requires significand > 0 && 0 < y < 0x2000_0000 && exp10 < 0x2000_0000 && 1 <= shift <= 2
    ensures fresh({numerator, denominator, lower}) && lower !in {numerator, denominator}
    ensures shift == 1 <==> upper == null
    ensures upper != null ==> fresh(upper) && upper !in {numerator, denominator, lower} && Normal(upper.bigits)
    ensures Ready(numerator, denominator) && Normal(lower.bigits)
    ensures numerator.Value() == significand
    ensures denominator.Value() == Pow(2, y) * Pow(10, exp10) * Pow(2, shift)
    ensures lower.Value() == 1
    ensures upper != null ==> upper.Value() == 2
    ensures lower.exp == numerator.exp <= denominator.exp
  {
    numerator := ShiftedWord(significand, 0);
    denominator := ShiftedPow10(exp10, shift + y);
    lower := ShiftedWord(1, 0);
    upper := null;
    if shift != 1 {
      upper := ShiftedWord(2, 0);
    }
    PowAdd(2, y, shift);
    Reorder(Pow(2, y), Pow(2, shift), Pow(10, exp10));
  }

  function Shift(predecessorCloser: bool): nat {
    if predecessorCloser then 2 else 1
  }

  /** The distance to the upper boundary, where Unit is the distance to the lower one. */
  function UpperUnit(e: int, exp10: int, predecessorCloser: bool): int {
    if predecessorCloser then 2 * Unit(e, exp10) else Unit(e, exp10)
  }

  lemma SpecPositive(f: nat, e: int, exp10: int)
    ensures Unit(e, exp10) > 0 && Denominator(e, exp10) > 0 && Numerator(f, e, exp10) >= 0
  {
    PowPositive(2, Up(e));
    PowPositive(10, Up(-exp10));
    MulPositive(Pow(2, Up(e)), Pow(10, Up(-exp10)));
    PowPositive(2, Up(-e));
    PowPositive(10, Up(exp10));
    MulPositive(Pow(2, Up(-e)), Pow(10, Up(exp10)));
    MulMonotone(0, f, Unit(e, exp10));
  }

  /** The decimal digits wanted of the value: its scaled quotient, rounded half to even. */
  ghost function Wanted(f: nat, e: int, exp10: int, numDigits: nat): int {
    SpecPositive(f, e, exp10);
    PowPositive(10, numDigits);
    MulMonotone(0, Numerator(f, e, exp10), Pow(10, numDigits));
    RoundHalfEven(Numerator(f, e, exp10) * Pow(10, numDigits), 10 * Denominator(e, exp10))
  }

  /**
   * Formats f * 2^e. With numDigits >= 0 the digits are the value at that many digits below 10^(exp10 + 1),
   * rounded half to even; with numDigits < 0 they are the shortest in the rounding interval.
   */
  method Format(f: nat, e: int, predecessorCloser: bool, numDigits: int, exp10: int)
    returns (buf: seq<char>, exp10': int)
    requires Scaled(f, e, exp10)
    requires numDigits < 0 ==>
               !IsHigh(Numerator(f, e, exp10) * Pow(2, Shift(predecessorCloser)),
                       UpperUnit(e, exp10, predecessorCloser),
                       10 * (Denominator(e, exp10) * Pow(2, Shift(predecessorCloser))), f % 2 == 0)
    ensures AllDigits(buf)
    ensures |buf| == if numDigits < 0 then exp10 - exp10' + 1 else if numDigits == 0 then 1 else numDigits
    ensures numDigits >= 0 ==>
              && exp10 - (numDigits - 1) <= exp10' <= exp10 - (numDigits - 1) + (if numDigits == 0 then 0 else 1)
              && DigitsValue(buf) * (if exp10' == exp10 - (numDigits - 1) then 1 else 10)
                 == Wanted(f, e, exp10, numDigits)
    ensures numDigits < 0 ==>
              |buf| > 0 && IsShortest(DigitsValue(buf), |buf| - 1,
                Numerator(f, e, exp10) * Pow(2, Shift(predecessorCloser)),
                Denominator(e, exp10) * Pow(2, Shift(predecessorCloser)),
                Unit(e, exp10), UpperUnit(e, exp10, predecessorCloser),
                f % 2 == 0 && StoredLow(e, exp10), f % 2 == 0)
  {
    var shift := Shift(predecessorCloser);
    var numerator, denominator, lower, upper := Prepare(f, e, shift, exp10);
    PreparedOrder(f, e, exp10, shift);
    if numDigits < 0 {
      var up: Bigint := if upper == null then lower else upper;
      buf, exp10' := ShortestDigits(numerator, denominator, lower, up, f % 2 == 0, exp10);
      return;
    }
    WantedFixed(f, e, exp10, numDigits, Pow(2, shift));
    buf, exp10' := FixedDigits(numerator, denominator, numDigits, exp10);
  }

  /** The factor of two changes neither the order nor the quotient. */
  lemma PreparedOrder(f: nat, e: int, exp10: int, shift: nat)
    requires Scaled(f, e, exp10) && 1 <= shift <= 2
    ensures Numerator(f, e, exp10) * Pow(2, shift) < 10 * (Denominator(e, exp10) * Pow(2, shift))
    ensures Numerator(f, e, exp10) * Pow(2, shift) > Unit(e, exp10)
  {
    SpecPositive(f, e, exp10);
    ShiftedFits(f, shift);
    MulMonotone(1, f, Unit(e, exp10));
  }

  lemma WantedFixed(f: nat, e: int, exp10: int, numDigits: nat, c: nat)
    requires c > 0
    ensures Denominator(e, exp10) * c > 0 && Numerator(f, e, exp10) * c >= 0
    ensures numDigits > 0 ==> Numerator(f, e, exp10) * c * Pow(10, numDigits - 1) >= 0
    ensures Wanted(f, e, exp10, numDigits) ==
              if numDigits == 0 then RoundHalfEven(Numerator(f, e, exp10) * c, 10 * (Denominator(e, exp10) * c))
              else RoundHalfEven(Numerator(f, e, exp10) * c * Pow(10, numDigits - 1), Denominator(e, exp10) * c)
  {
    SpecPositive(f, e, exp10);
    var n, d := Numerator(f, e, exp10), Denominator(e, exp10);
    MulPositive(d, c);
    MulMonotone(0, n, c);
    if numDigits == 0 {
      RoundHalfEvenScales(n, 10 * d, c);
      MulAssociative(10, d, c);
      assert n * Pow(10, 0) == n;
    } else {
      PowPositive(10, numDigits - 1);
      RoundingScales(n, d, Pow(10, numDigits - 1), c);
    }
  }

  lemma RoundingScales(n: nat, d: nat, p: nat, c: nat)
    requires d > 0 && p > 0 && c > 0
    ensures n * c * p >= 0 && d * c > 0 && n * (10 * p) >= 0
    ensures RoundHalfEven(n * c * p, d * c) == RoundHalfEven(n * (10 * p), 10 * d)
  {
    MulMonotone(0, n, p);
    Reorder(n, c, p);
    MulMonotone(0, n * p, c);
    RoundHalfEvenScales(n * p, d, c);
    RoundHalfEvenScales(n * p, d, 10);
    MulAssociative(n, p, 10);
  }
}
