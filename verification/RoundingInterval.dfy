/**
 * How the shortest mode's result relates to the rounding interval that the algorithm is meant to use:
 * both ends included exactly for an even significand.
 */
module RoundingInterval {
  import opened Arithmetic
  import opened Decimal
  import opened ShortestMode
  import opened FallbackFormat

  /** Including the lower end adds that one point to the interval, and nothing else. */
  lemma ClosingLowEnd(d: nat, a: int, l: int, u: int, highClosed: bool)
    requires d > 0 && l > 0 && u > 0
    ensures NoneFits(d, a, l, u, true, highClosed) <==> NoneFits(d, a, l, u, false, highClosed) && (a - l) % d != 0
  {
    if (a - l) % d == 0 {
      var k := (a - l) / d;
      assert k * d == a - l;
      assert Fits(k, d, a, l, u, true, highClosed);
    }
    if NoneFits(d, a, l, u, false, highClosed) && (a - l) % d != 0 {
      forall k: int
        ensures !Fits(k, d, a, l, u, true, highClosed)
      {
        assert !Fits(k, d, a, l, u, false, highClosed);
        if k * d == a - l {
          DivModUnique(a - l, d, k, 0);
        }
      }
    }
    if NoneFits(d, a, l, u, true, highClosed) {
      forall k: int
        ensures !Fits(k, d, a, l, u, false, highClosed)
      {
        assert !Fits(k, d, a, l, u, true, highClosed);
      }
    }
  }

  /**
   * The lower end of the interval is a decimal with j digits behind the first, and no decimal of that many digits is
   * inside: it is then the only one there, and shorter than any inside.
   */
  ghost predicate LowEndAlone(n: int, d: int, l: int, u: int, highClosed: bool, j: nat) {
    && d > 0 && (Tenfold(n, j) - Tenfold(l, j)) % d == 0
    && NoneFits(d, Tenfold(n, j), Tenfold(l, j), Tenfold(u, j), false, highClosed)
  }

  /**
   * What is written lies in the rounding interval. A shorter decimal does too exactly for an even significand whose
   * numerator is stored above the denominator, and whose interval has a decimal for its lower end that is shorter
   * than all inside.
   */
  lemma ShortestUnlessLowEndHit(m: int, i: nat, n: int, d: nat, l: int, u: int, even: bool, storedLow: bool)
    requires d > 0 && u > 0 && 0 < l < n < 10 * d
    requires IsShortest(m, i, n, d, l, u, even && storedLow, even)
    ensures Fits(m, d, Tenfold(n, i), Tenfold(l, i), Tenfold(u, i), even, even)
    ensures NoneFits(10 * d, Tenfold(n, i), Tenfold(l, i), Tenfold(u, i), even, even)
            <==> !(even && !storedLow && exists j :: LowEndAlone(n, d, l, u, even, j))
  {
    TenfoldPositive(l, i);
    TenfoldPositive(u, i);
    ClosingLowEnd(10 * d, Tenfold(n, i), Tenfold(l, i), Tenfold(u, i), even);
    if even && !storedLow {
      if (Tenfold(n, i) - Tenfold(l, i)) % (10 * d) == 0 {
        HitIsAlone(i, n, d, l, u, even);
      }
      if j :| LowEndAlone(n, d, l, u, even, j) {
        AloneIsHit(m, i, j, n, d, l, u, even);
      }
    }
  }

  /** A shorter decimal on the lower end is alone one place earlier. */
  lemma HitIsAlone(i: nat, n: int, d: nat, l: int, u: int, highClosed: bool)
    requires d > 0 && 0 < l < n < 10 * d && (Tenfold(n, i) - Tenfold(l, i)) % (10 * d) == 0
    requires NoneFits(10 * d, Tenfold(n, i), Tenfold(l, i), Tenfold(u, i), false, highClosed)
    ensures i > 0 && LowEndAlone(n, d, l, u, highClosed, i - 1)
  {
    if i == 0 {
      DivModUnique(n - l, 10 * d, 0, n - l);
      assert false;
    }
    TenthOfMultiple(Tenfold(n, i - 1) - Tenfold(l, i - 1), d);
    NoneFitsTenth(d, Tenfold(n, i - 1), Tenfold(l, i - 1), Tenfold(u, i - 1), highClosed);
  }

  lemma TenthOfMultiple(x: int, d: nat)
    requires d > 0 && (10 * x) % (10 * d) == 0
    ensures x % d == 0
  {
    var y, e := 10 * x, 10 * d;
    var q := y / e;
    assert y == q * e;
    CancelTen(x, q, d, e);
    DivModUnique(x, d, q, 0);
  }

  lemma CancelTen(x: int, q: int, d: int, e: int)
    requires 10 * x == q * e && e == 10 * d
    ensures x == q * d
  {
    assert q * (10 * d) == 10 * (q * d);
  }

  lemma NoneFitsTenth(d: int, a: int, l: int, u: int, highClosed: bool)
    requires NoneFits(10 * d, 10 * a, 10 * l, 10 * u, false, highClosed)
    ensures NoneFits(d, a, l, u, false, highClosed)
  {
    forall k: int
      ensures !Fits(k, d, a, l, u, false, highClosed)
    {
      assert !Fits(k, 10 * d, 10 * a, 10 * l, 10 * u, false, highClosed);
      assert k * (10 * d) == 10 * (k * d);
    }
  }

  /** Where the lower end is alone, it is a shorter decimal than any result. */
  lemma AloneIsHit(m: int, i: nat, j: nat, n: int, d: nat, l: int, u: int, highClosed: bool)
    requires LowEndAlone(n, d, l, u, highClosed, j)
    requires Fits(m, d, Tenfold(n, i), Tenfold(l, i), Tenfold(u, i), false, highClosed)
    ensures j < i && (Tenfold(n, i) - Tenfold(l, i)) % (10 * d) == 0
  {
    if i <= j {
      FitsTenfold(m, d, n, l, u, false, highClosed, i, j - i);
    }
    MultipleStays(n, l, d, j, i - 1);
    TenTimesMultiple(Tenfold(n, i - 1) - Tenfold(l, i - 1), d);
  }

  lemma {:induction false} MultipleStays(n: int, l: int, d: nat, j: nat, i: nat)
    requires d > 0 && (Tenfold(n, j) - Tenfold(l, j)) % d == 0 && j <= i
    ensures (Tenfold(n, i) - Tenfold(l, i)) % d == 0
  {
    if j < i {
      MultipleStays(n, l, d, j, i - 1);
      TenTimesMultiple(Tenfold(n, i - 1) - Tenfold(l, i - 1), d);
    }
  }

  lemma TenTimesMultiple(x: int, d: nat)
    requires d > 0 && x % d == 0
    ensures (10 * x) % d == 0 && (10 * x) % (10 * d) == 0
  {
    var q := x / d;
    assert 10 * x == (10 * q) * d == q * (10 * d);
    DivModUnique(10 * x, d, 10 * q, 0);
    DivModUnique(10 * x, 10 * d, q, 0);
  }

  lemma {:induction false} TenfoldPositive(x: int, i: nat)
    requires x > 0
    ensures Tenfold(x, i) > 0
  {
    if i > 0 {
      TenfoldPositive(x, i - 1);
    }
  }

  lemma {:induction false} FitsTenfold(
    m: int, d: int, n: int, l: int, u: int, lowClosed: bool, highClosed: bool, i: nat, j: nat)
    requires Fits(m, d, Tenfold(n, i), Tenfold(l, i), Tenfold(u, i), lowClosed, highClosed)
    ensures Fits(Tenfold(m, j), d, Tenfold(n, i + j), Tenfold(l, i + j), Tenfold(u, i + j), lowClosed, highClosed)
  {
    if j > 0 {
      FitsTenfold(m, d, n, l, u, lowClosed, highClosed, i, j - 1);
      var k := Tenfold(m, j - 1);
      assert (10 * k) * d == 10 * (k * d);
    }
  }

  const SIGNIFICAND: nat := 4882812514648438

  lemma SignificandConstants()
    ensures Pow(2, 1) == 2 && Pow(2, 32) == 0x1_0000_0000 && Pow(10, 0) == 1
    ensures Pow(10, 25) == 10000000000000000000000000
    ensures Pow(10, 15) == 1000000000000000
  {
    PowAdd(2, 16, 16);
    PowAdd(2, 8, 8);
    PowAdd(10, 15, 10);
    PowAdd(10, 10, 5);
    PowAdd(10, 5, 5);
  }

  /**
   * The exception occurs: for this even significand with exponent 32 the 16-digit number
   * 2097152006291456 * 10^10 is the lower boundary, hence in the rounding interval, and yet
   * every result the shortest mode can give has more than 16 digits.
   */
  lemma LowEndMissed(m: int, i: nat)
    requires IsShortest(m, i, Numerator(SIGNIFICAND, 32, 25) * Pow(2, 1), Denominator(32, 25) * Pow(2, 1),
                        Unit(32, 25), Unit(32, 25), false, true)
    ensures Scaled(SIGNIFICAND, 32, 25) && SIGNIFICAND % 2 == 0 && !StoredLow(32, 25)
    ensures Fits(2097152006291456, Denominator(32, 25) * Pow(2, 1),
                 Tenfold(Numerator(SIGNIFICAND, 32, 25) * Pow(2, 1), 15),
                 Tenfold(Unit(32, 25), 15), Tenfold(Unit(32, 25), 15), true, true)
    ensures i > 15
  {
    SignificandConstants();
    UnitCases(32, 25);
    var n, d, l := Numerator(SIGNIFICAND, 32, 25) * 2, Denominator(32, 25) * 2, Unit(32, 25);
    TenfoldIsProduct(n, 15);
    TenfoldIsProduct(l, 15);
    if i <= 15 {
      FitsTenfold(m, d, n, l, l, false, true, i, 15 - i);
    }
  }
}
