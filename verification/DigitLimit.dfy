/** The limit on the digits of fixed notation, which counts decimals: where it costs some of them. */
module DigitLimit {
  import opened Arithmetic
  import opened Decimal
  import opened FallbackFormat
  import opened FormatFloat

  /** All p decimals of v * 2^e as a whole number, where p reaches to the last one. */
  function AllDecimals(v: nat, e: int, p: nat): int
    requires Up(-e) <= p
  {
    (v * (Pow(2, Up(e)) * Pow(5, Up(-e)))) * Pow(10, p - Up(-e))
  }

  lemma RoundingIsExact(v: nat, e: int, p: nat)
    requires Up(-e) <= p
    ensures RoundedAt(v, e, 0 - p) == AllDecimals(v, e, p)
  {
    var u := Up(-e);
    SpecPositive(v, e, 0 - p);
    PowDistributes(5, 2, u);
    PowAdd(10, u, p - u);
    assert Pow(10, 0) == 1;
    Rearranged(v, Pow(2, Up(e)), Pow(5, u), Pow(2, u), Pow(10, p - u));
    ExactQuotient(Numerator(v, e, 0 - p), Denominator(e, 0 - p), AllDecimals(v, e, p));
  }

  lemma Rearranged(v: int, a: int, b: int, c: int, d: int)
    ensures v * (a * ((b * c) * d)) == ((v * (a * b)) * d) * c
  {
    MulAssociative(b, c, d);
    assert a * ((b * c) * d) == ((a * b) * d) * c;
    assert v * (((a * b) * d) * c) == ((v * (a * b)) * d) * c;
  }

  lemma ExactQuotient(a: nat, b: nat, w: int)
    requires b > 0 && a == w * b
    ensures RoundHalfEven(a, b) == w
  {
    RoundHalfEvenIsNearest(a, b, w);
  }

  /** Values with few enough binary places have no decimals beyond the limit. */
  lemma LimitHarmless(v: nat, e: int, p: nat)
    requires e >= -767 && p > MAX_DOUBLE_DIGITS
    ensures Tenfold(RoundedAt(v, e, -767), p - MAX_DOUBLE_DIGITS) == RoundedAt(v, e, 0 - p)
  {
    var u := Up(-e);
    RoundingIsExact(v, e, 767);
    RoundingIsExact(v, e, p);
    TenfoldIsProduct(RoundedAt(v, e, -767), p - 767);
    PowAdd(10, 767 - u, p - 767);
    MulAssociative(v * (Pow(2, Up(e)) * Pow(5, u)), Pow(10, 767 - u), Pow(10, p - 767));
  }

  /**
   * Exactly when the limit costs no decimals: for a number v * 2^e in lowest terms, and more decimals wanted than the
   * limit and as many as the number has, if it has no more than the limit.
   */
  lemma LimitHarmlessIff(v: nat, e: int, p: nat)
    requires v % 2 == 1 && p > MAX_DOUBLE_DIGITS && p >= -e
    ensures Tenfold(RoundedAt(v, e, -767), p - MAX_DOUBLE_DIGITS) == RoundedAt(v, e, 0 - p) <==> e >= -767
  {
    if e >= -767 {
      LimitHarmless(v, e, p);
    } else {
      RoundingIsExact(v, e, p);
      var shown, u := RoundedAt(v, e, -767), Up(-e);
      TenfoldIsProduct(shown, p - 767);
      PowAdd(10, u - 767, p - u);
      OddNotTens(v, u, shown, u - 767, p - u);
    }
  }

  /** A product of odd numbers has fewer zeros at its end than a number with more tens. */
  lemma OddNotTens(v: nat, u: nat, shown: int, more: nat, tens: nat)
    requires v % 2 == 1 && more > 0
    ensures (v * (1 * Pow(5, u))) * Pow(10, tens) != shown * (Pow(10, more) * Pow(10, tens))
  {
    FiveIsOdd(u);
    OddTimesOdd(v, Pow(5, u));
    EvenTimes(shown, Pow(10, more), 5 * Pow(10, more - 1));
    PowPositive(10, tens);
    if (v * Pow(5, u)) * Pow(10, tens) == (shown * Pow(10, more)) * Pow(10, tens) {
      ProductOrder(v * Pow(5, u), shown * Pow(10, more), Pow(10, tens));
    }
    MulAssociative(shown, Pow(10, more), Pow(10, tens));
  }

  lemma OddTimesOdd(a: nat, b: nat)
    requires a % 2 == 1 && b % 2 == 1
    ensures (a * b) % 2 == 1
  {
    assert a * b == 2 * ((a / 2) * b) + b;
  }
}
