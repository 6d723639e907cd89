/** The fast digit generator, when it does not give up, agrees with the exact one. */
module FastPath {
  import opened Arithmetic
  import opened Decimal
  import opened Grisu
  import opened FallbackFormat

  /** The number of units of the last place, as a fraction, when the scaled value is num / den. */
  function Dividend(num: int, exp: int): int {
    if exp >= 0 then num else Tenfold(num, -exp)
  }

  function Divisor(den: int, s: nat, exp: int): int {
    den * if exp >= 0 then Tenfold(Pow(2, s), exp) else Pow(2, s)
  }

  lemma {:induction false} TenfoldDifference(x: int, y: int, d: int, i: nat)
    ensures Tenfold(x, i) - Tenfold(y, i) * d == Tenfold(x - y * d, i)
    ensures x < y ==> Tenfold(x, i) < Tenfold(y, i)
  {
    if i > 0 {
      TenfoldDifference(x, y, d, i - 1);
      MulAssociative(10, Tenfold(y, i - 1), d);
    }
  }

  lemma {:induction false} TenfoldNegates(x: int, i: nat)
    ensures Tenfold(-x, i) == -Tenfold(x, i)
  {
    if i > 0 {
      TenfoldNegates(x, i - 1);
    }
  }

  /** Rounding for everything within error rounds every fraction strictly within error to nearest. */
  lemma RoundsFraction(m: int, unit: int, a: int, error: int, num: nat, den: nat)
    requires RoundsFor(m, unit, a, error) && den > 0
    requires -(error * den) < num - a * den < error * den
    ensures unit * den > 0 && m == RoundHalfEven(num, unit * den)
  {
    var dist := Abs(m * unit - a);
    MulMonotone(2 * dist + 2 * error, unit, den);
    assert (2 * dist + 2 * error) * den == 2 * (dist * den) + 2 * (error * den);
    assert m * (unit * den) - num == (m * unit - a) * den - (num - a * den) by { MulAssociative(m, unit, den); }
    assert Abs((m * unit - a) * den) == dist * den;
    MulMonotone(0, dist, den);
    RoundHalfEvenIsNearest(num, unit * den, m);
  }

  /**
   * If the generator's input f is within one unit of the true scaled value num / den, the digits it
   * returns are that value rounded half to even at the position it reports.
   */
  lemma DigitsAreRounded(m: int, f: int, s: nat, exp: int, num: nat, den: nat)
    requires Rounded(m, f, s, exp) && den > 0
    requires Abs(num - f * den) < den
    ensures Dividend(num, exp) >= 0 && Divisor(den, s, exp) > 0
    ensures m == RoundHalfEven(Dividend(num, exp), Divisor(den, s, exp))
  {
    if exp >= 0 {
      RoundsFraction(m, Tenfold(Pow(2, s), exp), f, 1, num, den);
    } else {
      var k := -exp;
      TenfoldNonNegative(num, k);
      TenfoldDifference(num, f, den, k);
      TenfoldDifference(num - f * den, den, 0, k);
      TenfoldDifference(0 - den, num - f * den, 0, k);
      TenfoldNegates(den, k);
      TenfoldTimes(1, den, k);
      RoundsFraction(m, Pow(2, s), Tenfold(f, k), Tenfold(1, k), Tenfold(num, k), den);
    }
  }

  lemma {:induction false} TenfoldNonNegative(x: nat, i: nat)
    ensures Tenfold(x, i) >= 0
  {
    if i > 0 {
      TenfoldNonNegative(x, i - 1);
    }
  }

  /** Equal fractions round alike. */
  lemma EqualFractions(a: nat, b: nat, c: nat, d: nat)
    requires b > 0 && d > 0 && a * d == c * b
    ensures RoundHalfEven(a, b) == RoundHalfEven(c, d)
  {
    MulMonotone(0, a, d);
    RoundHalfEvenScales(a, b, d);
    RoundHalfEvenScales(c, d, b);
  }

  /** The value v * 2^e in units of 2^-s, times 10^k: the number whose digits are generated. */
  function ScaledNumerator(v: nat, e: int, s: nat, k: int): int {
    Monomial(v, Up(e + s), Up(k))
  }

  function ScaledDenominator(e: int, s: nat, k: int): int {
    Monomial(1, Up(-(e + s)), Up(-k))
  }

  function Monomial(x: int, a: nat, b: nat): int {
    x * (Pow(2, a) * Pow(10, b))
  }

  lemma MonomialTimes(x: int, a: nat, b: nat, y: int, c: nat, d: nat)
    ensures Monomial(x, a, b) * Monomial(y, c, d) == Monomial(x * y, a + c, b + d)
  {
    PowAdd(2, a, c);
    PowAdd(10, b, d);
    Regroup(x, Pow(2, a), Pow(10, b), y, Pow(2, c), Pow(10, d));
  }

  lemma Regroup(x: int, p: int, q: int, y: int, r: int, t: int)
    ensures (x * (p * q)) * (y * (r * t)) == (x * y) * ((p * r) * (q * t))
  {
    assert (p * q) * (r * t) == (p * r) * (q * t);
    MulSwap(x, p * q, y, r * t);
  }

  lemma MonomialPositive(x: int, a: nat, b: nat)
    requires x > 0
    ensures Monomial(x, a, b) > 0
  {
    PowPositive(2, a);
    PowPositive(10, b);
    MulPositive(Pow(2, a), Pow(10, b));
    MulPositive(x, Pow(2, a) * Pow(10, b));
  }

  lemma DividendIsMonomial(v: nat, e: int, s: nat, k: int, exp: int)
    ensures Dividend(ScaledNumerator(v, e, s, k), exp) == Monomial(v, Up(e + s), Up(k) + Up(-exp))
  {
    MonomialTimes(v, Up(e + s), Up(k), 1, 0, Up(-exp));
    TenfoldIsProduct(ScaledNumerator(v, e, s, k), Up(-exp));
  }

  lemma DivisorIsMonomial(e: int, s: nat, k: int, exp: int)
    ensures Divisor(ScaledDenominator(e, s, k), s, exp) == Monomial(1, Up(-(e + s)) + s, Up(-k) + Up(exp))
  {
    MonomialTimes(1, Up(-(e + s)), Up(-k), 1, s, Up(exp));
    TenfoldIsProduct(Pow(2, s), Up(exp));
  }

  lemma NumeratorIsMonomial(v: nat, e: int, exp10: int, numDigits: nat)
    ensures Numerator(v, e, exp10) * Pow(10, numDigits) == Monomial(v, Up(e), Up(-exp10) + numDigits)
  {
    MonomialTimes(v, Up(e), Up(-exp10), 1, 0, numDigits);
  }

  lemma DenominatorIsMonomial(e: int, exp10: int)
    ensures 10 * Denominator(e, exp10) == Monomial(1, Up(-e), Up(exp10) + 1)
  {
    MonomialTimes(1, Up(-e), Up(exp10), 1, 0, 1);
    assert Pow(10, 1) == 10;
  }

  /** Generators that aim at the same decimal place round the same fraction. */
  lemma SameFraction(v: nat, e: int, s: nat, k: int, exp: int, exp10: int, numDigits: nat)
    requires exp10 - (numDigits - 1) == exp - k
    ensures Dividend(ScaledNumerator(v, e, s, k), exp) * (10 * Denominator(e, exp10))
         == (Numerator(v, e, exp10) * Pow(10, numDigits)) * Divisor(ScaledDenominator(e, s, k), s, exp)
  {
    DividendIsMonomial(v, e, s, k, exp);
    DenominatorIsMonomial(e, exp10);
    NumeratorIsMonomial(v, e, exp10, numDigits);
    DivisorIsMonomial(e, s, k, exp);
    MonomialTimes(v, Up(e + s), Up(k) + Up(-exp), 1, Up(-e), Up(exp10) + 1);
    MonomialTimes(v, Up(e), Up(-exp10) + numDigits, 1, Up(-(e + s)) + s, Up(-k) + Up(exp));
  }

  /** The generator's input is within one unit of the number whose digits are wanted. */
  predicate WithinOneUnit(f: int, v: nat, e: int, s: nat, k: int) {
    Abs(ScaledNumerator(v, e, s, k) - f * ScaledDenominator(e, s, k)) < ScaledDenominator(e, s, k)
  }

  /**
   * The fast generator, on input f scaled by 10^k, and the exact one, starting from exp10, write the same number
   * wherever they aim at the same decimal place.
   */
  lemma FastAgreesWithExact(m: int, f: int, v: nat, e: int, s: nat, k: int, exp: int, exp10: int, numDigits: nat)
    requires Rounded(m, f, s, exp) && WithinOneUnit(f, v, e, s, k)
    requires exp10 - (numDigits - 1) == exp - k
    ensures m == Wanted(v, e, exp10, numDigits)
  {
    var num, den := ScaledNumerator(v, e, s, k), ScaledDenominator(e, s, k);
    MonomialPositive(1, Up(-(e + s)), Up(-k));
    MonomialNonNegative(v, Up(e + s), Up(k));
    DigitsAreRounded(m, f, s, exp, num, den);
    SpecPositive(v, e, exp10);
    PowPositive(10, numDigits);
    MulMonotone(0, Numerator(v, e, exp10), Pow(10, numDigits));
    SameFraction(v, e, s, k, exp, exp10, numDigits);
    EqualFractions(Dividend(num, exp), Divisor(den, s, exp),
                   Numerator(v, e, exp10) * Pow(10, numDigits), 10 * Denominator(e, exp10));
  }

  lemma MonomialNonNegative(x: nat, a: nat, b: nat)
    ensures Monomial(x, a, b) >= 0
  {
    if x > 0 {
      MonomialPositive(x, a, b);
    }
  }
}
