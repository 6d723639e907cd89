/** The shortest-digits mode of fmt's exact digit generator. */
module ShortestMode {
  import opened Limbs
  import opened Bigints
  import opened Decimal
  import opened FixedMode

  /** The point x lies within l below and u above a, ends included as told. */
  predicate Within(x: int, a: int, l: int, u: int, lowClosed: bool, highClosed: bool) {
    && (a - l < x || (lowClosed && a - l == x))
    && (x < a + u || (highClosed && x == a + u))
  }

  /** The multiple k of d lies in the interval. */
  predicate Fits(k: int, d: int, a: int, l: int, u: int, lowClosed: bool, highClosed: bool) {
    Within(k * d, a, l, u, lowClosed, highClosed)
  }

  /** No multiple of d lies in the interval. */
  ghost predicate NoneFits(d: int, a: int, l: int, u: int, lowClosed: bool, highClosed: bool) {
    forall k: int :: !Fits(k, d, a, l, u, lowClosed, highClosed)
  }

  /** No multiple of d in the interval is closer to a than m * d. */
  ghost predicate Closest(m: int, d: int, a: int, l: int, u: int, lowClosed: bool, highClosed: bool) {
    forall k: int :: Fits(k, d, a, l, u, lowClosed, highClosed) ==> Abs(m * d - a) <= Abs(k * d - a)
  }

  /** The test of the loop: the remainder r is within the lower boundary. */
  predicate IsLow(r: int, l: int, lowClosed: bool) {
    r < l || (r == l && lowClosed)
  }

  /** The test of the loop: the remainder r is within the upper boundary of the next multiple. */
  predicate IsHigh(r: int, u: int, d: int, highClosed: bool) {
    r + u > d || (r + u == d && highClosed)
  }

  /** Between two multiples of d, an interval clear of both contains none. */
  lemma ClearOfMultiples(q: int, d: int, a: int, r: int, l: int, u: int, lowClosed: bool, highClosed: bool)
    requires d > 0 && a == q * d + r && 0 <= r < d
    requires !IsLow(r, l, lowClosed) && !IsHigh(r, u, d, highClosed)
    ensures NoneFits(d, a, l, u, lowClosed, highClosed)
  {
    forall k: int
      ensures !Fits(k, d, a, l, u, lowClosed, highClosed)
    {
      QuotientDistance(a, d, q, r, k);
    }
  }

  /** Where a loop that stops rounds to. */
  function Choice(q: int, d: int, r: int, low: bool, high: bool): int {
    if !low then q + 1
    else if high && (2 * r > d || (2 * r == d && q % 2 != 0)) then q + 1
    else q
  }

  /** The chosen multiple is in the interval and nearest among those that are. */
  lemma ChoiceIsBest(q: int, d: int, a: int, r: int, l: int, u: int, lowClosed: bool, highClosed: bool)
    requires d > 0 && a == q * d + r && 0 <= r < d && l > 0 && u > 0
    requires IsLow(r, l, lowClosed) || IsHigh(r, u, d, highClosed)
    ensures var m := Choice(q, d, r, IsLow(r, l, lowClosed), IsHigh(r, u, d, highClosed));
            Fits(m, d, a, l, u, lowClosed, highClosed) && Closest(m, d, a, l, u, lowClosed, highClosed)
  {
    var m := Choice(q, d, r, IsLow(r, l, lowClosed), IsHigh(r, u, d, highClosed));
    QuotientDistance(a, d, q, r, m);
    forall k: int | Fits(k, d, a, l, u, lowClosed, highClosed)
      ensures Abs(m * d - a) <= Abs(k * d - a)
    {
      QuotientDistance(a, d, q, r, k);
    }
  }

  /** Scaling interval and step together keeps what fits. */
  lemma NoneFitsScales(d: int, a: int, l: int, u: int, lowClosed: bool, highClosed: bool)
    requires NoneFits(d, a, l, u, lowClosed, highClosed)
    ensures NoneFits(10 * d, 10 * a, 10 * l, 10 * u, lowClosed, highClosed)
  {
    forall k: int
      ensures !Fits(k, 10 * d, 10 * a, 10 * l, 10 * u, lowClosed, highClosed)
    {
      assert !Fits(k, d, a, l, u, lowClosed, highClosed);
      assert k * (10 * d) == 10 * (k * d);
    }
  }

  /** With the left operand stored at least as low as the right one, compare finds equality only at equal exponents. */
  lemma CompareFromBelow(s: seq<uint32>, e: nat, t: seq<uint32>, f: nat)
    requires WellFormed(s) && Normal(t) && e <= f
    ensures Comparison(s, e, t, f) < 0 <==> Magnitude(s, e) < Magnitude(t, f)
    ensures Comparison(s, e, t, f) == 0 <==> Magnitude(s, e) == Magnitude(t, f) && e == f
  {
    CompareBelow(s, e, t, f);
    NormalIsPositive(t, f);
    ZeroMagnitude(e);
    if Normal(s) {
      if |s| + e > |t| + f {
        TopMonotone(s, e, t, f);
      } else if |s| + e < |t| + f {
        TopMonotone(t, f, s, e);
      }
    }
  }

  /** What the loop knows about its big integers, apart from their values. */
  ghost predicate Arranged(numerator: Bigint, denominator: Bigint, lower: Bigint, upper: Bigint)
    reads numerator, denominator, lower, upper
  {
    && Ready(numerator, denominator)
    && lower !in {numerator, denominator} && upper !in {numerator, denominator}
    && Normal(lower.bigits) && Normal(upper.bigits)
    && numerator.exp <= lower.exp
    && (lower.exp <= denominator.exp ==> numerator.exp == lower.exp)
    && (numerator.exp == lower.exp ==> lower.exp <= denominator.exp || numerator.Value() > lower.Value())
  }

  /** The two stopping tests, as the code computes them. */
  method Tests(numerator: Bigint, denominator: Bigint, lower: Bigint, upper: Bigint, even: bool)
    returns (low: bool, high: bool)
    requires Arranged(numerator, denominator, lower, upper)
    ensures low == IsLow(numerator.Value(), lower.Value(), even && lower.exp <= denominator.exp)
    ensures high == IsHigh(numerator.Value(), upper.Value(), denominator.Value(), even)
  {
    var one := if even then 1 else 0;
    CompareFromBelow(numerator.bigits, numerator.exp, lower.bigits, lower.exp);
    var order := Compare(numerator, lower);
    low := order - one < 0;
    NotHidden(numerator, denominator);
    var sum := AddCompare(numerator, upper, denominator);
    high := sum + one > 0;
  }

  /**
   * Generates digits until one of them is close enough. The result is in the rounding interval,
   * nearest to the value there, and no shorter number is in it. The upper end is included for an
   * even significand; the lower end only if besides that the numerator is not stored above the
   * denominator, because otherwise compare does not see that the remainder equals lower.
   */
  method ShortestDigits(numerator: Bigint, denominator: Bigint, lower: Bigint, upper: Bigint, even: bool, exp10: int)
    returns (buf: seq<char>, exp10': int)
    requires Arranged(numerator, denominator, lower, upper)
    requires numerator.Value() > lower.Value()
    requires !IsHigh(numerator.Value(), upper.Value(), 10 * denominator.Value(), even)
    modifies numerator, lower, upper
    ensures |buf| > 0 && AllDigits(buf) && exp10' == exp10 - (|buf| - 1)
    ensures old(IsShortest(DigitsValue(buf), |buf| - 1, numerator.Value(), denominator.Value(), lower.Value(),
                           upper.Value(), even && lower.exp <= denominator.exp, even))
  {
    ghost var n, d, l0, u0 := numerator.Value(), denominator.Value(), lower.Value(), upper.Value();
    ghost var lowClosed := even && lower.exp <= denominator.exp;
    ghost var a, i := n, 0;
    NormalIsPositive(lower.bigits, lower.exp);
    NormalIsPositive(upper.bigits, upper.exp);
    NormalIsPositive(denominator.bigits, denominator.exp);
    ClearOfMultiples(0, 10 * d, n, n, l0, u0, lowClosed, even);
    buf := [];
    while true
      invariant Arranged(numerator, denominator, lower, upper)
      invariant denominator.Value() == d && lowClosed == (even && lower.exp <= denominator.exp)
      invariant i == |buf| && AllDigits(buf) && a == Tenfold(n, i)
      invariant lower.Value() == Tenfold(l0, i) > 0 && upper.Value() == Tenfold(u0, i) > 0
      invariant a == DigitsValue(buf) * (10 * d) + numerator.Value()
      invariant !IsHigh(numerator.Value(), upper.Value(), 10 * d, even)
      invariant NoneFits(10 * d, a, lower.Value(), upper.Value(), lowClosed, even)
      decreases d - lower.Value()
    {
      var digit, done := Step(numerator, denominator, lower, upper, even, a, DigitsValue(buf));
      DigitAppended(buf, digit);
      buf := buf + [DigitChar(digit)];
      if done {
        exp10' := exp10 - (|buf| - 1);
        return;
      }
      ScaleAll(numerator, denominator, lower, upper);
      a, i := 10 * a, i + 1;
    }
  }

  /** One digit of the loop, rounded if it is the last one; v is the number written so far. */
  method Step(numerator: Bigint, denominator: Bigint, lower: Bigint, upper: Bigint, even: bool, ghost a: int,
              ghost v: int)
    returns (digit: int, done: bool)
    requires Arranged(numerator, denominator, lower, upper)
    requires a == v * (10 * denominator.Value()) + numerator.Value()
    requires !IsHigh(numerator.Value(), upper.Value(), 10 * denominator.Value(), even)
    modifies numerator
    ensures Arranged(numerator, denominator, lower, upper) && 0 <= digit <= 9
    ensures var d, l, u := denominator.Value(), lower.Value(), upper.Value();
            var lowClosed := even && lower.exp <= denominator.exp;
            if done then
              Fits(10 * v + digit, d, a, l, u, lowClosed, even) && Closest(10 * v + digit, d, a, l, u, lowClosed, even)
            else
              && 10 * a == (10 * v + digit) * (10 * d) + 10 * numerator.Value()
              && l <= numerator.Value() < d
              && !IsHigh(10 * numerator.Value(), 10 * u, 10 * d, even)
              && NoneFits(10 * d, 10 * a, 10 * l, 10 * u, lowClosed, even)
  {
    ghost var num, d, l, u := numerator.Value(), denominator.Value(), lower.Value(), upper.Value();
    ghost var lowClosed := even && lower.exp <= denominator.exp;
    NormalIsPositive(lower.bigits, lower.exp);
    NormalIsPositive(upper.bigits, upper.exp);
    digit := NextDigit(numerator, denominator);
    ghost var r := numerator.Value();
    QuotientStep(a, d, v, num, digit, r);
    NoCarry(num, d, digit, r, u, even);
    var low, high := Tests(numerator, denominator, lower, upper, even);
    done := low || high;
    if done {
      StopFacts(a, d, v, digit, r, l, u, lowClosed, even);
      digit := RoundLast(numerator, denominator, digit, low, high);
    } else {
      GoOnFacts(10 * v + digit, d, a, r, l, u, lowClosed, even);
    }
  }

  /** The rounding of the last digit. */
  method RoundLast(numerator: Bigint, denominator: Bigint, digit: int, low: bool, high: bool) returns (rounded: int)
    requires Ready(numerator, denominator)
    ensures rounded == Choice(digit, denominator.Value(), numerator.Value(), low, high)
  {
    rounded := digit;
    if !low {
      rounded := rounded + 1;
    } else if high {
      var up := RoundsUp(numerator, denominator, digit);
      if up {
        rounded := rounded + 1;
      }
    }
  }

  /** Where the loop stops, the rounded digit is a digit and completes a closest fitting number. */
  lemma StopFacts(a: int, d: int, v: int, digit: int, r: int, l: int, u: int, lowClosed: bool, highClosed: bool)
    requires a == (10 * v + digit) * d + r && 0 <= r < d && 0 <= digit <= 9 && l > 0 && u > 0
    requires IsLow(r, l, lowClosed) || IsHigh(r, u, d, highClosed)
    requires digit == 9 ==> !IsHigh(r, u, d, highClosed)
    ensures var rounded := Choice(digit, d, r, IsLow(r, l, lowClosed), IsHigh(r, u, d, highClosed));
            && 0 <= rounded <= 9
            && Fits(10 * v + rounded, d, a, l, u, lowClosed, highClosed)
            && Closest(10 * v + rounded, d, a, l, u, lowClosed, highClosed)
  {
    ChoiceIsBest(10 * v + digit, d, a, r, l, u, lowClosed, highClosed);
    ChoiceOfDigit(v, digit, d, r, IsLow(r, l, lowClosed), IsHigh(r, u, d, highClosed));
  }

  lemma ChoiceOfDigit(v: int, digit: int, d: int, r: int, low: bool, high: bool)
    ensures Choice(10 * v + digit, d, r, low, high) == 10 * v + Choice(digit, d, r, low, high)
  {
    assert (10 * v + digit) % 2 == digit % 2;
  }

  /** Where the loop goes on, nothing of this length fits, nor on the tenfold scale. */
  lemma GoOnFacts(q: int, d: int, a: int, r: int, l: int, u: int, lowClosed: bool, highClosed: bool)
    requires a == q * d + r && 0 <= r < d
    requires !IsLow(r, l, lowClosed) && !IsHigh(r, u, d, highClosed)
    ensures NoneFits(10 * d, 10 * a, 10 * l, 10 * u, lowClosed, highClosed)
  {
    ClearOfMultiples(q, d, a, r, l, u, lowClosed, highClosed);
    NoneFitsScales(d, a, l, u, lowClosed, highClosed);
  }

  /** A nine is never rounded up: the digit before it would have ended the loop. */
  lemma NoCarry(num: int, d: int, digit: int, r: int, u: int, highClosed: bool)
    requires num == digit * d + r && digit <= 9 && !IsHigh(num, u, 10 * d, highClosed)
    ensures digit == 9 ==> !IsHigh(r, u, d, highClosed)
  {
    if digit == 9 {
      assert digit * d == 9 * d;
    }
  }

  /** Multiplies everything but the denominator by ten. */
  method ScaleAll(numerator: Bigint, denominator: Bigint, lower: Bigint, upper: Bigint)
    requires Arranged(numerator, denominator, lower, upper)
    modifies numerator`bigits, lower`bigits, upper`bigits
    ensures Arranged(numerator, denominator, lower, upper)
    ensures numerator.Value() == 10 * old(numerator.Value())
    ensures lower.Value() == 10 * old(lower.Value()) && upper.Value() == 10 * old(upper.Value())
  {
    TimesTen(numerator, denominator);
    lower.Multiply32(10);
    if upper != lower {
      upper.Multiply32(10);
    }
  }

  lemma QuotientStep(a: int, d: int, v: int, num: int, digit: int, rem: int)
    requires a == v * (10 * d) + num && num == digit * d + rem
    ensures a == (10 * v + digit) * d + rem
    ensures 10 * a == (10 * v + digit) * (10 * d) + 10 * rem
  {
    assert (10 * v + digit) * d == v * (10 * d) + digit * d;
    assert (10 * v + digit) * (10 * d) == 10 * ((10 * v + digit) * d);
  }

  /** The claim of the shortest mode about the number m written after i digits past the first. */
  ghost predicate IsShortest(m: int, i: nat, n: int, d: int, l: int, u: int, lowClosed: bool, highClosed: bool) {
    && Fits(m, d, Tenfold(n, i), Tenfold(l, i), Tenfold(u, i), lowClosed, highClosed)
    && Closest(m, d, Tenfold(n, i), Tenfold(l, i), Tenfold(u, i), lowClosed, highClosed)
    && NoneFits(10 * d, Tenfold(n, i), Tenfold(l, i), Tenfold(u, i), lowClosed, highClosed)
  }
}
