/** Long division of big integers into digits, and the fixed-digits mode of fmt's exact digit generator. */
module FixedMode {
  import opened Arithmetic
  import opened Limbs
  import opened Bigints
  import opened Decimal

  /** No number of multiplications by ten makes n equal to d. */
  ghost predicate NeverReaches(n: int, d: int) {
    forall i: nat :: n * Pow(10, i) != d
  }

  /** The state in which a division gives an exact digit: an unaligned numerator must stay off the divisor. */
  ghost predicate Ready(numerator: Bigint, denominator: Bigint)
    reads numerator, denominator
  {
    && numerator != denominator && numerator.Valid() && Normal(denominator.bigits)
    && numerator.Value() >= 0
    && (numerator.exp > denominator.exp ==>
          numerator.Value() > 0 && NeverReaches(numerator.Value(), denominator.Value()))
  }

  lemma NotHidden(numerator: Bigint, denominator: Bigint)
    requires Ready(numerator, denominator)
    ensures !Overshoots(numerator.bigits, numerator.exp, denominator.bigits, denominator.exp)
    ensures !EqualityHidden(numerator.bigits, numerator.exp, denominator.bigits, denominator.exp)
  {
    var s, e, t, f := numerator.bigits, numerator.exp, denominator.bigits, denominator.exp;
    ZeroMagnitude(e);
    if e > f {
      NotReachedNow(numerator.Value(), denominator.Value());
    }
    if |s| + e == |t| + f && |t| > |s| {
      EqualIffTrailing(t, f, s, e);
    }
  }

  lemma NotReachedNow(n: int, d: int)
    requires NeverReaches(n, d)
    ensures n != d
  {
    assert n * Pow(10, 0) != d;
  }

  /** One quotient digit: the numerator keeps the remainder. */
  method NextDigit(numerator: Bigint, denominator: Bigint) returns (digit: int)
    requires Ready(numerator, denominator) && numerator.Value() < 10 * denominator.Value()
    modifies numerator
    ensures Ready(numerator, denominator) && numerator.Value() < denominator.Value()
    ensures 0 <= digit <= 9 && old(numerator.Value()) == digit * denominator.Value() + numerator.Value()
    ensures numerator.exp == if digit == 0 then old(numerator.exp) else Min(old(numerator.exp), denominator.exp)
  {
    NotHidden(numerator, denominator);
    digit := numerator.DivmodAssign(denominator);
    MagnitudeNonNegative(numerator.bigits, numerator.exp);
    DigitBound(digit, denominator.Value(), numerator.Value());
  }

  lemma DigitBound(q: nat, d: nat, r: nat)
    requires q * d + r < 10 * d
    ensures q <= 9
  {
    if q >= 10 {
      MulMonotone(10, q, d);
    }
  }

  method TimesTen(numerator: Bigint, denominator: Bigint)
    requires Ready(numerator, denominator)
    modifies numerator`bigits
    ensures Ready(numerator, denominator)
    ensures numerator.Value() == 10 * old(numerator.Value())
  {
    ghost var n := numerator.Value();
    numerator.Multiply32(10);
    if numerator.exp > denominator.exp {
      StillNeverReaches(n, denominator.Value());
    }
  }

  lemma StillNeverReaches(n: int, d: int)
    requires NeverReaches(n, d)
    ensures NeverReaches(10 * n, d)
  {
    forall i: nat
      ensures (10 * n) * Pow(10, i) != d
    {
      assert n * Pow(10, i + 1) != d;
      assert n * (10 * Pow(10, i)) == (10 * n) * Pow(10, i);
    }
  }

  /** After i digits with value v, what is left of n / d is num. */
  ghost predicate Expanded(n: int, d: int, i: nat, v: int, num: int) {
    n * Pow(10, i) == v * (10 * d) + num
  }

  lemma ExpandedStep(n: int, d: int, i: nat, v: int, num: int, digit: int, rem: int)
    requires Expanded(n, d, i, v, num) && num == digit * d + rem
    ensures n * Pow(10, i) == (10 * v + digit) * d + rem
    ensures Expanded(n, d, i + 1, 10 * v + digit, 10 * rem)
  {
    var q := 10 * v + digit;
    assert q * d == v * (10 * d) + digit * d;
    assert n * (10 * Pow(10, i)) == 10 * (n * Pow(10, i));
    assert q * (10 * d) == 10 * (q * d);
  }

  /** Digits of the expansion with one more appended. */
  lemma DigitAppended(buf: seq<char>, digit: nat)
    requires AllDigits(buf) && digit <= 10
    ensures DigitsValue(buf + [DigitChar(digit)]) == 10 * DigitsValue(buf) + digit
    ensures digit <= 9 ==> AllDigits(buf + [DigitChar(digit)])
  {
    DigitsSnoc(buf, DigitChar(digit));
  }

  /** Whether the last digit of a division rounds up, half to even. */
  method RoundsUp(numerator: Bigint, denominator: Bigint, digit: int) returns (up: bool)
    requires Ready(numerator, denominator)
    ensures up <==> 2 * numerator.Value() > denominator.Value()
                    || (2 * numerator.Value() == denominator.Value() && digit % 2 != 0)
  {
    NotHidden(numerator, denominator);
    var result := AddCompare(numerator, numerator, denominator);
    up := result > 0 || (result == 0 && digit % 2 != 0);
  }

  /** Generates the given number of digits and rounds the last one half to even. */
  method FixedDigits(numerator: Bigint, denominator: Bigint, numDigits: nat, exp10: int)
    returns (buf: seq<char>, exp10': int)
    requires Ready(numerator, denominator) && numerator.Value() < 10 * denominator.Value()
    modifies numerator, denominator
    ensures AllDigits(buf) && |buf| == if numDigits == 0 then 1 else numDigits
    ensures exp10' == exp10 - (numDigits - 1)
            || (exp10' == exp10 - (numDigits - 1) + 1 && numDigits > 0 && buf[0] == '1')
    ensures old(denominator.Value()) > 0
    ensures numDigits > 0 ==>
              DigitsValue(buf) * (if exp10' == exp10 - (numDigits - 1) then 1 else 10)
              == RoundHalfEven(old(numerator.Value()) * Pow(10, numDigits - 1), old(denominator.Value()))
    ensures numDigits == 0 ==>
              DigitsValue(buf) == RoundHalfEven(old(numerator.Value()), 10 * old(denominator.Value()))
  {
    ghost var n, d := numerator.Value(), denominator.Value();
    NormalIsPositive(denominator.bigits, denominator.exp);
    exp10' := exp10 - (numDigits - 1);
    if numDigits == 0 {
      buf := NoDigits(numerator, denominator);
      return;
    }
    var leading := LeadingDigits(numerator, denominator, numDigits - 1);
    var carried;
    buf, carried := LastDigit(numerator, denominator, leading, n * Pow(10, numDigits - 1));
    exp10' := if carried then exp10' + 1 else exp10';
  }

  /** All digits but the last, by long division. */
  method LeadingDigits(numerator: Bigint, denominator: Bigint, count: nat) returns (buf: seq<char>)
    requires Ready(numerator, denominator) && numerator.Value() < 10 * denominator.Value()
    modifies numerator
    ensures |buf| == count && AllDigits(buf)
    ensures Ready(numerator, denominator) && numerator.Value() < 10 * denominator.Value()
    ensures Expanded(old(numerator.Value()), denominator.Value(), count, DigitsValue(buf), numerator.Value())
  {
    ghost var n, d := numerator.Value(), denominator.Value();
    buf := [];
    var i := 0;
    while i < count
      invariant 0 <= i <= count && |buf| == i && AllDigits(buf)
      invariant Ready(numerator, denominator) && denominator.Value() == d && numerator.Value() < 10 * d
      invariant Expanded(n, d, i, DigitsValue(buf), numerator.Value())
    {
      ghost var num := numerator.Value();
      var digit := NextDigit(numerator, denominator);
      ExpandedStep(n, d, i, DigitsValue(buf), num, digit, numerator.Value());
      DigitAppended(buf, digit);
      buf := buf + [DigitChar(digit)];
      TimesTen(numerator, denominator);
      i := i + 1;
    }
  }

  /** The last digit, rounded half to even; a carry out of the first digit shortens the number by a place. */
  method LastDigit(numerator: Bigint, denominator: Bigint, leading: seq<char>, ghost a: nat)
    returns (buf: seq<char>, carried: bool)
    requires Ready(numerator, denominator) && numerator.Value() < 10 * denominator.Value()
    requires AllDigits(leading) && a == DigitsValue(leading) * (10 * denominator.Value()) + numerator.Value()
    modifies numerator
    ensures |buf| == |leading| + 1 && AllDigits(buf) && (carried ==> buf[0] == '1')
    ensures denominator.Value() > 0
    ensures DigitsValue(buf) * (if carried then 10 else 1) == RoundHalfEven(a, denominator.Value())
  {
    ghost var num, v := numerator.Value(), DigitsValue(leading);
    NormalIsPositive(denominator.bigits, denominator.exp);
    var digit := NextDigit(numerator, denominator);
    DigitsNonNegative(leading);
    LastQuotient(a, denominator.Value(), v, num, digit, numerator.Value());
    var up := RoundsUp(numerator, denominator, digit);
    if up {
      if digit == 9 {
        DigitAppended(leading, 10);
        buf, carried := PropagateCarry(leading + [DigitChar(10)]);
        return;
      }
      digit := digit + 1;
    }
    DigitAppended(leading, digit);
    buf, carried := leading + [DigitChar(digit)], false;
  }

  lemma LastQuotient(a: nat, d: nat, v: nat, num: int, digit: int, rem: int)
    requires d > 0 && 0 <= rem < d && digit >= 0
    requires a == v * (10 * d) + num && num == digit * d + rem
    ensures RoundHalfEven(a, d) == 10 * v + digit + if 2 * rem > d || (2 * rem == d && digit % 2 == 1) then 1 else 0
  {
    QuotientOfTen(v, digit, d);
    RoundedQuotient(a, d, 10 * v + digit, rem);
    ParityOfTen(v, digit);
  }

  lemma QuotientOfTen(v: int, digit: int, d: int)
    ensures (10 * v + digit) * d == v * (10 * d) + digit * d
  {
  }

  lemma ParityOfTen(v: int, digit: int)
    ensures (10 * v + digit) % 2 == digit % 2
  {
  }

  /** The case of no digits: whether the value rounds to one unit of the place above. */
  method NoDigits(numerator: Bigint, denominator: Bigint) returns (buf: seq<char>)
    requires Ready(numerator, denominator) && numerator.Value() < 10 * denominator.Value()
    modifies denominator
    ensures |buf| == 1 && AllDigits(buf) && old(denominator.Value()) > 0
    ensures DigitsValue(buf) == RoundHalfEven(old(numerator.Value()), 10 * old(denominator.Value()))
  {
    NotHidden(numerator, denominator);
    NormalIsPositive(denominator.bigits, denominator.exp);
    ghost var n, d := numerator.Value(), denominator.Value();
    denominator.Multiply32(10);
    assert !Overshoots(numerator.bigits, numerator.exp, denominator.bigits, denominator.exp) by {
      ZeroMagnitude(numerator.exp);
    }
    var result := AddCompare(numerator, numerator, denominator);
    RoundedQuotient(n, 10 * d, 0, n);
    buf := [if result > 0 then '1' else '0'];
  }
}
