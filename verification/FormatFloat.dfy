/** fmt's formatting with a given precision: the fast generator first, the exact one where it gives up. */
module FormatFloat {
  import opened Arithmetic
  import opened Limbs
  import opened Decimal
  import opened WordProducts
  import opened Grisu
  import opened FallbackFormat
  import opened FastPath
  import opened CachedPowers

  const MAX_DOUBLE_DIGITS: nat := 767

  /** The value v * 2^e in units of 10^place, rounded half to even. */
  ghost function RoundedAt(v: nat, e: int, place: int): int {
    SpecPositive(v, e, place);
    RoundHalfEven(Numerator(v, e, place), Denominator(e, place))
  }

  lemma WantedAtPlace(v: nat, e: int, exp10: int, numDigits: nat)
    ensures Wanted(v, e, exp10, numDigits) == RoundedAt(v, e, exp10 - (numDigits - 1))
  {
    var place := exp10 - (numDigits - 1);
    SpecPositive(v, e, exp10);
    SpecPositive(v, e, place);
    PowPositive(10, numDigits);
    MulMonotone(0, Numerator(v, e, exp10), Pow(10, numDigits));
    NumeratorIsMonomial(v, e, exp10, numDigits);
    DenominatorIsMonomial(e, exp10);
    MonomialTimes(v, Up(e), Up(-exp10) + numDigits, 1, Up(-e), Up(place));
    MonomialTimes(v, Up(e), Up(-place), 1, Up(-e), Up(exp10) + 1);
    PlainMonomials(v, e, place);
    EqualFractions(Numerator(v, e, exp10) * Pow(10, numDigits), 10 * Denominator(e, exp10),
                   Numerator(v, e, place), Denominator(e, place));
  }

  lemma PlainMonomials(v: nat, e: int, place: int)
    ensures Numerator(v, e, place) == Monomial(v, Up(e), Up(-place))
    ensures Denominator(e, place) == Monomial(1, Up(-e), Up(place))
  {
  }

  /** What the fast generator is certain of is the rounded value. */
  lemma FastAtPlace(m: int, f: int, v: nat, e: int, s: nat, k: int, exp: int)
    requires Rounded(m, f, s, exp) && WithinOneUnit(f, v, e, s, k)
    ensures m == RoundedAt(v, e, exp - k)
  {
    FastAgreesWithExact(m, f, v, e, s, k, exp, exp - k - 1, 0);
    WantedAtPlace(v, e, exp - k - 1, 0);
  }

  /** The cached significand y with exponent c is 10^k to within half a unit. */
  predicate CachedPower(y: uint64, c: int, k: int) {
    var num, den := Monomial(1, Up(-c), Up(k)), Monomial(1, Up(c), Up(-k));
    2 * Abs(y * den - num) <= den
  }

  /** The rounded product of the normalized significand and the cached power is within one unit of the scaled value. */
  lemma ProductWithinOneUnit(v: nat, e: int, j: nat, x: uint64, y: uint64, c: int, k: int, s: nat, f: nat)
    requires x == v * Pow(2, j) && CachedPower(y, c, k) && s == j - e - c - 64
    requires f == (x * y + 0x8000_0000_0000_0000) / 0x1_0000_0000_0000_0000
    ensures WithinOneUnit(f, v, e, s, k)
  {
    var num, den := Monomial(1, Up(-c), Up(k)), Monomial(1, Up(c), Up(-k));
    var sn, sd := ScaledNumerator(v, e, s, k), ScaledDenominator(e, s, k);
    MonomialPositive(1, Up(c), Up(-k));
    MonomialPositive(1, Up(-(e + s)), Up(-k));
    RoundedProduct(x, y, f, num, den);
    ScaledProduct(v, e, j, x, c, k, s);
    CancelUnit(f, x * num, 0x1_0000_0000_0000_0000 * den, sn, sd);
  }

  /** Rounding the product adds half a unit to the half that the factor's error makes at most. */
  lemma RoundedProduct(x: uint64, y: uint64, f: nat, num: int, den: int)
    requires den > 0 && 2 * Abs(y * den - num) <= den
    requires f == (x * y + 0x8000_0000_0000_0000) / 0x1_0000_0000_0000_0000
    ensures Abs(x * num - f * (0x1_0000_0000_0000_0000 * den)) < 0x1_0000_0000_0000_0000 * den
  {
    var d, r := y * den - num, f * 0x1_0000_0000_0000_0000 - x * y;
    assert 2 * Abs(r) <= 0x1_0000_0000_0000_0000;
    ScaleBound(2 * r, 0x1_0000_0000_0000_0000, den);
    ScaleBound(2 * d, den, x);
    MulStrict(x, 0x1_0000_0000_0000_0000, den);
    ErrorParts(x, y, f, num, den);
  }

  lemma ScaleBound(a: int, b: int, c: nat)
    requires Abs(a) <= b
    ensures Abs(a * c) <= b * c
  {
    MulMonotone(a, b, c);
    MulMonotone(-b, a, c);
  }

  lemma ErrorParts(x: int, y: int, f: int, num: int, den: int)
    ensures 2 * (f * (0x1_0000_0000_0000_0000 * den) - x * num)
         == (2 * (f * 0x1_0000_0000_0000_0000 - x * y)) * den + (2 * (y * den - num)) * x
  {
    assert (f * 0x1_0000_0000_0000_0000 - x * y) * den == f * (0x1_0000_0000_0000_0000 * den) - (x * y) * den;
    assert (y * den - num) * x == (x * y) * den - x * num;
  }

  /** The exact product and the scaled value are the same fraction. */
  lemma ScaledProduct(v: nat, e: int, j: nat, x: int, c: int, k: int, s: nat)
    requires x == v * Pow(2, j) && s == j - e - c - 64
    ensures ScaledNumerator(v, e, s, k) * (0x1_0000_0000_0000_0000 * Monomial(1, Up(c), Up(-k)))
         == (x * Monomial(1, Up(-c), Up(k))) * ScaledDenominator(e, s, k)
  {
    TwoTo64();
    MonomialTimes(1, 64, 0, 1, Up(c), Up(-k));
    MonomialTimes(v, Up(e + s), Up(k), 1, 64 + Up(c), Up(-k));
    MonomialTimes(v, j, 0, 1, Up(-c), Up(k));
    MonomialTimes(v, j + Up(-c), Up(k), 1, Up(-(e + s)), Up(-k));
  }

  lemma TwoTo64()
    ensures Pow(2, 64) == 0x1_0000_0000_0000_0000 && Pow(10, 0) == 1
  {
    PowersOfTwo();
    PowAdd(2, 32, 32);
  }

  lemma CancelUnit(f: int, p: int, w: int, sn: int, sd: int)
    requires w > 0 && sd > 0 && Abs(p - f * w) < w && sn * w == p * sd
    ensures Abs(sn - f * sd) < sd
  {
    assert (sn - f * sd) * w == (p - f * w) * sd by {
      assert (f * sd) * w == (f * w) * sd;
    }
    MulStrict(p - f * w, w, sd);
    MulStrict(-w, p - f * w, sd);
    assert (-w) * sd == (-sd) * w && w * sd == sd * w;
    if sn - f * sd >= sd {
      MulMonotone(sd, sn - f * sd, w);
    }
    if sn - f * sd <= -sd {
      MulMonotone(sn - f * sd, -sd, w);
    }
  }

  lemma LeadingFraction(v: nat, e: int, s: nat, k: int, kappa: nat)
    ensures ScaledNumerator(v, e, s, k) * (10 * Denominator(e, kappa - k - 1))
         == Numerator(v, e, kappa - k - 1) * (ScaledDenominator(e, s, k) * Tenfold(Pow(2, s), kappa))
  {
    SameFraction(v, e, s, k, kappa, kappa - k - 1, 0);
    assert Pow(10, 0) == 1;
    assert Divisor(ScaledDenominator(e, s, k), s, kappa) == ScaledDenominator(e, s, k) * Tenfold(Pow(2, s), kappa);
  }

  lemma BelowUnit(num: int, f: int, den: int, unit: int)
    requires num - f * den < den && f < unit && den > 0 && unit > 0
    ensures num < den * unit && den * unit > 0
  {
    MulMonotone(f + 1, unit, den);
    assert (f + 1) * den == f * den + den;
    MulPositive(den, unit);
  }

  /** Where the fast generator stops, the exact one can start: the value is below ten units of its first place. */
  lemma FallbackStarts(f: nat, v: nat, e: int, s: nat, k: int, kappa: nat)
    requires WithinOneUnit(f, v, e, s, k) && f < Tenfold(Pow(2, s), kappa)
    ensures Numerator(v, e, kappa - k - 1) < 10 * Denominator(e, kappa - k - 1)
  {
    var num, den, unit := ScaledNumerator(v, e, s, k), ScaledDenominator(e, s, k), Tenfold(Pow(2, s), kappa);
    MonomialPositive(1, Up(-(e + s)), Up(-k));
    BelowUnit(num, f, den, unit);
    LeadingFraction(v, e, s, k, kappa);
    SpecPositive(v, e, kappa - k - 1);
    BelowByFraction(num, den * unit, Numerator(v, e, kappa - k - 1), 10 * Denominator(e, kappa - k - 1));
  }

  lemma BelowByFraction(a: int, b: int, c: int, d: int)
    requires a < b && d > 0 && b > 0 && a * d == c * b
    ensures c < d
  {
    MulStrict(a, b, d);
    if c >= d {
      MulMonotone(d, c, b);
    }
  }

  lemma {:induction false} TenfoldTenfold(x: int, i: nat, j: nat)
    ensures Tenfold(Tenfold(x, i), j) == Tenfold(x, i + j)
  {
    if j > 0 {
      TenfoldTenfold(x, i, j - 1);
    }
  }

  /** The digits and their exponent are the value rounded at the place; no digits stand for zero. */
  ghost predicate Correct(buf: seq<char>, exp: int, v: nat, e: int, place: int) {
    && AllDigits(buf)
    && if buf == [] then RoundedAt(v, e, place) == 0
       else exp >= place && Tenfold(DigitsValue(buf), exp - place) == RoundedAt(v, e, place)
  }

  /** The high word of the product, rounded: the number that the fast generator takes digits of. */
  function ProductOf(x: uint64, y: uint64): nat {
    (x * y + 0x8000_0000_0000_0000) / 0x1_0000_0000_0000_0000
  }

  /** The number is so close to the middle of a unit that an error of one makes its rounding uncertain. */
  predicate Halfway(f: nat, unit: int) {
    unit > 0 && 2 * (f % unit - 1) < unit < 2 * (f % unit + 1)
  }

  lemma UndecidedIffHalfway(f: nat, unit: int)
    requires unit > 0
    ensures Undecided(unit, f, 1) <==> Halfway(f, unit)
  {
    var q, r := f / unit, f % unit;
    assert f == q * unit + r;
    NearestMultiples(q, unit, f, r, 1);
    if Halfway(f, unit) {
      NoneRounds(q, unit, f, r, 1);
    }
  }

  /** The unit of the first digit of a number with kappa digits before the point. */
  function LeadUnit(s: nat, kappa: nat): int
    requires kappa > 0
  {
    Tenfold(Pow(2, s), kappa - 1)
  }

  /**
   * The decimal place that the number is rounded at: the wanted one with fixed notation, else the last of as many
   * digits as wanted. With no digits wanted it is the first digit's place, but the one above if that is uncertain.
   */
  function PlaceOf(f: nat, s: nat, k: int, kappa: nat, precision: nat, fixed: bool): int
    requires kappa > 0
  {
    if fixed then -(precision as int)
    else if precision > 0 then kappa - k - precision
    else if Halfway(f, LeadUnit(s, kappa)) then kappa - k
    else kappa - k - 1
  }

  /** How many digits are asked for: as many as reach from the first one to the wanted place, or as wanted. */
  function Asked(k: int, kappa: nat, precision: nat, fixed: bool): int {
    if fixed then kappa - k + precision else precision
  }

  /**
   * The number of digits written, and their exponent: none if the first digit stands below the wanted place; one, at
   * that place, if it stands just above; one if none are wanted without fixed notation; else as many as asked for,
   * where a carry out of the first digit writes one more with fixed notation, or raises the exponent.
   */
  predicate Sized(buf: seq<char>, exp: int, place: int, count: int, fixed: bool) {
    if count < 0 then buf == []
    else if count == 0 then |buf| == 1 && place <= exp <= place + (if fixed then 0 else 1)
    else count <= |buf| <= count + (if fixed then 1 else 0) && place <= exp && |buf| + exp <= place + count + 1
  }

  /**
   * The fast generator on the scaled significand x * y, and the exact one where the fast one gives up: the value
   * v * 2^e rounded at that place. The number kappa counts the digits before the point of the scaled value.
   */
  method Generate(v: nat, e: int, closer: bool, precision: nat, fixed: bool, x: uint64, ghost j: nat, y: uint64, c: int,
                  k: int, s: nat)
    returns (buf: seq<char>, exp: int, ghost kappa: nat, ghost place: int)
    requires 0 < v < 0x4000_0000_0000_0000 && -10000 < e < 10000 && -1000 < k < 1000
    requires x == v * Pow(2, j) && x >= 0x8000_0000_0000_0000 && y >= 0x8000_0000_0000_0000
    requires CachedPower(y, c, k) && 32 <= s <= 60 && s == j - e - c - 64
    ensures Leads(ProductOf(x, y), s, kappa) && kappa <= 10
    ensures place == PlaceOf(ProductOf(x, y), s, k, kappa, Min(precision, MAX_DOUBLE_DIGITS), fixed)
    ensures Correct(buf, exp, v, e, place)
    ensures Sized(buf, exp, place, Asked(k, kappa, Min(precision, MAX_DOUBLE_DIGITS), fixed), fixed)
  {
    var limited := Min(precision, MAX_DOUBLE_DIGITS);
    var f := MultiplyRounded(x, y);
    ProductWithinOneUnit(v, e, j, x, y, c, k, s, f);
    ProductIsLarge(x, y, s, f);
    var result, numDigits;
    result, buf, exp, numDigits, kappa := FastDigits(f, v, e, s, k, limited, fixed);
    place := PlaceOf(f, s, k, kappa, limited, fixed);
    if result == Error {
      FallbackStarts(f, v, e, s, k, kappa);
      buf, exp := Fallback(v, e, closer, numDigits, exp);
    }
  }

  /** The fast attempt: digits, or the exponent of the first one and the number of them for the exact generator. */
  method FastDigits(f: uint64, ghost v: nat, ghost e: int, s: nat, k: int, precision: nat, fixed: bool)
    returns (result: Progress, buf: seq<char>, exp: int, numDigits: int, ghost kappa: nat)
    requires 32 <= s <= 60 && Pow(2, s) <= f && WithinOneUnit(f, v, e, s, k)
    ensures result != More && Leads(f, s, kappa) && kappa <= 10
    ensures !fixed && precision == 0 ==> (result == Error <==> Halfway(f, LeadUnit(s, kappa)))
    ensures result == Done ==>
              && Correct(buf, exp, v, e, if fixed then 0 - precision else kappa - k - Count(false, precision))
              && Sized(buf, exp, if fixed then 0 - precision else kappa - k - Count(false, precision),
                       Asked(k, kappa, precision, fixed), fixed)
    ensures result == Error ==>
              && exp == kappa - k - 1 && 0 <= numDigits == Asked(k, kappa, precision, fixed)
              && if fixed then exp - (numDigits - 1) + precision == 0 else numDigits == precision
  {
    var handler := new FixedHandler(precision, -k, fixed);
    result, exp, kappa := GenDigits(f, s, handler);
    buf, numDigits := handler.buf, handler.precision;
    if result == Error {
      if !fixed && precision == 0 {
        NoAnswerIsHalfway(f, s, kappa);
      }
      exp := exp + |buf| - k - 1;
    } else {
      FastDone(f, v, e, s, k, kappa, buf, exp, handler.exp10, numDigits, precision, fixed);
      exp := exp + handler.exp10;
    }
  }

  /** What a certain answer of the fast generator means for the value. */
  lemma FastDone(f: nat, v: nat, e: int, s: nat, k: int, kappa: nat, buf: seq<char>, exp: int, exp10: int,
                 numDigits: int, precision: nat, fixed: bool)
    requires Leads(f, s, kappa) && WithinOneUnit(f, v, e, s, k)
    requires -k <= exp10 <= -k + (if fixed then 0 else 1)
    requires numDigits == precision + (if fixed then kappa - k else 0) && exp == kappa - Count(fixed, numDigits)
    requires buf == [] <==> fixed && numDigits < 0
    requires if buf == [] then Rounded(0, f, s, exp - numDigits)
             else AllDigits(buf)
                  && Rounded(if exp10 == -k then DigitsValue(buf) else 10 * DigitsValue(buf), f, s, exp)
    ensures Correct(buf, exp + exp10, v, e, if fixed then 0 - precision else kappa - k - Count(false, precision))
    ensures !fixed && precision == 0 ==> !Halfway(f, LeadUnit(s, kappa))
  {
    FastCorrect(f, v, e, s, k, buf, exp - k - (if buf == [] then numDigits else 0), exp10);
    if !fixed && precision == 0 {
      RoundedIsCertain(if exp10 == -k then DigitsValue(buf) else 10 * DigitsValue(buf), f, s, kappa);
    }
  }

  lemma NoAnswerIsHalfway(f: nat, s: nat, kappa: nat)
    requires Leads(f, s, kappa) && NoAnswer(f, s, kappa - 1)
    ensures Halfway(f, LeadUnit(s, kappa))
  {
    LeadIsPositive(f, s, kappa);
    UndecidedIffHalfway(f, LeadUnit(s, kappa));
  }

  lemma RoundedIsCertain(m: int, f: nat, s: nat, kappa: nat)
    requires Leads(f, s, kappa) && Rounded(m, f, s, kappa - 1)
    ensures !Halfway(f, LeadUnit(s, kappa))
  {
    LeadIsPositive(f, s, kappa);
    UndecidedIffHalfway(f, LeadUnit(s, kappa));
  }

  lemma LeadIsPositive(f: nat, s: nat, kappa: nat)
    requires Leads(f, s, kappa)
    ensures LeadUnit(s, kappa) > 0
  {
    PowPositive(2, s);
    TenfoldIsProduct(Pow(2, s), kappa - 1);
    PowPositive(10, kappa - 1);
    MulPositive(Pow(2, s), Pow(10, kappa - 1));
  }

  method Fallback(v: nat, e: int, closer: bool, numDigits: nat, exp10: int) returns (buf: seq<char>, exp: int)
    requires Scaled(v, e, exp10)
    ensures Correct(buf, exp, v, e, exp10 - (numDigits - 1)) && |buf| == if numDigits == 0 then 1 else numDigits
    ensures exp10 - (numDigits - 1) <= exp <= exp10 - (numDigits - 1) + (if numDigits == 0 then 0 else 1)
  {
    WantedAtPlace(v, e, exp10, numDigits);
    buf, exp := Format(v, e, closer, numDigits, exp10);
    TenfoldOnce(DigitsValue(buf));
  }

  lemma TenfoldOnce(x: int)
    ensures Tenfold(x, 0) == x && Tenfold(x, 1) == 10 * x
  {
    assert Tenfold(x, 0) == x;
  }

  /** The fast generator's digits, with the exponent that the handler may have moved by one. */
  lemma FastCorrect(f: int, v: nat, e: int, s: nat, k: int, buf: seq<char>, place: int, exp10: int)
    requires AllDigits(buf) && WithinOneUnit(f, v, e, s, k) && -k <= exp10 <= -k + 1
    requires Rounded(if buf == [] then 0 else if exp10 == -k then DigitsValue(buf) else 10 * DigitsValue(buf),
                     f, s, place + k)
    ensures Correct(buf, place + k + exp10, v, e, place)
  {
    var m := if buf == [] then 0 else if exp10 == -k then DigitsValue(buf) else 10 * DigitsValue(buf);
    FastAtPlace(m, f, v, e, s, k, place + k);
    TenfoldOnce(DigitsValue(buf));
  }

  lemma ProductIsLarge(x: uint64, y: uint64, s: nat, f: nat)
    requires x >= 0x8000_0000_0000_0000 && y >= 0x8000_0000_0000_0000 && 32 <= s <= 60
    requires f == (x * y + 0x8000_0000_0000_0000) / 0x1_0000_0000_0000_0000
    ensures Pow(2, s) <= f
  {
    OneFits(s);
    MulMonotone(0x8000_0000_0000_0000, x, y);
  }

  /**
   * Formats v * 2^e; without fixed notation or a wanted point, zeros at the end become part of the exponent. Asked
   * for no digits without fixed notation, it gives the value rounded to one digit exactly if the fast generator is
   * certain of that digit, or if the digit rounds up to ten.
   */
  method FormatFloat(v: nat, e: int, closer: bool, precision: nat, fixed: bool, showpoint: bool, x: uint64, normal: int,
                     y: uint64)
    returns (buf: seq<char>, exp: int, ghost kappa: nat, ghost place: int)
    requires 0 < v < 0x4000_0000_0000_0000 && -10000 < e < 10000
    requires -1190 <= normal <= 1076 && normal <= e && x == v * Pow(2, e - normal) && x >= 0x8000_0000_0000_0000
    requires y >= 0x8000_0000_0000_0000
    requires CachedPower(y, BinaryExponent(MinExponent(normal)), DecimalExponent(MinExponent(normal)))
    ensures Leads(ProductOf(x, y), FractionBits(normal), kappa) && kappa <= 10
    ensures place == PlaceOf(ProductOf(x, y), FractionBits(normal), DecimalExponent(MinExponent(normal)), kappa,
                             Min(precision, MAX_DOUBLE_DIGITS), fixed)
    ensures Correct(buf, exp, v, e, place)
    ensures fixed || showpoint ==>
              Sized(buf, exp, place, Asked(DecimalExponent(MinExponent(normal)), kappa,
                                           Min(precision, MAX_DOUBLE_DIGITS), fixed), fixed)
    ensures !fixed ==> 0 <= |buf| + exp - place - Max(1, Min(precision, MAX_DOUBLE_DIGITS)) <= 1
    ensures !fixed && !showpoint ==> buf == [] || buf[|buf| - 1] != '0'
    ensures !fixed && precision == 0 ==>
              (Correct(buf, exp, v, e, kappa - DecimalExponent(MinExponent(normal)) - 1)
               <==> !Halfway(ProductOf(x, y), LeadUnit(FractionBits(normal), kappa))
                    || RoundedAt(v, e, kappa - DecimalExponent(MinExponent(normal)) - 1) == 10)
  {
    var c, k := GetCachedPower(MinExponent(normal));
    buf, exp, kappa, place :=
      FormatWith(v, e, closer, precision, fixed, showpoint, x, e - normal, y, c, k, -(normal + c + 64));
  }

  /** The same with the cached power found. */
  method FormatWith(v: nat, e: int, closer: bool, precision: nat, fixed: bool, showpoint: bool, x: uint64, ghost j: nat,
                    y: uint64, c: int, k: int, s: nat)
    returns (buf: seq<char>, exp: int, ghost kappa: nat, ghost place: int)
    requires 0 < v < 0x4000_0000_0000_0000 && -10000 < e < 10000 && -1000 < k < 1000
    requires x == v * Pow(2, j) && x >= 0x8000_0000_0000_0000 && y >= 0x8000_0000_0000_0000
    requires CachedPower(y, c, k) && 32 <= s <= 60 && s == j - e - c - 64
    ensures Leads(ProductOf(x, y), s, kappa) && kappa <= 10
    ensures place == PlaceOf(ProductOf(x, y), s, k, kappa, Min(precision, MAX_DOUBLE_DIGITS), fixed)
    ensures Correct(buf, exp, v, e, place)
    ensures fixed || showpoint ==>
              Sized(buf, exp, place, Asked(k, kappa, Min(precision, MAX_DOUBLE_DIGITS), fixed), fixed)
    ensures !fixed ==> 0 <= |buf| + exp - place - Max(1, Min(precision, MAX_DOUBLE_DIGITS)) <= 1
    ensures !fixed && !showpoint ==> buf == [] || buf[|buf| - 1] != '0'
    ensures !fixed && precision == 0 ==>
              (Correct(buf, exp, v, e, kappa - k - 1)
               <==> !Halfway(ProductOf(x, y), LeadUnit(s, kappa)) || RoundedAt(v, e, kappa - k - 1) == 10)
  {
    buf, exp, kappa, place := Generate(v, e, closer, precision, fixed, x, j, y, c, k, s);
    if !fixed && !showpoint {
      buf, exp := DropZeros(buf, exp, v, e, place);
    }
    ProductWithinOneUnit(v, e, j, x, y, c, k, s, ProductOf(x, y));
    if place == kappa - k {
      OneDigitTooHigh(buf, exp, v, e, s, k, kappa, ProductOf(x, y));
    }
  }

  /** The loop over the zeros at the end. */
  method DropZeros(buf0: seq<char>, exp0: int, ghost v: nat, ghost e: int, ghost place: int)
    returns (buf: seq<char>, exp: int)
    requires Correct(buf0, exp0, v, e, place)
    ensures Correct(buf, exp, v, e, place) && |buf| + exp == |buf0| + exp0
    ensures buf == [] || buf[|buf| - 1] != '0'
  {
    buf, exp := buf0, exp0;
    while |buf| > 0 && buf[|buf| - 1] == '0'
      invariant Correct(buf, exp, v, e, place) && |buf| + exp == |buf0| + exp0
    {
      ZeroDropped(buf, exp, place);
      buf, exp := buf[..|buf| - 1], exp + 1;
    }
  }

  /** The value in units of the scaled number's decimal places. */
  lemma RoundedInUnits(v: nat, e: int, s: nat, k: int, exp: nat)
    ensures ScaledNumerator(v, e, s, k) >= 0 && ScaledDenominator(e, s, k) * Tenfold(Pow(2, s), exp) > 0
    ensures RoundedAt(v, e, exp - k)
         == RoundHalfEven(ScaledNumerator(v, e, s, k), ScaledDenominator(e, s, k) * Tenfold(Pow(2, s), exp))
  {
    var exp10 := exp - k - 1;
    MonomialNonNegative(v, Up(e + s), Up(k));
    DivisorIsMonomial(e, s, k, exp);
    MonomialPositive(1, Up(-(e + s)) + s, Up(-k) + exp);
    SpecPositive(v, e, exp10);
    LeadingFraction(v, e, s, k, exp);
    WantedAtPlace(v, e, exp10, 0);
    assert Pow(10, 0) == 1;
    EqualFractions(ScaledNumerator(v, e, s, k), ScaledDenominator(e, s, k) * Tenfold(Pow(2, s), exp),
                   Numerator(v, e, exp10), 10 * Denominator(e, exp10));
  }

  /** Of a number above half a unit and below ten, the roundings to the unit and to ten units agree only at ten. */
  lemma TensOnly(a: nat, b: nat)
    requires 0 < b < 2 * a && a < 10 * b
    ensures RoundHalfEven(a, b) == 10 * RoundHalfEven(a, 10 * b) <==> RoundHalfEven(a, b) == 10
    ensures RoundHalfEven(a, b) > 0
  {
    RoundHalfEvenIsNearest(a, b, RoundHalfEven(a, b));
    RoundHalfEvenIsNearest(a, b, 0);
    RoundHalfEvenIsNearest(a, 10 * b, 0);
    RoundHalfEvenIsNearest(a, 10 * b, 1);
    RoundHalfEvenIsNearest(a, 10 * b, RoundHalfEven(a, 10 * b));
    AtMostOne(a, b, RoundHalfEven(a, 10 * b));
  }

  lemma AtMostOne(a: nat, b: nat, m: nat)
    requires 0 < b && a < 10 * b && 2 * Abs(m * (10 * b) - a) <= 10 * b
    ensures m <= 1
  {
    if m >= 2 {
      MulMonotone(2, m, 10 * b);
    }
  }

  /** Rounded one place too high, the number is the value rounded to one digit only if that is ten. */
  lemma OneDigitTooHigh(buf: seq<char>, exp: int, v: nat, e: int, s: nat, k: int, kappa: nat, f: nat)
    requires Leads(f, s, kappa) && WithinOneUnit(f, v, e, s, k) && 32 <= s
    requires Correct(buf, exp, v, e, kappa - k)
    ensures Correct(buf, exp, v, e, kappa - k - 1) <==> RoundedAt(v, e, kappa - k - 1) == 10
  {
    LeadRoundings(v, e, s, k, kappa, f);
    if buf != [] {
      TenfoldStep(DigitsValue(buf), exp - (kappa - k));
    }
  }

  lemma TenfoldStep(x: int, i: nat)
    ensures Tenfold(x, i + 1) == 10 * Tenfold(x, i)
  {
  }

  /** The value rounded to its first digit and to the place above. */
  lemma LeadRoundings(v: nat, e: int, s: nat, k: int, kappa: nat, f: nat)
    requires Leads(f, s, kappa) && WithinOneUnit(f, v, e, s, k) && 32 <= s
    ensures RoundedAt(v, e, kappa - k - 1) > 0
    ensures RoundedAt(v, e, kappa - k - 1) == 10 * RoundedAt(v, e, kappa - k) <==> RoundedAt(v, e, kappa - k - 1) == 10
  {
    var num, den, unit := ScaledNumerator(v, e, s, k), ScaledDenominator(e, s, k), LeadUnit(s, kappa);
    RoundedInUnits(v, e, s, k, kappa - 1);
    RoundedInUnits(v, e, s, k, kappa);
    LeadIsLarge(s, kappa);
    TenfoldStep(Pow(2, s), kappa - 1);
    MonomialPositive(1, Up(-(e + s)), Up(-k));
    LeadBounds(num, f, den, unit);
    MulTen(den, unit);
    TensOnly(num, den * unit);
  }

  lemma MulTen(a: int, b: int)
    ensures a * (10 * b) == 10 * (a * b)
  {
  }

  lemma LeadIsLarge(s: nat, kappa: nat)
    requires kappa > 0 && 32 <= s
    ensures LeadUnit(s, kappa) >= 2
  {
    PowMonotone(2, 1, s);
    TenfoldIsProduct(Pow(2, s), kappa - 1);
    PowPositive(10, kappa - 1);
    MulMonotone(1, Pow(10, kappa - 1), Pow(2, s));
  }

  lemma LeadBounds(num: int, f: nat, den: int, unit: int)
    requires den > 0 && unit >= 2 && unit <= f < 10 * unit && Abs(num - f * den) < den
    ensures 0 < den * unit < 2 * num && num < 10 * (den * unit)
  {
    MulPositive(den, unit);
    MulMonotone(unit, f, den);
    MulMonotone(f + 1, 10 * unit, den);
    MulMonotone(2, unit, den);
    assert (f + 1) * den == f * den + den && (10 * unit) * den == 10 * (den * unit);
  }

  lemma PowerForTwoAndAHalf()
    ensures BinaryExponent(MinExponent(-62)) == -50 && DecimalExponent(MinExponent(-62)) == 4 && FractionBits(-62) == 48
  {
    assert CachedIndex(-62) == 44 by {
      assert Approximate(-62) == 1;
    }
  }

  lemma CachedTenThousand()
    ensures CachedPower(0x9C40_0000_0000_0000, -50, 4)
  {
    PowersForTwoAndAHalf();
    PowAdd(2, 48, 2);
    assert Pow(10, 4) == 10000;
  }

  lemma PowersForTwoAndAHalf()
    ensures Pow(2, 48) == 0x1_0000_0000_0000 && Pow(2, 61) == 0x2000_0000_0000_0000
  {
    PowersOfTwo();
    PowAdd(2, 4, 4);
    PowAdd(2, 8, 5);
    PowAdd(2, 8, 8);
    PowAdd(2, 16, 32);
    PowAdd(2, 13, 48);
  }

  lemma ProductForTwoAndAHalf()
    ensures ProductOf(0xA000_0000_0000_0000, 0x9C40_0000_0000_0000) == 25000 * 0x1_0000_0000_0000
  {
  }

  lemma TenThousandfold(x: int)
    ensures Tenfold(x, 4) == 10000 * x && Tenfold(x, 5) == 100000 * x
  {
    assert Tenfold(x, 1) == 10 * x;
    assert Tenfold(x, 2) == 100 * x;
    assert Tenfold(x, 3) == 1000 * x;
  }

  lemma MiddleOfUnit(f: nat, half: nat, digit: nat)
    requires half > 1 && 1 <= digit <= 9 && f == digit * (2 * half) + half
    ensures 2 * half <= f < 10 * (2 * half) && Halfway(f, 2 * half)
  {
    MulMonotone(1, digit, 2 * half);
    MulMonotone(digit, 9, 2 * half);
    DivModUnique(f, 2 * half, digit, half);
  }

  /** Scaled by 10^4, a number of one digit and a half is exactly in the middle of its first unit. */
  lemma HalfwayAfterDigit(f: nat, s: nat, digit: nat)
    requires Pow(2, s) > 0 && 1 <= digit <= 9 && f == digit * (2 * (5000 * Pow(2, s))) + 5000 * Pow(2, s)
    ensures Leads(f, s, 5) && Halfway(f, LeadUnit(s, 5))
  {
    TenThousandfold(Pow(2, s));
    MiddleOfUnit(f, 5000 * Pow(2, s), digit);
  }

  /** For 2.5 the fast generator is not certain; asked for no digits, the result is 0 in place of 2. */
  lemma TwoAndAHalf()
    ensures 0xA000_0000_0000_0000 == 5 * Pow(2, -1 - -62) && CachedPower(0x9C40_0000_0000_0000, -50, 4)
    ensures BinaryExponent(MinExponent(-62)) == -50 && DecimalExponent(MinExponent(-62)) == 4 && FractionBits(-62) == 48
    ensures var f := ProductOf(0xA000_0000_0000_0000, 0x9C40_0000_0000_0000);
            Leads(f, 48, 5) && Halfway(f, LeadUnit(48, 5))
    ensures RoundedAt(5, -1, 0) == 2 && RoundedAt(5, -1, 1) == 0
  {
    PowerForTwoAndAHalf();
    CachedTenThousand();
    PowersForTwoAndAHalf();
    ProductForTwoAndAHalf();
    HalfwayAfterDigit(25000 * Pow(2, 48), 48, 2);
    HalvesRounded();
  }

  lemma PowersForSevenAndAHalf()
    ensures Pow(2, 47) == 0x8000_0000_0000 && Pow(2, 60) == 0x1000_0000_0000_0000
  {
    PowersForTwoAndAHalf();
  }

  lemma PowerForSevenAndAHalf()
    ensures BinaryExponent(MinExponent(-61)) == -50 && DecimalExponent(MinExponent(-61)) == 4 && FractionBits(-61) == 47
  {
    assert CachedIndex(-63) == 44 by {
      assert Approximate(-63) == 0;
    }
  }

  /** The same for 7.5, which comes out as 10 in place of 8. */
  lemma SevenAndAHalf()
    ensures 0xF000_0000_0000_0000 == 15 * Pow(2, -1 - -61) && CachedPower(0x9C40_0000_0000_0000, -50, 4)
    ensures BinaryExponent(MinExponent(-61)) == -50 && DecimalExponent(MinExponent(-61)) == 4 && FractionBits(-61) == 47
    ensures var f := ProductOf(0xF000_0000_0000_0000, 0x9C40_0000_0000_0000);
            Leads(f, 47, 5) && Halfway(f, LeadUnit(47, 5))
    ensures RoundedAt(15, -1, 0) == 8 && RoundedAt(15, -1, 1) == 1
  {
    PowerForSevenAndAHalf();
    CachedTenThousand();
    PowersForSevenAndAHalf();
    assert ProductOf(0xF000_0000_0000_0000, 0x9C40_0000_0000_0000) == 75000 * 0x8000_0000_0000;
    HalfwayAfterDigit(75000 * Pow(2, 47), 47, 7);
    HalvesRounded();
  }

  /** The roundings of 2.5 and 7.5, and of 9.5, which is rightly ten. */
  lemma HalvesRounded()
    ensures RoundedAt(5, -1, 0) == 2 && RoundedAt(5, -1, 1) == 0
    ensures RoundedAt(15, -1, 0) == 8 && RoundedAt(15, -1, 1) == 1
    ensures RoundedAt(19, -1, 0) == 10 && RoundedAt(19, -1, 1) == 1
  {
    assert Pow(10, 1) == 10 && Pow(2, 1) == 2;
  }

  lemma ZeroDropped(buf: seq<char>, exp: int, place: int)
    requires |buf| > 0 && buf[|buf| - 1] == '0' && exp >= place
    ensures Tenfold(DigitsValue(buf), exp - place) == Tenfold(DigitsValue(buf[..|buf| - 1]), exp + 1 - place)
    ensures |buf| == 1 ==> Tenfold(DigitsValue(buf), exp - place) == 0
  {
    TenfoldTenfold(DigitsValue(buf[..|buf| - 1]), 1, exp - place);
    assert DigitsValue(buf) == Tenfold(DigitsValue(buf[..|buf| - 1]), 1);
    if |buf| == 1 {
      TenfoldIsProduct(0, exp - place);
    }
  }
}
