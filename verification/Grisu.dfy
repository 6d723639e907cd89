/** fmt's fast digit generator: fixed-precision Grisu, which either rounds for certain or gives up. */
module Grisu {
  import opened Arithmetic
  import opened Limbs
  import opened Decimal

  datatype Direction = Unknown | RoundUp | RoundDown

  datatype Progress = More | Done | Error

  /**
   * The direction in which a remainder known up to an error rounds against a divisor.
   * Every subtraction stays nonnegative and every product within a word.
   */
  function GetRoundDirection(divisor: uint64, remainder: uint64, error: uint64): (dir: Direction)
    requires remainder < divisor && error < divisor && error < divisor - error
    ensures dir == RoundDown <==> 2 * (remainder + error) <= divisor
    ensures dir == RoundUp <==> 2 * (remainder + error) > divisor && 2 * (remainder - error) >= divisor
  {
    if remainder <= divisor - remainder && error * 2 <= divisor - remainder * 2 then RoundDown
    else if remainder >= error && remainder - error >= divisor - (remainder - error) then RoundUp
    else Unknown
  }

  /** The number of decimal digits, four at a time. */
  method CountDigits(value: uint64) returns (count: nat)
    ensures count > 0 && value < Pow(10, count) && (value > 0 ==> Pow(10, count - 1) <= value)
  {
    var n: nat := value;
    count := 1;
    PowersOfTen();
    while n >= 10000
      invariant count > 0 && CountedAbove(value, n, count - 1)
      decreases n
    {
      CountedStep(value, n, count - 1);
      n := n / 10000;
      count := count + 4;
    }
    var rest := if n < 10 then 0 else if n < 100 then 1 else if n < 1000 then 2 else 3;
    CountedDone(value, n, count - 1, rest);
    count := count + rest;
  }

  /** All but the last c digits of value are those of n. */
  ghost predicate CountedAbove(value: nat, n: nat, c: nat) {
    n * Pow(10, c) <= value < (n + 1) * Pow(10, c) && (c > 0 ==> n > 0)
  }

  lemma PowersOfTen()
    ensures Pow(10, 1) == 10 && Pow(10, 2) == 100 && Pow(10, 3) == 1000 && Pow(10, 4) == 10000
  {
    PowAdd(10, 2, 2);
  }

  lemma CountedStep(value: nat, n: nat, c: nat)
    requires n >= 10000 && CountedAbove(value, n, c)
    ensures CountedAbove(value, n / 10000, c + 4)
  {
    PowersOfTen();
    PowAdd(10, 4, c);
    PowPositive(10, c);
    var q, p := n / 10000, Pow(10, c);
    MulMonotone(q * 10000, n, p);
    MulMonotone(n + 1, (q + 1) * 10000, p);
    MulAssociative(q, 10000, p);
    MulAssociative(q + 1, 10000, p);
  }

  lemma CountedDone(value: nat, n: nat, c: nat, rest: nat)
    requires CountedAbove(value, n, c) && rest <= 3
    requires n < Pow(10, rest + 1) && (n > 0 ==> Pow(10, rest) <= n)
    ensures value < Pow(10, c + 1 + rest) && (value > 0 ==> Pow(10, c + rest) <= value)
  {
    PowPositive(10, c);
    PowAdd(10, rest + 1, c);
    PowAdd(10, rest, c);
    MulMonotone(n + 1, Pow(10, rest + 1), Pow(10, c));
    if n > 0 {
      MulMonotone(Pow(10, rest), n, Pow(10, c));
    }
  }

  /** Every y within error of a rounds to m at this unit. */
  predicate RoundsFor(m: int, unit: int, a: int, error: int) {
    2 * Abs(m * unit - a) + 2 * error <= unit
  }

  /** No integer is the rounding, at this unit, of everything within error of a. */
  ghost predicate Undecided(unit: int, a: int, error: int) {
    forall m: int :: !RoundsFor(m, unit, a, error)
  }

  lemma NoneRounds(v: int, unit: int, a: int, r: int, error: int)
    requires a == v * unit + r && 0 <= r < unit && error >= 0
    requires 2 * (r + error) > unit && 2 * (r - error) < unit
    ensures Undecided(unit, a, error)
  {
    forall m: int
      ensures !RoundsFor(m, unit, a, error)
    {
      QuotientDistance(a, unit, v, r, m);
    }
  }

  /** Collects the digits of a number until there are enough of them, and then rounds or gives up. */
  class FixedHandler {
    var buf: seq<char>
    var precision: int
    var exp10: int
    const fixed: bool

    /** The digits' number at the position of the start: a shift of the decimal exponent stands for a zero. */
    ghost function Written(start: int): int
      reads this
    {
      if exp10 == start then DigitsValue(buf) else 10 * DigitsValue(buf)
    }

    constructor (precision: int, exp10: int, fixed: bool)
      ensures buf == [] && this.precision == precision && this.exp10 == exp10 && this.fixed == fixed
    {
      buf, this.precision, this.exp10, this.fixed := [], precision, exp10, fixed;
    }

    method OnStart(divisor: uint64, remainder: uint64, error: uint64, exp: int) returns (result: Progress)
      requires buf == [] && remainder < divisor && error < divisor && error < divisor - error
      modifies this`precision, this`buf
      ensures precision == old(precision) + if fixed then exp + exp10 else 0
      ensures result == More <==> !fixed || precision > 0
      ensures result == More ==> buf == []
      ensures result == Done ==> fixed && precision <= 0
      ensures result == Done && precision < 0 ==> buf == []
      ensures result == Done && precision == 0 ==>
                || (buf == ['1'] && 2 * (remainder - error) >= divisor)
                || (buf == ['0'] && 2 * (remainder + error) <= divisor)
      ensures result == Error ==> buf == [] && fixed && precision == 0
                                  && 2 * (remainder - error) < divisor < 2 * (remainder + error)
    {
      if !fixed {
        return More;
      }
      precision := precision + exp + exp10;
      if precision > 0 {
        return More;
      }
      if precision < 0 {
        return Done;
      }
      var dir := GetRoundDirection(divisor, remainder, error);
      if dir == Unknown {
        return Error;
      }
      buf := buf + [if dir == RoundUp then '1' else '0'];
      return Done;
    }

    /** Takes the next digit of a number a, whose digits so far leave remainder below the current unit. */
    method OnDigit(digit: char, divisor: uint64, remainder: uint64, error: uint64, integral: bool, ghost a: int)
      returns (result: Progress)
      requires AllDigits(buf) && IsDigit(digit) && remainder < divisor
      requires integral ==> error == 1 && divisor > 2
      requires a == DigitsValue(buf + [digit]) * divisor + remainder
      modifies this`buf, this`exp10
      ensures result == More ==> buf == old(buf) + [digit] && |buf| < precision && (!integral ==> error < remainder)
      ensures result == Error ==> buf == old(buf) + [digit]
      ensures result == Error ==>
                (!integral && error >= remainder) || (|buf| >= precision && Undecided(divisor, a, error))
      ensures result != Done ==> exp10 == old(exp10)
      ensures result == Done ==>
                && AllDigits(buf) && |old(buf)| + 1 >= precision && |buf| >= |old(buf)| + 1
                && |buf| <= |old(buf)| + 1 + (if fixed then 1 else 0)
                && old(exp10) <= exp10 <= old(exp10) + (if fixed then 0 else 1)
                && RoundsFor(Written(old(exp10)), divisor, a, error)
    {
      buf := buf + [digit];
      if !integral && error >= remainder {
        return Error;
      }
      if |buf| < precision {
        return More;
      }
      if !integral {
        if error >= divisor || error >= divisor - error {
          NoneRounds(DigitsValue(buf), divisor, a, remainder, error);
          return Error;
        }
      }
      var dir := GetRoundDirection(divisor, remainder, error);
      NearestMultiples(DigitsValue(buf), divisor, a, remainder, error);
      if dir != RoundUp {
        if dir == Unknown {
          NoneRounds(DigitsValue(buf), divisor, a, remainder, error);
        }
        return if dir == RoundDown then Done else Error;
      }
      RoundUpLast();
      return Done;
    }

    /** Adds one to the last digit; a carry out of the first one lengthens a fixed number, or shifts any other. */
    method RoundUpLast()
      requires |buf| > 0 && AllDigits(buf)
      modifies this`buf, this`exp10
      ensures AllDigits(buf) && |old(buf)| <= |buf| <= |old(buf)| + (if fixed then 1 else 0)
      ensures old(exp10) <= exp10 <= old(exp10) + (if fixed then 0 else 1)
      ensures Written(old(exp10)) == DigitsValue(old(buf)) + 1
    {
      var last := |buf| - 1;
      var overflow;
      buf, overflow := PropagateCarry(buf[last := (buf[last] as int + 1) as char]);
      if overflow {
        if fixed {
          DigitsSnoc(buf, '0');
          buf := buf + ['0'];
        } else {
          exp10 := exp10 + 1;
        }
      }
    }
  }

  lemma NearestMultiples(v: int, unit: int, a: int, r: int, error: int)
    requires a == v * unit + r && 0 <= r < unit
    ensures 2 * (r + error) <= unit ==> RoundsFor(v, unit, a, error)
    ensures 2 * (r - error) >= unit ==> RoundsFor(v + 1, unit, a, error)
  {
    QuotientDistance(a, unit, v, r, v);
    QuotientDistance(a, unit, v, r, v + 1);
  }

  /** 10^k units, where one is the scaled unit. */
  lemma PlaceIsProduct(one: nat, k: nat)
    ensures Tenfold(one, k) == Pow(10, k) * one
  {
    TenfoldIsProduct(one, k);
  }

  /**
   * The claim of digit generation for the number f * 2^-s: m at the decimal position exp is right for everything
   * within one unit of f. Below the decimal point the comparison is scaled by the power of ten generated so far.
   */
  predicate Rounded(m: int, f: int, s: nat, exp: int) {
    if exp >= 0 then RoundsFor(m, Tenfold(Pow(2, s), exp), f, 1)
    else RoundsFor(m, Pow(2, s), Tenfold(f, -exp), Tenfold(1, -exp))
  }

  /**
   * Why generation ends without an answer at the decimal position exp: no rounding there is right for everything
   * within one unit of f, or, below the decimal point, f is so close above a shorter decimal that it is not tried.
   */
  ghost predicate NoAnswer(f: int, s: nat, exp: int) {
    if exp >= 0 then Undecided(Tenfold(Pow(2, s), exp), f, 1)
    else
      || CloseAbove(Pow(2, s), Tenfold(f, -exp), Tenfold(1, -exp))
      || Undecided(Pow(2, s), Tenfold(f, -exp), Tenfold(1, -exp))
  }

  /** The number f * 2^-s has kappa decimal digits before the point. */
  predicate Leads(f: int, s: nat, kappa: nat) {
    kappa > 0 && Tenfold(Pow(2, s), kappa - 1) <= f < Tenfold(Pow(2, s), kappa)
  }

  /** How many digits are generated if all goes well: at least one, except with fixed notation. */
  function Count(fixed: bool, precision: int): nat {
    if precision > 0 then precision else if fixed then 0 else 1
  }

  /** a is a multiple of the unit, or above one by no more than the error. */
  ghost predicate CloseAbove(unit: int, a: int, error: int) {
    exists v: int :: 0 <= Above(a, v, unit) <= error
  }

  function Above(a: int, v: int, unit: int): int {
    a - v * unit
  }

  /**
   * Generates digits of the number f * 2^-s until the handler is satisfied or cannot decide. All words stay
   * within 64 bits, and the loop over the fraction ends because the error grows tenfold below the remainder.
   */
  method GenDigits(f: uint64, s: nat, handler: FixedHandler) returns (result: Progress, exp: int, ghost kappa: nat)
    requires 32 <= s <= 60 && Pow(2, s) <= f
    requires handler.buf == []
    modifies handler
    ensures result != More && kappa <= 10 && Leads(f, s, kappa)
    ensures handler.precision == old(handler.precision) + if handler.fixed then kappa + old(handler.exp10) else 0
    ensures result == Done ==> exp == kappa - Count(handler.fixed, handler.precision)
    ensures result == Done ==> (handler.buf == [] <==> handler.fixed && handler.precision < 0)
    ensures result == Done && handler.buf == [] ==> Rounded(0, f, s, exp - handler.precision)
    ensures result == Done ==>
              old(handler.exp10) <= handler.exp10 <= old(handler.exp10) + (if handler.fixed then 0 else 1)
    ensures result == Done && handler.buf != [] ==>
              && AllDigits(handler.buf)
              && Rounded(handler.Written(old(handler.exp10)), f, s, exp)
    ensures result == Done && handler.buf != [] ==>
              Max(handler.precision, 1) <= |handler.buf|
              <= Max(handler.precision, 1) + (if handler.fixed && handler.precision > 0 then 1 else 0)
    ensures result == Error ==>
              && exp == kappa - |handler.buf| && handler.exp10 == old(handler.exp10)
              && (exp >= 0 ==> |handler.buf| == Count(handler.fixed, handler.precision))
              && (exp < 0 ==> handler.precision > kappa)
              && (handler.fixed ==> handler.precision >= 0)
              && if handler.buf == [] then Abs(2 * f - Tenfold(Pow(2, s), exp)) < 218 else NoAnswer(f, s, exp)
  {
    OneFits(s);
    var one: uint64 := Pow(2, s);
    var integral, fractional := SplitNumber(f, one);
    var place;
    exp, place := FirstPlace(f, one, integral, fractional);
    kappa := exp;
    result := handler.OnStart(place, f / 10, 10, exp);
    if result != More {
      StartRounds(f, one, exp, handler.precision, handler.buf);
      return;
    }
    result, exp := IntegralDigits(f, one, integral, fractional, exp, handler);
    if result != More {
      return;
    }
    result, exp := FractionDigits(f, one, fractional, handler);
  }

  /** The number of integral digits, and the unit of the first one. */
  method FirstPlace(f: uint64, one: uint64, integral: uint32, ghost fractional: nat)
    returns (exp: nat, place: uint64)
    requires integral > 0 && one > 20 && f == Times(integral, one) + fractional && fractional < one
    ensures 0 < exp <= 10 && Pow(10, exp - 1) <= integral < Pow(10, exp)
    ensures place == Tenfold(one, exp - 1) && f < Tenfold(one, exp)
    ensures one <= place <= f && f / 10 < place
  {
    exp := CountDigits(integral);
    LeadingPlace(f, one, integral, fractional, exp);
    AtMostTenDigits(integral, exp);
    place := ShiftedPower(one, exp - 1, f);
  }

  lemma OneFits(s: nat)
    requires 32 <= s <= 60
    ensures 0x1_0000_0000 <= Pow(2, s) <= 0x1000_0000_0000_0000
  {
    assert Pow(2, 32) == 0x1_0000_0000 by { PowersOfTwo(); }
    PowMonotone(2, 32, s);
    PowMonotone(2, s, 60);
    PowAdd(2, 32, 28);
    PowAdd(2, 14, 14);
    PowAdd(2, 7, 7);
  }

  /** The shift and mask that split the number at the decimal point; the integral part is one word and not zero. */
  method SplitNumber(f: uint64, one: uint64) returns (integral: uint32, fractional: uint64)
    requires 0x1_0000_0000 <= one <= f
    ensures integral > 0 && fractional < one && f == Times(integral, one) + fractional
  {
    IntegralFits(f, one);
    integral, fractional := f / one, f % one;
    TimesIsProduct(integral, one);
  }

  lemma IntegralFits(f: uint64, one: nat)
    requires 0x1_0000_0000 <= one <= f
    ensures 0 < f / one < 0x1_0000_0000 && f == (f / one) * one + f % one
  {
    var q := f / one;
    if q >= 0x1_0000_0000 {
      MulMonotone(0x1_0000_0000, q, one);
    }
  }

  lemma AtMostTenDigits(value: uint32, count: nat)
    requires count > 0 && Pow(10, count - 1) <= value
    ensures count <= 10
  {
    if count > 10 {
      PowMonotone(10, 10, count - 1);
      PowAdd(10, 5, 5);
    }
  }

  /** The leading decimal place is at most f, and the next one above it exceeds f. */
  lemma LeadingPlace(f: nat, one: nat, integral: nat, fractional: nat, exp: nat)
    requires f == Times(integral, one) + fractional && fractional < one && exp > 0
    requires Pow(10, exp - 1) <= integral < Pow(10, exp)
    ensures Tenfold(one, exp - 1) <= f < Tenfold(one, exp)
    ensures one <= Tenfold(one, exp - 1)
  {
    TimesIsProduct(integral, one);
    PlaceIsProduct(one, exp - 1);
    PlaceIsProduct(one, exp);
    PowPositive(10, exp - 1);
    MulMonotone(1, Pow(10, exp - 1), one);
    MulMonotone(Pow(10, exp - 1), integral, one);
    MulMonotone(integral + 1, Pow(10, exp), one);
  }

  /** The start handler's decision, taken on a tenth of the number, is right for the number itself. */
  lemma StartRounds(f: nat, one: nat, exp: nat, precision: int, buf: seq<char>)
    requires exp > 0 && 0 < f < Tenfold(one, exp)
    ensures buf == ['1'] && 2 * (f / 10 - 10) >= Tenfold(one, exp - 1) ==>
              RoundsFor(DigitsValue(buf), Tenfold(one, exp), f, 1)
    ensures buf == ['0'] && 2 * (f / 10 + 10) <= Tenfold(one, exp - 1) ==>
              RoundsFor(DigitsValue(buf), Tenfold(one, exp), f, 1)
    ensures precision < 0 ==> RoundsFor(0, Tenfold(one, exp - precision), f, 1)
    ensures 2 * (f / 10 - 10) < Tenfold(one, exp - 1) < 2 * (f / 10 + 10) ==> Abs(2 * f - Tenfold(one, exp)) < 218
  {
    if |buf| == 1 {
      DigitsSnoc([], buf[0]);
      assert buf == [] + [buf[0]];
    }
    if precision < 0 {
      TenfoldGrows(one, exp, exp - precision);
    }
  }

  lemma {:induction false} TenfoldGrows(x: nat, i: nat, j: nat)
    requires i < j
    ensures Tenfold(x, j) >= 10 * Tenfold(x, i) >= 0
  {
    if i + 1 < j {
      TenfoldGrows(x, i, j - 1);
    } else if i > 0 {
      TenfoldGrows(x, i - 1, i);
    }
  }

  /** The digits before the decimal point. */
  method IntegralDigits(f: uint64, one: uint64, integral0: uint32, fractional: uint64, kappa: nat,
                        handler: FixedHandler)
    returns (result: Progress, exp: int)
    requires one >= 0x1_0000_0000 && Generated(f, [], one, kappa, integral0, fractional) && fractional < one
    requires kappa > 0 && Pow(10, kappa - 1) <= integral0 < Pow(10, kappa)
    requires handler.buf == []
    modifies handler`buf, handler`exp10
    ensures result == More ==>
              && exp == 0 && AllDigits(handler.buf) && handler.exp10 == old(handler.exp10)
              && Generated(f, handler.buf, one, 0, 0, fractional)
              && |handler.buf| == kappa < handler.precision
    ensures result == Error ==>
              && handler.exp10 == old(handler.exp10)
              && |handler.buf| == kappa - exp == (if handler.precision > 0 then handler.precision else 1)
              && exp >= 0 && Undecided(Tenfold(one, exp), f, 1)
    ensures result == Done ==>
              && exp >= 0 && AllDigits(handler.buf) && handler.buf != []
              && old(handler.exp10) <= handler.exp10 <= old(handler.exp10) + (if handler.fixed then 0 else 1)
              && kappa - exp == (if handler.precision > 0 then handler.precision else 1)
              && RoundsFor(handler.Written(old(handler.exp10)),
                           Tenfold(one, exp), f, 1)
              && Max(handler.precision, 1) <= |handler.buf|
              && |handler.buf| <= Max(handler.precision, 1) + (if handler.fixed then 1 else 0)
  {
    var integral: uint32 := integral0;
    exp := kappa;
    result := More;
    while exp > 0
      invariant 0 <= exp <= kappa && (exp == kappa || result == More)
      invariant AllDigits(handler.buf) && handler.exp10 == old(handler.exp10)
      invariant |handler.buf| == kappa - exp && (exp < kappa ==> |handler.buf| < handler.precision)
      invariant integral < Pow(10, exp)
      invariant Generated(f, handler.buf, one, exp, integral, fractional)
    {
      PlaceFits(f, one, integral0, fractional, exp - 1, kappa);
      result, integral := IntegralDigit(f, one, integral, fractional, exp, handler);
      exp := exp - 1;
      if result != More {
        return;
      }
    }
  }

  /** The digits generated so far, the rest of the integral part, and the fraction make up f. */
  ghost predicate Generated(f: int, buf: seq<char>, one: nat, exp: nat, integral: nat, fractional: nat) {
    f == Times(DigitsValue(buf), Tenfold(one, exp)) + Times(integral, one) + fractional
  }

  lemma GeneratedIsSplit(f: int, buf: seq<char>, one: nat, exp: nat, integral: nat, fractional: nat)
    requires AllDigits(buf)
    ensures Generated(f, buf, one, exp, integral, fractional)
            <==> f == DigitsValue(buf) * Tenfold(one, exp) + integral * one + fractional
  {
    DigitsNonNegative(buf);
    TimesIsProduct(DigitsValue(buf), Tenfold(one, exp));
    TimesIsProduct(integral, one);
  }

  /** One digit before the decimal point; the divisor is a constant of the table of powers of ten. */
  method IntegralDigit(f: uint64, one: uint64, integral: uint32, fractional: uint64, exp: nat, handler: FixedHandler)
    returns (result: Progress, rest: uint32)
    requires exp > 0 && integral < Pow(10, exp) && fractional < one
    requires AllDigits(handler.buf) && Generated(f, handler.buf, one, exp, integral, fractional)
    requires 2 < Tenfold(one, exp - 1) <= f
    modifies handler`buf, handler`exp10
    ensures result == More ==>
              && rest < Pow(10, exp - 1) && AllDigits(handler.buf) && handler.exp10 == old(handler.exp10)
              && Generated(f, handler.buf, one, exp - 1, rest, fractional)
              && |handler.buf| == |old(handler.buf)| + 1 < handler.precision
    ensures result == Error ==>
              && handler.exp10 == old(handler.exp10) && |handler.buf| == |old(handler.buf)| + 1
              && handler.precision <= |handler.buf| && Undecided(Tenfold(one, exp - 1), f, 1)
    ensures result == Done ==>
              && AllDigits(handler.buf) && |old(handler.buf)| < |handler.buf|
              && handler.precision <= |old(handler.buf)| + 1
              && |handler.buf| <= |old(handler.buf)| + 1 + (if handler.fixed then 1 else 0)
              && old(handler.exp10) <= handler.exp10 <= old(handler.exp10) + (if handler.fixed then 0 else 1)
              && RoundsFor(handler.Written(old(handler.exp10)), Tenfold(one, exp - 1), f, 1)
  {
    var digit;
    digit, rest := DivmodIntegral(integral, exp);
    GeneratedIsSplit(f, handler.buf, one, exp, integral, fractional);
    IntegralStep(f, one, fractional, handler.buf, exp, integral, digit, rest);
    var place := ShiftedPower(one, exp - 1, f);
    var remainder := ShiftedRemainder(rest, one, fractional, place);
    GeneratedIsSplit(f, handler.buf + [DigitChar(digit)], one, exp - 1, rest, fractional);
    result := handler.OnDigit(DigitChar(digit), place, remainder, 1, true, f);
  }

  /** The division by a constant that the switch over the number of digits selects. */
  method DivmodIntegral(integral: uint32, exp: nat) returns (digit: nat, rest: uint32)
    requires exp > 0 && integral < Pow(10, exp)
    ensures digit <= 9 && rest < Pow(10, exp - 1) && integral == digit * Pow(10, exp - 1) + rest
  {
    var divisor := Pow(10, exp - 1);
    PowPositive(10, exp - 1);
    digit, rest := integral / divisor, integral % divisor;
    QuotientIsDigit(integral, divisor, digit, rest);
  }

  lemma QuotientIsDigit(n: nat, d: nat, q: nat, r: nat)
    requires d > 0 && n < 10 * d && q == n / d && r == n % d
    ensures q <= 9 && n == q * d + r && r < d
  {
    if q >= 10 {
      MulMonotone(10, q, d);
    }
  }

  /** The table entry shifted to the scaled unit, where it is known to fit. */
  method ShiftedPower(one: uint64, k: nat, ghost f: uint64) returns (place: uint64)
    requires Tenfold(one, k) <= f
    ensures place == Tenfold(one, k)
  {
    PlaceIsProduct(one, k);
    place := Pow(10, k) * one;
  }

  method ShiftedRemainder(rest: uint32, one: uint64, fractional: uint64, ghost place: uint64)
    returns (remainder: uint64)
    requires rest * one + fractional < place
    ensures remainder == rest * one + fractional
  {
    remainder := (rest as nat) * one + fractional;
  }

  /** One more digit of the integral part. */
  lemma IntegralStep(f: int, one: nat, fractional: nat, buf: seq<char>, exp: nat, integral: nat, digit: nat, rest: nat)
    requires exp > 0 && integral < Pow(10, exp) && fractional < one
    requires digit <= 9 && rest < Pow(10, exp - 1) && integral == digit * Pow(10, exp - 1) + rest
    requires f == DigitsValue(buf) * Tenfold(one, exp) + integral * one + fractional
    ensures f == DigitsValue(buf + [DigitChar(digit)]) * Tenfold(one, exp - 1) + (rest * one + fractional)
    ensures 0 <= rest * one + fractional < Tenfold(one, exp - 1)
  {
    var p, t, v := Pow(10, exp - 1), Tenfold(one, exp - 1), DigitsValue(buf);
    DigitsSnoc(buf, DigitChar(digit));
    PlaceIsProduct(one, exp - 1);
    IntegralAlgebra(v, t, p, one, integral, digit, rest);
    MulMonotone(rest + 1, p, one);
  }

  lemma IntegralAlgebra(v: int, t: int, p: int, one: int, integral: int, digit: int, rest: int)
    requires t == p * one && integral == digit * p + rest
    ensures v * (10 * t) + integral * one == (10 * v + digit) * t + rest * one
    ensures (rest + 1) * one == rest * one + one
  {
    assert (digit * p + rest) * one == digit * (p * one) + rest * one;
    assert (10 * v + digit) * t == v * (10 * t) + digit * t;
  }

  /** No place above the last of the integral part overflows. */
  lemma PlaceFits(f: nat, one: nat, integral0: nat, fractional: nat, exp: nat, kappa: nat)
    requires Generated(f, [], one, kappa, integral0, fractional) && exp < kappa
    requires Pow(10, kappa - 1) <= integral0 && one >= 0x1_0000_0000
    ensures 2 < Tenfold(one, exp) <= f
  {
    GeneratedIsSplit(f, [], one, kappa, integral0, fractional);
    PlaceIsProduct(one, exp);
    PowMonotone(10, exp, kappa - 1);
    PowPositive(10, exp);
    MulMonotone(Pow(10, exp), integral0, one);
    MulMonotone(1, Pow(10, exp), one);
  }

  /** The digits after the decimal point. */
  method FractionDigits(f: uint64, one: uint64, fractional0: uint64, handler: FixedHandler)
    returns (result: Progress, exp: int)
    requires 0x1_0000_0000 <= one <= 0x1000_0000_0000_0000 && fractional0 < one
    requires AllDigits(handler.buf) && Generated(f, handler.buf, one, 0, 0, fractional0)
    requires |handler.buf| < handler.precision
    modifies handler`buf, handler`exp10
    ensures exp < 0 && result != More
    ensures result == Error ==>
              && handler.exp10 == old(handler.exp10) && |handler.buf| == |old(handler.buf)| - exp
              && (|| CloseAbove(one, Tenfold(f, -exp), Tenfold(1, -exp))
                  || Undecided(one, Tenfold(f, -exp), Tenfold(1, -exp)))
    ensures result == Done ==>
              && AllDigits(handler.buf) && handler.buf != [] && |old(handler.buf)| - exp == handler.precision
              && old(handler.exp10) <= handler.exp10 <= old(handler.exp10) + (if handler.fixed then 0 else 1)
              && RoundsFor(handler.Written(old(handler.exp10)),
                           one, Tenfold(f, -exp), Tenfold(1, -exp))
              && handler.precision <= |handler.buf| <= handler.precision + (if handler.fixed then 1 else 0)
  {
    var fractional: uint64, error: uint64 := fractional0, 1;
    exp := 0;
    while true
      invariant exp <= 0 && fractional < one && (exp < 0 ==> error < fractional)
      invariant AllDigits(handler.buf) && |handler.buf| < handler.precision && handler.exp10 == old(handler.exp10)
      invariant |handler.buf| == |old(handler.buf)| - exp
      invariant error == Tenfold(1, -exp) && 0 < error
      invariant Generated(Tenfold(f, -exp), handler.buf, one, 0, 0, fractional)
      decreases one - error
    {
      error := error * 10;
      result, fractional := FractionDigit(Tenfold(f, -exp), one, fractional, error, handler);
      exp := exp - 1;
      if result != More {
        return;
      }
    }
  }

  /** One digit after the decimal point. */
  method FractionDigit(ghost a: int, one: uint64, fractional: uint64, error: uint64, handler: FixedHandler)
    returns (result: Progress, rest: uint64)
    requires 0 < one <= 0x1000_0000_0000_0000 && fractional < one
    requires AllDigits(handler.buf) && Generated(a, handler.buf, one, 0, 0, fractional)
    modifies handler`buf, handler`exp10
    ensures result == More ==>
              && error < rest < one && AllDigits(handler.buf) && handler.exp10 == old(handler.exp10)
              && Generated(10 * a, handler.buf, one, 0, 0, rest)
              && |handler.buf| == |old(handler.buf)| + 1 < handler.precision
    ensures result == Error ==>
              && handler.exp10 == old(handler.exp10) && |handler.buf| == |old(handler.buf)| + 1
              && (CloseAbove(one, 10 * a, error) || Undecided(one, 10 * a, error))
    ensures result == Done ==>
              && AllDigits(handler.buf) && |old(handler.buf)| < |handler.buf|
              && handler.precision <= |old(handler.buf)| + 1
              && |handler.buf| <= |old(handler.buf)| + 1 + (if handler.fixed then 1 else 0)
              && old(handler.exp10) <= handler.exp10 <= old(handler.exp10) + (if handler.fixed then 0 else 1)
              && RoundsFor(handler.Written(old(handler.exp10)), one, 10 * a, error)
  {
    var scaled: uint64 := fractional * 10;
    var digit;
    digit, rest := DivmodFraction(scaled, one);
    GeneratedIsSplit(a, handler.buf, one, 0, 0, fractional);
    FractionStep(10 * a, one, handler.buf, scaled, digit, rest);
    GeneratedIsSplit(10 * a, handler.buf + [DigitChar(digit)], one, 0, 0, rest);
    assert Above(10 * a, DigitsValue(handler.buf + [DigitChar(digit)]), one) == rest;
    result := handler.OnDigit(DigitChar(digit), one, rest, error, false, 10 * a);
  }

  /** The shift and mask that split the scaled fraction. */
  method DivmodFraction(fractional: uint64, one: uint64) returns (digit: nat, rest: uint64)
    requires one > 0 && fractional < 10 * one
    ensures digit <= 9 && rest < one && fractional == digit * one + rest
  {
    digit, rest := fractional / one, fractional % one;
    QuotientIsDigit(fractional, one, digit, rest);
  }

  lemma FractionStep(a: int, one: nat, buf: seq<char>, fractional: nat, digit: nat, rest: nat)
    requires digit <= 9 && fractional == digit * one + rest
    requires a == 10 * (DigitsValue(buf) * one) + fractional
    ensures a == DigitsValue(buf + [DigitChar(digit)]) * one + rest
  {
    DigitsSnoc(buf, DigitChar(digit));
    FractionAlgebra(DigitsValue(buf), digit, one);
  }

  lemma FractionAlgebra(v: int, digit: int, one: int)
    ensures (10 * v + digit) * one == 10 * (v * one) + digit * one
  {
  }
}
