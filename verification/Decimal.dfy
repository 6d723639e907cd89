/** Decimal digit strings and correct rounding, the vocabulary of the two digit generators. */
module Decimal {
  import opened Arithmetic

  predicate IsDigit(c: char) {
    '0' <= c <= '9'
  }

  predicate AllDigits(s: seq<char>) {
    forall k :: 0 <= k < |s| ==> IsDigit(s[k])
  }

  function DigitChar(d: nat): char
    requires d <= 10
  {
    ('0' as int + d) as char
  }

  /** The number written by s; a character just past '9' counts as ten. */
  function DigitsValue(s: seq<char>): int {
    if |s| == 0 then 0 else 10 * DigitsValue(s[..|s| - 1]) + (s[|s| - 1] as int - '0' as int)
  }

  lemma DigitsSnoc(s: seq<char>, c: char)
    ensures DigitsValue(s + [c]) == 10 * DigitsValue(s) + (c as int - '0' as int)
  {
    assert (s + [c])[..|s|] == s;
  }

  lemma {:induction false} DigitsNonNegative(buf: seq<char>)
    requires AllDigits(buf)
    ensures DigitsValue(buf) >= 0
  {
    if |buf| > 0 {
      DigitsNonNegative(buf[..|buf| - 1]);
    }
  }

  lemma {:induction false} DigitsZeros(s: seq<char>, n: nat)
    requires n <= |s| && forall k :: n <= k < |s| ==> s[k] == '0'
    ensures DigitsValue(s) == DigitsValue(s[..n]) * Pow(10, |s| - n)
  {
    if n == |s| {
      assert s[..n] == s;
    } else {
      var t := s[..|s| - 1];
      DigitsZeros(t, n);
      assert t[..n] == s[..n];
      MulAssociative(DigitsValue(s[..n]), Pow(10, |t| - n), 10);
    }
  }

  /** Ten units at one place are one unit at the place before it. */
  lemma {:induction false} CarryKeepsValue(s: seq<char>, i: nat, up: char)
    requires 0 < i < |s| && s[i] as int == '0' as int + 10 && up as int == s[i - 1] as int + 1
    ensures DigitsValue(s[i := '0'][i - 1 := up]) == DigitsValue(s)
  {
    var t, n := s[i := '0'][i - 1 := up], |s| - 1;
    if i == n {
      assert t[..n][..n - 1] == s[..n][..n - 1];
    } else {
      CarryKeepsValue(s[..n], i, up);
      assert t[..n] == s[..n][i := '0'][i - 1 := up];
    }
  }

  /** The number x scaled by a power of ten, by repeated multiplication with a constant. */
  function Tenfold(x: int, i: nat): int {
    if i == 0 then x else 10 * Tenfold(x, i - 1)
  }

  lemma {:induction false} TenfoldIsProduct(x: int, i: nat)
    ensures Tenfold(x, i) == x * Pow(10, i)
  {
    if i > 0 {
      TenfoldIsProduct(x, i - 1);
      assert 10 * (x * Pow(10, i - 1)) == x * (10 * Pow(10, i - 1));
    }
  }

  lemma {:induction false} TenfoldTimes(x: int, d: int, i: nat)
    ensures Tenfold(x * d, i) == Tenfold(x, i) * d
  {
    if i > 0 {
      TenfoldTimes(x, d, i - 1);
      MulAssociative(10, Tenfold(x, i - 1), d);
    }
  }

  lemma {:induction false} TenfoldAdd(x: int, y: int, i: nat)
    ensures Tenfold(x + y, i) == Tenfold(x, i) + Tenfold(y, i)
  {
    if i > 0 {
      TenfoldAdd(x, y, i - 1);
    }
  }

  /** The integer nearest to a / b, ties going to the even one. */
  function RoundHalfEven(a: nat, b: nat): nat
    requires b > 0
  {
    var q, r := a / b, a % b;
    if 2 * r > b || (2 * r == b && q % 2 == 1) then q + 1 else q
  }

  /** RoundHalfEven is within half a unit, and even on a tie; nothing else is. */
  lemma RoundHalfEvenIsNearest(a: nat, b: nat, k: int)
    requires b > 0
    ensures k == RoundHalfEven(a, b)
            <==> 2 * Abs(k * b - a) < b || (2 * Abs(k * b - a) == b && k % 2 == 0)
  {
    var q, r := a / b, a % b;
    QuotientDistance(a, b, q, r, k);
    if k == q {
      assert Abs(k * b - a) == r;
    } else if k == q + 1 {
      assert Abs(k * b - a) == b - r;
    } else {
      assert Abs(k * b - a) >= b;
    }
  }

  lemma QuotientDistance(a: int, b: int, q: int, r: int, k: int)
    requires b > 0 && a == q * b + r && 0 <= r < b
    ensures k == q ==> k * b - a == -r
    ensures k == q + 1 ==> k * b - a == b - r
    ensures k < q ==> k * b - a <= -b
    ensures k > q + 1 ==> k * b - a >= b
  {
    assert k * b - a == (k - q) * b - r;
    if k < q {
      MulMonotone(k - q, -1, b);
    } else if k > q + 1 {
      MulMonotone(2, k - q, b);
    }
  }

  function Abs(x: int): int {
    if x < 0 then -x else x
  }

  lemma RoundHalfEvenScales(a: nat, b: nat, c: nat)
    requires b > 0 && c > 0
    ensures b * c > 0 && RoundHalfEven(a * c, b * c) == RoundHalfEven(a, b)
  {
    MulPositive(b, c);
    var q, r := a / b, a % b;
    ScaledQuotient(a, b, q, r, c);
    RoundedQuotient(a * c, b * c, q, r * c);
  }

  lemma ScaledQuotient(a: int, b: int, q: int, r: int, c: int)
    requires a == q * b + r && 0 <= r < b && c > 0
    ensures a * c == q * (b * c) + r * c && 0 <= r * c < b * c
    ensures 2 * r < b <==> 2 * (r * c) < b * c
    ensures 2 * r > b <==> 2 * (r * c) > b * c
  {
    assert (q * b) * c == q * (b * c);
    MulStrict(r, b, c);
    MulMonotone(0, r, c);
    ProductOrder(2 * r, b, c);
    assert (2 * r) * c == 2 * (r * c);
  }

  lemma ProductOrder(x: int, y: int, c: int)
    requires c > 0
    ensures x < y <==> x * c < y * c
    ensures x > y <==> x * c > y * c
  {
    if x < y { MulStrict(x, y, c); } else { MulMonotone(y, x, c); }
    if x > y { MulStrict(y, x, c); } else { MulMonotone(x, y, c); }
  }

  /** What one more digit of a long division adds to the quotient. */
  lemma RoundedQuotient(a: nat, b: nat, q: nat, r: nat)
    requires b > 0 && a == q * b + r && r < b
    ensures RoundHalfEven(a, b) == if 2 * r > b || (2 * r == b && q % 2 == 1) then q + 1 else q
  {
    DivModUnique(a, b, q, r);
  }

  /**
   * Passes a carry out of the last place leftwards: the last character may be one past '9'.
   * The number written stays the same, except that a carry out of the first place leaves a
   * number ten times smaller.
   */
  method PropagateCarry(digits: seq<char>) returns (buf: seq<char>, overflow: bool)
    requires |digits| > 0 && AllDigits(digits[..|digits| - 1])
    requires '0' as int <= digits[|digits| - 1] as int <= '0' as int + 10
    ensures |buf| == |digits| && AllDigits(buf)
    ensures DigitsValue(digits) == DigitsValue(buf) * if overflow then 10 else 1
    ensures overflow ==> buf[0] == '1' && forall k :: 0 < k < |buf| ==> buf[k] == '0'
  {
    buf := digits;
    var i := |buf| - 1;
    while i > 0 && buf[i] > '9'
      invariant 0 <= i < |buf| == |digits|
      invariant forall k :: 0 <= k < i ==> IsDigit(buf[k])
      invariant forall k :: i < k < |buf| ==> buf[k] == '0'
      invariant '0' as int <= buf[i] as int <= '0' as int + 10
      invariant DigitsValue(buf) == DigitsValue(digits)
    {
      var up := (buf[i - 1] as int + 1) as char;
      CarryKeepsValue(buf, i, up);
      buf := buf[i := '0'][i - 1 := up];
      i := i - 1;
    }
    overflow := buf[0] > '9';
    if overflow {
      DigitsZeros(buf, 1);
      buf := buf[0 := '1'];
      DigitsZeros(buf, 1);
    }
  }
}
