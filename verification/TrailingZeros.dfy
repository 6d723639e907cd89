/** Removal of decimal trailing zeros without division: modular inverses for the fives, a shift for the twos. */
module TrailingZeros {
  import opened Arithmetic
  import opened Limbs
  import opened Decimal
  import opened WordProducts

  /** The shift n >> s. */
  function Shr(n: nat, s: nat): nat {
    if s == 0 then n else Shr(n / 2, s - 1)
  }

  /** 2^s divides n. */
  predicate Even(n: nat, s: nat) {
    s == 0 || (n % 2 == 0 && Even(n / 2, s - 1))
  }

  function Twofold(x: nat, s: nat): nat {
    if s == 0 then x else 2 * Twofold(x, s - 1)
  }

  function Fivefold(x: nat, s: nat): nat {
    if s == 0 then x else 5 * Fivefold(x, s - 1)
  }

  /** The number of trailing zero bits of a nonzero word, the compiler's builtin. */
  function CountTrailingZeros(n: nat): (t: nat)
    requires n > 0
    ensures Even(n, t) && Shr(n, t) % 2 == 1
  {
    if n % 2 == 1 then 0 else 1 + CountTrailingZeros(n / 2)
  }

  lemma {:induction false} EvenLess(n: nat, s: nat, t: nat)
    requires s <= t && Even(n, t)
    ensures Even(n, s)
  {
    if s > 0 {
      EvenLess(n / 2, s - 1, t - 1);
    }
  }

  lemma {:induction false} EvenOfFivefold(n: nat, s: nat)
    requires Even(5 * n, s)
    ensures Even(n, s)
  {
    if s > 0 {
      assert (5 * n) / 2 == 5 * (n / 2);
      EvenOfFivefold(n / 2, s - 1);
    }
  }

  lemma {:induction false} EvenDifference(a: nat, b: nat, s: nat)
    requires Even(a, s) && Even(a + b, s)
    ensures Even(b, s)
  {
    if s > 0 {
      assert (a + b) / 2 == a / 2 + b / 2;
      EvenDifference(a / 2, b / 2, s - 1);
    }
  }

  lemma {:induction false} FivefoldEven(x: nat, s: nat)
    requires x % 2 == 0
    ensures Fivefold(x, s) == 2 * Fivefold(x / 2, s)
  {
    if s > 0 {
      FivefoldEven(x, s - 1);
    }
  }

  /** Taking s fives out and then shifting by s takes s tens out. */
  lemma {:induction false} TensFromFives(n: nat, s: nat)
    requires Even(n, s)
    ensures Fivefold(n, s) == Tenfold(Shr(n, s), s)
  {
    if s > 0 {
      TensFromFives(n / 2, s - 1);
      FivefoldEven(n, s - 1);
    }
  }

  lemma {:induction false} FivefoldInner(x: nat, s: nat)
    ensures Fivefold(5 * x, s) == Fivefold(x, s + 1)
  {
    if s > 0 {
      FivefoldInner(x, s - 1);
    }
  }

  /** After shifting, what is left is a multiple of ten only if both a five and a two are. */
  lemma {:induction false} NoMoreTens(n: nat, s: nat)
    requires Even(n, s)
    ensures Shr(n, s) % 5 == 0 ==> n % 5 == 0
  {
    if s > 0 {
      NoMoreTens(n / 2, s - 1);
      if n / 2 % 5 == 0 {
        DoubleOfFives(n / 2, n);
      }
    }
  }

  lemma DoubleOfFives(m: nat, n: nat)
    requires n == 2 * m && m % 5 == 0
    ensures n % 5 == 0
  {
    DivModUnique(n, 5, 2 * (m / 5), 0);
  }

  lemma {:induction false} ExactTwos(n: nat, s: nat)
    requires n > 0 && Even(n, s)
    ensures s <= CountTrailingZeros(n)
  {
    if s > 0 {
      ExactTwos(n / 2, s - 1);
    }
  }

  /** No further ten: the twos are used up, or the cap is reached, or no five is left. */
  lemma Maximal(n0: nat, n: nat, s: nat, t: nat, cap: nat)
    requires n0 > 0 && n0 == Tenfold(n, s) && t == Min(CountTrailingZeros(n0), cap)
    requires s == t || n % 5 != 0
    ensures s == cap || n % 10 != 0
  {
    if s == CountTrailingZeros(n0) {
      LastTwo(n0, n, s);
    }
    if n % 10 == 0 {
      MultipleOfTen(n, n / 10);
    }
  }

  lemma MultipleOfTen(n: nat, q: nat)
    requires n == 10 * q
    ensures n % 5 == 0 && n % 2 == 0
  {
    DivModUnique(n, 5, 2 * q, 0);
    DivModUnique(n, 2, 5 * q, 0);
  }

  lemma LastTwo(n0: nat, n: nat, s: nat)
    requires n0 > 0 && n0 == Tenfold(n, s) && s == CountTrailingZeros(n0)
    ensures n % 2 == 1
  {
    if n % 2 == 0 {
      assert Even(n, 1);
      EvenOfTenfold(n, 1, s);
      ExactTwos(n0, s + 1);
    }
  }

  lemma {:induction false} EvenOfTenfold(x: nat, j: nat, k: nat)
    requires Even(x, j)
    ensures Tenfold(x, k) >= 0 && Even(Tenfold(x, k), j + k)
  {
    if k > 0 {
      EvenOfTenfold(x, j, k - 1);
      var y: nat := Tenfold(x, k - 1);
      assert (10 * y) / 2 == 5 * y;
      EvenTimesFive(y, j + k - 1);
    }
  }

  lemma {:induction false} EvenTimesFive(n: nat, s: nat)
    requires Even(n, s)
    ensures Even(5 * n, s)
  {
    if s > 0 {
      assert (5 * n) / 2 == 5 * (n / 2);
      EvenTimesFive(n / 2, s - 1);
    }
  }

  lemma {:induction false} EvenOfFives(n: nat, k: nat, s: nat)
    requires Even(Fivefold(n, k), s)
    ensures Even(n, s)
  {
    if k > 0 {
      EvenOfFivefold(Fivefold(n, k - 1), s);
      EvenOfFives(n, k - 1, s);
    }
  }

  /** One multiplication by the inverse of d, kept if the result shows that d divides. */
  method TryDivide(n: uint32, modInv: uint32, maxQuotient: uint32, ghost d: nat)
    returns (divides: bool, quotient: uint32)
    requires 0 < d < 0x1_0000_0000 && (modInv * d) % 0x1_0000_0000 == 1 && maxQuotient == 0xFFFF_FFFF / d
    ensures divides == (n % d == 0)
    ensures divides ==> quotient == n / d
  {
    ModularDivision(n, d, modInv, maxQuotient, 0x1_0000_0000);
    quotient := ((n as nat) * modInv) % 0x1_0000_0000;
    divides := quotient <= maxQuotient;
  }

  /** The most zeros that a significand is taken to have. */
  const MAX_ZEROS_FLOAT: nat := 7
  const MAX_ZEROS_DOUBLE: nat := 16

  /** The single-precision form, for any word. */
  method RemoveTrailingZeros32(n0: uint32) returns (n: uint32, s: nat)
    requires n0 > 0
    ensures n0 == Tenfold(n, s) && s <= MAX_ZEROS_FLOAT
    ensures s == MAX_ZEROS_FLOAT || n % 10 != 0
  {
    var cap := MAX_ZEROS_FLOAT;
    var t := Min(CountTrailingZeros(n0), cap);
    EvenLess(n0, t, CountTrailingZeros(n0));
    n, s := RemoveTwentyFives(n0, t);
    n, s := RemoveLastFive(n0, n, s, t);
    FivesDone(n0, n, s, t, cap);
    ShrSmaller(n, s);
    n := Shr(n, s);
  }

  /** The single factor of five that may be left after pairs of them. */
  method RemoveLastFive(ghost n0: nat, n: uint32, s: nat, t: nat) returns (n': uint32, s': nat)
    requires s <= t && n0 == Fivefold(n, s) && (s < t - 1 ==> n % 25 != 0)
    ensures s' <= t && n0 == Fivefold(n', s') && (s' == t || n' % 5 != 0)
  {
    n', s' := n, s;
    var divides, quotient := TryDivide(n, 0xcccccccd, 0x33333333, 5);
    if s < t && divides {
      FivefoldInner(quotient, s);
      if quotient % 5 == 0 {
        DivModUnique(n, 25, quotient / 5, 0);
      }
      n', s' := quotient, s + 1;
    }
  }

  /** The loop: two factors of five at a time. */
  method RemoveTwentyFives(n0: uint32, t: nat) returns (n: uint32, s: nat)
    ensures s <= t && n0 == Fivefold(n, s)
    ensures s < t - 1 ==> n % 25 != 0
  {
    n, s := n0, 0;
    while s < t - 1
      invariant 0 <= s <= t && n0 == Fivefold(n, s)
      decreases t - s
    {
      var divides, quotient := TryDivide(n, 0xc28f5c29, 0x0a3d70a3, 25);
      if !divides {
        break;
      }
      FivefoldTwice(quotient, s);
      n, s := quotient, s + 2;
    }
  }

  lemma FivefoldTwice(x: nat, s: nat)
    ensures Fivefold(25 * x, s) == Fivefold(x, s + 2)
  {
    FivefoldInner(x, s + 1);
    FivefoldInner(5 * x, s);
  }

  /** With the factors of five counted, the shift takes out as many factors of two. */
  lemma FivesDone(n0: nat, n: nat, s: nat, t: nat, cap: nat)
    requires n0 > 0 && s <= t == Min(CountTrailingZeros(n0), cap) && Even(n0, t)
    requires n0 == Fivefold(n, s) && (s == t || n % 5 != 0)
    ensures n0 == Tenfold(Shr(n, s), s)
    ensures s == cap || Shr(n, s) % 10 != 0
  {
    EvenOfFives(n, s, t);
    EvenLess(n, s, t);
    TensFromFives(n, s);
    NoMoreTens(n, s);
    Maximal(n0, Shr(n, s), s, t, cap);
  }

  lemma {:induction false} ShrSmaller(n: nat, s: nat)
    ensures Shr(n, s) <= n
  {
    if s > 0 {
      ShrSmaller(n / 2, s - 1);
    }
  }

  lemma {:induction false} TwofoldShr(n: nat, s: nat)
    requires Even(n, s)
    ensures n == Twofold(Shr(n, s), s)
  {
    if s > 0 {
      TwofoldShr(n / 2, s - 1);
    }
  }

  lemma {:induction false} ShrTwofold(x: nat, s: nat)
    ensures Shr(Twofold(x, s), s) == x && Even(Twofold(x, s), s)
  {
    if s > 0 {
      ShrTwofold(x, s - 1);
      assert Twofold(x, s) / 2 == Twofold(x, s - 1);
    }
  }

  lemma TwofoldOf8(x: nat)
    ensures Twofold(x, 8) == 256 * x
  {
    assert Twofold(x, 1) == 2 * x;
    assert Twofold(x, 3) == 8 * x;
    assert Twofold(x, 5) == 32 * x;
    assert Twofold(x, 7) == 128 * x;
  }

  lemma FivefoldOf8(x: nat)
    ensures Fivefold(x, 8) == 390625 * x
  {
    assert Fivefold(x, 1) == 5 * x;
    assert Fivefold(x, 3) == 125 * x;
    assert Fivefold(x, 5) == 3125 * x;
    assert Fivefold(x, 7) == 78125 * x;
  }

  /** Dividing a factor of 256 out first leaves less to shift. */
  lemma ShrTimes256(q: nat, s: nat)
    requires s >= 8
    ensures Shr(256 * q, s) == Shr(q, s - 8)
  {
    TwofoldOf8(q);
    ShrTwofold(q, 8);
    ShrShr(256 * q, 8, s - 8);
  }

  lemma {:induction false} ShrShr(n: nat, i: nat, j: nat)
    ensures Shr(Shr(n, i), j) == Shr(n, i + j)
  {
    if i > 0 {
      ShrShr(n / 2, i - 1, j);
    }
  }

  /** The number is a multiple of 10^8: go on with the quotient. */
  method FromQuotient(n0: uint64, candidate: uint64, t: nat, cap: nat) returns (n: uint64, s: nat)
    requires 0 < n0 <= 0xFFFF_FFFF_FFFF_FFFF / 1000
    requires n0 == Fivefold(candidate, 8) && Even(n0, t) && t == Min(CountTrailingZeros(n0), cap) && t >= 8
    ensures n0 == Tenfold(n, s) && s <= cap
    ensures s == cap || n % 10 != 0
  {
    CandidateIsBytes(candidate, t);
    FivefoldOf8(candidate);
    var quotient: uint32 := candidate / 256;
    quotient, s := RemoveFives(n0, quotient, t);
    QuotientDone(n0, quotient, s, t, cap);
    ShrSmaller(quotient, s - 8);
    n := Shr(quotient, s - 8);
  }

  lemma CandidateIsBytes(candidate: nat, t: nat)
    requires t >= 8 && Even(Fivefold(candidate, 8), t)
    ensures candidate == 256 * (candidate / 256)
  {
    EvenOfFives(candidate, 8, t);
    EvenLess(candidate, 8, t);
    TwofoldShr(candidate, 8);
    TwofoldOf8(Shr(candidate, 8));
  }

  /** The loop over the quotient: one factor of five at a time. */
  method RemoveFives(ghost n0: nat, quotient0: uint32, t: nat) returns (quotient: uint32, s: nat)
    requires t >= 8 && n0 == Fivefold(256 * (quotient0 as nat), 8)
    ensures 8 <= s <= t && n0 == Fivefold(256 * (quotient as nat), s)
    ensures s == t || quotient % 5 != 0
  {
    quotient, s := quotient0, 8;
    while s < t
      invariant 8 <= s <= t && n0 == Fivefold(256 * (quotient as nat), s)
      decreases t - s
    {
      var divides, q := TryDivide(quotient, 0xcccccccd, 0x33333333, 5);
      if !divides {
        break;
      }
      FivefoldInner(256 * (q as nat), s);
      quotient, s := q, s + 1;
    }
  }

  lemma NoFiveIn256(q: nat)
    ensures (256 * q) % 5 == q % 5
  {
    assert 256 * q == 5 * (51 * q) + q;
  }

  lemma QuotientDone(n0: nat, quotient: nat, s: nat, t: nat, cap: nat)
    requires n0 > 0 && 8 <= s <= t == Min(CountTrailingZeros(n0), cap) && Even(n0, t)
    requires n0 == Fivefold(256 * quotient, s) && (s == t || quotient % 5 != 0)
    ensures n0 == Tenfold(Shr(quotient, s - 8), s)
    ensures s == cap || Shr(quotient, s - 8) % 10 != 0
  {
    NoFiveIn256(quotient);
    ShrTimes256(quotient, s);
    FivesDone(n0, 256 * quotient, s, t, cap);
  }

  /** Ending with k zeros found in the remainder puts the quotient back at its place. */
  lemma Reassembled(n0: nat, quotient: nat, remainder0: nat, remainder: nat, k: nat, place: nat)
    requires n0 == quotient * 100000000 + remainder0 && remainder0 == Fivefold(remainder, k)
    requires k <= 8 && Even(n0, k) && Tenfold(place, k) == 100000000
    ensures n0 == Tenfold(Shr(remainder, k) + quotient * place, k)
    ensures Shr(remainder, k) % 5 == 0 ==> remainder % 5 == 0
  {
    EvenOfMultiple(quotient, k);
    EvenDifference(quotient * 100000000, remainder0, k);
    EvenOfFives(remainder, k, k);
    TensFromFives(remainder, k);
    NoMoreTens(remainder, k);
    TenfoldTimes(place, quotient, k);
    TenfoldAdd(Shr(remainder, k), quotient * place, k);
  }

  lemma EvenOfMultiple(q: nat, k: nat)
    requires k <= 8
    ensures Even(q * 100000000, k)
  {
    TwofoldOf8(q * 390625);
    ShrTwofold(q * 390625, 8);
    EvenLess(q * 100000000, k, 8);
  }

  /** The number with k zeros removed, put together from quotient and remainder. */
  method Reassemble(n0: uint64, quotient: uint32, ghost r0: nat, remainder: uint32, k: nat, ghost t: nat,
                    ghost cap: nat)
    returns (n: uint64)
    requires n0 > 0 && n0 == quotient * 100000000 + r0 && r0 == Fivefold(remainder, k)
    requires k <= t == Min(CountTrailingZeros(n0), cap)
    requires k < 8
    requires t == k || remainder % 5 != 0
    ensures n0 == Tenfold(n, k) && (k == cap || n % 10 != 0)
  {
    EvenLess(n0, k, CountTrailingZeros(n0));
    var place := Pow(10, 8 - k);
    PlaceAbove(k);
    Reassembled(n0, quotient, r0, remainder, k, place);
    var m := Shr(remainder, k) + quotient * place;
    LastPlaces(Shr(remainder, k), quotient, place);
    TenfoldAtLeast(m, k);
    Maximal(n0, m, k, t, cap);
    n := m;
  }

  lemma PlaceAbove(k: nat)
    requires k < 8
    ensures Pow(10, 8 - k) % 10 == 0 && Tenfold(Pow(10, 8 - k), k) == 100000000
  {
    TenfoldIsProduct(Pow(10, 8 - k), k);
    PowAdd(10, 8 - k, k);
    assert Pow(10, 8) == 100000000;
  }

  /** A place that is a multiple of ten does not touch the last digit. */
  lemma LastPlaces(x: nat, q: nat, place: nat)
    requires place % 10 == 0
    ensures (x + q * place) % 5 == x % 5 && q * place >= 0
  {
    var w := q * (place / 10);
    MulAssociative(q, place / 10, 10);
    MulMonotone(0, q, place);
    FivesAdded(x, w, x + q * place);
  }

  lemma FivesAdded(x: nat, w: int, y: int)
    requires y == x + 10 * w
    ensures y % 5 == x % 5
  {
    DivModUnique(y, 5, x / 5 + 2 * w, x % 5);
  }

  lemma {:induction false} TenfoldAtLeast(m: nat, k: nat)
    ensures Tenfold(m, k) >= m
  {
    if k > 0 {
      TenfoldAtLeast(m, k - 1);
    }
  }

  /** The number is no multiple of 10^8: at most seven zeros, all in the remainder. */
  method FromRemainder(n0: uint64, quotient: uint32, ghost r0: nat, t: nat, cap: nat) returns (n: uint64, s: nat)
    requires 0 < n0 && n0 == quotient * 100000000 + r0 && 0 < r0 < 100000000
    requires t == Min(CountTrailingZeros(n0), cap) && cap >= 8
    ensures n0 == Tenfold(n, s) && s <= cap
    ensures s == cap || n % 10 != 0
  {
    var remainder: uint32 := n0 - 100000000 * quotient;
    var divides, rest;
    divides, rest := TryDivide(remainder, 0xcccccccd, 0x33333333, 5);
    if t == 0 || !divides {
      n := Reassemble(n0, quotient, r0, remainder, 0, t, cap);
      return n, 0;
    }
    FivefoldInner(rest, 0);
    remainder := rest;
    divides, rest := TryDivide(remainder, 0xcccccccd, 0x33333333, 5);
    if t == 1 || !divides {
      n := Reassemble(n0, quotient, r0, remainder, 1, t, cap);
      return n, 1;
    }
    FivefoldInner(rest, 1);
    remainder := rest;
    divides, rest := TryDivide(remainder, 0xcccccccd, 0x33333333, 5);
    if t == 2 || !divides {
      n := Reassemble(n0, quotient, r0, remainder, 2, t, cap);
      return n, 2;
    }
    FivefoldInner(rest, 2);
    remainder := rest;
    divides, rest := TryDivide(remainder, 0xcccccccd, 0x33333333, 5);
    if t == 3 || !divides {
      n := Reassemble(n0, quotient, r0, remainder, 3, t, cap);
      return n, 3;
    }
    FivefoldInner(rest, 3);
    n, s := FromFourZeros(n0, quotient, r0, rest, t, cap);
  }

  /** The same from the fifth zero on. */
  method FromFourZeros(n0: uint64, quotient: uint32, ghost r0: nat, remainder0: uint32, t: nat, cap: nat)
    returns (n: uint64, s: nat)
    requires 0 < n0 && n0 == quotient * 100000000 + r0 && 0 < r0 < 100000000
    requires t == Min(CountTrailingZeros(n0), cap) && cap >= 8 && t >= 4 && r0 == Fivefold(remainder0, 4)
    ensures n0 == Tenfold(n, s) && s <= cap
    ensures s == cap || n % 10 != 0
  {
    var remainder := remainder0;
    var divides, rest := TryDivide(remainder, 0xcccccccd, 0x33333333, 5);
    if t == 4 || !divides {
      n := Reassemble(n0, quotient, r0, remainder, 4, t, cap);
      return n, 4;
    }
    FivefoldInner(rest, 4);
    remainder := rest;
    divides, rest := TryDivide(remainder, 0xcccccccd, 0x33333333, 5);
    if t == 5 || !divides {
      n := Reassemble(n0, quotient, r0, remainder, 5, t, cap);
      return n, 5;
    }
    FivefoldInner(rest, 5);
    remainder := rest;
    divides, rest := TryDivide(remainder, 0xcccccccd, 0x33333333, 5);
    if t == 6 || !divides {
      n := Reassemble(n0, quotient, r0, remainder, 6, t, cap);
      return n, 6;
    }
    FivefoldInner(rest, 6);
    remainder := rest;
    n := SevenZeros(n0, quotient, r0, remainder);
    s := 7;
  }

  /** After seven zeros the remainder has one digit left, and that is not zero. */
  method SevenZeros(n0: uint64, quotient: uint32, ghost r0: nat, remainder: uint32) returns (n: uint64)
    requires n0 > 0 && n0 == quotient * 100000000 + r0 && r0 == Fivefold(remainder, 7)
    requires 0 < r0 < 100000000 && 7 <= CountTrailingZeros(n0)
    ensures n0 == Tenfold(n, 7) && n % 10 != 0
  {
    EvenLess(n0, 7, CountTrailingZeros(n0));
    assert Pow(10, 7) == 10000000;
    TenfoldIsProduct(10, 7);
    Reassembled(n0, quotient, r0, remainder, 7, 10);
    OneDigitLeft(quotient, r0, n0, remainder);
    TenfoldAtLeast(Shr(remainder, 7) + quotient * 10, 7);
    DivModUnique(Shr(remainder, 7) + quotient * 10, 10, quotient, Shr(remainder, 7));
    n := Shr(remainder, 7) + quotient * 10;
  }

  lemma OneDigitLeft(quotient: nat, r0: nat, n0: nat, remainder: nat)
    requires n0 == quotient * 100000000 + r0 && 0 < r0 < 100000000
    requires r0 == Fivefold(remainder, 7) && Even(n0, 7)
    ensures 0 < Shr(remainder, 7) < 10
  {
    EvenOfMultiple(quotient, 7);
    EvenDifference(quotient * 100000000, r0, 7);
    EvenOfFives(remainder, 7, 7);
    TensFromFives(remainder, 7);
    TenfoldIsProduct(Shr(remainder, 7), 7);
    assert Pow(10, 7) == 10000000;
  }

  /** Without the divisibility by 10^8 there is something left below it. */
  lemma RemainderNotZero(n0: nat, quotient: nat, r0: nat, t: nat, cap: nat)
    requires 0 < n0 && n0 == quotient * 100000000 + r0
    requires t == Min(CountTrailingZeros(n0), cap) && cap >= 8
    requires t < 8 || n0 % 390625 != 0
    ensures r0 != 0
  {
    EvenOfMultiple(quotient, 8);
    if r0 == 0 {
      ExactTwos(n0, 8);
    }
    DivModUnique(quotient * 100000000, 390625, quotient * 256, 0);
  }

  /** One multiplication by the inverse of 5^8. */
  method TryDivideBy5To8(n: uint64) returns (divides: bool, quotient: uint64)
    ensures divides == (n % 390625 == 0)
    ensures divides ==> n == Fivefold(quotient, 8)
  {
    ModularDivision(n, 390625, 0xc767074b22e90e21, 0x00002af31dc46118, 0x1_0000_0000_0000_0000);
    quotient := (n * 0xc767074b22e90e21) % 0x1_0000_0000_0000_0000;
    divides := quotient <= 0x00002af31dc46118;
    FivefoldOf8(quotient);
  }

  /** The double-precision form, for the significands that its caller can produce: all zeros are removed. */
  method RemoveTrailingZeros64(n0: uint64) returns (n: uint64, s: nat)
    requires 0 < n0 <= 0xFFFF_FFFF_FFFF_FFFF / 1000
    ensures n0 == Tenfold(n, s) && n % 10 != 0
  {
    var t := Min(CountTrailingZeros(n0), MAX_ZEROS_DOUBLE);
    EvenLess(n0, t, CountTrailingZeros(n0));
    if t >= 8 {
      var divides, candidate := TryDivideBy5To8(n0);
      if divides {
        n, s := FromQuotient(n0, candidate, t, MAX_ZEROS_DOUBLE);
        CapNotBinding(n0, n, s);
        return;
      }
    }
    var quotient: uint32 := n0 / 100000000;
    RemainderNotZero(n0, quotient, n0 % 100000000, t, MAX_ZEROS_DOUBLE);
    n, s := FromRemainder(n0, quotient, n0 % 100000000, t, MAX_ZEROS_DOUBLE);
    CapNotBinding(n0, n, s);
  }

  /** A number with more zeros than the cap would be out of range. */
  lemma CapNotBinding(n0: nat, n: nat, s: nat)
    requires 0 < n0 <= 0xFFFF_FFFF_FFFF_FFFF / 1000 && n0 == Tenfold(n, s)
    ensures s == MAX_ZEROS_DOUBLE ==> n == 1
  {
    if s == 16 {
      TenfoldIsProduct(n, 16);
      PowAdd(10, 8, 8);
      assert Pow(10, 8) == 100000000;
    }
  }
}
