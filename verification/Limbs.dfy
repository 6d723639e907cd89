/**
 * Numbers as little-endian sequences of 32-bit digits ("bigits") with a bigit exponent,
 * the representation of fmt's bigint, and the facts about them that need no object.
 */
module Limbs {
  import opened Arithmetic


  type uint32 = x: nat | x < 0x1_0000_0000
  type uint64 = x: nat | x < 0x1_0000_0000_0000_0000

  /** The number x * 0x1_0000_0000^p, by repeated multiplication with a constant. */
  function Shl(x: int, p: nat): int {
    if p == 0 then x else 0x1_0000_0000 * Shl(x, p - 1)
  }

  /** 0x1_0000_0000^p. */
  function B(p: nat): int {
    Shl(1, p)
  }

  lemma {:induction false} ShlIsProduct(x: int, p: nat)
    ensures Shl(x, p) == x * Pow(0x1_0000_0000, p)
  {
    if p > 0 {
      ShlIsProduct(x, p - 1);
      assert 0x1_0000_0000 * (x * Pow(0x1_0000_0000, p - 1)) == x * (0x1_0000_0000 * Pow(0x1_0000_0000, p - 1));
    }
  }

  lemma {:induction false} ShlAdd(x: int, y: int, p: nat)
    ensures Shl(x + y, p) == Shl(x, p) + Shl(y, p)
  {
    if p > 0 {
      ShlAdd(x, y, p - 1);
    }
  }

  lemma {:induction false} ShlShl(x: int, p: nat, q: nat)
    ensures Shl(Shl(x, p), q) == Shl(x, p + q)
  {
    if q > 0 {
      ShlShl(x, p, q - 1);
    }
  }

  lemma {:induction false} ShlStep(x: int, p: nat)
    ensures Shl(x, p + 1) == Shl(0x1_0000_0000 * x, p)
  {
    if p > 0 {
      ShlStep(x, p - 1);
    }
  }

  lemma {:induction false} ShlMonotone(x: int, y: int, p: nat)
    ensures x <= y <==> Shl(x, p) <= Shl(y, p)
    ensures x < y <==> Shl(x, p) < Shl(y, p)
  {
    if p > 0 {
      ShlMonotone(x, y, p - 1);
    }
  }

  lemma {:induction false} ShlZero(p: nat)
    ensures Shl(0, p) == 0
  {
    if p > 0 {
      ShlZero(p - 1);
    }
  }

  lemma {:induction false} ShlTimes(x: int, k: int, p: nat)
    ensures Shl(x * k, p) == Shl(x, p) * k
  {
    if p > 0 {
      ShlTimes(x, k, p - 1);
      MulAssociative(0x1_0000_0000, Shl(x, p - 1), k);
    }
  }

  lemma {:induction false} BMonotone(p: nat, q: nat)
    requires p <= q
    ensures 0 < B(p) <= B(q)
  {
    ShlZero(p);
    ShlMonotone(0, 1, p);
    if p < q {
      BMonotone(p, q - 1);
    }
  }

  /** One bigit of a result, together with the carry out of it, is the whole result. */
  lemma CarrySplit(r: nat, p: nat)
    ensures Shl(r % 0x1_0000_0000, p) + Shl(r / 0x1_0000_0000, p + 1) == Shl(r, p)
  {
    ShlStep(r / 0x1_0000_0000, p);
    ShlAdd(r % 0x1_0000_0000, 0x1_0000_0000 * (r / 0x1_0000_0000), p);
  }

  /** The number denoted by the bigits s with bigit exponent e. */
  function Magnitude(s: seq<uint32>, e: nat): int {
    if |s| == 0 then 0 else Magnitude(s[..|s| - 1], e) + Shl(s[|s| - 1], |s| - 1 + e)
  }

  /** The number denoted by the bigits without the exponent. */
  function Val(s: seq<uint32>): int {
    Magnitude(s, 0)
  }

  predicate Normal(s: seq<uint32>) {
    |s| > 0 && s[|s| - 1] != 0
  }

  /** What every public operation leaves behind: a nonzero top bigit, or the single bigit 0. */
  predicate WellFormed(s: seq<uint32>) {
    Normal(s) || s == [0]
  }

  lemma MagnitudeSnoc(s: seq<uint32>, x: uint32, e: nat)
    ensures Magnitude(s + [x], e) == Magnitude(s, e) + Shl(x, |s| + e)
  {
    assert (s + [x])[..|s|] == s;
  }

  /** The exponent multiplies by a power of the base. */
  lemma {:induction false} MagnitudeIsShifted(s: seq<uint32>, e: nat, d: nat)
    ensures Magnitude(s, e + d) == Shl(Magnitude(s, e), d)
  {
    if |s| == 0 {
      ShlZero(d);
    } else {
      MagnitudeIsShifted(s[..|s| - 1], e, d);
      ShlAdd(Magnitude(s[..|s| - 1], e), Shl(s[|s| - 1], |s| - 1 + e), d);
      ShlShl(s[|s| - 1], |s| - 1 + e, d);
    }
  }

  /** Low zero bigits are worth as much as an exponent. */
  lemma {:induction false} MagnitudePrepend(zeros: seq<uint32>, s: seq<uint32>, e: nat)
    requires forall k :: 0 <= k < |zeros| ==> zeros[k] == 0
    ensures Magnitude(zeros + s, e) == Magnitude(s, |zeros| + e)
  {
    if |s| > 0 {
      MagnitudePrepend(zeros, s[..|s| - 1], e);
      assert zeros + s == (zeros + s[..|s| - 1]) + [s[|s| - 1]];
      MagnitudeSnoc(zeros + s[..|s| - 1], s[|s| - 1], e);
    } else {
      assert zeros + s == zeros;
      MagnitudeLeadingZeros(zeros, e, 0);
    }
  }

  /** Leading zero bigits do not change the value. */
  lemma {:induction false} MagnitudeLeadingZeros(s: seq<uint32>, e: nat, n: nat)
    requires n <= |s|
    requires forall k :: n <= k < |s| ==> s[k] == 0
    ensures Magnitude(s[..n], e) == Magnitude(s, e)
  {
    if n < |s| {
      var t := s[..|s| - 1];
      MagnitudeLeadingZeros(t, e, n);
      assert t[..n] == s[..n];
      ShlZero(|s| - 1 + e);
    } else {
      assert s[..n] == s;
    }
  }

  /** The bigit at absolute position p, zero outside of the stored ones. */
  function DigitAt(s: seq<uint32>, e: nat, p: nat): uint32 {
    if e <= p < |s| + e then s[p - e] else 0
  }

  /** The number floor(Magnitude(s, e) / 0x1_0000_0000^p), built from its bigits. */
  function High(s: seq<uint32>, e: nat, p: nat): nat
    decreases |s| + e - p
  {
    if p >= |s| + e then 0 else DigitAt(s, e, p) + 0x1_0000_0000 * High(s, e, p + 1)
  }

  /** The rest of the number, below position p. */
  function Low(s: seq<uint32>, e: nat, p: nat): int {
    if p <= e then 0 else if p >= |s| + e then Magnitude(s, e) else Magnitude(s[..p - e], e)
  }

  lemma LowStep(s: seq<uint32>, e: nat, p: nat)
    ensures Low(s, e, p + 1) == Low(s, e, p) + Shl(DigitAt(s, e, p), p)
  {
    if e <= p < |s| + e {
      var i := p - e;
      assert s[..i + 1] == s[..i] + [s[i]] && s[..|s|] == s && s[..0] == [];
      MagnitudeSnoc(s[..i], s[i], e);
    } else {
      ShlZero(p);
    }
  }

  lemma {:induction false} LowBound(s: seq<uint32>, e: nat, p: nat)
    ensures 0 <= Low(s, e, p) < B(p)
  {
    BMonotone(0, p);
    if p > 0 {
      LowStep(s, e, p - 1);
      LowBound(s, e, p - 1);
      var d := DigitAt(s, e, p - 1);
      ShlZero(p - 1);
      ShlMonotone(0, d, p - 1);
      ShlMonotone(d, 0x1_0000_0000 - 1, p - 1);
      ShlAdd(0x1_0000_0000 - 1, 1, p - 1);
      ShlStep(1, p - 1);
    }
  }

  lemma {:induction false} HighLow(s: seq<uint32>, e: nat, p: nat)
    ensures Magnitude(s, e) == Shl(High(s, e, p), p) + Low(s, e, p)
    decreases |s| + e - p
  {
    if p < |s| + e {
      HighLow(s, e, p + 1);
      LowStep(s, e, p);
      var h := High(s, e, p + 1);
      ShlStep(h, p);
      ShlAdd(DigitAt(s, e, p), 0x1_0000_0000 * h, p);
    } else {
      ShlZero(p);
    }
  }

  lemma LowPrefix(s: seq<uint32>, t: seq<uint32>, e: nat, p: nat)
    requires |s| == |t| && e <= p <= |s| + e && s[..p - e] == t[..p - e]
    ensures Low(s, e, p) == Low(t, e, p)
  {
    assert s[..|s|] == s && t[..|t|] == t && s[..0] == t[..0] == [];
  }

  lemma {:induction false} HighSuffix(s: seq<uint32>, t: seq<uint32>, e: nat, p: nat)
    requires |s| == |t| && e <= p <= |s| + e && s[p - e..] == t[p - e..]
    ensures High(s, e, p) == High(t, e, p)
    decreases |s| + e - p
  {
    if p < |s| + e {
      assert s[p - e] == s[p - e..][0] == t[p - e];
      assert s[p + 1 - e..] == s[p - e..][1..] == t[p + 1 - e..];
      HighSuffix(s, t, e, p + 1);
    }
  }

  lemma MagnitudeUpdate(s: seq<uint32>, e: nat, i: nat, x: uint32)
    requires i < |s|
    ensures Magnitude(s[i := x], e) == Magnitude(s, e) + Shl(x - s[i], i + e)
  {
    var t, p := s[i := x], i + e;
    HighLow(s, e, p + 1);
    HighLow(t, e, p + 1);
    LowStep(s, e, p);
    LowStep(t, e, p);
    LowPrefix(s, t, e, p);
    HighSuffix(s, t, e, p + 1);
    ShlAdd(s[i], x - s[i], p);
  }

  lemma MagnitudeNonNegative(s: seq<uint32>, e: nat)
    ensures 0 <= Magnitude(s, e) < B(|s| + e)
  {
    LowBound(s, e, |s| + e);
  }

  /** A number with its top bigit nonzero lies between consecutive powers of the base. */
  lemma NormalIffLarge(s: seq<uint32>, e: nat)
    requires |s| > 0
    ensures Normal(s) <==> Magnitude(s, e) >= B(|s| - 1 + e)
  {
    var p := |s| - 1 + e;
    LowStep(s, e, p);
    LowBound(s, e, p);
    ShlZero(p);
    ShlMonotone(1, s[|s| - 1], p);
  }

  /** The number of bigits, counting the exponent, is monotone in the value. */
  lemma TopMonotone(s: seq<uint32>, e: nat, t: seq<uint32>, f: nat)
    requires Normal(s)
    requires |s| + e > |t| + f
    ensures Magnitude(s, e) > Magnitude(t, f)
  {
    NormalIffLarge(s, e);
    MagnitudeNonNegative(t, f);
    BMonotone(|t| + f, |s| - 1 + e);
  }

  /** What a higher part settles, the lower part cannot change. */
  lemma HighDecides(s: seq<uint32>, e: nat, t: seq<uint32>, f: nat, p: nat)
    ensures High(s, e, p) > High(t, f, p) ==> Magnitude(s, e) > Magnitude(t, f)
  {
    HighLow(s, e, p);
    HighLow(t, f, p);
    LowBound(s, e, p);
    LowBound(t, f, p);
    ShlMonotone(High(t, f, p) + 1, High(s, e, p), p);
    ShlAdd(High(t, f, p), 1, p);
  }

  /** A multiplicative gap below the base costs at most one more bigit. */
  lemma OneMoreBigit(s: seq<uint32>, e: nat, t: seq<uint32>, f: nat)
    requires Normal(s)
    requires Magnitude(s, e) < 0x1_0000_0000 * Magnitude(t, f)
    ensures |s| + e <= |t| + f + 1
  {
    if |s| + e > |t| + f + 1 {
      NormalIffLarge(s, e);
      MagnitudeNonNegative(t, f);
      BMonotone(|t| + f + 1, |s| - 1 + e);
    }
  }

  lemma {:induction false} MagnitudeDigitsUnique(s: seq<uint32>, e: nat, t: seq<uint32>, f: nat, p: nat)
    requires Magnitude(s, e) == Magnitude(t, f)
    ensures High(s, e, p) == High(t, f, p) && DigitAt(s, e, p) == DigitAt(t, f, p)
  {
    HighDecides(s, e, t, f, p);
    HighDecides(t, f, s, e, p);
    HighDecides(s, e, t, f, p + 1);
    HighDecides(t, f, s, e, p + 1);
    HighUnfold(s, e, p);
    HighUnfold(t, f, p);
  }

  lemma HighUnfold(s: seq<uint32>, e: nat, p: nat)
    ensures High(s, e, p) == DigitAt(s, e, p) + 0x1_0000_0000 * High(s, e, p + 1)
  {
  }

  lemma ShiftIsPowerOfTwo(x: int, q: nat, r: nat)
    ensures Shl(x * Pow(2, r), q) == x * Pow(2, 32 * q + r)
  {
    ShlIsProduct(x * Pow(2, r), q);
    PowPow(2, 32, q);
    assert Pow(2, 32) == 0x1_0000_0000 by { PowersOfTwo(); }
    PowAdd(2, r, 32 * q);
    MulAssociative(x, Pow(2, r), Pow(2, 32 * q));
  }

  lemma PowersOfTwo()
    ensures Pow(2, 32) == 0x1_0000_0000
  {
    PowAdd(2, 16, 16);
    PowAdd(2, 8, 8);
    PowAdd(2, 4, 4);
  }

  /** The product of two words, and what a double word can still take. */
  lemma WordProduct(b: uint32, value: uint32)
    ensures 0 <= b * value <= 0xFFFF_FFFE_0000_0001
  {
    MulMonotone(b, 0xFFFF_FFFF, value);
    MulMonotone(value, 0xFFFF_FFFF, 0xFFFF_FFFF);
  }
}
