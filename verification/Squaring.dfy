/** Squaring by columns of cross products, as a fact about sums. */
module Squaring {
  import opened Arithmetic
  import opened Limbs

  /** The product n[i] * n[j] that column c = i + j collects from row i. */
  function Term(n: seq<uint32>, c: nat, i: nat): nat {
    if i < |n| && 0 <= c - i < |n| then (n[i] as nat) * (n[c - i] as nat) else 0
  }

  /** The part of column c that comes from the first r rows. */
  function Partial(n: seq<uint32>, c: nat, r: nat): nat {
    if r == 0 then 0 else Partial(n, c, r - 1) + Term(n, c, r - 1)
  }

  /** The first m columns, restricted to r rows, each at its own position. */
  function Columns(n: seq<uint32>, m: nat, r: nat): int {
    if m == 0 then 0 else Columns(n, m - 1, r) + Shl(Partial(n, m - 1, r), m - 1)
  }

  /** What row r contributes to the first m columns. */
  function Row(n: seq<uint32>, m: nat, r: nat): int {
    if m == 0 then 0 else Row(n, m - 1, r) + Shl(Term(n, m - 1, r), m - 1)
  }

  lemma {:induction false} ColumnsAddRow(n: seq<uint32>, m: nat, r: nat)
    ensures Columns(n, m, r + 1) == Columns(n, m, r) + Row(n, m, r)
  {
    if m > 0 {
      ColumnsAddRow(n, m - 1, r);
      ShlAdd(Partial(n, m - 1, r), Term(n, m - 1, r), m - 1);
    }
  }

  lemma {:induction false} ColumnsNoRow(n: seq<uint32>, m: nat)
    ensures Columns(n, m, 0) == 0
  {
    if m > 0 {
      ColumnsNoRow(n, m - 1);
      ShlZero(m - 1);
    }
  }

  /** A row is the number below the diagonal, times one bigit, at the row's position. */
  lemma {:induction false} RowValue(n: seq<uint32>, m: nat, r: nat)
    requires r < |n|
    ensures Row(n, m, r) == Shl(Low(n, 0, if m <= r then 0 else m - r) * n[r], r)
  {
    ShlZero(r);
    if m > 0 {
      RowValue(n, m - 1, r);
      if m <= r {
        ShlZero(m - 1);
      } else {
        RowStep(n, r, m - 1 - r);
      }
    }
  }

  lemma RowStep(n: seq<uint32>, r: nat, j: nat)
    requires r < |n|
    ensures Shl(Low(n, 0, j + 1) * n[r], r) == Shl(Low(n, 0, j) * n[r], r) + Shl(Term(n, r + j, r), r + j)
  {
    LowStep(n, 0, j);
    var v, y, x := Low(n, 0, j), DigitAt(n, 0, j), n[r];
    DistributeOver(v, Shl(y, j), x);
    ShlTimes(y, x, j);
    ShlAdd(v * x, Shl(y * x, j), r);
    ShlShl(y * x, j, r);
  }

  lemma DistributeOver(a: int, b: int, v: int)
    ensures (a + b) * v == a * v + b * v
  {
  }

  lemma {:induction false} ColumnsAreProduct(n: seq<uint32>, r: nat)
    requires r <= |n|
    ensures Columns(n, 2 * |n|, r) == Low(n, 0, r) * Val(n)
  {
    if r == 0 {
      ColumnsNoRow(n, 2 * |n|);
    } else {
      ColumnsAreProduct(n, r - 1);
      ColumnsAddRow(n, 2 * |n|, r - 1);
      RowValue(n, 2 * |n|, r - 1);
      ProductStep(n, r - 1);
    }
  }

  lemma ProductStep(n: seq<uint32>, r: nat)
    requires r < |n|
    ensures Low(n, 0, r + 1) * Val(n) == Low(n, 0, r) * Val(n) + Shl(Val(n) * n[r], r)
  {
    LowStep(n, 0, r);
    ShlTimes(n[r], Val(n), r);
    DistributeOver(Low(n, 0, r), Shl(n[r], r), Val(n));
  }

  /** The columns of n, carried through, are the square of n. */
  lemma ColumnsAreSquare(n: seq<uint32>)
    ensures Columns(n, 2 * |n|, |n|) == Val(n) * Val(n)
  {
    ColumnsAreProduct(n, |n|);
  }

  /** Rows outside of the column's diagonal add nothing to it. */
  lemma {:induction false} PartialTail(n: seq<uint32>, c: nat, r: nat, r': nat)
    requires r <= r'
    requires forall i :: r <= i < r' ==> Term(n, c, i) == 0
    ensures Partial(n, c, r') == Partial(n, c, r)
    decreases r' - r
  {
    if r < r' {
      PartialTail(n, c, r, r' - 1);
    }
  }

  lemma TermBound(n: seq<uint32>, c: nat, i: nat)
    ensures Term(n, c, i) <= 0xFFFF_FFFE_0000_0001
  {
    if i < |n| && 0 <= c - i < |n| {
      MulMonotone(n[i], 0xFFFF_FFFF, n[c - i]);
      MulMonotone(n[c - i], 0xFFFF_FFFF, 0xFFFF_FFFF);
    }
  }

  lemma {:induction false} PartialBound(n: seq<uint32>, c: nat, r: nat)
    ensures Partial(n, c, r) <= r * 0xFFFF_FFFE_0000_0001
  {
    if r > 0 {
      PartialBound(n, c, r - 1);
      TermBound(n, c, r - 1);
    }
  }
}
