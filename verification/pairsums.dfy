/**
 Sums over pairs of indices, and the rearrangement behind the triangular
 loops of the Taylor model product and square (MCpp/src/mc/tmodel.hpp lines
 2497-2502 and 2538-2543): summing f over the whole square of index pairs is
 summing the diagonal once and every off-diagonal pair {i, j} once, as
 f(i, j) + f(j, i).
 */
module PairSums {
  /** f(i, lo) + ... + f(i, hi - 1). */
  function RowSum(f: (nat, nat) -> real, i: nat, lo: nat, hi: nat): real
    decreases hi
  {
    if hi <= lo then 0.0 else RowSum(f, i, lo, hi - 1) + f(i, hi - 1)
  }

  /** f(lo, j) + ... + f(hi - 1, j). */
  function ColSum(f: (nat, nat) -> real, j: nat, lo: nat, hi: nat): real
    decreases hi
  {
    if hi <= lo then 0.0 else ColSum(f, j, lo, hi - 1) + f(hi - 1, j)
  }

  /** The sum of f over the rows 0 .. n-1 and the columns 0 .. size-1. */
  function SquareSum(f: (nat, nat) -> real, n: nat, size: nat): real
  {
    if n == 0 then 0.0 else SquareSum(f, n - 1, size) + RowSum(f, n - 1, 0, size)
  }

  /** (f(i, j) + f(j, i)) summed over lo <= j < hi: what the inner loop adds for row i. */
  function PairRow(f: (nat, nat) -> real, i: nat, lo: nat, hi: nat): real
    decreases hi
  {
    if hi <= lo then 0.0 else PairRow(f, i, lo, hi - 1) + (f(i, hi - 1) + f(hi - 1, i))
  }

  /** The triangular loop over the rows 0 .. n-1: the diagonal term, then each pair to its right. */
  function TriangleSum(f: (nat, nat) -> real, n: nat, size: nat): real
  {
    if n == 0 then 0.0 else TriangleSum(f, n - 1, size) + (f(n - 1, n - 1) + PairRow(f, n - 1, n, size))
  }

  function Diagonal(f: (nat, nat) -> real, n: nat): real
  {
    if n == 0 then 0.0 else Diagonal(f, n - 1) + f(n - 1, n - 1)
  }

  /** The pairs (i, j) with i < n and i < j < size. */
  function Upper(f: (nat, nat) -> real, n: nat, size: nat): real
  {
    if n == 0 then 0.0 else Upper(f, n - 1, size) + RowSum(f, n - 1, n, size)
  }

  /** The pairs (i, j) with j < i < n. */
  function Lower(f: (nat, nat) -> real, n: nat): real
  {
    if n == 0 then 0.0 else Lower(f, n - 1) + RowSum(f, n - 1, 0, n - 1)
  }

  /** The pairs (i, j) with j < n and j < i < size, summed column by column. */
  function UpperColumns(f: (nat, nat) -> real, n: nat, size: nat): real
  {
    if n == 0 then 0.0 else UpperColumns(f, n - 1, size) + ColSum(f, n - 1, n, size)
  }

  lemma {:induction false} RowSplit(f: (nat, nat) -> real, i: nat, lo: nat, mid: nat, hi: nat)
    requires lo <= mid <= hi
    ensures RowSum(f, i, lo, hi) == RowSum(f, i, lo, mid) + RowSum(f, i, mid, hi)
    decreases hi
  {
    if hi > mid {
      RowSplit(f, i, lo, mid, hi - 1);
    }
  }

  /** A row of the square splits at the diagonal: left of it, on it, right of it. */
  lemma {:induction false} SquareSplit(f: (nat, nat) -> real, n: nat, size: nat)
    requires n <= size
    ensures SquareSum(f, n, size) == Lower(f, n) + Diagonal(f, n) + Upper(f, n, size)
  {
    if n > 0 {
      SquareSplit(f, n - 1, size);
      RowSplit(f, n - 1, 0, n - 1, size);
      RowSplit(f, n - 1, n - 1, n, size);
    }
  }

  /** Extending the columns by row n adds the first k entries of row n. */
  lemma {:induction false} UpperColumnsStep(f: (nat, nat) -> real, k: nat, n: nat)
    requires k <= n
    ensures UpperColumns(f, k, n + 1) == UpperColumns(f, k, n) + RowSum(f, n, 0, k)
  {
    if k > 0 {
      UpperColumnsStep(f, k - 1, n);
    }
  }

  /** The part below the diagonal, read column by column, is the part above it of the transpose. */
  lemma {:induction false} LowerByColumns(f: (nat, nat) -> real, n: nat)
    ensures Lower(f, n) == UpperColumns(f, n, n)
  {
    if n > 0 {
      LowerByColumns(f, n - 1);
      UpperColumnsStep(f, n - 1, n - 1);
    }
  }

  lemma {:induction false} PairRowSplit(f: (nat, nat) -> real, i: nat, lo: nat, hi: nat)
    ensures PairRow(f, i, lo, hi) == RowSum(f, i, lo, hi) + ColSum(f, i, lo, hi)
    decreases hi
  {
    if hi > lo {
      PairRowSplit(f, i, lo, hi - 1);
    }
  }

  lemma {:induction false} TriangleSplit(f: (nat, nat) -> real, n: nat, size: nat)
    ensures TriangleSum(f, n, size) == Diagonal(f, n) + Upper(f, n, size) + UpperColumns(f, n, size)
  {
    if n > 0 {
      TriangleSplit(f, n - 1, size);
      PairRowSplit(f, n - 1, n, size);
    }
  }

  /**
   The triangular loop adds up exactly the sum over all ordered pairs: each
   pair off the diagonal is counted once in each order, each diagonal pair once.
   */
  lemma TriangleIsSquare(f: (nat, nat) -> real, n: nat)
    ensures TriangleSum(f, n, n) == SquareSum(f, n, n)
  {
    SquareSplit(f, n, n);
    TriangleSplit(f, n, n);
    LowerByColumns(f, n);
  }

  /** Rows whose terms all vanish add nothing. */
  lemma {:induction false} RowSumZero(f: (nat, nat) -> real, i: nat, lo: nat, hi: nat)
    requires forall j :: lo <= j < hi ==> f(i, j) == 0.0
    ensures RowSum(f, i, lo, hi) == 0.0
    decreases hi
  {
    if hi > lo {
      RowSumZero(f, i, lo, hi - 1);
    }
  }

  lemma {:induction false} PairRowZero(f: (nat, nat) -> real, i: nat, lo: nat, hi: nat)
    requires forall j :: lo <= j < hi ==> f(i, j) == 0.0 && f(j, i) == 0.0
    ensures PairRow(f, i, lo, hi) == 0.0
    decreases hi
  {
    if hi > lo {
      PairRowZero(f, i, lo, hi - 1);
    }
  }

  lemma {:induction false} PairRowSplitAt(f: (nat, nat) -> real, i: nat, lo: nat, mid: nat, hi: nat)
    requires lo <= mid <= hi
    ensures PairRow(f, i, lo, hi) == PairRow(f, i, lo, mid) + PairRow(f, i, mid, hi)
    decreases hi
  {
    if hi > mid {
      PairRowSplitAt(f, i, lo, mid, hi - 1);
    }
  }

  lemma {:induction false} PairRowTranspose(f: (nat, nat) -> real, g: (nat, nat) -> real, i: nat, lo: nat, hi: nat)
    requires forall j: nat, k: nat :: g(j, k) == f(k, j)
    ensures PairRow(g, i, lo, hi) == PairRow(f, i, lo, hi)
    decreases hi
  {
    if hi > lo {
      PairRowTranspose(f, g, i, lo, hi - 1);
      assert g(i, hi - 1) == f(hi - 1, i) && g(hi - 1, i) == f(i, hi - 1);
    }
  }

  lemma {:induction false} TriangleTranspose(f: (nat, nat) -> real, g: (nat, nat) -> real, n: nat, size: nat)
    requires forall j: nat, k: nat :: g(j, k) == f(k, j)
    ensures TriangleSum(g, n, size) == TriangleSum(f, n, size)
  {
    if n > 0 {
      TriangleTranspose(f, g, n - 1, size);
      PairRowTranspose(f, g, n - 1, n, size);
      assert g(n - 1, n - 1) == f(n - 1, n - 1);
    }
  }

  /** Summing over all ordered pairs does not see a transposition of f. */
  lemma TransposeSquare(f: (nat, nat) -> real, g: (nat, nat) -> real, n: nat)
    requires forall j: nat, k: nat :: g(j, k) == f(k, j)
    ensures SquareSum(g, n, n) == SquareSum(f, n, n)
  {
    TriangleIsSquare(f, n);
    TriangleIsSquare(g, n);
    TriangleTranspose(f, g, n, n);
  }
}
