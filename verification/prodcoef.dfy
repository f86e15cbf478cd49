/**
 The coefficient part of the Taylor model product and square
 (MCpp/src/mc/tmodel.hpp lines 2497-2502 and 2537-2543). The reference is
 the truncated product of the two polynomials: coefficient m collects
 a_i * b_j over every ordered pair of monomials (i, j) whose product is
 monomial m and whose degrees add up to at most the order. The C++ loops
 visit only the pairs i <= j inside the product table, and add the
 diagonal term once and each other pair in both orders.
 */
module ProductCoefficients {
  import opened ExponentVectors
  import opened MonomialRank
  import opened TaylorEnvironment
  import opened Intervals
  import opened PairSums
  import opened ProductTable

  /** a_i * b_j when monomials i and j multiply, within the order, to monomial m; else 0. */
  function PairTerm(env: Env, a: seq<real>, b: seq<real>, m: nat, i: nat, j: nat): real
  {
    if i < |a| && j < |b| && i < |env.expmon| && j < |env.expmon|
       && |env.expmon[i]| == |env.expmon[j]| >= 1
       && Degree(env.expmon[i]) + Degree(env.expmon[j]) <= env.nord
       && Loc(Plus(env.expmon[i], env.expmon[j])) == m
    then Times(a[i], b[j])
    else 0.0
  }

  /** The pair terms landing on monomial m, as a function of the pair. */
  function Products(env: Env, a: seq<real>, b: seq<real>, m: nat): (nat, nat) -> real
  {
    (i: nat, j: nat) => PairTerm(env, a, b, m, i, j)
  }

  /** Coefficient m of the product of a and b truncated at the order: the sum over all ordered pairs. */
  function ProductCoef(env: Env, a: seq<real>, b: seq<real>, m: nat): real
  {
    SquareSum(Products(env, a, b, m), env.Nmon(), env.Nmon())
  }

  /** The truncated product is symmetric in its factors. */
  lemma ProductCoefCommutes(env: Env, a: seq<real>, b: seq<real>, m: nat)
    ensures ProductCoef(env, a, b, m) == ProductCoef(env, b, a, m)
  {
    var f, g := Products(env, a, b, m), Products(env, b, a, m);
    var n := env.Nmon();
    forall i: nat, j: nat
      ensures g(i, j) == f(j, i)
    {
      if i < |env.expmon| && j < |env.expmon| && |env.expmon[i]| == |env.expmon[j]| {
        assert Plus(env.expmon[i], env.expmon[j]) == Plus(env.expmon[j], env.expmon[i]);
      }
    }
    TransposeSquare(f, g, n);
  }

  // ---------------------------------------------------------------------------
  // Where each pair term lands.
  // ---------------------------------------------------------------------------

  /** Inside row i, the pair (i, k) contributes a_i b_k + a_k b_i to the entry the table names, and nothing elsewhere. */
  lemma PairLands(env: Env, a: seq<real>, b: seq<real>, m: nat, i: nat, k: nat)
    requires env.Valid() && |a| == |b| == env.Nmon() && i < env.Nmon() && k < RowEnd(env, i)
    ensures k + 1 < |env.prodmon[i]| && env.prodmon[i][k + 1] < env.Nmon()
    ensures PairTerm(env, a, b, m, i, k) + PairTerm(env, a, b, m, k, i)
         == if m == env.prodmon[i][k + 1] then Times(a[i], b[k]) + Times(a[k], b[i]) else 0.0
  {
    ProdmonAt(env, i, k);
    assert Plus(env.expmon[i], env.expmon[k]) == Plus(env.expmon[k], env.expmon[i]);
  }

  lemma DiagonalLands(env: Env, a: seq<real>, b: seq<real>, m: nat, i: nat)
    requires env.Valid() && |a| == |b| == env.Nmon() && i < env.Nmon() && i < RowEnd(env, i)
    ensures i + 1 < |env.prodmon[i]| && env.prodmon[i][i + 1] < env.Nmon()
    ensures PairTerm(env, a, b, m, i, i) == if m == env.prodmon[i][i + 1] then Times(a[i], b[i]) else 0.0
  {
    ProdmonAt(env, i, i);
  }

  /** Past the end of row i no pair with i multiplies within the order. */
  lemma PastRow(env: Env, a: seq<real>, b: seq<real>, m: nat, i: nat, k: nat)
    requires env.Indexed() && i < env.Nmon() && RowEnd(env, i) <= k
    ensures PairTerm(env, a, b, m, i, k) == 0.0 && PairTerm(env, a, b, m, k, i) == 0.0
  {
    TableLength(env.nvar, env.nord + 1);
    if k < env.Nmon() {
      RowEndDegree(env, i, k);
    }
  }

  /** Row i's pairs to the right of lo vanish once lo has reached the end of the row. */
  lemma PairRowPast(env: Env, a: seq<real>, b: seq<real>, m: nat, i: nat, lo: nat, hi: nat)
    requires env.Indexed() && i < env.Nmon() && RowEnd(env, i) <= lo
    ensures PairRow(Products(env, a, b, m), i, lo, hi) == 0.0
  {
    var f := Products(env, a, b, m);
    forall k | lo <= k < hi
      ensures f(i, k) == 0.0 && f(k, i) == 0.0
    {
      PastRow(env, a, b, m, i, k);
    }
    PairRowZero(f, i, lo, hi);
  }

  /** The rows the C++ loop skips, from block nord/2+1 on, add nothing. */
  lemma SkippedRow(env: Env, a: seq<real>, b: seq<real>, m: nat, i: nat)
    requires env.Indexed() && Posord(env.nvar, env.nord / 2 + 1) <= i < env.Nmon()
    ensures Products(env, a, b, m)(i, i) == 0.0
    ensures PairRow(Products(env, a, b, m), i, i + 1, env.Nmon()) == 0.0
  {
    var f := Products(env, a, b, m);
    DegreeBelow(env, i, env.nord / 2 + 1);
    forall k | i + 1 <= k < env.Nmon()
      ensures f(i, k) == 0.0 && f(k, i) == 0.0
    {
      DegreeOrdered(env, i, k);
    }
    PairRowZero(f, i, i + 1, env.Nmon());
  }

  /** The rows the C++ loop visits have their diagonal inside the product table. */
  lemma VisitedRow(env: Env, i: nat)
    requires env.Indexed() && i < Posord(env.nvar, env.nord / 2 + 1) && i < env.Nmon()
    ensures i < RowEnd(env, i)
  {
    DegreeBelow(env, i, env.nord / 2 + 1);
    RowEndDegree(env, i, i);
  }

  /** The loop bound `_posord[nord/2+1]` is a block start inside the table. */
  lemma HalfBound(env: Env)
    requires env.Indexed()
    ensures env.nord / 2 + 1 < |env.posord|
    ensures env.posord[env.nord / 2 + 1] == Posord(env.nvar, env.nord / 2 + 1) <= env.Nmon()
  {
    PosordMonotone(env.nvar, env.nord / 2 + 1, env.nord + 1);
  }

  // ---------------------------------------------------------------------------
  // The loops.
  // ---------------------------------------------------------------------------

  /** After rows 0 .. i-1 of the loop, c holds their triangular sums. */
  predicate RowsDone(env: Env, a: seq<real>, b: seq<real>, c: seq<real>, i: nat)
  {
    |c| == env.Nmon() && forall m :: 0 <= m < |c| ==> c[m] == TriangleSum(Products(env, a, b, m), i, env.Nmon())
  }

  /** Inside row i, after its diagonal and its pairs up to column j - 1. */
  predicate RowPartial(env: Env, a: seq<real>, b: seq<real>, c: seq<real>, i: nat, j: nat)
  {
    |c| == env.Nmon()
    && forall m :: 0 <= m < |c| ==>
         c[m] == TriangleSum(Products(env, a, b, m), i, env.Nmon())
                 + (Products(env, a, b, m)(i, i) + PairRow(Products(env, a, b, m), i, i + 1, j))
  }

  /** Adds x to entry p. */
  function AddAt(c: seq<real>, p: nat, x: real): (r: seq<real>)
    requires p < |c|
    ensures |r| == |c| && r[p] == c[p] + x
    ensures forall m :: 0 <= m < |c| && m != p ==> r[m] == c[m]
  {
    c[p := c[p] + x]
  }

  lemma StartRow(env: Env, a: seq<real>, b: seq<real>, c: seq<real>, i: nat)
    requires env.Valid() && |a| == |b| == env.Nmon() && i < env.Nmon() && i < RowEnd(env, i)
    requires RowsDone(env, a, b, c, i)
    ensures RowPartial(env, a, b, AddAt(c, Prod(env, i, i), Times(a[i], b[i])), i, i + 1)
  {
    var c' := AddAt(c, Prod(env, i, i), Times(a[i], b[i]));
    forall m | 0 <= m < |c'|
      ensures c'[m] == TriangleSum(Products(env, a, b, m), i, env.Nmon())
                       + (Products(env, a, b, m)(i, i) + PairRow(Products(env, a, b, m), i, i + 1, i + 1))
    {
      DiagonalLands(env, a, b, m, i);
    }
  }

  lemma PairStep(env: Env, a: seq<real>, b: seq<real>, c: seq<real>, i: nat, j: nat)
    requires env.Valid() && |a| == |b| == env.Nmon() && i < env.Nmon() && i < j < RowEnd(env, i)
    requires RowPartial(env, a, b, c, i, j)
    ensures RowPartial(env, a, b, AddAt(c, Prod(env, i, j), Times(a[i], b[j]) + Times(a[j], b[i])), i, j + 1)
  {
    var c' := AddAt(c, Prod(env, i, j), Times(a[i], b[j]) + Times(a[j], b[i]));
    forall m | 0 <= m < |c'|
      ensures c'[m] == TriangleSum(Products(env, a, b, m), i, env.Nmon())
                       + (Products(env, a, b, m)(i, i) + PairRow(Products(env, a, b, m), i, i + 1, j + 1))
    {
      PairLands(env, a, b, m, i, j);
    }
  }

  lemma EndRow(env: Env, a: seq<real>, b: seq<real>, c: seq<real>, i: nat, j: nat)
    requires env.Indexed() && i < env.Nmon() && i + 1 <= j == RowEnd(env, i)
    requires RowPartial(env, a, b, c, i, j)
    ensures RowsDone(env, a, b, c, i + 1)
  {
    forall m | 0 <= m < |c|
      ensures c[m] == TriangleSum(Products(env, a, b, m), i + 1, env.Nmon())
    {
      PairRowSplitAt(Products(env, a, b, m), i, i + 1, j, env.Nmon());
      PairRowPast(env, a, b, m, i, j, env.Nmon());
    }
  }

  /** Rows from block nord/2+1 on add nothing, so the triangular sum up to there is the truncated product. */
  lemma TruncatedRows(env: Env, a: seq<real>, b: seq<real>, m: nat)
    requires env.Indexed()
    ensures TriangleSum(Products(env, a, b, m), Posord(env.nvar, env.nord / 2 + 1), env.Nmon()) == ProductCoef(env, a, b, m)
  {
    PosordMonotone(env.nvar, env.nord / 2 + 1, env.nord + 1);
    SkippedRows(env, a, b, m, env.Nmon());
    TriangleIsSquare(Products(env, a, b, m), env.Nmon());
  }

  /** The triangular sum stops growing once its rows reach block nord/2+1. */
  lemma {:induction false} SkippedRows(env: Env, a: seq<real>, b: seq<real>, m: nat, k: nat)
    requires env.Indexed() && Posord(env.nvar, env.nord / 2 + 1) <= k <= env.Nmon()
    ensures TriangleSum(Products(env, a, b, m), k, env.Nmon())
         == TriangleSum(Products(env, a, b, m), Posord(env.nvar, env.nord / 2 + 1), env.Nmon())
    decreases k
  {
    if k > Posord(env.nvar, env.nord / 2 + 1) {
      SkippedRows(env, a, b, m, k - 1);
      SkippedRow(env, a, b, m, k - 1);
    }
  }

  /** Once the loop passes block nord/2+1, the triangular sums are the truncated product. */
  lemma LoopDone(env: Env, a: seq<real>, b: seq<real>, c: seq<real>)
    requires env.Indexed()
    requires RowsDone(env, a, b, c, Posord(env.nvar, env.nord / 2 + 1))
    ensures forall m :: 0 <= m < |c| ==> c[m] == ProductCoef(env, a, b, m)
  {
    forall m | 0 <= m < |c|
      ensures c[m] == ProductCoef(env, a, b, m)
    {
      TruncatedRows(env, a, b, m);
    }
  }

  /** The square's loop adds 2 a_i a_j, the two orders of the pair at once. */
  lemma SquarePairStep(env: Env, a: seq<real>, c: seq<real>, i: nat, j: nat)
    requires env.Valid() && |a| == env.Nmon() && i < env.Nmon() && i < j < RowEnd(env, i)
    requires RowPartial(env, a, a, c, i, j)
    ensures RowPartial(env, a, a, AddAt(c, Prod(env, i, j), a[i] * a[j] * 2.0), i, j + 1)
  {
    PairStep(env, a, a, c, i, j);
    assert a[i] * a[j] * 2.0 == Times(a[i], a[j]) + Times(a[j], a[i]);
  }

  lemma LoopStart(env: Env, a: seq<real>, b: seq<real>)
    ensures RowsDone(env, a, b, seq(env.Nmon(), _ => 0.0), 0)
  {
  }

  /**
   The coefficient loop of `operator*` (lines 2497-2502): for each monomial
   i before block nord/2+1, a_i b_i goes to the square of monomial i, and
   a_i b_j + a_j b_i to the product of monomials i and j for every later j
   of row i. The result is the truncated product.
   */
  method MulCoefs(env: Env, a: seq<real>, b: seq<real>) returns (c: seq<real>)
    requires env.Valid() && |a| == |b| == env.Nmon()
    ensures |c| == env.Nmon()
    ensures forall m :: 0 <= m < |c| ==> c[m] == ProductCoef(env, a, b, m)
  {
    HalfBound(env);
    var h := env.posord[env.nord / 2 + 1];
    c := seq(env.Nmon(), _ => 0.0);
    LoopStart(env, a, b);
    var i := 0;
    while i < h
      invariant 0 <= i <= h && RowsDone(env, a, b, c, i)
    {
      VisitedRow(env, i);
      StartRow(env, a, b, c, i);
      c := AddAt(c, Prod(env, i, i), Times(a[i], b[i]));
      ProdmonAt(env, i, i);
      var j := i + 1;
      while j < env.prodmon[i][0]
        invariant i + 1 <= j <= RowEnd(env, i) && RowPartial(env, a, b, c, i, j)
      {
        PairStep(env, a, b, c, i, j);
        c := AddAt(c, Prod(env, i, j), Times(a[i], b[j]) + Times(a[j], b[i]));
        j := j + 1;
      }
      EndRow(env, a, b, c, i, j);
      i := i + 1;
    }
    LoopDone(env, a, b, c);
  }

  /**
   The coefficient loop of `sqr` (lines 2537-2543): a_i^2 on the diagonal
   and 2 a_i a_j for the pairs; the result is the truncated product of a
   with itself.
   */
  method SqrCoefs(env: Env, a: seq<real>) returns (c: seq<real>)
    requires env.Valid() && |a| == env.Nmon()
    ensures |c| == env.Nmon()
    ensures forall m :: 0 <= m < |c| ==> c[m] == ProductCoef(env, a, a, m)
  {
    HalfBound(env);
    var h := env.posord[env.nord / 2 + 1];
    c := seq(env.Nmon(), _ => 0.0);
    LoopStart(env, a, a);
    var i := 0;
    while i < h
      invariant 0 <= i <= h && RowsDone(env, a, a, c, i)
    {
      VisitedRow(env, i);
      StartRow(env, a, a, c, i);
      c := AddAt(c, Prod(env, i, i), Times(a[i], a[i]));
      ProdmonAt(env, i, i);
      var j := i + 1;
      while j < env.prodmon[i][0]
        invariant i + 1 <= j <= RowEnd(env, i) && RowPartial(env, a, a, c, i, j)
      {
        SquarePairStep(env, a, c, i, j);
        c := AddAt(c, Prod(env, i, j), a[i] * a[j] * 2.0);
        j := j + 1;
      }
      EndRow(env, a, a, c, i, j);
      i := i + 1;
    }
    LoopDone(env, a, a, c);
  }
}
