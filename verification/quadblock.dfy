/**
 The block of degree 2 of the exponent table, and how the quadratic loops
 of the LSB bounder (MCpp/src/mc/tmodel.hpp, `_bound_LSB` lines 2020-2047)
 walk it. Monomial i of block 1 (1 <= i <= nvar) is x_{nvar-i}; the
 product of monomials i and k with k <= i sits at nvar + C(i, 2) + k, so
 block 2 is laid out row by row: row i holds the products of monomial i
 with monomials 1 .. i.
 */
module QuadraticBlock {
  import opened Binomials
  import opened ExponentVectors
  import opened MonomialRank
  import opened Intervals
  import opened TaylorEnvironment
  import opened TaylorDomain
  import opened TaylorVariables
  import opened TaylorConstruction
  import opened ProductTable
  import opened PairSums

  /** The exponent of x_a x_b. */
  function Pair(n: nat, a: nat, b: nat): seq<nat>
  {
    Plus(Unit(n, a), Unit(n, b))
  }

  lemma PairDegree(n: nat, a: nat, b: nat)
    requires a < n && b < n
    ensures |Pair(n, a, b)| == n && Degree(Pair(n, a, b)) == 2
  {
    DegreeUnit(n, a);
    DegreeUnit(n, b);
    DegreePlus(Unit(n, a), Unit(n, b));
  }

  lemma PairCommutes(n: nat, a: nat, b: nat)
    ensures Pair(n, a, b) == Pair(n, b, a)
  {
  }

  /**
   Inside the block of degree 2, x_a x_b with a <= b comes after the
   C(n-a, 2) products whose first variable is past a, and after the
   n-1-b products x_a x_c with c past b.
   */
  lemma {:induction false} OffsetPair(n: nat, a: nat, b: nat)
    requires a <= b < n
    ensures Offset(Pair(n, a, b)) == Binom(n - a, 2) + (n - 1 - b)
    decreases n
  {
    PairDegree(n, a, b);
    if n == 1 {
      BinomAbove(1, 2);
    } else if a >= 1 {
      OffsetPair(n - 1, a - 1, b - 1);
      OffsetPairSkip(n, a, b);
    } else if b >= 1 {
      OffsetPairFirst(n, a, b);
    } else {
      OffsetPairDouble(n, a, b);
    }
  }

  /** A product that does not use x_0 sits where it sits among the last n-1 variables. */
  lemma OffsetPairSkip(n: nat, a: nat, b: nat)
    requires 1 <= a <= b < n
    requires Offset(Pair(n - 1, a - 1, b - 1)) == Binom(n - a, 2) + (n - 1 - b)
    ensures Offset(Pair(n, a, b)) == Binom(n - a, 2) + (n - 1 - b)
  {
    var v := Pair(n, a, b);
    PairDegree(n, a, b);
    assert v[0] == 0;
    assert v[1..] == Pair(n - 1, a - 1, b - 1);
  }

  /** x_0 x_b with b >= 1 comes after x_0^2 and the products x_0 x_c with c past b. */
  lemma OffsetPairFirst(n: nat, a: nat, b: nat)
    requires a == 0 && 1 <= b < n
    ensures Offset(Pair(n, a, b)) == Binom(n - a, 2) + (n - 1 - b)
  {
    var v := Pair(n, 0, b);
    PairDegree(n, 0, b);
    assert v[0] == 1;
    assert v[1..] == Unit(n - 1, b - 1);
    OffsetUnit(n - 1, b - 1);
    OffsetSplit(v, 1, Unit(n - 1, b - 1), 2, Offset(v), n - 1 - b);
    InnerTwo(n);
  }

  /** x_0^2 is the last monomial of degree 2. */
  lemma OffsetPairDouble(n: nat, a: nat, b: nat)
    requires a == 0 && b == 0 && 2 <= n
    ensures Offset(Pair(n, a, b)) == Binom(n - a, 2) + (n - 1 - b)
  {
    var v := Pair(n, 0, 0);
    PairDegree(n, 0, 0);
    assert v[0] == 2;
    assert v[1..] == Zeros(n - 1);
    OffsetZeros(n - 1);
    OffsetSplit(v, 2, Zeros(n - 1), 2, Offset(v), 0);
    InnerTwo(n);
  }

  /** Where the vectors of degree 2 starting with 1 and with 2 begin inside their block. */
  lemma InnerTwo(n: nat)
    requires n >= 2
    ensures Inner(n - 2, 2, 1) == Binom(n, 2)
    ensures Inner(n - 2, 2, 2) == Binom(n, 2) + (n - 1)
  {
    BinomOne(n - 1);
  }

  /** Where block 2 starts and ends: posord[2] = n + 1 and posord[3] = n + 1 + C(n+1, 2). */
  lemma BlockTwoBounds(n: nat)
    requires n >= 1
    ensures Posord(n, 2) == n + 1
    ensures Posord(n, 3) == n + 1 + Binom(n + 1, 2)
  {
    BinomOne(n);
    assert Posord(n, 1) == 1;
    assert Count(n, 2) == Binom(n + 1, 2);
  }

  /** The position of x_{n-i} x_{n-k} for 1 <= k <= i <= n. */
  lemma LocPair(n: nat, i: nat, k: nat)
    requires 1 <= k <= i <= n
    ensures |Pair(n, n - i, n - k)| == n >= 1
    ensures Loc(Pair(n, n - i, n - k)) == n + Binom(i, 2) + k
  {
    PairDegree(n, n - i, n - k);
    OffsetPair(n, n - i, n - k);
    BlockTwoBounds(n);
  }

  /** Rows of block 2 grow by one: row i + 1 starts i places after row i. */
  lemma RowGrowth(i: nat)
    ensures Binom(i + 1, 2) == Binom(i, 2) + i
  {
    BinomOne(i);
  }

  lemma {:induction false} RowStartMonotone(a: nat, b: nat)
    requires a <= b
    ensures Binom(a, 2) <= Binom(b, 2)
    decreases b - a
  {
    if a < b {
      RowStartMonotone(a, b - 1);
      RowGrowth(b - 1);
    }
  }

  // ---------------------------------------------------------------------------
  // Block 2 of an environment.
  // ---------------------------------------------------------------------------

  /** Monomial i of block 1 is x_{nvar-i}. */
  lemma LinearAt(env: Env, i: nat)
    requires env.Indexed() && env.nord >= 1 && 1 <= i <= env.nvar
    ensures i < |env.expmon| && env.expmon[i] == Unit(env.nvar, env.nvar - i)
  {
    var v := Unit(env.nvar, env.nvar - i);
    DegreeUnit(env.nvar, env.nvar - i);
    LocUnit(env.nvar, env.nvar - i);
    TableAtLoc(v, env.nord + 1);
  }

  /** Entry k of row i of `_prodmon`, for monomials i and k of block 1, locates x_{nvar-i} x_{nvar-k}. */
  lemma ProdLinear(env: Env, i: nat, k: nat)
    requires env.Valid() && env.nord >= 2 && 1 <= i <= env.nvar && 1 <= k <= env.nvar
    ensures i < env.Nmon() && k < RowEnd(env, i)
    ensures Prod(env, i, k) == Loc(Pair(env.nvar, env.nvar - i, env.nvar - k))
  {
    var n := env.nvar;
    LinearRow(env, i, k);
    ProdmonAt(env, i, k);
    LinearAt(env, i);
    LinearAt(env, k);
    assert Plus(env.expmon[i], env.expmon[k]) == Pair(n, n - i, n - k);
  }

  /** The monomial at the position of x_{nvar-i} x_{nvar-k}, for k <= i. */
  lemma PairAt(env: Env, i: nat, k: nat)
    requires env.Indexed() && env.nord >= 2 && 1 <= k <= i <= env.nvar
    ensures env.nvar + Binom(i, 2) + k == Loc(Pair(env.nvar, env.nvar - i, env.nvar - k))
    ensures env.nvar + Binom(i, 2) + k < |env.expmon|
    ensures env.expmon[env.nvar + Binom(i, 2) + k] == Pair(env.nvar, env.nvar - i, env.nvar - k)
  {
    var n := env.nvar;
    LocPair(n, i, k);
    PairDegree(n, n - i, n - k);
    TableAtLoc(Pair(n, n - i, n - k), env.nord + 1);
  }

  /**
   The product of monomials i and k of block 1, for k <= i, is x_{nvar-i}
   x_{nvar-k}; `_prodmon` places it at nvar + C(i, 2) + k whichever of the
   two rows it is read from.
   */
  lemma ProdPair(env: Env, i: nat, k: nat)
    requires env.Valid() && env.nord >= 2 && 1 <= k <= i <= env.nvar
    ensures i < env.Nmon() && k < RowEnd(env, i) && k < env.Nmon() && i < RowEnd(env, k)
    ensures Prod(env, i, k) == Prod(env, k, i) == env.nvar + Binom(i, 2) + k
    ensures env.nvar + Binom(i, 2) + k < |env.expmon|
    ensures env.expmon[env.nvar + Binom(i, 2) + k] == Pair(env.nvar, env.nvar - i, env.nvar - k)
  {
    ProdLinear(env, i, k);
    ProdLinear(env, k, i);
    PairCommutes(env.nvar, env.nvar - i, env.nvar - k);
    PairAt(env, i, k);
  }

  /** x_a x_a is the square of x_a at every point, over any prefix of the variables. */
  lemma {:induction false} MonValueSquare(u: seq<real>, a: nat, m: nat)
    requires a < |u| && m <= |u|
    ensures MonValue(u, Pair(|u|, a, a), m) == Times(MonValue(u, Unit(|u|, a), m), MonValue(u, Unit(|u|, a), m))
  {
    if m > 0 {
      var e, f := Pair(|u|, a, a), Unit(|u|, a);
      MonValueSquare(u, a, m - 1);
      MonValueStep(u, e, m);
      MonValueStep(u, f, m);
      PowSquare(u, a, m - 1);
      SquareStep(MonValue(u, e, m - 1), MonValue(u, f, m - 1), RPow(u[m - 1], e[m - 1]), RPow(u[m - 1], f[m - 1]),
        MonValue(u, e, m), MonValue(u, f, m));
    }
  }

  /** The power of x_j in x_a x_a is the square of its power in x_a. */
  lemma PowSquare(u: seq<real>, a: nat, j: nat)
    requires a < |u| && j < |u|
    ensures RPow(u[j], Pair(|u|, a, a)[j]) == RPow(u[j], Unit(|u|, a)[j]) * RPow(u[j], Unit(|u|, a)[j])
  {
    var x := u[j];
    if j == a {
      assert Pair(|u|, a, a)[j] == 2 && Unit(|u|, a)[j] == 1;
      assert RPow(x, 1) == x;
      assert RPow(x, 2) == x * x;
    } else {
      assert Pair(|u|, a, a)[j] == 0 && Unit(|u|, a)[j] == 0;
    }
  }

  lemma SquareStep(q: real, p: real, pe: real, pf: real, s: real, r: real)
    requires q == Times(p, p) && pe == pf * pf && s == Times(q, pe) && r == Times(p, pf)
    ensures s == Times(r, r)
  {
    assert (p * p) * (pf * pf) == (p * pf) * (p * pf);
  }

  /**
   Monomial Prod(i, i) of block 2 is the square of monomial i of block 1:
   its value at u is the square of theirs.
   */
  lemma DiagonalMonomial(env: Env, i: nat, u: seq<real>)
    requires env.Valid() && env.nord >= 2 && 1 <= i <= env.nvar && |u| == env.nvar
    ensures i < env.Nmon() && i < RowEnd(env, i)
    ensures i < |env.expmon| && Prod(env, i, i) < |env.expmon|
    ensures |env.expmon[i]| == env.nvar && |env.expmon[Prod(env, i, i)]| == env.nvar
    ensures Prod(env, i, i) == PairPos(env.nvar, i - 1, i - 1)
    ensures MonValue(u, env.expmon[Prod(env, i, i)], env.nvar)
         == Times(MonValue(u, env.expmon[i], env.nvar), MonValue(u, env.expmon[i], env.nvar))
  {
    var n := env.nvar;
    ProdPair(env, i, i);
    LinearAt(env, i);
    var p := Prod(env, i, i);
    var sq, x := Pair(n, n - i, n - i), Unit(n, n - i);
    assert env.expmon[p] == sq && env.expmon[i] == x;
    PairDegree(n, n - i, n - i);
    MonValueSquare(u, n - i, n);
    assert MonValue(u, sq, n) == Times(MonValue(u, x, n), MonValue(u, x, n));
  }

  /**
   For i < k, the product of monomials i and k of block 1 sits at the
   pair position (i-1, k-1), read from row i or from row k.
   */
  lemma CrossMonomial(env: Env, i: nat, k: nat)
    requires env.Valid() && env.nord >= 2 && 1 <= i < k <= env.nvar
    ensures i < env.Nmon() && k < RowEnd(env, i)
    ensures Prod(env, i, k) == PairPos(env.nvar, i - 1, k - 1)
  {
    ProdPair(env, k, i);
  }

  // ---------------------------------------------------------------------------
  // The terms of block 2 as a symmetric function of index pairs.
  // ---------------------------------------------------------------------------

  /** Term p of the polynomial part at u, zero past the tables. */
  function TermAt(env: Env, coef: seq<real>, u: seq<real>, p: nat): real
  {
    if p < |coef| && p < |env.expmon| && |env.expmon[p]| == |u| then Times(coef[p], MonValue(u, env.expmon[p], |u|))
    else 0.0
  }

  /**
   The position of the product of block-1 monomials r+1 and c+1 (indices
   counted from 0), in either order.
   */
  function PairPos(n: nat, r: nat, c: nat): nat
  {
    if c <= r then n + 1 + Binom(r + 1, 2) + c else n + 1 + Binom(c + 1, 2) + r
  }

  /** h gives the term of the product of block-1 monomials r+1 and c+1. */
  ghost predicate QuadTerms(env: Env, coef: seq<real>, u: seq<real>, h: (nat, nat) -> real)
  {
    forall r: nat, c: nat {:trigger PairPos(env.nvar, r, c)} :: h(r, c) == TermAt(env, coef, u, PairPos(env.nvar, r, c))
  }

  lemma TermSumLast(env: Env, coef: seq<real>, u: seq<real>, lo: nat, hi: nat)
    requires env.Indexed() && |u| == env.nvar && hi <= |coef| && hi <= env.Nmon() && lo < hi
    ensures TermSum(env, coef, u, lo, hi) == TermSum(env, coef, u, lo, hi - 1) + TermAt(env, coef, u, hi - 1)
  {
    ExpmonRow(env, hi - 1);
  }

  /** Where row r of block 2 starts: after block 1 and the r rows before it. */
  function RowStart(n: nat, r: nat): nat
  {
    n + 1 + Binom(r + 1, 2)
  }

  /** Row r of block 2 ends where row r+1 starts, inside the table. */
  lemma RowInside(env: Env, r: nat)
    requires env.Indexed() && env.nord >= 2 && r < env.nvar
    ensures RowStart(env.nvar, r + 1) <= Posord(env.nvar, 3) <= env.Nmon()
    ensures RowStart(env.nvar, r + 1) == RowStart(env.nvar, r) + r + 1
  {
    RowGrowth(r + 1);
    RowStartMonotone(r + 2, env.nvar + 1);
    BlockTwoBounds(env.nvar);
    PosordMonotone(env.nvar, 3, env.nord + 1);
  }

  /** The first c terms of row r of block 2 are the pairs (r, 0) .. (r, c-1). */
  lemma {:induction false} RowTerms(env: Env, coef: seq<real>, u: seq<real>, h: (nat, nat) -> real, r: nat, c: nat)
    requires env.Indexed() && env.nord >= 2 && |u| == env.nvar && |coef| == env.Nmon()
    requires QuadTerms(env, coef, u, h) && r < env.nvar && c <= r + 1
    ensures RowStart(env.nvar, r) + c <= env.Nmon()
    ensures TermSum(env, coef, u, RowStart(env.nvar, r), RowStart(env.nvar, r) + c) == RowSum(h, r, 0, c)
  {
    RowInside(env, r);
    if c > 0 {
      var start := RowStart(env.nvar, r);
      RowTerms(env, coef, u, h, r, c - 1);
      TermSumLast(env, coef, u, start, start + c);
      assert PairPos(env.nvar, r, c - 1) == start + c - 1;
      assert h(r, c - 1) == TermAt(env, coef, u, start + c - 1);
    }
  }

  /** Block 2 up to the start of row r. */
  function Front(env: Env, coef: seq<real>, u: seq<real>, r: nat): real
    requires env.Indexed() && env.nord >= 2 && |u| == env.nvar && |coef| == env.Nmon() && r <= env.nvar
  {
    if r == 0 then 0.0
    else
      RowInside(env, r - 1);
      TermSum(env, coef, u, env.nvar + 1, RowStart(env.nvar, r))
  }

  /** Each row adds its pairs (r, 0) .. (r, r) to the front. */
  lemma RowStep(env: Env, coef: seq<real>, u: seq<real>, h: (nat, nat) -> real, r: nat)
    requires env.Indexed() && env.nord >= 2 && |u| == env.nvar && |coef| == env.Nmon()
    requires QuadTerms(env, coef, u, h) && r < env.nvar
    ensures Front(env, coef, u, r + 1) == Front(env, coef, u, r) + RowSum(h, r, 0, r + 1)
  {
    var n := env.nvar;
    RowInside(env, r);
    var start, stop := RowStart(n, r), RowStart(n, r + 1);
    RowTerms(env, coef, u, h, r, r + 1);
    assert stop == start + r + 1;
    if r == 0 {
      BinomAbove(1, 2);
      assert start == n + 1;
    } else {
      TermSumSplit(env, coef, u, n + 1, start, stop);
    }
  }

  /** Summing the rows one by one gives the lower triangle and the diagonal. */
  lemma {:induction false} SumByRows(h: (nat, nat) -> real, f: nat -> real, r: nat)
    requires f(0) == 0.0
    requires forall k: nat :: k < r ==> f(k + 1) == f(k) + RowSum(h, k, 0, k + 1)
    ensures f(r) == Lower(h, r) + Diagonal(h, r)
  {
    if r > 0 {
      SumByRows(h, f, r - 1);
      AddRow(h, r - 1, f(r), f(r - 1), RowSum(h, r - 1, 0, r));
    }
  }

  /** Adding row r to the rows before it. */
  lemma AddRow(h: (nat, nat) -> real, r: nat, total: real, front: real, row: real)
    requires total == front + row
    requires front == Lower(h, r) + Diagonal(h, r) && row == RowSum(h, r, 0, r + 1)
    ensures total == Lower(h, r + 1) + Diagonal(h, r + 1)
  {
    RowSplit(h, r, 0, r, r + 1);
    assert RowSum(h, r, r, r + 1) == h(r, r);
  }

  /** Rows 0 .. nvar-1 of block 2 hold every pair (i, j) with j <= i < nvar. */
  lemma BlockTwoRows(env: Env, coef: seq<real>, u: seq<real>, h: (nat, nat) -> real)
    requires env.Indexed() && env.nord >= 2 && |u| == env.nvar && |coef| == env.Nmon()
    requires QuadTerms(env, coef, u, h)
    ensures Front(env, coef, u, env.nvar) == Lower(h, env.nvar) + Diagonal(h, env.nvar)
  {
    var n := env.nvar;
    var f := (k: nat) => if k <= n then Front(env, coef, u, k) else 0.0;
    forall k: nat | k < n
      ensures f(k + 1) == f(k) + RowSum(h, k, 0, k + 1)
    {
      RowStep(env, coef, u, h, k);
    }
    SumByRows(h, f, n);
  }

  /** For a symmetric f, reading a column is reading the row of the same index. */
  lemma {:induction false} ColIsRow(f: (nat, nat) -> real, j: nat, lo: nat, hi: nat)
    requires forall a: nat, b: nat :: f(a, b) == f(b, a)
    ensures ColSum(f, j, lo, hi) == RowSum(f, j, lo, hi)
    decreases hi
  {
    if hi > lo {
      ColIsRow(f, j, lo, hi - 1);
      assert f(hi - 1, j) == f(j, hi - 1);
    }
  }

  lemma {:induction false} ColumnsAreRows(f: (nat, nat) -> real, n: nat, size: nat)
    requires forall a: nat, b: nat :: f(a, b) == f(b, a)
    ensures UpperColumns(f, n, size) == Upper(f, n, size)
  {
    if n > 0 {
      ColumnsAreRows(f, n - 1, size);
      ColIsRow(f, n - 1, n, size);
    }
  }

  lemma QuadTermsSymmetric(env: Env, coef: seq<real>, u: seq<real>, h: (nat, nat) -> real)
    requires QuadTerms(env, coef, u, h)
    ensures forall a: nat, b: nat :: h(a, b) == h(b, a)
  {
    forall a: nat, b: nat
      ensures h(a, b) == h(b, a)
    {
      assert PairPos(env.nvar, a, b) == PairPos(env.nvar, b, a);
    }
  }

  /**
   Block 2 summed in storage order equals the diagonal plus, for each
   row, the pairs to its right: the order in which the LSB bounder visits
   the quadratic terms.
   */
  lemma BlockTwoByRows(env: Env, coef: seq<real>, u: seq<real>, h: (nat, nat) -> real)
    requires env.Indexed() && env.nord >= 2 && |u| == env.nvar && |coef| == env.Nmon()
    requires QuadTerms(env, coef, u, h)
    ensures Posord(env.nvar, 2) == env.nvar + 1 <= Posord(env.nvar, 3) <= env.Nmon()
    ensures TermSum(env, coef, u, Posord(env.nvar, 2), Posord(env.nvar, 3))
         == Diagonal(h, env.nvar) + Upper(h, env.nvar, env.nvar)
  {
    var n := env.nvar;
    FrontIsBlock(env, coef, u);
    BlockTwoRows(env, coef, u, h);
    QuadTermsSymmetric(env, coef, u, h);
    LowerByColumns(h, n);
    ColumnsAreRows(h, n, n);
  }

  /** All nvar rows together make up block 2. */
  lemma FrontIsBlock(env: Env, coef: seq<real>, u: seq<real>)
    requires env.Indexed() && env.nord >= 2 && |u| == env.nvar && |coef| == env.Nmon()
    ensures Posord(env.nvar, 2) == env.nvar + 1 <= Posord(env.nvar, 3) <= env.Nmon()
    ensures Front(env, coef, u, env.nvar) == TermSum(env, coef, u, Posord(env.nvar, 2), Posord(env.nvar, 3))
  {
    BlockTwoBounds(env.nvar);
    RowInside(env, env.nvar - 1);
  }
}
