/**
 Range bounders of a Taylor variable (MCpp/src/mc/tmodel.hpp): the naive
 bounder `_bound_naive` adds up the constant, the block bounds and the
 remainder; the LSB bounder `_bound_LSB` replaces the bounds of degree 1
 and 2 by a completed square per variable plus the cross terms; `_bound`
 picks one by the options.
 */
module TaylorBounds {
  import opened ExponentVectors
  import opened MonomialRank
  import opened TaylorEnvironment
  import opened Intervals
  import opened TaylorDomain
  import opened TaylorVariables
  import opened ProductTable
  import opened PairSums
  import opened QuadraticBlock

  /** start + bnd[lo] + ... + bnd[hi - 1], added left to right. */
  function AddBlocks(start: Interval, bnd: seq<Interval>, lo: nat, hi: nat): Interval
    requires hi <= |bnd|
    decreases hi
  {
    if hi <= lo then start else Add(AddBlocks(start, bnd, lo, hi - 1), bnd[hi - 1])
  }

  // ---------------------------------------------------------------------------
  // The naive bounder.
  // ---------------------------------------------------------------------------

  /**
   `_bound_naive` (lines 2120-2127): the constant plus the bounds of orders
   1 .. nord+1. It holds every value the variable encloses at any point
   where the block bounds hold their blocks.
   */
  function BoundNaive(t: TVar): (r: Interval)
    requires t.Wf() && t.Attached?
    ensures forall u, v :: |u| == t.env.nvar && BlocksHoldAt(t, u) && Encloses(t, u, v) ==> r.Contains(v)
  {
    var env := t.env;
    EnvTables(env);
    var r := AddBlocks(Point(t.coef[0]), t.bndord, 1, env.nord + 2);
    assert forall u, v | |u| == env.nvar && BlocksHoldAt(t, u) && Encloses(t, u, v) :: r.Contains(v) by {
      forall u, v | |u| == env.nvar && BlocksHoldAt(t, u) && Encloses(t, u, v)
        ensures r.Contains(v)
      {
        assert BlocksHold(env, t.coef, t.bndord, u, 0, env.nord + 1);
        BlocksPartial(env, t.coef, t.bndord, u, Point(t.coef[0]), 1, env.nord + 1);
        AddContains(AddBlocks(Point(t.coef[0]), t.bndord, 1, env.nord + 1), t.bndord[env.nord + 1],
          PolyValue(t, u), v - PolyValue(t, u));
      }
    }
    r
  }

  /** `_posord[d]`, the position of the first monomial of degree d. */
  function BlockStart(env: Env, d: nat): (p: nat)
    requires env.Indexed() && d <= env.nord + 1
    ensures p <= env.Nmon()
  {
    EnvTables(env);
    env.posord[d]
  }

  /** The block bounds j .. k-1 hold the values of their blocks at u. */
  ghost predicate BlocksHold(env: Env, coef: seq<real>, bnd: seq<Interval>, u: seq<real>, j: nat, k: nat)
    requires env.Indexed() && |u| == env.nvar && |coef| == env.Nmon() && k <= env.nord + 1 && k <= |bnd|
  {
    forall d :: j <= d < k ==> bnd[d].Contains(BlockValue(env, coef, u, d))
  }

  /**
   Adding the blocks j .. k-1 to a start that holds the terms of degree
   below j gives an interval that holds the terms of degree below k.
   */
  lemma {:induction false} BlocksPartial(env: Env, coef: seq<real>, bnd: seq<Interval>, u: seq<real>, start: Interval, j: nat, k: nat)
    requires env.Indexed() && |u| == env.nvar && |coef| == env.Nmon() >= 1 && |bnd| == env.nord + 2
    requires 1 <= j <= k <= env.nord + 1 && BlocksHold(env, coef, bnd, u, j, k)
    requires start.Contains(coef[0] + TermSum(env, coef, u, 1, BlockStart(env, j)))
    ensures AddBlocks(start, bnd, j, k).Contains(coef[0] + TermSum(env, coef, u, 1, BlockStart(env, k)))
    decreases k
  {
    if k > j {
      BlocksPartial(env, coef, bnd, u, start, j, k - 1);
      EnvTables(env);
      var mid, stop := BlockStart(env, k - 1), BlockStart(env, k);
      var prev := coef[0] + TermSum(env, coef, u, 1, mid);
      var blk := BlockValue(env, coef, u, k - 1);
      assert bnd[k - 1].Contains(blk);
      assert blk == TermSum(env, coef, u, mid, stop);
      TermSumSplit(env, coef, u, 1, mid, stop);
      AddContains(AddBlocks(start, bnd, j, k - 1), bnd[k - 1], prev, blk);
      assert prev + blk == coef[0] + TermSum(env, coef, u, 1, stop);
    }
  }

  // ---------------------------------------------------------------------------
  // The LSB bounder.
  // ---------------------------------------------------------------------------

  /** `TOL` of `_bound_LSB`: diagonal coefficients this small are treated as linear. */
  const Tol: real := 0.00000001

  function Abs(x: real): real
  {
    if x < 0.0 then -x else x
  }

  /**
   The bound on a x + q x^2 for x in B: the completed square
   q (a/q/2 + x)^2 - a^2/q/4 when |q| exceeds the tolerance, else the two
   terms bounded apart (B2 bounds x^2).
   */
  function Quadratic(a: real, q: real, b: Interval, b2: Interval): Interval
  {
    if Abs(q) > Tol then Sub(Scale(q, Sqr(Add(Point(a / q / 2.0), b))), Point(a * a / q / 4.0))
    else Add(Scale(a, b), Scale(q, b2))
  }

  /** The linear and diagonal quadratic terms of the variable at position i of block 1. */
  function LsbDiagonal(dom: Domain, t: TVar, i: nat): Interval
    requires t.Wf() && t.Attached? && dom.Fits(t.env) && t.env.nord >= 2 && 1 <= i <= t.env.nvar
  {
    LinearRow(t.env, i, i);
    var ii := Prod(t.env, i, i);
    Quadratic(t.coef[i], t.coef[ii], Bndmon(t.env, dom, i), Bndmon(t.env, dom, ii))
  }

  /** acc plus the bounds of the cross terms of position i with positions i+1 .. hi-1. */
  function LsbCross(dom: Domain, t: TVar, acc: Interval, i: nat, hi: nat): Interval
    requires t.Wf() && t.Attached? && dom.Fits(t.env) && t.env.nord >= 2 && 1 <= i <= t.env.nvar && hi <= t.env.nvar + 1
    decreases hi
  {
    if hi <= i + 1 then acc
    else
      LinearRow(t.env, i, hi - 1);
      var ik := Prod(t.env, i, hi - 1);
      Add(LsbCross(dom, t, acc, i, hi - 1), Scale(t.coef[ik], Bndmon(t.env, dom, ik)))
  }

  /** acc plus the diagonal and cross bounds of the first n positions of block 1. */
  function LsbQuadratic(dom: Domain, t: TVar, acc: Interval, n: nat): Interval
    requires t.Wf() && t.Attached? && dom.Fits(t.env) && t.env.nord >= 2 && n <= t.env.nvar
  {
    if n == 0 then acc
    else LsbCross(dom, t, Add(LsbQuadratic(dom, t, acc, n - 1), LsbDiagonal(dom, t, n)), n, t.env.nvar + 1)
  }

  /**
   `_bound_LSB` (lines 2020-2047): the constant; then the bound of order 1
   when the order is 1, or the per-variable quadratic bounds when it is
   above 1; then the bounds of orders 3 .. nord; then the remainder. Below
   order 2 there is nothing quadratic to complete and it is the naive
   bound; at every order it holds every value the variable encloses at any
   point of the box where the block bounds hold their blocks.
   */
  function BoundLsb(dom: Domain, t: TVar): (r: Interval)
    requires t.Wf() && t.Attached? && dom.Fits(t.env)
    ensures t.env.nord <= 1 ==> r == BoundNaive(t)
    ensures forall u, v :: InBox(dom, u) && |u| == t.env.nvar && BlocksHoldAt(t, u) && Encloses(t, u, v) ==> r.Contains(v)
  {
    var env := t.env;
    EnvTables(env);
    var c, b := Point(t.coef[0]), t.bndord;
    var low :=
      if env.nord == 1 then Add(c, b[1])
      else if env.nord > 1 then LsbQuadratic(dom, t, c, env.nvar)
      else c;
    var r := Add(AddBlocks(low, b, 3, env.nord + 1), b[env.nord + 1]);
    assert env.nord <= 1 ==> r == BoundNaive(t) by {
      assert AddBlocks(c, b, 1, 2) == Add(c, b[1]);
      if env.nord == 1 {
        assert AddBlocks(c, b, 1, 3) == Add(Add(c, b[1]), b[2]);
      }
    }
    assert forall u, v | InBox(dom, u) && |u| == env.nvar && BlocksHoldAt(t, u) && Encloses(t, u, v) :: r.Contains(v) by {
      forall u, v | InBox(dom, u) && |u| == env.nvar && BlocksHoldAt(t, u) && Encloses(t, u, v)
        ensures r.Contains(v)
      {
        if env.nord > 1 {
          LsbContains(dom, t, u, v);
        }
      }
    }
    r
  }

  /** Completing the square: a x + q x^2 = q (h + x)^2 - w for h = a/q/2 and w = a^2/q/4. */
  lemma CompleteSquare(a: real, q: real, x: real, h: real, w: real, y: real)
    requires q != 0.0 && h == a / q / 2.0 && w == a * a / q / 4.0 && y == (h + x) * (h + x)
    ensures Times(a, x) + Times(q, x * x) == q * y - w
  {
    assert a == 2.0 * q * h;
    assert w == q * h * h;
  }

  /** The completed square holds a x + q x^2 for x in B. */
  lemma CompletedSquareContains(a: real, q: real, b: Interval, x: real)
    requires q != 0.0 && b.Contains(x)
    ensures Sub(Scale(q, Sqr(Add(Point(a / q / 2.0), b))), Point(a * a / q / 4.0)).Contains(Times(a, x) + Times(q, x * x))
  {
    var h := a / q / 2.0;
    var w := a * a / q / 4.0;
    var s := Sqr(Add(Point(h), b));
    AddContains(Point(h), b, h, x);
    SqrContains(Add(Point(h), b), h + x);
    var y := (h + x) * (h + x);
    ScaleContains(q, s, y);
    CompleteSquare(a, q, x, h, w, y);
    SubContainsAt(Scale(q, s), Point(w), q * y, w, Times(a, x) + Times(q, x * x));
  }

  lemma SubContainsAt(a: Interval, b: Interval, x: real, y: real, z: real)
    requires a.Contains(x) && b.Contains(y) && z == x - y
    ensures Sub(a, b).Contains(z)
  {
    SubContains(a, b, x, y);
  }

  /** The two terms bounded apart hold a x + q y for x in B and y in B2. */
  lemma SeparateContains(a: real, q: real, b: Interval, b2: Interval, x: real, y: real)
    requires b.Contains(x) && b2.Contains(y)
    requires Abs(q) <= Tol
    ensures Quadratic(a, q, b, b2).Contains(Times(a, x) + Times(q, y))
  {
    ScaleContains(a, b, x);
    ScaleContains(q, b2, y);
    AddContains(Scale(a, b), Scale(q, b2), a * x, q * y);
  }

  /** The per-variable bound holds a x + q x^2 whenever B holds x and B2 holds x^2. */
  lemma QuadraticContains(a: real, q: real, b: Interval, b2: Interval, x: real)
    requires b.Contains(x) && b2.Contains(x * x)
    ensures Quadratic(a, q, b, b2).Contains(Times(a, x) + Times(q, x * x))
  {
    if Abs(q) > Tol {
      CompletedSquareContains(a, q, b, x);
      assert Quadratic(a, q, b, b2) == Sub(Scale(q, Sqr(Add(Point(a / q / 2.0), b))), Point(a * a / q / 4.0));
    } else {
      SeparateContains(a, q, b, b2, x, x * x);
    }
  }

  /**
   The setting of the LSB soundness lemmas: an attached variable of order at
   least 2, a point u of the box, and h the terms of degree 2 at u.
   */
  ghost predicate LsbAt(dom: Domain, t: TVar, u: seq<real>, h: (nat, nat) -> real)
  {
    && t.Wf() && t.Attached? && dom.Fits(t.env) && t.env.nord >= 2
    && InBox(dom, u) && |u| == t.env.nvar && QuadTerms(t.env, t.coef, u, h)
  }

  /** The diagonal bound of position i holds its linear term plus its square term, anywhere in the box. */
  lemma LsbDiagonalContains(dom: Domain, t: TVar, u: seq<real>, h: (nat, nat) -> real, i: nat)
    requires LsbAt(dom, t, u, h) && 1 <= i <= t.env.nvar
    ensures LsbDiagonal(dom, t, i).Contains(TermAt(t.env, t.coef, u, i) + h(i - 1, i - 1))
  {
    var env := t.env;
    DiagonalMonomial(env, i, u);
    var ii := Prod(env, i, i);
    var x := MonValue(u, env.expmon[i], env.nvar);
    var y := MonValue(u, env.expmon[ii], env.nvar);
    var b, b2 := Bndmon(env, dom, i), Bndmon(env, dom, ii);
    BndmonContains(env, dom, i, u);
    BndmonContains(env, dom, ii, u);
    assert LsbDiagonal(dom, t, i) == Quadratic(t.coef[i], t.coef[ii], b, b2);
    assert PairPos(env.nvar, i - 1, i - 1) == ii;
    assert h(i - 1, i - 1) == TermAt(env, t.coef, u, ii);
    assert TermAt(env, t.coef, u, ii) == Times(t.coef[ii], y);
    QuadraticAt(t.coef[i], t.coef[ii], b, b2, x, y, TermAt(env, t.coef, u, i), h(i - 1, i - 1));
  }

  lemma QuadraticAt(a: real, q: real, b: Interval, b2: Interval, x: real, y: real, lin: real, sq: real)
    requires b.Contains(x) && b2.Contains(y) && y == Times(x, x) && lin == Times(a, x) && sq == Times(q, y)
    ensures Quadratic(a, q, b, b2).Contains(lin + sq)
  {
    assert y == x * x;
    QuadraticContains(a, q, b, b2, x);
  }

  /** The cross bounds of position i with positions i+1 .. hi-1 hold the pairs (i-1, i) .. (i-1, hi-2). */
  lemma {:induction false} LsbCrossContains(dom: Domain, t: TVar, u: seq<real>, h: (nat, nat) -> real,
                                            acc: Interval, a: real, i: nat, hi: nat)
    requires LsbAt(dom, t, u, h)
    requires 1 <= i && i + 1 <= hi <= t.env.nvar + 1 && acc.Contains(a)
    ensures LsbCross(dom, t, acc, i, hi).Contains(a + RowSum(h, i - 1, i, hi - 1))
    decreases hi
  {
    if hi > i + 1 {
      var env, k := t.env, hi - 1;
      LsbCrossContains(dom, t, u, h, acc, a, i, k);
      CrossMonomial(env, i, k);
      var ik := Prod(env, i, k);
      BndmonContains(env, dom, ik, u);
      assert h(i - 1, k - 1) == TermAt(env, t.coef, u, ik);
      ScaleContainsAt(t.coef[ik], Bndmon(env, dom, ik), MonValue(u, env.expmon[ik], env.nvar), h(i - 1, k - 1));
      AddContains(LsbCross(dom, t, acc, i, k), Scale(t.coef[ik], Bndmon(env, dom, ik)),
        a + RowSum(h, i - 1, i, k - 1), h(i - 1, k - 1));
    }
  }

  /** The running sums of LsbQuadraticContains after position m, from those after m-1. */
  lemma StepSums(env: Env, coef: seq<real>, u: seq<real>, h: (nat, nat) -> real, a: real, m: nat, z: real)
    requires env.Indexed() && |u| == env.nvar && |coef| == env.Nmon() && 1 <= m <= env.nvar && env.nvar + 1 <= env.Nmon()
    requires z == (a + TermSum(env, coef, u, 1, m) + Diagonal(h, m - 1) + Upper(h, m - 1, env.nvar))
                  + (TermAt(env, coef, u, m) + h(m - 1, m - 1)) + RowSum(h, m - 1, m, env.nvar + 1 - 1)
    ensures z == a + TermSum(env, coef, u, 1, m + 1) + Diagonal(h, m) + Upper(h, m, env.nvar)
  {
    TermSumLast(env, coef, u, 1, m + 1);
  }

  /**
   The quadratic part over positions 1 .. m holds acc's value plus the
   linear terms of those positions, their squares and their products
   with every later position.
   */
  lemma {:induction false} LsbQuadraticContains(dom: Domain, t: TVar, u: seq<real>, h: (nat, nat) -> real,
                                                acc: Interval, a: real, m: nat)
    requires LsbAt(dom, t, u, h)
    requires m <= t.env.nvar && acc.Contains(a)
    ensures t.env.nvar + 1 <= t.env.Nmon()
    ensures LsbQuadratic(dom, t, acc, m).Contains(
      a + TermSum(t.env, t.coef, u, 1, m + 1) + Diagonal(h, m) + Upper(h, m, t.env.nvar))
  {
    LinearRow(t.env, t.env.nvar, t.env.nvar);
    if m > 0 {
      LsbQuadraticContains(dom, t, u, h, acc, a, m - 1);
      LsbQuadraticStep(dom, t, u, h, acc, a, m);
    } else {
      assert TermSum(t.env, t.coef, u, 1, 1) == 0.0;
    }
  }

  /** Position m joins the quadratic part through its diagonal and then its row of cross terms. */
  lemma LsbQuadraticStep(dom: Domain, t: TVar, u: seq<real>, h: (nat, nat) -> real, acc: Interval, a: real, m: nat)
    requires LsbAt(dom, t, u, h) && 1 <= m <= t.env.nvar && t.env.nvar + 1 <= t.env.Nmon()
    requires LsbQuadratic(dom, t, acc, m - 1).Contains(
      a + TermSum(t.env, t.coef, u, 1, m) + Diagonal(h, m - 1) + Upper(h, m - 1, t.env.nvar))
    ensures LsbQuadratic(dom, t, acc, m).Contains(
      a + TermSum(t.env, t.coef, u, 1, m + 1) + Diagonal(h, m) + Upper(h, m, t.env.nvar))
  {
    var env, n := t.env, t.env.nvar;
    var prev := a + TermSum(env, t.coef, u, 1, m) + Diagonal(h, m - 1) + Upper(h, m - 1, n);
    var z := prev + (TermAt(env, t.coef, u, m) + h(m - 1, m - 1)) + RowSum(h, m - 1, m, n + 1 - 1);
    LsbJoin(dom, t, u, h, acc, prev, m);
    StepSums(env, t.coef, u, h, a, m, z);
  }

  /** The diagonal and the cross terms of position m extend what the first m-1 positions hold. */
  lemma LsbJoin(dom: Domain, t: TVar, u: seq<real>, h: (nat, nat) -> real, acc: Interval, prev: real, m: nat)
    requires LsbAt(dom, t, u, h) && 1 <= m <= t.env.nvar
    requires LsbQuadratic(dom, t, acc, m - 1).Contains(prev)
    ensures LsbQuadratic(dom, t, acc, m).Contains(
      prev + (TermAt(t.env, t.coef, u, m) + h(m - 1, m - 1)) + RowSum(h, m - 1, m, t.env.nvar + 1 - 1))
  {
    var env, n := t.env, t.env.nvar;
    var lin, dg := TermAt(env, t.coef, u, m), h(m - 1, m - 1);
    var front := Add(LsbQuadratic(dom, t, acc, m - 1), LsbDiagonal(dom, t, m));
    LsbDiagonalContains(dom, t, u, h, m);
    AddContains(LsbQuadratic(dom, t, acc, m - 1), LsbDiagonal(dom, t, m), prev, lin + dg);
    LsbCrossContains(dom, t, u, h, front, prev + (lin + dg), m, n + 1);
  }

  /** The terms of degree 1 and 2 at u as a sum over positions and pairs. */
  lemma LowOrderTerms(env: Env, coef: seq<real>, u: seq<real>, h: (nat, nat) -> real)
    requires env.Indexed() && env.nord >= 2 && |u| == env.nvar && |coef| == env.Nmon() && QuadTerms(env, coef, u, h)
    ensures env.nvar + 1 <= BlockStart(env, 3)
    ensures TermSum(env, coef, u, 1, BlockStart(env, 3))
         == TermSum(env, coef, u, 1, env.nvar + 1) + Diagonal(h, env.nvar) + Upper(h, env.nvar, env.nvar)
  {
    var n := env.nvar;
    EnvTables(env);
    BlockTwoByRows(env, coef, u, h);
    assert BlockStart(env, 3) == Posord(n, 3);
    TermSumSplit(env, coef, u, 1, n + 1, Posord(n, 3));
  }

  /** From order 2 on, the LSB sum holds every value the variable encloses where the block bounds hold. */
  lemma LsbContains(dom: Domain, t: TVar, u: seq<real>, v: real)
    requires t.Wf() && t.Attached? && dom.Fits(t.env) && t.env.nord >= 2
    requires InBox(dom, u) && |u| == t.env.nvar && BlocksHoldAt(t, u) && Encloses(t, u, v)
    ensures |t.coef| >= 1 && |t.bndord| == t.env.nord + 2 &&
      Add(AddBlocks(LsbQuadratic(dom, t, Point(t.coef[0]), t.env.nvar), t.bndord, 3, t.env.nord + 1),
          t.bndord[t.env.nord + 1]).Contains(v)
  {
    var env := t.env;
    EnvTables(env);
    var n := env.nvar;
    var c := t.coef[0];
    var h := (r: nat, k: nat) => TermAt(env, t.coef, u, PairPos(n, r, k));
    assert QuadTerms(env, t.coef, u, h);
    var low := LsbQuadratic(dom, t, Point(c), n);
    LsbQuadraticContains(dom, t, u, h, Point(c), c, n);
    LowOrderTerms(env, t.coef, u, h);
    assert BlocksHold(env, t.coef, t.bndord, u, 0, env.nord + 1);
    BlocksPartial(env, t.coef, t.bndord, u, low, 3, env.nord + 1);
    var p := c + TermSum(env, t.coef, u, 1, BlockStart(env, env.nord + 1));
    assert p == PolyValue(t, u);
    AddContains(AddBlocks(low, t.bndord, 3, env.nord + 1), t.bndord[env.nord + 1], p, v - p);
  }

  // ---------------------------------------------------------------------------
  // Dispatch.
  // ---------------------------------------------------------------------------

  /** The bounders this model covers. */
  predicate Modelled(opt: Options)
  {
    opt.bounder.Naive? || opt.bounder.Lsb?
  }

  /**
   `_bound` (lines 2129-2152): a detached variable is its constant plus its
   remainder; otherwise the bounder of the options. Only the naive and LSB
   bounders are part of this model.
   */
  function Bound(opt: Options, dom: Domain, t: TVar): (r: Interval)
    requires t.Wf() && (t.Attached? ==> dom.Fits(t.env) && Modelled(opt))
    ensures t.Detached? ==> forall u, v :: Encloses(t, u, v) <==> r.Contains(v)
    ensures t.Attached? ==> forall u, v ::
      InBox(dom, u) && |u| == t.env.nvar && BlocksHoldAt(t, u) && Encloses(t, u, v) ==> r.Contains(v)
  {
    match t
    case Detached(c, rem) => Add(Point(c), rem)
    case Attached(_, _, _) => if opt.bounder.Naive? then BoundNaive(t) else BoundLsb(dom, t)
  }

  /** The bound holds every value the variable encloses anywhere in the box. */
  lemma BoundSound(opt: Options, dom: Domain, t: TVar, u: seq<real>, v: real)
    requires t.Wf() && (t.Attached? ==> dom.Fits(t.env) && Modelled(opt))
    requires t.Attached? ==> BndordSound(dom, t) && InBox(dom, u) && |u| == t.env.nvar
    requires Encloses(t, u, v)
    ensures Bound(opt, dom, t).Contains(v)
  {
    if t.Attached? {
      assert BlocksHoldAt(t, u);
    }
  }
}
