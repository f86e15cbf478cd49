/**
 Products of Taylor variables (MCpp/src/mc/tmodel.hpp): the product of two
 variables (`operator*`, lines 2486-2526), the square (`sqr`, lines
 2528-2566), the product with an interval (`*= T`, lines 2602-2621) and the
 integer powers (`pow` and `_intpow`, lines 2964-2990). The coefficients of
 a product are the truncated product of the operands' polynomials; its
 remainder bounds every pair of blocks whose degrees add up past the order.
 */
module TaylorProduct {
  import opened TmResults
  import opened Intervals
  import opened TaylorEnvironment
  import opened TaylorDomain
  import opened TaylorVariables
  import opened TaylorConstruction
  import opened TaylorArithmetic
  import opened TaylorBounds
  import opened ProductCoefficients

  /** The coefficients of the truncated product of a and b. */
  function ProductCoefs(env: Env, a: seq<real>, b: seq<real>): (c: seq<real>)
    requires env.Indexed()
    ensures |c| == env.Nmon()
  {
    seq(env.Nmon(), (m: int) requires 0 <= m => ProductCoef(env, a, b, m))
  }

  /** A variable of env with the given coefficients and remainder, its block bounds recomputed. */
  function Attach(dom: Domain, env: Env, coef: seq<real>, rem: Interval): (r: TVar)
    requires env.Valid() && dom.Fits(env) && |coef| == env.Nmon()
    ensures r.Wf() && r.Attached? && r.env == env && r.coef == coef && r.Remainder() == rem
    ensures Consistent(dom, r) && BndordSound(dom, r)
  {
    UpdateBndord(dom, Attached(env, coef, seq(env.nord + 2, d => if d == env.nord + 1 then rem else Point(0.0))))
  }

  // ---------------------------------------------------------------------------
  // The remainder of a product.
  // ---------------------------------------------------------------------------

  /** r1 of the remainder loop for row i: p[n+1-i] + ... + p[n+1]. */
  function CrossTail(p: seq<Interval>, n: nat, i: nat): Interval
    requires |p| == n + 2 && i <= n + 1
  {
    AddBlocks(Point(0.0), p, n + 1 - i, n + 2)
  }

  /** s1 after the rows 0 .. k-1: q[i] times p[n+1-i] + ... + p[n+1], summed. */
  function CrossSum(p: seq<Interval>, q: seq<Interval>, n: nat, k: nat): Interval
    requires |p| == |q| == n + 2 && k <= n + 2
  {
    if k == 0 then Point(0.0) else Add(CrossSum(p, q, n, k - 1), Mul(q[k - 1], CrossTail(p, n, k - 1)))
  }

  /**
   The remainder of `operator*` from the block bounds p of the left operand
   and q of the right one: s1 and s2 bound the same pairs of blocks, once
   by rows of q and once by rows of p; the result is their intersection,
   or s1 when they do not meet.
   */
  function ProductRemainder(p: seq<Interval>, q: seq<Interval>, n: nat): Interval
    requires |p| == |q| == n + 2
  {
    var s1 := CrossSum(p, q, n, n + 2);
    var s2 := CrossSum(q, p, n, n + 2);
    match Inter(s1, s2)
    case Some(r) => r
    case None => s1
  }

  // ---------------------------------------------------------------------------
  // The remainder of a square.
  // ---------------------------------------------------------------------------

  /** r of `sqr` for row i: p[k] + ... + p[n+1] with k = max(n+1-i, i+1). */
  function SquareTail(p: seq<Interval>, n: nat, i: nat): Interval
    requires |p| == n + 2 && i <= n + 1
  {
    var lo := if n + 1 - i >= i + 1 then n + 1 - i else i + 1;
    AddBlocks(Point(0.0), p, lo, n + 2)
  }

  /** s of `sqr` after the rows 0 .. k-1. */
  function SquareCross(p: seq<Interval>, n: nat, k: nat): Interval
    requires |p| == n + 2 && k <= n + 2
  {
    if k == 0 then Point(0.0) else Add(SquareCross(p, n, k - 1), Mul(p[k - 1], SquareTail(p, n, k - 1)))
  }

  /** The squares of p[lo] .. p[hi-1], summed. */
  function SquareDiagonal(p: seq<Interval>, lo: nat, hi: nat): Interval
    requires hi <= |p|
    decreases hi
  {
    if hi <= lo then Point(0.0) else Add(SquareDiagonal(p, lo, hi - 1), Sqr(p[hi - 1]))
  }

  /** The remainder of `sqr`: 2 s plus the squares of the blocks of degree above nord/2. */
  function SquareRemainder(p: seq<Interval>, n: nat): Interval
    requires |p| == n + 2
  {
    Add(Scale(2.0, SquareCross(p, n, n + 2)), SquareDiagonal(p, n / 2 + 1, n + 2))
  }

  // ---------------------------------------------------------------------------
  // The operations.
  // ---------------------------------------------------------------------------

  /** The sum of two variables that may be added. */
  function SumOf(opt: Options, dom: Domain, a: TVar, b: TVar): (r: TVar)
    requires a.Wf() && b.Wf() && Compatible(a, b)
    requires a.Attached? ==> dom.Fits(a.env)
    requires b.Attached? ==> dom.Fits(b.env)
    ensures r.Wf() && r.Attached? == (a.Attached? || b.Attached?)
    ensures a.Attached? ==> r.env == a.env
    ensures b.Attached? ==> r.env == b.env
  {
    Sum(opt, dom, a, b).value
  }

  /**
   `*= T` (lines 2602-2621) and `TVar * T`: a detached variable becomes the
   bound (c + R) * I; an attached one is scaled by the midpoint of I, and
   its remainder grows by (I - mid I) times the bound of the variable taken
   before the scaling.
   */
  function MulBound(opt: Options, dom: Domain, t: TVar, b: Interval): (r: TVar)
    requires t.Wf() && (t.Attached? ==> dom.Fits(t.env) && Modelled(opt))
    ensures r.Wf() && r.Attached? == t.Attached? && (r.Attached? ==> r.env == t.env)
    ensures t.Detached? ==> r.coef0 == 0.0
    ensures t.Detached? ==> forall x, w :: t.rem.Contains(x) && b.Contains(w) ==> r.rem.Contains(Times(t.coef0 + x, w))
    ensures t.Attached? ==> |r.coef| == |t.coef| && forall j :: 1 <= j < |r.coef| ==> r.coef[j] == t.coef[j] * Mid(b)
  {
    match t
    case Detached(c, rem) => Detached(0.0, DetachedTimes(c, rem, b))
    case Attached(_, _, _) => MulBoundAttached(opt, dom, t, b)
  }

  function MulBoundAttached(opt: Options, dom: Domain, t: TVar, b: Interval): (r: TVar)
    requires t.Wf() && t.Attached? && dom.Fits(t.env) && Modelled(opt)
    ensures r.Wf() && r.Attached? && r.env == t.env
    ensures |r.coef| == |t.coef| && forall j :: 1 <= j < |r.coef| ==> r.coef[j] == t.coef[j] * Mid(b)
  {
    var m := Mid(b);
    var s := ScaleBy(t, m);
    AddBound(opt, s, Mul(Sub(b, Point(m)), Bound(opt, dom, t)))
  }

  /** Both operands attached to the same environment. */
  function MulAttached(dom: Domain, a: TVar, b: TVar): (r: TVar)
    requires a.Wf() && b.Wf() && a.Attached? && b.Attached? && a.env == b.env && dom.Fits(a.env)
    ensures r.Wf() && r.Attached? && r.env == a.env && Consistent(dom, r)
    ensures r.coef == ProductCoefs(a.env, a.coef, b.coef)
  {
    Attach(dom, a.env, ProductCoefs(a.env, a.coef, b.coef), ProductRemainder(a.bndord, b.bndord, a.env.nord))
  }

  /**
   `operator*` (lines 2486-2526). A detached operand c + R makes the
   product the other operand times c plus the other operand times R;
   operands of different environments are the TMODEL error.
   */
  function Product(opt: Options, dom: Domain, a: TVar, b: TVar): (r: Result<TVar>)
    requires a.Wf() && b.Wf() && Modelled(opt)
    requires a.Attached? ==> dom.Fits(a.env)
    requires b.Attached? ==> dom.Fits(b.env)
    ensures r.Err? <==> !Compatible(a, b)
    ensures r.Err? ==> r.error == TModel
    ensures r.Ok? ==> r.value.Wf() && r.value.Attached? == (a.Attached? || b.Attached?)
    ensures r.Ok? && a.Attached? ==> r.value.env == a.env
    ensures r.Ok? && b.Attached? ==> r.value.env == b.env
    ensures r.Ok? && a.Attached? && b.Attached? ==>
      forall j :: 1 <= j < |r.value.coef| ==> r.value.coef[j] == ProductCoefs(a.env, a.coef, b.coef)[j]
    ensures r.Ok? && a.Attached? && b.Attached? && !opt.centerRemainder ==>
      r.value.coef == ProductCoefs(a.env, a.coef, b.coef)
  {
    if b.Detached? then Ok(SumOf(opt, dom, ScaleBy(a, b.coef0), MulBound(opt, dom, a, b.rem)))
    else if a.Detached? then Ok(SumOf(opt, dom, ScaleBy(b, a.coef0), MulBound(opt, dom, b, a.rem)))
    else if a.env != b.env then Err(TModel)
    else Ok(Finish(opt, MulAttached(dom, a, b)))
  }

  /**
   `sqr` (lines 2528-2566). An attached variable gets the coefficients of
   its truncated square and the remainder of `SquareRemainder`. A detached
   c + R becomes c^2 + R (2c + R), which is what (c + R)^2 expands to.
   */
  function Square(opt: Options, dom: Domain, t: TVar): (r: TVar)
    requires t.Wf() && (t.Attached? ==> dom.Fits(t.env))
    ensures r.Wf() && r.Attached? == t.Attached? && (r.Attached? ==> r.env == t.env)
    ensures t.Attached? ==> |r.coef| == |t.coef| && forall j :: 1 <= j < |r.coef| ==> r.coef[j] == ProductCoefs(t.env, t.coef, t.coef)[j]
    ensures t.Attached? && !opt.centerRemainder ==> r.coef == ProductCoefs(t.env, t.coef, t.coef)
    ensures t.Detached? ==> r.coef0 == t.coef0 * t.coef0
    ensures t.Detached? ==> forall x :: t.rem.Contains(x) ==> r.rem.Contains(Times(x, 2.0 * t.coef0 + x))
  {
    match t
    case Detached(c, rem) => Detached(c * c, DetachedSquareRem(c, rem))
    case Attached(_, _, _) => SquareAttached(opt, dom, t)
  }

  function SquareAttached(opt: Options, dom: Domain, t: TVar): (r: TVar)
    requires t.Wf() && t.Attached? && dom.Fits(t.env)
    ensures r.Wf() && r.Attached? && r.env == t.env && |r.coef| == |t.coef|
    ensures forall j :: 1 <= j < |r.coef| ==> r.coef[j] == ProductCoefs(t.env, t.coef, t.coef)[j]
    ensures !opt.centerRemainder ==> r.coef == ProductCoefs(t.env, t.coef, t.coef)
  {
    var a := Attach(dom, t.env, ProductCoefs(t.env, t.coef, t.coef), SquareRemainder(t.bndord, t.env.nord));
    Finish(opt, a)
  }

  /**
   `_intpow` (lines 2982-2989): the power by repeated squaring; the zeroth
   power is the detached constant 1.
   */
  function IntPow(opt: Options, dom: Domain, t: TVar, n: nat): (r: TVar)
    requires t.Wf() && (t.Attached? ==> dom.Fits(t.env)) && Modelled(opt)
    ensures r.Wf()
    ensures n == 0 ==> r.Detached?
    ensures n >= 1 ==> r.Attached? == t.Attached? && (r.Attached? ==> r.env == t.env)
    decreases n
  {
    if n == 0 then FromConst(1.0)
    else if n == 1 then t
    else
      var h := Square(opt, dom, IntPow(opt, dom, t, n / 2));
      if n % 2 == 1 then Product(opt, dom, h, t).value else h
  }

  /**
   `pow(TVar, int)` (lines 2964-2980) for a non-negative exponent: a
   detached c + R becomes the interval power of c + R; an attached variable
   is `_intpow`, centred when the options ask for it.
   */
  function Pow(opt: Options, dom: Domain, t: TVar, n: nat): (r: TVar)
    requires t.Wf() && (t.Attached? ==> dom.Fits(t.env)) && Modelled(opt)
    ensures r.Wf()
    ensures n >= 1 ==> r.Attached? == t.Attached? && (r.Attached? ==> r.env == t.env)
    ensures t.Detached? ==> r.Detached? && r.coef0 == 0.0
    ensures t.Detached? ==> forall x :: t.rem.Contains(x) ==> r.rem.Contains(RPow(t.coef0 + x, n))
    ensures t.Detached? && t.rem.Proper() ==> ShiftedWitness(t.coef0, t.rem, n, r.rem.lo)
    ensures t.Detached? && t.rem.Proper() ==> ShiftedWitness(t.coef0, t.rem, n, r.rem.hi)
    ensures t.Attached? && n == 1 ==> |r.coef| == |t.coef| && forall j :: 1 <= j < |r.coef| ==> r.coef[j] == t.coef[j]
    ensures t.Attached? && n == 2 ==> r == Finish(opt, Square(opt, dom, t))
  {
    match t
    case Detached(c, rem) => Detached(0.0, DetachedPow(c, rem, n))
    case Attached(_, _, _) => PowAttached(opt, dom, t, n)
  }

  function PowAttached(opt: Options, dom: Domain, t: TVar, n: nat): (r: TVar)
    requires t.Wf() && t.Attached? && dom.Fits(t.env) && Modelled(opt)
    ensures r.Wf() && (n >= 1 ==> r.Attached? && r.env == t.env)
    ensures n == 1 ==> |r.coef| == |t.coef| && forall j :: 1 <= j < |r.coef| ==> r.coef[j] == t.coef[j]
    ensures n == 2 ==> r == Finish(opt, Square(opt, dom, t))
  {
    var p := IntPow(opt, dom, t, n);
    assert n == 1 ==> p == t;
    assert n == 2 ==> p == Square(opt, dom, t) by {
      if n == 2 {
        assert IntPow(opt, dom, t, 1) == t;
      }
    }
    Finish(opt, p)
  }

  // ---------------------------------------------------------------------------
  // The remainders of a detached operand c + R.
  // ---------------------------------------------------------------------------

  /** (c + R) * I: holds (c + x) w for every x in R and w in I. */
  function DetachedTimes(c: real, rem: Interval, b: Interval): (r: Interval)
    ensures forall x, w :: rem.Contains(x) && b.Contains(w) ==> r.Contains(Times(c + x, w))
  {
    var r := Mul(Add(rem, Point(c)), b);
    assert forall x, w | rem.Contains(x) && b.Contains(w) :: r.Contains(Times(c + x, w)) by {
      forall x, w | rem.Contains(x) && b.Contains(w)
        ensures r.Contains(Times(c + x, w))
      {
        DetachedTimesAt(c, rem, b, x, w);
      }
    }
    r
  }

  /** R (2c + R): holds x (2c + x) = (c + x)^2 - c^2 for every x in R. */
  function DetachedSquareRem(c: real, rem: Interval): (r: Interval)
    ensures forall x :: rem.Contains(x) ==> r.Contains(Times(x, 2.0 * c + x))
  {
    var s := Add(Point(2.0 * c), rem);
    assert forall x | rem.Contains(x) :: Mul(rem, s).Contains(Times(x, 2.0 * c + x)) by {
      forall x | rem.Contains(x)
        ensures Mul(rem, s).Contains(Times(x, 2.0 * c + x))
      {
        DetachedSquareAt(c, rem, x);
      }
    }
    Mul(rem, s)
  }

  /** (c + R)^n: holds (c + x)^n for every x in R, and both of its ends are such powers. */
  function DetachedPow(c: real, rem: Interval, n: nat): (r: Interval)
    ensures forall x :: rem.Contains(x) ==> r.Contains(RPow(c + x, n))
    ensures rem.Proper() ==> ShiftedWitness(c, rem, n, r.lo) && ShiftedWitness(c, rem, n, r.hi)
  {
    var a := Add(Point(c), rem);
    var p := IPow(a, n);
    assert forall x | rem.Contains(x) :: p.Contains(RPow(c + x, n)) by {
      forall x | rem.Contains(x)
        ensures p.Contains(RPow(c + x, n))
      {
        AddContains(Point(c), rem, c, x);
        IPowContains(a, c + x, n);
      }
    }
    assert rem.Proper() ==> ShiftedWitness(c, rem, n, p.lo) && ShiftedWitness(c, rem, n, p.hi) by {
      if rem.Proper() {
        IPowTight(a, n);
        var y :| a.Contains(y) && RPow(y, n) == p.lo;
        var z :| a.Contains(z) && RPow(z, n) == p.hi;
        ShiftWitness(c, rem, n, y, p.lo);
        ShiftWitness(c, rem, n, z, p.hi);
      }
    }
    p
  }

  lemma DetachedTimesAt(c: real, rem: Interval, b: Interval, x: real, w: real)
    requires rem.Contains(x) && b.Contains(w)
    ensures Mul(Add(rem, Point(c)), b).Contains(Times(c + x, w))
  {
    AddContains(rem, Point(c), x, c);
    MulContainsAt(Add(rem, Point(c)), b, x + c, w, Times(c + x, w));
  }

  lemma DetachedSquareAt(c: real, rem: Interval, x: real)
    requires rem.Contains(x)
    ensures Mul(rem, Add(Point(2.0 * c), rem)).Contains(Times(x, 2.0 * c + x))
  {
    AddContains(Point(2.0 * c), rem, 2.0 * c, x);
    MulContainsAt(rem, Add(Point(2.0 * c), rem), x, 2.0 * c + x, Times(x, 2.0 * c + x));
  }

  /** Some point of rem, shifted by c, has n-th power z. */
  ghost predicate ShiftedWitness(c: real, rem: Interval, n: nat, z: real)
  {
    exists x :: rem.Contains(x) && RPow(c + x, n) == z
  }

  lemma ShiftWitness(c: real, rem: Interval, n: nat, y: real, z: real)
    requires Add(Point(c), rem).Contains(y) && RPow(y, n) == z
    ensures ShiftedWitness(c, rem, n, z)
  {
    assert c + (y - c) == y;
    assert rem.Contains(y - c) && RPow(c + (y - c), n) == z;
  }

  // ---------------------------------------------------------------------------
  // Enclosures.
  // ---------------------------------------------------------------------------

  lemma SplitProduct(v: real, w: real, m: real, p: real, q: real)
    requires p == m * v && q == (w - m) * v
    ensures p + q == v * w
  {
  }

  lemma MulBoundDetachedSound(opt: Options, dom: Domain, t: TVar, b: Interval, u: seq<real>, v: real, w: real)
    requires t.Wf() && t.Detached? && Encloses(t, u, v) && b.Contains(w)
    ensures Encloses(MulBound(opt, dom, t, b), u, v * w)
  {
    AddContains(t.rem, Point(t.coef0), v - t.coef0, t.coef0);
    MulContains(Add(t.rem, Point(t.coef0)), b, v, w);
  }

  /** The part of I off its midpoint, times a bound on v, holds (w - mid I) v. */
  lemma OffMidContains(b: Interval, bnd: Interval, w: real, v: real, m: real)
    requires b.Contains(w) && bnd.Contains(v) && m == Mid(b)
    ensures Mul(Sub(b, Point(m)), bnd).Contains((w - m) * v)
  {
    SubContains(b, Point(m), w, m);
    MulContains(Sub(b, Point(m)), bnd, w - m, v);
  }

  lemma MulBoundAttachedSound(opt: Options, dom: Domain, t: TVar, b: Interval, u: seq<real>, v: real, w: real)
    requires t.Wf() && t.Attached? && dom.Fits(t.env) && Modelled(opt) && |u| == t.env.nvar && InBox(dom, u)
    requires Encloses(t, u, v) && Consistent(dom, t) && b.Contains(w)
    ensures Encloses(MulBound(opt, dom, t, b), u, v * w) && Consistent(dom, MulBound(opt, dom, t, b))
  {
    var m := Mid(b);
    var s := ScaleBy(t, m);
    var bnd := Bound(opt, dom, t);
    var e := Mul(Sub(b, Point(m)), bnd);
    assert MulBound(opt, dom, t, b) == AddBound(opt, s, e);
    ScaleBySound(dom, t, m, u, v);
    ConsistentSound(dom, t);
    BoundSound(opt, dom, t, u, v);
    OffMidContains(b, bnd, w, v, m);
    AddBoundSound(opt, dom, s, e, u, m * v, (w - m) * v);
    SplitProduct(v, w, m, m * v, (w - m) * v);
    EnclosesSame(AddBound(opt, s, e), u, m * v + (w - m) * v, v * w);
  }

  /**
   A variable enclosing v, times an interval holding w, encloses v w: the
   scaled part accounts for m v and the added remainder for (w - m) v.
   */
  lemma MulBoundSound(opt: Options, dom: Domain, t: TVar, b: Interval, u: seq<real>, v: real, w: real)
    requires t.Wf() && (t.Attached? ==> dom.Fits(t.env) && Modelled(opt) && |u| == t.env.nvar && InBox(dom, u))
    requires Encloses(t, u, v) && Consistent(dom, t) && b.Contains(w)
    ensures Encloses(MulBound(opt, dom, t, b), u, v * w) && Consistent(dom, MulBound(opt, dom, t, b))
  {
    if t.Detached? {
      MulBoundDetachedSound(opt, dom, t, b, u, v, w);
    } else {
      MulBoundAttachedSound(opt, dom, t, b, u, v, w);
    }
  }

  lemma SplitConstant(x: real, y: real, c: real, d: real, p: real, q: real)
    requires d == y - c && p == c * x && q == x * d
    ensures p + q == x * y
  {
  }

  /** The attached (or detached) t times a detached c + R holding w: t c + t R. */
  lemma ProductByDetachedSound(opt: Options, dom: Domain, t: TVar, c: real, rem: Interval, u: seq<real>, v: real, w: real)
    requires t.Wf() && Modelled(opt)
    requires t.Attached? ==> dom.Fits(t.env) && |u| == t.env.nvar && InBox(dom, u)
    requires Encloses(t, u, v) && Consistent(dom, t) && rem.Contains(w - c)
    ensures Compatible(ScaleBy(t, c), MulBound(opt, dom, t, rem))
    ensures Encloses(SumOf(opt, dom, ScaleBy(t, c), MulBound(opt, dom, t, rem)), u, v * w)
    ensures Consistent(dom, SumOf(opt, dom, ScaleBy(t, c), MulBound(opt, dom, t, rem)))
  {
    var x, y := ScaleBy(t, c), MulBound(opt, dom, t, rem);
    var d := w - c;
    var p, q := c * v, v * d;
    ScaleBySound(dom, t, c, u, v);
    MulBoundSound(opt, dom, t, rem, u, v, d);
    SumSound(opt, dom, x, y, u, p, q);
    SplitConstant(v, w, c, d, p, q);
    EnclosesSame(SumOf(opt, dom, x, y), u, p + q, v * w);
  }

  /**
   With one operand detached, the product encloses the product of the
   values: it is the other operand times the constant plus the other
   operand times the remainder.
   */
  lemma ProductDetachedSound(opt: Options, dom: Domain, a: TVar, b: TVar, u: seq<real>, va: real, vb: real)
    requires a.Wf() && b.Wf() && Modelled(opt) && (a.Detached? || b.Detached?)
    requires a.Attached? ==> dom.Fits(a.env) && |u| == a.env.nvar && InBox(dom, u)
    requires b.Attached? ==> dom.Fits(b.env) && |u| == b.env.nvar && InBox(dom, u)
    requires Encloses(a, u, va) && Encloses(b, u, vb) && Consistent(dom, a) && Consistent(dom, b)
    ensures Product(opt, dom, a, b).Ok?
    ensures Encloses(Product(opt, dom, a, b).value, u, va * vb)
    ensures Consistent(dom, Product(opt, dom, a, b).value)
  {
    if b.Detached? {
      ProductByDetachedSound(opt, dom, a, b.coef0, b.rem, u, va, vb);
    } else {
      ProductByDetachedSound(opt, dom, b, a.coef0, a.rem, u, vb, va);
      EnclosesSame(Product(opt, dom, a, b).value, u, vb * va, va * vb);
    }
  }

  lemma EnclosesSame(t: TVar, u: seq<real>, v: real, w: real)
    requires t.Wf() && (t.Attached? ==> |u| == t.env.nvar) && Encloses(t, u, v) && v == w
    ensures Encloses(t, u, w)
  {
  }

  /** (c + x)^2 = c^2 + x (2c + x). */
  lemma SquareExpand(c: real, v: real, x: real)
    requires x == v - c
    ensures v * v - c * c == Times(x, 2.0 * c + x)
  {
  }

  /** A detached c + R squared encloses the square of every value it encloses. */
  lemma SquareDetachedSound(opt: Options, dom: Domain, t: TVar, u: seq<real>, v: real)
    requires t.Wf() && t.Detached? && Encloses(t, u, v)
    ensures Encloses(Square(opt, dom, t), u, v * v)
  {
    SquaredEncloses(t, Square(opt, dom, t), u, v);
  }

  /** A detached c^2 + S, with S holding x (2c + x) for every x in R, encloses v^2 whenever c + R encloses v. */
  lemma SquaredEncloses(t: TVar, r: TVar, u: seq<real>, v: real)
    requires t.Detached? && Encloses(t, u, v)
    requires r.Detached? && r.coef0 == t.coef0 * t.coef0
    requires forall x :: t.rem.Contains(x) ==> r.rem.Contains(Times(x, 2.0 * t.coef0 + x))
    ensures Encloses(r, u, v * v)
  {
    var c := t.coef0;
    var x := v - c;
    var z := Times(x, 2.0 * c + x);
    assert t.rem.Contains(x);
    assert r.rem.Contains(z);
    SquareExpand(c, v, x);
    assert v * v - r.coef0 == z;
  }

  /** A detached c + R raised to the power n encloses v^n for every value v it encloses. */
  lemma PowDetachedSound(opt: Options, dom: Domain, t: TVar, n: nat, u: seq<real>, v: real)
    requires t.Wf() && t.Detached? && Modelled(opt) && Encloses(t, u, v)
    ensures Encloses(Pow(opt, dom, t, n), u, RPow(v, n))
  {
    AddContains(Point(t.coef0), t.rem, t.coef0, v - t.coef0);
    IPowContains(Add(Point(t.coef0), t.rem), v, n);
  }

  /** The zeroth power of any variable is the detached constant 1. */
  lemma PowZero(opt: Options, dom: Domain, t: TVar, u: seq<real>)
    requires t.Wf() && (t.Attached? ==> dom.Fits(t.env)) && Modelled(opt)
    ensures Pow(opt, dom, t, 0).Detached?
    ensures forall v :: Encloses(Pow(opt, dom, t, 0), u, v) <==> v == 1.0
  {
    assert Pow(opt, dom, t, 0) == (if t.Attached? then FromConst(1.0) else Detached(0.0, Point(1.0)));
  }

  // ---------------------------------------------------------------------------
  // Symmetry.
  // ---------------------------------------------------------------------------

  lemma InterCommutes(a: Interval, b: Interval)
    ensures Inter(a, b) == Inter(b, a)
  {
  }

  /**
   The product of two attached variables does not depend on the order of
   the operands: the coefficients always agree, and the remainders agree
   whenever s1 and s2 meet.
   */
  lemma ProductCommutes(opt: Options, dom: Domain, a: TVar, b: TVar)
    requires a.Wf() && b.Wf() && a.Attached? && b.Attached? && a.env == b.env && dom.Fits(a.env) && Modelled(opt)
    requires !opt.centerRemainder
    ensures Product(opt, dom, a, b).Ok? && Product(opt, dom, b, a).Ok?
    ensures Product(opt, dom, a, b).value.coef == Product(opt, dom, b, a).value.coef
    ensures var n := a.env.nord;
      Inter(CrossSum(a.bndord, b.bndord, n, n + 2), CrossSum(b.bndord, a.bndord, n, n + 2)).Some? ==>
        Product(opt, dom, a, b).value.Remainder() == Product(opt, dom, b, a).value.Remainder()
  {
    assert Product(opt, dom, a, b) == Ok(MulAttached(dom, a, b));
    assert Product(opt, dom, b, a) == Ok(MulAttached(dom, b, a));
    ProductCoefsCommute(a.env, a.coef, b.coef);
    ProductRemainderCommutes(a.bndord, b.bndord, a.env.nord);
  }

  lemma ProductCoefsCommute(env: Env, a: seq<real>, b: seq<real>)
    requires env.Indexed()
    ensures ProductCoefs(env, a, b) == ProductCoefs(env, b, a)
  {
    forall m | 0 <= m < env.Nmon()
      ensures ProductCoefs(env, a, b)[m] == ProductCoefs(env, b, a)[m]
    {
      ProductCoefCommutes(env, a, b, m);
    }
  }

  lemma ProductRemainderCommutes(p: seq<Interval>, q: seq<Interval>, n: nat)
    requires |p| == |q| == n + 2
    ensures Inter(CrossSum(p, q, n, n + 2), CrossSum(q, p, n, n + 2)).Some? ==>
      ProductRemainder(p, q, n) == ProductRemainder(q, p, n)
  {
    InterCommutes(CrossSum(p, q, n, n + 2), CrossSum(q, p, n, n + 2));
  }

  /** The square of an attached variable has the coefficients of its product with itself. */
  lemma SquareCoefsAsProduct(opt: Options, dom: Domain, t: TVar)
    requires t.Wf() && t.Attached? && dom.Fits(t.env) && Modelled(opt) && !opt.centerRemainder
    ensures Product(opt, dom, t, t).Ok?
    ensures Square(opt, dom, t).coef == Product(opt, dom, t, t).value.coef
  {
  }
}
