/**
 The operations of MCpp/src/mc/tmodel.hpp that are linear in the Taylor
 variables: sums and differences with constants, with bounds and with other
 Taylor variables, negation, and multiplication and division by a constant.
 Each comes with the enclosure it preserves and with the block bounds it
 keeps up to date.
 */
module TaylorArithmetic {
  import opened TmResults
  import opened Intervals
  import opened TaylorEnvironment
  import opened TaylorDomain
  import opened TaylorVariables

  /** The trailing `if( _TM && CENTER_REMAINDER ) _center_TM()` of the compound operators. */
  function Finish(opt: Options, t: TVar): (r: TVar)
    requires t.Wf()
    ensures r.Wf() && r.Attached? == t.Attached? && (r.Attached? ==> r.env == t.env)
    ensures t.Detached? || !opt.centerRemainder ==> r == t
    ensures t.Attached? && opt.centerRemainder ==> Mid(r.Remainder()) == 0.0
    ensures r.Attached? ==> forall j :: 1 <= j < |r.coef| ==> r.coef[j] == t.coef[j]
    ensures Diam(r.Remainder()) == Diam(t.Remainder())
  {
    if t.Attached? && opt.centerRemainder then Center(t) else t
  }

  lemma FinishEncloses(opt: Options, t: TVar, u: seq<real>, v: real)
    requires t.Wf() && (t.Attached? ==> |u| == t.env.nvar)
    ensures Encloses(Finish(opt, t), u, v) <==> Encloses(t, u, v)
  {
    if t.Attached? && opt.centerRemainder {
      CenterEncloses(t, u, v);
    }
  }

  lemma FinishConsistent(opt: Options, dom: Domain, t: TVar)
    requires t.Wf() && (t.Attached? ==> dom.Fits(t.env)) && Consistent(dom, t)
    ensures Consistent(dom, Finish(opt, t))
  {
    if t.Attached? && opt.centerRemainder {
      CenterConsistent(dom, t);
    }
  }

  // ---------------------------------------------------------------------------
  // Constants and bounds.
  // ---------------------------------------------------------------------------

  /** `+= double` (lines 2311-2319); with a negated argument, `-= double` (lines 2421-2429). */
  function AddConst(t: TVar, c: real): (r: TVar)
    requires t.Wf()
    ensures r.Wf() && r.Attached? == t.Attached? && (r.Attached? ==> r.env == t.env)
    ensures r.Constant() == t.Constant() + c && r.Remainder() == t.Remainder()
    ensures r.Attached? ==> forall j :: 1 <= j < |r.coef| ==> r.coef[j] == t.coef[j]
  {
    match t
    case Detached(c0, rem) => Detached(c0 + c, rem)
    case Attached(env, coef, bndord) =>
      EnvTables(env);
      Attached(env, coef[0 := coef[0] + c], bndord[0 := Point(coef[0] + c)])
  }

  function SubConst(t: TVar, c: real): (r: TVar)
    requires t.Wf()
    ensures r.Wf() && r.Attached? == t.Attached? && (r.Attached? ==> r.env == t.env)
    ensures r.Constant() == t.Constant() - c && r.Remainder() == t.Remainder()
    ensures r.Attached? ==> forall j :: 1 <= j < |r.coef| ==> r.coef[j] == t.coef[j]
  {
    match t
    case Detached(c0, rem) => Detached(c0 - c, rem)
    case Attached(env, coef, bndord) =>
      EnvTables(env);
      Attached(env, coef[0 := coef[0] - c], bndord[0 := Point(coef[0] - c)])
  }

  /** Changing only the constant coefficient shifts the polynomial part by the same amount. */
  lemma ShiftValue(t: TVar, r: TVar, u: seq<real>)
    requires t.Wf() && r.Wf() && r.Attached? == t.Attached? && (r.Attached? ==> r.env == t.env)
    requires t.Attached? ==> |u| == t.env.nvar && forall j :: 1 <= j < |t.coef| ==> r.coef[j] == t.coef[j]
    ensures PolyValue(r, u) - PolyValue(t, u) == r.Constant() - t.Constant()
  {
    if t.Attached? {
      EnvTables(t.env);
      TermSumFrame(t.env, r.coef, t.coef, u, 1, t.env.Nmon());
    }
  }

  /** Adding c to a variable enclosing v gives one enclosing v + c, and keeps the block bounds. */
  lemma AddConstSound(dom: Domain, t: TVar, c: real, u: seq<real>, v: real)
    requires t.Wf() && (t.Attached? ==> |u| == t.env.nvar && dom.Fits(t.env))
    requires Encloses(t, u, v) && Consistent(dom, t)
    ensures Encloses(AddConst(t, c), u, v + c) && Consistent(dom, AddConst(t, c))
  {
    ShiftValue(t, AddConst(t, c), u);
    if t.Attached? {
      BlockAtFrame(t.env, dom, AddConst(t, c).coef, t.coef);
    }
  }

  lemma SubConstSound(dom: Domain, t: TVar, c: real, u: seq<real>, v: real)
    requires t.Wf() && (t.Attached? ==> |u| == t.env.nvar && dom.Fits(t.env))
    requires Encloses(t, u, v) && Consistent(dom, t)
    ensures Encloses(SubConst(t, c), u, v - c) && Consistent(dom, SubConst(t, c))
  {
    ShiftValue(t, SubConst(t, c), u);
    if t.Attached? {
      BlockAtFrame(t.env, dom, SubConst(t, c).coef, t.coef);
    }
  }

  /** Replaces the remainder, leaving everything else. */
  function WithRemainder(t: TVar, b: Interval): (r: TVar)
    requires t.Wf()
    ensures r.Wf() && SameCoefs(r, t) && r.Remainder() == b
    ensures r.Attached? ==> forall d :: 0 <= d <= r.env.nord ==> r.bndord[d] == t.bndord[d]
  {
    match t
    case Detached(c0, _) => Detached(c0, b)
    case Attached(env, coef, bndord) => Attached(env, coef, bndord[env.nord + 1 := b])
  }

  /** `+= U` (lines 2339-2347): the bound goes into the remainder, which is then centred if asked. */
  function AddBound(opt: Options, t: TVar, b: Interval): (r: TVar)
    requires t.Wf()
    ensures r.Wf() && r.Attached? == t.Attached? && (r.Attached? ==> r.env == t.env)
    ensures t.Detached? || !opt.centerRemainder ==> SameCoefs(r, t) && r.Remainder() == Add(t.Remainder(), b)
    ensures r.Attached? ==> forall j :: 1 <= j < |r.coef| ==> r.coef[j] == t.coef[j]
    ensures Diam(r.Remainder()) == Diam(t.Remainder()) + Diam(b)
  {
    Finish(opt, WithRemainder(t, Add(t.Remainder(), b)))
  }

  /** `-= U` (lines 2449-2457). */
  function SubBound(opt: Options, t: TVar, b: Interval): (r: TVar)
    requires t.Wf()
    ensures r.Wf() && r.Attached? == t.Attached? && (r.Attached? ==> r.env == t.env)
    ensures t.Detached? || !opt.centerRemainder ==> SameCoefs(r, t) && r.Remainder() == Sub(t.Remainder(), b)
    ensures r.Attached? ==> forall j :: 1 <= j < |r.coef| ==> r.coef[j] == t.coef[j]
    ensures Diam(r.Remainder()) == Diam(t.Remainder()) + Diam(b)
  {
    Finish(opt, WithRemainder(t, Sub(t.Remainder(), b)))
  }

  /** Adding a bound holding w to a variable enclosing v gives one enclosing v + w. */
  lemma AddBoundSound(opt: Options, dom: Domain, t: TVar, b: Interval, u: seq<real>, v: real, w: real)
    requires t.Wf() && (t.Attached? ==> |u| == t.env.nvar && dom.Fits(t.env))
    requires Encloses(t, u, v) && b.Contains(w) && Consistent(dom, t)
    ensures Encloses(AddBound(opt, t, b), u, v + w) && Consistent(dom, AddBound(opt, t, b))
  {
    var t1 := WithRemainder(t, Add(t.Remainder(), b));
    AddContains(t.Remainder(), b, v - PolyValue(t, u), w);
    assert PolyValue(t1, u) == PolyValue(t, u);
    FinishEncloses(opt, t1, u, v + w);
    FinishConsistent(opt, dom, t1);
  }

  lemma SubBoundSound(opt: Options, dom: Domain, t: TVar, b: Interval, u: seq<real>, v: real, w: real)
    requires t.Wf() && (t.Attached? ==> |u| == t.env.nvar && dom.Fits(t.env))
    requires Encloses(t, u, v) && b.Contains(w) && Consistent(dom, t)
    ensures Encloses(SubBound(opt, t, b), u, v - w) && Consistent(dom, SubBound(opt, t, b))
  {
    var t1 := WithRemainder(t, Sub(t.Remainder(), b));
    SubContains(t.Remainder(), b, v - PolyValue(t, u), w);
    assert PolyValue(t1, u) == PolyValue(t, u);
    FinishEncloses(opt, t1, u, v - w);
    FinishConsistent(opt, dom, t1);
  }

  // ---------------------------------------------------------------------------
  // Negation.
  // ---------------------------------------------------------------------------

  /** Every coefficient and every bound negated. */
  function Negated(t: TVar): (r: TVar)
    requires t.Wf()
    ensures r.Wf() && r.Attached? == t.Attached? && (r.Attached? ==> r.env == t.env)
    ensures r.Constant() == -t.Constant() && r.Remainder() == Neg(t.Remainder())
    ensures r.Attached? ==> forall j :: 0 <= j < |r.coef| ==> r.coef[j] == -t.coef[j]
  {
    match t
    case Detached(c0, rem) => Detached(-c0, Neg(rem))
    case Attached(env, coef, bndord) =>
      EnvTables(env);
      Attached(env, seq(|coef|, j requires 0 <= j < |coef| => -coef[j]),
                    seq(|bndord|, d requires 0 <= d < |bndord| => Neg(bndord[d])))
  }

  /** Unary `-` (lines 2367-2384): negation, then centring if asked. */
  function Negate(opt: Options, t: TVar): (r: TVar)
    requires t.Wf()
    ensures r.Wf() && r.Attached? == t.Attached? && (r.Attached? ==> r.env == t.env)
    ensures r.Attached? ==> forall j :: 1 <= j < |r.coef| ==> r.coef[j] == -t.coef[j]
    ensures t.Detached? || !opt.centerRemainder ==> r.Constant() == -t.Constant() && r.Remainder() == Neg(t.Remainder())
    ensures Diam(r.Remainder()) == Diam(t.Remainder())
  {
    Finish(opt, Negated(t))
  }

  /** Without centring, negating twice gives the variable back. */
  lemma NegateInvolution(opt: Options, t: TVar)
    requires t.Wf() && !opt.centerRemainder
    ensures Negate(opt, Negate(opt, t)) == t
  {
    if t.Attached? {
      assert Negated(Negated(t)).coef == t.coef;
      assert Negated(Negated(t)).bndord == t.bndord;
    }
  }

  /** The negation of a variable enclosing v encloses -v. */
  lemma NegateSound(opt: Options, dom: Domain, t: TVar, u: seq<real>, v: real)
    requires t.Wf() && (t.Attached? ==> |u| == t.env.nvar && dom.Fits(t.env))
    requires Encloses(t, u, v) && Consistent(dom, t)
    ensures Encloses(Negate(opt, t), u, -v) && Consistent(dom, Negate(opt, t))
  {
    NegatedEncloses(t, u, v);
    if t.Attached? {
      NegatedConsistent(dom, t);
    }
    FinishEncloses(opt, Negated(t), u, -v);
    FinishConsistent(opt, dom, Negated(t));
  }

  lemma NegatedEncloses(t: TVar, u: seq<real>, v: real)
    requires t.Wf() && (t.Attached? ==> |u| == t.env.nvar) && Encloses(t, u, v)
    ensures Encloses(Negated(t), u, -v)
  {
    ScaledPoly(t, -1.0, Negated(t), u);
    NegContains(t.Remainder(), v - PolyValue(t, u));
  }

  /** A variable whose coefficients are c times another's has c times its polynomial value. */
  lemma ScaledPoly(t: TVar, c: real, r: TVar, u: seq<real>)
    requires t.Wf() && r.Wf() && r.Attached? == t.Attached? && (t.Attached? ==> |u| == t.env.nvar && r.env == t.env)
    requires r.Constant() == t.Constant() * c
    requires r.Attached? ==> forall j :: 0 <= j < |r.coef| ==> r.coef[j] == t.coef[j] * c
    ensures PolyValue(r, u) == c * PolyValue(t, u)
  {
    if t.Attached? {
      EnvTables(t.env);
      TermSumScale(t.env, t.coef, c, r.coef, u, 1, t.env.Nmon());
      assert r.coef[0] == c * t.coef[0];
    }
  }

  lemma NegatedConsistent(dom: Domain, t: TVar)
    requires t.Wf() && t.Attached? && dom.Fits(t.env) && Consistent(dom, t)
    ensures Consistent(dom, Negated(t))
  {
    ScaledConsistent(dom, t, -1.0, Negated(t));
  }

  // ---------------------------------------------------------------------------
  // Multiplication and division by a constant.
  // ---------------------------------------------------------------------------

  /** `*= double` (lines 2568-2582): every coefficient and every bound times c; no centring. */
  function ScaleBy(t: TVar, c: real): (r: TVar)
    requires t.Wf()
    ensures r.Wf() && r.Attached? == t.Attached? && (r.Attached? ==> r.env == t.env)
    ensures r.Constant() == t.Constant() * c && r.Remainder() == Scale(c, t.Remainder())
    ensures r.Attached? ==> forall j :: 0 <= j < |r.coef| ==> r.coef[j] == t.coef[j] * c
  {
    match t
    case Detached(c0, rem) => Detached(c0 * c, Scale(c, rem))
    case Attached(env, coef, bndord) =>
      EnvTables(env);
      Attached(env, seq(|coef|, j requires 0 <= j < |coef| => coef[j] * c),
                    seq(|bndord|, d requires 0 <= d < |bndord| => Scale(c, bndord[d])))
  }

  /** `/= double` and `/ double` (lines 2656-2673): a zero divisor is the DIV error. */
  function DivBy(t: TVar, c: real): (r: Result<TVar>)
    requires t.Wf()
    ensures r.Err? <==> c == 0.0
    ensures r.Err? ==> r.error == Div
    ensures r.Ok? ==> r.value == ScaleBy(t, 1.0 / c)
    ensures r.Ok? ==> r.value.Wf() && r.value.Constant() * c == t.Constant()
    ensures r.Ok? ==> r.value.Attached? == t.Attached? && r.value.Remainder() == Scale(1.0 / c, t.Remainder())
    ensures r.Ok? && t.Attached? ==>
      (r.value.env == t.env && forall j :: 0 <= j < |t.coef| ==> r.value.coef[j] * c == t.coef[j])
  {
    if c == 0.0 then Err(Div)
    else
      var q := ScaleBy(t, 1.0 / c);
      assert (t.Constant() * (1.0 / c)) * c == t.Constant();
      assert t.Attached? ==> forall j :: 0 <= j < |t.coef| ==> q.coef[j] * c == t.coef[j] by {
        if t.Attached? {
          forall j | 0 <= j < |t.coef|
            ensures q.coef[j] * c == t.coef[j]
          {
            DivMul(t.coef[j], c);
          }
        }
      }
      Ok(q)
  }

  lemma DivMul(x: real, c: real)
    requires c != 0.0
    ensures (x * (1.0 / c)) * c == x
  {
    assert (x * (1.0 / c)) * c == x * ((1.0 / c) * c);
  }

  /** Dividing a variable that encloses v by a nonzero c gives one that encloses v / c, and keeps consistency. */
  lemma DivBySound(dom: Domain, t: TVar, c: real, u: seq<real>, v: real)
    requires t.Wf() && (t.Attached? ==> |u| == t.env.nvar && dom.Fits(t.env))
    requires Encloses(t, u, v) && Consistent(dom, t) && c != 0.0
    ensures DivBy(t, c).Ok?
    ensures Encloses(DivBy(t, c).value, u, v / c) && Consistent(dom, DivBy(t, c).value)
  {
    ReciprocalScaleSound(dom, t, c, u, v);
  }

  lemma ReciprocalScaleSound(dom: Domain, t: TVar, c: real, u: seq<real>, v: real)
    requires t.Wf() && (t.Attached? ==> |u| == t.env.nvar && dom.Fits(t.env))
    requires Encloses(t, u, v) && Consistent(dom, t) && c != 0.0
    ensures Encloses(ScaleBy(t, 1.0 / c), u, v / c) && Consistent(dom, ScaleBy(t, 1.0 / c))
  {
    var k, w := 1.0 / c, v / c;
    DivIsScale(v, c);
    assert k * v == w;
    ScaleBySound(dom, t, k, u, v);
  }

  lemma DivIsScale(v: real, c: real)
    requires c != 0.0
    ensures (1.0 / c) * v == v / c
  {
  }

  /** Dividing by c undoes multiplying by c. */
  lemma DivScaleRoundTrip(t: TVar, c: real)
    requires t.Wf() && c != 0.0
    ensures DivBy(ScaleBy(t, c), c) == Ok(t)
  {
    var k := 1.0 / c;
    ScaleInverse(c, t.Remainder());
    MulDiv(t.Constant(), c);
    if t.Attached? {
      var r := ScaleBy(ScaleBy(t, c), k);
      forall j | 0 <= j < |t.coef|
        ensures r.coef[j] == t.coef[j]
      {
        MulDiv(t.coef[j], c);
      }
      assert r.coef == t.coef;
      forall d | 0 <= d < |t.bndord|
        ensures r.bndord[d] == t.bndord[d]
      {
        ScaleInverse(c, t.bndord[d]);
      }
      assert r.bndord == t.bndord;
      assert DivBy(ScaleBy(t, c), c) == Ok(r);
    } else {
      assert ScaleBy(ScaleBy(t, c), k) == t;
    }
  }

  lemma MulDiv(x: real, c: real)
    requires c != 0.0
    ensures (x * c) * (1.0 / c) == x
  {
    assert (x * c) * (1.0 / c) == x * (c * (1.0 / c));
  }

  /** The variable times c encloses c times what the variable encloses, and keeps its block bounds. */
  lemma ScaleBySound(dom: Domain, t: TVar, c: real, u: seq<real>, v: real)
    requires t.Wf() && (t.Attached? ==> |u| == t.env.nvar && dom.Fits(t.env))
    requires Encloses(t, u, v) && Consistent(dom, t)
    ensures Encloses(ScaleBy(t, c), u, c * v) && Consistent(dom, ScaleBy(t, c))
  {
    ScaleByEncloses(t, c, u, v);
    if t.Attached? {
      ScaledConsistent(dom, t, c, ScaleBy(t, c));
    }
  }

  lemma ScaleByEncloses(t: TVar, c: real, u: seq<real>, v: real)
    requires t.Wf() && (t.Attached? ==> |u| == t.env.nvar) && Encloses(t, u, v)
    ensures Encloses(ScaleBy(t, c), u, c * v)
  {
    var p, q := PolyValue(t, u), PolyValue(ScaleBy(t, c), u);
    ScaledPoly(t, c, ScaleBy(t, c), u);
    ScaleDifference(c, v, p, q);
    ScaleContainsAt(c, t.Remainder(), v - p, c * v - q);
  }

  lemma ScaleDifference(c: real, v: real, p: real, q: real)
    requires q == c * p
    ensures c * v - q == Times(c, v - p)
  {
  }

  /** Scaling by c distributes over the sums `_update_bndord` forms. */
  lemma ScaleAdd(c: real, a: Interval, b: Interval)
    ensures Scale(c, Add(a, b)) == Add(Scale(c, a), Scale(c, b))
  {
  }

  /** Scaling by c after scaling by k is scaling by k*c. */
  lemma ScaleScale(c: real, k: real, a: Interval)
    ensures Scale(c, Scale(k, a)) == Scale(k * c, a)
  {
    if k * c == 0.0 {
      assert k == 0.0 || c == 0.0;
    }
  }

  /** One term of a block sum, scaled by c. */
  lemma ScaleStep(c: real, p: Interval, q: Interval, k: real, kc: real, b: Interval)
    requires q == Scale(c, p) && kc == k * c
    ensures Add(q, Scale(kc, b)) == Scale(c, Add(p, Scale(k, b)))
  {
    ScaleScale(c, k, b);
    ScaleAdd(c, p, Scale(k, b));
  }

  lemma {:induction false} BlockSumScaled(env: Env, dom: Domain, a: seq<real>, c: real, r: seq<real>, lo: nat, hi: nat)
    requires env.Indexed() && dom.Fits(env) && hi <= |a| && hi <= |r| && hi <= env.Nmon()
    requires forall j :: lo <= j < hi ==> r[j] == a[j] * c
    ensures BlockSum(env, dom, r, lo, hi) == Scale(c, BlockSum(env, dom, a, lo, hi))
    decreases hi
  {
    if hi > lo {
      BlockSumScaled(env, dom, a, c, r, lo, hi - 1);
      ScaleStep(c, BlockSum(env, dom, a, lo, hi - 1), BlockSum(env, dom, r, lo, hi - 1),
                a[hi - 1], r[hi - 1], Bndmon(env, dom, hi - 1));
    }
  }

  /** Multiplying every coefficient and bound by c keeps the block bounds those of `_update_bndord`. */
  lemma ScaledConsistent(dom: Domain, t: TVar, c: real, r: TVar)
    requires t.Wf() && t.Attached? && dom.Fits(t.env) && Consistent(dom, t)
    requires r.Wf() && r.Attached? && r.env == t.env
    requires forall j :: 0 <= j < |r.coef| ==> r.coef[j] == t.coef[j] * c
    requires forall d :: 0 <= d < |r.bndord| ==> r.bndord[d] == Scale(c, t.bndord[d])
    ensures Consistent(dom, r)
  {
    var env := t.env;
    EnvTables(env);
    forall d | 1 <= d <= env.nord
      ensures r.bndord[d] == BlockAt(env, dom, r.coef, d)
    {
      BlockSumScaled(env, dom, t.coef, c, r.coef, env.posord[d], env.posord[d + 1]);
    }
  }

  // ---------------------------------------------------------------------------
  // Sums and differences of Taylor variables.
  // ---------------------------------------------------------------------------

  /**
   The branch of `+=` for a detached operand holding c and rb: c goes into
   the constant coefficient and rb into the remainder. Slot 0 follows the
   constant, as `+= double` keeps it (see Findings).
   */
  function AddDetached(t: TVar, c: real, rb: Interval): (r: TVar)
    requires t.Wf()
    ensures r.Wf() && r.Attached? == t.Attached? && (r.Attached? ==> r.env == t.env)
    ensures r.Constant() == t.Constant() + c && r.Remainder() == Add(t.Remainder(), rb)
    ensures r.Attached? ==> forall j :: 1 <= j < |r.coef| ==> r.coef[j] == t.coef[j]
  {
    WithRemainder(AddConst(t, c), Add(t.Remainder(), rb))
  }

  /** The branch of `-=` for a detached operand. */
  function SubDetached(t: TVar, c: real, rb: Interval): (r: TVar)
    requires t.Wf()
    ensures r.Wf() && r.Attached? == t.Attached? && (r.Attached? ==> r.env == t.env)
    ensures r.Constant() == t.Constant() - c && r.Remainder() == Sub(t.Remainder(), rb)
    ensures r.Attached? ==> forall j :: 1 <= j < |r.coef| ==> r.coef[j] == t.coef[j]
  {
    WithRemainder(SubConst(t, c), Sub(t.Remainder(), rb))
  }

  /** The environment a binary operation works in: the one of whichever operand has one. */
  predicate Compatible(a: TVar, b: TVar)
  {
    a.Attached? && b.Attached? ==> a.env == b.env
  }

  /**
   `+= TVar` (lines 2276-2300) and `+` (lines 2302-2309). Two variables of
   different environments are the TMODEL error.
   */
  function Sum(opt: Options, dom: Domain, a: TVar, b: TVar): (r: Result<TVar>)
    requires a.Wf() && b.Wf()
    requires a.Attached? ==> dom.Fits(a.env)
    requires b.Attached? ==> dom.Fits(b.env)
    ensures r.Err? <==> !Compatible(a, b)
    ensures r.Err? ==> r.error == TModel
    ensures r.Ok? ==> r.value.Wf() && r.value.Attached? == (a.Attached? || b.Attached?)
    ensures r.Ok? && a.Attached? ==> r.value.env == a.env
    ensures r.Ok? && b.Attached? ==> r.value.env == b.env
  {
    match b
    case Detached(c, rb) => Ok(Finish(opt, AddDetached(a, c, rb)))
    case Attached(env, bc, bb) =>
      if a.Detached? then
        Ok(Finish(opt, Finish(opt, AddDetached(b, a.coef0, a.rem))))
      else if a.env != env then Err(TModel)
      else Ok(Finish(opt, SumAttached(dom, a, b)))
  }

  /**
   `-= TVar` (lines 2386-2410) and `-` (lines 2412-2419). A detached left
   operand becomes the negated right operand plus itself.
   */
  function Difference(opt: Options, dom: Domain, a: TVar, b: TVar): (r: Result<TVar>)
    requires a.Wf() && b.Wf()
    requires a.Attached? ==> dom.Fits(a.env)
    requires b.Attached? ==> dom.Fits(b.env)
    ensures r.Err? <==> !Compatible(a, b)
    ensures r.Err? ==> r.error == TModel
    ensures r.Ok? ==> r.value.Wf() && r.value.Attached? == (a.Attached? || b.Attached?)
    ensures r.Ok? && a.Attached? ==> r.value.env == a.env
    ensures r.Ok? && b.Attached? ==> r.value.env == b.env
  {
    match b
    case Detached(c, rb) => Ok(Finish(opt, SubDetached(a, c, rb)))
    case Attached(env, bc, bb) =>
      if a.Detached? then
        Ok(Finish(opt, Finish(opt, AddDetached(Negate(opt, b), a.coef0, a.rem))))
      else if a.env != env then Err(TModel)
      else Ok(Finish(opt, DifferenceAttached(dom, a, b)))
  }

  /** Both operands attached: coefficients added, remainders added, block bounds recomputed. */
  function SumAttached(dom: Domain, a: TVar, b: TVar): (r: TVar)
    requires a.Wf() && b.Wf() && a.Attached? && b.Attached? && a.env == b.env && dom.Fits(a.env)
    ensures r.Wf() && r.Attached? && r.env == a.env && Consistent(dom, r)
    ensures r.Remainder() == Add(a.Remainder(), b.Remainder())
    ensures forall j :: 0 <= j < |r.coef| ==> r.coef[j] == a.coef[j] + b.coef[j]
  {
    var env := a.env;
    EnvTables(env);
    var coef := seq(|b.coef|, j requires 0 <= j < |b.coef| => a.coef[j] + b.coef[j]);
    UpdateBndord(dom, Attached(env, coef, a.bndord[env.nord + 1 := Add(a.Remainder(), b.Remainder())]))
  }

  function DifferenceAttached(dom: Domain, a: TVar, b: TVar): (r: TVar)
    requires a.Wf() && b.Wf() && a.Attached? && b.Attached? && a.env == b.env && dom.Fits(a.env)
    ensures r.Wf() && r.Attached? && r.env == a.env && Consistent(dom, r)
    ensures r.Remainder() == Sub(a.Remainder(), b.Remainder())
    ensures forall j :: 0 <= j < |r.coef| ==> r.coef[j] == a.coef[j] - b.coef[j]
  {
    var env := a.env;
    EnvTables(env);
    var coef := seq(|b.coef|, j requires 0 <= j < |b.coef| => a.coef[j] - b.coef[j]);
    UpdateBndord(dom, Attached(env, coef, a.bndord[env.nord + 1 := Sub(a.Remainder(), b.Remainder())]))
  }

  /** A detached operand enclosing w, added to a variable enclosing v, gives one enclosing v + w. */
  lemma AddDetachedSound(dom: Domain, t: TVar, c: real, rb: Interval, u: seq<real>, v: real, w: real)
    requires t.Wf() && (t.Attached? ==> |u| == t.env.nvar && dom.Fits(t.env))
    requires Encloses(t, u, v) && rb.Contains(w - c) && Consistent(dom, t)
    ensures Encloses(AddDetached(t, c, rb), u, v + w) && Consistent(dom, AddDetached(t, c, rb))
  {
    var t1 := AddConst(t, c);
    AddConstSound(dom, t, c, u, v);
    ShiftValue(t, t1, u);
    AddContains(t.Remainder(), rb, v - PolyValue(t, u), w - c);
    assert PolyValue(AddDetached(t, c, rb), u) == PolyValue(t1, u);
  }

  lemma SubDetachedSound(dom: Domain, t: TVar, c: real, rb: Interval, u: seq<real>, v: real, w: real)
    requires t.Wf() && (t.Attached? ==> |u| == t.env.nvar && dom.Fits(t.env))
    requires Encloses(t, u, v) && rb.Contains(w - c) && Consistent(dom, t)
    ensures Encloses(SubDetached(t, c, rb), u, v - w) && Consistent(dom, SubDetached(t, c, rb))
  {
    var t1 := SubConst(t, c);
    SubConstSound(dom, t, c, u, v);
    ShiftValue(t, t1, u);
    SubContains(t.Remainder(), rb, v - PolyValue(t, u), w - c);
    assert PolyValue(SubDetached(t, c, rb), u) == PolyValue(t1, u);
  }

  /** The polynomial part of the coefficientwise sum is the sum of the polynomial parts. */
  lemma SumValue(a: TVar, b: TVar, r: TVar, u: seq<real>)
    requires a.Wf() && b.Wf() && r.Wf() && a.Attached? && b.Attached? && r.Attached?
    requires a.env == b.env == r.env && |u| == a.env.nvar
    requires forall j :: 0 <= j < |r.coef| ==> r.coef[j] == a.coef[j] + b.coef[j]
    ensures PolyValue(r, u) == PolyValue(a, u) + PolyValue(b, u)
  {
    EnvTables(a.env);
    CoefSumValue(a.env, a.coef, b.coef, r.coef, u);
  }

  /** The polynomial part of the coefficientwise difference is the difference of the polynomial parts. */
  lemma DifferenceValue(a: TVar, b: TVar, r: TVar, u: seq<real>)
    requires a.Wf() && b.Wf() && r.Wf() && a.Attached? && b.Attached? && r.Attached?
    requires a.env == b.env == r.env && |u| == a.env.nvar
    requires forall j :: 0 <= j < |r.coef| ==> r.coef[j] == a.coef[j] - b.coef[j]
    ensures PolyValue(r, u) == PolyValue(a, u) - PolyValue(b, u)
  {
    EnvTables(a.env);
    CoefDifferenceValue(a.env, a.coef, b.coef, r.coef, u);
  }

  lemma CoefSumValue(env: Env, a: seq<real>, b: seq<real>, r: seq<real>, u: seq<real>)
    requires env.Indexed() && |u| == env.nvar && |a| == |b| == |r| == env.Nmon() >= 1
    requires forall j :: 0 <= j < |r| ==> r[j] == a[j] + b[j]
    ensures r[0] + TermSum(env, r, u, 1, |r|) == a[0] + TermSum(env, a, u, 1, |a|) + (b[0] + TermSum(env, b, u, 1, |b|))
  {
    TermSumAdd(env, a, b, r, u, 1, |r|);
  }

  lemma CoefDifferenceValue(env: Env, a: seq<real>, b: seq<real>, r: seq<real>, u: seq<real>)
    requires env.Indexed() && |u| == env.nvar && |a| == |b| == |r| == env.Nmon() >= 1
    requires forall j :: 0 <= j < |r| ==> r[j] == a[j] - b[j]
    ensures r[0] + TermSum(env, r, u, 1, |r|) == a[0] + TermSum(env, a, u, 1, |a|) - (b[0] + TermSum(env, b, u, 1, |b|))
  {
    TermSumSubtract(env, a, b, r, u, 1, |r|);
  }

  lemma SumAttachedSound(dom: Domain, a: TVar, b: TVar, u: seq<real>, va: real, vb: real)
    requires a.Wf() && b.Wf() && a.Attached? && b.Attached? && a.env == b.env && dom.Fits(a.env)
    requires |u| == a.env.nvar && Encloses(a, u, va) && Encloses(b, u, vb)
    ensures Encloses(SumAttached(dom, a, b), u, va + vb)
  {
    var r := SumAttached(dom, a, b);
    SumValue(a, b, r, u);
    AddContains(a.Remainder(), b.Remainder(), va - PolyValue(a, u), vb - PolyValue(b, u));
  }

  lemma DifferenceAttachedSound(dom: Domain, a: TVar, b: TVar, u: seq<real>, va: real, vb: real)
    requires a.Wf() && b.Wf() && a.Attached? && b.Attached? && a.env == b.env && dom.Fits(a.env)
    requires |u| == a.env.nvar && Encloses(a, u, va) && Encloses(b, u, vb)
    ensures Encloses(DifferenceAttached(dom, a, b), u, va - vb)
  {
    var r := DifferenceAttached(dom, a, b);
    DifferenceValue(a, b, r, u);
    SubContains(a.Remainder(), b.Remainder(), va - PolyValue(a, u), vb - PolyValue(b, u));
  }

  /**
   The sum of a variable enclosing va and one enclosing vb exists when they
   share their environment, encloses va + vb and keeps its block bounds.
   */
  lemma SumSound(opt: Options, dom: Domain, a: TVar, b: TVar, u: seq<real>, va: real, vb: real)
    requires a.Wf() && b.Wf() && Compatible(a, b)
    requires a.Attached? ==> |u| == a.env.nvar && dom.Fits(a.env)
    requires b.Attached? ==> |u| == b.env.nvar && dom.Fits(b.env)
    requires Encloses(a, u, va) && Encloses(b, u, vb) && Consistent(dom, a) && Consistent(dom, b)
    ensures Sum(opt, dom, a, b).Ok?
    ensures Encloses(Sum(opt, dom, a, b).value, u, va + vb)
    ensures Consistent(dom, Sum(opt, dom, a, b).value)
  {
    if b.Detached? {
      var t1 := AddDetached(a, b.coef0, b.rem);
      AddDetachedSound(dom, a, b.coef0, b.rem, u, va, vb);
      FinishEncloses(opt, t1, u, va + vb);
      FinishConsistent(opt, dom, t1);
    } else if a.Detached? {
      var t1 := AddDetached(b, a.coef0, a.rem);
      AddDetachedSound(dom, b, a.coef0, a.rem, u, vb, va);
      FinishEncloses(opt, t1, u, va + vb);
      FinishConsistent(opt, dom, t1);
      FinishEncloses(opt, Finish(opt, t1), u, va + vb);
      FinishConsistent(opt, dom, Finish(opt, t1));
    } else {
      var t1 := SumAttached(dom, a, b);
      SumAttachedSound(dom, a, b, u, va, vb);
      FinishEncloses(opt, t1, u, va + vb);
      FinishConsistent(opt, dom, t1);
    }
  }

  /** The difference of a variable enclosing va and one enclosing vb encloses va - vb. */
  lemma DifferenceSound(opt: Options, dom: Domain, a: TVar, b: TVar, u: seq<real>, va: real, vb: real)
    requires a.Wf() && b.Wf() && Compatible(a, b)
    requires a.Attached? ==> |u| == a.env.nvar && dom.Fits(a.env)
    requires b.Attached? ==> |u| == b.env.nvar && dom.Fits(b.env)
    requires Encloses(a, u, va) && Encloses(b, u, vb) && Consistent(dom, a) && Consistent(dom, b)
    ensures Difference(opt, dom, a, b).Ok?
    ensures Encloses(Difference(opt, dom, a, b).value, u, va - vb)
    ensures Consistent(dom, Difference(opt, dom, a, b).value)
  {
    if b.Detached? {
      var t1 := SubDetached(a, b.coef0, b.rem);
      SubDetachedSound(dom, a, b.coef0, b.rem, u, va, vb);
      FinishEncloses(opt, t1, u, va - vb);
      FinishConsistent(opt, dom, t1);
    } else if a.Detached? {
      var nb := Negate(opt, b);
      NegateSound(opt, dom, b, u, vb);
      var t1 := AddDetached(nb, a.coef0, a.rem);
      AddDetachedSound(dom, nb, a.coef0, a.rem, u, -vb, va);
      FinishEncloses(opt, t1, u, va - vb);
      FinishConsistent(opt, dom, t1);
      FinishEncloses(opt, Finish(opt, t1), u, va - vb);
      FinishConsistent(opt, dom, Finish(opt, t1));
    } else {
      var t1 := DifferenceAttached(dom, a, b);
      DifferenceAttachedSound(dom, a, b, u, va, vb);
      FinishEncloses(opt, t1, u, va - vb);
      FinishConsistent(opt, dom, t1);
    }
  }

  /** Without centring, subtracting b from a + b gives back the coefficients of a. */
  lemma DifferenceUndoesSum(opt: Options, dom: Domain, a: TVar, b: TVar)
    requires a.Wf() && b.Wf() && a.Attached? && Compatible(a, b) && dom.Fits(a.env)
    requires !opt.centerRemainder
    ensures Sum(opt, dom, a, b).Ok?
    ensures Difference(opt, dom, Sum(opt, dom, a, b).value, b).Ok?
    ensures Difference(opt, dom, Sum(opt, dom, a, b).value, b).value.coef == a.coef
  {
    var s := Sum(opt, dom, a, b).value;
    var d := Difference(opt, dom, s, b).value;
    assert |d.coef| == |a.coef|;
    forall j | 0 <= j < |a.coef|
      ensures d.coef[j] == a.coef[j]
    {
      if b.Attached? {
        EnvTables(a.env);
      }
    }
  }

  /** Without centring, a + b and b + a have the same coefficients and remainder. */
  lemma SumCommutes(opt: Options, dom: Domain, a: TVar, b: TVar)
    requires a.Wf() && b.Wf() && a.Attached? && b.Attached? && a.env == b.env && dom.Fits(a.env)
    requires !opt.centerRemainder
    ensures Sum(opt, dom, a, b).Ok? && Sum(opt, dom, b, a).Ok?
    ensures SameCoefs(Sum(opt, dom, a, b).value, Sum(opt, dom, b, a).value)
    ensures Sum(opt, dom, a, b).value.Remainder() == Sum(opt, dom, b, a).value.Remainder()
  {
    var x := Sum(opt, dom, a, b).value;
    var y := Sum(opt, dom, b, a).value;
    assert x.coef == y.coef;
  }
}
