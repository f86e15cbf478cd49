/**
 Making Taylor variables: the constant and bound constructors (detached and
 in an environment), the seeding of a variable, and the accessors that read
 a polynomial back (`polynomial`, `linear`, `coefmon`), all from
 MCpp/src/mc/tmodel.hpp.
 */
module TaylorConstruction {
  import opened TmResults
  import opened ExponentVectors
  import opened MonomialRank
  import opened TaylorEnvironment
  import opened Intervals
  import opened TaylorDomain
  import opened TaylorVariables

  // ---------------------------------------------------------------------------
  // Constants and bounds.
  // ---------------------------------------------------------------------------

  /** `TVar(d)` (lines 1654-1661): a detached variable standing for exactly d. */
  function FromConst(d: real): (t: TVar)
    ensures t.Wf() && t.Detached?
    ensures forall u, v :: Encloses(t, u, v) <==> v == d
  {
    Detached(d, Point(0.0))
  }

  /** `TVar(B)` (lines 1690-1697): a detached variable standing for any member of B. */
  function FromBound(b: Interval): (t: TVar)
    ensures t.Wf() && t.Detached?
    ensures forall u, v :: Encloses(t, u, v) <==> b.Contains(v)
  {
    Detached(0.0, b)
  }

  /** The zero coefficient vector of an environment. */
  function ZeroCoefs(env: Env, c0: real): (coef: seq<real>)
    requires env.Indexed()
    ensures |coef| == env.Nmon() && |coef| >= 1 && coef[0] == c0
    ensures forall j :: 1 <= j < |coef| ==> coef[j] == 0.0
  {
    EnvTables(env);
    seq(env.Nmon(), j => if j == 0 then c0 else 0.0)
  }

  /** A polynomial with only a constant term c0 takes the value c0 everywhere. */
  lemma ConstantValue(env: Env, coef: seq<real>, bndord: seq<Interval>, u: seq<real>)
    requires Attached(env, coef, bndord).Wf() && |u| == env.nvar
    requires forall j :: 1 <= j < |coef| ==> coef[j] == 0.0
    ensures PolyValue(Attached(env, coef, bndord), u) == Attached(env, coef, bndord).Constant()
  {
    EnvTables(env);
    TermSumZero(env, coef, u, 1, env.Nmon());
  }

  /** Zero coefficients beyond the constant give the block bounds `_update_bndord` would. */
  lemma ConstantConsistent(dom: Domain, env: Env, coef: seq<real>, bndord: seq<Interval>)
    requires Attached(env, coef, bndord).Wf() && dom.Fits(env)
    requires forall j :: 1 <= j < |coef| ==> coef[j] == 0.0
    requires bndord[0] == Point(Attached(env, coef, bndord).Constant())
    requires forall d :: 1 <= d <= env.nord ==> bndord[d] == Point(0.0)
    ensures Consistent(dom, Attached(env, coef, bndord))
  {
    EnvTables(env);
    forall d | 1 <= d <= env.nord
      ensures BlockAt(env, dom, coef, d) == Point(0.0)
    {
      BlockSumZero(env, dom, coef, env.posord[d], env.posord[d + 1]);
    }
  }

  /**
   `TVar(TM, d)` (lines 1674-1688): the constant d in the environment; no
   environment is the INIT error.
   */
  function AttachConst(tm: Option<Env>, d: real): (r: Result<TVar>)
    requires tm.Some? ==> tm.value.Valid()
    ensures r.Err? <==> tm.None?
    ensures r.Err? ==> r.error == Init
    ensures r.Ok? ==> r.value.Wf() && r.value.Attached? && r.value.env == tm.value
    ensures r.Ok? ==> forall u, v :: |u| == tm.value.nvar ==> (Encloses(r.value, u, v) <==> v == d)
    ensures r.Ok? ==> forall dom: Domain :: dom.Fits(tm.value) ==> Consistent(dom, r.value)
  {
    if tm.None? then Err(Init)
    else
      var env := tm.value;
      var t := Attached(env, ZeroCoefs(env, d), seq(env.nord + 2, k => if k == 0 then Point(d) else Point(0.0)));
      ConstantFacts(t);
      Ok(t)
  }

  /** Both facts about a constant polynomial, for every point and every domain. */
  lemma ConstantFacts(t: TVar)
    requires t.Wf() && t.Attached?
    requires forall j :: 1 <= j < |t.coef| ==> t.coef[j] == 0.0
    requires t.bndord[0] == Point(t.Constant()) && forall d :: 1 <= d <= t.env.nord + 1 ==> t.bndord[d] == Point(0.0)
    ensures forall u, v :: |u| == t.env.nvar ==> (Encloses(t, u, v) <==> v == t.Constant())
    ensures forall dom: Domain :: dom.Fits(t.env) ==> Consistent(dom, t)
  {
    forall u | |u| == t.env.nvar
      ensures PolyValue(t, u) == t.Constant()
    {
      ConstantValue(t.env, t.coef, t.bndord, u);
    }
    forall dom: Domain | dom.Fits(t.env)
      ensures Consistent(dom, t)
    {
      ConstantConsistent(dom, t.env, t.coef, t.bndord);
    }
  }

  /**
   `TVar(TM, B)` (lines 1710-1722): zero polynomial with remainder B,
   centred when CENTER_REMAINDER is set; no environment is the INIT error.
   */
  function AttachBound(tm: Option<Env>, opt: Options, b: Interval): (r: Result<TVar>)
    requires tm.Some? ==> tm.value.Valid()
    ensures r.Err? <==> tm.None?
    ensures r.Err? ==> r.error == Init
    ensures r.Ok? ==> r.value.Wf() && r.value.Attached? && r.value.env == tm.value
    ensures r.Ok? ==> forall u, v :: |u| == tm.value.nvar ==> (Encloses(r.value, u, v) <==> b.Contains(v))
    ensures r.Ok? ==> forall dom: Domain :: dom.Fits(tm.value) ==> Consistent(dom, r.value)
  {
    if tm.None? then Err(Init)
    else
      var env := tm.value;
      var t := Attached(env, ZeroCoefs(env, 0.0), seq(env.nord + 2, k => if k <= env.nord then Point(0.0) else b));
      BoundFacts(t, b);
      if opt.centerRemainder then
        CenterFacts(t);
        Ok(Center(t))
      else Ok(t)
  }

  lemma BoundFacts(t: TVar, b: Interval)
    requires t.Wf() && t.Attached? && t.Remainder() == b && t.Constant() == 0.0
    requires forall j :: 1 <= j < |t.coef| ==> t.coef[j] == 0.0
    requires forall d :: 0 <= d <= t.env.nord ==> t.bndord[d] == Point(0.0)
    ensures forall u, v :: |u| == t.env.nvar ==> (Encloses(t, u, v) <==> b.Contains(v))
    ensures forall dom: Domain :: dom.Fits(t.env) ==> Consistent(dom, t)
  {
    forall u | |u| == t.env.nvar
      ensures PolyValue(t, u) == 0.0
    {
      ConstantValue(t.env, t.coef, t.bndord, u);
    }
    forall dom: Domain | dom.Fits(t.env)
      ensures Consistent(dom, t)
    {
      ConstantConsistent(dom, t.env, t.coef, t.bndord);
    }
  }

  /** Centring keeps, for every point and every domain, what t encloses and its block bounds. */
  lemma CenterFacts(t: TVar)
    requires t.Wf() && t.Attached?
    ensures forall u, v :: |u| == t.env.nvar ==> (Encloses(Center(t), u, v) <==> Encloses(t, u, v))
    ensures forall dom: Domain :: dom.Fits(t.env) && Consistent(dom, t) ==> Consistent(dom, Center(t))
  {
    forall u, v | |u| == t.env.nvar
      ensures Encloses(Center(t), u, v) <==> Encloses(t, u, v)
    {
      CenterEncloses(t, u, v);
    }
    forall dom: Domain | dom.Fits(t.env) && Consistent(dom, t)
      ensures Consistent(dom, Center(t))
    {
      CenterConsistent(dom, t);
    }
  }

  // ---------------------------------------------------------------------------
  // Seeding a variable.
  // ---------------------------------------------------------------------------

  /** The scaling the seeding constructors pick: half the width of X when scaling is on, and never 0. */
  function SeedScaling(opt: Options, x: Interval): (s: real)
    requires x.Proper()
    ensures s > 0.0
    ensures !opt.scaleVariables ==> s == 1.0
  {
    var s0 := if opt.scaleVariables then Diam(x) / 2.0 else 1.0;
    if s0 == 0.0 then 1.0 else s0
  }

  /** The monomial x_k alone, evaluated over the first m variables. */
  lemma {:induction false} MonValueUnit(u: seq<real>, k: nat, m: nat)
    requires k < |u| && m <= |u|
    ensures MonValue(u, Unit(|u|, k), m) == if m <= k then 1.0 else u[k]
  {
    if m > 0 {
      MonValueUnit(u, k, m - 1);
      var e := Unit(|u|, k);
      assert MonValue(u, e, m) == Times(MonValue(u, e, m - 1), RPow(u[m - 1], e[m - 1]));
      if m - 1 == k {
        assert RPow(u[k], 1) == u[k];
      } else {
        assert RPow(u[m - 1], 0) == 1.0;
      }
    }
  }

  /** The linear monomial of variable ivar sits at nvar-ivar, inside the first-degree block. */
  lemma UnitPlace(env: Env, ivar: nat)
    requires env.Indexed() && ivar < env.nvar && env.nord >= 1
    ensures env.posord[1] <= env.nvar - ivar < env.posord[2] <= env.Nmon() == |env.expmon|
    ensures env.expmon[env.nvar - ivar] == Unit(env.nvar, ivar)
  {
    EnvTables(env);
    DegreeUnit(env.nvar, ivar);
    LocUnit(env.nvar, ivar);
    TableAtLoc(Unit(env.nvar, ivar), env.nord + 1);
    LocBelowPosord(Unit(env.nvar, ivar), 2);
  }

  lemma UnitPlaceIf(env: Env, ivar: nat)
    requires env.Indexed() && ivar < env.nvar
    ensures env.nord >= 1 ==> env.nvar - ivar < env.Nmon()
  {
    if env.nord >= 1 {
      UnitPlace(env, ivar);
    }
  }

  /** The coefficients of a seeded variable: the reference point, and the scaling at x_ivar. */
  function SeedCoefs(env: Env, ivar: nat, xref: real, s: real): (coef: seq<real>)
    requires env.Indexed() && ivar < env.nvar
    ensures |coef| == env.Nmon() && |coef| >= 1 && coef[0] == xref
    ensures env.nord >= 1 ==> env.nvar - ivar < |coef| && coef[env.nvar - ivar] == s
    ensures forall j :: 1 <= j < |coef| && (env.nord == 0 || j != env.nvar - ivar) ==> coef[j] == 0.0
  {
    EnvTables(env);
    UnitPlaceIf(env, ivar);
    seq(env.Nmon(), j => if j == 0 then xref else if env.nord >= 1 && j == env.nvar - ivar then s else 0.0)
  }

  /** The block bounds of a seeded variable: the reference point, then X minus it. */
  function SeedBounds(env: Env, x: Interval, xref: real): (b: seq<Interval>)
    ensures |b| == env.nord + 2 && b[0] == Point(xref) && b[1] == Sub(x, Point(xref))
    ensures forall d :: 2 <= d < |b| ==> b[d] == Point(0.0)
  {
    seq(env.nord + 2, d => if d == 0 then Point(xref) else if d == 1 then Sub(x, Point(xref)) else Point(0.0))
  }

  /** The variable the seeding constructors build, once the scaling s and reference xref are chosen. */
  function SeedVar(env: Env, ivar: nat, x: Interval, xref: real, s: real): (t: TVar)
    requires env.Valid() && ivar < env.nvar
    ensures t.Wf() && t.Attached? && t.env == env
  {
    Attached(env, SeedCoefs(env, ivar, xref, s), SeedBounds(env, x, xref))
  }

  /**
   The seeding constructors `TVar(TM, ivar, X)` and `TVar(TM, ivar, X, Xref)`
   (lines 1835-1889): record the scaled variable in the domain, then build
   xref + scaling * x_ivar (xref defaults to the midpoint of X) with block
   bound X - xref in slot 1; when nord is 0 that slot is the remainder. No
   environment, or an index past the last variable, is the INIT error.
   */
  function Seed(tm: Option<Env>, dom: Domain, opt: Options, ivar: nat, x: Interval, xref: Option<real>)
    : (r: Result<(TVar, Domain)>)
    requires x.Proper() && (tm.Some? ==> tm.value.Valid() && dom.Fits(tm.value))
    ensures r.Err? <==> tm.None? || ivar >= tm.value.nvar
    ensures r.Err? ==> r.error == Init
    ensures r.Ok? ==>
      && r.value.0.Wf() && r.value.0.Attached? && r.value.0.env == tm.value
      && r.value.1.Fits(tm.value) && r.value.1.vars[ivar].Some?
      && (forall k :: 0 <= k < tm.value.nvar && k != ivar ==> r.value.1.vars[k] == dom.vars[k])
    ensures r.Ok? ==> BndordSound(r.value.1, r.value.0)
  {
    if tm.None? then Err(Init)
    else
      var env := tm.value;
      var s := SeedScaling(opt, x);
      var c := SeedRef(x, xref);
      match SetBndpow(env, dom, ivar, x, c, s)
      case Err(e) => Err(e)
      case Ok(dom1) =>
        SeedSound(env, dom1, ivar, x, c, s);
        Ok((SeedVar(env, ivar, x, c, s), dom1))
  }

  /** The reference point: the one given, else the midpoint of X. */
  function SeedRef(x: Interval, xref: Option<real>): real
  {
    if xref.Some? then xref.value else Mid(x)
  }

  /** s times a member of (X - xref)/s lies in X - xref. */
  lemma SeedScalar(s: real, x: Interval, xref: real, w: real)
    requires s > 0.0
    requires Sub(Scale(1.0 / s, x), Point(xref / s)).Contains(w)
    ensures Sub(x, Point(xref)).Contains(Times(s, w))
  {
    var k := 1.0 / s;
    assert k > 0.0;
    assert s * k == 1.0;
    assert k * x.lo - xref / s <= w <= k * x.hi - xref / s;
    MulBetween(s, k * x.lo - xref / s, w, k * x.hi - xref / s);
    assert s * (k * x.lo - xref / s) == x.lo - xref;
    assert s * (k * x.hi - xref / s) == x.hi - xref;
  }

  /** The terms of a seed from degree 1 on amount to s times the scaled variable. */
  lemma SeedFirstBlock(env: Env, ivar: nat, xref: real, s: real, u: seq<real>)
    requires env.Indexed() && ivar < env.nvar && env.nord >= 1 && |u| == env.nvar
    ensures BlockValue(env, SeedCoefs(env, ivar, xref, s), u, 1) == Times(s, u[ivar])
    ensures TermSum(env, SeedCoefs(env, ivar, xref, s), u, 1, env.Nmon()) == Times(s, u[ivar])
  {
    var coef := SeedCoefs(env, ivar, xref, s);
    EnvTables(env);
    UnitPlace(env, ivar);
    TermSumSingle(env, coef, u, env.posord[1], env.posord[2], env.nvar - ivar);
    TermSumSingle(env, coef, u, 1, env.Nmon(), env.nvar - ivar);
    MonValueUnit(u, ivar, env.nvar);
  }

  /** A seed's blocks of degree 2 and up are empty. */
  lemma SeedHigherBlock(env: Env, ivar: nat, xref: real, s: real, u: seq<real>, d: nat)
    requires env.Indexed() && ivar < env.nvar && 2 <= d <= env.nord && |u| == env.nvar
    ensures BlockValue(env, SeedCoefs(env, ivar, xref, s), u, d) == 0.0
  {
    EnvTables(env);
    UnitPlace(env, ivar);
    TermSumZero(env, SeedCoefs(env, ivar, xref, s), u, env.posord[d], env.posord[d + 1]);
  }

  /** The polynomial part of a seed at u: xref + s*u[ivar], or xref alone when nord is 0. */
  lemma SeedValue(env: Env, ivar: nat, x: Interval, xref: real, s: real, u: seq<real>)
    requires env.Valid() && ivar < env.nvar && |u| == env.nvar
    ensures env.nord >= 1 ==> PolyValue(SeedVar(env, ivar, x, xref, s), u) == xref + Times(s, u[ivar])
    ensures env.nord >= 1 ==> SeedVar(env, ivar, x, xref, s).Remainder() == Point(0.0)
    ensures env.nord == 0 ==> PolyValue(SeedVar(env, ivar, x, xref, s), u) == xref
    ensures env.nord == 0 ==> SeedVar(env, ivar, x, xref, s).Remainder() == Sub(x, Point(xref))
  {
    EnvTables(env);
    if env.nord >= 1 {
      SeedFirstBlock(env, ivar, xref, s, u);
    }
  }

  lemma SeedSound(env: Env, dom1: Domain, ivar: nat, x: Interval, xref: real, s: real)
    requires env.Valid() && ivar < env.nvar && s > 0.0 && dom1.Fits(env)
    requires dom1.vars[ivar] == Some(VarScale(xref / s, s, Sub(Scale(1.0 / s, x), Point(xref / s))))
    ensures BndordSound(dom1, SeedVar(env, ivar, x, xref, s))
  {
    var t := SeedVar(env, ivar, x, xref, s);
    EnvTables(env);
    forall u, d | InBox(dom1, u) && |u| == env.nvar && 0 <= d <= env.nord
      ensures t.bndord[d].Contains(BlockValue(env, t.coef, u, d))
    {
      if d == 1 {
        SeedFirstBlock(env, ivar, xref, s, u);
        SeedScalar(s, x, xref, u[ivar]);
      } else if d >= 2 {
        SeedHigherBlock(env, ivar, xref, s, u, d);
      }
    }
  }

  /** The seed of x_ivar encloses every point p of X, at the scaled point of p. */
  lemma SeedEncloses(tm: Option<Env>, dom: Domain, opt: Options, ivar: nat, x: Interval, xref: Option<real>, u: seq<real>, p: real)
    requires x.Proper() && (tm.Some? ==> tm.value.Valid() && dom.Fits(tm.value))
    requires Seed(tm, dom, opt, ivar, x, xref).Ok?
    requires |u| == tm.value.nvar && x.Contains(p)
    requires u[ivar] == Scaled(Seed(tm, dom, opt, ivar, x, xref).value.1.vars[ivar].value, p)
    ensures Encloses(Seed(tm, dom, opt, ivar, x, xref).value.0, u, p)
  {
    var env := tm.value;
    var s := SeedScaling(opt, x);
    var c := SeedRef(x, xref);
    var r := Seed(tm, dom, opt, ivar, x, xref).value;
    assert r.0 == SeedVar(env, ivar, x, c, s);
    assert r.1.vars[ivar].value.scaling == s && r.1.vars[ivar].value.ref == c / s;
    SeedValue(env, ivar, x, c, s, u);
    SeedValueScalar(s, c, p);
  }

  /** xref + s * (p/s - xref/s) = p. */
  lemma SeedValueScalar(s: real, xref: real, p: real)
    requires s > 0.0
    ensures xref + Times(s, p / s - xref / s) == p
  {
  }

  // ---------------------------------------------------------------------------
  // Reading a variable back.
  // ---------------------------------------------------------------------------

  /** The scaled point u of the unscaled point x: u[k] = x[k]/scaling[k] - ref[k]. */
  function ScaledPoint(dom: Domain, x: seq<real>): (u: seq<real>)
    requires dom.Seeded() && |x| == |dom.vars|
    requires forall k :: 0 <= k < |x| ==> dom.vars[k].value.scaling != 0.0
    ensures |u| == |x|
    ensures forall k :: 0 <= k < |x| ==> u[k] == Scaled(dom.vars[k].value, x[k])
  {
    seq(|x|, k requires 0 <= k < |x| => Scaled(dom.vars[k].value, x[k]))
  }

  /**
   `polynomial(x)` (lines 2154-2167): the polynomial part at the unscaled
   point x. The source reads the scaling and reference point of every
   variable, so every variable must be seeded.
   */
  function Polynomial(dom: Domain, t: TVar, x: seq<real>): (p: real)
    requires t.Wf()
    requires t.Attached? ==> dom.Fits(t.env) && dom.Seeded() && |x| == t.env.nvar
    ensures t.Detached? ==> p == t.coef0
    ensures t.Attached? ==> forall v :: Encloses(t, ScaledPoint(dom, x), v) <==> t.Remainder().Contains(v - p)
  {
    if t.Detached? then t.coef0
    else PolyValue(t, ScaledPoint(dom, x))
  }

  /** Evaluated through `polynomial`, the seed of x_ivar is the coordinate x_ivar (nord >= 1). */
  lemma SeedPolynomial(env: Env, dom: Domain, opt: Options, ivar: nat, x: Interval, xref: Option<real>, pt: seq<real>)
    requires env.Valid() && dom.Fits(env) && x.Proper() && ivar < env.nvar && env.nord >= 1 && |pt| == env.nvar
    requires forall k :: 0 <= k < env.nvar && k != ivar ==> dom.vars[k].Some?
    ensures Seed(Some(env), dom, opt, ivar, x, xref).Ok?
    ensures var r := Seed(Some(env), dom, opt, ivar, x, xref).value;
      r.1.Seeded() && Polynomial(r.1, r.0, pt) == pt[ivar]
  {
    var r := Seed(Some(env), dom, opt, ivar, x, xref).value;
    var s := SeedScaling(opt, x);
    var c := SeedRef(x, xref);
    assert r.0 == SeedVar(env, ivar, x, c, s);
    assert r.1.vars[ivar].value.scaling == s && r.1.vars[ivar].value.ref == c / s;
    SeedVarPolynomial(env, r.1, ivar, x, c, s, pt);
  }

  lemma SeedVarPolynomial(env: Env, dom: Domain, ivar: nat, x: Interval, xref: real, s: real, pt: seq<real>)
    requires env.Valid() && ivar < env.nvar && env.nord >= 1 && dom.Fits(env) && dom.Seeded() && |pt| == env.nvar
    requires s > 0.0 && dom.vars[ivar].value.scaling == s && dom.vars[ivar].value.ref == xref / s
    ensures Polynomial(dom, SeedVar(env, ivar, x, xref, s), pt) == pt[ivar]
  {
    var u := ScaledPoint(dom, pt);
    assert u[ivar] == pt[ivar] / s - xref / s;
    SeedValue(env, ivar, x, xref, s, u);
    SeedValueScalar(s, xref, pt[ivar]);
  }

  /**
   `linear()` (lines 2185-2194): the coefficients of the linear terms in
   the unscaled variables, `coef[nvar-i]/scaling(i)`; none for a detached
   variable or when nord is 0.
   */
  function Linear(dom: Domain, t: TVar): (r: Option<seq<real>>)
    requires t.Wf()
    requires t.Attached? && t.env.nord >= 1 ==> dom.Fits(t.env) && dom.Seeded()
    ensures r.None? <==> t.Detached? || t.env.nord == 0
    ensures r.Some? ==> |r.value| == t.env.nvar
    ensures r.Some? ==> forall i :: 0 <= i < t.env.nvar ==>
      r.value[i] * dom.vars[i].value.scaling == CoefOf(t, Unit(t.env.nvar, i))
  {
    if t.Detached? || t.env.nord == 0 then None
    else
      var env := t.env;
      LinearCoefs(t);
      Some(seq(env.nvar, i requires 0 <= i < env.nvar =>
        UnitPlace(env, i);
        t.coef[env.nvar - i] / dom.vars[i].value.scaling))
  }

  lemma LinearCoefs(t: TVar)
    requires t.Wf() && t.Attached? && t.env.nord >= 1
    ensures |t.coef| > t.env.nvar
    ensures forall i: nat :: i < t.env.nvar ==> CoefOf(t, Unit(t.env.nvar, i)) == t.coef[t.env.nvar - i]
  {
    UnitCoef(t, 0);
    forall i: nat | i < t.env.nvar
      ensures CoefOf(t, Unit(t.env.nvar, i)) == t.coef[t.env.nvar - i]
    {
      UnitCoef(t, i);
    }
  }

  lemma UnitCoef(t: TVar, i: nat)
    requires t.Wf() && t.Attached? && t.env.nord >= 1 && i < t.env.nvar
    ensures t.env.nvar - i < |t.coef| && CoefOf(t, Unit(t.env.nvar, i)) == t.coef[t.env.nvar - i]
  {
    var e := Unit(t.env.nvar, i);
    UnitPlace(t.env, i);
    DegreeUnit(t.env.nvar, i);
    LocUnit(t.env.nvar, i);
    assert |e| == t.env.nvar && Degree(e) <= t.env.nord && Loc(e) == t.env.nvar - i;
  }

  /** The seed of x_ivar has linear coefficient s on x_ivar and none on the other variables. */
  lemma SeedCoefOf(env: Env, ivar: nat, x: Interval, xref: real, s: real, i: nat)
    requires env.Valid() && ivar < env.nvar && env.nord >= 1 && i < env.nvar
    ensures CoefOf(SeedVar(env, ivar, x, xref, s), Unit(env.nvar, i)) == if i == ivar then s else 0.0
  {
    UnitCoef(SeedVar(env, ivar, x, xref, s), i);
  }

  /** Read back through `linear`, a seed of x_ivar is x_ivar: coefficient 1 there and 0 elsewhere. */
  lemma SeedLinear(env: Env, dom: Domain, opt: Options, ivar: nat, x: Interval, xref: Option<real>, i: nat)
    requires env.Valid() && dom.Fits(env) && x.Proper() && ivar < env.nvar && env.nord >= 1 && i < env.nvar
    requires forall k :: 0 <= k < env.nvar && k != ivar ==> dom.vars[k].Some?
    ensures Seed(Some(env), dom, opt, ivar, x, xref).Ok?
    ensures var r := Seed(Some(env), dom, opt, ivar, x, xref).value;
      r.1.Seeded() && Linear(r.1, r.0).Some? && Linear(r.1, r.0).value[i] == if i == ivar then 1.0 else 0.0
  {
    var s := SeedScaling(opt, x);
    var c := SeedRef(x, xref);
    var r := Seed(Some(env), dom, opt, ivar, x, xref).value;
    assert r.0 == SeedVar(env, ivar, x, c, s);
    LinearSeedVar(env, r.1, ivar, x, c, s, i);
  }

  lemma LinearSeedVar(env: Env, dom: Domain, ivar: nat, x: Interval, xref: real, s: real, i: nat)
    requires env.Valid() && ivar < env.nvar && env.nord >= 1 && i < env.nvar
    requires dom.Fits(env) && dom.Seeded() && dom.vars[ivar].value.scaling == s
    ensures Linear(dom, SeedVar(env, ivar, x, xref, s)).Some?
    ensures Linear(dom, SeedVar(env, ivar, x, xref, s)).value[i] == if i == ivar then 1.0 else 0.0
  {
    var t := SeedVar(env, ivar, x, xref, s);
    SeedCoefOf(env, ivar, x, xref, s, i);
    var l := Linear(dom, t).value;
    var si := dom.vars[i].value.scaling;
    var k := CoefOf(t, Unit(env.nvar, i));
    assert si != 0.0 && l[i] * si == k;
    if i == ivar {
      UnscaleOne(l[i], si, k);
    } else {
      UnscaleZero(l[i], si, k);
    }
  }

  lemma UnscaleOne(l: real, s: real, k: real)
    requires s != 0.0 && l * s == k && k == s
    ensures l == 1.0
  {
    assert (l - 1.0) * s == 0.0;
  }

  lemma UnscaleZero(l: real, s: real, k: real)
    requires s != 0.0 && l * s == k && k == 0.0
    ensures l == 0.0
  {
  }

  /**
   `linear(ivar, reset)` (lines 2196-2204): the coefficient of x_ivar in the
   unscaled variable; with reset, that term is dropped and the block bounds
   recomputed. A detached variable, an index past the last variable, or
   nord 0 give 0 and no change.
   */
  function LinearReset(dom: Domain, t: TVar, ivar: nat, reset: bool): (r: (real, TVar))
    requires t.Wf()
    requires t.Attached? ==> dom.Fits(t.env)
    requires t.Attached? && ivar < t.env.nvar && t.env.nord >= 1 ==> dom.vars[ivar].Some?
    ensures r.1.Wf() && r.1.Attached? == t.Attached? && (t.Attached? ==> r.1.env == t.env)
    ensures t.Detached? || ivar >= t.env.nvar || t.env.nord == 0 ==> r == (0.0, t)
    ensures t.Attached? && ivar < t.env.nvar && t.env.nord >= 1 ==>
      && r.0 * dom.vars[ivar].value.scaling == CoefOf(t, Unit(t.env.nvar, ivar))
      && (reset ==> Consistent(dom, r.1) && CoefOf(r.1, Unit(t.env.nvar, ivar)) == 0.0)
      && (!reset ==> r.1 == t)
  {
    if t.Detached? || ivar >= t.env.nvar || t.env.nord == 0 then (0.0, t)
    else
      var env := t.env;
      UnitCoef(t, ivar);
      var p := env.nvar - ivar;
      var sc := dom.vars[ivar].value.scaling;
      var c := t.coef[p] / sc;
      DivTimes(t.coef[p], sc);
      if reset then
        var t1 := UpdateBndord(dom, Attached(env, t.coef[p := 0.0], t.bndord));
        UnitCoef(t1, ivar);
        (c, t1)
      else (c, t)
  }

  /** Dropping the linear term of x_ivar lowers the polynomial by exactly that term. */
  lemma LinearResetValue(dom: Domain, t: TVar, ivar: nat, u: seq<real>)
    requires t.Wf() && t.Attached? && dom.Fits(t.env) && ivar < t.env.nvar && t.env.nord >= 1
    requires dom.vars[ivar].Some? && |u| == t.env.nvar
    ensures var p := t.env.nvar - ivar;
      p < |t.coef| && PolyValue(LinearReset(dom, t, ivar, true).1, u) == PolyValue(t, u) - Times(t.coef[p], u[ivar])
  {
    var env := t.env;
    EnvTables(env);
    UnitPlace(env, ivar);
    var p := env.nvar - ivar;
    var t1 := LinearReset(dom, t, ivar, true).1;
    assert t1.coef == t.coef[p := 0.0];
    DropTerm(env, t.coef, p, u);
    MonValueUnit(u, ivar, env.nvar);
  }

  /** Zeroing coefficient p removes exactly term p from the sum over the non-constant monomials. */
  lemma DropTerm(env: Env, coef: seq<real>, p: nat, u: seq<real>)
    requires env.Indexed() && |coef| == env.Nmon() && 1 <= p < |coef| && |u| == env.nvar
    ensures p < |env.expmon| && |env.expmon[p]| == env.nvar
    ensures TermSum(env, coef[p := 0.0], u, 1, |coef|)
         == TermSum(env, coef, u, 1, |coef|) - Times(coef[p], MonValue(u, env.expmon[p], env.nvar))
  {
    var one := seq(|coef|, j => if j == p then coef[p] else 0.0);
    TermSumAdd(env, coef[p := 0.0], one, coef, u, 1, |coef|);
    TermSumSingle(env, one, u, 1, |coef|, p);
  }

  /**
   The coefficient of the monomial with exponents iexp: 0 for a detached
   variable and for degrees past nord, which the truncation drops.
   */
  function CoefOf(t: TVar, iexp: seq<nat>): real
    requires t.Wf() && (t.Attached? ==> |iexp| == t.env.nvar)
  {
    if t.Detached? || Degree(iexp) > t.env.nord then 0.0
    else
      var env := t.env;
      EnvTables(env);
      TableAtLoc(iexp, env.nord + 1);
      t.coef[Loc(iexp)]
  }

  /** Looking up each monomial of the table gives back its own coefficient. */
  lemma CoefOfTable(t: TVar, p: nat)
    requires t.Wf() && t.Attached? && p < |t.coef|
    ensures p < |t.env.expmon| && |t.env.expmon[p]| == t.env.nvar
    ensures CoefOf(t, t.env.expmon[p]) == t.coef[p]
  {
    EnvTables(t.env);
    LocOfTable(t.env.nvar, t.env.nord + 1, p);
  }

  /**
   `coefmon(iexp)` (lines 2206-2213), with the degree checked before the
   lookup: `_loc_expmon` is only defined up to degree nord (see Findings).
   */
  method CoefMon(t: TVar, iexp: seq<nat>) returns (c: real)
    requires t.Wf() && (t.Attached? ==> |iexp| == t.env.nvar)
    ensures t.Attached? && Degree(iexp) <= t.env.nord ==>
      Loc(iexp) < |t.coef| == |t.env.expmon| && t.env.expmon[Loc(iexp)] == iexp && c == t.coef[Loc(iexp)]
    ensures t.Detached? || Degree(iexp) > t.env.nord ==> c == 0.0
  {
    if t.Detached? {
      return 0.0;
    }
    if Degree(iexp) > t.env.nord {
      return 0.0;
    }
    EnvTables(t.env);
    var imon := LocExpmon(t.env, iexp);
    c := if imon < t.env.Nmon() then t.coef[imon] else 0.0;
  }
}
