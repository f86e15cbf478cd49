/**
 The variable data a Taylor model environment keeps besides its index
 tables: for every seeded variable the reference point, the scaling and the
 bounds on the powers of the scaled variable (`_set_bndpow`,
 MCpp/src/mc/tmodel.hpp lines 1234-1251), and from these the bounds on
 every monomial (`_set_bndmon`, lines 1253-1269). The options of the
 environment that the arithmetic reads are here too.
 */
module TaylorDomain {
  import opened TmResults
  import opened ExponentVectors
  import opened MonomialRank
  import opened TaylorEnvironment
  import opened Intervals

  /** The bounders `BOUNDER_TYPE` selects. */
  datatype Bounder = Naive | Lsb | EigenBounder | BernsteinBounder | Hybrid

  /** The options the modelled arithmetic reads; the defaults are LSB, no centring, no scaling. */
  datatype Options = Options(bounder: Bounder, centerRemainder: bool, scaleVariables: bool)

  const DefaultOptions: Options := Options(Lsb, false, false)

  /**
   A seeded variable: reference point and scaling as stored by
   `_set_bndpow`, and the range Xr of the scaled and shifted variable
   (X/scaling - ref). The table `_bndpow[ivar]` of bounds on Xr^0 .. Xr^nord
   is `PowBound` at 0 .. nord.
   */
  datatype VarScale = VarScale(ref: real, scaling: real, range: Interval)

  /**
   `_bndpow[ivar][d]` (lines 1246-1248): 1 for the power 0, the interval
   power of the range above. It holds the d-th power of every point of the
   range, and both of its ends are such powers.
   */
  function PowBound(v: VarScale, d: nat): (r: Interval)
    ensures forall x :: v.range.Contains(x) ==> r.Contains(RPow(x, d))
    ensures v.range.Proper() ==> exists x :: v.range.Contains(x) && RPow(x, d) == r.lo
    ensures v.range.Proper() ==> exists x :: v.range.Contains(x) && RPow(x, d) == r.hi
  {
    var r := if d == 0 then Point(1.0) else IPow(v.range, d);
    assert forall x | v.range.Contains(x) :: r.Contains(RPow(x, d)) by {
      forall x | v.range.Contains(x)
        ensures r.Contains(RPow(x, d))
      {
        IPowContains(v.range, x, d);
      }
    }
    assert v.range.Proper() ==>
      (exists x :: v.range.Contains(x) && RPow(x, d) == r.lo) && (exists x :: v.range.Contains(x) && RPow(x, d) == r.hi) by {
      if v.range.Proper() {
        IPowTight(v.range, d);
      }
    }
    r
  }

  predicate ScaleFits(v: VarScale)
  {
    v.scaling != 0.0
  }

  /** One entry per variable of the environment; None until the variable is seeded. */
  datatype Domain = Domain(vars: seq<Option<VarScale>>)
  {
    predicate Fits(env: Env)
    {
      |vars| == env.nvar
      && forall k :: 0 <= k < |vars| && vars[k].Some? ==> ScaleFits(vars[k].value)
    }

    /** Every variable has been seeded. */
    predicate Seeded()
    {
      forall k :: 0 <= k < |vars| ==> vars[k].Some?
    }
  }

  /** The domain of a fresh environment: `_size` leaves every `_bndpow[i]` null. */
  function NewDomain(env: Env): (dom: Domain)
    ensures dom.Fits(env)
    ensures forall k :: 0 <= k < |dom.vars| ==> dom.vars[k].None?
  {
    Domain(seq(env.nvar, _ => None))
  }

  /**
   `_set_bndpow(ivar, X, Xref, scaling)`: records the reference point
   Xref/scaling and the bounds on the powers of X/scaling - Xref/scaling.
   An index past the last variable is the INIT error.
   */
  function SetBndpow(env: Env, dom: Domain, ivar: nat, x: Interval, xref: real, scaling: real): (r: Result<Domain>)
    requires dom.Fits(env) && scaling != 0.0
    ensures r.Err? <==> ivar >= env.nvar
    ensures r.Err? ==> r.error == Init
    ensures r.Ok? ==> r.value.Fits(env) && r.value.vars[ivar].Some?
    ensures r.Ok? ==> forall k :: 0 <= k < env.nvar && k != ivar ==> r.value.vars[k] == dom.vars[k]
  {
    if ivar >= env.nvar then Err(Init)
    else
      var ref := xref / scaling;
      var xr := Sub(Scale(1.0 / scaling, x), Point(ref));
      Ok(Domain(dom.vars[ivar := Some(VarScale(ref, scaling, xr))]))
  }

  /** The scaled and shifted value of a variable, the quantity the monomials are powers of. */
  function Scaled(v: VarScale, x: real): real
    requires v.scaling != 0.0
  {
    x / v.scaling - v.ref
  }

  /** After seeding, the recorded range holds the scaled value of every point of X. */
  lemma SeededRange(env: Env, dom: Domain, ivar: nat, x: Interval, xref: real, scaling: real, p: real)
    requires dom.Fits(env) && scaling != 0.0 && ivar < env.nvar
    requires x.Contains(p)
    ensures SetBndpow(env, dom, ivar, x, xref, scaling).Ok?
    ensures var v := SetBndpow(env, dom, ivar, x, xref, scaling).value.vars[ivar].value;
      v.range.Contains(Scaled(v, p))
  {
    var k := 1.0 / scaling;
    ScaleContains(k, x, p);
    SubContains(Scale(k, x), Point(xref / scaling), k * p, xref / scaling);
    assert k * p == p / scaling;
  }

  // ---------------------------------------------------------------------------
  // Monomial bounds.
  // ---------------------------------------------------------------------------

  /**
   The product, over the first k variables that are seeded, of the bound on
   the power of that variable in exponent vector e. Unseeded variables are
   skipped, as in `_set_bndmon`.
   */
  function MonBound(dom: Domain, e: seq<nat>, k: nat): (r: Interval)
    requires k <= |e| == |dom.vars|
    ensures forall u :: InBox(dom, u) ==> r.Contains(MonValue(u, e, k))
  {
    if k == 0 then Point(1.0)
    else
      var b := MonBound(dom, e, k - 1);
      match dom.vars[k - 1]
      case None => b
      case Some(v) =>
        var r := Mul(b, PowBound(v, e[k - 1]));
        assert forall u | InBox(dom, u) :: r.Contains(MonValue(u, e, k)) by {
          forall u | InBox(dom, u)
            ensures r.Contains(MonValue(u, e, k))
          {
            assert v.range.Contains(u[k - 1]);
            MonValueStep(u, e, k);
            MulContainsAt(b, PowBound(v, e[k - 1]), MonValue(u, e, k - 1), RPow(u[k - 1], e[k - 1]), MonValue(u, e, k));
          }
        }
        r
  }

  /**
   `_bndmon[i]` (lines 1258-1263): 1 for the constant monomial, else the
   product over the seeded variables. It holds the value of monomial i
   anywhere in the box.
   */
  function Bndmon(env: Env, dom: Domain, i: nat): (r: Interval)
    requires env.Indexed() && dom.Fits(env) && i < env.Nmon()
    ensures i < |env.expmon| && |env.expmon[i]| == env.nvar
    ensures forall u :: InBox(dom, u) ==> r.Contains(MonValue(u, env.expmon[i], env.nvar))
  {
    ExpmonRow(env, i);
    if i == 0 then
      assert forall u | InBox(dom, u) :: MonValue(u, env.expmon[0], env.nvar) == 1.0 by {
        forall u | InBox(dom, u)
          ensures MonValue(u, env.expmon[0], env.nvar) == 1.0
        {
          TableFirst(env.nvar, env.nord);
          MonValueZeros(u, env.nvar);
        }
      }
      Point(1.0)
    else
      MonBound(dom, env.expmon[i], env.nvar)
  }

  /** Row i of the exponent table has one entry per variable and degree at most nord. */
  lemma ExpmonRow(env: Env, i: nat)
    requires env.Indexed() && i < env.Nmon()
    ensures i < |env.expmon| && |env.expmon[i]| == env.nvar && Degree(env.expmon[i]) <= env.nord
  {
    TableLength(env.nvar, env.nord + 1);
    LocOfTable(env.nvar, env.nord + 1, i);
  }

  /** The value of the monomial with exponents e at the scaled point u, over the first k variables. */
  function MonValue(u: seq<real>, e: seq<nat>, k: nat): real
    requires k <= |e| == |u|
  {
    if k == 0 then 1.0 else Times(MonValue(u, e, k - 1), RPow(u[k - 1], e[k - 1]))
  }

  /** The scaled point u lies in the range of every variable. */
  predicate InBox(dom: Domain, u: seq<real>)
  {
    |u| == |dom.vars| && dom.Seeded()
    && forall k :: 0 <= k < |u| ==> dom.vars[k].value.range.Contains(u[k])
  }

  lemma MonValueStep(u: seq<real>, e: seq<nat>, k: nat)
    requires 0 < k <= |e| == |u|
    ensures MonValue(u, e, k) == Times(MonValue(u, e, k - 1), RPow(u[k - 1], e[k - 1]))
  {
  }

  lemma BndmonContains(env: Env, dom: Domain, i: nat, u: seq<real>)
    requires env.Indexed() && dom.Fits(env) && i < env.Nmon() && InBox(dom, u)
    ensures i < |env.expmon| && |env.expmon[i]| == env.nvar
    ensures Bndmon(env, dom, i).Contains(MonValue(u, env.expmon[i], env.nvar))
  {
    ExpmonRow(env, i);
  }

  lemma {:induction false} MonValueZeros(u: seq<real>, k: nat)
    requires k <= |u|
    ensures MonValue(u, Zeros(|u|), k) == 1.0
  {
    if k > 0 {
      MonValueZeros(u, k - 1);
    }
  }
}
