/**
 The Taylor variable `TVar<T>` of MCpp/src/mc/tmodel.hpp: a polynomial in
 the scaled variables, stored as one coefficient per monomial of the
 environment, together with a bound per degree block (`_bndord`) whose last
 slot is the remainder. A variable without an environment (`_TM == 0`)
 holds a single coefficient and its remainder.

 The polynomial part is evaluated at scaled points u (one entry per
 variable, u[k] = x[k]/scaling[k] - ref[k]); a Taylor variable encloses a
 real value v at u when v minus the polynomial lies in the remainder.
 */
module TaylorVariables {
  import opened TmResults
  import opened ExponentVectors
  import opened MonomialRank
  import opened TaylorEnvironment
  import opened Intervals
  import opened TaylorDomain

  /**
   Detached: `_TM` is null, the coefficient `_coefmon[0]` and the remainder.
   Attached: the environment, nmon coefficients and nord+2 bounds, the last
   of which is the remainder `_bndrem`.
   */
  datatype TVar =
    | Detached(coef0: real, rem: Interval)
    | Attached(env: Env, coef: seq<real>, bndord: seq<Interval>)
  {
    ghost predicate Wf()
    {
      Attached? ==> env.Valid() && |coef| == env.Nmon() && |bndord| == env.nord + 2
    }

    /** `constant()`: the coefficient of the constant monomial. */
    function Constant(): real
      requires Wf()
    {
      if Detached? then coef0 else EnvTables(env); coef[0]
    }

    /** `remainder()`. */
    function Remainder(): Interval
      requires Wf()
    {
      if Detached? then rem else bndord[env.nord + 1]
    }
  }

  /** The facts about the tables of a valid environment the arithmetic reads. */
  lemma EnvTables(env: Env)
    requires env.Indexed()
    ensures |env.posord| == env.nord + 2 && env.posord[0] == 0 && env.posord[1] == 1
    ensures env.Nmon() == env.posord[env.nord + 1] == |env.expmon| >= 1
    ensures forall d :: 0 <= d <= env.nord ==> env.posord[d] < env.posord[d + 1]
    ensures forall d :: 0 <= d <= env.nord + 1 ==> env.posord[d] <= env.Nmon()
    ensures forall d :: 1 <= d <= env.nord + 1 ==> 1 <= env.posord[d]
    ensures forall d, e :: 0 <= d <= e <= env.nord + 1 ==> env.posord[d] <= env.posord[e]
    ensures |env.expmon[0]| == env.nvar && env.expmon[0] == Zeros(env.nvar)
  {
    TableLength(env.nvar, env.nord + 1);
    TableFirst(env.nvar, env.nord);
    PosordFacts(env.nvar, env.nord);
  }

  /** Block starts rise strictly from 0, with the second block starting at 1. */
  lemma PosordFacts(n: nat, nord: nat)
    requires n >= 1
    ensures Posord(n, 0) == 0 && Posord(n, 1) == 1
    ensures forall d :: 0 <= d <= nord ==> Posord(n, d) < Posord(n, d + 1)
    ensures forall d :: 0 <= d <= nord + 1 ==> Posord(n, d) <= Posord(n, nord + 1)
    ensures forall d :: 1 <= d <= nord + 1 ==> 1 <= Posord(n, d)
    ensures forall d, e :: 0 <= d <= e ==> Posord(n, d) <= Posord(n, e)
  {
    forall d, e | 0 <= d <= e
      ensures Posord(n, d) <= Posord(n, e)
    {
      PosordMonotone(n, d, e);
    }
    assert Count(n, 0) == 1 by {
      PosordClosed(n, 1);
    }
    forall d | 0 <= d <= nord
      ensures Posord(n, d) < Posord(n, d + 1)
    {
      CountPositive(n, d);
    }
    forall d | 0 <= d <= nord + 1
      ensures Posord(n, d) <= Posord(n, nord + 1)
    {
      PosordMonotone(n, d, nord + 1);
    }
    forall d | 1 <= d <= nord + 1
      ensures 1 <= Posord(n, d)
    {
      PosordMonotone(n, 1, d);
    }
  }

  // ---------------------------------------------------------------------------
  // The polynomial part and its block bounds.
  // ---------------------------------------------------------------------------

  /** Sum over lo <= j < hi of coef[j] times the value of monomial j at u. */
  function TermSum(env: Env, coef: seq<real>, u: seq<real>, lo: nat, hi: nat): real
    requires env.Indexed() && |u| == env.nvar && hi <= |coef| && hi <= env.Nmon()
    decreases hi
  {
    if hi <= lo then 0.0
    else
      ExpmonRow(env, hi - 1);
      TermSum(env, coef, u, lo, hi - 1) + Times(coef[hi - 1], MonValue(u, env.expmon[hi - 1], env.nvar))
  }

  /** The bound `_update_bndord` computes for the monomials lo <= j < hi. */
  function BlockSum(env: Env, dom: Domain, coef: seq<real>, lo: nat, hi: nat): Interval
    requires env.Indexed() && dom.Fits(env) && hi <= |coef| && hi <= env.Nmon()
    decreases hi
  {
    if hi <= lo then Point(0.0)
    else Add(BlockSum(env, dom, coef, lo, hi - 1), Scale(coef[hi - 1], Bndmon(env, dom, hi - 1)))
  }

  /** The bound on the terms of degree d, as `_update_bndord` sums it. */
  function BlockAt(env: Env, dom: Domain, coef: seq<real>, d: nat): Interval
    requires env.Indexed() && dom.Fits(env) && |coef| == env.Nmon() && 1 <= d <= env.nord
  {
    EnvTables(env);
    BlockSum(env, dom, coef, env.posord[d], env.posord[d + 1])
  }

  /** The value at u of the terms of degree d of the polynomial part. */
  function BlockValue(env: Env, coef: seq<real>, u: seq<real>, d: nat): real
    requires env.Indexed() && |u| == env.nvar && |coef| == env.Nmon() && d <= env.nord
  {
    EnvTables(env);
    if d == 0 then coef[0] else TermSum(env, coef, u, env.posord[d], env.posord[d + 1])
  }

  /** The polynomial part of a Taylor variable at the scaled point u. */
  function PolyValue(t: TVar, u: seq<real>): real
    requires t.Wf() && (t.Attached? ==> |u| == t.env.nvar)
  {
    match t
    case Detached(c, _) => c
    case Attached(env, coef, _) =>
      EnvTables(env);
      coef[0] + TermSum(env, coef, u, 1, env.Nmon())
  }

  /** t encloses the value v at the scaled point u. */
  ghost predicate Encloses(t: TVar, u: seq<real>, v: real)
    requires t.Wf() && (t.Attached? ==> |u| == t.env.nvar)
  {
    t.Remainder().Contains(v - PolyValue(t, u))
  }

  /** The block bounds are those `_update_bndord` leaves, and slot 0 is the constant. */
  ghost predicate Consistent(dom: Domain, t: TVar)
    requires t.Wf() && (t.Attached? ==> dom.Fits(t.env))
  {
    if t.Detached? then true
    else
      EnvTables(t.env);
      && t.bndord[0] == Point(t.coef[0])
      && forall d :: 1 <= d <= t.env.nord ==> t.bndord[d] == BlockAt(t.env, dom, t.coef, d)
  }

  /** Every block bound holds the value of its block anywhere in the box of dom. */
  ghost predicate BndordSound(dom: Domain, t: TVar)
    requires t.Wf()
  {
    t.Attached? ==> forall u :: InBox(dom, u) && |u| == t.env.nvar ==> BlocksHoldAt(t, u)
  }

  /** Every block bound holds the value of its block at u. */
  ghost predicate BlocksHoldAt(t: TVar, u: seq<real>)
    requires t.Wf() && t.Attached? && |u| == t.env.nvar
  {
    forall d :: 0 <= d <= t.env.nord ==> t.bndord[d].Contains(BlockValue(t.env, t.coef, u, d))
  }

  /** Same environment, same coefficients. */
  predicate SameCoefs(a: TVar, b: TVar)
  {
    && a.Attached? == b.Attached?
    && (a.Detached? ==> a.coef0 == b.coef0)
    && (a.Attached? ==> a.env == b.env && a.coef == b.coef)
  }

  /** The block sum holds the sum of the terms it bounds. */
  lemma {:induction false} BlockSumContains(env: Env, dom: Domain, coef: seq<real>, u: seq<real>, lo: nat, hi: nat)
    requires env.Indexed() && dom.Fits(env) && hi <= |coef| && hi <= env.Nmon()
    requires InBox(dom, u) && |u| == env.nvar
    ensures BlockSum(env, dom, coef, lo, hi).Contains(TermSum(env, coef, u, lo, hi))
    decreases hi
  {
    if hi > lo {
      BlockSumContains(env, dom, coef, u, lo, hi - 1);
      BndmonContains(env, dom, hi - 1, u);
      var m := MonValue(u, env.expmon[hi - 1], env.nvar);
      var b := Bndmon(env, dom, hi - 1);
      ScaleContainsAt(coef[hi - 1], b, m, Times(coef[hi - 1], m));
      AddContains(BlockSum(env, dom, coef, lo, hi - 1), Scale(coef[hi - 1], b),
        TermSum(env, coef, u, lo, hi - 1), Times(coef[hi - 1], m));
    }
  }

  /** Block bounds computed as `_update_bndord` does are sound over the box. */
  lemma ConsistentSound(dom: Domain, t: TVar)
    requires t.Wf() && (t.Attached? ==> dom.Fits(t.env)) && Consistent(dom, t)
    ensures BndordSound(dom, t)
  {
    if t.Attached? {
      EnvTables(t.env);
      forall u, d | InBox(dom, u) && |u| == t.env.nvar && 0 <= d <= t.env.nord
        ensures t.bndord[d].Contains(BlockValue(t.env, t.coef, u, d))
      {
        if d > 0 {
          BlockSumContains(t.env, dom, t.coef, u, t.env.posord[d], t.env.posord[d + 1]);
        }
      }
    }
  }

  /** The block bounds of coef, with `last` in the remainder slot. */
  function BlockBounds(env: Env, dom: Domain, coef: seq<real>, last: Interval): (b: seq<Interval>)
    requires env.Indexed() && dom.Fits(env) && |coef| == env.Nmon() && |coef| >= 1
    ensures |b| == env.nord + 2 && b[env.nord + 1] == last
    ensures b[0] == Point(coef[0])
    ensures forall d :: 1 <= d <= env.nord ==> b[d] == BlockAt(env, dom, coef, d)
  {
    EnvTables(env);
    seq(env.nord + 2, d requires 0 <= d < env.nord + 2 =>
      if d == 0 then Point(coef[0])
      else if d <= env.nord then BlockAt(env, dom, coef, d)
      else last)
  }

  /**
   `_update_bndord` (lines 1918-1929): slot 0 takes the constant coefficient
   and slot d the bound on the terms of degree d; a detached variable is
   left alone.
   */
  function UpdateBndord(dom: Domain, t: TVar): (r: TVar)
    requires t.Wf() && (t.Attached? ==> dom.Fits(t.env))
    ensures r.Wf() && SameCoefs(r, t) && r.Remainder() == t.Remainder()
    ensures Consistent(dom, r) && BndordSound(dom, r)
  {
    match t
    case Detached(_, _) => t
    case Attached(env, coef, bndord) =>
      EnvTables(env);
      var r := Attached(env, coef, BlockBounds(env, dom, coef, bndord[env.nord + 1]));
      ConsistentSound(dom, r);
      r
  }

  // ---------------------------------------------------------------------------
  // Sums of terms: frames, zeros, a single term, linearity.
  // ---------------------------------------------------------------------------

  /** The sum over [lo, hi) reads only the coefficients in [lo, hi). */
  lemma {:induction false} TermSumFrame(env: Env, a: seq<real>, b: seq<real>, u: seq<real>, lo: nat, hi: nat)
    requires env.Indexed() && |u| == env.nvar && hi <= |a| && hi <= |b| && hi <= env.Nmon()
    requires forall j :: lo <= j < hi ==> a[j] == b[j]
    ensures TermSum(env, a, u, lo, hi) == TermSum(env, b, u, lo, hi)
    decreases hi
  {
    if hi > lo {
      TermSumFrame(env, a, b, u, lo, hi - 1);
    }
  }

  lemma {:induction false} BlockSumFrame(env: Env, dom: Domain, a: seq<real>, b: seq<real>, lo: nat, hi: nat)
    requires env.Indexed() && dom.Fits(env) && hi <= |a| && hi <= |b| && hi <= env.Nmon()
    requires forall j :: lo <= j < hi ==> a[j] == b[j]
    ensures BlockSum(env, dom, a, lo, hi) == BlockSum(env, dom, b, lo, hi)
    decreases hi
  {
    if hi > lo {
      BlockSumFrame(env, dom, a, b, lo, hi - 1);
    }
  }

  /** Block bounds of degree 1 and up do not read the constant coefficient. */
  lemma BlockAtFrame(env: Env, dom: Domain, a: seq<real>, b: seq<real>)
    requires env.Indexed() && dom.Fits(env) && |a| == |b| == env.Nmon()
    requires forall j :: 1 <= j < |a| ==> a[j] == b[j]
    ensures forall d :: 1 <= d <= env.nord ==> BlockAt(env, dom, a, d) == BlockAt(env, dom, b, d)
  {
    EnvTables(env);
    forall d | 1 <= d <= env.nord
      ensures BlockAt(env, dom, a, d) == BlockAt(env, dom, b, d)
    {
      BlockSumFrame(env, dom, a, b, env.posord[d], env.posord[d + 1]);
    }
  }

  /** Terms with zero coefficients sum to zero. */
  lemma {:induction false} TermSumZero(env: Env, a: seq<real>, u: seq<real>, lo: nat, hi: nat)
    requires env.Indexed() && |u| == env.nvar && hi <= |a| && hi <= env.Nmon()
    requires forall j :: lo <= j < hi ==> a[j] == 0.0
    ensures TermSum(env, a, u, lo, hi) == 0.0
    decreases hi
  {
    if hi > lo {
      TermSumZero(env, a, u, lo, hi - 1);
    }
  }

  lemma {:induction false} BlockSumZero(env: Env, dom: Domain, a: seq<real>, lo: nat, hi: nat)
    requires env.Indexed() && dom.Fits(env) && hi <= |a| && hi <= env.Nmon()
    requires forall j :: lo <= j < hi ==> a[j] == 0.0
    ensures BlockSum(env, dom, a, lo, hi) == Point(0.0)
    decreases hi
  {
    if hi > lo {
      BlockSumZero(env, dom, a, lo, hi - 1);
    }
  }

  /** With a single nonzero coefficient, at p, the sum is that one term. */
  lemma {:induction false} TermSumSingle(env: Env, a: seq<real>, u: seq<real>, lo: nat, hi: nat, p: nat)
    requires env.Indexed() && |u| == env.nvar && hi <= |a| && hi <= env.Nmon()
    requires lo <= p < hi
    requires forall j :: lo <= j < hi && j != p ==> a[j] == 0.0
    ensures p < |env.expmon| && |env.expmon[p]| == env.nvar
    ensures TermSum(env, a, u, lo, hi) == Times(a[p], MonValue(u, env.expmon[p], env.nvar))
    decreases hi
  {
    ExpmonRow(env, p);
    if hi - 1 == p {
      TermSumZero(env, a, u, lo, hi - 1);
    } else {
      TermSumSingle(env, a, u, lo, hi - 1, p);
    }
  }

  /** Sums of terms are additive in the coefficients: r = a + b termwise. */
  lemma {:induction false} TermSumAdd(env: Env, a: seq<real>, b: seq<real>, r: seq<real>, u: seq<real>, lo: nat, hi: nat)
    requires env.Indexed() && |u| == env.nvar && hi <= |a| && hi <= |b| && hi <= |r| && hi <= env.Nmon()
    requires forall j :: lo <= j < hi ==> r[j] == a[j] + b[j]
    ensures TermSum(env, r, u, lo, hi) == TermSum(env, a, u, lo, hi) + TermSum(env, b, u, lo, hi)
    decreases hi
  {
    if hi > lo {
      TermSumAdd(env, a, b, r, u, lo, hi - 1);
      ExpmonRow(env, hi - 1);
      var m := MonValue(u, env.expmon[hi - 1], env.nvar);
      assert TermSum(env, a, u, lo, hi) == TermSum(env, a, u, lo, hi - 1) + Times(a[hi - 1], m);
      assert TermSum(env, b, u, lo, hi) == TermSum(env, b, u, lo, hi - 1) + Times(b[hi - 1], m);
      assert TermSum(env, r, u, lo, hi) == TermSum(env, r, u, lo, hi - 1) + Times(r[hi - 1], m);
      TimesAdd(a[hi - 1], b[hi - 1], r[hi - 1], m);
    } else {
      assert TermSum(env, a, u, lo, hi) == 0.0 == TermSum(env, b, u, lo, hi) == TermSum(env, r, u, lo, hi);
    }
  }

  lemma TimesAdd(x: real, y: real, z: real, m: real)
    requires z == x + y
    ensures Times(z, m) == Times(x, m) + Times(y, m)
  {
  }

  /** Sums of terms are subtractive in the coefficients: r = a - b termwise. */
  lemma {:induction false} TermSumSubtract(env: Env, a: seq<real>, b: seq<real>, r: seq<real>, u: seq<real>, lo: nat, hi: nat)
    requires env.Indexed() && |u| == env.nvar && hi <= |a| && hi <= |b| && hi <= |r| && hi <= env.Nmon()
    requires forall j :: lo <= j < hi ==> r[j] == a[j] - b[j]
    ensures TermSum(env, r, u, lo, hi) == TermSum(env, a, u, lo, hi) - TermSum(env, b, u, lo, hi)
    decreases hi
  {
    if hi > lo {
      TermSumSubtract(env, a, b, r, u, lo, hi - 1);
      ExpmonRow(env, hi - 1);
      var m := MonValue(u, env.expmon[hi - 1], env.nvar);
      assert TermSum(env, a, u, lo, hi) == TermSum(env, a, u, lo, hi - 1) + Times(a[hi - 1], m);
      assert TermSum(env, b, u, lo, hi) == TermSum(env, b, u, lo, hi - 1) + Times(b[hi - 1], m);
      assert TermSum(env, r, u, lo, hi) == TermSum(env, r, u, lo, hi - 1) + Times(r[hi - 1], m);
      TimesSubtract(a[hi - 1], b[hi - 1], r[hi - 1], m);
    } else {
      assert TermSum(env, a, u, lo, hi) == 0.0 == TermSum(env, b, u, lo, hi) == TermSum(env, r, u, lo, hi);
    }
  }

  lemma TimesSubtract(x: real, y: real, z: real, m: real)
    requires z == x - y
    ensures Times(z, m) == Times(x, m) - Times(y, m)
  {
  }

  /** A sum of terms splits at any point of its range. */
  lemma {:induction false} TermSumSplit(env: Env, a: seq<real>, u: seq<real>, lo: nat, mid: nat, hi: nat)
    requires env.Indexed() && |u| == env.nvar && hi <= |a| && hi <= env.Nmon() && lo <= mid <= hi
    ensures TermSum(env, a, u, lo, hi) == TermSum(env, a, u, lo, mid) + TermSum(env, a, u, mid, hi)
    decreases hi
  {
    if hi > mid {
      TermSumSplit(env, a, u, lo, mid, hi - 1);
    }
  }

  /** Sums of terms are homogeneous in the coefficients: r = k*a termwise. */
  lemma {:induction false} TermSumScale(env: Env, a: seq<real>, k: real, r: seq<real>, u: seq<real>, lo: nat, hi: nat)
    requires env.Indexed() && |u| == env.nvar && hi <= |a| && hi <= |r| && hi <= env.Nmon()
    requires forall j :: lo <= j < hi ==> r[j] == k * a[j]
    ensures TermSum(env, r, u, lo, hi) == k * TermSum(env, a, u, lo, hi)
    decreases hi
  {
    if hi > lo {
      TermSumScale(env, a, k, r, u, lo, hi - 1);
      ExpmonRow(env, hi - 1);
      var m := MonValue(u, env.expmon[hi - 1], env.nvar);
      assert TermSum(env, a, u, lo, hi) == TermSum(env, a, u, lo, hi - 1) + Times(a[hi - 1], m);
      assert TermSum(env, r, u, lo, hi) == TermSum(env, r, u, lo, hi - 1) + Times(r[hi - 1], m);
      ScaleSumStep(k, TermSum(env, a, u, lo, hi - 1), TermSum(env, r, u, lo, hi - 1), a[hi - 1], r[hi - 1], m,
        TermSum(env, a, u, lo, hi), TermSum(env, r, u, lo, hi));
    } else {
      assert TermSum(env, a, u, lo, hi) == 0.0 == TermSum(env, r, u, lo, hi);
    }
  }

  /** One more term keeps a sum k times another when the new coefficient is k times the other's. */
  lemma ScaleSumStep(k: real, sa: real, sr: real, x: real, y: real, m: real, ta: real, tr: real)
    requires sr == k * sa && y == k * x && ta == sa + Times(x, m) && tr == sr + Times(y, m)
    ensures tr == k * ta
  {
    assert Times(y, m) == k * Times(x, m);
  }

  // ---------------------------------------------------------------------------
  // Centring the remainder.
  // ---------------------------------------------------------------------------

  /**
   `_center_TM` (lines 1931-1938): moves the midpoint of the remainder into
   the constant coefficient (and slot 0 of an attached variable), leaving a
   remainder centred on zero.
   */
  function Center(t: TVar): (r: TVar)
    requires t.Wf()
    ensures r.Wf() && r.Attached? == t.Attached?
    ensures Mid(r.Remainder()) == 0.0
    ensures Diam(r.Remainder()) == Diam(t.Remainder())
    ensures r.Attached? ==> r.env == t.env && forall j :: 1 <= j < |r.coef| ==> r.coef[j] == t.coef[j]
  {
    var m := Mid(t.Remainder());
    match t
    case Detached(c, rem) => Detached(c + m, Sub(rem, Point(m)))
    case Attached(env, coef, bndord) =>
      EnvTables(env);
      var c0 := coef[0] + m;
      Attached(env, coef[0 := c0], bndord[0 := Point(c0)][env.nord + 1 := Sub(bndord[env.nord + 1], Point(m))])
  }

  /** Centring shifts the polynomial part by the old midpoint. */
  lemma CenterValue(t: TVar, u: seq<real>)
    requires t.Wf() && (t.Attached? ==> |u| == t.env.nvar)
    ensures PolyValue(Center(t), u) == PolyValue(t, u) + Mid(t.Remainder())
  {
    if t.Attached? {
      EnvTables(t.env);
      TermSumFrame(t.env, Center(t).coef, t.coef, u, 1, t.env.Nmon());
    }
  }

  /** Centring changes what a Taylor variable encloses in no way. */
  lemma CenterEncloses(t: TVar, u: seq<real>, v: real)
    requires t.Wf() && (t.Attached? ==> |u| == t.env.nvar)
    ensures Encloses(Center(t), u, v) <==> Encloses(t, u, v)
  {
    CenterValue(t, u);
  }

  /** Centring twice is centring once. */
  lemma CenterIdempotent(t: TVar)
    requires t.Wf()
    ensures Center(Center(t)) == Center(t)
  {
    var c := Center(t);
    if t.Attached? {
      EnvTables(t.env);
      assert Center(c).coef == c.coef;
      assert Center(c).bndord == c.bndord;
    }
  }

  /** Centring keeps the block bounds those of `_update_bndord`. */
  lemma CenterConsistent(dom: Domain, t: TVar)
    requires t.Wf() && (t.Attached? ==> dom.Fits(t.env)) && Consistent(dom, t)
    ensures Consistent(dom, Center(t))
  {
    if t.Attached? {
      EnvTables(t.env);
      BlockAtFrame(t.env, dom, Center(t).coef, t.coef);
    }
  }
}
