/**
 What the exponent and product tables of a valid environment say about the
 monomials at given positions (MCpp/src/mc/tmodel.hpp, `_set_prodmon` lines
 1382-1424): monomials are ordered by degree, and row i of `_prodmon` lists
 the position of monomial i times monomial k for every k that keeps the
 product within the order.
 */
module ProductTable {
  import opened ExponentVectors
  import opened MonomialRank
  import opened TaylorEnvironment
  import opened TaylorDomain
  import opened Binomials

  /** Positions below block start c hold exactly the monomials of degree below c. */
  lemma DegreeBelow(env: Env, i: nat, c: nat)
    requires env.Indexed() && i < env.Nmon()
    ensures i < |env.expmon| && |env.expmon[i]| == env.nvar
    ensures i < Posord(env.nvar, c) <==> Degree(env.expmon[i]) < c
  {
    ExpmonRow(env, i);
    TableLength(env.nvar, env.nord + 1);
    LocOfTable(env.nvar, env.nord + 1, i);
    LocBelowPosord(env.expmon[i], c);
  }

  /** The number of monomials that monomial i can multiply without leaving the order. */
  function RowEnd(env: Env, i: nat): (m: nat)
    requires env.Indexed() && i < env.Nmon()
    ensures m <= env.Nmon()
  {
    ExpmonRow(env, i);
    PosordMonotone(env.nvar, env.nord + 1 - Degree(env.expmon[i]), env.nord + 1);
    Posord(env.nvar, env.nord + 1 - Degree(env.expmon[i]))
  }

  /** Monomial k lies inside row i exactly when monomials i and k multiply within the order. */
  lemma RowEndDegree(env: Env, i: nat, k: nat)
    requires env.Indexed() && i < env.Nmon() && k < env.Nmon()
    ensures i < |env.expmon| && k < |env.expmon|
    ensures k < RowEnd(env, i) <==> Degree(env.expmon[i]) + Degree(env.expmon[k]) <= env.nord
  {
    ExpmonRow(env, i);
    DegreeBelow(env, k, env.nord + 1 - Degree(env.expmon[i]));
  }

  /**
   Entry k+1 of row i of the product table is the position of the product
   of monomials i and k, a position of the table.
   */
  lemma ProdmonAt(env: Env, i: nat, k: nat)
    requires env.Valid() && i < env.Nmon() && k < RowEnd(env, i)
    ensures i < |env.expmon| && k < |env.expmon| && k < env.Nmon()
    ensures |env.expmon[i]| == env.nvar && |env.expmon[k]| == env.nvar
    ensures Degree(env.expmon[i]) + Degree(env.expmon[k]) <= env.nord
    ensures i < |env.prodmon| && |env.prodmon[i]| == RowEnd(env, i) + 1 && env.prodmon[i][0] == RowEnd(env, i)
    ensures env.prodmon[i][k + 1] == Loc(Plus(env.expmon[i], env.expmon[k])) < env.Nmon()
  {
    var n, d := env.nvar, env.nord;
    ExpmonRow(env, i);
    TableLength(n, d + 1);
    assert env.Nmon() == Posord(n, d + 1);
    assert ProdmonRow(env.prodmon[i], n, d, i);
    var e := env.expmon[i];
    ProductStaysInOrder(n, d, e, k, RowEnd(env, i));
    DegreePlus(e, env.expmon[k]);
    LocBelowPosord(Plus(e, env.expmon[k]), d + 1);
  }

  /** Monomial positions follow the degree: a later monomial never has a smaller degree. */
  lemma DegreeOrdered(env: Env, i: nat, j: nat)
    requires env.Indexed() && i <= j < env.Nmon()
    ensures i < |env.expmon| && j < |env.expmon|
    ensures Degree(env.expmon[i]) <= Degree(env.expmon[j])
  {
    ExpmonRow(env, j);
    var c := Degree(env.expmon[j]) + 1;
    DegreeBelow(env, j, c);
    DegreeBelow(env, i, c);
  }

  /** `_prodmon(i, k+1)`: the position of monomial i times monomial k. */
  function Prod(env: Env, i: nat, k: nat): (p: nat)
    requires env.Valid() && i < env.Nmon() && k < RowEnd(env, i)
    ensures p < env.Nmon()
  {
    ProdmonAt(env, i, k);
    env.prodmon[i][k + 1]
  }

  /** Block 1 holds the nvar monomials of degree 1, at positions 1 .. nvar. */
  lemma FirstBlock(n: nat)
    requires n >= 1
    ensures Posord(n, 1) == 1 && Posord(n, 2) == n + 1
  {
    BinomOne(n);
  }

  /**
   With an order of at least 2, monomials 1 .. nvar have degree 1 and every
   monomial of degree 1 lies inside their rows of the product table.
   */
  lemma LinearRow(env: Env, i: nat, k: nat)
    requires env.Indexed() && env.nord >= 2 && 1 <= i <= env.nvar && k <= env.nvar
    ensures i < env.Nmon() && k < RowEnd(env, i)
    ensures i < |env.expmon| && Degree(env.expmon[i]) == 1
  {
    FirstBlock(env.nvar);
    PosordMonotone(env.nvar, 2, env.nord + 1);
    DegreeBelow(env, i, 1);
    DegreeBelow(env, i, 2);
    PosordMonotone(env.nvar, 2, env.nord);
  }
}
