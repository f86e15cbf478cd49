/**
 The Taylor model environment `TModel<T>` (MCpp/src/mc/tmodel.hpp): the
 number of variables and the order, and the index tables built once by
 `_size` (lines 1203-1232): binomial coefficients, block starts `posord`,
 the exponent table `expmon` and the product table `prodmon`.

 The C++ environment is an object that Taylor variables point to; two
 variables belong to the same environment when the pointers are equal. The
 model gives each environment an `id` and compares ids.
 */
module TaylorEnvironment {
  import opened TmResults
  import opened Binomials
  import opened ExponentVectors
  import opened MonomialRank
  import opened ExponentSuccessor

  /** Largest value of a 32-bit `unsigned int`, the type of monomial indices. */
  const UintMax: nat := 4294967295

  datatype Env = Env(
    id: nat,
    nvar: nat,
    nord: nat,
    binom: seq<nat>,
    posord: seq<nat>,
    expmon: seq<seq<nat>>,
    prodmon: seq<seq<nat>>)
  {
    /** Number of monomials of degree at most nord. */
    function Nmon(): nat
    {
      if |posord| == nord + 2 then posord[nord + 1] else 0
    }

    /** The binomial, block-start and exponent tables are those `_size` builds. */
    ghost predicate Indexed()
    {
      && nvar >= 1
      && TableFilled(binom, nvar, nord)
      && PosordFilled(posord, nvar, nord)
      && expmon == Table(nvar, nord + 1)
    }

    /** Every table is the one `_size` builds. */
    ghost predicate Valid()
    {
      Indexed() && ProdmonFilled(prodmon, nvar, nord)
    }
  }

  ghost predicate PosordFilled(posord: seq<nat>, nvar: nat, nord: nat)
    requires nvar >= 1
  {
    |posord| == nord + 2 && forall d :: 0 <= d <= nord + 1 ==> posord[d] == Posord(nvar, d)
  }

  /**
   Row j of the product table: its first entry m says how many monomials k
   can multiply monomial j without leaving degree nord, and entry k+1 is the
   position of the product of monomials j and k.
   */
  ghost predicate ProdmonRow(row: seq<nat>, nvar: nat, nord: nat, j: nat)
    requires nvar >= 1 && j < Posord(nvar, nord + 1)
  {
    TableLength(nvar, nord + 1);
    LocOfTable(nvar, nord + 1, j);
    var t := Table(nvar, nord + 1);
    var e := t[j];
    var m := Posord(nvar, nord + 1 - Degree(e));
    && |row| == m + 1
    && row[0] == m
    && forall k :: 0 <= k < m ==>
         k < |t| && |t[k]| == nvar && row[k + 1] == Loc(Plus(e, t[k]))
  }

  ghost predicate ProdmonFilled(prodmon: seq<seq<nat>>, nvar: nat, nord: nat)
    requires nvar >= 1
  {
    |prodmon| == Posord(nvar, nord + 1)
    && forall j :: 0 <= j < |prodmon| ==> ProdmonRow(prodmon[j], nvar, nord, j)
  }

  // ---------------------------------------------------------------------------
  // Construction.
  // ---------------------------------------------------------------------------

  /**
   `_size`: an environment with nvar variables and order nord. Zero
   variables is the SIZE error; more monomials than an `unsigned int` can
   count is the MAXSIZE error raised while the block starts are computed.
   */
  method Size(id: nat, nvar: nat, nord: nat) returns (r: Result<Env>)
    ensures nvar == 0 ==> r == Err(TmError.Size)
    ensures nvar >= 1 ==> (r.Ok? <==> Posord(nvar, nord + 1) <= UintMax)
    ensures nvar >= 1 && r.Err? ==> r.error == MaxSize
    ensures r.Ok? ==>
      && r.value.Valid() && r.value.id == id
      && r.value.nvar == nvar && r.value.nord == nord
      && r.value.Nmon() == Binom(nvar + nord, nord)
  {
    if nvar == 0 {
      return Err(TmError.Size);
    }
    var binom := SetBinom(nvar, nord);
    var posord := SetPosord(binom, nvar, nord);
    if posord.Err? {
      return Err(posord.error);
    }
    var expmon := SetExpmon(nvar, nord, posord.value);
    var env := Env(id, nvar, nord, binom, posord.value, expmon, []);
    var prodmon := SetProdmon(env);
    PosordClosed(nvar, nord + 1);
    return Ok(env.(prodmon := prodmon));
  }

  /**
   `_set_posord`: posord[0] = 0, posord[1] = 1 and each further block start
   adds the size of the block before it, failing with MAXSIZE once a start
   no longer fits an `unsigned int`.
   */
  method SetPosord(binom: seq<nat>, nvar: nat, nord: nat) returns (r: Result<seq<nat>>)
    requires nvar >= 1 && TableFilled(binom, nvar, nord)
    ensures r.Ok? <==> Posord(nvar, nord + 1) <= UintMax
    ensures r.Ok? ==> PosordFilled(r.value, nvar, nord)
    ensures r.Err? ==> r.error == MaxSize
  {
    var posord := [0, 1];
    var i := 1;
    while i <= nord
      invariant 1 <= i <= nord + 1
      invariant |posord| == i + 1
      invariant forall d :: 0 <= d <= i ==> posord[d] == Posord(nvar, d)
      invariant Posord(nvar, i) <= UintMax
    {
      var next := posord[i] + GetBinom(binom, nvar, nord, nvar + i - 1, i);
      PosordNext(nvar, i, posord[i], next);
      if next > UintMax {
        PosordExceeds(nvar, i + 1, nord + 1, next);
        return Err(MaxSize);
      }
      PosordSnoc(posord, nvar, i, next);
      posord := posord + [next];
      i := i + 1;
    }
    return Ok(posord);
  }

  /** One step of `_set_posord`: the next block start adds the size of the current block. */
  lemma PosordNext(n: nat, i: nat, p: nat, next: nat)
    requires n >= 1 && p == Posord(n, i) && next == p + Binom(n + i - 1, i)
    ensures next == Posord(n, i + 1)
  {
    assert n - 1 + i == n + i - 1;
  }

  lemma PosordExceeds(n: nat, d: nat, e: nat, p: nat)
    requires n >= 1 && d <= e && p == Posord(n, d) && p > UintMax
    ensures Posord(n, e) > UintMax
  {
    PosordMonotone(n, d, e);
  }

  lemma PosordSnoc(posord: seq<nat>, n: nat, i: nat, next: nat)
    requires n >= 1 && |posord| == i + 1 && next == Posord(n, i + 1)
    requires forall d :: 0 <= d <= i ==> posord[d] == Posord(n, d)
    ensures forall d :: 0 <= d <= i + 1 ==> (posord + [next])[d] == Posord(n, d)
  {
  }

  /**
   `_set_expmon`: row 0 is the zero vector; the rows of degree i are produced
   by `_next_expmon` from the zero vector, one per row of the block.
   */
  method SetExpmon(nvar: nat, nord: nat, posord: seq<nat>) returns (expmon: seq<seq<nat>>)
    requires nvar >= 1 && PosordFilled(posord, nvar, nord)
    ensures expmon == Table(nvar, nord + 1)
  {
    TableOne(nvar);
    expmon := [Zeros(nvar)];
    var i := 1;
    while i <= nord
      invariant 1 <= i <= nord + 1
      invariant expmon == Table(nvar, i)
    {
      var done := ExpmonBlock(nvar, i, posord[i], posord[i + 1]);
      expmon := expmon + done;
      i := i + 1;
    }
  }

  /** Each call of `_next_expmon` in `_set_expmon` yields the next row of the block. */
  lemma NextRow(nvar: nat, i: nat, k: nat, iexp: seq<nat>)
    requires nvar >= 1 && i >= 1 && k < Count(nvar, i)
    requires iexp == if k == 0 then Zeros(nvar) else Unrank(nvar, i, k - 1)
    ensures |iexp| >= 1 && Digits(iexp, i + 1)
    ensures NextExpmon(iexp, i) == Some(Unrank(nvar, i, k))
  {
    if k == 0 {
      NextExpmonFromZeros(nvar, i);
    } else {
      var j := k - 1;
      assert iexp == Unrank(nvar, i, j);
      NextExpmonInBlock(nvar, i, j);
      assert j + 1 == k;
    }
  }

  lemma PrefixSnoc<T>(s: seq<T>, k: nat)
    requires k < |s|
    ensures s[..k] + [s[k]] == s[..k + 1]
  {
  }

  lemma TableOne(nvar: nat)
    requires nvar >= 1
    ensures Table(nvar, 1) == [Zeros(nvar)]
  {
    DegreeZeroOnlyZeros(Unrank(nvar, 0, 0));
    assert Count(nvar, 0) == 1;
    assert Block(nvar, 0)[0] == Zeros(nvar);
  }

  /** The rows posord[i] .. posord[i+1]-1 of `_set_expmon`: block i, in order. */
  method ExpmonBlock(nvar: nat, i: nat, first: nat, last: nat) returns (done: seq<seq<nat>>)
    requires nvar >= 1 && i >= 1
    requires first == Posord(nvar, i) && last == Posord(nvar, i + 1)
    ensures done == Block(nvar, i)
  {
    var iexp := Zeros(nvar);
    var j := first;
    done := [];
    ghost var block := Block(nvar, i);
    assert last == first + Count(nvar, i) && |block| == Count(nvar, i);
    while j < last
      invariant first <= j <= last
      invariant |done| == j - first
      invariant done == block[..|done|]
      invariant iexp == if |done| == 0 then Zeros(nvar) else Unrank(nvar, i, |done| - 1)
    {
      ghost var k := |done|;
      NextRow(nvar, i, k, iexp);
      iexp := NextExpmon(iexp, i).value;
      assert iexp == block[k];
      PrefixSnoc(block, k);
      done := done + [iexp];
      j := j + 1;
    }
  }

  /**
   `_loc_expmon`: the position of exponent vector iexp in the table. The
   degree must not exceed the order (see the findings on `_get_binom`).
   */
  method LocExpmon(env: Env, iexp: seq<nat>) returns (pos: nat)
    requires env.Indexed() && |iexp| == env.nvar && Degree(iexp) <= env.nord
    ensures pos == Loc(iexp)
    ensures pos < |env.expmon| && env.expmon[pos] == iexp
  {
    var nvar := env.nvar;
    var ord := Degree(iexp);
    pos := env.posord[ord];
    var p := nvar;
    var i := 0;
    while i < nvar - 1
      invariant 0 <= i <= nvar - 1
      invariant p == nvar - i
      invariant ord == Degree(iexp[i..]) <= env.nord
      invariant pos + Offset(iexp[i..]) == Loc(iexp)
    {
      p := p - 1;
      var j := 0;
      var start := pos;
      assert iexp[i..][1..] == iexp[i + 1..];
      while j < iexp[i]
        invariant 0 <= j <= iexp[i]
        invariant pos == start + Inner(p - 1, ord, j)
      {
        pos := pos + GetBinom(env.binom, nvar, env.nord, p - 1 + ord - j, ord - j);
        j := j + 1;
      }
      ord := ord - iexp[i];
      i := i + 1;
    }
    TableAtLoc(iexp, env.nord + 1);
  }

  /**
   `_set_prodmon`: row 0 multiplies the constant monomial with every
   monomial; rows of degree 1 .. nord-1 are filled through `_loc_expmon`;
   rows of degree nord can only multiply the constant monomial. For order 0
   the last phase writes row 0 a second time, with the same content.
   */
  method SetProdmon(env: Env) returns (prodmon: seq<seq<nat>>)
    requires env.Indexed()
    ensures ProdmonFilled(prodmon, env.nvar, env.nord)
  {
    var nvar, nord := env.nvar, env.nord;
    var nmon := env.posord[nord + 1];
    var row0 := [nmon] + seq(nmon, i => i);
    ProdmonFirstRow(nvar, nord, row0);
    prodmon := ProdmonMiddleRows(env, [row0]);
    prodmon := prodmon[..env.posord[nord]];
    prodmon := ProdmonLastRows(env, prodmon);
  }

  /** The rows of degree 1 .. nord-1, appended after row 0. */
  method ProdmonMiddleRows(env: Env, first: seq<seq<nat>>) returns (prodmon: seq<seq<nat>>)
    requires env.Indexed() && |first| == 1 && 1 <= Posord(env.nvar, env.nord + 1)
    requires ProdmonRow(first[0], env.nvar, env.nord, 0)
    ensures |prodmon| >= Posord(env.nvar, env.nord) && |prodmon| <= Posord(env.nvar, env.nord + 1)
    ensures forall j :: 0 <= j < |prodmon| ==> ProdmonRow(prodmon[j], env.nvar, env.nord, j)
  {
    var nvar, nord := env.nvar, env.nord;
    prodmon := first;
    var i := 1;
    while i < nord
      invariant 1 <= i && (i <= nord || nord == 0)
      invariant |prodmon| == Posord(nvar, i) <= Posord(nvar, nord + 1)
      invariant forall j :: 0 <= j < |prodmon| ==> ProdmonRow(prodmon[j], nvar, nord, j)
    {
      PosordMonotone(nvar, i + 1, nord + 1);
      var j := env.posord[i];
      while j < env.posord[i + 1]
        invariant Posord(nvar, i) <= j <= Posord(nvar, i + 1) <= Posord(nvar, nord + 1)
        invariant |prodmon| == j
        invariant forall j' :: 0 <= j' < |prodmon| ==> ProdmonRow(prodmon[j'], nvar, nord, j')
      {
        var row := ProdmonBlockRow(env, i, j);
        RowsSnoc(prodmon, row, nvar, nord);
        prodmon := prodmon + [row];
        j := j + 1;
      }
      i := i + 1;
    }
  }

  /** The rows of degree nord: each multiplies the constant monomial only. */
  method ProdmonLastRows(env: Env, front: seq<seq<nat>>) returns (prodmon: seq<seq<nat>>)
    requires env.Indexed() && |front| == Posord(env.nvar, env.nord)
    requires forall j :: 0 <= j < |front| ==> ProdmonRow(front[j], env.nvar, env.nord, j)
    ensures ProdmonFilled(prodmon, env.nvar, env.nord)
  {
    var nvar, nord := env.nvar, env.nord;
    var nmon := env.posord[nord + 1];
    PosordMonotone(nvar, nord, nord + 1);
    prodmon := front;
    var j := env.posord[nord];
    while j < nmon
      invariant env.posord[nord] <= j <= nmon
      invariant |prodmon| == j
      invariant forall j' :: 0 <= j' < |prodmon| ==> ProdmonRow(prodmon[j'], nvar, nord, j')
    {
      var row := [1, j];
      ProdmonLastRow(nvar, nord, j);
      RowsSnoc(prodmon, row, nvar, nord);
      prodmon := prodmon + [row];
      j := j + 1;
    }
  }

  lemma RowsSnoc(rows: seq<seq<nat>>, row: seq<nat>, nvar: nat, nord: nat)
    requires nvar >= 1 && |rows| < Posord(nvar, nord + 1)
    requires forall j :: 0 <= j < |rows| ==> ProdmonRow(rows[j], nvar, nord, j)
    requires ProdmonRow(row, nvar, nord, |rows|)
    ensures forall j :: 0 <= j <= |rows| ==> ProdmonRow((rows + [row])[j], nvar, nord, j)
  {
  }

  /** One row j of degree i, 1 <= i < nord: entry k+1 locates e_j + e_k. */
  method ProdmonBlockRow(env: Env, i: nat, j: nat) returns (row: seq<nat>)
    requires env.Indexed()
    requires 1 <= i < env.nord && Posord(env.nvar, i) <= j < Posord(env.nvar, i + 1)
    ensures j < Posord(env.nvar, env.nord + 1)
    ensures ProdmonRow(row, env.nvar, env.nord, j)
  {
    var nvar, nord := env.nvar, env.nord;
    ghost var t := Table(nvar, nord + 1);
    RowOfDegree(nvar, nord, i, j);
    var e := env.expmon[j];
    var m := env.posord[nord + 1 - i];
    row := [m];
    var k := 0;
    while k < m
      invariant 0 <= k <= m
      invariant |row| == k + 1 && row[0] == m
      invariant forall k' :: 0 <= k' < k ==>
        k' < |t| && |t[k']| == nvar && row[k' + 1] == Loc(Plus(e, t[k']))
    {
      ProductStaysInOrder(nvar, nord, e, k, m);
      var pos := LocExpmon(env, Plus(e, env.expmon[k]));
      row := row + [pos];
      k := k + 1;
    }
  }

  /** Row j of block i has degree i, and block nord+1-i ends inside the table. */
  lemma RowOfDegree(nvar: nat, nord: nat, i: nat, j: nat)
    requires nvar >= 1 && 1 <= i <= nord && Posord(nvar, i) <= j < Posord(nvar, i + 1)
    ensures j < |Table(nvar, nord + 1)| == Posord(nvar, nord + 1)
    ensures |Table(nvar, nord + 1)[j]| == nvar && Degree(Table(nvar, nord + 1)[j]) == i
    ensures Posord(nvar, nord + 1 - i) <= Posord(nvar, nord + 1)
  {
    TableLength(nvar, nord + 1);
    PosordMonotone(nvar, i + 1, nord + 1);
    PosordMonotone(nvar, nord + 1 - i, nord + 1);
    TableRowDegree(nvar, nord + 1, i, j);
  }

  /** Table rows before block nord+1-deg(e) multiply e without leaving degree nord. */
  lemma ProductStaysInOrder(nvar: nat, nord: nat, e: seq<nat>, k: nat, m: nat)
    requires nvar >= 1 && |e| == nvar && Degree(e) <= nord
    requires m == Posord(nvar, nord + 1 - Degree(e)) && k < m
    ensures k < |Table(nvar, nord + 1)| && |Table(nvar, nord + 1)[k]| == nvar
    ensures Degree(e) + Degree(Table(nvar, nord + 1)[k]) <= nord
    ensures |Plus(e, Table(nvar, nord + 1)[k])| == nvar
    ensures Degree(Plus(e, Table(nvar, nord + 1)[k])) <= nord
  {
    TableLength(nvar, nord + 1);
    PosordMonotone(nvar, nord + 1 - Degree(e), nord + 1);
    LocOfTable(nvar, nord + 1, k);
    var f := Table(nvar, nord + 1)[k];
    LocBelowPosord(f, nord + 1 - Degree(e));
    DegreePlus(e, f);
  }

  lemma PlusZeros(v: seq<nat>)
    ensures Plus(Zeros(|v|), v) == v && Plus(v, Zeros(|v|)) == v
  {
  }

  lemma TableFirst(nvar: nat, nord: nat)
    requires nvar >= 1
    ensures |Table(nvar, nord + 1)| >= 1 && Table(nvar, nord + 1)[0] == Zeros(nvar)
  {
    LocZeros(nvar);
    DegreeZeros(nvar);
    TableAtLoc(Zeros(nvar), nord + 1);
  }

  lemma ProdmonFirstRow(nvar: nat, nord: nat, row: seq<nat>)
    requires nvar >= 1
    requires row == [Posord(nvar, nord + 1)] + seq(Posord(nvar, nord + 1), i => i)
    ensures 0 < Posord(nvar, nord + 1)
    ensures ProdmonRow(row, nvar, nord, 0)
  {
    TableLength(nvar, nord + 1);
    TableFirst(nvar, nord);
    DegreeZeros(nvar);
    var t := Table(nvar, nord + 1);
    forall k | 0 <= k < |t|
      ensures |t[k]| == nvar && row[k + 1] == Loc(Plus(Zeros(nvar), t[k]))
    {
      LocOfTable(nvar, nord + 1, k);
      PlusZeros(t[k]);
    }
  }

  lemma ProdmonLastRow(nvar: nat, nord: nat, j: nat)
    requires nvar >= 1 && Posord(nvar, nord) <= j < Posord(nvar, nord + 1)
    ensures ProdmonRow([1, j], nvar, nord, j)
  {
    TableLength(nvar, nord + 1);
    TableFirst(nvar, nord);
    LocOfTable(nvar, nord + 1, j);
    var e := Table(nvar, nord + 1)[j];
    LocBelowPosord(e, nord);
    assert Degree(e) == nord;
    assert Posord(nvar, 1) == 1;
    PlusZeros(e);
  }
}
