/**
 Five places where MCpp/src/mc/tmodel.hpp, read literally, does something
 other than what the surrounding code evidently intends. Each is modelled
 here as written, next to a lemma that exhibits the discrepancy; the rest
 of the model uses the corrected definitions named in each section.
 */
module TaylorFindings {
  import opened TmResults
  import opened ExponentVectors
  import opened Binomials
  import opened Intervals
  import opened TaylorEnvironment
  import opened TaylorDomain
  import opened TaylorVariables
  import opened TaylorArithmetic
  import opened TaylorProduct
  import MonomialRank

  // ---------------------------------------------------------------------------
  // `_set_binom` (lines 1446-1460) writes slot 1 of every row, even when a
  // row is one slot wide (order 0). Corrected: Binomials.SetBinom.
  // ---------------------------------------------------------------------------

  /**
   The flat positions row i of `_set_binom` writes, in order: slots 0 and 1
   unconditionally, then one slot per iteration of the ratio loop
   (j = 2 .. k) and of the zero loop (j = k+1 .. nord).
   */
  function RowWrites(i: nat, nord: nat): (w: seq<nat>)
    ensures |w| == if nord >= 1 then nord + 1 else 2
    ensures forall j :: 0 <= j < |w| ==> w[j] == Slot(i, j, nord + 1)
  {
    var base := i * (nord + 1);
    var k := if i + 1 < nord then i + 1 else nord;
    var ratio := if k >= 2 then k - 1 else 0;
    var zeros := if nord >= k + 1 then nord - k else 0;
    [base, base + 1] + seq(ratio + zeros, j => base + 2 + j)
  }

  /** The positions written by rows 0 .. rows-1. */
  function Writes(nord: nat, rows: nat): seq<nat>
  {
    if rows == 0 then [] else Writes(nord, rows - 1) + RowWrites(rows - 1, nord)
  }

  /** Everything `_set_binom(nord)` writes into the table of nvar+nord-1 rows. */
  function SetBinomWrites(nvar: nat, nord: nat): seq<nat>
    requires nvar >= 1
  {
    Writes(nord, nvar + nord - 1)
  }

  lemma {:induction false} WritesBelow(nord: nat, rows: nat)
    requires nord >= 1
    ensures forall w :: w in Writes(nord, rows) ==> w < rows * (nord + 1)
  {
    if rows > 0 {
      WritesBelow(nord, rows - 1);
      assert (rows - 1) * (nord + 1) <= rows * (nord + 1);
      var last := RowWrites(rows - 1, nord);
      forall j | 0 <= j < |last|
        ensures last[j] < rows * (nord + 1)
      {
        SlotBelow(rows - 1, j, nord + 1, rows);
      }
    }
  }

  /**
   Every write lands inside the allocated (nvar+nord-1)*(nord+1) entries
   exactly when the order is at least 1 or there are no rows at all; with
   order 0 and two or more variables the last row writes one past the end.
   */
  lemma SetBinomInBounds(nvar: nat, nord: nat)
    requires nvar >= 1
    ensures (forall w :: w in SetBinomWrites(nvar, nord) ==> w < (nvar + nord - 1) * (nord + 1))
        <==> (nord >= 1 || nvar == 1)
  {
    var rows := nvar + nord - 1;
    if nord >= 1 {
      WritesBelow(nord, rows);
    } else if nvar >= 2 {
      var last := RowWrites(rows - 1, 0);
      assert last[1] == rows;
      assert last[1] in SetBinomWrites(nvar, nord);
    }
  }

  // ---------------------------------------------------------------------------
  // `_loc_expmon` (lines 1426-1444) accepts degree nord+1, and `_get_binom`
  // (lines 1480-1489) accepts column nord+1, one past the width of the
  // table. Corrected: TaylorConstruction.CoefMon, which checks the degree
  // before locating the monomial.
  // ---------------------------------------------------------------------------

  /**
   `_get_binom(n, k)` as written, under its own assertions: the read at
   (n-1)*(nord+1)+k, or None when that position is past the table.
   */
  function GetBinomAsWritten(table: seq<nat>, nvar: nat, nord: nat, n: nat, k: nat): (r: Option<nat>)
    requires nvar >= 1 && TableFilled(table, nvar, nord)
    requires n <= nvar + nord - 1 && k <= nord + 1 && k <= n
    ensures k <= nord ==> r == Some(Binom(n, k))
    ensures r.None? <==> n == nvar + nord - 1 && k == nord + 1 && n >= 1
    ensures k == nord + 1 && 1 <= n < nvar + nord - 1 ==> r == Some(1)
  {
    if n == 0 then Some(1)
    else
      var s := Slot(n - 1, k, nord + 1);
      ColumnPastWidth(n - 1, k, nord, nvar + nord - 1);
      if s < |table| then Some(table[s]) else None
  }

  /** Where the position (i, k) of a row-major table of width nord+1 falls, for k up to nord+1. */
  lemma ColumnPastWidth(i: nat, k: nat, nord: nat, rows: nat)
    requires i < rows && k <= nord + 1
    ensures k <= nord ==> Slot(i, k, nord + 1) < rows * (nord + 1)
    ensures k == nord + 1 ==> Slot(i, k, nord + 1) == Slot(i + 1, 0, nord + 1)
    ensures k == nord + 1 ==> (Slot(i, k, nord + 1) < rows * (nord + 1) <==> i + 1 < rows)
  {
    if k <= nord {
      SlotBelow(i, k, nord + 1, rows);
    } else if i + 1 < rows {
      SlotBelow(i + 1, 0, nord + 1, rows);
    } else {
      assert Slot(i, k, nord + 1) == rows * (nord + 1);
    }
  }

  /** The (n, k) pairs the loop of `_loc_expmon` passes to `_get_binom`, from variable i on. */
  function Lookups(nvar: nat, iexp: seq<nat>, i: nat): (calls: seq<(nat, nat)>)
    requires |iexp| == nvar && i <= nvar
    ensures forall c :: c in calls ==> c.1 <= c.0 && c.0 <= nvar - 2 - i + Degree(iexp[i..]) && c.1 <= Degree(iexp[i..])
    decreases nvar - i
  {
    if i + 1 >= nvar then []
    else
      var d := Degree(iexp[i..]);
      assert iexp[i..][1..] == iexp[i + 1..];
      var rest := Lookups(nvar, iexp, i + 1);
      var here := seq(iexp[i], j requires 0 <= j < iexp[i] => (nvar - 2 - i + d - j, d - j));
      here + rest
  }

  /**
   For any degree up to nord+1, every lookup passes the three assertions
   of `_get_binom`: they do not catch a degree past the order.
   */
  lemma LookupsAdmitted(nvar: nat, nord: nat, iexp: seq<nat>)
    requires nvar >= 1 && |iexp| == nvar && Degree(iexp) <= nord + 1
    ensures forall c :: c in Lookups(nvar, iexp, 0) ==> c.0 <= nvar + nord - 1 && c.1 <= nord + 1 && c.1 <= c.0
  {
    assert iexp[0..] == iexp;
  }

  /**
   With two or more variables, a monomial of degree nord+1 that uses the
   first variable makes `_loc_expmon` call `_get_binom(nvar+nord-1, nord+1)`
   first, which reads one entry past the end of the table (for nvar = 2,
   nord = 1 and exponents (1, 1): entry 4 of a 4-entry table).
   */
  lemma LocPastOrderOverruns(table: seq<nat>, nvar: nat, nord: nat, iexp: seq<nat>)
    requires nvar >= 2 && TableFilled(table, nvar, nord)
    requires |iexp| == nvar && Degree(iexp) == nord + 1 && iexp[0] >= 1
    ensures |Lookups(nvar, iexp, 0)| >= 1 && Lookups(nvar, iexp, 0)[0] == (nvar + nord - 1, nord + 1)
    ensures GetBinomAsWritten(table, nvar, nord, nvar + nord - 1, nord + 1).None?
  {
    assert iexp[0..] == iexp;
  }

  /** Below the order every lookup stays inside the width of the table, as CoefMon relies on. */
  lemma LookupsWithinOrder(nvar: nat, nord: nat, iexp: seq<nat>)
    requires nvar >= 1 && |iexp| == nvar && Degree(iexp) <= nord
    ensures forall c :: c in Lookups(nvar, iexp, 0) ==> c.0 <= nvar + nord - 1 && c.1 <= nord && c.1 <= c.0
  {
    assert iexp[0..] == iexp;
  }

  /**
   The first read of `_loc_expmon` (lines 1428-1433): the start of the
   block of the monomial's degree, or None when `_posord`, which has
   nord+2 entries, has no entry for that degree. The assertion at line 1432
   rejects exactly these degrees; in a build without assertions the read
   falls past the end of `_posord`.
   */
  function PosordReadAsWritten(posord: seq<nat>, nvar: nat, nord: nat, iexp: seq<nat>): (r: Option<nat>)
    requires nvar >= 1 && PosordFilled(posord, nvar, nord)
    ensures r.None? <==> Degree(iexp) >= nord + 2
    ensures r.Some? ==> r.value == MonomialRank.Posord(nvar, Degree(iexp))
  {
    var d := Degree(iexp);
    if d < |posord| then Some(posord[d]) else None
  }

  // ---------------------------------------------------------------------------
  // `+=` and `-=` with a detached operand (lines 2280-2284 and 2390-2394)
  // change the constant coefficient but not the block bound of degree 0.
  // Corrected: TaylorArithmetic.AddDetached, which keeps the two together.
  // ---------------------------------------------------------------------------

  /** `+= TVar` as written, for a detached right operand holding c and rb. */
  function AddDetachedAsWritten(t: TVar, c: real, rb: Interval): (r: TVar)
    requires t.Wf()
    ensures r.Wf() && r.Attached? == t.Attached? && (r.Attached? ==> r.env == t.env)
    ensures r.Constant() == t.Constant() + c && r.Remainder() == Add(t.Remainder(), rb)
    ensures r.Attached? ==> r.bndord[0] == t.bndord[0]
  {
    match t
    case Detached(c0, rem) => Detached(c0 + c, Add(rem, rb))
    case Attached(env, coef, bndord) =>
      EnvTables(env);
      Attached(env, coef[0 := coef[0] + c], bndord[env.nord + 1 := Add(bndord[env.nord + 1], rb)])
  }

  /**
   Adding a nonzero detached constant to a consistent attached variable
   leaves a stale bound for degree 0: it no longer holds the constant
   coefficient, which the product and square bounds read as that block.
   */
  lemma AddDetachedStale(dom: Domain, t: TVar, c: real, rb: Interval)
    requires t.Wf() && t.Attached? && dom.Fits(t.env) && Consistent(dom, t) && c != 0.0
    ensures !Consistent(dom, AddDetachedAsWritten(t, c, rb))
    ensures Consistent(dom, AddDetached(t, c, rb))
  {
    EnvTables(t.env);
    var r := AddDetachedAsWritten(t, c, rb);
    assert r.bndord[0] == Point(t.coef[0]) != Point(r.coef[0]);
    BlockAtFrame(t.env, dom, AddDetached(t, c, rb).coef, t.coef);
  }

  // ---------------------------------------------------------------------------
  // `sqr` of a detached variable (lines 2531-2536) multiplies the remainder
  // by 2 + R instead of 2c + R. Corrected: TaylorProduct.Square.
  // ---------------------------------------------------------------------------

  /** `sqr` as written, for a detached variable c + R. */
  function SquareDetachedAsWritten(c: real, rem: Interval): (r: TVar)
    ensures r.Detached? && r.coef0 == c * c
  {
    Detached(c * c, Mul(rem, Add(Point(2.0), rem)))
  }

  /**
   What the square as written does enclose: for c + x with x in R, the
   remainder holds x (2 + x), the square of 1 + x minus 1, not (c + x)^2 - c^2.
   */
  lemma AsWrittenRemainder(c: real, rem: Interval, x: real)
    requires rem.Contains(x)
    ensures SquareDetachedAsWritten(c, rem).rem.Contains(x * (2.0 + x))
  {
    var s := Add(Point(2.0), rem);
    AddContains(Point(2.0), rem, 2.0, x);
    MulContainsAt(rem, s, x, 2.0 + x, x * (2.0 + x));
  }

  /**
   With c = 3 and R = [1, 1] the variable holds exactly 4, whose square 16
   the corrected square encloses and the square as written, 9 + [3, 3],
   does not.
   */
  lemma SquareDetachedCounterexample(opt: Options, dom: Domain)
    ensures Encloses(Detached(3.0, Point(1.0)), [], 4.0)
    ensures !Encloses(SquareDetachedAsWritten(3.0, Point(1.0)), [], 16.0)
    ensures Encloses(Square(opt, dom, Detached(3.0, Point(1.0))), [], 16.0)
  {
    var t := Detached(3.0, Point(1.0));
    assert SquareDetachedAsWritten(3.0, Point(1.0)).rem == I(3.0, 3.0);
    SquareDetachedSound(opt, dom, t, [], 4.0);
  }

  // ---------------------------------------------------------------------------
  // `_set_binom` (lines 1446-1460) forms the product p[j-1] * (i+2-j) in the
  // 64-bit `TM_size` before dividing by j, so the product wraps once it
  // reaches 2^64. Corrected: Binomials.SetBinom, whose integers do not wrap.
  // ---------------------------------------------------------------------------

  /** 2^64, the modulus of the unsigned 64-bit `TM_size`. */
  const TmSizeMod: nat := 0x1_0000_0000_0000_0000

  /** The ratio step `*(p-1) * (i+2-j) / j` with the product reduced modulo 2^64. */
  function WrappedRatio(a: nat, m: nat, j: nat): nat
    requires j >= 1
  {
    (a * m) % TmSizeMod / j
  }

  /**
   Entry j of row i as `_set_binom(nord)` writes it: 1, then i+1, then the
   wrapped ratio step up to min(i+1, nord), then zeros.
   */
  function SetBinomEntry64(nvar: nat, nord: nat, i: nat, j: nat): nat
    requires i < nvar + nord - 1 && j <= nord
  {
    if j == 0 then 1
    else if j > i + 1 then 0
    else if j == 1 then i + 1
    else WrappedRatio(SetBinomEntry64(nvar, nord, i, j - 1), i + 2 - j, j)
  }

  /** Every product k C(n, k) of the ratio steps up to column j fits in 64 bits. */
  ghost predicate ProductsFit(n: nat, j: nat)
  {
    forall k :: 1 <= k <= j ==> k * Binom(n, k) < TmSizeMod
  }

  /** While every product k C(i+1, k) up to column j stays below 2^64, the entry is exact. */
  lemma {:induction false} SetBinomEntry64Exact(nvar: nat, nord: nat, i: nat, j: nat)
    requires i < nvar + nord - 1 && j <= nord && ProductsFit(i + 1, j)
    ensures SetBinomEntry64(nvar, nord, i, j) == Binom(i + 1, j)
  {
    if j > i + 1 {
      BinomAbove(i + 1, j);
    } else if j == 1 {
      BinomOne(i + 1);
    } else if j >= 2 {
      assert ProductsFit(i + 1, j - 1);
      SetBinomEntry64Exact(nvar, nord, i, j - 1);
      PascalRatio(i + 1, j);
      WrappedExact(Binom(i + 1, j - 1), i + 2 - j, j, Binom(i + 1, j));
    }
  }

  /** A ratio step whose product fits in 64 bits divides exactly. */
  lemma WrappedExact(a: nat, m: nat, j: nat, b: nat)
    requires j >= 1 && m * a == j * b && j * b < TmSizeMod
    ensures WrappedRatio(a, m, j) == b
  {
    var p := a * m;
    assert p == j * b;
    ModBelow(p);
    DivExact(p, j, b);
  }

  lemma ModBelow(p: nat)
    requires p < TmSizeMod
    ensures p % TmSizeMod == p
  {
  }


  /**
   The first column whose product j C(i+1, j) reaches 2^64 comes out
   strictly below C(i+1, j).
   */
  lemma SetBinomFirstWrap(nvar: nat, nord: nat, i: nat, j: nat)
    requires i < nvar + nord - 1 && 2 <= j <= nord && j <= i + 1
    requires SetBinomEntry64(nvar, nord, i, j - 1) == Binom(i + 1, j - 1)
    requires j * Binom(i + 1, j) >= TmSizeMod
    ensures SetBinomEntry64(nvar, nord, i, j) < Binom(i + 1, j)
  {
    PascalRatio(i + 1, j);
    var b := Binom(i + 1, j);
    var r := (Binom(i + 1, j - 1) * (i + 2 - j)) % TmSizeMod;
    assert r < j * b;
    DivBelow(r, j, b);
  }

  lemma DivBelow(x: nat, j: nat, b: nat)
    requires j >= 1 && x < j * b
    ensures x / j < b
  {
  }

  /** Column j of w follows from column j-1 by the wrapped ratio step of row i. */
  ghost predicate Linked(i: nat, w: seq<nat>, j: nat)
    requires 2 <= j < |w|
  {
    j <= i + 1 && w[j] == WrappedRatio(w[j - 1], i + 2 - j, j)
  }

  /** w is the start of row i as `_set_binom` computes it. */
  ghost predicate WrapsAs(i: nat, w: seq<nat>)
  {
    && |w| >= 2 && w[0] == 1 && w[1] == i + 1
    && forall j :: 2 <= j < |w| ==> Linked(i, w, j)
  }

  lemma WrapsAsExtend(i: nat, w: seq<nat>, j: nat, a: nat, b: nat)
    requires WrapsAs(i, w) && |w| == j && j <= i + 1 && w[j - 1] == a
    requires b == (a * (i + 2 - j)) % TmSizeMod / j
    ensures WrapsAs(i, w + [b]) && (w + [b])[j] == b
  {
    var v := w + [b];
    forall k | 2 <= k < |v|
      ensures Linked(i, v, k)
    {
      if k < |w| {
        assert Linked(i, w, k);
        assert v[k] == w[k] && v[k - 1] == w[k - 1];
      }
    }
  }

  /** Any row start that follows the wrapped step ends in the entry `_set_binom` writes. */
  lemma {:induction false} WrapsAsEntry(nvar: nat, nord: nat, i: nat, w: seq<nat>)
    requires WrapsAs(i, w) && i < nvar + nord - 1 && |w| - 1 <= nord
    ensures SetBinomEntry64(nvar, nord, i, |w| - 1) == w[|w| - 1]
    decreases |w|
  {
    if |w| > 2 {
      var v := w[..|w| - 1];
      forall k | 2 <= k < |v|
        ensures Linked(i, v, k)
      {
        assert Linked(i, w, k);
        assert v[k] == w[k] && v[k - 1] == w[k - 1];
      }
      WrapsAsEntry(nvar, nord, i, v);
      assert Linked(i, w, |w| - 1);
    }
  }

  /**
   nvar = 2, nord = 62: row 62 (the coefficients C(63, .)) wraps from
   column 29 on, and its last entry, which `_set_posord` reads for the last
   degree, comes out as 10 instead of C(63, 62) = 63.
   */
  lemma SetBinomWrapCounterexample()
    ensures SetBinomEntry64(2, 62, 62, 62) == 10 && Binom(63, 62) == 63
  {
    var w := Row62Columns2To9();
    w := Row62Columns10To17(w);
    w := Row62Columns18To25(w);
    w := Row62Columns26To33(w);
    w := Row62Columns34To41(w);
    w := Row62Columns42To49(w);
    w := Row62Columns50To57(w);
    w := Row62Columns58To62(w);
    WrapsAsEntry(2, 62, 62, w);
    PascalRatio(63, 63);
    BinomDiagonal(63);
  }

  lemma Row62Columns2To9() returns (w: seq<nat>)
    ensures WrapsAs(62, w) && |w| == 10 && w[9] == 23667689815
  {
    w := [1, 63];
    WrapsAsExtend(62, w, 2, 63, 1953);
    w := w + [1953];
    WrapsAsExtend(62, w, 3, 1953, 39711);
    w := w + [39711];
    WrapsAsExtend(62, w, 4, 39711, 595665);
    w := w + [595665];
    WrapsAsExtend(62, w, 5, 595665, 7028847);
    w := w + [7028847];
    WrapsAsExtend(62, w, 6, 7028847, 67945521);
    w := w + [67945521];
    WrapsAsExtend(62, w, 7, 67945521, 553270671);
    w := w + [553270671];
    WrapsAsExtend(62, w, 8, 553270671, 3872894697);
    w := w + [3872894697];
    WrapsAsExtend(62, w, 9, 3872894697, 23667689815);
    w := w + [23667689815];
  }

  lemma Row62Columns10To17(v: seq<nat>) returns (w: seq<nat>)
    requires WrapsAs(62, v) && |v| == 10 && v[9] == 23667689815
    ensures WrapsAs(62, w) && |w| == 18 && w[17] == 1012974972473835
  {
    w := v;
    WrapsAsExtend(62, w, 10, 23667689815, 127805525001);
    w := w + [127805525001];
    WrapsAsExtend(62, w, 11, 127805525001, 615790256823);
    w := w + [615790256823];
    WrapsAsExtend(62, w, 12, 615790256823, 2668424446233);
    w := w + [2668424446233];
    WrapsAsExtend(62, w, 13, 2668424446233, 10468434365991);
    w := w + [10468434365991];
    WrapsAsExtend(62, w, 14, 10468434365991, 37387265592825);
    w := w + [37387265592825];
    WrapsAsExtend(62, w, 15, 37387265592825, 122131734269895);
    w := w + [122131734269895];
    WrapsAsExtend(62, w, 16, 122131734269895, 366395202809685);
    w := w + [366395202809685];
    WrapsAsExtend(62, w, 17, 366395202809685, 1012974972473835);
    w := w + [1012974972473835];
  }

  lemma Row62Columns18To25(v: seq<nat>) returns (w: seq<nat>)
    requires WrapsAs(62, v) && |v| == 18 && v[17] == 1012974972473835
    ensures WrapsAs(62, w) && |w| == 26 && w[25] == 244382877832924467
  {
    w := v;
    WrapsAsExtend(62, w, 18, 1012974972473835, 2588713818544245);
    w := w + [2588713818544245];
    WrapsAsExtend(62, w, 19, 2588713818544245, 6131164307078475);
    w := w + [6131164307078475];
    WrapsAsExtend(62, w, 20, 6131164307078475, 13488561475572645);
    w := w + [13488561475572645];
    WrapsAsExtend(62, w, 21, 13488561475572645, 27619435402363035);
    w := w + [27619435402363035];
    WrapsAsExtend(62, w, 22, 27619435402363035, 52728013040874885);
    w := w + [52728013040874885];
    WrapsAsExtend(62, w, 23, 52728013040874885, 93993414551124795);
    w := w + [93993414551124795];
    WrapsAsExtend(62, w, 24, 93993414551124795, 156655690918541325);
    w := w + [156655690918541325];
    WrapsAsExtend(62, w, 25, 156655690918541325, 244382877832924467);
    w := w + [244382877832924467];
  }

  lemma Row62Columns26To33(v: seq<nat>) returns (w: seq<nat>)
    requires WrapsAs(62, v) && |v| == 26 && v[25] == 244382877832924467
    ensures WrapsAs(62, w) && |w| == 34 && w[33] == 139870765932034705
  {
    w := v;
    WrapsAsExtend(62, w, 26, 244382877832924467, 357174975294274221);
    w := w + [357174975294274221];
    WrapsAsExtend(62, w, 27, 357174975294274221, 489462003181042451);
    w := w + [489462003181042451];
    WrapsAsExtend(62, w, 28, 489462003181042451, 629308289804197437);
    w := w + [629308289804197437];
    WrapsAsExtend(62, w, 29, 629308289804197437, 123415381704736506);
    w := w + [123415381704736506];
    WrapsAsExtend(62, w, 30, 123415381704736506, 139870765932034706);
    w := w + [139870765932034706];
    WrapsAsExtend(62, w, 31, 139870765932034706, 148894686314746622);
    w := w + [148894686314746622];
    WrapsAsExtend(62, w, 32, 148894686314746622, 148894686314746622);
    w := w + [148894686314746622];
    WrapsAsExtend(62, w, 33, 148894686314746622, 139870765932034705);
    w := w + [139870765932034705];
  }

  lemma Row62Columns34To41(v: seq<nat>) returns (w: seq<nat>)
    requires WrapsAs(62, v) && |v| == 34 && v[33] == 139870765932034705
    ensures WrapsAs(62, w) && |w| == 42 && w[41] == 8567955410303497
  {
    w := v;
    WrapsAsExtend(62, w, 34, 139870765932034705, 123415381704736504);
    w := w + [123415381704736504];
    WrapsAsExtend(62, w, 35, 123415381704736504, 102258459126781674);
    w := w + [102258459126781674];
    WrapsAsExtend(62, w, 36, 102258459126781674, 79534357098607968);
    w := w + [79534357098607968];
    WrapsAsExtend(62, w, 37, 79534357098607968, 58038584909795003);
    w := w + [58038584909795003];
    WrapsAsExtend(62, w, 38, 58038584909795003, 39710610727754475);
    w := w + [39710610727754475];
    WrapsAsExtend(62, w, 39, 39710610727754475, 25455519697278509);
    w := w + [25455519697278509];
    WrapsAsExtend(62, w, 40, 25455519697278509, 15273311818367105);
    w := w + [15273311818367105];
    WrapsAsExtend(62, w, 41, 15273311818367105, 8567955410303497);
    w := w + [8567955410303497];
  }

  lemma Row62Columns42To49(v: seq<nat>) returns (w: seq<nat>)
    requires WrapsAs(62, v) && |v| == 42 && v[41] == 8567955410303497
    ensures WrapsAs(62, w) && |w| == 50 && w[49] == 6075184821855
  {
    w := v;
    WrapsAsExtend(62, w, 42, 8567955410303497, 4487976643492307);
    w := w + [4487976643492307];
    WrapsAsExtend(62, w, 43, 4487976643492307, 2191802546821824);
    w := w + [2191802546821824];
    WrapsAsExtend(62, w, 44, 2191802546821824, 996273884919010);
    w := w + [996273884919010];
    WrapsAsExtend(62, w, 45, 996273884919010, 420648973632470);
    w := w + [420648973632470];
    WrapsAsExtend(62, w, 46, 420648973632470, 164601772290966);
    w := w + [164601772290966];
    WrapsAsExtend(62, w, 47, 164601772290966, 59536811254179);
    w := w + [59536811254179];
    WrapsAsExtend(62, w, 48, 59536811254179, 19845603751393);
    w := w + [19845603751393];
    WrapsAsExtend(62, w, 49, 19845603751393, 6075184821855);
    w := w + [6075184821855];
  }

  lemma Row62Columns50To57(v: seq<nat>) returns (w: seq<nat>)
    requires WrapsAs(62, v) && |v| == 50 && v[49] == 6075184821855
    ensures WrapsAs(62, w) && |w| == 58 && w[57] == 11040700
  {
    w := v;
    WrapsAsExtend(62, w, 50, 6075184821855, 1701051750119);
    w := w + [1701051750119];
    WrapsAsExtend(62, w, 51, 1701051750119, 433601426500);
    w := w + [433601426500];
    WrapsAsExtend(62, w, 52, 433601426500, 100061867653);
    w := w + [100061867653];
    WrapsAsExtend(62, w, 53, 100061867653, 20767557437);
    w := w + [20767557437];
    WrapsAsExtend(62, w, 54, 20767557437, 3845843969);
    w := w + [3845843969];
    WrapsAsExtend(62, w, 55, 3845843969, 629319922);
    w := w + [629319922];
    WrapsAsExtend(62, w, 56, 629319922, 89902846);
    w := w + [89902846];
    WrapsAsExtend(62, w, 57, 89902846, 11040700);
    w := w + [11040700];
  }

  lemma Row62Columns58To62(v: seq<nat>) returns (w: seq<nat>)
    requires WrapsAs(62, v) && |v| == 58 && v[57] == 11040700
    ensures WrapsAs(62, w) && |w| == 63 && w[62] == 10
  {
    w := v;
    WrapsAsExtend(62, w, 58, 11040700, 1142141);
    w := w + [1142141];
    WrapsAsExtend(62, w, 59, 1142141, 96791);
    w := w + [96791];
    WrapsAsExtend(62, w, 60, 96791, 6452);
    w := w + [6452];
    WrapsAsExtend(62, w, 61, 6452, 317);
    w := w + [317];
    WrapsAsExtend(62, w, 62, 317, 10);
    w := w + [10];
  }
}
