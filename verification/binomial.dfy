/**
 Binomial coefficients and the flat binomial table kept by the Taylor model
 environment (`_set_binom` / `_get_binom` in MCpp/src/mc/tmodel.hpp).

 The table has `nvar+nord-1` rows of `nord+1` entries each; row `i` holds
 C(i+1, 0), ..., C(i+1, nord), filled left to right by the ratio recurrence
 C(n, j) = C(n, j-1) * (n+1-j) / j, whose integer division is always exact.
 Integers are unbounded here. The source keeps the table in the 64-bit
 `TM_size`, whose products wrap for large rows; that behaviour is modelled
 separately, as `TaylorFindings.SetBinomEntry64`.
 */
module Binomials {

  /** C(n, k), defined by Pascal's rule: C(n, 0) = 1 and C(0, k) = 0 for k > 0. */
  function Binom(n: nat, k: nat): nat
  {
    if k == 0 then 1
    else if n == 0 then 0
    else Binom(n - 1, k - 1) + Binom(n - 1, k)
  }

  lemma {:induction false} BinomAbove(n: nat, k: nat)
    requires k > n
    ensures Binom(n, k) == 0
  {
    if n > 0 {
      BinomAbove(n - 1, k - 1);
      BinomAbove(n - 1, k);
    }
  }

  lemma {:induction false} BinomDiagonal(n: nat)
    ensures Binom(n, n) == 1
  {
    if n > 0 {
      BinomDiagonal(n - 1);
      BinomAbove(n - 1, n);
    }
  }

  lemma {:induction false} BinomOne(n: nat)
    ensures Binom(n, 1) == n
  {
    if n > 0 {
      BinomOne(n - 1);
    }
  }

  /** Every coefficient up to the diagonal is positive. */
  lemma {:induction false} BinomPositive(n: nat, k: nat)
    requires k <= n
    ensures Binom(n, k) >= 1
  {
    if k > 0 {
      BinomPositive(n - 1, k - 1);
    }
  }

  /**
   The ratio between neighbours of one row: j * C(n, j) == (n+1-j) * C(n, j-1).
   This is what makes the table recurrence an exact integer division.
   */
  lemma {:induction false} PascalRatio(n: nat, j: nat)
    requires j >= 1
    ensures j * Binom(n, j) == (n + 1 - j) * Binom(n, j - 1)
  {
    if n == 0 {
      if j >= 2 {
        BinomAbove(0, j - 1);
      }
    } else if j == 1 {
      BinomOne(n);
    } else {
      PascalRatio(n - 1, j);
      PascalRatio(n - 1, j - 1);
      var a := Binom(n - 1, j - 2);
      var b := Binom(n - 1, j - 1);
      var c := Binom(n - 1, j);
      assert Binom(n, j) == b + c;
      assert Binom(n, j - 1) == a + b;
      assert j * c == (n - j) * b;
      assert (j - 1) * b == (n + 1 - j) * a;
      calc {
        j * Binom(n, j);
        { Distribute(j, b, c); }
        j * b + j * c;
        j * b + (n - j) * b;
        { Factor(j, n - j, b); }
        n * b;
        { Factor(j - 1, n + 1 - j, b); }
        (j - 1) * b + (n + 1 - j) * b;
        (n + 1 - j) * a + (n + 1 - j) * b;
        { Distribute(n + 1 - j, a, b); }
        (n + 1 - j) * (a + b);
      }
    }
  }

  /** The table step p[j] = p[j-1] * (n+1-j) / j yields C(n, j) exactly. */
  lemma RatioStep(n: nat, j: nat)
    requires 1 <= j <= n + 1
    ensures Binom(n, j - 1) * (n + 1 - j) / j == Binom(n, j)
    ensures Binom(n, j - 1) * (n + 1 - j) % j == 0
  {
    PascalRatio(n, j);
    var q := Binom(n, j);
    var a := Binom(n, j - 1) * (n + 1 - j);
    assert a == j * q;
    DivExact(a, j, q);
  }

  lemma Distribute(x: int, y: int, z: int)
    ensures x * (y + z) == x * y + x * z
  {
  }

  lemma Factor(x: int, y: int, z: int)
    ensures x * z + y * z == (x + y) * z
  {
  }

  lemma DivExact(a: nat, j: nat, q: nat)
    requires j >= 1 && a == j * q
    ensures a / j == q && a % j == 0
  {
    var r := a / j;
    var s := a % j;
    assert a == j * r + s && 0 <= s < j;
    Factor(q, -r, j);
    assert j * (q - r) == s;
    if q - r >= 1 {
      MulAtLeast(j, q - r);
    } else if q - r <= -1 {
      MulAtLeast(j, r - q);
    }
  }

  lemma MulAtLeast(x: nat, y: int)
    requires y >= 1
    ensures x * y >= x
  {
  }

  /**
   Hockey-stick identity: the sum of C(m+e, e) for e = 0..d is C(m+1+d, d).
   The sum is taken from the top term down, as `Tail` does.
   */
  function Tail(m: nat, d: nat, f: nat): nat
    decreases d + 1 - f
  {
    if f > d then 0 else Binom(m + d - f, d - f) + Tail(m, d, f + 1)
  }

  lemma {:induction false} TailShift(m: nat, d: nat, f: nat)
    requires d >= 1
    ensures Tail(m, d, f + 1) == Tail(m, d - 1, f)
    decreases d + 1 - f
  {
    if f + 1 <= d {
      TailShift(m, d, f + 1);
      assert m + d - (f + 1) == m + (d - 1) - f;
    }
  }

  lemma {:induction false} HockeyStick(m: nat, d: nat)
    ensures Tail(m, d, 0) == Binom(m + 1 + d, d)
  {
    if d == 0 {
      assert Tail(m, 0, 1) == 0;
    } else {
      TailShift(m, d, 0);
      HockeyStick(m, d - 1);
      assert Binom(m + 1 + d, d) == Binom(m + d, d - 1) + Binom(m + d, d);
      assert m + 1 + (d - 1) == m + d;
    }
  }

  /** Partial sum of C(m+d-j, d-j) for j < f: the offset of first digit `f`. */
  function Inner(m: nat, d: nat, f: nat): nat
    requires f <= d + 1
  {
    if f == 0 then 0 else Inner(m, d, f - 1) + Binom(m + d - (f - 1), d - (f - 1))
  }

  lemma {:induction false} InnerPlusTail(m: nat, d: nat, f: nat)
    requires f <= d + 1
    ensures Inner(m, d, f) + Tail(m, d, f) == Binom(m + 1 + d, d)
    decreases d + 1 - f
  {
    if f == d + 1 {
      assert Tail(m, d, d + 1) == 0;
      InnerPlusTailUp(m, d, d + 1);
      HockeyStick(m, d);
    } else {
      InnerPlusTail(m, d, f + 1);
    }
  }

  lemma {:induction false} InnerPlusTailUp(m: nat, d: nat, f: nat)
    requires f <= d + 1
    ensures Inner(m, d, f) + Tail(m, d, f) == Tail(m, d, 0)
  {
    if f > 0 {
      InnerPlusTailUp(m, d, f - 1);
    }
  }

  lemma {:induction false} InnerMonotone(m: nat, d: nat, f: nat, g: nat)
    requires f <= g <= d + 1
    ensures Inner(m, d, f) <= Inner(m, d, g)
    decreases g - f
  {
    if f < g {
      InnerMonotone(m, d, f, g - 1);
    }
  }

  // ---------------------------------------------------------------------------
  // The flat table.
  // ---------------------------------------------------------------------------

  /** Position of entry (row i, column j) in a row-major table of width w. */
  function Slot(i: nat, j: nat, w: nat): nat
  {
    i * w + j
  }

  lemma SlotBelow(i: nat, j: nat, w: nat, rows: nat)
    requires i < rows && j < w
    ensures Slot(i, j, w) < rows * w
  {
    assert (i + 1) * w <= rows * w;
  }

  /** Row `i` of the table: C(i+1, 0 .. nord). */
  ghost predicate RowFilled(row: seq<nat>, i: nat, nord: nat)
  {
    |row| == nord + 1 && forall j :: 0 <= j <= nord ==> row[j] == Binom(i + 1, j)
  }

  /** The whole table: rows 0 .. nvar+nord-2, each of width nord+1. */
  ghost predicate TableFilled(table: seq<nat>, nvar: nat, nord: nat)
    requires nvar >= 1
  {
    && |table| == (nvar + nord - 1) * (nord + 1)
    && forall i, j {:trigger Slot(i, j, nord + 1)} ::
         0 <= i < nvar + nord - 1 && 0 <= j <= nord ==>
           Slot(i, j, nord + 1) < |table| && table[Slot(i, j, nord + 1)] == Binom(i + 1, j)
  }

  /**
   One row of `_set_binom`: 1, i+1, then the ratio recurrence up to
   min(i+1, nord), then zeros. Slot 1 is written only when the row has one
   (nord >= 1); see the findings on `_set_binom` for the order-0 case.
   */
  method BinomRow(i: nat, nord: nat) returns (row: seq<nat>)
    ensures RowFilled(row, i, nord)
  {
    if nord == 0 {
      return [1];
    }
    BinomOne(i + 1);
    row := [1, i + 1];
    var k := if i + 1 < nord then i + 1 else nord;
    var j := 2;
    while j <= k
      invariant 2 <= j <= k + 1
      invariant |row| == j
      invariant forall j' :: 0 <= j' < |row| ==> row[j'] == Binom(i + 1, j')
    {
      RatioStep(i + 1, j);
      row := row + [row[j - 1] * (i + 2 - j) / j];
      j := j + 1;
    }
    while |row| <= nord
      invariant k + 1 <= |row| <= nord + 1
      invariant forall j' :: 0 <= j' < |row| ==> row[j'] == Binom(i + 1, j')
    {
      BinomAbove(i + 1, |row|);
      row := row + [0];
    }
  }

  /** `_set_binom`: all rows 0 .. nvar+nord-2, concatenated row after row. */
  method SetBinom(nvar: nat, nord: nat) returns (table: seq<nat>)
    requires nvar >= 1
    ensures TableFilled(table, nvar, nord)
  {
    var w := nord + 1;
    var rows := nvar + nord - 1;
    table := [];
    var i := 0;
    while i < rows
      invariant 0 <= i <= rows
      invariant |table| == i * w
      invariant forall i', j {:trigger Slot(i', j, w)} ::
        0 <= i' < i && 0 <= j < w ==>
          Slot(i', j, w) < |table| && table[Slot(i', j, w)] == Binom(i' + 1, j)
    {
      var row := BinomRow(i, nord);
      var old_table := table;
      table := table + row;
      forall i', j | 0 <= i' < i + 1 && 0 <= j < w
        ensures Slot(i', j, w) < |table| && table[Slot(i', j, w)] == Binom(i' + 1, j)
      {
        SlotBelow(i', j, w, i + 1);
        if i' < i {
          SlotBelow(i', j, w, i);
        } else {
          assert Slot(i', j, w) == |old_table| + j;
        }
      }
      i := i + 1;
    }
  }

  /**
   `_get_binom(n, k)`: C(0, k) is answered without the table, every other
   coefficient is read from row n-1. The source's assertions are kept as
   preconditions, with the column bound tightened to the table width (see
   the findings on `_get_binom`).
   */
  function GetBinom(table: seq<nat>, nvar: nat, nord: nat, n: nat, k: nat): (r: nat)
    requires nvar >= 1 && TableFilled(table, nvar, nord)
    requires n <= nvar + nord - 1 && k <= nord && k <= n
    ensures r == Binom(n, k)
  {
    if n == 0 then 1
    else
      assert Slot(n - 1, k, nord + 1) < |table|;
      table[Slot(n - 1, k, nord + 1)]
  }
}
