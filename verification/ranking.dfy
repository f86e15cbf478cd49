/**
 The position of a monomial in the environment's exponent table.

 The table lists all exponent vectors of n variables and degree at most
 nord: first the single vector of degree 0, then every vector of degree 1,
 degree 2, and so on (the blocks start at `posord[d]`). Inside a block the
 vectors are in ascending lexicographic order, first variable most
 significant (MCpp/src/mc/tmodel.hpp, lines 86-100 and `_set_expmon` at
 lines 1300-1319). `Offset` is the position inside the block, computed the
 way `_loc_expmon` does (lines 1426-1444); `Unrank` is its inverse.
 */
module MonomialRank {
  import opened Binomials
  import opened ExponentVectors

  /** How many vectors of length n and degree d there are: C(n-1+d, d). */
  function Count(n: nat, d: nat): nat
    requires n >= 1
  {
    Binom(n - 1 + d, d)
  }

  lemma CountPositive(n: nat, d: nat)
    requires n >= 1
    ensures Count(n, d) >= 1
  {
    BinomPositive(n - 1 + d, d);
  }

  /**
   Position of v inside its degree block. A vector whose first entry is f
   comes after every vector of the same degree whose first entry is
   smaller; there are Inner(|v|-2, degree, f) of those.
   */
  function Offset(v: seq<nat>): nat
    requires |v| >= 1
  {
    if |v| == 1 then 0
    else Inner(|v| - 2, Degree(v), v[0]) + Offset(v[1..])
  }

  lemma {:induction false} OffsetBelow(v: seq<nat>)
    requires |v| >= 1
    ensures Offset(v) < Count(|v|, Degree(v))
  {
    var d := Degree(v);
    if |v| == 1 {
      BinomDiagonal(d);
    } else {
      var m := |v| - 2;
      var f := v[0];
      OffsetBelow(v[1..]);
      assert Count(|v| - 1, d - f) == Binom(m + d - f, d - f);
      InnerMonotone(m, d, f + 1, d + 1);
      InnerPlusTail(m, d, d + 1);
    }
  }

  /** The first entry f of the vector at position i of a block. */
  function FirstEntry(m: nat, d: nat, i: nat, f: nat): (g: nat)
    requires f <= d && Inner(m, d, f) <= i < Inner(m, d, d + 1)
    ensures f <= g <= d && Inner(m, d, g) <= i < Inner(m, d, g + 1)
    decreases d - f
  {
    if i < Inner(m, d, f + 1) then f else FirstEntry(m, d, i, f + 1)
  }

  /** The vector at position i of the block of length-n vectors of degree d. */
  function Unrank(n: nat, d: nat, i: nat): (v: seq<nat>)
    requires n >= 1 && i < Count(n, d)
    ensures |v| == n && Degree(v) == d
    decreases n
  {
    if n == 1 then [d]
    else
      InnerPlusTail(n - 2, d, d + 1);
      var f := FirstEntry(n - 2, d, i, 0);
      var rest := Unrank(n - 1, d - f, i - Inner(n - 2, d, f));
      assert ([f] + rest)[1..] == rest;
      [f] + rest
  }

  /** The first entry of the vector at position i is the f whose range of positions holds i. */
  lemma FirstEntryIs(m: nat, d: nat, i: nat, f: nat)
    requires f <= d && Inner(m, d, f) <= i < Inner(m, d, f + 1) && i < Inner(m, d, d + 1)
    ensures FirstEntry(m, d, i, 0) == f
  {
    var g := FirstEntry(m, d, i, 0);
    if g < f {
      InnerMonotone(m, d, g + 1, f);
    } else if g > f {
      InnerMonotone(m, d, f + 1, g);
    }
  }

  /** One level of Unrank: the first entry f, then the rest ranked j among the shorter vectors. */
  lemma UnrankStep(n: nat, d: nat, i: nat, f: nat, j: nat)
    requires n >= 2 && i < Count(n, d)
    requires Inner(n - 2, d, d + 1) == Count(n, d) && f == FirstEntry(n - 2, d, i, 0)
    requires j == i - Inner(n - 2, d, f)
    ensures f <= d && j < Count(n - 1, d - f)
    ensures Unrank(n, d, i) == [f] + Unrank(n - 1, d - f, j)
  {
  }

  /** Unrank followed by Offset is the identity on positions. */
  lemma {:induction false} OffsetUnrank(n: nat, d: nat, i: nat)
    requires n >= 1 && i < Count(n, d)
    ensures Offset(Unrank(n, d, i)) == i
  {
    if n == 1 {
      OffsetUnrankOne(d, i);
    } else {
      var f, j, w := UnrankSplit(n, d, i);
      OffsetUnrank(n - 1, d - f, j);
      OffsetUnrankStep(n, d, i, f, j, w);
    }
  }

  lemma OffsetUnrankOne(d: nat, i: nat)
    requires i < Count(1, d)
    ensures Offset(Unrank(1, d, i)) == i
  {
    BinomDiagonal(d);
  }

  /** The inductive step of OffsetUnrank, with the hypothesis about the tail w as a precondition. */
  lemma OffsetUnrankStep(n: nat, d: nat, i: nat, f: nat, j: nat, w: seq<nat>)
    requires n >= 2 && i < Count(n, d) && f <= d && i == Inner(n - 2, d, f) + j
    requires |w| == n - 1 && Degree(w) == d - f && Offset(w) == j
    requires Unrank(n, d, i) == [f] + w
    ensures Offset(Unrank(n, d, i)) == i
  {
    OffsetCons(n, f, w, d, i, j);
  }

  /** The first entry f of the vector at position i, and the position j of the rest. */
  lemma UnrankSplit(n: nat, d: nat, i: nat) returns (f: nat, j: nat, w: seq<nat>)
    requires n >= 2 && i < Count(n, d)
    ensures f <= d && j < Count(n - 1, d - f) && i == Inner(n - 2, d, f) + j
    ensures w == Unrank(n - 1, d - f, j) && |w| == n - 1 && Degree(w) == d - f
    ensures Unrank(n, d, i) == [f] + w
  {
    InnerPlusTail(n - 2, d, d + 1);
    f := FirstEntry(n - 2, d, i, 0);
    j := i - Inner(n - 2, d, f);
    UnrankStep(n, d, i, f, j);
    w := Unrank(n - 1, d - f, j);
  }

  /** The offset of f followed by w, for w of degree d - f at offset j. */
  lemma OffsetCons(n: nat, f: nat, w: seq<nat>, d: nat, i: nat, j: nat)
    requires n >= 2 && |w| == n - 1 && f <= d && Degree(w) == d - f && Offset(w) == j && i == Inner(n - 2, d, f) + j
    ensures Offset([f] + w) == i
  {
    var v := [f] + w;
    assert v[0] == f && v[1..] == w;
  }

  /** Offset followed by Unrank is the identity on vectors. */
  lemma {:induction false} UnrankOffset(v: seq<nat>)
    requires |v| >= 1
    ensures Offset(v) < Count(|v|, Degree(v))
    ensures Unrank(|v|, Degree(v), Offset(v)) == v
  {
    OffsetBelow(v);
    if |v| > 1 {
      var f, rest, d, i := v[0], v[1..], Degree(v), Offset(v);
      UnrankOffset(rest);
      OffsetSplit(v, f, rest, d, i, Offset(rest));
      UnrankCons(|v|, d, i, f, Offset(rest), rest);
      assert v == [f] + rest;
    }
  }

  /** The vector at position Inner(n-2, d, f) + j starts with f and continues with the vector at j. */
  lemma UnrankCons(n: nat, d: nat, i: nat, f: nat, j: nat, rest: seq<nat>)
    requires n >= 2 && f <= d && i == Inner(n - 2, d, f) + j && i < Count(n, d)
    requires j < Count(n - 1, d - f) && Unrank(n - 1, d - f, j) == rest
    ensures Unrank(n, d, i) == [f] + rest
  {
    InnerNext(n - 2, d, f);
    InnerPlusTail(n - 2, d, d + 1);
    FirstEntryIs(n - 2, d, i, f);
    UnrankStep(n, d, i, f, j);
  }

  /** Offset and degree of a vector in terms of its first entry and the rest. */
  lemma OffsetSplit(v: seq<nat>, f: nat, rest: seq<nat>, d: nat, i: nat, j: nat)
    requires |v| >= 2 && f == v[0] && rest == v[1..] && d == Degree(v) && i == Offset(v) && j == Offset(rest)
    ensures f <= d && d - f == Degree(rest) && i == Inner(|v| - 2, d, f) + j
  {
  }

  lemma InnerNext(m: nat, d: nat, f: nat)
    requires f <= d
    ensures Inner(m, d, f + 1) == Inner(m, d, f) + Binom(m + d - f, d - f)
  {
  }

  /** Inside a block, lexicographic order becomes position order. */
  lemma {:induction false} LexOffset(v: seq<nat>, w: seq<nat>)
    requires |v| == |w| >= 1 && Degree(v) == Degree(w)
    requires LexLess(v, w)
    ensures Offset(v) < Offset(w)
  {
    if |v| > 1 {
      var m := |v| - 2;
      var d := Degree(v);
      if v[0] < w[0] {
        OffsetBelow(v[1..]);
        InnerMonotone(m, d, v[0] + 1, w[0]);
      } else {
        LexOffset(v[1..], w[1..]);
      }
    }
  }

  /** Position order and lexicographic order agree, in both directions. */
  lemma OffsetOrder(v: seq<nat>, w: seq<nat>)
    requires |v| == |w| >= 1 && Degree(v) == Degree(w)
    ensures Offset(v) < Offset(w) <==> LexLess(v, w)
    ensures Offset(v) == Offset(w) <==> v == w
  {
    LexTotal(v, w);
    LexAsymmetric(v, w);
    if LexLess(v, w) {
      LexOffset(v, w);
    } else if LexLess(w, v) {
      LexOffset(w, v);
    }
  }

  /** Every degree block is listed in strictly ascending lexicographic order. */
  lemma BlockAscending(n: nat, d: nat, i: nat, j: nat)
    requires n >= 1 && i < j < Count(n, d)
    ensures LexLess(Unrank(n, d, i), Unrank(n, d, j))
  {
    OffsetUnrank(n, d, i);
    OffsetUnrank(n, d, j);
    OffsetOrder(Unrank(n, d, i), Unrank(n, d, j));
  }

  // ---------------------------------------------------------------------------
  // Block starts and the whole table.
  // ---------------------------------------------------------------------------

  /** `posord[d]`: where the block of degree d starts. */
  function Posord(n: nat, d: nat): nat
    requires n >= 1
  {
    if d == 0 then 0 else Posord(n, d - 1) + Count(n, d - 1)
  }

  /** posord[d] = C(n-1+d, d-1); in particular nmon = posord[nord+1] = C(n+nord, nord). */
  lemma {:induction false} PosordClosed(n: nat, d: nat)
    requires n >= 1 && d >= 1
    ensures Posord(n, d) == Binom(n - 1 + d, d - 1)
  {
    if d > 1 {
      PosordClosed(n, d - 1);
      assert Binom(n - 1 + d, d - 1) == Binom(n - 2 + d, d - 2) + Binom(n - 2 + d, d - 1);
    }
  }

  lemma {:induction false} PosordMonotone(n: nat, d: nat, e: nat)
    requires n >= 1 && d <= e
    ensures Posord(n, d) + (e - d) <= Posord(n, e)
    decreases e - d
  {
    if d < e {
      PosordMonotone(n, d, e - 1);
      CountPositive(n, e - 1);
    }
  }

  /** Global position of a monomial in the exponent table. */
  function Loc(v: seq<nat>): nat
    requires |v| >= 1
  {
    Posord(|v|, Degree(v)) + Offset(v)
  }

  /** The block of degree d, in order. */
  function Block(n: nat, d: nat): seq<seq<nat>>
    requires n >= 1
  {
    seq(Count(n, d), i requires 0 <= i < Count(n, d) => Unrank(n, d, i))
  }

  /** The exponent table holding every degree below k. */
  function Table(n: nat, k: nat): seq<seq<nat>>
    requires n >= 1
  {
    if k == 0 then [] else Table(n, k - 1) + Block(n, k - 1)
  }

  lemma {:induction false} TableLength(n: nat, k: nat)
    requires n >= 1
    ensures |Table(n, k)| == Posord(n, k)
  {
    if k > 0 {
      TableLength(n, k - 1);
    }
  }

  lemma {:induction false} TableEntry(n: nat, k: nat, d: nat, i: nat)
    requires n >= 1 && d < k && i < Count(n, d)
    ensures Posord(n, d) + i < |Table(n, k)|
    ensures Table(n, k)[Posord(n, d) + i] == Unrank(n, d, i)
  {
    TableLength(n, k);
    TableLength(n, k - 1);
    if d < k - 1 {
      TableEntry(n, k - 1, d, i);
    }
  }

  /** Every table entry between block starts d and d+1 is a vector of degree d. */
  lemma TableRowDegree(n: nat, k: nat, d: nat, j: nat)
    requires n >= 1 && d < k && Posord(n, d) <= j < Posord(n, d + 1)
    ensures j < |Table(n, k)| && |Table(n, k)[j]| == n && Degree(Table(n, k)[j]) == d
  {
    var q := j - Posord(n, d);
    TableEntry(n, k, d, q);
  }

  /** Which block, and which position inside it, table entry p is. */
  lemma {:induction false} TableIndex(n: nat, k: nat, p: nat) returns (d: nat, i: nat)
    requires n >= 1 && p < |Table(n, k)|
    ensures d < k && i < Count(n, d) && p == Posord(n, d) + i
    ensures Table(n, k)[p] == Unrank(n, d, i)
  {
    TableLength(n, k);
    TableLength(n, k - 1);
    if p < Posord(n, k - 1) {
      d, i := TableIndex(n, k - 1, p);
    } else {
      d, i := k - 1, p - Posord(n, k - 1);
    }
    TableEntry(n, k, d, i);
  }

  /** Every vector of degree below k sits in the table at Loc(v). */
  lemma TableAtLoc(v: seq<nat>, k: nat)
    requires |v| >= 1 && Degree(v) < k
    ensures Loc(v) < |Table(|v|, k)|
    ensures Table(|v|, k)[Loc(v)] == v
  {
    UnrankOffset(v);
    TableEntry(|v|, k, Degree(v), Offset(v));
  }

  /** Loc inverts the table: entry p is found again at p. */
  lemma LocOfTable(n: nat, k: nat, p: nat)
    requires n >= 1 && p < |Table(n, k)|
    ensures |Table(n, k)[p]| == n
    ensures Degree(Table(n, k)[p]) < k
    ensures Loc(Table(n, k)[p]) == p
  {
    var d, i := TableIndex(n, k, p);
    OffsetUnrank(n, d, i);
  }

  /** The table lists each monomial once: distinct positions hold distinct vectors. */
  lemma TableDistinct(n: nat, k: nat, p: nat, q: nat)
    requires n >= 1 && p < |Table(n, k)| && q < |Table(n, k)| && p != q
    ensures Table(n, k)[p] != Table(n, k)[q]
  {
    LocOfTable(n, k, p);
    LocOfTable(n, k, q);
  }

  lemma {:induction false} OffsetZeros(n: nat)
    requires n >= 1
    ensures Offset(Zeros(n)) == 0
  {
    if n > 1 {
      assert Zeros(n)[1..] == Zeros(n - 1);
      OffsetZeros(n - 1);
      DegreeZeros(n);
    }
  }

  /** The constant monomial is entry 0. */
  lemma LocZeros(n: nat)
    requires n >= 1
    ensures Loc(Zeros(n)) == 0
  {
    DegreeZeros(n);
    OffsetZeros(n);
  }

  lemma {:induction false} OffsetUnit(n: nat, k: nat)
    requires k < n
    ensures Offset(Unit(n, k)) == n - 1 - k
  {
    DegreeUnit(n, k);
    if n > 1 {
      if k == 0 {
        assert Unit(n, 0)[1..] == Zeros(n - 1);
        OffsetZeros(n - 1);
        BinomOne(n - 1);
        assert Inner(n - 2, 1, 1) == Binom(n - 1, 1);
      } else {
        assert Unit(n, k)[1..] == Unit(n - 1, k - 1);
        OffsetUnit(n - 1, k - 1);
      }
    }
  }

  /** Variable x_k (counting from 0) is the monomial at position n - k. */
  lemma LocUnit(n: nat, k: nat)
    requires k < n
    ensures Loc(Unit(n, k)) == n - k
  {
    OffsetUnit(n, k);
    DegreeUnit(n, k);
    assert Posord(n, 1) == Count(n, 0) == 1;
  }

  /** A monomial lies before block c exactly when its degree is below c. */
  lemma LocBelowPosord(v: seq<nat>, c: nat)
    requires |v| >= 1
    ensures Loc(v) < Posord(|v|, c) <==> Degree(v) < c
  {
    OffsetBelow(v);
    if Degree(v) < c {
      PosordMonotone(|v|, Degree(v) + 1, c);
    } else {
      PosordMonotone(|v|, c, Degree(v));
    }
  }
}
