/**
 Exponent vectors of monomials. A monomial x_1^e_1 ... x_n^e_n of a Taylor
 model in n variables is the row (e_1, ..., e_n) of the environment's
 exponent table; the first variable is the most significant position
 (MCpp/src/mc/tmodel.hpp, the listing in the class comment at lines 86-100).
 */
module ExponentVectors {

  /** Total degree e_1 + ... + e_n. */
  function Degree(v: seq<nat>): nat
  {
    if |v| == 0 then 0 else v[0] + Degree(v[1..])
  }

  function Zeros(n: nat): seq<nat>
  {
    seq(n, _ => 0)
  }

  /** The exponent of x_k alone: 1 in position k, 0 elsewhere. */
  function Unit(n: nat, k: nat): seq<nat>
  {
    seq(n, i => if i == k then 1 else 0)
  }

  /** Component-wise sum: the exponent of a product of two monomials. */
  function Plus(v: seq<nat>, w: seq<nat>): seq<nat>
    requires |v| == |w|
  {
    seq(|v|, i requires 0 <= i < |v| => v[i] + w[i])
  }

  lemma {:induction false} DegreeZeros(n: nat)
    ensures Degree(Zeros(n)) == 0
  {
    if n > 0 {
      assert Zeros(n)[1..] == Zeros(n - 1);
      DegreeZeros(n - 1);
    }
  }

  /** Only the zero vector has degree 0. */
  lemma {:induction false} DegreeZeroOnlyZeros(v: seq<nat>)
    requires Degree(v) == 0
    ensures v == Zeros(|v|)
  {
    if |v| > 0 {
      DegreeZeroOnlyZeros(v[1..]);
      assert v == [v[0]] + v[1..];
    }
  }

  lemma {:induction false} DegreeUnit(n: nat, k: nat)
    requires k < n
    ensures Degree(Unit(n, k)) == 1
  {
    if k == 0 {
      assert Unit(n, 0)[1..] == Zeros(n - 1);
      DegreeZeros(n - 1);
    } else {
      assert Unit(n, k)[1..] == Unit(n - 1, k - 1);
      DegreeUnit(n - 1, k - 1);
    }
  }

  /** No entry exceeds the total degree. */
  lemma {:induction false} EntryAtMostDegree(v: seq<nat>, k: nat)
    requires k < |v|
    ensures v[k] <= Degree(v)
  {
    if k > 0 {
      EntryAtMostDegree(v[1..], k - 1);
    }
  }

  lemma {:induction false} DegreePlus(v: seq<nat>, w: seq<nat>)
    requires |v| == |w|
    ensures Degree(Plus(v, w)) == Degree(v) + Degree(w)
  {
    if |v| > 0 {
      assert Plus(v, w)[1..] == Plus(v[1..], w[1..]);
      DegreePlus(v[1..], w[1..]);
    }
  }

  // ---------------------------------------------------------------------------
  // Lexicographic order, first position most significant.
  // ---------------------------------------------------------------------------

  predicate LexLess(v: seq<nat>, w: seq<nat>)
  {
    && |v| == |w| && |v| > 0
    && (v[0] < w[0] || (v[0] == w[0] && LexLess(v[1..], w[1..])))
  }

  lemma {:induction false} LexTotal(v: seq<nat>, w: seq<nat>)
    requires |v| == |w|
    ensures v == w || LexLess(v, w) || LexLess(w, v)
  {
    if |v| > 0 && v[0] == w[0] {
      LexTotal(v[1..], w[1..]);
      if v[1..] == w[1..] {
        assert v == [v[0]] + v[1..] && w == [w[0]] + w[1..];
      }
    }
  }

  lemma {:induction false} LexAsymmetric(v: seq<nat>, w: seq<nat>)
    ensures !(LexLess(v, w) && LexLess(w, v))
    ensures !LexLess(v, v)
  {
    if |v| > 0 && |w| == |v| && v[0] == w[0] {
      LexAsymmetric(v[1..], w[1..]);
    }
    if |v| > 0 {
      LexAsymmetric(v[1..], v[1..]);
    }
  }

  // ---------------------------------------------------------------------------
  // Exponent vectors read as numbers in base b, first position most
  // significant. `_next_expmon` counts in base nord+1.
  // ---------------------------------------------------------------------------

  function Pow(b: nat, e: nat): nat
  {
    if e == 0 then 1 else b * Pow(b, e - 1)
  }

  lemma {:induction false} PowPositive(b: nat, e: nat)
    requires b >= 1
    ensures Pow(b, e) >= 1
  {
    if e > 0 {
      PowPositive(b, e - 1);
      MulMono(1, Pow(b, e - 1), b);
    }
  }

  lemma MulMono(x: nat, y: nat, z: nat)
    requires x <= y
    ensures z * x <= z * y
  {
  }

  function Value(v: seq<nat>, b: nat): nat
  {
    if |v| == 0 then 0 else v[0] * Pow(b, |v| - 1) + Value(v[1..], b)
  }

  predicate Digits(v: seq<nat>, b: nat)
  {
    forall k :: 0 <= k < |v| ==> v[k] < b
  }

  lemma {:induction false} ValueBelow(v: seq<nat>, b: nat)
    requires b >= 1 && Digits(v, b)
    ensures Value(v, b) < Pow(b, |v|)
  {
    if |v| > 0 {
      ValueBelow(v[1..], b);
      var p := Pow(b, |v| - 1);
      var rest := Value(v[1..], b);
      assert Value(v, b) == v[0] * p + rest;
      assert Pow(b, |v|) == b * p;
      NextMultiple(v[0], b, p, rest);
    }
  }

  /** x*p + r < b*p when x < b and r < p. */
  lemma NextMultiple(x: nat, b: nat, p: nat, r: nat)
    requires x < b && r < p
    ensures x * p + r < b * p
  {
    MulMono(x + 1, b, p);
    assert p * (x + 1) == x * p + p;
  }

  /** Lexicographic order and numeric order agree on digit vectors. */
  lemma {:induction false} LexValue(v: seq<nat>, w: seq<nat>, b: nat)
    requires b >= 1 && Digits(v, b) && Digits(w, b)
    requires LexLess(v, w)
    ensures Value(v, b) < Value(w, b)
  {
    var p := Pow(b, |v| - 1);
    var rv := Value(v[1..], b);
    var rw := Value(w[1..], b);
    assert Value(v, b) == v[0] * p + rv;
    assert Value(w, b) == w[0] * p + rw;
    if v[0] < w[0] {
      ValueBelow(v[1..], b);
      NextMultiple(v[0], w[0], p, rv);
    } else {
      LexValue(v[1..], w[1..], b);
    }
  }

  lemma ValueOrder(v: seq<nat>, w: seq<nat>, b: nat)
    requires b >= 1 && Digits(v, b) && Digits(w, b) && |v| == |w|
    ensures Value(v, b) < Value(w, b) <==> LexLess(v, w)
    ensures Value(v, b) == Value(w, b) <==> v == w
  {
    LexTotal(v, w);
    LexAsymmetric(v, w);
    if LexLess(v, w) {
      LexValue(v, w, b);
    } else if LexLess(w, v) {
      LexValue(w, v, b);
    }
  }

  /** Changing the entry at position k changes the value by its weight. */
  lemma {:induction false} ValueUpdate(v: seq<nat>, k: nat, x: nat, b: nat)
    requires k < |v|
    ensures Value(v[k := x], b) + v[k] * Pow(b, |v| - 1 - k)
         == Value(v, b) + x * Pow(b, |v| - 1 - k)
  {
    if k > 0 {
      assert v[k := x][1..] == v[1..][k - 1 := x];
      ValueUpdate(v[1..], k - 1, x, b);
    }
  }

  /** (d+1)^e = 1 + d * Repunit(d, e). */
  function Repunit(d: nat, e: nat): nat
  {
    if e == 0 then 0 else Repunit(d, e - 1) * (d + 1) + 1
  }

  lemma {:induction false} PowRepunit(d: nat, e: nat)
    ensures Pow(d + 1, e) == 1 + d * Repunit(d, e)
  {
    if e > 0 {
      PowRepunit(d, e - 1);
      var r := Repunit(d, e - 1);
      calc {
        Pow(d + 1, e);
        (d + 1) * (1 + d * r);
        (d + 1) + (d + 1) * (d * r);
        { assert (d + 1) * (d * r) == d * (r * (d + 1)); }
        1 + d + d * (r * (d + 1));
        1 + d * (r * (d + 1) + 1);
      }
    }
  }

  /** How far the base-(d+1) value lies above the degree, in units of d. */
  function Excess(v: seq<nat>, d: nat): nat
  {
    if |v| == 0 then 0 else v[0] * Repunit(d, |v| - 1) + Excess(v[1..], d)
  }

  /**
   In base d+1 every weight is 1 modulo d, so the value and the degree of a
   vector differ by a multiple of d.
   */
  lemma {:induction false} ValueDegree(v: seq<nat>, d: nat)
    ensures Value(v, d + 1) == Degree(v) + d * Excess(v, d)
  {
    if |v| > 0 {
      ValueDegree(v[1..], d);
      var r := Repunit(d, |v| - 1);
      var x := v[0];
      var e := Excess(v[1..], d);
      PowRepunit(d, |v| - 1);
      assert Value(v, d + 1) == x * (1 + d * r) + Value(v[1..], d + 1);
      assert Excess(v, d) == x * r + e;
      WeightSplit(x, d, r, e);
    }
  }

  lemma WeightSplit(x: nat, d: nat, r: nat, e: nat)
    ensures x * (1 + d * r) + d * e == x + d * (x * r + e)
  {
    assert x * (1 + d * r) == x + x * (d * r);
    assert x * (d * r) == d * (x * r);
    assert d * (x * r) + d * e == d * (x * r + e);
  }
}
