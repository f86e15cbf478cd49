/**
 The bound type T of the Taylor model classes, taken as exact closed real
 intervals. The C++ code is generic in T and only uses the operations below
 (sum, difference, product, square, integer power, scaling by a double,
 midpoint, diameter and intersection); each comes with the enclosure
 property the Taylor model arithmetic relies on.
 */
module Intervals {
  import opened TmResults

  /** The closed interval [lo, hi]; empty when lo > hi. */
  datatype Interval = I(lo: real, hi: real)
  {
    predicate Contains(x: real)
    {
      lo <= x <= hi
    }

    predicate Proper()
    {
      lo <= hi
    }
  }

  function Point(c: real): Interval
  {
    I(c, c)
  }

  function Min(x: real, y: real): real
  {
    if x <= y then x else y
  }

  function Max(x: real, y: real): real
  {
    if x <= y then y else x
  }

  function Add(a: Interval, b: Interval): Interval
  {
    I(a.lo + b.lo, a.hi + b.hi)
  }

  function Neg(a: Interval): Interval
  {
    I(-a.hi, -a.lo)
  }

  function Sub(a: Interval, b: Interval): Interval
  {
    Add(a, Neg(b))
  }

  /** The product of a double and an interval. */
  function Scale(c: real, a: Interval): Interval
  {
    if c >= 0.0 then I(c * a.lo, c * a.hi) else I(c * a.hi, c * a.lo)
  }

  function Mul(a: Interval, b: Interval): Interval
  {
    Corner(a.lo, a.hi, b.lo, b.hi)
  }

  /** The hull of the four corner products of [al, ah] x [bl, bh]. */
  function Corner(al: real, ah: real, bl: real, bh: real): Interval
  {
    I(Min(Min(al * bl, al * bh), Min(ah * bl, ah * bh)),
      Max(Max(al * bl, al * bh), Max(ah * bl, ah * bh)))
  }

  /** The tight square: non-negative whatever the sign of the bounds. */
  function Sqr(a: Interval): Interval
  {
    if a.lo >= 0.0 then I(a.lo * a.lo, a.hi * a.hi)
    else if a.hi <= 0.0 then I(a.hi * a.hi, a.lo * a.lo)
    else I(0.0, Max(a.lo * a.lo, a.hi * a.hi))
  }

  /**
   `Op<T>::pow(x, n)` for n >= 0 (MCpp/src/mc/mcprofil.hpp:43): the exact
   range of x^n over the interval. Odd powers are increasing, so their range
   is spanned by the endpoints; even powers fall to 0 on an interval that
   straddles 0 and are otherwise spanned by the endpoints in some order.
   */
  function IPow(a: Interval, n: nat): Interval
  {
    if n == 0 then Point(1.0)
    else if n % 2 == 1 || a.lo >= 0.0 then I(RPow(a.lo, n), RPow(a.hi, n))
    else if a.hi <= 0.0 then I(RPow(a.hi, n), RPow(a.lo, n))
    else I(0.0, Max(RPow(a.lo, n), RPow(a.hi, n)))
  }

  function Mid(a: Interval): real
  {
    (a.lo + a.hi) / 2.0
  }

  function Diam(a: Interval): real
  {
    a.hi - a.lo
  }

  /** `Op<T>::inter`: the intersection, or None when it is empty. */
  function Inter(a: Interval, b: Interval): Option<Interval>
  {
    var lo := Max(a.lo, b.lo);
    var hi := Min(a.hi, b.hi);
    if lo <= hi then Some(I(lo, hi)) else None
  }

  /** Real product, named so that products of values can be passed around whole. */
  function Times(x: real, y: real): real
  {
    x * y
  }

  /** Real power x^n. */
  function RPow(x: real, n: nat): real
  {
    if n == 0 then 1.0 else Times(RPow(x, n - 1), x)
  }

  // ---------------------------------------------------------------------------
  // Enclosure: each operation on intervals contains the operation on members.
  // ---------------------------------------------------------------------------

  lemma AddContains(a: Interval, b: Interval, x: real, y: real)
    requires a.Contains(x) && b.Contains(y)
    ensures Add(a, b).Contains(x + y)
  {
  }

  /** Dividing by a nonzero s and multiplying back gives the number again. */
  lemma DivTimes(a: real, s: real)
    requires s != 0.0
    ensures (a / s) * s == a
  {
  }

  lemma NegContains(a: Interval, x: real)
    requires a.Contains(x)
    ensures Neg(a).Contains(-x)
  {
  }

  lemma SubContains(a: Interval, b: Interval, x: real, y: real)
    requires a.Contains(x) && b.Contains(y)
    ensures Sub(a, b).Contains(x - y)
  {
  }

  lemma ScaleContains(c: real, a: Interval, x: real)
    requires a.Contains(x)
    ensures Scale(c, a).Contains(c * x)
  {
    MulBetween(c, a.lo, x, a.hi);
  }

  lemma ScaleContainsAt(c: real, a: Interval, x: real, z: real)
    requires a.Contains(x) && z == Times(c, x)
    ensures Scale(c, a).Contains(z)
  {
    ScaleContains(c, a, x);
  }

  /** Scaling by c and then by 1/c gives the interval back. */
  lemma ScaleInverse(c: real, a: Interval)
    requires c != 0.0
    ensures Scale(1.0 / c, Scale(c, a)) == a
  {
    var k := 1.0 / c;
    assert k * c == 1.0;
    assert k * (c * a.lo) == (k * c) * a.lo;
    assert k * (c * a.hi) == (k * c) * a.hi;
  }

  /** y*x lies between y*lo and y*hi when x lies between lo and hi. */
  lemma MulBetween(y: real, lo: real, x: real, hi: real)
    requires lo <= x <= hi
    ensures Min(y * lo, y * hi) <= y * x <= Max(y * lo, y * hi)
  {
    if y >= 0.0 {
      assert y * (x - lo) >= 0.0;
      assert y * (hi - x) >= 0.0;
    } else {
      assert y * (x - lo) <= 0.0;
      assert y * (hi - x) <= 0.0;
    }
  }

  /** x*y lies between lo*y and hi*y when x lies between lo and hi. */
  lemma MulBetweenRight(lo: real, x: real, hi: real, y: real)
    requires lo <= x <= hi
    ensures Min(lo * y, hi * y) <= x * y <= Max(lo * y, hi * y)
  {
    MulBetween(y, lo, x, hi);
  }

  /** The corner bounds of a product, once each factor is bounded in turn. */
  lemma Corners(p: real, q1: real, q2: real, c11: real, c12: real, c21: real, c22: real)
    requires Min(q1, q2) <= p <= Max(q1, q2)
    requires Min(c11, c21) <= q1 <= Max(c11, c21)
    requires Min(c12, c22) <= q2 <= Max(c12, c22)
    ensures Min(Min(c11, c12), Min(c21, c22)) <= p <= Max(Max(c11, c12), Max(c21, c22))
  {
  }

  /** The product of members of [al, ah] and [bl, bh] lies between the corner products. */
  lemma CornerBounds(al: real, ah: real, bl: real, bh: real, x: real, y: real)
    requires al <= x <= ah && bl <= y <= bh
    ensures Corner(al, ah, bl, bh).Contains(x * y)
  {
    MulBetween(x, bl, y, bh);
    MulBetweenRight(al, x, ah, bl);
    MulBetweenRight(al, x, ah, bh);
    Corners(x * y, x * bl, x * bh, al * bl, al * bh, ah * bl, ah * bh);
  }

  lemma MulContains(a: Interval, b: Interval, x: real, y: real)
    requires a.Contains(x) && b.Contains(y)
    ensures Mul(a, b).Contains(x * y)
  {
    CornerBounds(a.lo, a.hi, b.lo, b.hi, x, y);
  }

  /** Products of non-negative reals grow with both factors. */
  lemma MulMonotone(a: real, b: real, c: real, d: real)
    requires 0.0 <= a <= b && 0.0 <= c <= d
    ensures a * c <= b * d
  {
    assert (b - a) * c >= 0.0;
    assert b * (d - c) >= 0.0;
  }

  lemma NegSquare(x: real)
    ensures (-x) * (-x) == x * x
  {
  }

  /** The square of a member of [lo, hi] lies in the tight square of the interval. */
  lemma SquareBounds(lo: real, hi: real, x: real)
    requires lo <= x <= hi
    ensures lo >= 0.0 ==> lo * lo <= x * x <= hi * hi
    ensures hi <= 0.0 ==> hi * hi <= x * x <= lo * lo
    ensures 0.0 <= x * x <= Max(lo * lo, hi * hi)
  {
    if x >= 0.0 {
      MulMonotone(0.0, x, 0.0, x);
      MulMonotone(x, hi, x, hi);
      if lo >= 0.0 {
        MulMonotone(lo, x, lo, x);
      } else if hi <= 0.0 {
        assert x == 0.0 && hi == 0.0;
        assert x * x == 0.0 && hi * hi == 0.0;
        NegSquare(lo);
        MulMonotone(0.0, -lo, 0.0, -lo);
      }
    } else {
      NegSquare(x);
      NegSquare(lo);
      MulMonotone(0.0, -x, 0.0, -x);
      MulMonotone(-x, -lo, -x, -lo);
      if hi <= 0.0 {
        NegSquare(hi);
        MulMonotone(-hi, -x, -hi, -x);
      }
    }
  }

  lemma MulContainsAt(a: Interval, b: Interval, x: real, y: real, z: real)
    requires a.Contains(x) && b.Contains(y) && z == Times(x, y)
    ensures Mul(a, b).Contains(z)
  {
    MulContains(a, b, x, y);
  }

  lemma SqrContains(a: Interval, x: real)
    requires a.Contains(x)
    ensures Sqr(a).Contains(x * x)
  {
    SquareBounds(a.lo, a.hi, x);
  }

  /** Powers of non-negative reals are non-negative and grow with the base. */
  lemma {:induction false} RPowMonotone(x: real, y: real, n: nat)
    requires 0.0 <= x <= y
    ensures 0.0 <= RPow(x, n) <= RPow(y, n)
  {
    if n > 0 {
      RPowMonotone(x, y, n - 1);
      MulMonotone(0.0, RPow(x, n - 1), 0.0, x);
      MulMonotone(RPow(x, n - 1), RPow(y, n - 1), x, y);
    }
  }

  /** (-x)^n is x^n for even n and -(x^n) for odd n. */
  lemma {:induction false} RPowNeg(x: real, n: nat)
    ensures RPow(-x, n) == if n % 2 == 0 then RPow(x, n) else -RPow(x, n)
  {
    if n > 0 {
      RPowNeg(x, n - 1);
      assert RPow(-x, n) == RPow(-x, n - 1) * (-x);
    }
  }

  lemma {:induction false} RPowZero(n: nat)
    requires n >= 1
    ensures RPow(0.0, n) == 0.0
  {
    if n > 1 {
      RPowZero(n - 1);
    }
  }

  /** Odd powers are increasing on all of the reals. */
  lemma OddPowMonotone(x: real, y: real, n: nat)
    requires x <= y && n % 2 == 1
    ensures RPow(x, n) <= RPow(y, n)
  {
    if x >= 0.0 {
      RPowMonotone(x, y, n);
    } else if y <= 0.0 {
      RPowMonotone(-y, -x, n);
      RPowNeg(x, n);
      RPowNeg(y, n);
    } else {
      RPowMonotone(0.0, -x, n);
      RPowNeg(x, n);
      RPowMonotone(0.0, y, n);
    }
  }

  /** The n-th power of every member of a lies in IPow(a, n). */
  lemma IPowContains(a: Interval, x: real, n: nat)
    requires a.Contains(x)
    ensures IPow(a, n).Contains(RPow(x, n))
  {
    if n == 0 {
    } else if n % 2 == 1 {
      OddPowMonotone(a.lo, x, n);
      OddPowMonotone(x, a.hi, n);
    } else if a.lo >= 0.0 {
      RPowMonotone(a.lo, x, n);
      RPowMonotone(x, a.hi, n);
    } else {
      RPowNeg(x, n);
      RPowNeg(a.lo, n);
      RPowNeg(a.hi, n);
      if a.hi <= 0.0 {
        RPowMonotone(-a.hi, -x, n);
        RPowMonotone(-x, -a.lo, n);
      } else if x >= 0.0 {
        RPowMonotone(x, a.hi, n);
      } else {
        RPowMonotone(-x, -a.lo, n);
      }
    }
  }

  /** IPow is tight: both of its ends are n-th powers of members of a. */
  lemma IPowTight(a: Interval, n: nat)
    requires a.Proper()
    ensures exists x :: a.Contains(x) && RPow(x, n) == IPow(a, n).lo
    ensures exists x :: a.Contains(x) && RPow(x, n) == IPow(a, n).hi
  {
    if n == 0 {
      assert a.Contains(a.lo) && RPow(a.lo, 0) == 1.0;
    } else if n % 2 == 1 || a.lo >= 0.0 {
      assert a.Contains(a.lo) && a.Contains(a.hi);
    } else if a.hi <= 0.0 {
      assert a.Contains(a.hi) && a.Contains(a.lo);
    } else {
      RPowZero(n);
      assert a.Contains(0.0);
      assert a.Contains(a.lo) && a.Contains(a.hi);
    }
  }

  /** The square of [-1, 1] is [0, 1], not the [-1, 1] a product of the interval with itself gives. */
  lemma IPowSymmetricSquare()
    ensures IPow(I(-1.0, 1.0), 2) == I(0.0, 1.0)
    ensures Mul(I(-1.0, 1.0), I(-1.0, 1.0)) == I(-1.0, 1.0)
  {
    assert RPow(-1.0, 2) == 1.0;
    assert RPow(1.0, 2) == 1.0;
  }

  /** A point lies in the intersection exactly when it lies in both. */
  lemma InterContains(a: Interval, b: Interval, x: real)
    ensures a.Contains(x) && b.Contains(x) <==> Inter(a, b).Some? && Inter(a, b).value.Contains(x)
  {
  }

  /** The intersection is empty exactly when the intervals are disjoint. */
  lemma InterEmpty(a: Interval, b: Interval)
    requires a.Proper() && b.Proper()
    ensures Inter(a, b).None? <==> a.hi < b.lo || b.hi < a.lo
  {
  }

  lemma MidContains(a: Interval)
    requires a.Proper()
    ensures a.Contains(Mid(a))
    ensures Sub(a, Point(Mid(a))) == I(-Diam(a) / 2.0, Diam(a) / 2.0)
  {
  }

  // ---------------------------------------------------------------------------
  // Sums of sequences.
  // ---------------------------------------------------------------------------

  function SumR(s: seq<real>): real
  {
    if |s| == 0 then 0.0 else SumR(s[..|s| - 1]) + s[|s| - 1]
  }

  function SumI(s: seq<Interval>): Interval
  {
    if |s| == 0 then Point(0.0) else Add(SumI(s[..|s| - 1]), s[|s| - 1])
  }

  /** A sum of intervals contains every sum of members. */
  lemma {:induction false} SumContains(s: seq<Interval>, x: seq<real>)
    requires |s| == |x| && forall k :: 0 <= k < |s| ==> s[k].Contains(x[k])
    ensures SumI(s).Contains(SumR(x))
  {
    if |s| > 0 {
      var n := |s| - 1;
      SumContains(s[..n], x[..n]);
      AddContains(SumI(s[..n]), s[n], SumR(x[..n]), x[n]);
    }
  }
}
