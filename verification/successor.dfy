/**
 `_next_expmon` (MCpp/src/mc/tmodel.hpp, lines 1321-1337): the step from one
 exponent vector of degree d to the next one in the table.

 The routine reads the vector as a number in base d+1 (last entry least
 significant), adds d with carries, and repeats until the entries sum to d
 again. The model shows that this walks each degree block in exactly the
 order the table lists it, starting from the zero vector.
 */
module ExponentSuccessor {
  import opened TmResults
  import opened ExponentVectors
  import opened MonomialRank

  /**
   The carry loop: while entry j-1 exceeds d, take d+1 from it and add one
   to entry j-2. A carry out of the first entry gives None; the C++ loop
   then writes in front of its array.
   */
  function Carry(u: seq<nat>, j: nat, d: nat): Option<seq<nat>>
    requires j <= |u|
    decreases j
  {
    if j > 0 && u[j - 1] > d then
      if j == 1 then None
      else Carry(u[j - 1 := u[j - 1] - (d + 1)][j - 2 := u[j - 2] + 1], j - 1, d)
    else Some(u)
  }

  /** One pass of the outer loop: add d to the last entry, then carry. */
  function Step(v: seq<nat>, d: nat): Option<seq<nat>>
    requires |v| >= 1
  {
    Carry(v[|v| - 1 := v[|v| - 1] + d], |v|, d)
  }

  /** Every entry except the one at position j-1 is a digit in base d+1. */
  ghost predicate DigitsBut(u: seq<nat>, j: nat, d: nat)
  {
    forall k :: 0 <= k < |u| && k + 1 != j ==> u[k] <= d
  }

  lemma CarryOne(u: seq<nat>, j: nat, d: nat)
    requires 2 <= j <= |u| && u[j - 1] > d
    ensures Value(u[j - 1 := u[j - 1] - (d + 1)][j - 2 := u[j - 2] + 1], d + 1) == Value(u, d + 1)
  {
    var b := d + 1;
    var w := Pow(b, |u| - j);
    var x := u[j - 1];
    var y := u[j - 2];
    var u1 := u[j - 1 := x - b];
    var u2 := u1[j - 2 := y + 1];
    ValueUpdate(u, j - 1, x - b, b);
    assert |u| - 1 - (j - 1) == |u| - j;
    ValueUpdate(u1, j - 2, y + 1, b);
    assert |u1| - 1 - (j - 2) == |u| - j + 1;
    assert Pow(b, |u| - j + 1) == b * w;
    CarryArith(Value(u, b), Value(u1, b), Value(u2, b), x, y, b, w);
  }

  /** Taking b from the digit of weight w and adding one to the digit of weight b*w keeps the value. */
  lemma CarryArith(v: int, v1: int, v2: int, x: int, y: int, b: int, w: int)
    requires v1 + x * w == v + (x - b) * w
    requires v2 + y * (b * w) == v1 + (y + 1) * (b * w)
    ensures v2 == v
  {
    assert (x - b) * w == x * w - b * w;
    assert (y + 1) * (b * w) == y * (b * w) + b * w;
  }

  /** A first entry past d makes the number reach (d+1)^|u|: the carry runs off the front. */
  lemma CarryOut(u: seq<nat>, d: nat)
    requires |u| >= 1 && u[0] > d
    ensures Value(u, d + 1) >= Pow(d + 1, |u|)
  {
    var p := Pow(d + 1, |u| - 1);
    assert Value(u, d + 1) == u[0] * p + Value(u[1..], d + 1);
    assert Pow(d + 1, |u|) == (d + 1) * p;
    MulMono(d + 1, u[0], p);
  }

  lemma {:induction false} CarryValue(u: seq<nat>, j: nat, d: nat)
    requires 1 <= j <= |u| && d >= 1
    requires DigitsBut(u, j, d) && u[j - 1] <= 2 * d
    ensures Carry(u, j, d).Some? ==>
      |Carry(u, j, d).value| == |u|
      && Digits(Carry(u, j, d).value, d + 1)
      && Value(Carry(u, j, d).value, d + 1) == Value(u, d + 1)
    ensures Carry(u, j, d).None? ==> Value(u, d + 1) >= Pow(d + 1, |u|)
    decreases j
  {
    if u[j - 1] > d {
      if j == 1 {
        CarryOut(u, d);
      } else {
        CarryOne(u, j, d);
        var u' := u[j - 1 := u[j - 1] - (d + 1)][j - 2 := u[j - 2] + 1];
        assert DigitsBut(u', j - 1, d);
        CarryValue(u', j - 1, d);
      }
    }
  }

  lemma StepValue(v: seq<nat>, d: nat)
    requires |v| >= 1 && d >= 1 && Digits(v, d + 1)
    ensures Step(v, d).Some? ==>
      |Step(v, d).value| == |v|
      && Digits(Step(v, d).value, d + 1)
      && Value(Step(v, d).value, d + 1) == Value(v, d + 1) + d
    ensures Step(v, d).None? ==> Value(v, d + 1) + d >= Pow(d + 1, |v|)
  {
    var n := |v|;
    var u := v[n - 1 := v[n - 1] + d];
    AddLast(v, d);
    assert DigitsBut(u, n, d);
    CarryValue(u, n, d);
  }

  /** Adding d to the last digit adds d to the number. */
  lemma AddLast(v: seq<nat>, d: nat)
    requires |v| >= 1
    ensures Value(v[|v| - 1 := v[|v| - 1] + d], d + 1) == Value(v, d + 1) + d
  {
    var n := |v|;
    ValueUpdate(v, n - 1, v[n - 1] + d, d + 1);
    assert Pow(d + 1, n - 1 - (n - 1)) == 1;
  }

  /**
   `_next_expmon(iexp, d)`: the next vector of degree d after v. None stands
   for the carry running off the first entry.
   */
  function NextExpmon(v: seq<nat>, d: nat): (r: Option<seq<nat>>)
    requires |v| >= 1 && d >= 1 && Digits(v, d + 1)
    ensures r.Some? ==> |r.value| == |v| && Degree(r.value) == d && Digits(r.value, d + 1)
    ensures r.Some? ==> Value(r.value, d + 1) > Value(v, d + 1)
    decreases Pow(d + 1, |v|) - Value(v, d + 1)
  {
    StepValue(v, d);
    ValueBelow(v, d + 1);
    match Step(v, d)
    case None => None
    case Some(t) =>
      ValueBelow(t, d + 1);
      if Degree(t) == d then Some(t) else NextExpmon(t, d)
  }

  lemma {:induction false} DegreeDigits(v: seq<nat>)
    ensures Digits(v, Degree(v) + 1)
  {
    forall k | 0 <= k < |v|
      ensures v[k] < Degree(v) + 1
    {
      EntryAtMostDegree(v, k);
    }
  }

  /** w is the first vector of degree d after v: the block's first when v is zero. */
  ghost predicate FollowsInBlock(v: seq<nat>, w: seq<nat>, d: nat)
  {
    && |w| == |v| >= 1 && Degree(w) == d
    && ((v == Zeros(|v|) && Offset(w) == 0) || (Degree(v) == d && Offset(w) == Offset(v) + 1))
  }

  /** No vector of degree d lies strictly between v and its follower w. */
  lemma OnlyFollower(v: seq<nat>, u: seq<nat>, w: seq<nat>, d: nat)
    requires d >= 1 && FollowsInBlock(v, w, d) && Digits(v, d + 1)
    requires |u| == |v| && Degree(u) == d
    requires Value(v, d + 1) < Value(u, d + 1) <= Value(w, d + 1)
    ensures u == w
  {
    DegreeDigits(u);
    DegreeDigits(w);
    ValueOrder(u, w, d + 1);
    ValueOrder(v, u, d + 1);
    if u != w {
      OffsetOrder(u, w);
      if Degree(v) == d {
        OffsetOrder(v, u);
      }
    }
  }

  lemma {:induction false} Walk(v: seq<nat>, s: seq<nat>, w: seq<nat>, d: nat, t: nat)
    requires d >= 1 && FollowsInBlock(v, w, d) && Digits(v, d + 1)
    requires |s| == |v| && Digits(s, d + 1)
    requires Value(v, d + 1) <= Value(s, d + 1) < Value(w, d + 1)
    requires Value(w, d + 1) == Value(s, d + 1) + d * t
    ensures NextExpmon(s, d) == Some(w)
    decreases t
  {
    DegreeDigits(w);
    ValueBelow(w, d + 1);
    Gap(d, t, Value(s, d + 1), Value(w, d + 1));
    StepValue(s, d);
    var s1 := Step(s, d).value;
    if Degree(s1) == d {
      OnlyFollower(v, s1, w, d);
    } else {
      ValueOrder(s1, w, d + 1);
      Walk(v, s1, w, d, t - 1);
    }
  }

  /** A positive gap that is a multiple of d is at least d. */
  lemma Gap(d: nat, t: nat, x: int, y: int)
    requires d >= 1 && x < y && y == x + d * t
    ensures t >= 1 && x + d <= y && y == (x + d) + d * (t - 1)
  {
    assert d * t == d + d * (t - 1);
  }

  /** Two degree-d vectors whose values differ differ by a multiple of d. */
  lemma ExcessGap(d: nat, ev: nat, ew: nat, x: int, y: int)
    requires d >= 1 && x == d + d * ev && y == d + d * ew && x < y
    ensures ev < ew && y == x + d * (ew - ev)
  {
    if ew <= ev {
      MulMono(ew, ev, d);
    }
    assert d * ew == d * ev + d * (ew - ev);
  }

  /** From the last vector of a block's prefix, the step reaches the next one. */
  lemma NextExpmonInBlock(n: nat, d: nat, i: nat)
    requires n >= 1 && d >= 1 && i + 1 < Count(n, d)
    ensures Digits(Unrank(n, d, i), d + 1)
    ensures NextExpmon(Unrank(n, d, i), d) == Some(Unrank(n, d, i + 1))
  {
    var v := Unrank(n, d, i);
    var w := Unrank(n, d, i + 1);
    DegreeDigits(v);
    DegreeDigits(w);
    OffsetUnrank(n, d, i);
    OffsetUnrank(n, d, i + 1);
    OffsetOrder(v, w);
    LexValue(v, w, d + 1);
    ValueDegree(v, d);
    ValueDegree(w, d);
    var ev := Excess(v, d);
    var ew := Excess(w, d);
    ExcessGap(d, ev, ew, Value(v, d + 1), Value(w, d + 1));
    Walk(v, v, w, d, ew - ev);
  }

  /** Started from the zero vector, the step reaches the block's first vector. */
  lemma NextExpmonFromZeros(n: nat, d: nat)
    requires n >= 1 && d >= 1
    ensures Count(n, d) >= 1 && Digits(Zeros(n), d + 1)
    ensures NextExpmon(Zeros(n), d) == Some(Unrank(n, d, 0))
  {
    CountPositive(n, d);
    var v := Zeros(n);
    var w := Unrank(n, d, 0);
    DegreeDigits(w);
    OffsetUnrank(n, d, 0);
    assert Digits(v, d + 1);
    assert FollowsInBlock(v, w, d);
    ValueZeros(n, d + 1);
    ValueDegree(w, d);
    var ew := Excess(w, d);
    var t := FirstGap(d, ew, Value(w, d + 1));
    Walk(v, v, w, d, t);
  }

  lemma FirstGap(d: nat, ew: nat, y: int) returns (t: nat)
    requires d >= 1 && y == d + d * ew
    ensures 0 < y && y == 0 + d * t
  {
    t := 1 + ew;
    assert d * t == d + d * ew;
  }

  lemma {:induction false} ValueZeros(n: nat, b: nat)
    ensures Value(Zeros(n), b) == 0
  {
    if n > 0 {
      assert Zeros(n)[1..] == Zeros(n - 1);
      ValueZeros(n - 1, b);
    }
  }
}
