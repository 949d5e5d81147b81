/**
 Decimals as digits and an exponent: when two denote the same number, and when the same digits with two
 exponents round alike.
 */
module Exponents {
  import opened Arith
  import opened Digits
  import opened Binary64
  import opened DecimalWalk

  // ---------- the same number ----------

  /** Both decimals denote the same number: they round alike. */
  ghost predicate SameNumber(f: nat, x: int, g: nat, y: int) {
    Num(f, x) * Den(y) == Num(g, y) * Den(x)
  }

  lemma SameSelf(f: nat, x: int)
    ensures SameNumber(f, x, f, x)
  {
  }

  lemma {:induction false} SameTenth(f: nat, x: int, g: nat, y: int)
    requires SameNumber(f, x, 10 * g, y)
    ensures SameNumber(f, x, g, y + 1)
  {
    hide Num, Den;
    TrailingZero(g, y);
    CrossMultiply(Num(f, x), Den(x), Num(10 * g, y), Den(y), Num(g, y + 1), Den(y + 1));
  }

  lemma CrossMultiply(a: nat, b: nat, c: nat, d: nat, e: nat, f: nat)
    requires d > 0 && a * d == c * b && c * f == e * d
    ensures a * f == e * b
  {
    MulSwap(a, f, d);
    MulSwap(c, b, f);
    MulSwap(e, d, b);
    if a * f < e * b {
      MulLt(a * f, e * b, d);
    } else if e * b < a * f {
      MulLt(e * b, a * f, d);
    }
  }

  lemma {:induction false} SameNearest(f: nat, x: int, g: nat, y: int, b: nat)
    requires SameNumber(f, x, g, y) && IsNearest(Num(g, y), Den(y), b)
    ensures IsNearest(Num(f, x), Den(x), b)
  {
    hide Num, Den, IsNearest;
    NearestRatio(Num(g, y), Den(y), Num(f, x), Den(x), b);
  }

  lemma {:induction false} OnlyOne(n: nat, u: nat, r: nat)
    requires u > 0 && IsNearest(n, u, r)
    ensures forall t: nat :: IsNearest(n, u, t) ==> t == r
  {
    hide IsNearest;
    forall t: nat | IsNearest(n, u, t)
      ensures t == r
    {
      NearestUnique(n, u, t, r);
    }
  }

  // ---------- other exponents ----------

  /** A larger number is not rounded lower. */
  lemma {:induction false} NearestMono(m: nat, n: nat, u: nat, a: nat, b: nat)
    requires u > 0 && m <= n && IsNearest(m, u, a) && IsNearest(n, u, b)
    ensures a <= b
  {
    hide IsNearest, Halfway;
    if b < a {
      assert b < INF by {
        NearestBelowInf(m, u, a);
      }
      StepUpIffBelow(m, u, b, a);
      StepUpIffBelow(n, u, b, b);
    }
  }

  lemma NearestBelowInf(n: nat, u: nat, r: nat)
    requires IsNearest(n, u, r)
    ensures r <= INF
  {
  }

  /** Ten times a number rounds elsewhere, unless it rounds to zero or to infinity. */
  lemma {:induction false} TenfoldMoves(m: nat, n: nat, u: nat, b: nat)
    requires u > 0 && 10 * m <= n && IsNearest(m, u, b) && IsNearest(n, u, b)
    ensures b == 0 || b >= INF
  {
    hide IsNearest, Halfway, Scaled, Pow;
    if 0 < b < INF {
      StepUpIffBelow(m, u, b - 1, b);
      StepUpIffBelow(n, u, b, b);
      HalfwaysApart(b);
      MulLt(Halfway(b), 10 * Halfway(b - 1), u);
      MulAssoc(10, Halfway(b - 1), u);
    }
  }

  lemma {:induction false} HalfwaysApart(b: nat)
    requires 0 < b < INF
    ensures Halfway(b) < 10 * Halfway(b - 1)
  {
    hide Scaled, Pow;
    HalfwayIsMidpoint(b);
    HalfwayIsMidpoint(b - 1);
    ScaledNext(b);
    ScaledMono(0, b);
    OneUnit(b);
  }

  lemma {:induction false} OneUnit(b: nat)
    requires 0 < b < INF
    ensures Pow(2, Shift(b)) <= Scaled(b)
  {
    assert Mant(b) > 0;
    hide Mant, Shift, Pow;
    MulLe(1, Mant(b), Pow(2, Shift(b)));
  }

  /** Places of the exponent are zeros of the number. */
  lemma {:induction false} ShiftedNumber(f: nat, x: int, k: nat)
    ensures SameNumber(f * Pow(10, k), x, f, x + k)
    decreases k
  {
    hide SameNumber;
    PowZero(10);
    if k == 0 {
      SameSelf(f, x);
    } else {
      PowSucc(10, k - 1);
      hide Pow;
      TenTimes(f, Pow(10, k - 1));
      ShiftedNumber(10 * f, x, k - 1);
      assert 10 * f * Pow(10, k - 1) == f * Pow(10, k);
      SameTenth(f * Pow(10, k), x, f, x + k - 1);
    }
  }

  /** Does f * 10^x round to infinity?  It reaches the halfway point above the largest double. */
  predicate Overflows(f: nat, x: int) {
    HalfSign(f, x, INF - 1) >= 0
  }

  /** Does it round to zero?  It does not exceed half the smallest double. */
  predicate Vanishes(f: nat, x: int) {
    HalfSign(f, x, 0) <= 0
  }

  lemma {:induction false} EndsDecide(f: nat, x: int, a: nat)
    requires IsNearest(Num(f, x), Den(x), a)
    ensures (a == INF <==> Overflows(f, x)) && (a == 0 <==> Vanishes(f, x))
  {
    hide Num, Den, HalfSign, IsNearest, StepUp;
    NearestBelowInf(Num(f, x), Den(x), a);
    StepUpIffBelow(Num(f, x), Den(x), INF - 1, a);
    StepUpIffBelow(Num(f, x), Den(x), 0, a);
    StepUpIsSign(f, x, INF - 1);
    StepUpIsSign(f, x, 0);
  }

  /** The same digits with two exponents, the one greater: they round alike only where the smaller
      overflows or the greater vanishes. */
  lemma {:induction false} TwoExponents(f: nat, x: int, y: int, a: nat, b: nat)
    requires f > 0 && x < y && IsNearest(Num(f, x), Den(x), a) && IsNearest(Num(f, y), Den(y), b)
    ensures a == b <==> Overflows(f, x) || Vanishes(f, y)
  {
    hide Num, Den, IsNearest, Overflows, Vanishes;
    EndsDecide(f, x, a);
    EndsDecide(f, y, b);
    AlikeAtEnds(f, x, y, a, b);
  }

  lemma {:induction false} AlikeAtEnds(f: nat, x: int, y: int, a: nat, b: nat)
    requires f > 0 && x < y && IsNearest(Num(f, x), Den(x), a) && IsNearest(Num(f, y), Den(y), b)
    ensures a == b <==> a == INF || b == 0
  {
    var k, g := y - x, f * Pow(10, y - x);
    ShiftedNumber(f, x, k);
    SameNearest(g, x, f, y, b);
    TenfoldNum(f, x, k);
    NearestBelowInf(Num(g, x), Den(x), b);
    hide Num, Den, IsNearest, Pow;
    NearestMono(Num(f, x), Num(g, x), Den(x), a, b);
    if a == b {
      TenfoldMoves(Num(f, x), Num(g, x), Den(x), a);
    }
  }

  lemma {:induction false} TenfoldNum(f: nat, x: int, k: nat)
    requires k > 0
    ensures 10 * Num(f, x) <= Num(f * Pow(10, k), x)
  {
    hide Pow;
    var p, t := Pow(10, Pos(x)), Pow(2, 1074);
    PowSucc(10, k - 1);
    MulLe(10, Pow(10, k), f);
    MulLe(10 * f, f * Pow(10, k), p);
    MulLe(10 * f * p, f * Pow(10, k) * p, t);
    MulAssoc(10, f, p);
    MulAssoc(10, f * p, t);
  }
}
