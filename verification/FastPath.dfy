/**
 The path of `strtod` on which a single floating operation gives the answer.  Each operation yields
 the pattern nearest to the exact result, ties to even; that the operands are exact is proved.
 (Section 4.3.1 of IEEE 754-2008.)
 */
module FastPath {
  import opened Arith
  import opened Binary64
  import opened Fmod
  import opened DecimalWalk

  /** Up to 2^53 every integer is a double. */
  const TWO53: nat := 9_007_199_254_740_992

  /** The pattern of an integer. */
  ghost predicate Holds(c: nat, v: nat) {
    c < INF && Scaled(c) == v * Pow(2, 1074)
  }

  // ---------- the operations ----------

  /** An integer converted. */
  method Convert(m: nat) returns (c: nat)
    ensures IsNearest(m * Pow(2, 1074), 1, c)
  {
    NearestExists(m * Pow(2, 1074), 1);
    c := Target(m * Pow(2, 1074), 1, 0);
  }

  /** `c` is the product of two doubles, rounded once; infinity stays infinity. */
  ghost predicate IsProduct(a: nat, b: nat, c: nat) {
    if a == INF then c == INF else IsNearest(Scaled(a) * Scaled(b), Pow(2, 1074), c)
  }

  ghost predicate IsQuotient(a: nat, b: nat, c: nat) {
    IsNearest(Scaled(a) * Pow(2, 1074), Scaled(b), c)
  }

  method Product(a: nat, b: nat) returns (c: nat)
    requires a <= INF && b < INF && Scaled(b) > 0
    ensures IsProduct(a, b, c)
  {
    if a == INF {
      return INF;
    }
    NearestExists(Scaled(a) * Scaled(b), Pow(2, 1074));
    c := Target(Scaled(a) * Scaled(b), Pow(2, 1074), 0);
  }

  method Sum(a: nat, b: nat) returns (c: nat)
    requires a < INF && b < INF
    ensures IsNearest(Scaled(a) + Scaled(b), 1, c)
  {
    hide Scaled, IsNearest, Target;
    NearestExists(Scaled(a) + Scaled(b), 1);
    c := Target(Scaled(a) + Scaled(b), 1, 0);
  }

  method Quotient(a: nat, b: nat) returns (c: nat)
    requires a < INF && b < INF && Scaled(b) > 0
    ensures IsQuotient(a, b, c)
  {
    NearestExists(Scaled(a) * Pow(2, 1074), Scaled(b));
    c := Target(Scaled(a) * Pow(2, 1074), Scaled(b), 0);
  }

  // ---------- exact operands ----------

  /** A mantissa of 53 bits times a small power of two has a pattern. */
  lemma {:induction false} HasPattern(m: nat, k: nat)
    requires m < 2 * TWO52 && k <= 970
    ensures Holds(Encode(m * Pow(2, k) * Pow(2, 1074)), m * Pow(2, k))
  {
    hide Pow, Scaled;
    var v := m * Pow(2, k) * Pow(2, 1074);
    PowAdd(2, k, 1074);
    MulAssoc(m, Pow(2, k), Pow(2, 1074));
    assert Fits(v, m, k + 1074);
    Pow2Consts();
    PowAdd(2, 52, 1);
    PowOne(2);
    PowAdd(2, 53, k + 1074);
    MulLt(m, Pow(2, 53), Pow(2, k + 1074));
    PowMono(2, k + 1127, 2098);
    EncodeIs(v);
  }

  /** An integer of up to 53 bits, or 2^53 itself, is converted exactly. */
  lemma {:induction false} IntegerIsExact(m: nat, c: nat)
    requires m <= TWO53 && IsNearest(m * Pow(2, 1074), 1, c)
    ensures Holds(c, m)
  {
    hide Pow, Scaled, IsNearest;
    var v := m * Pow(2, 1074);
    PowZero(2);
    PowOne(2);
    if m < TWO53 {
      HasPattern(m, 0);
      assert m * 1 * Pow(2, 1074) == v;
    } else {
      HasPattern(TWO52, 1);
      assert TWO52 * 2 == m;
    }
    ExactNearest(v, 1, Encode(v));
    NearestUnique(v, 1, c, Encode(v));
  }

  /** Powers of ten up to 10^22 are doubles. */
  lemma {:induction false} TenIsDouble(q: nat)
    requires q <= 22
    ensures Holds(Encode(Pow(10, q) * Pow(2, 1074)), Pow(10, q))
  {
    hide Pow, Scaled;
    PowProduct(5, 2, q);
    FiveBelowTwo(7);
    PowSucc(5, 21);
    PowMono(5, q, 22);
    Pow2Consts();
    PowAdd(2, 49, 3);
    Eight();
    HasPattern(Pow(5, q), q);
  }

  lemma Eight()
    ensures Pow(2, 3) == 8
  {
  }

  /** Each step to the next power is exact. */
  lemma {:induction false} TenStepIsExact(p: nat, ten: nat, q: nat, c: nat)
    requires q < 22 && Holds(p, Pow(10, q)) && Holds(ten, 10) && IsProduct(p, ten, c)
    ensures Holds(c, Pow(10, q + 1))
  {
    hide Pow, Scaled, IsNearest;
    var t := Pow(2, 1074);
    var n := Scaled(p) * Scaled(ten);
    var e := Encode(Pow(10, q + 1) * t);
    TenIsDouble(q + 1);
    PowSucc(10, q);
    FourFactors(Pow(10, q), t);
    ExactNearest(n, t, e);
    NearestUnique(n, t, c, e);
  }

  lemma FourFactors(p: nat, t: nat)
    ensures 10 * p * t * t == p * t * (10 * t)
  {
    MulAssoc(p * t, 10, t);
    MulSwap(p, t, 10);
  }

  /** The loop `p = p * 10.0`. */
  method TenTo(q: nat) returns (p: nat)
    requires q <= 22
    ensures Holds(p, Pow(10, q))
  {
    hide Pow, Scaled, IsNearest;
    PowZero(10);
    p := Convert(1);
    IntegerIsExact(1, p);
    var ten := Convert(10);
    IntegerIsExact(10, ten);
    Positive(ten, 10);
    var k: nat := q;
    while k > 0
      invariant k <= q && Holds(p, Pow(10, q - k))
    {
      var c := Product(p, ten);
      TenStepIsExact(p, ten, q - k, c);
      p := c;
      k := k - 1;
    }
  }

  // ---------- one rounding ----------

  lemma {:induction false} ProductRounds(v: nat, p: nat, m: nat, q: nat, c: nat)
    requires Holds(v, m) && Holds(p, Pow(10, q)) && IsProduct(v, p, c)
    ensures IsNearest(Num(m, q), Den(q), c)
  {
    hide Pow, Scaled, IsNearest;
    var t, w := Pow(2, 1074), Pow(10, q);
    PowZero(10);
    MulAssoc(m * t, w, t);
    MulSwap(m, t, w);
    NearestRatio(Scaled(v) * Scaled(p), t, Num(m, q), Den(q), c);
  }

  lemma {:induction false} QuotientRounds(v: nat, p: nat, m: nat, q: nat, c: nat)
    requires q > 0 && Holds(v, m) && Holds(p, Pow(10, q)) && IsQuotient(v, p, c)
    ensures IsNearest(Num(m, 0 - q), Den(0 - q), c)
  {
    hide Pow, Scaled, IsNearest;
    var t, w := Pow(2, 1074), Pow(10, q);
    PowZero(10);
    MulSwap(m * t, t, w);
    MulAssoc(m * t, w, t);
    MulPositive(w, t);
    NearestRatio(Scaled(v) * t, Scaled(p), Num(m, 0 - q), Den(0 - q), c);
  }

  lemma {:induction false} IntegerRounds(m: nat, c: nat)
    requires IsNearest(m * Pow(2, 1074), 1, c)
    ensures IsNearest(Num(m, 0), Den(0), c)
  {
    hide Pow, Scaled, IsNearest;
    PowZero(10);
  }

  lemma Positive(p: nat, w: nat)
    requires Holds(p, w) && w > 0
    ensures Scaled(p) > 0
  {
    hide Pow, Scaled;
    MulPositive(w, Pow(2, 1074));
  }
}
