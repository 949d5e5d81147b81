/**
 The guess of `strtod`: the kept integer converted, multiplied or divided by powers of ten, every
 operation rounded once.  How far that ends from the decimal, and so from its nearest pattern.
 (Section 4.3.1 of IEEE 754-2008.)
 */
module Scaling {
  import opened Arith
  import opened Binary64
  import opened DecimalWalk
  import opened FastPath
  import Fmod

  // ---------- the error of one rounding ----------

  /** The step from a pattern to the next. */
  function Unit(b: nat): (w: nat)
    ensures w > 0
  {
    Pow(2, Shift(b))
  }

  lemma {:induction false} UnitBounds(b: nat)
    requires b < INF
    ensures Scaled(b) < 2 * TWO52 * Unit(b)
    ensures Unit(b) * TWO52 <= Scaled(b) + TWO52
    ensures b >= TWO52 ==> Unit(b) * TWO52 <= Scaled(b)
  {
    var m, w := Mant(b), Unit(b);
    if b < TWO52 {
      assert Shift(b) == 0;
      PowZero(2);
    } else {
      assert ExpField(b) > 0 && m >= TWO52;
      MulLe(TWO52, m, w);
    }
    MulLt(m, 2 * TWO52, w);
  }

  /** Rounding errs by half of one part in 2^52, and among the subnormals by half a unit (`a`). */
  lemma {:induction false} RoundError(n: nat, u: nat, r: nat, a: nat)
    requires u > 0 && IsNearest(n, u, r) && a <= 1 && (a == 1 || n >= TWO52 * u)
    ensures (Scaled(r) * u - n) * (2 * TWO52) <= n + a * u * TWO52
    ensures r < INF ==> (n - Scaled(r) * u) * (2 * TWO52) <= n + a * u * TWO52
  {
    hide Scaled, Halfway, Unit;
    assert r <= INF;
    hide IsNearest;
    NormalAbove(n, u, r);
    if r > 0 {
      ErrorAbove(n, u, r, a);
    } else {
      ZeroValue();
    }
    if r < INF {
      ErrorBelow(n, u, r, a);
    }
  }

  lemma ZeroValue()
    ensures Scaled(0) == 0
  {
  }

  /** A value of at least 2^-1022 is rounded to a normal pattern, and only exactly to the first. */
  lemma {:induction false} NormalAbove(n: nat, u: nat, r: nat)
    requires u > 0 && IsNearest(n, u, r)
    ensures n >= TWO52 * u ==> r >= TWO52 && (r == TWO52 ==> Scaled(r) * u <= n)
  {
    hide IsNearest, Scaled, Halfway;
    FirstNormal();
    if n >= TWO52 * u && r < TWO52 {
      StepUpIffBelow(n, u, r, r);
      HalfwayIsMidpoint(r);
      ScaledMono(r, r + 1);
      ScaledMono(r + 1, TWO52);
      MulLt(Halfway(r), 2 * TWO52, u);
    }
  }

  lemma FirstNormal()
    ensures Scaled(TWO52) == TWO52
  {
    PowZero(2);
  }

  lemma {:induction false} ErrorAbove(n: nat, u: nat, r: nat, a: nat)
    requires u > 0 && IsNearest(n, u, r) && 0 < r <= INF && a <= 1
    requires a == 1 || (r >= TWO52 && (r == TWO52 ==> Scaled(r) * u <= n))
    ensures (Scaled(r) * u - n) * (2 * TWO52) <= n + a * u * TWO52
  {
    hide IsNearest, Scaled, Halfway, Unit;
    if a == 1 || r > TWO52 {
      StepUpIffBelow(n, u, r - 1, r);
      HalfwayIs2(r - 1);
      UnitBounds(r - 1);
      LowArith(Scaled(r - 1), Unit(r - 1), u, n, TWO52, a);
    }
  }

  lemma {:induction false} ErrorBelow(n: nat, u: nat, r: nat, a: nat)
    requires u > 0 && IsNearest(n, u, r) && r < INF && a <= 1 && (a == 1 || r >= TWO52)
    ensures (n - Scaled(r) * u) * (2 * TWO52) <= n + a * u * TWO52
  {
    hide IsNearest, Scaled, Halfway, Unit;
    StepUpIffBelow(n, u, r, r);
    HalfwayIs2(r);
    UnitBounds(r);
    HighArith(Scaled(r), Unit(r), u, n, TWO52, a);
  }

  lemma HalfwayIs2(b: nat)
    requires b < INF
    ensures Halfway(b) == 2 * Scaled(b) + Unit(b) && Scaled(b + 1) == Scaled(b) + Unit(b)
  {
    HalfwayIs(b);
    ScaledNext(b);
  }

  lemma LowArith(s: nat, w: nat, u: nat, n: nat, t: nat, a: nat)
    requires 2 * n >= (2 * s + w) * u && w * t <= s + a * t
    ensures ((s + w) * u - n) * (2 * t) <= n + a * u * t
  {
    Distrib(2 * s, w, u);
    Distrib(s, w, u);
    var x, y := s * u, w * u;
    assert 2 * s * u == 2 * x;
    MulLe(2 * (x + y - n), y, t);
    assert (x + y - n) * (2 * t) == 2 * (x + y - n) * t;
    WeighUnit(s, w, u, t, a);
  }

  lemma HighArith(s: nat, w: nat, u: nat, n: nat, t: nat, a: nat)
    requires 2 * n <= (2 * s + w) * u && w * t <= s + a * t
    ensures (n - s * u) * (2 * t) <= n + a * u * t
  {
    Distrib(2 * s, w, u);
    var x, y := s * u, w * u;
    assert 2 * s * u == 2 * x;
    MulLe(2 * (n - x), y, t);
    assert (n - x) * (2 * t) == 2 * (n - x) * t;
    WeighUnit(s, w, u, t, a);
    if n < x {
      MulLe(n - x, 0, 2 * t);
    }
  }

  lemma WeighUnit(s: nat, w: nat, u: nat, t: nat, a: nat)
    requires w * t <= s + a * t
    ensures w * u * t <= s * u + a * u * t
  {
    MulLe(w * t, s + a * t, u);
    Distrib(s, a * t, u);
    MulSwap(w, t, u);
    MulSwap(a, t, u);
  }

  // ---------- how the error grows ----------

  /**
   Pattern `v` is near the rational `n / u`: off by at most `k` parts in 2^52 of it and, with `a`, one unit.
   An overflowed one is only known not to be too high.
   */
  ghost predicate Near(v: nat, n: nat, u: nat, k: nat, a: nat) {
    && v <= INF
    && (Scaled(v) * u - n) * TWO52 <= k * n + a * u * TWO52
    && (v < INF ==> (n - Scaled(v) * u) * TWO52 <= k * n + a * u * TWO52)
  }

  /** One multiplication by a power of ten. */
  lemma {:induction false} ProductNear(v: nat, p: nat, c: nat, n: nat, w: nat, k: nat)
    requires Near(v, n, 1, k, 0) && v < INF && Holds(p, w) && w > 0 && n >= 2 * TWO52 && 2 * k <= TWO52
    requires IsProduct(v, p, c)
    ensures Near(c, n * w, 1, k + 1, 0)
  {
    hide IsNearest, Scaled, Pow;
    var s, t := Scaled(v), Pow(2, 1074);
    MulAssoc(s, w, t);
    NearestRatio(s * Scaled(p), t, s * w, 1, c);
    NotSmall(s, n, k, TWO52);
    MulLe(1, w, s);
    NearestAtMost(s * w, 1, c);
    RoundError(s * w, 1, c, 0);
    GrowLow(s, Scaled(c), n, w, k, TWO52);
    if c < INF {
      GrowHigh(s, Scaled(c), n, w, k, TWO52);
    }
  }

  lemma NearestAtMost(n: nat, u: nat, r: nat)
    requires IsNearest(n, u, r)
    ensures r <= INF
  {
  }

  lemma NotSmall(s: nat, n: nat, k: nat, t: nat)
    requires (n - s) * t <= k * n && 2 * k <= t && n >= 2 * t && t > 0
    ensures s >= t
  {
    MulLe(2 * k, t, n);
    if s < t {
      MulLe(n - t + 1, n - s, t);
      MulLe(t, n - t, t);
      assert 2 * (n - t + 1) * t == (n + (n - 2 * t + 2)) * t;
      MulLe(n + 1, n + (n - 2 * t + 2), t);
      Distrib(n, 1, t);
    }
  }

  /** The value is at most twice the rational. */
  lemma AtMostTwice(s: nat, n: nat, k: nat, t: nat)
    requires (s - n) * t <= k * n && k <= t && t > 0
    ensures s <= 2 * n
  {
    MulLe(k, t, n);
    if s > 2 * n {
      MulLe(n + 1, s - n, t);
      Distrib(n, 1, t);
    }
  }

  lemma GrowLow(s: nat, s': nat, n: nat, w: nat, k: nat, t: nat)
    requires (s - n) * t <= k * n && k <= t && t > 0 && (s' - s * w) * (2 * t) <= s * w
    ensures (s' - n * w) * t <= (k + 1) * (n * w)
  {
    AtMostTwice(s, n, k, t);
    MulLe(s, 2 * n, w);
    MulLe((s - n) * t, k * n, w);
    GrowParts(s, n, w, k, t);
    var x, y := s * w, n * w;
    Twice(s' - x, t);
    Distrib(s' - x, x - y, t);
    Halved((s' - y) * t, (k + 1) * y, (s' - x) * t, (x - y) * t, k * y, y);
  }

  lemma GrowHigh(s: nat, s': nat, n: nat, w: nat, k: nat, t: nat)
    requires (s - n) * t <= k * n && (n - s) * t <= k * n && k <= t && t > 0 && (s * w - s') * (2 * t) <= s * w
    ensures (n * w - s') * t <= (k + 1) * (n * w)
  {
    AtMostTwice(s, n, k, t);
    MulLe(s, 2 * n, w);
    MulLe((n - s) * t, k * n, w);
    GrowParts(s, n, w, k, t);
    var x, y := s * w, n * w;
    Twice(x - s', t);
    Distrib(x - s', y - x, t);
    Halved((y - s') * t, (k + 1) * y, (x - s') * t, (y - x) * t, k * y, y);
  }

  lemma Twice(x: int, t: int)
    ensures x * (2 * t) == 2 * (x * t)
  {
  }

  lemma GrowParts(s: nat, n: nat, w: nat, k: nat, t: nat)
    ensures (s - n) * t * w == (s * w - n * w) * t && (n - s) * t * w == (n * w - s * w) * t
    ensures k * n * w == k * (n * w) && 2 * n * w == 2 * (n * w) && (k + 1) * (n * w) == k * (n * w) + n * w
  {
    MulSwap(s - n, t, w);
    MulSwap(n - s, t, w);
    DistribSub(s, n, w);
    DistribSub(n, s, w);
    MulAssoc(k, n, w);
    Distrib(k, 1, n * w);
  }

  lemma Halved(whole: int, bound: int, x: int, y: int, z: int, m: int)
    requires whole == x + y && 2 * x <= 2 * m && y <= z && bound == z + m
    ensures whole <= bound
  {
  }

  /** Past the largest double, more factors change nothing. */
  lemma {:induction false} OverflowNear(n: nat, w: nat, k: nat)
    requires Near(INF, n, 1, k, 0) && w > 0
    ensures Near(INF, n * w, 1, k + 1, 0)
  {
    hide Scaled;
    var s := Scaled(INF);
    MulLe(1, w, n);
    MulLe(s - n * w, s - n, TWO52);
    MulLe(k * n, (k + 1) * n, w);
    MulLe(n, n * w, k);
    Distrib(k, 1, n * w);
  }

  /** One division by a power of ten. */
  lemma {:induction false} QuotientNear(v: nat, p: nat, c: nat, n: nat, u: nat, w: nat, k: nat)
    requires Near(v, n, u, k, 1) && v < INF && u > 0 && Holds(p, w) && w >= 3 && k <= TWO52
    requires IsQuotient(v, p, c)
    ensures Near(c, n, u * w, k + 1, 1) && c < INF
  {
    hide IsNearest, Scaled, Pow;
    var s, t := Scaled(v), Pow(2, 1074);
    MulSwap(s, t, w);
    MulPositive(w, t);
    MulAssoc(s, w, t);
    NearestRatio(s * t, Scaled(p), s, w, c);
    NoLarger(v, w, c);
    RoundError(s, w, c, 1);
    ShrinkLow(s, Scaled(c), n, u, w, k, TWO52);
    ShrinkHigh(s, Scaled(c), n, u, w, k, TWO52);
  }

  /** Dividing does not make a number larger. */
  lemma {:induction false} NoLarger(v: nat, w: nat, c: nat)
    requires v < INF && w > 0 && IsNearest(Scaled(v), w, c)
    ensures c <= v
  {
    hide IsNearest, Scaled, Halfway;
    if c > v {
      StepUpIffBelow(Scaled(v), w, v, c);
      HalfwayIs2(v);
      MulLe(1, w, Halfway(v));
    }
  }

  lemma ShrinkLow(s: nat, s': nat, n: nat, u: nat, w: nat, k: nat, t: nat)
    requires (s * u - n) * t <= k * n + u * t && k <= t && t > 0 && w >= 3 && (s' * w - s) * (2 * t) <= s + w * t
    ensures (s' * (u * w) - n) * t <= (k + 1) * n + u * w * t
  {
    ShrunkParts(s, n, u, w, k, t);
    var x, y := s * u, s' * (u * w);
    MulLe((s' * w - s) * (2 * t), s + w * t, u);
    ShrinkSide(s', s, u, w, t);
    Distrib(y - x, x - n, t);
    Twice(y - x, t);
  }

  lemma ShrinkHigh(s: nat, s': nat, n: nat, u: nat, w: nat, k: nat, t: nat)
    requires (s * u - n) * t <= k * n + u * t && (n - s * u) * t <= k * n + u * t
    requires k <= t && t > 0 && w >= 3 && (s - s' * w) * (2 * t) <= s + w * t
    ensures (n - s' * (u * w)) * t <= (k + 1) * n + u * w * t
  {
    ShrunkParts(s, n, u, w, k, t);
    var x, y := s * u, s' * (u * w);
    MulLe((s - s' * w) * (2 * t), s + w * t, u);
    ShrinkSide(s', s, u, w, t);
    Distrib(x - y, n - x, t);
    Twice(x - y, t);
  }

  /** What the rounding of a quotient weighs, over the greater denominator. */
  lemma ShrinkSide(s': nat, s: nat, u: nat, w: nat, t: nat)
    ensures (s' * w - s) * (2 * t) * u == (s' * (u * w) - s * u) * (2 * t)
    ensures (s - s' * w) * (2 * t) * u == (s * u - s' * (u * w)) * (2 * t)
    ensures (s + w * t) * u == s * u + u * w * t
  {
    MulSwap(s' * w - s, 2 * t, u);
    MulSwap(s - s' * w, 2 * t, u);
    DistribSub(s' * w, s, u);
    DistribSub(s, s' * w, u);
    MulSwap(s', w, u);
    MulAssoc(s', u, w);
    Distrib(s, w * t, u);
    MulSwap(w, t, u);
  }

  lemma ShrunkParts(s: nat, n: nat, u: nat, w: nat, k: nat, t: nat)
    requires (s * u - n) * t <= k * n + u * t && k <= t && t > 0 && w >= 3
    ensures s * u <= 2 * n + u && (k + 1) * n == k * n + n && u + 2 * (u * t) <= u * w * t
  {
    var x := s * u;
    MulLe(k, t, n);
    if x > 2 * n + u {
      MulLe(n + u + 1, x - n, t);
      Distrib(n + u, 1, t);
      Distrib(n, u, t);
    }
    Distrib(k, 1, n);
    MulLe(3, w, u * t);
    MulLe(1, t, u);
    MulSwap(u, w, t);
  }

  // ---------- near in value is near in patterns ----------

  /** Patterns further up lie at least as many steps higher. */
  lemma {:induction false} StepsApart(a: nat, d: nat)
    requires a + d <= INF
    ensures Scaled(a) + d * Unit(a) <= Scaled(a + d) && (a + d < INF ==> Unit(a) <= Unit(a + d))
    decreases d
  {
    if d > 0 {
      StepsApart(a, d - 1);
      HalfwayIs2(a + d - 1);
      UnitUp(a + d - 1);
      hide Scaled, Unit;
      Distrib(d - 1, 1, Unit(a));
    }
  }

  lemma {:induction false} UnitUp(b: nat)
    requires b < INF
    ensures Unit(b) <= Unit(b + 1)
  {
    NextFields(b);
    PowMono(2, Shift(b), Shift(b + 1));
  }

  /** The guess is at most 64 patterns below the nearest one. */
  lemma {:induction false} NotFarBelow(v: nat, n: nat, u: nat, t: nat)
    requires Near(v, n, u, 19, 1) && v < INF && u > 0 && IsNearest(n, u, t)
    ensures t <= v + 64
  {
    hide Scaled, IsNearest, Halfway, Unit;
    NearestAtMost(n, u, t);
    if t > v + 64 {
      StepUpIffBelow(n, u, t - 1, t);
      StepsApart(v, t - 1 - v);
      HalfwayIs2(t - 1);
      UnitBounds(v);
      MulLe(64, t - 1 - v, Unit(v));
      TooFarBelow(Scaled(v), Scaled(t - 1), Unit(v), Unit(t - 1), n, u);
    }
  }

  lemma TooFarBelow(s: nat, r: nat, w: nat, x: nat, n: nat, u: nat)
    requires s + 64 * w <= r && (2 * r + x) * u <= 2 * n && u > 0 && w > 0 && s < 2 * TWO52 * w
    ensures (n - s * u) * TWO52 > 19 * n + 1 * u * TWO52
  {
    Distrib(2 * r, x, u);
    MulLe(s + 64 * w, r, u);
    Distrib(s, 64 * w, u);
    MulLt(s, 2 * TWO52 * w, u);
    var y, z := s * u, w * u;
    assert 64 * w * u == 64 * z && 2 * TWO52 * w * u == 2 * TWO52 * z && 2 * r * u == 2 * (r * u);
    MulLe(1, w, u);
  }

  /** And at most 64 above it. */
  lemma {:induction false} NotFarAbove(v: nat, n: nat, u: nat, t: nat)
    requires Near(v, n, u, 19, 1) && u > 0 && IsNearest(n, u, t)
    ensures v <= t + 64
  {
    hide Scaled, IsNearest, Halfway, Unit;
    if v > t + 64 {
      StepUpIffBelow(n, u, t, t);
      HalfwayIs2(t);
      UnitBounds(t + 1);
      StepsApart(t + 1, v - t - 1);
      MulLe(64, v - t - 1, Unit(t + 1));
      TooFarAbove(Scaled(v), Scaled(t), Unit(t), Scaled(t + 1), Unit(t + 1), n, u);
    }
  }

  lemma TooFarAbove(s: nat, q: nat, x: nat, r: nat, w: nat, n: nat, u: nat)
    requires r == q + x && r + 64 * w <= s && 2 * n <= (2 * q + x) * u && u > 0 && w > 0 && r < 2 * TWO52 * w
    ensures (s * u - n) * TWO52 > 19 * n + 1 * u * TWO52
  {
    MulLe(2 * q + x, 2 * r, u);
    MulLe(r + 64 * w, s, u);
    Distrib(r, 64 * w, u);
    MulLt(r, 2 * TWO52 * w, u);
    var y, z := r * u, w * u;
    assert 64 * w * u == 64 * z && 2 * TWO52 * w * u == 2 * TWO52 * z && 2 * r * u == 2 * y;
    MulLe(1, w, u);
  }

  /** The guess brought back from infinity, and the walk's reach. */
  lemma {:induction false} WithinReach(v: nat, n: nat, u: nat, t: nat)
    requires Near(v, n, u, 19, 1) && u > 0 && IsNearest(n, u, t)
    ensures var g := if v > INF - 1 then INF - 1 else v; -64 <= t - g <= 64
  {
    hide Scaled, IsNearest;
    NearestAtMost(n, u, t);
    NotFarAbove(v, n, u, t);
    if v < INF {
      NotFarBelow(v, n, u, t);
    }
  }

  // ---------- from the kept digits to all of them ----------

  /** A rational that is a little larger: one part in 2^52 more. */
  lemma {:induction false} NearMore(v: nat, n: nat, u: nat, n': nat, u': nat, k: nat)
    requires Near(v, n, u, k, 1) && u > 0 && u' > 0
    requires n * u' <= n' * u && (n' * u - n * u') * TWO52 <= n * u'
    ensures Near(v, n', u', k + 1, 1)
  {
    hide Scaled;
    MoreLow(Scaled(v), n, u, n', u', k, TWO52);
    if v < INF {
      MoreHigh(Scaled(v), n, u, n', u', k, TWO52);
    }
  }

  /** Equal rationals have the same patterns near them. */
  lemma {:induction false} NearSame(v: nat, n: nat, u: nat, n': nat, u': nat, k: nat)
    requires Near(v, n, u, k, 1) && u > 0 && n * u' == n' * u && k > 0
    ensures Near(v, n', u', k, 1)
  {
    hide Scaled;
    SameSide(Scaled(v), n, u, n', u', k, TWO52);
  }

  lemma SameSide(s: nat, n: nat, u: nat, n': nat, u': nat, k: nat, t: nat)
    requires u > 0 && n * u' == n' * u && k > 0
    ensures (s * u - n) * t <= k * n + 1 * u * t ==> (s * u' - n') * t <= k * n' + 1 * u' * t
    ensures (n - s * u) * t <= k * n + 1 * u * t ==> (n' - s * u') * t <= k * n' + 1 * u' * t
  {
    MoreParts(s, n, u, n', u', k, t);
    MoreParts(s, n, u, n', u', k - 1, t);
    var y := n * u';
    if (s * u - n) * t <= k * n + u * t {
      MulLe((s * u - n) * t, k * n + u * t, u');
      Cancel((s * u' - n') * t, k * n' + u' * t, u);
    }
    if (n - s * u) * t <= k * n + u * t {
      MulLe((n - s * u) * t, k * n + u * t, u');
      Cancel((n' - s * u') * t, k * n' + u' * t, u);
    }
  }

  lemma MoreLow(s: nat, n: nat, u: nat, n': nat, u': nat, k: nat, t: nat)
    requires (s * u - n) * t <= k * n + 1 * u * t && u > 0 && n * u' <= n' * u
    ensures (s * u' - n') * t <= (k + 1) * n' + 1 * u' * t
  {
    MoreParts(s, n, u, n', u', k, t);
    var y, y', z := n * u', n' * u, s * u * u';
    MulLe((s * u - n) * t, k * n + u * t, u');
    MulLe(z - y', z - y, t);
    MulLe(y, y', k);
    Cancel((s * u' - n') * t, (k + 1) * n' + u' * t, u);
  }

  lemma MoreHigh(s: nat, n: nat, u: nat, n': nat, u': nat, k: nat, t: nat)
    requires (n - s * u) * t <= k * n + 1 * u * t && u > 0
    requires n * u' <= n' * u && (n' * u - n * u') * t <= n * u'
    ensures (n' - s * u') * t <= (k + 1) * n' + 1 * u' * t
  {
    MoreParts(s, n, u, n', u', k, t);
    var y, y', z := n * u', n' * u, s * u * u';
    MulLe((n - s * u) * t, k * n + u * t, u');
    Distrib(y' - y, y - z, t);
    MulLe(y, y', k + 1);
    Distrib(k, 1, y);
    Cancel((n' - s * u') * t, (k + 1) * n' + u' * t, u);
  }

  lemma MoreParts(s: nat, n: nat, u: nat, n': nat, u': nat, k: nat, t: nat)
    ensures var y, y', z := n * u', n' * u, s * u * u';
      && (s * u - n) * t * u' == (z - y) * t && (n - s * u) * t * u' == (y - z) * t
      && (k * n + u * t) * u' == k * y + u * u' * t
      && (s * u' - n') * t * u == (z - y') * t && (n' - s * u') * t * u == (y' - z) * t
      && ((k + 1) * n' + u' * t) * u == (k + 1) * y' + u * u' * t
      && (k + 1) * y' == k * y' + y'
  {
    MulSwap(s * u - n, t, u');
    DistribSub(s * u, n, u');
    MulSwap(n - s * u, t, u');
    DistribSub(n, s * u, u');
    Distrib(k * n, u * t, u');
    MulAssoc(k, n, u');
    MulSwap(u, t, u');
    MulSwap(s * u' - n', t, u);
    DistribSub(s * u', n', u);
    MulSwap(s, u', u);
    MulSwap(n' - s * u', t, u);
    DistribSub(n', s * u', u);
    Distrib((k + 1) * n', u' * t, u);
    MulAssoc(k + 1, n', u);
    MulSwap(u', t, u);
    Distrib(k, 1, n' * u);
  }

  lemma Cancel(x: int, y: int, u: nat)
    requires u > 0 && x * u <= y * u
    ensures x <= y
  {
    if y < x {
      MulLt(y, x, u);
    }
  }

  // ---------- the operations in order ----------

  /** The pattern of the literal 1.0e22. */
  const TEN22: nat := 0x4480_F0CF_064D_D592

  lemma {:induction false} TenTo22()
    ensures Holds(TEN22, Pow(10, 22))
  {
    var m := 0x10_F0CF_064D_D592;
    assert Mant(TEN22) == m && Shift(TEN22) == 1095 && TEN22 < INF;
    PowAdd(2, 21, 1074);
    Digits22();
    hide Pow, Mant, Shift;
    MulAssoc(m, Pow(2, 21), Pow(2, 1074));
  }

  lemma {:induction false} Digits22()
    ensures Pow(10, 22) == 0x10_F0CF_064D_D592 * Pow(2, 21)
  {
    TenTo9();
    PowAdd(10, 9, 9);
    PowAdd(10, 18, 4);
    assert Pow(10, 4) == 10_000;
    Pow2Small();
    PowAdd(2, 10, 10);
    PowAdd(2, 20, 1);
    assert Pow(2, 1) == 2;
  }

  /** The kept integer as a double: a signed conversion, in two parts from 2^63 on. */
  method ConvertWord(m: nat) returns (v: nat)
    requires 0 < m < TWO64
    ensures Near(v, m * Pow(2, 1074), 1, 2, 0) && v < INF
    ensures m <= TWO53 ==> IsNearest(m * Pow(2, 1074), 1, v)
  {
    hide Scaled, Pow, IsNearest, Near;
    if m >= TWO63 {
      var h := Convert(m / 2);
      var two := Convert(2);
      IntegerIsExact(2, two);
      Positive(two, 2);
      HalfConverted(m / 2, h);
      var d := Product(h, two);
      Doubled(h, two, d);
      var b := Convert(m % 2);
      IntegerIsExact(m % 2, b);
      v := Sum(d, b);
      TwoParts(m, h, d, b, v);
    } else {
      v := Convert(m);
      OnePart(m, v);
    }
  }

  lemma {:induction false} OnePart(m: nat, v: nat)
    requires 0 < m < TWO64 && IsNearest(m * Pow(2, 1074), 1, v)
    ensures Near(v, m * Pow(2, 1074), 1, 2, 0) && v < INF
  {
    hide Scaled, Pow, IsNearest;
    var n := m * Pow(2, 1074);
    BigUnit(m);
    NearestAtMost(n, 1, v);
    RoundError(n, 1, v, 0);
    FiniteNear(v, m, n);
  }

  /** An integer is far above the subnormals. */
  lemma {:induction false} BigUnit(m: nat)
    requires m > 0
    ensures m * Pow(2, 1074) >= 4 * TWO52
  {
    Pow2Consts();
    PowMono(2, 54, 1074);
    PowAdd(2, 52, 2);
    Four();
    hide Pow;
    MulLe(1, m, Pow(2, 1074));
  }

  lemma Four()
    ensures Pow(2, 2) == 4
  {
  }

  /** And one of 64 bits far below infinity. */
  lemma {:induction false} FiniteNear(v: nat, m: nat, n: nat)
    requires m < TWO64 && n == m * Pow(2, 1074) && v <= INF && (Scaled(v) - n) * TWO52 <= 2 * n
    ensures v < INF
  {
    hide Scaled, Pow;
    AtMostTwice(Scaled(v), n, 2, TWO52);
    if v == INF {
      ScaledInf();
      Pow2Consts();
      PowAdd(2, 64, 1074);
      PowAdd(2, 1, 1138);
      Two();
      SixtyFour();
      MulLt(m, Pow(2, 64), Pow(2, 1074));
      PowStrict(2, 1139, 2098);
    }
  }

  lemma Two()
    ensures Pow(2, 1) == 2
  {
  }

  lemma {:induction false} HalfConverted(a: nat, h: nat)
    requires TWO63 <= 2 * a + 1 < TWO64 && IsNearest(a * Pow(2, 1074), 1, h)
    ensures TWO52 <= h && h + TWO52 < INF
    ensures var n := a * Pow(2, 1074);
      (Scaled(h) - n) * (2 * TWO52) <= n && (n - Scaled(h)) * (2 * TWO52) <= n
  {
    hide Scaled, Pow, IsNearest;
    BigUnit(a);
    OnePart(a, h);
    NormalAbove(a * Pow(2, 1074), 1, h);
    RoundError(a * Pow(2, 1074), 1, h, 0);
    BelowHalfRange(a, h);
  }

  lemma {:induction false} BelowHalfRange(a: nat, h: nat)
    requires 2 * a < TWO64 && h < INF && (Scaled(h) - a * Pow(2, 1074)) * (2 * TWO52) <= a * Pow(2, 1074)
    ensures h + TWO52 < INF
  {
    hide Scaled, Pow;
    var n := a * Pow(2, 1074);
    AtMostTwice(Scaled(h), n, 1, 2 * TWO52);
    if h + TWO52 >= INF {
      LastBinade();
      ScaledMono(INF - TWO52, h);
      Pow2Consts();
      PowAdd(2, 64, 1074);
      SixtyFour();
      MulLt(2 * a, Pow(2, 64), Pow(2, 1074));
      MulAssoc(2, a, Pow(2, 1074));
      PowStrict(2, 1138, 2097);
    }
  }

  lemma SixtyFour()
    ensures Pow(2, 64) == TWO64
  {
    Pow2Consts();
    PowAdd(2, 32, 32);
  }

  lemma LastBinade()
    ensures Scaled(INF - TWO52) == Pow(2, 2097)
  {
    var b := INF - TWO52;
    assert Mant(b) == TWO52 && Shift(b) == 2045;
    Pow2Consts();
    PowAdd(2, 52, 2045);
  }

  lemma {:induction false} Doubled(h: nat, two: nat, d: nat)
    requires TWO52 <= h && h + TWO52 < INF && Holds(two, 2) && IsProduct(h, two, d)
    ensures d < INF && Scaled(d) == 2 * Scaled(h)
  {
    hide Scaled, Pow, IsNearest;
    Fmod.BinadeUp(h);
    var t, s := Pow(2, 1074), Scaled(h);
    MulAssoc(s, 2, t);
    ExactNearest(s * Scaled(two), t, h + TWO52);
    NearestUnique(s * Scaled(two), t, d, h + TWO52);
  }

  lemma {:induction false} TwoParts(m: nat, h: nat, d: nat, b: nat, v: nat)
    requires TWO63 <= m < TWO64 && d < INF && Scaled(d) == 2 * Scaled(h) && Holds(b, m % 2)
    requires var n := m / 2 * Pow(2, 1074); (Scaled(h) - n) * (2 * TWO52) <= n && (n - Scaled(h)) * (2 * TWO52) <= n
    requires IsNearest(Scaled(d) + Scaled(b), 1, v)
    ensures Near(v, m * Pow(2, 1074), 1, 2, 0) && v < INF
  {
    hide Scaled, Pow, IsNearest;
    var t := Pow(2, 1074);
    var n, e, s := m / 2 * t, m % 2 * t, Scaled(h);
    BigUnit(m);
    assert m == 2 * (m / 2) + m % 2;
    Distrib(2 * (m / 2), m % 2, t);
    MulAssoc(2, m / 2, t);
    NearestAtMost(2 * s + e, 1, v);
    RoundError(2 * s + e, 1, v, 0);
    FiniteNear(v, m, m * t);
  }

  /** More places of the exponent, by a factor. */
  lemma {:induction false} NumUp(m: nat, i: nat, q: nat)
    ensures Num(m, i) * Pow(10, q) == Num(m, i + q) && Den(i) == 1
  {
    PowAdd(10, i, q);
    PowZero(10);
    hide Pow;
    var t := Pow(2, 1074);
    MulSwap(m * Pow(10, i), t, Pow(10, q));
    MulAssoc(m, Pow(10, i), Pow(10, q));
  }

  lemma {:induction false} DenUp(m: nat, i: nat, q: nat)
    ensures Num(m, 0 - i) == Num(m, 0) == m * Pow(2, 1074) && Num(m, 0 - i - q) == Num(m, 0)
    ensures Den(0 - i) * Pow(10, q) == Den(0 - i - q) && Den(0) == 1
  {
    PowAdd(10, i, q);
    PowZero(10);
    hide Pow;
  }

  lemma NearWeaker(v: nat, n: nat, u: nat, k: nat, a: nat, l: nat)
    requires Near(v, n, u, k, a) && k <= l && a <= 1
    ensures Near(v, n, u, l, 1)
  {
    hide Scaled;
    MulLe(k, l, n);
    MulLe(a, 1, u * TWO52);
    MulAssoc(a, u, TWO52);
  }

  lemma {:induction false} BigNum(m: nat, i: nat)
    requires m > 0
    ensures Num(m, i) >= 2 * TWO52
  {
    hide Pow, Num;
    BigUnit(m);
    NumUp(m, 0, i);
    DenUp(m, 0, 0);
    BigPower(i);
    MulGrows(Num(m, 0), Pow(10, i));
  }

  lemma BigPower(i: nat)
    ensures Pow(10, i) > 0
  {
  }

  lemma NearInf(v: nat, n: nat, u: nat, k: nat, a: nat)
    requires Near(v, n, u, k, a)
    ensures v <= INF
  {
  }

  /** `while (x10 > 22)`: the guess is near m * 10^(x0 - x). */
  method ScaleUp(m: nat, x0: int, v0: nat) returns (v: nat, x: int)
    requires 0 < m && x0 <= 309 && Near(v0, m * Pow(2, 1074), 1, 2, 0)
    ensures if x0 <= 22 then v == v0 && x == x0 else 0 < x <= 22
    ensures x0 >= 0 ==> Near(v, Num(m, x0 - x), 1, 16, 0)
  {
    hide Near, Num, Den, Pow, Holds;
    v, x := v0, x0;
    ghost var j: nat := 0;
    DenUp(m, 0, 0);
    TenTo22();
    Positive(TEN22, Pow(10, 22));
    while x > 22
      invariant x0 == x + 22 * j && j <= 14 && (if j > 0 then x > 0 else v == v0)
      invariant Near(v, Num(m, 22 * j), 1, 2 + j, 0)
      decreases x
    {
      ghost var n := Num(m, 22 * j);
      BigNum(m, 22 * j);
      NumUp(m, 22 * j, 22);
      NearInf(v, n, 1, 2 + j, 0);
      var c := Product(v, TEN22);
      OneUp(v, TEN22, c, n, Pow(10, 22), 2 + j);
      v, x := c, x - 22;
      j := j + 1;
    }
    NearMoreSteps(v, Num(m, x0 - x), 2 + j, 16);
  }

  lemma NearMoreSteps(v: nat, n: nat, k: nat, l: nat)
    requires Near(v, n, 1, k, 0) && k <= l
    ensures Near(v, n, 1, l, 0)
  {
    hide Scaled;
    MulLe(k, l, n);
  }

  lemma OneUp(v: nat, p: nat, c: nat, n: nat, w: nat, k: nat)
    requires Near(v, n, 1, k, 0) && Holds(p, w) && w > 0 && n >= 2 * TWO52 && 2 * k <= TWO52
    requires IsProduct(v, p, c)
    ensures Near(c, n * w, 1, k + 1, 0)
  {
    hide Scaled, Pow, IsNearest, Holds;
    assert v <= INF;
    if v == INF {
      OverflowNear(n, w, k);
    } else {
      ProductNear(v, p, c, n, w, k);
    }
  }

  /** `while (x10 < -22)`. */
  method ScaleDown(m: nat, x0: int, v0: nat) returns (v: nat, x: int)
    requires 0 < m && -352 <= x0
    requires x0 < 0 ==> v0 < INF && Near(v0, m * Pow(2, 1074), 1, 2, 1)
    ensures if x0 >= -22 then v == v0 && x == x0 else -22 <= x < 0
    ensures x0 < 0 ==> v < INF && Near(v, Num(m, x0 - x), Den(x0 - x), 17, 1)
  {
    hide Near, Num, Den, Pow, Holds, IsNearest;
    v, x := v0, x0;
    ghost var j: nat := 0;
    DenUp(m, 0, 0);
    TenTo22();
    BigTen(22);
    Positive(TEN22, Pow(10, 22));
    while x < -22
      invariant x0 == x - 22 * j && j <= 15 && (j > 0 ==> x < 0)
      invariant x0 < 0 ==> v < INF && Near(v, Num(m, 0 - 22 * j), Den(0 - 22 * j), 2 + j, 1)
      invariant x0 >= -22 ==> v == v0
      decreases -x
    {
      DenUp(m, 22 * j, 22);
      var c := Quotient(v, TEN22);
      QuotientNear(v, TEN22, c, Num(m, 0), Den(0 - 22 * j), Pow(10, 22), 2 + j);
      v, x := c, x + 22;
      j := j + 1;
    }
    if x0 < 0 {
      NearWeaker(v, Num(m, x0 - x), Den(x0 - x), 2 + j, 1, 17);
    }
  }

  lemma {:induction false} BigTen(q: nat)
    requires q > 0
    ensures Pow(10, q) >= 10
  {
    PowSucc(10, q - 1);
  }

  /**
   The scaling of `strtod`: near m * 10^x0 in every case, and the correctly rounded double of it for an
   integer of at most 53 bits and a power of at most 22, where one operation on exact operands is left.
   */
  method Scale(m: nat, x0: int) returns (v: nat)
    requires 0 < m < TWO64 && -352 <= x0 <= 309
    ensures Near(v, Num(m, x0), Den(x0), 18, 1)
    ensures m <= TWO53 && -22 <= x0 <= 22 ==> IsNearest(Num(m, x0), Den(x0), v)
  {
    hide Near, Num, Den, Pow, Holds, IsNearest, Scaled, IsProduct, IsQuotient;
    v := ConvertWord(m);
    DenUp(m, 0, 0);
    NearWeaker(v, Num(m, 0), 1, 2, 0, 2);
    ghost var v0 := v;
    var x;
    v, x := ScaleUp(m, x0, v);
    v, x := ScaleDown(m, x, v);
    var q: nat := if x < 0 then 0 - x else x;
    var p := TenTo(q);
    BigPower(q);
    Positive(p, Pow(10, q));
    TenFinite(p, Pow(10, q));
    if x > 0 {
      NearInf(v, Num(m, x0 - x), 1, 16, 0);
      var c := Product(v, p);
      LastUp(m, x0, x, v, p, c);
      v := c;
    } else if x < 0 {
      var c := Quotient(v, p);
      LastDown(m, x0, q, v, p, c);
      v := c;
    } else {
      NearWeaker(v, Num(m, x0), 1, 16, 0, 18);
    }
    if m <= TWO53 && -22 <= x0 <= 22 {
      assert x == x0;
      ExactScale(m, x0, v0, p, v);
    }
  }

  lemma TenFinite(p: nat, w: nat)
    requires Holds(p, w)
    ensures p < INF
  {
  }

  lemma LastUp(m: nat, x0: int, x: nat, v: nat, p: nat, c: nat)
    requires 0 < m && 0 < x <= x0 && Near(v, Num(m, x0 - x), 1, 16, 0) && Holds(p, Pow(10, x)) && IsProduct(v, p, c)
    ensures Near(c, Num(m, x0), Den(x0), 18, 1)
  {
    hide Near, Num, Den, Pow, Holds, IsProduct;
    var i: nat := x0 - x;
    BigNum(m, i);
    NumUp(m, i, x);
    NumUp(m, x0, 0);
    BigPower(x);
    OneUp(v, p, c, Num(m, i), Pow(10, x), 16);
    NearWeaker(c, Num(m, x0), 1, 17, 0, 18);
  }

  lemma LastDown(m: nat, x0: int, q: nat, v: nat, p: nat, c: nat)
    requires 0 < m && 0 < q && x0 + q <= 0 && v < INF && Near(v, Num(m, x0 + q), Den(x0 + q), 17, 1)
    requires Holds(p, Pow(10, q)) && IsQuotient(v, p, c)
    ensures Near(c, Num(m, x0), Den(x0), 18, 1)
  {
    hide Near, Num, Den, Pow, Holds, IsQuotient;
    var i: nat := 0 - x0 - q;
    DenUp(m, i, q);
    BigTen(q);
    QuotientNear(v, p, c, Num(m, x0 + q), Den(x0 + q), Pow(10, q), 17);
  }

  /** One operation on exact operands. */
  lemma {:induction false} ExactScale(m: nat, x: int, v: nat, p: nat, c: nat)
    requires m <= TWO53 && IsNearest(m * Pow(2, 1074), 1, v)
    requires var q: nat := if x < 0 then 0 - x else x; Holds(p, Pow(10, q))
    requires if x > 0 then IsProduct(v, p, c) else if x < 0 then IsQuotient(v, p, c) else c == v
    ensures IsNearest(Num(m, x), Den(x), c)
  {
    hide Num, Den, Pow, Holds, IsNearest, Scaled, IsProduct, IsQuotient;
    IntegerIsExact(m, v);
    if x > 0 {
      ProductRounds(v, p, m, x, c);
    } else if x < 0 {
      QuotientRounds(v, p, m, 0 - x, c);
    } else {
      IntegerRounds(m, v);
    }
  }
}
