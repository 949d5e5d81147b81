/**
 The binary64 bit patterns as natural numbers.  `Scaled` is the exact value of a
 pattern in units of 2^-1074, the smallest subnormal, so that every finite value
 is a natural number; the pattern of infinity stands for 2^1024.
 (Sections 3.4 and 4.3.1 of IEEE 754-2008.)
 */
module Binary64 {
  import opened Arith

  const TWO52: nat := 0x10_0000_0000_0000

  /** The pattern of positive infinity, 2047 in the exponent field. */
  const INF: nat := 0x7FF0_0000_0000_0000

  function ExpField(b: nat): nat {
    b / TWO52 % 2048
  }

  function Frac(b: nat): nat {
    b % TWO52
  }

  /** The integer mantissa, with the hidden bit of a normal number. */
  function Mant(b: nat): (m: nat)
    ensures m < 2 * TWO52
  {
    if ExpField(b) == 0 then Frac(b) else Frac(b) + TWO52
  }

  /** The exponent of the mantissa's unit, plus 1074. */
  function Shift(b: nat): (s: nat)
    ensures s <= 2046
  {
    if ExpField(b) == 0 then 0 else ExpField(b) - 1
  }

  function Scaled(b: nat): nat {
    Mant(b) * Pow(2, Shift(b))
  }

  /** The next pattern up lies exactly one unit of the mantissa higher, across binades too. */
  lemma {:induction false} ScaledNext(b: nat)
    requires b < INF
    ensures Scaled(b + 1) == Scaled(b) + Pow(2, Shift(b))
  {
    NextFields(b);
    var p := Pow(2, Shift(b));
    assert Shift(b + 1) == Shift(b) + 1 ==> Pow(2, Shift(b + 1)) == 2 * p;
    hide Mant, Shift, Pow;
    Distrib(Mant(b), 1, p);
    MulAssoc(TWO52, 2, p);
  }

  /** The fields of the next pattern: one more mantissa unit, or the start of a new binade. */
  lemma {:induction false} NextFields(b: nat)
    requires b < INF
    ensures
      || (Shift(b + 1) == Shift(b) && Mant(b + 1) == Mant(b) + 1)
      || (Shift(b + 1) == Shift(b) + 1 && Mant(b) + 1 == TWO52 * 2 && Mant(b + 1) == TWO52)
  {
    NextParts(b);
  }

  lemma NextParts(b: nat)
    requires b < INF
    ensures b / TWO52 < 2047 && b % TWO52 < TWO52
    ensures if b % TWO52 < TWO52 - 1 then (b + 1) / TWO52 == b / TWO52 && (b + 1) % TWO52 == b % TWO52 + 1
      else (b + 1) / TWO52 == b / TWO52 + 1 && (b + 1) % TWO52 == 0
  {
    var q, f := b / TWO52, b % TWO52;
    assert b == q * TWO52 + f;
    if f < TWO52 - 1 {
      DivModIs(b + 1, TWO52, q, f + 1);
    } else {
      DivModIs(b + 1, TWO52, q + 1, 0);
    }
  }

  /** Patterns are ordered as their values are. */
  lemma {:induction false} ScaledMono(a: nat, b: nat)
    requires a <= b <= INF
    ensures Scaled(a) + (b - a) <= Scaled(b)
    decreases b - a
  {
    if a < b {
      ScaledMono(a, b - 1);
      ScaledNext(b - 1);
    }
  }

  /** Infinity's pattern stands for 2^1024. */
  lemma {:induction false} ScaledInf()
    ensures Scaled(INF) == Pow(2, 1024 + 1074)
  {
    assert INF == 2047 * TWO52 + 0;
    DivModIs(INF, TWO52, 2047, 0);
    assert Mant(INF) == TWO52 && Shift(INF) == 2046;
    Pow2Consts();
    PowAdd(2, 52, 2046);
    hide Pow;
  }

  /** The halfway point above `b`, in half units: (2m+1) times the mantissa's unit. */
  function Halfway(b: nat): nat {
    (2 * Mant(b) + 1) * Pow(2, Shift(b))
  }

  lemma HalfwayIs(b: nat)
    ensures Halfway(b) == 2 * Scaled(b) + Pow(2, Shift(b))
  {
  }

  lemma {:induction false} HalfwayIsMidpoint(b: nat)
    requires b < INF
    ensures Halfway(b) == Scaled(b) + Scaled(b + 1)
  {
    ScaledNext(b);
    hide Pow, Mant, Shift;
    HalfwayIs(b);
  }

  lemma {:induction false} HalfwayMono(a: nat, b: nat)
    requires a < b < INF
    ensures Halfway(a) < Halfway(b)
  {
    HalfwayIsMidpoint(a);
    HalfwayIsMidpoint(b);
    ScaledMono(a, b);
    ScaledMono(a + 1, b + 1);
  }

  /** Distance from the rational `n / u` (in units of 2^-1074) to pattern `b`, times `u`. */
  function Dist(n: nat, u: nat, b: nat): nat {
    Abs(n - Scaled(b) * u)
  }

  /**
   `r` is the correctly rounded pattern for `n / u`: no pattern up to infinity is nearer,
   and of two equally near ones `r` is the even one.
   */
  ghost predicate IsNearest(n: nat, u: nat, r: nat) {
    && r <= INF
    && forall b: nat {:trigger Dist(n, u, b)} | b <= INF ::
         && Dist(n, u, r) <= Dist(n, u, b)
         && (Dist(n, u, r) == Dist(n, u, b) && b != r ==> r % 2 == 0)
  }

  /** Correct rounding has one answer. */
  lemma {:induction false} NearestUnique(n: nat, u: nat, r: nat, s: nat)
    requires u > 0 && IsNearest(n, u, r) && IsNearest(n, u, s)
    ensures r == s
  {
    hide Scaled, Dist;
    assert Dist(n, u, r) == Dist(n, u, s);
    if r < s {
      TieIsAdjacent(n, u, r, s);
    } else if s < r {
      TieIsAdjacent(n, u, s, r);
    }
  }

  /** Two equally near nearest patterns are neighbours: anything between would be nearer. */
  lemma {:induction false} TieIsAdjacent(n: nat, u: nat, r: nat, s: nat)
    requires u > 0 && IsNearest(n, u, r) && r < s <= INF
    requires Dist(n, u, r) == Dist(n, u, s)
    ensures s == r + 1
  {
    hide Scaled;
    if s >= r + 2 {
      assert Dist(n, u, r) <= Dist(n, u, r + 1);
      ScaledMono(r, r + 1);
      ScaledMono(r + 1, s);
      MulLt(Scaled(r), Scaled(r + 1), u);
      MulLt(Scaled(r + 1), Scaled(s), u);
    }
  }

  /** Equal rationals have the same nearest pattern. */
  lemma {:induction false} NearestRatio(n: nat, u: nat, n': nat, u': nat, r: nat)
    requires u > 0 && u' > 0 && n * u' == n' * u && IsNearest(n, u, r)
    ensures IsNearest(n', u', r)
  {
    hide Scaled, Dist;
    DistRatio(n, u, n', u', r);
    forall b: nat | b <= INF
      ensures Dist(n', u', r) <= Dist(n', u', b)
      ensures Dist(n', u', r) == Dist(n', u', b) && b != r ==> r % 2 == 0
    {
      assert Dist(n, u, r) <= Dist(n, u, b);
      DistRatio(n, u, n', u', b);
      ScaledOrder(Dist(n, u, r), Dist(n, u, b), u', Dist(n', u', r), Dist(n', u', b), u);
    }
  }

  lemma DistRatio(n: nat, u: nat, n': nat, u': nat, b: nat)
    requires n * u' == n' * u
    ensures Dist(n, u, b) * u' == Dist(n', u', b) * u
  {
    hide Scaled;
    var s := Scaled(b);
    DistribSub(n, s * u, u');
    DistribSub(n', s * u', u);
    MulSwap(s, u, u');
    AbsTimes(n - s * u, u');
    AbsTimes(n' - s * u', u);
  }

  lemma AbsTimes(x: int, k: nat)
    ensures Abs(x) * k == Abs(x * k)
  {
  }

  lemma ScaledOrder(a: nat, b: nat, k: nat, c: nat, d: nat, l: nat)
    requires k > 0 && l > 0 && a * k == c * l && b * k == d * l && a <= b
    ensures c <= d && (c == d ==> a == b)
  {
  }

  /** The decimal lies above the midpoint of `b`, or on it with `b` odd: step up. */
  predicate StepUp(n: nat, u: nat, b: nat) {
    var c := 2 * n - Halfway(b) * u;
    c > 0 || (c == 0 && b % 2 == 1)
  }

  lemma {:induction false} StepUpMono(n: nat, u: nat, a: nat, b: nat)
    requires u > 0 && a < b < INF && StepUp(n, u, b)
    ensures StepUp(n, u, a)
  {
    HalfwayMono(a, b);
    MulLt(Halfway(a), Halfway(b), u);
  }

  /** The walk's target: the first pattern from `from` that must not step up. */
  function Target(n: nat, u: nat, from: nat): (r: nat)
    requires from <= INF
    ensures from <= r <= INF
    ensures r < INF ==> !StepUp(n, u, r)
    ensures r > from ==> StepUp(n, u, r - 1)
    decreases INF - from
  {
    if from < INF && StepUp(n, u, from) then Target(n, u, from + 1) else from
  }

  /** A pattern that is stepped up to and not stepped past is the correctly rounded one. */
  lemma {:induction false} FixedPointIsNearest(n: nat, u: nat, r: nat)
    requires u > 0 && r <= INF
    requires r < INF ==> !StepUp(n, u, r)
    requires r > 0 ==> StepUp(n, u, r - 1)
    ensures IsNearest(n, u, r)
  {
    forall b: nat | b <= INF
      ensures Dist(n, u, r) <= Dist(n, u, b)
      ensures Dist(n, u, r) == Dist(n, u, b) && b != r ==> r % 2 == 0
    {
      if b < r {
        NearerFromBelow(n, u, b, r);
      } else if r < b {
        NearerFromAbove(n, u, r, b);
      }
    }
  }

  lemma {:induction false} NearerFromBelow(n: nat, u: nat, b: nat, r: nat)
    requires u > 0 && b < r <= INF && StepUp(n, u, r - 1)
    ensures Dist(n, u, r) <= Dist(n, u, b)
    ensures Dist(n, u, r) == Dist(n, u, b) ==> r % 2 == 0
  {
    hide Halfway, Scaled;
    HalfwayIsMidpoint(r - 1);
    Distrib(Scaled(r - 1), Scaled(r), u);
    ScaledMono(r - 1, r);
    MulLt(Scaled(r - 1), Scaled(r), u);
    if b < r - 1 {
      ScaledMono(b, r - 1);
      MulLt(Scaled(b), Scaled(r - 1), u);
    }
  }

  lemma {:induction false} NearerFromAbove(n: nat, u: nat, r: nat, b: nat)
    requires u > 0 && r < b <= INF && !StepUp(n, u, r)
    ensures Dist(n, u, r) <= Dist(n, u, b)
    ensures Dist(n, u, r) == Dist(n, u, b) ==> r % 2 == 0
  {
    hide Halfway, Scaled;
    HalfwayIsMidpoint(r);
    Distrib(Scaled(r), Scaled(r + 1), u);
    ScaledMono(r, r + 1);
    MulLt(Scaled(r), Scaled(r + 1), u);
    if r + 1 < b {
      ScaledMono(r + 1, b);
      MulLt(Scaled(r + 1), Scaled(b), u);
    }
  }

  /** Every rational has a correctly rounded pattern. */
  lemma {:induction false} NearestExists(n: nat, u: nat)
    requires u > 0
    ensures IsNearest(n, u, Target(n, u, 0))
  {
    FixedPointIsNearest(n, u, Target(n, u, 0));
  }

  /** A rational that some finite pattern holds is rounded to that pattern. */
  lemma {:induction false} ExactNearest(n: nat, u: nat, c: nat)
    requires u > 0 && c < INF && Scaled(c) * u == n
    ensures IsNearest(n, u, c)
  {
    hide Scaled;
    forall b: nat | b <= INF && b != c ensures Dist(n, u, c) == 0 < Dist(n, u, b) {
      if b < c {
        ScaledMono(b, c);
        MulLt(Scaled(b), Scaled(c), u);
      } else {
        ScaledMono(c, b);
        MulLt(Scaled(c), Scaled(b), u);
      }
    }
  }

  /** Which way the walk must go from any finite pattern to reach the nearest one. */
  lemma {:induction false} StepUpIffBelow(n: nat, u: nat, b: nat, r: nat)
    requires u > 0 && b < INF && IsNearest(n, u, r)
    ensures StepUp(n, u, b) <==> b < r
  {
    hide Halfway, Scaled, Dist, IsNearest, StepUp;
    var t := Target(n, u, 0);
    NearestExists(n, u);
    NearestUnique(n, u, r, t);
    if b < t - 1 {
      StepUpMono(n, u, b, t - 1);
    } else if t < b && StepUp(n, u, b) {
      StepUpMono(n, u, t, b);
    }
  }

  /**
   Seventeen digits identify a double: any rational within half of 10^-16, relatively, of
   a finite positive pattern rounds to that pattern, at power-of-two boundaries and among
   the subnormals too.
   */
  lemma {:induction false} CloseRoundsBack(n: nat, u: nat, b: nat)
    requires u > 0 && 0 < b < INF
    requires 20_000_000_000_000_000 * Dist(n, u, b) <= Scaled(b) * u
    ensures IsNearest(n, u, b)
  {
    hide Pow, Mant, Shift;
    var p := Pow(2, Shift(b));
    MulAssoc(Mant(b), p, u);
    AboveLowerHalf(n, u, b);
    HalfUnit(Mant(b), p * u, Dist(n, u, b));
    BelowUpperHalf(n, u, b);
    hide Scaled;
    FixedPointIsNearest(n, u, b);
  }

  lemma {:induction false} HalfUnit(m: nat, g: nat, d: nat)
    requires 20_000_000_000_000_000 * d <= m * g && m < 10_000_000_000_000_000 && g > 0
    ensures 2 * d < g
  {
    MulLt(m, 10_000_000_000_000_000, g);
  }

  lemma {:induction false} BelowUpperHalf(n: nat, u: nat, b: nat)
    requires u > 0 && b < INF && 2 * Dist(n, u, b) < Pow(2, Shift(b)) * u
    ensures !StepUp(n, u, b)
  {
    HalfwayIs(b);
    hide Pow, Halfway, Scaled;
    Distrib(2 * Scaled(b), Pow(2, Shift(b)), u);
    MulAssoc(2, Scaled(b), u);
  }

  lemma {:induction false} AboveLowerHalf(n: nat, u: nat, b: nat)
    requires u > 0 && 0 < b < INF
    requires 20_000_000_000_000_000 * Dist(n, u, b) <= Mant(b) * (Pow(2, Shift(b)) * u)
    ensures StepUp(n, u, b - 1)
  {
    hide Pow, Halfway, Scaled, Mant, Shift;
    LowerGap(n, u, b);
    HalfwayIs(b - 1);
    ScaledNext(b - 1);
    var p' := Pow(2, Shift(b - 1));
    DistribSub(2 * Scaled(b), p', u);
    MulAssoc(2, Scaled(b), u);
  }

  /** Half of the gap below is still wider than the relative error, even where the gap halves. */
  lemma {:induction false} LowerGap(n: nat, u: nat, b: nat)
    requires u > 0 && 0 < b < INF
    requires 20_000_000_000_000_000 * Dist(n, u, b) <= Mant(b) * (Pow(2, Shift(b)) * u)
    ensures 2 * Dist(n, u, b) < Pow(2, Shift(b - 1)) * u
  {
    PredShift(b);
    var p' := Pow(2, Shift(b - 1));
    MulGrows(p', u);
    if Shift(b) == Shift(b - 1) {
      HalfUnit(Mant(b), p' * u, Dist(n, u, b));
    } else {
      assert Pow(2, Shift(b)) == 2 * p';
      hide Pow, Mant, Shift, Scaled;
      MulAssoc(2, p', u);
      MulAssoc(TWO52, 2, p' * u);
      HalfUnit(TWO52 * 2, p' * u, Dist(n, u, b));
    }
  }

  /** The pattern below is in the same binade, or this one starts a binade. */
  lemma {:induction false} PredShift(b: nat)
    requires 0 < b < INF
    ensures Shift(b - 1) == Shift(b) || (Shift(b) == Shift(b - 1) + 1 && Mant(b) == TWO52)
  {
    var q, f := b / TWO52, b % TWO52;
    assert b == q * TWO52 + f;
    if f > 0 {
      DivModIs(b - 1, TWO52, q, f - 1);
    } else {
      DivModIs(b - 1, TWO52, q - 1, TWO52 - 1);
    }
  }
}
