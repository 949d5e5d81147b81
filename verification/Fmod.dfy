/**
 `fmod` on binary64 patterns.  Every value is a natural number of units of 2^-1074; the two floating
 operations the loop uses, scaling by a power of two and subtraction, demand that their exact result
 is a binary64 value, so that verifying the loop shows that nothing is ever rounded.
 (Section 7.12.10.1 of ISO/IEC 9899:1999.)
 */
module Fmod {
  import opened Arith
  import opened Binary64

  // ---------- which numbers are doubles ----------

  /** A mantissa of at most 53 bits, shifted. */
  ghost predicate Fits(v: nat, m: nat, k: nat) {
    m < 2 * TWO52 && v == m * Pow(2, k)
  }

  /** A finite binary64 value. */
  ghost predicate IsDouble(v: nat) {
    v < Pow(2, 2098) && exists m: nat, k: nat :: Fits(v, m, k)
  }

  /** The pattern of a value that is a double. */
  function Encode(v: nat): nat {
    if v < 2 * TWO52 then v else Encode(v / 2) + TWO52
  }

  lemma {:induction false} LowPattern(b: nat)
    requires b < 2 * TWO52
    ensures Scaled(b) == b
  {
  }

  lemma {:induction false} BinadeUp(b: nat)
    requires TWO52 <= b && b + TWO52 < INF
    ensures Scaled(b + TWO52) == 2 * Scaled(b)
  {
    var q, f := b / TWO52, b % TWO52;
    assert b == q * TWO52 + f;
    DivModIs(b + TWO52, TWO52, q + 1, f);
    assert q + 1 < 2048;
    assert Shift(b + TWO52) == Shift(b) + 1 && Mant(b + TWO52) == Mant(b);
    hide Mant, Shift;
    PowSucc(2, Shift(b));
    hide Pow;
    MulSwap2(Mant(b), Pow(2, Shift(b)));
  }

  lemma MulSwap2(m: nat, p: nat)
    ensures m * (2 * p) == 2 * (m * p)
  {
  }

  lemma {:induction false} EncodeBelow(v: nat, j: nat)
    requires v < 2 * TWO52 * Pow(2, j)
    ensures Encode(v) < (j + 2) * TWO52
    decreases j
  {
    if v >= 2 * TWO52 {
      PowZero(2);
      assert j > 0;
      PowSucc(2, j - 1);
      hide Pow;
      MulSwap2(2 * TWO52, Pow(2, j - 1));
      EncodeBelow(v / 2, j - 1);
    }
  }

  lemma {:induction false} EncodeExact(v: nat, m: nat, k: nat)
    requires Fits(v, m, k) && Encode(v) < INF
    ensures Scaled(Encode(v)) == v
    decreases v
  {
    if v < 2 * TWO52 {
      LowPattern(v);
    } else {
      PowZero(2);
      assert k > 0;
      PowSucc(2, k - 1);
      hide Pow, Scaled;
      MulSwap2(m, Pow(2, k - 1));
      EncodeExact(v / 2, m, k - 1);
      EncodeLarge(v / 2);
      BinadeUp(Encode(v / 2));
    }
  }

  lemma {:induction false} EncodeLarge(v: nat)
    requires v >= TWO52
    ensures Encode(v) >= TWO52
  {
  }

  /** Every double has a pattern, and it is the only one. */
  lemma {:induction false} EncodeIs(v: nat)
    requires IsDouble(v)
    ensures Encode(v) < INF && Scaled(Encode(v)) == v
    ensures forall b: nat :: b < INF && Scaled(b) == v ==> b == Encode(v)
  {
    hide Pow, Scaled;
    Pow2Consts();
    PowAdd(2, 53, 2045);
    PowAdd(2, 52, 1);
    PowOne(2);
    EncodeBelow(v, 2045);
    var m: nat, k: nat :| Fits(v, m, k);
    EncodeExact(v, m, k);
    forall b: nat | b < INF && Scaled(b) == v ensures b == Encode(v) {
      if b < Encode(v) {
        ScaledMono(b, Encode(v));
      } else {
        ScaledMono(Encode(v), b);
      }
    }
  }

  lemma PowOne(b: nat)
    ensures Pow(b, 1) == b
  {
  }

  /** Finite patterns hold doubles. */
  lemma {:induction false} PatternIsDouble(b: nat)
    requires b < INF
    ensures Fits(Scaled(b), Mant(b), Shift(b)) && IsDouble(Scaled(b))
  {
    hide Pow, Mant, Shift;
    ScaledMono(b, INF);
    ScaledInf();
  }

  // ---------- exponents ----------

  function BitLen(v: nat): nat {
    if v == 0 then 0 else 1 + BitLen(v / 2)
  }

  lemma {:induction false} BitLenBounds(v: nat)
    requires v > 0
    ensures BitLen(v) > 0 && Pow(2, BitLen(v) - 1) <= v < Pow(2, BitLen(v))
  {
    PowZero(2);
    PowOne(2);
    if v > 1 {
      BitLenBounds(v / 2);
      PowSucc(2, BitLen(v / 2) - 1);
      PowSucc(2, BitLen(v / 2));
    }
  }

  lemma {:induction false} BitLenIs(v: nat, l: nat)
    requires l > 0 && Pow(2, l - 1) <= v < Pow(2, l)
    ensures BitLen(v) == l
  {
    BitLenBounds(v);
    if BitLen(v) < l {
      PowMono(2, BitLen(v), l - 1);
    } else if l < BitLen(v) {
      PowMono(2, l, BitLen(v) - 1);
    }
  }

  lemma {:induction false} BitLenShift(v: nat, n: nat)
    requires v > 0
    ensures BitLen(v * Pow(2, n)) == BitLen(v) + n
  {
    var l := BitLen(v);
    BitLenBounds(v);
    PowAdd(2, l - 1, n);
    PowAdd(2, l, n);
    hide BitLen;
    MulLe(Pow(2, l - 1), v, Pow(2, n));
    MulLt(v, Pow(2, l), Pow(2, n));
    BitLenIs(v * Pow(2, n), l + n);
  }

  lemma {:induction false} BitLenMono(v: nat, w: nat)
    requires v <= w
    ensures BitLen(v) <= BitLen(w)
  {
    if v > 0 {
      BitLenMono(v / 2, w / 2);
    }
  }

  /** The bit length of a normal number, read from its exponent field. */
  lemma {:induction false} NormalBits(b: nat)
    requires TWO52 <= b < INF
    ensures BitLen(Scaled(b)) == b / TWO52 + 52
  {
    hide Pow, BitLen;
    var e := b / TWO52;
    assert 1 <= e < 2048;
    assert TWO52 <= Mant(b) < 2 * TWO52 && Shift(b) == e - 1;
    Pow2Consts();
    PowSucc(2, 52);
    BitLenIs(Mant(b), 53);
    BitLenShift(Mant(b), e - 1);
  }

  // ---------- the operations ----------

  /** Multiplication by 2^n, exact. */
  method Times(b: nat, n: nat) returns (c: nat)
    requires b < INF && IsDouble(Scaled(b) * Pow(2, n))
    ensures c < INF && Scaled(c) == Scaled(b) * Pow(2, n)
  {
    EncodeIs(Scaled(b) * Pow(2, n));
    c := Encode(Scaled(b) * Pow(2, n));
  }

  /** Subtraction, exact. */
  method Minus(a: nat, b: nat) returns (c: nat)
    requires a < INF && b < INF && Scaled(b) <= Scaled(a) && IsDouble(Scaled(a) - Scaled(b))
    ensures c < INF && Scaled(c) == Scaled(a) - Scaled(b)
  {
    EncodeIs(Scaled(a) - Scaled(b));
    c := Encode(Scaled(a) - Scaled(b));
  }

  /** The patterns of one half and of one. */
  const HALF: nat := 1022 * TWO52
  const ONE: nat := 1023 * TWO52

  /**
   `frexp`: a mantissa of at least one half and below one, with the sign, and the exponent that make the
   value; zeros, infinities and NaNs as they are.
   */
  method Frexp(b: nat) returns (m: nat, e: int)
    requires b < TWO64
    ensures Magnitude(b) == 0 || Magnitude(b) >= INF ==> m == b && e == 0
    ensures 0 < Magnitude(b) < INF ==>
      && m < TWO64 && Negative(m) == Negative(b) && HALF <= Magnitude(m) < ONE
      && Scaled(Magnitude(m)) * Pow(2, Pos(e)) == Scaled(Magnitude(b)) * Pow(2, Pos(-e))
      && e == BitLen(Scaled(Magnitude(b))) - 1074
  {
    hide Pow, BitLen, Scaled, IsDouble;
    var x: nat := Magnitude(b);
    if x == 0 || x >= INF {
      return b, 0;
    }
    ghost var a := x;
    e := 0;
    if x < TWO52 {
      SmallTimes(x);
      x := Times(x, 54);
      BitLenShift(Scaled(a), 54);
      e := -54;
    }
    NormalBits(x);
    HalfPattern(x);
    if a < TWO52 {
      SmallHalf(a, x);
    }
    e := e + x / TWO52 - 1022;
    m := (if Negative(b) then TWO63 else 0) + (HALF + x % TWO52);
  }

  /** Exponent field 1022 in front of the fraction. */
  lemma {:induction false} HalfPattern(x: nat)
    requires TWO52 <= x < INF
    ensures var q, h := x / TWO52, HALF + x % TWO52;
      HALF <= h < ONE && Scaled(h) * Pow(2, Pos(q - 1022)) == Scaled(x) * Pow(2, Pos(1022 - q))
  {
    hide Pow;
    var q, f := x / TWO52, x % TWO52;
    var h := HALF + f;
    DivModIs(h, TWO52, 1022, f);
    assert 1 <= q < 2048;
    var t := Mant(x);
    assert Mant(h) == t && Shift(h) == 1021 && Shift(x) == q - 1;
    PowZero(2);
    if q >= 1022 {
      PowAdd(2, 1021, q - 1022);
      MulAssoc(t, Pow(2, 1021), Pow(2, q - 1022));
    } else {
      PowAdd(2, q - 1, 1022 - q);
      MulAssoc(t, Pow(2, q - 1), Pow(2, 1022 - q));
    }
  }

  /** A subnormal number, scaled by 2^54. */
  lemma {:induction false} SmallHalf(a: nat, x: nat)
    requires 0 < a < TWO52 <= x < INF && Scaled(x) == Scaled(a) * Pow(2, 54) && Scaled(a) == a
    requires BitLen(a * Pow(2, 54)) == BitLen(a) + 54
    ensures var q: nat := x / TWO52;
      q <= 54 && Scaled(x) * Pow(2, 1022 - q) == Scaled(a) * Pow(2, 1076 - q)
  {
    hide Pow, BitLen, Scaled;
    var q: nat := x / TWO52;
    NormalBits(x);
    BitLenBounds(a);
    Pow2Consts();
    if BitLen(a) > 52 {
      PowMono(2, 52, BitLen(a) - 1);
    }
    PowAdd(2, 54, 1022 - q);
    MulAssoc(a, Pow(2, 54), Pow(2, 1022 - q));
  }

  lemma {:induction false} SmallTimes(b: nat)
    requires 0 < b < TWO52
    ensures Scaled(b) == b && IsDouble(b * Pow(2, 54))
    ensures forall c: nat :: c < INF && Scaled(c) == b * Pow(2, 54) ==> c >= TWO52
  {
    hide Pow, Scaled;
    LowPattern(b);
    var p := Pow(2, 54);
    assert Fits(b * p, b, 54);
    Pow2Consts();
    PowAdd(2, 52, 54);
    PowAdd(2, 52, 2);
    MulLt(b, TWO52, p);
    PowStrict(2, 106, 2098);
    MulLe(1, b, p);
    Four();
    forall c: nat | c < INF && Scaled(c) == b * p ensures c >= TWO52 {
      if c < TWO52 {
        LowPattern(c);
      }
    }
  }

  lemma Four()
    ensures Pow(2, 2) == 4
  {
  }

  /** `ldexp` for a shift that is not negative and does not overflow: steps of 2^1000, then the rest. */
  method Ldexp(b: nat, n0: nat) returns (c: nat)
    requires b < INF && Scaled(b) * Pow(2, n0) < Pow(2, 2098)
    ensures c < INF && Scaled(c) == Scaled(b) * Pow(2, n0)
  {
    hide Pow, Scaled, IsDouble;
    c := b;
    var n: nat := n0;
    while n > 1000
      invariant c < INF && Scaled(c) * Pow(2, n) == Scaled(b) * Pow(2, n0)
    {
      StepFits(c, n, 1000);
      c := Times(c, 1000);
      n := n - 1000;
    }
    StepFits(c, n, n);
    PowZero(2);
    c := Times(c, n);
  }

  lemma {:induction false} StepFits(b: nat, n: nat, s: nat)
    requires b < INF && s <= n && Scaled(b) * Pow(2, n) < Pow(2, 2098)
    ensures IsDouble(Scaled(b) * Pow(2, s))
    ensures Scaled(b) * Pow(2, s) * Pow(2, n - s) == Scaled(b) * Pow(2, n)
  {
    hide Pow, Mant, Shift;
    PatternIsDouble(b);
    PowAdd(2, s, n - s);
    MulAssoc(Scaled(b), Pow(2, s), Pow(2, n - s));
    MulGrows(Scaled(b) * Pow(2, s), Pow(2, n - s));
    PowAdd(2, Shift(b), s);
    MulAssoc(Mant(b), Pow(2, Shift(b)), Pow(2, s));
    assert Fits(Scaled(b) * Pow(2, s), Mant(b), Shift(b) + s);
  }

  // ---------- the difference is exact ----------

  /** Two numbers within a factor of two of each other, or a smaller one: the difference of doubles
      at most as large as both is a double. */
  lemma {:induction false} DifferenceIsDouble(a: nat, b: nat)
    requires a < INF && b < INF && Scaled(b) <= Scaled(a) && Scaled(a) - Scaled(b) <= Scaled(b)
    ensures IsDouble(Scaled(a) - Scaled(b))
  {
    hide Pow, Mant, Shift;
    PatternIsDouble(a);
    PatternIsDouble(b);
    var m, k, n, l := Mant(a), Shift(a), Mant(b), Shift(b);
    if k <= l {
      PowAdd(2, k, l - k);
      CoarserBelow(m, n, Pow(2, k), Pow(2, l - k));
      assert Fits(Scaled(a) - Scaled(b), m - n * Pow(2, l - k), k);
    } else {
      PowAdd(2, l, k - l);
      CoarserAbove(m, n, Pow(2, l), Pow(2, k - l));
      assert Fits(Scaled(a) - Scaled(b), m * Pow(2, k - l) - n, l);
    }
  }

  lemma CoarserBelow(m: nat, n: nat, p: nat, q: nat)
    requires p > 0 && n * (p * q) <= m * p
    ensures n * q <= m && m * p - n * (p * q) == (m - n * q) * p
  {
  }

  lemma CoarserAbove(m: nat, n: nat, p: nat, q: nat)
    requires p > 0 && n * p <= m * (p * q) <= n * p + n * p
    ensures n <= m * q <= n + n && m * (p * q) - n * p == (m * q - n) * p
  {
  }

  // ---------- the loop ----------

  /** How the shifted divisor lies to a remainder of the same bit length. */
  lemma {:induction false} SameLength(r: nat, y: nat, n: nat)
    requires 0 < y <= r < Pow(2, 2098) && BitLen(y) + n == BitLen(r)
    ensures y * Pow(2, n) < Pow(2, 2098) && r < 2 * (y * Pow(2, n))
    ensures n > 0 ==> y * Pow(2, n) == 2 * (y * Pow(2, n - 1)) && y * Pow(2, n - 1) <= r
  {
    hide BitLen, Pow;
    var t := y * Pow(2, n);
    BitLenShift(y, n);
    BitLenBounds(r);
    MulPositive(y, Pow(2, n));
    BitLenBounds(t);
    var l := BitLen(r);
    PowSucc(2, l - 1);
    LengthBound(r, 2098);
    PowMono(2, l, 2098);
    if n > 0 {
      PowSucc(2, n - 1);
      MulSwap2(y, Pow(2, n - 1));
    }
  }

  lemma {:induction false} LengthBound(r: nat, k: nat)
    requires 0 < r < Pow(2, k)
    ensures BitLen(r) <= k
  {
    hide BitLen, Pow;
    BitLenBounds(r);
    if BitLen(r) > k {
      PowMono(2, k, BitLen(r) - 1);
    }
  }

  lemma {:induction false} SubtractMultiple(r: nat, y: nat, p: nat)
    requires y > 0 && y * p <= r
    ensures (r - y * p) % y == r % y
  {
    var q := r / y;
    assert r == q * y + r % y;
    Distrib(q, 0 - p, y);
    if q < p {
      MulLe(q + 1, p, y);
      Distrib(q, 1, y);
    }
    DivModIs(r - y * p, y, q - p, r % y);
  }

  ghost predicate Congruent(a: nat, b: nat, y: nat)
    requires y > 0
  {
    a % y == b % y
  }

  lemma CongruentTrans(a: nat, b: nat, c: nat, y: nat)
    requires y > 0 && Congruent(a, b, y) && Congruent(b, c, y)
    ensures Congruent(a, c, y)
  {
  }

  lemma CongruentSmall(a: nat, b: nat, y: nat)
    requires a < y && Congruent(a, b, y)
    ensures a == b % y
  {
  }

  /** One pass: the difference is a double, is smaller, and leaves the same remainder. */
  lemma {:induction false} PassIsExact(r: nat, y: nat, t: nat, n: nat)
    requires r < INF && y < INF && t < INF && Scaled(y) > 0
    requires Scaled(t) == Scaled(y) * Pow(2, n) && Scaled(t) <= Scaled(r) && Scaled(r) < 2 * Scaled(t)
    ensures IsDouble(Scaled(r) - Scaled(t))
    ensures Congruent(Scaled(r) - Scaled(t), Scaled(r), Scaled(y)) && Scaled(t) > 0
  {
    hide Scaled, Pow;
    DifferenceIsDouble(r, t);
    SubtractMultiple(Scaled(r), Scaled(y), Pow(2, n));
    MulPositive(Scaled(y), Pow(2, n));
  }

  /** The exponent of a magnitude, as `frexp` answers it. */
  method Exponent(b: nat) returns (e: int)
    requires 0 < b < INF
    ensures e == BitLen(Scaled(b)) - 1074
  {
    hide Scaled, Pow, BitLen;
    var _, x := Frexp(b);
    e := x;
  }

  /** One pass of the loop at `ex - ey == n0`: the shifted divisor is taken off, one place lower if it is
      too large; `stop` is the break that a remainder below the divisor takes. */
  method Pass(r: nat, ay: nat, n0: nat) returns (r': nat, stop: bool)
    requires r < INF && ay < INF && 0 < Scaled(ay) <= Scaled(r) && BitLen(Scaled(ay)) + n0 == BitLen(Scaled(r))
    ensures r' < INF && Congruent(Scaled(r'), Scaled(r), Scaled(ay))
    ensures if stop then Scaled(r') < Scaled(ay) else Scaled(r') < Scaled(r)
  {
    hide Scaled, Pow, BitLen, IsDouble, Congruent;
    ghost var y, w := Scaled(ay), Scaled(r);
    Finite(r);
    SameLength(w, y, n0);
    NoShift(y, n0);
    var n := n0;
    var t := Ldexp(ay, n);
    stop := false;
    if Scaled(t) > Scaled(r) {
      if n == 0 {
        stop := true;
        r' := r;
        CongruentSelf(w, y);
        return;
      }
      n := n - 1;
      t := Ldexp(ay, n);
    }
    PassIsExact(r, ay, t, n);
    r' := Minus(r, t);
  }

  /** The loop of `fmod` on magnitudes. */
  method Remainder(ax: nat, ay: nat) returns (r: nat)
    requires ax < INF && ay < INF && 0 < Scaled(ay) <= Scaled(ax)
    ensures r < INF && Scaled(r) == Scaled(ax) % Scaled(ay)
  {
    hide Scaled, Pow, BitLen, IsDouble, Congruent;
    ZeroPattern();
    ghost var x, y := Scaled(ax), Scaled(ay);
    var ex := Exponent(ax);
    var ey := Exponent(ay);
    r := ax;
    BitLenMono(y, x);
    CongruentSelf(x, y);
    while ex >= ey
      invariant r < INF && y <= Scaled(r) && Congruent(Scaled(r), x, y)
      invariant ex == BitLen(Scaled(r)) - 1074 && ex >= ey
      decreases Scaled(r)
    {
      ghost var was := Scaled(r);
      var stop;
      r, stop := Pass(r, ay, ex - ey);
      CongruentTrans(Scaled(r), was, x, y);
      if stop || Scaled(r) < Scaled(ay) {
        break;
      }
      BitLenMono(y, Scaled(r));
      ex := Exponent(r);
    }
    CongruentSmall(Scaled(r), x, y);
  }

  lemma NoShift(y: nat, n: nat)
    ensures n == 0 ==> y * Pow(2, n) == y
  {
  }

  lemma CongruentSelf(a: nat, y: nat)
    requires y > 0
    ensures Congruent(a, a, y)
  {
  }

  lemma ZeroPattern()
    ensures Scaled(0) == 0
  {
    LowPattern(0);
  }

  lemma Finite(r: nat)
    requires r < INF
    ensures Scaled(r) < Pow(2, 2098)
  {
    hide Scaled, Pow;
    PatternIsDouble(r);
  }

  // ---------- with signs and special values ----------

  datatype Outcome = NotANumber | Number(bits: nat)

  function Magnitude(x: nat): nat {
    x % TWO63
  }

  function Negative(x: nat): bool {
    x / TWO63 % 2 == 1
  }

  predicate IsNan(x: nat) {
    Magnitude(x) > INF
  }

  /** `fmod`: no number for a NaN, an infinite dividend or a zero divisor; otherwise the remainder of
      the magnitudes, exactly, with the dividend's sign. */
  method FMod(x: nat, y: nat) returns (o: Outcome)
    requires x < TWO64 && y < TWO64
    ensures o.NotANumber? <==> IsNan(x) || IsNan(y) || Magnitude(x) == INF || Magnitude(y) == 0
    ensures o.Number? ==> o.bits < TWO64 && Magnitude(o.bits) < INF && Negative(o.bits) == Negative(x)
    ensures o.Number? && Magnitude(y) < INF ==>
      Scaled(Magnitude(o.bits)) == Scaled(Magnitude(x)) % Scaled(Magnitude(y))
    ensures o.Number? && Magnitude(y) == INF ==> o.bits == x
  {
    hide Scaled;
    var ax, ay := Magnitude(x), Magnitude(y);
    if ay > INF || ax > INF || ax == INF || ay == 0 {
      return NotANumber;
    }
    Comparable(ax, ay);
    if Scaled(ax) < Scaled(ay) {
      SmallMod(Scaled(ax), Scaled(ay));
      return Number(x);
    }
    var r := Remainder(ax, ay);
    o := Number(if Negative(x) then r + TWO63 else r);
  }

  lemma Comparable(ax: nat, ay: nat)
    requires ax < INF && 0 < ay <= INF
    ensures Scaled(ay) > 0 && (Scaled(ax) < Scaled(ay) <==> ax < ay)
  {
    hide Scaled;
    ScaledMono(0, ay);
    if ax < ay {
      ScaledMono(ax, ay);
    } else {
      ScaledMono(ay, ax);
    }
  }
}
