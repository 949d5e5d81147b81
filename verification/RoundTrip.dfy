/**
 Printing to seventeen significant digits and reading back: `_u_dexp`, `_u_round` and
 `_u_sd_fix` in one chain return the bits they were given.
 */
module RoundTrip {
  import opened Arith
  import opened Digits
  import opened Binary64
  import opened DecimalWalk
  import opened Dexp
  import opened Exponents
  import opened Strtod
  import Rounding
  import Ffmt

  const SEVENTEEN: nat := 17

  /** `r` is the expansion's digits cut to seventeen, with the last one at place `y`. */
  ghost predicate IsCut(v: nat, nd: nat, x: int, r: nat, y: int) {
    if nd <= SEVENTEEN then r == v && y == x - nd
    else IsHalfEven(v, Pow(10, nd - SEVENTEEN), r) && y == x - SEVENTEEN
  }

  /** A rounding error of half a unit is small against seventeen digits, in any common scale. */
  lemma {:induction false} RoundingErrorIsSmall(n: nat, w: nat, k: nat, r: nat, p: nat, v: nat, t: nat)
    requires k > 0 && t > 0 && n * k == r * p * t && w * k == v * t
    requires 2 * Abs(v - r * p) <= p && 10_000_000_000_000_000 * p <= v
    ensures 20_000_000_000_000_000 * Abs(n - w) <= w
  {
    var e := Abs(v - r * p);
    assert Abs(n - w) * k == e * t by {
      ScaledGap(n, w, k, r * p, v, t);
    }
    assert 20_000_000_000_000_000 * e <= v;
    CancelScale(Abs(n - w), w, k, e, v, t);
  }

  lemma ScaledGap(n: nat, w: nat, k: nat, a: nat, v: nat, t: nat)
    requires n * k == a * t && w * k == v * t
    ensures Abs(n - w) * k == Abs(v - a) * t
  {
  }

  lemma CancelScale(g: nat, w: nat, k: nat, e: nat, v: nat, t: nat)
    requires k > 0 && g * k == e * t && w * k == v * t && 20_000_000_000_000_000 * e <= v
    ensures 20_000_000_000_000_000 * g <= w
  {
    MulLe(20_000_000_000_000_000 * e, v, t);
    MulAssoc(20_000_000_000_000_000, e, t);
    MulAssoc(20_000_000_000_000_000, g, k);
    if 20_000_000_000_000_000 * g > w {
      MulLt(w, 20_000_000_000_000_000 * g, k);
    }
  }

  /** The cut decimal is within a relative half of 10^-16 of the double. */
  lemma {:induction false} CutIsClose(bits: nat, v: nat, nd: nat, x: int, r: nat, y: int)
    requires IsExpansion(bits, v, nd, x) && IsCut(v, nd, x, r, y)
    ensures 20_000_000_000_000_000 * Dist(Num(r, y), Den(y), bits) <= Scaled(bits) * Den(y)
  {
    hide Scaled, Pow;
    PowZero(10);
    if nd > SEVENTEEN {
      var p := Pow(10, nd - SEVENTEEN);
      PowAdd(10, 16, nd - SEVENTEEN);
      TenTo16();
      var k := CommonScale(bits, nd, x, r, y);
      RoundingErrorIsSmall(Num(r, y), Scaled(bits) * Den(y), k, r, p, v, Pow(2, 1074));
    }
  }

  /** One factor brings the decimal and the double to the expansion's scale. */
  lemma {:induction false} CommonScale(bits: nat, nd: nat, x: int, r: nat, y: int) returns (k: nat)
    requires nd > SEVENTEEN && x <= nd && y == x - SEVENTEEN
    ensures k > 0
    ensures Num(r, y) * k == r * Pow(10, nd - SEVENTEEN) * Pow(2, 1074)
    ensures Scaled(bits) * Den(y) * k == Scaled(bits) * Pow(10, nd - x)
  {
    hide Scaled, Pow;
    PowZero(10);
    var t := Pow(2, 1074);
    if y >= 0 {
      k := Pow(10, nd - x);
      PowAdd(10, y, nd - x);
      MulSwap(r * Pow(10, y), t, k);
      MulAssoc(r, Pow(10, y), k);
    } else {
      k := Pow(10, nd - SEVENTEEN);
      PowAdd(10, -y, nd - SEVENTEEN);
      MulAssoc(Scaled(bits), Pow(10, -y), k);
      MulSwap(r, t, k);
    }
  }

  /** The cut digits stay in the range the reader handles exactly. */
  lemma {:induction false} CutInRange(bits: nat, v: nat, nd: nat, x: int, r: nat, y: int)
    requires IsExpansion(bits, v, nd, x) && IsCut(v, nd, x, r, y) && 0 < bits < INF
    ensures InRange(r, y)
  {
    ExpansionPlace(bits, v, nd, x);
    hide Pow, Scaled, NumDigits;
    NumDigitsIs(r);
    if nd <= SEVENTEEN {
      HasDigitsUnique(r, NumDigits(r), nd);
    } else {
      CutSize(v, nd, r);
      PowStrict(10, 17, 18);
      if r < Pow(10, 17) {
        HasDigitsUnique(r, NumDigits(r), 17);
      } else {
        HasDigitsUnique(r, NumDigits(r), 18);
      }
    }
  }

  /** Seventeen digits, or a one and seventeen zeros after a carry. */
  lemma {:induction false} CutSize(v: nat, nd: nat, r: nat)
    requires nd > SEVENTEEN && Pow(10, nd - 1) <= v < Pow(10, nd)
    requires IsHalfEven(v, Pow(10, nd - SEVENTEEN), r)
    ensures Pow(10, 16) <= r <= Pow(10, 17)
  {
    hide Pow;
    var p := Pow(10, nd - SEVENTEEN);
    PowAdd(10, 16, nd - SEVENTEEN);
    PowAdd(10, 17, nd - SEVENTEEN);
    if r < Pow(10, 16) {
      MulLe(r + 1, Pow(10, 16), p);
      Distrib(r, 1, p);
    }
    if r > Pow(10, 17) {
      MulLe(Pow(10, 17) + 1, r, p);
      Distrib(Pow(10, 17), 1, p);
    }
  }

  /**
   Seventeen digits of the exact expansion, rounded to nearest, determine the double:
   the pattern is the correctly rounded one for them, so the walk returns to it.
   */
  lemma {:induction false} SeventeenDigitsSuffice(bits: nat, v: nat, nd: nat, x: int, r: nat, y: int)
    requires 0 < bits < INF && IsExpansion(bits, v, nd, x) && IsCut(v, nd, x, r, y)
    ensures InRange(r, y) && IsNearest(Num(r, y), Den(y), bits)
  {
    CutInRange(bits, v, nd, x, r, y);
    CutIsClose(bits, v, nd, x, r, y);
    hide Num, Den, Dist, Scaled, IsNearest;
    CloseRoundsBack(Num(r, y), Den(y), bits);
  }

  /** Digits to text and back: the identity on every finite positive pattern. */
  method PrintParse(bits: nat, guess: nat) returns (back: nat)
    requires 0 < bits < INF
    requires guess < INF && -64 <= guess - bits <= 64
    ensures back == bits
  {
    hide Pow, DigVal, Strip, IsNearest, Num, Den, InRange;
    var dig := new nat[ND];
    var nd, x := Expand(bits, dig);
    ghost var v: nat, nd0: nat, x0 := DigVal(dig[..nd]), nd, x;
    ExpandIsExpansion(bits, dig[..nd], x);
    nd, x := Rounding.Cut(dig, nd, SEVENTEEN, x);
    var s := dig[..nd];
    StripDigits(s);
    CutIsCut(v, nd0, x0, DigVal(s), nd, x);
    SeventeenDigitsSuffice(bits, v, nd0, x0, DigVal(s), x - nd);
    back := SdFix(s, x - nd, guess);
  }

  lemma CutIsCut(v: nat, nd0: nat, x0: int, r: nat, nd: nat, x: int)
    requires SEVENTEEN >= nd0 ==> nd == nd0 && x == x0 && r == v
    requires SEVENTEEN < nd0 ==> IsHalfEven(v, Pow(10, nd0 - SEVENTEEN), r) && x - nd == x0 - SEVENTEEN
    ensures IsCut(v, nd0, x0, r, x - nd)
  {
  }

  // ---------- the same through the printed text ----------

  /** A double rounded sixteen places after its leading digit is closest to itself. */
  lemma {:induction false} LeadingSeventeenAreClose(bits: nat, e: int, r: nat)
    requires 0 < bits < INF && Ffmt.LeadsAt(bits, e) && Ffmt.RoundedAt(bits, e - 16, r)
    ensures IsNearest(Num(r, e - 16), Den(e - 16), bits)
  {
    if e > 16 {
      LargeIsClose(bits, e, r);
    } else {
      SmallIsClose(bits, e, r);
    }
  }

  lemma {:induction false} LargeIsClose(bits: nat, e: int, r: nat)
    requires 0 < bits < INF && Ffmt.LeadsAt(bits, e) && Ffmt.RoundedAt(bits, e - 16, r) && e > 16
    ensures IsNearest(Num(r, e - 16), Den(e - 16), bits)
  {
    hide Pow, Scaled;
    var y := e - 16;
    var t, s := Pow(2, 1074), Scaled(bits);
    PowZero(10);
    TenTo16();
    PowAdd(10, 16, y);
    MulSwap(Pow(10, 16), Pow(10, y), t);
    MulAssoc(Pow(10, 16), t, Pow(10, y));
    MulAssoc(r, t, Pow(10, y));
    MulSwap(r, t, Pow(10, y));
    FarFromHalf(s, t * Pow(10, y), r, bits, Num(r, y), Den(y));
  }

  lemma {:induction false} SmallIsClose(bits: nat, e: int, r: nat)
    requires 0 < bits < INF && Ffmt.LeadsAt(bits, e) && Ffmt.RoundedAt(bits, e - 16, r) && e <= 16
    ensures IsNearest(Num(r, e - 16), Den(e - 16), bits)
  {
    hide Pow, Scaled;
    var y := e - 16;
    var t, s := Pow(2, 1074), Scaled(bits);
    PowZero(10);
    TenTo16();
    if e >= 0 {
      PowAdd(10, e, -y);
      MulLe(Pow(10, e) * t, s, Pow(10, -y));
      MulSwap(Pow(10, e), t, Pow(10, -y));
    } else {
      PowAdd(10, -e, 16);
      MulAssoc(s, Pow(10, -e), Pow(10, 16));
      MulLe(t, s * Pow(10, -e), Pow(10, 16));
    }
    FarFromHalf(s * Pow(10, -y), t, r, bits, Num(r, y), Den(y));
  }

  lemma {:induction false} FarFromHalf(a: nat, d: nat, r: nat, bits: nat, n: nat, u: nat)
    requires d > 0 && u > 0 && 0 < bits < INF && IsHalfEven(a, d, r)
    requires n == r * d && a == Scaled(bits) * u && 10_000_000_000_000_000 * d <= a
    ensures IsNearest(n, u, bits)
  {
    hide Scaled, IsNearest;
    assert Dist(n, u, bits) == Abs(a - r * d);
    CloseRoundsBack(n, u, bits);
  }

  /** The `%.16e` mantissa and exponent read back to the bits. */
  lemma {:induction false} ScientificReadsBack(bits: nat, n: nat, e: int)
    requires 0 < bits < INF && Ffmt.IsScientific(bits, 16, n, e)
    ensures IsNearest(Num(n, e - 16), Den(e - 16), bits)
  {
    hide Pow, Scaled, Ffmt.LeadsAt, Ffmt.RoundedAt, IsNearest, Num, Den;
    NotZero(bits);
    if Ffmt.LeadsAt(bits, e) && Ffmt.RoundedAt(bits, e - 16, n) {
      LeadingSeventeenAreClose(bits, e, n);
    } else {
      LeadingSeventeenAreClose(bits, e - 1, 10 * n);
      TrailingZero(n, e - 17);
      NearestRatio(Num(10 * n, e - 17), Den(e - 17), Num(n, e - 16), Den(e - 16), bits);
    }
  }

  lemma {:induction false} NotZero(bits: nat)
    requires 0 < bits < INF
    ensures Scaled(bits) > 0
  {
  }

  /** What a scan makes of `%.16e` text: the mantissa up to the letter, the exponent field after it. */
  lemma {:induction false} ScanOfSciText(t: seq<nat>, bits: nat, r: Scan)
    requires Ffmt.IsSciText(t, bits, 16, false, false) && IsScan(t, r) && r.ds == 0
    ensures r.de == 18 && r.fd == 16 && r.ex == TrueExp(t, 18, r.i) == Ffmt.ReadExp(t[19..])
  {
    hide TextVal, Ffmt.IsScientific, Kept, DigVal, SatVal, FracLen;
    assert t[1] == DOT by {
      assert t[1] == t[1..2][0];
    }
    MantissaEnds(t, r.de);
    assert t[0..18] == t[..18];
    FracLenIs(t[..18], 1);
    ExpFieldReads(t, r.i, r.ex);
  }

  /** The scan of one digit, the point and sixteen digits stops at the letter. */
  lemma {:induction false} MantissaEnds(t: seq<nat>, de: nat)
    requires |t| > 18 && t[1] == DOT && AllDigits(t[..1]) && AllDigits(t[2..18]) && !IsDig(t[18])
    requires IsMantissa(t, 0, de)
    ensures de == 18
  {
  }

  /** The scanned exponent is the printed one: three digits never saturate. */
  lemma {:induction false} ExpFieldReads(t: seq<nat>, i: nat, ex: int)
    requires 22 <= |t| <= 23 && t[18] == 101 && (t[19] == 43 || t[19] == 45) && AllDigits(t[20..])
    requires IsExpField(t, 18, i, ex)
    ensures i <= |t| && ex == TrueExp(t, 18, i) == Ffmt.ReadExp(t[19..])
  {
    hide DigVal, SatVal;
    assert t[20..] == t[20..|t|];
    Pointwise(t, 20, |t|);
    assert i == |t|;
    assert t[20..i] == t[20..] == t[19..][1..];
    DigBound(t[20..]);
    ThousandIs();
    PowMono(10, |t| - 20, 3);
    SatExact(t[20..]);
  }

  lemma ThousandIs()
    ensures Pow(10, 3) == 1000
  {
  }

  /** The `%.16e` text of every positive finite double, scanned and converted, gives it back bit for bit. */
  method PrintScan(bits: nat) returns (back: nat, text: seq<nat>, r: Scan)
    requires 0 < bits < INF
    ensures Ffmt.IsSciText(text, bits, 16, false, false) && IsScan(text, r) && r.ds == 0
    ensures back == bits
  {
    hide Ffmt.IsSciText, IsScan, RoundsTo, Unshown, Settled;
    var out := new nat[32];
    var n := Ffmt.Scientific(out, bits, 16, false, false);
    text := out[..n];
    var range;
    back, r, range := DecimalToBits(text, 0);
    ScanOfSciText(text, bits, r);
    SciTextRounds(text, bits, r);
    OneDouble(text, r, back, bits);
  }

  lemma {:induction false} SciTextRounds(t: seq<nat>, bits: nat, r: Scan)
    requires 0 < bits < INF && Ffmt.IsSciText(t, bits, 16, false, false) && IsScan(t, r)
    requires r.ds == 0 && r.de == 18 && r.fd == 16 && r.ex == TrueExp(t, 18, r.i) == Ffmt.ReadExp(t[19..])
    ensures RoundsTo(t, r, bits) && Settled(t, r)
  {
    hide Ffmt.IsScientific, IsNearest, Num, Den, TextVal;
    assert t[0..18] == t[..18];
    ScientificReadsBack(bits, TextVal(t[..18]), r.ex);
  }
}
