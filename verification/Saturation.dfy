/** A text for which the saturated exponent of `strtod` shows. */
module Saturation {
  import opened Arith
  import opened CString
  import opened Digits
  import opened Binary64
  import opened DecimalWalk
  import opened Exponents
  import opened Strtod
  import Ffmt

  // ---------- one text ----------

  /** "0.", a million zeros, a one. */
  const MANTISSA: seq<nat> := [ZERO, DOT] + seq<nat>(1_000_000, i => ZERO) + [49]

  /** The mantissa with the exponent that makes it one: "e1000001". */
  const EXPONENT: seq<nat> := [49, 48, 48, 48, 48, 48, 49]
  const LONGONE: seq<nat> := MANTISSA + [101] + EXPONENT

  /** The pattern of one. */
  const ONE: nat := 0x3FF0_0000_0000_0000

  lemma MantissaText()
    ensures |MANTISSA| == 1_000_003 && IsText(MANTISSA) && TextVal(MANTISSA) == 1
    ensures MANTISSA[0] == ZERO && MANTISSA[1] == DOT && AllDigits(MANTISSA[2..])
  {
    var z := seq<nat>(1_000_000, i => ZERO);
    assert MANTISSA == [ZERO] + Ffmt.Point(1, true) + (z + [49]);
    Ffmt.PointVanishes([ZERO], 1, true, z + [49]);
    hide DigVal, Strip;
    assert [ZERO] + (z + [49]) == [ZERO] + z + [49];
    DigSnoc([ZERO] + z, 49);
    DigZeros([ZERO] + z);
    assert MANTISSA[2..] == z + [49];
  }

  lemma ExponentText()
    ensures AllDigits(EXPONENT) && DigVal(EXPONENT) == 1_000_001 && SatVal(EXPONENT) == 100_000
  {
    hide DigVal, SatVal;
    DigEmpty();
    SatNone();
    Accumulate([], 49);
    Accumulate([49], 48);
    Accumulate([49, 48], 48);
    Accumulate([49, 48, 48], 48);
    Accumulate([49, 48, 48, 48], 48);
    Accumulate([49, 48, 48, 48, 48], 48);
    Accumulate([49, 48, 48, 48, 48, 48], 49);
    assert [] + [49] == [49] && [49] + [48] == [49, 48] && [49, 48] + [48] == [49, 48, 48];
    assert [49, 48, 48] + [48] == [49, 48, 48, 48] && [49, 48, 48, 48] + [48] == [49, 48, 48, 48, 48];
    assert [49, 48, 48, 48, 48] + [48] == [49, 48, 48, 48, 48, 48] && [49, 48, 48, 48, 48, 48] + [49] == EXPONENT;
  }

  lemma SatNone()
    ensures SatVal([]) == 0
  {
  }

  /** One more exponent digit. */
  lemma Accumulate(t: seq<nat>, c: nat)
    requires 48 <= c <= 57
    ensures DigVal(t + [c]) == 10 * DigVal(t) + (c - 48)
    ensures SatVal(t + [c]) == if SatVal(t) < 100_000 then 10 * SatVal(t) + (c - 48) else SatVal(t)
  {
    assert (t + [c])[..|t|] == t;
  }

  /** The scan of that text. */
  lemma ScanOfLongOne(r: Scan)
    requires IsScan(LONGONE, r) && r.ds == 0
    ensures r.de == 1_000_003 && LONGONE[0..r.de] == MANTISSA && r.fd == 1_000_001
    ensures r.ex == 100_000 && TrueExp(LONGONE, r.de, r.i) == 1_000_001
  {
    hide TextVal, Kept, DigVal, SatVal, FracLen, Strip;
    MantissaText();
    ExponentText();
    var s := LONGONE;
    assert s[..1_000_003] == MANTISSA && s[1_000_003] == 101 && s[1_000_004..] == EXPONENT;
    LongMantissa(s, r.de);
    assert s[0..r.de] == MANTISSA;
    FracLenIs(MANTISSA, 1);
    LongExponent(s, r.i, r.ex);
  }

  lemma LongMantissa(s: seq<nat>, de: nat)
    requires |s| > 1_000_004 && s[..1_000_003] == MANTISSA && s[1_000_003] == 101 && IsMantissa(s, 0, de)
    ensures de == 1_000_003
  {
    MantissaText();
    hide MANTISSA, TextVal;
    assert s[0] == ZERO && s[1] == DOT;
    assert s[2..1_000_003] == s[..1_000_003][2..];
    var p: nat :| p <= de <= |s| && AllDigits(s[0..p]) && !IsDig(At(s, p)) &&
      if At(s, p) == DOT then p < de && AllDigits(s[p + 1..de]) && !IsDig(At(s, de)) else de == p;
    Pointwise(s, 0, p);
    assert p == 1;
    Pointwise(s, 2, de);
    Pointwise(s, 2, 1_000_003);
    var c, d := At(s, de), At(s, 1_000_003);
    assert de > 1_000_003 ==> IsDig(d);
    assert de < 1_000_003 ==> IsDig(c);
  }

  lemma LongExponent(s: seq<nat>, i: nat, ex: int)
    requires |s| == 1_000_011 && s[1_000_003] == 101 && s[1_000_004..] == EXPONENT && i <= |s|
    requires IsExpField(s, 1_000_003, i, ex)
    ensures ex == 100_000 && TrueExp(s, 1_000_003, i) == 1_000_001
  {
    ExponentText();
    hide DigVal, SatVal;
    assert s[1_000_004] == EXPONENT[0] == 49;
    Pointwise(s, 1_000_004, |s|);
    var c := At(s, i);
    assert i < |s| ==> IsDig(c);
    assert s[1_000_004..i] == EXPONENT;
  }

  /** The number is one. */
  lemma {:induction false} OneIsOne()
    ensures IsNearest(Num(1, 0), Den(0), ONE)
  {
    hide Pow, IsNearest;
    assert ONE == 1023 * TWO52 + 0;
    DivModIs(ONE, TWO52, 1023, 0);
    assert Mant(ONE) == TWO52 && Shift(ONE) == 1022;
    Pow2Consts();
    PowAdd(2, 52, 1022);
    PowZero(10);
    hide Mant, Shift;
    ExactNearest(Num(1, 0), Den(0), ONE);
  }

  lemma {:induction false} TinyOne()
    ensures IsNearest(Num(1, -900_001), Den(-900_001), 0)
  {
    hide Num, Den, IsNearest;
    assert NumDigits(1) == 1;
    TinyIsZero(1, -900_001);
  }

  /** `strtod` reads that text as zero, with a range error. */
  method LongOneIsLost() returns (b: nat, range: bool)
    ensures b == 0 && range
    ensures exists r: Scan :: IsScan(LONGONE, r) && r.ds == 0 && RoundsTo(LONGONE, r, ONE)
  {
    hide LONGONE, MANTISSA, TextVal, Num, Den, IsNearest, NumDigits, Kept, IsMantissa, IsExpField, FracLen, TrueExp, Unshown,
      Settled;
    var r;
    b, r, range := DecimalToBits(LONGONE, 0);
    MantissaText();
    ScanOfLongOne(r);
    OneIsOne();
    TinyOne();
    OnlyOne(Num(1, -900_001), Den(-900_001), 0);
    assert RoundsWith(LONGONE, r, r.ex, 0);
  }
}
