/**
 `_u_sd_cmp` and `_u_sd_fix`: compare a decimal text with the halfway points around
 a double in big integers, and walk a guess to the correctly rounded double.
 The decimal is TextVal(s) * 10^x10; values are in units of 2^-1074 over a power of ten.
 (Section 7.20.1.3 of ISO/IEC 9899:1999.)
 */
module DecimalWalk {
  import opened Arith
  import opened Limbs
  import opened Digits
  import opened Binary64
  import opened Bignum

  /** At most so many significant digits are read exactly. */
  const SIG: nat := 780

  /** f * 10^x in units of 2^-1074, as the fraction Num / Den. */
  function Num(f: nat, x: int): nat {
    f * Pow(10, Pos(x)) * Pow(2, 1074)
  }

  function Den(x: int): (d: nat)
    ensures d > 0
  {
    Pow(10, Pos(-x))
  }

  /** A trailing zero is a place of the exponent. */
  lemma {:induction false} TrailingZero(n: nat, y: int)
    ensures Num(10 * n, y) * Den(y + 1) == Num(n, y + 1) * Den(y)
  {
    hide Pow;
    PowZero(10);
    var t := Pow(2, 1074);
    if y >= 0 {
      PowSucc(10, y);
      MulAssoc(10, n, Pow(10, y));
      TenTimes(n, Pow(10, y));
    } else {
      PowSucc(10, -y - 1);
      MulAssoc(10, n, t);
      MulAssoc(10, n * t, Pow(10, -y - 1));
      TenTimes(n * t, Pow(10, -y - 1));
    }
  }

  /** The sign of f * 10^x minus the halfway point above pattern `b`. */
  function HalfSign(f: nat, x: int, b: nat): (s: int)
    ensures -1 <= s <= 1
  {
    Sign(2 * Num(f, x) - Halfway(b) * Den(x))
  }

  /** The walk steps up from `b` exactly when the sign says so. */
  lemma StepUpIsSign(f: nat, x: int, b: nat)
    ensures StepUp(Num(f, x), Den(x), b) <==> HalfSign(f, x, b) > 0 || (HalfSign(f, x, b) == 0 && b % 2 == 1)
  {
  }

  /** The decimal place of the leading digit. */
  function Magnitude(f: nat, x: int): int {
    x + NumDigits(f) - 1
  }

  /** What the caller lets through: 10^-325 <= value < 10^310. */
  predicate InRange(f: nat, x: int) {
    f > 0 ==> -325 <= Magnitude(f, x) <= 309
  }

  // ---------- reading the digits ----------

  /**
   The digits read so far denote `f`; the first `cnt` significant ones denote `v`,
   `k` more were dropped, and `sticky` says whether any of those was not zero.
   */
  ghost predicate ReadSoFar(f: nat, v: nat, cnt: nat, k: nat, sticky: bool) {
    && v * Pow(10, k) <= f < v * Pow(10, k) + Pow(10, k)
    && (sticky <==> f > v * Pow(10, k))
    && cnt <= SIG && (k > 0 ==> cnt == SIG)
    && HasDigits(v, cnt)
  }

  lemma ReadNothing()
    ensures ReadSoFar(0, 0, 0, 0, false)
  {
  }

  /** A digit past the limit only scales and may set the sticky flag. */
  lemma {:induction false} ReadDropped(f: nat, v: nat, cnt: nat, k: nat, sticky: bool, c: nat)
    requires ReadSoFar(f, v, cnt, k, sticky) && cnt == SIG && c < 10
    ensures ReadSoFar(10 * f + c, v, cnt, k + 1, sticky || c != 0)
  {
    PowSucc(10, k);
    hide Pow, HasDigits;
    TenTimes(v, Pow(10, k));
  }

  /** Before the limit the number is exact. */
  lemma {:induction false} ReadExact(f: nat, v: nat, cnt: nat, k: nat, sticky: bool)
    requires ReadSoFar(f, v, cnt, k, sticky) && cnt < SIG
    ensures k == 0 && f == v && !sticky && (cnt == 0 ==> v == 0)
  {
  }

  lemma {:induction false} ReadDigit(f: nat, v: nat, cnt: nat, k: nat, sticky: bool, c: nat)
    requires ReadSoFar(f, v, cnt, k, sticky) && cnt < SIG && c < 10 && (cnt == 0 ==> c > 0)
    ensures ReadSoFar(10 * f + c, 10 * v + c, cnt + 1, k, sticky)
  {
  }

  /** Numbers of so many digits stay far inside the limbs. */
  lemma {:induction false} DigitsFit(v: nat, cnt: nat)
    requires HasDigits(v, cnt) && cnt <= SIG
    ensures v < Pow(2, 2600) < CAP
  {
    hide Pow;
    PowZero(10);
    PowMono(10, cnt, SIG);
    TenBelowTwo(260);
    CapIs();
    PowStrict(2, 2600, 6400);
  }

  lemma {:induction false} CapIs()
    ensures CAP == Pow(2, 6400)
  {
    Pow2Consts();
    PowPow(2, 32, BL);
  }

  /** Limbs plus a carry at place `j` make up `total`. */
  ghost predicate SumSoFar(s: seq<nat>, c: nat, j: nat, total: nat) {
    Val(s, BASE32) + c * Pow(BASE32, j) == total
  }

  lemma {:induction false} SumStart(s: seq<nat>, c: nat)
    ensures SumSoFar(s, c, 0, Val(s, BASE32) + c)
  {
  }

  lemma {:induction false} SumEnd(s: seq<nat>, j: nat, total: nat)
    requires SumSoFar(s, 0, j, total)
    ensures Val(s, BASE32) == total
  {
  }

  lemma {:induction false} SumAppend(s: seq<nat>, c: nat, total: nat)
    requires SumSoFar(s, c, |s|, total) && c > 0 && total < CAP
    ensures |s| < BL && Val(s + [c], BASE32) == total
  {
    AppendCarry(s, c, BASE32);
    RoomForCarry(s, c, BASE32, BL);
  }

  lemma {:induction false} SumStep(s: seq<nat>, c: nat, j: nat, total: nat)
    requires j < |s| && SumSoFar(s, c, j, total)
    ensures SumSoFar(s[j := (c + s[j]) % BASE32], (c + s[j]) / BASE32, j + 1, total)
  {
    var t := c + s[j];
    ValReplace(s, j, t % BASE32, BASE32);
    PowSucc(BASE32, j);
    hide Val, Pow;
    var p := Pow(BASE32, j);
    MulAssoc(t / BASE32, BASE32, p);
    Distrib(t / BASE32 * BASE32, t % BASE32 - s[j], p);
  }

  /** Add one digit into the limbs, rippling the carry. */
  method AddDigit(d: array<nat>, n: nat, c0: nat) returns (n': nat)
    requires IsBig(d, n) && n > 0 && c0 < 10 && Val(d[..n], BASE32) + c0 < CAP
    modifies d
    ensures 0 < n' && IsBig(d, n') && Val(d[..n'], BASE32) == Val(old(d[..n]), BASE32) + c0
    ensures Tight(old(d[..n])) ==> Tight(d[..n'])
  {
    hide Val, Pow, SumSoFar;
    ghost var s := d[..n];
    ghost var total: nat := Val(s, BASE32) + c0;
    var c2: nat, j: nat := c0, 0;
    SumStart(s, c0);
    while c2 > 0 && j < n
      invariant 0 <= j <= n && Below(d[..n], BASE32) && c2 < BASE32
      invariant SumSoFar(d[..n], c2, j, total)
      invariant d[j..n] == s[j..]
      invariant j == n && c2 == 0 && s[n - 1] > 0 ==> d[n - 1] > 0
    {
      SumStep(d[..n], c2, j, total);
      assert d[j] == d[j..n][0] == s[j];
      assert d[j + 1..n] == d[j..n][1..] == s[j + 1..];
      ghost var before := d[..n];
      c2 := c2 + d[j];
      ghost var low: nat := c2 % BASE32;
      d[j] := c2 % BASE32;
      assert d[..n] == before[j := low];
      c2 := c2 / BASE32;
      j := j + 1;
    }
    n' := n;
    if c2 > 0 {
      ghost var low := d[..n];
      SumAppend(low, c2, total);
      if n' < BL {
        d[n'] := c2;
        assert d[..n + 1] == low + [c2];
        n' := n' + 1;
      }
    } else {
      SumEnd(d[..n], j, total);
      if j < n {
        assert d[n - 1] == d[j..n][n - 1 - j] == s[n - 1];
      }
    }
  }

  /** The first 780 significant digits in the limbs, and what is known of the rest. */
  method ReadDigits(s: seq<nat>, x10: int, d: array<nat>)
    returns (nd: nat, cnt: nat, sticky: bool, xx: int, ghost v: nat)
    requires IsText(s) && d.Length == BL
    modifies d
    ensures IsBig(d, nd) && (nd == 0 <==> cnt == 0) && (nd > 0 ==> Val(d[..nd], BASE32) == v && Tight(d[..nd]))
    ensures xx >= x10 && ReadSoFar(TextVal(s), v, cnt, xx - x10, sticky)
  {
    hide Val, Pow, ReadSoFar, TextVal, Tight;
    nd, cnt, sticky, xx, v := 0, 0, false, x10, 0;
    ReadNothing();
    TextEmpty();
    for i := 0 to |s|
      invariant IsBig(d, nd) && (nd == 0 <==> cnt == 0) && cnt <= SIG
      invariant nd > 0 ==> Val(d[..nd], BASE32) == v && Tight(d[..nd])
      invariant xx >= x10 && ReadSoFar(TextVal(s[..i]), v, cnt, xx - x10, sticky)
    {
      TextStep(s, i);
      var ch := s[i];
      ghost var f: nat, k: nat := TextVal(s[..i]), xx - x10;
      if ch == 46 {
        continue;
      }
      if cnt >= SIG {
        ReadDropped(f, v, cnt, k, sticky, ch - 48);
        if ch != 48 {
          sticky := true;
        }
        xx := xx + 1;
        continue;
      }
      ReadExact(f, v, cnt, k, sticky);
      if nd == 0 && ch == 48 {
        continue;
      }
      ReadDigit(f, v, cnt, k, sticky, ch - 48);
      RoomForDigit(f, v, cnt, k, sticky, ch - 48);
      nd := PushDigit(d, nd, ch - 48, v);
      v := 10 * v + (ch - 48);
      cnt := cnt + 1;
    }
    assert s[..|s|] == s;
  }

  lemma TextEmpty()
    ensures TextVal([]) == 0
  {
  }

  lemma {:induction false} RoomForDigit(f: nat, v: nat, cnt: nat, k: nat, sticky: bool, c: nat)
    requires ReadSoFar(f, v, cnt, k, sticky) && cnt < SIG && c < 10 && (cnt == 0 ==> c > 0)
    ensures 10 * v + c < CAP && (cnt == 0 ==> v == 0)
  {
    ReadDigit(f, v, cnt, k, sticky, c);
    ReadExact(f, v, cnt, k, sticky);
    hide Pow;
    DigitsFit(10 * v + c, cnt + 1);
  }

  /** `d = d * 10 + c2`, starting the number when there is none yet. */
  method PushDigit(d: array<nat>, nd0: nat, c2: nat, ghost v: nat) returns (nd: nat)
    requires IsBig(d, nd0) && c2 < 10 && 10 * v + c2 < CAP
    requires if nd0 == 0 then v == 0 else Val(d[..nd0], BASE32) == v && Tight(d[..nd0])
    modifies d
    ensures 0 < nd && IsBig(d, nd) && Val(d[..nd], BASE32) == 10 * v + c2 && Tight(d[..nd])
  {
    hide Val, Pow;
    nd := nd0;
    if nd == 0 {
      d[0] := 0;
      nd := 1;
      assert d[..1] == [0];
      AllZero([0], BASE32);
    }
    nd := Muls(d, nd, 10);
    nd := AddDigit(d, nd, c2);
  }

  // ---------- bringing both sides to integers ----------

  /** The exponent of the halfway point's unit, as the source computes it. */
  function HalfExp(b: nat): int {
    Shift(b) - 1075
  }

  /** The scaled integers whose comparison the source makes. */
  function LeftSide(v: nat, xx: int, b: nat): nat {
    v * Pow(10, Pos(xx)) * Pow(2, Pos(-HalfExp(b)))
  }

  function RightSide(xx: int, b: nat): nat {
    (2 * Mant(b) + 1) * Pow(10, Pos(-xx)) * Pow(2, Pos(HalfExp(b)))
  }

  /** Comparing the scaled integers is comparing the values. */
  lemma {:induction false} SidesGiveSign(v: nat, xx: int, b: nat)
    ensures Sign(LeftSide(v, xx, b) - RightSide(xx, b)) == HalfSign(v, xx, b)
  {
    hide Mant, Shift, Pow;
    var w, h, t, s := v * Pow(10, Pos(xx)), 2 * Mant(b) + 1, Pow(10, Pos(-xx)), Shift(b);
    if s <= 1075 {
      PowAdd(2, 1075 - s, s);
      PowZero(2);
    } else {
      PowAdd(2, s - 1075, 1075);
      PowZero(2);
    }
    PowSucc(2, 1074);
    var common := if s <= 1075 then s else 1075;
    hide Pow, Sign, NumDigits;
    SignScale(LeftSide(v, xx, b), RightSide(xx, b), Pow(2, common));
    MulAssoc(w, Pow(2, Pos(-HalfExp(b))), Pow(2, common));
    MulAssoc(h * t, Pow(2, Pos(HalfExp(b))), Pow(2, common));
    MulSwap(h, t, Pow(2, s));
    TimesTwo(w, Pow(2, 1074));
  }

  lemma TimesTwo(w: nat, p: nat)
    ensures w * (2 * p) == 2 * (w * p)
  {
  }

  // ---------- the 780-digit cut loses nothing ----------

  lemma {:induction false} SignMono(f: nat, g: nat, x: int, b: nat)
    requires f < g
    ensures Num(f, x) < Num(g, x)
  {
    MulLt(f, g, Pow(10, Pos(x)));
    MulLt(f * Pow(10, Pos(x)), g * Pow(10, Pos(x)), Pow(2, 1074));
  }

  /** Moving zeros between the digits and the exponent changes no comparison. */
  lemma {:induction false} SignOfShifted(v: nat, k: nat, x: int, b: nat)
    ensures HalfSign(v * Pow(10, k), x, b) == HalfSign(v, x + k, b)
  {
    var p, h := Pow(2, 1074), Halfway(b);
    PowZero(10);
    if x >= 0 {
      PowAdd(10, k, x);
      hide Pow, Halfway;
      MulAssoc(v, Pow(10, k), Pow(10, x));
    } else if x + k <= 0 {
      PowAdd(10, -x - k, k);
      hide Pow, Halfway, Sign;
      SignScale(2 * Num(v, x + k), h * Den(x + k), Pow(10, k));
      MulAssoc(h, Den(x + k), Pow(10, k));
      MulSwap(v, p, Pow(10, k));
      MulAssoc(2, v * p, Pow(10, k));
    } else {
      PowAdd(10, x + k, -x);
      hide Pow, Halfway, Sign;
      SignScale(2 * Num(v, x + k), h * Den(x + k), Pow(10, -x));
      MulAssoc(v, Pow(10, x + k), Pow(10, -x));
      MulSwap(v * Pow(10, x + k), p, Pow(10, -x));
      MulAssoc(2, v * Pow(10, x + k) * p, Pow(10, -x));
    }
  }

  /** 2^54 * 5^1074 has fewer than 780 digits. */
  lemma {:induction false} HalfwayIsShort()
    ensures Pow(2, 54) * Pow(5, 1074) < Pow(10, 779)
  {
    hide Pow;
    PowAdd(5, 779, 295);
    PowMono(5, 295, 297);
    FiveBelowTwo(99);
    PowAdd(2, 54, 693);
    PowStrict(2, 747, 779);
    PowProduct(2, 5, 779);
    FewFives(Pow(2, 54), Pow(5, 779), Pow(5, 295), Pow(2, 693), Pow(2, 779));
  }

  lemma FewFives(a: nat, f: nat, g: nat, c: nat, t: nat)
    requires g <= c && a * c < t && f > 0
    ensures a * (f * g) < t * f
  {
  }

  /** A power of ten times the halfway point, split into its odd part and its twos. */
  lemma {:induction false} HalfwayTimesTen(b: nat, y: nat)
    ensures Halfway(b) * Pow(10, y) == (2 * Mant(b) + 1) * Pow(5, y) * Pow(2, Shift(b) + y)
  {
    hide Mant, Shift;
    var m, s := 2 * Mant(b) + 1, Shift(b);
    PowProduct(2, 5, y);
    PowAdd(2, s, y);
    hide Pow;
    Regroup(m, Pow(2, s), Pow(2, y), Pow(5, y));
  }

  lemma TwoNum(v: nat, x: int)
    requires x <= 0
    ensures 2 * Num(v, x) == v * Pow(2, 1075)
  {
    PowZero(10);
    PowSucc(2, 1074);
    hide Pow;
    TimesTwo(v, Pow(2, 1074));
  }

  lemma {:induction false} HalfwayBelow(b: nat)
    requires b < INF
    ensures Halfway(b) < Pow(2, 2099)
  {
    hide Pow;
    PowMono(2, Shift(b), 2045);
    PowAdd(2, 54, 2045);
    Pow2Consts();
    hide Mant, Shift;
    MulLe(2 * Mant(b) + 1, Pow(2, 54) - 1, Pow(2, Shift(b)));
    MulLe(Pow(2, Shift(b)), Pow(2, 2045), Pow(2, 54) - 1);
    DistribSub(Pow(2, 54), 1, Pow(2, 2045));
  }

  /** An integer decimal with 780 digits is past every double. */
  lemma {:induction false} LongIntegersAreHuge(v: nat, x: int, b: nat)
    requires v >= Pow(10, 779) && x > 0 && b < INF
    ensures HalfSign(v, x, b) > 0
  {
    hide Pow, Halfway;
    HalfwayBelow(b);
    PowZero(10);
    LongIsMuch();
    MulGrows(v, Pow(10, x));
    MulLe(Pow(2, 1025), v * Pow(10, x), Pow(2, 1074));
    PowAdd(2, 1025, 1074);
  }

  lemma {:induction false} LongIsMuch()
    ensures Pow(2, 1025) <= Pow(10, 779)
  {
    hide Pow;
    PowBase(4, 10, 779);
    PowPow(2, 2, 779);
    PowMono(2, 1025, 1558);
    FourIs();
  }

  lemma FourIs()
    ensures Pow(2, 2) == 4
  {
  }

  /**
   No halfway point lies strictly between a 780-digit decimal and the next one: a
   halfway point is a multiple of the last place, or has too few digits.
   */
  lemma {:induction false} NoHalfwayBetween(v: nat, x: int, b: nat)
    requires v >= Pow(10, 779) && b < INF && HalfSign(v, x, b) < 0
    ensures HalfSign(v + 1, x, b) <= 0
  {
    hide Pow, Halfway;
    if x > 0 {
      LongIntegersAreHuge(v, x, b);
    } else {
      TwoNum(v, x);
      TwoNum(v + 1, x);
      HalfwayTimesTen(b, -x);
      if Shift(b) - x >= 1075 {
        EvenHalfway(b, -x, v);
      } else {
        ShortHalfway(b, -x, v);
      }
    }
  }

  /** With enough twos, the halfway point is a multiple of the decimal's unit. */
  lemma {:induction false} EvenHalfway(b: nat, y: nat, v: nat)
    requires Shift(b) + y >= 1075
    requires v * Pow(2, 1075) < (2 * Mant(b) + 1) * Pow(5, y) * Pow(2, Shift(b) + y)
    ensures (v + 1) * Pow(2, 1075) <= (2 * Mant(b) + 1) * Pow(5, y) * Pow(2, Shift(b) + y)
  {
    hide Pow, Mant, Shift;
    var r := Shift(b) + y - 1075;
    PowAdd(2, r, 1075);
    ProductStep(v, (2 * Mant(b) + 1) * Pow(5, y), Pow(2, r), Pow(2, 1075));
  }

  lemma ProductStep(v: nat, m: nat, r: nat, e: nat)
    requires v * e < m * (r * e)
    ensures (v + 1) * e <= m * (r * e)
  {
    MulAssoc(m, r, e);
    var q := m * r;
    if v >= q {
      MulLe(q, v, e);
    } else {
      MulLe(v + 1, q, e);
    }
  }

  /** Without them, it is below 10^779 units. */
  lemma {:induction false} ShortHalfway(b: nat, y: nat, v: nat)
    requires Shift(b) + y < 1075 && v >= Pow(10, 779)
    ensures (2 * Mant(b) + 1) * Pow(5, y) * Pow(2, Shift(b) + y) <= v * Pow(2, 1075)
  {
    hide Pow;
    HalfwayIsShort();
    PowMono(5, y, 1074);
    PowMono(2, Shift(b) + y, 1075);
    Pow2Consts();
    hide Mant, Shift;
    Mul3(2 * Mant(b) + 1, Pow(5, y), Pow(2, Shift(b) + y), Pow(2, 54), Pow(5, 1074), Pow(2, 1075));
    MulLe(Pow(2, 54) * Pow(5, 1074), v, Pow(2, 1075));
  }

  /** What the source answers from the kept digits is the sign for the full decimal. */
  lemma {:induction false} CutKeepsSign(f: nat, v: nat, cnt: nat, k: nat, sticky: bool, x: int, b: nat)
    requires ReadSoFar(f, v, cnt, k, sticky) && b < INF
    ensures HalfSign(f, x, b) == (var c := HalfSign(v, x + k, b); if c == 0 && sticky then 1 else c)
  {
    hide Pow, Num, Halfway, HalfSign;
    var g: nat := v * Pow(10, k);
    SignOfShifted(v, k, x, b);
    if k == 0 {
      PowZero(10);
    } else {
      SignOfShifted(v + 1, k, x, b);
      Distrib(v, 1, Pow(10, k));
      if sticky {
        SignAbove(g, f, x, b);
      }
      SignAbove(f, g + Pow(10, k), x, b);
      if HalfSign(v, x + k, b) < 0 {
        NoHalfwayBetween(v, x + k, b);
      }
    }
  }

  /** Signs grow with the decimal, and only one decimal meets the halfway point. */
  lemma SignAbove(f: nat, g: nat, x: int, b: nat)
    requires f < g
    ensures HalfSign(f, x, b) <= HalfSign(g, x, b) && (HalfSign(f, x, b) >= 0 ==> HalfSign(g, x, b) == 1)
  {
    SignMono(f, g, x, b);
    hide Num, Halfway;
  }

  lemma {:induction false} ZeroIsBelow(x: int, b: nat)
    ensures HalfSign(0, x, b) == -1
  {
  }

  // ---------- nothing is dropped by the 200-limb caps ----------

  lemma {:induction false} UnderCap(x: nat, y: nat, z: nat, a: nat, b: nat, c: nat)
    requires x <= Pow(2, a) && y <= Pow(2, b) && z <= Pow(2, c) && a + b + c < 6400
    ensures x * y * z < CAP && (z > 0 ==> x * y < CAP)
  {
    hide Pow;
    CapIs();
    PowAdd3(2, a, b, c);
    PowStrict(2, a + b + c, 6400);
    Mul3(x, y, z, Pow(2, a), Pow(2, b), Pow(2, c));
    var u := x * y;
    if z > 0 {
      MulGrows(u, z);
    }
  }

  /** In the range the caller lets through, both scaled integers fit. */
  lemma {:induction false} SidesFit(v: nat, cnt: nat, xx: int, b: nat)
    requires HasDigits(v, cnt) && 0 < cnt <= SIG && -325 <= xx + cnt - 1 <= 309 && b < INF
    ensures v * Pow(10, Pos(xx)) < CAP && LeftSide(v, xx, b) < CAP
    ensures (2 * Mant(b) + 1) * Pow(10, Pos(-xx)) < CAP && RightSide(xx, b) < CAP
  {
    LeftFits(v, cnt, xx, b);
    RightFits(xx, b);
  }

  lemma {:induction false} LeftFits(v: nat, cnt: nat, xx: int, b: nat)
    requires HasDigits(v, cnt) && 0 < cnt <= SIG && xx + cnt - 1 <= 309
    ensures v * Pow(10, Pos(xx)) < CAP && LeftSide(v, xx, b) < CAP
  {
    hide Pow, HasDigits;
    PowMono(2, Pos(-HalfExp(b)), 1075);
    PowMono(10, Pos(xx), 312);
    TenBelowTwo(104);
    DigitsFit(v, cnt);
    UnderCap(v, Pow(10, Pos(xx)), Pow(2, Pos(-HalfExp(b))), 2600, 1040, 1075);
  }

  lemma {:induction false} RightFits(xx: int, b: nat)
    requires -1104 <= xx && b < INF
    ensures (2 * Mant(b) + 1) * Pow(10, Pos(-xx)) < CAP && RightSide(xx, b) < CAP
  {
    hide Pow;
    PowMono(2, Pos(HalfExp(b)), 971);
    PowMono(10, Pos(-xx), 1104);
    TenBelowTwo(368);
    Pow2Consts();
    hide Mant, Shift;
    UnderCap(2 * Mant(b) + 1, Pow(10, Pos(-xx)), Pow(2, Pos(HalfExp(b))), 54, 3680, 971);
  }

  /** The kept digits have the magnitude of the whole text. */
  lemma {:induction false} MagnitudeOfKept(f: nat, v: nat, cnt: nat, k: nat, sticky: bool)
    requires ReadSoFar(f, v, cnt, k, sticky) && cnt > 0
    ensures f > 0 && NumDigits(f) == cnt + k
  {
    hide Pow, NumDigits;
    PowAdd(10, cnt - 1, k);
    PowAdd(10, cnt, k);
    NumDigitsIs(f);
    MulLe(Pow(10, cnt - 1), v, Pow(10, k));
    MulLe(v + 1, Pow(10, cnt), Pow(10, k));
    Distrib(v, 1, Pow(10, k));
    HasDigitsUnique(f, NumDigits(f), cnt + k);
  }

  lemma {:induction false} NoDigitsIsZero(f: nat, v: nat, k: nat, sticky: bool)
    requires ReadSoFar(f, v, 0, k, sticky)
    ensures f == 0
  {
  }

  // ---------- the comparison and the walk ----------

  /** The odd integer (2m+1) of the halfway point, in two limbs. */
  method LoadHalf(h: array<nat>, b: nat) returns (nh: nat)
    requires h.Length == BL
    modifies h
    ensures IsBig(h, nh) && nh == 2 && Val(h[..nh], BASE32) == 2 * Mant(b) + 1
  {
    var e := b / TWO52 % 2048;
    var m := b % TWO52;
    if e != 0 {
      m := m + TWO52;
    }
    m := 2 * m + 1;
    h[0] := m % BASE32;
    h[1] := m / BASE32;
    nh := 2;
    assert h[..2] == [h[0], h[1]];
    TwoLimbs(h[0], h[1]);
  }

  lemma {:induction false} TwoLimbs(x: nat, y: nat)
    ensures Val([x, y], BASE32) == x + y * BASE32
  {
    assert [x, y][..1] == [x] && [x][..0] == [];
    PowZero(BASE32);
    PowSucc(BASE32, 0);
    hide Pow;
    assert Val([x], BASE32) == x * Pow(BASE32, 0);
  }

  /**
   Scale the decimal and the halfway point to integers.  In the caller's range no limb
   is dropped and no shift is shortened.
   */
  method Scale(d: array<nat>, nd0: nat, h: array<nat>, nh0: nat, xx: int, b: nat, ghost v: nat, ghost cnt: nat)
    returns (nd: nat, nh: nat)
    requires IsBig(d, nd0) && IsBig(h, nh0) && d != h && b < INF
    requires Val(d[..nd0], BASE32) == v && Tight(d[..nd0])
    requires Val(h[..nh0], BASE32) == 2 * Mant(b) + 1 && nh0 == 2
    requires HasDigits(v, cnt) && 0 < cnt <= SIG
    modifies d, h
    ensures IsBig(d, nd) && IsBig(h, nh)
    ensures -325 <= xx + cnt - 1 <= 309 ==> Val(d[..nd], BASE32) == LeftSide(v, xx, b)
    ensures -325 <= xx + cnt - 1 <= 309 ==> Val(h[..nh], BASE32) == RightSide(xx, b)
  {
    hide Val, Pow, Mant, HasDigits, ShiftFits;
    ghost var fits := -325 <= xx + cnt - 1 <= 309;
    PowZero(10);
    PowZero(2);
    if fits {
      SidesFit(v, cnt, xx, b);
    }
    nd, nh := nd0, nh0;
    if xx > 0 {
      nd := Pow10(d, nd, xx);
    } else {
      nh := Pow10(h, nh, -xx);
    }
    if fits {
      assert Val(d[..nd], BASE32) == v * Pow(10, Pos(xx)) && Tight(d[..nd]);
      assert Val(h[..nh], BASE32) == (2 * Mant(b) + 1) * Pow(10, Pos(-xx)) && Tight(h[..nh]);
      ShiftFitsIs(d[..nd], Pos(-HalfExp(b)));
      ShiftFitsIs(h[..nh], Pos(HalfExp(b)));
    }
    var e := LastPlace(b);
    if e - 1 > 0 {
      nh := Shl(h, nh, e - 1);
    } else {
      nd := Shl(d, nd, 1 - e);
    }
  }

  lemma ShiftFitsIs(s: seq<nat>, k: nat)
    ensures k <= 2000 && Tight(s) && Val(s, BASE32) * Pow(2, k) < CAP ==> ShiftFits(s, k)
  {
  }

  /** The exponent of the last mantissa place, from the exponent field. */
  method LastPlace(b: nat) returns (e: int)
    ensures e == HalfExp(b) + 1
  {
    e := b / TWO52 % 2048;
    if e == 0 {
      e := 1;
    }
    e := e - 1075;
  }

  /** The sign of the whole decimal minus the halfway point above `b`. */
  method SdCmp(s: seq<nat>, x10: int, b: nat) returns (c: int)
    requires IsText(s) && b < INF
    ensures InRange(TextVal(s), x10) ==> c == HalfSign(TextVal(s), x10, b)
  {
    hide Val, TextVal, ReadSoFar, HalfSign, LeftSide, RightSide, HasDigits, NumDigits, Tight, Mant;
    var d, h := new nat[BL], new nat[BL];
    var nd: nat, cnt: nat, sticky: bool, xx: int, v: nat := ReadDigits(s, x10, d);
    ghost var f: nat, k: nat := TextVal(s), xx - x10;
    if nd == 0 {
      NoDigitsIsZero(f, v, k, sticky);
      ZeroIsBelow(x10, b);
      return -1;
    }
    ReadSoFarDigits(f, v, cnt, k, sticky);
    MagnitudeOfKept(f, v, cnt, k, sticky);
    var nh := LoadHalf(h, b);
    nd, nh := Scale(d, nd, h, nh, xx, b, v, cnt);
    c := Cmp(d, nd, h, nh);
    SidesGiveSign(v, xx, b);
    CutKeepsSign(f, v, cnt, k, sticky, x10, b);
    if c == 0 && sticky {
      c := 1;
    }
  }

  lemma ReadSoFarDigits(f: nat, v: nat, cnt: nat, k: nat, sticky: bool)
    requires ReadSoFar(f, v, cnt, k, sticky)
    ensures HasDigits(v, cnt) && cnt <= SIG
  {
  }

  /** Where `steps` steps of the walk lead from `b` when the target is `t`. */
  function Toward(b: int, t: int, steps: nat): int {
    if t - b > steps then b + steps else if b - t > steps then b - steps else t
  }

  /**
   Walk a guess to the correctly rounded double.  Each pass moves one pattern towards it
   and never past it, so a finite guess at most 64 patterns away arrives.
   */
  method SdFix(s: seq<nat>, x10: int, guess: nat) returns (b: nat)
    requires IsText(s) && InRange(TextVal(s), x10)
    ensures guess >= INF ==> b == guess
    ensures guess < INF ==> forall t: nat ::
      IsNearest(Num(TextVal(s), x10), Den(x10), t) ==> b == Toward(guess, t, 64)
  {
    hide TextVal, HalfSign, InRange, Num, Den, IsNearest, StepUp;
    b := guess;
    if b >= INF {
      return;
    }
    ghost var n: nat, u: nat := Num(TextVal(s), x10), Den(x10);
    ghost var t: nat := TheNearest(n, u);
    for k := 0 to 64
      invariant b <= INF && b == Toward(guess, t, k)
    {
      if b >= INF {
        return;
      }
      var c := SdCmp(s, x10, b);
      StepUpIsSign(TextVal(s), x10, b);
      StepUpIffBelow(n, u, b, t);
      if c > 0 || (c == 0 && b % 2 == 1) {
        b := b + 1;
        continue;
      }
      if b == 0 {
        return;
      }
      var lb: nat := b - 1;
      c := SdCmp(s, x10, lb);
      StepUpIsSign(TextVal(s), x10, lb);
      StepUpIffBelow(n, u, lb, t);
      if c < 0 || (c == 0 && lb % 2 == 0) {
        b := lb;
        continue;
      }
      return;
    }
  }

  /** The one correctly rounded pattern. */
  lemma {:induction false} TheNearest(n: nat, u: nat) returns (t: nat)
    requires u > 0
    ensures IsNearest(n, u, t) && t <= INF
    ensures forall r: nat :: IsNearest(n, u, r) ==> r == t
  {
    t := Target(n, u, 0);
    NearestExists(n, u);
    hide IsNearest;
    forall r: nat | IsNearest(n, u, r)
      ensures r == t
    {
      NearestUnique(n, u, r, t);
    }
  }
}
