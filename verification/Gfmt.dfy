/**
 `_u_ffmt` for the `%g` style: the exponent that `%e` would show decides between the two styles, the
 text denotes the same number either way, and trailing zeros of the fraction go.
 (Section 7.19.6.1 of ISO/IEC 9899:1999, paragraph 8.)
 */
module Gfmt {
  import opened Arith
  import opened Digits
  import opened Binary64
  import opened Dexp
  import opened Ffmt
  import Rounding

  // ---------- trailing zeros ----------

  function DropZeros(t: seq<nat>): (r: seq<nat>)
    ensures |r| <= |t|
  {
    if t != [] && t[|t| - 1] == ZERO then DropZeros(t[..|t| - 1]) else t
  }

  function DropPoint(t: seq<nat>): (r: seq<nat>) {
    if t != [] && t[|t| - 1] == DOT then t[..|t| - 1] else t
  }

  /** The text without trailing fraction zeros, and without a point that nothing follows. */
  function Short(t: seq<nat>): seq<nat> {
    if DOT in t then DropPoint(DropZeros(t)) else t
  }

  /** `r` is `a.b` without the last `j` digits of the fraction, and without the point when all of them
      went; what is left does not end in a zero, and the number is the same. */
  ghost predicate Shortens(a: seq<nat>, b: seq<nat>, r: seq<nat>, j: nat) {
    && j <= |b| && r == (if j == |b| then a else a + [DOT] + b[..|b| - j])
    && (j < |b| ==> b[|b| - j - 1] != ZERO)
    && TextVal(a + [DOT] + b) == TextVal(r) * Pow(10, j)
  }

  /** What `Short` does to a number with a fraction. */
  lemma {:induction false} ShortSays(a: seq<nat>, b: seq<nat>)
    requires AllDigits(a) && AllDigits(b) && a != []
    ensures exists j: nat :: Shortens(a, b, Short(a + [DOT] + b), j)
    decreases |b|
  {
    hide Shortens, Short, TextVal, Pow;
    if b == [] || b[|b| - 1] != ZERO {
      ShortEnds(a, b);
    } else {
      var c := b[..|b| - 1];
      ShortSays(a, c);
      var j: nat :| Shortens(a, c, Short(a + [DOT] + c), j);
      ShortGoesOn(a, c, j);
      assert b == c + [ZERO];
    }
  }

  lemma ShortEnds(a: seq<nat>, b: seq<nat>)
    requires AllDigits(a) && AllDigits(b) && a != [] && (b == [] || b[|b| - 1] != ZERO)
    ensures Shortens(a, b, Short(a + [DOT] + b), 0)
  {
    hide TextVal, Pow;
    var t := a + [DOT] + b;
    PowZero(10);
    assert t[|a|] == DOT;
    if b == [] {
      assert t[|t| - 1] == DOT && t[..|t| - 1] == a;
      PointLast(a);
    } else {
      assert t[|t| - 1] == b[|b| - 1];
      assert b[..|b| - 0] == b;
    }
  }

  lemma ShortGoesOn(a: seq<nat>, c: seq<nat>, j: nat)
    requires a != [] && Shortens(a, c, Short(a + [DOT] + c), j)
    ensures Shortens(a, c + [ZERO], Short(a + [DOT] + (c + [ZERO])), j + 1)
  {
    hide TextVal, Pow;
    var u := a + [DOT] + c;
    var t := a + [DOT] + (c + [ZERO]);
    assert t == u + [ZERO];
    ShortDrops(u, |a|);
    hide Short;
    LastZero(u);
    PowSucc(10, j);
    TenTimes(TextVal(Short(u)), Pow(10, j));
    assert j < |c| ==> (c + [ZERO])[..|c| - j] == c[..|c| - j];
  }

  lemma ShortDrops(u: seq<nat>, k: nat)
    requires k < |u| && u[k] == DOT
    ensures Short(u + [ZERO]) == Short(u)
  {
  }

  lemma PointLast(a: seq<nat>)
    requires AllDigits(a)
    ensures TextVal(a + [DOT] + []) == TextVal(a)
  {
    var t := a + [DOT] + [];
    assert t[|t| - 1] == DOT && t[..|t| - 1] == a;
  }

  lemma LastZero(u: seq<nat>)
    ensures TextVal(u + [ZERO]) == 10 * TextVal(u)
  {
  }

  /** The trimming loops; the `%f` branch looks for a point first. */
  method Trim(out: array<nat>, n0: nat) returns (n: nat)
    requires n0 <= out.Length
    ensures n <= n0 && out[..n] == DropPoint(DropZeros(out[..n0]))
  {
    n := n0;
    while n > 0
      invariant n <= n0 && DropZeros(out[..n]) == DropZeros(out[..n0])
    {
      if out[n - 1] != 48 {
        break;
      }
      assert out[..n][..n - 1] == out[..n - 1];
      n := n - 1;
    }
    assert DropZeros(out[..n]) == out[..n];
    if n > 0 {
      if out[n - 1] == 46 {
        assert out[..n][..n - 1] == out[..n - 1];
        n := n - 1;
      }
    }
  }

  method HasPoint(out: array<nat>, n: nat) returns (yes: bool)
    requires n <= out.Length
    ensures yes == (DOT in out[..n])
  {
    var j := 0;
    while j < n
      invariant j <= n && DOT !in out[..j]
    {
      if out[j] == 46 {
        assert out[..n][j] == DOT;
        return true;
      }
      assert out[..j + 1] == out[..j] + [out[j]];
      j := j + 1;
    }
    yes := false;
  }

  // ---------- one number, two styles ----------

  /** A value whose rounding is a multiple of ten rounds, one place coarser, to that multiple's tenth. */
  lemma {:induction false} CoarserRounds(bits: nat, place: int, m: nat)
    requires RoundedAt(bits, place, 10 * m)
    ensures RoundedAt(bits, place + 1, m)
  {
    hide Pow, Scaled, IsHalfEven;
    var s, t := Scaled(bits), Pow(2, 1074);
    PowZero(10);
    if place >= 0 {
      PowSucc(10, place);
      TenTimes(t, Pow(10, place));
      CoarserUnit(s * 1, t * Pow(10, place), m);
    } else {
      PowSucc(10, -place - 1);
      TenTimes(s, Pow(10, -place - 1));
      FewerUnits(s * Pow(10, -place - 1), t * 1, m);
    }
  }

  lemma CoarserUnit(a: nat, q: nat, m: nat)
    requires q > 0 && IsHalfEven(a, q, 10 * m)
    ensures IsHalfEven(a, 10 * q, m)
  {
    MulSwap(10, m, q);
    MulAssoc(m, 10, q);
    assert (10 * m) * q == m * (10 * q);
  }

  lemma FewerUnits(a: nat, q: nat, m: nat)
    requires q > 0 && IsHalfEven(10 * a, q, 10 * m)
    ensures IsHalfEven(a, q, m)
  {
    MulAssoc(10, m, q);
  }

  lemma ZeroRounds(bits: nat, place: int)
    requires Scaled(bits) == 0
    ensures RoundedAt(bits, place, 0)
  {
    hide Pow;
    MulPositive(Pow(2, 1074), Pow(10, Pos(place)));
    ZeroHalfEven(Pow(2, 1074) * Pow(10, Pos(place)));
    assert 0 * Pow(10, Pos(-place)) == 0;
  }

  lemma ZeroHalfEven(q: nat)
    requires q > 0
    ensures IsHalfEven(0, q, 0)
  {
  }

  /** The `%f` text cut where the `%e` digits end denotes the `%e` number. */
  lemma {:induction false} FixedIsScientific(bits: nat, p: nat, m: nat, e: int, v: nat)
    requires IsScientific(bits, p, m, e) && RoundedAt(bits, e - p, v)
    ensures v == m
  {
    hide Pow, Scaled, RoundedAt, LeadsAt;
    if Scaled(bits) == 0 {
      ZeroRounds(bits, e - p);
      RoundedAtUnique(bits, e - p, v, 0);
    } else if LeadsAt(bits, e) && RoundedAt(bits, e - p, m) {
      RoundedAtUnique(bits, e - p, v, m);
    } else {
      CoarserRounds(bits, e - 1 - p, m);
      RoundedAtUnique(bits, e - p, v, m);
    }
  }

  // ---------- the %g style ----------

  /** One digit, the point, `prec` digits. */
  ghost predicate IsMantShape(t: seq<nat>, prec: nat, alt: bool) {
    && |t| == MantLen(prec, alt) && AllDigits(t[..1]) && AllDigits(t[|t| - prec..])
    && t[1..1 + |Point(prec, alt)|] == Point(prec, alt)
  }

  function Finish(t: seq<nat>, alt: bool): seq<nat> {
    if alt then t else Short(t)
  }

  /** `a` and `b` are the digits of a text with `places` of them behind the point; a point that nothing
      follows stands there with `#` only. */
  ghost predicate IsNumber(body: seq<nat>, a: seq<nat>, b: seq<nat>, places: nat, alt: bool) {
    && AllDigits(a) && a != [] && AllDigits(b) && |b| == places
    && body == a + (if places > 0 || alt then [DOT] else []) + b
  }

  /** Without `#`, trailing zeros of the fraction are gone, and a point that nothing would follow. */
  ghost predicate Trimmed(r: seq<nat>, body: seq<nat>, a: seq<nat>, b: seq<nat>, alt: bool) {
    if alt || b == [] then r == body else exists j: nat :: Shortens(a, b, r, j)
  }

  /** The standard's `%g`: with the number rounded to `p + 1` digits, and `e` the exponent `%e` shows
      for it, the `%f` text when -4 <= e <= p, else the `%e` text; both of that number, `a` and `b` its digits
      before and behind the point. */
  ghost predicate IsGeneral(t: seq<nat>, bits: nat, p: nat, alt: bool, upper: bool, m: nat, e: int, a: seq<nat>, b: seq<nat>) {
    && IsScientific(bits, p, m, e) && -999 <= e <= 999 && DigVal(a + b) == m
    && if -4 <= e <= p then IsFixedGeneral(t, p - e, alt, a, b) else IsSciGeneral(t, p, alt, upper, e, a, b)
  }

  ghost predicate IsFixedGeneral(t: seq<nat>, places: nat, alt: bool, a: seq<nat>, b: seq<nat>) {
    exists body: seq<nat> ::
      IsNumber(body, a, b, places, alt) && (|a| == 1 || a[0] != ZERO) && Trimmed(t, body, a, b, alt)
  }

  /** One digit before the point; the letter, a sign and two or three digits behind. */
  ghost predicate IsSciGeneral(t: seq<nat>, places: nat, alt: bool, upper: bool, e: int, a: seq<nat>, b: seq<nat>) {
    exists body: seq<nat>, k: nat ::
      && IsNumber(body, a, b, places, alt) && |a| == 1 && k + 4 <= |t| <= k + 5 && Trimmed(t[..k], body, a, b, alt)
      && t[k] == (if upper then 69 else 101) && t[k + 1] == (if e < 0 then 45 else 43)
      && AllDigits(t[k + 2..]) && DigVal(t[k + 2..]) == Abs(e)
  }

  lemma {:induction false} FinishTrims(body: seq<nat>, a: seq<nat>, b: seq<nat>, places: nat, alt: bool)
    requires IsNumber(body, a, b, places, alt)
    ensures Trimmed(Finish(body, alt), body, a, b, alt)
  {
    hide Shortens;
    if !alt {
      if places == 0 {
        assert body == a;
        hide DropZeros, DropPoint;
      } else {
        assert body == a + [DOT] + b;
        hide Short;
        ShortSays(a, b);
      }
    }
  }

  lemma {:induction false} FixedGeneral(body: seq<nat>, places: nat, alt: bool)
    returns (a: seq<nat>, b: seq<nat>)
    requires IsFixedShape(body, places, alt)
    ensures IsFixedGeneral(Finish(body, alt), places, alt, a, b) && DigVal(a + b) == TextVal(body)
  {
    hide DigVal, TextVal;
    var k := |body| - places - |Point(places, alt)|;
    a, b := body[..k], body[|body| - places..];
    assert body == a + Point(places, alt) + b;
    assert IsNumber(body, a, b, places, alt);
    FinishTrims(body, a, b, places, alt);
    hide Finish, Trimmed;
    PointVanishes(a, places, alt, b);
  }

  lemma {:induction false} SciGeneral(body: seq<nat>, places: nat, alt: bool, upper: bool, e: int)
    returns (a: seq<nat>, b: seq<nat>)
    requires IsMantShape(body, places, alt) && -999 <= e <= 999
    ensures IsSciGeneral(Finish(body, alt) + [if upper then 69 else 101] + ExpText(e), places, alt, upper, e, a, b)
    ensures DigVal(a + b) == TextVal(body)
  {
    hide DigVal, TextVal, Finish, Trimmed;
    a, b := body[..1], body[|body| - places..];
    assert body == a + Point(places, alt) + b;
    assert IsNumber(body, a, b, places, alt);
    FinishTrims(body, a, b, places, alt);
    PointVanishes(a, places, alt, b);
    var r, c, x := Finish(body, alt), if upper then 69 else 101, ExpText(e);
    var t, k: nat := r + [c] + x, |r|;
    ExpTextReads(e);
    hide ExpText;
    assert t[..k] == r && t[k] == c && t[k + 1] == x[0];
    assert t[k + 2..] == x[1..];
    assert IsNumber(body, a, b, places, alt) && k + 4 <= |t| <= k + 5 && Trimmed(t[..k], body, a, b, alt);
  }

  /** A one-digit mantissa has no point to look for, and its digit is not zero. */
  lemma NoPointNoZeros(t: seq<nat>, p: nat, alt: bool)
    requires IsMantShape(t, p, alt) && !alt && TextVal(t) > 0
    ensures DropPoint(DropZeros(t)) == Short(t)
  {
    if p > 0 {
      assert t[1..2] == [DOT];
      assert t[1] == DOT;
    } else {
      assert t == [t[0]] && t[..1] == t;
      OneDigit(t);
    }
  }

  lemma OneDigit(t: seq<nat>)
    requires |t| == 1 && AllDigits(t)
    ensures TextVal(t) > 0 ==> t[0] != ZERO
  {
    StripDigits(t);
    DigSnoc([], t[0]);
    DigEmpty();
    assert [] + [t[0]] == t;
  }

  lemma Expanded(bits: nat, s: seq<nat>, x: int)
    requires AllDigits(s) && |s| > 0 && x <= |s|
    requires Scaled(bits) == 0 ==> s == [ZERO] && x == 1
    requires Scaled(bits) > 0 ==> s[0] != ZERO
    requires DigVal(s) * Pow(2, 1074) == Scaled(bits) * Pow(10, |s| - x)
    ensures IsDecimal(bits, s, x)
  {
  }

  lemma Nonzero(bits: nat, s: seq<nat>, x: int)
    requires IsDecimal(bits, s, x) && bits < INF && s[0] != ZERO
    ensures Scaled(bits) > 0 && IsExpansion(bits, DigVal(s), |s|, x) && -323 <= x <= 309
  {
    hide Pow, DigVal, Scaled;
    LeadingDigitOf(bits, s, x);
  }

  /** A cut of the digits to `p + 1` of them: the `%e` number and exponent. */
  method CutTo(ghost bits: nat, dig: array<nat>, nd0: nat, x0: int, p: nat, alt: bool) returns (nd: nat, x: int)
    requires bits < INF && nd0 <= dig.Length && IsDecimal(bits, dig[..nd0], x0) && dig[0] != 48
    modifies dig
    ensures nd <= dig.Length && AllDigits(dig[..nd]) && -999 <= x - 1 <= 999
    ensures IsScientific(bits, p, TextVal(MantText(dig[..nd], p, alt)), x - 1) && Scaled(bits) > 0
  {
    hide Pow, DigVal, Scaled, IsHalfEven, MantText, TextVal, IsScientific, IsExpansion;
    ghost var s0 := dig[..nd0];
    Nonzero(bits, s0, x0);
    nd, x := Rounding.Cut(dig, nd0, p + 1, x0);
    MantIsScientific(bits, s0, x0, dig[..nd], x, p, alt);
  }

  /** The exponent `%e` would show, found on a copy of the digits. */
  method ShownExponent(ghost bits: nat, dig: array<nat>, nd: nat, x: int, p: nat) returns (ghost m: nat, e: int)
    requires bits < INF && nd <= dig.Length && IsDecimal(bits, dig[..nd], x)
    ensures IsScientific(bits, p, m, e) && -999 <= e <= 999
    ensures dig[0] == 48 ==> e == 0
  {
    hide Pow, DigVal, Scaled, TextVal, IsScientific, MantText;
    if dig[0] == 48 {
      e := 0;
      m := TextVal(MantText(dig[..nd], p, true));
      ZeroIsScientific(bits, dig[..nd], p, true);
      return;
    }
    var d2 := new nat[nd];
    var j := 0;
    while j < nd
      invariant j <= nd && d2[..j] == dig[..j]
    {
      d2[j] := dig[j];
      j := j + 1;
    }
    assert d2[..nd] == dig[..nd];
    var n2, x2 := CutTo(bits, d2, nd, x, p, true);
    e := x2 - 1;
    m := TextVal(MantText(d2[..n2], p, true));
  }

  /** The trimming behind the `%f` branch. */
  method TrimFraction(out: array<nat>, n0: nat) returns (n: nat)
    requires n0 <= out.Length
    ensures n <= n0 && out[..n] == Short(out[..n0])
  {
    n := n0;
    var point := HasPoint(out, n);
    if point {
      n := Trim(out, n);
    }
  }

  lemma MantShape(s: seq<nat>, p: nat, alt: bool)
    requires AllDigits(s)
    ensures IsMantShape(MantText(s, p, alt), p, alt)
  {
  }

  /** The `%e` branch: mantissa, trimmed without a `#`, and exponent. */
  method WriteGeneralSci(out: array<nat>, ghost bits: nat, dig: array<nat>, nd0: nat, x0: int, p: nat, alt: bool, upper: bool,
                         ghost m: nat, ghost e0: int) returns (n: nat, ghost body: seq<nat>)
    requires bits < INF && nd0 <= dig.Length && IsDecimal(bits, dig[..nd0], x0) && dig[0] != 48
    requires out != dig && p + 7 <= out.Length && IsScientific(bits, p, m, e0)
    modifies out, dig
    ensures n <= out.Length && TextVal(body) == m && IsMantShape(body, p, alt) && -999 <= e0 <= 999
    ensures out[..n] == Finish(body, alt) + [if upper then 69 else 101] + ExpText(e0)
  {
    hide Pow, DigVal, Scaled, TextVal, IsScientific, MantText, Short, ExpText, IsMantShape, DropZeros, DropPoint;
    var nd, x := CutTo(bits, dig, nd0, x0, p, alt);
    var e := x - 1;
    body := MantText(dig[..nd], p, alt);
    ScientificUnique(bits, p, m, e0, TextVal(body), e);
    MantShape(dig[..nd], p, alt);
    n := WriteMant(out, dig, nd, p, alt);
    assert out[..n] == body;
    if !alt {
      PositiveMantissa(bits, p, m, e);
      NoPointNoZeros(body, p, alt);
      n := Trim(out, n);
    }
    n := WriteTail(out, n, e, upper);
  }

  lemma PositiveMantissa(bits: nat, p: nat, m: nat, e: int)
    requires IsScientific(bits, p, m, e) && Scaled(bits) > 0
    ensures m > 0
  {
  }

  /** `%g`, for a precision already defaulted. */
  method General(out: array<nat>, bits: nat, prec: nat, alt: bool, upper: bool)
    returns (n: nat, ghost m: nat, ghost e: int, ghost a: seq<nat>, ghost b: seq<nat>)
    requires bits < INF && prec + 325 <= out.Length
    modifies out
    ensures n <= out.Length
    ensures IsGeneral(out[..n], bits, (if prec == 0 then 1 else prec) - 1, alt, upper, m, e, a, b)
  {
    hide Pow, DigVal, Scaled, IsHalfEven, TextVal, IsScientific, RoundedAt, IsFixedShape, IsMantShape, Short, IsDecimal,
      IsFixedGeneral, IsSciGeneral;
    var dig := new nat[ND];
    var nd, x := Expand(bits, dig);
    ghost var s0, x0 := dig[..nd], x;
    assert IsDecimal(bits, s0, x0) by {
      Expanded(bits, s0, x0);
    }
    var p: nat := if prec == 0 then 0 else prec - 1;
    var x2;
    m, x2 := ShownExponent(bits, dig, nd, x, p);
    e := x2;
    if -4 <= x2 <= p {
      n := FixedFrom(out, bits, dig, nd, x, p - x2, alt);
      ghost var body := out[..n];
      FixedIsScientific(bits, p, m, e, TextVal(body));
      a, b := FixedGeneral(body, p - x2, alt);
      if !alt {
        n := TrimFraction(out, n);
      }
    } else {
      ghost var body;
      n, body := WriteGeneralSci(out, bits, dig, nd, x, p, alt, upper, m, e);
      a, b := SciGeneral(body, p, alt, upper, e);
    }
  }
}
