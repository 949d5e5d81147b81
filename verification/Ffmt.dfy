/**
 `_u_ffmt` for the `%f` and `%e` styles: the text of a finite double is the exact value
 rounded to nearest, ties to even, at the last printed place.
 (Section 7.19.6.1 of ISO/IEC 9899:1999.)
 */
module Ffmt {
  import opened Arith
  import opened Digits
  import opened Binary64
  import opened Dexp
  import Rounding

  // ---------- what the text has to denote ----------

  /** `r * 10^place` is the double rounded to a multiple of 10^place, ties to even. */
  ghost predicate RoundedAt(bits: nat, place: int, r: nat) {
    IsHalfEven(Scaled(bits) * Pow(10, Pos(-place)), Pow(2, 1074) * Pow(10, Pos(place)), r)
  }

  /** The exact decimal of a double: digits `v`, of which `k` follow the point. */
  ghost predicate IsExact(bits: nat, v: nat, k: nat) {
    v * Pow(2, 1074) == Scaled(bits) * Pow(10, k)
  }

  /** `v / 10^k` cut at `place` gives `r`. */
  ghost predicate CutAt(v: nat, k: nat, place: int, r: nat) {
    if place + k <= 0 then r == v * Pow(10, -(place + k)) else IsHalfEven(v, Pow(10, place + k), r)
  }

  /** Rounding is the same for equal ratios. */
  lemma {:induction false} HalfEvenRatio(a: nat, t: nat, v: nat, q: nat, r: nat)
    requires t > 0 && q > 0 && a * q == v * t && IsHalfEven(v, q, r)
    ensures IsHalfEven(a, t, r)
  {
    var g, h := Abs(a - r * t), Abs(v - r * q);
    assert g * q == h * t by {
      MulSwap(r, t, q);
      DistribSub(a, r * t, q);
      DistribSub(r * t, a, q);
      DistribSub(v, r * q, t);
      DistribSub(r * q, v, t);
      MulOrder(a, r * t, q, v, r * q, t);
    }
    CompareHalf(g, t, h, q);
  }

  lemma MulOrder(a: nat, b: nat, q: nat, c: nat, d: nat, t: nat)
    requires q > 0 && t > 0 && a * q == c * t && b * q == d * t
    ensures a < b <==> c < d
  {
  }

  lemma CompareHalf(g: nat, t: nat, h: nat, q: nat)
    requires t > 0 && q > 0 && g * q == h * t
    ensures 2 * g <= t <==> 2 * h <= q
    ensures 2 * g == t <==> 2 * h == q
  {
  }

  /** Cutting the exact decimal at a place rounds the double at that place. */
  lemma {:induction false} CutIsRounded(bits: nat, v: nat, k: nat, place: int, r: nat)
    requires IsExact(bits, v, k) && CutAt(v, k, place, r)
    ensures RoundedAt(bits, place, r)
  {
    hide Pow, Scaled;
    var s, t := Scaled(bits), Pow(2, 1074);
    PowZero(10);
    if place + k <= 0 {
      PowAdd(10, k, -(place + k));
      MulAssoc(s, Pow(10, k), Pow(10, -(place + k)));
      MulSwap(v, t, Pow(10, -(place + k)));
    } else if place <= 0 {
      PowAdd(10, -place, place + k);
      MulAssoc(s, Pow(10, -place), Pow(10, place + k));
      HalfEvenRatio(s * Pow(10, -place), t, v, Pow(10, place + k), r);
    } else {
      PowAdd(10, k, place);
      MulAssoc(s, Pow(10, k), Pow(10, place));
      MulAssoc(v, t, Pow(10, place));
      MulPositive(t, Pow(10, place));
      HalfEvenRatio(s, t * Pow(10, place), v, Pow(10, place + k), r);
    }
  }

  // ---------- the digit stream ----------

  /** `_u_dat`: the digit at a position of the number, zero outside the string. */
  function Dat(s: seq<nat>, p: int): nat {
    if 0 <= p < |s| then s[p] else ZERO
  }

  function Stream(s: seq<nat>, from: int, count: nat): (r: seq<nat>)
    ensures |r| == count
  {
    seq<nat>(count, i => Dat(s, from + i))
  }

  lemma StreamDigits(s: seq<nat>, from: int, count: nat)
    requires AllDigits(s)
    ensures AllDigits(Stream(s, from, count))
  {
    forall i | 0 <= i < count
      ensures 48 <= Stream(s, from, count)[i] <= 57
    {
      assert Stream(s, from, count)[i] == Dat(s, from + i);
    }
  }

  /** The stream from at or before the first digit denotes the digits it covers. */
  lemma {:induction false} StreamVal(s: seq<nat>, from: int, count: nat)
    requires from <= 0
    ensures from + count <= 0 ==> DigVal(Stream(s, from, count)) == 0
    ensures 0 <= from + count <= |s| ==> DigVal(Stream(s, from, count)) == DigVal(s[..from + count])
    ensures |s| <= from + count ==> DigVal(Stream(s, from, count)) == DigVal(s) * Pow(10, from + count - |s|)
    decreases count
  {
    var e := from + count;
    if count == 0 {
      assert Stream(s, from, 0) == [];
      DigEmpty();
      if |s| <= e {
        assert s == [];
      }
      if e == 0 {
        assert s[..0] == [];
      }
    } else {
      StreamVal(s, from, count - 1);
      assert Stream(s, from, count) == Stream(s, from, count - 1) + [Dat(s, e - 1)];
      DigSnoc(Stream(s, from, count - 1), Dat(s, e - 1));
      if 0 < e <= |s| {
        DigTake(s, e - 1);
        if e == |s| {
          assert s[..e] == s;
          PowZero(10);
        }
      } else if e > |s| {
        PowSucc(10, e - 1 - |s|);
        hide DigVal, Pow;
        TenTimes(DigVal(s), Pow(10, e - 1 - |s|));
      } else if e == 0 {
        assert s[..0] == [];
        DigEmpty();
      }
    }
  }

  /** Streams of adjoining ranges join. */
  lemma StreamJoin(s: seq<nat>, from: int, a: nat, b: nat)
    ensures Stream(s, from, a) + Stream(s, from + a, b) == Stream(s, from, a + b)
  {
  }

  lemma {:induction false} StripConcat(a: seq<nat>, b: seq<nat>)
    ensures Strip(a + b) == Strip(a) + Strip(b)
  {
    if b == [] {
      assert a + b == a;
    } else {
      assert (a + b)[..|a + b| - 1] == a + b[..|b| - 1];
      StripConcat(a, b[..|b| - 1]);
    }
  }

  /** The point a style prints between its integer and fraction digits. */
  function Point(prec: nat, alt: bool): seq<nat> {
    if prec > 0 || alt then [DOT] else []
  }

  lemma {:induction false} PointVanishes(a: seq<nat>, prec: nat, alt: bool, b: seq<nat>)
    requires AllDigits(a) && AllDigits(b)
    ensures TextVal(a + Point(prec, alt) + b) == DigVal(a + b)
  {
    StripConcat(a + Point(prec, alt), b);
    StripConcat(a, Point(prec, alt));
    StripDigits(a);
    StripDigits(b);
    if prec > 0 || alt {
      assert [DOT][..0] == [];
    }
    assert a + [] == a;
  }

  // ---------- writing ----------

  /** The copy loops of the source: `count` digits of the stream from `from` on. */
  method WriteDigits(out: array<nat>, n0: nat, dig: array<nat>, nd: nat, from: int, count: nat) returns (n: nat)
    requires n0 + count <= out.Length && nd <= dig.Length && out != dig
    modifies out
    ensures n == n0 + count && out[..n] == old(out[..n0]) + Stream(dig[..nd], from, count)
  {
    n := n0;
    var j := 0;
    while j < count
      invariant 0 <= j <= count && n == n0 + j
      invariant out[..n] == old(out[..n0]) + Stream(dig[..nd], from, j)
    {
      out[n] := if from + j < 0 then 48 else if from + j >= nd then 48 else dig[from + j];
      assert out[..n + 1] == out[..n] + [Dat(dig[..nd], from + j)];
      assert Stream(dig[..nd], from, j + 1) == Stream(dig[..nd], from, j) + [Dat(dig[..nd], from + j)];
      n := n + 1;
      j := j + 1;
    }
  }

  method WritePoint(out: array<nat>, n0: nat, prec: nat, alt: bool) returns (n: nat)
    requires n0 < out.Length
    modifies out
    ensures n <= out.Length && n == n0 + |Point(prec, alt)| && out[..n] == old(out[..n0]) + Point(prec, alt)
  {
    n := n0;
    if prec > 0 || alt {
      out[n] := 46;
      n := n + 1;
    }
  }

  /** The integer digits of the `%f` style: at least one. */
  function IntDigits(s: seq<nat>, x: int): seq<nat> {
    if x <= 0 then [ZERO] else Stream(s, 0, x)
  }

  /** All the digits of the `%f` text denote the stream up to the last place. */
  lemma {:induction false} FixedVal(s: seq<nat>, x: int, prec: nat)
    requires AllDigits(s)
    ensures AllDigits(IntDigits(s, x)) && AllDigits(Stream(s, x, prec))
    ensures var v := DigVal(IntDigits(s, x) + Stream(s, x, prec));
      && (x + prec <= 0 ==> v == 0)
      && (0 <= x + prec <= |s| ==> v == DigVal(s[..x + prec]))
      && (|s| <= x + prec ==> v == DigVal(s) * Pow(10, x + prec - |s|))
  {
    hide DigVal, Pow;
    StreamDigits(s, x, prec);
    if x > 0 {
      StreamDigits(s, 0, x);
      StreamJoin(s, 0, x, prec);
      StreamVal(s, 0, x + prec);
    } else {
      StreamVal(s, x, prec);
      DigCons(ZERO, Stream(s, x, prec));
    }
  }

  /** The text of the `%f` style for a digit string that is already cut. */
  function FixedText(s: seq<nat>, x: int, prec: nat, alt: bool): seq<nat> {
    IntDigits(s, x) + Point(prec, alt) + Stream(s, x, prec)
  }

  method WriteFixed(out: array<nat>, dig: array<nat>, nd: nat, x: int, prec: nat, alt: bool) returns (n: nat)
    requires nd <= dig.Length && out != dig && Pos(x) + prec + 2 <= out.Length
    modifies out
    ensures n <= out.Length && out[..n] == FixedText(dig[..nd], x, prec, alt)
  {
    ghost var s := dig[..nd];
    n := 0;
    if x <= 0 {
      out[n] := 48;
      n := n + 1;
      assert out[..1] == [ZERO];
    } else {
      n := WriteDigits(out, n, dig, nd, 0, x);
      assert out[..n] == Stream(s, 0, x);
    }
    n := WritePoint(out, n, prec, alt);
    n := WriteDigits(out, n, dig, nd, x, prec);
  }

  /** The cut of a digit string at the last printed place, seen through the text. */
  lemma {:induction false} FixedTextCut(s0: seq<nat>, x0: int, s: seq<nat>, x: int, prec: nat, alt: bool)
    requires AllDigits(s0) && AllDigits(s) && |s0| > 0 && x0 <= |s0|
    requires x0 + prec >= |s0| ==> s == s0 && x == x0
    requires x0 + prec < |s0| ==> IsHalfEven(DigVal(s0), Pow(10, |s0| - (x0 + prec)), DigVal(s))
    requires 0 <= x0 + prec < |s0| ==> x - |s| == x0 - (x0 + prec)
    requires x0 + prec < 0 ==> s == [] && x == x0
    ensures CutAt(DigVal(s0), |s0| - x0, 0 - prec as int, TextVal(FixedText(s, x, prec, alt)))
  {
    FixedVal(s, x, prec);
    PointVanishes(IntDigits(s, x), prec, alt, Stream(s, x, prec));
    assert s[..|s|] == s;
    DigEmpty();
    PowZero(10);
    hide DigVal, Pow, IsHalfEven, IntDigits, Stream;
  }

  /** The shape of `%f` text: integer digits without a leading zero, the point, `prec` digits. */
  ghost predicate IsFixedShape(t: seq<nat>, prec: nat, alt: bool) {
    var k: int := |t| - prec - (if prec > 0 || alt then 1 else 0);
    && k > 0 && AllDigits(t[..k]) && (k == 1 || t[0] != ZERO)
    && (prec > 0 || alt ==> t[k] == 46)
    && AllDigits(t[|t| - prec..])
  }

  lemma {:induction false} FixedTextShape(s: seq<nat>, x: int, prec: nat, alt: bool)
    requires AllDigits(s) && (x > 1 ==> |s| > 0 && s[0] != ZERO)
    ensures IsFixedShape(FixedText(s, x, prec, alt), prec, alt)
  {
    var a, b := IntDigits(s, x), Stream(s, x, prec);
    StreamDigits(s, x, prec);
    StreamDigits(s, 0, Pos(x));
    assert |a| > 0 && AllDigits(a) && (|a| == 1 || a[0] != ZERO) by {
      assert x > 1 ==> a[0] == Dat(s, 0) == s[0];
    }
    hide IntDigits, Stream, AllDigits;
    ShapeOf(a, b, prec, alt);
  }

  lemma ShapeOf(a: seq<nat>, b: seq<nat>, prec: nat, alt: bool)
    requires |a| > 0 && AllDigits(a) && (|a| == 1 || a[0] != ZERO) && |b| == prec && AllDigits(b)
    ensures IsFixedShape(a + Point(prec, alt) + b, prec, alt)
  {
    hide AllDigits;
    var t := a + Point(prec, alt) + b;
    assert t[..|a|] == a && t[|t| - prec..] == b;
    assert prec > 0 || alt ==> t[|a|] == Point(prec, alt)[0];
  }

  /**
   `%f`: the text denotes the multiple of 10^-prec nearest to the exact value, ties to even,
   through carries out of the top and values that round to zero.
   */
  method Fixed(out: array<nat>, bits: nat, prec: nat, alt: bool) returns (n: nat)
    requires bits < INF && prec + 320 <= out.Length
    modifies out
    ensures n <= out.Length && IsFixedShape(out[..n], prec, alt)
    ensures RoundedAt(bits, 0 - prec as int, TextVal(out[..n]))
  {
    hide Pow, DigVal, Scaled, FixedText, TextVal, RoundedAt, IsFixedShape;
    var dig := new nat[ND];
    var nd, x := Expand(bits, dig);
    n := FixedFrom(out, bits, dig, nd, x, prec, alt);
  }

  /** The digits `s` with `x` of them before the point are the exact decimal of a double. */
  ghost predicate IsDecimal(bits: nat, s: seq<nat>, x: int) {
    && AllDigits(s) && |s| > 0 && x <= |s|
    && DigVal(s) * Pow(2, 1074) == Scaled(bits) * Pow(10, |s| - x)
    && (Scaled(bits) == 0 ==> s == [ZERO] && x == 1)
    && (Scaled(bits) > 0 ==> s[0] != ZERO)
  }

  /** The `%f` branch: cut at the last printed place, then write. */
  method FixedFrom(out: array<nat>, ghost bits: nat, dig: array<nat>, nd0: nat, x0: int, prec: nat, alt: bool) returns (n: nat)
    requires bits < INF && prec + 320 <= out.Length && out != dig && nd0 <= dig.Length
    requires IsDecimal(bits, dig[..nd0], x0)
    modifies out, dig
    ensures n <= out.Length && IsFixedShape(out[..n], prec, alt)
    ensures RoundedAt(bits, 0 - prec as int, TextVal(out[..n]))
  {
    hide Pow, DigVal, Scaled, IsHalfEven, FixedText, TextVal, RoundedAt, IsFixedShape, CutAt;
    ghost var s0 := dig[..nd0];
    PlaceBelow(bits, s0, x0);
    var nd, x := Rounding.Cut(dig, nd0, x0 + prec, x0);
    ghost var s := dig[..nd];
    FixedTextCut(s0, x0, s, x, prec, alt);
    FixedTextShape(s, x, prec, alt);
    n := WriteFixed(out, dig, nd, x, prec, alt);
    CutIsRounded(bits, DigVal(s0), |s0| - x0, 0 - prec as int, TextVal(out[..n]));
  }

  /** A finite double has at most 309 digits before the point. */
  lemma {:induction false} PlaceBelow(bits: nat, s: seq<nat>, x: int)
    requires bits < INF && AllDigits(s) && |s| > 0 && x <= |s|
    requires DigVal(s) * Pow(2, 1074) == Scaled(bits) * Pow(10, |s| - x)
    requires Scaled(bits) == 0 ==> x == 1
    requires Scaled(bits) > 0 ==> s[0] != ZERO
    ensures x <= 309
  {
    hide Pow, DigVal;
    if bits > 0 {
      ExpandIsExpansion(bits, s, x);
      ExpansionPlace(bits, DigVal(s), |s|, x);
    } else {
      assert Scaled(0) == 0;
    }
  }

  // ---------- the %e style ----------

  /** The exact value has its leading digit at decimal place `e`. */
  ghost predicate LeadsAt(bits: nat, e: int) {
    var lo, v := Pow(10, Pos(e)) * Pow(2, 1074), Scaled(bits) * Pow(10, Pos(-e));
    lo <= v < 10 * lo
  }

  lemma {:induction false} ExpansionLeadsAt(bits: nat, v: nat, nd: nat, x: int)
    requires IsExpansion(bits, v, nd, x)
    ensures LeadsAt(bits, x - 1)
  {
    hide Pow, Scaled;
    var s, t := Scaled(bits), Pow(2, 1074);
    PowSucc(10, nd - 1);
    PowZero(10);
    var c := if x >= 1 then Pow(10, nd - x) else Pow(10, nd - 1);
    var lo := Pow(10, Pos(x - 1)) * t;
    if x >= 1 {
      PowAdd(10, x - 1, nd - x);
      MulSwap(Pow(10, x - 1), t, c);
    } else {
      PowAdd(10, 1 - x, nd - 1);
      MulAssoc(s, Pow(10, 1 - x), c);
    }
    LeadingBounds(lo, s * Pow(10, Pos(1 - x)), c, Pow(10, nd - 1), t, v);
  }

  lemma LeadingBounds(lo: nat, w: nat, c: nat, p: nat, t: nat, v: nat)
    requires c > 0 && t > 0 && lo * c == p * t && w * c == v * t && p <= v < 10 * p
    ensures lo <= w < 10 * lo
  {
    MulLe(p, v, t);
    MulLt(v, 10 * p, t);
    MulAssoc(10, p, t);
    MulAssoc(10, lo, c);
    if w < lo {
      MulLt(w, lo, c);
    }
    if 10 * lo <= w {
      MulLe(10 * lo, w, c);
    }
  }

  /** A value leads at one place only. */
  lemma {:induction false} LeadsAtUnique(bits: nat, d: int, e: int)
    requires LeadsAt(bits, d) && LeadsAt(bits, e)
    ensures d <= e
  {
    hide Pow, Scaled;
    PowZero(10);
    if e < d {
      if d <= 0 {
        LeadsBelow(bits, d, e);
      } else if e >= 0 {
        LeadsAbove(d, e);
      } else {
        LeadsAcross(bits, d, e);
      }
    }
  }

  lemma LeadsBelow(bits: nat, d: int, e: int)
    requires e < d <= 0 && LeadsAt(bits, d)
    ensures !LeadsAt(bits, e)
  {
    hide Pow, Scaled;
    PowZero(10);
    var s, t := Scaled(bits), Pow(2, 1074);
    PowAdd(10, -d, d - e);
    PowSucc(10, d - e - 1);
    MulAssoc(s, Pow(10, -d), Pow(10, d - e));
    Steeper(s * Pow(10, -d), Pow(10, d - e - 1), t);
  }

  lemma LeadsAbove(d: int, e: int)
    requires 0 <= e < d
    ensures Pow(10, d) * Pow(2, 1074) >= Pow(10, e) * Pow(2, 1074) * 10
  {
    hide Pow;
    var t := Pow(2, 1074);
    PowAdd(10, e, d - e);
    PowSucc(10, d - e - 1);
    MulSwap(Pow(10, e), Pow(10, d - e), t);
    Steeper(Pow(10, e) * t, Pow(10, d - e - 1), 0);
  }

  lemma LeadsAcross(bits: nat, d: int, e: int)
    requires e < 0 < d && LeadsAt(bits, d)
    ensures !LeadsAt(bits, e)
  {
    hide Pow, Scaled;
    PowZero(10);
    var s, t := Scaled(bits), Pow(2, 1074);
    PowSucc(10, d - 1);
    MulGrows(t, Pow(10, d));
    MulGrows(t, Pow(10, d - 1));
    Steeper(t, Pow(10, d - 1), 0);
    MulSwap(10, Pow(10, d - 1), t);
    PowSucc(10, -e - 1);
    Steeper(s, Pow(10, -e - 1), 0);
  }

  lemma Steeper(y: nat, p: nat, t: nat)
    requires p > 0
    ensures 10 * y <= y * (10 * p)
  {
  }

  /**
   `n * 10^(e - prec)` with `prec + 1` digits in `n`: the double rounded at `prec` places
   after its leading digit; when that carries to the next power of ten, written with it.
   */
  ghost predicate IsScientific(bits: nat, prec: nat, n: nat, e: int) {
    if Scaled(bits) == 0 then n == 0 && e == 0
    else
      && Pow(10, prec) <= n < Pow(10, prec + 1)
      && ((LeadsAt(bits, e) && RoundedAt(bits, e - prec, n))
          || (n == Pow(10, prec) && LeadsAt(bits, e - 1) && RoundedAt(bits, e - 1 - prec, 10 * n)))
  }

  /** The `%e` mantissa and exponent of a double are determined. */
  lemma {:induction false} ScientificUnique(bits: nat, prec: nat, n: nat, e: int, n': nat, e': int)
    requires IsScientific(bits, prec, n, e) && IsScientific(bits, prec, n', e')
    ensures n == n' && e == e'
  {
    hide Pow, Scaled, LeadsAt, RoundedAt;
    if Scaled(bits) != 0 {
      PowSucc(10, prec);
      var d := if LeadsAt(bits, e) && RoundedAt(bits, e - prec, n) then e else e - 1;
      var d' := if LeadsAt(bits, e') && RoundedAt(bits, e' - prec, n') then e' else e' - 1;
      LeadsAtUnique(bits, d, d');
      LeadsAtUnique(bits, d', d);
      RoundedAtUnique(bits, d - prec, if d == e then n else 10 * n, if d' == e' then n' else 10 * n');
    }
  }

  lemma {:induction false} RoundedAtUnique(bits: nat, place: int, r: nat, r': nat)
    requires RoundedAt(bits, place, r) && RoundedAt(bits, place, r')
    ensures r == r'
  {
    hide IsHalfEven, Scaled;
    MulPositive(Pow(2, 1074), Pow(10, Pos(place)));
    HalfEvenUnique(Scaled(bits) * Pow(10, Pos(-place)), Pow(2, 1074) * Pow(10, Pos(place)), r, r');
  }

  /** The mantissa of the `%e` style: one digit, the point, `prec` digits. */
  function MantText(s: seq<nat>, prec: nat, alt: bool): seq<nat> {
    Stream(s, 0, 1) + Point(prec, alt) + Stream(s, 1, prec)
  }

  lemma {:induction false} MantVal(s: seq<nat>, prec: nat, alt: bool)
    requires AllDigits(s)
    ensures prec + 1 <= |s| ==> TextVal(MantText(s, prec, alt)) == DigVal(s[..prec + 1])
    ensures |s| <= prec + 1 ==> TextVal(MantText(s, prec, alt)) == DigVal(s) * Pow(10, prec + 1 - |s|)
  {
    StreamDigits(s, 0, 1);
    StreamDigits(s, 1, prec);
    PointVanishes(Stream(s, 0, 1), prec, alt, Stream(s, 1, prec));
    StreamJoin(s, 0, 1, prec);
    StreamVal(s, 0, prec + 1);
  }

  /** The cut of a nonzero double's digits to `prec + 1` gives the `%e` mantissa and exponent. */
  lemma {:induction false} MantIsScientific(bits: nat, s0: seq<nat>, x0: int, s: seq<nat>, x: int, prec: nat, alt: bool)
    requires AllDigits(s0) && AllDigits(s) && IsExpansion(bits, DigVal(s0), |s0|, x0)
    requires |s| > 0 && s[0] != ZERO && Scaled(bits) > 0
    requires prec + 1 >= |s0| ==> s == s0 && x == x0
    requires prec + 1 < |s0| ==> IsHalfEven(DigVal(s0), Pow(10, |s0| - (prec + 1)), DigVal(s))
    requires prec + 1 < |s0| ==> (|s| == prec + 1 && x == x0) || (|s| == prec + 2 && x == x0 + 1)
    requires prec + 1 < |s0| && |s| == prec + 2 ==> DigVal(s) == Pow(10, prec + 1)
    ensures IsScientific(bits, prec, TextVal(MantText(s, prec, alt)), x - 1)
  {
    hide Scaled, Pow, IsHalfEven, DigVal, MantText, TextVal, LeadsAt, RoundedAt;
    var n := TextVal(MantText(s, prec, alt));
    var place := x0 - 1 - prec;
    MantVal(s, prec, alt);
    MantSize(s, prec, n);
    ExpansionLeadsAt(bits, DigVal(s0), |s0|, x0);
    assert s[..|s|] == s;
    PowZero(10);
    var r := if x == x0 then n else 10 * n;
    if x != x0 {
      DigTake(s, prec + 1);
      PowSucc(10, prec);
      CarryMantissa(n, Digit(s[prec + 1]), Pow(10, prec));
    }
    assert CutAt(DigVal(s0), |s0| - x0, place, r);
    CutIsRounded(bits, DigVal(s0), |s0| - x0, place, r);
  }

  lemma CarryMantissa(n: nat, d: nat, p: nat)
    requires 10 * n + d == 10 * p && d < 10
    ensures n == p && d == 0
  {
  }

  lemma {:induction false} MantSize(s: seq<nat>, prec: nat, n: nat)
    requires AllDigits(s) && |s| > 0 && s[0] != ZERO
    requires prec + 1 <= |s| ==> n == DigVal(s[..prec + 1])
    requires |s| <= prec + 1 ==> n == DigVal(s) * Pow(10, prec + 1 - |s|)
    ensures Pow(10, prec) <= n < Pow(10, prec + 1)
  {
    hide Pow, DigVal;
    if prec + 1 <= |s| {
      DigAtLeast(s[..prec + 1]);
      DigBound(s[..prec + 1]);
    } else {
      var z := prec + 1 - |s|;
      DigAtLeast(s);
      DigBound(s);
      PowAdd(10, |s| - 1, z);
      PowAdd(10, |s|, z);
      MulLe(Pow(10, |s| - 1), DigVal(s), Pow(10, z));
      MulLt(DigVal(s), Pow(10, |s|), Pow(10, z));
    }
  }

  /** The exponent field: sign and at least two digits. */
  function ExpText(e: int): (t: seq<nat>) {
    var ee := Abs(e);
    [if e < 0 then 45 else 43] + (if ee >= 100 then [48 + ee / 100] else []) + [48 + ee / 10 % 10, 48 + ee % 10]
  }

  /** Reading the exponent field back. */
  function ReadExp(t: seq<nat>): int
    requires |t| > 0
  {
    if t[0] == 45 then -(DigVal(t[1..]) as int) else DigVal(t[1..])
  }

  lemma {:induction false} ExpTextReads(e: int)
    requires -999 <= e <= 999
    ensures ReadExp(ExpText(e)) == e && AllDigits(ExpText(e)[1..]) && 3 <= |ExpText(e)| <= 4
    ensures ExpText(e)[0] == (if e < 0 then 45 else 43) && DigVal(ExpText(e)[1..]) == Abs(e)
    ensures |ExpText(e)| == 4 <==> Abs(e) >= 100
  {
    hide DigVal;
    var ee := Abs(e);
    var d: seq<nat> := if ee >= 100 then [48 + ee / 100] else [];
    assert ExpText(e)[1..] == d + [48 + ee / 10 % 10] + [48 + ee % 10];
    DigSnoc(d + [48 + ee / 10 % 10], 48 + ee % 10);
    DigSnoc(d, 48 + ee / 10 % 10);
    DigEmpty();
    if ee >= 100 {
      assert [] + [48 + ee / 100] == d;
      DigSnoc([], 48 + ee / 100);
    }
    ThreeDigits(ee);
  }

  lemma ThreeDigits(n: nat)
    requires n <= 999
    ensures 100 * (n / 100) + 10 * (n / 10 % 10) + n % 10 == n
    ensures n < 100 ==> 10 * (n / 10 % 10) + n % 10 == n
  {
  }

  method WriteExp(out: array<nat>, n0: nat, e: int) returns (n: nat)
    requires n0 + 4 <= out.Length && -999 <= e <= 999
    modifies out
    ensures n == n0 + |ExpText(e)| && n <= out.Length && out[..n] == old(out[..n0]) + ExpText(e)
  {
    n := n0;
    var ee: nat;
    if e < 0 {
      out[n] := 45;
      ee := -e;
    } else {
      out[n] := 43;
      ee := e;
    }
    n := n + 1;
    if ee >= 100 {
      out[n] := 48 + ee / 100;
      n := n + 1;
    }
    out[n] := 48 + ee / 10 % 10;
    n := n + 1;
    out[n] := 48 + ee % 10;
    n := n + 1;
  }

  /** The text of the `%e` style. */
  function SciText(s: seq<nat>, e: int, prec: nat, alt: bool, upper: bool): seq<nat> {
    MantText(s, prec, alt) + [if upper then 69 else 101] + ExpText(e)
  }

  method WriteSci(out: array<nat>, dig: array<nat>, nd: nat, e: int, prec: nat, alt: bool, upper: bool) returns (n: nat)
    requires nd <= dig.Length && out != dig && prec + 7 <= out.Length && -999 <= e <= 999
    modifies out
    ensures n <= out.Length && out[..n] == SciText(dig[..nd], e, prec, alt, upper)
  {
    hide ExpText, MantText;
    ExpTextReads(e);
    n := WriteMant(out, dig, nd, prec, alt);
    n := WriteTail(out, n, e, upper);
  }

  method WriteMant(out: array<nat>, dig: array<nat>, nd: nat, prec: nat, alt: bool) returns (n: nat)
    requires nd <= dig.Length && out != dig && prec + 2 <= out.Length
    modifies out
    ensures n == |MantText(dig[..nd], prec, alt)| == MantLen(prec, alt) <= out.Length && out[..n] == MantText(dig[..nd], prec, alt)
  {
    n := WriteDigits(out, 0, dig, nd, 0, 1);
    n := WritePoint(out, n, prec, alt);
    n := WriteDigits(out, n, dig, nd, 1, prec);
  }

  /** The letter and the exponent. */
  method WriteTail(out: array<nat>, n0: nat, e: int, upper: bool) returns (n: nat)
    requires n0 + 5 <= out.Length && -999 <= e <= 999
    modifies out
    ensures n == n0 + 1 + |ExpText(e)| && n <= out.Length
    ensures out[..n] == old(out[..n0]) + [if upper then 69 else 101] + ExpText(e)
  {
    hide ExpText;
    ExpTextReads(e);
    out[n0] := if upper then 69 else 101;
    assert out[..n0 + 1] == out[..n0] + [if upper then 69 else 101];
    n := WriteExp(out, n0 + 1, e);
  }

  /** Length of the `%e` mantissa text. */
  function MantLen(prec: nat, alt: bool): nat {
    1 + |Point(prec, alt)| + prec
  }

  /** Mantissa text, the letter, the signed exponent field. */
  ghost predicate IsSciText(t: seq<nat>, bits: nat, prec: nat, alt: bool, upper: bool) {
    var k := 1 + prec + (if prec > 0 || alt then 1 else 0);
    && k + 4 <= |t| <= k + 5 && t[k] == (if upper then 69 else 101)
    && AllDigits(t[..1]) && AllDigits(t[k - prec..k]) && (prec > 0 || alt ==> t[1] == 46)
    && (t[k + 1] == 43 || t[k + 1] == 45) && AllDigits(t[k + 2..])
    && IsScientific(bits, prec, TextVal(t[..k]), ReadExp(t[k + 1..]))
  }

  lemma {:induction false} SciTextIs(s: seq<nat>, e: int, bits: nat, prec: nat, alt: bool, upper: bool)
    requires AllDigits(s) && -999 <= e <= 999
    requires IsScientific(bits, prec, TextVal(MantText(s, prec, alt)), e)
    ensures IsSciText(SciText(s, e, prec, alt, upper), bits, prec, alt, upper)
  {
    hide TextVal, IsScientific, DigVal, Dat;
    var t, m, x := SciText(s, e, prec, alt, upper), MantText(s, prec, alt), ExpText(e);
    ExpTextReads(e);
    StreamDigits(s, 0, 1);
    StreamDigits(s, 1, prec);
    assert t[..|m|] == m && t[|m| + 1..] == x;
    assert t[..1] == Stream(s, 0, 1) && t[|m| - prec..|m|] == Stream(s, 1, prec);
    assert t[|m| + 2..] == x[1..];
    assert t[1..1 + |Point(prec, alt)|] == Point(prec, alt);
  }

  /**
   `%e`: the mantissa text and exponent denote the double rounded at `prec` places after
   its leading digit, ties to even, renormalised when 9.99... becomes 10.
   */
  method Scientific(out: array<nat>, bits: nat, prec: nat, alt: bool, upper: bool) returns (n: nat)
    requires bits < INF && prec + 7 <= out.Length
    modifies out
    ensures n <= out.Length && IsSciText(out[..n], bits, prec, alt, upper)
  {
    hide Pow, DigVal, Scaled, IsHalfEven, IsScientific, IsSciText, SciText, MantText, TextVal;
    var dig := new nat[ND];
    var nd, x := Expand(bits, dig);
    ghost var s0, x0 := dig[..nd], x;
    var e := 0;
    if dig[0] == 48 {
      ZeroIsScientific(bits, s0, prec, alt);
    } else {
      LeadingDigitOf(bits, s0, x0);
      nd, x := Rounding.Cut(dig, nd, prec + 1, x);
      e := x - 1;
      MantIsScientific(bits, s0, x0, dig[..nd], x, prec, alt);
    }
    n := WriteSci(out, dig, nd, e, prec, alt, upper);
    SciTextIs(dig[..nd], e, bits, prec, alt, upper);
  }

  lemma {:induction false} LeadingDigitOf(bits: nat, s: seq<nat>, x: int)
    requires bits < INF && AllDigits(s) && |s| > 0 && x <= |s|
    requires Scaled(bits) == 0 ==> s == [ZERO]
    requires DigVal(s) * Pow(2, 1074) == Scaled(bits) * Pow(10, |s| - x)
    requires s[0] != ZERO
    ensures Scaled(bits) > 0 && IsExpansion(bits, DigVal(s), |s|, x) && -323 <= x <= 309
  {
    hide Pow, DigVal;
    assert bits > 0 by {
      assert Scaled(0) == 0;
    }
    ScaledMono(0, bits);
    hide Scaled;
    ExpandIsExpansion(bits, s, x);
    ExpansionPlace(bits, DigVal(s), |s|, x);
  }

  lemma {:induction false} ZeroIsScientific(bits: nat, s: seq<nat>, prec: nat, alt: bool)
    requires AllDigits(s) && |s| > 0 && s[0] == ZERO
    requires Scaled(bits) == 0 ==> s == [ZERO]
    requires Scaled(bits) > 0 ==> s[0] != ZERO
    ensures IsScientific(bits, prec, TextVal(MantText(s, prec, alt)), 0)
  {
    MantVal([ZERO], prec, alt);
    assert [ZERO][..0] == [];
    assert [ZERO][..1] == [ZERO];
  }
}
