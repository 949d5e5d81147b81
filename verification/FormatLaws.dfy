/**
 What the conversions print, said by reading it back and character by character: integers of every
 length, precision, sign characters, widths, strings and characters.
 (Section 7.19.6.1 of ISO/IEC 9899:1999.)
 */
module FormatLaws {
  import opened Arith
  import opened CString
  import opened IntText
  import opened Format
  import opened Directives

  /** A conversion `c` with no flags and no width. */
  function Bare(prec: int, hh: nat, lng: bool, c: nat): Directive {
    Directive(Flags(false, false, false, false, false), 0, prec, hh, lng, c)
  }

  // ---------- integers ----------

  /** The values of the types that hh, h, no modifier and l stand for. */
  function Modulus(hh: nat, lng: bool): (m: nat)
    ensures m > 0 && m % 2 == 0
  {
    if hh == 2 then 0x100 else if hh == 1 then 0x1_0000 else if lng then 0x1_0000_0000_0000_0000 else 0x1_0000_0000
  }

  /** `%d`: what it prints reads back, all of it, as the argument's value in the range of its type: the
      argument itself when it lies there, and equal to it modulo that type otherwise. */
  lemma {:induction false} SignedReads(hh: nat, lng: bool, v: int, beyond: nat)
    ensures var t := Rendered(Bare(-1, hh, lng, 100), Int(v), beyond);
      var w, m := ValueOf(t, 10), Modulus(hh, lng);
      EndOf(t, 10) == |t| && -(m / 2) <= w < m / 2 && w % m == v % m
    ensures var m := Modulus(hh, lng);
      -(m / 2) <= v < m / 2 ==> ValueOf(Rendered(Bare(-1, hh, lng, 100), Int(v), beyond), 10) == v
  {
    hide Rendered, TextOf, ValueOf, EndOf, SignedValue, Modulus;
    var d := Bare(-1, hh, lng, 100);
    SignedInRange(hh, lng, v);
    BareInteger(d, v, beyond);
    DecimalText(SignedValue(d, v));
  }

  /** The decimal text of a number reads back. */
  lemma DecimalText(w: int)
    ensures var t := if w < 0 then [45] + TextOf(0 - w, 10, false) else TextOf(w, 10, false);
      ValueOf(t, 10) == w && EndOf(t, 10) == |t|
  {
    hide TextOf, ValueOf, EndOf;
    if w < 0 {
      SignedText(0 - w, 10, false);
    } else {
      TextIsSubject(w, 10, false);
      UnsignedValueIs(w, 10, false);
    }
  }

  lemma SignedInRange(hh: nat, lng: bool, v: int)
    ensures var w, m := SignedValue(Bare(-1, hh, lng, 100), v), Modulus(hh, lng);
      -(m / 2) <= w < m / 2 && w % m == v % m && (-(m / 2) <= v < m / 2 ==> w == v)
  {
    NarrowIs(v, Modulus(hh, lng));
  }

  lemma {:induction false} NarrowIs(v: int, m: nat)
    requires m > 0 && m % 2 == 0
    ensures var w := Narrow(v, m);
      -(m / 2) <= w < m / 2 && w % m == v % m && (-(m / 2) <= v < m / 2 ==> w == v)
  {
    var h, q := m / 2, (v + m / 2) / m;
    var r := (v + h) % m;
    assert v + h == q * m + r;
    SameClass(v, r - h, q, m);
    if -h <= v < h {
      SmallMod(v + h, m);
    }
  }

  /** Numbers that differ by a multiple have the same remainder. */
  lemma {:induction false} SameClass(v: int, w: int, q: int, m: nat)
    requires m > 0 && v == w + q * m
    ensures w % m == v % m
  {
    var a, r := w / m, w % m;
    assert w == a * m + r;
    Distrib(a, q, m);
    RemainderOf(v, m, a + q, r);
  }

  lemma {:induction false} RemainderOf(n: int, m: nat, q: int, r: nat)
    requires r < m && n == q * m + r
    ensures n % m == r
  {
    var b, s := n / m, n % m;
    assert n == b * m + s;
    if q < b {
      MulLe(q + 1, b, m);
      Distrib(q, 1, m);
    } else if b < q {
      MulLe(b + 1, q, m);
      Distrib(b, 1, m);
    }
  }

  /** With no flags, width or precision the text is the sign and the digits. */
  lemma BareInteger(d: Directive, v: int, beyond: nat)
    requires d == Bare(-1, d.hh, d.lng, 100)
    ensures var w := SignedValue(d, v);
      Rendered(d, Int(v), beyond) == if w < 0 then [45] + TextOf(0 - w, 10, false) else TextOf(w, 10, false)
  {
    hide IntBody, SignedValue, Rendered, TextOf;
    BareField(d, v, beyond);
    BareBody(d, Printed(d, v), beyond);
  }

  lemma BareField(d: Directive, v: int, beyond: nat)
    requires d == Bare(d.prec, d.hh, d.lng, d.c) && IsInteger(d.c) && d.c != 37 && d.c != 110
    ensures Rendered(d, Int(v), beyond) == SignOf(d, Int(v)) + IntBody(d, Printed(d, v), beyond)
  {
    hide SignOf, IntBody, Printed;
  }

  lemma BareBody(d: Directive, u: nat, beyond: nat)
    requires d == Bare(d.prec, d.hh, d.lng, d.c) && d.c != 112 && d.prec <= 23
    ensures IntBody(d, u, beyond) == Rep(48, d.prec - |Plain(d, u)|) + Plain(d, u)
    ensures d.prec < 0 ==> IntBody(d, u, beyond) == TextOf(u, Base(d.c), d.c == 88)
  {
    var t := Plain(d, u);
    assert d.prec < 0 ==> t == TextOf(u, Base(d.c), d.c == 88);
    hide TextOf, Plain;
    assert Marked(d, u, beyond) == t;
    hide Marked;
    assert d.prec < 0 ==> Rep(48, d.prec - |t|) + t == t;
  }

  lemma UnsignedValueIs(v: nat, base: nat, upper: bool)
    requires 2 <= base <= 36
    ensures ValueOf(TextOf(v, base, upper), base) == v
  {
    TextIsSubject(v, base, upper);
    hide TextOf;
  }

  /** `%u`, `%x`, `%X` and `%o`: the argument modulo its type, in base 10, 16 or 8. */
  lemma {:induction false} UnsignedReads(hh: nat, lng: bool, c: nat, base: nat, v: int, beyond: nat)
    requires (c == 117 && base == 10) || ((c == 120 || c == 88) && base == 16) || (c == 111 && base == 8)
    ensures var t := Rendered(Bare(-1, hh, lng, c), Int(v), beyond);
      var w, m := ValueOf(t, base), Modulus(hh, lng);
      EndOf(t, base) == |t| && 0 <= w < m && w % m == v % m
  {
    hide Rendered, TextOf, ValueOf, EndOf, UnsignedValue, Modulus;
    var d := Bare(-1, hh, lng, c);
    BareUnsigned(d, v, base, beyond);
    UnsignedInRange(d, v);
    TextIsSubject(UnsignedValue(d, v), base, c == 88);
    UnsignedValueIs(UnsignedValue(d, v), base, c == 88);
  }

  lemma BareUnsigned(d: Directive, v: int, base: nat, beyond: nat)
    requires d == Bare(-1, d.hh, d.lng, d.c)
    requires (d.c == 117 && base == 10) || ((d.c == 120 || d.c == 88) && base == 16) || (d.c == 111 && base == 8)
    ensures Rendered(d, Int(v), beyond) == TextOf(UnsignedValue(d, v), base, d.c == 88)
  {
    hide TextOf, IntBody, UnsignedValue, Rendered;
    BareField(d, v, beyond);
    BareBody(d, UnsignedValue(d, v), beyond);
  }

  lemma UnsignedInRange(d: Directive, v: int)
    requires d.c == 117 || d.c == 120 || d.c == 88 || d.c == 111
    ensures var w, m := UnsignedValue(d, v), Modulus(d.hh, d.lng); 0 <= w < m && w % m == v % m
  {
    RemainderIs(v, Modulus(d.hh, d.lng));
  }

  lemma RemainderIs(v: int, m: nat)
    requires m > 0
    ensures 0 <= v % m < m && v % m % m == v % m
  {
    SmallMod(v % m, m);
  }

  /** `%.Nd` of a number that is not negative, for a precision the scratch buffer holds: at least that many
      digits, zeros in front only as far as that, the same number; none at all for zero with precision zero. */
  lemma {:induction false} PrecisionLaw(prec: nat, v: nat, beyond: nat)
    requires prec <= 23 && v < 0x8000_0000
    ensures var t := Rendered(Bare(prec, 0, false, 100), Int(v), beyond);
      if prec == 0 && v == 0 then t == [] else (
        && |t| >= prec && |t| > 0 && (|t| > prec && |t| > 1 ==> t[0] != 48)
        && (forall i :: 0 <= i < |t| ==> IsDigit(t[i], 10)) && NumVal(t, 10) == v)
  {
    hide TextOf, NumVal, IsDigit;
    NarrowIs(v, 0x1_0000_0000);
    var t := TextOf(v, 10, false);
    TextReads(v, 10, false);
    BarePrecision(prec, v, beyond);
    ZerosFirst(prec - |t|, t);
    ZeroDigit();
  }

  lemma ZeroDigit()
    ensures IsDigit(48, 10)
  {
  }

  lemma BarePrecision(prec: nat, v: nat, beyond: nat)
    requires prec <= 23 && SignedValue(Bare(prec, 0, false, 100), v) == v
    ensures Rendered(Bare(prec, 0, false, 100), Int(v), beyond) ==
      if prec == 0 && v == 0 then [] else Rep(48, prec - |TextOf(v, 10, false)|) + TextOf(v, 10, false)
  {
    hide TextOf, IntBody, SignedValue, Rendered;
    var d := Bare(prec, 0, false, 100);
    BareField(d, v, beyond);
    BareBody(d, v, beyond);
    hide Rep;
    assert Plain(d, v) == [] ==> [] + (Rep(48, prec - 0) + []) == Rep(48, prec - 0);
  }

  lemma {:induction false} ZerosFirst(k: int, t: seq<nat>)
    requires forall i :: 0 <= i < |t| ==> IsDigit(t[i], 10)
    ensures NumVal(Rep(48, k) + t, 10) == NumVal(t, 10)
    decreases |t|
  {
    hide NumVal, Rep;
    var z := Rep(48, k);
    if t == [] {
      ZerosOnly(if k < 0 then 0 else k);
      SameRep(k);
      assert z + t == z;
    } else {
      var u, c := t[..|t| - 1], t[|t| - 1];
      ZerosFirst(k, u);
      assert (z + u) + [c] == z + t && u + [c] == t;
      NumValSnoc(z + u, c, 10);
      NumValSnoc(u, c, 10);
    }
  }

  lemma SameRep(k: int)
    ensures Rep(48, k) == Rep(48, if k < 0 then 0 else k)
  {
  }

  lemma {:induction false} ZerosOnly(k: nat)
    ensures NumVal(Rep(48, k), 10) == 0 == NumVal([], 10)
  {
    if k > 0 {
      ZerosOnly(k - 1);
      assert Rep(48, k) == Rep(48, k - 1) + [48];
      hide Rep;
      NumValSnoc(Rep(48, k - 1), 48, 10);
      assert DigitOf(48) == 0;
      hide NumVal;
    } else {
      assert Rep(48, 0) == [];
    }
  }

  /** Letters: `%X` prints capitals, `%x` small ones. */
  lemma HexLetters(beyond: nat)
    ensures Rendered(Bare(-1, 0, false, 120), Int(0x2af), beyond) == [50, 97, 102]
    ensures Rendered(Bare(-1, 0, false, 88), Int(0x2af), beyond) == [50, 65, 70]
  {
    hide Rendered, TextOf;
    BareUnsigned(Bare(-1, 0, false, 120), 0x2af, 16, beyond);
    BareUnsigned(Bare(-1, 0, false, 88), 0x2af, 16, beyond);
    assert UnsignedValue(Bare(-1, 0, false, 120), 0x2af) == 0x2af == UnsignedValue(Bare(-1, 0, false, 88), 0x2af);
    HexDigits();
  }

  lemma HexDigits()
    ensures TextOf(0x2af, 16, false) == [50, 97, 102] && TextOf(0x2af, 16, true) == [50, 65, 70]
  {
    assert TextOf(2, 16, false) == [50] && TextOf(2, 16, true) == [50];
    assert TextOf(42, 16, false) == [50, 97] && TextOf(42, 16, true) == [50, 65];
  }

  // ---------- strings and characters ----------

  /** `%.*s`: the first characters of the argument, all of them without a precision. */
  lemma StringLaw(prec: int, s: seq<nat>, beyond: nat)
    ensures var t := Rendered(Bare(prec, 0, false, 115), Str(s), beyond);
      && |t| == (if prec >= 0 && prec < |s| then prec else |s|)
      && forall i :: 0 <= i < |t| ==> t[i] == s[i]
    ensures Rendered(Bare(-1, 0, false, 115), Null, beyond) == [40, 110, 117, 108, 108, 41]
  {
    hide IntBody, Printed, SignedValue, ZeroPads, Body;
    StringBody(Bare(prec, 0, false, 115), s, beyond);
    NullBody(Bare(-1, 0, false, 115), beyond);
    hide SignOf;
  }

  lemma StringBody(d: Directive, s: seq<nat>, beyond: nat)
    requires d.c == 115
    ensures Body(d, Str(s), beyond) == (if 0 <= d.prec < |s| then s[..d.prec] else s) && SignOf(d, Str(s)) == []
  {
    hide IntBody, Printed, SignedValue;
  }

  lemma NullBody(d: Directive, beyond: nat)
    requires d.c == 115 && d.prec < 0
    ensures Body(d, Null, beyond) == [40, 110, 117, 108, 108, 41] && SignOf(d, Null) == []
  {
    hide IntBody, Printed, SignedValue;
  }

  /** `%c`: one character, the argument as an unsigned char; `%%`: a percent sign. */
  lemma CharacterLaw(v: int, beyond: nat)
    ensures var t := Rendered(Bare(-1, 0, false, 99), Int(v), beyond);
      |t| == 1 && 0 <= t[0] < 256 && t[0] % 256 == v % 256
    ensures Rendered(Bare(-1, 0, false, 37), Int(v), beyond) == [37]
  {
  }

  // ---------- sign characters and widths ----------

  /** `+` and the space show the sign of what is not negative, `+` before the space. */
  lemma SignLaw(d: Directive, v: int, beyond: nat)
    requires (d.c == 100 || d.c == 105) && d.width == 0 && !d.f.alt
    ensures var t, m := Rendered(d, Int(v), beyond), Modulus(d.hh, d.lng);
      -(m / 2) <= v < m / 2 ==>
        (v < 0 ==> |t| > 0 && t[0] == 45)
        && (v >= 0 && d.f.plus ==> |t| > 0 && t[0] == 43)
        && (v >= 0 && !d.f.plus && d.f.space ==> |t| > 0 && t[0] == 32)
  {
    NarrowIs(v, Modulus(d.hh, d.lng));
    hide TextOf, Narrow, Body;
  }

  /**
   A field narrower than its width is filled: with spaces behind with `-`, with zeros between sign and digits
   with `0`, else with spaces in front.  A wider one is left as it is.
   */
  lemma WidthLaw(d: Directive, x: Arg, beyond: nat)
    requires d.c != 37 && d.c != 110
    ensures var t, u := Rendered(d, x, beyond), Rendered(d.(width := 0), x, beyond);
      && |t| == (if |u| < d.width then d.width else |u|)
      && (d.f.left ==> t[..|u|] == u && forall i :: |u| <= i < |t| ==> t[i] == 32)
      && (!d.f.left && !ZeroPads(d, x) ==> t[|t| - |u|..] == u && forall i :: 0 <= i < |t| - |u| ==> t[i] == 32)
      && (!d.f.left && ZeroPads(d, x) ==>
            var s := |SignOf(d, x)|;
            s <= |u| && t[..s] == u[..s] && t[|t| - (|u| - s)..] == u[s..]
            && forall i :: s <= i < |t| - (|u| - s) ==> t[i] == 48)
  {
    hide Body, SignOf, ZeroPads;
    var d0 := d.(width := 0);
    var body, sign := Body(d, x, beyond), SignOf(d, x);
    SameParts(d, x, beyond);
    FieldLaw(d.width, d.f.left, ZeroPads(d, x), sign, body);
  }

  /** The `0` flag holds unless there is a precision on an integer, or the value is not finite. */
  lemma ZeroLaw(d: Directive, x: Arg)
    ensures !d.f.zero ==> !ZeroPads(d, x)
    ensures d.f.zero && (d.c == 100 || d.c == 105 || d.c == 117 || d.c == 111 || d.c == 120 || d.c == 88) ==>
      (ZeroPads(d, x) <==> d.prec < 0)
    ensures d.f.zero && (d.c == 102 || d.c == 101 || d.c == 103) && x.Float? ==> (ZeroPads(d, x) <==> !x.special)
  {
  }

  /** The width is no part of sign and body. */
  lemma SameParts(d: Directive, x: Arg, beyond: nat)
    ensures var d0 := d.(width := 0);
      Body(d0, x, beyond) == Body(d, x, beyond) && SignOf(d0, x) == SignOf(d, x) && ZeroPads(d0, x) == ZeroPads(d, x)
  {
    hide TextOf, Rep, SignedValue, UnsignedValue, Base;
    var d0, v := d.(width := 0), AsInt(x);
    assert Printed(d0, v) == Printed(d, v) by {
      SameValues(d, v);
    }
    SameDigits(d, Printed(d, v), beyond);
    SameValues(d, v);
    hide IntBody, Printed;
  }

  lemma SameValues(d: Directive, v: int)
    ensures var d0 := d.(width := 0); SignedValue(d0, v) == SignedValue(d, v) && UnsignedValue(d0, v) == UnsignedValue(d, v)
  {
    hide Narrow;
  }

  lemma SameDigits(d: Directive, u: nat, beyond: nat)
    ensures IntBody(d.(width := 0), u, beyond) == IntBody(d, u, beyond)
  {
    hide TextOf, Rep, Base;
    assert Plain(d.(width := 0), u) == Plain(d, u);
    hide Plain;
  }

  lemma FieldLaw(width: int, left: bool, zero: bool, sign: seq<nat>, body: seq<nat>)
    ensures var t, u, s := Field(width, left, zero, sign, body), Field(0, left, zero, sign, body), |sign|;
      && u == sign + body && |t| == (if |u| < width then width else |u|)
      && (left ==> t[..|u|] == u && forall i :: |u| <= i < |t| ==> t[i] == 32)
      && (!left && !zero ==> t[|t| - |u|..] == u && forall i :: 0 <= i < |t| - |u| ==> t[i] == 32)
      && (!left && zero ==>
            t[..s] == u[..s] && t[|t| - (|u| - s)..] == u[s..] && forall i :: s <= i < |t| - (|u| - s) ==> t[i] == 48)
  {
  }

  // ---------- one format, byte by byte ----------

  /** "%+05d %-6.3s|%*d%#X%hhd%ld%%" */
  const FMT: seq<nat> := [37, 43, 48, 53, 100, 32] + [37, 45, 54, 46, 51, 115, 124] + [37, 42, 100, 37, 35, 88] + [37, 104, 104, 100, 37, 108, 100, 37, 37]

  /** 42, "hello", 4, 7, 255, 300, 4294967297 */
  const ARGS: seq<Arg> := [Int(42), Str([104, 101, 108, 108, 111]), Int(4), Int(7), Int(255), Int(300), Int(4294967297)]

  lemma FormatAt()
    ensures |FMT| == 28
    ensures At(FMT, 0) == 37 && At(FMT, 1) == 43 && At(FMT, 2) == 48 && At(FMT, 3) == 53 && At(FMT, 4) == 100 && At(FMT, 5) == 32 && At(FMT, 6) == 37
    ensures At(FMT, 7) == 45 && At(FMT, 8) == 54 && At(FMT, 9) == 46 && At(FMT, 10) == 51 && At(FMT, 11) == 115 && At(FMT, 12) == 124 && At(FMT, 13) == 37
    ensures At(FMT, 14) == 42 && At(FMT, 15) == 100 && At(FMT, 16) == 37 && At(FMT, 17) == 35 && At(FMT, 18) == 88 && At(FMT, 19) == 37 && At(FMT, 20) == 104
    ensures At(FMT, 21) == 104 && At(FMT, 22) == 100 && At(FMT, 23) == 37 && At(FMT, 24) == 108 && At(FMT, 25) == 100 && At(FMT, 26) == 37 && At(FMT, 27) == 37
    ensures At(FMT, 28) == 0
  {
  }

  lemma Read0()
    ensures DirectiveFrom(FMT, 1, ARGS, 0, false) == (Directive(Flags(false, true, true, false, false), 5, -1, 0, false, 100), 5, 0)
  {
    var f := FMT;
    FormatAt();
    assert FlagsFrom(f, 3, Flags(false, true, true, false, false)) == (Flags(false, true, true, false, false), 3);
    assert FlagsFrom(f, 2, Flags(false, false, true, false, false)) == (Flags(false, true, true, false, false), 3);
    assert FlagsFrom(f, 1, Flags(false, false, false, false, false)) == (Flags(false, true, true, false, false), 3);
    assert NumberFrom(f, 4, 5) == (5, 4);
    assert NumberFrom(f, 3, 0) == (5, 4);
    assert LengthFrom(f, 4, false, 0, 0) == (0, 0, 4);
    hide FMT, FlagsFrom, NumberFrom, LengthFrom;
  }

  lemma Shows0()
    ensures Rendered(Directive(Flags(false, true, true, false, false), 5, -1, 0, false, 100), Int(42), 0) == [43, 48, 48, 52, 50]
  {
    hide TextOf;
    OneMore(42, 4, 2);
    FirstDigit(4);
    assert SignedValue(Bare(-1, 0, false, 100), 42) == 42;
    assert Rep(48, 2) == [48, 48] && Rep(48, -3) == [];
    hide Rep;
  }

  lemma Read1()
    ensures DirectiveFrom(FMT, 7, ARGS, 1, false) == (Directive(Flags(true, false, false, false, false), 6, 3, 0, false, 115), 12, 1)
  {
    var f := FMT;
    FormatAt();
    assert FlagsFrom(f, 8, Flags(true, false, false, false, false)) == (Flags(true, false, false, false, false), 8);
    assert FlagsFrom(f, 7, Flags(false, false, false, false, false)) == (Flags(true, false, false, false, false), 8);
    assert NumberFrom(f, 9, 6) == (6, 9);
    assert NumberFrom(f, 8, 0) == (6, 9);
    assert NumberFrom(f, 11, 3) == (3, 11);
    assert NumberFrom(f, 10, 0) == (3, 11);
    assert LengthFrom(f, 11, false, 0, 0) == (0, 0, 11);
    hide FMT, FlagsFrom, NumberFrom, LengthFrom;
  }

  lemma Shows1()
    ensures Rendered(Directive(Flags(true, false, false, false, false), 6, 3, 0, false, 115), Str([104, 101, 108, 108, 111]), 0) == [104, 101, 108, 32, 32, 32]
  {
    var d := Directive(Flags(true, false, false, false, false), 6, 3, 0, false, 115);
    hide Body, SignOf, ZeroPads;
    StringBody(d, [104, 101, 108, 108, 111], 0);
    assert Rep(32, 3) == [32, 32, 32];
  }

  lemma Read2()
    ensures DirectiveFrom(FMT, 14, ARGS, 2, false) == (Directive(Flags(false, false, false, false, false), 4, -1, 0, false, 100), 16, 3)
  {
    var f := FMT;
    FormatAt();
    assert FlagsFrom(f, 14, Flags(false, false, false, false, false)) == (Flags(false, false, false, false, false), 14);
    assert NumberFrom(f, 15, 4) == (4, 15);
    assert LengthFrom(f, 15, false, 0, 0) == (0, 0, 15);
    hide FMT, FlagsFrom, NumberFrom, LengthFrom;
  }

  lemma Shows2()
    ensures Rendered(Directive(Flags(false, false, false, false, false), 4, -1, 0, false, 100), Int(7), 0) == [32, 32, 32, 55]
  {
    FirstDigit(7);
    hide TextOf;
    assert SignedValue(Directive(Flags(false, false, false, false, false), 4, -1, 0, false, 100), 7) == 7;
    assert Rep(32, 3) == [32, 32, 32] && Rep(48, -2) == [];
    hide Rep, Narrow;
  }

  lemma Read3()
    ensures DirectiveFrom(FMT, 17, ARGS, 4, false) == (Directive(Flags(false, false, false, false, true), 0, -1, 0, false, 88), 19, 4)
  {
    var f := FMT;
    FormatAt();
    assert FlagsFrom(f, 18, Flags(false, false, false, false, true)) == (Flags(false, false, false, false, true), 18);
    assert FlagsFrom(f, 17, Flags(false, false, false, false, false)) == (Flags(false, false, false, false, true), 18);
    assert NumberFrom(f, 18, 0) == (0, 18);
    assert LengthFrom(f, 18, false, 0, 0) == (0, 0, 18);
    hide FMT, FlagsFrom, NumberFrom, LengthFrom;
  }

  lemma Shows3()
    ensures Rendered(Directive(Flags(false, false, false, false, true), 0, -1, 0, false, 88), Int(255), 0) == [48, 88, 70, 70]
  {
    assert TextOf(15, 16, true) == [70];
    assert TextOf(255, 16, true) == [70, 70];
    hide TextOf;
  }

  lemma Read4()
    ensures DirectiveFrom(FMT, 20, ARGS, 5, false) == (Directive(Flags(false, false, false, false, false), 0, -1, 2, false, 100), 23, 5)
  {
    var f := FMT;
    FormatAt();
    assert FlagsFrom(f, 20, Flags(false, false, false, false, false)) == (Flags(false, false, false, false, false), 20);
    assert NumberFrom(f, 20, 0) == (0, 20);
    assert LengthFrom(f, 22, false, 2, 0) == (2, 0, 22);
    assert LengthFrom(f, 21, false, 1, 0) == (2, 0, 22);
    assert LengthFrom(f, 20, false, 0, 0) == (2, 0, 22);
    hide FMT, FlagsFrom, NumberFrom, LengthFrom;
  }

  lemma Shows4()
    ensures Rendered(Directive(Flags(false, false, false, false, false), 0, -1, 2, false, 100), Int(300), 0) == [52, 52]
  {
    assert TextOf(4, 10, false) == [52];
    assert TextOf(44, 10, false) == [52, 52];
    hide TextOf;
  }

  lemma Read5()
    ensures DirectiveFrom(FMT, 24, ARGS, 6, false) == (Directive(Flags(false, false, false, false, false), 0, -1, 0, true, 100), 26, 6)
  {
    var f := FMT;
    FormatAt();
    assert FlagsFrom(f, 24, Flags(false, false, false, false, false)) == (Flags(false, false, false, false, false), 24);
    assert NumberFrom(f, 24, 0) == (0, 24);
    assert LengthFrom(f, 25, false, 0, 1) == (0, 1, 25);
    assert LengthFrom(f, 24, false, 0, 0) == (0, 1, 25);
    hide FMT, FlagsFrom, NumberFrom, LengthFrom;
  }

  lemma Shows5()
    ensures Rendered(Directive(Flags(false, false, false, false, false), 0, -1, 0, true, 100), Int(4294967297), 0) ==
      [52, 50, 57, 52, 57, 54, 55, 50, 57, 55]
  {
    hide TextOf;
    assert SignedValue(Bare(-1, 0, true, 100), 4294967297) == 4294967297;
    BareInteger(Bare(-1, 0, true, 100), 4294967297, 0);
    TenDigits();
  }

  lemma TenDigits()
    ensures TextOf(4294967297, 10, false) == [52, 50, 57, 52, 57, 54, 55, 50, 57, 55]
  {
    hide TextOf;
    OneMore(4294967297, 429496729, 7);
    OneMore(429496729, 42949672, 9);
    OneMore(42949672, 4294967, 2);
    OneMore(4294967, 429496, 7);
    OneMore(429496, 42949, 6);
    OneMore(42949, 4294, 9);
    OneMore(4294, 429, 4);
    OneMore(429, 42, 9);
    OneMore(42, 4, 2);
    FirstDigit(4);
  }

  lemma OneMore(v: nat, q: nat, r: nat)
    requires v == 10 * q + r && r < 10 && q > 0
    ensures TextOf(v, 10, false) == TextOf(q, 10, false) + [48 + r]
  {
  }

  lemma FirstDigit(r: nat)
    requires r < 10
    ensures TextOf(r, 10, false) == [48 + r]
  {
  }

  lemma Read6()
    ensures DirectiveFrom(FMT, 27, ARGS, 7, false) == (Directive(Flags(false, false, false, false, false), 0, -1, 0, false, 37), 28, 7)
  {
    var f := FMT;
    FormatAt();
    assert FlagsFrom(f, 27, Flags(false, false, false, false, false)) == (Flags(false, false, false, false, false), 27);
    assert NumberFrom(f, 27, 0) == (0, 27);
    assert LengthFrom(f, 27, false, 0, 0) == (0, 0, 27);
    hide FMT, FlagsFrom, NumberFrom, LengthFrom;
  }

  lemma Shows6()
    ensures Rendered(Directive(Flags(false, false, false, false, false), 0, -1, 0, false, 37), Int(0), 0) == [37]
  {
  }

  lemma Piece(i: nat, a: nat, d: Directive, j: nat, b: nat, t: seq<nat>)
    requires At(FMT, i) == 37 && DirectiveFrom(FMT, i + 1, ARGS, a, false) == (d, j, b)
    requires Rendered(d, ArgAt(ARGS, b), 0) == t
    ensures Output(FMT, i, ARGS, a, false, 0) == t + Output(FMT, j, ARGS, if d.c == 37 then b else b + 1, false, 0)
  {
    hide DirectiveFrom, Rendered, FMT, ARGS;
  }

  lemma Plainly(i: nat, a: nat, c: nat)
    requires At(FMT, i) == c && c != 0 && c != 37
    ensures Output(FMT, i, ARGS, a, false, 0) == [c] + Output(FMT, i + 1, ARGS, a, false, 0)
  {
    hide FMT, ARGS;
  }

  lemma Ends(i: nat, a: nat)
    requires At(FMT, i) == 0
    ensures Output(FMT, i, ARGS, a, false, 0) == []
  {
    hide FMT, ARGS;
  }

  lemma ArgsAre()
    ensures ArgAt(ARGS, 0) == Int(42) && ArgAt(ARGS, 1) == Str([104, 101, 108, 108, 111]) && ArgAt(ARGS, 3) == Int(7)
    ensures ArgAt(ARGS, 4) == Int(255) && ArgAt(ARGS, 5) == Int(300) && ArgAt(ARGS, 6) == Int(4294967297)
    ensures ArgAt(ARGS, 7) == Int(0)
  {
  }

  lemma Printed34()
    ensures Output(FMT, 0, ARGS, 0, false, 0) == [43, 48, 48, 52, 50, 32] + [104, 101, 108, 32, 32, 32, 124] + [32, 32, 32, 55, 48, 88, 70, 70] + [52, 52, 52, 50, 57, 52, 57, 54, 55, 50, 57, 55, 37]
  {
    hide FMT, ARGS, At, ArgAt, DirectiveFrom, Rendered, Output;
    FormatAt();
    ArgsAre();
    Read0();
    Shows0();
    Piece(0, 0, Directive(Flags(false, true, true, false, false), 5, -1, 0, false, 100), 5, 0, [43, 48, 48, 52, 50]);
    Plainly(5, 1, 32);
    Read1();
    Shows1();
    Piece(6, 1, Directive(Flags(true, false, false, false, false), 6, 3, 0, false, 115), 12, 1, [104, 101, 108, 32, 32, 32]);
    Plainly(12, 2, 124);
    Read2();
    Shows2();
    Piece(13, 2, Directive(Flags(false, false, false, false, false), 4, -1, 0, false, 100), 16, 3, [32, 32, 32, 55]);
    Read3();
    Shows3();
    Piece(16, 4, Directive(Flags(false, false, false, false, true), 0, -1, 0, false, 88), 19, 4, [48, 88, 70, 70]);
    Read4();
    Shows4();
    Piece(19, 5, Directive(Flags(false, false, false, false, false), 0, -1, 2, false, 100), 23, 5, [52, 52]);
    Read5();
    Shows5();
    Piece(23, 6, Directive(Flags(false, false, false, false, false), 0, -1, 0, true, 100), 26, 6, [52, 50, 57, 52, 57, 54, 55, 50, 57, 55]);
    Read6();
    Shows6();
    Piece(26, 7, Directive(Flags(false, false, false, false, false), 0, -1, 0, false, 37), 28, 7, [37]);
    Ends(28, 7);
  }

  /** The 34 characters of "%+05d %-6.3s|%*d%#X%hhd%ld%%" of these arguments, where long has 64 bits, and the
      first fifteen of them where the capacity is 16. */
  method PrintAll() returns (n: nat, text: seq<nat>, cut: seq<nat>)
    ensures n == 34
    ensures text == [43, 48, 48, 52, 50, 32] + [104, 101, 108, 32, 32, 32, 124] + [32, 32, 32, 55, 48, 88, 70, 70] + [52, 52, 52, 50, 57, 52, 57, 54, 55, 50, 57, 55, 37] + [0]
    ensures cut == [43, 48, 48, 52, 50, 32, 104, 101] + [108, 32, 32, 32, 124, 32, 32] + [0]
  {
    hide Output, FMT, ARGS;
    Printed34();
    var out, few := new nat[35], new nat[16];
    n := VFmt(out, 35, FMT, ARGS, false, 0);
    text := out[..];
    n := VFmt(few, 16, FMT, ARGS, false, 0);
    cut := few[..];
  }
}
