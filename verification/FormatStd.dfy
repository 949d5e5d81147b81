/**
 The integer conversions of the formatter against the standard's wording: precision zeros and field
 zeros stand between the 0x mark and the digits.  The program puts them in front of the mark, and its
 scratch buffer holds 23 digits; this module says exactly when the two texts are the same.
 (Section 7.19.6.1 of ISO/IEC 9899:1999, paragraphs 5, 6 and 8.)
 */
module FormatStd {
  import opened Arith
  import opened IntText
  import opened Format
  import opened Directives

  /** The conversions the standard has for integers. */
  predicate IsStandard(c: nat) {
    c == 100 || c == 105 || c == 117 || c == 120 || c == 88 || c == 111
  }

  /** The 0x mark of `#x` and `#X`. */
  function Mark(d: Directive, u: nat): seq<nat> {
    if d.f.alt && (d.c == 120 || d.c == 88) && u != 0 then [48, d.c] else []
  }

  /** At least as many digits as the precision asks for; `#o` makes the first of them a zero. */
  function StdDigits(d: Directive, u: nat): seq<nat> {
    var t := Plain(d, u);
    var p := Rep(48, d.prec - |t|) + t;
    if d.f.alt && d.c == 111 && (p == [] || p[0] != 48) then [48] + p else p
  }

  function StdField(width: int, left: bool, zero: bool, sign: seq<nat>, mark: seq<nat>, digits: seq<nat>): seq<nat> {
    var k := width - |digits| - |mark| - |sign|;
    if left then sign + mark + digits + Rep(32, k)
    else if zero then sign + mark + Rep(48, k) + digits
    else Rep(32, k) + sign + mark + digits
  }

  function StdRendered(d: Directive, x: Arg): seq<nat> {
    var u := Printed(d, AsInt(x));
    StdField(d.width, d.f.left, ZeroPads(d, x), SignOf(d, x), Mark(d, u), StdDigits(d, u))
  }

  /** When the program's order and buffer make no difference. */
  predicate Conforms(d: Directive, x: Arg, beyond: nat) {
    var u := Printed(d, AsInt(x));
    var n := |Plain(d, u)|;
    && d.prec <= ROOM
    && !(d.f.alt && d.c == 111 && d.prec == 0 && u == 0 && beyond == 48)
    && (Mark(d, u) != [] ==> d.prec <= n && !(ZeroPads(d, x) && !d.f.left && d.width > n + 2 + |SignOf(d, x)|))
  }

  // ---------- same bodies ----------

  lemma UnmarkedBody(d: Directive, u: nat, beyond: nat)
    requires u < TWO64 && IsStandard(d.c) && Mark(d, u) == [] && d.prec <= ROOM
    requires !(d.f.alt && d.c == 111 && d.prec == 0 && u == 0 && beyond == 48)
    ensures IntBody(d, u, beyond) == StdDigits(d, u)
  {
    MarkedLength(d, u, beyond);
    var t := Plain(d, u);
    PlainEmpty(d, u);
    hide Plain;
    if d.f.alt && d.c == 111 && (t == [] || t[0] != 48) {
      var z := d.prec - |t|;
      if z > 0 {
        assert Rep(48, z) + t == Rep(48, z - 1) + ([48] + t);
      } else {
        assert Rep(48, z) + t == t;
        assert Rep(48, z - 1) + ([48] + t) == [48] + t;
      }
    }
  }

  lemma PlainEmpty(d: Directive, u: nat)
    requires IsStandard(d.c)
    ensures Plain(d, u) == [] <==> d.prec == 0 && u == 0
    ensures u > 0 ==> Plain(d, u)[0] != 48
  {
    TextReads(u, Base(d.c), d.c == 88);
  }

  lemma MarkedBody(d: Directive, u: nat, beyond: nat)
    requires u < TWO64 && IsStandard(d.c) && Mark(d, u) != [] && d.prec <= |Plain(d, u)|
    ensures IntBody(d, u, beyond) == Mark(d, u) + Plain(d, u) && StdDigits(d, u) == Plain(d, u)
  {
  }

  lemma FieldWithMark(width: int, left: bool, zero: bool, sign: seq<nat>, mark: seq<nat>, digits: seq<nat>)
    requires mark == [] || left || !zero || width <= |digits| + |mark| + |sign|
    ensures Field(width, left, zero, sign, mark + digits) == StdField(width, left, zero, sign, mark, digits)
  {
  }

  // ---------- different texts ----------

  /** What stands behind the first `x` is determined. */
  lemma BehindMark(a: seq<nat>, b: seq<nat>, c: seq<nat>, d: seq<nat>, x: nat)
    requires x !in a && x !in c && a + [x] + b == c + [x] + d
    ensures b == d
  {
    var s := a + [x] + b;
    assert s[|a|] == x && s[|c|] == x;
    forall j | 0 <= j < |c| ensures s[j] != x {
      assert s[j] == c[j];
    }
    forall j | 0 <= j < |a| ensures s[j] != x {
      assert s[j] == a[j];
    }
    assert |a| == |c|;
    assert s[|a| + 1..] == b && s[|c| + 1..] == d;
  }

  /** The program's field behind its `x`: the digits at once. */
  lemma CodeBehind(d: Directive, x: Arg, beyond: nat) returns (a: seq<nat>, b: seq<nat>)
    requires IsStandard(d.c) && Mark(d, Printed(d, AsInt(x))) != []
    ensures Rendered(d, x, beyond) == a + [d.c] + b && d.c !in a
    ensures b != [] && b[0] != 48
  {
    hide Plain, SignOf, Printed, TextOf;
    var u := Printed(d, AsInt(x));
    var t, sign := Plain(d, u), SignOf(d, x);
    PlainEmpty(d, u);
    NoMarkInSign(d, x);
    var z := Rep(48, (if d.prec < ROOM then d.prec else ROOM) - |t| - 2);
    var body := IntBody(d, u, beyond);
    assert Marked(d, u, beyond) == [48, d.c] + t;
    AssocBody(z, [48, d.c], t);
    assert body == z + [48, d.c] + t;
    var k := d.width - |body| - |sign|;
    var lead := if d.f.left then sign else if ZeroPads(d, x) then sign + Rep(48, k) else Rep(32, k) + sign;
    var trail := if d.f.left then Rep(32, k) else [];
    a, b := lead + z + [48], t + trail;
    hide IntBody, Rep;
    assert Rendered(d, x, beyond) == lead + body + trail by {
      NoTrail(lead + body);
    }
    Pieces(lead, z, d.c, t, trail);
  }

  lemma NoMarkInSign(d: Directive, x: Arg)
    requires IsStandard(d.c) && d.c > 48
    ensures d.c !in SignOf(d, x)
  {
  }

  lemma AssocBody(z: seq<nat>, m: seq<nat>, t: seq<nat>)
    ensures z + (m + t) == z + m + t
  {
  }

  lemma NoTrail(s: seq<nat>)
    ensures s + [] == s
  {
  }

  lemma Pieces(lead: seq<nat>, z: seq<nat>, x: nat, t: seq<nat>, trail: seq<nat>)
    ensures lead + (z + [48, x] + t) + trail == lead + z + [48] + [x] + (t + trail)
  {
  }

  /** The standard's field behind its `x`: zeros first. */
  lemma StdBehind(d: Directive, x: Arg) returns (a: seq<nat>, b: seq<nat>)
    requires IsStandard(d.c) && Mark(d, Printed(d, AsInt(x))) != []
    requires var u := Printed(d, AsInt(x)); var n := |Plain(d, u)|;
      d.prec > n || (ZeroPads(d, x) && !d.f.left && d.width > n + 2 + |SignOf(d, x)|)
    ensures StdRendered(d, x) == a + [d.c] + b && d.c !in a
    ensures b != [] && b[0] == 48
  {
    hide Plain, SignOf, Printed, TextOf;
    var u := Printed(d, AsInt(x));
    var t, sign := Plain(d, u), SignOf(d, x);
    NoMarkInSign(d, x);
    var digits := StdDigits(d, u);
    var z := Rep(48, d.prec - |t|);
    assert digits == z + t;
    var k := d.width - |digits| - 2 - |sign|;
    var zero := !d.f.left && ZeroPads(d, x);
    var lead := if d.f.left || zero then sign else Rep(32, k) + sign;
    var mid := if zero then Rep(48, k) else [];
    var trail := if d.f.left then Rep(32, k) else [];
    a, b := lead + [48], mid + digits + trail;
    hide StdDigits;
    StdPieces(lead, d.c, mid, digits, trail);
    assert lead + [48, d.c] + [] == lead + [48, d.c];
    NoTrail(lead + [48, d.c] + mid + digits);
  }

  lemma StdPieces(lead: seq<nat>, x: nat, mid: seq<nat>, digits: seq<nat>, trail: seq<nat>)
    ensures lead + [48, x] + mid + digits + trail == lead + [48] + [x] + (mid + digits + trail)
  {
  }

  /** Neither a space nor a sign. */
  predicate Solid(t: seq<nat>) {
    forall i: nat :: i < |t| ==> t[i] != 32 && t[i] != 43 && t[i] != 45
  }

  lemma PlainSolid(d: Directive, u: nat)
    requires IsStandard(d.c)
    ensures Solid(StdDigits(d, u))
  {
    TextReads(u, Base(d.c), d.c == 88);
    var t := TextOf(u, Base(d.c), d.c == 88);
    forall i: nat | i < |t| ensures t[i] != 32 && t[i] != 43 && t[i] != 45 {
      assert IsDigit(t[i], Base(d.c));
    }
    assert Solid(Plain(d, u));
    hide Plain, TextOf, IsDigit, NumVal;
  }

  /** Fields of a body that fills the scratch buffer and of a longer one differ. */
  lemma LongerDiffers(width: int, left: bool, sign: seq<nat>, b: seq<nat>, c: seq<nat>)
    requires |b| < |c| && Solid(c) && |sign| <= 1 && (sign == [] || sign[0] == 32 || sign[0] == 43 || sign[0] == 45)
    ensures Field(width, left, false, sign, b) != Field(width, left, false, sign, c)
  {
    var f, g := Field(width, left, false, sign, b), Field(width, left, false, sign, c);
    if left {
      var i := |sign| + |b|;
      assert g[i] == c[|b|];
      forall j | |sign| + |b| <= j < |f| ensures f[j] == 32 {
        assert f[j] == Rep(32, width - |b| - |sign|)[j - (|sign| + |b|)];
      }
      Apart(f, g, i);
    } else {
      var i := |g| - |b| - 1;
      assert g[i] == c[|c| - |b| - 1];
      LeftPart(width, sign, b);
      Apart(f, g, i);
    }
  }

  lemma Apart(f: seq<nat>, g: seq<nat>, i: nat)
    requires i < |g| && (|f| == |g| ==> f[i] != g[i])
    ensures f != g
  {
  }

  lemma LeftPart(width: int, sign: seq<nat>, b: seq<nat>)
    requires |sign| <= 1 && (sign == [] || sign[0] == 32 || sign[0] == 43 || sign[0] == 45)
    ensures var f := Field(width, false, false, sign, b);
      forall j :: 0 <= j < |f| - |b| ==> f[j] == 32 || f[j] == 43 || f[j] == 45
  {
  }

  lemma EmptyOctal(d: Directive)
    requires d.f.alt && d.c == 111 && d.prec == 0
    ensures IntBody(d, 0, 48) == [] && StdDigits(d, 0) == [48] && Mark(d, 0) == []
  {
  }

  /** A null octal without digits prints nothing where the byte behind the buffer is a zero digit. */
  lemma StrayByte(d: Directive, x: Arg)
    requires d.f.alt && d.c == 111 && d.prec == 0 && Printed(d, AsInt(x)) == 0
    ensures Rendered(d, x, 48) != StdRendered(d, x)
  {
    hide IntBody, StdDigits, Field, StdField, Printed, Mark;
    EmptyOctal(d);
    FieldWithMark(d.width, d.f.left, false, [], [], [48]);
    assert [] + [48] == [48];
    LongerDiffers(d.width, d.f.left, [], [], [48]);
  }

  /** The integer conversions print what the standard says exactly when `Conforms` holds. */
  lemma IntegersConform(d: Directive, x: Arg, beyond: nat)
    requires IsStandard(d.c)
    ensures Rendered(d, x, beyond) == StdRendered(d, x) <==> Conforms(d, x, beyond)
  {
    var u := Printed(d, AsInt(x));
    if Mark(d, u) != [] {
      MarkedConforms(d, x, beyond);
    } else {
      UnmarkedConforms(d, x, beyond);
    }
  }

  lemma MarkedConforms(d: Directive, x: Arg, beyond: nat)
    requires IsStandard(d.c) && Mark(d, Printed(d, AsInt(x))) != []
    ensures Rendered(d, x, beyond) == StdRendered(d, x) <==> Conforms(d, x, beyond)
  {
    var u := Printed(d, AsInt(x));
    MarkedLength(d, u, beyond);
    var n := |Plain(d, u)|;
    if d.prec > n || (ZeroPads(d, x) && !d.f.left && d.width > n + 2 + |SignOf(d, x)|) {
      var a, b := CodeBehind(d, x, beyond);
      var c, e := StdBehind(d, x);
      hide Rendered, StdRendered, Plain, Printed, SignOf;
      if a + [d.c] + b == c + [d.c] + e {
        BehindMark(a, b, c, e, d.c);
      }
    } else {
      MarkedBody(d, u, beyond);
      FieldWithMark(d.width, d.f.left, ZeroPads(d, x), SignOf(d, x), Mark(d, u), Plain(d, u));
      hide IntBody, StdDigits, Plain, Field, StdField, SignOf;
    }
  }

  lemma UnmarkedConforms(d: Directive, x: Arg, beyond: nat)
    requires IsStandard(d.c) && Mark(d, Printed(d, AsInt(x))) == []
    ensures Rendered(d, x, beyond) == StdRendered(d, x) <==> Conforms(d, x, beyond)
  {
    hide Plain, SignOf, Printed, TextOf, IntBody, StdDigits, Field, StdField;
    var u := Printed(d, AsInt(x));
    var sign, zero, digits := SignOf(d, x), ZeroPads(d, x), StdDigits(d, u);
    FieldWithMark(d.width, d.f.left, zero, sign, [], digits);
    assert [] + digits == digits;
    if d.prec > ROOM {
      LongPrecision(d, u, beyond);
      PlainSolid(d, u);
      SignChars(d, x);
      LongerDiffers(d.width, d.f.left, sign, IntBody(d, u, beyond), digits);
    } else if d.f.alt && d.c == 111 && d.prec == 0 && u == 0 && beyond == 48 {
      StrayByte(d, x);
    } else {
      UnmarkedBody(d, u, beyond);
    }
  }

  lemma LongPrecision(d: Directive, u: nat, beyond: nat)
    requires u < TWO64 && d.prec > ROOM
    ensures |IntBody(d, u, beyond)| <= 23 < |StdDigits(d, u)|
  {
    MarkedLength(d, u, beyond);
    hide Plain, Marked;
  }

  lemma SignChars(d: Directive, x: Arg)
    ensures var s := SignOf(d, x); |s| <= 1 && (s == [] || s[0] == 32 || s[0] == 43 || s[0] == 45)
  {
  }

  /** `%#08x` of 255: 00000xff where the standard has 0x0000ff. */
  lemma ZerosBeforeMark(beyond: nat)
    ensures var d := Directive(Flags(false, true, false, false, true), 8, -1, 0, false, 120);
      && Rendered(d, Int(255), beyond) == [48, 48, 48, 48, 48, 120, 102, 102]
      && StdRendered(d, Int(255)) == [48, 120, 48, 48, 48, 48, 102, 102]
  {
    var d := Directive(Flags(false, true, false, false, true), 8, -1, 0, false, 120);
    HexOf255(d, beyond);
    hide IntBody, StdDigits, Printed, Rep;
    FourZeros();
  }

  lemma HexOf255(d: Directive, beyond: nat)
    requires d == Directive(Flags(false, true, false, false, true), 8, -1, 0, false, 120)
    ensures Printed(d, 255) == 255 && Mark(d, 255) == [48, 120]
    ensures IntBody(d, 255, beyond) == [48, 120, 102, 102] && StdDigits(d, 255) == [102, 102]
  {
    assert TextOf(255, 16, false) == [102, 102];
    hide TextOf, Rep;
  }

  lemma FourZeros()
    ensures Rep(48, 4) == [48, 48, 48, 48]
  {
  }
}
