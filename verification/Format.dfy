/**
 The run-time formatter `_u_vfmt` into a buffer: directives are parsed, rendered and put one
 character at a time through a sink that stops short of the capacity.  What is rendered does not
 depend on the capacity, so bounded formatting is a prefix of unbounded formatting.
 The bodies of the floating conversions are arguments here; module Ffmt is about them.
 (Section 7.19.6.1 of ISO/IEC 9899:1999.)
 */
module Format {
  import opened Arith
  import opened CString
  import opened IntText
  import opened Directives

  // ---------- rendering ----------

  function Rep(c: nat, n: int): (r: seq<nat>)
    ensures |r| == if n < 0 then 0 else n
    ensures forall i :: 0 <= i < |r| ==> r[i] == c
  {
    seq<nat>(if n < 0 then 0 else n, i => c)
  }

  predicate IsFloat(c: nat) {
    c == 102 || c == 70 || c == 101 || c == 69 || c == 103 || c == 71 || c == 97 || c == 65
  }

  predicate IsSigned(c: nat) {
    c == 100 || c == 105
  }

  /** Conversion to a signed type of modulus `m`. */
  function Narrow(v: int, m: nat): int
    requires m > 0
  {
    (v + m / 2) % m - m / 2
  }

  function SignedValue(d: Directive, v: int): int {
    if d.hh == 2 then Narrow(v, 256) else if d.hh == 1 then Narrow(v, 65536)
    else if !d.lng then Narrow(v, TWO32) else Narrow(v, TWO64)
  }

  function UnsignedValue(d: Directive, v: int): nat {
    if d.hh == 2 then v % 256 else if d.hh == 1 then v % 65536
    else if !d.lng && (d.c == 117 || d.c == 120 || d.c == 88 || d.c == 111) then v % TWO32 else v % TWO64
  }

  /** The magnitude an integer directive prints. */
  function Printed(d: Directive, v: int): (u: nat)
    ensures u < TWO64
  {
    if IsSigned(d.c) then Abs(SignedValue(d, v)) else UnsignedValue(d, v)
  }

  function Base(c: nat): nat {
    if c == 120 || c == 88 || c == 112 then 16 else if c == 111 then 8 else 10
  }

  function Plain(d: Directive, u: nat): seq<nat> {
    if d.prec == 0 && u == 0 && d.c != 112 then [] else TextOf(u, Base(d.c), d.c == 88)
  }

  /** The digits with their mark: 0x for addresses and `#x`, a leading zero for `#o`.  `beyond` is the
      byte behind the scratch buffer, which is looked at when there are no digits. */
  function Marked(d: Directive, u: nat, beyond: nat): seq<nat> {
    var t := Plain(d, u);
    if d.c == 112 then [48, 120] + t
    else if !d.f.alt then t
    else if d.c == 111 then (if (if t == [] then beyond else t[0]) != 48 then [48] + t else t)
    else if (d.c == 120 || d.c == 88) && u != 0 then [48, d.c] + t
    else t
  }

  const ROOM: int := 23

  /** The body of an integer directive as the program builds it: zeros up to the precision in front
      of everything, as far as the scratch buffer goes. */
  function IntBody(d: Directive, u: nat, beyond: nat): seq<nat> {
    var t := Marked(d, u, beyond);
    Rep(48, (if d.prec < ROOM then d.prec else ROOM) - |t|) + t
  }

  function Body(d: Directive, x: Arg, beyond: nat): seq<nat> {
    if IsFloat(d.c) then (if x.Float? then x.body else [])
    else if d.c == 115 then
      var s := if x.Str? then x.s else if x.Null? then [40, 110, 117, 108, 108, 41] else [];
      if 0 <= d.prec < |s| then s[..d.prec] else s
    else if d.c == 99 then [AsInt(x) % 256]
    else IntBody(d, Printed(d, AsInt(x)), beyond)
  }

  predicate IsInteger(c: nat) {
    !IsFloat(c) && c != 115 && c != 99
  }

  /** The sign character, or none. */
  function SignOf(d: Directive, x: Arg): (s: seq<nat>)
    ensures |s| <= 1
  {
    if !IsFloat(d.c) && !IsSigned(d.c) then []
    else if (if IsFloat(d.c) then x.Float? && x.neg else SignedValue(d, AsInt(x)) < 0) then [45]
    else if d.f.plus then [43]
    else if d.f.space then [32]
    else []
  }

  /** Does the 0 flag hold?  Not with a precision on integers, not for infinities and NaNs. */
  predicate ZeroPads(d: Directive, x: Arg) {
    d.f.zero && !(IsInteger(d.c) && d.prec >= 0) && !(IsFloat(d.c) && x.Float? && x.special)
  }

  /** A field: padded on the left with spaces, or with zeros behind the sign, or on the right. */
  function Field(width: int, left: bool, zero: bool, sign: seq<nat>, body: seq<nat>): seq<nat> {
    var k := width - |body| - |sign|;
    if left then sign + body + Rep(32, k)
    else if zero then sign + Rep(48, k) + body
    else Rep(32, k) + sign + body
  }

  function Rendered(d: Directive, x: Arg, beyond: nat): seq<nat> {
    if d.c == 37 then [37]
    else if d.c == 110 then []
    else Field(d.width, d.f.left, ZeroPads(d, x), SignOf(d, x), Body(d, x, beyond))
  }

  /** The whole output from `i` on. */
  function Output(fmt: seq<nat>, i: nat, args: seq<Arg>, a: nat, win: bool, beyond: nat): seq<nat>
    decreases |fmt| - i
  {
    if At(fmt, i) == 0 then []
    else if At(fmt, i) != 37 then [At(fmt, i)] + Output(fmt, i + 1, args, a, win, beyond)
    else
      var (d, j, b) := DirectiveFrom(fmt, i + 1, args, a, win);
      Rendered(d, ArgAt(args, b), beyond)
      + Output(fmt, j, args, if d.c == 37 then b else b + 1, win, beyond)
  }

  // ---------- the sink ----------

  /** The buffer after `text` went through the sink: never past the capacity less one. */
  ghost predicate Shown(m: seq<nat>, before: seq<nat>, cap: int, text: seq<nat>) {
    && |m| == |before|
    && forall i: nat {:trigger m[i]} :: i < |m| ==> m[i] == if i < |text| && (cap < 0 || i < cap - 1) then text[i] else before[i]
  }

  /** What the caller finds: the text, or as much of it as fits, with a terminator; with capacity 0
      the buffer as it was. */
  function Delivered(before: seq<nat>, cap: int, text: seq<nat>): seq<nat>
    requires cap <= |before| && (cap < 0 ==> |text| < |before|)
  {
    if cap == 0 then before
    else
      var n := if cap < 0 || |text| < cap then |text| else cap - 1;
      text[..n] + [0] + before[n + 1..]
  }

  /** Is there room for what may be written? */
  predicate Room(out: array<nat>, cap: int, n: nat) {
    cap <= out.Length && (cap < 0 ==> n < out.Length)
  }

  /** `_u_put` on a buffer. */
  method Put(out: array<nat>, cap: int, n: nat, c: nat, ghost before: seq<nat>, ghost text: seq<nat>) returns (m: nat)
    requires Room(out, cap, n) && n == |text| && Shown(out[..], before, cap, text)
    modifies out
    ensures m == n + 1 && Shown(out[..], before, cap, text + [c])
  {
    if cap < 0 || n < cap - 1 {
      out[n] := c;
    }
    m := n + 1;
  }

  /** A padding loop. */
  method PutMany(out: array<nat>, cap: int, n: nat, c: nat, k0: int, ghost before: seq<nat>, ghost text: seq<nat>)
    returns (m: nat)
    requires Room(out, cap, n + |Rep(c, k0)|) && n == |text| && Shown(out[..], before, cap, text)
    modifies out
    ensures m == n + |Rep(c, k0)| && Shown(out[..], before, cap, text + Rep(c, k0))
  {
    hide Shown;
    m := n;
    var k := k0;
    assert text + Rep(c, 0) == text;
    while k > 0
      invariant k <= k0 && (if k0 >= 0 then k >= 0 else k == k0) && m == n + |Rep(c, k0 - k)|
      invariant Shown(out[..], before, cap, text + Rep(c, k0 - k))
    {
      ghost var t := text + Rep(c, k0 - k);
      m := Put(out, cap, m, c, before, t);
      assert t + [c] == text + Rep(c, k0 - k + 1);
      k := k - 1;
    }
    assert Rep(c, k0 - k) == Rep(c, k0);
  }

  /** The loop over a body. */
  method PutBody(out: array<nat>, cap: int, n: nat, body: seq<nat>, ghost before: seq<nat>, ghost text: seq<nat>)
    returns (m: nat)
    requires Room(out, cap, n + |body|) && n == |text| && Shown(out[..], before, cap, text)
    modifies out
    ensures m == n + |body| && Shown(out[..], before, cap, text + body)
  {
    hide Shown;
    m := n;
    var j := 0;
    assert text + body[..0] == text;
    while j < |body|
      invariant j <= |body| && m == n + j && Shown(out[..], before, cap, text + body[..j])
    {
      m := Put(out, cap, m, body[j], before, text + body[..j]);
      assert text + body[..j] + [body[j]] == text + body[..j + 1];
      j := j + 1;
    }
    assert body[..j] == body;
  }

  /** The field: padding, sign, zeros, body, padding. */
  method PutField(out: array<nat>, cap: int, n: nat, width: int, left: bool, zero: bool, sign: seq<nat>, body: seq<nat>,
                  ghost before: seq<nat>, ghost text: seq<nat>) returns (m: nat)
    requires |sign| <= 1 && Room(out, cap, n + |Field(width, left, zero, sign, body)|)
    requires n == |text| && Shown(out[..], before, cap, text)
    modifies out
    ensures m == n + |Field(width, left, zero, sign, body)|
    ensures Shown(out[..], before, cap, text + Field(width, left, zero, sign, body))
  {
    hide Shown, Rep, Field;
    var k := width - |body|;
    if sign != [] {
      k := k - 1;
    }
    ghost var lead := if !left && !zero then Rep(32, k) else [];
    ghost var mid := if !left && zero then Rep(48, k) else [];
    ghost var trail := if left then Rep(32, k) else [];
    FieldIs(width, left, zero, sign, body, text);
    m := n;
    if !left && !zero {
      m := PutMany(out, cap, m, 32, k, before, text);
    }
    ghost var t := text + lead;
    if sign != [] {
      m := Put(out, cap, m, sign[0], before, t);
      assert [sign[0]] == sign;
    }
    t := t + sign;
    if !left && zero {
      m := PutMany(out, cap, m, 48, k, before, t);
    }
    t := t + mid;
    m := PutBody(out, cap, m, body, before, t);
    t := t + body;
    if left {
      m := PutMany(out, cap, m, 32, k, before, t);
    }
  }

  /** A field is five pieces, of which some are empty; and empty pieces change nothing. */
  lemma FieldIs(width: int, left: bool, zero: bool, sign: seq<nat>, body: seq<nat>, text: seq<nat>)
    requires |sign| <= 1
    ensures var k := width - |body| - |sign|;
      var lead := if !left && !zero then Rep(32, k) else [];
      var mid := if !left && zero then Rep(48, k) else [];
      var trail := if left then Rep(32, k) else [];
      && text + Field(width, left, zero, sign, body) == text + lead + sign + mid + body + trail
      && |Field(width, left, zero, sign, body)| == |lead| + |sign| + |mid| + |body| + |trail|
    ensures forall t: seq<nat> :: t + [] == t
  {
    hide Rep;
    var k := width - |body| - |sign|;
    var lead := if !left && !zero then Rep(32, k) else [];
    var mid := if !left && zero then Rep(48, k) else [];
    var trail := if left then Rep(32, k) else [];
    FivePieces(text, lead, sign, mid, body, trail);
    assert Field(width, left, zero, sign, body) == lead + sign + mid + body + trail;
  }

  lemma FivePieces(t: seq<nat>, a: seq<nat>, b: seq<nat>, c: seq<nat>, d: seq<nat>, e: seq<nat>)
    ensures t + (a + b + c + d + e) == t + a + b + c + d + e
  {
  }

  // ---------- the body of an integer ----------

  lemma PlainLength(d: Directive, u: nat)
    requires u < TWO64
    ensures |Plain(d, u)| <= 22 && (Base(d.c) == 16 ==> |Plain(d, u)| <= 16)
  {
    hide Pow;
    var base := Base(d.c);
    SixtyFourBits(base);
    TextLength(u, base, d.c == 88, 22);
    if base == 16 {
      SixteenDigits();
      TextLength(u, 16, d.c == 88, 16);
    }
  }

  lemma {:induction false} SixteenDigits()
    ensures Pow(16, 16) == TWO64
  {
    hide Pow;
    Pow2Consts();
    PowAdd(2, 32, 32);
    PowPow(2, 4, 16);
    PowFour();
  }

  lemma PowFour()
    ensures Pow(2, 4) == 16
  {
  }

  lemma MarkedLength(d: Directive, u: nat, beyond: nat)
    requires u < TWO64
    ensures |Marked(d, u, beyond)| <= 23 && |Plain(d, u)| <= 22
    ensures Base(d.c) == 16 ==> |Plain(d, u)| <= 16
  {
    PlainLength(d, u);
    hide Plain;
  }

  /** The scratch buffer work of an integer conversion. */
  method MakeBody(d: Directive, u: nat, beyond: nat) returns (buf: array<nat>, start: nat)
    requires u < TWO64
    ensures fresh(buf) && buf.Length == 24 && start <= 24 && buf[start..] == IntBody(d, u, beyond)
  {
    MarkedLength(d, u, beyond);
    hide TextOf, IntBody, Rep;
    buf := new nat[24];
    start := Digits(buf, u, Base(d.c), d.c == 88);
    if d.prec == 0 && u == 0 && d.c != 112 {
      start := 24;
    }
    assert buf[start..] == Plain(d, u);
    ghost var t := Plain(d, u);
    if d.c == 112 {
      start := Prepend2(buf, start, 48, 120);
    }
    if d.f.alt {
      if d.c == 111 {
        if (if start < 24 then buf[start] else beyond) != 48 {
          start := start - 1;
          buf[start] := 48;
          assert buf[start..] == [48] + t;
        }
      } else if (d.c == 120 || d.c == 88) && u != 0 {
        start := Prepend2(buf, start, 48, if d.c == 88 then 88 else 120);
      }
    }
    assert buf[start..] == Marked(d, u, beyond);
    start := PrependZeros(buf, start, d, u, beyond);
  }

  method Prepend2(buf: array<nat>, s0: nat, x: nat, y: nat) returns (start: nat)
    requires buf.Length == 24 && 2 <= s0 <= 24
    modifies buf
    ensures start == s0 - 2 && buf[start..] == [x, y] + old(buf[s0..])
  {
    start := s0 - 2;
    buf[start] := x;
    buf[start + 1] := y;
  }

  /** Zeros up to the precision, while there is room. */
  method PrependZeros(buf: array<nat>, s0: nat, d: Directive, u: nat, beyond: nat) returns (start: nat)
    requires buf.Length == 24 && 1 <= s0 <= 24 && buf[s0..] == Marked(d, u, beyond)
    modifies buf
    ensures start <= 24 && buf[start..] == IntBody(d, u, beyond)
  {
    hide Marked, IntBody, Rep;
    start := s0;
    ghost var t := Marked(d, u, beyond);
    NoZeros(t);
    while 24 - start < d.prec
      invariant 1 <= start <= s0 && buf[start..] == Rep(48, s0 - start) + t
      invariant start < s0 ==> 24 - start <= d.prec
      decreases start
    {
      if start <= 1 {
        break;
      }
      ghost var was := buf[start..];
      start := start - 1;
      buf[start] := 48;
      assert buf[start..] == [48] + was;
      OneMore(s0 - start - 1, t);
    }
    BodyZeros(d, u, beyond, s0 - start);
  }

  lemma NoZeros(t: seq<nat>)
    ensures Rep(48, 0) + t == t
  {
  }

  lemma OneMore(z: nat, t: seq<nat>)
    ensures Rep(48, z + 1) + t == [48] + (Rep(48, z) + t)
  {
  }

  lemma BodyZeros(d: Directive, u: nat, beyond: nat, z: nat)
    requires var k := |Marked(d, u, beyond)|;
      if z == 0 then k >= d.prec || k >= 23 else k + z <= d.prec && (k + z == d.prec || k + z == 23) && k + z <= 23
    ensures IntBody(d, u, beyond) == Rep(48, z) + Marked(d, u, beyond)
  {
    hide Marked;
    assert Rep(48, (if d.prec < ROOM then d.prec else ROOM) - |Marked(d, u, beyond)|) == Rep(48, z);
  }

  // ---------- the whole formatter ----------

  /** A conversion: its body, its sign, its field. */
  method Convert(out: array<nat>, cap: int, n: nat, d: Directive, x: Arg, beyond: nat,
                 ghost before: seq<nat>, ghost text: seq<nat>) returns (m: nat)
    requires d.c != 37 && d.c != 110 && Room(out, cap, n + |Rendered(d, x, beyond)|)
    requires n == |text| && Shown(out[..], before, cap, text)
    modifies out
    ensures m == n + |Rendered(d, x, beyond)| && Shown(out[..], before, cap, text + Rendered(d, x, beyond))
  {
    hide Shown, Field, IntBody, Narrow;
    var body: seq<nat>;
    var neg := false;
    var zero := d.f.zero;
    if IsFloat(d.c) {
      body := if x.Float? then x.body else [];
      neg := x.Float? && x.neg;
      if x.Float? && x.special {
        zero := false;
      }
    } else if d.c == 115 {
      var s := if x.Str? then x.s else if x.Null? then [40, 110, 117, 108, 108, 41] else [];
      var len: nat := |s|;
      if d.prec >= 0 {
        if d.prec < len {
          len := d.prec;
        }
      }
      body := s[..len];
    } else if d.c == 99 {
      body := [AsInt(x) % 256];
    } else {
      var u: nat;
      if IsSigned(d.c) {
        var sv := SignedValue(d, AsInt(x));
        u := Abs(sv);
        neg := sv < 0;
      } else {
        u := UnsignedValue(d, AsInt(x));
      }
      var buf, start := MakeBody(d, u, beyond);
      body := buf[start..];
      if d.prec >= 0 {
        zero := false;
      }
    }
    var sc: seq<nat> := [];
    if IsSigned(d.c) || IsFloat(d.c) {
      if neg {
        sc := [45];
      } else if d.f.plus {
        sc := [43];
      } else if d.f.space {
        sc := [32];
      }
    }
    assert body == Body(d, x, beyond) && sc == SignOf(d, x) && zero == ZeroPads(d, x);
    m := PutField(out, cap, n, d.width, d.f.left, zero, sc, body, before, text);
  }

  /** `_u_vfmt` into a buffer: it returns the length of the whole text, and leaves the text, or what
      the capacity admits of it, terminated. */
  method VFmt(out: array<nat>, cap: int, fmt: seq<nat>, args: seq<Arg>, win: bool, beyond: nat) returns (n: nat)
    requires Room(out, cap, |Output(fmt, 0, args, 0, win, beyond)|)
    modifies out
    ensures n == |Output(fmt, 0, args, 0, win, beyond)|
    ensures out[..] == Delivered(old(out[..]), cap, Output(fmt, 0, args, 0, win, beyond))
  {
    hide Shown, Rendered, DirectiveFrom, Meaning, Spelled, SpellingAt, Stars;
    ghost var before := out[..];
    ghost var whole := Output(fmt, 0, args, 0, win, beyond);
    ghost var text: seq<nat> := [];
    NothingShown(before, cap);
    n := 0;
    var i: nat, a: nat := 0, 0;
    assert [] + whole == whole;
    while At(fmt, i) != 0
      invariant n == |text| && Shown(out[..], before, cap, text) && text + Output(fmt, i, args, a, win, beyond) == whole
      decreases |fmt| - i
    {
      var c := At(fmt, i);
      if c != 37 {
        Split(text, [c], Output(fmt, i + 1, args, a, win, beyond));
        n := Put(out, cap, n, c, before, text);
        text := text + [c];
        i := i + 1;
      } else {
        var d, j, b := ReadDirective(fmt, i + 1, args, a, win);
        var x := ArgAt(args, b);
        ghost var piece := Rendered(d, x, beyond);
        Split(text, piece, Output(fmt, j, args, if d.c == 37 then b else b + 1, win, beyond));
        RenderedSpecial(d, x, beyond);
        if d.c == 37 {
          n := Put(out, cap, n, 37, before, text);
        } else if d.c != 110 {
          n := Convert(out, cap, n, d, x, beyond, before, text);
        }
        assert piece == [] ==> text + piece == text;
        text := text + piece;
        i := j;
        a := if d.c == 37 then b else b + 1;
      }
    }
    assert text + [] == text;
    Terminated(out[..], before, cap, whole);
    if cap != 0 {
      if cap < 0 || n < cap {
        out[n] := 0;
      } else {
        out[cap - 1] := 0;
      }
    }
  }

  lemma NothingShown(before: seq<nat>, cap: int)
    ensures Shown(before, before, cap, [])
  {
  }

  lemma Split(text: seq<nat>, piece: seq<nat>, rest: seq<nat>)
    ensures text + (piece + rest) == text + piece + rest
  {
  }

  lemma RenderedSpecial(d: Directive, x: Arg, beyond: nat)
    ensures d.c == 37 ==> Rendered(d, x, beyond) == [37]
    ensures d.c == 110 ==> Rendered(d, x, beyond) == []
  {
  }

  /** The terminator makes what was shown what the caller finds. */
  lemma Terminated(m: seq<nat>, before: seq<nat>, cap: int, text: seq<nat>)
    requires cap <= |before| && (cap < 0 ==> |text| < |before|) && Shown(m, before, cap, text)
    ensures Delivered(before, cap, text) ==
      if cap == 0 then m else m[(if cap < 0 || |text| < cap then |text| else cap - 1) := 0]
  {
  }
}
