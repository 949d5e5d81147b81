/**
 The directives of a printf format: the parsing loops of `_u_vfmt`, and the grammar they read.
 (Section 7.19.6.1 of ISO/IEC 9899:1999.)
 */
module Directives {
  import opened Arith
  import opened CString
  import opened IntText

  /** A variadic argument: an integer, a string (or a null pointer), or a double with the text
      `_u_ffmt` makes of its magnitude. */
  datatype Arg = Int(v: int) | Str(s: seq<nat>) | Null | Float(neg: bool, special: bool, body: seq<nat>)

  /** Reading past the arguments, or one of another kind, is undefined in C; here it gives zero. */
  function ArgAt(args: seq<Arg>, a: nat): Arg {
    if a < |args| then args[a] else Int(0)
  }

  function AsInt(x: Arg): int {
    if x.Int? then x.v else 0
  }

  datatype Flags = Flags(left: bool, zero: bool, plus: bool, space: bool, alt: bool)

  datatype Directive = Directive(f: Flags, width: int, prec: int, hh: nat, lng: bool, c: nat)

  // ---------- parsing ----------

  predicate IsFlag(c: nat) {
    c == 45 || c == 48 || c == 43 || c == 32 || c == 35
  }

  function AddFlag(f: Flags, c: nat): Flags {
    Flags(f.left || c == 45, f.zero || c == 48, f.plus || c == 43, f.space || c == 32, f.alt || c == 35)
  }

  function FlagsFrom(fmt: seq<nat>, i: nat, f: Flags): (r: (Flags, nat))
    ensures r.1 >= i && (i <= |fmt| ==> r.1 <= |fmt|)
    decreases |fmt| - i
  {
    if IsFlag(At(fmt, i)) then FlagsFrom(fmt, i + 1, AddFlag(f, At(fmt, i))) else (f, i)
  }

  function NumberFrom(fmt: seq<nat>, i: nat, w: int): (r: (int, nat))
    ensures r.1 >= i && (i <= |fmt| ==> r.1 <= |fmt|)
    decreases |fmt| - i
  {
    if 48 <= At(fmt, i) <= 57 then NumberFrom(fmt, i + 1, w * 10 + (At(fmt, i) - 48)) else (w, i)
  }

  predicate IsLength(c: nat) {
    c == 104 || c == 108 || c == 122 || c == 106 || c == 116 || c == 76
  }

  /** Length modifiers: `h` is counted; the others make it long, a lone `l` not where long has 32 bits. */
  function LengthFrom(fmt: seq<nat>, i: nat, win: bool, hh: nat, lng: nat): (r: (nat, nat, nat))
    ensures r.2 >= i && (i <= |fmt| ==> r.2 <= |fmt|)
    decreases |fmt| - i
  {
    var c := At(fmt, i);
    if !IsLength(c) then (hh, lng, i)
    else if c == 104 then LengthFrom(fmt, i + 1, win, hh + 1, lng)
    else LengthFrom(fmt, i + 1, win, hh, if !win then 1 else if c == 108 then lng + 1 else 2)
  }

  /** One directive behind its `%`: what it asks for, the place behind it, the next argument. */
  function DirectiveFrom(fmt: seq<nat>, i: nat, args: seq<Arg>, a: nat, win: bool): (r: (Directive, nat, nat))
    requires i <= |fmt|
    ensures i < r.1 <= |fmt| + 1
  {
    var (f, i1) := FlagsFrom(fmt, i, Flags(false, false, false, false, false));
    var star := At(fmt, i1) == 42;
    var w0 := if star then AsInt(ArgAt(args, a)) else 0;
    var left := f.left || w0 < 0;
    var a1 := if star then a + 1 else a;
    var (width, i2) := NumberFrom(fmt, if star then i1 + 1 else i1, Abs(w0));
    var dot := At(fmt, i2) == 46;
    var pstar := dot && At(fmt, i2 + 1) == 42;
    var p0 := if pstar then (if AsInt(ArgAt(args, a1)) < 0 then -1 else AsInt(ArgAt(args, a1))) else 0;
    var a2 := if pstar then a1 + 1 else a1;
    var (prec, i3) := if dot then NumberFrom(fmt, if pstar then i2 + 2 else i2 + 1, p0) else (-1, i2);
    var (hh, lng, i4) := LengthFrom(fmt, i3, win, 0, 0);
    (Directive(f.(left := left), width, prec, hh, if win then lng >= 2 else lng != 0, At(fmt, i4)), i4 + 1, a2)
  }

  // ---------- the grammar ----------

  /** A directive as it is written behind the `%`. */
  datatype Spelling = Spelling(flags: seq<nat>, wstar: bool, wdigits: seq<nat>, dot: bool, pstar: bool, pdigits: seq<nat>,
                               length: seq<nat>, conv: nat)

  function Star(b: bool): seq<nat> {
    if b then [42] else []
  }

  function Ending(s: Spelling): (t: seq<nat>)
    ensures |t| > 0
  {
    s.length + [s.conv]
  }

  function AfterDot(s: Spelling): (t: seq<nat>)
    ensures |t| > 0
  {
    Star(s.pstar) + (s.pdigits + Ending(s))
  }

  function AfterWidth(s: Spelling): (t: seq<nat>)
    ensures |t| > 0
  {
    if s.dot then [46] + AfterDot(s) else Ending(s)
  }

  function AfterFlags(s: Spelling): (t: seq<nat>)
    ensures |t| > 0
  {
    Star(s.wstar) + (s.wdigits + AfterWidth(s))
  }

  function Spelled(s: Spelling): (t: seq<nat>)
    ensures |t| > 0
  {
    s.flags + AfterFlags(s)
  }

  predicate IsDecimal(c: nat) {
    48 <= c <= 57
  }

  ghost predicate All(t: seq<nat>, p: nat -> bool) {
    forall k :: 0 <= k < |t| ==> p(t[k])
  }

  /** Every part consists of its own characters and is as long as it can be. */
  ghost predicate WellSpelled(s: Spelling) {
    FrontSpelled(s) && BackSpelled(s)
  }

  ghost predicate FrontSpelled(s: Spelling) {
    && All(s.flags, IsFlag) && !IsFlag(AfterFlags(s)[0]) && (AfterFlags(s)[0] == 42 ==> s.wstar)
    && All(s.wdigits, IsDecimal) && !IsDecimal(AfterWidth(s)[0]) && (AfterWidth(s)[0] == 46 ==> s.dot)
  }

  ghost predicate BackSpelled(s: Spelling) {
    && (if s.dot then AfterDot(s)[0] == 42 ==> s.pstar else !s.pstar && s.pdigits == [])
    && All(s.pdigits, IsDecimal) && !IsDecimal(Ending(s)[0])
    && All(s.length, IsLength) && !IsLength(s.conv)
  }

  /** The text stands at `i`, with the terminating zero behind the format. */
  predicate StandsAt(fmt: seq<nat>, i: nat, t: seq<nat>) {
    i + |t| <= |fmt| + 1 && (fmt + [0])[i..i + |t|] == t
  }

  // ---------- what a spelling means ----------

  /** The digits behind a number already there. */
  function Continued(w: int, t: seq<nat>): int {
    w * Pow(10, |t|) + NumVal(t, 10)
  }

  function Stars(s: Spelling): nat {
    |Star(s.wstar)| + |Star(s.pstar)|
  }

  /**
   A flag is set when its character is among the flags, or `-` by a negative width argument; width and
   precision are the numbers the digits denote, or the arguments; a negative precision counts as none.
   The value is long behind a modifier other than `h`; where long has 32 bits, behind two of them or
   one other than `l`.
   */
  function Meaning(s: Spelling, args: seq<Arg>, a: nat, win: bool): Directive {
    var w := if s.wstar then AsInt(ArgAt(args, a)) else 0;
    var p := if s.pstar then AsInt(ArgAt(args, a + |Star(s.wstar)|)) else 0;
    var m := multiset(s.length);
    Directive(
      Flags(45 in s.flags || w < 0, 48 in s.flags, 43 in s.flags, 32 in s.flags, 35 in s.flags),
      Continued(Abs(w), s.wdigits),
      if s.dot then Continued(if p < 0 then -1 else p, s.pdigits) else -1,
      m[104],
      if win then m[108] >= 2 || |s.length| > m[104] + m[108] else |s.length| > m[104],
      s.conv)
  }

  // ---------- the runs ----------

  function WithFlags(f: Flags, t: seq<nat>): Flags {
    Flags(f.left || 45 in t, f.zero || 48 in t, f.plus || 43 in t, f.space || 32 in t, f.alt || 35 in t)
  }

  lemma FlagStep(fmt: seq<nat>, i: nat, f: Flags)
    ensures FlagsFrom(fmt, i, f) ==
      if IsFlag(At(fmt, i)) then FlagsFrom(fmt, i + 1, AddFlag(f, At(fmt, i))) else (f, i)
  {
  }

  lemma MoreFlags(f: Flags, t: seq<nat>, c: nat)
    ensures WithFlags(f, t + [c]) == AddFlag(WithFlags(f, t), c)
  {
    assert forall x :: x in t + [c] <==> x in t || x == c;
  }

  /** Character `k` of a text that stands in the format. */
  lemma AtRun(fmt: seq<nat>, i: nat, t: seq<nat>, k: nat)
    requires i + |t| <= |fmt| && fmt[i..i + |t|] == t && k < |t|
    ensures At(fmt, i + k) == t[k] && t[..k + 1] == t[..k] + [t[k]]
  {
    assert fmt[i..i + |t|][k] == fmt[i + k];
  }

  lemma {:induction false} FlagRun(fmt: seq<nat>, i: nat, t: seq<nat>, f: Flags, k: nat)
    requires i + |t| <= |fmt| && fmt[i..i + |t|] == t && All(t, IsFlag) && k <= |t|
    ensures FlagsFrom(fmt, i, f) == FlagsFrom(fmt, i + k, WithFlags(f, t[..k]))
  {
    hide FlagsFrom, IsFlag, AddFlag, At;
    if k == 0 {
      assert t[..0] == [];
    } else {
      FlagRun(fmt, i, t, f, k - 1);
      AtRun(fmt, i, t, k - 1);
      MoreFlags(f, t[..k - 1], t[k - 1]);
      hide WithFlags;
      FlagStep(fmt, i + (k - 1), WithFlags(f, t[..k - 1]));
    }
  }

  lemma FlagEnd(fmt: seq<nat>, i: nat, t: seq<nat>, f: Flags)
    requires RunAt(fmt, i, t, IsFlag)
    ensures FlagsFrom(fmt, i, f) == (WithFlags(f, t), i + |t|)
  {
    hide FlagsFrom, IsFlag, At, WithFlags;
    FlagRun(fmt, i, t, f, |t|);
    assert t[..|t|] == t;
    FlagStep(fmt, i + |t|, WithFlags(f, t));
  }

  lemma NumberStep(fmt: seq<nat>, i: nat, w: int)
    ensures NumberFrom(fmt, i, w) ==
      if IsDecimal(At(fmt, i)) then NumberFrom(fmt, i + 1, w * 10 + (At(fmt, i) - 48)) else (w, i)
  {
  }

  lemma {:induction false} NumberRun(fmt: seq<nat>, i: nat, t: seq<nat>, w: int, k: nat)
    requires i + |t| <= |fmt| && fmt[i..i + |t|] == t && All(t, IsDecimal) && k <= |t|
    ensures NumberFrom(fmt, i, w) == NumberFrom(fmt, i + k, Continued(w, t[..k]))
  {
    hide NumberFrom, At;
    if k == 0 {
      assert t[..0] == [];
    } else {
      hide Continued;
      NumberRun(fmt, i, t, w, k - 1);
      AtRun(fmt, i, t, k - 1);
      Digit(w, t, k - 1);
      NumberStep(fmt, i + (k - 1), Continued(w, t[..k - 1]));
    }
  }

  lemma Digit(w: int, t: seq<nat>, k: nat)
    requires k < |t| && IsDecimal(t[k])
    ensures Continued(w, t[..k + 1]) == Continued(w, t[..k]) * 10 + (t[k] - 48)
  {
    var u := t[..k];
    assert t[..k + 1] == u + [t[k]];
    NumValSnoc(u, t[k], 10);
    assert Pow(10, k + 1) == 10 * Pow(10, k);
    var p, n := Pow(10, k), NumVal(u, 10);
    assert DigitOf(t[k]) == t[k] - 48;
    hide Pow, NumVal, DigitOf;
    MulSwap(w, p, 10);
    MulAssoc(w, 10, p);
  }

  lemma NumberEnd(fmt: seq<nat>, i: nat, t: seq<nat>, w: int)
    requires RunAt(fmt, i, t, IsDecimal)
    ensures NumberFrom(fmt, i, w) == (Continued(w, t), i + |t|)
  {
    hide NumberFrom, Continued, At;
    NumberRun(fmt, i, t, w, |t|);
    assert t[..|t|] == t;
    NumberStep(fmt, i + |t|, Continued(w, t));
  }

  /** What the length loop knows behind the modifiers `t`. */
  ghost predicate Counted(t: seq<nat>, win: bool, hh: nat, lng: nat) {
    var m := multiset(t);
    && hh == m[104]
    && (!win ==> lng == if |t| > m[104] then 1 else 0)
    && (win ==> if |t| > m[104] + m[108] then lng >= 2 else lng == m[108])
  }

  function Longer(c: nat, win: bool, lng: nat): nat {
    if c == 104 then lng else if !win then 1 else if c == 108 then lng + 1 else 2
  }

  lemma LengthStep(fmt: seq<nat>, i: nat, win: bool, hh: nat, lng: nat)
    ensures var c := At(fmt, i);
      LengthFrom(fmt, i, win, hh, lng) ==
      if IsLength(c) then LengthFrom(fmt, i + 1, win, if c == 104 then hh + 1 else hh, Longer(c, win, lng))
      else (hh, lng, i)
  {
  }

  lemma {:induction false} LengthRun(fmt: seq<nat>, i: nat, t: seq<nat>, win: bool, k: nat, hh: nat, lng: nat)
    requires i + |t| <= |fmt| && fmt[i..i + |t|] == t && All(t, IsLength) && !IsLength(At(fmt, i + |t|))
    requires k <= |t| && Counted(t[..k], win, hh, lng)
    ensures var r := LengthFrom(fmt, i + k, win, hh, lng); r.2 == i + |t| && Counted(t, win, r.0, r.1)
    decreases |t| - k
  {
    hide LengthFrom, Counted, IsLength, Longer, At;
    LengthStep(fmt, i + k, win, hh, lng);
    if k == |t| {
      assert t[..k] == t;
    } else {
      var c := t[k];
      AtRun(fmt, i, t, k);
      Modifier(t[..k], c, win, hh, lng);
      LengthRun(fmt, i, t, win, k + 1, if c == 104 then hh + 1 else hh, Longer(c, win, lng));
    }
  }

  lemma Modifier(t: seq<nat>, c: nat, win: bool, hh: nat, lng: nat)
    requires Counted(t, win, hh, lng)
    ensures Counted(t + [c], win, if c == 104 then hh + 1 else hh, Longer(c, win, lng))
  {
    var m := multiset(t);
    Counts(t);
    assert multiset(t + [c]) == m[c := m[c] + 1];
  }

  lemma {:induction false} Counts(t: seq<nat>)
    ensures multiset(t)[104] + multiset(t)[108] <= |t|
  {
    if t != [] {
      var u := t[..|t| - 1];
      Counts(u);
      assert t == u + [t[|t| - 1]];
    }
  }

  // ---------- a spelling is read as what it means ----------

  lemma {:induction false} Parts(fmt: seq<nat>, i: nat, x: seq<nat>, y: seq<nat>)
    requires StandsAt(fmt, i, x + y) && |y| > 0
    ensures i + |x| <= |fmt| && fmt[i..i + |x|] == x && StandsAt(fmt, i + |x|, y) && At(fmt, i + |x|) == y[0]
  {
    var z := fmt + [0];
    assert z[i..i + |x + y|][..|x|] == x && z[i..i + |x + y|][|x|..] == y;
    assert fmt[i..i + |x|] == z[i..i + |x|];
    assert z[i + |x|] == y[0];
  }

  /** Where the parts of a spelling at `i` begin. */
  function WidthAt(s: Spelling, i: nat): nat {
    i + |s.flags| + |Star(s.wstar)|
  }

  function DotAt(s: Spelling, i: nat): nat {
    WidthAt(s, i) + |s.wdigits|
  }

  function PrecAt(s: Spelling, i: nat): nat {
    if s.dot then DotAt(s, i) + 1 + |Star(s.pstar)| else DotAt(s, i)
  }

  function LengthAt(s: Spelling, i: nat): nat {
    PrecAt(s, i) + |s.pdigits|
  }

  function ConvAt(s: Spelling, i: nat): nat {
    LengthAt(s, i) + |s.length|
  }

  /** Text `t` of `p`s stands in the format at `i`, as long as it can be. */
  ghost predicate RunAt(fmt: seq<nat>, i: nat, t: seq<nat>, p: nat -> bool) {
    i + |t| <= |fmt| && fmt[i..i + |t|] == t && All(t, p) && !p(At(fmt, i + |t|))
  }

  /** What a spelling says of the format, part by part. */
  lemma {:induction false} FrontStands(fmt: seq<nat>, i: nat, s: Spelling)
    requires FrontSpelled(s) && StandsAt(fmt, i, Spelled(s))
    ensures RunAt(fmt, i, s.flags, IsFlag) && RunAt(fmt, WidthAt(s, i), s.wdigits, IsDecimal)
    ensures s.wstar <==> At(fmt, i + |s.flags|) == 42
    ensures StandsAt(fmt, DotAt(s, i), AfterWidth(s)) && (s.dot <==> At(fmt, DotAt(s, i)) == 46)
  {
    hide RunAt, All, StandsAt, IsFlag, IsDecimal, At, AfterWidth;
    RunStands(fmt, i, s.flags, AfterFlags(s), IsFlag);
    Parts(fmt, i + |s.flags|, Star(s.wstar), s.wdigits + AfterWidth(s));
    RunStands(fmt, WidthAt(s, i), s.wdigits, AfterWidth(s), IsDecimal);
    DotFirst(s);
    hide AfterFlags, Spelled, Star;
  }

  lemma RunStands(fmt: seq<nat>, i: nat, t: seq<nat>, rest: seq<nat>, p: nat -> bool)
    requires StandsAt(fmt, i, t + rest) && |rest| > 0 && All(t, p) && !p(rest[0])
    ensures RunAt(fmt, i, t, p) && StandsAt(fmt, i + |t|, rest) && At(fmt, i + |t|) == rest[0]
  {
    hide StandsAt, All, At;
    Parts(fmt, i, t, rest);
  }

  lemma DotFirst(s: Spelling)
    ensures s.dot ==> AfterWidth(s)[0] == 46
    ensures s.pstar ==> AfterDot(s)[0] == 42
    ensures s.wstar ==> AfterFlags(s)[0] == 42
  {
  }

  lemma {:induction false} BackStands(fmt: seq<nat>, i: nat, s: Spelling)
    requires BackSpelled(s) && StandsAt(fmt, DotAt(s, i), AfterWidth(s))
    ensures s.dot ==> RunAt(fmt, PrecAt(s, i), s.pdigits, IsDecimal) && (s.pstar <==> At(fmt, DotAt(s, i) + 1) == 42)
    ensures !s.dot ==> !s.pstar && s.pdigits == []
    ensures RunAt(fmt, LengthAt(s, i), s.length, IsLength) && At(fmt, ConvAt(s, i)) == s.conv
  {
    hide All, StandsAt, IsDecimal, IsLength, At, RunAt, Ending, AfterDot, WidthAt;
    if s.dot {
      DotStands(fmt, DotAt(s, i), s);
    }
    EndStands(fmt, LengthAt(s, i), s);
  }

  lemma {:induction false} DotStands(fmt: seq<nat>, i: nat, s: Spelling)
    requires s.dot && BackSpelled(s) && StandsAt(fmt, i, [46] + AfterDot(s))
    ensures var j := i + 1 + |Star(s.pstar)|;
      && RunAt(fmt, j, s.pdigits, IsDecimal) && StandsAt(fmt, j + |s.pdigits|, Ending(s))
    ensures s.pstar <==> At(fmt, i + 1) == 42
  {
    hide All, StandsAt, IsDecimal, IsLength, At, Ending;
    Parts(fmt, i, [46], AfterDot(s));
    Parts(fmt, i + 1, Star(s.pstar), s.pdigits + Ending(s));
    Parts(fmt, i + 1 + |Star(s.pstar)|, s.pdigits, Ending(s));
    DotFirst(s);
  }

  lemma {:induction false} EndStands(fmt: seq<nat>, i: nat, s: Spelling)
    requires BackSpelled(s) && StandsAt(fmt, i, Ending(s))
    ensures RunAt(fmt, i, s.length, IsLength) && At(fmt, i + |s.length|) == s.conv
  {
    hide All, StandsAt, IsDecimal, IsLength, At, AfterDot;
    Parts(fmt, i, s.length, [s.conv]);
  }

  lemma SpelledLength(s: Spelling, i: nat)
    requires !s.dot ==> !s.pstar && s.pdigits == []
    ensures i + |Spelled(s)| == ConvAt(s, i) + 1
  {
  }

  /** The loops read every well-spelled directive as what it means, and stop right behind it. */
  lemma {:induction false} SpellingReads(fmt: seq<nat>, i: nat, s: Spelling, args: seq<Arg>, a: nat, win: bool)
    requires i <= |fmt| && WellSpelled(s) && StandsAt(fmt, i, Spelled(s))
    ensures DirectiveFrom(fmt, i, args, a, win) == (Meaning(s, args, a, win), i + |Spelled(s)|, a + Stars(s))
  {
    hide FrontSpelled, BackSpelled, StandsAt, Spelled, AfterWidth, RunAt, At, ArgAt, IsFlag, IsDecimal, IsLength, FlagsFrom,
      NumberFrom, LengthFrom, Continued, LengthAt, ConvAt, AsInt, Abs, WithFlags;
    FrontStands(fmt, i, s);
    BackStands(fmt, i, s);
    SpelledLength(s, i);
    var none := Flags(false, false, false, false, false);
    var w := if s.wstar then AsInt(ArgAt(args, a)) else 0;
    var p := if s.pstar then AsInt(ArgAt(args, a + |Star(s.wstar)|)) else 0;
    FlagEnd(fmt, i, s.flags, none);
    FlagsAre(s, none, w);
    NumberEnd(fmt, WidthAt(s, i), s.wdigits, Abs(w));
    if s.dot {
      NumberEnd(fmt, PrecAt(s, i), s.pdigits, if p < 0 then -1 else p);
    }
    LengthAtIs(s, i);
    LengthRead(fmt, LengthAt(s, i), s.length, win);
  }

  lemma FlagsAre(s: Spelling, f: Flags, w: int)
    requires f == Flags(false, false, false, false, false)
    ensures var g := WithFlags(f, s.flags);
      g.(left := g.left || w < 0) == Flags(45 in s.flags || w < 0, 48 in s.flags, 43 in s.flags, 32 in s.flags, 35 in s.flags)
  {
  }

  lemma LengthAtIs(s: Spelling, i: nat)
    ensures LengthAt(s, i) == PrecAt(s, i) + |s.pdigits| && ConvAt(s, i) == LengthAt(s, i) + |s.length|
  {
  }

  lemma LengthRead(fmt: seq<nat>, i: nat, t: seq<nat>, win: bool)
    requires RunAt(fmt, i, t, IsLength)
    ensures var (hh, lng, j) := LengthFrom(fmt, i, win, 0, 0); var m := multiset(t);
      && j == i + |t| && hh == m[104]
      && (if win then lng >= 2 else lng != 0) == (if win then m[108] >= 2 || |t| > m[104] + m[108] else |t| > m[104])
  {
    assert Counted(t[..0], win, 0, 0);
    LengthRun(fmt, i, t, win, 0, 0, 0);
    Counts(t);
  }

  // ---------- every text has one spelling ----------

  /** The end of the longest run of `p` from `i` on. */
  ghost function RunEnd(fmt: seq<nat>, i: nat, p: nat -> bool): (j: nat)
    requires i <= |fmt| && !p(0)
    ensures i <= j <= |fmt| && All(fmt[i..j], p) && !p(At(fmt, j))
    decreases |fmt| - i
  {
    if i < |fmt| && p(fmt[i]) then
      var j := RunEnd(fmt, i + 1, p);
      assert fmt[i..j] == [fmt[i]] + fmt[i + 1..j];
      j
    else i
  }

  lemma {:induction false} RunEndIs(fmt: seq<nat>, i: nat, t: seq<nat>, p: nat -> bool)
    requires RunAt(fmt, i, t, p) && !p(0)
    ensures RunEnd(fmt, i, p) == i + |t| <= |fmt| && fmt[i..i + |t|] == t
    decreases |t|
  {
    if t != [] {
      assert p(t[0]) && fmt[i] == t[0] && fmt[i + 1..i + 1 + |t[1..]|] == t[1..];
      RunEndIs(fmt, i + 1, t[1..], p);
    }
  }

  lemma Joined(fmt: seq<nat>, i: nat, x: seq<nat>, y: seq<nat>)
    requires i + |x| <= |fmt| && fmt[i..i + |x|] == x && StandsAt(fmt, i + |x|, y)
    ensures StandsAt(fmt, i, x + y)
    ensures |y| > 0 ==> At(fmt, i + |x|) == y[0]
  {
    var z := fmt + [0];
    assert z[i..i + |x + y|] == z[i..i + |x|] + z[i + |x|..i + |x| + |y|];
    assert z[i..i + |x|] == fmt[i..i + |x|];
    assert |y| > 0 ==> z[i + |x|] == y[0];
  }

  /** The spelling that stands at `i`. */
  ghost function SpellingAt(fmt: seq<nat>, i: nat): (s: Spelling)
    requires i <= |fmt|
  {
    var i1 := RunEnd(fmt, i, IsFlag);
    var wstar := At(fmt, i1) == 42;
    var j1 := i1 + |Star(wstar)|;
    var i2 := RunEnd(fmt, j1, IsDecimal);
    var dot := At(fmt, i2) == 46;
    var pstar := dot && At(fmt, i2 + 1) == 42;
    var j3 := if dot then i2 + 1 + |Star(pstar)| else i2;
    var i3 := if dot then RunEnd(fmt, j3, IsDecimal) else i2;
    var i4 := RunEnd(fmt, i3, IsLength);
    Spelling(fmt[i..i1], wstar, fmt[j1..i2], dot, pstar, fmt[j3..i3], fmt[i3..i4], At(fmt, i4))
  }

  /** Every text starts with a well-spelled directive. */
  lemma {:induction false} EveryText(fmt: seq<nat>, i: nat)
    requires i <= |fmt|
    ensures WellSpelled(SpellingAt(fmt, i)) && StandsAt(fmt, i, Spelled(SpellingAt(fmt, i)))
  {
    hide FrontSpelled, BackSpelled, StandsAt, Spelled, AfterWidth, RunEnd, All, IsFlag, IsDecimal, IsLength, At;
    ZeroIsNone();
    var s := SpellingAt(fmt, i);
    assert fmt[DotAt(s, i)..DotAt(s, i)] == [];
    BackJoins(fmt, i, s);
    FrontJoins(fmt, i, s);
  }

  lemma {:induction false} BackJoins(fmt: seq<nat>, i: nat, s: Spelling)
    requires if s.dot
      then RunAt(fmt, PrecAt(s, i), s.pdigits, IsDecimal) && (s.pstar <==> At(fmt, DotAt(s, i) + 1) == 42)
           && At(fmt, DotAt(s, i)) == 46
      else !s.pstar && s.pdigits == [] && !IsDecimal(At(fmt, DotAt(s, i)))
    requires RunAt(fmt, LengthAt(s, i), s.length, IsLength) && At(fmt, ConvAt(s, i)) == s.conv
    ensures BackSpelled(s) && StandsAt(fmt, DotAt(s, i), AfterWidth(s))
  {
    hide StandsAt, IsDecimal, IsLength, At, RunAt, Ending, AfterDot, WidthAt;
    EndJoins(fmt, LengthAt(s, i), s);
    if s.dot {
      DotJoins(fmt, DotAt(s, i), s);
    }
  }

  lemma {:induction false} EndJoins(fmt: seq<nat>, i: nat, s: Spelling)
    requires RunAt(fmt, i, s.length, IsLength) && At(fmt, i + |s.length|) == s.conv
    ensures StandsAt(fmt, i, Ending(s)) && Ending(s)[0] == At(fmt, i) && All(s.length, IsLength) && !IsLength(s.conv)
  {
    hide All, StandsAt, IsLength, At;
    Last(fmt, i + |s.length|);
    Joined(fmt, i, s.length, [s.conv]);
    FirstChar(fmt, i, Ending(s));
  }

  lemma FirstChar(fmt: seq<nat>, i: nat, t: seq<nat>)
    requires StandsAt(fmt, i, t) && |t| > 0
    ensures At(fmt, i) == t[0]
  {
    assert (fmt + [0])[i..i + |t|][0] == (fmt + [0])[i];
  }

  lemma {:induction false} DotJoins(fmt: seq<nat>, i: nat, s: Spelling)
    requires s.dot && (s.pstar <==> At(fmt, i + 1) == 42) && At(fmt, i) == 46
    requires var j := i + 1 + |Star(s.pstar)|;
      RunAt(fmt, j, s.pdigits, IsDecimal) && StandsAt(fmt, j + |s.pdigits|, Ending(s))
    ensures StandsAt(fmt, i, [46] + AfterDot(s)) && (AfterDot(s)[0] == 42 ==> s.pstar)
    ensures All(s.pdigits, IsDecimal) && !IsDecimal(Ending(s)[0])
  {
    hide All, StandsAt, IsDecimal, At, Ending;
    var j := i + 1 + |Star(s.pstar)|;
    Joined(fmt, j, s.pdigits, Ending(s));
    OneChar(fmt, i + 1, s.pstar, 42);
    Joined(fmt, i + 1, Star(s.pstar), s.pdigits + Ending(s));
    OneChar(fmt, i, true, 46);
    Joined(fmt, i, [46], AfterDot(s));
  }

  lemma {:induction false} FrontJoins(fmt: seq<nat>, i: nat, s: Spelling)
    requires RunAt(fmt, i, s.flags, IsFlag) && RunAt(fmt, WidthAt(s, i), s.wdigits, IsDecimal)
    requires s.wstar <==> At(fmt, i + |s.flags|) == 42
    requires StandsAt(fmt, DotAt(s, i), AfterWidth(s)) && (s.dot <==> At(fmt, DotAt(s, i)) == 46)
    ensures FrontSpelled(s) && StandsAt(fmt, i, Spelled(s))
  {
    hide All, StandsAt, IsFlag, IsDecimal, At, AfterWidth;
    WidthJoins(fmt, i + |s.flags|, s);
    Joined(fmt, i, s.flags, AfterFlags(s));
  }

  lemma {:induction false} WidthJoins(fmt: seq<nat>, i: nat, s: Spelling)
    requires s.wstar <==> At(fmt, i) == 42
    requires var j := i + |Star(s.wstar)|;
      RunAt(fmt, j, s.wdigits, IsDecimal) && StandsAt(fmt, j + |s.wdigits|, AfterWidth(s))
    ensures StandsAt(fmt, i, AfterFlags(s))
    ensures !IsDecimal(AfterWidth(s)[0]) && AfterWidth(s)[0] == At(fmt, i + |Star(s.wstar)| + |s.wdigits|)
  {
    hide All, StandsAt, IsDecimal, At, AfterWidth;
    var j := i + |Star(s.wstar)|;
    Joined(fmt, j, s.wdigits, AfterWidth(s));
    OneChar(fmt, i, s.wstar, 42);
    Joined(fmt, i, Star(s.wstar), s.wdigits + AfterWidth(s));
  }

  /** One optional character that stands in the format. */
  lemma OneChar(fmt: seq<nat>, i: nat, b: bool, c: nat)
    requires b ==> At(fmt, i) == c > 0
    ensures b ==> i < |fmt| && fmt[i..i + 1] == [c]
    ensures !b && i <= |fmt| ==> fmt[i..i] == []
  {
  }

  lemma Last(fmt: seq<nat>, i: nat)
    requires i <= |fmt|
    ensures StandsAt(fmt, i, [At(fmt, i)])
  {
  }

  /** And it is the only one. */
  lemma {:induction false} SpellingUnique(fmt: seq<nat>, i: nat, s: Spelling)
    requires i <= |fmt| && WellSpelled(s) && StandsAt(fmt, i, Spelled(s))
    ensures s == SpellingAt(fmt, i)
  {
    hide FrontSpelled, BackSpelled, StandsAt, Spelled, AfterWidth, RunAt, At, IsFlag, IsDecimal, IsLength, RunEnd;
    FrontStands(fmt, i, s);
    BackStands(fmt, i, s);
    ZeroIsNone();
    RunEndIs(fmt, i, s.flags, IsFlag);
    RunEndIs(fmt, WidthAt(s, i), s.wdigits, IsDecimal);
    if s.dot {
      RunEndIs(fmt, PrecAt(s, i), s.pdigits, IsDecimal);
    }
    RunEndIs(fmt, LengthAt(s, i), s.length, IsLength);
    assert fmt[DotAt(s, i)..DotAt(s, i)] == [];
  }

  lemma SpellingAtReads(fmt: seq<nat>, i: nat, args: seq<Arg>, a: nat, win: bool)
    requires i <= |fmt|
    ensures var s := SpellingAt(fmt, i);
      DirectiveFrom(fmt, i, args, a, win) == (Meaning(s, args, a, win), i + |Spelled(s)|, a + Stars(s))
  {
    hide WellSpelled, StandsAt, SpellingAt, DirectiveFrom, Meaning, Stars, Spelled;
    EveryText(fmt, i);
    SpellingReads(fmt, i, SpellingAt(fmt, i), args, a, win);
  }

  lemma ZeroIsNone()
    ensures !IsFlag(0) && !IsDecimal(0) && !IsLength(0)
  {
  }

  // ---------- reading a directive ----------

  /** The flag loop. */
  method ReadFlags(fmt: seq<nat>, i0: nat) returns (f: Flags, i: nat)
    requires i0 <= |fmt|
    ensures (f, i) == FlagsFrom(fmt, i0, Flags(false, false, false, false, false))
  {
    i := i0;
    f := Flags(false, false, false, false, false);
    while IsFlag(At(fmt, i))
      invariant i <= |fmt|
      invariant FlagsFrom(fmt, i, f) == FlagsFrom(fmt, i0, Flags(false, false, false, false, false))
      decreases |fmt| - i
    {
      var c := At(fmt, i);
      if c == 45 { f := f.(left := true); }
      if c == 48 { f := f.(zero := true); }
      if c == 43 { f := f.(plus := true); }
      if c == 32 { f := f.(space := true); }
      if c == 35 { f := f.(alt := true); }
      i := i + 1;
    }
  }

  /** A number loop, from a value already there. */
  method ReadNumber(fmt: seq<nat>, i0: nat, w0: int) returns (w: int, i: nat)
    requires i0 <= |fmt|
    ensures (w, i) == NumberFrom(fmt, i0, w0)
  {
    w, i := w0, i0;
    while At(fmt, i) >= 48
      invariant i <= |fmt| && NumberFrom(fmt, i, w) == NumberFrom(fmt, i0, w0)
      decreases |fmt| - i
    {
      if At(fmt, i) > 57 {
        break;
      }
      w := w * 10 + (At(fmt, i) - 48);
      i := i + 1;
    }
  }

  /** The length modifier loop. */
  method ReadLength(fmt: seq<nat>, i0: nat, win: bool) returns (hh: nat, lng: nat, i: nat)
    requires i0 <= |fmt|
    ensures (hh, lng, i) == LengthFrom(fmt, i0, win, 0, 0)
  {
    hh, lng, i := 0, 0, i0;
    while IsLength(At(fmt, i))
      invariant i <= |fmt| && LengthFrom(fmt, i, win, hh, lng) == LengthFrom(fmt, i0, win, 0, 0)
      decreases |fmt| - i
    {
      if At(fmt, i) == 104 {
        hh := hh + 1;
      } else if !win {
        lng := 1;
      } else if At(fmt, i) == 108 {
        lng := lng + 1;
      } else {
        lng := 2;
      }
      i := i + 1;
    }
  }

  /** The parsing part of the loop in `_u_vfmt`. */
  method ReadDirective(fmt: seq<nat>, i0: nat, args: seq<Arg>, a0: nat, win: bool) returns (d: Directive, i: nat, a: nat)
    requires i0 <= |fmt|
    ensures (d, i, a) == DirectiveFrom(fmt, i0, args, a0, win)
    ensures var s := SpellingAt(fmt, i0);
      d == Meaning(s, args, a0, win) && i == i0 + |Spelled(s)| && a == a0 + Stars(s)
  {
    hide FlagsFrom, NumberFrom, LengthFrom, IsFlag, IsLength, AddFlag, SpellingAt, Spelled, Meaning, Stars, AsInt, ArgAt;
    SpellingAtReads(fmt, i0, args, a0, win);
    var f;
    f, i := ReadFlags(fmt, i0);
    a := a0;
    var width: int := 0;
    if At(fmt, i) == 42 {
      width := AsInt(ArgAt(args, a));
      a := a + 1;
      i := i + 1;
      if width < 0 {
        f := f.(left := true);
        width := -width;
      }
    }
    width, i := ReadNumber(fmt, i, width);
    var prec: int := -1;
    if At(fmt, i) == 46 {
      i := i + 1;
      prec := 0;
      if At(fmt, i) == 42 {
        prec := AsInt(ArgAt(args, a));
        a := a + 1;
        i := i + 1;
        if prec < 0 {
          prec := -1;
        }
      }
      prec, i := ReadNumber(fmt, i, prec);
    }
    var hh, lng;
    hh, lng, i := ReadLength(fmt, i, win);
    d := Directive(f, width, prec, hh, if win then lng >= 2 else lng != 0, At(fmt, i));
    i := i + 1;
  }
}
