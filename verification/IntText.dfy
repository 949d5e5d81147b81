/**
 Integer text conversion: the two-limb magnitude loop, the strtol family over it, and the
 digit writer.  (Section 7.20.1.4 of ISO/IEC 9899:1999.)
 */
module IntText {
  import opened Arith
  import opened CString

  // ---------- what a subject is ----------

  predicate IsSpace(c: nat) {
    c == 32 || 9 <= c <= 13
  }

  /** `_unisa_strdigit`: the digit a character stands for, or -1. */
  function DigitOf(c: nat): (d: int)
    ensures -1 <= d < 36
  {
    if 48 <= c <= 57 then c - 48
    else if 97 <= c <= 122 then c - 97 + 10
    else if 65 <= c <= 90 then c - 65 + 10
    else -1
  }

  predicate IsDigit(c: nat, base: nat) {
    0 <= DigitOf(c) < base
  }

  /** The end of the white space from `i` on. */
  function SpaceEnd(s: seq<nat>, i: nat): (e: nat)
    ensures e >= i && !IsSpace(At(s, e)) && forall k :: i <= k < e ==> IsSpace(At(s, k))
    decreases |s| - i
  {
    if IsSpace(At(s, i)) then SpaceEnd(s, i + 1) else i
  }

  /** The end of the digits from `i` on: all of them, and no more. */
  function DigitsEnd(s: seq<nat>, i: nat, base: nat): (e: nat)
    ensures e >= i && !IsDigit(At(s, e), base) && forall k :: i <= k < e ==> IsDigit(At(s, k), base)
    ensures i <= |s| ==> e <= |s|
    decreases |s| - i
  {
    if IsDigit(At(s, i), base) then DigitsEnd(s, i + 1, base) else i
  }

  /** The number a digit string denotes in a base. */
  function NumVal(t: seq<nat>, base: nat): nat {
    if t == [] then 0 else NumVal(t[..|t| - 1], base) * base + Max0(DigitOf(t[|t| - 1]))
  }

  function Max0(d: int): nat {
    if d < 0 then 0 else d
  }

  /** The pieces of a subject: sign, the base in force, where its digits begin. */
  datatype Subject = Subject(neg: bool, base: nat, start: nat)

  /** Is there a hexadecimal prefix at `i`, with a digit after it? */
  predicate HexPrefix(s: seq<nat>, i: nat) {
    At(s, i) == 48 && (At(s, i + 1) == 120 || At(s, i + 1) == 88) && IsDigit(At(s, i + 2), 16)
  }

  /** The subject the standard's grammar finds for a base that is 0 or 2 to 36. */
  function SubjectOf(s: seq<nat>, base: nat): Subject {
    var i := SpaceEnd(s, 0);
    var neg := At(s, i) == 45;
    var j := if At(s, i) == 45 || At(s, i) == 43 then i + 1 else i;
    if (base == 0 || base == 16) && HexPrefix(s, j) then Subject(neg, 16, j + 2)
    else if base == 0 then Subject(neg, if At(s, j) == 48 then 8 else 10, j)
    else Subject(neg, base, j)
  }

  predicate BaseOk(base: int) {
    base == 0 || 2 <= base <= 36
  }

  /** The subject's digits. */
  function SubjectDigits(s: seq<nat>, base: nat): seq<nat> {
    var u := SubjectOf(s, base);
    if u.start <= |s| then s[u.start..DigitsEnd(s, u.start, u.base)] else []
  }

  function Magnitude(s: seq<nat>, base: nat): nat {
    NumVal(SubjectDigits(s, base), SubjectOf(s, base).base)
  }

  /** The mathematical value of the text. */
  function ValueOf(s: seq<nat>, base: nat): int {
    if SubjectOf(s, base).neg then -(Magnitude(s, base) as int) else Magnitude(s, base)
  }

  /** Where the end pointer must point: behind the digits, or at the start when there are none. */
  function EndOf(s: seq<nat>, base: int): nat {
    if !BaseOk(base) || SubjectDigits(s, base) == [] then 0
    else DigitsEnd(s, SubjectOf(s, base).start, SubjectOf(s, base).base)
  }

  /** The grammar: `s[..e]` is white space up to `w`, a sign or none up to `j`, a prefix or none up
      to `d`, and digits of base `b` up to `e`. */
  ghost predicate Parses(s: seq<nat>, base: nat, e: nat, w: nat, j: nat, d: nat, b: nat) {
    && w <= j <= d < e <= |s|
    && (forall k :: 0 <= k < w ==> IsSpace(s[k]))
    && (j == w || (j == w + 1 && (s[w] == 45 || s[w] == 43)))
    && (d == j || (d == j + 2 && b == 16 && s[j] == 48 && (s[j + 1] == 120 || s[j + 1] == 88)))
    && (forall k :: d <= k < e ==> IsDigit(s[k], b))
    && (if base != 0 then b == base
        else if d == j then b == (if s[j] == 48 then 8 else 10)
        else b == 16)
  }

  /** The end found is the end of the longest prefix the grammar admits; 0 when it admits none. */
  lemma LongestSubject(s: seq<nat>, base: nat)
    requires BaseOk(base)
    ensures EndOf(s, base) > 0 ==> exists w: nat, j: nat ::
      && Parses(s, base, EndOf(s, base), w, j, SubjectOf(s, base).start, SubjectOf(s, base).base)
      && (SubjectOf(s, base).neg <==> j > w && s[w] == 45)
    ensures forall e: nat, w: nat, j: nat, d: nat, b: nat :: Parses(s, base, e, w, j, d, b) ==> e <= EndOf(s, base)
  {
    if EndOf(s, base) > 0 {
      FoundParses(s, base);
    }
    forall e: nat, w: nat, j: nat, d: nat, b: nat | Parses(s, base, e, w, j, d, b)
      ensures e <= EndOf(s, base)
    {
      ParseEnds(s, base, e, w, j, d, b);
    }
  }

  lemma FoundParses(s: seq<nat>, base: nat)
    requires BaseOk(base) && EndOf(s, base) > 0
    ensures var w := SpaceEnd(s, 0);
      var j := if At(s, w) == 45 || At(s, w) == 43 then w + 1 else w;
      && Parses(s, base, EndOf(s, base), w, j, SubjectOf(s, base).start, SubjectOf(s, base).base)
      && (SubjectOf(s, base).neg <==> j > w && s[w] == 45)
  {
    var u := SubjectOf(s, base);
    assert EndOf(s, base) == DigitsEnd(s, u.start, u.base) && u.start < EndOf(s, base) <= |s|;
    SpacesFound(s, u.start);
    DigitsFound(s, u.start, u.base);
    hide DigitOf, SpaceEnd, DigitsEnd, NumVal, IsSpace, IsDigit;
  }

  lemma SpacesFound(s: seq<nat>, e: nat)
    requires SpaceEnd(s, 0) <= e <= |s|
    ensures forall k :: 0 <= k < SpaceEnd(s, 0) ==> IsSpace(s[k])
  {
    assert forall k :: 0 <= k < SpaceEnd(s, 0) ==> IsSpace(At(s, k)) && At(s, k) == s[k];
  }

  lemma DigitsFound(s: seq<nat>, i: nat, base: nat)
    requires i <= |s|
    ensures forall k :: i <= k < DigitsEnd(s, i, base) ==> IsDigit(s[k], base)
  {
    assert forall k :: i <= k < DigitsEnd(s, i, base) ==> IsDigit(At(s, k), base) && At(s, k) == s[k];
  }

  lemma ParseEnds(s: seq<nat>, base: nat, e: nat, w: nat, j: nat, d: nat, b: nat)
    requires BaseOk(base) && Parses(s, base, e, w, j, d, b)
    ensures e <= EndOf(s, base)
  {
    var u := SubjectOf(s, base);
    assert IsDigit(s[d], b);
    assert !IsSpace(s[j]) && s[j] != 45 && s[j] != 43;
    SpaceEndIs(s, w);
    assert DigitOf(120) == 33 && DigitOf(88) == 33;
    hide DigitOf, SpaceEnd, DigitsEnd, NumVal;
    if d == u.start {
      assert u.base == b;
      DigitsWithin(s, d, b, e);
    } else {
      assert d == j && u.start == j + 2 && b <= 16;
      assert e > j + 1 ==> IsDigit(At(s, j + 1), b);
      assert e <= j + 1;
    }
  }

  lemma SpaceEndIs(s: seq<nat>, w: nat)
    requires w <= |s| && (forall k :: 0 <= k < w ==> IsSpace(s[k])) && !IsSpace(At(s, w))
    ensures SpaceEnd(s, 0) == w
  {
  }

  lemma DigitsWithin(s: seq<nat>, d: nat, b: nat, e: nat)
    requires d <= e <= |s| && forall k :: d <= k < e ==> IsDigit(s[k], b)
    ensures e <= DigitsEnd(s, d, b)
  {
  }

  // ---------- the magnitude loop ----------

  /** What the two limbs know of the digits so far: their value, or that it passed 2^64. */
  ghost predicate Limbs(v: nat, hi: nat, lo: nat, over: bool) {
    hi < TWO32 && lo < TWO32 && (over <==> v >= TWO64) && (!over ==> v == hi * TWO32 + lo)
  }

  /** One digit: the carry between the limbs, and the overflow exactly at 2^64. */
  lemma {:induction false} LimbStep(v: nat, hi: nat, lo: nat, over: bool, base: nat, d: nat)
    requires Limbs(v, hi, lo, over) && d < base <= 36
    ensures over ==> Limbs(v * base + d, hi, lo, true)
    ensures !over ==>
      var l := lo * base + d; var h := hi * base + l / TWO32;
      && l < TWO63 && h < TWO63
      && (if h > TWO32 - 1 then Limbs(v * base + d, hi, lo, true)
          else Limbs(v * base + d, h, l % TWO32, false))
  {
    if over {
      MulLe(1, base, v);
      assert v * base + d >= TWO64;
    } else {
      var l := lo * base + d;
      assert l < TWO32 * 36 by { MulMono(lo, TWO32 - 1, base, 36); }
      var h := hi * base + l / TWO32;
      assert hi * base <= (TWO32 - 1) * 36 by { MulMono(hi, TWO32 - 1, base, 36); }
      Distrib(hi * TWO32, lo, base);
      MulSwap(hi, TWO32, base);
      assert v * base + d == h * TWO32 + l % TWO32;
    }
  }

  /** `_unisa_strmag`. */
  method StrMag(s: seq<nat>, base0: int) returns (over: bool, hi: nat, lo: nat, neg: bool, end: nat)
    ensures end == EndOf(s, base0)
    ensures BaseOk(base0) ==> Limbs(Magnitude(s, base0), hi, lo, over) && neg == SubjectOf(s, base0).neg
    ensures !BaseOk(base0) ==> hi == 0 && lo == 0 && !over && !neg
  {
    hide NumVal, Limbs, DigitsEnd, SpaceEnd, HexPrefix, DigitOf, SubjectOf;
    over, hi, lo, neg, end := false, 0, 0, false, 0;
    if base0 != 0 && (base0 < 2 || base0 > 36) {
      return;
    }
    var i, base;
    neg, base, i := FindSubject(s, base0);
    ghost var u := SubjectOf(s, base0);
    var start := i;
    assert s[start..start] == [];
    NoDigits(base);
    while i < |s| && 0 <= DigitOf(s[i]) < base
      invariant start <= i <= |s| && DigitsEnd(s, i, base) == DigitsEnd(s, start, base)
      invariant Limbs(NumVal(s[start..i], base), hi, lo, over)
      decreases |s| - i
    {
      var d: nat := DigitOf(s[i]);
      ghost var m := NumVal(s[start..i], base);
      MoreDigits(s, start, i, base);
      LimbStep(m, hi, lo, over, base, d);
      if !over {
        var l: nat := lo * base + d;
        var h: nat := hi * base + l / TWO32;
        if h > TWO32 - 1 {
          over := true;
        } else {
          hi, lo := h, l % TWO32;
        }
      }
      i := i + 1;
    }
    NoMoreDigits(s, i, base);
    if i != start {
      end := i;
    }
  }

  lemma NoMoreDigits(s: seq<nat>, i: nat, base: nat)
    requires i <= |s| && !(i < |s| && IsDigit(s[i], base))
    ensures DigitsEnd(s, i, base) == i
  {
  }

  lemma NoDigits(base: nat)
    ensures NumVal([], base) == 0 && Limbs(0, 0, 0, false)
  {
  }

  lemma MoreDigits(s: seq<nat>, start: nat, i: nat, base: nat)
    requires start <= i < |s| && IsDigit(s[i], base)
    ensures NumVal(s[start..i + 1], base) == NumVal(s[start..i], base) * base + DigitOf(s[i])
    ensures DigitsEnd(s, i + 1, base) == DigitsEnd(s, i, base)
  {
    assert s[start..i + 1][..i - start] == s[start..i];
  }

  /** White space, sign, base and prefix. */
  method FindSubject(s: seq<nat>, base0: nat) returns (neg: bool, base: nat, i: nat)
    requires BaseOk(base0)
    ensures SubjectOf(s, base0) == Subject(neg, base, i) && i <= |s| && 2 <= base <= 36
  {
    i := 0;
    while i < |s| && IsSpace(s[i])
      invariant i <= |s| && SpaceEnd(s, i) == SpaceEnd(s, 0)
      decreases |s| - i
    {
      i := i + 1;
    }
    neg := false;
    if At(s, i) == 45 {
      neg := true;
      i := i + 1;
    } else if At(s, i) == 43 {
      i := i + 1;
    }
    base := base0;
    if base0 == 0 {
      base := 10;
      if At(s, i) == 48 {
        base := 8;
      }
    }
    if base == 8 || base == 16 {
      if At(s, i) == 48 && (At(s, i + 1) == 120 || At(s, i + 1) == 88) {
        var d := DigitOf(At(s, i + 2));
        if d >= 0 && d < 16 {
          if base == 16 || base0 == 0 {
            base, i := 16, i + 2;
          }
        }
      }
    }
  }

  // ---------- the family ----------

  /** Bring a value into a range, and say whether that changed it. */
  function Clamp(v: int, lo: int, hi: int): int {
    if v < lo then lo else if v > hi then hi else v
  }

  /** The signed 64-bit conversion: `strtol` where long has 64 bits, `strtoll`, `strtoimax`. */
  method StrToL(s: seq<nat>, base: int) returns (v: int, erange: bool, end: nat)
    ensures end == EndOf(s, base)
    ensures BaseOk(base) ==> v == Clamp(ValueOf(s, base), -(TWO63 as int), TWO63 - 1) && erange == (v != ValueOf(s, base))
    ensures BaseOk(base) && ValueOf(s, base) < -0x8000_0000_0000_0000 ==> v == -0x8000_0000_0000_0000
    ensures BaseOk(base) && ValueOf(s, base) > 0x7fff_ffff_ffff_ffff ==> v == 0x7fff_ffff_ffff_ffff
    ensures BaseOk(base) && -0x8000_0000_0000_0000 <= ValueOf(s, base) <= 0x7fff_ffff_ffff_ffff ==> v == ValueOf(s, base)
    ensures !BaseOk(base) ==> v == 0 && !erange
  {
    hide Magnitude, EndOf;
    var over, hi: nat, lo: nat, neg;
    over, hi, lo, neg, end := StrMag(s, base);
    if over || hi > 2147483648 || (hi == 2147483648 && (lo != 0 || !neg)) {
      return if neg then -(TWO63 as int) else TWO63 - 1, true, end;
    }
    if hi == 2147483648 {
      return -(TWO63 as int), false, end;
    }
    v := hi * 4294967296 + lo;
    if neg {
      v := 0 - v;
    }
    erange := false;
  }

  /** The unsigned 64-bit conversion: `strtoul` where long has 64 bits, `strtoull`, `strtoumax`. */
  method StrToUL(s: seq<nat>, base: int) returns (v: nat, erange: bool, end: nat)
    ensures end == EndOf(s, base)
    ensures BaseOk(base) ==> erange == (Magnitude(s, base) >= TWO64)
    ensures BaseOk(base) ==> v == if erange then TWO64 - 1 else ValueOf(s, base) % TWO64
    ensures !BaseOk(base) ==> v == 0 && !erange
  {
    hide Magnitude, EndOf;
    var over, hi: nat, lo: nat, neg;
    over, hi, lo, neg, end := StrMag(s, base);
    if over {
      return TWO64 - 1, true, end;
    }
    v := hi * TWO32 + lo;
    if neg {
      Negated(v);
      v := if v == 0 then 0 else TWO64 - v;
    }
    erange := false;
  }

  lemma Negated(v: nat)
    requires v < TWO64
    ensures -(v as int) % TWO64 == if v == 0 then 0 else TWO64 - v
  {
  }

  /** The signed conversion where long has 32 bits. */
  method StrToL32(s: seq<nat>, base: int) returns (v: int, erange: bool, end: nat)
    ensures end == EndOf(s, base)
    ensures BaseOk(base) ==> v == Clamp(ValueOf(s, base), -2147483648, 2147483647) && erange == (v != ValueOf(s, base))
    ensures BaseOk(base) && ValueOf(s, base) < -2147483648 ==> v == -2147483648
    ensures BaseOk(base) && ValueOf(s, base) > 2147483647 ==> v == 2147483647
    ensures BaseOk(base) && -2147483648 <= ValueOf(s, base) <= 2147483647 ==> v == ValueOf(s, base)
    ensures !BaseOk(base) ==> v == 0 && !erange
  {
    hide Magnitude, EndOf;
    var over, hi: nat, lo: nat, neg;
    over, hi, lo, neg, end := StrMag(s, base);
    var m := hi * TWO32 + lo;
    if over || (!neg && m > 2147483647) || (neg && m > 2147483647 + 1) {
      return if neg then -2147483648 else 2147483647, true, end;
    }
    v := m;
    if neg {
      v := 0 - m;
    }
    erange := false;
  }

  /** The unsigned conversion where long has 32 bits. */
  method StrToUL32(s: seq<nat>, base: int) returns (v: nat, erange: bool, end: nat)
    ensures end == EndOf(s, base)
    ensures BaseOk(base) ==> erange == (Magnitude(s, base) >= TWO32)
    ensures BaseOk(base) ==> v == if erange then TWO32 - 1 else ValueOf(s, base) % TWO32
    ensures !BaseOk(base) ==> v == 0 && !erange
  {
    hide Magnitude, EndOf;
    var over, hi: nat, lo: nat, neg;
    over, hi, lo, neg, end := StrMag(s, base);
    if over || hi != 0 {
      return TWO32 - 1, true, end;
    }
    v := lo;
    if neg {
      v := if v == 0 then 0 else TWO32 - v;
    }
    erange := false;
  }

  // ---------- writing digits ----------

  /** The character `_u_digits` writes for a digit. */
  function CharOf(d: nat, upper: bool): nat {
    if d < 10 then 48 + d else if upper then 55 + d else 87 + d
  }

  /** The shortest digit string of a number; "0" for zero. */
  function TextOf(v: nat, base: nat, upper: bool): (t: seq<nat>)
    requires 2 <= base <= 36
    ensures |t| > 0
    decreases v
  {
    if v < base then [CharOf(v, upper)]
    else
      QuotientLess(v, base);
      TextOf(v / base, base, upper) + [CharOf(v % base, upper)]
  }

  lemma CharReads(d: nat, base: nat, upper: bool)
    requires d < base <= 36
    ensures DigitOf(CharOf(d, upper)) == d && IsDigit(CharOf(d, upper), base) && !IsSpace(CharOf(d, upper))
    ensures CharOf(d, upper) != 45 && CharOf(d, upper) != 43 && (CharOf(d, upper) == 48 <==> d == 0)
  {
  }

  /** The text denotes the number, in digits of the base, and leads with a nonzero one. */
  lemma {:induction false} TextReads(v: nat, base: nat, upper: bool)
    requires 2 <= base <= 36
    ensures NumVal(TextOf(v, base, upper), base) == v
    ensures forall i :: 0 <= i < |TextOf(v, base, upper)| ==> IsDigit(TextOf(v, base, upper)[i], base)
    ensures v > 0 ==> TextOf(v, base, upper)[0] != 48
    ensures v == 0 ==> TextOf(v, base, upper) == [48]
    decreases v
  {
    TextStep(v, base, upper);
    hide TextOf, IsDigit, NumVal, CharOf, DigitOf;
    var c := CharOf(v % base, upper);
    CharReads(v % base, base, upper);
    if v < base {
      SmallMod(v, base);
      NoDigits(base);
      NumValSnoc([], c, base);
      assert [] + [c] == [c];
    } else {
      var w := TextOf(v / base, base, upper);
      QuotientLess(v, base);
      TextReads(v / base, base, upper);
      NumValSnoc(w, c, base);
    }
  }

  lemma TextStep(v: nat, base: nat, upper: bool)
    requires 2 <= base <= 36
    ensures TextOf(v, base, upper) ==
      (if v < base then [] else TextOf(v / base, base, upper)) + [CharOf(v % base, upper)]
  {
    if v < base {
      SmallMod(v, base);
    }
  }

  lemma NumValSnoc(w: seq<nat>, c: nat, base: nat)
    requires DigitOf(c) >= 0
    ensures NumVal(w + [c], base) == NumVal(w, base) * base + DigitOf(c)
  {
  }

  lemma QuotientLess(v: nat, base: nat)
    requires v >= base >= 2
    ensures 0 < v / base < v && v == v / base * base + v % base
  {
  }

  /** How long the text of a number below base^n is. */
  lemma {:induction false} TextLength(v: nat, base: nat, upper: bool, n: nat)
    requires 2 <= base <= 36 && n > 0 && v < Pow(base, n)
    ensures |TextOf(v, base, upper)| <= n
    decreases n
  {
    if v >= base {
      PowSucc(base, n - 1);
      PowZero(base);
      QuotientBelow(v, base, Pow(base, n - 1));
      TextLength(v / base, base, upper, n - 1);
    }
  }

  lemma QuotientBelow(v: nat, base: nat, p: nat)
    requires base > 0 && v < base * p
    ensures v / base < p
  {
  }

  /** A 64-bit number takes at most 22 digits in base 8 and above. */
  lemma {:induction false} SixtyFourBits(base: nat)
    requires base >= 8
    ensures TWO64 <= Pow(base, 22)
  {
    PowBase(8, base, 22);
    EightTo22();
  }

  lemma {:induction false} EightTo22()
    ensures Pow(8, 22) >= TWO64
  {
    hide Pow;
    PowThree(2);
    PowPow(2, 3, 22);
    Pow2Consts();
    PowAdd(2, 32, 32);
    PowMono(2, 64, 66);
  }

  /** The digits still to be written; none for zero. */
  ghost function Pending(v: nat, base: nat, upper: bool): seq<nat>
    requires 2 <= base <= 36
  {
    if v == 0 then [] else TextOf(v, base, upper)
  }

  /** Midway: the digits in place complete the pending ones, and there is room for those. */
  ghost predicate Midway(v: nat, tail: seq<nat>, text: seq<nat>, base: nat, upper: bool)
    requires 2 <= base <= 36
  {
    Pending(v, base, upper) + tail == text && |text| <= 22
  }

  lemma PendingStep(v: nat, base: nat, upper: bool)
    requires 2 <= base <= 36 && v > 0
    ensures Pending(v, base, upper) == Pending(v / base, base, upper) + [CharOf(v % base, upper)]
  {
    if v >= base {
      QuotientLess(v, base);
    } else {
      SmallMod(v, base);
      assert v / base == 0;
    }
  }

  lemma {:induction false} MidwayStep(v: nat, tail: seq<nat>, text: seq<nat>, base: nat, upper: bool)
    requires 2 <= base <= 36 && v > 0 && Midway(v, tail, text, base, upper)
    ensures Midway(v / base, [CharOf(v % base, upper)] + tail, text, base, upper) && |tail| < 22
  {
    PendingStep(v, base, upper);
    hide Pending, CharOf;
    Reassociate(Pending(v / base, base, upper), [CharOf(v % base, upper)], tail);
  }

  lemma Reassociate(a: seq<nat>, b: seq<nat>, c: seq<nat>)
    ensures a + b + c == a + (b + c)
  {
  }

  lemma MidwayDone(tail: seq<nat>, text: seq<nat>, base: nat, upper: bool)
    requires 2 <= base <= 36 && Midway(0, tail, text, base, upper)
    ensures tail == text
  {
  }

  lemma Shrinks(v: nat, base: nat)
    requires v > 0 && base >= 2
    ensures v / base < v
  {
  }

  /** `_u_digits`: the digits of `v` at the end of a 24-byte buffer; the answer is where they begin. */
  method Digits(buf: array<nat>, v0: nat, base: nat, upper: bool) returns (i: nat)
    requires buf.Length == 24 && v0 < TWO64 && 8 <= base <= 36
    modifies buf
    ensures i < 24 && buf[i..] == TextOf(v0, base, upper)
    ensures buf[..i] == old(buf[..i])
  {
    hide Midway, TextOf, CharOf, Pow;
    ghost var text := TextOf(v0, base, upper);
    StartMidway(v0, base, upper);
    assert buf[24..] == [];
    i := 24;
    var v: nat := v0;
    if v == 0 {
      i := i - 1;
      buf[i] := 48;
      return;
    }
    while v > 0
      invariant i <= 24 && Midway(v, buf[i..], text, base, upper)
      invariant buf[..i] == old(buf[..i])
      decreases v
    {
      var d: nat := v % base;
      ghost var tail := buf[i..];
      MidwayStep(v, tail, text, base, upper);
      Shrinks(v, base);
      v := v / base;
      i := i - 1;
      buf[i] := if d < 10 then 48 + d else if upper then 55 + d else 87 + d;
      CharIs(d, upper);
      assert buf[i..] == [CharOf(d, upper)] + tail;
    }
    MidwayDone(buf[i..], text, base, upper);
  }

  lemma CharIs(d: nat, upper: bool)
    ensures CharOf(d, upper) == if d < 10 then 48 + d else if upper then 55 + d else 87 + d
  {
  }

  lemma StartMidway(v: nat, base: nat, upper: bool)
    requires v < TWO64 && 8 <= base <= 36
    ensures v > 0 ==> Midway(v, [], TextOf(v, base, upper), base, upper)
    ensures v == 0 ==> TextOf(v, base, upper) == [48]
  {
    hide Pow;
    SixtyFourBits(base);
    TextLength(v, base, upper, 22);
    var t := TextOf(v, base, upper);
    assert t + [] == t;
  }

  /** Reading the written digits finds the whole text as its subject. */
  lemma {:induction false} TextIsSubject(v: nat, base: nat, upper: bool)
    requires 2 <= base <= 36
    ensures var t := TextOf(v, base, upper);
      SubjectOf(t, base) == Subject(false, base, 0) && SubjectDigits(t, base) == t && EndOf(t, base) == |t|
    ensures Magnitude(TextOf(v, base, upper), base) == v
  {
    var t := TextOf(v, base, upper);
    TextReads(v, base, upper);
    FirstIsPlain(v, base, upper);
    var e := DigitsEnd(t, 0, base);
    var c := At(t, e);
    assert e < |t| ==> IsDigit(c, base);
    assert e == |t|;
    assert t[0..|t|] == t;
  }

  lemma {:induction false} FirstIsPlain(v: nat, base: nat, upper: bool)
    requires 2 <= base <= 36
    ensures var t := TextOf(v, base, upper);
      !IsSpace(t[0]) && t[0] != 45 && t[0] != 43 && !HexPrefix(t, 0)
  {
    TextReads(v, base, upper);
    var t := TextOf(v, base, upper);
    assert IsDigit(t[0], base);
  }

  /** The same behind a minus sign: the whole text is the subject, and its value is negated. */
  lemma {:induction false} SignedText(v: nat, base: nat, upper: bool)
    requires 2 <= base <= 36
    ensures var s := [45] + TextOf(v, base, upper);
      ValueOf(s, base) == -(v as int) && EndOf(s, base) == |s|
  {
    var t := TextOf(v, base, upper);
    var s := [45] + t;
    TextReads(v, base, upper);
    FirstIsPlain(v, base, upper);
    assert At(s, 0) == 45 && s[1..] == t && s[1..|s|] == t;
    assert At(s, 1) == t[0] && At(s, 2) == At(t, 1) && At(s, 3) == At(t, 2);
    SpaceEndIs(s, 0);
    var e := DigitsEnd(s, 1, base);
    assert e == |s| by {
      assert forall k :: 1 <= k < |s| ==> s[k] == t[k - 1];
      DigitsWithin(s, 1, base, |s|);
    }
    hide NumVal, TextOf, DigitOf, SpaceEnd, DigitsEnd;
    assert SubjectOf(s, base) == Subject(true, base, 1);
    assert SubjectDigits(s, base) == t;
  }

  /** Writing a 64-bit number and reading it back is the identity, for every base from 8 to 36. */
  method WriteRead(v: nat, base: nat, upper: bool) returns (w: nat)
    requires v < TWO64 && 8 <= base <= 36
    ensures w == v
  {
    hide Magnitude, TextOf, SubjectOf, SubjectDigits;
    var buf := new nat[24];
    var i := Digits(buf, v, base, upper);
    TextIsSubject(v, base, upper);
    var erange, end;
    w, erange, end := StrToUL(buf[i..], base);
  }

  // ---------- texts, character by character ----------

  /** " -0x1Fg" in base 0 is -31, and the "g" is left. */
  method ReadHex() returns (v: int, erange: bool, end: nat)
    ensures v == -31 && !erange && end == 6
  {
    var s := [32, 45, 48, 120, 49, 70, 103];
    HexText(s);
    hide ValueOf, EndOf;
    v, erange, end := StrToL(s, 0);
  }

  lemma HexText(s: seq<nat>)
    requires s == [32, 45, 48, 120, 49, 70, 103]
    ensures ValueOf(s, 0) == -31 && EndOf(s, 0) == 6
  {
    var u := SubjectOf(s, 0);
    assert SpaceEnd(s, 1) == 1;
    assert u == Subject(true, 16, 4);
    assert DigitsEnd(s, 6, 16) == 6;
    assert DigitsEnd(s, 5, 16) == 6;
    assert SubjectDigits(s, 0) == [49, 70];
    assert [49, 70][..1] == [49] && [49][..0] == [];
  }
}
