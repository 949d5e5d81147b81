/**
 `strtod` on the decimal form: the scan of digits, point and exponent, the magnitude
 gate, the scaling and the walk.
 (Section 7.20.1.3 of ISO/IEC 9899:1999.)
 */
module Strtod {
  import opened Arith
  import opened CString
  import opened Digits
  import opened Binary64
  import opened DecimalWalk
  import opened Exponents
  import Dexp
  import Scaling

  predicate IsDig(c: nat) {
    48 <= c <= 57
  }

  /** Past this a further digit would not fit 64 bits. */
  const MLIM: nat := 1_844_674_407_370_955_161

  /** How many digits follow the point. */
  function FracLen(t: seq<nat>): nat {
    if t == [] || DOT !in t || t[|t| - 1] == DOT then 0 else 1 + FracLen(t[..|t| - 1])
  }

  /** `m * 10^k` is the scanned number `f` up to its dropped digits. */
  ghost predicate Kept(f: nat, m: nat, k: int) {
    && k >= 0 && m < TWO64
    && m * Pow(10, k) <= f < m * Pow(10, k) + Pow(10, k)
    && (m < MLIM ==> k == 0)
  }

  lemma {:induction false} KeptStart()
    ensures Kept(0, 0, 0)
  {
  }

  lemma {:induction false} KeptDigit(f: nat, m: nat, k: int, c: nat)
    requires Kept(f, m, k) && c < 10
    ensures m < MLIM ==> Kept(10 * f + c, 10 * m + c, k)
    ensures m >= MLIM ==> Kept(10 * f + c, m, k + 1)
  {
  }

  /** Digits before the point. */
  method ScanInt(s: seq<nat>, ds: nat) returns (i: nat, m: nat, x10: int, drop: bool)
    requires ds <= |s|
    ensures ds <= i <= |s| && AllDigits(s[ds..i]) && !IsDig(At(s, i))
    ensures Kept(TextVal(s[ds..i]), m, x10) && (x10 != 0 ==> drop)
  {
    hide TextVal, Kept;
    i, m, x10, drop := ds, 0, 0, false;
    KeptStart();
    TextEmpty();
    assert s[ds..ds] == [];
    while i < |s| && 48 <= s[i] <= 57
      invariant ds <= i <= |s| && AllDigits(s[ds..i])
      invariant Kept(TextVal(s[ds..i]), m, x10) && (x10 != 0 ==> drop)
      decreases |s| - i
    {
      AddChar(s, ds, i);
      KeptDigit(TextVal(s[ds..i]), m, x10, s[i] - 48);
      if m < MLIM {
        m := m * 10 + (s[i] - 48);
      } else {
        x10, drop := x10 + 1, true;
      }
      i := i + 1;
    }
  }

  lemma AddChar(s: seq<nat>, ds: nat, i: nat)
    requires ds <= i < |s| && IsDig(s[i])
    ensures TextVal(s[ds..i + 1]) == 10 * TextVal(s[ds..i]) + (s[i] - 48)
    ensures AllDigits(s[ds..i]) ==> AllDigits(s[ds..i + 1])
    ensures DOT in s[ds..i] ==> FracLen(s[ds..i + 1]) == 1 + FracLen(s[ds..i])
  {
    assert s[ds..i + 1] == s[ds..i] + [s[i]];
    hide TextVal, FracLen;
    SnocText(s[ds..i], s[i]);
    if DOT in s[ds..i] {
      SnocFrac(s[ds..i], s[i]);
    }
  }

  lemma SnocText(t: seq<nat>, c: nat)
    requires IsDig(c)
    ensures TextVal(t + [c]) == 10 * TextVal(t) + (c - 48)
  {
  }

  lemma SnocFrac(t: seq<nat>, c: nat)
    requires IsDig(c) && DOT in t
    ensures FracLen(t + [c]) == 1 + FracLen(t)
  {
  }

  /** Digits after the point at `p`. */
  method ScanFrac(s: seq<nat>, ds: nat, p: nat, m0: nat, x0: int, drop0: bool)
    returns (i: nat, m: nat, x10: int, fd: nat, drop: bool)
    requires ds <= p < |s| && AllDigits(s[ds..p]) && s[p] == DOT
    requires Kept(TextVal(s[ds..p]), m0, x0) && (x0 != 0 ==> drop0)
    ensures p < i <= |s| && IsText(s[ds..i]) && AllDigits(s[p + 1..i]) && !IsDig(At(s, i))
    ensures Kept(TextVal(s[ds..i]), m, x10 + fd) && fd == i - p - 1 == FracLen(s[ds..i])
    ensures x10 + fd != 0 ==> drop
  {
    hide TextVal, Kept, FracLen;
    i, m, x10, fd, drop := p + 1, m0, x0, 0, drop0;
    PointRead(s, ds, p);
    while i < |s| && 48 <= s[i] <= 57
      invariant p < i <= |s| && IsText(s[ds..i]) && AllDigits(s[p + 1..i]) && DOT in s[ds..i]
      invariant Kept(TextVal(s[ds..i]), m, x10 + fd) && fd == i - p - 1 == FracLen(s[ds..i])
      invariant x10 + fd != 0 ==> drop
      decreases |s| - i
    {
      AddChar(s, ds, i);
      KeptDigit(TextVal(s[ds..i]), m, x10 + fd, s[i] - 48);
      assert s[ds..i + 1] == s[ds..i] + [s[i]];
      assert s[p + 1..i + 1] == s[p + 1..i] + [s[i]];
      if m < MLIM {
        m, x10 := m * 10 + (s[i] - 48), x10 - 1;
      } else {
        drop := true;
      }
      i, fd := i + 1, fd + 1;
    }
  }

  lemma PointRead(s: seq<nat>, ds: nat, p: nat)
    requires ds <= p < |s| && AllDigits(s[ds..p]) && s[p] == DOT
    ensures TextVal(s[ds..p + 1]) == TextVal(s[ds..p]) && IsText(s[ds..p + 1])
    ensures DOT in s[ds..p + 1] && FracLen(s[ds..p + 1]) == 0
  {
    assert s[ds..p + 1] == s[ds..p] + [DOT];
    assert s[ds..p + 1][..p - ds] == s[ds..p];
  }

  /** The exponent digits, saturating so that no string overflows the accumulator. */
  function SatVal(t: seq<nat>): nat {
    if t == [] then 0
    else var v := SatVal(t[..|t| - 1]); if v < 100_000 then 10 * v + Digit(t[|t| - 1]) else v
  }

  /** The accumulator is right exactly below a million; beyond that it stands at six digits. */
  lemma {:induction false} SatExact(t: seq<nat>)
    requires AllDigits(t)
    ensures SatVal(t) == DigVal(t) <==> DigVal(t) < 1_000_000
    ensures DigVal(t) >= 1_000_000 ==> 100_000 <= SatVal(t) < 1_000_000
  {
    if t != [] {
      SatExact(t[..|t| - 1]);
    }
  }

  /** The exponent field at `de`, when there is one: a letter, a sign, at least one digit. */
  ghost predicate IsExpField(s: seq<nat>, de: nat, i: nat, ex: int) {
    var c := At(s, de);
    var j := if At(s, de + 1) == 45 || At(s, de + 1) == 43 then de + 2 else de + 1;
    if (c == 101 || c == 69) && IsDig(At(s, j)) then
      && j < i <= |s| && AllDigits(s[j..i]) && !IsDig(At(s, i))
      && ex == if At(s, de + 1) == 45 then -(SatVal(s[j..i]) as int) else SatVal(s[j..i])
    else
      i == de && ex == 0
  }

  /** The exponent the text denotes. */
  function TrueExp(s: seq<nat>, de: nat, i: nat): int
    requires i <= |s|
  {
    var j := if At(s, de + 1) == 45 || At(s, de + 1) == 43 then de + 2 else de + 1;
    if j >= i then 0
    else if At(s, de + 1) == 45 then -(DigVal(s[j..i]) as int)
    else DigVal(s[j..i])
  }

  /** The field's exponent is the true one exactly when that is below a million; else it has its sign
      and six digits. */
  lemma {:induction false} ExpFieldIs(s: seq<nat>, de: nat, i: nat, ex: int)
    requires de <= i <= |s| && IsExpField(s, de, i, ex)
    ensures ex == TrueExp(s, de, i) <==> Abs(TrueExp(s, de, i)) < 1_000_000
    ensures TrueExp(s, de, i) >= 1_000_000 ==> 100_000 <= ex < 1_000_000
    ensures TrueExp(s, de, i) <= -1_000_000 ==> -1_000_000 < ex <= -100_000
  {
    hide DigVal, SatVal;
    var j := if At(s, de + 1) == 45 || At(s, de + 1) == 43 then de + 2 else de + 1;
    if j < i {
      SatExact(s[j..i]);
    }
  }

  method ScanExp(s: seq<nat>, de: nat) returns (i: nat, ex: int)
    requires de <= |s|
    ensures de <= i <= |s| && IsExpField(s, de, i, ex)
  {
    i, ex := de, 0;
    if At(s, i) == 101 || At(s, i) == 69 {
      var j: nat, esign: int := i + 1, 1;
      if At(s, j) == 45 {
        esign, j := -1, j + 1;
      } else if At(s, j) == 43 {
        j := j + 1;
      }
      if IsDig(At(s, j)) {
        var e: nat;
        i, e := ScanExpDigits(s, j);
        ex := esign * e;
      }
    }
  }

  lemma NoDigitsYet()
    ensures AllDigits([]) && SatVal([]) == 0
  {
  }

  lemma MoreDigits(s: seq<nat>, j0: nat, j: nat)
    requires j0 <= j < |s| && AllDigits(s[j0..j]) && 48 <= s[j] <= 57
    ensures AllDigits(s[j0..j + 1])
    ensures var e := SatVal(s[j0..j]); SatVal(s[j0..j + 1]) == if e < 100_000 then e * 10 + (s[j] - 48) else e
  {
    var t := s[j0..j + 1];
    assert t[..|t| - 1] == s[j0..j] && t[|t| - 1] == s[j];
  }

  method ScanExpDigits(s: seq<nat>, j0: nat) returns (j: nat, e: nat)
    requires j0 < |s| && IsDig(s[j0])
    ensures j0 < j <= |s| && AllDigits(s[j0..j]) && !IsDig(At(s, j)) && e == SatVal(s[j0..j])
  {
    j, e := j0, 0;
    assert s[j0..j0] == [];
    hide SatVal, AllDigits;
    NoDigitsYet();
    while j < |s| && 48 <= s[j] <= 57
      invariant j0 <= j <= |s| && AllDigits(s[j0..j]) && e == SatVal(s[j0..j])
      invariant j == j0 ==> IsDig(At(s, j))
      decreases |s| - j
    {
      MoreDigits(s, j0, j);
      if e < 100_000 {
        e := e * 10 + (s[j] - 48);
      }
      j := j + 1;
    }
  }

  /** What a scan found: the mantissa text is s[ds..de], the exponent field runs to `i`; `end` is what
      the end pointer is set to, the start of the string when there was no digit. */
  datatype Scan = Scan(i: nat, end: nat, ds: nat, de: nat, m: nat, x10: int, fd: nat, ex: int, drop: bool)

  /** Where the integer digits, the point and the fraction digits end. */
  ghost predicate IsMantissa(s: seq<nat>, ds: nat, de: nat) {
    exists p: nat :: ds <= p <= de <= |s| && AllDigits(s[ds..p]) && !IsDig(At(s, p)) &&
      if At(s, p) == DOT then p < de && AllDigits(s[p + 1..de]) && !IsDig(At(s, de)) else de == p
  }

  /** Is there a digit in the mantissa text? */
  predicate HasDigit(s: seq<nat>, ds: nat, de: nat)
    requires de <= |s|
  {
    de > ds + 1 || (de == ds + 1 && s[ds] != DOT)
  }

  ghost predicate IsScan(s: seq<nat>, r: Scan) {
    && r.ds <= r.de <= r.i <= |s| && IsText(s[r.ds..r.de]) && IsMantissa(s, r.ds, r.de)
    && r.fd == FracLen(s[r.ds..r.de])
    && (if HasDigit(s, r.ds, r.de) then IsExpField(s, r.de, r.i, r.ex) && r.end == r.i
        else r.i == r.de && r.ex == 0 && r.end == 0)
    && Kept(TextVal(s[r.ds..r.de]), r.m, r.x10 - (r.ex - r.fd))
    && (r.x10 - (r.ex - r.fd) != 0 ==> r.drop)
  }

  lemma {:induction false} NoPoint(t: seq<nat>)
    requires AllDigits(t)
    ensures FracLen(t) == 0 && IsText(t)
  {
  }

  method ScanDecimal(s: seq<nat>, ds: nat) returns (r: Scan)
    requires ds <= |s|
    ensures IsScan(s, r) && r.ds == ds
  {
    hide TextVal, Kept, FracLen, IsExpField;
    var i, m, x10, drop := ScanInt(s, ds);
    NoPoint(s[ds..i]);
    ghost var p := i;
    var fd := 0;
    var any := i > ds;
    if At(s, i) == 46 {
      i, m, x10, fd, drop := ScanFrac(s, ds, i, m, x10, drop);
      any := any || fd > 0;
    }
    var de := i;
    var ex := 0;
    if any {
      i, ex := ScanExp(s, de);
    }
    r := Scan(i, if any then i else 0, ds, de, m, x10 + ex, fd, ex, drop);
    assert IsMantissa(s, ds, de) by {
      assert ds <= p <= de;
    }
  }

  /** The grammar: digits with or without a point among them, at least one; then perhaps a letter, a
      sign or none, and digits. */
  ghost predicate Parses(s: seq<nat>, ds: nat, e: nat, p: nat, de: nat, j: nat) {
    && ds <= p <= de <= e <= |s| && AllDigits(s[ds..p])
    && (de == p || (s[p] == DOT && AllDigits(s[p + 1..de])))
    && (p > ds || de > p + 1)
    && (e == de
        || (de < j < e && (s[de] == 101 || s[de] == 69) && AllDigits(s[j..e])
            && (j == de + 1 || (j == de + 2 && (s[de + 1] == 43 || s[de + 1] == 45)))))
  }

  /** The end pointer stands behind the longest text the grammar admits, at the start when there is none. */
  lemma LongestDecimal(s: seq<nat>, r: Scan)
    requires IsScan(s, r)
    ensures HasDigit(s, r.ds, r.de) ==> exists p: nat, j: nat :: Parses(s, r.ds, r.end, p, r.de, j)
    ensures forall e: nat, p: nat, de: nat, j: nat :: Parses(s, r.ds, e, p, de, j) ==>
      HasDigit(s, r.ds, r.de) && e <= r.end
    ensures !HasDigit(s, r.ds, r.de) ==> r.end == 0
  {
    if HasDigit(s, r.ds, r.de) {
      FoundDecimal(s, r);
    }
    forall e: nat, p: nat, de: nat, j: nat | Parses(s, r.ds, e, p, de, j)
      ensures HasDigit(s, r.ds, r.de) && e <= r.end
    {
      MantissaIs(s, r.ds, r.de, p, de);
      if e > de {
        ExponentIs(s, r, e, de, j);
      }
    }
  }

  lemma Pointwise(t: seq<nat>, a: nat, b: nat)
    requires a <= b <= |t| && AllDigits(t[a..b])
    ensures forall i :: a <= i < b ==> IsDig(t[i])
  {
  }

  lemma {:induction false} FracLenIs(t: seq<nat>, p: nat)
    requires p < |t| && t[p] == DOT && AllDigits(t[p + 1..])
    ensures FracLen(t) == |t| - p - 1
  {
    if p < |t| - 1 {
      var u := t[..|t| - 1];
      assert u[p + 1..] == t[p + 1..][..|t| - p - 2];
      assert t[|t| - 1] == t[p + 1..][|t| - p - 2];
      assert u[p] == DOT;
      FracLenIs(u, p);
    }
  }

  /** The mantissa found is the longest: any other ends before it, at a digit or the point, or with it. */
  lemma MantissaIs(s: seq<nat>, ds: nat, end: nat, p: nat, de: nat)
    requires ds <= end <= |s| && IsMantissa(s, ds, end)
    requires ds <= p <= de <= |s| && AllDigits(s[ds..p]) && (p > ds || de > p + 1)
    requires de == p || (s[p] == DOT && AllDigits(s[p + 1..de]))
    ensures HasDigit(s, ds, end) && de <= end
    ensures de < end ==> s[de] == DOT || IsDig(s[de])
  {
    var q: nat :| ds <= q <= end <= |s| && AllDigits(s[ds..q]) && !IsDig(At(s, q)) &&
      if At(s, q) == DOT then q < end && AllDigits(s[q + 1..end]) && !IsDig(At(s, end)) else end == q;
    Pointwise(s, ds, p);
    Pointwise(s, ds, q);
    assert p <= q by {
      var c := At(s, q);
      assert q < p ==> IsDig(c);
    }
    if de > p {
      Pointwise(s, p + 1, de);
      var c := At(s, end);
      assert de > end ==> IsDig(c);
    }
    if At(s, q) == DOT {
      Pointwise(s, q + 1, end);
    }
  }

  /** An exponent part is the field's, or ends before it. */
  lemma ExponentIs(s: seq<nat>, r: Scan, e: nat, de: nat, j: nat)
    requires IsScan(s, r) && HasDigit(s, r.ds, r.de) && de <= r.de
    requires de < r.de ==> s[de] == DOT || IsDig(s[de])
    requires de < j < e <= |s| && (s[de] == 101 || s[de] == 69) && AllDigits(s[j..e])
    requires j == de + 1 || (j == de + 2 && (s[de + 1] == 43 || s[de + 1] == 45))
    ensures e <= r.i
  {
    hide Kept, FracLen, TextVal, IsMantissa;
    assert de == r.de;
    Pointwise(s, j, e);
    assert IsDig(s[j]);
    var c := At(s, r.i);
    assert e > r.i ==> IsDig(c);
  }

  lemma FoundDecimal(s: seq<nat>, r: Scan)
    requires IsScan(s, r) && HasDigit(s, r.ds, r.de)
    ensures exists p: nat, j: nat :: Parses(s, r.ds, r.end, p, r.de, j)
  {
    hide Kept, FracLen, TextVal;
    var p: nat :| r.ds <= p <= r.de && AllDigits(s[r.ds..p]) && !IsDig(At(s, p)) &&
      if At(s, p) == DOT then p < r.de && AllDigits(s[p + 1..r.de]) && !IsDig(At(s, r.de)) else r.de == p;
    var j: nat := if At(s, r.de + 1) == 45 || At(s, r.de + 1) == 43 then r.de + 2 else r.de + 1;
    assert Parses(s, r.ds, r.end, p, r.de, j);
  }

  // ---------- the magnitude gate ----------

  /** The mantissa without the trailing zeros of a fraction. */
  function Stripped(m: nat, x10: int): (nat, int) {
    if m != 0 && x10 < 0 && m % 10 == 0 then Stripped(m / 10, x10 + 1) else (m, x10)
  }

  /** Dropping trailing zeros of a fraction keeps the scanned value. */
  method StripZeros(m0: nat, x0: int, ghost f: nat, ghost y: int) returns (m: nat, x10: int)
    requires Within(f, m0, x0 - y)
    ensures Within(f, m, x10 - y) && m <= m0 && (m == 0 <==> m0 == 0)
    ensures (m, x10) == Stripped(m0, x0) && SameNumber(m0, x0, m, x10)
  {
    hide Within, SameNumber;
    m, x10 := m0, x0;
    SameSelf(m, x10);
    while m != 0 && x10 < 0 && m % 10 == 0
      invariant Stripped(m, x10) == Stripped(m0, x0) && SameNumber(m0, x0, m, x10)
      invariant Within(f, m, x10 - y) && m <= m0 && (m == 0 <==> m0 == 0)
      decreases m
    {
      WithinTen(f, m / 10, x10 - y);
      SameTenth(m0, x0, m / 10, x10);
      m, x10 := m / 10, x10 + 1;
    }
  }

  /** `f` lies in the `m`-th interval of 10^k. */
  ghost predicate Within(f: nat, m: nat, k: int) {
    k >= 0 && m * Pow(10, k) <= f < m * Pow(10, k) + Pow(10, k)
  }

  lemma {:induction false} WithinTen(f: nat, q: nat, k: int)
    requires Within(f, 10 * q, k)
    ensures Within(f, q, k + 1)
  {
  }

  /** The magnitude the source computes from its nineteen digits is the decimal's. */
  lemma {:induction false} MagnitudeIs(f: nat, m: nat, k: int, y: int)
    requires Within(f, m, k) && m > 0
    ensures f > 0 && y + k - 1 + NumDigits(m) == Magnitude(f, y)
  {
    NumDigitsIs(m);
    NumDigitsIs(f);
    var n := NumDigits(m);
    PowAdd(10, n - 1, k);
    PowAdd(10, n, k);
    hide Pow, NumDigits;
    MulLe(Pow(10, n - 1), m, Pow(10, k));
    MulLe(m + 1, Pow(10, n), Pow(10, k));
    Distrib(m, 1, Pow(10, k));
    MulPositive(Pow(10, n - 1), Pow(10, k));
    HasDigitsUnique(f, NumDigits(f), n + k);
  }

  /** The counting loop: `t` divided away, one magnitude a digit. */
  method CountMagnitude(m: nat, x10: int) returns (mag: int)
    ensures mag == x10 - 1 + NumDigits(m)
  {
    var t := m;
    mag := x10 - 1;
    while t > 0
      invariant mag + NumDigits(t) == x10 - 1 + NumDigits(m)
    {
      t := t / 10;
      mag := mag + 1;
    }
  }

  /** Past 10^310 every decimal rounds to infinity. */
  lemma {:induction false} HugeIsInfinite(f: nat, y: int)
    requires f > 0 && Magnitude(f, y) > 309
    ensures IsNearest(Num(f, y), Den(y), INF)
  {
    hide Pow, Halfway, Scaled;
    var n, t := NumDigits(f), Pow(2, 1074);
    NumDigitsIs(f);
    HalfwayBelow(INF - 1);
    Dexp.TwoBelowTen();
    PowZero(10);
    PowSucc(2, 1074);
    PowAdd(2, 1024, 1075);
    if y >= 0 {
      PowAdd(10, n - 1, y);
      PowMono(10, 309, n - 1 + y);
      MulLe(Pow(10, n - 1), f, Pow(10, y));
      PastHalfway(Halfway(INF - 1), 1, f * Pow(10, y), Pow(2, 1024), Pow(2, 1075), Pow(2, 2099));
    } else {
      PowAdd(10, 309, -y);
      PowMono(10, 309 - y, n - 1);
      MulLe(Pow(2, 1024), Pow(10, 309), Pow(10, -y));
      PastHalfway(Halfway(INF - 1), Pow(10, -y), f, Pow(2, 1024), Pow(2, 1075), Pow(2, 2099));
    }
    TimesTwo(f * Pow(10, Pos(y)), t);
    FixedPointIsNearest(Num(f, y), Den(y), INF);
  }

  lemma PastHalfway(h: nat, u: nat, w: nat, a: nat, t: nat, p: nat)
    requires h < p && p == a * t && a * u <= w && u > 0
    ensures h * u < w * t
  {
  }

  /** Below 10^-325 every decimal rounds to zero. */
  lemma {:induction false} TinyIsZero(f: nat, y: int)
    requires f > 0 && Magnitude(f, y) < -325
    ensures IsNearest(Num(f, y), Den(y), 0)
  {
    hide Pow, Scaled;
    var n, t := NumDigits(f), Pow(2, 1074);
    NumDigitsIs(f);
    Dexp.TwoBelowTen();
    Dexp.TenAndTwo();
    PowZero(10);
    PowZero(2);
    PowSucc(10, 324);
    PowAdd(10, 325, n);
    PowMono(10, 325 + n, -y);
    assert Halfway(0) == 1;
    hide Halfway;
    BelowFirstHalf(f, t, Pow(10, n), Pow(10, 325));
    FixedPointIsNearest(Num(f, y), Den(y), 0);
  }

  lemma BelowFirstHalf(f: nat, t: nat, p: nat, q: nat)
    requires f < p && 2 * t <= q && t > 0
    ensures 2 * (f * 1 * t) < q * p
  {
    MulLt(f, p, 2 * t);
    MulLe(2 * t, q, p);
    TimesTwo(f, t);
  }

  lemma {:induction false} ZeroIsZero(y: int)
    ensures IsNearest(Num(0, y), Den(y), 0)
  {
    ZeroIsBelow(y, 0);
    StepUpIsSign(0, y, 0);
    hide Num, Halfway, Den, Scaled, StepUp, HalfSign;
    FixedPointIsNearest(Num(0, y), Den(y), 0);
  }

  /** The largest finite pattern, to which an overflowed guess is brought back. */
  const MAXFINITE: nat := INF - 1

  /** `t` is the correctly rounded pattern of the digits scanned and an exponent. */
  ghost predicate RoundsWith(s: seq<nat>, r: Scan, ex: int, t: nat)
    requires IsScan(s, r)
  {
    IsNearest(Num(TextVal(s[r.ds..r.de]), ex - r.fd), Den(ex - r.fd), t)
  }

  /** `t` is the correctly rounded pattern of the decimal the text denotes. */
  ghost predicate RoundsTo(s: seq<nat>, r: Scan, t: nat)
    requires IsScan(s, r)
  {
    RoundsWith(s, r, TrueExp(s, r.de, r.i), t)
  }

  /** What keeps the saturated exponent from showing: it did not saturate, or the mantissa is short. */
  predicate Settled(s: seq<nat>, r: Scan)
    requires r.i <= |s|
  {
    Abs(TrueExp(s, r.de, r.i)) < 1_000_000 || r.de - r.ds <= 99_675
  }

  /**
   What keeps the saturated exponent from showing, for every text: the exponent written is below a
   million, or the digits are all zeros, or the number overflows with the accumulated exponent (and so with
   the greater one), or vanishes with the one written; the other way round for a negative one.
   */
  predicate Unshown(s: seq<nat>, r: Scan)
    requires r.ds <= r.de <= |s| && r.i <= |s|
  {
    var e, f := TrueExp(s, r.de, r.i), TextVal(s[r.ds..r.de]);
    || Abs(e) < 1_000_000 || f == 0
    || (if e > 0 then Overflows(f, r.ex - r.fd) || Vanishes(f, e - r.fd)
        else Overflows(f, e - r.fd) || Vanishes(f, r.ex - r.fd))
  }

  /**
   A decimal string to bits: the correctly rounded double of the digits with the accumulated exponent,
   overflow and underflow included.  It is that of the decimal itself exactly for an `Unshown` exponent,
   which all below a million and all behind at most 99675 characters are.  `range` is the range error:
   infinity, or a nonzero decimal that becomes zero or subnormal.
   */
  method DecimalToBits(s: seq<nat>, ds: nat) returns (b: nat, r: Scan, range: bool)
    requires ds <= |s|
    ensures IsScan(s, r) && r.ds == ds && RoundsWith(s, r, r.ex, b)
    ensures RoundsTo(s, r, b) <==> Unshown(s, r)
    ensures Settled(s, r) ==> RoundsTo(s, r, b)
    ensures range <==> b == INF || (TextVal(s[ds..r.de]) > 0 && b < TWO52)
  {
    hide TextVal, Num, Den, IsNearest, Kept, IsMantissa, IsExpField, FracLen, Within, NumDigits, SameNumber, TrueExp, Settled,
      RoundsTo, Unshown, HasDigit;
    r := ScanDecimal(s, ds);
    SettledRounds(s, r);
    ghost var f: nat := TextVal(s[ds..r.de]);
    var y := r.ex - r.fd;
    b, range := ScanToBits(s[ds..r.de], y, r.m, r.x10, r.drop);
    SaturationShows(s, r, b);
  }

  /** From the kept integer on: zeros off, gate, scaling and walk. */
  method ScanToBits(t: seq<nat>, y: int, m0: nat, x0: int, drop: bool) returns (b: nat, range: bool)
    requires IsText(t) && Kept(TextVal(t), m0, x0 - y) && (x0 != y ==> drop)
    ensures IsNearest(Num(TextVal(t), y), Den(y), b)
    ensures range <==> b == INF || (TextVal(t) > 0 && b < TWO52)
  {
    hide TextVal, Num, Den, IsNearest, Kept, Within, NumDigits, SameNumber;
    ghost var f: nat := TextVal(t);
    KeptWithin(f, m0, x0 - y);
    var m, x10 := StripZeros(m0, x0, f, y);
    var slow := drop || m > 9_007_199_254_740_992 || x10 > 22 || x10 < -22;
    if m == 0 {
      ZeroScan(f, m0, x0 - y);
      ZeroIsZero(y);
      return 0, false;
    }
    var mag := CountMagnitude(m, x10);
    MagnitudeIs(f, m, x10 - y, y);
    if mag > 309 {
      HugeIsInfinite(f, y);
      return INF, true;
    }
    if mag < -325 {
      TinyIsZero(f, y);
      return 0, true;
    }
    KeptBound(f, m0, x0 - y);
    TwentyDigits(m);
    b := Scaling.Scale(m, x10);
    if slow {
      ghost var n: nat, u: nat := Num(f, y), Den(y);
      ghost var t0 := TheNearest(n, u);
      GuessNear(f, y, m0, x0 - y, m, x10, b);
      Scaling.WithinReach(b, n, u, t0);
      b := if b > MAXFINITE then MAXFINITE else b;
      b := SdFix(t, y, b);
    } else {
      KeptExact(f, m0, x0 - y);
      SameNearest(f, y, m, x10, b);
    }
    range := b > MAXFINITE || b < TWO52;
    Scaling.NearestAtMost(Num(f, y), Den(y), b);
  }

  lemma KeptBound(f: nat, m: nat, k: int)
    requires Kept(f, m, k)
    ensures m < TWO64
  {
  }

  /** Sixty-four bits are at most twenty digits. */
  lemma {:induction false} TwentyDigits(m: nat)
    requires 0 < m < TWO64
    ensures 0 < NumDigits(m) <= 20
  {
    NumDigitsIs(m);
    hide NumDigits;
    if NumDigits(m) > 20 {
      TenTo16();
      PowAdd(10, 16, 4);
      assert Pow(10, 4) == 10_000;
      PowMono(10, 20, NumDigits(m) - 1);
    }
  }

  /** Scaled from the kept digits, the guess is near the whole decimal too. */
  lemma {:induction false} GuessNear(f: nat, y: int, m0: nat, k: int, m: nat, x: int, v: nat)
    requires Kept(f, m0, k) && m0 > 0 && SameNumber(m0, y + k, m, x) && Scaling.Near(v, Num(m, x), Den(x), 18, 1)
    ensures Scaling.Near(v, Num(f, y), Den(y), 19, 1)
  {
    hide Scaling.Near, Num, Den, Pow;
    var g := m0 * Pow(10, k);
    ShiftedNumber(m0, y, k);
    CrossMultiply(Num(g, y), Den(y), Num(m0, y + k), Den(y + k), Num(m, x), Den(x));
    Scaling.NearSame(v, Num(m, x), Den(x), Num(g, y), Den(y), 18);
    DroppedPart(f, g, m0, k, y);
    Scaling.NearMore(v, Num(g, y), Den(y), Num(f, y), Den(y), 18);
  }

  lemma NumTimes(f: nat, y: int)
    ensures Num(f, y) * Den(y) == f * (Pow(10, Pos(y)) * (Pow(2, 1074) * Den(y)))
  {
    hide Pow, Den;
    var a, t, d := Pow(10, Pos(y)), Pow(2, 1074), Den(y);
    MulAssoc(f * a, t, d);
    MulAssoc(f, a, t * d);
  }

  lemma Spread(f: nat, g: nat, e: nat, c: nat, t: nat)
    requires f == g + e && e * t <= g
    ensures g * c <= f * c && (f * c - g * c) * t <= g * c
  {
    Distrib(g, e, c);
    MulLe(e * t, g, c);
    MulSwap(e, t, c);
  }

  lemma DroppedDigits(f: nat, g: nat, m0: nat, k: int, p: nat)
    requires Kept(f, m0, k) && p == Pow(10, k) && g == m0 * p
    ensures 0 <= f - g && (f - g) * TWO52 <= g
  {
    hide Pow;
    PowZero(10);
    if k > 0 {
      MulLe(MLIM, m0, p);
    }
  }

  /** What was dropped is less than one part in 2^52. */
  lemma {:induction false} DroppedPart(f: nat, g: nat, m0: nat, k: int, y: int)
    requires Kept(f, m0, k) && m0 > 0 && g == m0 * Pow(10, k)
    ensures Num(g, y) * Den(y) <= Num(f, y) * Den(y)
    ensures (Num(f, y) * Den(y) - Num(g, y) * Den(y)) * TWO52 <= Num(g, y) * Den(y)
  {
    hide Pow, Num, Den;
    var e := f - g;
    DroppedDigits(f, g, m0, k, Pow(10, k));
    var c := Pow(10, Pos(y)) * (Pow(2, 1074) * Den(y));
    NumTimes(f, y);
    NumTimes(g, y);
    Spread(f, g, e, c, TWO52);
  }

  lemma KeptExact(f: nat, m: nat, k: int)
    requires Kept(f, m, k) && k == 0
    ensures f == m
  {
    PowZero(10);
  }

  // ---------- the saturated exponent ----------

  lemma {:induction false} StrippedLength(t: seq<nat>)
    requires IsText(t)
    ensures AllDigits(Strip(t)) && |Strip(t)| <= |t|
  {
    if t != [] {
      StrippedLength(t[..|t| - 1]);
    }
  }

  lemma {:induction false} FracLenBound(t: seq<nat>)
    ensures FracLen(t) <= |t|
    decreases |t|
  {
    if t != [] {
      FracLenBound(t[..|t| - 1]);
    }
  }

  /** A text has no more significant digits than characters. */
  lemma {:induction false} FewDigits(t: seq<nat>)
    requires IsText(t)
    ensures NumDigits(TextVal(t)) <= |t|
  {
    hide Pow, NumDigits, DigVal;
    var f := TextVal(t);
    StrippedLength(t);
    DigBound(Strip(t));
    PowMono(10, |Strip(t)|, |t|);
    NumDigitsIs(f);
    if NumDigits(f) > |t| {
      PowMono(10, |t|, NumDigits(f) - 1);
    }
  }

  /** Both readings of a saturated exponent lie past the gate on the same side. */
  lemma {:induction false} FarExponent(s: seq<nat>, r: Scan, ex: int)
    requires IsScan(s, r) && r.de - r.ds <= 99_675 && TextVal(s[r.ds..r.de]) > 0
    ensures ex >= 100_000 ==> RoundsWith(s, r, ex, INF)
    ensures ex <= -100_000 ==> RoundsWith(s, r, ex, 0)
  {
    hide TextVal, NumDigits, Kept, IsMantissa, IsExpField, FracLen, TrueExp, Num, Den, IsNearest;
    var t := s[r.ds..r.de];
    FewDigits(t);
    FracLenBound(t);
    SomeDigits(TextVal(t));
    if ex >= 100_000 {
      HugeIsInfinite(TextVal(t), ex - r.fd);
    } else if ex <= -100_000 {
      TinyIsZero(TextVal(t), ex - r.fd);
    }
  }

  lemma SomeDigits(f: nat)
    requires f > 0
    ensures NumDigits(f) > 0
  {
  }

  /** Where the text is settled, the accumulated exponent rounds as the true one. */
  lemma {:induction false} SettledRounds(s: seq<nat>, r: Scan)
    requires IsScan(s, r)
    ensures Settled(s, r) ==> forall t: nat :: RoundsTo(s, r, t) <==> RoundsWith(s, r, r.ex, t)
  {
    hide TextVal, NumDigits, Kept, IsMantissa, IsExpField, FracLen, TrueExp, Num, Den, IsNearest;
    var e := TrueExp(s, r.de, r.i);
    var f := TextVal(s[r.ds..r.de]);
    if !HasDigit(s, r.ds, r.de) {
      NoExponent(s, r.de);
    } else {
      ExpFieldIs(s, r.de, r.i, r.ex);
      if r.de - r.ds <= 99_675 && Abs(e) >= 1_000_000 {
        if f == 0 {
          ZeroIsZero(e - r.fd);
          ZeroIsZero(r.ex - r.fd);
          BothOne(s, r, e, r.ex, 0);
        } else {
          FarExponent(s, r, e);
          FarExponent(s, r, r.ex);
          BothOne(s, r, e, r.ex, if e > 0 then INF else 0);
        }
      }
    }
  }

  lemma NoExponent(s: seq<nat>, de: nat)
    requires de <= |s|
    ensures TrueExp(s, de, de) == 0
  {
  }

  lemma BothOne(s: seq<nat>, r: Scan, e: int, ex: int, b: nat)
    requires IsScan(s, r) && RoundsWith(s, r, e, b) && RoundsWith(s, r, ex, b)
    ensures forall t: nat :: RoundsWith(s, r, e, t) <==> RoundsWith(s, r, ex, t)
  {
    hide TextVal, Num, Den, IsNearest;
    OnlyOne(Num(TextVal(s[r.ds..r.de]), e - r.fd), Den(e - r.fd), b);
    OnlyOne(Num(TextVal(s[r.ds..r.de]), ex - r.fd), Den(ex - r.fd), b);
  }

  lemma KeptWithin(f: nat, m: nat, k: int)
    requires Kept(f, m, k)
    ensures Within(f, m, k)
  {
  }

  lemma {:induction false} ZeroScan(f: nat, m: nat, k: int)
    requires Kept(f, m, k) && m == 0
    ensures f == 0
  {
  }

  /** The decimal has one correctly rounded double. */
  lemma OneDouble(s: seq<nat>, r: Scan, a: nat, b: nat)
    requires IsScan(s, r) && RoundsTo(s, r, a) && RoundsTo(s, r, b)
    ensures a == b
  {
    hide TextVal, Num, Den, IsNearest, TrueExp;
    var y := TrueExp(s, r.de, r.i) - r.fd;
    OnlyOne(Num(TextVal(s[r.ds..r.de]), y), Den(y), a);
  }

  /** With the accumulated exponent's double in hand, the text says whether it is the decimal's. */
  lemma {:induction false} SaturationShows(s: seq<nat>, r: Scan, b: nat)
    requires IsScan(s, r) && RoundsWith(s, r, r.ex, b)
    ensures RoundsTo(s, r, b) <==> Unshown(s, r)
  {
    hide TextVal, Num, Den, IsNearest, Kept, IsMantissa, IsExpField, FracLen, TrueExp, Overflows, Vanishes;
    var e, f := TrueExp(s, r.de, r.i), TextVal(s[r.ds..r.de]);
    if f == 0 {
      ZeroIsZero(e - r.fd);
      ZeroIsZero(r.ex - r.fd);
      OnlyOne(Num(f, r.ex - r.fd), Den(r.ex - r.fd), 0);
    } else if !HasDigit(s, r.ds, r.de) {
      NoExponent(s, r.de);
    } else {
      ExpFieldIs(s, r.de, r.i, r.ex);
      if Abs(e) >= 1_000_000 {
        var want := TheNearest(Num(f, e - r.fd), Den(e - r.fd));
        OnlyOne(Num(f, e - r.fd), Den(e - r.fd), want);
        if e > 0 {
          TwoExponents(f, r.ex - r.fd, e - r.fd, b, want);
        } else {
          TwoExponents(f, e - r.fd, r.ex - r.fd, want, b);
        }
      }
    }
  }
}
