/** Decimal digit strings as character codes, most significant first. */
module Digits {
  import opened Arith

  const ZERO: nat := 48
  const NINE: nat := 57
  const DOT: nat := 46

  function Digit(c: nat): (d: nat)
    ensures d < 10
  {
    if 48 <= c <= 57 then c - 48 else 0
  }

  ghost predicate AllDigits(s: seq<nat>) {
    forall i :: 0 <= i < |s| ==> 48 <= s[i] <= 57
  }

  /** The number a digit string denotes; the empty string denotes zero. */
  function DigVal(s: seq<nat>): nat {
    if s == [] then 0 else 10 * DigVal(s[..|s| - 1]) + Digit(s[|s| - 1])
  }

  lemma DigEmpty()
    ensures DigVal([]) == 0
  {
  }

  lemma DigSnoc(s: seq<nat>, c: nat)
    ensures DigVal(s + [c]) == 10 * DigVal(s) + Digit(c)
  {
  }

  lemma DigTake(s: seq<nat>, j: nat)
    requires j < |s|
    ensures DigVal(s[..j + 1]) == 10 * DigVal(s[..j]) + Digit(s[j])
  {
    assert s[..j + 1] == s[..j] + [s[j]];
    DigSnoc(s[..j], s[j]);
  }

  lemma {:induction false} DigConcat(s: seq<nat>, t: seq<nat>)
    ensures DigVal(s + t) == DigVal(s) * Pow(10, |t|) + DigVal(t)
  {
    if t == [] {
      assert s + t == s;
    } else {
      var n := |t| - 1;
      assert s + t == s + t[..n] + [t[n]];
      DigSnoc(s + t[..n], t[n]);
      DigConcat(s, t[..n]);
      hide DigVal;
      TenTimes(DigVal(s), Pow(10, n));
    }
  }

  lemma TenTimes(x: nat, p: nat)
    ensures 10 * (x * p) == x * (10 * p)
  {
  }

  lemma {:induction false} DigBound(s: seq<nat>)
    ensures DigVal(s) < Pow(10, |s|)
  {
    if s == [] {
    } else {
      DigBound(s[..|s| - 1]);
    }
  }

  lemma {:induction false} DigCons(c: nat, s: seq<nat>)
    ensures DigVal([c] + s) == Digit(c) * Pow(10, |s|) + DigVal(s)
  {
    DigConcat([c], s);
    assert DigVal([c]) == Digit(c) by {
      assert [c][..0] == [];
    }
  }

  lemma {:induction false} DigSplit(s: seq<nat>, k: nat)
    requires k <= |s|
    ensures DigVal(s) == DigVal(s[..k]) * Pow(10, |s| - k) + DigVal(s[k..])
  {
    assert s == s[..k] + s[k..];
    DigConcat(s[..k], s[k..]);
  }

  /** A nonzero leading digit bounds the number from below. */
  lemma {:induction false} DigAtLeast(s: seq<nat>)
    requires AllDigits(s) && |s| > 0 && s[0] != ZERO
    ensures DigVal(s) >= Pow(10, |s| - 1)
  {
    assert s == [s[0]] + s[1..];
    DigCons(s[0], s[1..]);
    hide Pow, DigVal;
    MulLe(1, Digit(s[0]), Pow(10, |s| - 1));
  }

  lemma {:induction false} DigZeros(s: seq<nat>)
    requires forall i :: 0 <= i < |s| ==> s[i] == ZERO
    ensures DigVal(s) == 0
  {
    if s == [] {
    } else {
      DigZeros(s[..|s| - 1]);
    }
  }

  lemma {:induction false} DigNines(s: seq<nat>)
    requires forall i :: 0 <= i < |s| ==> s[i] == NINE
    ensures DigVal(s) + 1 == Pow(10, |s|)
  {
    if s == [] {
    } else {
      DigNines(s[..|s| - 1]);
    }
  }

  /** Only a string of zeros denotes zero. */
  lemma {:induction false} DigPositive(s: seq<nat>, k: nat)
    requires AllDigits(s) && k < |s| && s[k] != ZERO
    ensures DigVal(s) > 0
  {
    if k < |s| - 1 {
      DigPositive(s[..|s| - 1], k);
    }
  }

  /** How many decimal digits a number takes, counted by dividing it away. */
  function NumDigits(v: nat): nat {
    if v == 0 then 0 else 1 + NumDigits(v / 10)
  }

  /** `v` has exactly `n` digits. */
  ghost predicate HasDigits(v: nat, n: nat) {
    if n == 0 then v == 0 else Pow(10, n - 1) <= v < Pow(10, n)
  }

  lemma {:induction false} NumDigitsIs(v: nat)
    ensures HasDigits(v, NumDigits(v))
  {
    if v > 0 {
      var n := NumDigits(v / 10);
      NumDigitsIs(v / 10);
      PowSucc(10, n);
      if n > 0 {
        PowSucc(10, n - 1);
      } else {
        PowZero(10);
      }
    }
  }

  lemma {:induction false} HasDigitsUnique(v: nat, m: nat, n: nat)
    requires HasDigits(v, m) && HasDigits(v, n)
    ensures m == n
  {
    if m < n {
      if m > 0 {
        PowMono(10, m, n - 1);
      }
    } else if n < m {
      if n > 0 {
        PowMono(10, n, m - 1);
      }
    }
  }

  /** The digits of a text, its decimal points dropped. */
  function Strip(s: seq<nat>): (r: seq<nat>)
  {
    if s == [] then []
    else if s[|s| - 1] == DOT then Strip(s[..|s| - 1])
    else Strip(s[..|s| - 1]) + [s[|s| - 1]]
  }

  /** The digits of a text, points ignored, read as one number. */
  function TextVal(s: seq<nat>): nat {
    DigVal(Strip(s))
  }

  ghost predicate IsText(s: seq<nat>) {
    forall i :: 0 <= i < |s| ==> s[i] == DOT || 48 <= s[i] <= 57
  }

  lemma TextStep(s: seq<nat>, i: nat)
    requires i < |s| && IsText(s)
    ensures s[i] == DOT ==> TextVal(s[..i + 1]) == TextVal(s[..i])
    ensures s[i] != DOT ==> TextVal(s[..i + 1]) == 10 * TextVal(s[..i]) + (s[i] - 48)
  {
    assert s[..i + 1][..i] == s[..i];
    if s[i] != DOT {
      DigSnoc(Strip(s[..i]), s[i]);
    }
  }

  lemma {:induction false} StripDigits(s: seq<nat>)
    requires AllDigits(s)
    ensures Strip(s) == s
  {
    if s == [] {
    } else {
      StripDigits(s[..|s| - 1]);
    }
  }
}
