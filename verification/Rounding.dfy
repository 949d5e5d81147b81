/** `_u_round`: cut a digit string to `r` digits, to nearest, ties to even. */
module Rounding {
  import opened Arith
  import opened Digits

  /** The digits from `r` on, against half of the place above them. */
  lemma {:induction false} TailAgainstHalf(t: seq<nat>)
    requires AllDigits(t) && |t| > 0
    ensures t[0] > 53 ==> 2 * DigVal(t) > Pow(10, |t|)
    ensures t[0] < 53 ==> 2 * DigVal(t) < Pow(10, |t|)
    ensures t[0] == 53 ==> 2 * DigVal(t) == Pow(10, |t|) + 2 * DigVal(t[1..])
  {
    assert t == [t[0]] + t[1..];
    DigCons(t[0], t[1..]);
    DigBound(t[1..]);
    PowSucc(10, |t| - 1);
    hide Pow, DigVal;
    var q, d := Pow(10, |t| - 1), Digit(t[0]);
    if d >= 6 {
      MulLe(6, d, q);
    } else if d <= 4 {
      MulLe(d, 4, q);
    }
  }

  lemma EvenTens(x: nat, d: nat)
    ensures (10 * x + d) % 2 == d % 2
  {
  }

  lemma {:induction false} Parity(s: seq<nat>)
    requires AllDigits(s) && |s| > 0
    ensures DigVal(s) % 2 == (s[|s| - 1] - 48) % 2
  {
    EvenTens(DigVal(s[..|s| - 1]), s[|s| - 1] - 48);
  }

  /** Does the number round away from its first `r` digits? */
  ghost predicate RoundsUp(s: seq<nat>, r: nat)
    requires r < |s|
  {
    var low, p := DigVal(s[r..]), Pow(10, |s| - r);
    2 * low > p || (2 * low == p && DigVal(s[..r]) % 2 == 1)
  }

  method Decide(dig: array<nat>, nd: nat, r: nat) returns (up: bool)
    requires r < nd <= dig.Length && AllDigits(dig[..nd])
    ensures up == RoundsUp(dig[..nd], r)
  {
    hide Pow, DigVal;
    ghost var s := dig[..nd];
    TailAgainstHalf(s[r..]);
    up := false;
    if dig[r] > 53 {
      up := true;
    }
    if dig[r] == 53 {
      assert s[r..][1..] == s[r + 1..];
      var j := r + 1;
      while j < nd
        invariant r + 1 <= j <= nd && !up
        invariant forall i :: r + 1 <= i < j ==> dig[i] == 48
      {
        if dig[j] != 48 {
          up := true;
          DigPositive(s[r + 1..], j - r - 1);
          break;
        }
        j := j + 1;
      }
      if !up {
        DigZeros(s[r + 1..]);
        if r > 0 {
          Parity(s[..r]);
          if (dig[r - 1] - 48) % 2 == 1 {
            up := true;
          }
        } else {
          assert s[..0] == [];
          DigEmpty();
        }
      }
    }
  }

  /** Rounding down or up by the decision is rounding to the nearest even. */
  lemma {:induction false} DecisionIsHalfEven(s: seq<nat>, r: nat, q: nat)
    requires r < |s| && q == DigVal(s[..r]) + (if RoundsUp(s, r) then 1 else 0)
    ensures IsHalfEven(DigVal(s), Pow(10, |s| - r), q)
  {
    DigSplit(s, r);
    DigBound(s[r..]);
    hide Pow, DigVal;
    NearestOfTwo(DigVal(s), Pow(10, |s| - r), DigVal(s[..r]), DigVal(s[r..]), q);
  }

  lemma {:induction false} NearestOfTwo(n: nat, d: nat, w: nat, low: nat, q: nat)
    requires n == w * d + low && low < d
    requires q == if 2 * low > d || (2 * low == d && w % 2 == 1) then w + 1 else w
    ensures IsHalfEven(n, d, q)
  {
  }

  /** Nines from `j + 1` on carry into digit `j`. */
  lemma {:induction false} CarryInto(s: seq<nat>, t: seq<nat>, j: nat)
    requires j < |s| == |t| && AllDigits(s) && s[j] != NINE
    requires t[..j] == s[..j] && t[j] == s[j] + 1
    requires forall i :: j < i < |s| ==> s[i] == NINE && t[i] == ZERO
    ensures DigVal(t) == DigVal(s) + 1
  {
    var n := |s| - 1;
    if j < n {
      assert s[..n][..j] == s[..j] && t[..n][..j] == t[..j];
      CarryInto(s[..n], t[..n], j);
    } else {
      assert t[..n] == s[..n];
    }
  }

  /** Add one to the first `r` digits; `j` is the digit that took the carry, or -1. */
  method Increment(dig: array<nat>, r: nat) returns (j: int)
    requires r <= dig.Length && AllDigits(dig[..r])
    modifies dig
    ensures AllDigits(dig[..r]) && -1 <= j < r
    ensures j >= 0 ==> DigVal(dig[..r]) == DigVal(old(dig[..r])) + 1
    ensures j >= 0 ==> (dig[0] != ZERO || old(dig[0]) == ZERO)
    ensures j < 0 ==> (forall i :: 0 <= i < r ==> dig[i] == ZERO) && DigVal(old(dig[..r])) + 1 == Pow(10, r)
  {
    ghost var s := dig[..r];
    j := r - 1;
    while j >= 0
      invariant -1 <= j < r && dig[..j + 1] == s[..j + 1]
      invariant forall i :: j < i < r ==> s[i] == NINE && dig[i] == ZERO
    {
      assert dig[j] == dig[..j + 1][j] == s[j];
      assert dig[..j] == dig[..j + 1][..j] == s[..j + 1][..j] == s[..j];
      if dig[j] != 57 {
        dig[j] := dig[j] + 1;
        CarryInto(s, dig[..r], j);
        return;
      }
      dig[j] := 48;
      j := j - 1;
    }
    DigNines(s);
  }

  /** The shift when the rounding carries out of the top: all the digits are zeros by then. */
  method ShiftDown(dig: array<nat>, nd: nat)
    requires nd < dig.Length && forall i :: 0 <= i < nd ==> dig[i] == ZERO
    modifies dig
    ensures dig[..nd + 1] == [49] + seq(nd, i => ZERO)
  {
    var j := nd;
    while j > 0
      invariant 0 <= j <= nd
      invariant forall i :: 0 <= i < j ==> dig[i] == ZERO
      invariant forall i :: j < i <= nd ==> dig[i] == ZERO
    {
      dig[j] := dig[j - 1];
      j := j - 1;
    }
    dig[0] := 49;
  }

  lemma {:induction false} OneAndZeros(r: nat)
    ensures DigVal([49] + seq(r, i => ZERO)) == Pow(10, r)
  {
    DigCons(49, seq(r, i => ZERO));
    DigZeros(seq(r, i => ZERO));
  }

  /**
   Keep `r` digits.  The kept digits are the number over 10^(nd-r) rounded to nearest,
   ties to even, and the place of the last one is unchanged: a carry out of the top
   adds a digit and moves the point with it.
   */
  method Cut(dig: array<nat>, nd: nat, r: int, x: int) returns (nd': nat, x': int)
    requires 0 < nd <= dig.Length && AllDigits(dig[..nd])
    modifies dig
    ensures nd' <= nd && AllDigits(dig[..nd'])
    ensures r >= nd ==> nd' == nd && x' == x && dig[..nd] == old(dig[..nd])
    ensures r < nd ==> IsHalfEven(DigVal(old(dig[..nd])), Pow(10, nd - r), DigVal(dig[..nd']))
    ensures 0 <= r < nd ==> (nd' == r && x' == x) || (nd' == r + 1 && x' == x + 1)
    ensures 0 <= r < nd && nd' == r + 1 ==> DigVal(dig[..nd']) == Pow(10, r)
    ensures r < 0 ==> nd' == 0 && x' == x
    ensures old(dig[0]) != ZERO && nd' > 0 ==> dig[0] != ZERO
  {
    hide Pow, DigVal, IsHalfEven, RoundsUp;
    ghost var s := dig[..nd];
    if r >= nd {
      return nd, x;
    }
    if r < 0 {
      dig[0] := 48;
      DigEmpty();
      FarBelowHalf(s, -r);
      return 0, x;
    }
    ghost var q: nat := DigVal(s[..r]) + (if RoundsUp(s, r) then 1 else 0);
    DecisionIsHalfEven(s, r, q);
    var up := Decide(dig, nd, r);
    nd', x' := r, x;
    assert dig[..r] == s[..r];
    if up {
      var j := Increment(dig, r);
      if j < 0 {
        ShiftDown(dig, r);
        OneAndZeros(r);
        nd', x' := r + 1, x + 1;
      }
    }
  }

  lemma {:induction false} FarBelowHalf(s: seq<nat>, k: nat)
    requires k > 0
    ensures IsHalfEven(DigVal(s), Pow(10, |s| + k), 0)
  {
    DigBound(s);
    PowSucc(10, |s|);
    PowMono(10, |s| + 1, |s| + k);
  }
}
