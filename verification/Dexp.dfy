/**
 `_u_dexp`: the exact finite decimal of a double, built in base-10^9 limbs.
 The one C function is split at its loops; each loop is a method here.
 */
module Dexp {
  import opened Arith
  import opened Limbs
  import opened Digits
  import opened Binary64

  const BASE9: nat := 1_000_000_000
  const NL: nat := 132
  const ND: nat := 1200

  /** Limbs below the base with a nonzero top one, holding `v`. */
  ghost predicate Holds(s: seq<nat>, v: nat) {
    |s| > 0 && Below(s, BASE9) && s[|s| - 1] != 0 && Val(s, BASE9) == v
  }

  /** The three limbs of the mantissa, without leading zero limbs. */
  method SplitMantissa(lim: array<nat>, m: nat) returns (n: nat)
    requires lim.Length == NL && 0 < m < 2 * TWO52
    modifies lim
    ensures 1 <= n <= 3 && Holds(lim[..n], m)
  {
    lim[0] := m % BASE9;
    lim[1] := m / BASE9 % BASE9;
    lim[2] := m / 1_000_000_000_000_000_000;
    n := 3;
    ThreeLimbs(lim[..3], m);
    while n > 1
      invariant 1 <= n <= 3
      invariant Below(lim[..n], BASE9) && Val(lim[..n], BASE9) == m
    {
      assert lim[..n][..n - 1] == lim[..n - 1];
      if lim[n - 1] != 0 {
        break;
      }
      n := n - 1;
    }
    if n == 1 {
      assert lim[..1][..0] == [];
    }
  }

  lemma {:induction false} ThreeLimbs(s: seq<nat>, m: nat)
    requires m < 2 * TWO52
    requires s == [m % BASE9, m / BASE9 % BASE9, m / 1_000_000_000_000_000_000]
    ensures Below(s, BASE9) && Val(s, BASE9) == m
  {
    assert s[..2][..1] == [s[0]] && s[..2] == [s[0], s[1]] && [s[0]][..0] == [];
    assert Pow(BASE9, 1) == BASE9 && Pow(BASE9, 2) == 1_000_000_000_000_000_000;
    assert Val([s[0]], BASE9) == s[0];
    assert Val([s[0], s[1]], BASE9) == s[0] + s[1] * BASE9;
    assert m / 1_000_000_000_000_000_000 == m / BASE9 / BASE9;
  }

  /** The next factor of the power: at most 2^29 or 5^13, so that a limb product fits 64 bits. */
  method NextFactor(k: nat, up: bool) returns (mul: nat, k': nat)
    requires k > 0
    ensures k' < k && 1 <= mul <= 1_220_703_125
    ensures mul == Pow(if up then 2 else 5, k - k')
  {
    FactorConsts();
    if up {
      if k >= 29 {
        mul, k' := 536_870_912, k - 29;
      } else {
        mul, k' := 1, k;
        while k' > 0
          invariant k' <= k
          invariant mul == Pow(2, k - k')
        {
          mul, k' := mul * 2, k' - 1;
        }
        PowMono(2, k, 29);
      }
    } else {
      if k >= 13 {
        mul, k' := 1_220_703_125, k - 13;
      } else {
        mul, k' := 1, k;
        while k' > 0
          invariant k' <= k
          invariant mul == Pow(5, k - k')
        {
          mul, k' := mul * 5, k' - 1;
        }
        PowMono(5, k, 13);
      }
    }
  }

  lemma {:induction false} FactorConsts()
    ensures Pow(2, 29) == 536_870_912 && Pow(5, 13) == 1_220_703_125
  {
    Pow2Small();
    PowAdd(2, 10, 10);
    PowAdd(2, 20, 7);
    PowAdd(2, 27, 2);
    assert Pow(2, 1) == 2 && Pow(2, 2) == 4;
    PowThree(5);
    PowAdd(5, 3, 3);
    PowAdd(5, 6, 6);
    PowAdd(5, 12, 1);
    assert Pow(5, 1) == 5;
  }

  /** Multiply the limbs in place by a factor, appending the carry. */
  method MulSmall(lim: array<nat>, n: nat, mul: nat, ghost v: nat) returns (n': nat)
    requires lim.Length == NL && n <= NL && 1 <= mul <= 1_220_703_125
    requires Holds(lim[..n], v) && v * mul < Pow(BASE9, NL)
    modifies lim
    ensures n' <= NL && Holds(lim[..n'], v * mul)
  {
    hide Pow, Val, WithCarry;
    var carry: nat := MulLimbs(lim, n, mul, v);
    n' := n;
    ghost var w: nat := v * mul;
    while carry > 0
      invariant 0 < n' <= NL && Below(lim[..n'], BASE9)
      invariant WithCarry(lim[..n'], carry, BASE9) == w
      invariant carry == 0 ==> lim[n' - 1] != 0
    {
      RoomForCarry(lim[..n'], carry, BASE9, NL);
      CarryStep(lim[..n'], carry, BASE9);
      lim[n'] := carry % BASE9;
      assert lim[..n' + 1] == lim[..n'] + [carry % BASE9];
      carry := carry / BASE9;
      n' := n' + 1;
    }
    WithNoCarry(lim[..n'], BASE9);
  }

  /** The inner pass of the multiply; `t` never reaches 2^64. */
  method MulLimbs(lim: array<nat>, n: nat, mul: nat, ghost v: nat) returns (carry: nat)
    requires lim.Length == NL && n <= NL && 1 <= mul <= 1_220_703_125
    requires Holds(lim[..n], v)
    modifies lim
    ensures Below(lim[..n], BASE9)
    ensures WithCarry(lim[..n], carry, BASE9) == v * mul
    ensures carry == 0 ==> lim[n - 1] != 0
  {
    hide Val, PartProduct, WithCarry;
    ghost var s := lim[..n];
    var j := 0;
    carry := 0;
    PartProductStart(s, mul, BASE9);
    assert lim[..0] == [];
    while j < n
      invariant 0 <= j <= n && lim[j..n] == s[j..] && Below(lim[..j], BASE9) && carry < mul
      invariant PartProduct(lim[..j], carry, s, mul, BASE9)
      invariant j == n && carry == 0 ==> lim[n - 1] != 0
    {
      assert lim[j] == lim[j..n][0] == s[j];
      LimbProduct(s[j], mul, carry);
      MulStep(lim[..j], s, carry, mul, BASE9, s[j] * mul + carry);
      var t := lim[j] * mul + carry;
      assert t < TWO64;
      assert lim[j + 1..n] == lim[j..n][1..] == s[j + 1..];
      lim[j] := t % BASE9;
      carry := t / BASE9;
      assert lim[..j + 1] == lim[..j] + [t % BASE9];
      j := j + 1;
    }
    PartProductEnd(lim[..n], carry, s, mul, BASE9);
  }

  lemma LimbProduct(limb: nat, mul: nat, carry: nat)
    requires limb < BASE9 && carry < mul <= 1_220_703_125
    ensures limb * mul + carry < TWO64
    ensures (limb * mul + carry) / BASE9 < mul
    ensures limb > 0 && (limb * mul + carry) / BASE9 == 0 ==> (limb * mul + carry) % BASE9 > 0
  {
    MulLe(limb + 1, BASE9, mul);
    Distrib(limb, 1, mul);
    if limb > 0 {
      MulLe(1, limb, mul);
    }
  }

  /** The value of the limbs once the whole power is multiplied in. */
  function Whole(m: nat, e: int): nat {
    m * Pow(if e > 0 then 2 else 5, Abs(e))
  }

  lemma {:induction false} WholeFits(m: nat, e: int)
    requires m < 2 * TWO52 && -1074 <= e <= 972
    ensures Whole(m, e) < Pow(BASE9, NL)
  {
    var f := if e > 0 then 2 else 5;
    RoomyCap();
    hide Pow;
    PowBase(f, 10, Abs(e));
    PowMono(10, Abs(e), 1074);
    MulMono(m, 10_000_000_000_000_000 - 1, Pow(f, Abs(e)), Pow(10, 1074));
    DistribSub(10_000_000_000_000_000, 1, Pow(10, 1074));
  }

  lemma {:induction false} RoomyCap()
    ensures 10_000_000_000_000_000 * Pow(10, 1074) <= Pow(BASE9, NL)
  {
    TenTo16();
    TenTo9();
    hide Pow;
    PowAdd(10, 16, 1074);
    PowMono(10, 1090, 1188);
    PowPow(10, 9, 132);
  }

  /** m * 2^e for e > 0, m * 5^-e otherwise, in the limbs. */
  method BuildLimbs(lim: array<nat>, m: nat, e: int) returns (n: nat)
    requires lim.Length == NL && 0 < m < 2 * TWO52 && -1074 <= e <= 972
    modifies lim
    ensures n <= NL && Holds(lim[..n], Whole(m, e))
  {
    hide Pow, Holds;
    n := SplitMantissa(lim, m);
    var k: nat := if e < 0 then -e else e;
    ghost var f: nat := if e > 0 then 2 else 5;
    ghost var v: nat := m;
    WholeFits(m, e);
    PowZero(f);
    while k > 0
      invariant n <= NL && Holds(lim[..n], v)
      invariant v * Pow(f, k) == Whole(m, e)
    {
      var mul: nat, k': nat := NextFactor(k, e > 0);
      FactorStep(v, f, k, k', mul);
      n := MulSmall(lim, n, mul, v);
      v := v * mul;
      k := k';
    }
  }

  lemma {:induction false} FactorStep(v: nat, f: nat, k: nat, k': nat, mul: nat)
    requires k' < k && f > 0 && mul == Pow(f, k - k')
    ensures v * mul * Pow(f, k') == v * Pow(f, k)
    ensures v * mul <= v * Pow(f, k)
  {
    PowAdd(f, k - k', k');
    MulAssoc(v, mul, Pow(f, k'));
    MulGrows(v * mul, Pow(f, k'));
  }

  /** The nine digits of one limb, leading zeros included. */
  method LimbDigits(limb: nat) returns (d9: array<nat>)
    requires limb < BASE9
    ensures fresh(d9) && d9.Length == 9
    ensures AllDigits(d9[..]) && DigVal(d9[..]) == limb
  {
    hide DigVal, Pow, AllDigits, Pending;
    d9 := new nat[9];
    var t, k := limb, 8;
    PendingStart(limb);
    assert d9[9..] == [];
    while k >= 0
      invariant -1 <= k <= 8
      invariant Pending(t, d9[k + 1..], limb)
    {
      ghost var s := d9[k + 1..];
      DigitStep(t, s, limb);
      d9[k] := 48 + t % 10;
      assert d9[k + 1..] == s;
      assert d9[k..] == [d9[k]] + s;
      t := t / 10;
      k := k - 1;
    }
    assert d9[0..] == d9[..];
    PendingEnd(t, d9[..], limb);
  }

  /** `t` still to be written above the digits `s` of `limb`. */
  ghost predicate Pending(t: nat, s: seq<nat>, limb: nat) {
    AllDigits(s) && t * Pow(10, |s|) + DigVal(s) == limb
  }

  lemma PendingStart(limb: nat)
    ensures Pending(limb, [], limb)
  {
  }

  lemma {:induction false} PendingEnd(t: nat, s: seq<nat>, limb: nat)
    requires Pending(t, s, limb) && |s| == 9 && limb < BASE9
    ensures AllDigits(s) && DigVal(s) == limb
  {
    hide DigVal, AllDigits;
    TenTo9();
    hide Pow;
    assert t * Pow(10, |s|) == t * 1_000_000_000;
  }

  lemma {:induction false} DigitStep(t: nat, s: seq<nat>, limb: nat)
    requires Pending(t, s, limb)
    ensures Pending(t / 10, [48 + t % 10] + s, limb)
  {
    DigCons(48 + t % 10, s);
    var p := Pow(10, |s|);
    assert Pow(10, |s| + 1) == 10 * p;
    hide Pow, DigVal;
    MulAssoc(t / 10, 10, p);
    Distrib(t / 10 * 10, t % 10, p);
  }

  /** Append the digits of one limb, skipping zeros while nothing is out yet. */
  method EmitLimb(d9: array<nat>, dig: array<nat>, nd0: nat) returns (nd: nat)
    requires d9.Length == 9 && AllDigits(d9[..]) && d9 != dig
    requires nd0 + 9 <= dig.Length && AllDigits(dig[..nd0]) && (nd0 > 0 ==> dig[0] != ZERO)
    modifies dig
    ensures nd0 <= nd <= nd0 + 9 && AllDigits(dig[..nd]) && (nd > 0 ==> dig[0] != ZERO)
    ensures DigVal(dig[..nd]) == DigVal(old(dig[..nd0])) * BASE9 + DigVal(old(d9[..]))
  {
    hide Pow, DigVal;
    nd := nd0;
    var k := 0;
    DigEmpty();
    TenTo9();
    PowZero(10);
    ghost var s := d9[..];
    ghost var hi := DigVal(dig[..nd0]);
    while k < 9
      invariant 0 <= k <= 9 && d9[..] == s
      invariant nd0 <= nd <= nd0 + k && AllDigits(dig[..nd]) && (nd > 0 ==> dig[0] != ZERO)
      invariant DigVal(dig[..nd]) == hi * Pow(10, k) + DigVal(s[..k])
    {
      DigTake(s, k);
      TenTimes(hi, Pow(10, k));
      PowSucc(10, k);
      if nd != 0 || d9[k] != 48 {
        DigSnoc(dig[..nd], d9[k]);
        dig[nd] := d9[k];
        assert dig[..nd + 1] == dig[..nd] + [s[k]];
        nd := nd + 1;
      } else {
        assert dig[..nd] == [];
      }
      k := k + 1;
    }
    assert s[..9] == s;
  }

  lemma {:induction false} ValHead(s: seq<nat>, base: nat)
    requires |s| > 0
    ensures Val(s, base) == s[0] + base * Val(s[1..], base)
  {
    var n := |s| - 1;
    if n == 0 {
      assert s[..0] == [] && s[1..] == [];
    } else {
      assert Val(s, base) == Val(s[..n], base) + s[n] * Pow(base, n);
      assert Val(s[1..], base) == Val(s[1..][..n - 1], base) + s[n] * Pow(base, n - 1);
      PowSucc(base, n - 1);
      hide Pow, Val;
      ValHead(s[..n], base);
      assert s[..n][1..] == s[1..][..n - 1];
      TakeOut(s[0], base, Val(s[1..][..n - 1], base), s[n], Pow(base, n - 1));
    }
  }

  lemma NothingEmitted(dig: array<nat>, s: seq<nat>)
    ensures Emitted(dig, 0, s[|s|..])
  {
    assert dig[..0] == [] && s[|s|..] == [];
    DigEmpty();
    ValEmpty(BASE9);
  }

  lemma TakeOut(s0: nat, base: nat, v: nat, x: nat, p: nat)
    ensures s0 + base * v + x * (base * p) == s0 + base * (v + x * p)
  {
  }

  /** All digits of the limbs, most significant first, with no leading zero. */
  method EmitDigits(lim: array<nat>, n: nat, dig: array<nat>, ghost v: nat) returns (nd: nat)
    requires lim.Length == NL && n <= NL && dig.Length >= ND && lim != dig
    requires Holds(lim[..n], v)
    modifies dig
    ensures 1 <= nd <= 9 * NL && AllDigits(dig[..nd]) && dig[0] != ZERO && DigVal(dig[..nd]) == v
  {
    hide Pow, Val, DigVal, AllDigits;
    nd := 0;
    var j := n - 1;
    ghost var s := lim[..n];
    HeldLimbs(s, v);
    NothingEmitted(dig, s);
    hide Holds, Below, Emitted;
    while j >= 0
      invariant -1 <= j < n && nd <= 9 * (n - 1 - j)
      invariant Emitted(dig, nd, s[j + 1..])
    {
      nd := EmitNext(lim[j], dig, nd, s, j);
      j := j - 1;
    }
    assert s[0..] == s;
    Nonempty(dig, nd, s);
  }

  /** The digits so far denote the limbs so far, without leading zeros. */
  ghost predicate Emitted(dig: array<nat>, nd: nat, t: seq<nat>)
    reads dig
  {
    nd <= dig.Length && AllDigits(dig[..nd]) && (nd > 0 ==> dig[0] != ZERO) && DigVal(dig[..nd]) == Val(t, BASE9)
  }

  lemma Nonempty(dig: array<nat>, nd: nat, s: seq<nat>)
    requires Emitted(dig, nd, s) && Val(s, BASE9) > 0
    ensures nd > 0
  {
    hide Val;
    assert dig[..0] == [];
    DigEmpty();
  }

  method EmitNext(limb: nat, dig: array<nat>, nd0: nat, ghost s: seq<nat>, ghost j: nat) returns (nd: nat)
    requires j < |s| && limb == s[j] < BASE9 && nd0 + 9 <= dig.Length && Emitted(dig, nd0, s[j + 1..])
    modifies dig
    ensures nd0 <= nd <= nd0 + 9 && Emitted(dig, nd, s[j..])
  {
    hide Pow, Val, DigVal, AllDigits;
    NextLimb(s, j);
    var d9 := LimbDigits(limb);
    nd := EmitLimb(d9, dig, nd0);
  }

  lemma HeldLimbs(s: seq<nat>, v: nat)
    requires Holds(s, v)
    ensures |s| > 0 && Val(s, BASE9) == v && v > 0 && forall i :: 0 <= i < |s| ==> s[i] < BASE9
  {
    hide Pow, Val;
    ValAtLeast(s, BASE9);
  }

  lemma NextLimb(s: seq<nat>, j: nat)
    requires j < |s|
    ensures Val(s[j..], BASE9) == s[j] + BASE9 * Val(s[j + 1..], BASE9)
  {
    ValHead(s[j..], BASE9);
    assert s[j..][1..] == s[j + 1..];
  }

  /** The unbiased exponent of the mantissa's unit. */
  function UnitExp(bits: nat): int {
    Shift(bits) - 1074
  }

  /**
   The digits of a double's exact value: `0.d1 d2 ... * 10^x`.  The value of the digits
   times 10^(x - nd) equals m * 2^e; both sides here are in units of 2^-1074.
   */
  method Expand(bits: nat, dig: array<nat>) returns (nd: nat, x: int)
    requires bits < TWO64 && dig.Length >= ND
    modifies dig
    ensures 1 <= nd <= 9 * NL && x <= nd <= x + 1074 && AllDigits(dig[..nd])
    ensures Scaled(bits) == 0 ==> dig[..nd] == [ZERO] && x == 1
    ensures Scaled(bits) > 0 ==> dig[0] != ZERO
    ensures DigVal(dig[..nd]) * Pow(2, 1074) == Scaled(bits) * Pow(10, nd - x)
  {
    hide Pow, DigVal, Holds, Whole;
    ScaledZero(bits);
    WholeIsScaled(bits);
    var ex: nat := bits / TWO52 % 2048;
    var m: nat := bits % TWO52;
    var e;
    if ex == 0 {
      e := -1074;
    } else {
      m := m + TWO52;
      e := ex - 1075;
    }
    assert m == Mant(bits) && e == UnitExp(bits);
    hide Mant, Shift, Scaled;
    if m == 0 {
      dig[0] := 48;
      assert dig[..1] == [ZERO];
      DigEmpty();
      DigSnoc([], ZERO);
      assert [] + [ZERO] == [ZERO];
      return 1, 1;
    }
    var lim := new nat[NL];
    var n := BuildLimbs(lim, m, e);
    nd := EmitDigits(lim, n, dig, Whole(m, e));
    var k := if ex == 0 then 1074 else 1075 - ex;
    if k < 0 {
      k := 0;
    }
    x := nd - k;
  }

  lemma ScaledZero(bits: nat)
    ensures Scaled(bits) == 0 <==> Mant(bits) == 0
  {
  }

  lemma {:induction false} WholeIsScaled(bits: nat)
    ensures Whole(Mant(bits), UnitExp(bits)) * Pow(2, 1074) == Scaled(bits) * Pow(10, Pos(-UnitExp(bits)))
  {
    var m, e, s := Mant(bits), UnitExp(bits), Shift(bits);
    if e > 0 {
      PowAdd(2, e, 1074);
      hide Pow, Mant, Shift;
      MulAssoc(m, Pow(2, e), Pow(2, 1074));
    } else {
      PowAdd(2, s, -e);
      PowProduct(2, 5, -e);
      hide Pow, Mant, Shift;
      Regroup(m, Pow(2, s), Pow(2, -e), Pow(5, -e));
    }
  }

  // ---------- what the digits say about the size of the double ----------

  /** The digits `v` of the exact decimal 0.d1d2... * 10^x of a pattern. */
  ghost predicate IsExpansion(bits: nat, v: nat, nd: nat, x: int) {
    nd > 0 && x <= nd && Pow(10, nd - 1) <= v < Pow(10, nd)
    && v * Pow(2, 1074) == Scaled(bits) * Pow(10, nd - x)
  }

  lemma {:induction false} ExpandIsExpansion(bits: nat, s: seq<nat>, x: int)
    requires 0 < bits < INF && AllDigits(s) && |s| > 0 && x <= |s|
    requires Scaled(bits) > 0 ==> s[0] != ZERO
    requires DigVal(s) * Pow(2, 1074) == Scaled(bits) * Pow(10, |s| - x)
    ensures IsExpansion(bits, DigVal(s), |s|, x)
  {
    hide Pow, DigVal;
    ScaledMono(0, bits);
    hide Scaled;
    DigBound(s);
    DigAtLeast(s);
  }

  /** The decimal exponent of a finite positive double. */
  lemma {:induction false} ExpansionPlace(bits: nat, v: nat, nd: nat, x: int)
    requires IsExpansion(bits, v, nd, x) && 0 < bits < INF
    ensures -323 <= x <= 309
  {
    hide Pow, Scaled;
    PlaceAbove(bits, v, nd, x);
    PlaceNotBelow(bits, v, nd, x);
  }

  lemma {:induction false} PlaceNotBelow(bits: nat, v: nat, nd: nat, x: int)
    requires IsExpansion(bits, v, nd, x) && 0 < bits < INF
    ensures -323 <= x
  {
    hide Pow, Scaled;
    var s, t := Scaled(bits), Pow(2, 1074);
    ScaledMono(0, bits);
    TwoBelowTen();
    if x < -323 {
      PowAdd(10, nd, -x);
      PowMono(10, 324, -x);
      MulLt(v, Pow(10, nd), t);
      MulLe(t, Pow(10, -x), Pow(10, nd));
      MulLe(1, s, Pow(10, nd - x));
    }
  }

  lemma {:induction false} PlaceAbove(bits: nat, v: nat, nd: nat, x: int)
    requires IsExpansion(bits, v, nd, x) && 0 < bits < INF
    ensures x <= 309
  {
    hide Pow, Scaled;
    var s, t := Scaled(bits), Pow(2, 1074);
    ScaledMono(bits, INF);
    ScaledInf();
    PowAdd(2, 1024, 1074);
    TwoBelowTen();
    if x > 309 {
      PowAdd(10, nd - x, x - 1);
      PowMono(10, 309, x - 1);
      TooBig(s, t, v, Pow(10, nd - x), Pow(10, x - 1), Pow(2, 1024));
    }
  }

  lemma TooBig(s: nat, t: nat, v: nat, a: nat, b: nat, m: nat)
    requires v * t == s * a && a * b <= v && s < m * t && a > 0
    ensures b < m
  {
  }

  lemma {:induction false} TwoBelowTen()
    ensures Pow(2, 1074) <= Pow(10, 324) && Pow(2, 1024) <= Pow(10, 309)
  {
    hide Pow;
    Two93();
    PowPow(2, 93, 11);
    PowPow(10, 28, 11);
    PowBase(Pow(2, 93), Pow(10, 28), 11);
    PowAdd(2, 1023, 51);
    PowAdd(2, 1023, 1);
    PowAdd(10, 308, 16);
    PowAdd(10, 308, 1);
    PowMono(2, 51, 53);
    Pow2Consts();
    TenTo16();
    TenAndTwo();
    MulMono(Pow(2, 1023), Pow(10, 308), Pow(2, 51), Pow(10, 16));
    MulMono(Pow(2, 1023), Pow(10, 308), 2, 10);
  }

  lemma TenAndTwo()
    ensures Pow(2, 1) == 2 && Pow(10, 1) == 10
  {
  }

  lemma {:induction false} Two93()
    ensures Pow(2, 93) <= Pow(10, 28)
  {
    hide Pow;
    Pow2Small();
    Pow2Consts();
    PowAdd(2, 53, 32);
    PowAdd(2, 85, 7);
    PowAdd(2, 92, 1);
    TenAndTwo();
    TenTo16();
    TenTo9();
    PowAdd(10, 16, 9);
    PowAdd(10, 25, 3);
    PowThree(10);
  }
}
