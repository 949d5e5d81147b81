/**
 The big integers of the decimal-to-double walk: at most 200 limbs of 32 bits,
 little-endian, in an array of which the first `n` limbs are in use.
 */
module Bignum {
  import opened Arith
  import opened Limbs
  import Binary64

  const BASE32: nat := 0x1_0000_0000
  const BL: nat := 200

  ghost predicate IsBig(a: array<nat>, n: nat)
    reads a
  {
    a.Length == BL && n <= BL && Below(a[..n], BASE32)
  }

  /** The first number the limbs cannot hold. */
  ghost const CAP: nat := Pow(BASE32, BL)

  /** The limb count is not padded: past two limbs, the top one is not zero. */
  ghost predicate Tight(s: seq<nat>) {
    |s| <= 2 || s[|s| - 1] != 0
  }

  /** The pass over the limbs; the accumulator `c + a[i] * k` never reaches 2^64. */
  method MulPass(a: array<nat>, n: nat, k: nat) returns (c: nat)
    requires IsBig(a, n) && k < BASE32
    modifies a
    ensures IsBig(a, n) && c < BASE32
    ensures WithCarry(a[..n], c, BASE32) == Val(old(a[..n]), BASE32) * k
    ensures c == 0 && k > 0 && Tight(old(a[..n])) ==> Tight(a[..n])
  {
    hide Val, PartProduct, WithCarry;
    ghost var s := a[..n];
    c := 0;
    PartProductStart(s, k, BASE32);
    assert a[..0] == [];
    for i := 0 to n
      invariant a[i..n] == s[i..] && Below(a[..i], BASE32) && c < BASE32
      invariant PartProduct(a[..i], c, s, k, BASE32)
      invariant i == n && i > 0 && c == 0 && k > 0 && s[i - 1] > 0 ==> a[i - 1] > 0
    {
      assert a[i] == a[i..n][0] == s[i];
      LimbProduct(s[i], k, c);
      MulStep(a[..i], s, c, k, BASE32, s[i] * k + c);
      var t: nat := c + a[i] * k;
      assert t < TWO64;
      assert a[i + 1..n] == a[i..n][1..] == s[i + 1..];
      a[i] := t % BASE32;
      c := t / BASE32;
      assert a[..i + 1] == a[..i] + [t % BASE32];
    }
    PartProductEnd(a[..n], c, s, k, BASE32);
  }

  lemma LimbProduct(limb: nat, k: nat, c: nat)
    requires limb < BASE32 && c < BASE32 && k < BASE32
    ensures limb * k + c < TWO64
    ensures (limb * k + c) / BASE32 < BASE32
    ensures limb > 0 && k > 0 && (limb * k + c) / BASE32 == 0 ==> (limb * k + c) % BASE32 > 0
  {
    MulMono(limb, BASE32 - 1, k, BASE32 - 1);
    if limb > 0 && k > 0 {
      MulPositive(limb, k);
    }
  }

  /** Multiply by a 32-bit factor; a carry past the last limb is dropped, so the product is modulo 2^6400. */
  method Muls(a: array<nat>, n: nat, k: nat) returns (n': nat)
    requires IsBig(a, n) && k < BASE32
    modifies a
    ensures n <= n' && IsBig(a, n')
    ensures Val(old(a[..n]), BASE32) * k < CAP ==> Val(a[..n'], BASE32) == Val(old(a[..n]), BASE32) * k
    ensures Val(old(a[..n]), BASE32) * k >= CAP ==> Val(a[..n'], BASE32) == Val(old(a[..n]), BASE32) * k % CAP
    ensures k > 0 && Tight(old(a[..n])) && Val(old(a[..n]), BASE32) * k < CAP ==> Tight(a[..n'])
  {
    hide Val, WithCarry;
    ghost var v := Val(a[..n], BASE32);
    var c: nat := MulPass(a, n, k);
    n' := n;
    ghost var low := a[..n];
    ghost var w: nat := v * k;
    ProductModCap(low, c, w);
    if c > 0 && n' < BL {
      a[n'] := c;
      assert a[..n + 1] == low + [c];
      n' := n' + 1;
    }
  }

  /** What is left of a product once the pending carry is appended, or dropped for want of room. */
  lemma {:induction false} ProductModCap(low: seq<nat>, c: nat, w: nat)
    requires |low| <= BL && Below(low, BASE32) && c < BASE32 && WithCarry(low, c, BASE32) == w
    ensures |low| < BL && c > 0 ==> w < CAP && Val(low + [c], BASE32) == w
    ensures c == 0 ==> w < CAP && Val(low, BASE32) == w
    ensures |low| == BL && c > 0 ==> w >= CAP && Val(low, BASE32) == w % CAP
  {
    hide Pow, Val, WithCarry;
    BelowCap(low);
    if c == 0 {
      WithNoCarry(low, BASE32);
    } else {
      AppendCarry(low, c, BASE32);
      if |low| < BL {
        BelowCap(low + [c]);
      } else {
        DroppedCarry(w, CAP, c, Val(low, BASE32));
      }
    }
  }

  lemma {:induction false} BelowCap(s: seq<nat>)
    requires |s| <= BL && Below(s, BASE32)
    ensures Val(s, BASE32) < CAP
  {
    ValBound(s, BASE32);
    PowMono(BASE32, |s|, BL);
  }

  lemma DroppedCarry(w: nat, cap: nat, c: nat, low: nat)
    requires low < cap && c > 0 && w == low + c * cap
    ensures w % cap == low && w >= cap
  {
    DivModIs(w, cap, c, low);
    MulLe(1, c, cap);
  }

  /** Move the limbs up by `w` places and clear the low ones. */
  method ShiftLimbs(a: array<nat>, n: nat, w: nat)
    requires IsBig(a, n) && n + w <= BL
    modifies a
    ensures IsBig(a, n + w)
    ensures Val(a[..n + w], BASE32) == Val(old(a[..n]), BASE32) * Pow(BASE32, w)
  {
    hide Val, Pow, Below;
    ghost var s := a[..n];
    var i := n - 1;
    while i >= 0
      invariant -1 <= i < n
      invariant forall j :: 0 <= j <= i ==> a[j] == s[j]
      invariant forall j :: i < j < n ==> a[j + w] == s[j]
    {
      a[i + w] := a[i];
      i := i - 1;
    }
    for z := 0 to w
      invariant forall j :: 0 <= j < z ==> a[j] == 0
      invariant forall j :: 0 <= j < n ==> a[j + w] == s[j]
    {
      a[z] := 0;
    }
    Shifted(a[..n + w], s, w);
  }

  lemma Shifted(t: seq<nat>, s: seq<nat>, w: nat)
    requires |t| == |s| + w && Below(s, BASE32)
    requires (forall j :: 0 <= j < w ==> t[j] == 0) && forall j :: 0 <= j < |s| ==> t[j + w] == s[j]
    ensures Below(t, BASE32) && Val(t, BASE32) == Val(s, BASE32) * Pow(BASE32, w)
  {
    hide Val, Pow;
    assert t[w..] == s;
    ValZeros(t, w, BASE32);
    forall j | w <= j < |t|
      ensures t[j] < BASE32
    {
      assert t[j - w + w] == s[j - w];
    }
  }

  /** A shift by `b` bits that stays inside the limbs. */
  ghost predicate ShiftFits(s: seq<nat>, b: nat) {
    Tight(s) && b / 32 + 2 <= BL && Val(s, BASE32) * Pow(2, b) < CAP
  }

  lemma {:induction false} BitsThenLimbs(b: nat)
    ensures Pow(2, b % 32) * Pow(BASE32, b / 32) == Pow(2, b)
    ensures Pow(2, b % 32) < BASE32
  {
    Pow2Consts();
    PowPow(2, 32, b / 32);
    PowAdd(2, b % 32, 32 * (b / 32));
    PowStrict(2, b % 32, 32);
  }

  /** The part of the shift inside a limb fits when the whole shift does. */
  lemma {:induction false} BitPartFits(s: seq<nat>, b: nat, k: nat)
    requires ShiftFits(s, b) && k == Pow(2, b % 32)
    ensures Val(s, BASE32) * k < CAP
  {
    hide Val, Pow, Tight;
    BitsThenLimbs(b);
    MulAssoc(Val(s, BASE32), k, Pow(BASE32, b / 32));
    MulGrows(Val(s, BASE32) * k, Pow(BASE32, b / 32));
  }

  /** After that, there is room for the limb shift, and it completes the product. */
  lemma {:induction false} LimbPartFits(s: seq<nat>, s1: seq<nat>, b: nat, k: nat)
    requires ShiftFits(s, b) && k == Pow(2, b % 32)
    requires Tight(s1) && Val(s1, BASE32) == Val(s, BASE32) * k
    ensures |s1| + b / 32 <= BL
    ensures Val(s1, BASE32) * Pow(BASE32, b / 32) == Val(s, BASE32) * Pow(2, b)
  {
    hide Val, Pow;
    BitsThenLimbs(b);
    MulAssoc(Val(s, BASE32), k, Pow(BASE32, b / 32));
    if |s1| > 2 {
      ValAtLeast(s1, BASE32);
      ShiftRoom(|s1|, b / 32, Val(s1, BASE32));
    }
  }

  lemma {:induction false} ShiftRoom(n: nat, w: nat, v: nat)
    requires n > 0 && v >= Pow(BASE32, n - 1) && v * Pow(BASE32, w) < CAP
    ensures n + w <= BL
  {
    hide Pow;
    PowAdd(BASE32, n - 1, w);
    MulLe(Pow(BASE32, n - 1), v, Pow(BASE32, w));
    if n + w > BL {
      PowMono(BASE32, BL, n - 1 + w);
    }
  }

  /**
   Shift left by `b` bits.  The source shortens the limb shift when it would pass the
   last limb; a tight number whose shifted value fits is never shortened.
   */
  method Shl(a: array<nat>, n: nat, b: nat) returns (n': nat)
    requires IsBig(a, n)
    modifies a
    ensures IsBig(a, n')
    ensures ShiftFits(old(a[..n]), b) ==> Val(a[..n'], BASE32) == Val(old(a[..n]), BASE32) * Pow(2, b)
    ensures exists w: nat :: Moved(Val(old(a[..n]), BASE32), Val(a[..n'], BASE32), b, w) && (w < b / 32 ==> n' == BL)
  {
    hide Val, Pow, Tight, ShiftFits, Moved;
    ghost var s0 := a[..n];
    if n == 0 {
      ValEmpty(BASE32);
      MovedZero(b);
      return n;
    }
    var w: nat, s: nat := b / 32, b % 32;
    n' := n;
    ghost var k := Pow(2, s);
    if s > 0 {
      var bit := ShiftBit(s);
      BitsThenLimbs(b);
      n' := Muls(a, n, bit);
    }
    PowZero(2);
    ghost var s1 := a[..n'];
    BigBelowCap(a, n');
    BitPart(Val(s0, BASE32), Val(s1, BASE32), s);
    ghost var fits := ShiftFits(s0, b);
    if fits {
      BitPartFits(s0, b, k);
      ShiftFitsTight(s0, b);
      assert Val(s1, BASE32) == Val(s0, BASE32) * k;
      assert Tight(s1);
      LimbPartFits(s0, s1, b, k);
    }
    if w > 0 {
      if n' + w > BL {
        w := BL - n';
      }
      ShiftLimbs(a, n', w);
      n' := n' + w;
    } else {
      PowZero(BASE32);
    }
    MovedIs(Val(s0, BASE32), Val(s1, BASE32), Val(a[..n'], BASE32), b, w);
  }

  /** `r` is `v` times 2^(b % 32), modulo the capacity, moved up by `w` whole limbs. */
  ghost predicate Moved(v: nat, r: nat, b: nat, w: nat) {
    w <= b / 32 && r == v * Pow(2, b % 32) % CAP * Pow(BASE32, w)
  }

  lemma MovedZero(b: nat)
    ensures Moved(0, 0, b, b / 32)
  {
    hide Pow;
    SmallMod(0, CAP);
  }

  lemma MovedIs(v: nat, u: nat, r: nat, b: nat, w: nat)
    requires w <= b / 32 && u == v * Pow(2, b % 32) % CAP && r == u * Pow(BASE32, w)
    ensures Moved(v, r, b, w)
  {
  }

  /** Whether or not there are bits to shift, the first part is the product modulo the capacity. */
  lemma BitPart(v: nat, u: nat, s: nat)
    requires u < CAP
    requires if s == 0 then u == v
      else u == if v * Pow(2, s) < CAP then v * Pow(2, s) else v * Pow(2, s) % CAP
    ensures u == v * Pow(2, s) % CAP
  {
    PowZero(2);
    hide Pow;
    SmallMod(u, CAP);
  }

  lemma ShiftFitsTight(s: seq<nat>, b: nat)
    requires ShiftFits(s, b)
    ensures Tight(s)
  {
  }

  /** The C expression `1u << s`. */
  method ShiftBit(s: nat) returns (k: nat)
    requires s < 32
    ensures k == Pow(2, s)
  {
    k := 1;
    for i := 0 to s
      invariant k == Pow(2, i)
    {
      k := 2 * k;
    }
  }

  /** Multiply by ten to the `x`, nine places at a time; `x <= 0` leaves the number alone. */
  method Pow10(a: array<nat>, n: nat, x: int) returns (n': nat)
    requires IsBig(a, n)
    modifies a
    ensures n <= n' && IsBig(a, n')
    ensures Val(a[..n'], BASE32) == Val(old(a[..n]), BASE32) * Pow(10, Pos(x)) % CAP
    ensures Val(old(a[..n]), BASE32) * Pow(10, Pos(x)) < CAP ==>
      Val(a[..n'], BASE32) == Val(old(a[..n]), BASE32) * Pow(10, Pos(x))
    ensures Val(old(a[..n]), BASE32) * Pow(10, Pos(x)) < CAP && Tight(old(a[..n])) ==> Tight(a[..n'])
  {
    hide Val, Pow, Tight;
    ghost var w: nat := Val(a[..n], BASE32) * Pow(10, Pos(x));
    ghost var fits := w < CAP;
    ghost var tight := Tight(a[..n]);
    var y := x;
    n' := n;
    while y >= 9
      invariant y <= x && n <= n' && IsBig(a, n')
      invariant fits ==> Val(a[..n'], BASE32) * Pow(10, Pos(y)) == w
      invariant Val(a[..n'], BASE32) * Pow(10, Pos(y)) % CAP == w % CAP
      invariant fits && tight ==> Tight(a[..n'])
    {
      ghost var v := Val(a[..n'], BASE32);
      TenStep(v, y, 9);
      TenTo9();
      n' := Muls(a, n', 1_000_000_000);
      TenRest(v, Val(a[..n'], BASE32), y, 9);
      y := y - 9;
    }
    while y > 0
      invariant y <= x && n <= n' && IsBig(a, n')
      invariant fits ==> Val(a[..n'], BASE32) * Pow(10, Pos(y)) == w
      invariant Val(a[..n'], BASE32) * Pow(10, Pos(y)) % CAP == w % CAP
      invariant fits && tight ==> Tight(a[..n'])
    {
      ghost var v := Val(a[..n'], BASE32);
      TenStep(v, y, 1);
      TenTo1();
      n' := Muls(a, n', 10);
      TenRest(v, Val(a[..n'], BASE32), y, 1);
      y := y - 1;
    }
    PowZero(10);
    BigBelowCap(a, n');
  }

  /** What one pass leaves has the remainder of the product still to come. */
  lemma {:induction false} TenRest(v: nat, v': nat, y: int, k: nat)
    requires y >= k && v' == if v * Pow(10, k) < CAP then v * Pow(10, k) else v * Pow(10, k) % CAP
    ensures v' * Pow(10, Pos(y - k)) % CAP == v * Pow(10, Pos(y)) % CAP
  {
    TenStep(v, y, k);
    hide Pow;
    ModProduct(v * Pow(10, k), Pow(10, Pos(y - k)), CAP);
  }

  lemma BigBelowCap(a: array<nat>, n: nat)
    requires IsBig(a, n)
    ensures Val(a[..n], BASE32) < CAP && Val(a[..n], BASE32) % CAP == Val(a[..n], BASE32)
  {
    hide Val, Pow, Below;
    var s: seq<nat> := a[..n];
    LimbsBelowCap(s);
    var v: nat := Val(s, BASE32);
    SmallMod(v, CAP);
  }

  lemma LimbsBelowCap(s: seq<nat>)
    requires Below(s, BASE32) && |s| <= BL
    ensures Val(s, BASE32) < CAP
  {
    hide Val, Pow, Below;
    ValBound(s, BASE32);
    PowMono(BASE32, |s|, BL);
  }

  lemma TenTo1()
    ensures Pow(10, 1) == 10
  {
  }

  lemma {:induction false} TenStep(v: nat, y: int, k: nat)
    requires y >= k
    ensures v * Pow(10, k) * Pow(10, Pos(y - k)) == v * Pow(10, Pos(y))
    ensures v * Pow(10, k) <= v * Pow(10, Pos(y))
  {
    PowAdd(10, k, y - k);
    hide Pow;
    MulAssoc(v, Pow(10, k), Pow(10, y - k));
    MulGrows(v * Pow(10, k), Pow(10, y - k));
  }

  /** Leading zero limbs do not count. */
  method Significant(a: array<nat>, n0: nat) returns (n: nat)
    requires IsBig(a, n0)
    ensures n <= n0 && (n > 0 ==> a[n - 1] != 0)
    ensures Val(a[..n], BASE32) == Val(a[..n0], BASE32)
  {
    n := n0;
    while n > 0 && a[n - 1] == 0
      invariant n <= n0 && Val(a[..n], BASE32) == Val(a[..n0], BASE32)
    {
      ValTake(a[..n], n - 1, BASE32);
      assert a[..n][..n - 1] == a[..n - 1] && a[..n][..n] == a[..n];
      n := n - 1;
    }
  }

  /** Compare two big integers, whatever zero limbs pad them. */
  method Cmp(a: array<nat>, na0: nat, b: array<nat>, nb0: nat) returns (c: int)
    requires IsBig(a, na0) && IsBig(b, nb0)
    ensures c == Sign(Val(a[..na0], BASE32) - Val(b[..nb0], BASE32))
  {
    hide Val, Pow;
    var na := Significant(a, na0);
    var nb := Significant(b, nb0);
    if na != nb {
      if na > nb {
        LongerIsMore(b[..nb], a[..na]);
        return 1;
      }
      LongerIsMore(a[..na], b[..nb]);
      return -1;
    }
    c := CmpFromTop(a, b, na);
  }

  method CmpFromTop(a: array<nat>, b: array<nat>, n: nat) returns (c: int)
    requires IsBig(a, n) && IsBig(b, n)
    ensures c == Sign(Val(a[..n], BASE32) - Val(b[..n], BASE32))
  {
    hide Val, Pow;
    ghost var s, t := a[..n], b[..n];
    var i := n - 1;
    while i >= 0
      invariant -1 <= i < n
      invariant forall j :: i < j < n ==> s[j] == t[j]
    {
      if a[i] != b[i] {
        assert s[i + 1..] == t[i + 1..];
        if a[i] > b[i] {
          TopDecides(t, s, i, BASE32);
          return 1;
        }
        TopDecides(s, t, i, BASE32);
        return -1;
      }
      i := i - 1;
    }
    assert s == t;
    return 0;
  }

  lemma {:induction false} LongerIsMore(s: seq<nat>, t: seq<nat>)
    requires Below(s, BASE32) && |s| < |t| && t[|t| - 1] != 0
    ensures Val(s, BASE32) < Val(t, BASE32)
  {
    ValBound(s, BASE32);
    ValAtLeast(t, BASE32);
    PowMono(BASE32, |s|, |t| - 1);
  }
}
