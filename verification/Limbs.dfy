/** The value of a little-endian limb sequence in any base, and the step of a schoolbook multiply. */
module Limbs {
  import opened Arith

  function Val(s: seq<nat>, base: nat): nat {
    if s == [] then 0 else Val(s[..|s| - 1], base) + s[|s| - 1] * Pow(base, |s| - 1)
  }

  ghost predicate Below(s: seq<nat>, base: nat) {
    forall i :: 0 <= i < |s| ==> s[i] < base
  }

  lemma ValEmpty(base: nat)
    ensures Val([], base) == 0
  {
  }

  lemma ValSnoc(s: seq<nat>, x: nat, base: nat)
    ensures Val(s + [x], base) == Val(s, base) + x * Pow(base, |s|)
  {
  }

  lemma ValTake(s: seq<nat>, j: nat, base: nat)
    requires j < |s|
    ensures Val(s[..j + 1], base) == Val(s[..j], base) + s[j] * Pow(base, j)
  {
    assert s[..j + 1] == s[..j] + [s[j]];
    ValSnoc(s[..j], s[j], base);
  }

  lemma {:induction false} ValBound(s: seq<nat>, base: nat)
    requires Below(s, base) && base > 0
    ensures Val(s, base) < Pow(base, |s|)
  {
    if s == [] {
    } else {
      var n := |s| - 1;
      ValBound(s[..n], base);
      MulLe(s[n] + 1, base, Pow(base, n));
      Distrib(s[n], 1, Pow(base, n));
    }
  }

  lemma {:induction false} ValAtLeast(s: seq<nat>, base: nat)
    requires |s| > 0 && s[|s| - 1] > 0
    ensures Val(s, base) >= Pow(base, |s| - 1)
  {
  }

  lemma {:induction false} ValZeros(s: seq<nat>, z: nat, base: nat)
    requires z <= |s| && forall i :: 0 <= i < z ==> s[i] == 0
    ensures Val(s, base) == Val(s[z..], base) * Pow(base, z)
    decreases |s|
  {
    if z == |s| {
      AllZero(s, base);
    } else {
      var n := |s| - 1;
      assert s[z..][..n - z] == s[..n][z..];
      ValZeros(s[..n], z, base);
      hide Pow;
      Distrib(Val(s[..n][z..], base), s[n] * Pow(base, n - z), Pow(base, z));
      MulAssoc(s[n], Pow(base, n - z), Pow(base, z));
      PowAdd(base, n - z, z);
    }
  }

  lemma {:induction false} AllZero(s: seq<nat>, base: nat)
    requires forall i :: 0 <= i < |s| ==> s[i] == 0
    ensures Val(s, base) == 0
  {
    if s == [] {
    } else {
      AllZero(s[..|s| - 1], base);
    }
  }

  /** The value of the limbs `r` with a carry still to be added above them. */
  function WithCarry(r: seq<nat>, carry: nat, base: nat): nat {
    Val(r, base) + carry * Pow(base, |r|)
  }

  /**
   A multiply by `k` that has finished the limbs `r`: with the pending carry they
   are the product of as many limbs of `s`.
   */
  ghost predicate PartProduct(r: seq<nat>, carry: nat, s: seq<nat>, k: nat, base: nat) {
    |r| <= |s| && WithCarry(r, carry, base) == Val(s[..|r|], base) * k
  }

  lemma PartProductStart(s: seq<nat>, k: nat, base: nat)
    ensures PartProduct([], 0, s, k, base)
  {
  }

  lemma PartProductEnd(r: seq<nat>, carry: nat, s: seq<nat>, k: nat, base: nat)
    requires PartProduct(r, carry, s, k, base) && |r| == |s|
    ensures WithCarry(r, carry, base) == Val(s, base) * k
  {
    assert s[..|r|] == s;
  }

  lemma AppendCarry(r: seq<nat>, carry: nat, base: nat)
    ensures Val(r + [carry], base) == WithCarry(r, carry, base) == Val(r, base) + carry * Pow(base, |r|)
  {
  }

  lemma WithNoCarry(r: seq<nat>, base: nat)
    ensures WithCarry(r, 0, base) == Val(r, base)
  {
  }

  /** A multiply stays a part product one limb further. */
  lemma {:induction false} MulStep(r: seq<nat>, s: seq<nat>, carry: nat, k: nat, base: nat, t: nat)
    requires |r| < |s| && base > 0 && PartProduct(r, carry, s, k, base)
    requires t == s[|r|] * k + carry
    ensures PartProduct(r + [t % base], t / base, s, k, base)
  {
    var j := |r|;
    ValTake(s, j, base);
    CarryStep(r, t, base);
    hide Pow, Val;
    var p := Pow(base, j);
    Distrib(Val(s[..j], base), s[j] * p, k);
    Distrib(s[j] * k, carry, p);
    MulSwap(s[j], p, k);
  }

  /** Pushing the low digit of a carry keeps the total. */
  lemma {:induction false} CarryStep(r: seq<nat>, t: nat, base: nat)
    requires base > 0
    ensures WithCarry(r + [t % base], t / base, base) == WithCarry(r, t, base)
  {
    ValSnoc(r, t % base, base);
    var p := Pow(base, |r|);
    assert Pow(base, |r| + 1) == base * p;
    hide Pow, Val;
    MulAssoc(t / base, base, p);
    Distrib(t / base * base, t % base, p);
  }

  /** A total below the cap leaves room for another limb while there is a carry. */
  lemma {:induction false} RoomForCarry(r: seq<nat>, carry: nat, base: nat, cap: nat)
    requires base > 0 && carry > 0 && WithCarry(r, carry, base) < Pow(base, cap)
    ensures |r| < cap
  {
    MulLe(1, carry, Pow(base, |r|));
    if |r| >= cap {
      PowMono(base, cap, |r|);
    }
  }

  /** Limb sequences with the higher value at the first differing top limb compare that way. */
  lemma {:induction false} TopDecides(a: seq<nat>, b: seq<nat>, i: nat, base: nat)
    requires Below(a, base) && base > 0 && i < |a| == |b|
    requires a[i] < b[i] && a[i + 1..] == b[i + 1..]
    ensures Val(a, base) < Val(b, base)
    decreases |a|
  {
    var n := |a| - 1;
    if i == n {
      ValBound(a[..n], base);
      MulLe(a[n] + 1, b[n], Pow(base, n));
      Distrib(a[n], 1, Pow(base, n));
    } else {
      assert a[n] == a[i + 1..][n - i - 1] == b[i + 1..][n - i - 1] == b[n];
      assert a[..n][i + 1..] == a[i + 1..][..n - i - 1] == b[i + 1..][..n - i - 1] == b[..n][i + 1..];
      TopDecides(a[..n], b[..n], i, base);
    }
  }

  /** Replacing one limb changes the value by the difference at its place. */
  lemma {:induction false} ValReplace(s: seq<nat>, j: nat, x: nat, base: nat)
    requires j < |s|
    ensures Val(s[j := x], base) == Val(s, base) + (x - s[j]) * Pow(base, j)
    decreases |s|
  {
    var n := |s| - 1;
    if j == n {
      assert s[j := x][..n] == s[..n];
      hide Val, Pow;
      ValUnfold(s, base);
      ValUnfold(s[j := x], base);
      DistribSub(x, s[j], Pow(base, j));
    } else {
      assert s[j := x][..n] == s[..n][j := x];
      ValReplace(s[..n], j, x, base);
    }
  }

  lemma ValUnfold(s: seq<nat>, base: nat)
    requires |s| > 0
    ensures Val(s, base) == Val(s[..|s| - 1], base) + s[|s| - 1] * Pow(base, |s| - 1)
  {
  }
}
