/** Bitwise operations on natural numbers, bit by bit. */
module Bitwise {
  import opened Arith

  datatype Op = And | Or | Xor

  function Bit(o: Op, a: nat, b: nat): (r: nat)
    requires a < 2 && b < 2
    ensures r < 2
  {
    match o
    case And => if a == 1 && b == 1 then 1 else 0
    case Or => if a + b > 0 then 1 else 0
    case Xor => (a + b) % 2
  }

  function Bits(o: Op, x: nat, y: nat): nat
    decreases x + y
  {
    if x == 0 && y == 0 then 0 else Bit(o, x % 2, y % 2) + 2 * Bits(o, x / 2, y / 2)
  }

  lemma BitsStep(o: Op, x: nat, y: nat)
    ensures Bits(o, x, y) == Bit(o, x % 2, y % 2) + 2 * Bits(o, x / 2, y / 2)
    ensures Bits(o, x, y) % 2 == Bit(o, x % 2, y % 2) && Bits(o, x, y) / 2 == Bits(o, x / 2, y / 2)
  {
    BitsUnfold(o, x, y);
    hide Bits, Bit;
    LowBit(Bit(o, x % 2, y % 2), Bits(o, x / 2, y / 2));
  }

  lemma BitsUnfold(o: Op, x: nat, y: nat)
    ensures Bits(o, x, y) == Bit(o, x % 2, y % 2) + 2 * Bits(o, x / 2, y / 2)
  {
  }

  lemma LowBit(b: nat, v: nat)
    requires b < 2
    ensures (b + 2 * v) % 2 == b && (b + 2 * v) / 2 == v
  {
  }

  lemma HalfMod(v: nat, p: nat)
    requires p > 0
    ensures v % (2 * p) == v % 2 + 2 * (v / 2 % p)
    ensures v % (2 * p) % 2 == v % 2 && v % (2 * p) / 2 == v / 2 % p
  {
    var q, r := v / 2 / p, v / 2 % p;
    assert v / 2 == p * q + r;
    MulAssoc(2, p, q);
    assert v == 2 * p * q + (v % 2 + 2 * r);
    DivModIs(v, 2 * p, q, v % 2 + 2 * r);
  }

  /** The low bits of the result are the operation on the low bits. */
  lemma {:induction false} BitsMod(o: Op, x: nat, y: nat, k: nat)
    ensures Bits(o, x, y) % Pow(2, k) == Bits(o, x % Pow(2, k), y % Pow(2, k))
    decreases k
  {
    if k == 0 {
      PowZero(2);
    } else {
      var p := Pow(2, k - 1);
      PowSucc(2, k - 1);
      BitsMod(o, x / 2, y / 2, k - 1);
      hide Pow;
      BitsStep(o, x, y);
      BitsStep(o, x % (2 * p), y % (2 * p));
      hide Bits;
      HalfMod(x, p);
      HalfMod(y, p);
      HalfMod(Bits(o, x, y), p);
    }
  }

  lemma {:induction false} ZeroRight(x: nat)
    ensures Bits(And, x, 0) == 0 && Bits(Or, x, 0) == x
    decreases x
  {
    if x > 0 {
      ZeroRight(x / 2);
    }
  }

  /** Masking with the `k` lowest bits is the remainder. */
  lemma {:induction false} AndMask(x: nat, k: nat)
    ensures Bits(And, x, Pow(2, k) - 1) == x % Pow(2, k)
    decreases k
  {
    if k == 0 {
      PowZero(2);
      ZeroRight(x);
    } else {
      var p := Pow(2, k - 1);
      PowSucc(2, k - 1);
      AndMask(x / 2, k - 1);
      hide Pow, Bits;
      MaskStep(x, p);
    }
  }

  lemma MaskStep(x: nat, p: nat)
    requires p > 0 && Bits(And, x / 2, p - 1) == x / 2 % p
    ensures Bits(And, x, 2 * p - 1) == x % (2 * p)
  {
    hide Bits;
    BitsStep(And, x, 2 * p - 1);
    HalfMod(x, p);
    LowBit(1, p - 1);
    assert Bit(And, x % 2, 1) == x % 2;
  }

  /** Or of a shifted number and what fits below it is their sum. */
  lemma {:induction false} OrDisjoint(x: nat, y: nat, k: nat)
    requires y < Pow(2, k)
    ensures Bits(Or, x * Pow(2, k), y) == x * Pow(2, k) + y
    decreases k
  {
    if k == 0 {
      PowZero(2);
      ZeroRight(x);
    } else {
      var p := Pow(2, k - 1);
      PowSucc(2, k - 1);
      OrDisjoint(x, y / 2, k - 1);
      hide Pow, Bits;
      var s := x * (2 * p);
      Doubled(x, p);
      LowBit(0, x * p);
      BitsStep(Or, s, y);
      assert Bit(Or, 0, y % 2) == y % 2;
    }
  }

  lemma Doubled(x: nat, p: nat)
    ensures x * (2 * p) == 0 + 2 * (x * p)
  {
  }
}
