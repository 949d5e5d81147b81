/**
 Words of 32 bits as bit-vectors, and the number each stands for: how and, or, exclusive or, complement
 and shifts of one are those of the other.
 */
module BitWords {
  import opened Arith
  import opened Bitwise

  /** The bits of `x` from mask `m` up, `k` of them. */
  function Upper(x: bv32, m: bv32, k: nat): nat
    decreases k
  {
    if k == 0 then 0 else (if x & m != 0 then 1 else 0) + 2 * Upper(x, m << 1, k - 1)
  }

  /** The number. */
  function Num(x: bv32): nat {
    Upper(x, 1, 32)
  }

  /** `m` is one bit, with `k` bits from it to the top. */
  predicate IsMask(m: bv32, k: nat)
    decreases k
  {
    k == 0 || (m != 0 && m & (m - 1) == 0 && (k == 1 <==> m == 0x8000_0000) && IsMask(m << 1, k - 1))
  }

  lemma TopMasks()
    ensures IsMask(0x1_0000, 16)
  {
    assert IsMask(0x80000000, 1);
    assert IsMask(0x40000000, 2);
    assert IsMask(0x20000000, 3);
    assert IsMask(0x10000000, 4);
    assert IsMask(0x8000000, 5);
    assert IsMask(0x4000000, 6);
    assert IsMask(0x2000000, 7);
    assert IsMask(0x1000000, 8);
    assert IsMask(0x800000, 9);
    assert IsMask(0x400000, 10);
    assert IsMask(0x200000, 11);
    assert IsMask(0x100000, 12);
    assert IsMask(0x80000, 13);
    assert IsMask(0x40000, 14);
    assert IsMask(0x20000, 15);
    assert IsMask(0x10000, 16);
  }

  lemma Masks()
    ensures IsMask(1, 32)
  {
    TopMasks();
    assert IsMask(0x8000, 17);
    assert IsMask(0x4000, 18);
    assert IsMask(0x2000, 19);
    assert IsMask(0x1000, 20);
    assert IsMask(0x800, 21);
    assert IsMask(0x400, 22);
    assert IsMask(0x200, 23);
    assert IsMask(0x100, 24);
    assert IsMask(0x80, 25);
    assert IsMask(0x40, 26);
    assert IsMask(0x20, 27);
    assert IsMask(0x10, 28);
    assert IsMask(0x8, 29);
    assert IsMask(0x4, 30);
    assert IsMask(0x2, 31);
    assert IsMask(0x1, 32);
  }

  /** The same, byte by byte and bit by bit. */
  function Byte0(x: bv32): nat {
    (if x & 0x1 != 0 then 1 else 0) + (if x & 0x2 != 0 then 2 else 0) + (if x & 0x4 != 0 then 4 else 0) + (if x & 0x8 != 0 then 8 else 0)
    + (if x & 0x10 != 0 then 16 else 0) + (if x & 0x20 != 0 then 32 else 0) + (if x & 0x40 != 0 then 64 else 0) + (if x & 0x80 != 0 then 128 else 0)
  }

  function Byte1(x: bv32): nat {
    (if x & 0x100 != 0 then 1 else 0) + (if x & 0x200 != 0 then 2 else 0) + (if x & 0x400 != 0 then 4 else 0) + (if x & 0x800 != 0 then 8 else 0)
    + (if x & 0x1000 != 0 then 16 else 0) + (if x & 0x2000 != 0 then 32 else 0) + (if x & 0x4000 != 0 then 64 else 0) + (if x & 0x8000 != 0 then 128 else 0)
  }

  function Byte2(x: bv32): nat {
    (if x & 0x10000 != 0 then 1 else 0) + (if x & 0x20000 != 0 then 2 else 0) + (if x & 0x40000 != 0 then 4 else 0) + (if x & 0x80000 != 0 then 8 else 0)
    + (if x & 0x100000 != 0 then 16 else 0) + (if x & 0x200000 != 0 then 32 else 0) + (if x & 0x400000 != 0 then 64 else 0) + (if x & 0x800000 != 0 then 128 else 0)
  }

  function Byte3(x: bv32): nat {
    (if x & 0x1000000 != 0 then 1 else 0) + (if x & 0x2000000 != 0 then 2 else 0) + (if x & 0x4000000 != 0 then 4 else 0) + (if x & 0x8000000 != 0 then 8 else 0)
    + (if x & 0x10000000 != 0 then 16 else 0) + (if x & 0x20000000 != 0 then 32 else 0) + (if x & 0x40000000 != 0 then 64 else 0) + (if x & 0x80000000 != 0 then 128 else 0)
  }

  function Sum(x: bv32): nat {
    Byte0(x) + 0x100 * Byte1(x) + 0x1_0000 * Byte2(x) + 0x100_0000 * Byte3(x)
  }

  lemma UpperStep(x: bv32, m: bv32, k: nat)
    requires k > 0
    ensures Upper(x, m, k) == (if x & m != 0 then 1 else 0) + 2 * Upper(x, m << 1, k - 1)
  {
  }

  lemma Eight0(x: bv32)
    ensures Upper(x, 0x1, 32) == Byte0(x) + 256 * Upper(x, 0x100, 24)
  {
    hide Upper;
    UpperStep(x, 0x1, 32);
    UpperStep(x, 0x2, 31);
    UpperStep(x, 0x4, 30);
    UpperStep(x, 0x8, 29);
    UpperStep(x, 0x10, 28);
    UpperStep(x, 0x20, 27);
    UpperStep(x, 0x40, 26);
    UpperStep(x, 0x80, 25);
  }

  lemma Eight1(x: bv32)
    ensures Upper(x, 0x100, 24) == Byte1(x) + 256 * Upper(x, 0x10000, 16)
  {
    hide Upper;
    UpperStep(x, 0x100, 24);
    UpperStep(x, 0x200, 23);
    UpperStep(x, 0x400, 22);
    UpperStep(x, 0x800, 21);
    UpperStep(x, 0x1000, 20);
    UpperStep(x, 0x2000, 19);
    UpperStep(x, 0x4000, 18);
    UpperStep(x, 0x8000, 17);
  }

  lemma Eight2(x: bv32)
    ensures Upper(x, 0x10000, 16) == Byte2(x) + 256 * Upper(x, 0x1000000, 8)
  {
    hide Upper;
    UpperStep(x, 0x10000, 16);
    UpperStep(x, 0x20000, 15);
    UpperStep(x, 0x40000, 14);
    UpperStep(x, 0x80000, 13);
    UpperStep(x, 0x100000, 12);
    UpperStep(x, 0x200000, 11);
    UpperStep(x, 0x400000, 10);
    UpperStep(x, 0x800000, 9);
  }

  lemma Eight3(x: bv32)
    ensures Upper(x, 0x1000000, 8) == Byte3(x) + 256 * Upper(x, 0x0, 0)
  {
    hide Upper;
    UpperStep(x, 0x1000000, 8);
    UpperStep(x, 0x2000000, 7);
    UpperStep(x, 0x4000000, 6);
    UpperStep(x, 0x8000000, 5);
    UpperStep(x, 0x10000000, 4);
    UpperStep(x, 0x20000000, 3);
    UpperStep(x, 0x40000000, 2);
    UpperStep(x, 0x80000000, 1);
  }

  lemma NothingAbove(x: bv32)
    ensures Upper(x, 0, 0) == 0
  {
  }

  lemma NumIsSum(x: bv32)
    ensures Num(x) == Sum(x)
  {
    hide Upper, Byte0, Byte1, Byte2, Byte3;
    Eight0(x);
    Eight1(x);
    Eight2(x);
    Eight3(x);
    NothingAbove(x);
  }

  // ---------- bit operations ----------

  /** The operation on one bit of two words. */
  function Apply(o: Op, x: bv32, y: bv32): bv32 {
    match o
    case And => x & y
    case Or => x | y
    case Xor => x ^ y
  }

  function BitOf(x: bv32, m: bv32): (b: nat)
    ensures b < 2
  {
    if On(x, m) then 1 else 0
  }

  predicate On(x: bv32, m: bv32) {
    x & m != 0
  }

  predicate OneBit(m: bv32) {
    m & (m - 1) == 0
  }

  lemma AndBit(x: bv32, y: bv32, m: bv32)
    requires OneBit(m)
    ensures On(x & y, m) <==> (On(x, m) && On(y, m))
  {
  }

  lemma OrBit(x: bv32, y: bv32, m: bv32)
    ensures On(x | y, m) <==> (On(x, m) || On(y, m))
  {
    OrSpreads(x, y, m);
    OrIsNone(x & m, y & m);
  }

  lemma OrSpreads(x: bv32, y: bv32, m: bv32)
    ensures (x | y) & m == (x & m) | (y & m)
  {
  }

  lemma OrIsNone(x: bv32, y: bv32)
    ensures x | y == 0 <==> x == 0 && y == 0
  {
  }

  lemma XorBit(x: bv32, y: bv32, m: bv32)
    requires OneBit(m)
    ensures On(x ^ y, m) <==> (On(x, m) != On(y, m))
  {
  }

  lemma AndOf(x: bv32, y: bv32, m: bv32)
    requires OneBit(m)
    ensures BitOf(Apply(And, x, y), m) == Bit(And, BitOf(x, m), BitOf(y, m))
  {
    hide On, OneBit;
    AndBit(x, y, m);
  }

  lemma OrOf(x: bv32, y: bv32, m: bv32)
    requires OneBit(m)
    ensures BitOf(Apply(Or, x, y), m) == Bit(Or, BitOf(x, m), BitOf(y, m))
  {
    hide On, OneBit;
    OrBit(x, y, m);
  }

  lemma XorOf(x: bv32, y: bv32, m: bv32)
    requires OneBit(m)
    ensures BitOf(Apply(Xor, x, y), m) == Bit(Xor, BitOf(x, m), BitOf(y, m))
  {
    hide On, OneBit;
    XorBit(x, y, m);
  }

  lemma BitApplied(o: Op, x: bv32, y: bv32, m: bv32)
    requires OneBit(m)
    ensures BitOf(Apply(o, x, y), m) == Bit(o, BitOf(x, m), BitOf(y, m))
  {
    hide BitOf, Bit, Apply, OneBit;
    match o
    case And => AndOf(x, y, m);
    case Or => OrOf(x, y, m);
    case Xor => XorOf(x, y, m);
  }

  lemma {:induction false} ApplyUpper(o: Op, x: bv32, y: bv32, m: bv32, k: nat)
    requires IsMask(m, k)
    ensures Bits(o, Upper(x, m, k), Upper(y, m, k)) == Upper(Apply(o, x, y), m, k)
    decreases k
  {
    hide Upper, Bits, Apply, BitOf, Bit, IsMask, OneBit;
    if k == 0 {
      NoBits(o);
      NoneUpper(x, m);
      NoneUpper(y, m);
      NoneUpper(Apply(o, x, y), m);
    } else {
      MaskStep(m, k);
      ApplyUpper(o, x, y, m << 1, k - 1);
      BitApplied(o, x, y, m);
      UpperIs(x, m, k);
      UpperIs(y, m, k);
      UpperIs(Apply(o, x, y), m, k);
      BitsStep(o, Upper(x, m, k), Upper(y, m, k));
      LowBit(BitOf(x, m), Upper(x, m << 1, k - 1));
      LowBit(BitOf(y, m), Upper(y, m << 1, k - 1));
    }
  }

  lemma NoBits(o: Op)
    ensures Bits(o, 0, 0) == 0
  {
  }

  lemma MaskStep(m: bv32, k: nat)
    requires IsMask(m, k) && k > 0
    ensures m != 0 && OneBit(m) && IsMask(m << 1, k - 1) && (k == 1 <==> m == 0x8000_0000)
  {
  }

  lemma UpperIs(x: bv32, m: bv32, k: nat)
    requires k > 0
    ensures Upper(x, m, k) == BitOf(x, m) + 2 * Upper(x, m << 1, k - 1)
  {
  }

  lemma ApplyIs(o: Op, x: bv32, y: bv32)
    ensures Bits(o, Num(x), Num(y)) == Num(Apply(o, x, y))
  {
    Masks();
    hide IsMask, Upper;
    ApplyUpper(o, x, y, 1, 32);
  }

  lemma {:induction false} UpperBound(x: bv32, m: bv32, k: nat)
    ensures Upper(x, m, k) < Pow(2, k)
    decreases k
  {
    PowZero(2);
    if k > 0 {
      UpperBound(x, m << 1, k - 1);
      PowSucc(2, k - 1);
    }
  }

  lemma NumBound(x: bv32)
    ensures Num(x) < TWO32
  {
    hide Upper;
    UpperBound(x, 1, 32);
    Pow2Consts();
  }

  lemma {:induction false} NotUpper(x: bv32, m: bv32, k: nat)
    requires IsMask(m, k)
    ensures Upper(!x, m, k) + Upper(x, m, k) == Pow(2, k) - 1
    decreases k
  {
    if k == 0 {
      PowZero(2);
    } else {
      MaskStep(m, k);
      NotUpper(x, m << 1, k - 1);
      BitNot(x, m);
      UpperIs(x, m, k);
      UpperIs(!x, m, k);
      PowSucc(2, k - 1);
      hide Upper, Pow, BitOf;
    }
  }

  lemma BitNot(x: bv32, m: bv32)
    requires m != 0 && OneBit(m)
    ensures BitOf(!x, m) + BitOf(x, m) == 1
  {
  }

  lemma NotIs(x: bv32)
    ensures Num(!x) == TWO32 - 1 - Num(x)
  {
    Masks();
    hide IsMask, Upper;
    NotUpper(x, 1, 32);
    Pow2Consts();
  }

  // ---------- shifts ----------

  lemma {:induction false} RightUpper(x: bv32, m: bv32, k: nat)
    requires IsMask(m, k) && k > 0
    ensures Upper(x >> 1, m, k) == Upper(x, m << 1, k - 1)
    decreases k
  {
    hide Upper, BitOf, IsMask;
    MaskStep(m, k);
    UpperIs(x >> 1, m, k);
    BitRight(x, m);
    if k > 1 {
      MaskStep(m << 1, k - 1);
      RightUpper(x, m << 1, k - 1);
      UpperIs(x, m << 1, k - 1);
    } else {
      NoneUpper(x >> 1, m << 1);
      NoneUpper(x, m << 1);
    }
  }

  lemma NoneUpper(x: bv32, m: bv32)
    ensures Upper(x, m, 0) == 0
  {
  }

  lemma BitRight(x: bv32, m: bv32)
    requires m != 0 && OneBit(m)
    ensures BitOf(x >> 1, m) == if m == 0x8000_0000 then 0 else BitOf(x, m << 1)
  {
  }

  lemma RightIs(x: bv32)
    ensures Num(x >> 1) == Num(x) / 2
  {
    Masks();
    RightUpper(x, 1, 32);
    UpperIs(x, 1, 32);
    hide Upper, IsMask, BitOf;
  }

  lemma {:induction false} LeftUpper(x: bv32, m: bv32, k: nat)
    requires IsMask(m, k) && k > 0
    ensures Upper(x << 1, m << 1, k - 1) == Upper(x, m, k) % Pow(2, k - 1)
    decreases k
  {
    hide Upper, BitOf, Pow, IsMask;
    MaskStep(m, k);
    UpperIs(x, m, k);
    PowZero(2);
    if k > 1 {
      MaskStep(m << 1, k - 1);
      LeftUpper(x, m << 1, k - 1);
      UpperIs(x << 1, m << 1, k - 1);
      BitLeft(x, m);
      PowSucc(2, k - 2);
      BitBelow(BitOf(x, m), Upper(x, m << 1, k - 1), Pow(2, k - 2));
    } else {
      NoneUpper(x << 1, m << 1);
    }
  }

  lemma BitLeft(x: bv32, m: bv32)
    requires m != 0 && OneBit(m) && m != 0x8000_0000
    ensures BitOf(x << 1, m << 1) == BitOf(x, m)
  {
  }

  lemma {:induction false} BitBelow(b: nat, v: nat, p: nat)
    requires b < 2 && p > 0
    ensures (b + 2 * v) % (2 * p) == b + 2 * (v % p)
  {
    var q, r := v / p, v % p;
    assert v == q * p + r;
    MulAssoc(2, q, p);
    MulSwap(2, q, p);
    DivModIs(b + 2 * v, 2 * p, q, b + 2 * r);
  }

  lemma LeftIs(x: bv32)
    ensures Num(x << 1) == 2 * Num(x) % TWO32
  {
    hide Upper, IsMask, BitOf, Pow;
    Masks();
    LeftUpper(x, 1, 32);
    UpperIs(x << 1, 1, 32);
    LowClear(x);
    Pow2Consts();
    PowSucc(2, 31);
    BitBelow(0, Num(x), Pow(2, 31));
  }

  lemma LowClear(x: bv32)
    ensures BitOf(x << 1, 1) == 0
  {
  }

  // ---------- shifts by more ----------

  lemma {:induction false} DivPow(v: nat, a: nat, b: nat)
    ensures v / Pow(2, a) / Pow(2, b) == v / Pow(2, a + b)
  {
    PowAdd(2, a, b);
    hide Pow;
    var p: nat, q: nat := Pow(2, a), Pow(2, b);
    DivParts(v, p);
    DivParts(v / p, q);
    TwoDivisions(v, p, q, v / p, v % p, v / p / q, v / p % q);
  }

  lemma DivParts(v: nat, p: nat)
    requires p > 0
    ensures v == v / p * p + v % p && v % p < p && v / p >= 0
  {
  }

  lemma {:induction false} TwoDivisions(v: nat, p: nat, q: nat, d: nat, r: nat, e: nat, t: nat)
    requires p > 0 && q > 0 && v == d * p + r && r < p && d == e * q + t && t < q
    ensures v / (p * q) == e
  {
    Distrib(e * q, t, p);
    MulAssoc(e, q, p);
    MulLe(t + 1, q, p);
    Distrib(t, 1, p);
    DivModIs(v, p * q, e, t * p + r);
  }

  lemma {:induction false} ModPow(v: nat, a: nat, b: nat)
    ensures v * Pow(2, a) % TWO32 * Pow(2, b) % TWO32 == v * Pow(2, a + b) % TWO32
  {
    PowAdd(2, a, b);
    hide Pow;
    ModProduct(v * Pow(2, a), Pow(2, b), TWO32);
    MulAssoc(v, Pow(2, a), Pow(2, b));
  }

  lemma Right1(x: bv32)
    ensures Num(x >> 1) == Num(x) / Pow(2, 1)
  {
    hide Num;
    RightIs(x);
    assert Pow(2, 1) == 2;
  }

  lemma Left1(x: bv32)
    ensures Num(x << 1) == Num(x) * Pow(2, 1) % TWO32
  {
    hide Num;
    LeftIs(x);
    assert Pow(2, 1) == 2;
  }

  lemma Right2(x: bv32)
    ensures Num(x >> 2) == Num(x) / Pow(2, 2)
  {
    hide Num, Pow;
    Right1(x);
    Right1(x >> 1);
    DivPow(Num(x), 1, 1);
    assert (x >> 1) >> 1 == x >> 2;
  }

  lemma Right3(x: bv32)
    ensures Num(x >> 3) == Num(x) / Pow(2, 3)
  {
    hide Num, Pow;
    Right2(x);
    Right1(x >> 2);
    DivPow(Num(x), 2, 1);
    assert (x >> 2) >> 1 == x >> 3;
  }

  lemma Right6(x: bv32)
    ensures Num(x >> 6) == Num(x) / Pow(2, 6)
  {
    hide Num, Pow;
    Right3(x);
    Right3(x >> 3);
    DivPow(Num(x), 3, 3);
    assert (x >> 3) >> 3 == x >> 6;
  }

  lemma Right7(x: bv32)
    ensures Num(x >> 7) == Num(x) / Pow(2, 7)
  {
    hide Num, Pow;
    Right6(x);
    Right1(x >> 6);
    DivPow(Num(x), 6, 1);
    assert (x >> 6) >> 1 == x >> 7;
  }

  lemma Right10(x: bv32)
    ensures Num(x >> 10) == Num(x) / Pow(2, 10)
  {
    hide Num, Pow;
    Right7(x);
    Right3(x >> 7);
    DivPow(Num(x), 7, 3);
    assert (x >> 7) >> 3 == x >> 10;
  }

  lemma Right11(x: bv32)
    ensures Num(x >> 11) == Num(x) / Pow(2, 11)
  {
    hide Num, Pow;
    Right10(x);
    Right1(x >> 10);
    DivPow(Num(x), 10, 1);
    assert (x >> 10) >> 1 == x >> 11;
  }

  lemma Right13(x: bv32)
    ensures Num(x >> 13) == Num(x) / Pow(2, 13)
  {
    hide Num, Pow;
    Right11(x);
    Right2(x >> 11);
    DivPow(Num(x), 11, 2);
    assert (x >> 11) >> 2 == x >> 13;
  }

  lemma Right17(x: bv32)
    ensures Num(x >> 17) == Num(x) / Pow(2, 17)
  {
    hide Num, Pow;
    Right11(x);
    Right6(x >> 11);
    DivPow(Num(x), 11, 6);
    assert (x >> 11) >> 6 == x >> 17;
  }

  lemma Right18(x: bv32)
    ensures Num(x >> 18) == Num(x) / Pow(2, 18)
  {
    hide Num, Pow;
    Right11(x);
    Right7(x >> 11);
    DivPow(Num(x), 11, 7);
    assert (x >> 11) >> 7 == x >> 18;
  }

  lemma Right19(x: bv32)
    ensures Num(x >> 19) == Num(x) / Pow(2, 19)
  {
    hide Num, Pow;
    Right13(x);
    Right6(x >> 13);
    DivPow(Num(x), 13, 6);
    assert (x >> 13) >> 6 == x >> 19;
  }

  lemma Right22(x: bv32)
    ensures Num(x >> 22) == Num(x) / Pow(2, 22)
  {
    hide Num, Pow;
    Right11(x);
    Right11(x >> 11);
    DivPow(Num(x), 11, 11);
    assert (x >> 11) >> 11 == x >> 22;
  }

  lemma Right25(x: bv32)
    ensures Num(x >> 25) == Num(x) / Pow(2, 25)
  {
    hide Num, Pow;
    Right22(x);
    Right3(x >> 22);
    DivPow(Num(x), 22, 3);
    assert (x >> 22) >> 3 == x >> 25;
  }

  lemma Left2(x: bv32)
    ensures Num(x << 2) == Num(x) * Pow(2, 2) % TWO32
  {
    hide Num, Pow;
    Left1(x);
    Left1(x << 1);
    ModPow(Num(x), 1, 1);
    assert (x << 1) << 1 == x << 2;
  }

  lemma Left3(x: bv32)
    ensures Num(x << 3) == Num(x) * Pow(2, 3) % TWO32
  {
    hide Num, Pow;
    Left2(x);
    Left1(x << 2);
    ModPow(Num(x), 2, 1);
    assert (x << 2) << 1 == x << 3;
  }

  lemma Left6(x: bv32)
    ensures Num(x << 6) == Num(x) * Pow(2, 6) % TWO32
  {
    hide Num, Pow;
    Left3(x);
    Left3(x << 3);
    ModPow(Num(x), 3, 3);
    assert (x << 3) << 3 == x << 6;
  }

  lemma Left7(x: bv32)
    ensures Num(x << 7) == Num(x) * Pow(2, 7) % TWO32
  {
    hide Num, Pow;
    Left6(x);
    Left1(x << 6);
    ModPow(Num(x), 6, 1);
    assert (x << 6) << 1 == x << 7;
  }

  lemma Left10(x: bv32)
    ensures Num(x << 10) == Num(x) * Pow(2, 10) % TWO32
  {
    hide Num, Pow;
    Left7(x);
    Left3(x << 7);
    ModPow(Num(x), 7, 3);
    assert (x << 7) << 3 == x << 10;
  }

  lemma Left13(x: bv32)
    ensures Num(x << 13) == Num(x) * Pow(2, 13) % TWO32
  {
    hide Num, Pow;
    Left10(x);
    Left3(x << 10);
    ModPow(Num(x), 10, 3);
    assert (x << 10) << 3 == x << 13;
  }

  lemma Left14(x: bv32)
    ensures Num(x << 14) == Num(x) * Pow(2, 14) % TWO32
  {
    hide Num, Pow;
    Left7(x);
    Left7(x << 7);
    ModPow(Num(x), 7, 7);
    assert (x << 7) << 7 == x << 14;
  }

  lemma Left15(x: bv32)
    ensures Num(x << 15) == Num(x) * Pow(2, 15) % TWO32
  {
    hide Num, Pow;
    Left14(x);
    Left1(x << 14);
    ModPow(Num(x), 14, 1);
    assert (x << 14) << 1 == x << 15;
  }

  lemma Left19(x: bv32)
    ensures Num(x << 19) == Num(x) * Pow(2, 19) % TWO32
  {
    hide Num, Pow;
    Left13(x);
    Left6(x << 13);
    ModPow(Num(x), 13, 6);
    assert (x << 13) << 6 == x << 19;
  }

  lemma Left21(x: bv32)
    ensures Num(x << 21) == Num(x) * Pow(2, 21) % TWO32
  {
    hide Num, Pow;
    Left14(x);
    Left7(x << 14);
    ModPow(Num(x), 14, 7);
    assert (x << 14) << 7 == x << 21;
  }

  lemma Left25(x: bv32)
    ensures Num(x << 25) == Num(x) * Pow(2, 25) % TWO32
  {
    hide Num, Pow;
    Left15(x);
    Left10(x << 15);
    ModPow(Num(x), 15, 10);
    assert (x << 15) << 10 == x << 25;
  }

  lemma Left26(x: bv32)
    ensures Num(x << 26) == Num(x) * Pow(2, 26) % TWO32
  {
    hide Num, Pow;
    Left13(x);
    Left13(x << 13);
    ModPow(Num(x), 13, 13);
    assert (x << 13) << 13 == x << 26;
  }

  lemma Left30(x: bv32)
    ensures Num(x << 30) == Num(x) * Pow(2, 30) % TWO32
  {
    hide Num, Pow;
    Left15(x);
    Left15(x << 15);
    ModPow(Num(x), 15, 15);
    assert (x << 15) << 15 == x << 30;
  }
}
