/** The reference of Sha256 on words as bit-vectors: its six functions, a word of the schedule, a round. */
module Sha256Bits {
  import opened Arith
  import opened Bitwise
  import opened BitWords
  import opened Sha256

  // ---------- the functions of section 4.1.2 on bit-vectors ----------

  function Turn2(x: bv32): bv32 {
    (x >> 2) | (x << 30)
  }

  lemma Turn2Is(x: bv32)
    ensures Rotr(Num(x), 2) == Num(Turn2(x))
  {
    hide Num, Pow, Rotr;
    Right2(x);
    Left30(x);
    TurnIs(x, 2, x >> 2, x << 30);
  }

  function Turn6(x: bv32): bv32 {
    (x >> 6) | (x << 26)
  }

  lemma Turn6Is(x: bv32)
    ensures Rotr(Num(x), 6) == Num(Turn6(x))
  {
    hide Num, Pow, Rotr;
    Right6(x);
    Left26(x);
    TurnIs(x, 6, x >> 6, x << 26);
  }

  function Turn7(x: bv32): bv32 {
    (x >> 7) | (x << 25)
  }

  lemma Turn7Is(x: bv32)
    ensures Rotr(Num(x), 7) == Num(Turn7(x))
  {
    hide Num, Pow, Rotr;
    Right7(x);
    Left25(x);
    TurnIs(x, 7, x >> 7, x << 25);
  }

  function Turn11(x: bv32): bv32 {
    (x >> 11) | (x << 21)
  }

  lemma Turn11Is(x: bv32)
    ensures Rotr(Num(x), 11) == Num(Turn11(x))
  {
    hide Num, Pow, Rotr;
    Right11(x);
    Left21(x);
    TurnIs(x, 11, x >> 11, x << 21);
  }

  function Turn13(x: bv32): bv32 {
    (x >> 13) | (x << 19)
  }

  lemma Turn13Is(x: bv32)
    ensures Rotr(Num(x), 13) == Num(Turn13(x))
  {
    hide Num, Pow, Rotr;
    Right13(x);
    Left19(x);
    TurnIs(x, 13, x >> 13, x << 19);
  }

  function Turn17(x: bv32): bv32 {
    (x >> 17) | (x << 15)
  }

  lemma Turn17Is(x: bv32)
    ensures Rotr(Num(x), 17) == Num(Turn17(x))
  {
    hide Num, Pow, Rotr;
    Right17(x);
    Left15(x);
    TurnIs(x, 17, x >> 17, x << 15);
  }

  function Turn18(x: bv32): bv32 {
    (x >> 18) | (x << 14)
  }

  lemma Turn18Is(x: bv32)
    ensures Rotr(Num(x), 18) == Num(Turn18(x))
  {
    hide Num, Pow, Rotr;
    Right18(x);
    Left14(x);
    TurnIs(x, 18, x >> 18, x << 14);
  }

  function Turn19(x: bv32): bv32 {
    (x >> 19) | (x << 13)
  }

  lemma Turn19Is(x: bv32)
    ensures Rotr(Num(x), 19) == Num(Turn19(x))
  {
    hide Num, Pow, Rotr;
    Right19(x);
    Left13(x);
    TurnIs(x, 19, x >> 19, x << 13);
  }

  function Turn22(x: bv32): bv32 {
    (x >> 22) | (x << 10)
  }

  lemma Turn22Is(x: bv32)
    ensures Rotr(Num(x), 22) == Num(Turn22(x))
  {
    hide Num, Pow, Rotr;
    Right22(x);
    Left10(x);
    TurnIs(x, 22, x >> 22, x << 10);
  }

  function Turn25(x: bv32): bv32 {
    (x >> 25) | (x << 7)
  }

  lemma Turn25Is(x: bv32)
    ensures Rotr(Num(x), 25) == Num(Turn25(x))
  {
    hide Num, Pow, Rotr;
    Right25(x);
    Left7(x);
    TurnIs(x, 25, x >> 25, x << 7);
  }

  lemma TurnIs(x: bv32, n: nat, r: bv32, l: bv32)
    requires n <= 32 && Num(r) == Num(x) / Pow(2, n) && Num(l) == Num(x) * Pow(2, 32 - n) % TWO32
    ensures Rotr(Num(x), n) == Num(r | l)
  {
    hide Num, Pow;
    ApplyIs(Or, r, l);
  }

  function Odd(a: bv32, b: bv32, c: bv32): bv32 {
    a ^ b ^ c
  }

  lemma OddIs(a: bv32, b: bv32, c: bv32)
    ensures Xor3(Num(a), Num(b), Num(c)) == Num(Odd(a, b, c))
  {
    hide Num;
    ApplyIs(Xor, a, b);
    ApplyIs(Xor, a ^ b, c);
  }

  function Drop3(x: bv32): bv32 {
    x >> 3
  }

  lemma Drop3Is(x: bv32)
    ensures Shr(Num(x), 3) == Num(Drop3(x))
  {
    hide Num, Pow;
    Right3(x);
  }

  function Drop10(x: bv32): bv32 {
    x >> 10
  }

  lemma Drop10Is(x: bv32)
    ensures Shr(Num(x), 10) == Num(Drop10(x))
  {
    hide Num, Pow;
    Right10(x);
  }

  function Big0(x: bv32): bv32 {
    Odd(Turn2(x), Turn13(x), Turn22(x))
  }

  lemma Big0Is(x: bv32)
    ensures BigSigma0(Num(x)) == Num(Big0(x))
  {
    hide Num, Pow, Rotr, Xor3, Odd, Turn2, Turn13, Turn22;
    Turn2Is(x);
    Turn13Is(x);
    Turn22Is(x);
    OddIs(Turn2(x), Turn13(x), Turn22(x));
  }

  function Big1(x: bv32): bv32 {
    Odd(Turn6(x), Turn11(x), Turn25(x))
  }

  lemma Big1Is(x: bv32)
    ensures BigSigma1(Num(x)) == Num(Big1(x))
  {
    hide Num, Pow, Rotr, Xor3, Odd, Turn6, Turn11, Turn25;
    Turn6Is(x);
    Turn11Is(x);
    Turn25Is(x);
    OddIs(Turn6(x), Turn11(x), Turn25(x));
  }

  function Small0(x: bv32): bv32 {
    Odd(Turn7(x), Turn18(x), Drop3(x))
  }

  lemma Small0Is(x: bv32)
    ensures SmallSigma0(Num(x)) == Num(Small0(x))
  {
    hide Num, Pow, Rotr, Xor3, Odd, Turn7, Turn18, Drop3;
    Turn7Is(x);
    Turn18Is(x);
    Drop3Is(x);
    OddIs(Turn7(x), Turn18(x), Drop3(x));
  }

  function Small1(x: bv32): bv32 {
    Odd(Turn17(x), Turn19(x), Drop10(x))
  }

  lemma Small1Is(x: bv32)
    ensures SmallSigma1(Num(x)) == Num(Small1(x))
  {
    hide Num, Pow, Rotr, Xor3, Odd, Turn17, Turn19, Drop10;
    Turn17Is(x);
    Turn19Is(x);
    Drop10Is(x);
    OddIs(Turn17(x), Turn19(x), Drop10(x));
  }

  function Choose(x: bv32, y: bv32, z: bv32): bv32 {
    (x & y) ^ (!x & z)
  }

  function Majority(x: bv32, y: bv32, z: bv32): bv32 {
    Odd(x & y, x & z, y & z)
  }

  lemma ChooseIs(x: bv32, y: bv32, z: bv32)
    ensures Num(x) < TWO32 && Ch(Num(x), Num(y), Num(z)) == Num(Choose(x, y, z))
  {
    hide Num, Bits, Apply, Choose, Odd, Majority;
    NumBound(x);
    NotIs(x);
    Applied(x, y, z);
    ApplyIs(And, x, y);
    ApplyIs(And, !x, z);
    ApplyIs(Xor, Apply(And, x, y), Apply(And, !x, z));
  }

  lemma Applied(x: bv32, y: bv32, z: bv32)
    ensures Apply(Xor, Apply(And, x, y), Apply(And, !x, z)) == Choose(x, y, z)
    ensures Odd(Apply(And, x, y), Apply(And, x, z), Apply(And, y, z)) == Majority(x, y, z)
  {
  }

  lemma MajorityIs(x: bv32, y: bv32, z: bv32)
    ensures Maj(Num(x), Num(y), Num(z)) == Num(Majority(x, y, z))
  {
    hide Num, Xor3, Odd, Apply, Choose, Majority, Bits;
    ApplyIs(And, x, y);
    ApplyIs(And, x, z);
    ApplyIs(And, y, z);
    OddIs(Apply(And, x, y), Apply(And, x, z), Apply(And, y, z));
    Applied(x, y, z);
  }

  // ---------- one round, one word ----------

  /** The working variables as bit-vectors. */
  datatype Vars = Vars(a: bv32, b: bv32, c: bv32, d: bv32, e: bv32, f: bv32, g: bv32, h: bv32)

  function Nums(s: Vars): (r: State)
    ensures IsState(r)
  {
    NumBound(s.a);
    NumBound(s.b);
    NumBound(s.c);
    NumBound(s.d);
    NumBound(s.e);
    NumBound(s.f);
    NumBound(s.g);
    NumBound(s.h);
    State(Num(s.a), Num(s.b), Num(s.c), Num(s.d), Num(s.e), Num(s.f), Num(s.g), Num(s.h))
  }

  /** `x` and `y` are the two new variables of a round, `v` what the four functions give in it. */
  predicate IsRound(s: Vars, k: nat, w: nat, v: Values, x: bv32, y: bv32) {
    var t1 := (Sum(s.h) + v.big1 + v.choose + k + w) % TWO32;
    && Sum(Big1(s.e)) == v.big1 && Sum(Choose(s.e, s.f, s.g)) == v.choose
    && Sum(Big0(s.a)) == v.big0 && Sum(Majority(s.a, s.b, s.c)) == v.majority
    && Sum(x) == (t1 + v.big0 + v.majority) % TWO32 && Sum(y) == (Sum(s.d) + t1) % TWO32
  }

  datatype Values = Values(big1: nat, choose: nat, big0: nat, majority: nat)

  lemma RoundIs(s: Vars, k: nat, w: nat, v: Values, x: bv32, y: bv32)
    requires IsRound(s, k, w, v, x, y)
    ensures Round(Nums(s), k, w) == Nums(Vars(x, s.a, s.b, s.c, y, s.e, s.f, s.g))
  {
    hide Num, Sum, BigSigma0, BigSigma1, Ch, Maj, Big0, Big1, Choose, Majority;
    Parts1(s);
    Parts0(s);
    NumIsSum(x);
    NumIsSum(y);
    var t1 := (Sum(s.h) + v.big1 + v.choose + k + w) % TWO32;
    Inner(t1, v.big0 + v.majority);
  }

  lemma Parts1(s: Vars)
    ensures Num(s.e) < TWO32 && Num(s.h) == Sum(s.h) && Num(s.d) == Sum(s.d)
    ensures BigSigma1(Num(s.e)) == Sum(Big1(s.e)) && Ch(Num(s.e), Num(s.f), Num(s.g)) == Sum(Choose(s.e, s.f, s.g))
  {
    hide Num, Sum, BigSigma1, Ch, Big1, Choose;
    NumBound(s.e);
    Big1Is(s.e);
    ChooseIs(s.e, s.f, s.g);
    NumIsSum(s.h);
    NumIsSum(s.d);
    NumIsSum(Big1(s.e));
    NumIsSum(Choose(s.e, s.f, s.g));
  }

  lemma Parts0(s: Vars)
    ensures BigSigma0(Num(s.a)) == Sum(Big0(s.a)) && Maj(Num(s.a), Num(s.b), Num(s.c)) == Sum(Majority(s.a, s.b, s.c))
  {
    hide Num, Sum, BigSigma0, Maj, Big0, Majority;
    Big0Is(s.a);
    MajorityIs(s.a, s.b, s.c);
    NumIsSum(Big0(s.a));
    NumIsSum(Majority(s.a, s.b, s.c));
  }

  lemma Inner(t: nat, u: nat)
    ensures (t + u % TWO32) % TWO32 == (t + u) % TWO32
  {
  }

  /** The state after `t` rounds. */
  ghost predicate At(block: seq<nat>, t: nat, s: Vars) {
    |block| == 64 && t <= 64 && IsState(H0) && Rounds(H0, block, t) == Nums(s)
  }

  lemma Next(block: seq<nat>, t: nat, s: Vars, k: nat, w: nat, v: Values, x: bv32, y: bv32)
    requires At(block, t, s) && t < 64 && K[t] == k && W(block, t) == w && IsRound(s, k, w, v, x, y)
    ensures At(block, t + 1, Vars(x, s.a, s.b, s.c, y, s.e, s.f, s.g))
  {
    hide IsRound, Nums, Round, K, W;
    RoundsStep(H0, block, t);
    RoundIs(s, k, w, v, x, y);
  }

  /** Word `t` of the schedule from four earlier ones. */
  lemma WordFrom(block: seq<nat>, t: nat, w2: bv32, w7: nat, w15: bv32, w16: nat, r: nat)
    requires |block| == 64 && 16 <= t < 64 && W(block, t - 2) == Sum(w2) && W(block, t - 7) == w7
    requires W(block, t - 15) == Sum(w15) && W(block, t - 16) == w16
    requires r == (Sum(Small1(w2)) + w7 + Sum(Small0(w15)) + w16) % TWO32
    ensures W(block, t) == r
  {
    hide Num, Sum, SmallSigma0, SmallSigma1, Small0, Small1;
    Small1Is(w2);
    Small0Is(w15);
    NumIsSum(w2);
    NumIsSum(w15);
    NumIsSum(Small1(w2));
    NumIsSum(Small0(w15));
  }
}
