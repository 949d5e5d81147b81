/**
 The constants of SHA-256 from their definitions: fractions of the cube roots of the first sixty-four primes,
 and of the square roots of the first eight; choice and majority bit by bit; the length field of the padding.
 (Sections 4.1.2, 4.2.2, 5.1.1 and 5.3.3 of FIPS 180-4.)
 */
module Sha256Constants {
  import opened Arith
  import opened Bitwise
  import opened Sha256

  // ---------- the first primes ----------

  ghost predicate IsPrime(n: nat) {
    n >= 2 && forall d: nat :: 2 <= d < n ==> n % d != 0
  }

  /** `q` is the next prime behind `p`. */
  ghost predicate IsNextPrime(p: nat, q: nat) {
    p < q && IsPrime(q) && forall n: nat :: p < n < q ==> !IsPrime(n)
  }

  const PRIMES: seq<nat> :=
    [2, 3, 5, 7, 11, 13, 17, 19] +
    [23, 29, 31, 37, 41, 43, 47, 53] +
    [59, 61, 67, 71, 73, 79, 83, 89] +
    [97, 101, 103, 107, 109, 113, 127, 131] +
    [137, 139, 149, 151, 157, 163, 167, 173] +
    [179, 181, 191, 193, 197, 199, 211, 223] +
    [227, 229, 233, 239, 241, 251, 257, 263] +
    [269, 271, 277, 281, 283, 293, 307, 311]

  /** No divisor up to 17, which decides below 18 * 18. */
  predicate Sieved(n: nat) {
    n == 2 || n == 3 || n == 5 || n == 7 || n == 11 || n == 13 || n == 17
    || (n >= 2 && n % 2 != 0 && n % 3 != 0 && n % 5 != 0 && n % 7 != 0 && n % 11 != 0 && n % 13 != 0 && n % 17 != 0)
  }

  lemma {:induction false} Decide(n: nat)
    requires n < 324
    ensures IsPrime(n) <==> Sieved(n)
  {
    if IsPrime(n) {
      assert (2 < n ==> n % 2 != 0) && (3 < n ==> n % 3 != 0) && (5 < n ==> n % 5 != 0) && (7 < n ==> n % 7 != 0);
      assert (11 < n ==> n % 11 != 0) && (13 < n ==> n % 13 != 0) && (17 < n ==> n % 17 != 0);
    } else if Sieved(n) && n >= 2 {
      var d: nat :| 2 <= d < n && n % d == 0;
      SmallFactor(n, d);
    }
  }

  /** Of two factors of a number below 18 * 18, one is at most 17. */
  lemma {:induction false} SmallFactor(n: nat, d: nat)
    requires 2 <= d < n < 324 && n % d == 0
    ensures !Sieved(n)
  {
    var e := n / d;
    assert n == d * e;
    FactorBounds(n, d, e);
    if d <= 17 {
      NotSieved(n, d, e);
    } else {
      NotSieved(n, e, d);
    }
  }

  lemma FactorBounds(n: nat, d: nat, e: int)
    requires n == d * e && 2 <= d < n < 324
    ensures 2 <= e < n && (d <= 17 || e <= 17)
  {
    if e <= 1 {
      MulLe(e, 1, d);
    }
    if e >= n {
      MulLe(n, e, d);
      MulLe(2, d, n);
    }
    if d >= 18 && e >= 18 {
      MulMono(18, d, 18, e);
    }
  }

  lemma NotSieved(n: nat, f: nat, e: nat)
    requires n == f * e && 2 <= f <= 17 && 2 <= e && f < n
    ensures !Sieved(n)
  {
    var p := if f % 2 == 0 then 2 else if f % 3 == 0 then 3 else f;
    assert p == 2 || p == 3 || p == 5 || p == 7 || p == 11 || p == 13 || p == 17;
    var g := f / p;
    assert f == g * p;
    Through(n, p, g, e);
  }

  lemma Through(n: nat, p: nat, g: nat, e: nat)
    requires p > 0 && n == g * p * e
    ensures n % p == 0
  {
    MulSwap(g, p, e);
    DivModIs(n, p, g * e, 0);
  }

  lemma Primes0()
    ensures IsNextPrime(2, 3) && IsNextPrime(3, 5) && IsNextPrime(5, 7)
  {
    Gap(2, 3);
    Gap(3, 5);
    Gap(5, 7);
  }

  lemma Primes1()
    ensures IsNextPrime(7, 11) && IsNextPrime(11, 13) && IsNextPrime(13, 17) && IsNextPrime(17, 19)
  {
    assert NoneFrom(8, 11);
    Gap(7, 11);
    assert NoneFrom(12, 13);
    Gap(11, 13);
    assert NoneFrom(14, 17);
    Gap(13, 17);
    assert NoneFrom(18, 19);
    Gap(17, 19);
  }

  lemma Primes2()
    ensures IsNextPrime(19, 23) && IsNextPrime(23, 29) && IsNextPrime(29, 31) && IsNextPrime(31, 37)
  {
    assert NoneFrom(20, 23);
    Gap(19, 23);
    assert NoneFrom(24, 29);
    Gap(23, 29);
    assert NoneFrom(30, 31);
    Gap(29, 31);
    assert NoneFrom(32, 37);
    Gap(31, 37);
  }

  lemma Primes3()
    ensures IsNextPrime(37, 41) && IsNextPrime(41, 43) && IsNextPrime(43, 47) && IsNextPrime(47, 53)
  {
    assert NoneFrom(38, 41);
    Gap(37, 41);
    assert NoneFrom(42, 43);
    Gap(41, 43);
    assert NoneFrom(44, 47);
    Gap(43, 47);
    assert NoneFrom(48, 53);
    Gap(47, 53);
  }

  lemma Primes4()
    ensures IsNextPrime(53, 59) && IsNextPrime(59, 61) && IsNextPrime(61, 67) && IsNextPrime(67, 71)
  {
    assert NoneFrom(54, 59);
    Gap(53, 59);
    assert NoneFrom(60, 61);
    Gap(59, 61);
    assert NoneFrom(62, 67);
    Gap(61, 67);
    assert NoneFrom(68, 71);
    Gap(67, 71);
  }

  lemma Primes5()
    ensures IsNextPrime(71, 73) && IsNextPrime(73, 79) && IsNextPrime(79, 83) && IsNextPrime(83, 89)
  {
    assert NoneFrom(72, 73);
    Gap(71, 73);
    assert NoneFrom(74, 79);
    Gap(73, 79);
    assert NoneFrom(80, 83);
    Gap(79, 83);
    assert NoneFrom(84, 89);
    Gap(83, 89);
  }

  lemma Primes6()
    ensures IsNextPrime(89, 97) && IsNextPrime(97, 101) && IsNextPrime(101, 103) && IsNextPrime(103, 107)
  {
    assert NoneFrom(90, 97);
    Gap(89, 97);
    assert NoneFrom(98, 101);
    Gap(97, 101);
    assert NoneFrom(102, 103);
    Gap(101, 103);
    assert NoneFrom(104, 107);
    Gap(103, 107);
  }

  lemma Primes7()
    ensures IsNextPrime(107, 109) && IsNextPrime(109, 113) && IsNextPrime(113, 127) && IsNextPrime(127, 131)
  {
    assert NoneFrom(108, 109);
    Gap(107, 109);
    assert NoneFrom(110, 113);
    Gap(109, 113);
    assert NoneFrom(114, 127);
    Gap(113, 127);
    assert NoneFrom(128, 131);
    Gap(127, 131);
  }

  lemma Primes8()
    ensures IsNextPrime(131, 137) && IsNextPrime(137, 139) && IsNextPrime(139, 149) && IsNextPrime(149, 151)
  {
    assert NoneFrom(132, 137);
    Gap(131, 137);
    assert NoneFrom(138, 139);
    Gap(137, 139);
    assert NoneFrom(140, 149);
    Gap(139, 149);
    assert NoneFrom(150, 151);
    Gap(149, 151);
  }

  lemma Primes9()
    ensures IsNextPrime(151, 157) && IsNextPrime(157, 163) && IsNextPrime(163, 167) && IsNextPrime(167, 173)
  {
    assert NoneFrom(152, 157);
    Gap(151, 157);
    assert NoneFrom(158, 163);
    Gap(157, 163);
    assert NoneFrom(164, 167);
    Gap(163, 167);
    assert NoneFrom(168, 173);
    Gap(167, 173);
  }

  lemma Primes10()
    ensures IsNextPrime(173, 179) && IsNextPrime(179, 181) && IsNextPrime(181, 191) && IsNextPrime(191, 193)
  {
    assert NoneFrom(174, 179);
    Gap(173, 179);
    assert NoneFrom(180, 181);
    Gap(179, 181);
    assert NoneFrom(182, 191);
    Gap(181, 191);
    assert NoneFrom(192, 193);
    Gap(191, 193);
  }

  lemma Primes11()
    ensures IsNextPrime(193, 197) && IsNextPrime(197, 199) && IsNextPrime(199, 211) && IsNextPrime(211, 223)
  {
    assert NoneFrom(194, 197);
    Gap(193, 197);
    assert NoneFrom(198, 199);
    Gap(197, 199);
    assert NoneFrom(200, 211);
    Gap(199, 211);
    assert NoneFrom(212, 223);
    Gap(211, 223);
  }

  lemma Primes12()
    ensures IsNextPrime(223, 227) && IsNextPrime(227, 229) && IsNextPrime(229, 233) && IsNextPrime(233, 239)
  {
    assert NoneFrom(224, 227);
    Gap(223, 227);
    assert NoneFrom(228, 229);
    Gap(227, 229);
    assert NoneFrom(230, 233);
    Gap(229, 233);
    assert NoneFrom(234, 239);
    Gap(233, 239);
  }

  lemma Primes13()
    ensures IsNextPrime(239, 241) && IsNextPrime(241, 251) && IsNextPrime(251, 257) && IsNextPrime(257, 263)
  {
    assert NoneFrom(240, 241);
    Gap(239, 241);
    assert NoneFrom(242, 251);
    Gap(241, 251);
    assert NoneFrom(252, 257);
    Gap(251, 257);
    assert NoneFrom(258, 263);
    Gap(257, 263);
  }

  lemma Primes14()
    ensures IsNextPrime(263, 269) && IsNextPrime(269, 271) && IsNextPrime(271, 277) && IsNextPrime(277, 281)
  {
    assert NoneFrom(264, 269);
    Gap(263, 269);
    assert NoneFrom(270, 271);
    Gap(269, 271);
    assert NoneFrom(272, 277);
    Gap(271, 277);
    assert NoneFrom(278, 281);
    Gap(277, 281);
  }

  lemma Primes15()
    ensures IsNextPrime(281, 283) && IsNextPrime(283, 293) && IsNextPrime(293, 307) && IsNextPrime(307, 311)
  {
    assert NoneFrom(282, 283);
    Gap(281, 283);
    assert NoneFrom(284, 293);
    Gap(283, 293);
    assert NoneFrom(294, 307);
    Gap(293, 307);
    assert NoneFrom(308, 311);
    Gap(307, 311);
  }

  /** No prime from `a` on below `q`. */
  predicate NoneFrom(a: nat, q: nat)
    decreases q - a
  {
    a >= q || (!Sieved(a) && NoneFrom(a + 1, q))
  }

  lemma {:induction false} NoneIs(a: nat, q: nat)
    requires NoneFrom(a, q)
    ensures forall n: nat :: a <= n < q ==> !Sieved(n)
    decreases q - a
  {
    hide Sieved;
    if a < q {
      NoneIs(a + 1, q);
    }
  }

  lemma Gap(p: nat, q: nat)
    requires p < q < 324 && Sieved(q) && NoneFrom(p + 1, q)
    ensures IsNextPrime(p, q)
  {
    hide Sieved, IsPrime, NoneFrom;
    Decide(q);
    NoneIs(p + 1, q);
    forall n: nat | p < n < q
      ensures !IsPrime(n)
    {
      Decide(n);
    }
  }

  /** The first prime is 2, and each of the sixty-four is the next behind the one before it. */
  lemma PrimesInOrder()
    ensures |PRIMES| == 64 && PRIMES[0] == 2 && IsPrime(2)
    ensures forall i: nat :: i < 63 ==> IsNextPrime(PRIMES[i], PRIMES[i + 1])
  {
    hide IsNextPrime, PRIMES;
    Decide(2);
    hide IsPrime;
    Row0();
    Row1();
    Row2();
    Row3();
    Row4();
    Row5();
    Row6();
    Row7();
  }

  lemma Row0()
    ensures |PRIMES| == 64 && PRIMES[0] == 2 && forall i: nat :: 0 <= i < 7 ==> IsNextPrime(PRIMES[i], PRIMES[i + 1])
  {
    Listed0();
    Primes0();
    Primes1();
    hide IsNextPrime, PRIMES;
  }

  lemma Row1()
    ensures |PRIMES| == 64 && PRIMES[0] == 2 && forall i: nat :: 7 <= i < 15 ==> IsNextPrime(PRIMES[i], PRIMES[i + 1])
  {
    Listed0();
    Listed1();
    Primes2();
    Primes3();
    hide IsNextPrime, PRIMES;
  }

  lemma Row2()
    ensures |PRIMES| == 64 && PRIMES[0] == 2 && forall i: nat :: 15 <= i < 23 ==> IsNextPrime(PRIMES[i], PRIMES[i + 1])
  {
    Listed0();
    Listed1();
    Listed2();
    Primes4();
    Primes5();
    hide IsNextPrime, PRIMES;
  }

  lemma Row3()
    ensures |PRIMES| == 64 && PRIMES[0] == 2 && forall i: nat :: 23 <= i < 31 ==> IsNextPrime(PRIMES[i], PRIMES[i + 1])
  {
    Listed0();
    Listed2();
    Listed3();
    Primes6();
    Primes7();
    hide IsNextPrime, PRIMES;
  }

  lemma Row4()
    ensures |PRIMES| == 64 && PRIMES[0] == 2 && forall i: nat :: 31 <= i < 39 ==> IsNextPrime(PRIMES[i], PRIMES[i + 1])
  {
    Listed0();
    Listed3();
    Listed4();
    Primes8();
    Primes9();
    hide IsNextPrime, PRIMES;
  }

  lemma Row5()
    ensures |PRIMES| == 64 && PRIMES[0] == 2 && forall i: nat :: 39 <= i < 47 ==> IsNextPrime(PRIMES[i], PRIMES[i + 1])
  {
    Listed0();
    Listed4();
    Listed5();
    Primes10();
    Primes11();
    hide IsNextPrime, PRIMES;
  }

  lemma Row6()
    ensures |PRIMES| == 64 && PRIMES[0] == 2 && forall i: nat :: 47 <= i < 55 ==> IsNextPrime(PRIMES[i], PRIMES[i + 1])
  {
    Listed0();
    Listed5();
    Listed6();
    Primes12();
    Primes13();
    hide IsNextPrime, PRIMES;
  }

  lemma Row7()
    ensures |PRIMES| == 64 && PRIMES[0] == 2 && forall i: nat :: 55 <= i < 63 ==> IsNextPrime(PRIMES[i], PRIMES[i + 1])
  {
    Listed0();
    Listed6();
    Listed7();
    Primes14();
    Primes15();
    hide IsNextPrime, PRIMES;
  }

  lemma Listed0()
    ensures |PRIMES| == 64 && PRIMES[0] == 2 && PRIMES[1] == 3 && PRIMES[2] == 5 && PRIMES[3] == 7 && PRIMES[4] == 11 && PRIMES[5] == 13 && PRIMES[6] == 17 && PRIMES[7] == 19
  {
    assert PRIMES[0..8] == [2, 3, 5, 7, 11, 13, 17, 19];
  }

  lemma Listed1()
    ensures |PRIMES| == 64 && PRIMES[8] == 23 && PRIMES[9] == 29 && PRIMES[10] == 31 && PRIMES[11] == 37 && PRIMES[12] == 41 && PRIMES[13] == 43 && PRIMES[14] == 47 && PRIMES[15] == 53
  {
    assert PRIMES[8..16] == [23, 29, 31, 37, 41, 43, 47, 53];
  }

  lemma Listed2()
    ensures |PRIMES| == 64 && PRIMES[16] == 59 && PRIMES[17] == 61 && PRIMES[18] == 67 && PRIMES[19] == 71 && PRIMES[20] == 73 && PRIMES[21] == 79 && PRIMES[22] == 83 && PRIMES[23] == 89
  {
    assert PRIMES[16..24] == [59, 61, 67, 71, 73, 79, 83, 89];
  }

  lemma Listed3()
    ensures |PRIMES| == 64 && PRIMES[24] == 97 && PRIMES[25] == 101 && PRIMES[26] == 103 && PRIMES[27] == 107 && PRIMES[28] == 109 && PRIMES[29] == 113 && PRIMES[30] == 127 && PRIMES[31] == 131
  {
    assert PRIMES[24..32] == [97, 101, 103, 107, 109, 113, 127, 131];
  }

  lemma Listed4()
    ensures |PRIMES| == 64 && PRIMES[32] == 137 && PRIMES[33] == 139 && PRIMES[34] == 149 && PRIMES[35] == 151 && PRIMES[36] == 157 && PRIMES[37] == 163 && PRIMES[38] == 167 && PRIMES[39] == 173
  {
    assert PRIMES[32..40] == [137, 139, 149, 151, 157, 163, 167, 173];
  }

  lemma Listed5()
    ensures |PRIMES| == 64 && PRIMES[40] == 179 && PRIMES[41] == 181 && PRIMES[42] == 191 && PRIMES[43] == 193 && PRIMES[44] == 197 && PRIMES[45] == 199 && PRIMES[46] == 211 && PRIMES[47] == 223
  {
    assert PRIMES[40..48] == [179, 181, 191, 193, 197, 199, 211, 223];
  }

  lemma Listed6()
    ensures |PRIMES| == 64 && PRIMES[48] == 227 && PRIMES[49] == 229 && PRIMES[50] == 233 && PRIMES[51] == 239 && PRIMES[52] == 241 && PRIMES[53] == 251 && PRIMES[54] == 257 && PRIMES[55] == 263
  {
    assert PRIMES[48..56] == [227, 229, 233, 239, 241, 251, 257, 263];
  }

  lemma Listed7()
    ensures |PRIMES| == 64 && PRIMES[56] == 269 && PRIMES[57] == 271 && PRIMES[58] == 277 && PRIMES[59] == 281 && PRIMES[60] == 283 && PRIMES[61] == 293 && PRIMES[62] == 307 && PRIMES[63] == 311
  {
    assert PRIMES[56..64] == [269, 271, 277, 281, 283, 293, 307, 311];
  }

  // ---------- the roots ----------

  /** `k` is the first thirty-two bits of the fraction of the cube root of `p`. */
  ghost predicate IsCubeFraction(p: nat, k: nat) {
    k < 0x1_0000_0000 && exists c: nat :: IsCubeRoot(p, c * 0x1_0000_0000 + k)
  }

  /** `x` is the cube root of `p * 2^96`, rounded down. */
  predicate IsCubeRoot(p: nat, x: nat) {
    x * x * x <= p * 0x1_0000_0000_0000_0000_0000_0000 < (x + 1) * (x + 1) * (x + 1)
  }

  lemma CubeFraction(p: nat, c: nat, k: nat, x: nat)
    requires x == c * 0x1_0000_0000 + k && k < 0x1_0000_0000 && IsCubeRoot(p, x)
    ensures IsCubeFraction(p, k)
  {
    hide IsCubeRoot;
  }

  /** The same for square roots. */
  ghost predicate IsSquareFraction(p: nat, k: nat) {
    k < 0x1_0000_0000 && exists c: nat :: IsSquareRoot(p, c * 0x1_0000_0000 + k)
  }

  predicate IsSquareRoot(p: nat, x: nat) {
    x * x <= p * 0x1_0000_0000_0000_0000 < (x + 1) * (x + 1)
  }

  lemma SquareFraction(p: nat, c: nat, k: nat, x: nat)
    requires x == c * 0x1_0000_0000 + k && k < 0x1_0000_0000 && IsSquareRoot(p, x)
    ensures IsSquareFraction(p, k)
  {
    hide IsSquareRoot;
  }

  lemma Roots0()
    ensures |K| == 64 && IsCubeFraction(PRIMES[0], K[0]) && IsCubeFraction(PRIMES[1], K[1]) && IsCubeFraction(PRIMES[2], K[2]) && IsCubeFraction(PRIMES[3], K[3]) && IsCubeFraction(PRIMES[4], K[4]) && IsCubeFraction(PRIMES[5], K[5]) && IsCubeFraction(PRIMES[6], K[6]) && IsCubeFraction(PRIMES[7], K[7])
  {
    Listed0();
    assert K[0..8] == [0x428a2f98, 0x71374491, 0xb5c0fbcf, 0xe9b5dba5, 0x3956c25b, 0x59f111f1, 0x923f82a4, 0xab1c5ed5];
    hide IsCubeFraction;
    CubeFraction(2, 1, 0x428a2f98, 0x1428a2f98);
    CubeFraction(3, 1, 0x71374491, 0x171374491);
    CubeFraction(5, 1, 0xb5c0fbcf, 0x1b5c0fbcf);
    CubeFraction(7, 1, 0xe9b5dba5, 0x1e9b5dba5);
    CubeFraction(11, 2, 0x3956c25b, 0x23956c25b);
    CubeFraction(13, 2, 0x59f111f1, 0x259f111f1);
    CubeFraction(17, 2, 0x923f82a4, 0x2923f82a4);
    CubeFraction(19, 2, 0xab1c5ed5, 0x2ab1c5ed5);
  }

  lemma RootsRow0()
    ensures |PRIMES| == |K| == 64 && forall i: nat :: 0 <= i < 8 ==> IsCubeFraction(PRIMES[i], K[i])
  {
    Listed0();
    Roots0();
    hide IsCubeFraction, K, PRIMES;
  }

  lemma Roots1()
    ensures |K| == 64 && IsCubeFraction(PRIMES[8], K[8]) && IsCubeFraction(PRIMES[9], K[9]) && IsCubeFraction(PRIMES[10], K[10]) && IsCubeFraction(PRIMES[11], K[11]) && IsCubeFraction(PRIMES[12], K[12]) && IsCubeFraction(PRIMES[13], K[13]) && IsCubeFraction(PRIMES[14], K[14]) && IsCubeFraction(PRIMES[15], K[15])
  {
    Listed1();
    assert K[8..16] == [0xd807aa98, 0x12835b01, 0x243185be, 0x550c7dc3, 0x72be5d74, 0x80deb1fe, 0x9bdc06a7, 0xc19bf174];
    hide IsCubeFraction;
    CubeFraction(23, 2, 0xd807aa98, 0x2d807aa98);
    CubeFraction(29, 3, 0x12835b01, 0x312835b01);
    CubeFraction(31, 3, 0x243185be, 0x3243185be);
    CubeFraction(37, 3, 0x550c7dc3, 0x3550c7dc3);
    CubeFraction(41, 3, 0x72be5d74, 0x372be5d74);
    CubeFraction(43, 3, 0x80deb1fe, 0x380deb1fe);
    CubeFraction(47, 3, 0x9bdc06a7, 0x39bdc06a7);
    CubeFraction(53, 3, 0xc19bf174, 0x3c19bf174);
  }

  lemma RootsRow1()
    ensures |PRIMES| == |K| == 64 && forall i: nat :: 8 <= i < 16 ==> IsCubeFraction(PRIMES[i], K[i])
  {
    Listed1();
    Roots1();
    hide IsCubeFraction, K, PRIMES;
  }

  lemma Roots2()
    ensures |K| == 64 && IsCubeFraction(PRIMES[16], K[16]) && IsCubeFraction(PRIMES[17], K[17]) && IsCubeFraction(PRIMES[18], K[18]) && IsCubeFraction(PRIMES[19], K[19]) && IsCubeFraction(PRIMES[20], K[20]) && IsCubeFraction(PRIMES[21], K[21]) && IsCubeFraction(PRIMES[22], K[22]) && IsCubeFraction(PRIMES[23], K[23])
  {
    Listed2();
    assert K[16..24] == [0xe49b69c1, 0xefbe4786, 0x0fc19dc6, 0x240ca1cc, 0x2de92c6f, 0x4a7484aa, 0x5cb0a9dc, 0x76f988da];
    hide IsCubeFraction;
    CubeFraction(59, 3, 0xe49b69c1, 0x3e49b69c1);
    CubeFraction(61, 3, 0xefbe4786, 0x3efbe4786);
    CubeFraction(67, 4, 0x0fc19dc6, 0x40fc19dc6);
    CubeFraction(71, 4, 0x240ca1cc, 0x4240ca1cc);
    CubeFraction(73, 4, 0x2de92c6f, 0x42de92c6f);
    CubeFraction(79, 4, 0x4a7484aa, 0x44a7484aa);
    CubeFraction(83, 4, 0x5cb0a9dc, 0x45cb0a9dc);
    CubeFraction(89, 4, 0x76f988da, 0x476f988da);
  }

  lemma RootsRow2()
    ensures |PRIMES| == |K| == 64 && forall i: nat :: 16 <= i < 24 ==> IsCubeFraction(PRIMES[i], K[i])
  {
    Listed2();
    Roots2();
    hide IsCubeFraction, K, PRIMES;
  }

  lemma Roots3()
    ensures |K| == 64 && IsCubeFraction(PRIMES[24], K[24]) && IsCubeFraction(PRIMES[25], K[25]) && IsCubeFraction(PRIMES[26], K[26]) && IsCubeFraction(PRIMES[27], K[27]) && IsCubeFraction(PRIMES[28], K[28]) && IsCubeFraction(PRIMES[29], K[29]) && IsCubeFraction(PRIMES[30], K[30]) && IsCubeFraction(PRIMES[31], K[31])
  {
    Listed3();
    assert K[24..32] == [0x983e5152, 0xa831c66d, 0xb00327c8, 0xbf597fc7, 0xc6e00bf3, 0xd5a79147, 0x06ca6351, 0x14292967];
    hide IsCubeFraction;
    CubeFraction(97, 4, 0x983e5152, 0x4983e5152);
    CubeFraction(101, 4, 0xa831c66d, 0x4a831c66d);
    CubeFraction(103, 4, 0xb00327c8, 0x4b00327c8);
    CubeFraction(107, 4, 0xbf597fc7, 0x4bf597fc7);
    CubeFraction(109, 4, 0xc6e00bf3, 0x4c6e00bf3);
    CubeFraction(113, 4, 0xd5a79147, 0x4d5a79147);
    CubeFraction(127, 5, 0x06ca6351, 0x506ca6351);
    CubeFraction(131, 5, 0x14292967, 0x514292967);
  }

  lemma RootsRow3()
    ensures |PRIMES| == |K| == 64 && forall i: nat :: 24 <= i < 32 ==> IsCubeFraction(PRIMES[i], K[i])
  {
    Listed3();
    Roots3();
    hide IsCubeFraction, K, PRIMES;
  }

  lemma Roots4()
    ensures |K| == 64 && IsCubeFraction(PRIMES[32], K[32]) && IsCubeFraction(PRIMES[33], K[33]) && IsCubeFraction(PRIMES[34], K[34]) && IsCubeFraction(PRIMES[35], K[35]) && IsCubeFraction(PRIMES[36], K[36]) && IsCubeFraction(PRIMES[37], K[37]) && IsCubeFraction(PRIMES[38], K[38]) && IsCubeFraction(PRIMES[39], K[39])
  {
    Listed4();
    assert K[32..40] == [0x27b70a85, 0x2e1b2138, 0x4d2c6dfc, 0x53380d13, 0x650a7354, 0x766a0abb, 0x81c2c92e, 0x92722c85];
    hide IsCubeFraction;
    CubeFraction(137, 5, 0x27b70a85, 0x527b70a85);
    CubeFraction(139, 5, 0x2e1b2138, 0x52e1b2138);
    CubeFraction(149, 5, 0x4d2c6dfc, 0x54d2c6dfc);
    CubeFraction(151, 5, 0x53380d13, 0x553380d13);
    CubeFraction(157, 5, 0x650a7354, 0x5650a7354);
    CubeFraction(163, 5, 0x766a0abb, 0x5766a0abb);
    CubeFraction(167, 5, 0x81c2c92e, 0x581c2c92e);
    CubeFraction(173, 5, 0x92722c85, 0x592722c85);
  }

  lemma RootsRow4()
    ensures |PRIMES| == |K| == 64 && forall i: nat :: 32 <= i < 40 ==> IsCubeFraction(PRIMES[i], K[i])
  {
    Listed4();
    Roots4();
    hide IsCubeFraction, K, PRIMES;
  }

  lemma Roots5()
    ensures |K| == 64 && IsCubeFraction(PRIMES[40], K[40]) && IsCubeFraction(PRIMES[41], K[41]) && IsCubeFraction(PRIMES[42], K[42]) && IsCubeFraction(PRIMES[43], K[43]) && IsCubeFraction(PRIMES[44], K[44]) && IsCubeFraction(PRIMES[45], K[45]) && IsCubeFraction(PRIMES[46], K[46]) && IsCubeFraction(PRIMES[47], K[47])
  {
    Listed5();
    assert K[40..48] == [0xa2bfe8a1, 0xa81a664b, 0xc24b8b70, 0xc76c51a3, 0xd192e819, 0xd6990624, 0xf40e3585, 0x106aa070];
    hide IsCubeFraction;
    CubeFraction(179, 5, 0xa2bfe8a1, 0x5a2bfe8a1);
    CubeFraction(181, 5, 0xa81a664b, 0x5a81a664b);
    CubeFraction(191, 5, 0xc24b8b70, 0x5c24b8b70);
    CubeFraction(193, 5, 0xc76c51a3, 0x5c76c51a3);
    CubeFraction(197, 5, 0xd192e819, 0x5d192e819);
    CubeFraction(199, 5, 0xd6990624, 0x5d6990624);
    CubeFraction(211, 5, 0xf40e3585, 0x5f40e3585);
    CubeFraction(223, 6, 0x106aa070, 0x6106aa070);
  }

  lemma RootsRow5()
    ensures |PRIMES| == |K| == 64 && forall i: nat :: 40 <= i < 48 ==> IsCubeFraction(PRIMES[i], K[i])
  {
    Listed5();
    Roots5();
    hide IsCubeFraction, K, PRIMES;
  }

  lemma Roots6()
    ensures |K| == 64 && IsCubeFraction(PRIMES[48], K[48]) && IsCubeFraction(PRIMES[49], K[49]) && IsCubeFraction(PRIMES[50], K[50]) && IsCubeFraction(PRIMES[51], K[51]) && IsCubeFraction(PRIMES[52], K[52]) && IsCubeFraction(PRIMES[53], K[53]) && IsCubeFraction(PRIMES[54], K[54]) && IsCubeFraction(PRIMES[55], K[55])
  {
    Listed6();
    assert K[48..56] == [0x19a4c116, 0x1e376c08, 0x2748774c, 0x34b0bcb5, 0x391c0cb3, 0x4ed8aa4a, 0x5b9cca4f, 0x682e6ff3];
    hide IsCubeFraction;
    CubeFraction(227, 6, 0x19a4c116, 0x619a4c116);
    CubeFraction(229, 6, 0x1e376c08, 0x61e376c08);
    CubeFraction(233, 6, 0x2748774c, 0x62748774c);
    CubeFraction(239, 6, 0x34b0bcb5, 0x634b0bcb5);
    CubeFraction(241, 6, 0x391c0cb3, 0x6391c0cb3);
    CubeFraction(251, 6, 0x4ed8aa4a, 0x64ed8aa4a);
    CubeFraction(257, 6, 0x5b9cca4f, 0x65b9cca4f);
    CubeFraction(263, 6, 0x682e6ff3, 0x6682e6ff3);
  }

  lemma RootsRow6()
    ensures |PRIMES| == |K| == 64 && forall i: nat :: 48 <= i < 56 ==> IsCubeFraction(PRIMES[i], K[i])
  {
    Listed6();
    Roots6();
    hide IsCubeFraction, K, PRIMES;
  }

  lemma Roots7()
    ensures |K| == 64 && IsCubeFraction(PRIMES[56], K[56]) && IsCubeFraction(PRIMES[57], K[57]) && IsCubeFraction(PRIMES[58], K[58]) && IsCubeFraction(PRIMES[59], K[59]) && IsCubeFraction(PRIMES[60], K[60]) && IsCubeFraction(PRIMES[61], K[61]) && IsCubeFraction(PRIMES[62], K[62]) && IsCubeFraction(PRIMES[63], K[63])
  {
    Listed7();
    assert K[56..64] == [0x748f82ee, 0x78a5636f, 0x84c87814, 0x8cc70208, 0x90befffa, 0xa4506ceb, 0xbef9a3f7, 0xc67178f2];
    hide IsCubeFraction;
    CubeFraction(269, 6, 0x748f82ee, 0x6748f82ee);
    CubeFraction(271, 6, 0x78a5636f, 0x678a5636f);
    CubeFraction(277, 6, 0x84c87814, 0x684c87814);
    CubeFraction(281, 6, 0x8cc70208, 0x68cc70208);
    CubeFraction(283, 6, 0x90befffa, 0x690befffa);
    CubeFraction(293, 6, 0xa4506ceb, 0x6a4506ceb);
    CubeFraction(307, 6, 0xbef9a3f7, 0x6bef9a3f7);
    CubeFraction(311, 6, 0xc67178f2, 0x6c67178f2);
  }

  lemma RootsRow7()
    ensures |PRIMES| == |K| == 64 && forall i: nat :: 56 <= i < 64 ==> IsCubeFraction(PRIMES[i], K[i])
  {
    Listed7();
    Roots7();
    hide IsCubeFraction, K, PRIMES;
  }

  /** Section 4.2.2: round constant `i` is the fraction of the cube root of the `i`-th prime. */
  lemma RoundConstants()
    ensures |PRIMES| == |K| == 64 && forall i: nat :: i < 64 ==> IsCubeFraction(PRIMES[i], K[i])
  {
    hide IsCubeFraction, K, PRIMES;
    RootsRow0();
    RootsRow1();
    RootsRow2();
    RootsRow3();
    RootsRow4();
    RootsRow5();
    RootsRow6();
    RootsRow7();
  }

  /** Section 5.3.3: the initial value, from the square roots of the first eight primes. */
  lemma InitialValue()
    ensures var w := Words(H0); |w| == 8 && forall i: nat :: i < 8 ==> IsSquareFraction(PRIMES[i], w[i])
  {
    hide IsSquareFraction;
    Listed0();
    SquareFraction(2, 1, 0x6a09e667, 0x16a09e667);
    SquareFraction(3, 1, 0xbb67ae85, 0x1bb67ae85);
    SquareFraction(5, 2, 0x3c6ef372, 0x23c6ef372);
    SquareFraction(7, 2, 0xa54ff53a, 0x2a54ff53a);
    SquareFraction(11, 3, 0x510e527f, 0x3510e527f);
    SquareFraction(13, 3, 0x9b05688c, 0x39b05688c);
    SquareFraction(17, 4, 0x1f83d9ab, 0x41f83d9ab);
    SquareFraction(19, 4, 0x5be0cd19, 0x45be0cd19);
  }

  // ---------- choice, majority, the length ----------

  /** Bit `i` of a number. */
  function BitAt(v: nat, i: nat): (b: nat)
    ensures b < 2
  {
    v / Pow(2, i) % 2
  }

  lemma {:induction false} BitsAt(o: Op, x: nat, y: nat, i: nat)
    ensures BitAt(Bits(o, x, y), i) == Bit(o, BitAt(x, i), BitAt(y, i))
    decreases i
  {
    BitsStep(o, x, y);
    if i == 0 {
      PowZero(2);
    } else {
      BitsAt(o, x / 2, y / 2, i - 1);
      Halved(x, i);
      Halved(y, i);
      Halved(Bits(o, x, y), i);
      hide BitAt, Bits, Bit;
    }
  }

  lemma Halved(v: nat, i: nat)
    requires i > 0
    ensures BitAt(v, i) == BitAt(v / 2, i - 1)
  {
    PowSucc(2, i - 1);
    hide Pow;
    HalfFirst(v, Pow(2, i - 1));
  }

  lemma {:induction false} HalfFirst(v: nat, p: nat)
    requires p > 0
    ensures v / (2 * p) == v / 2 / p
  {
    var h, b := v / 2, v % 2;
    var q, r := h / p, h % p;
    assert v == 2 * h + b;
    Quotient(h, p);
    MulSwap(q, 2, p);
    MulAssoc(q, 2, p);
    DivModIs(v, 2 * p, q, 2 * r + b);
  }

  lemma Quotient(h: nat, p: nat)
    requires p > 0
    ensures h == h / p * p + h % p && 0 <= h % p < p && h / p >= 0
  {
  }

  lemma {:induction false} ComplementAt(x: nat, k: nat, i: nat)
    requires x < Pow(2, k) && i < k
    ensures BitAt(Pow(2, k) - 1 - x, i) == 1 - BitAt(x, i)
    decreases i
  {
    PowSucc(2, k - 1);
    hide Pow;
    var p := Pow(2, k - 1);
    var y: nat := 2 * p - 1 - x;
    if i == 0 {
      LowestBit(x);
      LowestBit(y);
    } else {
      assert y / 2 == p - 1 - x / 2;
      ComplementAt(x / 2, k - 1, i - 1);
      Halved(x, i);
      Halved(y, i);
    }
  }

  lemma LowestBit(v: nat)
    ensures BitAt(v, 0) == v % 2
  {
    PowZero(2);
  }

  /** `Ch`: each bit of the first word chooses between those of the other two. */
  lemma {:induction false} ChooseBits(x: nat, y: nat, z: nat, i: nat)
    requires x < TWO32 && i < 32
    ensures BitAt(Ch(x, y, z), i) == if BitAt(x, i) == 1 then BitAt(y, i) else BitAt(z, i)
  {
    Pow2Consts();
    hide BitAt, Bits, Pow;
    ComplementAt(x, 32, i);
    BitsAt(And, x, y, i);
    BitsAt(And, TWO32 - 1 - x, z, i);
    BitsAt(Xor, Bits(And, x, y), Bits(And, TWO32 - 1 - x, z), i);
  }

  /** `Maj`: each bit is that of at least two of the three words. */
  lemma {:induction false} MajorityBits(x: nat, y: nat, z: nat, i: nat)
    ensures BitAt(Maj(x, y, z), i) == if BitAt(x, i) + BitAt(y, i) + BitAt(z, i) >= 2 then 1 else 0
  {
    hide BitAt, Bits, Pow;
    BitsAt(And, x, y, i);
    BitsAt(And, x, z, i);
    BitsAt(And, y, z, i);
    BitsAt(Xor, Bits(And, x, y), Bits(And, x, z), i);
    BitsAt(Xor, Bits(Xor, Bits(And, x, y), Bits(And, x, z)), Bits(And, y, z), i);
  }

  /** A number from its bytes, the highest first. */
  function BigEndian(b: seq<nat>): nat {
    if b == [] then 0 else BigEndian(b[..|b| - 1]) * 256 + b[|b| - 1]
  }

  /** The length field is the number of bits of the message, highest byte first. */
  lemma LengthField(m: seq<nat>)
    requires 8 * |m| < TWO64
    ensures |Pad(m)| >= |m| + 9 && Pad(m)[..|m|] == m && Pad(m)[|m|] == 0x80
    ensures forall i: nat :: |m| < i < |Pad(m)| - 8 ==> Pad(m)[i] == 0
    ensures BigEndian(Pad(m)[|Pad(m)| - 8..]) == 8 * |m|
  {
    var f := Field(8 * |m|, 8);
    FieldValue(8 * |m|, 8);
    EightBytes();
    SmallMod(8 * |m|, TWO64);
    hide Field, BigEndian;
    assert Pad(m)[|Pad(m)| - 8..] == f;
  }

  lemma EightBytes()
    ensures Pow(256, 8) == TWO64
  {
    Pow2Consts();
    PowPow(2, 8, 8);
    PowAdd(2, 32, 32);
    assert Pow(2, 8) == 256;
  }

  lemma {:induction false} FieldValue(v: nat, n: nat)
    ensures BigEndian(Field(v, n)) == v % Pow(256, n)
    decreases n
  {
    var f := Field(v, n);
    if n == 0 {
      PowZero(256);
    } else {
      PowSucc(256, n - 1);
      PowZero(256);
      FieldFront(v, n);
      FieldValue(v / 256, n - 1);
      hide Pow, Field;
      LowByte(v, Pow(256, n - 1));
    }
  }

  lemma {:induction false} FieldFront(v: nat, n: nat)
    requires n > 0
    ensures Field(v, n)[..n - 1] == Field(v / 256, n - 1) && Field(v, n)[n - 1] == v % 256
  {
    PowZero(256);
    var a, b := Field(v, n)[..n - 1], Field(v / 256, n - 1);
    forall i: nat | i < n - 1
      ensures a[i] == b[i]
    {
      PowSucc(256, n - 2 - i);
      hide Pow;
      ByteFirst(v, Pow(256, n - 2 - i));
    }
  }

  lemma {:induction false} ByteFirst(v: nat, p: nat)
    requires p > 0
    ensures v / (256 * p) == v / 256 / p
  {
    var h, b := v / 256, v % 256;
    var q, r := h / p, h % p;
    assert v == 256 * h + b;
    Quotient(h, p);
    MulSwap(q, 256, p);
    MulAssoc(q, 256, p);
    DivModIs(v, 256 * p, q, 256 * r + b);
  }

  lemma {:induction false} LowByte(v: nat, p: nat)
    requires p > 0
    ensures v % (256 * p) == v / 256 % p * 256 + v % 256
  {
    var h, b := v / 256, v % 256;
    var q, r := h / p, h % p;
    assert v == 256 * h + b;
    Quotient(h, p);
    MulSwap(q, 256, p);
    MulAssoc(q, 256, p);
    DivModIs(v, 256 * p, q, 256 * r + b);
  }
}
