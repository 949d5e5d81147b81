/**
 SHA-256 without allocation: whole blocks straight from the message, then a tail of one or two
 blocks.  The reference is the standard's own text: pad the message, fold the compression function
 over its blocks.  (Sections 4.1.2, 4.2.2, 5.1.1, 5.2.1, 5.3.3 and 6.2.2 of FIPS 180-4.)
 A word is a natural number below 2^32; `long` is the modulus of the unsigned type that holds it in
 the program, 2^64 or, on Windows, 2^32.
 */
module Sha256 {
  import opened Arith
  import opened Bitwise

  /** The constants of section 4.2.2. */
  const K: seq<nat> :=
    [0x428a2f98, 0x71374491, 0xb5c0fbcf, 0xe9b5dba5, 0x3956c25b, 0x59f111f1, 0x923f82a4, 0xab1c5ed5] +
    [0xd807aa98, 0x12835b01, 0x243185be, 0x550c7dc3, 0x72be5d74, 0x80deb1fe, 0x9bdc06a7, 0xc19bf174] +
    [0xe49b69c1, 0xefbe4786, 0x0fc19dc6, 0x240ca1cc, 0x2de92c6f, 0x4a7484aa, 0x5cb0a9dc, 0x76f988da] +
    [0x983e5152, 0xa831c66d, 0xb00327c8, 0xbf597fc7, 0xc6e00bf3, 0xd5a79147, 0x06ca6351, 0x14292967] +
    [0x27b70a85, 0x2e1b2138, 0x4d2c6dfc, 0x53380d13, 0x650a7354, 0x766a0abb, 0x81c2c92e, 0x92722c85] +
    [0xa2bfe8a1, 0xa81a664b, 0xc24b8b70, 0xc76c51a3, 0xd192e819, 0xd6990624, 0xf40e3585, 0x106aa070] +
    [0x19a4c116, 0x1e376c08, 0x2748774c, 0x34b0bcb5, 0x391c0cb3, 0x4ed8aa4a, 0x5b9cca4f, 0x682e6ff3] +
    [0x748f82ee, 0x78a5636f, 0x84c87814, 0x8cc70208, 0x90befffa, 0xa4506ceb, 0xbef9a3f7, 0xc67178f2]

  datatype State = State(a: nat, b: nat, c: nat, d: nat, e: nat, f: nat, g: nat, h: nat)

  /** The initial value of section 5.3.3. */
  const H0: State := State(0x6a09e667, 0xbb67ae85, 0x3c6ef372, 0xa54ff53a, 0x510e527f, 0x9b05688c, 0x1f83d9ab, 0x5be0cd19)

  // ---------- the standard ----------

  function Xor3(x: nat, y: nat, z: nat): nat {
    Bits(Xor, Bits(Xor, x, y), z)
  }

  function Shr(x: nat, n: nat): nat {
    x / Pow(2, n)
  }

  /** Rotation of a 32-bit word (section 3.2). */
  function Rotr(x: nat, n: nat): nat
    requires n <= 32
  {
    Bits(Or, Shr(x, n), x * Pow(2, 32 - n) % TWO32)
  }

  function Ch(x: nat, y: nat, z: nat): nat
    requires x < TWO32
  {
    Bits(Xor, Bits(And, x, y), Bits(And, TWO32 - 1 - x, z))
  }

  function Maj(x: nat, y: nat, z: nat): nat {
    Xor3(Bits(And, x, y), Bits(And, x, z), Bits(And, y, z))
  }

  function BigSigma0(x: nat): nat {
    Xor3(Rotr(x, 2), Rotr(x, 13), Rotr(x, 22))
  }

  function BigSigma1(x: nat): nat {
    Xor3(Rotr(x, 6), Rotr(x, 11), Rotr(x, 25))
  }

  function SmallSigma0(x: nat): nat {
    Xor3(Rotr(x, 7), Rotr(x, 18), Shr(x, 3))
  }

  function SmallSigma1(x: nat): nat {
    Xor3(Rotr(x, 17), Rotr(x, 19), Shr(x, 10))
  }

  predicate Bytes(m: seq<nat>) {
    forall i: nat :: i < |m| ==> m[i] < 256
  }

  /** The message schedule of section 6.2.2. */
  ghost function W(block: seq<nat>, t: nat): nat
    requires |block| == 64
  {
    if t < 16 then block[4 * t] * 0x100_0000 + block[4 * t + 1] * 0x1_0000 + block[4 * t + 2] * 0x100 + block[4 * t + 3]
    else (SmallSigma1(W(block, t - 2)) + W(block, t - 7) + SmallSigma0(W(block, t - 15)) + W(block, t - 16)) % TWO32
  }

  predicate IsState(s: State) {
    s.a < TWO32 && s.b < TWO32 && s.c < TWO32 && s.d < TWO32 && s.e < TWO32 && s.f < TWO32 && s.g < TWO32 && s.h < TWO32
  }

  /** One round. */
  function Round(s: State, k: nat, w: nat): (r: State)
    requires IsState(s)
    ensures IsState(r)
  {
    var t1 := (s.h + BigSigma1(s.e) + Ch(s.e, s.f, s.g) + k + w) % TWO32;
    var t2 := (BigSigma0(s.a) + Maj(s.a, s.b, s.c)) % TWO32;
    State((t1 + t2) % TWO32, s.a, s.b, s.c, (s.d + t1) % TWO32, s.e, s.f, s.g)
  }

  ghost function Rounds(s: State, block: seq<nat>, t: nat): (r: State)
    requires |block| == 64 && t <= 64 && IsState(s)
    ensures IsState(r)
  {
    if t == 0 then s else Round(Rounds(s, block, t - 1), K[t - 1], W(block, t - 1))
  }

  function AddWords(s: State, r: State): (t: State)
    ensures IsState(t)
  {
    State((s.a + r.a) % TWO32, (s.b + r.b) % TWO32, (s.c + r.c) % TWO32, (s.d + r.d) % TWO32,
          (s.e + r.e) % TWO32, (s.f + r.f) % TWO32, (s.g + r.g) % TWO32, (s.h + r.h) % TWO32)
  }

  ghost function Compress(s: State, block: seq<nat>): (t: State)
    requires |block| == 64 && IsState(s)
    ensures IsState(t)
  {
    AddWords(s, Rounds(s, block, 64))
  }

  ghost function Fold(s: State, m: seq<nat>): (t: State)
    requires |m| % 64 == 0 && IsState(s)
    ensures IsState(t)
    decreases |m|
  {
    if m == [] then s
    else
      Blocks(|m|);
      Fold(Compress(s, m[..64]), m[64..])
  }

  lemma Blocks(n: nat)
    requires n > 0 && n % 64 == 0
    ensures n >= 64 && (n - 64) % 64 == 0
  {
  }

  function ZeroBytes(n: nat): (z: seq<nat>)
    ensures |z| == n
  {
    seq<nat>(n, i => 0)
  }

  /** Byte `j` of a number, the lowest being byte 0. */
  function ByteOf(v: nat, j: nat): (b: nat)
    ensures b < 256
  {
    v / Pow(256, j) % 256
  }

  /** A number in `n` bytes, highest first. */
  function Field(v: nat, n: nat): (f: seq<nat>)
    ensures |f| == n
    ensures forall i: nat :: i < n ==> f[i] == ByteOf(v, n - 1 - i)
  {
    seq<nat>(n, i requires 0 <= i < n => ByteOf(v, n - 1 - i))
  }

  /** How many zero bytes fill the last block: the fewest. */
  function Gap(len: nat): (g: nat)
    ensures g < 64 && (len + 1 + g + 8) % 64 == 0
  {
    (119 - len % 64) % 64
  }

  /** Section 5.1.1: a one bit, zeros, and the length in bits. */
  function Pad(m: seq<nat>): (p: seq<nat>)
    ensures |p| % 64 == 0
  {
    m + [0x80] + ZeroBytes(Gap(|m|)) + Field(8 * |m|, 8)
  }

  function Words(s: State): seq<nat> {
    [s.a, s.b, s.c, s.d, s.e, s.f, s.g, s.h]
  }

  /** Words as bytes, highest first. */
  function Serialize(w: seq<nat>): seq<nat> {
    if w == [] then [] else Serialize(w[..|w| - 1]) + Field(w[|w| - 1], 4)
  }

  /** The standard's digest. */
  ghost function Hash(m: seq<nat>): seq<nat> {
    Serialize(Words(Fold(H0, Pad(m))))
  }

  // ---------- the program's words ----------

  predicate LongSize(long: nat) {
    long == TWO32 || long == TWO64
  }

  /** A value masked with 0xffffffff. */
  function Low(long: nat, x: nat): nat
    requires LongSize(long)
  {
    Bits(And, x % long, 0xffff_ffff)
  }

  lemma Powers()
    ensures Pow(2, 32) == TWO32 && Pow(2, 64) == TWO64
  {
    Pow2Consts();
    PowAdd(2, 32, 32);
  }

  /** Sums in the wider type, masked, are the sums modulo 2^32. */
  lemma LowIs(long: nat, x: nat)
    requires LongSize(long)
    ensures Low(long, x) == x % TWO32
  {
    hide Pow, Bits;
    Powers();
    AndMask(x % long, 32);
    ModMod(x);
  }

  lemma ModMod(x: nat)
    ensures x % TWO64 % TWO32 == x % TWO32 && x % TWO32 % TWO32 == x % TWO32
  {
    var q, r := x / TWO64, x % TWO64;
    assert x == q * TWO64 + r;
    assert (q * TWO32 * TWO32 + r) % TWO32 == r % TWO32;
  }

  /** `unisa_rotr`. */
  function RotrLong(long: nat, x: nat, n: nat): nat
    requires LongSize(long) && n <= 32
  {
    Low(long, Bits(Or, Shr(x, n), x * Pow(2, 32 - n) % long))
  }

  lemma RotrIs(long: nat, x: nat, n: nat)
    requires LongSize(long) && n <= 32 && x < TWO32
    ensures RotrLong(long, x, n) == Rotr(x, n)
  {
    hide Pow, Low, Shr, Bits;
    var a, b := Shr(x, n), x * Pow(2, 32 - n);
    ShrBelow(x, n);
    LowIs(long, Bits(Or, a, b % long));
    LowOfOr(long, a, b);
  }

  lemma LowOfOr(long: nat, a: nat, b: nat)
    requires LongSize(long) && a < TWO32
    ensures Bits(Or, a, b % long) % TWO32 == Bits(Or, a, b % TWO32)
  {
    hide Pow, Bits;
    Powers();
    BitsMod(Or, a, b % long, 32);
    SmallMod(a, TWO32);
    ModMod(b);
  }

  lemma ShrBelow(x: nat, n: nat)
    ensures Shr(x, n) <= x
  {
    var p := Pow(2, n);
    assert x == p * (x / p) + x % p;
    MulLe(1, p, x / p);
  }

  function Mix(long: nat, x: nat, i: nat, j: nat, k: nat): nat
    requires LongSize(long) && i <= 32 && j <= 32 && k <= 32
  {
    Xor3(RotrLong(long, x, i), RotrLong(long, x, j), RotrLong(long, x, k))
  }

  function Stir(long: nat, x: nat, i: nat, j: nat, k: nat): nat
    requires LongSize(long) && i <= 32 && j <= 32
  {
    Xor3(RotrLong(long, x, i), RotrLong(long, x, j), Shr(x, k))
  }

  function Choose(long: nat, e: nat, f: nat, g: nat): nat
    requires LongSize(long) && e < long
  {
    Bits(Xor, Bits(And, e, f), Bits(And, Low(long, long - 1 - e), g))
  }

  lemma MixIs(long: nat, x: nat)
    requires LongSize(long) && x < TWO32
    ensures Mix(long, x, 6, 11, 25) == BigSigma1(x) && Mix(long, x, 2, 13, 22) == BigSigma0(x)
    ensures Stir(long, x, 7, 18, 3) == SmallSigma0(x) && Stir(long, x, 17, 19, 10) == SmallSigma1(x)
  {
    hide RotrLong, Rotr, Xor3, Pow;
    RotrIs(long, x, 6);
    RotrIs(long, x, 11);
    RotrIs(long, x, 25);
    RotrIs(long, x, 2);
    RotrIs(long, x, 13);
    RotrIs(long, x, 22);
    RotrIs(long, x, 7);
    RotrIs(long, x, 18);
    RotrIs(long, x, 17);
    RotrIs(long, x, 19);
  }

  lemma ChooseIs(long: nat, e: nat, f: nat, g: nat)
    requires LongSize(long) && e < TWO32
    ensures Choose(long, e, f, g) == Ch(e, f, g)
  {
    hide Low, Bits;
    LowIs(long, long - 1 - e);
    assert (TWO64 - 1 - e) % TWO32 == TWO32 - 1 - e;
  }

  // ---------- the block function ----------

  lemma {:induction false} ScheduleBelow(b: seq<nat>, t: nat)
    requires |b| == 64 && Bytes(b)
    ensures W(b, t) < TWO32
  {
  }

  /** The schedule loops of `unisa_sha256_block`. */
  method Schedule(long: nat, b: seq<nat>) returns (w: array<nat>)
    requires LongSize(long) && |b| == 64 && Bytes(b)
    ensures fresh(w) && w.Length == 64 && forall t: nat :: t < 64 ==> w[t] == W(b, t)
  {
    hide W, Bits, Stir, Low;
    w := new nat[64];
    for i := 0 to 16
      invariant forall t: nat :: t < i ==> w[t] == W(b, t)
    {
      FirstWord(b, i);
      w[i] := Bits(Or, Bits(Or, Bits(Or, b[4 * i] * 0x100_0000, b[4 * i + 1] * 0x1_0000), b[4 * i + 2] * 0x100), b[4 * i + 3]);
    }
    for i := 16 to 64
      invariant forall t: nat :: t < i ==> w[t] == W(b, t)
    {
      var s0 := Stir(long, w[i - 15], 7, 18, 3);
      var s1 := Stir(long, w[i - 2], 17, 19, 10);
      NextWord(long, b, i);
      w[i] := Low(long, w[i - 16] + s0 + w[i - 7] + s1);
    }
  }

  lemma FirstWord(b: seq<nat>, i: nat)
    requires |b| == 64 && Bytes(b) && i < 16
    ensures Bits(Or, Bits(Or, Bits(Or, b[4 * i] * 0x100_0000, b[4 * i + 1] * 0x1_0000), b[4 * i + 2] * 0x100), b[4 * i + 3])
      == W(b, i)
  {
    var x, y, z, u := b[4 * i], b[4 * i + 1], b[4 * i + 2], b[4 * i + 3];
    assert W(b, i) == x * 0x100_0000 + y * 0x1_0000 + z * 0x100 + u;
    hide W, Bits;
    OrShifted(x, y * 0x1_0000, 24, 0x100_0000);
    OrShifted(x * 256 + y, z * 0x100, 16, 0x1_0000);
    OrShifted(x * 0x1_0000 + y * 0x100 + z, u, 8, 0x100);
  }

  lemma OrShifted(x: nat, y: nat, k: nat, p: nat)
    requires (k == 8 && p == 0x100) || (k == 16 && p == 0x1_0000) || (k == 24 && p == 0x100_0000)
    requires y < p
    ensures Bits(Or, x * p, y) == x * p + y
  {
    Shifts();
    hide Pow, Bits;
    OrDisjoint(x, y, k);
  }

  lemma Shifts()
    ensures Pow(2, 8) == 0x100 && Pow(2, 16) == 0x1_0000 && Pow(2, 24) == 0x100_0000
  {
    PowAdd(2, 8, 8);
    PowAdd(2, 16, 8);
  }

  lemma NextWord(long: nat, b: seq<nat>, i: nat)
    requires LongSize(long) && |b| == 64 && Bytes(b) && i >= 16
    ensures Low(long, W(b, i - 16) + Stir(long, W(b, i - 15), 7, 18, 3) + W(b, i - 7) + Stir(long, W(b, i - 2), 17, 19, 10))
      == W(b, i)
  {
    hide Low, Stir, SmallSigma0, SmallSigma1, Mix, BigSigma0, BigSigma1;
    var p, q, x, y := W(b, i - 16), W(b, i - 7), W(b, i - 15), W(b, i - 2);
    assert W(b, i) == (SmallSigma1(y) + q + SmallSigma0(x) + p) % TWO32;
    ScheduleBelow(b, i - 15);
    ScheduleBelow(b, i - 2);
    hide W;
    MixIs(long, x);
    MixIs(long, y);
    LowIs(long, p + SmallSigma0(x) + q + SmallSigma1(y));
  }

  /** `unisa_sha256_block`: one compression. */
  method Block(long: nat, h: array<nat>, b: seq<nat>, ghost s: State)
    requires LongSize(long) && h.Length == 8 && |b| == 64 && Bytes(b) && IsState(s) && h[..] == Words(s)
    modifies h
    ensures h[..] == Words(Compress(s, b))
  {
    hide W, Round, Low, Rounds, IsState, AddWords, LongSize;
    var w := Schedule(long, b);
    RoundsStart(s, b);
    var a, bb, c, d, e, f, g, hh := h[0], h[1], h[2], h[3], h[4], h[5], h[6], h[7];
    for i := 0 to 64
      invariant State(a, bb, c, d, e, f, g, hh) == Rounds(s, b, i)
      invariant h[..] == Words(s) && forall t: nat :: t < 64 ==> w[t] == W(b, t)
    {
      RoundsStep(s, b, i);
      a, bb, c, d, e, f, g, hh := OneRound(long, a, bb, c, d, e, f, g, hh, K[i], w[i]);
    }
    AddState(long, s, Rounds(s, b, 64));
    h[0], h[1], h[2], h[3] := Low(long, h[0] + a), Low(long, h[1] + bb), Low(long, h[2] + c), Low(long, h[3] + d);
    h[4], h[5], h[6], h[7] := Low(long, h[4] + e), Low(long, h[5] + f), Low(long, h[6] + g), Low(long, h[7] + hh);
  }

  lemma RoundsStart(s: State, b: seq<nat>)
    requires |b| == 64 && IsState(s)
    ensures Rounds(s, b, 0) == s
  {
  }

  lemma RoundsStep(s: State, b: seq<nat>, i: nat)
    requires |b| == 64 && IsState(s) && i < 64
    ensures Rounds(s, b, i + 1) == Round(Rounds(s, b, i), K[i], W(b, i))
  {
  }

  /** The body of the round loop. */
  method OneRound(long: nat, a: nat, bb: nat, c: nat, d: nat, e: nat, f: nat, g: nat, hh: nat, k: nat, w: nat)
    returns (a1: nat, b1: nat, c1: nat, d1: nat, e1: nat, f1: nat, g1: nat, h1: nat)
    requires LongSize(long) && IsState(State(a, bb, c, d, e, f, g, hh))
    ensures State(a1, b1, c1, d1, e1, f1, g1, h1) == Round(State(a, bb, c, d, e, f, g, hh), k, w)
  {
    hide BigSigma0, BigSigma1, SmallSigma0, SmallSigma1, Ch, Maj, Mix, Stir, Choose, Low;
    MixIs(long, e);
    MixIs(long, a);
    ChooseIs(long, e, f, g);
    var S1 := Mix(long, e, 6, 11, 25);
    var ch := Choose(long, e, f, g);
    LowIs(long, hh + S1 + ch + k + w);
    var t1: nat := Low(long, hh + S1 + ch + k + w);
    var S0 := Mix(long, a, 2, 13, 22);
    var mj := Maj(a, bb, c);
    LowIs(long, S0 + mj);
    var t2: nat := Low(long, S0 + mj);
    LowIs(long, d + t1);
    LowIs(long, t1 + t2);
    h1, g1, f1, e1, d1, c1, b1, a1 := g, f, e, Low(long, d + t1), c, bb, a, Low(long, t1 + t2);
  }

  lemma AddState(long: nat, s: State, r: State)
    requires LongSize(long)
    ensures Words(AddWords(s, r)) == [Low(long, s.a + r.a), Low(long, s.b + r.b), Low(long, s.c + r.c), Low(long, s.d + r.d),
                                      Low(long, s.e + r.e), Low(long, s.f + r.f), Low(long, s.g + r.g), Low(long, s.h + r.h)]
  {
    hide Low;
    LowIs(long, s.a + r.a);
    LowIs(long, s.b + r.b);
    LowIs(long, s.c + r.c);
    LowIs(long, s.d + r.d);
    LowIs(long, s.e + r.e);
    LowIs(long, s.f + r.f);
    LowIs(long, s.g + r.g);
    LowIs(long, s.h + r.h);
  }

  // ---------- the whole message ----------

  lemma {:induction false} FoldAppend(s: State, m: seq<nat>, b: seq<nat>)
    requires IsState(s) && |m| % 64 == 0 && |b| == 64
    ensures (|m| + 64) % 64 == 0 && Fold(s, m + b) == Compress(Fold(s, m), b)
    decreases |m|
  {
    hide Compress;
    if m == [] {
      assert m + b == b && b[..64] == b && b[64..] == [];
    } else {
      Blocks(|m|);
      assert (m + b)[..64] == m[..64] && (m + b)[64..] == m[64..] + b;
      FoldAppend(Compress(s, m[..64]), m[64..], b);
    }
  }

  /** What stands in the tail buffer: the unread rest of the message, the one bit, zeros, the length. */
  ghost function TailOf(m: seq<nat>): (t: seq<nat>)
    ensures |t| % 64 == 0
  {
    m[|m| / 64 * 64..] + [0x80] + ZeroBytes(Gap(|m|)) + Field(8 * |m|, 8)
  }

  lemma PadIsTail(m: seq<nat>)
    ensures Pad(m) == m[..|m| / 64 * 64] + TailOf(m) && |TailOf(m)| == if |m| % 64 + 9 <= 64 then 64 else 128
  {
    hide Field;
    var k := |m| / 64 * 64;
    assert m == m[..k] + m[k..];
    var x, y, z := [0x80], ZeroBytes(Gap(|m|)), Field(8 * |m|, 8);
    Regroup5(m[..k], m[k..], x, y, z);
  }

  lemma Regroup5(a: seq<nat>, b: seq<nat>, c: seq<nat>, d: seq<nat>, e: seq<nat>)
    ensures a + b + c + d + e == a + (b + c + d + e)
  {
  }

  /** `unisa_sha256`. */
  method Sha256(long: nat, msg: seq<nat>) returns (md: array<nat>)
    requires LongSize(long) && Bytes(msg)
    ensures fresh(md) && md[..] == Hash(msg)
  {
    hide Compress, Pad, Field, Serialize, Fold;
    var h := new nat[8] [0x6a09e667, 0xbb67ae85, 0x3c6ef372, 0xa54ff53a, 0x510e527f, 0x9b05688c, 0x1f83d9ab, 0x5be0cd19];
    assert h[..] == Words(H0);
    var full, rest := |msg| / 64, |msg| % 64;
    FoldNothing();
    assert msg[..0] == [];
    for off := 0 to full
      invariant h[..] == Words(Fold(H0, msg[..64 * off]))
    {
      ghost var s := Fold(H0, msg[..64 * off]);
      var b := msg[64 * off..64 * off + 64];
      FoldAppend(H0, msg[..64 * off], b);
      assert msg[..64 * off] + b == msg[..64 * (off + 1)];
      Block(long, h, b, s);
    }
    var tail := FillTail(msg, full, rest);
    PadIsTail(msg);
    ghost var s := Fold(H0, msg[..64 * full]);
    var nt := if rest + 9 <= 64 then 64 else 128;
    ghost var t := TailOf(msg);
    FoldAppend(H0, msg[..64 * full], t[..64]);
    assert tail[..64] == tail[..nt][..64] == t[..64];
    Block(long, h, tail[..64], s);
    if nt == 128 {
      assert t == t[..64] + t[64..];
      FoldAppend(H0, msg[..64 * full] + t[..64], t[64..]);
      assert tail[64..128] == t[64..];
      Block(long, h, tail[64..128], Compress(s, t[..64]));
      assert msg[..64 * full] + t[..64] + t[64..] == msg[..64 * full] + t;
    } else {
      assert t[..64] == t;
    }
    md := Emit(h);
  }

  lemma FoldNothing()
    ensures Fold(H0, []) == H0
  {
  }

  /** The tail buffer: zeros, the rest of the message, the one bit, the length from the end. */
  method FillTail(msg: seq<nat>, full: nat, rest: nat) returns (tail: array<nat>)
    requires Bytes(msg) && full == |msg| / 64 && rest == |msg| % 64
    ensures fresh(tail) && tail.Length == 128 && tail[..|TailOf(msg)|] == TailOf(msg) && Bytes(tail[..])
  {
    hide ByteOf;
    tail := new nat[128];
    for j := 0 to 128
      invariant forall i: nat :: i < j ==> tail[i] == 0
    {
      tail[j] := 0;
    }
    for j := 0 to rest
      invariant forall i: nat :: i < 128 ==> tail[i] == if i < j then msg[64 * full + i] else 0
    {
      tail[j] := msg[64 * full + j];
    }
    tail[rest] := 0x80;
    var nt: nat := if rest + 9 <= 64 then 64 else 128;
    var bits: nat := |msg| * 8 % TWO64;
    for j := 0 to 8
      invariant forall i: nat :: i < 128 ==>
        tail[i] == (if i < rest then msg[64 * full + i] else if i == rest then 0x80
                    else if nt - j <= i < nt then ByteOf(8 * |msg|, nt - 1 - i) else 0)
    {
      LowByte(|msg| * 8, j);
      tail[nt - 1 - j] := ByteOf(bits, j);
    }
    TailShape(msg, tail[..], nt);
  }

  /** Reducing modulo 2^64 does not change the eight low bytes. */
  lemma LowByte(v: nat, j: nat)
    requires j < 8
    ensures ByteOf(v % TWO64, j) == ByteOf(v, j)
  {
    EightBytes(j);
    hide Pow;
    CutAbove(v, Pow(256, j), Pow(256, 7 - j));
  }

  lemma CutAbove(v: nat, p: nat, u: nat)
    requires p > 0 && p * (256 * u) == TWO64
    ensures v % TWO64 / p % 256 == v / p % 256
  {
    var q, r := v / TWO64, v % TWO64;
    assert v == p * (256 * u) * q + r;
    MulAssoc(p, 256 * u, q);
    Shifted(r, p, 256 * u * q);
    MulAssoc(256, u, q);
    DropMultiple(u * q, r / p);
  }

  lemma {:induction false} EightBytes(j: nat)
    requires j < 8
    ensures Pow(256, j) * (256 * Pow(256, 7 - j)) == TWO64
  {
    hide Pow;
    PowSucc(256, 7 - j);
    PowAdd(256, j, 8 - j);
    PowPow(2, 8, 8);
    Shifts();
    Powers();
  }

  lemma DropMultiple(k: nat, x: nat)
    ensures (256 * k + x) % 256 == x % 256
  {
  }

  lemma Shifted(r: nat, p: nat, k: nat)
    requires p > 0
    ensures (p * k + r) / p == k + r / p
  {
    assert r == p * (r / p) + r % p;
    Distrib2(p, k, r / p);
    DivModIs(p * k + r, p, k + r / p, r % p);
  }

  lemma Distrib2(p: nat, a: nat, b: nat)
    ensures p * (a + b) == p * a + p * b
  {
  }

  lemma TailShape(msg: seq<nat>, t: seq<nat>, nt: nat)
    requires |t| == 128 && nt == if |msg| % 64 + 9 <= 64 then 64 else 128
    requires forall i: nat :: i < 128 ==>
      t[i] == (if i < |msg| % 64 then msg[64 * (|msg| / 64) + i] else if i == |msg| % 64 then 0x80
               else if nt - 8 <= i < nt then ByteOf(8 * |msg|, nt - 1 - i) else 0)
    ensures |TailOf(msg)| == nt && t[..nt] == TailOf(msg)
  {
    hide ByteOf;
    var rest := |msg| % 64;
    var x, y, z := [0x80], ZeroBytes(Gap(|msg|)), Field(8 * |msg|, 8);
    var w := TailOf(msg);
    assert rest + 1 + Gap(|msg|) == nt - 8;
  }

  /** The digest bytes of the state. */
  method Emit(h: array<nat>) returns (md: array<nat>)
    requires h.Length == 8
    ensures fresh(md) && md[..] == Serialize(h[..])
  {
    hide Field, Serialize;
    md := new nat[32];
    NoWords();
    assert h[..0] == [];
    for i := 0 to 8
      invariant md[..4 * i] == Serialize(h[..i])
    {
      ghost var done := md[..4 * i];
      FourBytes(h[i]);
      PutFour(md, 4 * i, h[i] / 0x100_0000 % 256, h[i] / 0x1_0000 % 256, h[i] / 0x100 % 256, h[i] % 256);
      SerializeMore(h[..i], h[i]);
      assert h[..i + 1] == h[..i] + [h[i]];
    }
    assert h[..8] == h[..];
    assert md[..32] == md[..];
  }

  lemma NoWords()
    ensures Serialize([]) == []
  {
  }

  method PutFour(md: array<nat>, k: nat, a: nat, b: nat, c: nat, d: nat)
    requires k + 4 <= md.Length
    modifies md
    ensures md[..k + 4] == old(md[..k]) + [a, b, c, d]
  {
    md[k], md[k + 1], md[k + 2], md[k + 3] := a, b, c, d;
  }

  lemma SerializeMore(w: seq<nat>, x: nat)
    ensures Serialize(w + [x]) == Serialize(w) + Field(x, 4)
  {
    assert (w + [x])[..|w|] == w;
  }

  lemma FourBytes(w: nat)
    ensures Field(w, 4) == [w / 0x100_0000 % 256, w / 0x1_0000 % 256, w / 0x100 % 256, w % 256]
  {
    assert Pow(256, 3) == 0x100_0000 && Pow(256, 2) == 0x1_0000 && Pow(256, 1) == 0x100 && Pow(256, 0) == 1;
  }

  // ---------- the padding can be undone ----------

  function Value(f: seq<nat>): nat {
    if f == [] then 0 else Value(f[..|f| - 1]) * 256 + f[|f| - 1]
  }

  /** A number below 256^n is what its n bytes say. */
  lemma {:induction false} FieldValue(v: nat, n: nat)
    requires v < Pow(256, n)
    ensures Value(Field(v, n)) == v
    decreases n
  {
    if n == 0 {
      PowZero(256);
    } else {
      PowSucc(256, n - 1);
      Below(v, Pow(256, n - 1));
      FieldValue(v / 256, n - 1);
      FieldStep(v, n - 1);
    }
  }

  lemma Below(v: nat, p: nat)
    requires v < 256 * p
    ensures v / 256 < p
  {
  }

  lemma {:induction false} FieldStep(v: nat, n: nat)
    ensures Field(v, n + 1)[..n] == Field(v / 256, n) && Field(v, n + 1)[n] == v % 256
  {
    PowZero(256);
    forall i: nat | i < n ensures Field(v, n + 1)[i] == Field(v / 256, n)[i] {
      var p := Pow(256, n - 1 - i);
      PowSucc(256, n - 1 - i);
      DivTwice(v, p);
    }
  }

  /** Different messages shorter than 2^61 bytes have different padded texts. */
  lemma PadDecides(m: seq<nat>, n: seq<nat>)
    requires 8 * |m| < TWO64 && 8 * |n| < TWO64 && Pad(m) == Pad(n)
    ensures m == n
  {
    LastEight(m);
    LastEight(n);
    assert Pow(256, 8) == TWO64 by {
      PowPow(2, 8, 8);
      Shifts();
      Powers();
    }
    hide Pow, Field;
    FieldValue(8 * |m|, 8);
    FieldValue(8 * |n|, 8);
    assert Pad(m)[..|m|] == m && Pad(n)[..|n|] == n;
  }

  lemma LastEight(m: seq<nat>)
    ensures |Pad(m)| >= 8 && Pad(m)[|Pad(m)| - 8..] == Field(8 * |m|, 8)
  {
    hide Field;
  }
}
