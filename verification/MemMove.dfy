/**
 `memset`, `memcpy` and `memmove` over one byte-addressed memory, whose index 0 stands at an address
 divisible by eight.  Words are eight bytes, lowest first.
 */
module MemMove {
  import opened Arith
  import opened Bitwise

  /** `n` bytes of `before` from `src`, put at `dst`; everything else as it was. */
  function Copied(before: seq<nat>, dst: nat, src: nat, n: nat): (after: seq<nat>)
    requires dst + n <= |before| && src + n <= |before|
    ensures |after| == |before|
  {
    before[..dst] + before[src..src + n] + before[dst + n..]
  }

  /** The memory after the first `i` bytes are in place. */
  ghost predicate Forward(m: seq<nat>, before: seq<nat>, dst: nat, src: nat, i: nat) {
    && |m| == |before| && dst + i <= |m| && src + i <= |m|
    && forall a: nat {:trigger m[a]} :: a < |m| ==> m[a] == if dst <= a < dst + i then before[src + (a - dst)] else before[a]
  }

  lemma ForwardDone(m: seq<nat>, before: seq<nat>, dst: nat, src: nat, n: nat)
    requires Forward(m, before, dst, src, n)
    ensures m == Copied(before, dst, src, n)
  {
  }

  /** Two addresses have the same place in a word exactly when no low bit of their exclusive or is set. */
  lemma SameAlignment(d: nat, s: nat)
    ensures Bits(And, Bits(Xor, d, s), 7) == 0 <==> d % 8 == s % 8
  {
    EightIsPower();
    hide Pow, Bits;
    AndMask(Bits(Xor, d, s), 3);
    BitsMod(Xor, d, s, 3);
    XorZero(d % 8, s % 8);
  }

  lemma EightIsPower()
    ensures Pow(2, 3) == 8
  {
  }

  lemma {:induction false} XorZero(x: nat, y: nat)
    ensures Bits(Xor, x, y) == 0 <==> x == y
    decreases x + y
  {
    if x > 0 || y > 0 {
      BitsStep(Xor, x, y);
      XorZero(x / 2, y / 2);
    }
  }

  lemma LowThree(a: nat)
    ensures Bits(And, a, 7) == a % 8
  {
    EightIsPower();
    hide Pow, Bits;
    AndMask(a, 3);
  }

  /** How many bytes stand before the next word. */
  function Lead(a: nat): (n: nat)
    ensures n < 8
  {
    (8 - a % 8) % 8
  }

  lemma Unaligned(a: nat, i: nat)
    requires i <= Lead(a) && (a + i) % 8 != 0
    ensures i < Lead(a)
  {
  }

  lemma SameRemainder(d: nat, s: nat, i: nat)
    requires d % 8 == s % 8
    ensures (d + i) % 8 == (s + i) % 8
  {
  }

  lemma NextWord(a: nat)
    requires a % 8 == 0
    ensures (a + 8) % 8 == 0
  {
  }

  /** One aligned word moved: loaded whole, then stored. */
  method MoveWord(mem: array<nat>, d: nat, s: nat)
    requires d + 8 <= mem.Length && s + 8 <= mem.Length && d % 8 == 0 && s % 8 == 0
    modifies mem
    ensures mem[..] == Copied(old(mem[..]), d, s, 8)
  {
    var w := mem[s..s + 8];
    for k := 0 to 8
      invariant forall a: nat {:trigger mem[a]} :: a < mem.Length ==> mem[a] == if d <= a < d + k then w[a - d] else old(mem[a])
    {
      mem[d + k] := w[k];
    }
  }

  /** A forward step of `w` bytes keeps what is still to be read. */
  lemma ForwardStep(m: seq<nat>, m2: seq<nat>, before: seq<nat>, dst: nat, src: nat, i: nat, w: nat)
    requires Forward(m, before, dst, src, i) && dst + i + w <= |m| && src + i + w <= |m|
    requires dst <= src || src + i + w <= dst
    requires m2 == Copied(m, dst + i, src + i, w)
    ensures Forward(m2, before, dst, src, i + w)
  {
  }

  /** `memcpy`, for regions that do not overlap or overlap with the destination in front. */
  method MemCpy(mem: array<nat>, dst: nat, src: nat, n: nat)
    requires dst + n <= mem.Length && src + n <= mem.Length
    requires dst <= src || src + n <= dst
    modifies mem
    ensures mem[..] == Copied(old(mem[..]), dst, src, n)
  {
    hide Bits, Forward, Copied, Lead;
    ghost var before := mem[..];
    var i: nat := 0;
    NothingCopied(before, dst, src);
    SameAlignment(dst, src);
    if n >= 16 && Bits(And, Bits(Xor, dst, src), 7) == 0 {
      LowThree(dst + i);
      while Bits(And, dst + i, 7) != 0
        invariant i <= Lead(dst) && Forward(mem[..], before, dst, src, i)
        invariant Bits(And, dst + i, 7) == (dst + i) % 8
        decreases n - i
      {
        Unaligned(dst, i);
        i := CopyByte(mem, before, dst, src, i);
        LowThree(dst + i);
      }
      SameRemainder(dst, src, i);
      while i + 8 <= n
        invariant i <= n && Forward(mem[..], before, dst, src, i) && (dst + i) % 8 == 0 && (src + i) % 8 == 0
        decreases n - i
      {
        ghost var m := mem[..];
        MoveWord(mem, dst + i, src + i);
        ForwardStep(m, mem[..], before, dst, src, i, 8);
        NextWord(dst + i);
        NextWord(src + i);
        i := i + 8;
      }
    }
    while i < n
      invariant i <= n && Forward(mem[..], before, dst, src, i)
      decreases n - i
    {
      i := CopyByte(mem, before, dst, src, i);
    }
    ForwardDone(mem[..], before, dst, src, n);
  }

  lemma NothingCopied(m: seq<nat>, dst: nat, src: nat)
    requires dst <= |m| && src <= |m|
    ensures Forward(m, m, dst, src, 0)
  {
  }

  method CopyByte(mem: array<nat>, ghost before: seq<nat>, dst: nat, src: nat, i: nat) returns (j: nat)
    requires dst + i < mem.Length && src + i < mem.Length && Forward(mem[..], before, dst, src, i)
    requires dst <= src || src + i + 1 <= dst
    modifies mem
    ensures j == i + 1 && Forward(mem[..], before, dst, src, j)
  {
    ghost var m := mem[..];
    mem[dst + i] := mem[src + i];
    assert mem[..] == Copied(m, dst + i, src + i, 1);
    ForwardStep(m, mem[..], before, dst, src, i, 1);
    j := i + 1;
  }

  /** `memmove`: right for every overlap. */
  method MemMove(mem: array<nat>, dst: nat, src: nat, n: nat)
    requires dst + n <= mem.Length && src + n <= mem.Length
    modifies mem
    ensures mem[..] == Copied(old(mem[..]), dst, src, n)
  {
    if dst < src {
      MemCpy(mem, dst, src, n);
      return;
    }
    ghost var before := mem[..];
    var i: nat := n;
    while i > 0
      invariant i <= n && forall a: nat {:trigger mem[a]} :: a < mem.Length ==>
        mem[a] == if dst + i <= a < dst + n then before[src + (a - dst)] else before[a]
    {
      i := i - 1;
      mem[dst + i] := mem[src + i];
      assert src + (dst + i - dst) == src + i;
    }
    ForwardDone(mem[..], before, dst, src, n);
  }

  // ---------- memset ----------

  /** The word whose `k` low bytes are ones. */
  function Ones(k: nat): nat {
    if k == 0 then 0 else Ones(k - 1) * 256 + 1
  }

  /** Byte `j` of a word in memory. */
  function ByteAt(w: nat, j: nat): nat {
    w / Pow(256, j) % 256
  }

  /** Multiplying it by a byte puts that byte in each of them. */
  lemma {:induction false} OnesBytes(c: nat, k: nat)
    requires c < 256
    ensures c * Ones(k) < Pow(256, k) && forall j: nat :: j < k ==> ByteAt(c * Ones(k), j) == c
    decreases k
  {
    PowZero(256);
    if k > 0 {
      var v, t := c * Ones(k), c * Ones(k - 1);
      PowSucc(256, k - 1);
      Spread(c, Ones(k - 1));
      assert v == 256 * t + c;
      OnesBytes(c, k - 1);
      hide Pow, Ones, ByteAt;
      forall j: nat | j < k ensures ByteAt(v, j) == c {
        ByteUp(v, t, c, j);
      }
    }
  }

  /** The bytes of a word with one more at the low end. */
  lemma ByteUp(v: nat, t: nat, c: nat, j: nat)
    requires v == 256 * t + c && c < 256
    ensures ByteAt(v, j) == if j == 0 then c else ByteAt(t, j - 1)
  {
    PowZero(256);
    if j > 0 {
      PowSucc(256, j - 1);
      hide Pow;
      DivTwice(v, Pow(256, j - 1));
      assert v / 256 == t;
    }
  }

  lemma Spread(c: nat, t: nat)
    ensures c * (t * 256 + 1) == 256 * (c * t) + c
  {
  }

  /** The bytes the program stores for a word of eight equal bytes. */
  lemma FillWord(c: nat)
    requires c < 256
    ensures c * 72340172838076673 < TWO64
    ensures forall j: nat :: j < 8 ==> ByteAt(c * 72340172838076673, j) == c
  {
    assert Ones(8) == 72340172838076673;
    OnesBytes(c, 8);
  }

  /** The memory with `i` bytes from `dst` on set to `c`. */
  ghost predicate Filled(m: seq<nat>, before: seq<nat>, dst: nat, c: nat, i: nat) {
    && |m| == |before| && dst + i <= |m|
    && forall a: nat {:trigger m[a]} :: a < |m| ==> m[a] == if dst <= a < dst + i then c else before[a]
  }

  /** A word stored at an aligned address, its lowest byte first. */
  method StoreWord(mem: array<nat>, d: nat, w: nat)
    requires d + 8 <= mem.Length && d % 8 == 0
    modifies mem
    ensures forall c: nat :: (forall j: nat :: j < 8 ==> ByteAt(w, j) == c) ==> Filled(mem[..], old(mem[..]), d, c, 8)
    ensures forall a: nat {:trigger mem[a]} :: a < mem.Length ==> mem[a] == if d <= a < d + 8 then ByteAt(w, a - d) else old(mem[a])
  {
    hide ByteAt;
    for k := 0 to 8
      invariant forall a: nat {:trigger mem[a]} :: a < mem.Length ==> mem[a] == if d <= a < d + k then ByteAt(w, a - d) else old(mem[a])
    {
      mem[d + k] := ByteAt(w, k);
    }
  }

  /** `memset`: `value` is the int argument, of which the low byte counts. */
  method MemSet(mem: array<nat>, dst: nat, value: int, n: nat)
    requires dst + n <= mem.Length
    modifies mem
    ensures Filled(mem[..], old(mem[..]), dst, value % 256, n)
  {
    hide Bits, ByteAt, Filled, Lead;
    ghost var before := mem[..];
    var c: nat := value % 256;
    var i: nat := 0;
    LowThree(dst);
    FillWord(c);
    NothingFilled(before, dst, c);
    if n >= 16 {
      var w: nat := c * 72340172838076673 % TWO64;
      while Bits(And, dst + i, 7) != 0
        invariant i <= Lead(dst) && Filled(mem[..], before, dst, c, i)
        invariant Bits(And, dst + i, 7) == (dst + i) % 8
        decreases n - i
      {
        Unaligned(dst, i);
        i := FillByte(mem, before, dst, c, i);
        LowThree(dst + i);
      }
      while i + 8 <= n
        invariant i <= n && Filled(mem[..], before, dst, c, i) && (dst + i) % 8 == 0
        decreases n - i
      {
        ghost var m := mem[..];
        StoreWord(mem, dst + i, w);
        FilledStep(m, mem[..], before, dst, c, i, 8);
        NextWord(dst + i);
        i := i + 8;
      }
    }
    while i < n
      invariant i <= n && Filled(mem[..], before, dst, c, i)
      decreases n - i
    {
      i := FillByte(mem, before, dst, c, i);
    }
  }

  lemma NothingFilled(m: seq<nat>, dst: nat, c: nat)
    requires dst <= |m|
    ensures Filled(m, m, dst, c, 0)
  {
  }

  lemma FilledStep(m: seq<nat>, m2: seq<nat>, before: seq<nat>, dst: nat, c: nat, i: nat, w: nat)
    requires Filled(m, before, dst, c, i) && Filled(m2, m, dst + i, c, w)
    ensures Filled(m2, before, dst, c, i + w)
  {
  }

  method FillByte(mem: array<nat>, ghost before: seq<nat>, dst: nat, c: nat, i: nat) returns (j: nat)
    requires dst + i < mem.Length && Filled(mem[..], before, dst, c, i)
    modifies mem
    ensures j == i + 1 && Filled(mem[..], before, dst, c, j)
  {
    mem[dst + i] := c;
    j := i + 1;
  }
}
