/** Powers, signs, absolute values and round-half-even on the integers. */
module Arith {

  const TWO32: nat := 0x1_0000_0000
  const TWO63: nat := 0x8000_0000_0000_0000
  const TWO64: nat := 0x1_0000_0000_0000_0000

  function Pow(b: nat, e: nat): (p: nat)
    ensures b > 0 ==> p > 0
  {
    if e == 0 then 1 else b * Pow(b, e - 1)
  }

  function Abs(x: int): nat {
    if x < 0 then -x else x
  }

  /** The sign of `x`: -1, 0 or 1, the way the comparison routines answer. */
  function Sign(x: int): int {
    if x < 0 then -1 else if x == 0 then 0 else 1
  }

  /** The part of a decimal exponent that multiplies. */
  function Pos(x: int): nat {
    if x > 0 then x else 0
  }

  lemma PowZero(b: nat)
    ensures Pow(b, 0) == 1
  {
  }

  lemma PowSucc(b: nat, e: nat)
    ensures Pow(b, e + 1) == b * Pow(b, e)
  {
  }

  lemma {:induction false} PowAdd(b: nat, x: nat, y: nat)
    ensures Pow(b, x + y) == Pow(b, x) * Pow(b, y)
  {
    if x == 0 {
    } else {
      PowAdd(b, x - 1, y);
      MulAssoc(b, Pow(b, x - 1), Pow(b, y));
    }
  }

  lemma MulAssoc(x: int, y: int, z: int)
    ensures x * (y * z) == x * y * z
  {
  }

  lemma {:induction false} PowProduct(a: nat, b: nat, e: nat)
    ensures Pow(a * b, e) == Pow(a, e) * Pow(b, e)
  {
    if e == 0 {
    } else {
      PowProduct(a, b, e - 1);
      var p, q := Pow(a, e - 1), Pow(b, e - 1);
      MulAssoc(a * b, p, q);
      MulSwap(a, b, p);
      MulAssoc(a * p, b, q);
    }
  }

  lemma {:induction false} PowPow(b: nat, x: nat, y: nat)
    ensures Pow(Pow(b, x), y) == Pow(b, x * y)
  {
    if y == 0 {
    } else {
      PowPow(b, x, y - 1);
      PowAdd(b, x, x * (y - 1));
      assert x + x * (y - 1) == x * y;
    }
  }

  lemma {:induction false} PowMono(b: nat, x: nat, y: nat)
    requires b > 0 && x <= y
    ensures Pow(b, x) <= Pow(b, y)
  {
    PowAdd(b, x, y - x);
    MulGrows(Pow(b, x), Pow(b, y - x));
  }

  lemma {:induction false} PowStrict(b: nat, x: nat, y: nat)
    requires b > 1 && x < y
    ensures Pow(b, x) < Pow(b, y)
  {
    PowMono(b, x, y - 1);
    assert Pow(b, y) == b * Pow(b, y - 1);
    MulLe(2, b, Pow(b, y - 1));
  }

  lemma {:induction false} PowBase(a: nat, b: nat, e: nat)
    requires a <= b
    ensures Pow(a, e) <= Pow(b, e)
  {
    if e == 0 {
    } else {
      PowBase(a, b, e - 1);
      MulMono(a, b, Pow(a, e - 1), Pow(b, e - 1));
    }
  }

  lemma MulPositive(x: nat, y: nat)
    requires x > 0 && y > 0
    ensures x * y > 0
  {
  }

  lemma SmallMod(x: nat, y: nat)
    requires x < y
    ensures x % y == x
  {
  }

  /** The remainder of a product is that of the factor's remainder. */
  lemma {:induction false} ModProduct(x: nat, q: nat, c: nat)
    requires c > 0
    ensures x % c * q % c == x * q % c
  {
    var d, r := x / c, x % c;
    var e, t := r * q / c, r * q % c;
    ModParts(x, q, c, d, r, e, t);
    DivModIs(x * q, c, d * q + e, t);
  }

  lemma ModParts(x: nat, q: nat, c: nat, d: nat, r: nat, e: nat, t: nat)
    requires x == d * c + r && r * q == e * c + t
    ensures x * q == (d * q + e) * c + t
  {
    Distrib(d * c, r, q);
    MulSwap(d, c, q);
    Distrib(d * q, e, c);
  }

  lemma {:induction false} DivModIs(n: nat, d: nat, q: nat, r: nat)
    requires d > 0 && r < d && n == q * d + r
    ensures n / d == q && n % d == r
  {
    var q', r' := n / d, n % d;
    assert n == q' * d + r';
    if q < q' {
      MulLe(q + 1, q', d);
      Distrib(q, 1, d);
    } else if q' < q {
      MulLe(q' + 1, q, d);
      Distrib(q', 1, d);
    }
  }

  lemma MulGrows(x: nat, y: nat)
    requires y > 0
    ensures x <= x * y
  {
  }

  lemma MulLe(x: int, y: int, z: nat)
    requires x <= y
    ensures x * z <= y * z
  {
  }

  lemma MulLt(x: int, y: int, z: nat)
    requires x < y && z > 0
    ensures x * z < y * z
  {
  }

  lemma MulMono(a: nat, b: nat, c: nat, d: nat)
    requires a <= b && c <= d
    ensures a * c <= b * d
  {
  }

  /** Scaling both sides of a comparison by a positive factor keeps its sign. */
  lemma SignScale(x: int, y: int, k: nat)
    requires k > 0
    ensures Sign(x * k - y * k) == Sign(x - y)
  {
    if x < y {
      MulLt(x, y, k);
    } else if y < x {
      MulLt(y, x, k);
    }
  }

  /** A power of ten is below two to the tenth, three digits at a time. */
  lemma {:induction false} TenBelowTwo(k: nat)
    ensures Pow(10, 3 * k) <= Pow(2, 10 * k)
  {
    assert Pow(10, 3) == 1000 by { PowThree(10); }
    assert Pow(2, 10) == 1024 by { Pow2Small(); }
    PowPow(10, 3, k);
    PowPow(2, 10, k);
    PowBase(1000, 1024, k);
  }

  /** Five cubed is below two to the seventh. */
  lemma {:induction false} FiveBelowTwo(k: nat)
    ensures Pow(5, 3 * k) <= Pow(2, 7 * k)
  {
    assert Pow(5, 3) == 125 by { PowThree(5); }
    assert Pow(2, 7) == 128 by { Pow2Small(); }
    PowPow(5, 3, k);
    PowPow(2, 7, k);
    PowBase(125, 128, k);
  }

  lemma {:induction false} PowThree(b: nat)
    ensures Pow(b, 3) == b * b * b
  {
    assert Pow(b, 1) == b;
    assert Pow(b, 2) == b * b;
    assert Pow(b, 3) == b * (b * b);
    MulAssoc(b, b, b);
  }

  lemma {:induction false} TenTo9()
    ensures Pow(10, 9) == 1_000_000_000
  {
  }

  lemma {:induction false} TenTo16()
    ensures Pow(10, 16) == 10_000_000_000_000_000
  {
    TenTo9();
    PowThree(10);
    PowAdd(10, 9, 3);
    PowAdd(10, 12, 3);
    PowAdd(10, 15, 1);
    assert Pow(10, 1) == 10;
  }

  lemma {:induction false} Pow2Small()
    ensures Pow(2, 5) == 32 && Pow(2, 7) == 128 && Pow(2, 10) == 1024
  {
  }

  lemma {:induction false} Pow2Consts()
    ensures Pow(2, 32) == 0x1_0000_0000
    ensures Pow(2, 52) == 0x10_0000_0000_0000
    ensures Pow(2, 53) == 0x20_0000_0000_0000
    ensures Pow(2, 54) == 0x40_0000_0000_0000
  {
    Pow2Small();
    PowAdd(2, 10, 10);
    PowAdd(2, 20, 10);
    PowAdd(2, 30, 1);
    PowAdd(2, 31, 1);
    PowAdd(2, 30, 10);
    PowAdd(2, 40, 10);
    PowAdd(2, 50, 1);
    PowAdd(2, 51, 1);
    PowAdd(2, 52, 1);
    PowAdd(2, 53, 1);
    assert Pow(2, 1) == 2;
  }

  /** `r` is `n / d` rounded to the nearest integer, ties to even. */
  predicate IsHalfEven(n: nat, d: nat, r: nat)
    requires d > 0
  {
    && 2 * Abs(n - r * d) <= d
    && (2 * Abs(n - r * d) == d ==> r % 2 == 0)
  }

  /** The nearest integer, ties to even, is unique. */
  lemma {:induction false} HalfEvenUnique(n: nat, d: nat, r: nat, s: nat)
    requires d > 0 && IsHalfEven(n, d, r) && IsHalfEven(n, d, s)
    ensures r == s
  {
    if r < s {
      HalfEvenApart(n, d, r, s);
    } else if s < r {
      HalfEvenApart(n, d, s, r);
    }
  }

  lemma {:induction false} HalfEvenApart(n: nat, d: nat, r: nat, s: nat)
    requires d > 0 && IsHalfEven(n, d, r) && IsHalfEven(n, d, s)
    ensures s <= r
  {
    if s > r + 1 {
      MulLe(r + 2, s, d);
      Distrib(r, 2, d);
    } else if s == r + 1 {
      Distrib(r, 1, d);
    }
  }

  lemma Distrib(x: int, y: int, z: int)
    ensures (x + y) * z == x * z + y * z
  {
  }

  lemma DistribSub(x: int, y: int, z: int)
    ensures (x - y) * z == x * z - y * z
  {
  }

  lemma MulSwap(x: int, y: int, z: int)
    ensures x * y * z == x * z * y
  {
  }

  lemma Regroup(m: nat, a: nat, b: nat, c: nat)
    ensures m * c * (a * b) == m * a * (b * c)
  {
  }

  lemma Mul3(x: nat, y: nat, z: nat, p: nat, q: nat, r: nat)
    requires x <= p && y <= q && z <= r
    ensures x * y * z <= p * q * r
  {
    MulMono(x, p, y, q);
    MulMono(x * y, p * q, z, r);
  }

  lemma {:induction false} PowAdd3(b: nat, x: nat, y: nat, z: nat)
    ensures Pow(b, x) * Pow(b, y) * Pow(b, z) == Pow(b, x + y + z)
  {
    hide Pow;
    PowAdd(b, x, y);
    PowAdd(b, x + y, z);
  }

  lemma DivTwice(v: nat, p: nat)
    requires p > 0
    ensures v / (256 * p) == v / 256 / p
  {
    var q, r := v / 256 / p, v / 256 % p;
    assert v / 256 == p * q + r;
    MulAssoc(256, p, q);
    assert v == 256 * p * q + (v % 256 + 256 * r);
    DivModIs(v, 256 * p, q, v % 256 + 256 * r);
  }
}
