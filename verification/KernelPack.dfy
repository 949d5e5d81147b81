/**
 Construction against evaluation: cubes, each a set of values per field and a class, packed into the bytes
 that the kernel reads, and what the kernel then answers, said of the sets alone.
 */
module KernelPack {
  import opened Arith
  import opened Kernel

  /** A unit: the values each field accepts (an empty set accepts all), and its class. */
  datatype Cube = Cube(sets: seq<set<nat>>, cls: nat)

  /** The cube holds the key. */
  predicate InCube(c: Cube, key: seq<int>)
    requires |key| >= |c.sets|
  {
    forall f :: 0 <= f < |c.sets| ==> c.sets[f] == {} || (key[f] >= 0 && key[f] as nat in c.sets[f])
  }

  // ---------- packing ----------

  /** Word `w` of a set, as far as bit `n`: the sum of 2^(v - 64 * w) over its values. */
  function WordSum(s: set<nat>, w: nat, n: nat): nat {
    if n == 0 then 0 else WordSum(s, w, n - 1) + (if 64 * w + (n - 1) in s then Pow(2, n - 1) else 0)
  }

  /** The lowest `n` bytes of a number, lowest first. */
  function LowBytes(v: nat, n: nat): (b: seq<int>)
    ensures |b| == n
  {
    if n == 0 then [] else [v % 256] + LowBytes(v / 256, n - 1)
  }

  /** The masks of one field, of one unit, of all units: words in order. */
  function FieldBytes(s: set<nat>, words: nat): (b: seq<int>)
    ensures |b| == 8 * words
  {
    if words == 0 then [] else FieldBytes(s, words - 1) + LowBytes(WordSum(s, words - 1, 64), 8)
  }

  function UnitBytes(sets: seq<set<nat>>, words: nat): (b: seq<int>)
    ensures |b| == 8 * (|sets| * words)
  {
    if sets == [] then []
    else
      var n := |sets| - 1;
      Distrib(n, 1, words);
      UnitBytes(sets[..n], words) + FieldBytes(sets[n], words)
  }

  function MaskBytes(cubes: seq<Cube>, fields: nat, words: nat): (b: seq<int>)
    requires forall j :: 0 <= j < |cubes| ==> |cubes[j].sets| == fields
    ensures |b| == 8 * (|cubes| * fields * words)
  {
    if cubes == [] then []
    else
      var n := |cubes| - 1;
      Distrib(n, 1, fields);
      Distrib(n * fields, fields, words);
      MaskBytes(cubes[..n], fields, words) + UnitBytes(cubes[n].sets, words)
  }

  /** One weight each: unit, head, class and the weight one. */
  function WeightBytes(cubes: seq<Cube>, head: nat): (b: seq<int>)
    ensures |b| == 7 * |cubes|
  {
    if cubes == [] then []
    else
      var n := |cubes| - 1;
      WeightBytes(cubes[..n], head) + (LowBytes(n, 2) + ([head % 256] + (LowBytes(cubes[n].cls, 2) + LowBytes(1, 2))))
  }

  /** The packed net. */
  function Pack(cubes: seq<Cube>, fields: nat, words: nat, head: nat): seq<int>
    requires forall j :: 0 <= j < |cubes| ==> |cubes[j].sets| == fields
  {
    MaskBytes(cubes, fields, words) + (LowBytes(|cubes|, 4) + WeightBytes(cubes, head))
  }

  // ---------- reading numbers back ----------

  /** `b` stands in the model at `p`. */
  predicate StandsAt(model: seq<int>, p: nat, b: seq<int>) {
    p + |b| <= |model| && model[p..p + |b|] == b
  }

  lemma Parts(model: seq<int>, p: nat, a: seq<int>, b: seq<int>)
    requires StandsAt(model, p, a + b)
    ensures StandsAt(model, p, a) && StandsAt(model, p + |a|, b)
  {
    assert model[p..p + |a + b|][..|a|] == a && model[p..p + |a + b|][|a|..] == b;
  }

  lemma {:induction false} BytesRead(model: seq<int>, p: nat, v: nat, n: nat)
    requires StandsAt(model, p, LowBytes(v, n)) && v < Pow(256, n)
    ensures Bytes(model, p, n) == v
    decreases n
  {
    if n > 0 {
      PowSucc(256, n - 1);
      LowestFirst(v, n);
      Parts(model, p, [v % 256], LowBytes(v / 256, n - 1));
      hide LowBytes, Pow, StandsAt;
      OneByte(model, p, v);
      BytesRead(model, p + 1, v / 256, n - 1);
    }
  }

  lemma LowestFirst(v: nat, n: nat)
    requires n > 0
    ensures LowBytes(v, n) == [v % 256] + LowBytes(v / 256, n - 1)
  {
  }

  lemma {:induction false} WordBound(s: set<nat>, w: nat, n: nat)
    ensures WordSum(s, w, n) < Pow(2, n)
  {
    PowZero(2);
    if n > 0 {
      WordBound(s, w, n - 1);
      PowSucc(2, n - 1);
    }
  }

  /** A bit of the word is set exactly for a value of the set. */
  lemma {:induction false} WordBit(s: set<nat>, w: nat, n: nat, i: nat)
    requires i < n
    ensures WordSum(s, w, n) / Pow(2, i) % 2 == 1 <==> 64 * w + i in s
    decreases n
  {
    WordStep(s, w, n);
    hide Pow, WordSum;
    var low, p := WordSum(s, w, n - 1), Pow(2, i);
    WordBound(s, w, n - 1);
    if i == n - 1 {
      TopBit(low, p, 64 * w + i in s);
    } else {
      WordBit(s, w, n - 1, i);
      HighPower(n, i);
      HighPart(low, p, Pow(2, n - 2 - i));
    }
  }

  lemma WordStep(s: set<nat>, w: nat, n: nat)
    requires n > 0
    ensures WordSum(s, w, n) == if 64 * w + (n - 1) in s then WordSum(s, w, n - 1) + Pow(2, n - 1) else WordSum(s, w, n - 1)
  {
  }

  lemma TopBit(low: nat, p: nat, b: bool)
    requires low < p
    ensures (if b then low + p else low) / p % 2 == if b then 1 else 0
  {
    if b {
      DivModIs(low + p, p, 1, low);
    } else {
      DivModIs(low, p, 0, low);
    }
  }

  lemma {:induction false} HighPower(n: nat, i: nat)
    requires i < n - 1
    ensures Pow(2, i) > 0 && Pow(2, n - 1) == 2 * Pow(2, n - 2 - i) * Pow(2, i)
  {
    PowPositive(i);
    hide Pow;
    PowSucc(2, n - 2 - i);
    PowAdd(2, n - 1 - i, i);
  }

  lemma {:induction false} HighPart(low: nat, p: nat, h: nat)
    requires p > 0
    ensures (low + 2 * h * p) / p % 2 == low / p % 2
  {
    var q, r := low / p, low % p;
    assert low == q * p + r;
    Distrib(q, 2 * h, p);
    DivModIs(low + 2 * h * p, p, q + 2 * h, r);
  }

  predicate HasBit(s: set<nat>, w: nat, i: nat) {
    64 * w + i in s
  }

  /** A word is zero exactly when it has no value. */
  lemma {:induction false} WordZero(s: set<nat>, w: nat, n: nat)
    ensures WordSum(s, w, n) == 0 <==> forall i: nat :: i < n ==> !HasBit(s, w, i)
  {
    if n > 0 {
      WordZero(s, w, n - 1);
      PowPositive(n - 1);
      var top := HasBit(s, w, n - 1);
    }
  }

  lemma PowPositive(n: nat)
    ensures Pow(2, n) > 0
  {
  }

  // ---------- where things stand ----------

  lemma {:induction false} FieldAt(model: seq<int>, p: nat, s: set<nat>, words: nat, w: nat)
    requires StandsAt(model, p, FieldBytes(s, words)) && w < words
    ensures StandsAt(model, p + 8 * w, LowBytes(WordSum(s, w, 64), 8))
    decreases words
  {
    hide WordSum, LowBytes;
    Parts(model, p, FieldBytes(s, words - 1), LowBytes(WordSum(s, words - 1, 64), 8));
    if w < words - 1 {
      FieldAt(model, p, s, words - 1, w);
    }
  }

  lemma {:induction false} UnitAt(model: seq<int>, p: nat, sets: seq<set<nat>>, words: nat, f: nat)
    requires StandsAt(model, p, UnitBytes(sets, words)) && f < |sets|
    ensures StandsAt(model, p + 8 * (f * words), FieldBytes(sets[f], words))
    decreases |sets|
  {
    hide FieldBytes;
    var n := |sets| - 1;
    Parts(model, p, UnitBytes(sets[..n], words), FieldBytes(sets[n], words));
    if f < n {
      UnitAt(model, p, sets[..n], words, f);
    }
  }

  lemma {:induction false} CubeAt(model: seq<int>, p: nat, cubes: seq<Cube>, fields: nat, words: nat, j: nat, q: nat)
    requires forall i :: 0 <= i < |cubes| ==> |cubes[i].sets| == fields
    requires StandsAt(model, p, MaskBytes(cubes, fields, words)) && j < |cubes| && q == p + 8 * (j * fields * words)
    ensures StandsAt(model, q, UnitBytes(cubes[j].sets, words))
    decreases |cubes|
  {
    hide UnitBytes, StandsAt;
    var n := |cubes| - 1;
    Parts(model, p, MaskBytes(cubes[..n], fields, words), UnitBytes(cubes[n].sets, words));
    if j < n {
      CubeAt(model, p, cubes[..n], fields, words, j, q);
    }
  }

  lemma {:induction false} WeightAt(model: seq<int>, p: nat, cubes: seq<Cube>, head: nat, e: nat)
    requires StandsAt(model, p, WeightBytes(cubes, head)) && e < |cubes|
    ensures StandsAt(model, p + 7 * e, LowBytes(e, 2) + ([head % 256] + (LowBytes(cubes[e].cls, 2) + LowBytes(1, 2))))
    decreases |cubes|
  {
    hide LowBytes, StandsAt;
    var n := |cubes| - 1;
    var b := LowBytes(n, 2) + ([head % 256] + (LowBytes(cubes[n].cls, 2) + LowBytes(1, 2)));
    Parts(model, p, WeightBytes(cubes[..n], head), b);
    if e < n {
      WeightAt(model, p, cubes[..n], head, e);
      assert cubes[..n][e] == cubes[e];
    }
  }

  // ---------- the packed net ----------

  /** The stage describes the packed net that stands at its offset. */
  ghost predicate IsPacked(model: seq<int>, t: Stage, cubes: seq<Cube>) {
    && t.units == |cubes| && (forall j :: 0 <= j < |cubes| ==> |cubes[j].sets| == t.fields)
    && StandsAt(model, t.off, Pack(cubes, t.fields, t.words, t.head))
    && t.fields == |t.vn| && t.head < 256 && |cubes| < 65536 && 0 < t.classes <= 65536
    && (forall f :: 0 <= f < t.fields ==> t.vn[f] <= 64 * t.words)
    && (forall j :: 0 <= j < |cubes| ==> cubes[j].cls < t.classes)
    && forall j, f, v: nat :: 0 <= j < |cubes| && 0 <= f < t.fields && v in cubes[j].sets[f] ==> v < t.vn[f]
  }

  lemma {:induction false} MaskIs(model: seq<int>, t: Stage, cubes: seq<Cube>, j: nat, f: nat, w: nat)
    requires IsPacked(model, t, cubes) && j < t.units && f < t.fields && w < t.words
    ensures MaskWord(model, t, j, f, w) == WordSum(cubes[j].sets[f], w, 64)
  {
    hide WordSum, LowBytes, UnitBytes, FieldBytes, MaskBytes, WeightBytes, Bytes, StandsAt, Pow;
    var s := cubes[j].sets[f];
    var p, q, x := MaskPlaces(t, j, f, w);
    Parts(model, t.off, MaskBytes(cubes, t.fields, t.words), LowBytes(|cubes|, 4) + WeightBytes(cubes, t.head));
    CubeAt(model, t.off, cubes, t.fields, t.words, j, p);
    UnitAt(model, p, cubes[j].sets, t.words, f);
    FieldAt(model, q, s, t.words, w);
    WordBound(s, w, 64);
    EightBytes();
    BytesRead(model, x, WordSum(s, w, 64), 8);
  }

  /** Where unit, field and word begin. */
  lemma MaskPlaces(t: Stage, j: nat, f: nat, w: nat) returns (p: nat, q: nat, x: nat)
    ensures p == t.off + 8 * (j * t.fields * t.words) && q == p + 8 * (f * t.words) && x == q + 8 * w
    ensures x == t.off + 8 * ((j * t.fields + f) * t.words + w)
  {
    Distrib(j * t.fields, f, t.words);
    p := t.off + 8 * (j * t.fields * t.words);
    q := p + 8 * (f * t.words);
    x := q + 8 * w;
  }

  lemma EightBytes()
    ensures Pow(256, 8) == Pow(2, 64) && Pow(256, 2) == 65536 && Pow(256, 4) == 0x1_0000_0000
  {
    Pow2Small();
    PowSucc(2, 7);
    PowPow(2, 8, 8);
    PowFourBytes();
  }

  lemma PowFourBytes()
    ensures Pow(256, 2) == 65536 && Pow(256, 4) == 0x1_0000_0000
  {
  }

  /** A field of a unit accepts a value exactly when its set is empty or holds it. */
  lemma {:induction false} FieldIs(model: seq<int>, t: Stage, cubes: seq<Cube>, j: nat, f: nat, v: nat)
    requires IsPacked(model, t, cubes) && j < t.units && f < t.fields && v < t.vn[f]
    ensures FieldAccepts(model, t, j, f, v) <==> cubes[j].sets[f] == {} || v in cubes[j].sets[f]
  {
    hide WordSum, MaskWord, Pack, StandsAt, Pow;
    var s := cubes[j].sets[f];
    MaskIs(model, t, cubes, j, f, v / 64);
    WordBit(s, v / 64, 64, v % 64);
    if x: nat :| x in s {
      MaskIs(model, t, cubes, j, f, x / 64);
      WordZero(s, x / 64, 64);
      assert HasBit(s, x / 64, x % 64);
    } else {
      assert s == {};
      forall w | 0 <= w < t.words
        ensures MaskWord(model, t, j, f, w) == 0
      {
        MaskIs(model, t, cubes, j, f, w);
        WordZero(s, w, 64);
      }
    }
  }

  /** A unit fires exactly when its cube holds the key. */
  lemma {:induction false} FiresInCube(model: seq<int>, t: Stage, cubes: seq<Cube>, key: seq<int>, j: nat)
    requires IsPacked(model, t, cubes) && InDomain(t, key) && j < t.units
    ensures Fires(model, t, key, j) <==> InCube(cubes[j], key)
  {
    hide FieldAccepts, Pack, StandsAt;
    forall f | 0 <= f < t.fields
      ensures FieldAccepts(model, t, j, f, key[f]) <==> cubes[j].sets[f] == {} || key[f] as nat in cubes[j].sets[f]
    {
      FieldIs(model, t, cubes, j, f, key[f]);
    }
  }

  lemma {:induction false} EntryIs(model: seq<int>, t: Stage, cubes: seq<Cube>, e: nat)
    requires IsPacked(model, t, cubes)
    ensures EntryCount(model, t) == |cubes|
    ensures e < |cubes| ==> EntryAt(model, t, e) == Entry(e, t.head, cubes[e].cls, 1)
  {
    hide LowBytes, MaskBytes, WeightBytes, Bytes, Pow, StandsAt;
    var n := |cubes|;
    var p: nat := EntriesOff(t);
    EightBytes();
    Parts(model, t.off, MaskBytes(cubes, t.fields, t.words), LowBytes(n, 4) + WeightBytes(cubes, t.head));
    Parts(model, p, LowBytes(n, 4), WeightBytes(cubes, t.head));
    BytesRead(model, p, n, 4);
    if e < n {
      WeightAt(model, p + 4, cubes, t.head, e);
      WeightIs(model, p + 4 + 7 * e, e, t.head, cubes[e].cls);
    }
  }

  lemma {:induction false} WeightIs(model: seq<int>, q: nat, e: nat, head: nat, c: nat)
    requires e < 65536 && head < 256 && c < 65536
    requires StandsAt(model, q, LowBytes(e, 2) + ([head % 256] + (LowBytes(c, 2) + LowBytes(1, 2))))
    ensures Bytes(model, q, 2) == e && GetB(model, q + 2) == head && Bytes(model, q + 3, 2) == c && Bytes(model, q + 5, 2) == 1
  {
    hide LowBytes, Bytes, Pow, StandsAt;
    EightBytes();
    Parts(model, q, LowBytes(e, 2), [head % 256] + (LowBytes(c, 2) + LowBytes(1, 2)));
    Parts(model, q + 2, [head % 256], LowBytes(c, 2) + LowBytes(1, 2));
    Parts(model, q + 3, LowBytes(c, 2), LowBytes(1, 2));
    BytesRead(model, q, e, 2);
    BytesRead(model, q + 3, c, 2);
    BytesRead(model, q + 5, 1, 2);
    OneByte(model, q + 2, head);
  }

  lemma OneByte(model: seq<int>, p: nat, v: nat)
    requires StandsAt(model, p, [v % 256])
    ensures GetB(model, p) == v % 256
  {
    assert model[p..p + 1][0] == model[p];
  }

  /** Every key of the domain lies in exactly one cube, which carries the table's class. */
  ghost predicate Partition(t: Stage, cubes: seq<Cube>, table: Table)
    requires forall j :: 0 <= j < |cubes| ==> |cubes[j].sets| == t.fields
  {
    forall key: seq<int> :: IsKey(t, key) ==> HasOneCube(cubes, key, table(key))
  }

  ghost predicate HasOneCube(cubes: seq<Cube>, key: seq<int>, cls: nat)
    requires forall j :: 0 <= j < |cubes| ==> |cubes[j].sets| == |key|
  {
    exists j: nat :: j < |cubes| && cubes[j].cls == cls && forall i :: 0 <= i < |cubes| ==> (InCube(cubes[i], key) <==> i == j)
  }

  /** The packed net of a partition answers the table, on every key; -1 outside the domain. */
  lemma {:induction false} PackedAnswersTable(model: seq<int>, t: Stage, cubes: seq<Cube>, table: Table, key: seq<int>, r: int)
    requires IsPacked(model, t, cubes) && Partition(t, cubes, table) && |key| >= t.fields
    ensures Decides(model, t, key, r) <==> r == if InDomain(t, key) then table(key[..t.fields]) else -1
  {
    var classOf := seq<nat>(|cubes|, j requires 0 <= j < |cubes| => cubes[j].cls);
    PackedIsNet(model, t, cubes, classOf);
    hide IsPacked, IsNet, Fires, InCube, Decides;
    forall k: seq<int> | IsKey(t, k)
      ensures HasCube(model, t, k, classOf, table(k))
    {
      assert HasOneCube(cubes, k, table(k));
      var j: nat :| j < |cubes| && cubes[j].cls == table(k) && forall i :: 0 <= i < |cubes| ==> (InCube(cubes[i], k) <==> i == j);
      forall i | 0 <= i < t.units
        ensures Fires(model, t, k, i) <==> i == j
      {
        FiresInCube(model, t, cubes, k, i);
      }
      assert OnlyCube(model, t, k, j);
    }
    NetEqualsTable(model, t, classOf, table, key, r);
  }

  lemma {:induction false} PackedIsNet(model: seq<int>, t: Stage, cubes: seq<Cube>, classOf: seq<nat>)
    requires IsPacked(model, t, cubes) && |classOf| == |cubes|
    requires forall j :: 0 <= j < |cubes| ==> classOf[j] == cubes[j].cls
    ensures IsNet(model, t, classOf)
  {
    hide EntryAt, EntryCount, Pack, StandsAt;
    EntryIs(model, t, cubes, 0);
    forall e: nat | e < |cubes|
      ensures EntryAt(model, t, e) == Entry(e, t.head, cubes[e].cls, 1)
    {
      EntryIs(model, t, cubes, e);
    }
    forall j | 0 <= j < t.units
      ensures HasEntry(model, t, j)
    {
      assert EntryAt(model, t, j).unit == j;
    }
  }

  // ---------- one packed net, byte by byte ----------

  /** One field of two values: the unit of value 0 carries class 1, that of value 1 class 0. */
  method Pair() returns (first: int, second: int, outside: int)
    ensures first == 1 && second == 0 && outside == -1
  {
    hide Decides, IsPacked, Partition, InDomain;
    var model := [1, 0, 0, 0, 0, 0, 0, 0, 2, 0, 0, 0, 0, 0, 0, 0, 2, 0, 0, 0, 0, 0, 1, 1, 0, 1, 0, 1, 0, 1, 0, 0, 1, 0];
    var t := Stage(1, 2, 0, 1, [2], 2, 1);
    ghost var cubes := [Cube([{0}], 1), Cube([{1}], 0)];
    ghost var table: Table := (k: seq<int>) => if k == [0] then 1 else 0;
    PairPacked(model, t, cubes);
    PairParts(t, cubes, table);
    PackedIsNet(model, t, cubes, [1, 0]);
    var act, z := new bool[2], new nat[2];
    first := Infer(model, t, [0, 0, 0, 0], act, z);
    second := Infer(model, t, [1, 0, 0, 0], act, z);
    outside := Infer(model, t, [2, 0, 0, 0], act, z);
    PackedAnswersTable(model, t, cubes, table, [0, 0, 0, 0], first);
    PackedAnswersTable(model, t, cubes, table, [1, 0, 0, 0], second);
    PackedAnswersTable(model, t, cubes, table, [2, 0, 0, 0], outside);
    PairKeys(t);
  }

  lemma PairKeys(t: Stage)
    requires t == Stage(1, 2, 0, 1, [2], 2, 1)
    ensures InDomain(t, [0, 0, 0, 0]) && InDomain(t, [1, 0, 0, 0]) && !InDomain(t, [2, 0, 0, 0])
    ensures [0, 0, 0, 0][..1] == [0] && [1, 0, 0, 0][..1] == [1]
  {
    var k := [2, 0, 0, 0];
    assert k[0] == 2 == t.vn[0];
  }

  lemma PairParts(t: Stage, cubes: seq<Cube>, table: Table)
    requires t == Stage(1, 2, 0, 1, [2], 2, 1) && cubes == [Cube([{0}], 1), Cube([{1}], 0)]
    requires table([0]) == 1 && table([1]) == 0
    ensures Partition(t, cubes, table)
  {
    forall key: seq<int> | IsKey(t, key)
      ensures HasOneCube(cubes, key, table(key))
    {
      assert key == [key[0]];
      var j: nat := key[0];
      assert (j == 0 ==> key == [0]) && (j == 1 ==> key == [1]) && j < 2;
      assert InCube(cubes[0], key) <==> j == 0;
      assert InCube(cubes[1], key) <==> j == 1;
      assert j < |cubes| && cubes[j].cls == table(key) && forall i :: 0 <= i < |cubes| ==> (InCube(cubes[i], key) <==> i == j);
    }
  }

  lemma {:induction false} SingleWord(v: nat, n: nat)
    ensures WordSum({v}, 0, n) == if v < n then Pow(2, v) else 0
  {
    if n > 0 {
      SingleWord(v, n - 1);
    }
  }

  lemma PairPacked(model: seq<int>, t: Stage, cubes: seq<Cube>)
    requires t == Stage(1, 2, 0, 1, [2], 2, 1) && cubes == [Cube([{0}], 1), Cube([{1}], 0)]
    requires model == [1, 0, 0, 0, 0, 0, 0, 0, 2, 0, 0, 0, 0, 0, 0, 0, 2, 0, 0, 0, 0, 0, 1, 1, 0, 1, 0, 1, 0, 1, 0, 0, 1, 0]
    ensures IsPacked(model, t, cubes)
  {
    hide WordSum, LowBytes, MaskBytes, WeightBytes;
    PairMasks(cubes);
    PairWeights(cubes);
    LowBytesAre();
    assert model == MaskBytes(cubes, 1, 1) + (LowBytes(2, 4) + WeightBytes(cubes, 1));
    assert model[0..|model|] == model;
  }

  lemma LowBytesAre()
    ensures LowBytes(1, 8) == [1, 0, 0, 0, 0, 0, 0, 0] && LowBytes(2, 8) == [2, 0, 0, 0, 0, 0, 0, 0]
    ensures LowBytes(2, 4) == [2, 0, 0, 0] && LowBytes(0, 2) == [0, 0] && LowBytes(1, 2) == [1, 0]
  {
    OneLow(1, 8);
    OneLow(2, 8);
    OneLow(2, 4);
    OneLow(0, 2);
    OneLow(1, 2);
    hide LowBytes;
  }

  /** A small number is its own lowest byte. */
  lemma OneLow(v: nat, n: nat)
    requires v < 256 && n > 0
    ensures LowBytes(v, n) == [v] + seq<int>(n - 1, i => 0)
  {
    LowestFirst(v, n);
    ZeroBytes(n - 1);
    hide LowBytes;
  }

  lemma {:induction false} ZeroBytes(n: nat)
    ensures LowBytes(0, n) == seq<int>(n, i => 0)
  {
    if n > 0 {
      ZeroBytes(n - 1);
      LowestFirst(0, n);
      hide LowBytes;
    }
  }

  lemma PairMasks(cubes: seq<Cube>)
    requires cubes == [Cube([{0}], 1), Cube([{1}], 0)]
    ensures MaskBytes(cubes, 1, 1) == [1, 0, 0, 0, 0, 0, 0, 0, 2, 0, 0, 0, 0, 0, 0, 0]
  {
    hide WordSum, LowBytes;
    LowBytesAre();
    SingleWord(0, 64);
    SingleWord(1, 64);
    PowOne();
    hide Pow;
    OneField({0});
    OneField({1});
    assert cubes[..1] == [cubes[0]] && cubes[..1][..0] == [];
    assert MaskBytes([], 1, 1) == [];
    assert MaskBytes(cubes[..1], 1, 1) == [] + UnitBytes([{0}], 1);
    assert MaskBytes(cubes, 1, 1) == MaskBytes(cubes[..1], 1, 1) + UnitBytes([{1}], 1);
  }

  lemma PowOne()
    ensures Pow(2, 0) == 1 && Pow(2, 1) == 2
  {
  }

  lemma OneField(s: set<nat>)
    ensures UnitBytes([s], 1) == LowBytes(WordSum(s, 0, 64), 8)
  {
    hide WordSum, LowBytes;
    assert [s][..0] == [] && UnitBytes([], 1) == [];
    assert FieldBytes(s, 0) == [];
    assert FieldBytes(s, 1) == [] + LowBytes(WordSum(s, 0, 64), 8);
    assert UnitBytes([s], 1) == [] + FieldBytes(s, 1);
  }

  lemma PairWeights(cubes: seq<Cube>)
    requires cubes == [Cube([{0}], 1), Cube([{1}], 0)]
    ensures WeightBytes(cubes, 1) == [0, 0, 1, 1, 0, 1, 0, 1, 0, 1, 0, 0, 1, 0]
  {
    hide LowBytes;
    LowBytesAre();
    assert cubes[..1] == [cubes[0]] && cubes[..1][..0] == [];
    assert WeightBytes([], 1) == [];
    assert WeightBytes(cubes[..1], 1) == [] + (LowBytes(0, 2) + ([1] + (LowBytes(1, 2) + LowBytes(1, 2))));
    assert WeightBytes(cubes, 1) == WeightBytes(cubes[..1], 1) + (LowBytes(1, 2) + ([1] + (LowBytes(0, 2) + LowBytes(1, 2))));
  }
}
