/**
 The decision kernel: a packed mask network evaluated with one running offset, against
 a reference that indexes every mask and weight by its position.
 */
module Kernel {
  import opened Arith

  /** One stage as the generated tables describe it, for one head. */
  datatype Stage = Stage(fields: nat, units: nat, off: nat, words: nat, vn: seq<nat>, classes: nat, head: nat)

  // ---------- reading the packed model ----------

  /** `getb`: the low byte of a model entry, whatever the sign of its type. */
  function GetB(model: seq<int>, i: nat): (b: nat)
    ensures b < 256
  {
    if i < |model| then model[i] % 256 else 0
  }

  /** The little-endian number of `n` bytes at `p`. */
  function Bytes(model: seq<int>, p: nat, n: nat): nat
    decreases n
  {
    if n == 0 then 0 else GetB(model, p) + 256 * Bytes(model, p + 1, n - 1)
  }

  lemma {:induction false} BytesBound(model: seq<int>, p: nat, n: nat)
    ensures Bytes(model, p, n) < Pow(256, n)
    decreases n
  {
    if n > 0 {
      BytesBound(model, p + 1, n - 1);
    }
  }

  lemma FourBytes(model: seq<int>, p: nat)
    ensures Bytes(model, p, 4) ==
      GetB(model, p) + 256 * GetB(model, p + 1) + 65536 * GetB(model, p + 2) + 16777216 * GetB(model, p + 3)
  {
  }

  /** `mask64`: eight bytes, the highest first; a shift by eight and an or. */
  method Mask64(model: seq<int>, p: nat) returns (v: nat)
    ensures v == Bytes(model, p, 8)
  {
    v := 0;
    var k := 7;
    while k >= 0
      invariant -1 <= k <= 7
      invariant v == Bytes(model, p + k + 1, 7 - k)
    {
      v := v * 256 + GetB(model, p + k);
      k := k - 1;
    }
  }

  // ---------- the reference ----------

  /** Word `w` of the mask of field `f` in unit `j`. */
  function MaskWord(model: seq<int>, t: Stage, j: nat, f: nat, w: nat): nat {
    Bytes(model, t.off + 8 * ((j * t.fields + f) * t.words + w), 8)
  }

  /** Bit `i` of a word. */
  predicate Bit(v: nat, i: nat) {
    v / Pow(2, i) % 2 == 1
  }

  /** A field with no bit set in any of its first `n` words accepts everything. */
  predicate AnyBit(model: seq<int>, t: Stage, j: nat, f: nat, n: nat) {
    exists w :: 0 <= w < n && MaskWord(model, t, j, f, w) != 0
  }

  /** The value's bit is set in the mask. */
  predicate HasValue(model: seq<int>, t: Stage, j: nat, f: nat, v: nat) {
    v / 64 < t.words && Bit(MaskWord(model, t, j, f, v / 64), v % 64)
  }

  predicate FieldAccepts(model: seq<int>, t: Stage, j: nat, f: nat, v: nat) {
    AnyBit(model, t, j, f, t.words) ==> HasValue(model, t, j, f, v)
  }

  /** Unit `j`, a cube, contains the key. */
  predicate Fires(model: seq<int>, t: Stage, key: seq<int>, j: nat)
    requires InDomain(t, key)
  {
    forall f :: 0 <= f < t.fields ==> FieldAccepts(model, t, j, f, key[f])
  }

  predicate InDomain(t: Stage, key: seq<int>) {
    |key| >= t.fields && |t.vn| >= t.fields && forall f :: 0 <= f < t.fields ==> 0 <= key[f] < t.vn[f]
  }

  /** A packed weight. */
  datatype Entry = Entry(unit: nat, head: nat, cls: nat, weight: nat)

  function EntriesOff(t: Stage): nat {
    t.off + 8 * (t.units * t.fields * t.words)
  }

  /** The entry count is read into a signed int: with its highest bit set there are no entries. */
  function EntryCount(model: seq<int>, t: Stage): nat {
    var raw := Bytes(model, EntriesOff(t), 4);
    if raw < 0x8000_0000 then raw else 0
  }

  function EntryAt(model: seq<int>, t: Stage, e: nat): Entry {
    var p := EntriesOff(t) + 4 + 7 * e;
    Entry(Bytes(model, p, 2), GetB(model, p + 2), Bytes(model, p + 3, 2), Bytes(model, p + 5, 2))
  }

  /** What the first `n` entries add to class `c` for the key. */
  function Score(model: seq<int>, t: Stage, key: seq<int>, c: nat, n: nat): nat
    requires InDomain(t, key)
  {
    if n == 0 then 0
    else
      var e := EntryAt(model, t, n - 1);
      Score(model, t, key, c, n - 1)
      + (if e.head == t.head && e.cls == c && Fires(model, t, key, e.unit) then e.weight else 0)
  }

  /** The layout the loops read: entries of this head name units and classes that exist. */
  ghost predicate WellFormed(model: seq<int>, t: Stage) {
    && t.classes > 0 && |t.vn| >= t.fields
    && forall e :: 0 <= e < EntryCount(model, t) ==>
         EntryAt(model, t, e).head == t.head ==>
           EntryAt(model, t, e).unit < t.units && EntryAt(model, t, e).cls < t.classes
  }

  /** `c` is the lowest class of greatest score. */
  ghost predicate IsBest(model: seq<int>, t: Stage, key: seq<int>, c: nat)
    requires InDomain(t, key)
  {
    var n := EntryCount(model, t);
    && c < t.classes
    && (forall d :: 0 <= d < t.classes ==> Score(model, t, key, d, n) <= Score(model, t, key, c, n))
    && (forall d :: 0 <= d < c ==> Score(model, t, key, d, n) < Score(model, t, key, c, n))
  }

  /** The decision: -1 outside the domain, else the lowest class of greatest score. */
  ghost predicate Decides(model: seq<int>, t: Stage, key: seq<int>, r: int) {
    if InDomain(t, key) then r >= 0 && IsBest(model, t, key, r) else r == -1
  }

  lemma {:induction false} DecisionUnique(model: seq<int>, t: Stage, key: seq<int>, r: int, s: int)
    requires Decides(model, t, key, r) && Decides(model, t, key, s)
    ensures r == s
  {
    hide Score;
    if InDomain(t, key) {
      var n := EntryCount(model, t);
      assert Score(model, t, key, r, n) <= Score(model, t, key, s, n);
      assert Score(model, t, key, s, n) <= Score(model, t, key, r, n);
    }
  }

  // ---------- the loops ----------

  /** The word loop of one field; the offset ends behind the field's words. */
  method ScanField(model: seq<int>, t: Stage, j: nat, f: nat, v: nat, q0: nat) returns (q: nat, any: bool, got: bool)
    requires q0 == t.off + 8 * ((j * t.fields + f) * t.words)
    ensures q == q0 + 8 * t.words
    ensures any == AnyBit(model, t, j, f, t.words) && got == HasValue(model, t, j, f, v)
  {
    hide Bytes, Pow;
    q, any, got := q0, false, false;
    var wi := 0;
    while wi < t.words
      invariant 0 <= wi <= t.words && q == q0 + 8 * wi
      invariant any == AnyBit(model, t, j, f, wi)
      invariant got == (v / 64 < wi && Bit(MaskWord(model, t, j, f, v / 64), v % 64))
    {
      var lit := Mask64(model, q);
      assert lit == MaskWord(model, t, j, f, wi);
      AnyBitStep(model, t, j, f, wi);
      q := q + 8;
      if lit != 0 {
        any := true;
      }
      if wi == v / 64 {
        if Bit(lit, v % 64) {
          got := true;
        }
      }
      wi := wi + 1;
    }
  }

  lemma AnyBitStep(model: seq<int>, t: Stage, j: nat, f: nat, n: nat)
    ensures AnyBit(model, t, j, f, n + 1) <==> AnyBit(model, t, j, f, n) || MaskWord(model, t, j, f, n) != 0
  {
  }

  /** The field loop of one unit. */
  method ScanUnit(model: seq<int>, t: Stage, key: seq<int>, j: nat, q0: nat) returns (q: nat, hit: bool)
    requires InDomain(t, key) && q0 == t.off + 8 * (j * t.fields * t.words)
    ensures q == t.off + 8 * ((j + 1) * t.fields * t.words) && hit == Fires(model, t, key, j)
  {
    hide AnyBit, HasValue;
    q, hit := q0, true;
    var f := 0;
    OffsetStart(j, t.fields, t.words);
    while f < t.fields
      invariant 0 <= f <= t.fields && q == t.off + 8 * ((j * t.fields + f) * t.words)
      invariant hit == forall g :: 0 <= g < f ==> FieldAccepts(model, t, j, g, key[g])
    {
      var any, got;
      q, any, got := ScanField(model, t, j, f, key[f], q);
      if any {
        if !got {
          hit := false;
        }
      }
      Distrib(j * t.fields + f, 1, t.words);
      f := f + 1;
    }
    OffsetEnd(j, t.fields, t.words);
  }

  lemma OffsetStart(j: nat, m: nat, w: nat)
    ensures (j * m + 0) * w == j * m * w
  {
  }

  lemma OffsetEnd(j: nat, m: nat, w: nat)
    ensures (j * m + m) * w == (j + 1) * m * w
  {
  }

  /** The domain check. */
  method CheckKey(t: Stage, key: seq<int>) returns (ok: bool)
    requires |key| >= t.fields && |t.vn| >= t.fields
    ensures ok == InDomain(t, key)
  {
    var f := 0;
    while f < t.fields
      invariant 0 <= f <= t.fields
      invariant forall g :: 0 <= g < f ==> 0 <= key[g] < t.vn[g]
    {
      if key[f] < 0 || key[f] >= t.vn[f] {
        return false;
      }
      f := f + 1;
    }
    return true;
  }

  /** The match pass: `act[j]` says whether unit `j` fires. */
  method Match(model: seq<int>, t: Stage, key: seq<int>, act: array<bool>) returns (q: nat)
    requires InDomain(t, key) && act.Length >= t.units
    modifies act
    ensures q == EntriesOff(t)
    ensures forall j :: 0 <= j < t.units ==> act[j] == Fires(model, t, key, j)
  {
    hide FieldAccepts;
    q := t.off;
    var j := 0;
    while j < t.units
      invariant 0 <= j <= t.units && q == t.off + 8 * (j * t.fields * t.words)
      invariant forall i :: 0 <= i < j ==> act[i] == Fires(model, t, key, i)
    {
      var hit;
      q, hit := ScanUnit(model, t, key, j, q);
      act[j] := hit;
      j := j + 1;
    }
  }

  /** The sparse add: `z[c]` becomes the score of class `c`. */
  method Add(model: seq<int>, t: Stage, key: seq<int>, act: array<bool>, z: array<nat>)
    requires InDomain(t, key) && WellFormed(model, t) && act.Length >= t.units && z.Length >= t.classes
    requires forall j :: 0 <= j < t.units ==> act[j] == Fires(model, t, key, j)
    modifies z
    ensures forall c :: 0 <= c < t.classes ==> z[c] == Score(model, t, key, c, EntryCount(model, t))
  {
    hide Fires, Bytes, Score;
    var p := EntriesOff(t);
    FourBytes(model, p);
    var ne: int := GetB(model, p) + 256 * GetB(model, p + 1) + 65536 * GetB(model, p + 2) + 16777216 * GetB(model, p + 3);
    if ne >= 0x8000_0000 {
      ne := ne - 0x1_0000_0000;
    }
    p := p + 4;
    var c := 0;
    while c < t.classes
      invariant 0 <= c <= t.classes && forall d :: 0 <= d < c ==> z[d] == 0
    {
      z[c] := 0;
      c := c + 1;
    }
    var k := 0;
    ScoreNone(model, t, key);
    while k < ne
      invariant 0 <= k <= EntryCount(model, t) && p == EntriesOff(t) + 4 + 7 * k
      invariant forall d :: 0 <= d < t.classes ==> z[d] == Score(model, t, key, d, k)
    {
      EntryBytes(model, t, k, p);
      var u := GetB(model, p) + 256 * GetB(model, p + 1);
      var hh := GetB(model, p + 2);
      c := GetB(model, p + 3) + 256 * GetB(model, p + 4);
      var w := GetB(model, p + 5) + 256 * GetB(model, p + 6);
      ghost var e := EntryAt(model, t, k);
      ScoreStep(model, t, key, k);
      if hh == t.head {
        if act[u] {
          z[c] := z[c] + w;
        }
      }
      p := p + 7;
      k := k + 1;
    }
  }

  lemma EntryBytes(model: seq<int>, t: Stage, k: nat, p: nat)
    requires p == EntriesOff(t) + 4 + 7 * k
    ensures EntryAt(model, t, k) == Entry(GetB(model, p) + 256 * GetB(model, p + 1), GetB(model, p + 2),
      GetB(model, p + 3) + 256 * GetB(model, p + 4), GetB(model, p + 5) + 256 * GetB(model, p + 6))
  {
  }

  lemma ScoreNone(model: seq<int>, t: Stage, key: seq<int>)
    requires InDomain(t, key)
    ensures forall c: nat :: Score(model, t, key, c, 0) == 0
  {
  }

  lemma ScoreStep(model: seq<int>, t: Stage, key: seq<int>, k: nat)
    requires InDomain(t, key)
    ensures var e := EntryAt(model, t, k);
      forall c: nat :: Score(model, t, key, c, k + 1) == Score(model, t, key, c, k)
        + (if e.head == t.head && e.cls == c && Fires(model, t, key, e.unit) then e.weight else 0)
  {
  }

  /** `infer`: one decision. `act` and `z` are the global scratch arrays. */
  method Infer(model: seq<int>, t: Stage, key: seq<int>, act: array<bool>, z: array<nat>) returns (r: int)
    requires WellFormed(model, t) && |key| >= t.fields
    requires act.Length >= t.units && z.Length >= t.classes
    modifies act, z
    ensures Decides(model, t, key, r)
  {
    hide Score, Fires;
    var ok := CheckKey(t, key);
    if !ok {
      return -1;
    }
    var q := Match(model, t, key, act);
    Add(model, t, key, act, z);
    var best, bi := z[0], 0;
    var c := 1;
    while c < t.classes
      invariant 1 <= c <= t.classes && 0 <= bi < c && best == z[bi]
      invariant forall d :: 0 <= d < c ==> z[d] <= best
      invariant forall d :: 0 <= d < bi ==> z[d] < best
    {
      if z[c] > best {
        best, bi := z[c], c;
      }
      c := c + 1;
    }
    r := bi;
  }

  // ---------- the net is the table ----------

  /** A table: one class per key of the domain. */
  type Table = seq<int> -> nat

  /**
   A constructed net: each unit has exactly one weight for the head, equal to one, on its
   own class `classOf[j]`; every key of the domain lies in exactly one unit's cube.
   */
  ghost predicate IsNet(model: seq<int>, t: Stage, classOf: seq<nat>) {
    && WellFormed(model, t) && |classOf| == t.units
    && (forall e :: 0 <= e < EntryCount(model, t) && EntryAt(model, t, e).head == t.head ==>
          EntryAt(model, t, e).weight == 1 && EntryAt(model, t, e).cls == classOf[EntryAt(model, t, e).unit])
    && (forall j :: 0 <= j < t.units ==> HasEntry(model, t, j))
    && (forall e, g :: 0 <= e < g < EntryCount(model, t) && SameUnit(EntryAt(model, t, e), EntryAt(model, t, g)) ==>
          EntryAt(model, t, e).head != t.head)
  }

  ghost predicate HasEntry(model: seq<int>, t: Stage, j: nat) {
    exists e :: 0 <= e < EntryCount(model, t) && EntryAt(model, t, e).head == t.head && EntryAt(model, t, e).unit == j
  }

  predicate SameUnit(e: Entry, g: Entry) {
    e.unit == g.unit && e.head == g.head
  }

  /** Unit `j` is the one cube of the net that holds the key. */
  ghost predicate OnlyCube(model: seq<int>, t: Stage, key: seq<int>, j: nat)
    requires InDomain(t, key)
  {
    j < t.units && forall i :: 0 <= i < t.units ==> (Fires(model, t, key, i) <==> i == j)
  }

  /** With one firing unit, the scores are one for its class and zero elsewhere. */
  lemma {:induction false} ScoreOfCube(model: seq<int>, t: Stage, key: seq<int>, classOf: seq<nat>, j: nat, g: nat, n: nat, c: nat)
    requires IsNet(model, t, classOf) && InDomain(t, key) && OnlyCube(model, t, key, j)
    requires n <= EntryCount(model, t) && g < EntryCount(model, t)
    requires EntryAt(model, t, g).head == t.head && EntryAt(model, t, g).unit == j
    ensures Score(model, t, key, c, n) == if g < n && c == classOf[j] then 1 else 0
  {
    hide Fires, Bytes, EntryAt;
    if n > 0 {
      ScoreOfCube(model, t, key, classOf, j, g, n - 1, c);
      var e, f := EntryAt(model, t, n - 1), EntryAt(model, t, g);
      var same := SameUnit(e, f) || SameUnit(f, e);
      assert same <==> e.head == t.head && e.unit == j;
    }
  }

  /** The net answers the class of the cube that holds the key. */
  lemma {:induction false} NetAnswersCube(model: seq<int>, t: Stage, key: seq<int>, classOf: seq<nat>, j: nat, r: int)
    requires IsNet(model, t, classOf) && InDomain(t, key) && OnlyCube(model, t, key, j)
    requires Decides(model, t, key, r)
    ensures r == classOf[j]
  {
    assert HasEntry(model, t, j);
    var g :| 0 <= g < EntryCount(model, t) && EntryAt(model, t, g).head == t.head && EntryAt(model, t, g).unit == j;
    var n := EntryCount(model, t);
    assert classOf[j] < t.classes;
    ScoreOfCube(model, t, key, classOf, j, g, n, classOf[j]);
    ScoreOfCube(model, t, key, classOf, j, g, n, r);
    hide Score, Fires, Bytes, EntryAt, IsNet;
    assert Score(model, t, key, classOf[j], n) <= Score(model, t, key, r, n);
  }

  lemma {:induction false} CubeIsBest(model: seq<int>, t: Stage, key: seq<int>, classOf: seq<nat>, j: nat)
    requires IsNet(model, t, classOf) && InDomain(t, key) && OnlyCube(model, t, key, j)
    ensures Decides(model, t, key, classOf[j])
  {
    assert HasEntry(model, t, j);
    var g :| 0 <= g < EntryCount(model, t) && EntryAt(model, t, g).head == t.head && EntryAt(model, t, g).unit == j;
    assert classOf[j] < t.classes;
    forall d: nat
      ensures Score(model, t, key, d, EntryCount(model, t)) == if d == classOf[j] then 1 else 0
    {
      ScoreOfCube(model, t, key, classOf, j, g, EntryCount(model, t), d);
    }
    hide Score, Fires, Bytes, EntryAt, IsNet;
  }

  // ---------- only the stage's fields matter ----------

  lemma FiresPrefix(model: seq<int>, t: Stage, key: seq<int>, other: seq<int>, j: nat)
    requires InDomain(t, key) && InDomain(t, other) && key[..t.fields] == other[..t.fields]
    ensures Fires(model, t, key, j) == Fires(model, t, other, j)
  {
    hide FieldAccepts;
    forall f | 0 <= f < t.fields ensures key[f] == other[f] {
      assert key[f] == key[..t.fields][f];
    }
  }

  lemma {:induction false} ScorePrefix(model: seq<int>, t: Stage, key: seq<int>, other: seq<int>, c: nat, n: nat)
    requires InDomain(t, key) && InDomain(t, other) && key[..t.fields] == other[..t.fields]
    ensures Score(model, t, key, c, n) == Score(model, t, other, c, n)
    decreases n
  {
    hide Fires, EntryAt;
    if n > 0 {
      ScorePrefix(model, t, key, other, c, n - 1);
      FiresPrefix(model, t, key, other, EntryAt(model, t, n - 1).unit);
    }
  }

  /** What stands in a key behind the stage's fields plays no part in the decision. */
  lemma {:induction false} DecidesPrefix(model: seq<int>, t: Stage, key: seq<int>, other: seq<int>, r: int)
    requires |key| >= t.fields && |other| >= t.fields && key[..t.fields] == other[..t.fields]
    ensures InDomain(t, key) == InDomain(t, other)
    ensures Decides(model, t, key, r) == Decides(model, t, other, r)
  {
    SameDomain(t, key, other);
    if InDomain(t, key) {
      forall c: nat ensures Score(model, t, key, c, EntryCount(model, t)) == Score(model, t, other, c, EntryCount(model, t)) {
        ScorePrefix(model, t, key, other, c, EntryCount(model, t));
      }
      hide Score, EntryCount;
    }
  }

  lemma SameDomain(t: Stage, key: seq<int>, other: seq<int>)
    requires |key| >= t.fields && |other| >= t.fields && key[..t.fields] == other[..t.fields]
    ensures InDomain(t, key) == InDomain(t, other)
  {
    forall f | 0 <= f < t.fields ensures key[f] == other[f] {
      assert key[f] == key[..t.fields][f];
    }
  }

  /** A key of exactly the stage's fields. */
  predicate IsKey(t: Stage, key: seq<int>) {
    |key| == t.fields && InDomain(t, key)
  }

  /** The cubes are disjoint, cover the domain, and carry the table's classes. */
  ghost predicate Represents(model: seq<int>, t: Stage, classOf: seq<nat>, table: Table) {
    IsNet(model, t, classOf) && forall key: seq<int> :: IsKey(t, key) ==> HasCube(model, t, key, classOf, table(key))
  }

  ghost predicate HasCube(model: seq<int>, t: Stage, key: seq<int>, classOf: seq<nat>, c: nat)
    requires InDomain(t, key) && |classOf| == t.units
  {
    exists j: nat :: OnlyCube(model, t, key, j) && classOf[j] == c
  }

  /** Net equals table: on the domain the decision is the table's class, outside it is -1. */
  lemma {:induction false} NetEqualsTable(model: seq<int>, t: Stage, classOf: seq<nat>, table: Table, key: seq<int>, r: int)
    requires Represents(model, t, classOf, table) && |key| >= t.fields
    ensures Decides(model, t, key, r) <==> r == if InDomain(t, key) then table(key[..t.fields]) else -1
  {
    hide Decides, HasEntry, EntryAt, Fires;
    var k := key[..t.fields];
    DecidesPrefix(model, t, key, k, r);
    if InDomain(t, key) {
      assert HasCube(model, t, k, classOf, table(k));
      var j: nat :| OnlyCube(model, t, k, j) && classOf[j] == table(k);
      CubeIsBest(model, t, k, classOf, j);
      if Decides(model, t, k, r) {
        NetAnswersCube(model, t, k, classOf, j, r);
      }
    } else {
      OutsideIsNone(model, t, key, r);
    }
  }

  lemma OutsideIsNone(model: seq<int>, t: Stage, key: seq<int>, r: int)
    requires !InDomain(t, key)
    ensures Decides(model, t, key, r) <==> r == -1
  {
  }

  // ---------- the self-test ----------

  /** One packed case: stage and head pick the Stage; four key bytes; a two-byte answer. */
  datatype Case = Case(stage: nat, head: nat, key: seq<int>, want: int)

  function CaseAt(cases: seq<int>, i: nat): Case {
    Case(GetB(cases, 8 * i), GetB(cases, 8 * i + 1),
         [GetB(cases, 8 * i + 2), GetB(cases, 8 * i + 3), GetB(cases, 8 * i + 4), GetB(cases, 8 * i + 5)],
         GetB(cases, 8 * i + 6) + 256 * GetB(cases, 8 * i + 7))
  }

  /** The stage tables, by stage and head. */
  type Stages = map<(nat, nat), Stage>

  ghost predicate StagesOk(model: seq<int>, st: Stages, cases: seq<int>, ncase: nat, na: nat, nz: nat) {
    forall i :: 0 <= i < ncase ==>
      var c := CaseAt(cases, i); (c.stage, c.head) in st && StageFits(model, st[(c.stage, c.head)], na, nz)
  }

  ghost predicate StageFits(model: seq<int>, t: Stage, na: nat, nz: nat) {
    WellFormed(model, t) && t.fields <= 4 && t.units <= na && t.classes <= nz
  }

  ghost predicate CasePasses(model: seq<int>, st: Stages, c: Case) {
    (c.stage, c.head) in st && Decides(model, st[(c.stage, c.head)], c.key, c.want)
  }

  /** `main`: run every case, exit with whether any was wrong.  When the cases enumerate the domains
      of all stages, that is whether every net equals its table. */
  method SelfTest(model: seq<int>, st: Stages, cases: seq<int>, ncase: nat, act: array<bool>, z: array<nat>,
                  ghost tables: Tables) returns (exit: int)
    requires StagesOk(model, st, cases, ncase, act.Length, z.Length)
    modifies act, z
    ensures exit == 0 <==> forall i :: 0 <= i < ncase ==> CasePasses(model, st, CaseAt(cases, i))
    ensures Enumerates(cases, ncase, st, tables) ==> (exit == 0 <==> NetsAreTables(model, st, tables))
  {
    hide Decides, WellFormed, GetB;
    var bad, i := 0, 0;
    while i < ncase
      invariant 0 <= i <= ncase && 0 <= bad
      invariant bad == 0 <==> forall k :: 0 <= k < i ==> CasePasses(model, st, CaseAt(cases, k))
    {
      var c := CaseAt(cases, i);
      assert StageFits(model, st[(c.stage, c.head)], act.Length, z.Length);
      var got := Infer(model, st[(c.stage, c.head)], c.key, act, z);
      OnlyAnswer(model, st[(c.stage, c.head)], c.key, got);
      if got != c.want {
        bad := bad + 1;
      }
      i := i + 1;
    }
    exit := if bad != 0 then 1 else 0;
    if Enumerates(cases, ncase, st, tables) {
      PassIsAgreement(model, st, cases, ncase, tables);
    }
  }

  lemma {:induction false} OnlyAnswer(model: seq<int>, t: Stage, key: seq<int>, r: int)
    requires Decides(model, t, key, r)
    ensures forall s :: Decides(model, t, key, s) <==> s == r
  {
    hide Decides;
    forall s | Decides(model, t, key, s)
      ensures s == r
    {
      DecisionUnique(model, t, key, r, s);
    }
  }

  /** A table for every stage and head. */
  type Tables = map<(nat, nat), Table>

  /** A key as a case packs it: four places, zeros behind the stage's fields. */
  function Packed(key: seq<int>): seq<int> {
    key + seq<int>(if |key| < 4 then 4 - |key| else 0, i => 0)
  }

  /** Case `i` asks for a key of its stage's domain, and wants its table's class. */
  ghost predicate AsksTable(c: Case, st: Stages, tables: Tables) {
    && (c.stage, c.head) in st && (c.stage, c.head) in tables
    && var t := st[(c.stage, c.head)];
       InDomain(t, c.key) && c.want == tables[(c.stage, c.head)](c.key[..t.fields])
  }

  ghost predicate IsCase(cases: seq<int>, ncase: nat, sh: (nat, nat), key: seq<int>) {
    exists i :: 0 <= i < ncase && CaseAt(cases, i).stage == sh.0 && CaseAt(cases, i).head == sh.1
      && CaseAt(cases, i).key == Packed(key)
  }

  /** The cases are the tables: each takes its answer there, and every key of every stage and head is asked. */
  ghost predicate Enumerates(cases: seq<int>, ncase: nat, st: Stages, tables: Tables) {
    && (forall sh :: sh in st ==> sh in tables && st[sh].fields <= 4)
    && (forall i :: 0 <= i < ncase ==> AsksTable(CaseAt(cases, i), st, tables))
    && (forall sh, key: seq<int> :: sh in st && IsKey(st[sh], key) ==> IsCase(cases, ncase, sh, key))
  }

  /** On every key of every stage and head the net decides what the table says. */
  ghost predicate NetsAreTables(model: seq<int>, st: Stages, tables: Tables) {
    forall sh, key: seq<int> :: sh in st && sh in tables && InDomain(st[sh], key) ==>
      Decides(model, st[sh], key, tables[sh](key[..st[sh].fields]))
  }

  /** Over cases that enumerate the tables, all pass exactly when every net is its table everywhere. */
  lemma {:induction false} PassIsAgreement(model: seq<int>, st: Stages, cases: seq<int>, ncase: nat, tables: Tables)
    requires Enumerates(cases, ncase, st, tables)
    ensures (forall i :: 0 <= i < ncase ==> CasePasses(model, st, CaseAt(cases, i)))
      <==> NetsAreTables(model, st, tables)
  {
    hide Decides, CaseAt;
    if forall i :: 0 <= i < ncase ==> CasePasses(model, st, CaseAt(cases, i)) {
      forall sh, key: seq<int> | sh in st && InDomain(st[sh], key)
        ensures Decides(model, st[sh], key, tables[sh](key[..st[sh].fields]))
      {
        PassDecides(model, st, cases, ncase, tables, sh, key);
      }
    } else {
      var i :| 0 <= i < ncase && !CasePasses(model, st, CaseAt(cases, i));
      var c := CaseAt(cases, i);
      assert AsksTable(c, st, tables);
      assert !Decides(model, st[(c.stage, c.head)], c.key, c.want);
    }
  }

  /** One key: its case passed, and padding does not matter. */
  lemma {:induction false} PassDecides(model: seq<int>, st: Stages, cases: seq<int>, ncase: nat, tables: Tables,
                                       sh: (nat, nat), key: seq<int>)
    requires Enumerates(cases, ncase, st, tables) && sh in st && InDomain(st[sh], key)
    requires forall i :: 0 <= i < ncase ==> CasePasses(model, st, CaseAt(cases, i))
    ensures Decides(model, st[sh], key, tables[sh](key[..st[sh].fields]))
  {
    hide Decides, CaseAt;
    var t := st[sh];
    var k := key[..t.fields];
    SameDomain(t, key, k);
    assert IsCase(cases, ncase, sh, k);
    var i :| 0 <= i < ncase && CaseAt(cases, i).stage == sh.0 && CaseAt(cases, i).head == sh.1
      && CaseAt(cases, i).key == Packed(k);
    var c := CaseAt(cases, i);
    assert CasePasses(model, st, c) && AsksTable(c, st, tables);
    assert Packed(k)[..t.fields] == k;
    DecidesPrefix(model, t, key, Packed(k), c.want);
  }

  /** Two cases enumerate a stage with one field of two values: the other places hold zeros. */
  lemma TwoCases(st: Stages, tables: Tables, cases: seq<int>)
    requires st == map[(3, 1) := Stage(1, 2, 0, 1, [2], 2, 1)] && cases == [3, 1, 0, 0, 0, 0, 1, 0, 3, 1, 1, 0, 0, 0, 0, 0]
    requires tables.Keys == {(3, 1)} && tables[(3, 1)]([0]) == 1 && tables[(3, 1)]([1]) == 0
    ensures Enumerates(cases, 2, st, tables)
  {
    hide CaseAt;
    TwoCasesAre(cases);
    var t := st[(3, 1)];
    forall key: seq<int> | IsKey(t, key)
      ensures IsCase(cases, 2, (3, 1), key)
    {
      OneField(key);
      assert CaseAt(cases, key[0]).key == Packed(key);
    }
  }

  lemma OneField(key: seq<int>)
    requires |key| == 1
    ensures key == [key[0]] && Packed(key) == [key[0], 0, 0, 0]
  {
  }

  lemma TwoCasesAre(cases: seq<int>)
    requires cases == [3, 1, 0, 0, 0, 0, 1, 0, 3, 1, 1, 0, 0, 0, 0, 0]
    ensures CaseAt(cases, 0) == Case(3, 1, [0, 0, 0, 0], 1) && CaseAt(cases, 1) == Case(3, 1, [1, 0, 0, 0], 0)
    ensures [0, 0, 0, 0][..1] == [0] && [1, 0, 0, 0][..1] == [1]
  {
  }
}
