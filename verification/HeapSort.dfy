/**
 `qsort` is a heap sort over fixed-size byte records.  The sift is specified by a function
 on the sequence of records; its properties are proved there, and the loops on the byte
 array are shown to compute it.
 */
module HeapSort {
  import opened Arith

  type Rec = seq<nat>
  type Comparator = (Rec, Rec) -> int

  /** The comparator orders all records, ties allowed (section 7.20.5 of ISO/IEC 9899:1999). */
  ghost predicate IsPreorder(cmp: Comparator) {
    && (forall a, b :: cmp(a, b) <= 0 <==> cmp(b, a) >= 0)
    && (forall a, b, c :: cmp(a, b) <= 0 && cmp(b, c) <= 0 ==> cmp(a, c) <= 0)
  }

  function Swapped(r: seq<Rec>, i: nat, j: nat): seq<Rec>
    requires i < |r| && j < |r|
  {
    r[i := r[j]][j := r[i]]
  }

  /** The child the sift compares with: the greater one, the left one on ties. */
  function Child(r: seq<Rec>, n: nat, i: nat, cmp: Comparator): (c: nat)
    requires n <= |r| && 2 * i + 1 < n
    ensures 2 * i + 1 <= c <= 2 * i + 2 && c < n
  {
    var c := 2 * i + 1;
    if c + 1 < n && cmp(r[c], r[c + 1]) < 0 then c + 1 else c
  }

  /** What stands where after the loop carries the record at `i` below every larger child, among the first `n`. */
  function Sifted(r: seq<Rec>, n: nat, i: nat, cmp: Comparator): (s: seq<Rec>)
    requires n <= |r| && i < |r|
    ensures |s| == |r|
    decreases n - i
  {
    if 2 * i + 1 >= n then r
    else
      var c := Child(r, n, i, cmp);
      if cmp(r[i], r[c]) >= 0 then r else Sifted(Swapped(r, i, c), n, c, cmp)
  }

  /** How many comparisons it makes. */
  function SiftCost(r: seq<Rec>, n: nat, i: nat, cmp: Comparator): nat
    requires n <= |r| && i < |r|
    decreases n - i
  {
    if 2 * i + 1 >= n then 0
    else
      var c := Child(r, n, i, cmp);
      (if 2 * i + 2 < n then 2 else 1)
      + (if cmp(r[i], r[c]) >= 0 then 0 else SiftCost(Swapped(r, i, c), n, c, cmp))
  }

  // ---------- what a sift keeps ----------

  lemma SwapPermutes(r: seq<Rec>, i: nat, j: nat)
    requires i < |r| && j < |r|
    ensures multiset(Swapped(r, i, j)) == multiset(r)
  {
  }

  lemma {:induction false} SiftPermutes(r: seq<Rec>, n: nat, i: nat, cmp: Comparator)
    requires n <= |r| && i < |r|
    ensures multiset(Sifted(r, n, i, cmp)) == multiset(r)
    ensures Sifted(r, n, i, cmp)[n..] == r[n..]
    decreases n - i
  {
    if 2 * i + 1 < n {
      var c := Child(r, n, i, cmp);
      if cmp(r[i], r[c]) < 0 {
        SwapPermutes(r, i, c);
        SiftPermutes(Swapped(r, i, c), n, c, cmp);
        assert Swapped(r, i, c)[n..] == r[n..];
      }
    }
  }

  /** Every one of the first `n` records is at most `x`. */
  ghost predicate AllAtMost(r: seq<Rec>, n: nat, x: Rec, cmp: Comparator)
    requires n <= |r|
  {
    forall k :: 0 <= k < n ==> cmp(r[k], x) <= 0
  }

  lemma {:induction false} SiftKeepsBound(r: seq<Rec>, n: nat, i: nat, x: Rec, cmp: Comparator)
    requires n <= |r| && i < |r| && AllAtMost(r, n, x, cmp)
    ensures AllAtMost(Sifted(r, n, i, cmp), n, x, cmp)
    decreases n - i
  {
    if 2 * i + 1 < n {
      var c := Child(r, n, i, cmp);
      if cmp(r[i], r[c]) < 0 {
        SiftKeepsBound(Swapped(r, i, c), n, c, x, cmp);
      }
    }
  }

  // ---------- the heap order ----------

  function Parent(k: nat): nat
    requires k > 0
  {
    (k - 1) / 2
  }

  /** Every element from `lo` on is at least its children. */
  ghost predicate IsHeap(r: seq<Rec>, n: nat, lo: nat, cmp: Comparator) {
    n <= |r| && forall k :: 0 < k < n && lo <= Parent(k) ==> cmp(r[Parent(k)], r[k]) >= 0
  }

  /** The same except at `i`, whose parent still covers its children. */
  ghost predicate AlmostHeap(r: seq<Rec>, n: nat, lo: nat, i: nat, cmp: Comparator) {
    && n <= |r|
    && (forall k :: 0 < k < n && lo <= Parent(k) && Parent(k) != i ==> cmp(r[Parent(k)], r[k]) >= 0)
    && (forall k :: 0 < k < n && Parent(k) == i && 0 < i && lo <= Parent(i) ==> cmp(r[Parent(i)], r[k]) >= 0)
  }

  /** A sift repairs the one place that may be out of order. */
  lemma {:induction false} SiftRepairs(r: seq<Rec>, n: nat, lo: nat, i: nat, cmp: Comparator)
    requires IsPreorder(cmp) && i < |r| && lo <= i && AlmostHeap(r, n, lo, i, cmp)
    ensures IsHeap(Sifted(r, n, i, cmp), n, lo, cmp)
    decreases n - i
  {
    if 2 * i + 1 < n {
      var c := Child(r, n, i, cmp);
      ChildIsGreatest(r, n, i, cmp);
      if cmp(r[i], r[c]) < 0 {
        SwapMovesDown(r, n, lo, i, c, cmp);
        SiftRepairs(Swapped(r, i, c), n, lo, c, cmp);
      } else {
        forall k | 0 < k < n && lo <= Parent(k)
          ensures cmp(r[Parent(k)], r[k]) >= 0
        {
        }
      }
    }
  }

  lemma {:induction false} ChildIsGreatest(r: seq<Rec>, n: nat, i: nat, cmp: Comparator)
    requires IsPreorder(cmp) && n <= |r| && 2 * i + 1 < n
    ensures forall k :: 0 < k < n && Parent(k) == i ==> cmp(r[k], r[Child(r, n, i, cmp)]) <= 0
    ensures cmp(r[i], r[Child(r, n, i, cmp)]) >= 0 ==> forall k :: 0 < k < n && Parent(k) == i ==> cmp(r[i], r[k]) >= 0
  {
    var c := Child(r, n, i, cmp);
    assert cmp(r[c], r[c]) <= 0;
    forall k | 0 < k < n && Parent(k) == i
      ensures cmp(r[k], r[c]) <= 0
      ensures cmp(r[i], r[c]) >= 0 ==> cmp(r[i], r[k]) >= 0
    {
      assert k == 2 * i + 1 || k == 2 * i + 2;
      if cmp(r[i], r[c]) >= 0 {
        assert cmp(r[c], r[i]) <= 0;
      }
    }
  }

  /** Swapping with the greater child moves the place that may be out of order down to it. */
  lemma {:induction false} SwapMovesDown(r: seq<Rec>, n: nat, lo: nat, i: nat, c: nat, cmp: Comparator)
    requires IsPreorder(cmp) && i < |r| && lo <= i && AlmostHeap(r, n, lo, i, cmp)
    requires 0 < c < n && Parent(c) == i && cmp(r[i], r[c]) < 0
    requires forall k :: 0 < k < n && Parent(k) == i ==> cmp(r[k], r[c]) <= 0
    ensures AlmostHeap(Swapped(r, i, c), n, lo, c, cmp)
  {
    var s := Swapped(r, i, c);
    forall k | 0 < k < n && lo <= Parent(k) && Parent(k) != c
      ensures cmp(s[Parent(k)], s[k]) >= 0
    {
      PairAfterSwap(r, n, lo, i, c, cmp, k);
    }
    forall k | 0 < k < n && Parent(k) == c && lo <= Parent(c)
      ensures cmp(s[Parent(c)], s[k]) >= 0
    {
      assert s[i] == r[c] && s[k] == r[k];
    }
  }

  lemma PairAfterSwap(r: seq<Rec>, n: nat, lo: nat, i: nat, c: nat, cmp: Comparator, k: nat)
    requires IsPreorder(cmp) && i < |r| && lo <= i && AlmostHeap(r, n, lo, i, cmp)
    requires 0 < c < n && Parent(c) == i && cmp(r[i], r[c]) < 0
    requires forall k :: 0 < k < n && Parent(k) == i ==> cmp(r[k], r[c]) <= 0
    requires 0 < k < n && lo <= Parent(k) && Parent(k) != c
    ensures var s := Swapped(r, i, c); cmp(s[Parent(k)], s[k]) >= 0
  {
  }

  /** The root of a heap is a greatest element. */
  lemma {:induction false} RootIsGreatest(r: seq<Rec>, n: nat, k: nat, cmp: Comparator)
    requires IsPreorder(cmp) && IsHeap(r, n, 0, cmp) && k < n
    ensures cmp(r[k], r[0]) <= 0
    decreases k
  {
    if k == 0 {
      assert cmp(r[0], r[0]) <= 0;
    } else {
      RootIsGreatest(r, n, Parent(k), cmp);
      assert cmp(r[Parent(k)], r[k]) >= 0;
    }
  }

  // ---------- the cost ----------

  /** The floor of the binary logarithm, zero up to one. */
  function Log2(n: nat): nat {
    if n < 2 then 0 else 1 + Log2(n / 2)
  }

  lemma {:induction false} Log2Mono(m: nat, n: nat)
    requires m <= n
    ensures Log2(m) <= Log2(n)
  {
    if m >= 2 {
      Log2Mono(m / 2, n / 2);
    }
  }

  /** A sift below `i` makes at most two comparisons a level. */
  lemma {:induction false} SiftCostBound(r: seq<Rec>, n: nat, i: nat, cmp: Comparator)
    requires n <= |r| && i < |r|
    ensures SiftCost(r, n, i, cmp) <= 2 * Log2(n / (i + 1))
    decreases n - i
  {
    if 2 * i + 1 < n {
      var c := Child(r, n, i, cmp);
      HalfDepth(n, i, c);
      if cmp(r[i], r[c]) < 0 {
        SiftCostBound(Swapped(r, i, c), n, c, cmp);
        Log2Mono(n / (c + 1), n / (i + 1) / 2);
      }
    }
  }

  lemma {:induction false} HalfDepth(n: nat, i: nat, c: nat)
    requires 2 * i + 1 <= c < n
    ensures n / (i + 1) >= 2 && n / (c + 1) <= n / (i + 1) / 2
  {
    var d, q := i + 1, n / (c + 1);
    assert q * (c + 1) <= n;
    MulMono(q, q, 2 * d, c + 1);
    MulAssoc(q, 2, d);
    QuotientAtLeast(n, d, 2 * q);
    QuotientAtLeast(n, d, 2);
  }

  lemma {:induction false} QuotientAtLeast(n: nat, d: nat, q: nat)
    requires d > 0 && q * d <= n
    ensures n / d >= q
  {
    var p := n / d;
    assert n < p * d + d;
    Distrib(p, 1, d);
    if p < q {
      MulLe(p + 1, q, d);
    }
  }

  /** Any sift of a heap inside `n` elements. */
  lemma {:induction false} SiftCostAtMost(r: seq<Rec>, m: nat, n: nat, i: nat, cmp: Comparator)
    requires m <= n <= |r| && i < |r|
    ensures SiftCost(r, m, i, cmp) <= 2 * Log2(n)
  {
    SiftCostBound(r, m, i, cmp);
    QuotientAtMost(m, i + 1);
    Log2Mono(m / (i + 1), n);
  }

  lemma {:induction false} QuotientAtMost(n: nat, d: nat)
    requires d > 0
    ensures n / d <= n
  {
    var p := n / d;
    assert p * d <= n;
    MulGrows(p, d);
  }

  // ---------- the two phases ----------

  /** From `i` on the records are in order and none before them is greater. */
  ghost predicate SortedFrom(r: seq<Rec>, i: nat, cmp: Comparator) {
    && i <= |r|
    && (forall a, b :: i <= a < b < |r| ==> cmp(r[a], r[b]) <= 0)
    && (forall a, b :: 0 <= a < i <= b < |r| ==> cmp(r[a], r[b]) <= 0)
  }

  ghost predicate Sorted(r: seq<Rec>, cmp: Comparator) {
    forall a, b :: 0 <= a < b < |r| ==> cmp(r[a], r[b]) <= 0
  }

  /** One extraction: the root goes behind the heap, the heap is repaired. */
  lemma {:induction false} ExtractStep(r: seq<Rec>, i: nat, cmp: Comparator)
    requires IsPreorder(cmp) && 0 < i < |r| && IsHeap(r, i + 1, 0, cmp) && SortedFrom(r, i + 1, cmp)
    ensures var s := Sifted(Swapped(r, 0, i), i, 0, cmp);
      IsHeap(s, i, 0, cmp) && SortedFrom(s, i, cmp) && multiset(s) == multiset(r)
  {
    var w := Swapped(r, 0, i);
    var s := Sifted(w, i, 0, cmp);
    SwapPermutes(r, 0, i);
    SiftPermutes(w, i, 0, cmp);
    SwapLeavesAlmost(r, i, cmp);
    SiftRepairs(w, i, 0, 0, cmp);
    forall b | i <= b < |r|
      ensures AllAtMost(s, i, w[b], cmp)
    {
      BehindIsGreater(r, i, b, cmp);
      SiftKeepsBound(w, i, 0, w[b], cmp);
    }
    hide Sifted, IsHeap;
    TailSorted(r, s, i, cmp);
  }

  lemma TailSorted(r: seq<Rec>, s: seq<Rec>, i: nat, cmp: Comparator)
    requires 0 < i < |r| && |s| == |r| && s[i..] == Swapped(r, 0, i)[i..] && SortedFrom(r, i + 1, cmp)
    requires forall b :: i <= b < |r| ==> AllAtMost(s, i, Swapped(r, 0, i)[b], cmp)
    ensures SortedFrom(s, i, cmp)
  {
  }

  lemma {:induction false} SwapLeavesAlmost(r: seq<Rec>, i: nat, cmp: Comparator)
    requires 0 < i < |r| && IsHeap(r, i + 1, 0, cmp)
    ensures AlmostHeap(Swapped(r, 0, i), i, 0, 0, cmp)
  {
  }

  /** After the swap, everything in the heap part is at most each record behind it. */
  lemma {:induction false} BehindIsGreater(r: seq<Rec>, i: nat, b: nat, cmp: Comparator)
    requires IsPreorder(cmp) && 0 < i <= b < |r| && IsHeap(r, i + 1, 0, cmp) && SortedFrom(r, i + 1, cmp)
    ensures AllAtMost(Swapped(r, 0, i), i, Swapped(r, 0, i)[b], cmp)
  {
    var w := Swapped(r, 0, i);
    forall k | 0 <= k < i
      ensures cmp(w[k], w[b]) <= 0
    {
      var j := if k == 0 then i else k;
      assert w[k] == r[j];
      if b == i {
        RootIsGreatest(r, i + 1, j, cmp);
      }
    }
  }

  // ---------- the byte array ----------

  /** The `i`-th record of `sz` bytes. */
  function RecAt(b: seq<nat>, sz: nat, i: nat): Rec
    requires i * sz + sz <= |b|
  {
    b[i * sz..i * sz + sz]
  }

  lemma {:induction false} RecFits(n: nat, sz: nat, i: nat)
    requires i < n
    ensures i * sz + sz <= n * sz
  {
    MulLe(i + 1, n, sz);
    Distrib(i, 1, sz);
  }

  /** The bytes as records. */
  function Records(b: seq<nat>, n: nat, sz: nat): (r: seq<Rec>)
    requires n * sz <= |b|
    ensures |r| == n
  {
    seq(n, i requires 0 <= i < n => RecFits(n, sz, i); RecAt(b, sz, i))
  }

  lemma RecordAt(b: seq<nat>, n: nat, sz: nat, i: nat)
    requires n * sz <= |b| && i < n
    ensures i * sz + sz <= |b| && Records(b, n, sz)[i] == RecAt(b, sz, i)
  {
    RecFits(n, sz, i);
  }

  /** Records at different places share no byte. */
  lemma {:induction false} RecsApart(sz: nat, i: nat, j: nat)
    requires i != j
    ensures i * sz + sz <= j * sz || j * sz + sz <= i * sz
  {
    if i < j {
      RecFits(j, sz, i);
    } else {
      RecFits(i, sz, j);
    }
  }

  /** Only the two records' bytes differ. */
  ghost predicate OthersKept(b: seq<nat>, c: seq<nat>, p: nat, q: nat, sz: nat) {
    |b| == |c| && forall k :: 0 <= k < |b| && !(p <= k < p + sz) && !(q <= k < q + sz) ==> c[k] == b[k]
  }

  /** `_unisa_swap`: exchange two records byte by byte. */
  method SwapBytes(base: array<nat>, p: nat, q: nat, sz: nat)
    requires p + sz <= base.Length && q + sz <= base.Length && (p + sz <= q || q + sz <= p)
    modifies base
    ensures base[p..p + sz] == old(base[q..q + sz]) && base[q..q + sz] == old(base[p..p + sz])
    ensures OthersKept(old(base[..]), base[..], p, q, sz)
  {
    ghost var b := base[..];
    var i := 0;
    while i < sz
      invariant 0 <= i <= sz && PartlySwapped(b, base[..], p, q, sz, i)
    {
      base[p + i], base[q + i] := base[q + i], base[p + i];
      i := i + 1;
    }
    WhollySwapped(b, base[..], p, q, sz);
  }

  /** The first `i` bytes are exchanged. */
  ghost predicate PartlySwapped(b: seq<nat>, c: seq<nat>, p: nat, q: nat, sz: nat, i: nat)
    requires p + sz <= |b| && q + sz <= |b|
  {
    && OthersKept(b, c, p, q, sz)
    && (forall k {:trigger c[k]} :: p <= k < p + sz ==> c[k] == if k < p + i then b[q + (k - p)] else b[k])
    && (forall k {:trigger c[k]} :: q <= k < q + sz ==> c[k] == if k < q + i then b[p + (k - q)] else b[k])
  }

  lemma WhollySwapped(b: seq<nat>, c: seq<nat>, p: nat, q: nat, sz: nat)
    requires p + sz <= |b| && q + sz <= |b| && PartlySwapped(b, c, p, q, sz, sz)
    ensures c[p..p + sz] == b[q..q + sz] && c[q..q + sz] == b[p..p + sz]
  {
  }

  /** Swapping the bytes of two records swaps the records. */
  method SwapRecs(base: array<nat>, n: nat, sz: nat, i: nat, j: nat)
    requires n * sz == base.Length && i < n && j < n && i != j
    modifies base
    ensures Records(base[..], n, sz) == Swapped(old(Records(base[..], n, sz)), i, j)
  {
    hide Records, OthersKept, Swapped;
    RecFits(n, sz, i);
    RecFits(n, sz, j);
    RecsApart(sz, i, j);
    ghost var b := base[..];
    var p, q := i * sz, j * sz;
    SwapBytes(base, p, q, sz);
    SwapIsSwapped(b, base[..], n, sz, i, j, p, q);
  }

  lemma RecAtIs(b: seq<nat>, sz: nat, i: nat, p: nat)
    requires p == i * sz && p + sz <= |b|
    ensures RecAt(b, sz, i) == b[p..p + sz]
  {
  }

  lemma {:induction false} SwapIsSwapped(b: seq<nat>, c: seq<nat>, n: nat, sz: nat, i: nat, j: nat, p: nat, q: nat)
    requires n * sz == |b| == |c| && i < n && j < n && i != j && p == i * sz && q == j * sz
    requires p + sz <= |b| && q + sz <= |b|
    requires c[p..p + sz] == b[q..q + sz] && c[q..q + sz] == b[p..p + sz]
    requires OthersKept(b, c, p, q, sz)
    ensures Records(c, n, sz) == Swapped(Records(b, n, sz), i, j)
  {
    RecAtIs(b, sz, i, p);
    RecAtIs(b, sz, j, q);
    RecAtIs(c, sz, i, p);
    RecAtIs(c, sz, j, q);
    hide Records, RecAt;
    var r, s := Records(b, n, sz), Records(c, n, sz);
    RecordAt(b, n, sz, i);
    RecordAt(b, n, sz, j);
    forall k | 0 <= k < n
      ensures s[k] == Swapped(r, i, j)[k]
    {
      RecordAt(b, n, sz, k);
      RecordAt(c, n, sz, k);
      if k != i && k != j {
        RecsApart(sz, k, i);
        RecsApart(sz, k, j);
        UntouchedRec(b, c, sz, k);
      }
    }
  }

  lemma UntouchedRec(b: seq<nat>, c: seq<nat>, sz: nat, k: nat)
    requires |b| == |c| && k * sz + sz <= |b|
    requires forall x :: k * sz <= x < k * sz + sz ==> c[x] == b[x]
    ensures RecAt(c, sz, k) == RecAt(b, sz, k)
  {
  }

  /** The child to compare with, and the comparisons that took. */
  method PickChild(base: array<nat>, total: nat, n: nat, sz: nat, i: nat, cmp: Comparator) returns (c: nat)
    requires total * sz == base.Length && n <= total && 2 * i + 1 < n
    ensures c == Child(Records(base[..], total, sz), n, i, cmp)
  {
    hide Records;
    c := 2 * i + 1;
    RecordAt(base[..], total, sz, c);
    if c + 1 < n {
      RecordAt(base[..], total, sz, c + 1);
      if cmp(base[c * sz..c * sz + sz], base[(c + 1) * sz..(c + 1) * sz + sz]) < 0 {
        c := c + 1;
      }
    }
  }

  /** Is the element at least its child? */
  method InPlace(base: array<nat>, total: nat, sz: nat, i: nat, c: nat, cmp: Comparator) returns (ok: bool)
    requires total * sz == base.Length && i < total && c < total
    ensures ok == (cmp(Records(base[..], total, sz)[i], Records(base[..], total, sz)[c]) >= 0)
  {
    hide Records;
    RecordAt(base[..], total, sz, i);
    RecordAt(base[..], total, sz, c);
    ok := cmp(base[i * sz..i * sz + sz], base[c * sz..c * sz + sz]) >= 0;
  }

  /** `_unisa_sift`: computes the sift of the records, with its comparisons counted. */
  method Sift(base: array<nat>, total: nat, n: nat, sz: nat, i0: nat, cmp: Comparator) returns (ghost cost: nat)
    requires total * sz == base.Length && n <= total && i0 < total
    modifies base
    ensures Records(base[..], total, sz) == Sifted(old(Records(base[..], total, sz)), n, i0, cmp)
    ensures cost == SiftCost(old(Records(base[..], total, sz)), n, i0, cmp)
  {
    hide Records, Swapped, Child;
    var i := i0;
    cost := 0;
    ghost var r0 := Records(base[..], total, sz);
    while 2 * i + 1 < n
      invariant i < total
      invariant Sifted(Records(base[..], total, sz), n, i, cmp) == Sifted(r0, n, i0, cmp)
      invariant cost + SiftCost(Records(base[..], total, sz), n, i, cmp) == SiftCost(r0, n, i0, cmp)
      decreases n - i
    {
      var c := PickChild(base, total, n, sz, i, cmp);
      cost := cost + if 2 * i + 2 < n then 2 else 1;
      var ok := InPlace(base, total, sz, i, c, cmp);
      if ok {
        return;
      }
      SwapRecs(base, total, sz, i, c);
      i := c;
    }
  }

  /** The first phase: sift every inner element, from the last to the root. */
  method MakeHeap(base: array<nat>, n: nat, sz: nat, cmp: Comparator) returns (ghost cost: nat)
    requires IsPreorder(cmp) && n * sz == base.Length && n >= 2
    modifies base
    ensures var r, s := old(Records(base[..], n, sz)), Records(base[..], n, sz);
      multiset(s) == multiset(r) && IsHeap(s, n, 0, cmp) && cost <= n * Log2(n)
  {
    hide Records, Sifted, SiftCost, Log2, IsHeap, AlmostHeap, IsPreorder;
    ghost var r0 := Records(base[..], n, sz);
    var i := n / 2;
    cost := 0;
    LowerHalfIsHeap(r0, n, cmp);
    while i > 0
      invariant 0 <= i <= n / 2
      invariant multiset(Records(base[..], n, sz)) == multiset(r0) && IsHeap(Records(base[..], n, sz), n, i, cmp)
      invariant cost <= 2 * (n / 2 - i) * Log2(n)
    {
      i := i - 1;
      ghost var r := Records(base[..], n, sz);
      AlmostFromHeap(r, n, i, cmp);
      SiftRepairs(r, n, i, i, cmp);
      SiftPermutes(r, n, i, cmp);
      SiftCostAtMost(r, n, n, i, cmp);
      ghost var k := Sift(base, n, n, sz, i, cmp);
      cost := cost + k;
      OneMoreSift(n / 2 - i - 1, Log2(n));
    }
    HalfTwice(n, Log2(n));
  }

  lemma LowerHalfIsHeap(r: seq<Rec>, n: nat, cmp: Comparator)
    requires n <= |r|
    ensures IsHeap(r, n, n / 2, cmp)
  {
  }

  lemma AlmostFromHeap(r: seq<Rec>, n: nat, i: nat, cmp: Comparator)
    requires IsHeap(r, n, i + 1, cmp)
    ensures AlmostHeap(r, n, i, i, cmp)
  {
  }

  lemma OneMoreSift(a: nat, l: nat)
    ensures 2 * a * l + 2 * l == 2 * (a + 1) * l
  {
  }

  lemma HalfTwice(n: nat, l: nat)
    ensures 2 * (n / 2 - 0) * l <= n * l
  {
  }

  /** The second phase: extract the root to the end, until one element is left. */
  method Extract(base: array<nat>, n: nat, sz: nat, cmp: Comparator) returns (ghost cost: nat)
    requires IsPreorder(cmp) && n * sz == base.Length && n >= 2 && IsHeap(Records(base[..], n, sz), n, 0, cmp)
    modifies base
    ensures var r, s := old(Records(base[..], n, sz)), Records(base[..], n, sz);
      multiset(s) == multiset(r) && Sorted(s, cmp) && cost <= 2 * n * Log2(n)
  {
    hide Records, Sifted, SiftCost, Log2, IsHeap, SortedFrom, Sorted, Swapped, IsPreorder;
    ghost var r0 := Records(base[..], n, sz);
    var i := n;
    cost := 0;
    NothingBehind(r0, cmp);
    while i > 1
      invariant 1 <= i <= n
      invariant multiset(Records(base[..], n, sz)) == multiset(r0)
      invariant IsHeap(Records(base[..], n, sz), i, 0, cmp) && SortedFrom(Records(base[..], n, sz), i, cmp)
      invariant cost <= 2 * (n - i) * Log2(n)
    {
      i := i - 1;
      ghost var r := Records(base[..], n, sz);
      ExtractStep(r, i, cmp);
      SiftCostAtMost(Swapped(r, 0, i), i, n, 0, cmp);
      SwapRecs(base, n, sz, 0, i);
      ghost var k := Sift(base, n, i, sz, 0, cmp);
      cost := cost + k;
      OneMoreSift(n - i - 1, Log2(n));
    }
    MulLe(2 * (n - 1), 2 * n, Log2(n));
    AllInOrder(Records(base[..], n, sz), cmp);
  }

  lemma NothingBehind(r: seq<Rec>, cmp: Comparator)
    ensures SortedFrom(r, |r|, cmp)
  {
  }

  lemma AllInOrder(r: seq<Rec>, cmp: Comparator)
    requires SortedFrom(r, 1, cmp)
    ensures Sorted(r, cmp)
  {
  }

  /**
   `qsort`: for every comparator that is a total preorder, the records end up in order, the
   same records as before, after at most 3 * n * floor(log2 n) comparisons.
   */
  method QSort(base: array<nat>, n: nat, sz: nat, cmp: Comparator) returns (ghost cost: nat)
    requires IsPreorder(cmp) && n * sz == base.Length
    modifies base
    ensures Sorted(Records(base[..], n, sz), cmp)
    ensures multiset(Records(base[..], n, sz)) == multiset(old(Records(base[..], n, sz)))
    ensures cost <= 3 * n * Log2(n)
  {
    hide Records, Log2;
    if n < 2 {
      return 0;
    }
    var a := MakeHeap(base, n, sz, cmp);
    var b := Extract(base, n, sz, cmp);
    cost := a + b;
    ThreeTimes(n, Log2(n));
  }

  lemma ThreeTimes(n: nat, l: nat)
    ensures n * l + 2 * n * l == 3 * n * l
  {
  }
}
