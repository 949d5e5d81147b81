/**
 The size-class heap as a value: words of memory, blocks with a two-word header, twelve
 free lists threaded through freed payloads, the bump area, and what the system mapped.
 */
module HeapModel {
  import opened Arith

  const CHUNK: nat := 1_048_576
  const CLASSES: nat := 12

  /** The bytes of a block of class `k`. */
  function ClassSize(k: nat): (s: nat)
    ensures s >= 32 && s % 32 == 0
  {
    var p := Pow(2, k);
    32 * p
  }

  /** A block: its whole size, its class (-1 when mapped alone), whether it is handed out, its mapping. */
  datatype Block = Block(size: nat, cls: int, live: bool, base: int)

  datatype Heap = Heap(
    mem: map<int, int>,
    owned: map<int, Block>,
    lists: seq<seq<int>>,
    heads: seq<int>,
    cur: int, left: int, curBase: int,
    regions: map<int, nat>,
    chunks: nat, waste: nat)

  /** The word at an address; memory never written reads as zero. */
  function Word(m: map<int, int>, a: int): int {
    if a in m then m[a] else 0
  }

  ghost predicate InRegion(regions: map<int, nat>, base: int, lo: int, hi: int) {
    base in regions && base <= lo && hi <= base + regions[base]
  }

  ghost predicate BlockOk(h: Heap, p: int)
    requires p in h.owned
  {
    var b := h.owned[p];
    && p > 0 && p % 16 == 0 && b.size >= 32 && b.size % 32 == 0
    && Word(h.mem, p) == b.size && Word(h.mem, p + 8) == b.cls
    && InRegion(h.regions, b.base, p, p + b.size)
    && (if b.cls == -1 then b.live && b.base == p && h.regions[p] == b.size
        else 0 <= b.cls < CLASSES && b.size == ClassSize(b.cls))
  }

  ghost predicate Apart(h: Heap, p: int, q: int)
    requires p in h.owned && q in h.owned
  {
    p + h.owned[p].size <= q || q + h.owned[q].size <= p
  }

  ghost predicate BlocksOk(h: Heap) {
    && (forall p :: p in h.owned ==> BlockOk(h, p))
    && (forall p, q :: p in h.owned && q in h.owned && p != q ==> Apart(h, p, q))
  }

  /** The bump area is mapped and touches no block. */
  ghost predicate BumpOk(h: Heap) {
    && h.left >= 0 && h.cur % 16 == 0
    && (h.left > 0 ==> h.cur > 0 && InRegion(h.regions, h.curBase, h.cur, h.cur + h.left))
    && (h.left > 0 ==> forall p :: p in h.owned ==> p + h.owned[p].size <= h.cur || h.cur + h.left <= p)
  }

  /** The link stored in the `i`-th block of a list. */
  function NextOf(l: seq<int>, i: nat): int {
    if i + 1 < |l| then l[i + 1] else 0
  }

  /** List `k` holds free blocks of its class only, each once, linked in order to the null end. */
  ghost predicate ListOk(h: Heap, k: nat)
    requires |h.lists| == |h.heads| == CLASSES && k < CLASSES
  {
    var l := h.lists[k];
    && h.heads[k] == (if l == [] then 0 else l[0])
    && Members(h.owned, l, k) && Chained(h.mem, l) && Distinct(l)
  }

  /** Free blocks of class `k`. */
  ghost predicate Members(owned: map<int, Block>, l: seq<int>, k: nat) {
    forall i :: 0 <= i < |l| ==> l[i] in owned && !owned[l[i]].live && owned[l[i]].cls == k
  }

  /** Each link word holds the next block's address, the last one null. */
  ghost predicate Chained(mem: map<int, int>, l: seq<int>) {
    forall i :: 0 <= i < |l| ==> Word(mem, l[i] + 16) == NextOf(l, i)
  }

  ghost predicate Distinct(l: seq<int>) {
    forall i, j :: 0 <= i < j < |l| ==> l[i] != l[j]
  }

  ghost predicate ListsOk(h: Heap) {
    && |h.lists| == |h.heads| == CLASSES
    && (forall k :: 0 <= k < CLASSES ==> ListOk(h, k))
    && (forall p :: p in h.owned && !h.owned[p].live ==> 0 <= h.owned[p].cls < CLASSES && p in h.lists[h.owned[p].cls])
  }

  /** Chunk bytes: none for a block mapped alone. */
  function Weight(b: Block): nat {
    if b.cls == -1 then 0 else b.size
  }

  /** All the chunk bytes in blocks, handed out or free. */
  ghost function BlockBytes(m: map<int, Block>): nat
    decreases |m|
  {
    if m == map[] then 0
    else
      assert exists p :: p in m by { NonEmpty(m); }
      var p :| p in m;
      assert |m - {p}| == |m| - 1 by { KeysLess(m, p); }
      Weight(m[p]) + BlockBytes(m - {p})
  }

  lemma NonEmpty(m: map<int, Block>)
    requires m != map[]
    ensures exists p :: p in m
  {
    assert (forall p :: p !in m) ==> m == map[];
  }

  lemma KeysLess(m: map<int, Block>, p: int)
    requires p in m
    ensures |m - {p}| == |m| - 1
  {
  }

  /** The sum does not depend on the order of summation. */
  lemma {:induction false} BlockBytesLess(m: map<int, Block>, q: int)
    requires q in m
    ensures BlockBytes(m) == Weight(m[q]) + BlockBytes(m - {q})
    decreases |m|
  {
    var p :| p in m && BlockBytes(m) == Weight(m[p]) + BlockBytes(m - {p});
    KeysLess(m, p);
    if p != q {
      BlockBytesLess(m - {p}, q);
      KeysLess(m, q);
      BlockBytesLess(m - {q}, p);
      assert m - {p} - {q} == m - {q} - {p};
    }
  }

  lemma {:induction false} BlockBytesMore(m: map<int, Block>, q: int, b: Block)
    requires q !in m
    ensures BlockBytes(m[q := b]) == Weight(b) + BlockBytes(m)
  {
    BlockBytesLess(m[q := b], q);
    assert m[q := b] - {q} == m;
  }

  lemma {:induction false} BlockBytesSame(m: map<int, Block>, q: int, b: Block)
    requires q in m && Weight(b) == Weight(m[q])
    ensures BlockBytes(m[q := b]) == BlockBytes(m)
  {
    BlockBytesLess(m[q := b], q);
    BlockBytesLess(m, q);
    assert m[q := b] - {q} == m - {q};
  }

  /** Every chunk byte is in a block, in the bump area, or in an abandoned tail. */
  ghost predicate Conserved(h: Heap) {
    BlockBytes(h.owned) + h.left + h.waste == CHUNK * h.chunks
  }

  ghost predicate HeapOk(h: Heap) {
    BlocksOk(h) && BumpOk(h) && ListsOk(h) && Conserved(h)
  }

  /** A mapping the system may answer: page-aligned and off every present mapping. */
  ghost predicate FreshAt(h: Heap, r: int, size: nat) {
    && r > 0 && r % 4096 == 0
    && forall b :: b in h.regions ==> r + size <= b || b + h.regions[b] <= r
  }

  // ---------- the six transitions ----------

  /** Take the first block of list `k`. */
  function Popped(h: Heap, k: nat): Heap
    requires |h.lists| == |h.heads| == CLASSES && k < CLASSES && h.lists[k] != [] && h.lists[k][0] in h.owned
  {
    var p := h.lists[k][0];
    h.(owned := h.owned[p := h.owned[p].(live := true)],
       lists := h.lists[k := h.lists[k][1..]],
       heads := h.heads[k := Word(h.mem, p + 16)])
  }

  lemma {:induction false} PoppedOk(h: Heap, k: nat)
    requires HeapOk(h) && k < CLASSES && h.lists[k] != []
    ensures h.lists[k][0] in h.owned && HeapOk(Popped(h, k))
  {
    var l := h.lists[k];
    assert ListOk(h, k);
    var p := l[0];
    var h' := Popped(h, k);
    BlockBytesSame(h.owned, p, h.owned[p].(live := true));
    PoppedBlocks(h, k);
    PoppedLists(h, k);
    hide ClassSize, BlockBytes, ListsOk, BlocksOk;
  }

  lemma {:induction false} PoppedBlocks(h: Heap, k: nat)
    requires |h.lists| == |h.heads| == CLASSES && BlocksOk(h)
    requires k < CLASSES && h.lists[k] != [] && h.lists[k][0] in h.owned
    ensures BlocksOk(Popped(h, k))
  {
    hide ClassSize, BlockBytes, ListsOk, Conserved, BumpOk;
    var h' := Popped(h, k);
    forall p | p in h'.owned
      ensures BlockOk(h', p)
    {
      assert BlockOk(h, p);
    }
    forall p, q | p in h'.owned && q in h'.owned && p != q
      ensures Apart(h', p, q)
    {
      assert Apart(h, p, q);
    }
  }

  /** A list is as good as before when its blocks, their links and its head are. */
  lemma {:induction false} ListKept(h: Heap, h': Heap, j: nat)
    requires |h.lists| == |h.heads| == CLASSES && |h'.lists| == |h'.heads| == CLASSES && j < CLASSES
    requires ListOk(h, j) && h'.lists[j] == h.lists[j] && h'.heads[j] == h.heads[j]
    requires forall i :: 0 <= i < |h.lists[j]| ==> KeptBlock(h, h', h.lists[j][i])
    ensures ListOk(h', j)
  {
  }

  /** The block and its link word are unchanged. */
  ghost predicate KeptBlock(h: Heap, h': Heap, p: int) {
    p in h.owned ==> p in h'.owned && h'.owned[p] == h.owned[p] && Word(h'.mem, p + 16) == Word(h.mem, p + 16)
  }

  lemma {:induction false} PoppedLists(h: Heap, k: nat)
    requires ListsOk(h) && k < CLASSES && h.lists[k] != [] && h.lists[k][0] in h.owned
    ensures ListsOk(Popped(h, k))
  {
    hide NextOf, Word;
    var h' := Popped(h, k);
    var l := h.lists[k];
    var p := l[0];
    forall j | 0 <= j < CLASSES
      ensures ListOk(h', j)
    {
      assert ListOk(h, j) && ListOk(h, k);
      if j != k {
        ListKept(h, h', j);
      } else {
        PoppedSelf(h, k);
      }
    }
    forall q | q in h'.owned && !h'.owned[q].live
      ensures 0 <= h'.owned[q].cls < CLASSES && q in h'.lists[h'.owned[q].cls]
    {
      assert q != p && q in h.owned && !h.owned[q].live;
      if h.owned[q].cls == k {
        var i :| 0 <= i < |l| && l[i] == q;
        assert l[1..][i - 1] == q;
      }
    }
  }

  lemma {:induction false} PoppedSelf(h: Heap, k: nat)
    requires |h.lists| == |h.heads| == CLASSES && k < CLASSES && ListOk(h, k)
    requires h.lists[k] != [] && h.lists[k][0] in h.owned
    ensures ListOk(Popped(h, k), k)
  {
    var l := h.lists[k];
    var h' := Popped(h, k);
    assert Word(h.mem, l[0] + 16) == NextOf(l, 0);
    TailChained(h.mem, l);
    TailMembers(h.owned, l, k, h.owned[l[0]].(live := true));
    hide Word, Chained, Members, Distinct;
  }

  lemma TailMembers(owned: map<int, Block>, l: seq<int>, k: nat, b: Block)
    requires l != [] && Members(owned, l, k) && Distinct(l)
    ensures Members(owned[l[0] := b], l[1..], k) && Distinct(l[1..])
  {
  }

  lemma TailChained(mem: map<int, int>, l: seq<int>)
    requires l != [] && Chained(mem, l)
    ensures Chained(mem, l[1..])
  {
  }

  /** Put handed-out block `p` on the front of its class's list. */
  function Pushed(h: Heap, p: int): Heap
    requires |h.lists| == |h.heads| == CLASSES && p in h.owned && 0 <= h.owned[p].cls < CLASSES
  {
    var k := h.owned[p].cls;
    h.(mem := h.mem[p + 16 := h.heads[k]],
       owned := h.owned[p := h.owned[p].(live := false)],
       lists := h.lists[k := [p] + h.lists[k]],
       heads := h.heads[k := p])
  }

  lemma {:induction false} PushedOk(h: Heap, p: int)
    requires HeapOk(h) && p in h.owned && h.owned[p].live && 0 <= h.owned[p].cls < CLASSES
    ensures HeapOk(Pushed(h, p))
  {
    BlockBytesSame(h.owned, p, h.owned[p].(live := false));
    PushedBlocks(h, p);
    PushedLists(h, p);
    hide ClassSize, BlockBytes, ListsOk, BlocksOk;
  }

  /** Two words of eight bytes share none of them. */
  predicate WordsApart(a: int, b: int) {
    a + 8 <= b || b + 8 <= a
  }

  /** A block's payload words share no byte with a header or with another block's link. */
  lemma {:induction false} HeaderSafe(h: Heap, p: int, a: int, q: int)
    requires BlocksOk(h) && p in h.owned && q in h.owned && p + 16 <= a && a + 8 <= p + h.owned[p].size
    ensures WordsApart(a, q) && WordsApart(a, q + 8) && (q != p ==> WordsApart(a, q + 16))
  {
    assert BlockOk(h, p) && BlockOk(h, q);
    assert q != p ==> Apart(h, p, q);
  }

  lemma {:induction false} PushedBlocks(h: Heap, p: int)
    requires |h.lists| == |h.heads| == CLASSES && BlocksOk(h) && p in h.owned && 0 <= h.owned[p].cls < CLASSES
    ensures BlocksOk(Pushed(h, p))
  {
    hide ClassSize;
    var h' := Pushed(h, p);
    assert BlockOk(h, p);
    forall q | q in h'.owned
      ensures BlockOk(h', q)
    {
      assert BlockOk(h, q);
      HeaderSafe(h, p, p + 16, q);
    }
    forall q, r | q in h'.owned && r in h'.owned && q != r
      ensures Apart(h', q, r)
    {
      assert Apart(h, q, r);
    }
  }

  lemma {:induction false} PushedLists(h: Heap, p: int)
    requires BlocksOk(h) && ListsOk(h) && p in h.owned && h.owned[p].live && 0 <= h.owned[p].cls < CLASSES
    ensures ListsOk(Pushed(h, p))
  {
    hide NextOf, Word, ClassSize;
    var h' := Pushed(h, p);
    var k := h.owned[p].cls;
    assert BlockOk(h, p);
    PushedKeeps(h, p);
    forall j | 0 <= j < CLASSES
      ensures ListOk(h', j)
    {
      assert ListOk(h, j) && ListOk(h, k);
      if j != k {
        ListKept(h, h', j);
      } else {
        PushedSelf(h, p);
      }
    }
    forall q | q in h'.owned && !h'.owned[q].live
      ensures 0 <= h'.owned[q].cls < CLASSES && q in h'.lists[h'.owned[q].cls]
    {
      if q == p {
        assert h'.lists[k][0] == p;
      } else if h.owned[q].cls == k {
        var i :| 0 <= i < |h.lists[k]| && h.lists[k][i] == q;
        assert h'.lists[k][i + 1] == q;
      }
    }
  }

  lemma {:induction false} PushedKeeps(h: Heap, p: int)
    requires |h.lists| == |h.heads| == CLASSES && BlocksOk(h) && p in h.owned && 0 <= h.owned[p].cls < CLASSES
    ensures forall q :: q in h.owned && q != p ==> KeptBlock(h, Pushed(h, p), q)
  {
  }

  lemma {:induction false} PushedSelf(h: Heap, p: int)
    requires |h.lists| == |h.heads| == CLASSES && BlocksOk(h)
    requires p in h.owned && h.owned[p].live && 0 <= h.owned[p].cls < CLASSES
    requires ListOk(h, h.owned[p].cls)
    ensures ListOk(Pushed(h, p), h.owned[p].cls)
  {
    hide ClassSize;
    var h' := Pushed(h, p);
    var k := h.owned[p].cls;
    var l, r := h.lists[k], [p] + h.lists[k];
    PushedKeeps(h, p);
    assert NextOf(r, 0) == h.heads[k];
    forall i | 0 <= i < |l| ensures Word(h'.mem, l[i] + 16) == Word(h.mem, l[i] + 16) && l[i] != p {
      assert KeptBlock(h, h', l[i]);
    }
    PushChained(h.mem, h'.mem, l, p);
    PushMembers(h.owned, l, k, p, h.owned[p].(live := false));
    hide Word, Chained, Members, Distinct, KeptBlock;
  }

  lemma PushChained(m: map<int, int>, m': map<int, int>, l: seq<int>, p: int)
    requires Chained(m, l) && Word(m', p + 16) == NextOf([p] + l, 0)
    requires forall i :: 0 <= i < |l| ==> Word(m', l[i] + 16) == Word(m, l[i] + 16)
    ensures Chained(m', [p] + l)
  {
  }

  lemma PushMembers(owned: map<int, Block>, l: seq<int>, k: nat, p: int, b: Block)
    requires Members(owned, l, k) && Distinct(l) && !b.live && b.cls == k
    requires forall i :: 0 <= i < |l| ==> l[i] != p
    ensures Members(owned[p := b], [p] + l, k) && Distinct([p] + l)
  {
  }

  /** Cut a block of class `k` off the bump area. */
  function Bumped(h: Heap, k: nat): Heap {
    var sz, p := ClassSize(k), h.cur;
    h.(mem := h.mem[p := sz][p + 8 := k],
       owned := h.owned[p := Block(sz, k, true, h.curBase)],
       cur := h.cur + sz, left := h.left - sz)
  }

  lemma {:induction false} BumpedOk(h: Heap, k: nat)
    requires HeapOk(h) && k < CLASSES && h.left >= ClassSize(k)
    ensures h.cur !in h.owned && HeapOk(Bumped(h, k))
  {
    CurIsFree(h, k);
    BlockBytesMore(h.owned, h.cur, Block(ClassSize(k), k, true, h.curBase));
    BumpedBlocks(h, k);
    BumpedLists(h, k);
    hide ClassSize, BlockBytes, ListsOk, BlocksOk;
    BumpedBump(h, k);
  }

  lemma CurIsFree(h: Heap, k: nat)
    requires BlocksOk(h) && BumpOk(h) && h.left >= ClassSize(k)
    ensures h.cur !in h.owned
  {
  }

  lemma {:induction false} BumpedBump(h: Heap, k: nat)
    requires BumpOk(h) && h.left >= ClassSize(k) && h.cur !in h.owned
    ensures BumpOk(Bumped(h, k))
  {
  }

  lemma {:induction false} BumpedBlocks(h: Heap, k: nat)
    requires BlocksOk(h) && BumpOk(h) && k < CLASSES && h.left >= ClassSize(k) && h.cur !in h.owned
    ensures BlocksOk(Bumped(h, k))
  {
    hide ClassSize;
    var h' := Bumped(h, k);
    forall q | q in h'.owned
      ensures BlockOk(h', q)
    {
      if q != h.cur {
        assert BlockOk(h, q);
      }
    }
    forall q, r | q in h'.owned && r in h'.owned && q != r
      ensures Apart(h', q, r)
    {
      if q != h.cur && r != h.cur {
        assert Apart(h, q, r);
      }
    }
  }

  lemma {:induction false} BumpedLists(h: Heap, k: nat)
    requires BlocksOk(h) && BumpOk(h) && ListsOk(h) && k < CLASSES && h.left >= ClassSize(k) && h.cur !in h.owned
    ensures ListsOk(Bumped(h, k))
  {
    hide NextOf, ClassSize;
    var h' := Bumped(h, k);
    forall q | q in h.owned
      ensures KeptBlock(h, h', q)
    {
      assert BlockOk(h, q);
    }
    forall j | 0 <= j < CLASSES
      ensures ListOk(h', j)
    {
      assert ListOk(h, j);
      ListKept(h, h', j);
    }
  }

  /** Start a new chunk at `r`; what was left of the old one is abandoned. */
  function Chunked(h: Heap, r: int): Heap {
    h.(cur := r, left := CHUNK, curBase := r, regions := h.regions[r := CHUNK],
       chunks := h.chunks + 1, waste := h.waste + Pos(h.left))
  }

  lemma {:induction false} ChunkedOk(h: Heap, r: int)
    requires HeapOk(h) && FreshAt(h, r, CHUNK)
    ensures HeapOk(Chunked(h, r))
  {
    ChunkedLists(h, r);
    hide ClassSize, BlockBytes, ListsOk, BlockOk, FreshAt;
    var h' := Chunked(h, r);
    forall p | p in h'.owned
      ensures BlockOk(h', p) && (p + h'.owned[p].size <= r || r + CHUNK <= p)
    {
      ChunkedBlock(h, r, p);
    }
    forall q, s | q in h'.owned && s in h'.owned && q != s
      ensures Apart(h', q, s)
    {
      assert Apart(h, q, s);
    }
    assert r > 0 && r % 16 == 0 by {
      PageAligned(h, r, CHUNK);
    }
  }

  lemma PageAligned(h: Heap, r: int, size: nat)
    requires FreshAt(h, r, size)
    ensures r > 0 && r % 16 == 0
  {
    hide Apart;
    PageSixteenth(r);
  }

  lemma PageSixteenth(r: int)
    requires r % 4096 == 0
    ensures r % 16 == 0
  {
    var k := r / 4096;
    assert r == 16 * (256 * k);
  }

  lemma ChunkedBlock(h: Heap, r: int, p: int)
    requires p in h.owned && BlockOk(h, p) && FreshAt(h, r, CHUNK)
    ensures BlockOk(Chunked(h, r), p) && (p + h.owned[p].size <= r || r + CHUNK <= p)
  {
  }

  lemma {:induction false} ChunkedLists(h: Heap, r: int)
    requires ListsOk(h)
    ensures ListsOk(Chunked(h, r))
  {
    forall j | 0 <= j < CLASSES
      ensures ListOk(Chunked(h, r), j)
    {
      assert ListOk(h, j);
      ListKept(h, Chunked(h, r), j);
    }
  }

  /** A block mapped alone at `r`. */
  function Mapped(h: Heap, r: int, size: nat): Heap {
    h.(mem := h.mem[r := size][r + 8 := -1],
       owned := h.owned[r := Block(size, -1, true, r)],
       regions := h.regions[r := size])
  }

  lemma {:induction false} MappedOk(h: Heap, r: int, size: nat)
    requires HeapOk(h) && FreshAt(h, r, size) && size >= 32 && size % 32 == 0
    ensures r !in h.owned && HeapOk(Mapped(h, r, size))
  {
    assert r in h.owned ==> BlockOk(h, r);
    BlockBytesMore(h.owned, r, Block(size, -1, true, r));
    MappedLists(h, r, size);
    MappedAlone(h, r, size);
    MappedBump(h, r, size);
    hide ClassSize, BlockBytes, ListsOk, BlockOk, FreshAt, BumpOk;
    var h' := Mapped(h, r, size);
    forall p | p in h'.owned ensures BlockOk(h', p) {
      if p != r {
        MappedBlock(h, r, size, p);
      }
    }
    forall q, s | q in h'.owned && s in h'.owned && q != s ensures Apart(h', q, s) {
      if q == r {
        MappedBlock(h, r, size, s);
      } else if s == r {
        MappedBlock(h, r, size, q);
      } else {
        assert Apart(h, q, s);
      }
    }
  }

  lemma MappedBump(h: Heap, r: int, size: nat)
    requires BumpOk(h) && FreshAt(h, r, size) && size >= 32
    ensures BumpOk(Mapped(h, r, size))
  {
  }

  lemma MappedAlone(h: Heap, r: int, size: nat)
    requires FreshAt(h, r, size) && size >= 32 && size % 32 == 0
    ensures BlockOk(Mapped(h, r, size), r)
  {
    PageAligned(h, r, size);
  }

  /** A block that was there is as good as before, and apart from the new one. */
  lemma MappedBlock(h: Heap, r: int, size: nat, p: int)
    requires p in h.owned && BlockOk(h, p) && FreshAt(h, r, size) && size >= 32 && p != r
    ensures BlockOk(Mapped(h, r, size), p) && (p + h.owned[p].size <= r || r + size <= p)
  {
  }

  lemma {:induction false} MappedLists(h: Heap, r: int, size: nat)
    requires BlocksOk(h) && ListsOk(h) && FreshAt(h, r, size) && size >= 32 && r !in h.owned
    ensures ListsOk(Mapped(h, r, size))
  {
    hide NextOf, ClassSize;
    var h' := Mapped(h, r, size);
    forall q | q in h.owned
      ensures KeptBlock(h, h', q)
    {
      assert BlockOk(h, q);
    }
    forall j | 0 <= j < CLASSES
      ensures ListOk(h', j)
    {
      assert ListOk(h, j);
      ListKept(h, h', j);
    }
  }

  /** Give a block mapped alone back to the system. */
  function Unmapped(h: Heap, p: int): Heap {
    h.(owned := h.owned - {p}, regions := h.regions - {p})
  }

  lemma {:induction false} UnmappedOk(h: Heap, p: int)
    requires HeapOk(h) && p in h.owned && h.owned[p].cls == -1
    ensures HeapOk(Unmapped(h, p))
  {
    BlockBytesLess(h.owned, p);
    hide ClassSize, BlockBytes, ListsOk;
    var h' := Unmapped(h, p);
    assert BlockOk(h, p);
    forall q | q in h'.owned
      ensures BlockOk(h', q)
    {
      assert BlockOk(h, q) && Apart(h, q, p);
    }
    forall q, s | q in h'.owned && s in h'.owned && q != s
      ensures Apart(h', q, s)
    {
      assert Apart(h, q, s);
    }
    UnmappedLists(h, p);
  }

  lemma {:induction false} UnmappedLists(h: Heap, p: int)
    requires ListsOk(h) && p in h.owned && h.owned[p].cls == -1
    ensures ListsOk(Unmapped(h, p))
  {
    hide NextOf, Word;
    var h' := Unmapped(h, p);
    forall j | 0 <= j < CLASSES
      ensures ListOk(h', j)
    {
      assert ListOk(h, j);
      forall i | 0 <= i < |h.lists[j]|
        ensures KeptBlock(h, h', h.lists[j][i])
      {
        assert h.lists[j][i] != p;
      }
      ListKept(h, h', j);
    }
  }

  /** A word store into the payload of a handed-out block. */
  function Stored(h: Heap, a: int, v: int): Heap {
    h.(mem := h.mem[a := v])
  }

  /** An aligned word of a block's payload, all eight bytes inside it. */
  predicate PayloadAt(h: Heap, p: int, a: int)
    requires p in h.owned
  {
    a % 8 == 0 && p + 16 <= a && a + 8 <= p + h.owned[p].size
  }

  lemma {:induction false} StoredOk(h: Heap, p: int, a: int, v: int)
    requires HeapOk(h) && p in h.owned && h.owned[p].live && PayloadAt(h, p, a)
    ensures HeapOk(Stored(h, a, v))
    ensures forall q :: q in h.owned ==>
      WordsApart(a, q) && WordsApart(a, q + 8) && (!h.owned[q].live ==> WordsApart(a, q + 16))
  {
    hide ClassSize, BlockBytes;
    var h' := Stored(h, a, v);
    forall q | q in h.owned
      ensures BlockOk(h', q) && (q != p ==> KeptBlock(h, h', q))
      ensures WordsApart(a, q) && WordsApart(a, q + 8) && (!h.owned[q].live ==> WordsApart(a, q + 16))
    {
      assert BlockOk(h, q);
      HeaderSafe(h, p, a, q);
    }
    forall q, s | q in h'.owned && s in h'.owned && q != s
      ensures Apart(h', q, s)
    {
      assert Apart(h, q, s);
    }
    forall j | 0 <= j < CLASSES
      ensures ListOk(h', j)
    {
      assert ListOk(h, j);
      ListKept(h, h', j);
    }
  }

  // ---------- what a caller sees ----------

  /** The blocks handed out, by header address. */
  function Live(h: Heap): set<int> {
    set p | p in h.owned && h.owned[p].live
  }

  /** Every handed-out block but `x` is still there with its payload words. */
  ghost predicate KeepsLive(h: Heap, h': Heap, x: int) {
    forall p :: p in Live(h) && p != x ==> SamePayload(h, h', p)
  }

  ghost predicate SamePayload(h: Heap, h': Heap, p: int)
    requires p in h.owned
  {
    && p in h'.owned && h'.owned[p] == h.owned[p]
    && forall a :: p + 16 <= a < p + h.owned[p].size ==> Word(h'.mem, a) == Word(h.mem, a)
  }

  /** `q` is a new payload of at least `n` bytes, and nothing else changed for a caller. */
  ghost predicate HandedOut(h: Heap, h': Heap, q: int, n: int) {
    && q % 16 == 0 && q > 16 && q - 16 !in Live(h)
    && Live(h') == Live(h) + {q - 16}
    && h'.owned[q - 16].size >= n + 16
    && KeepsLive(h, h', q - 16)
  }

  /** Payloads handed out at the same time never overlap. */
  lemma {:induction false} LiveDisjoint(h: Heap, p: int, q: int)
    requires HeapOk(h) && p in Live(h) && q in Live(h) && p != q
    ensures p + h.owned[p].size <= q + 16 || q + h.owned[q].size <= p + 16
  {
  }

  /** Walking a list visits distinct blocks and ends: as many as it holds. */
  lemma {:induction false} ListsDisjoint(h: Heap, j: nat, k: nat, p: int)
    requires HeapOk(h) && j < k < CLASSES && p in h.lists[j]
    ensures p !in h.lists[k] && p in h.owned && h.owned[p].size == ClassSize(j)
  {
    assert ListOk(h, j) && ListOk(h, k);
    var i :| 0 <= i < |h.lists[j]| && h.lists[j][i] == p;
    assert BlockOk(h, p);
  }

  lemma {:induction false} PoppedHands(h: Heap, k: nat, n: int)
    requires HeapOk(h) && k < CLASSES && h.lists[k] != [] && ClassSize(k) >= n + 16
    ensures h.lists[k][0] in h.owned && HandedOut(h, Popped(h, k), h.lists[k][0] + 16, n)
  {
    assert ListOk(h, k);
    assert BlockOk(h, h.lists[k][0]);
    hide BlockBytes, ClassSize, BumpOk, ListsOk;
    assert Live(Popped(h, k)) == Live(h) + {h.lists[k][0]};
  }

  lemma {:induction false} BumpedHands(h: Heap, k: nat, n: int)
    requires HeapOk(h) && k < CLASSES && h.left >= ClassSize(k) >= n + 16
    ensures HandedOut(h, Bumped(h, k), h.cur + 16, n)
  {
    BumpedOk(h, k);
    hide BlockBytes, ClassSize, ListsOk;
    var h' := Bumped(h, k);
    assert Live(h') == Live(h) + {h.cur};
    forall p | p in Live(h)
      ensures SamePayload(h, h', p)
    {
      assert BlockOk(h, p);
    }
  }

  lemma {:induction false} MappedHands(h: Heap, r: int, size: nat, n: int)
    requires HeapOk(h) && FreshAt(h, r, size) && size >= 32 && size % 32 == 0 && size >= n + 16
    ensures HandedOut(h, Mapped(h, r, size), r + 16, n)
  {
    MappedOk(h, r, size);
    hide BlockBytes, ClassSize, ListsOk;
    var h' := Mapped(h, r, size);
    assert Live(h') == Live(h) + {r};
    forall p | p in Live(h)
      ensures SamePayload(h, h', p)
    {
      assert BlockOk(h, p);
    }
  }

  lemma {:induction false} PushedKeepsLive(h: Heap, p: int)
    requires HeapOk(h) && p in Live(h) && 0 <= h.owned[p].cls < CLASSES
    ensures Live(Pushed(h, p)) == Live(h) - {p} && KeepsLive(h, Pushed(h, p), p)
  {
    hide BlockBytes, ClassSize, ListOk;
    var h' := Pushed(h, p);
    assert BlockOk(h, p);
    forall q | q in Live(h) && q != p
      ensures SamePayload(h, h', q)
    {
      assert BlockOk(h, q) && Apart(h, p, q);
    }
  }

  lemma {:induction false} StoreApart(h: Heap, p: int, a: int, q: int, c: int)
    requires BlocksOk(h) && p in h.owned && q in h.owned && p != q
    requires p <= a < p + h.owned[p].size && q <= c < q + h.owned[q].size
    ensures a != c
  {
    assert Apart(h, p, q);
  }

  lemma {:induction false} StoredKeepsLive(h: Heap, p: int, a: int, v: int)
    requires HeapOk(h) && p in Live(h) && PayloadAt(h, p, a)
    ensures Live(Stored(h, a, v)) == Live(h) && KeepsLive(h, Stored(h, a, v), p)
    ensures Stored(h, a, v).owned == h.owned
  {
    hide BlockBytes, ClassSize, ListsOk, BumpOk;
    var h' := Stored(h, a, v);
    forall q | q in Live(h) && q != p
      ensures SamePayload(h, h', q)
    {
      forall c | q + 16 <= c < q + h.owned[q].size
        ensures Word(h'.mem, c) == Word(h.mem, c)
      {
        StoreApart(h, p, a, q, c);
      }
    }
  }

  /** Keeping the rest is transitive. */
  lemma {:induction false} KeepsTrans(h: Heap, h1: Heap, h2: Heap, x: int)
    requires KeepsLive(h, h1, x) && KeepsLive(h1, h2, x)
    ensures KeepsLive(h, h2, x)
  {
    forall p | p in Live(h) && p != x
      ensures SamePayload(h, h2, p)
    {
      assert SamePayload(h, h1, p) && p in Live(h1);
      assert SamePayload(h1, h2, p);
    }
  }

  lemma {:induction false} UnmappedKeepsLive(h: Heap, p: int)
    requires HeapOk(h) && p in Live(h) && h.owned[p].cls == -1
    ensures Live(Unmapped(h, p)) == Live(h) - {p} && KeepsLive(h, Unmapped(h, p), p)
  {
  }

  lemma LiveClass(h: Heap, p: int)
    requires HeapOk(h) && p in Live(h)
    ensures p in h.owned && -1 <= h.owned[p].cls < CLASSES
    ensures Word(h.mem, p) == h.owned[p].size && Word(h.mem, p + 8) == h.owned[p].cls
    ensures h.owned[p].size >= 32 && h.owned[p].size % 32 == 0 && p % 16 == 0 && p > 0
  {
  }

  /** The first `w` payload words of `p` in `h` are those of `r` in `h'`. */
  ghost predicate SameWords(h: Heap, p: int, h': Heap, r: int, w: nat) {
    forall i :: 0 <= i < w ==> PayloadWord(h', r, i) == PayloadWord(h, p, i)
  }

  /** The first `w` payload words of `p` are zero. */
  ghost predicate ZeroWords(h: Heap, p: int, w: nat) {
    forall i :: 0 <= i < w ==> PayloadWord(h, p, i) == 0
  }

  /** The `i`-th word of the payload of block `p`. */
  function PayloadWord(h: Heap, p: int, i: nat): int {
    Word(h.mem, p + 16 + 8 * i)
  }

  /** A payload that is kept keeps its words. */
  lemma {:induction false} KeptWords(h: Heap, h': Heap, p: int, x: int, w: nat)
    requires KeepsLive(h, h', x) && p in Live(h) && p != x && 8 * w <= h.owned[p].size - 16
    ensures p in h'.owned && h'.owned[p] == h.owned[p] && SameWords(h, p, h', p, w)
  {
  }

  /** Handing out and then filling is handing out. */
  lemma {:induction false} HandedThenKept(h: Heap, h1: Heap, h2: Heap, q: int, n: int)
    requires HandedOut(h, h1, q, n) && KeepsLive(h1, h2, q - 16) && Live(h2) == Live(h1)
    requires h2.owned == h1.owned
    ensures HandedOut(h, h2, q, n)
  {
  }
}
