/** `malloc`, `free`, `calloc` and `realloc` over the heap of HeapModel. */
module Malloc {
  import opened Arith
  import opened HeapModel

  /** 2^44: the largest request the source considers. */
  const LIMIT: int := 0x1000_0000_0000

  /** What a request asks of the system when it must: its own mapping, or a chunk. */
  function MapSize(n: int): (s: nat)
    requires n >= 0
    ensures s >= 32 && s % 32 == 0
  {
    if n + 16 > 65536 then RoundUp(n + 16) else CHUNK
  }

  /** The C expression `(sz + 65535) & ~65535`. */
  function RoundUp(sz: nat): (r: nat)
    ensures r >= sz && r % 65536 == 0 && r < sz + 65536
  {
    (sz + 65535) / 65536 * 65536
  }

  /** The least class whose blocks hold `sz` bytes: blocks have 32, 64, .. 65536 bytes. */
  predicate IsLeastClass(k: nat, sz: int) {
    k < 12 && 32 * Pow(2, k) >= sz && (k == 0 || 32 * Pow(2, k - 1) < sz)
  }

  /** A request of class `k` takes the head of its list; else it is cut off the chunk; else off a new one. */
  ghost predicate PlacedIn(h: Heap, h': Heap, k: nat, answer: int, q: int)
    requires k < |h.heads|
  {
    var size := 32 * Pow(2, k);
    && (if h.heads[k] != 0 then q == h.heads[k] + 16 && h'.cur == h.cur && h'.left == h.left
        else if h.left >= size then q == h.cur + 16 && h'.cur == h.cur + size && h'.left == h.left - size
        else if answer <= 0 then q == 0
        else q == answer + 16 && h'.cur == answer + size && h'.left == CHUNK - size)
    && (q != 0 ==> q - 16 in h'.owned && h'.owned[q - 16].size == size && h'.owned[q - 16].cls == k)
  }

  /** Where `malloc` puts a request, and when it gives none. */
  ghost predicate Placed(h: Heap, h': Heap, n: int, answer: int, q: int)
    requires |h.heads| == 12
  {
    if n < 0 || n > 0x1000_0000_0000 then q == 0
    else if n + 16 > 65536 then q == if answer <= 0 then 0 else answer + 16
    else forall k: nat :: IsLeastClass(k, n + 16) ==> PlacedIn(h, h', k, answer, q)
  }

  /** A freed block of a class heads its list; one mapped alone is gone. */
  ghost predicate Returned(h: Heap, h': Heap, p: int)
    requires p in h.owned
  {
    var k := h.owned[p].cls;
    && h'.cur == h.cur && h'.left == h.left
    && (if k < 0 then p !in h'.owned && p !in h'.regions && h'.heads == h.heads
        else k < |h.heads| && h'.heads == h.heads[k := p] && h'.regions == h.regions)
  }

  class Allocator {
    var mem: map<int, int>
    var freel: array<int>
    var cur: int
    var left: int
    ghost var owned: map<int, Block>
    ghost var lists: seq<seq<int>>
    ghost var curBase: int
    ghost var regions: map<int, nat>
    ghost var chunks: nat
    ghost var waste: nat

    /** The concrete fields and their ghost account, as one value. */
    ghost function State(): Heap
      reads this, freel
    {
      Heap(mem, owned, lists, freel[..], cur, left, curBase, regions, chunks, waste)
    }

    ghost predicate Valid()
      reads this, freel
    {
      freel.Length == CLASSES && HeapOk(State())
    }

    /** The program's start: nothing mapped. */
    constructor ()
      ensures Valid() && Live(State()) == {} && regions == map[] && fresh(freel)
    {
      mem := map[];
      freel := new int[CLASSES](i => 0);
      cur, left := 0, 0;
      owned, lists, curBase, regions, chunks, waste := map[], seq(CLASSES, i => []), 0, map[], 0, 0;
      new;
      assert Live(State()) == {};
      forall k | 0 <= k < CLASSES
        ensures ListOk(State(), k)
      {
        assert State().lists[k] == [];
      }
    }

    /** Take the head of list `k`. */
    method Pop(k: nat) returns (p: int)
      requires Valid() && k < CLASSES && freel[k] != 0
      modifies this`owned, this`lists, freel
      ensures Valid() && old(lists)[k] != [] && old(lists)[k][0] in old(owned)
      ensures State() == Popped(old(State()), k) && p == old(lists)[k][0]
    {
      hide BlockBytes, ClassSize, Conserved, BumpOk, BlocksOk;
      ghost var h := State();
      HeadIs(h, k);
      PoppedOk(h, k);
      p := freel[k];
      freel[k] := Word(mem, p + 16);
      owned := owned[p := owned[p].(live := true)];
      lists := lists[k := lists[k][1..]];
      assert State() == Popped(h, k);
    }

    /** Cut a block of class `k` off the bump area. */
    method Bump(k: nat, sz: nat) returns (p: int)
      requires Valid() && k < CLASSES && sz == ClassSize(k) && left >= sz
      modifies this`owned, this`mem, this`cur, this`left
      ensures Valid() && State() == Bumped(old(State()), k) && p == old(cur)
    {
      hide BlockBytes, ClassSize, Conserved, BumpOk, BlocksOk, ListsOk;
      ghost var h := State();
      BumpedOk(h, k);
      p := cur;
      cur := cur + sz;
      left := left - sz;
      mem := mem[p := sz];
      mem := mem[p + 8 := k];
      owned := owned[p := Block(sz, k, true, curBase)];
      assert State() == Bumped(h, k);
    }

    /** A new chunk for the bump area. */
    method NewChunk(r: int)
      requires Valid() && FreshAt(State(), r, CHUNK)
      modifies this`cur, this`left, this`curBase, this`regions, this`chunks, this`waste
      ensures Valid() && State() == Chunked(old(State()), r)
    {
      hide BlockBytes, Conserved, BumpOk, BlocksOk, ListsOk;
      ghost var h := State();
      ChunkedOk(h, r);
      waste := waste + Pos(left);
      cur, left, curBase := r, CHUNK, r;
      regions, chunks := regions[r := CHUNK], chunks + 1;
      assert State() == Chunked(h, r);
    }

    /** A block on a mapping of its own. */
    method MapAlone(r: int, sz: nat)
      requires Valid() && FreshAt(State(), r, sz) && sz >= 32 && sz % 32 == 0
      modifies this`mem, this`owned, this`regions
      ensures Valid() && State() == Mapped(old(State()), r, sz)
    {
      hide BlockBytes, Conserved, BumpOk, BlocksOk, ListsOk;
      ghost var h := State();
      MappedOk(h, r, sz);
      mem := mem[r := sz];
      mem := mem[r + 8 := -1];
      owned := owned[r := Block(sz, -1, true, r)];
      regions := regions[r := sz];
      assert State() == Mapped(h, r, sz);
    }

    /**
     `malloc`.  `answer` is what the system would answer to a mapping request: not positive,
     or a fresh page-aligned place for `MapSize(n)` bytes.
     */
    method Malloc(n: int, answer: int) returns (q: int)
      requires Valid()
      requires 0 <= n <= LIMIT && answer > 0 ==> FreshAt(State(), answer, MapSize(n))
      modifies this, freel
      ensures Valid() && freel == old(freel)
      ensures q == 0 ==> State() == old(State()) && (n < 0 || n > LIMIT || answer <= 0)
      ensures q != 0 ==> 0 <= n <= LIMIT && HandedOut(old(State()), State(), q, n)
      ensures n < 0 || n > LIMIT ==> q == 0
      ensures Placed(old(State()), State(), n, answer, q)
    {
      hide BlockBytes, ClassSize, HeapOk, HandedOut, IsLeastClass, PlacedIn;
      if n < 0 || n > LIMIT {
        return 0;
      }
      ghost var h := State();
      var sz := n + 16;
      if sz > 65536 {
        sz := RoundUp(sz);
        if answer <= 0 {
          return 0;
        }
        MappedHands(h, answer, sz, n);
        MapAlone(answer, sz);
        return answer + 16;
      }
      q := MallocSmall(n, sz, answer);
    }

    method MallocSmall(n: int, sz0: nat, answer: int) returns (q: int)
      requires Valid() && n >= 0 && sz0 == n + 16 <= 65536
      requires answer > 0 ==> FreshAt(State(), answer, CHUNK)
      modifies this, freel
      ensures Valid() && freel == old(freel)
      ensures q == 0 ==> State() == old(State()) && answer <= 0
      ensures q != 0 ==> HandedOut(old(State()), State(), q, n)
      ensures forall k: nat :: IsLeastClass(k, sz0) ==> PlacedIn(old(State()), State(), k, answer, q)
    {
      hide BlockBytes, ClassSize, HeapOk, HandedOut, IsLeastClass;
      ghost var h := State();
      var k, sz := PickClass(sz0);
      OnlyClass(k, sz0);
      ClassBytes(k);
      if freel[k] != 0 {
        HeadIs(h, k);
        PoppedHands(h, k, n);
        var p := Pop(k);
        q := p + 16;
        HandedIsPositive(h, State(), q, n);
        return;
      }
      if left < sz {
        if answer <= 0 {
          return 0;
        }
        ClassFits(k);
        ChunkedOk(h, answer);
        BumpedHands(Chunked(h, answer), k, n);
        ChunkedHands(h, answer, k, n);
        NewChunk(answer);
      } else {
        BumpedHands(h, k, n);
      }
      var p := Bump(k, sz);
      q := p + 16;
      HandedIsPositive(h, State(), q, n);
    }

    /** The class loop: the smallest power-of-two block that holds header and request. */
    method PickClass(sz: nat) returns (k: nat, size: nat)
      requires 0 < sz <= 65536
      ensures k < CLASSES && size == ClassSize(k) >= sz && (k > 0 ==> ClassSize(k - 1) < sz)
      ensures IsLeastClass(k, sz)
    {
      hide ClassSize, IsLeastClass;
      Doubling(0);
      k, size := 0, 32;
      while size < sz
        invariant size == ClassSize(k) && k < CLASSES && (k > 0 ==> ClassSize(k - 1) < sz)
        invariant k == 11 ==> size == 65536
        invariant size * Pow(2, 11 - k) == 65536
      {
        Doubling(k);
        LastClass(k, size);
        k, size := k + 1, size * 2;
      }
      LeastIs(k, sz);
    }

    /** `free`: a block of a class goes on its list, one mapped alone back to the system. */
    method Free(q: int)
      requires Valid() && (q == 0 || q - 16 in Live(State()))
      modifies this, freel
      ensures Valid() && freel == old(freel)
      ensures q == 0 ==> State() == old(State())
      ensures q != 0 ==> Live(State()) == Live(old(State())) - {q - 16} && KeepsLive(old(State()), State(), q - 16)
      ensures q != 0 ==> q - 16 in old(owned) && Returned(old(State()), State(), q - 16)
      ensures cur == old(cur) && left == old(left)
    {
      hide BlockBytes, ClassSize, HeapOk, KeepsLive, Live;
      if q == 0 {
        return;
      }
      ghost var h := State();
      var p := q - 16;
      LiveClass(h, p);
      var k := Word(mem, p + 8);
      if k < 0 {
        UnmappedOk(h, p);
        UnmappedKeepsLive(h, p);
        owned, regions := owned - {p}, regions - {p};
        assert State() == Unmapped(h, p);
        return;
      }
      LiveIsLive(h, p);
      PushedKeepsLive(h, p);
      PushedHeap(h, p);
      mem := mem[p + 16 := freel[k]];
      owned := owned[p := owned[p].(live := false)];
      lists := lists[k := [p] + lists[k]];
      freel[k] := p;
      assert State() == Pushed(h, p);
    }

    /** A word store into a handed-out payload: the program's own writes, and the copy loops'. */
    method Store(q: int, i: nat, v: int)
      requires Valid() && q - 16 in Live(State()) && 8 * i + 8 <= owned[q - 16].size - 16
      modifies this`mem
      ensures Valid() && State() == Stored(old(State()), q + 8 * i, v)
      ensures Live(State()) == Live(old(State())) && KeepsLive(old(State()), State(), q - 16)
    {
      hide BlockBytes, ClassSize, HeapOk, KeepsLive, WordsApart, PayloadAt, Live;
      LiveClass(State(), q - 16);
      LiveIsLive(State(), q - 16);
      PayloadWordAt(State(), q - 16, i);
      StoredOk(State(), q - 16, q + 8 * i, v);
      StoredKeepsLive(State(), q - 16, q + 8 * i, v);
      mem := mem[q + 8 * i := v];
    }

    /** `calloc`: as `malloc` of the product, every payload word asked for zeroed. */
    method Calloc(n: int, sz: int, answer: int) returns (q: int)
      requires Valid()
      requires n >= 0 && sz >= 0 && n * sz <= LIMIT && answer > 0 ==> FreshAt(State(), answer, MapSize(n * sz))
      modifies this, freel
      ensures Valid() && freel == old(freel)
      ensures q == 0 ==> State() == old(State()) && (n < 0 || sz < 0 || n * sz > LIMIT || answer <= 0)
      ensures q != 0 ==> 0 <= n * sz <= LIMIT && HandedOut(old(State()), State(), q, n * sz)
      ensures q != 0 ==> ZeroWords(State(), q - 16, (n * sz + 7) / 8)
      ensures n >= 0 && sz >= 0 ==> Placed(old(State()), State(), n * sz, answer, q)
    {
      hide BlockBytes, ClassSize, HeapOk, HandedOut, KeepsLive, Stored, PayloadWord, Live, IsLeastClass;
      if n < 0 || sz < 0 {
        return 0;
      }
      ghost var h := State();
      if sz != 0 {
        ProductGuard(n, sz);
        if n > LIMIT / sz {
          return 0;
        }
      }
      var total: nat := n * sz;
      q := Malloc(total, answer);
      if q == 0 {
        return;
      }
      ghost var h1 := State();
      HandedFacts(h, h1, q, total);
      ghost var size: nat := owned[q - 16].size;
      WordsFit(total, size);
      ZeroFill(q, (total + 7) / 8);
      HandedThenKept(h, h1, State(), q, total);
      PlacedKept(h, h1, State(), total, answer, q);
    }

    /** The word loop of `calloc`. */
    method ZeroFill(q: int, w: nat)
      requires Valid() && q - 16 in Live(State()) && 8 * w <= owned[q - 16].size - 16
      modifies this`mem
      ensures Valid() && Live(State()) == Live(old(State())) && KeepsLive(old(State()), State(), q - 16)
      ensures owned == old(owned) && ZeroWords(State(), q - 16, w)
    {
      hide BlockBytes, ClassSize, HeapOk, KeepsLive, Stored, PayloadWord, Live, ZeroWords;
      ghost var h := State();
      KeepsSelf(h, q - 16);
      ZeroNone(h, q - 16);
      var i := 0;
      while i < w
        invariant 0 <= i <= w && Valid()
        invariant Live(State()) == Live(h) && owned == h.owned && KeepsLive(h, State(), q - 16)
        invariant ZeroWords(State(), q - 16, i)
      {
        ghost var before := State();
        Store(q, i, 0);
        ZeroStep(before, q - 16, i);
        StoredOwned(before, q + 8 * i, 0);
        KeepsTrans(h, before, State(), q - 16);
        i := i + 1;
      }
    }

    /**
     `realloc`.  A block that is kept is kept whole; a block that moves takes its first
     min(n, capacity) bytes along, in whole words, and the old one is freed.
     */
    method Realloc(q: int, n: int, answer: int) returns (r: int)
      requires Valid() && (q == 0 || q - 16 in Live(State()))
      requires 0 <= n <= LIMIT && answer > 0 ==> FreshAt(State(), answer, MapSize(n))
      modifies this, freel
      ensures Valid() && freel == old(freel)
      ensures r == 0 || r == q ==> State() == old(State())
      ensures r == q != 0 ==> 0 <= n <= old(owned)[q - 16].size - 16
      ensures r == 0 ==> n < 0 || n > LIMIT || answer <= 0
      ensures q != 0 && n >= 0 ==>
        var cap := old(owned)[q - 16].size - 16;
        if n <= cap && (cap <= 65536 || n > cap / 2) then r == q
        else r != q && Placed(old(State()), State(), n, answer, r)
      ensures q == 0 ==> Placed(old(State()), State(), n, answer, r)
      ensures r != 0 && q == 0 ==> HandedOut(old(State()), State(), r, n)
      ensures r != 0 && q != 0 && r != q ==> Moved(old(State()), State(), q, r, n)
    {
      hide BlockBytes, ClassSize, HeapOk, HandedOut, KeepsLive, Moved, Live;
      if q == 0 {
        r := Malloc(n, answer);
        return;
      }
      if n < 0 {
        return 0;
      }
      ghost var h := State();
      LiveClass(h, q - 16);
      var cap := Word(mem, q - 16) - 16;
      if n <= cap && (cap <= 65536 || n > cap / 2) {
        return q;
      }
      r := MoveBlock(q, n, cap, answer);
    }

    /** The moving half: a new block, the copy, and the old block freed. */
    method MoveBlock(q: int, n: nat, cap0: nat, answer: int) returns (r: int)
      requires Valid() && q - 16 in Live(State()) && cap0 == owned[q - 16].size - 16
      requires n <= LIMIT && answer > 0 ==> FreshAt(State(), answer, MapSize(n))
      modifies this, freel
      ensures Valid() && freel == old(freel)
      ensures r == 0 ==> State() == old(State()) && (n > LIMIT || answer <= 0)
      ensures r != 0 ==> r != q && Moved(old(State()), State(), q, r, n)
      ensures q != 0 ==> r != q && Placed(old(State()), State(), n, answer, r)
    {
      hide BlockBytes, ClassSize, HeapOk, HandedOut, KeepsLive, Moved, Live, SameWords, Placed, Returned;
      ghost var h := State();
      LiveClass(h, q - 16);
      r := Malloc(n, answer);
      if r == 0 {
        return;
      }
      ghost var h1 := State();
      HandedFacts(h, h1, r, n);
      NewIsOther(h, h1, q, r, n);
      var cap := if n < cap0 then n else cap0;
      ghost var room: nat := owned[r - 16].size;
      WordsFit(cap, cap0 + 16);
      WordsFit(cap, room);
      ghost var h2 := CopyAndFree(q, r, (cap + 7) / 8);
      PlacedKept(h, h1, State(), n, answer, r);
      MovedBy(h, h1, h2, State(), q, r, n, cap);
    }

    /** The copy and the freeing, with the heap between them. */
    method CopyAndFree(q: int, r: int, w: nat) returns (ghost mid: Heap)
      requires Valid() && q - 16 in Live(State()) && r - 16 in Live(State()) && q != r && q != 0
      requires 8 * w <= owned[q - 16].size - 16 && 8 * w <= owned[r - 16].size - 16
      modifies this, freel
      ensures Valid() && freel == old(freel) && cur == old(cur) && left == old(left)
      ensures r - 16 in owned && owned[r - 16] == old(owned)[r - 16]
      ensures Live(mid) == Live(old(State())) && KeepsLive(old(State()), mid, r - 16)
      ensures r - 16 in mid.owned && mid.owned[r - 16] == old(owned)[r - 16]
      ensures SameWords(old(State()), q - 16, mid, r - 16, w)
      ensures Live(State()) == Live(mid) - {q - 16} && KeepsLive(mid, State(), q - 16)
    {
      hide BlockBytes, ClassSize, HeapOk, KeepsLive, Live, SameWords, Returned;
      LiveIsLive(State(), r - 16);
      CopyWords(q, r, w);
      mid := State();
      Free(q);
      KeptOther(mid, State(), r - 16, q - 16);
    }

    /** The word copy loop. */
    method CopyWords(q: int, r: int, w: nat)
      requires Valid() && q - 16 in Live(State()) && r - 16 in Live(State()) && q != r
      requires 8 * w <= owned[q - 16].size - 16 && 8 * w <= owned[r - 16].size - 16
      modifies this`mem
      ensures Valid() && Live(State()) == Live(old(State())) && KeepsLive(old(State()), State(), r - 16)
      ensures owned == old(owned)
      ensures SameWords(old(State()), q - 16, State(), r - 16, w)
    {
      hide BlockBytes, ClassSize, HeapOk, KeepsLive, Stored, PayloadWord, Live;
      ghost var h := State();
      KeepsSelf(h, r - 16);
      var i := 0;
      while i < w
        invariant 0 <= i <= w && Valid()
        invariant Live(State()) == Live(h) && owned == h.owned && KeepsLive(h, State(), r - 16)
        invariant SameWords(h, q - 16, State(), r - 16, i)
      {
        ghost var before := State();
        KeptWords(h, before, q - 16, r - 16, w);
        WordIs(before, q - 16, i);
        Store(r, i, Word(mem, q + 8 * i));
        StoredWords(before, r - 16, i, PayloadWord(before, q - 16, i));
        StoredOwned(before, r + 8 * i, PayloadWord(before, q - 16, i));
        KeepsTrans(h, before, State(), r - 16);
        i := i + 1;
      }
    }

    /** A freed block serves the next request of its class, whatever the system would answer. */
    method FreeThenMalloc(q: int, n: int, answer: int, ghost k: nat) returns (r: int)
      requires Valid() && q - 16 in Live(State()) && owned[q - 16].cls == k && IsLeastClass(k, n + 16) && n >= 0
      requires answer > 0 ==> FreshAt(State(), answer, CHUNK)
      modifies this, freel
      ensures Valid() && r == q
    {
      hide BlockBytes, ClassSize, HeapOk, KeepsLive, Live, HandedOut, IsLeastClass;
      SmallRequest(k, n);
      LiveClass(State(), q - 16);
      Free(q);
      ghost var h := State();
      r := Malloc(n, answer);
      PlacedOnly(h, State(), n, answer, r, k);
    }

    /** `p = malloc(n); free(p); malloc(n')` gives `p` again when both need the same class. */
    method Again(n: int, n': int, answer: int, ghost k: nat) returns (p: int, r: int)
      requires Valid() && n >= 0 && n' >= 0 && IsLeastClass(k, n + 16) && IsLeastClass(k, n' + 16)
      requires answer > 0 ==> FreshAt(State(), answer, CHUNK)
      modifies this, freel
      ensures Valid() && (p != 0 ==> r == p)
    {
      hide BlockBytes, ClassSize, HeapOk, KeepsLive, Live, HandedOut, IsLeastClass, FreshAt;
      SmallRequest(k, n);
      ghost var h := State();
      p := Malloc(n, answer);
      PlacedOnly(h, State(), n, answer, p, k);
      if p != 0 {
        HandedFacts(h, State(), p, n);
        r := FreeThenMalloc(p, n', 0, k);
      } else {
        r := 0;
      }
    }
  }

  /** What a moving `realloc` leaves: the new block for the old one, the common prefix kept. */
  ghost predicate Moved(h: Heap, h': Heap, q: int, r: int, n: int)
    requires q - 16 in h.owned
  {
    && r % 16 == 0 && r - 16 !in Live(h) && 0 <= n && h.owned[q - 16].size >= 32
    && Live(h') == Live(h) - {q - 16} + {r - 16}
    && r - 16 in h'.owned && h'.owned[r - 16].size >= n + 16
    && (forall p :: p in Live(h) && p != q - 16 ==> SamePayload(h, h', p))
    && SameWords(h, q - 16, h', r - 16, (Least(n, h.owned[q - 16].size - 16) + 7) / 8)
  }

  function Least(a: int, b: int): int {
    if a < b then a else b
  }

  lemma WordsFit(cap: nat, size: nat)
    requires cap + 16 <= size && size % 32 == 0
    ensures 0 <= 8 * ((cap + 7) / 8) <= size - 16
  {
    var k, w := size / 32, (cap + 7) / 8;
    assert size == 32 * k && 8 * w <= cap + 7;
    assert w <= 4 * k - 2;
  }

  lemma {:induction false} MovedBy(h: Heap, h1: Heap, h2: Heap, h3: Heap, q: int, r: int, n: int, cap: int)
    requires HandedOut(h, h1, r, n) && n >= 0 && q - 16 in Live(h) && q != r
    requires h.owned[q - 16].size >= 32 && cap == Least(n, h.owned[q - 16].size - 16)
    requires h.owned[q - 16].size % 8 == 0
    requires Live(h2) == Live(h1) && KeepsLive(h1, h2, r - 16) && SameWords(h1, q - 16, h2, r - 16, (cap + 7) / 8)
    requires r - 16 in h2.owned && h2.owned[r - 16] == h1.owned[r - 16]
    requires Live(h3) == Live(h2) - {q - 16} && KeepsLive(h2, h3, q - 16)
    ensures Moved(h, h3, q, r, n)
  {
    var w := (cap + 7) / 8;
    KeptWords(h, h1, q - 16, r - 16, w);
    assert r - 16 in Live(h2);
    assert SamePayload(h2, h3, r - 16);
    assert 8 * w <= h2.owned[r - 16].size - 16 + 7;
    PrefixKept(h2, h3, r - 16, w);
    KeepsTrans(h, h1, h2, r - 16);
    forall p | p in Live(h) && p != q - 16
      ensures SamePayload(h, h3, p)
    {
      assert SamePayload(h, h2, p) && SamePayload(h2, h3, p);
    }
  }

  lemma PrefixKept(h: Heap, h': Heap, p: int, w: nat)
    requires p in h.owned && SamePayload(h, h', p) && 8 * w <= h.owned[p].size - 16 + 7
    ensures SameWords(h, p, h', p, w)
  {
  }

  lemma PayloadWordAt(h: Heap, p: int, i: nat)
    requires p in h.owned && p % 16 == 0 && 8 * i + 8 <= h.owned[p].size - 16
    ensures PayloadAt(h, p, p + 16 + 8 * i)
  {
    var k := p / 16;
    assert p + 16 + 8 * i == 8 * (2 * k + 2 + i);
  }

  lemma LiveIsLive(h: Heap, p: int)
    requires p in Live(h)
    ensures p in h.owned && h.owned[p].live
  {
  }

  lemma PushedHeap(h: Heap, p: int)
    requires HeapOk(h) && p in h.owned && h.owned[p].live && 0 <= h.owned[p].cls < CLASSES
    ensures HeapOk(Pushed(h, p)) && |h.lists| == CLASSES
  {
    PushedOk(h, p);
  }

  lemma KeepsSelf(h: Heap, x: int)
    ensures KeepsLive(h, h, x)
  {
  }

  /** One store changes one payload word of its block. */
  lemma {:induction false} StoredWords(h: Heap, p: int, i: nat, v: int)
    ensures PayloadWord(Stored(h, p + 16 + 8 * i, v), p, i) == v
    ensures forall j: nat :: j != i ==> PayloadWord(Stored(h, p + 16 + 8 * i, v), p, j) == PayloadWord(h, p, j)
  {
  }

  lemma {:induction false} ZeroStep(h: Heap, p: int, i: nat)
    requires ZeroWords(h, p, i)
    ensures ZeroWords(Stored(h, p + 16 + 8 * i, 0), p, i + 1)
  {
    StoredWords(h, p, i, 0);
    hide Stored, PayloadWord;
    var h' := Stored(h, p + 16 + 8 * i, 0);
    forall j: nat | j < i + 1
      ensures PayloadWord(h', p, j) == 0
    {
      if j != i {
        assert PayloadWord(h, p, j) == 0;
      }
    }
  }

  lemma ZeroNone(h: Heap, p: int)
    ensures ZeroWords(h, p, 0)
  {
  }

  lemma StoredOwned(h: Heap, a: int, v: int)
    ensures Stored(h, a, v).owned == h.owned
  {
  }

  lemma WordIs(h: Heap, p: int, i: nat)
    ensures PayloadWord(h, p, i) == Word(h.mem, p + 16 + 8 * i)
  {
  }

  lemma HandedFacts(h: Heap, h': Heap, q: int, n: int)
    requires HandedOut(h, h', q, n) && HeapOk(h')
    ensures q - 16 in Live(h') && q - 16 in h'.owned && h'.owned[q - 16].size >= n + 16
    ensures h'.owned[q - 16].size % 32 == 0 && q - 16 !in Live(h)
  {
  }

  /** The new block is not the old one, which is still there. */
  lemma {:induction false} NewIsOther(h: Heap, h': Heap, q: int, r: int, n: int)
    requires HandedOut(h, h', r, n) && q - 16 in Live(h)
    ensures q != r && q - 16 in Live(h') && q - 16 in h'.owned && h'.owned[q - 16] == h.owned[q - 16]
  {
  }

  /** The guard by division refuses exactly the products past the limit. */
  lemma {:induction false} ProductGuard(n: nat, sz: nat)
    requires sz > 0
    ensures n > LIMIT / sz <==> n * sz > LIMIT
  {
    var d := LIMIT / sz;
    assert d * sz <= LIMIT < d * sz + sz;
    if n > d {
      MulLe(d + 1, n, sz);
      Distrib(d, 1, sz);
    } else {
      MulLe(n, d, sz);
    }
  }

  lemma KeptOther(h: Heap, h': Heap, p: int, x: int)
    requires KeepsLive(h, h', x) && p in Live(h) && p != x
    ensures p in h'.owned && h'.owned[p] == h.owned[p]
  {
    assert SamePayload(h, h', p);
  }

  /** What happens to memory and other blocks afterwards does not change it. */
  lemma PlacedKept(h: Heap, h1: Heap, h2: Heap, n: int, answer: int, q: int)
    requires |h.heads| == 12 && Placed(h, h1, n, answer, q) && h2.cur == h1.cur && h2.left == h1.left
    requires q != 0 && q - 16 in h1.owned ==> q - 16 in h2.owned && h2.owned[q - 16] == h1.owned[q - 16]
    ensures Placed(h, h2, n, answer, q)
  {
    hide Pow;
    forall k: nat | IsLeastClass(k, n + 16) && 0 <= n && n + 16 <= 65536
      ensures PlacedIn(h, h2, k, answer, q)
    {
      SmallRequest(k, n);
      assert PlacedIn(h, h1, k, answer, q);
    }
  }

  lemma PlacedOnly(h: Heap, h': Heap, n: int, answer: int, q: int, k: nat)
    requires |h.heads| == 12 && Placed(h, h', n, answer, q) && n >= 0 && IsLeastClass(k, n + 16)
    ensures k < 12 && PlacedIn(h, h', k, answer, q)
  {
    SmallRequest(k, n);
    hide PlacedIn;
  }

  /** A request with a class needs no mapping of its own. */
  lemma SmallRequest(k: nat, n: int)
    requires n >= 0 && IsLeastClass(k, n + 16)
    ensures n + 16 <= 65536 && MapSize(n) == CHUNK && n <= LIMIT
  {
    PowMono(2, k, 11);
    Doubling(0);
  }

  lemma ClassBytes(k: nat)
    ensures ClassSize(k) == 32 * Pow(2, k)
  {
  }

  lemma LeastIs(k: nat, sz: int)
    requires k < CLASSES && ClassSize(k) >= sz && (k > 0 ==> ClassSize(k - 1) < sz)
    ensures IsLeastClass(k, sz)
  {
  }

  lemma {:induction false} OnlyClass(k: nat, sz: int)
    requires IsLeastClass(k, sz)
    ensures forall j: nat :: IsLeastClass(j, sz) ==> j == k
  {
    hide Pow;
    forall j: nat | IsLeastClass(j, sz)
      ensures j == k
    {
      if j < k {
        PowMono(2, j, k - 1);
      } else if k < j {
        PowMono(2, k, j - 1);
      }
    }
  }

  lemma Doubling(k: nat)
    ensures ClassSize(0) == 32 && ClassSize(k + 1) == 2 * ClassSize(k)
    ensures 32 * Pow(2, 11) == 65536
  {
  }

  lemma {:induction false} LastClass(k: nat, size: nat)
    requires k < CLASSES && size * Pow(2, 11 - k) == 65536 && size < 65536
    ensures k < 11 && 2 * size * Pow(2, 10 - k) == 65536
    ensures k == 10 ==> 2 * size == 65536
  {
    PowZero(2);
    if k < 11 {
      PowSucc(2, 10 - k);
      TimesSwap(size, Pow(2, 10 - k));
    }
  }

  lemma TimesSwap(x: nat, p: nat)
    ensures x * (2 * p) == 2 * x * p
  {
  }

  lemma {:induction false} ClassFits(k: nat)
    requires k < CLASSES
    ensures ClassSize(k) <= CHUNK
  {
    PowMono(2, k, 11);
    Doubling(0);
  }

  lemma HeadIs(h: Heap, k: nat)
    requires HeapOk(h) && k < CLASSES && h.heads[k] != 0
    ensures h.lists[k] != [] && h.lists[k][0] == h.heads[k] && h.heads[k] in h.owned
    ensures h.owned[h.heads[k]].cls == k && h.owned[h.heads[k]].size == ClassSize(k)
  {
    hide ClassSize;
    assert ListOk(h, k);
    assert BlockOk(h, h.heads[k]);
  }

  lemma HandedIsPositive(h: Heap, h': Heap, q: int, n: int)
    requires HandedOut(h, h', q, n)
    ensures q != 0
  {
  }

  /** A new chunk changes nothing a caller sees. */
  lemma {:induction false} ChunkedHands(h: Heap, r: int, k: nat, n: int)
    requires HandedOut(Chunked(h, r), Bumped(Chunked(h, r), k), r + 16, n)
    ensures HandedOut(h, Bumped(Chunked(h, r), k), r + 16, n)
  {
  }
}
