/**
 The buffered stream table: eight slots keyed by descriptor, one 4096-byte buffer per
 slot that holds either unread or unwritten bytes, and one pushed-back byte.
 The parallel tables of the source are one array of records here; the buffer is one
 array, a chunk per slot, as in the source.  The descriptor gates are fault-free.
 */
module Stdio {
  import opened StreamSpec
  import Arith

  const NST: nat := 8
  /** The largest request `fwrite` takes. */
  const MAXW: nat := 0x7fff_ffff_ffff_ffff

  const BUFSZ: nat := 4096

  /** One row of the stream tables. */
  datatype Slot = Slot(fd: int, eof: bool, err: bool, ung: int, bpos: nat, blen: nat, wlen: nat, ro: bool)

  /** What the operating system keeps for a descriptor of a regular file. */
  datatype OsFile = OsFile(data: seq<nat>, pos: nat, canRead: bool, canWrite: bool)

  /** Unread bytes in the buffer. */
  function Unread(s: Slot): int {
    s.blen - s.bpos
  }

  /**
   A slot, its buffer chunk and its descriptor together show stream `st`.  The buffer
   holds unread or unwritten bytes, never both; unread bytes are the file's, just before
   the descriptor's offset.
   */
  ghost predicate Shows(s: Slot, c: seq<nat>, f: OsFile, st: Stream) {
    && s.fd > 2 && |c| == BUFSZ && s.bpos <= s.blen <= BUFSZ && s.wlen <= BUFSZ && -1 <= s.ung < 256
    && s.ro == !f.canWrite
    && (s.wlen > 0 ==> s.bpos == s.blen && f.canWrite)
    && (s.bpos < s.blen ==> f.canRead && Unread(s) <= f.pos <= |f.data| && c[s.bpos..s.blen] == f.data[f.pos - Unread(s)..f.pos])
    && (s.ung >= 0 ==> f.pos + s.wlen > Unread(s))
    && st == Stream(Put(f.data, f.pos, c[..s.wlen]), f.pos - Unread(s) + s.wlen, s.ung, s.eof, s.err, f.canRead, f.canWrite, st.waits)
    && (s.wlen > 0 ==> st.waits)
  }

  /** The stream after its read side was dropped for a write: at the place of a pushed-back byte.  With
      output waiting, that output is what moves. */
  function GivenBack(st: Stream, o: OsFile, pending: seq<nat>): Stream {
    if st.pushed >= 0 && pending != [] then
      var at := if o.pos > 0 then o.pos - 1 else 0;
      st.(data := Put(o.data, at, pending), pos := at + |pending|, pushed := -1)
    else st.(pos := Max(Tell(st), 0), pushed := -1)
  }

  /** The stream after `_u_st_wput`. */
  function AfterPut(st: Stream, o: OsFile, pending: seq<nat>, p: seq<nat>): Stream {
    if p == [] || !st.canWrite then AfterWrite(st, p)
    else
      var g := GivenBack(st, o, pending);
      g.(data := Put(g.data, g.pos, p), pos := g.pos + |p|, waits := true)
  }

  /** Do all waiting bytes repeat the byte before them in the file? */
  predicate Repeating(st: Stream, pending: seq<nat>) {
    pending == [] ||
    (0 < st.pos - |pending| <= |st.data| && forall k :: 0 <= k < |pending| ==> pending[k] == st.data[st.pos - |pending| - 1])
  }

  /** What waits after a write of `p` behind `w`. */
  function NextPending(w: seq<nat>, p: seq<nat>): seq<nat> {
    if |p| >= BUFSZ then [] else if |w| + |p| > BUFSZ then p else w + p
  }

  /** The flags `fgetc` leaves. */
  function Got(st: Stream, got: bool): Stream {
    if got then st.(eof := false, err := false) else st.(eof := true)
  }

  /** How many bytes are pushed back. */
  function Back(s: Slot): nat {
    if s.ung >= 0 then 1 else 0
  }

  /** How far the descriptor is ahead after a read of `want` bytes from a stream it is `ahead` of: a
      small request that empties the buffer fills it again. */
  function AheadAfter(st: Stream, ahead: nat, want: nat): int {
    var need := want - (if st.pushed >= 0 then 1 else 0) - ahead;
    if need <= 0 then 0 - need
    else if st.canRead && need < BUFSZ then
      var filled := |Slice(st.data, st.pos + ahead, BUFSZ)|; filled - Min(filled, need)
    else 0
  }

  /** The waiting output of a slot with chunk `c`. */
  function Waiting(s: Slot, c: seq<nat>): seq<nat> {
    if s.wlen <= |c| then c[..s.wlen] else []
  }

  function Chunk(b: seq<nat>, i: nat): seq<nat>
    requires |b| == NST * BUFSZ && i < NST
  {
    b[i * BUFSZ..i * BUFSZ + BUFSZ]
  }

  /** The whole table shows the reference streams `m`, one per open descriptor. */
  ghost predicate TableShows(t: seq<Slot>, b: seq<nat>, os: map<int, OsFile>, m: map<int, Stream>) {
    && |t| <= NST && |b| == NST * BUFSZ
    && (forall i, j :: 0 <= i < j < |t| ==> t[i].fd != t[j].fd)
    && (forall i :: 0 <= i < |t| ==> t[i].fd in m && t[i].fd in os && Shows(t[i], Chunk(b, i), os[t[i].fd], m[t[i].fd]))
    && (forall f :: f in m ==> exists i :: 0 <= i < |t| && t[i].fd == f)
  }

  /** What the table says of one row. */
  lemma RowKnown(t: seq<Slot>, b: seq<nat>, os: map<int, OsFile>, m: map<int, Stream>, i: nat)
    requires TableShows(t, b, os, m) && i < |t|
    ensures |t| <= NST && |b| == NST * BUFSZ && t[i].fd in m && t[i].fd in os
    ensures Shows(t[i], Chunk(b, i), os[t[i].fd], m[t[i].fd])
  {
  }

  /** One slot changed: its own chunk, row, file and stream, nothing else. */
  lemma {:induction false} UpdateShows(
      t: seq<Slot>, b: seq<nat>, os: map<int, OsFile>, m: map<int, Stream>,
      i: nat, s': Slot, b': seq<nat>, f': OsFile, st': Stream)
    requires TableShows(t, b, os, m) && i < |t| && s'.fd == t[i].fd && |b'| == |b|
    requires forall j :: 0 <= j < |t| && j != i ==> Chunk(b', j) == Chunk(b, j)
    requires Shows(s', Chunk(b', i), f', st')
    ensures TableShows(t[i := s'], b', os[t[i].fd := f'], m[t[i].fd := st'])
  {
    hide Shows;
    var t', m' := t[i := s'], m[t[i].fd := st'];
    forall f | f in m'
      ensures exists j :: 0 <= j < |t'| && t'[j].fd == f
    {
      if f == t[i].fd {
        assert t'[i].fd == f;
      } else {
        var j :| 0 <= j < |t| && t[j].fd == f;
        assert t'[j].fd == f;
      }
    }
  }

  /** Waiting bytes reach the descriptor: the stream shown is the same. */
  lemma {:induction false} FlushShows(s: Slot, c: seq<nat>, f: OsFile, st: Stream)
    requires Shows(s, c, f, st)
    ensures Shows(s.(wlen := 0), c, OsFile(Put(f.data, f.pos, c[..s.wlen]), f.pos + s.wlen, f.canRead, f.canWrite), st)
  {
  }

  lemma PutNothing(d: seq<nat>, p: nat)
    ensures Put(d, p, []) == d
  {
  }

  /** A flushed slot with nothing unread or pushed back is the descriptor itself. */
  lemma {:induction false} BareShows(s: Slot, c: seq<nat>, f: OsFile)
    requires s.fd > 2 && |c| == BUFSZ && s.bpos == s.blen == 0 && s.wlen == 0 && s.ung == -1 && s.ro == !f.canWrite
    ensures Shows(s, c, f, Stream(f.data, f.pos, -1, s.eof, s.err, f.canRead, f.canWrite, false))
  {
  }

  /** What a flushed slot shows. */
  lemma {:induction false} FlushedShows(s: Slot, c: seq<nat>, f: OsFile, st: Stream)
    requires Shows(s, c, f, st) && s.wlen == 0
    ensures st.data == f.data && st.pos == f.pos - Unread(s) && st.pushed == s.ung
    ensures st.canRead == f.canRead && st.canWrite == f.canWrite && st.eof == s.eof && st.err == s.err
  {
  }

  /** Taking the pushed-back byte. */
  lemma {:induction false} TakePushed(s: Slot, c: seq<nat>, f: OsFile, st: Stream)
    requires Shows(s, c, f, st) && s.ung >= 0
    ensures Shows(s.(ung := -1), c, f, st.(pushed := -1)) && st.pushed == s.ung
  {
  }

  /** Taking unread bytes from the buffer delivers the file's bytes at the position. */
  lemma {:induction false} TakeBuffered(s: Slot, c: seq<nat>, f: OsFile, st: Stream, k: nat)
    requires Shows(s, c, f, st) && s.wlen == 0 && k <= Unread(s) && s.ung < 0
    ensures Shows(s.(bpos := s.bpos + k), c, f, st.(pos := st.pos + k))
    ensures k > 0 ==> st.canRead && st.pos + k <= |st.data| && c[s.bpos..s.bpos + k] == st.data[st.pos..st.pos + k]
  {
    FlushedShows(s, c, f, st);
    NoPending(s, c);
    var from: int := f.pos - Unread(s);
    if k > 0 {
      SliceParts(c, s.bpos, s.blen, k);
      SliceParts(f.data, from, f.pos, k);
    }
    TakenShows(s, c, f, st, k);
  }

  lemma TakenShows(s: Slot, c: seq<nat>, f: OsFile, st: Stream, k: nat)
    requires Shows(s, c, f, st) && s.wlen == 0 && k <= Unread(s) && s.ung < 0
    requires k > 0 ==> c[s.bpos + k..s.blen] == f.data[f.pos - Unread(s) + k..f.pos]
    ensures Shows(s.(bpos := s.bpos + k), c, f, st.(pos := st.pos + k))
  {
    hide Put;
  }

  lemma ChunkPrefix(b: seq<nat>, i: nat, k: nat)
    requires |b| == NST * BUFSZ && i < NST && k <= BUFSZ
    ensures i * BUFSZ + k <= |b| && Chunk(b, i)[..k] == b[i * BUFSZ..i * BUFSZ + k]
  {
  }

  lemma NoPending(s: Slot, c: seq<nat>)
    requires s.wlen == 0
    ensures c[..s.wlen] == [] && Waiting(s, c) == []
  {
  }

  lemma SliceParts(c: seq<nat>, lo: nat, hi: nat, k: nat)
    requires lo + k <= hi <= |c|
    ensures c[lo..hi][..k] == c[lo..lo + k] && c[lo..hi][k..] == c[lo + k..hi]
  {
  }

  /** A refill moves the descriptor ahead of the stream; the stream is the same. */
  lemma {:induction false} RefillShows(s: Slot, c: seq<nat>, f: OsFile, st: Stream, c': seq<nat>)
    requires Shows(s, c, f, st) && s.wlen == 0 && Unread(s) == 0 && s.ung < 0 && f.canRead && |c'| == BUFSZ
    requires var got := Slice(f.data, f.pos, BUFSZ); |got| <= BUFSZ && c'[..|got|] == got
    ensures var k := |Slice(f.data, f.pos, BUFSZ)|;
      Shows(s.(bpos := 0, blen := k), c', f.(pos := f.pos + k), st)
  {
    FlushedShows(s, c, f, st);
    NoPending(s, c');
    PutNothing(f.data, f.pos);
    var k := |Slice(f.data, f.pos, BUFSZ)|;
    PutNothing(f.data, f.pos + k);
    SliceStands(f.data, f.pos, BUFSZ);
    hide Put, Slice;
    assert c'[0..k] == c'[..k];
  }

  /** What a read delivers stands in the file. */
  lemma SliceStands(d: seq<nat>, p: nat, k: nat)
    ensures var got := Slice(d, p, k);
      |got| <= k && (|got| > 0 ==> p + |got| <= |d| && got == d[p..p + |got|])
  {
  }

  /** With nothing buffered, moving the descriptor moves the stream. */
  lemma {:induction false} MoveShows(s: Slot, c: seq<nat>, f: OsFile, st: Stream, p: nat)
    requires Shows(s, c, f, st) && s.wlen == 0 && Unread(s) == 0 && s.ung < 0
    ensures Shows(s, c, f.(pos := p), st.(pos := p))
  {
  }

  /** Dropping unread bytes and the pushed-back one leaves the stream at the descriptor's offset. */
  lemma {:induction false} DropShows(s: Slot, c: seq<nat>, f: OsFile, st: Stream, p: nat)
    requires Shows(s, c, f, st) && s.wlen == 0
    ensures Shows(s.(bpos := 0, blen := 0, ung := -1), c, f.(pos := p), st.(pos := p, pushed := -1))
  {
  }

  /** With nothing waiting, the stream may say either. */
  lemma {:induction false} SettledShows(s: Slot, c: seq<nat>, f: OsFile, st: Stream, w: bool)
    requires Shows(s, c, f, st) && s.wlen == 0
    ensures Shows(s, c, f, st.(waits := w))
  {
  }

  /** The two flags are the slot's own. */
  lemma {:induction false} FlagShows(s: Slot, c: seq<nat>, f: OsFile, st: Stream, eof: bool, err: bool)
    requires Shows(s, c, f, st)
    ensures Shows(s.(eof := eof, err := err), c, f, st.(eof := eof, err := err))
  {
  }

  /** The slot and descriptor as a write's beginning leaves them. */
  lemma {:induction false} GiveBackShows(s: Slot, c: seq<nat>, f: OsFile, st: Stream)
    requires Shows(s, c, f, st)
    ensures var back := Unread(s) + Back(s);
      var p := if back > f.pos then f.pos else f.pos - back;
      back >= 0 && p >= 0
      && Shows(s.(bpos := 0, blen := 0, ung := -1), c, f.(pos := p), GivenBack(st, f, Waiting(s, c)))
  {
    hide Shows, Put, Waiting;
    PushedIs(s, c, f, st);
    WaitingLength(s, c, f, st);
    if s.wlen == 0 {
      BackFits(s, c, f, st);
      DropShows(s, c, f, st, Tell(st));
    } else if s.ung < 0 {
      WritingShows(s, c, f, st);
      assert f.(pos := f.pos) == f && st.(pos := st.pos, pushed := -1) == st;
    } else {
      SlipShows(s, c, f, st);
    }
  }

  lemma BackFits(s: Slot, c: seq<nat>, f: OsFile, st: Stream)
    requires Shows(s, c, f, st) && s.wlen == 0
    ensures 0 <= Unread(s) + Back(s) <= f.pos && Tell(st) == f.pos - Unread(s) - Back(s)
  {
    hide Put;
  }

  /** With a byte pushed back over unwritten ones, the descriptor moves under them. */
  lemma {:induction false} SlipShows(s: Slot, c: seq<nat>, f: OsFile, st: Stream)
    requires Shows(s, c, f, st) && s.wlen > 0 && s.ung >= 0
    ensures var at := if f.pos > 0 then f.pos - 1 else 0;
      Unread(s) == 0 && Waiting(s, c) == c[..s.wlen] && st.pushed >= 0
      && Shows(s.(bpos := 0, blen := 0, ung := -1), c, f.(pos := at),
               st.(data := Put(f.data, at, c[..s.wlen]), pos := at + s.wlen, pushed := -1))
  {
    hide Put;
  }

  /** A slot with unwritten bytes and no pushback has nothing to give back. */
  lemma {:induction false} WritingShows(s: Slot, c: seq<nat>, f: OsFile, st: Stream)
    requires Shows(s, c, f, st) && s.wlen > 0 && s.ung < 0
    ensures Shows(s.(bpos := 0, blen := 0, ung := -1), c, f, st) && st.pushed == -1 && Unread(s) == 0 && s.ung == -1
  {
  }

  /** Bytes put behind the waiting ones are written after them. */
  lemma {:induction false} BufferShows(s: Slot, c: seq<nat>, f: OsFile, st: Stream, p: seq<nat>, c': seq<nat>)
    requires Shows(s, c, f, st) && Unread(s) == 0 && s.bpos == 0 && s.ung < 0 && f.canWrite
    requires s.wlen + |p| <= BUFSZ && |c'| == BUFSZ && c'[..s.wlen + |p|] == c[..s.wlen] + p
    ensures Shows(s.(wlen := s.wlen + |p|), c', f, st.(data := Put(st.data, st.pos, p), pos := st.pos + |p|, waits := true))
  {
    hide Put;
    PutPut(f.data, f.pos, c[..s.wlen], p);
    assert c'[..s.wlen + |p|] == c[..s.wlen] + p;
  }

  /** Bytes that bypass the buffer. */
  lemma {:induction false} DirectShows(s: Slot, c: seq<nat>, f: OsFile, st: Stream, p: seq<nat>)
    requires Shows(s, c, f, st) && s.wlen == 0 && Unread(s) == 0 && s.ung < 0
    ensures Shows(s, c, OsFile(Put(f.data, f.pos, p), f.pos + |p|, f.canRead, f.canWrite),
                  st.(data := Put(st.data, st.pos, p), pos := st.pos + |p|, waits := true))
  {
  }

  /** The pushed-back byte is shown as such. */
  lemma {:induction false} PushShows(s: Slot, c: seq<nat>, f: OsFile, st: Stream, x: nat)
    requires Shows(s, c, f, st) && st.pos > 0 && x < 256
    ensures Shows(s.(ung := x, eof := false), c, f, st.(pushed := x, eof := false))
  {
  }

  /** Overwriting a stretch inside one chunk leaves the other chunks alone. */
  lemma {:induction false} ChunkWrite(b: seq<nat>, i: nat, w: nat, p: seq<nat>)
    requires |b| == NST * BUFSZ && i < NST && w + |p| <= BUFSZ
    ensures var o := i * BUFSZ + w; var b' := b[..o] + p + b[o + |p|..];
      && |b'| == |b|
      && Chunk(b', i) == Chunk(b, i)[..w] + p + Chunk(b, i)[w + |p|..]
      && forall j: nat :: j < NST && j != i ==> Chunk(b', j) == Chunk(b, j)
  {
    hide Chunk;
    var o, m := i * BUFSZ + w, |p|;
    var b' := b[..o] + p + b[o + m..];
    Overwritten(b, o, p);
    ChunkAt(b, i);
    ChunkAt(b', i);
    var c, c' := Chunk(b, i), Chunk(b', i);
    var d := c[..w] + p + c[w + m..];
    forall x | 0 <= x < BUFSZ
      ensures c'[x] == d[x]
    {
    }
    assert c' == d;
    forall j: nat | j < NST && j != i
      ensures Chunk(b', j) == Chunk(b, j)
    {
      ChunkAt(b, j);
      ChunkAt(b', j);
    }
  }

  /** A sequence after an overwrite, byte by byte. */
  lemma Overwritten(b: seq<nat>, o: nat, p: seq<nat>)
    requires o + |p| <= |b|
    ensures var b' := b[..o] + p + b[o + |p|..];
      |b'| == |b| && forall x :: 0 <= x < |b| ==> b'[x] == if o <= x < o + |p| then p[x - o] else b[x]
  {
  }

  /** A chunk byte by byte. */
  lemma ChunkAt(b: seq<nat>, i: nat)
    requires |b| == NST * BUFSZ && i < NST
    ensures |Chunk(b, i)| == BUFSZ && forall x :: 0 <= x < BUFSZ ==> Chunk(b, i)[x] == b[i * BUFSZ + x]
  {
  }

  // ---------- the class ----------

  class Table {
    var tab: array<Slot>
    var buf: array<nat>
    var n: nat
    var os: map<int, OsFile>
    /** The reference streams the table shows. */
    ghost var model: map<int, Stream>

    ghost predicate Valid()
      reads this, tab, buf
    {
      && tab.Length == NST && n <= NST && buf.Length == NST * BUFSZ
      && TableShows(tab[..n], buf[..], os, model)
    }

    /** The program's start: no stream has a slot. */
    constructor ()
      ensures Valid() && model == map[] && n == 0 && fresh(tab) && fresh(buf)
    {
      tab := new Slot[NST](i => Slot(0, false, false, -1, 0, 0, 0, false));
      buf := new nat[NST * BUFSZ](i => 0);
      n := 0;
      os := map[];
      model := map[];
    }

    /** The row of an open stream. */
    ghost function RowOf(f: int): (i: nat)
      requires Valid() && f in model
      reads this, tab, buf
      ensures i < n && tab[i].fd == f
    {
      var i :| 0 <= i < n && tab[..n][i].fd == f;
      i
    }

    /** The output that waits in a stream's buffer. */
    ghost function Pending(f: int): seq<nat>
      requires Valid() && f in model
      reads this, tab, buf
    {
      Waiting(tab[RowOf(f)], Chunk(buf[..], RowOf(f)))
    }

    /** How many bytes the descriptor has been read ahead of the stream. */
    ghost function Ahead(f: int): nat
      requires Valid() && f in model
      reads this, tab, buf
    {
      var u := Unread(tab[RowOf(f)]);
      if u < 0 then 0 else u
    }

    /** A row is its stream's only one. */
    lemma RowIs(i: nat)
      requires Valid() && i < n
      ensures tab[i].fd in model && RowOf(tab[i].fd) == i && Ahead(tab[i].fd) == Unread(tab[i])
      ensures Pending(tab[i].fd) == Waiting(tab[i], Chunk(buf[..], i))
    {
      RowKnown(tab[..n], buf[..], os, model, i);
      var j := RowOf(tab[i].fd);
      assert tab[..n][j].fd == tab[..n][i].fd;
    }

    /** What file, descriptor and buffer say of a stream. */
    lemma RowSays(f: int)
      requires Valid() && f in model
      ensures f in os && model[f].data == Put(os[f].data, os[f].pos, Pending(f))
      ensures model[f].pos == os[f].pos - Ahead(f) + |Pending(f)|
      ensures !model[f].waits ==> Pending(f) == []
      ensures Pending(f) != [] ==> Ahead(f) == 0
    {
      hide Put;
      var i := RowOf(f);
      RowKnown(tab[..n], buf[..], os, model, i);
      RowIs(i);
    }

    /** `_u_st_slot`, the search half: the row of an open descriptor. */
    method Find(f: int) returns (i: nat)
      requires Valid()
      ensures i <= n && (i < n ==> tab[i].fd == f) && (i == n ==> f !in model)
      ensures f in model ==> i < n
    {
      hide Shows;
      i := 0;
      while i < n
        invariant i <= n && forall j :: 0 <= j < i ==> tab[..n][j].fd != f
      {
        if tab[i].fd == f {
          return;
        }
        i := i + 1;
      }
    }

    /** The write gate: any positive number of the bytes may go out at once. */
    method GateWrite(f: int, p: seq<nat>) returns (r: nat)
      requires f in os && |p| > 0
      modifies this`os
      ensures 0 < r <= |p|
      ensures os == old(os)[f := OsFile(Put(old(os)[f].data, old(os)[f].pos, p[..r]), old(os)[f].pos + r,
                                        old(os)[f].canRead, old(os)[f].canWrite)]
    {
      r :| 0 < r <= |p|;
      var o := os[f];
      os := os[f := OsFile(Put(o.data, o.pos, p[..r]), o.pos + r, o.canRead, o.canWrite)];
    }

    /** `_u_st_raw`: write until every byte is out. */
    method Raw(f: int, p: seq<nat>) returns (done: nat)
      requires f in os
      modifies this`os
      ensures done == |p|
      ensures os == old(os)[f := OsFile(Put(old(os)[f].data, old(os)[f].pos, p), old(os)[f].pos + |p|,
                                        old(os)[f].canRead, old(os)[f].canWrite)]
    {
      hide Put;
      done := 0;
      ghost var o := os[f];
      PutNothing(o.data, o.pos);
      assert p[..0] == [];
      assert os == os[f := o];
      while done < |p|
        invariant done <= |p|
        invariant os == old(os)[f := OsFile(Put(o.data, o.pos, p[..done]), o.pos + done, o.canRead, o.canWrite)]
        decreases |p| - done
      {
        var r := GateWrite(f, p[done..]);
        assert p[..done] + p[done..][..r] == p[..done + r];
        PutPut(o.data, o.pos, p[..done], p[done..][..r]);
        done := done + r;
      }
      assert p[..|p|] == p;
    }

    /** `_u_st_wflush`: the waiting bytes of row `i` go out; the streams are unchanged. */
    method Wflush(i: nat)
      requires Valid() && i < n
      modifies this`os, tab
      ensures Valid() && tab[i] == old(tab[i]).(wlen := 0) && tab[..n] == old(tab[..n])[i := tab[i]]
      ensures os.Keys == old(os).Keys
    {
      hide Shows, Put, Chunk, TableShows;
      var f := tab[i].fd;
      var k := tab[i].wlen;
      ghost var t0, b0, os0 := tab[..n], buf[..], os;
      ghost var c := Chunk(b0, i);
      RowKnown(t0, b0, os, model, i);
      FlushShows(t0[i], c, os[f], model[f]);
      if k == 0 {
        ZeroFlush(t0[i], c, os[f]);
        assert t0[i := t0[i]] == t0;
        return;
      }
      ShowsBounds(t0[i], c, os[f], model[f]);
      tab[i] := tab[i].(wlen := 0);
      ChunkPrefix(b0, i, k);
      var done := Raw(f, buf[i * BUFSZ..i * BUFSZ + k]);
      UpdateShows(t0, b0, os0, model, i, tab[i], b0, os[f], model[f]);
      assert model[f := model[f]] == model;
      assert tab[..n] == t0[i := tab[i]];
    }

    /** Replace row `i` by one that shows `st'` with the same buffer and file. */
    method SetRow(i: nat, s': Slot, ghost st': Stream)
      requires Valid() && i < n && s'.fd == tab[i].fd
      requires Shows(s', Chunk(buf[..], i), os[s'.fd], st')
      modifies tab, this`model
      ensures Valid() && tab[i] == s' && tab[..n] == old(tab[..n])[i := s']
      ensures model == old(model)[s'.fd := st']
    {
      hide Shows;
      ghost var t0 := tab[..n];
      UpdateShows(t0, buf[..], os, model, i, s', buf[..], os[s'.fd], st');
      assert os[s'.fd := os[s'.fd]] == os;
      tab[i] := s';
      model := model[s'.fd := st'];
      assert tab[..n] == t0[i := s'];
    }

    /** Replace row `i` and move its descriptor to `p`, as the seek and read gates do. */
    method SetRowAt(i: nat, s': Slot, p: nat, ghost st': Stream)
      requires Valid() && i < n && s'.fd == tab[i].fd
      requires Shows(s', Chunk(buf[..], i), os[s'.fd].(pos := p), st')
      modifies tab, this`model, this`os
      ensures Valid() && tab[i] == s' && tab[..n] == old(tab[..n])[i := s']
      ensures model == old(model)[s'.fd := st'] && os == old(os)[s'.fd := old(os)[s'.fd].(pos := p)]
    {
      hide Shows, TableShows, Chunk;
      ghost var t0 := tab[..n];
      RowKnown(t0, buf[..], os, model, i);
      UpdateShows(t0, buf[..], os, model, i, s', buf[..], os[s'.fd].(pos := p), st');
      tab[i] := s';
      os := os[s'.fd := os[s'.fd].(pos := p)];
      model := model[s'.fd := st'];
      assert tab[..n] == t0[i := s'];
    }

    /** `_u_st_copy` into row `i`'s chunk at offset `w`, with the row that then shows `st'`. */
    method CopyIn(i: nat, w: nat, p: seq<nat>)
      requires buf.Length == NST * BUFSZ && i < NST && w + |p| <= BUFSZ
      modifies buf
      ensures Chunk(buf[..], i) == Chunk(old(buf[..]), i)[..w] + p + Chunk(old(buf[..]), i)[w + |p|..]
      ensures forall j: nat :: j < NST && j != i ==> Chunk(buf[..], j) == Chunk(old(buf[..]), j)
    {
      hide Chunk;
      ghost var b := buf[..];
      var o := i * BUFSZ + w;
      var j := 0;
      while j < |p|
        invariant 0 <= j <= |p|
        invariant buf[..] == b[..o] + p[..j] + b[o + j..]
      {
        buf[o + j] := p[j];
        j := j + 1;
      }
      assert p[..|p|] == p;
      ChunkWrite(b, i, w, p);
    }

    /** Row `i` and its chunk change together, the file may move. */
    method SetBuffered(i: nat, s': Slot, w: nat, p: seq<nat>, pos': nat, ghost st': Stream)
      requires Valid() && i < n && s'.fd == tab[i].fd && w + |p| <= BUFSZ
      requires Shows(s', Chunk(buf[..], i)[..w] + p + Chunk(buf[..], i)[w + |p|..], os[s'.fd].(pos := pos'), st')
      modifies tab, buf, this`model, this`os
      ensures Valid() && tab[i] == s' && tab[..n] == old(tab[..n])[i := s']
      ensures Chunk(buf[..], i) == Chunk(old(buf[..]), i)[..w] + p + Chunk(old(buf[..]), i)[w + |p|..]
      ensures model == old(model)[s'.fd := st'] && os == old(os)[s'.fd := old(os)[s'.fd].(pos := pos')]
    {
      hide Shows, TableShows, Chunk;
      ghost var t0, b0 := tab[..n], buf[..];
      RowKnown(t0, b0, os, model, i);
      CopyIn(i, w, p);
      UpdateShows(t0, b0, os, model, i, s', buf[..], os[s'.fd].(pos := pos'), st');
      tab[i] := s';
      os := os[s'.fd := os[s'.fd].(pos := pos')];
      model := model[s'.fd := st'];
      assert tab[..n] == t0[i := s'];
    }

    /** Flush row `i` and leave its flags, position and pushback alone. */
    method FlushRow(f: int) returns (i: nat)
      requires Valid() && f in model
      modifies this`os, this`model, tab
      ensures Valid() && i < n && tab[i].fd == f && tab[i].wlen == 0 && f in os
      ensures model == old(model)[f := AfterFlush(old(model)[f])]
      ensures Shows(tab[i], Chunk(buf[..], i), os[f], model[f]) && Unread(tab[i]) == old(Ahead(f))
    {
      hide Shows, TableShows, Chunk;
      i := Find(f);
      RowIs(i);
      Wflush(i);
      assert tab[..n][i] == tab[i];
      RowKnown(tab[..n], buf[..], os, model, i);
      SettledShows(tab[i], Chunk(buf[..], i), os[f], model[f], false);
      SetRow(i, tab[i], AfterFlush(model[f]));
    }

    /** `ftell`. */
    method Ftell(f: int) returns (r: int)
      requires Valid() && f in model
      modifies this`os, this`model, tab
      ensures Valid() && r == Tell(old(model)[f]) && model == old(model)[f := AfterFlush(old(model)[f])]
      ensures Ahead(f) == old(Ahead(f)) && Pending(f) == []
    {
      hide Shows, TableShows, Chunk;
      var i := FlushRow(f);
      FlushedShows(tab[i], Chunk(buf[..], i), os[f], model[f]);
      RowIs(i);
      r := os[f].pos;
      r := r - (tab[i].blen - tab[i].bpos) - (if tab[i].ung >= 0 then 1 else 0);
    }

    /** `fflush` of one stream: the file itself then holds what was written. */
    method Fflush(f: int)
      requires Valid() && f in model
      modifies this`os, this`model, tab
      ensures Valid() && f in os && os[f].data == old(model)[f].data
      ensures model == old(model)[f := AfterFlush(old(model)[f])]
      ensures Ahead(f) == old(Ahead(f)) && Pending(f) == []
    {
      hide Shows, TableShows, Chunk;
      var i := FlushRow(f);
      FlushedShows(tab[i], Chunk(buf[..], i), os[f], model[f]);
      RowIs(i);
    }

    /** `fflush` of a null pointer, `_u_st_flushall`: every file holds what was written to its stream. */
    method FlushAll()
      requires Valid()
      modifies this`os, this`model, tab
      ensures Valid() && model == map f | f in old(model) :: AfterFlush(old(model)[f])
      ensures forall f :: f in model ==> f in os && os[f].data == model[f].data && Pending(f) == []
    {
      hide Shows, TableShows, Chunk, Waiting;
      var i := 0;
      while i < n
        invariant Valid() && i <= n && model == old(model)
        invariant forall j :: 0 <= j < i ==> tab[..n][j].wlen == 0
      {
        Wflush(i);
        i := i + 1;
      }
      ghost var m := map f | f in model :: AfterFlush(model[f]);
      AllSettled(tab[..n], buf[..], os, model, m);
      model := m;
      forall f | f in model
        ensures f in os && os[f].data == model[f].data && Pending(f) == []
      {
        var j := RowOf(f);
        RowIs(j);
        assert tab[..n][j].wlen == 0;
        NoPending(tab[j], Chunk(buf[..], j));
        RowSays(f);
        PutNothing(os[f].data, os[f].pos);
      }
    }

    /** Forget what is buffered or pushed back on flushed row `i` and put the descriptor at `p`. */
    method Reposition(i: nat, p: nat)
      requires Valid() && i < n && tab[i].wlen == 0
      modifies this`os, this`model, tab
      ensures Valid() && tab[i].fd == old(tab[i].fd) && Unread(tab[i]) == 0 && tab[i].wlen == 0
      ensures model == old(model)[old(tab[i].fd) := old(model)[old(tab[i].fd)].(pos := p, pushed := -1, eof := false)]
    {
      hide Shows;
      var s := tab[i];
      assert tab[..n][i] == s;
      ghost var st, c, o := model[s.fd], Chunk(buf[..], i), os[s.fd];
      DropShows(s, c, o, st, p);
      FlagShows(s.(bpos := 0, blen := 0, ung := -1), c, o.(pos := p), st.(pos := p, pushed := -1), false, s.err);
      SetRowAt(i, s.(bpos := 0, blen := 0, ung := -1, eof := false), p, st.(pos := p, pushed := -1, eof := false));
    }

    /**
     `fseek`.  A seek to a position the gate refuses still drops the unread bytes and the
     pushback, so the stream is left where the descriptor was: further by what was read ahead.
     Its position is kept exactly when there was nothing to drop.
     */
    method Fseek(f: int, off: int, w: Whence) returns (r: int)
      requires Valid() && f in model
      modifies this`os, this`model, tab
      ensures Valid() && r == if SeekTarget(old(model)[f], off, w) >= 0 then 0 else -1
      ensures r == 0 ==> model == old(model)[f := AfterSeek(old(model)[f], off, w)]
      ensures r != 0 ==> var st := old(model)[f];
        model == old(model)[f := st.(pos := st.pos + old(Ahead(f)), pushed := -1, eof := false, waits := false)]
      ensures r != 0 ==>
        (Tell(model[f]) == Tell(old(model)[f]) <==> old(Ahead(f)) == 0 && old(model)[f].pushed < 0)
      ensures Ahead(f) == 0 && Pending(f) == []
    {
      hide Shows, TableShows, Put, AfterSeek, Chunk, Waiting, Tell, SeekTarget;
      SameTarget(model[f], off, w);
      var i := FlushRow(f);
      var s := tab[i];
      ghost var st := model[f];
      SeekFrom(s, Chunk(buf[..], i), os[f], st, off, w);
      RefusedPlace(old(model)[f], Unread(s));
      var o := match w
        case Set => off
        case Cur => off - (s.blen - s.bpos) - (if s.ung >= 0 then 1 else 0) + os[f].pos
        case End => off + |os[f].data|;
      if o >= 0 {
        Reposition(i, o);
        SeekIs(st, off, w);
        r := 0;
      } else {
        Reposition(i, os[f].pos);
        r := -1;
      }
      RowIs(i);
      NoPending(tab[i], Chunk(buf[..], i));
    }

    /**
     `ungetc`: one byte is pushed back, and a second one replaces it; not at position zero, where the
     position would become indeterminate (section 7.19.7.11).
     */
    method Ungetc(c: int, f: int) returns (r: int)
      requires Valid() && f in model
      requires c != -1 ==> model[f].pos > 0
      modifies this`model, tab
      ensures Valid() && (c == -1 ==> r == -1 && model == old(model))
      ensures c != -1 ==> r == c % 256 && model == old(model)[f := AfterUnget(old(model)[f], c)]
      ensures os == old(os) && Ahead(f) == old(Ahead(f)) && Pending(f) == old(Pending(f))
    {
      hide Shows, TableShows, Chunk;
      if c == -1 {
        return -1;
      }
      var i := FindRow(f);
      ghost var st, ch := model[f], Chunk(buf[..], i);
      PushedIs(tab[i], ch, os[f], st);
      PushShows(tab[i], ch, os[f], st, c % 256);
      RowIs(i);
      SetRow(i, tab[i].(ung := c % 256, eof := false), AfterUnget(st, c));
      RowIs(i);
      r := c % 256;
    }

    /** The start of a write: unread bytes and the pushback go back to the descriptor.  With output
        waiting, the descriptor steps back one place under it, or stays at the beginning. */
    method GiveBack(i: nat)
      requires Valid() && i < n
      modifies this`os, this`model, tab
      ensures Valid() && tab[i] == old(tab[i]).(bpos := 0, blen := 0, ung := -1)
      ensures tab[i].fd in old(os) && tab[i].fd in old(model) && tab[i].fd in model && tab[i].fd in os
      ensures var f := tab[i].fd;
        model == old(model)[f := GivenBack(old(model)[f], old(os)[f], old(Waiting(tab[i], Chunk(buf[..], i))))]
      ensures old(tab[i].ung) < 0 && old(Unread(tab[i])) == 0 ==> os == old(os)
      ensures Waiting(tab[i], Chunk(buf[..], i)) == old(Waiting(tab[i], Chunk(buf[..], i)))
      ensures Shows(tab[i], Chunk(buf[..], i), os[tab[i].fd], model[tab[i].fd])
    {
      hide Shows, TableShows, Chunk, Put, GivenBack, Waiting;
      var s := tab[i];
      RowShows(i);
      ghost var st, c, o := model[s.fd], Chunk(buf[..], i), os[s.fd];
      ShowsBounds(s, c, o, st);
      GiveBackShows(s, c, o, st);
      WaitingSame(s, s.(bpos := 0, blen := 0, ung := -1), c);
      var back := (s.blen - s.bpos) + (if s.ung >= 0 then 1 else 0);
      var p := if back > os[s.fd].pos then os[s.fd].pos else os[s.fd].pos - back;
      if back > 0 {
        SetRowAt(i, s.(bpos := 0, blen := 0, ung := -1), p, GivenBack(st, o, Waiting(s, c)));
      } else {
        assert o.(pos := p) == o;
        SetRow(i, s.(bpos := 0, blen := 0, ung := -1), GivenBack(st, o, Waiting(s, c)));
      }
    }

    /** A write of a buffer or more goes straight out. */
    method PutDirect(i: nat, p: seq<nat>)
      requires Valid() && i < n && tab[i].wlen == 0 && Unread(tab[i]) == 0 && tab[i].ung < 0
      modifies this`os, this`model
      ensures Valid() && tab[i].fd in old(model)
      ensures var st := old(model)[tab[i].fd];
        model == old(model)[tab[i].fd := st.(data := Put(st.data, st.pos, p), pos := st.pos + |p|, waits := true)]
    {
      hide Shows, Put;
      var f := tab[i].fd;
      assert tab[..n][i] == tab[i];
      ghost var st, c, o, os0 := model[f], Chunk(buf[..], i), os[f], os;
      DirectShows(tab[i], c, o, st, p);
      var done := Raw(f, p);
      ghost var st' := st.(data := Put(st.data, st.pos, p), pos := st.pos + |p|, waits := true);
      UpdateShows(tab[..n], buf[..], os0, model, i, tab[i], buf[..], os[f], st');
      assert tab[..n][i := tab[i]] == tab[..n];
      model := model[f := st'];
    }

    /** A smaller one waits in the buffer, behind what already waits. */
    method PutBuffered(i: nat, p: seq<nat>)
      requires Valid() && i < n && tab[i].bpos == tab[i].blen == 0 && tab[i].ung < 0
      requires tab[i].wlen + |p| <= BUFSZ && tab[i].fd in os && os[tab[i].fd].canWrite
      modifies this`os, this`model, tab, buf
      ensures Valid() && old(tab[i].fd) in old(model)
      ensures var f, st := old(tab[i].fd), old(model)[old(tab[i].fd)];
        model == old(model)[f := st.(data := Put(st.data, st.pos, p), pos := st.pos + |p|, waits := true)]
      ensures os == old(os) && tab[i] == old(tab[i]).(wlen := old(tab[i].wlen) + |p|)
      ensures Waiting(tab[i], Chunk(buf[..], i)) == old(Waiting(tab[i], Chunk(buf[..], i))) + p
    {
      hide Shows, Put, TableShows, Chunk, Waiting;
      var s := tab[i];
      RowShows(i);
      ghost var st, c := model[s.fd], Chunk(buf[..], i);
      ShowsBounds(s, c, os[s.fd], st);
      ghost var c' := c[..s.wlen] + p + c[s.wlen + |p|..];
      WaitingMore(s, c, p);
      assert os[s.fd := os[s.fd].(pos := os[s.fd].pos)] == os;
      BufferShows(s, c, os[s.fd], st, p, c');
      SetBuffered(i, s.(wlen := s.wlen + |p|), s.wlen, p, os[s.fd].pos,
                  st.(data := Put(st.data, st.pos, p), pos := st.pos + |p|, waits := true));
    }

    /**
     `_u_st_wput` for a stream with a slot.  It is a write at the stream's place if and only if no byte was
     pushed back, or the output that waits repeats the byte before it (section 7.19.5.3 wants a seek
     between input and output).  A write that fits the buffer leaves the descriptor alone.
     */
    method Wput(f: int, p: seq<nat>) returns (r: nat)
      requires Valid() && f in model
      modifies this`os, this`model, tab, buf
      ensures Valid() && r == Written(old(model)[f], p) && f in old(os)
      ensures model == old(model)[f := AfterPut(old(model)[f], old(os)[f], old(Pending(f)), p)]
      ensures p == [] || old(model)[f].pushed < 0 || !old(model)[f].waits ==>
        model == old(model)[f := AfterWrite(old(model)[f], p)]
      ensures model == old(model)[f := AfterWrite(old(model)[f], p)]
        <==> p == [] || !old(model)[f].canWrite || old(model)[f].pushed < 0 || Repeating(old(model)[f], old(Pending(f)))
      ensures if p == [] || !old(model)[f].canWrite
        then Ahead(f) == old(Ahead(f)) && Pending(f) == old(Pending(f))
        else Ahead(f) == 0 && Pending(f) == NextPending(old(Pending(f)), p)
      ensures old(model)[f].canWrite && old(model)[f].pushed < 0 && old(Ahead(f)) == 0 && old(|Pending(f)|) + |p| < BUFSZ ==>
        os == old(os)
    {
      hide Shows, TableShows, Put, Chunk, GivenBack, AfterPut, Waiting, AfterWrite, Repeating, NextPending;
      ghost var st, o, w := model[f], os, Pending(f);
      RowSays(f);
      PutPlain(st, o[f], w, p);
      SlipIsWrite(st, o[f], w, p);
      SameUpdate(model, f, AfterPut(st, o[f], w, p), AfterWrite(st, p));
      if |p| == 0 {
        assert model[f := st] == model;
        assert w + p == w;
        return 0;
      }
      var i := FindRow(f);
      RowIs(i);
      RowFlags(tab[i], Chunk(buf[..], i), os[f], st);
      PushedIs(tab[i], Chunk(buf[..], i), os[f], st);
      WaitingLength(tab[i], Chunk(buf[..], i), os[f], st);
      if tab[i].ro {
        FlagShows(tab[i], Chunk(buf[..], i), os[f], st, tab[i].eof, true);
        WaitingSame(tab[i], tab[i].(err := true), Chunk(buf[..], i));
        SetRow(i, tab[i].(err := true), st.(err := true));
        RowIs(i);
        return 0;
      }
      PutIs(st, o[f], w, p);
      GiveBack(i);
      PutOut(i, p);
      RowIs(i);
      r := |p|;
    }

    /** The bytes go behind the waiting ones when they fit, else the waiting ones go out first. */
    method PutOut(i: nat, p: seq<nat>)
      requires Valid() && i < n && tab[i].bpos == tab[i].blen == 0 && tab[i].ung == -1 && !tab[i].ro
      modifies this`os, this`model, tab, buf
      ensures Valid() && old(tab[i].fd) in old(model)
      ensures var f, st := old(tab[i].fd), old(model)[old(tab[i].fd)];
        model == old(model)[f := st.(data := Put(st.data, st.pos, p), pos := st.pos + |p|, waits := true)]
      ensures tab[i].fd == old(tab[i].fd) && Unread(tab[i]) == 0
      ensures Waiting(tab[i], Chunk(buf[..], i)) == NextPending(old(Waiting(tab[i], Chunk(buf[..], i))), p)
      ensures old(tab[i].wlen) + |p| < BUFSZ ==> os == old(os)
    {
      hide Shows, TableShows, Put, Chunk, Waiting;
      RowBounds(i);
      if tab[i].wlen + |p| > BUFSZ {
        Wflush(i);
        NoPending(tab[i], Chunk(buf[..], i));
        assert [] + p == p;
      }
      if |p| >= BUFSZ {
        PutDirect(i, p);
      } else {
        RowWritable(i);
        PutBuffered(i, p);
      }
    }

    /** What row `i` and its chunk hold. */
    lemma RowBounds(i: nat)
      requires Valid() && i < n
      ensures |Waiting(tab[i], Chunk(buf[..], i))| == tab[i].wlen <= BUFSZ && -1 <= tab[i].ung < 256
      ensures tab[i].wlen == 0 ==> Waiting(tab[i], Chunk(buf[..], i)) == []
    {
      hide TableShows, Chunk, Put;
      RowKnown(tab[..n], buf[..], os, model, i);
    }

    /** The row of an open stream, and what it shows. */
    method FindRow(f: int) returns (i: nat)
      requires Valid() && f in model
      ensures i < n && tab[i].fd == f && f in os
      ensures Shows(tab[i], Chunk(buf[..], i), os[f], model[f])
    {
      hide Shows;
      i := Find(f);
      assert tab[..n][i] == tab[i];
    }

    /** A slot not marked read-only has a writable descriptor. */
    lemma RowWritable(i: nat)
      requires Valid() && i < n && !tab[i].ro
      ensures tab[i].fd in os && os[tab[i].fd].canWrite
    {
    }

    /** `fwrite` of `cnt` elements of `sz` bytes. */
    method Fwrite(p: seq<nat>, sz: nat, cnt: nat, f: int) returns (r: nat)
      requires Valid() && f in model && |p| == sz * cnt
      modifies this`os, this`model, tab, buf
      ensures Valid() && (sz * cnt > MAXW ==> model == old(model) && r == 0)
      ensures sz * cnt <= MAXW ==>
        f in old(os) && model == old(model)[f := AfterPut(old(model)[f], old(os)[f], old(Pending(f)), p)]
      ensures sz * cnt <= MAXW && (p == [] || old(model)[f].pushed < 0 || !old(model)[f].waits) ==>
        model == old(model)[f := AfterWrite(old(model)[f], p)]
      ensures sz * cnt <= MAXW && p != [] && old(model)[f].canWrite ==>
        Ahead(f) == 0 && Pending(f) == NextPending(old(Pending(f)), p)
      ensures sz * cnt <= MAXW ==> r == if sz > 0 && old(model)[f].canWrite then cnt else 0
    {
      hide Shows, TableShows, Put, Chunk, AfterPut, AfterWrite, Repeating, Waiting, NextPending;
      if sz == 0 || cnt == 0 {
        assert p == [];
        assert model[f := model[f]] == model;
        RowSays(f);
        PutPlain(model[f], os[f], Pending(f), p);
        return 0;
      }
      WriteGuard(sz, cnt);
      if cnt > MAXW / sz {
        return 0;
      }
      var w := Wput(f, p);
      r := w / sz;
      WholeElements(sz, cnt);
    }

    /** The pushed-back byte, when there is one. */
    method PopPushed(i: nat) returns (bytes: seq<nat>)
      requires Valid() && i < n
      modifies this`model, tab
      ensures Valid() && tab[i] == old(tab[i]).(ung := -1) && tab[i].fd in old(model)
      ensures bytes == if old(tab[i].ung) >= 0 then [old(tab[i].ung)] else []
      ensures var f := tab[i].fd;
        f in model && model == old(model)[f := model[f]] && Delivered(old(model)[f], bytes, model[f])
    {
      hide Shows, TableShows, Delivered;
      var s := tab[i];
      RowShows(i);
      ghost var st, c := model[s.fd], Chunk(buf[..], i);
      PushedIs(s, c, os[s.fd], st);
      if s.ung >= 0 {
        bytes := [s.ung];
        TakePushed(s, c, os[s.fd], st);
        DeliveredPushed(st);
        SetRow(i, s.(ung := -1), st.(pushed := -1));
      } else {
        bytes := [];
        DeliveredNone(st);
        assert model[s.fd := st] == model;
      }
    }

    /** Unread bytes from the buffer, as far as the request goes. */
    method PopBuffered(i: nat, need: nat) returns (more: seq<nat>)
      requires Valid() && i < n && tab[i].wlen == 0 && tab[i].ung < 0
      modifies this`model, tab
      ensures Valid() && tab[i].fd == old(tab[i].fd) && tab[i].fd in old(model) && |more| <= need
      ensures tab[i].wlen == 0 && tab[i].ung < 0 && (|more| < need ==> Unread(tab[i]) == 0)
      ensures tab[i].eof == old(tab[i].eof) && tab[i].err == old(tab[i].err)
      ensures |more| == Min(old(Unread(tab[i])), need) && Unread(tab[i]) == old(Unread(tab[i])) - |more|
      ensures var f := tab[i].fd;
        model == old(model)[f := old(model)[f].(pos := old(model)[f].pos + |more|)] && IsNext(old(model)[f], more)
    {
      hide Shows, TableShows, Chunk, IsNext, Waiting;
      var s := tab[i];
      RowShows(i);
      ghost var st, c := model[s.fd], Chunk(buf[..], i);
      ShowsBounds(s, c, os[s.fd], st);
      var k: nat := Min(s.blen - s.bpos, need);
      TakeBuffered(s, c, os[s.fd], st, k);
      more := buf[i * BUFSZ + s.bpos..i * BUFSZ + s.bpos + k];
      ChunkPart(buf[..], i, s.bpos, k);
      NextIs(st, more);
      SetRow(i, s.(bpos := s.bpos + k), st.(pos := st.pos + k));
    }

    /** Both of them: what a request finds before it asks the descriptor. */
    method PopReady(i: nat, want: nat) returns (bytes: seq<nat>)
      requires Valid() && i < n && tab[i].wlen == 0 && want > 0
      modifies this`model, tab
      ensures Valid() && tab[i].fd == old(tab[i].fd) && tab[i].fd in old(model) && |bytes| <= want
      ensures tab[i].wlen == 0 && tab[i].ung < 0 && (|bytes| < want ==> Unread(tab[i]) == 0)
      ensures |bytes| == Min(old(Unread(tab[i])) + old(Back(tab[i])), want)
      ensures Unread(tab[i]) == old(Unread(tab[i])) + old(Back(tab[i])) - |bytes|
      ensures var f := tab[i].fd;
        f in model && model == old(model)[f := model[f]] && Delivered(old(model)[f], bytes, model[f])
    {
      hide Shows, TableShows, Delivered, Chunk, IsNext;
      bytes := PopPushed(i);
      ghost var f := tab[i].fd;
      ghost var st1 := model[f];
      var more := PopBuffered(i, want - |bytes|);
      DeliveredMore(old(model)[f], bytes, st1, more);
      bytes := bytes + more;
    }

    /** What row `i` shows, out of the table's invariant. */
    lemma RowShows(i: nat)
      requires Valid() && i < n
      ensures tab[i].fd in os && tab[i].fd in model
      ensures Shows(tab[i], Chunk(buf[..], i), os[tab[i].fd], model[tab[i].fd])
    {
    }

    /** Fill row `i`'s chunk from the descriptor; the stream does not move. */
    method Refill(i: nat)
      requires Valid() && i < n && tab[i].wlen == 0 && tab[i].ung < 0 && Unread(tab[i]) == 0
      requires tab[i].fd in os && os[tab[i].fd].canRead
      modifies this`model, this`os, tab, buf
      ensures Valid() && model == old(model) && tab[i].fd == old(tab[i].fd)
      ensures tab[i].wlen == 0 && tab[i].ung < 0
      ensures tab[i].eof == old(tab[i].eof) && tab[i].err == old(tab[i].err)
      ensures Unread(tab[i]) == |Slice(old(os)[tab[i].fd].data, old(os)[tab[i].fd].pos, BUFSZ)|
    {
      hide Shows, TableShows, Chunk;
      var s := tab[i];
      RowShows(i);
      ghost var st, c := model[s.fd], Chunk(buf[..], i);
      var o := os[s.fd];
      ShowsBounds(s, c, o, st);
      var bytes := Slice(o.data, o.pos, BUFSZ);
      ghost var c' := c[..0] + bytes + c[|bytes|..];
      assert c'[..|bytes|] == bytes;
      RefillShows(s, c, o, st, c');
      SetBuffered(i, s.(bpos := 0, blen := |bytes|), 0, bytes, o.pos + |bytes|, st);
      assert model == old(model)[s.fd := st] == old(model);
    }

    /** A request of a buffer or more bypasses the empty buffer. */
    method ReadDirect(i: nat, need: nat) returns (got: seq<nat>)
      requires Valid() && i < n && tab[i].wlen == 0 && tab[i].ung < 0 && Unread(tab[i]) == 0
      requires tab[i].fd in os && os[tab[i].fd].canRead
      modifies this`model, this`os, tab
      ensures Valid() && tab[i] == old(tab[i]) && tab[i].fd in old(model)
      ensures var st := old(model)[tab[i].fd];
        got == Slice(st.data, st.pos, need) && model == old(model)[tab[i].fd := st.(pos := st.pos + |got|)]
    {
      hide Shows, TableShows, Chunk, Slice;
      var s := tab[i];
      RowShows(i);
      ghost var st, c := model[s.fd], Chunk(buf[..], i);
      var o := os[s.fd];
      FlushedShows(s, c, o, st);
      got := Slice(o.data, o.pos, need);
      MoveShows(s, c, o, st, o.pos + |got|);
      SetRowAt(i, s, o.pos + |got|, st.(pos := st.pos + |got|));
    }

    /** At most one descriptor read: a buffer refill for a small request, else straight through. */
    method ReadMore(i: nat, need: nat) returns (got: seq<nat>, bad: bool)
      requires Valid() && i < n && tab[i].wlen == 0 && tab[i].ung < 0 && Unread(tab[i]) == 0 && need > 0
      modifies this`model, this`os, tab, buf
      ensures Valid() && tab[i].fd == old(tab[i].fd) && tab[i].fd in old(model) && tab[i].wlen == 0
      ensures tab[i].eof == old(tab[i].eof) && tab[i].err == old(tab[i].err)
      ensures var st := old(model)[tab[i].fd];
        && bad == !st.canRead && got == (if st.canRead then Slice(st.data, st.pos, need) else [])
        && model == old(model)[tab[i].fd := st.(pos := st.pos + |got|)]
        && Unread(tab[i]) == AheadAfter(st.(pushed := -1), 0, need)
    {
      hide Shows, TableShows, Chunk, Slice;
      RowShows(i);
      var f := tab[i].fd;
      ghost var st := model[f];
      FlushedShows(tab[i], Chunk(buf[..], i), os[f], st);
      bad := !os[f].canRead;
      if bad {
        assert model[f := st.(pos := st.pos + 0)] == model;
        return [], bad;
      }
      if need < BUFSZ {
        Refill(i);
        got := PopBuffered(i, need);
        NextIsSlice(st, got, need);
      } else {
        got := ReadDirect(i, need);
      }
    }

    /** The end-of-file and error flags after a request that reached the descriptor. */
    method FlagRow(i: nat, short: bool, bad: bool)
      requires Valid() && i < n
      modifies this`model, tab
      ensures Valid() && tab[i].fd == old(tab[i].fd) && tab[i].fd in old(model)
      ensures Unread(tab[i]) == old(Unread(tab[i])) && tab[i].wlen == old(tab[i].wlen)
      ensures var st := old(model)[tab[i].fd];
        model == old(model)[tab[i].fd := st.(eof := st.eof || short, err := st.err || bad)]
    {
      hide Shows, TableShows, Chunk;
      var s := tab[i];
      RowShows(i);
      ghost var st, c := model[s.fd], Chunk(buf[..], i);
      RowFlags(s, c, os[s.fd], st);
      FlagShows(s, c, os[s.fd], st, s.eof || short, s.err || bad);
      SetRow(i, s.(eof := s.eof || short, err := s.err || bad), st.(eof := st.eof || short, err := st.err || bad));
    }

    /** `fread` of `cnt` elements of `sz` bytes: the bytes delivered and the whole elements among them. */
    method Fread(sz: nat, cnt: nat, f: int) returns (bytes: seq<nat>, r: nat)
      requires Valid() && f in model
      modifies this`model, this`os, tab, buf
      ensures Valid() && bytes == ReadBytes(old(model)[f], sz * cnt)
      ensures model == old(model)[f := AfterRead(old(model)[f], sz * cnt)]
      ensures r == if sz * cnt == 0 then 0 else |bytes| / sz
      ensures Ahead(f) == if sz * cnt == 0 then old(Ahead(f)) else AheadAfter(old(model)[f], old(Ahead(f)), sz * cnt)
      ensures Pending(f) == if sz * cnt == 0 then old(Pending(f)) else []
    {
      hide AheadAfter, Shows, TableShows, Slice, ReadBytes, AfterRead, Delivered, Chunk;
      var want: nat := sz * cnt;
      ghost var st := model[f];
      NothingRead(st);
      if want == 0 {
        assert model[f := st] == model;
        return [], 0;
      }
      WholeElements(sz, cnt);
      bytes := ReadWanted(f, want);
      r := WholeCount(|bytes|, want, sz, cnt);
    }

    /** How many whole elements arrived. */
    method WholeCount(got: nat, want: nat, sz: nat, cnt: nat) returns (r: nat)
      requires sz > 0 && want == sz * cnt
      ensures r == got / sz
    {
      WholeElements(sz, cnt);
      r := if got == want then cnt else got / sz;
    }

    /** The body of `fread` for a request of `want` bytes. */
    method ReadWanted(f: int, want: nat) returns (bytes: seq<nat>)
      requires Valid() && f in model && want > 0
      modifies this`model, this`os, tab, buf
      ensures Valid() && bytes == ReadBytes(old(model)[f], want)
      ensures model == old(model)[f := AfterRead(old(model)[f], want)]
      ensures Ahead(f) == AheadAfter(old(model)[f], old(Ahead(f)), want) && Pending(f) == []
    {
      hide Shows, TableShows, Slice, ReadBytes, AfterRead, Delivered, Chunk, IsNext, AheadAfter, Waiting, AfterFlush;
      ghost var st := AfterFlush(model[f]);
      ghost var ahead := Ahead(f);
      SameRead(model[f], want);
      var i := FlushRow(f);
      PushedIs(tab[i], Chunk(buf[..], i), os[f], st);
      bytes := PopReady(i, want);
      ghost var st2 := model[f];
      if |bytes| == want {
        DeliveredAll(st, want, bytes, st2);
        AheadReady(st, ahead, want);
        RowIs(i);
        NoPending(tab[i], Chunk(buf[..], i));
        return;
      }
      var got, bad := ReadMore(i, want - |bytes|);
      DeliveredRest(st, want, bytes, st2, got);
      AheadRefilled(st, ahead, want, bytes, st2);
      bytes := bytes + got;
      FlagRow(i, |bytes| < want, bad);
      RowIs(i);
      NoPending(tab[i], Chunk(buf[..], i));
    }

    /** `fgetc`: the byte, or -1 at the end of the file. */
    method Fgetc(f: int) returns (c: int)
      requires Valid() && f in model
      modifies this`model, this`os, tab, buf
      ensures Valid() && c == GetcAnswer(old(model)[f])
      ensures model == old(model)[f := AfterGetc(old(model)[f])]
      ensures Ahead(f) == AheadAfter(old(model)[f], old(Ahead(f)), 1)
      ensures Pending(f) == if old(model)[f].pushed >= 0 then old(Pending(f)) else []
    {
      hide Shows, TableShows, Slice, ReadBytes, AfterRead, Delivered, Chunk, GetcAnswer, AfterGetc, AheadAfter, Waiting;
      ghost var st := model[f];
      var i := FindRow(f);
      RowIs(i);
      PushedIs(tab[i], Chunk(buf[..], i), os[f], st);
      if tab[i].ung >= 0 {
        WaitingSame(tab[i], tab[i].(ung := -1), Chunk(buf[..], i));
        var one := PopPushed(i);
        GetcPushed(st, model[f]);
        RowIs(i);
        AheadReady(st, Ahead(f), 1);
        return one[0];
      }
      var bytes, r := Fread(1, 1, f);
      GetcRead(st, bytes);
      FlagGetc(f, r == 1);
      c := if r == 1 then bytes[0] else -1;
    }

    /** The flags `fgetc` leaves: both cleared by a byte, end of file set without one. */
    method FlagGetc(f: int, got: bool)
      requires Valid() && f in model
      modifies this`model, tab
      ensures Valid()
      ensures model == old(model)[f := Got(old(model)[f], got)]
      ensures Ahead(f) == old(Ahead(f)) && Pending(f) == old(Pending(f))
    {
      hide Shows, TableShows, Chunk;
      var i := FindRow(f);
      RowIs(i);
      ClearRow(i, !got, if got then false else tab[i].err);
      RowIs(i);
    }

    /** `feof`. */
    method Feof(f: int) returns (r: int)
      requires Valid() && f in model
      ensures r == if model[f].eof then 1 else 0
    {
      hide Shows, TableShows, Chunk;
      var i := FindRow(f);
      RowFlags(tab[i], Chunk(buf[..], i), os[f], model[f]);
      r := if tab[i].eof then 1 else 0;
    }

    /** `ferror`. */
    method Ferror(f: int) returns (r: int)
      requires Valid() && f in model
      ensures r == if model[f].err then 1 else 0
    {
      hide Shows, TableShows, Chunk;
      var i := FindRow(f);
      RowFlags(tab[i], Chunk(buf[..], i), os[f], model[f]);
      r := if tab[i].err then 1 else 0;
    }

    /** `clearerr`. */
    method Clearerr(f: int)
      requires Valid() && f in model
      modifies this`model, tab
      ensures Valid() && model == old(model)[f := Cleared(old(model)[f])]
      ensures Ahead(f) == old(Ahead(f)) && Pending(f) == old(Pending(f))
    {
      hide Shows, TableShows, Chunk;
      var i := FindRow(f);
      RowIs(i);
      ClearRow(i, false, false);
      RowIs(i);
    }

    /** Set both flags of row `i`. */
    method ClearRow(i: nat, eof: bool, err: bool)
      requires Valid() && i < n
      modifies this`model, tab
      ensures Valid() && tab[i].fd == old(tab[i].fd) && tab[i].fd in old(model)
      ensures Unread(tab[i]) == old(Unread(tab[i])) && tab[i].wlen == old(tab[i].wlen)
      ensures model == old(model)[tab[i].fd := old(model)[tab[i].fd].(eof := eof, err := err)]
      ensures old(tab[i].err) == old(model)[tab[i].fd].err
    {
      hide Shows, TableShows, Chunk;
      var s := tab[i];
      RowShows(i);
      ghost var st, c := model[s.fd], Chunk(buf[..], i);
      RowFlags(s, c, os[s.fd], st);
      FlagShows(s, c, os[s.fd], st, eof, err);
      SetRow(i, s.(eof := eof, err := err), st.(eof := eof, err := err));
    }

    /**
     `fopen` without append: the kernel's answer is a descriptor `fd` not in use and above the standard
     ones, on a file holding `data`, or a negative number.  A stream that finds no free slot is not shown.
     */
    method Fopen(mode: seq<nat>, fd: int, data: seq<nat>) returns (f: int)
      requires Valid() && IsMode(mode) && fd !in model && !(0 <= fd <= 2)
      modifies this`os, this`model, this`n, tab
      ensures Valid() && (fd < 0 ==> f == 0 && model == old(model) && n == old(n))
      ensures fd >= 0 ==> f == fd
      ensures fd >= 0 && old(n) < NST ==> model == old(model)[fd := Opened(mode, data)] && n == old(n) + 1
      ensures fd >= 0 && old(n) < NST ==> Ahead(fd) == 0 && Pending(fd) == []
      ensures fd >= 0 && old(n) == NST ==> model == old(model) && n == old(n)
    {
      hide Shows, TableShows, Chunk, Waiting;
      if fd < 0 {
        return 0;
      }
      var o := OsFile(if mode[0] == 119 then [] else data, 0, CanRead(mode), CanWrite(mode));
      var ro := ReadOnly(mode);
      ghost var t0 := tab[..n];
      if n == NST {
        FreshDescriptor(t0, buf[..], os, model, fd, o);
        os := os[fd := o];
        return fd;
      }
      var s := Slot(fd, false, false, -1, 0, 0, 0, ro);
      ChunkAt(buf[..], n);
      BareShows(s, Chunk(buf[..], n), o);
      OpenShows(t0, buf[..], os, model, s, o, Opened(mode, data));
      tab[n] := s;
      os := os[fd := o];
      model := model[fd := Opened(mode, data)];
      n := n + 1;
      assert tab[..n] == t0 + [s];
      RowIs(n - 1);
      NoPending(s, Chunk(buf[..], n - 1));
      f := fd;
    }

    /** The mark of a stream that cannot be written. */
    method ReadOnly(mode: seq<nat>) returns (ro: bool)
      requires IsMode(mode)
      ensures ro == !CanWrite(mode)
    {
      ro := mode[0] == 114;
      var j := 0;
      while j < |mode|
        invariant 0 <= j <= |mode| && ro == (mode[0] == 114 && 43 !in mode[..j])
      {
        if mode[j] == 43 {
          ro := false;
        }
        j := j + 1;
      }
      assert mode[..|mode|] == mode;
    }

    /** Free row `i`: the last row and its chunk move into it. */
    method DropRow(i: nat)
      requires Valid() && i < n
      modifies this`os, this`model, this`n, tab, buf
      ensures Valid() && n == old(n) - 1
      ensures model == old(model) - {old(tab[i].fd)} && os == old(os) - {old(tab[i].fd)}
    {
      hide Shows, TableShows;
      ghost var t0, b0 := tab[..n], buf[..];
      var last := n - 1;
      var f := tab[i].fd;
      TableSize(t0, b0, os, model);
      tab[i] := tab[last];
      CopyIn(i, 0, buf[last * BUFSZ..last * BUFSZ + BUFSZ]);
      WholeChunk(b0, i, last, buf[..]);
      CloseShows(t0, b0, os, model, i, buf[..]);
      n := last;
      os := os - {f};
      model := model - {f};
      assert tab[..n] == t0[i := t0[last]][..last];
    }

    /** `fclose`: flush, free the row, close the descriptor. */
    method Fclose(f: int) returns (ghost final: seq<nat>)
      requires Valid() && f in model
      modifies this`os, this`model, this`n, tab, buf
      ensures Valid() && final == old(model)[f].data
      ensures model == old(model) - {f} && n == old(n) - 1 && f !in os
    {
      hide Shows, TableShows, Chunk;
      var i := FlushRow(f);
      FlushedShows(tab[i], Chunk(buf[..], i), os[f], model[f]);
      final := os[f].data;
      DropRow(i);
    }
  }

  /** With nothing waiting in any row, no stream waits. */
  lemma {:induction false} AllSettled(t: seq<Slot>, b: seq<nat>, os: map<int, OsFile>, m: map<int, Stream>, m': map<int, Stream>)
    requires TableShows(t, b, os, m) && forall i :: 0 <= i < |t| ==> t[i].wlen == 0
    requires m' == map f | f in m :: AfterFlush(m[f])
    ensures TableShows(t, b, os, m')
  {
    hide Shows, Chunk;
    forall i | 0 <= i < |t|
      ensures t[i].fd in m' && Shows(t[i], Chunk(b, i), os[t[i].fd], m'[t[i].fd])
    {
      SettledShows(t[i], Chunk(b, i), os[t[i].fd], m[t[i].fd], false);
    }
  }

  lemma TableSize(t: seq<Slot>, b: seq<nat>, os: map<int, OsFile>, m: map<int, Stream>)
    requires TableShows(t, b, os, m)
    ensures |t| <= NST && |b| == NST * BUFSZ
  {
  }

  /** A copy of a whole chunk replaces the chunk. */
  lemma WholeChunk(b: seq<nat>, i: nat, last: nat, b': seq<nat>)
    requires |b| == |b'| == NST * BUFSZ && i < NST && last < NST
    requires Chunk(b', i) == Chunk(b, i)[..0] + Chunk(b, last) + Chunk(b, i)[|Chunk(b, last)|..]
    ensures Chunk(b', i) == Chunk(b, last)
  {
  }

  // ---------- opening and closing ----------

  /** "r", "w" and their "+" forms. */
  predicate IsMode(mode: seq<nat>) {
    |mode| > 0 && (mode[0] == 114 || mode[0] == 119)
  }

  predicate CanRead(mode: seq<nat>)
    requires IsMode(mode)
  {
    mode[0] == 114 || 43 in mode
  }

  predicate CanWrite(mode: seq<nat>)
    requires IsMode(mode)
  {
    mode[0] == 119 || 43 in mode
  }

  /** A stream just opened. */
  function Opened(mode: seq<nat>, data: seq<nat>): Stream
    requires IsMode(mode)
  {
    Stream(if mode[0] == 119 then [] else data, 0, -1, false, false, CanRead(mode), CanWrite(mode), false)
  }

  lemma {:induction false} FreshDescriptor(t: seq<Slot>, b: seq<nat>, os: map<int, OsFile>, m: map<int, Stream>, fd: int, o: OsFile)
    requires TableShows(t, b, os, m) && fd !in m
    ensures TableShows(t, b, os[fd := o], m)
  {
  }

  lemma {:induction false} OpenShows(
      t: seq<Slot>, b: seq<nat>, os: map<int, OsFile>, m: map<int, Stream>, s: Slot, o: OsFile, st: Stream)
    requires TableShows(t, b, os, m) && |t| < NST && s.fd !in m && Shows(s, Chunk(b, |t|), o, st)
    ensures TableShows(t + [s], b, os[s.fd := o], m[s.fd := st])
  {
    hide Shows;
    var t', m' := t + [s], m[s.fd := st];
    forall f | f in m'
      ensures exists i :: 0 <= i < |t'| && t'[i].fd == f
    {
      if f == s.fd {
        assert t'[|t|].fd == f;
      } else {
        var i :| 0 <= i < |t| && t[i].fd == f;
        assert t'[i].fd == f;
      }
    }
  }

  /** Moving the last row down leaves every other stream as it was. */
  lemma {:induction false} CloseShows(
      t: seq<Slot>, b: seq<nat>, os: map<int, OsFile>, m: map<int, Stream>, i: nat, b': seq<nat>)
    requires TableShows(t, b, os, m) && i < |t| && |b'| == |b|
    requires Chunk(b', i) == Chunk(b, |t| - 1)
    requires forall j: nat :: j < NST && j != i ==> Chunk(b', j) == Chunk(b, j)
    ensures TableShows(t[i := t[|t| - 1]][..|t| - 1], b', os - {t[i].fd}, m - {t[i].fd})
  {
    hide Shows, Chunk;
    var last := |t| - 1;
    var t', m' := t[i := t[last]][..last], m - {t[i].fd};
    assert forall j :: 0 <= j < last ==> t'[j] == if j == i then t[last] else t[j];
    forall f | f in m'
      ensures exists j :: 0 <= j < |t'| && t'[j].fd == f
    {
      var j :| 0 <= j < |t| && t[j].fd == f;
      if j == last {
        assert t'[i].fd == f;
      } else {
        assert t'[j].fd == f;
      }
    }
  }

  /** One row per shown stream. */
  lemma {:induction false} TableCount(t: seq<Slot>, b: seq<nat>, os: map<int, OsFile>, m: map<int, Stream>)
    requires TableShows(t, b, os, m)
    ensures |m| == |t|
  {
    hide Shows, Chunk;
    CountKeys(t, m.Keys);
  }

  lemma {:induction false} CountKeys(t: seq<Slot>, ks: set<int>)
    requires forall i, j :: 0 <= i < j < |t| ==> t[i].fd != t[j].fd
    requires forall i :: 0 <= i < |t| ==> t[i].fd in ks
    requires forall f :: f in ks ==> exists i :: 0 <= i < |t| && t[i].fd == f
    ensures |ks| == |t|
  {
    if t != [] {
      var last := |t| - 1;
      var f := t[last].fd;
      forall g | g in ks - {f}
        ensures exists i :: 0 <= i < last && t[..last][i].fd == g
      {
        var i :| 0 <= i < |t| && t[i].fd == g;
        assert t[..last][i].fd == g;
      }
      CountKeys(t[..last], ks - {f});
      assert ks == (ks - {f}) + {f};
    } else {
      assert forall f :: f in ks ==> false;
      assert ks == {};
    }
  }

  lemma {:induction false} GetcPushed(st: Stream, st': Stream)
    requires st.pushed >= 0 && Delivered(st, [st.pushed], st')
    ensures GetcAnswer(st) == st.pushed && AfterGetc(st) == st'
  {
  }

  lemma {:induction false} GetcRead(st: Stream, bytes: seq<nat>)
    requires st.pushed < 0 && bytes == ReadBytes(st, 1)
    ensures |bytes| <= 1 && GetcAnswer(st) == (if |bytes| == 1 then bytes[0] else -1)
    ensures AfterGetc(st) == if |bytes| == 1 then AfterRead(st, 1).(eof := false, err := false) else AfterRead(st, 1).(eof := true)
  {
  }

  // ---------- a run the standard forbids, and what it would lose ----------

  /** The write is the reference's exactly when it may be. */
  lemma {:induction false} SlipIsWrite(st: Stream, o: OsFile, pending: seq<nat>, p: seq<nat>)
    requires pending != [] ==> st.data == Put(o.data, o.pos, pending) && st.pos == o.pos + |pending|
    ensures AfterPut(st, o, pending, p) == AfterWrite(st, p)
      <==> p == [] || !st.canWrite || st.pushed < 0 || Repeating(st, pending)
  {
    hide Put, Pad;
    PutPlain(st, o, pending, p);
    if p != [] && st.canWrite && st.pushed >= 0 && pending != [] {
      SlipPlaces(st, o, pending, p);
      if o.pos > 0 {
        PutPut(o.data, o.pos - 1, pending, p);
        PushbackOverOutput(o.data, o.pos, pending, p);
        ByteBefore(o.data, o.pos, pending);
      }
    }
  }

  lemma ByteBefore(d: seq<nat>, at: nat, pending: seq<nat>)
    requires at > 0 && pending != []
    ensures at <= |Put(d, at, pending)| && Put(d, at, pending)[at - 1] == Pad(d, at)[at - 1]
  {
  }

  /** Where the two writes go. */
  lemma SlipPlaces(st: Stream, o: OsFile, pending: seq<nat>, p: seq<nat>)
    requires p != [] && st.canWrite && st.pushed >= 0 && pending != [] && st.pos == o.pos + |pending|
    ensures var at := if o.pos > 0 then o.pos - 1 else 0;
      && AfterPut(st, o, pending, p)
         == st.(data := Put(Put(o.data, at, pending), at + |pending|, p), pos := at + |pending| + |p|, pushed := -1, waits := true)
      && AfterWrite(st, p)
         == st.(data := Put(st.data, o.pos + |pending| - 1, p), pos := o.pos + |pending| - 1 + |p|, pushed := -1, waits := true)
  {
    hide Put;
  }

  lemma SameUpdate(m: map<int, Stream>, f: int, a: Stream, b: Stream)
    requires f in m
    ensures m[f := a] == m[f := b] <==> a == b
  {
    assert m[f := a][f] == a && m[f := b][f] == b;
  }

  /**
   What such a write leaves, for every file `d`, descriptor offset `at`, waiting output and new
   output: the waiting bytes slip one place down.  It is what the stream means exactly when they all
   repeat the byte before them.
   */
  lemma PushbackOverOutput(d: seq<nat>, at: nat, pending: seq<nat>, p: seq<nat>)
    requires at > 0 && pending != [] && p != []
    ensures Put(d, at - 1, pending + p) == Put(Put(d, at, pending), at + |pending| - 1, p)
      <==> forall k :: 0 <= k < |pending| ==> pending[k] == Pad(d, at)[at - 1]
  {
    hide Put, Pad;
    var c, n := Pad(d, at)[at - 1], |pending|;
    var a, q := [c] + pending[..n - 1], Pad(d, at)[..at - 1];
    var x, y := Put(d, at - 1, pending + p), Put(Put(d, at, pending), at + n - 1, p);
    var rest := if at - 1 + n + |p| <= |d| then d[at - 1 + n + |p|..] else [];
    SlippedBytes(d, at, pending, p, rest);
    OverLast(d, at, pending, p, rest);
    Middle(q, pending, a, p + rest);
    if pending == a {
      forall k: nat | k < n ensures pending[k] == c {
        Repeats(pending, c, k);
      }
    }
    assert (forall k :: 0 <= k < n ==> pending[k] == c) ==> pending == a;
  }

  lemma SlippedBytes(d: seq<nat>, at: nat, pending: seq<nat>, p: seq<nat>, rest: seq<nat>)
    requires at > 0 && pending != []
    requires rest == if at - 1 + |pending| + |p| <= |d| then d[at - 1 + |pending| + |p|..] else []
    ensures Put(d, at - 1, pending + p) == Pad(d, at)[..at - 1] + pending + (p + rest)
  {
    assert Pad(d, at - 1)[..at - 1] == Pad(d, at)[..at - 1];
  }

  lemma OverLast(d: seq<nat>, at: nat, pending: seq<nat>, p: seq<nat>, rest: seq<nat>)
    requires at > 0 && pending != [] && p != []
    requires rest == if at - 1 + |pending| + |p| <= |d| then d[at - 1 + |pending| + |p|..] else []
    ensures Put(Put(d, at, pending), at + |pending| - 1, p)
      == Pad(d, at)[..at - 1] + ([Pad(d, at)[at - 1]] + pending[..|pending| - 1]) + (p + rest)
  {
    var u := Put(d, at, pending);
    assert u[..at + |pending| - 1] == Pad(d, at)[..at - 1] + ([Pad(d, at)[at - 1]] + pending[..|pending| - 1]);
  }

  lemma Middle(q: seq<nat>, a: seq<nat>, b: seq<nat>, r: seq<nat>)
    requires |a| == |b|
    ensures q + a + r == q + b + r <==> a == b
  {
    assert (q + a + r)[|q|..|q| + |a|] == a;
    assert (q + b + r)[|q|..|q| + |a|] == b;
  }

  lemma {:induction false} Repeats(a: seq<nat>, c: nat, k: nat)
    requires k < |a| && a == [c] + a[..|a| - 1]
    ensures a[k] == c
  {
    if k > 0 {
      Repeats(a, c, k - 1);
      assert a[k] == ([c] + a[..|a| - 1])[k] == a[k - 1];
    }
  }

  /** `bytes` was read from `st` and left `st'`, all of it available without reaching the end. */
  ghost predicate Delivered(st: Stream, bytes: seq<nat>, st': Stream) {
    var pre: seq<nat> := if st.pushed >= 0 then [st.pushed] else [];
    && |bytes| >= |pre| && bytes == pre + Slice(st.data, st.pos, |bytes| - |pre|)
    && (|bytes| > |pre| ==> st.canRead && st.pos + |bytes| - |pre| <= |st.data|)
    && st' == st.(pos := st.pos + |bytes| - |pre|, pushed := -1)
  }

  /** The next bytes of the file from the position on. */
  ghost predicate IsNext(st: Stream, more: seq<nat>) {
    |more| > 0 ==> st.canRead && st.pos + |more| <= |st.data| && more == st.data[st.pos..st.pos + |more|]
  }

  lemma NextIs(st: Stream, more: seq<nat>)
    requires |more| > 0 ==> st.canRead && st.pos + |more| <= |st.data| && more == st.data[st.pos..st.pos + |more|]
    ensures IsNext(st, more)
  {
  }

  lemma DeliveredNone(st: Stream)
    requires st.pushed == -1
    ensures Delivered(st, [], st)
  {
  }

  lemma DeliveredPushed(st: Stream)
    requires st.pushed >= 0
    ensures Delivered(st, [st.pushed], st.(pushed := -1))
  {
  }

  lemma {:induction false} DeliveredMore(st: Stream, bytes: seq<nat>, st1: Stream, more: seq<nat>)
    requires Delivered(st, bytes, st1) && IsNext(st1, more)
    ensures Delivered(st, bytes + more, st1.(pos := st1.pos + |more|))
  {
    hide Slice;
    var pre: seq<nat> := if st.pushed >= 0 then [st.pushed] else [];
    var b: nat := |bytes| - |pre|;
    if |more| > 0 {
      SliceJoin(st.data, st.pos, b, |more|);
      SliceIs(st.data, st.pos + b, |more|);
      Assoc(pre, Slice(st.data, st.pos, b), more);
    } else {
      assert bytes + more == bytes;
    }
  }

  lemma Assoc(a: seq<nat>, b: seq<nat>, c: seq<nat>)
    ensures a + b + c == a + (b + c)
  {
  }

  lemma AheadReady(st: Stream, ahead: nat, want: nat)
    requires ahead + (if st.pushed >= 0 then 1 else 0) >= want
    ensures AheadAfter(st, ahead, want) == ahead + (if st.pushed >= 0 then 1 else 0) - want
  {
  }

  lemma AheadRefilled(st: Stream, ahead: nat, want: nat, bytes: seq<nat>, st1: Stream)
    requires Delivered(st, bytes, st1) && |bytes| == ahead + (if st.pushed >= 0 then 1 else 0) < want
    ensures AheadAfter(st, ahead, want) == AheadAfter(st1.(pushed := -1), 0, want - |bytes|)
  {
    hide Slice;
  }

  /** The ready bytes were the whole request. */
  lemma {:induction false} DeliveredAll(st: Stream, want: nat, bytes: seq<nat>, st1: Stream)
    requires Delivered(st, bytes, st1) && |bytes| == want > 0 && !st.waits
    ensures bytes == ReadBytes(st, want) && st1 == AfterRead(st, want)
  {
  }

  lemma NothingMore(st: Stream)
    ensures Slice(st.data, st.pos, 0) == []
  {
  }

  /** The ready bytes and the descriptor's make the request. */
  lemma {:induction false} DeliveredRest(st: Stream, want: nat, bytes: seq<nat>, st1: Stream, got: seq<nat>)
    requires Delivered(st, bytes, st1) && |bytes| < want && !st.waits
    requires got == if st1.canRead then Slice(st1.data, st1.pos, want - |bytes|) else []
    ensures bytes + got == ReadBytes(st, want)
    ensures AfterRead(st, want) == st1.(pos := st1.pos + |got|, eof := st1.eof || |bytes + got| < want,
                                        err := st1.err || !st1.canRead)
  {
    hide Slice;
    var pre: seq<nat> := if st.pushed >= 0 then [st.pushed] else [];
    var b: nat := |bytes| - |pre|;
    NothingMore(st);
    if st.canRead {
      SliceJoin(st.data, st.pos, b, want - |bytes|);
      Assoc(pre, Slice(st.data, st.pos, b), got);
    } else {
      assert bytes + got == bytes == pre + [];
    }
  }

  /** A full refill serves a small request as the file would. */
  lemma {:induction false} NextIsSlice(st: Stream, got: seq<nat>, need: nat)
    requires st.canRead && need < BUFSZ && IsNext(st, got)
    requires |got| == Min(|Slice(st.data, st.pos, BUFSZ)|, need)
    ensures got == Slice(st.data, st.pos, need)
  {
  }

  /** Delivering output first changes nothing for a read. */
  lemma SameRead(st: Stream, want: nat)
    requires want > 0
    ensures ReadBytes(AfterFlush(st), want) == ReadBytes(st, want)
    ensures AfterRead(AfterFlush(st), want) == AfterRead(st, want)
    ensures forall a: nat :: AheadAfter(AfterFlush(st), a, want) == AheadAfter(st, a, want)
    ensures !AfterFlush(st).waits
  {
  }

  lemma NothingRead(st: Stream)
    ensures ReadBytes(st, 0) == [] && AfterRead(st, 0) == st
  {
  }

  lemma SliceIs(d: seq<nat>, p: nat, k: nat)
    requires p + k <= |d|
    ensures Slice(d, p, k) == d[p..p + k]
  {
  }

  lemma ChunkPart(b: seq<nat>, i: nat, w: nat, k: nat)
    requires |b| == NST * BUFSZ && i < NST && w + k <= BUFSZ
    ensures b[i * BUFSZ + w..i * BUFSZ + w + k] == Chunk(b, i)[w..w + k]
  {
    var c := Chunk(b, i);
    var l, r := b[i * BUFSZ + w..i * BUFSZ + w + k], c[w..w + k];
    forall x | 0 <= x < k
      ensures l[x] == r[x]
    {
      assert c[w + x] == b[i * BUFSZ + (w + x)];
    }
  }

  /** The division guard of `fwrite` is the product's. */
  lemma WriteGuard(sz: nat, cnt: nat)
    requires sz > 0
    ensures cnt > MAXW / sz <==> sz * cnt > MAXW
  {
    var q := MAXW / sz;
    assert MAXW == sz * q + MAXW % sz;
    if cnt > q {
      Arith.MulLe(q + 1, cnt, sz);
    } else {
      Arith.MulLe(cnt, q, sz);
    }
  }

  lemma WholeElements(sz: nat, cnt: nat)
    requires sz > 0
    ensures sz * cnt / sz == cnt && 0 / sz == 0
  {
    Arith.DivModIs(sz * cnt, sz, cnt, 0);
  }

  lemma WaitingMore(s: Slot, c: seq<nat>, p: seq<nat>)
    requires |c| == BUFSZ && s.wlen + |p| <= BUFSZ
    ensures var c' := c[..s.wlen] + p + c[s.wlen + |p|..];
      && |c'| == BUFSZ && c'[..s.wlen + |p|] == c[..s.wlen] + p
      && Waiting(s.(wlen := s.wlen + |p|), c') == Waiting(s, c) + p
  {
  }

  /** What waits is a matter of the write side alone. */
  lemma WaitingSame(s: Slot, s': Slot, c: seq<nat>)
    requires s'.wlen == s.wlen
    ensures Waiting(s', c) == Waiting(s, c)
  {
  }

  lemma PutIs(st: Stream, o: OsFile, pending: seq<nat>, p: seq<nat>)
    requires p != [] && st.canWrite
    ensures var g := GivenBack(st, o, pending);
      AfterPut(st, o, pending, p) == g.(data := Put(g.data, g.pos, p), pos := g.pos + |p|, waits := true)
  {
  }

  /** Without a byte pushed back over waiting output, the write is the reference's. */
  lemma PutPlain(st: Stream, o: OsFile, pending: seq<nat>, p: seq<nat>)
    ensures p == [] || st.pushed < 0 || pending == [] ==> AfterPut(st, o, pending, p) == AfterWrite(st, p)
    ensures p == [] ==> AfterPut(st, o, pending, p) == st
    ensures p != [] && !st.canWrite ==> AfterPut(st, o, pending, p) == AfterWrite(st, p) == st.(err := true)
  {
    hide Put;
  }

  lemma WaitingLength(s: Slot, c: seq<nat>, f: OsFile, st: Stream)
    requires Shows(s, c, f, st)
    ensures |Waiting(s, c)| == s.wlen
  {
  }

  lemma PushedIs(s: Slot, c: seq<nat>, f: OsFile, st: Stream)
    requires Shows(s, c, f, st)
    ensures st.pushed == s.ung && -1 <= s.ung < 256 && (!st.waits ==> s.wlen == 0)
  {
  }

  lemma RowFlags(s: Slot, c: seq<nat>, f: OsFile, st: Stream)
    requires Shows(s, c, f, st)
    ensures s.ro == !st.canWrite && st.eof == s.eof && st.err == s.err && st.canWrite == f.canWrite
  {
  }

  lemma SameTarget(st: Stream, off: int, w: Whence)
    ensures SeekTarget(AfterFlush(st), off, w) == SeekTarget(st, off, w)
    ensures SeekTarget(st, off, w) >= 0 ==> AfterSeek(AfterFlush(st), off, w) == AfterSeek(st, off, w)
  {
  }

  /** The place asked for, from what slot and descriptor know. */
  lemma SeekFrom(s: Slot, c: seq<nat>, f: OsFile, st: Stream, off: int, w: Whence)
    requires Shows(s, c, f, st) && s.wlen == 0
    ensures Unread(s) >= 0 && f.pos == st.pos + Unread(s)
    ensures SeekTarget(st, off, w) == match w
      case Set => off
      case Cur => off - (s.blen - s.bpos) - (if s.ung >= 0 then 1 else 0) + f.pos
      case End => off + |f.data|
  {
    FlushedShows(s, c, f, st);
    ShowsBounds(s, c, f, st);
  }

  /** A refused seek keeps the place only when there was nothing to drop. */
  lemma RefusedPlace(st: Stream, ahead: nat)
    ensures Tell(st.(pos := st.pos + ahead, pushed := -1, eof := false, waits := false)) == Tell(st)
      <==> ahead == 0 && st.pushed < 0
  {
  }

  lemma SeekIs(st: Stream, off: int, w: Whence)
    requires SeekTarget(st, off, w) >= 0
    ensures AfterSeek(st, off, w) == AfterFlush(st).(pos := SeekTarget(st, off, w), pushed := -1, eof := false)
  {
  }

  lemma ZeroFlush(s: Slot, c: seq<nat>, f: OsFile)
    requires s.wlen == 0
    ensures s.(wlen := 0) == s
  {
  }

  lemma ShowsBounds(s: Slot, c: seq<nat>, f: OsFile, st: Stream)
    requires Shows(s, c, f, st)
    ensures |c| == BUFSZ && s.bpos <= s.blen <= BUFSZ && s.wlen <= BUFSZ && -1 <= s.ung < 256
  {
  }
}
