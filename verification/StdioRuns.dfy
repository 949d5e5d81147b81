/** Whole runs of the stream table against the reference streams. */
module StdioRuns {
  import opened StreamSpec
  import opened Stdio

  datatype Op =
    | Open(mode: seq<nat>, fd: int, data: seq<nat>)
    | Read(f: int, sz: nat, cnt: nat)
    | Write(f: int, bytes: seq<nat>)
    | Getc(f: int)
    | Unget(c: int, f: int)
    | Seek(f: int, off: int, w: Whence)
    | TellAt(f: int)
    | Flush(f: int)
    | FlushEvery
    | EofAt(f: int)
    | ErrorAt(f: int)
    | Clear(f: int)
    | Close(f: int)

  /** What the program sees of one call. */
  datatype Seen = Bytes(bytes: seq<nat>, r: nat) | Answer(v: int) | Final(data: seq<nat>)

  /**
   The calls a run may make next: on open streams, at most eight at once, one pushback at a
   time and not at position zero, no output over it while earlier output waits, no seek before the
   beginning.
   */
  predicate Legal(m: map<int, Stream>, op: Op) {
    match op
    case Open(mode, fd, data) => IsMode(mode) && fd > 2 && fd !in m && |m| < NST
    case Read(f, sz, cnt) => f in m
    case Write(f, bytes) => f in m && (bytes != [] ==> m[f].pushed < 0 || !m[f].waits)
    case Unget(c, f) => f in m && (c != -1 ==> m[f].pushed < 0 && m[f].pos > 0)
    case Seek(f, off, w) => f in m && SeekTarget(m[f], off, w) >= 0
    case Getc(f) => f in m
    case TellAt(f) => f in m
    case Flush(f) => f in m
    case FlushEvery => true
    case EofAt(f) => f in m
    case ErrorAt(f) => f in m
    case Clear(f) => f in m
    case Close(f) => f in m
  }

  /** The reference streams after one call. */
  function After(m: map<int, Stream>, op: Op): map<int, Stream>
    requires Legal(m, op)
  {
    match op
    case Open(mode, fd, data) => m[fd := Opened(mode, data)]
    case Read(f, sz, cnt) => m[f := AfterRead(m[f], sz * cnt)]
    case Write(f, bytes) => m[f := AfterWrite(m[f], bytes)]
    case Getc(f) => m[f := AfterGetc(m[f])]
    case Unget(c, f) => if c == -1 then m else m[f := AfterUnget(m[f], c)]
    case Seek(f, off, w) => m[f := AfterSeek(m[f], off, w)]
    case TellAt(f) => m[f := AfterFlush(m[f])]
    case Flush(f) => m[f := AfterFlush(m[f])]
    case FlushEvery => map f | f in m :: AfterFlush(m[f])
    case EofAt(f) => m
    case ErrorAt(f) => m
    case Clear(f) => m[f := Cleared(m[f])]
    case Close(f) => m - {f}
  }

  /** What an unbuffered file with a position shows the program. */
  function See(m: map<int, Stream>, op: Op): Seen
    requires Legal(m, op)
  {
    match op
    case Open(mode, fd, data) => Answer(fd)
    case Read(f, sz, cnt) =>
      var b := ReadBytes(m[f], sz * cnt); Bytes(b, if sz == 0 || cnt == 0 then 0 else |b| / sz)
    case Write(f, bytes) => Answer(Written(m[f], bytes))
    case Getc(f) => Answer(GetcAnswer(m[f]))
    case Unget(c, f) => Answer(if c == -1 then -1 else c % 256)
    case Seek(f, off, w) => Answer(0)
    case TellAt(f) => Answer(Tell(m[f]))
    case Flush(f) => Answer(0)
    case FlushEvery => Answer(0)
    case EofAt(f) => Answer(if m[f].eof then 1 else 0)
    case ErrorAt(f) => Answer(if m[f].err then 1 else 0)
    case Clear(f) => Answer(0)
    case Close(f) => Final(m[f].data)
  }

  predicate LegalRun(m: map<int, Stream>, ops: seq<Op>)
    decreases |ops|
  {
    ops == [] || (Legal(m, ops[0]) && LegalRun(After(m, ops[0]), ops[1..]))
  }

  function RefRun(m: map<int, Stream>, ops: seq<Op>): (map<int, Stream>, seq<Seen>)
    requires LegalRun(m, ops)
    decreases |ops|
  {
    if ops == [] then (m, [])
    else var (m', s) := RefRun(After(m, ops[0]), ops[1..]); (m', [See(m, ops[0])] + s)
  }

  /** One call on the table shows what the reference shows; `final` is the file a close leaves. */
  method Call(tb: Table, op: Op) returns (ghost s: Seen)
    requires tb.Valid() && Legal(tb.model, op)
    modifies tb, tb.tab, tb.buf
    ensures tb.Valid() && tb.tab == old(tb.tab) && tb.buf == old(tb.buf)
    ensures tb.model == After(old(tb.model), op) && s == See(old(tb.model), op)
  {
    hide Shows, TableShows, ReadBytes, AfterRead, AfterWrite, AfterGetc, GetcAnswer, AfterSeek, Put;
    match op
    case Open(mode, fd, data) =>
      TableCount(tb.tab[..tb.n], tb.buf[..], tb.os, tb.model);
      var f := tb.Fopen(mode, fd, data);
      s := Answer(f);
    case Read(f, sz, cnt) =>
      ZeroProduct(sz, cnt);
      var b, r := tb.Fread(sz, cnt, f);
      s := Bytes(b, r);
    case Write(f, bytes) =>
      var r := tb.Wput(f, bytes);
      s := Answer(r);
    case Getc(f) =>
      var c := tb.Fgetc(f);
      s := Answer(c);
    case Unget(c, f) =>
      var r := tb.Ungetc(c, f);
      s := Answer(r);
    case Seek(f, off, w) =>
      var r := tb.Fseek(f, off, w);
      s := Answer(r);
    case TellAt(f) =>
      var r := tb.Ftell(f);
      s := Answer(r);
    case Flush(f) =>
      tb.Fflush(f);
      s := Answer(0);
    case FlushEvery =>
      tb.FlushAll();
      s := Answer(0);
    case EofAt(f) =>
      var r := tb.Feof(f);
      s := Answer(r);
    case ErrorAt(f) =>
      var r := tb.Ferror(f);
      s := Answer(r);
    case Clear(f) =>
      tb.Clearerr(f);
      s := Answer(0);
    case Close(f) =>
      ghost var data := tb.Fclose(f);
      s := Final(data);
  }

  lemma ZeroProduct(x: nat, y: nat)
    ensures x * y == 0 <==> x == 0 || y == 0
  {
  }

  /**
   Every run: the bytes, answers, positions and final file contents a program sees through
   the buffered table are those of unbuffered files.
   */
  method Run(tb: Table, ops: seq<Op>) returns (ghost seen: seq<Seen>)
    requires tb.Valid() && LegalRun(tb.model, ops)
    modifies tb, tb.tab, tb.buf
    ensures tb.Valid() && (tb.model, seen) == RefRun(old(tb.model), ops)
    decreases |ops|
  {
    hide Shows, TableShows, After, See, Legal;
    if ops == [] {
      return [];
    }
    ghost var s := Call(tb, ops[0]);
    ghost var rest := Run(tb, ops[1..]);
    seen := [s] + rest;
  }

  // ---------- two runs outside the legal ones ----------

  /**
   A seek to a refused place moves the stream: one byte of "AB" is read, the whole file was read
   ahead, and the refused seek leaves the stream behind it.
   */
  method RefusedSeekMoves() returns (c: int, before: int, r: int, after: int)
    ensures c == 65 && before == 1 && r == -1 && after == 2
  {
    var tb := new Table();
    var f := tb.Fopen([114], 3, [65, 66]);
    c := tb.Fgetc(3);
    ReadOfTwo();
    before := tb.Ftell(3);
    r := tb.Fseek(3, -1, Set);
    after := tb.Ftell(3);
  }

  lemma ReadOfTwo()
    ensures GetcAnswer(Opened([114], [65, 66])) == 65
    ensures AfterGetc(Opened([114], [65, 66])) == Opened([114], [65, 66]).(pos := 1)
    ensures AheadAfter(Opened([114], [65, 66]), 0, 1) == 1
  {
    assert Slice([65, 66], 0, 1) == [65];
  }

  /**
   A byte is pushed back over output that waits, then another is written.  The file "A" would become
   "AC"; it becomes "BC", because the descriptor steps back under the waiting byte.
   */
  method OutputSlips() returns (file: seq<nat>)
    ensures file == [66, 67]
    ensures Meant().data == [65, 67]
  {
    hide Shows, TableShows, Put, AfterPut, AfterWrite, Repeating, Waiting, Meant;
    var tb := new Table();
    ByteWaits(tb);
    var u := tb.Ungetc(7, 3);
    SlippedBytesAre(tb.model[3], tb.os[3]);
    var w := tb.Wput(3, [67]);
    tb.Fflush(3);
    file := tb.os[3].data;
  }

  /** Behind the "A" of a file, a "B" that waits. */
  method ByteWaits(tb: Table)
    requires tb.Valid() && tb.model == map[] && tb.n == 0
    modifies tb`os, tb`model, tb`n, tb.tab, tb.buf
    ensures tb.Valid() && 3 in tb.model && 3 in tb.os
    ensures tb.model[3] == Stream([65, 66], 2, -1, false, false, true, true, true)
    ensures tb.os[3].data == [65] && tb.os[3].pos == 1 && tb.Pending(3) == [66]
  {
    hide Shows, TableShows, Put, AfterPut, AfterWrite, AfterSeek, Repeating, Waiting, Opened;
    var f := tb.Fopen([114, 43], 3, [65]);
    StartOfSlip(tb.model[3]);
    var r := tb.Fseek(3, 1, Set);
    tb.RowSays(3);
    PutNothing(tb.os[3].data, tb.os[3].pos);
    var w := tb.Wput(3, [66]);
    assert [] + [66] == [66];
  }

  /** The same calls on the unbuffered file. */
  function Meant(): Stream {
    AfterWrite(AfterUnget(AfterWrite(AfterSeek(Opened([114, 43], [65]), 1, Set), [66]), 7), [67])
  }

  lemma StartOfSlip(st0: Stream)
    requires st0 == Opened([114, 43], [65])
    ensures SeekTarget(st0, 1, Set) == 1 && st0.pushed == -1
    ensures var st1 := AfterSeek(st0, 1, Set);
      && st1 == Stream([65], 1, -1, false, false, true, true, false)
      && AfterWrite(st1, [66]) == Stream([65, 66], 2, -1, false, false, true, true, true)
  {
  }

  lemma SlippedBytesAre(st: Stream, o: OsFile)
    requires o.data == [65] && o.pos == 1 && st.pushed == 7 && st.canWrite
    ensures AfterPut(st, o, [66], [67]).data == [66, 67] && Meant().data == [65, 67]
  {
    assert Put([65], 0, [66]) == [66];
  }
}
