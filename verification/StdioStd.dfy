/** Whole runs of the stream table against streams that read as the standard words it. */
module StdioStd {
  import opened StreamSpec
  import opened StreamStd
  import opened Stdio
  import opened StdioRuns

  // ---------- what every run keeps ----------

  ghost predicate AllQuiet(m: map<int, Stream>) {
    forall f :: f in m ==> Quiet(m[f])
  }

  /** Every call keeps it, so GetcInRuns and FreadIsGetcs hold wherever a run comes. */
  lemma {:induction false} CallQuiet(m: map<int, Stream>, op: Op)
    requires AllQuiet(m) && Legal(m, op)
    ensures AllQuiet(After(m, op))
  {
    hide Quiet, AfterRead, AfterWrite, AfterGetc;
    var m' := After(m, op);
    forall f | f in m'
      ensures Quiet(m'[f])
    {
      match op
      case Read(g, sz, cnt) => ReadQuiet(m[g], sz * cnt);
      case Write(g, bytes) => WriteQuiet(m[g], bytes);
      case Getc(g) => GetcQuiet(m[g]);
      case Unget(c, g) => UngetQuiet(m[g], c);
      case Open(mode, fd, data) => OpenedQuiet(mode, data);
      case Seek(g, off, w) => SettledQuiet(m[g]); SeekQuiet(m[g], off, w);
      case TellAt(g) => SettledQuiet(m[g]);
      case Flush(g) => SettledQuiet(m[g]);
      case FlushEvery => SettledQuiet(m[f]);
      case Clear(g) => SettledQuiet(m[g]);
      case _ =>
    }
  }

  lemma UngetQuiet(st: Stream, c: int)
    ensures Quiet(AfterUnget(st, c))
  {
  }

  lemma OpenedQuiet(mode: seq<nat>, data: seq<nat>)
    requires IsMode(mode)
    ensures Quiet(Opened(mode, data)) && AtEnd(Opened(mode, data))
  {
  }

  lemma SeekQuiet(st: Stream, off: int, w: Whence)
    requires SeekTarget(st, off, w) >= 0
    ensures Quiet(AfterSeek(st, off, w))
  {
  }

  lemma SettledQuiet(st: Stream)
    ensures Quiet(st) ==> Quiet(AfterFlush(st)) && Quiet(Cleared(st))
    ensures AtEnd(st) ==> AtEnd(AfterFlush(st)) && AtEnd(Cleared(st))
  {
  }

  lemma {:induction false} RunQuiet(m: map<int, Stream>, ops: seq<Op>)
    requires AllQuiet(m) && LegalRun(m, ops)
    ensures AllQuiet(RefRun(m, ops).0)
    decreases |ops|
  {
    hide Legal, After, See, AllQuiet;
    if ops != [] {
      CallQuiet(m, ops[0]);
      RunQuiet(After(m, ops[0]), ops[1..]);
    }
  }

  // ---------- the standard's run ----------

  /** One call, with `fgetc` and `fread` as the standard words them. */
  function StdAfter(m: map<int, Stream>, op: Op): map<int, Stream>
    requires Legal(m, op)
  {
    match op
    case Read(f, sz, cnt) => m[f := StdFread(m[f], sz * cnt).1]
    case Getc(f) => m[f := StdGetc(m[f]).1]
    case _ => After(m, op)
  }

  function StdSee(m: map<int, Stream>, op: Op): Seen
    requires Legal(m, op)
  {
    match op
    case Read(f, sz, cnt) =>
      var b := StdFread(m[f], sz * cnt).0; Bytes(b, if sz == 0 || cnt == 0 then 0 else |b| / sz)
    case Getc(f) => Answer(StdGetc(m[f]).0)
    case _ => See(m, op)
  }

  predicate StdLegalRun(m: map<int, Stream>, ops: seq<Op>)
    decreases |ops|
  {
    ops == [] || (Legal(m, ops[0]) && StdLegalRun(StdAfter(m, ops[0]), ops[1..]))
  }

  function StdRun(m: map<int, Stream>, ops: seq<Op>): seq<Seen>
    requires StdLegalRun(m, ops)
    decreases |ops|
  {
    if ops == [] then [] else [StdSee(m, ops[0])] + StdRun(StdAfter(m, ops[0]), ops[1..])
  }

  /** Does the call ask for a flag? */
  predicate AsksFlag(op: Op) {
    op.EofAt? || op.ErrorAt?
  }

  ghost predicate AllAlike(m: map<int, Stream>, std: map<int, Stream>) {
    m.Keys == std.Keys && forall f :: f in m ==> Alike(m[f], std[f]) && AtEnd(std[f])
  }

  lemma {:induction false} CallAlike(m: map<int, Stream>, std: map<int, Stream>, op: Op)
    requires AllAlike(m, std) && Legal(m, op)
    ensures Legal(std, op) && AllAlike(After(m, op), StdAfter(std, op))
    ensures !AsksFlag(op) ==> See(m, op) == StdSee(std, op)
  {
    hide AllAlike, AtEnd, Alike, AfterRead, AfterWrite, AfterGetc, StdGetc, StdFread, GetcAnswer, ReadBytes, Opened, IsMode;
    KeysSame(m, std);
    match op
    case Read(f, sz, cnt) =>
      AlikeAt(m, std, f);
      FreadAlike(m[f], std[f], sz * cnt);
      UpdateAlike(m, std, f, AfterRead(m[f], sz * cnt), StdFread(std[f], sz * cnt).1);
    case Write(f, bytes) =>
      AlikeAt(m, std, f);
      WriteAlike(m[f], std[f], bytes);
      UpdateAlike(m, std, f, AfterWrite(m[f], bytes), AfterWrite(std[f], bytes));
    case Getc(f) =>
      AlikeAt(m, std, f);
      GetcAlike(m[f], std[f]);
      UpdateAlike(m, std, f, AfterGetc(m[f]), StdGetc(std[f]).1);
    case Unget(c, f) =>
      AlikeAt(m, std, f);
      UngetAtEnd(m[f], std[f], c);
      UpdateAlike(m, std, f, AfterUnget(m[f], c), AfterUnget(std[f], c));
    case Open(mode, fd, data) =>
      OpenedQuiet(mode, data);
      AlikeSelf(Opened(mode, data));
      UpdateAlike(m, std, fd, Opened(mode, data), Opened(mode, data));
    case Seek(f, off, w) =>
      AlikeAt(m, std, f);
      SeekAlike(m[f], std[f], off, w);
      UpdateAlike(m, std, f, AfterSeek(m[f], off, w), AfterSeek(std[f], off, w));
    case TellAt(f) =>
      SettledAlike(m, std, f);
    case Flush(f) =>
      SettledAlike(m, std, f);
    case Clear(f) =>
      SettledAlike(m, std, f);
    case Close(f) =>
      AlikeAt(m, std, f);
      DroppedAlike(m, std, f);
    case FlushEvery =>
      FlushedAlike(m, std);
    case EofAt(f) =>
    case ErrorAt(f) =>
  }

  lemma AlikeSelf(a: Stream)
    ensures Alike(a, a)
  {
  }

  /** What two such streams share. */
  lemma AlikeAt(m: map<int, Stream>, std: map<int, Stream>, f: int)
    requires AllAlike(m, std) && f in m
    ensures f in std && Alike(m[f], std[f]) && AtEnd(std[f])
    ensures m[f].data == std[f].data && m[f].pos == std[f].pos && m[f].pushed == std[f].pushed
    ensures m[f].canWrite == std[f].canWrite && m[f].waits == std[f].waits
  {
  }

  lemma UpdateAlike(m: map<int, Stream>, std: map<int, Stream>, f: int, a: Stream, b: Stream)
    requires AllAlike(m, std) && Alike(a, b) && AtEnd(b)
    ensures AllAlike(m[f := a], std[f := b])
  {
    hide Alike, AtEnd;
  }

  lemma DroppedAlike(m: map<int, Stream>, std: map<int, Stream>, f: int)
    requires AllAlike(m, std)
    ensures AllAlike(m - {f}, std - {f})
  {
    hide Alike, AtEnd;
  }

  lemma SettledAlike(m: map<int, Stream>, std: map<int, Stream>, f: int)
    requires AllAlike(m, std) && f in m
    ensures f in std && AllAlike(m[f := AfterFlush(m[f])], std[f := AfterFlush(std[f])])
    ensures AllAlike(m[f := Cleared(m[f])], std[f := Cleared(std[f])])
    ensures Tell(m[f]) == Tell(std[f])
  {
    hide AllAlike, AtEnd;
    AlikeAt(m, std, f);
    SettledQuiet(std[f]);
    UpdateAlike(m, std, f, AfterFlush(m[f]), AfterFlush(std[f]));
    UpdateAlike(m, std, f, Cleared(m[f]), Cleared(std[f]));
  }

  lemma FlushedAlike(m: map<int, Stream>, std: map<int, Stream>)
    requires AllAlike(m, std)
    ensures AllAlike(map f | f in m :: AfterFlush(m[f]), map f | f in std :: AfterFlush(std[f]))
  {
    hide AtEnd, AllAlike;
    var a, b := map f | f in m :: AfterFlush(m[f]), map f | f in std :: AfterFlush(std[f]);
    KeysSame(m, std);
    forall f | f in a
      ensures Alike(a[f], b[f]) && AtEnd(b[f])
    {
      AlikeAt(m, std, f);
      SettledQuiet(std[f]);
    }
    AllAlikeIs(a, b);
  }

  lemma AllAlikeIs(a: map<int, Stream>, b: map<int, Stream>)
    requires a.Keys == b.Keys && forall f :: f in a ==> Alike(a[f], b[f]) && AtEnd(b[f])
    ensures AllAlike(a, b)
  {
  }

  lemma SeekAlike(a: Stream, b: Stream, off: int, w: Whence)
    requires Alike(a, b) && SeekTarget(a, off, w) >= 0
    ensures SeekTarget(b, off, w) >= 0 && Alike(AfterSeek(a, off, w), AfterSeek(b, off, w)) && AtEnd(AfterSeek(b, off, w))
  {
  }

  lemma KeysSame(m: map<int, Stream>, std: map<int, Stream>)
    requires AllAlike(m, std)
    ensures m.Keys == std.Keys && |m| == |std|
  {
    assert |m| == |m.Keys| && |std| == |std.Keys|;
  }

  lemma UngetAtEnd(a: Stream, b: Stream, c: int)
    requires Alike(a, b)
    ensures AtEnd(AfterUnget(b, c)) && Alike(AfterUnget(a, c), AfterUnget(b, c))
  {
  }

  /** Flags aside, every legal run shows what the standard's streams show. */
  lemma {:induction false} RunIsStandard(m: map<int, Stream>, std: map<int, Stream>, ops: seq<Op>)
    requires AllAlike(m, std) && LegalRun(m, ops) && forall op :: op in ops ==> !AsksFlag(op)
    ensures StdLegalRun(std, ops) && RefRun(m, ops).1 == StdRun(std, ops)
    decreases |ops|
  {
    hide Legal, After, StdAfter, See, StdSee, AllAlike;
    if ops != [] {
      CallAlike(m, std, ops[0]);
      RunIsStandard(After(m, ops[0]), StdAfter(std, ops[0]), ops[1..]);
    }
  }

  // ---------- two runs that ask for a flag ----------

  /**
   A refused write sets the error indicator of a stream on "AB"; reading the "A" loses it.  The standard's
   `fgetc` keeps it.
   */
  method ErrorForgotten() returns (before: int, c: int, after: int)
    ensures before == 1 && c == 65 && after == 0
    ensures StdGetc(AfterWrite(Opened([114], [65, 66]), [67])).1.err
  {
    hide Shows, TableShows, AfterGetc, GetcAnswer, AfterWrite, AfterPut;
    ReadAfterRefusal();
    var tb := new Table();
    var f := tb.Fopen([114], 3, [65, 66]);
    var w := tb.Wput(3, [67]);
    before := tb.Ferror(3);
    c := tb.Fgetc(3);
    after := tb.Ferror(3);
  }

  lemma ReadAfterRefusal()
    ensures var st := AfterWrite(Opened([114], [65, 66]), [67]);
      st.err && GetcAnswer(st) == 65 && !AfterGetc(st).err && StdGetc(st).1.err
      && Opened([114], [65, 66]).pushed < 0
  {
    OneByte(AfterWrite(Opened([114], [65, 66]), [67]));
  }

  /** Reading a stream that is only written sets end-of-file beside the error; the standard's `fgetc` sets the
      error alone. */
  method EofWithoutReading() returns (c: int, eof: int, err: int)
    ensures c == -1 && eof == 1 && err == 1
    ensures !StdGetc(Opened([119], [])).1.eof
  {
    hide Shows, TableShows, AfterGetc, GetcAnswer;
    UnreadableGetc();
    var tb := new Table();
    var f := tb.Fopen([119], 3, []);
    c := tb.Fgetc(3);
    eof := tb.Feof(3);
    err := tb.Ferror(3);
  }

  lemma UnreadableGetc()
    ensures var st := Opened([119], []);
      GetcAnswer(st) == -1 && AfterGetc(st).eof && AfterGetc(st).err && !StdGetc(st).1.eof
  {
    OneByte(Opened([119], []));
  }
}
