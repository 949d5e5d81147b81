/**
 Reading in the standard's own words, against what the stream of StreamSpec does: `fgetc` gives no byte
 while the end-of-file indicator is set, a read error sets the error indicator alone, a byte clears
 neither, and `fread` is as many calls of `fgetc`.  (`waits` is no part of the standard's stream; it goes
 where the file is asked, as in StreamSpec.)
 (Sections 7.19.7.1 and 7.19.8.1 of ISO/IEC 9899:1999.)
 */
module StreamStd {
  import opened StreamSpec

  /** `fgetc`: its answer and the stream after it. */
  function StdGetc(st: Stream): (r: (int, Stream)) {
    if st.eof then (-1, AfterFlush(st))
    else if st.pushed >= 0 then (st.pushed, st.(pushed := -1))
    else if !st.canRead then (-1, st.(err := true, waits := false))
    else if st.pos < |st.data| then (st.data[st.pos], st.(pos := st.pos + 1, waits := false))
    else (-1, st.(eof := true, waits := false))
  }

  /** `fread` of `want` bytes. */
  function StdFread(st: Stream, want: nat): (r: (seq<nat>, Stream)) {
    if want == 0 then ([], st) else StdRead(AfterFlush(st), want)
  }

  /** Calls of `fgetc` until one gives no byte. */
  function StdRead(st: Stream, want: nat): (r: (seq<nat>, Stream))
    decreases want
  {
    if want == 0 then ([], st)
    else
      var (c, next) := StdGetc(st);
      if c < 0 then ([], next)
      else var (more, last) := StdRead(next, want - 1); ([c] + more, last)
  }

  /** Is there a byte in the file at the position? */
  predicate HasByte(st: Stream) {
    st.canRead && st.pos < |st.data|
  }

  // ---------- one call, from any stream ----------

  /** When answer and flags of `fgetc` are the standard's. */
  lemma GetcFlags(st: Stream)
    ensures GetcAnswer(st) == StdGetc(st).0 <==> !(st.eof && (st.pushed >= 0 || HasByte(st)))
    ensures AfterGetc(st).err == StdGetc(st).1.err
      <==> st.pushed >= 0 || (if HasByte(st) then !st.err else st.canRead || !st.eof || st.err)
    ensures AfterGetc(st).eof == StdGetc(st).1.eof
      <==> st.pushed >= 0 || (if HasByte(st) then !st.eof else st.canRead || st.eof)
  {
    OneByte(st);
  }

  /** What a request for one byte finds. */
  lemma OneByte(st: Stream)
    ensures ReadBytes(st, 1)
      == if st.pushed >= 0 then [st.pushed] else if HasByte(st) then [st.data[st.pos]] else []
  {
  }

  // ---------- in a run ----------

  /** The end-of-file indicator stands only where there is no byte: what every legal call keeps. */
  predicate Quiet(st: Stream) {
    -1 <= st.pushed && (st.eof ==> st.pushed < 0 && !HasByte(st) && (st.canRead || st.err))
  }

  lemma {:induction false} GetcQuiet(st: Stream)
    requires Quiet(st)
    ensures Quiet(AfterGetc(st))
  {
    OneByte(st);
  }

  lemma {:induction false} ReadQuiet(st: Stream, want: nat)
    requires Quiet(st)
    ensures Quiet(AfterRead(st, want))
  {
  }

  lemma {:induction false} WriteQuiet(st: Stream, b: seq<nat>)
    requires Quiet(st)
    ensures Quiet(AfterWrite(st, b))
  {
  }

  /**
   There, the answer of `fgetc` is always the standard's, the error indicator is lost exactly when it was
   set and the byte comes from the file, and end-of-file is set beside it by the first read of a stream
   that cannot be read.
   */
  lemma GetcInRuns(st: Stream)
    requires Quiet(st)
    ensures GetcAnswer(st) == StdGetc(st).0
    ensures AfterGetc(st).err == StdGetc(st).1.err <==> !(st.err && st.pushed < 0 && HasByte(st))
    ensures AfterGetc(st).eof == StdGetc(st).1.eof <==> !(!st.canRead && st.pushed < 0 && !st.eof)
  {
    GetcFlags(st);
  }

  // ---------- fread is fgetc, repeated ----------

  /** Everything of two streams but their flags. */
  predicate Alike(a: Stream, b: Stream) {
    a == b.(eof := a.eof, err := a.err)
  }

  /**
   The bytes are those of the calls of `fgetc`, and so are place, pushback and error indicator; end-of-file
   is the standard's except where the stream cannot be read.
   */
  lemma {:induction false} FreadIsGetcs(st: Stream, want: nat)
    requires Quiet(st)
    ensures ReadBytes(st, want) == StdFread(st, want).0
    ensures Alike(AfterRead(st, want), StdFread(st, want).1) && AfterRead(st, want).err == StdFread(st, want).1.err
    ensures AfterRead(st, want).eof == StdFread(st, want).1.eof <==> !(ReadFails(st, want) && !st.eof)
  {
    FlushedFirst(st, want);
    hide ReadBytes, AfterRead, ReadFails, Quiet;
    NothingWanted(st);
    ReadIsGetcs(AfterFlush(st), want);
  }

  lemma FlushedFirst(st: Stream, want: nat)
    ensures ReadBytes(AfterFlush(st), want) == ReadBytes(st, want) && ReadFails(AfterFlush(st), want) == ReadFails(st, want)
    ensures want > 0 ==> AfterRead(AfterFlush(st), want) == AfterRead(st, want)
    ensures Quiet(AfterFlush(st)) == Quiet(st)
  {
  }

  lemma {:induction false} ReadIsGetcs(st: Stream, want: nat)
    requires Quiet(st) && !st.waits
    ensures ReadBytes(st, want) == StdRead(st, want).0
    ensures Alike(AfterRead(st, want), StdRead(st, want).1) && AfterRead(st, want).err == StdRead(st, want).1.err
    ensures AfterRead(st, want).eof == StdRead(st, want).1.eof <==> !(ReadFails(st, want) && !st.eof)
    decreases want
  {
    hide ReadBytes, AfterRead, ReadFails, StdGetc, StdRead, Quiet;
    if want == 0 {
      NothingWanted(st);
    } else if StdGetc(st).0 < 0 {
      NoneRead(st, want);
    } else {
      FirstRead(st, want);
      ReadStep(st, want);
      ReadIsGetcs(StdGetc(st).1, want - 1);
    }
  }

  lemma NothingWanted(st: Stream)
    ensures ReadBytes(st, 0) == [] && AfterRead(st, 0) == st && StdRead(st, 0) == ([], st) && !ReadFails(st, 0)
  {
  }

  lemma ReadStep(st: Stream, want: nat)
    requires want > 0 && StdGetc(st).0 >= 0
    ensures var rest := StdRead(StdGetc(st).1, want - 1); StdRead(st, want) == ([StdGetc(st).0] + rest.0, rest.1)
  {
  }

  lemma {:induction false} NoneRead(st: Stream, want: nat)
    requires Quiet(st) && want > 0 && StdGetc(st).0 < 0 && !st.waits
    ensures ReadBytes(st, want) == [] && StdRead(st, want) == ([], StdGetc(st).1)
    ensures var next := StdGetc(st).1; var end := AfterRead(st, want);
      Alike(end, next) && end.err == next.err && (end.eof == next.eof <==> !(ReadFails(st, want) && !st.eof))
  {
  }

  /** The first byte, and then a request for the others. */
  lemma {:induction false} FirstRead(st: Stream, want: nat)
    requires Quiet(st) && want > 0 && StdGetc(st).0 >= 0 && !st.waits
    ensures var next := StdGetc(st).1;
      && Quiet(next) && !next.waits && next.eof == st.eof && next.err == st.err
      && ReadBytes(st, want) == [StdGetc(st).0] + ReadBytes(next, want - 1)
      && AfterRead(st, want) == AfterRead(next, want - 1)
      && ReadFails(st, want) == ReadFails(next, want - 1)
  {
    FirstBytes(st, want);
    NoneWanted(StdGetc(st).1);
    hide ReadBytes, Slice;
  }

  lemma {:induction false} FirstBytes(st: Stream, want: nat)
    requires want > 0 && StdGetc(st).0 >= 0
    ensures ReadBytes(st, want) == [StdGetc(st).0] + ReadBytes(StdGetc(st).1, want - 1)
  {
    hide Slice;
    var next := StdGetc(st).1;
    var rest := if st.canRead then Slice(next.data, next.pos, want - 1) else [];
    NoneWanted(next);
    assert ReadBytes(next, want - 1) == [] + rest == rest;
    if st.pushed < 0 {
      RestRead(st, want);
      assert ReadBytes(st, want) == [] + Slice(st.data, st.pos, want) == [StdGetc(st).0] + rest;
    }
  }

  lemma NoneWanted(st: Stream)
    ensures Slice(st.data, st.pos, 0) == [] && ReadBytes(st, 0) == []
  {
  }

  lemma RestRead(st: Stream, want: nat)
    requires want > 0
    ensures HasByte(st) ==> Slice(st.data, st.pos, want) == [st.data[st.pos]] + Slice(st.data, st.pos + 1, want - 1)
  {
  }

  // ---------- the standard's stream beside the other ----------

  /** The standard's end-of-file indicator stands only at the end of a stream that can be read. */
  predicate AtEnd(st: Stream) {
    -1 <= st.pushed && (st.eof ==> st.pushed < 0 && !HasByte(st) && st.canRead)
  }

  lemma {:induction false} GetcAlike(a: Stream, b: Stream)
    requires Alike(a, b) && AtEnd(b)
    ensures GetcAnswer(a) == StdGetc(b).0 && Alike(AfterGetc(a), StdGetc(b).1) && AtEnd(StdGetc(b).1)
  {
    OneByte(a);
    hide ReadBytes;
  }

  lemma {:induction false} FreadAlike(a: Stream, b: Stream, want: nat)
    requires Alike(a, b) && AtEnd(b)
    ensures ReadBytes(a, want) == StdFread(b, want).0 && Alike(AfterRead(a, want), StdFread(b, want).1)
    ensures AtEnd(StdFread(b, want).1)
  {
    FreadIsGetcs(b, want);
    ReadAtEnd(if want == 0 then b else AfterFlush(b), want);
    hide StdRead;
  }

  lemma {:induction false} ReadAtEnd(b: Stream, want: nat)
    requires AtEnd(b)
    ensures AtEnd(StdRead(b, want).1)
    decreases want
  {
    if want > 0 {
      GetcAlike(b, b);
      hide StdGetc, AtEnd;
      ReadAtEnd(StdGetc(b).1, want - 1);
    }
  }

  lemma {:induction false} WriteAlike(a: Stream, b: Stream, p: seq<nat>)
    requires Alike(a, b) && AtEnd(b)
    ensures Alike(AfterWrite(a, p), AfterWrite(b, p)) && AtEnd(AfterWrite(b, p))
  {
  }
}
