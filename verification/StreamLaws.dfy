/**
 What short runs show, in the program's terms: opening in each mode, writing and reading back, seeking,
 telling, pushing back.  Each law speaks of calls and their literal answers only.
 (Sections 7.19.5.3, 7.19.7.11, 7.19.8 and 7.19.9 of ISO/IEC 9899:1999.)
 */
module StreamLaws {
  import opened StreamSpec
  import opened Stdio
  import opened StdioRuns

  /** The answers of a run. */
  function Shown(m: map<int, Stream>, ops: seq<Op>): seq<Seen>
    requires LegalRun(m, ops)
  {
    RefRun(m, ops).1
  }

  lemma First(m: map<int, Stream>, op: Op, rest: seq<Op>)
    requires Legal(m, op) && LegalRun(After(m, op), rest)
    ensures LegalRun(m, [op] + rest) && Shown(m, [op] + rest) == [See(m, op)] + Shown(After(m, op), rest)
  {
    hide Legal, After, See;
    assert ([op] + rest)[0] == op && ([op] + rest)[1..] == rest;
  }

  lemma Ended(m: map<int, Stream>)
    ensures LegalRun(m, []) && Shown(m, []) == []
  {
  }

  lemma OneCall(m: map<int, Stream>, a: Op)
    requires Legal(m, a)
    ensures LegalRun(m, [a]) && Shown(m, [a]) == [See(m, a)]
  {
    hide Legal, After, See, LegalRun, Shown;
    Ended(After(m, a));
    First(m, a, []);
    assert [a] + [] == [a] && [See(m, a)] + [] == [See(m, a)];
  }

  lemma TwoCalls(m: map<int, Stream>, a: Op, b: Op)
    requires Legal(m, a) && Legal(After(m, a), b)
    ensures LegalRun(m, [a, b]) && Shown(m, [a, b]) == [See(m, a), See(After(m, a), b)]
  {
    hide Legal, After, See, LegalRun, Shown;
    OneCall(After(m, a), b);
    First(m, a, [b]);
    assert [a] + [b] == [a, b];
  }

  lemma ThreeCalls(m: map<int, Stream>, a: Op, b: Op, c: Op)
    requires Legal(m, a) && Legal(After(m, a), b) && Legal(After(After(m, a), b), c)
    ensures LegalRun(m, [a, b, c])
    ensures Shown(m, [a, b, c]) == [See(m, a), See(After(m, a), b), See(After(After(m, a), b), c)]
  {
    hide Legal, After, See, LegalRun, Shown;
    TwoCalls(After(m, a), b, c);
    First(m, a, [b, c]);
    assert [a] + [b, c] == [a, b, c];
  }

  lemma FourCalls(m: map<int, Stream>, a: Op, b: Op, c: Op, d: Op)
    requires Legal(m, a) && Legal(After(m, a), b) && Legal(After(After(m, a), b), c)
    requires Legal(After(After(After(m, a), b), c), d)
    ensures LegalRun(m, [a, b, c, d])
    ensures Shown(m, [a, b, c, d]) ==
      [See(m, a), See(After(m, a), b), See(After(After(m, a), b), c), See(After(After(After(m, a), b), c), d)]
  {
    hide Legal, After, See, LegalRun, Shown;
    ThreeCalls(After(m, a), b, c, d);
    First(m, a, [b, c, d]);
    assert [a] + [b, c, d] == [a, b, c, d];
  }

  /** A descriptor that may be opened. */
  predicate Free(m: map<int, Stream>, fd: int) {
    fd > 2 && fd !in m && |m| < 8
  }

  // ---------- opening ----------

  /** "w" leaves nothing of what was there. */
  lemma WriteTruncates(m: map<int, Stream>, mode: seq<nat>, fd: int, data: seq<nat>)
    requires Free(m, fd) && |mode| > 0 && mode[0] == 119
    ensures var run := [Open(mode, fd, data), Close(fd)];
      LegalRun(m, run) && Shown(m, run) == [Answer(fd), Final([])]
  {
    hide LegalRun, Shown;
    TwoCalls(m, Open(mode, fd, data), Close(fd));
  }

  /** "r" leaves all of it. */
  lemma ReadKeeps(m: map<int, Stream>, mode: seq<nat>, fd: int, data: seq<nat>)
    requires Free(m, fd) && |mode| > 0 && mode[0] == 114
    ensures var run := [Open(mode, fd, data), Close(fd)];
      LegalRun(m, run) && Shown(m, run) == [Answer(fd), Final(data)]
  {
    hide LegalRun, Shown;
    TwoCalls(m, Open(mode, fd, data), Close(fd));
  }

  /** After "r" a read delivers the file from its first byte. */
  lemma ReadsFromTheStart(m: map<int, Stream>, mode: seq<nat>, fd: int, data: seq<nat>, k: nat)
    requires Free(m, fd) && |mode| > 0 && mode[0] == 114 && 0 < k <= |data|
    ensures var run := [Open(mode, fd, data), Read(fd, 1, k), TellAt(fd)];
      LegalRun(m, run) && Shown(m, run) == [Answer(fd), Bytes(data[..k], k), Answer(k)]
  {
    hide LegalRun, Shown;
    assert 1 * k == k;
    ThreeCalls(m, Open(mode, fd, data), Read(fd, 1, k), TellAt(fd));
    assert [] + data[0..k] == data[..k];
  }

  /** "w" without a '+' reads nothing, not even what was just written. */
  lemma WriteOnlyReadsNothing(m: map<int, Stream>, mode: seq<nat>, fd: int, data: seq<nat>, b: seq<nat>, k: nat)
    requires Free(m, fd) && |mode| > 0 && mode[0] == 119 && 43 !in mode
    ensures var run := [Open(mode, fd, data), Write(fd, b), Seek(fd, 0, Set), Read(fd, 1, k)];
      LegalRun(m, run) && Shown(m, run) == [Answer(fd), Answer(|b|), Answer(0), Bytes([], 0)]
  {
    hide LegalRun, Shown, Put;
    FourCalls(m, Open(mode, fd, data), Write(fd, b), Seek(fd, 0, Set), Read(fd, 1, k));
  }

  /** "r" without a '+' writes nothing and leaves the file alone. */
  lemma ReadOnlyWritesNothing(m: map<int, Stream>, mode: seq<nat>, fd: int, data: seq<nat>, b: seq<nat>)
    requires Free(m, fd) && |mode| > 0 && mode[0] == 114 && 43 !in mode
    ensures var run := [Open(mode, fd, data), Write(fd, b), Close(fd)];
      LegalRun(m, run) && Shown(m, run) == [Answer(fd), Answer(0), Final(data)]
  {
    hide LegalRun, Shown, Put;
    ThreeCalls(m, Open(mode, fd, data), Write(fd, b), Close(fd));
  }

  /** With a '+', what is written is read back; "w+" then holds it alone, "r+" before the rest of the file. */
  lemma UpdateReadsBack(m: map<int, Stream>, mode: seq<nat>, fd: int, data: seq<nat>, b: seq<nat>)
    requires Free(m, fd) && |mode| > 0 && (mode[0] == 114 || mode[0] == 119) && 43 in mode && b != []
    ensures var run := [Open(mode, fd, data), Write(fd, b), Seek(fd, 0, Set), Read(fd, 1, |b|)];
      LegalRun(m, run) && Shown(m, run) == [Answer(fd), Answer(|b|), Answer(0), Bytes(b, |b|)]
    ensures var run := [Open(mode, fd, data), Write(fd, b), Close(fd)];
      LegalRun(m, run) && Shown(m, run) ==
        [Answer(fd), Answer(|b|), Final(b + (if mode[0] == 114 && |b| <= |data| then data[|b|..] else []))]
  {
    hide LegalRun, Shown;
    UpdateRead(m, mode, fd, data, b);
    UpdateLeaves(m, mode, fd, data, b);
  }

  lemma UpdateRead(m: map<int, Stream>, mode: seq<nat>, fd: int, data: seq<nat>, b: seq<nat>)
    requires Free(m, fd) && |mode| > 0 && (mode[0] == 114 || mode[0] == 119) && 43 in mode && b != []
    ensures var run := [Open(mode, fd, data), Write(fd, b), Seek(fd, 0, Set), Read(fd, 1, |b|)];
      LegalRun(m, run) && Shown(m, run) == [Answer(fd), Answer(|b|), Answer(0), Bytes(b, |b|)]
  {
    hide LegalRun, Shown, Put, Slice;
    assert 1 * |b| == |b|;
    FourCalls(m, Open(mode, fd, data), Write(fd, b), Seek(fd, 0, Set), Read(fd, 1, |b|));
    WrittenAtStart(data, b);
    WrittenAtStart([], b);
    assert [] + b == b;
  }

  lemma UpdateLeaves(m: map<int, Stream>, mode: seq<nat>, fd: int, data: seq<nat>, b: seq<nat>)
    requires Free(m, fd) && |mode| > 0 && (mode[0] == 114 || mode[0] == 119) && 43 in mode && b != []
    ensures var run := [Open(mode, fd, data), Write(fd, b), Close(fd)];
      LegalRun(m, run) && Shown(m, run) ==
        [Answer(fd), Answer(|b|), Final(b + (if mode[0] == 114 && |b| <= |data| then data[|b|..] else []))]
  {
    hide LegalRun, Shown, Put, Slice;
    ThreeCalls(m, Open(mode, fd, data), Write(fd, b), Close(fd));
    WrittenAtStart(data, b);
    WrittenAtStart([], b);
  }

  lemma WrittenAtStart(d: seq<nat>, b: seq<nat>)
    requires b != []
    ensures Put(d, 0, b) == b + (if |b| <= |d| then d[|b|..] else []) && Slice(Put(d, 0, b), 0, |b|) == b
  {
  }

  // ---------- moving, writing, pushing back ----------

  /** `ftell` after `fseek` gives the place asked for: from the start, from the place told before, and
      from the end of what a close leaves. */
  lemma SeekThenTell(m: map<int, Stream>, f: int, off: int)
    requires f in m
    ensures off >= 0 ==> (
      var run := [Seek(f, off, Set), TellAt(f)];
      LegalRun(m, run) && Shown(m, run) == [Answer(0), Answer(off)])
    ensures Tell(m[f]) + off >= 0 ==> (
      var run, p := [TellAt(f), Seek(f, off, Cur), TellAt(f)], Tell(m[f]);
      LegalRun(m, run) && Shown(m, run) == [Answer(p), Answer(0), Answer(p + off)])
    ensures |m[f].data| + off >= 0 ==> (
      var run, d := [Seek(f, off, End), TellAt(f), Close(f)], m[f].data;
      LegalRun(m, run) && Shown(m, run) == [Answer(0), Answer(|d| + off), Final(d)])
  {
    hide LegalRun, Shown;
    if off >= 0 {
      TwoCalls(m, Seek(f, off, Set), TellAt(f));
    }
    if Tell(m[f]) + off >= 0 {
      ThreeCalls(m, TellAt(f), Seek(f, off, Cur), TellAt(f));
    }
    if |m[f].data| + off >= 0 {
      ThreeCalls(m, Seek(f, off, End), TellAt(f), Close(f));
    }
  }

  /** `after` is `before` with `b` at `p`, zeros in a gap behind the old end. */
  predicate Overlaid(before: seq<nat>, p: nat, b: seq<nat>, after: seq<nat>) {
    && |after| == (if |before| > p + |b| then |before| else p + |b|)
    && forall i: nat :: i < |after| ==>
         after[i] == if p <= i < p + |b| then b[i - p] else if i < |before| then before[i] else 0
  }

  /** A write behind a seek changes those bytes of the file and no others, and moves behind them. */
  lemma WriteOverlays(m: map<int, Stream>, f: int, p: nat, b: seq<nat>)
    requires f in m && m[f].canWrite && b != []
    ensures var run := [Seek(f, p, Set), Write(f, b), TellAt(f), Close(f)];
      && LegalRun(m, run) && |Shown(m, run)| == 4 && Shown(m, run)[..3] == [Answer(0), Answer(|b|), Answer(p + |b|)]
      && Shown(m, run)[3].Final? && Overlaid(m[f].data, p, b, Shown(m, run)[3].data)
  {
    hide LegalRun, Shown;
    FourCalls(m, Seek(f, p, Set), Write(f, b), TellAt(f), Close(f));
    PutOverlays(m[f].data, p, b);
    hide Put, Overlaid;
  }

  lemma PutOverlays(d: seq<nat>, p: nat, b: seq<nat>)
    requires b != []
    ensures Overlaid(d, p, b, Put(d, p, b))
  {
  }

  /** What was written at a place is read there. */
  lemma WriteThenRead(m: map<int, Stream>, f: int, p: nat, b: seq<nat>)
    requires f in m && m[f].canWrite && m[f].canRead && b != []
    ensures var run := [Seek(f, p, Set), Write(f, b), Seek(f, p, Set), Read(f, 1, |b|)];
      LegalRun(m, run) && Shown(m, run) == [Answer(0), Answer(|b|), Answer(0), Bytes(b, |b|)]
  {
    hide LegalRun, Shown;
    assert 1 * |b| == |b|;
    FourCalls(m, Seek(f, p, Set), Write(f, b), Seek(f, p, Set), Read(f, 1, |b|));
    PutReads(m[f].data, p, b);
    hide Put, Slice;
    assert [] + b == b;
  }

  lemma PutReads(d: seq<nat>, p: nat, b: seq<nat>)
    requires b != []
    ensures Slice(Put(d, p, b), p, |b|) == b
  {
  }

  /** A byte pushed back is told, and is the next one read; the file does not change. */
  lemma PushedIsNext(m: map<int, Stream>, f: int, c: int)
    requires f in m && m[f].pushed < 0 && m[f].pos > 0 && 0 <= c < 256
    ensures var run := [Unget(c, f), Getc(f), Close(f)];
      LegalRun(m, run) && Shown(m, run) == [Answer(c), Answer(c), Final(m[f].data)]
    ensures var p := Tell(m[f]);
      LegalRun(m, [TellAt(f), Unget(c, f), TellAt(f)])
      && Shown(m, [TellAt(f), Unget(c, f), TellAt(f)]) == [Answer(p), Answer(c), Answer(p - 1)]
  {
    hide LegalRun, Shown, Slice;
    ThreeCalls(m, Unget(c, f), Getc(f), Close(f));
    ThreeCalls(m, TellAt(f), Unget(c, f), TellAt(f));
  }

  // ---------- one run on the table ----------

  /** Writing "AB" to a file that holds "hello", opened "w": the file is "AB". */
  method Overwrite() returns (file: seq<nat>)
    ensures file == [65, 66]
  {
    hide Shows, TableShows, AfterWrite, AfterPut;
    OverwriteIs();
    var tb := new Table();
    var f := tb.Fopen([119], 3, [104, 101, 108, 108, 111]);
    var w := tb.Wput(3, [65, 66]);
    tb.Fflush(3);
    file := tb.os[3].data;
  }

  lemma OverwriteIs()
    ensures var st := Opened([119], [104, 101, 108, 108, 111]);
      st.pushed < 0 && AfterWrite(st, [65, 66]).data == [65, 66]
  {
  }
}
