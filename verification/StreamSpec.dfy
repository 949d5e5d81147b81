/**
 What a stdio stream means: an unbuffered file with a position and at most one
 pushed-back byte.  (Sections 7.19.5, 7.19.7.11, 7.19.8 and 7.19.9 of ISO/IEC 9899:1999.)
 */
module StreamSpec {

  /** The reference stream. `pushed` is a byte or -1; `waits` says that output went to it after the
      last call that must have delivered all output (read, seek, tell, flush). */
  datatype Stream = Stream(data: seq<nat>, pos: nat, pushed: int, eof: bool, err: bool, canRead: bool, canWrite: bool,
                           waits: bool)

  function Min(a: int, b: int): int {
    if a < b then a else b
  }

  function Max(a: int, b: int): int {
    if a < b then b else a
  }

  /** The bytes a read of at most `k` at `p` delivers. */
  function Slice(d: seq<nat>, p: nat, k: nat): seq<nat> {
    if p >= |d| then [] else d[p..Min(p + k, |d|)]
  }

  function Pad(d: seq<nat>, p: nat): (r: seq<nat>)
    ensures |r| >= p
  {
    if |d| >= p then d else d + seq(p - |d|, i => 0)
  }

  /** `b` written over `d` at `p`; a gap past the end reads as zeros. */
  function Put(d: seq<nat>, p: nat, b: seq<nat>): seq<nat> {
    if b == [] then d
    else var e := Pad(d, p); e[..p] + b + (if p + |b| <= |e| then e[p + |b|..] else [])
  }

  /** Writing in two pieces is writing the whole. */
  lemma PutPut(d: seq<nat>, p: nat, a: seq<nat>, b: seq<nat>)
    ensures Put(Put(d, p, a), p + |a|, b) == Put(d, p, a + b)
  {
    if a == [] {
      assert a + b == b;
    } else if b == [] {
      assert a + b == a;
    } else {
      var e := Pad(d, p);
      assert Pad(Put(d, p, a), p + |a|) == Put(d, p, a);
      assert Put(Put(d, p, a), p + |a|, b) == Put(d, p, a + b);
    }
  }

  /** Where the next byte is read or written: a pushed-back byte stands before `pos`. */
  function Tell(st: Stream): int {
    st.pos - (if st.pushed >= 0 then 1 else 0)
  }

  /** The bytes of a read request: the pushed-back one first. */
  function ReadBytes(st: Stream, want: nat): seq<nat> {
    var pre: seq<nat> := if st.pushed >= 0 && want > 0 then [st.pushed] else [];
    pre + (if st.canRead then Slice(st.data, st.pos, want - |pre|) else [])
  }

  /** Does the request go to a descriptor that cannot be read? */
  predicate ReadFails(st: Stream, want: nat) {
    !st.canRead && want > (if st.pushed >= 0 then 1 else 0)
  }

  function AfterRead(st: Stream, want: nat): Stream {
    if want == 0 then st
    else
      var got := |ReadBytes(st, want)|;
      st.(pos := st.pos + got - (if st.pushed >= 0 then 1 else 0), pushed := -1,
          eof := st.eof || got < want, err := st.err || ReadFails(st, want), waits := false)
  }

  /** A write starts where a read would have: over a pushed-back byte's place. */
  function AfterWrite(st: Stream, b: seq<nat>): Stream {
    if b == [] then st
    else if !st.canWrite then st.(err := true)
    else
      var p := Max(Tell(st), 0);
      st.(data := Put(st.data, p, b), pos := p + |b|, pushed := -1, waits := true)
  }

  function Written(st: Stream, b: seq<nat>): nat {
    if st.canWrite then |b| else 0
  }

  datatype Whence = Set | Cur | End

  /** The position a seek asks for. */
  function SeekTarget(st: Stream, off: int, w: Whence): int {
    match w
    case Set => off
    case Cur => Tell(st) + off
    case End => |st.data| + off
  }

  function AfterSeek(st: Stream, off: int, w: Whence): Stream
    requires SeekTarget(st, off, w) >= 0
  {
    st.(pos := SeekTarget(st, off, w), pushed := -1, eof := false, waits := false)
  }

  function AfterFlush(st: Stream): Stream {
    st.(waits := false)
  }

  function AfterUnget(st: Stream, c: int): Stream {
    st.(pushed := c % 256, eof := false)
  }

  function Cleared(st: Stream): Stream {
    st.(eof := false, err := false)
  }

  /** `fgetc` answers a byte or EOF (-1), and keeps its own flag rules. */
  function GetcAnswer(st: Stream): int {
    var b := ReadBytes(st, 1);
    if b == [] then -1 else b[0]
  }

  function AfterGetc(st: Stream): Stream {
    if st.pushed >= 0 then st.(pushed := -1)
    else if ReadBytes(st, 1) == [] then AfterRead(st, 1).(eof := true)
    else AfterRead(st, 1).(eof := false, err := false)
  }

  /** Two adjoining reads are one. */
  lemma SliceJoin(d: seq<nat>, p: nat, k: nat, m: nat)
    requires p + k <= |d| || k == 0
    ensures Slice(d, p, k) + Slice(d, p + k, m) == Slice(d, p, k + m)
  {
  }
}
