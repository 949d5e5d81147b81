/**
 The Windows command line: arguments quoted one by one and joined with spaces, and the way the
 Microsoft C runtime takes such a line apart again.
 */
module CmdLine {
  import opened CString

  const SPACE: nat := 32
  const TAB: nat := 9
  const QUOTE: nat := 34
  const SLASH: nat := 92
  const LIMIT: nat := 8190

  /** A C string's characters: none of them is the terminator. */
  predicate NoNul(s: seq<nat>) {
    forall i: nat :: i < |s| ==> s[i] != 0
  }

  predicate Blank(c: nat) {
    c == SPACE || c == TAB
  }

  function Slashes(n: nat): (r: seq<nat>)
    ensures |r| == n
  {
    seq<nat>(n, i => SLASH)
  }

  /** How many backslashes a text begins with. */
  function Leading(s: seq<nat>): (n: nat)
    ensures n <= |s| && (n < |s| ==> s[n] != SLASH)
    ensures forall i: nat :: i < n ==> s[i] == SLASH
  {
    if s != [] && s[0] == SLASH then 1 + Leading(s[1..]) else 0
  }

  // ---------- the runtime's reading ----------

  /** One argument: what it is and the text behind it.  Two backslashes before a quote stand for one,
      an odd one makes the quote literal; a quote opens and closes quoting; with `twice`, two quotes
      inside quoting stand for one (the rule since 2008). */
  function ReadArg(line: seq<nat>, quoting: bool, twice: bool): (r: (seq<nat>, seq<nat>))
    ensures |r.1| <= |line|
    ensures r.1 == [] || Blank(r.1[0])
    decreases |line|
  {
    var n := Leading(line);
    if n == |line| then (Slashes(n), [])
    else if line[n] == QUOTE then
      if n % 2 == 1 then
        var (a, rest) := ReadArg(line[n + 1..], quoting, twice);
        (Slashes(n / 2) + [QUOTE] + a, rest)
      else if quoting && twice && n + 1 < |line| && line[n + 1] == QUOTE then
        var (a, rest) := ReadArg(line[n + 2..], quoting, twice);
        (Slashes(n / 2) + [QUOTE] + a, rest)
      else
        var (a, rest) := ReadArg(line[n + 1..], !quoting, twice);
        (Slashes(n / 2) + a, rest)
    else if Blank(line[n]) && !quoting then (Slashes(n), line[n..])
    else
      var (a, rest) := ReadArg(line[n + 1..], quoting, twice);
      (Slashes(n) + [line[n]] + a, rest)
  }

  function SkipBlanks(line: seq<nat>): (r: seq<nat>)
    ensures |r| <= |line| && (r == [] || !Blank(r[0]))
    ensures line == [] || !Blank(line[0]) ==> r == line
  {
    if line != [] && Blank(line[0]) then SkipBlanks(line[1..]) else line
  }

  /** The arguments behind the program name. */
  function ReadArgs(line: seq<nat>, twice: bool): seq<seq<nat>>
    decreases |line|, 1
  {
    ReadFrom(SkipBlanks(line), twice)
  }

  function ReadFrom(line: seq<nat>, twice: bool): seq<seq<nat>>
    requires line == [] || !Blank(line[0])
    decreases |line|, 0
  {
    if line == [] then []
    else
      var (a, rest) := ReadArg(line, false, twice);
      if |rest| < |line| then [a] + ReadArgs(rest, twice) else [a]
  }

  /** The program name: quotes only group, backslashes mean nothing. */
  function ReadName(line: seq<nat>, quoting: bool): (r: (seq<nat>, seq<nat>))
    ensures QUOTE !in r.0
  {
    if line == [] then ([], [])
    else if line[0] == QUOTE then ReadName(line[1..], !quoting)
    else if Blank(line[0]) && !quoting then ([], line)
    else
      var (a, rest) := ReadName(line[1..], quoting);
      ([line[0]] + a, rest)
  }

  /** The whole command line. */
  function ReadLine(line: seq<nat>, twice: bool): seq<seq<nat>> {
    var (name, rest) := ReadName(line, false);
    [name] + ReadArgs(rest, twice)
  }

  // ---------- quoting ----------

  predicate Plain(s: seq<nat>) {
    forall i: nat :: i < |s| ==> !Blank(s[i]) && s[i] != QUOTE
  }

  predicate NeedsQuotes(s: seq<nat>) {
    s == [] || !Plain(s)
  }

  /** What is written for the backslashes a text begins with: doubled before the end or a quote, which
      gets one more. */
  function Run(s: seq<nat>): seq<nat> {
    var n := Leading(s);
    Slashes(if n == |s| then 2 * n else if s[n] == QUOTE then 2 * n + 1 else n)
  }

  /** The text inside the quotes. */
  function Body(s: seq<nat>): seq<nat>
    decreases |s|
  {
    var n := Leading(s);
    if n == |s| then Run(s) else Run(s) + [s[n]] + Body(s[n + 1..])
  }

  function Quoted(s: seq<nat>): (q: seq<nat>)
    ensures q != [] && !Blank(q[0])
  {
    if NeedsQuotes(s) then [QUOTE] + Body(s) + [QUOTE] else s
  }

  /** The arguments behind the first, each after a space. */
  function Tail(args: seq<seq<nat>>): seq<nat> {
    if args == [] then [] else [SPACE] + Quoted(args[0]) + Tail(args[1..])
  }

  function Line(argv: seq<seq<nat>>): seq<nat> {
    if argv == [] then [] else Quoted(argv[0]) + Tail(argv[1..])
  }

  // ---------- reading undoes quoting ----------

  predicate Ends(rest: seq<nat>) {
    rest == [] || Blank(rest[0])
  }

  lemma {:induction false} LeadingOf(n: nat, x: seq<nat>)
    requires x == [] || x[0] != SLASH
    ensures Leading(Slashes(n) + x) == n
    decreases n
  {
    if n > 0 {
      assert (Slashes(n) + x)[1..] == Slashes(n - 1) + x;
      LeadingOf(n - 1, x);
    }
  }

  lemma SplitLeading(s: seq<nat>)
    ensures s[..Leading(s)] == Slashes(Leading(s))
    ensures Leading(s) == |s| ==> s == Slashes(|s|)
  {
  }

  /** Reading past a run of backslashes and the character behind it. */
  lemma ReadRun(n: nat, x: seq<nat>, quoting: bool, twice: bool)
    requires x != [] && x[0] != SLASH
    ensures var r := ReadArg(Slashes(n) + x, quoting, twice);
      if x[0] == QUOTE && n % 2 == 1 then
        var t := ReadArg(x[1..], quoting, twice); r == (Slashes(n / 2) + [QUOTE] + t.0, t.1)
      else if x[0] == QUOTE && !(quoting && twice && |x| > 1 && x[1] == QUOTE) then
        var t := ReadArg(x[1..], !quoting, twice); r == (Slashes(n / 2) + t.0, t.1)
      else if x[0] != QUOTE && Blank(x[0]) && !quoting then r == (Slashes(n), x)
      else if x[0] != QUOTE then
        var t := ReadArg(x[1..], quoting, twice); r == (Slashes(n) + [x[0]] + t.0, t.1)
      else true
  {
    var line := Slashes(n) + x;
    LeadingOf(n, x);
    assert line[n] == x[0] && line[n..] == x && line[n + 1..] == x[1..];
    assert n + 1 < |line| ==> |x| > 1;
  }

  lemma ReadEnd(rest: seq<nat>, twice: bool)
    requires Ends(rest)
    ensures ReadArg(rest, false, twice) == ([], rest)
  {
  }

  /** A text is its leading backslashes, the character behind them and the rest. */
  lemma Rejoin(s: seq<nat>)
    ensures var n := Leading(s);
      if n == |s| then s == Slashes(n) else s == Slashes(n) + [s[n]] + s[n + 1..]
  {
    hide Leading, Slashes;
    SplitLeading(s);
    if Leading(s) < |s| {
      Parts(s, Leading(s));
    }
  }

  lemma Parts(s: seq<nat>, n: nat)
    requires n < |s|
    ensures s == s[..n] + [s[n]] + s[n + 1..]
  {
  }

  lemma Regroup(a: seq<nat>, b: seq<nat>, c: seq<nat>, d: seq<nat>, e: seq<nat>)
    ensures a + b + c + d + e == a + (b + (c + d + e))
  {
  }

  lemma Assoc(a: seq<nat>, b: seq<nat>, c: seq<nat>)
    ensures a + b + c == a + (b + c)
  {
  }

  lemma BodyStep(s: seq<nat>)
    ensures var n := Leading(s);
      Body(s) == if n == |s| then Run(s) else Run(s) + [s[n]] + Body(s[n + 1..])
  {
  }

  lemma BodyEnds(s: seq<nat>, rest: seq<nat>)
    requires Leading(s) == |s|
    ensures Body(s) + [QUOTE] + rest == Run(s) + ([QUOTE] + rest)
  {
  }

  lemma BodyGoesOn(s: seq<nat>, rest: seq<nat>)
    requires Leading(s) < |s|
    ensures Body(s) + [QUOTE] + rest
      == Run(s) + ([s[Leading(s)]] + (Body(s[Leading(s) + 1..]) + [QUOTE] + rest))
  {
    hide Body, Run, Leading;
    BodyStep(s);
    Extend(Body(s), Run(s), [s[Leading(s)]], Body(s[Leading(s) + 1..]), [QUOTE], rest);
  }

  lemma Extend(body: seq<nat>, a: seq<nat>, b: seq<nat>, c: seq<nat>, d: seq<nat>, e: seq<nat>)
    requires body == a + b + c
    ensures body + d + e == a + (b + (c + d + e))
  {
  }

  /** The quoted body is read back, closing quote included. */
  lemma {:induction false} BodyReads(s: seq<nat>, rest: seq<nat>, twice: bool)
    requires Ends(rest)
    ensures ReadArg(Body(s) + [QUOTE] + rest, true, twice) == (s, rest)
    decreases |s|
  {
    hide ReadArg, Body, Slashes, Leading;
    var n := Leading(s);
    Rejoin(s);
    if n == |s| {
      BodyEnds(s, rest);
      var x := [QUOTE] + rest;
      ReadRun(2 * n, x, true, twice);
      ReadEnd(rest, twice);
      assert x[1..] == rest;
      assert Slashes(n) + [] == Slashes(n);
    } else {
      BodyGoesOn(s, rest);
      var b := Body(s[n + 1..]) + [QUOTE] + rest;
      BodyReads(s[n + 1..], rest, twice);
      var x := [s[n]] + b;
      ReadRun(if s[n] == QUOTE then 2 * n + 1 else n, x, true, twice);
      assert x[1..] == b;
    }
  }

  /** An argument without blanks and quotes is read back as it stands. */
  lemma {:induction false} PlainReads(s: seq<nat>, rest: seq<nat>, twice: bool)
    requires Ends(rest) && Plain(s)
    ensures ReadArg(s + rest, false, twice) == (s, rest)
    decreases |s|
  {
    hide ReadArg, Slashes, Leading;
    var n := Leading(s);
    Rejoin(s);
    if n == |s| {
      PlainRun(n, rest, twice);
    } else {
      var t := s[n + 1..];
      PlainReads(t, rest, twice);
      var x := [s[n]] + (t + rest);
      ReadRun(n, x, false, twice);
      assert x[1..] == t + rest;
      Regroup([], [], Slashes(n), [s[n]], t + rest);
      assert s + rest == Slashes(n) + x;
    }
  }

  lemma PlainRun(n: nat, rest: seq<nat>, twice: bool)
    requires Ends(rest)
    ensures ReadArg(Slashes(n) + rest, false, twice) == (Slashes(n), rest)
  {
    if rest != [] {
      ReadRun(n, rest, false, twice);
    } else {
      LeadingOf(n, []);
    }
  }

  lemma ArgReads(s: seq<nat>, rest: seq<nat>, twice: bool)
    requires Ends(rest)
    ensures ReadArg(Quoted(s) + rest, false, twice) == (s, rest)
  {
    hide ReadArg, Body, Plain;
    if NeedsQuotes(s) {
      var x := [QUOTE] + (Body(s) + [QUOTE] + rest);
      ReadRun(0, x, false, twice);
      BodyReads(s, rest, twice);
      assert x[1..] == Body(s) + [QUOTE] + rest;
      assert Quoted(s) + rest == Slashes(0) + x;
      assert Slashes(0) + s == s;
    } else {
      PlainReads(s, rest, twice);
    }
  }

  lemma SkipOne(x: seq<nat>)
    requires x != [] && !Blank(x[0])
    ensures SkipBlanks([SPACE] + x) == x
  {
  }

  /** The arguments behind the program name come back one for one. */
  lemma {:induction false} TailReads(args: seq<seq<nat>>, twice: bool)
    ensures ReadArgs(Tail(args), twice) == args && Ends(Tail(args))
    decreases |args|
  {
    hide ReadArg, Quoted, SkipBlanks;
    if args != [] {
      var q, rest := Quoted(args[0]), Tail(args[1..]);
      TailReads(args[1..], twice);
      ArgReads(args[0], rest, twice);
      Assoc([SPACE], q, rest);
      SkipOne(q + rest);
    }
  }

  /** What the program name's rule makes of a quoted name: the name itself, exactly when it has no
      quote and, where it had to be quoted, does not end in a backslash. */
  predicate NameKept(s: seq<nat>) {
    QUOTE !in s && (NeedsQuotes(s) && s != [] ==> s[|s| - 1] != SLASH)
  }

  lemma {:induction false} NamePlain(s: seq<nat>, rest: seq<nat>, quoting: bool)
    requires QUOTE !in s && (quoting || (Plain(s) && Ends(rest)))
    ensures var r := ReadName(rest, quoting); ReadName(s + rest, quoting) == (s + r.0, r.1)
    decreases |s|
  {
    if s != [] {
      assert (s + rest)[1..] == s[1..] + rest;
      NamePlain(s[1..], rest, quoting);
      assert s == [s[0]] + s[1..];
      Assoc([s[0]], s[1..], ReadName(rest, quoting).0);
    } else {
      var r := ReadName(rest, quoting);
      assert s + rest == rest && s + r.0 == r.0;
    }
  }

  lemma NameEnds(rest: seq<nat>)
    requires Ends(rest)
    ensures ReadName(rest, false) == ([], rest) && ReadName([QUOTE] + rest, true) == ([], rest)
  {
  }

  /** Without quotes inside, the body is the text with its last backslashes doubled. */
  lemma {:induction false} BodyPlain(s: seq<nat>)
    requires QUOTE !in s
    ensures exists k: nat :: Body(s) == s + Slashes(k) && (k > 0 <==> s != [] && s[|s| - 1] == SLASH)
    decreases |s|
  {
    var n := Leading(s);
    Rejoin(s);
    BodyStep(s);
    hide Leading, Body;
    if n == |s| {
      assert Slashes(2 * n) == s + Slashes(n);
    } else {
      var t := s[n + 1..];
      BodyPlain(t);
      var k: nat :| Body(t) == t + Slashes(k) && (k > 0 <==> t != [] && t[|t| - 1] == SLASH);
      var h := Slashes(n) + [s[n]];
      assert h + (t + Slashes(k)) == h + t + Slashes(k);
    }
  }

  lemma QuotedName(s: seq<nat>, rest: seq<nat>)
    requires Ends(rest) && QUOTE !in s && NeedsQuotes(s)
    ensures var r := ReadName(Quoted(s) + rest, false);
      r.1 == rest && (r.0 == s <==> NameKept(s))
  {
    hide Body, Plain, ReadName, NeedsQuotes, Ends, NameKept, Leading, Slashes;
    PlainBody(s);
    OpenQuote(Body(s), rest);
    NameEnds(rest);
    NamePlain(Body(s), [QUOTE] + rest, true);
    assert Body(s) + [] == Body(s);
  }

  /** A text without quotes is its own body exactly when no backslash stands at its end. */
  lemma PlainBody(s: seq<nat>)
    requires QUOTE !in s && NeedsQuotes(s)
    ensures QUOTE !in Body(s) && (Body(s) == s <==> NameKept(s))
  {
    hide Body, NeedsQuotes, Leading;
    BodyPlain(s);
    var k: nat :| Body(s) == s + Slashes(k) && (k > 0 <==> s != [] && s[|s| - 1] == SLASH);
    Longer(s, Slashes(k));
  }

  lemma Longer(s: seq<nat>, t: seq<nat>)
    ensures s + t == s <==> |t| == 0
  {
    assert |s + t| == |s| + |t|;
    assert t == [] ==> s + t == s;
  }

  lemma OpenQuote(b: seq<nat>, rest: seq<nat>)
    ensures ReadName([QUOTE] + b + [QUOTE] + rest, false) == ReadName(b + ([QUOTE] + rest), true)
  {
    var line := [QUOTE] + b + [QUOTE] + rest;
    assert line[1..] == b + ([QUOTE] + rest);
  }

  /** The runtime's reading of the joined line gives the arguments back exactly when its simpler
      rule for the program name can express the first of them. */
  lemma LineReads(argv: seq<seq<nat>>, twice: bool)
    requires argv != []
    ensures NameKept(argv[0]) <==> ReadLine(Line(argv), twice) == argv
    ensures QUOTE !in argv[0] ==> ReadLine(Line(argv), twice)[1..] == argv[1..]
  {
    var s, rest := argv[0], Tail(argv[1..]);
    TailReads(argv[1..], twice);
    hide ReadName, Tail, Quoted, ReadArgs;
    var r := ReadName(Line(argv), false);
    if QUOTE in s {
      assert ReadLine(Line(argv), twice)[0] == r.0;
    } else {
      NameReads(s, rest);
      assert r.1 == rest;
      assert [s] + argv[1..] == argv;
    }
  }

  /** A program name that is a quote is lost. */
  lemma QuoteInName(twice: bool)
    ensures ReadLine(Line([[QUOTE]]), twice) != [[QUOTE]]
  {
    hide ReadLine, Line;
    LineReads([[QUOTE]], twice);
  }

  lemma NameReads(s: seq<nat>, rest: seq<nat>)
    requires Ends(rest) && QUOTE !in s
    ensures var r := ReadName(Quoted(s) + rest, false);
      r.1 == rest && (r.0 == s <==> NameKept(s))
  {
    if NeedsQuotes(s) {
      QuotedName(s, rest);
    } else {
      NamePlain(s, rest, false);
      NameEnds(rest);
      assert s + [] == s;
    }
  }

  // ---------- the buffer ----------

  /** `_unisa_cmdarg`: the quoted argument at `k`, or -1 when it would pass `max`. */
  method CmdArg(d: array<nat>, k0: nat, max: nat, s: seq<nat>) returns (r: int)
    requires NoNul(s) && k0 <= max <= d.Length
    modifies d
    ensures r == if k0 + |Quoted(s)| <= max then k0 + |Quoted(s)| else -1
    ensures r >= 0 ==> d[..r] == old(d[..k0]) + Quoted(s)
  {
    hide Body, NeedsQuotes, Quoted, Plain, Blank;
    QuotedIs(s);
    var q := Scan(s);
    if !q {
      r := CopyArg(d, k0, max, s);
      return;
    }
    ghost var was := d[..k0];
    if k0 >= max {
      return -1;
    }
    d[k0] := 34;
    var k: nat := k0 + 1;
    assert d[..k] == was + [QUOTE];
    var fits;
    fits, k := CopyBody(d, k, max, s);
    if !fits || k >= max {
      return -1;
    }
    ghost var mid := d[..k];
    d[k] := 34;
    assert d[..k + 1] == mid + [QUOTE];
    Enclosed(was, Body(s));
    r := k + 1;
  }

  lemma QuotedIs(s: seq<nat>)
    ensures Quoted(s) == if NeedsQuotes(s) then [QUOTE] + Body(s) + [QUOTE] else s
    ensures NeedsQuotes(s) ==> |Quoted(s)| == |Body(s)| + 2
  {
  }

  lemma Enclosed(was: seq<nat>, b: seq<nat>)
    ensures was + [QUOTE] + b + [QUOTE] == was + ([QUOTE] + b + [QUOTE])
  {
  }

  /** The loop that looks for blanks and quotes. */
  method Scan(s: seq<nat>) returns (q: bool)
    requires NoNul(s)
    ensures q == NeedsQuotes(s)
  {
    q := At(s, 0) == 0;
    var i := 0;
    while At(s, i) != 0
      invariant i <= |s| && (q <==> s == [] || !Plain(s[..i]))
      decreases |s| - i
    {
      if s[i] == 32 || s[i] == 9 || s[i] == 34 {
        q := true;
      }
      assert s[..i + 1] == s[..i] + [s[i]];
      i := i + 1;
    }
    assert s[..i] == s;
  }

  /** The loop for an argument that needs no quotes. */
  method CopyArg(d: array<nat>, k0: nat, max: nat, s: seq<nat>) returns (r: int)
    requires NoNul(s) && k0 <= max <= d.Length
    modifies d
    ensures r == if k0 + |s| <= max then k0 + |s| else -1
    ensures r >= 0 ==> d[..r] == old(d[..k0]) + s
  {
    var i, k := 0, k0;
    while At(s, i) != 0
      invariant i <= |s| && k == k0 + i <= max && d[..k] == old(d[..k0]) + s[..i]
      decreases |s| - i
    {
      if k >= max {
        return -1;
      }
      ghost var was := d[..k];
      d[k] := s[i];
      assert d[..k + 1] == was + [s[i]];
      assert s[..i + 1] == s[..i] + [s[i]];
      k := k + 1;
      i := i + 1;
    }
    assert s[..i] == s;
    r := k;
  }

  /** The loop inside the quotes. */
  method CopyBody(d: array<nat>, k0: nat, max: nat, s: seq<nat>) returns (fits: bool, k: nat)
    requires NoNul(s) && k0 <= max <= d.Length
    modifies d
    ensures fits == (k0 + |Body(s)| <= max)
    ensures fits ==> k == k0 + |Body(s)| && d[..k] == old(d[..k0]) + Body(s)
  {
    hide Body, Leading, Slashes, Run;
    k := k0;
    var i: nat := 0;
    ghost var was := d[..k0];
    ghost var done: seq<nat> := [];
    assert s[0..] == s;
    while true
      invariant i <= |s| && k <= max && done + Body(s[i..]) == Body(s)
      invariant k == k0 + |done| && d[..k] == was + done
      decreases |s| - i
    {
      ghost var t := s[i..];
      BodyStep(t);
      var ok;
      ok, k, i := CopyRun(d, k, max, s, i);
      ghost var more := if i == |s| then [] else [s[i]] + Body(s[i + 1..]);
      assert Body(s) == done + Run(t) + more by {
        assert i < |s| ==> t[Leading(t) + 1..] == s[i + 1..];
        AssocMore(done, Run(t), s, i);
      }
      if !ok {
        return false, k;
      }
      Assoc(was, done, Run(t));
      done := done + Run(t);
      if At(s, i) == 0 {
        assert done + [] == done;
        return true, k;
      }
      if k >= max {
        return false, k;
      }
      ghost var mid := d[..k];
      d[k] := s[i];
      assert d[..k + 1] == mid + [s[i]];
      Assoc(was, done, [s[i]]);
      Assoc(done, [s[i]], Body(s[i + 1..]));
      done := done + [s[i]];
      k := k + 1;
      i := i + 1;
    }
  }

  /** The backslashes at `i0`: counted, multiplied as what follows them asks, written. */
  method CopyRun(d: array<nat>, k0: nat, max: nat, s: seq<nat>, i0: nat) returns (ok: bool, k: nat, i: nat)
    requires NoNul(s) && k0 <= max <= d.Length && i0 <= |s|
    modifies d
    ensures i == i0 + Leading(s[i0..]) <= |s|
    ensures ok == (k0 + |Run(s[i0..])| <= max)
    ensures ok ==> k == k0 + |Run(s[i0..])| && d[..k] == old(d[..k0]) + Run(s[i0..])
  {
    hide Leading, Slashes;
    i := i0;
    var b: nat := 0;
    ghost var t := s[i0..];
    while At(s, i) == 92
      invariant i == i0 + b <= |s| && b <= Leading(t) && d[..] == old(d[..])
      decreases |s| - i
    {
      SlashIsLeading(t, b);
      b := b + 1;
      i := i + 1;
    }
    SlashIsLeading(t, b);
    if At(s, i) == 0 {
      b := b * 2;
    } else if At(s, i) == 34 {
      b := b * 2 + 1;
    }
    assert Slashes(b) == Run(t);
    ok, k := PutSlashes(d, k0, max, b);
  }

  lemma AssocMore(a: seq<nat>, b: seq<nat>, s: seq<nat>, i: nat)
    requires i <= |s|
    ensures i == |s| ==> a + b == a + b + []
    ensures i < |s| ==> a + (b + [s[i]] + Body(s[i + 1..])) == a + b + ([s[i]] + Body(s[i + 1..]))
  {
  }

  lemma SlashIsLeading(t: seq<nat>, b: nat)
    requires b <= Leading(t)
    ensures b < Leading(t) <==> b < |t| && t[b] == SLASH
  {
  }

  method PutSlashes(d: array<nat>, k0: nat, max: nat, n: nat) returns (ok: bool, k: nat)
    requires k0 <= max <= d.Length
    modifies d
    ensures ok == (k0 + n <= max)
    ensures ok ==> k == k0 + n && d[..k] == old(d[..k0]) + Slashes(n)
  {
    k := k0;
    var b: nat := n;
    while b > 0
      invariant b <= n && k == k0 + n - b && k <= max && d[..k] == old(d[..k0]) + Slashes(n - b)
    {
      if k >= max {
        return false, k;
      }
      ghost var was := d[..k];
      d[k] := 92;
      assert d[..k + 1] == was + [SLASH];
      assert Slashes(n - b + 1) == Slashes(n - b) + [SLASH];
      k := k + 1;
      b := b - 1;
    }
    ok := true;
  }

  /** The join loop of `_unisa_wspawn`: the whole line, terminated, or refusal when it is longer than 8190. */
  method Join(cmd: array<nat>, argv: seq<seq<nat>>) returns (ok: bool)
    requires cmd.Length == 8192 && forall i :: 0 <= i < |argv| ==> NoNul(argv[i])
    modifies cmd
    ensures ok == (|Line(argv)| <= LIMIT)
    ensures ok ==> cmd[..|Line(argv)|] == Line(argv) && cmd[|Line(argv)|] == 0
  {
    var k: nat := 0;
    ghost var done: seq<nat> := [];
    var i := 0;
    hide Quoted, Tail, Rest, NoNul, Line;
    ghost var line := Line(argv);
    RestStarts(argv);
    while i < |argv|
      invariant i <= |argv| && k == |done| <= LIMIT && cmd[..k] == done
      invariant done + Rest(argv, i) == line
    {
      RestStep(argv, i, done);
      if i > 0 {
        if k >= 8190 {
          return false;
        }
        cmd[k] := 32;
        k := k + 1;
        assert cmd[..k] == done + [SPACE];
        done := done + [SPACE];
      }
      var r := CmdArg(cmd, k, 8190, argv[i]);
      if r < 0 {
        return false;
      }
      done := done + Quoted(argv[i]);
      k := r;
      i := i + 1;
    }
    RestEnds(argv, done);
    cmd[k] := 0;
    ok := true;
  }

  /** What is still to be written before argument `i`. */
  ghost function Rest(argv: seq<seq<nat>>, i: nat): seq<nat>
    requires i <= |argv|
  {
    if i == 0 then Line(argv) else Tail(argv[i..])
  }

  lemma RestStarts(argv: seq<seq<nat>>)
    ensures [] + Rest(argv, 0) == Line(argv)
  {
  }

  lemma RestStep(argv: seq<seq<nat>>, i: nat, done: seq<nat>)
    requires i < |argv|
    ensures done + Rest(argv, i)
      == (if i > 0 then done + [SPACE] else done) + Quoted(argv[i]) + Rest(argv, i + 1)
  {
  }

  lemma RestEnds(argv: seq<seq<nat>>, done: seq<nat>)
    ensures done + Rest(argv, |argv|) == done
  {
  }
}
