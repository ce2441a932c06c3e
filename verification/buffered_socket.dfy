/**
 The buffers and the re-entrant life cycle of src/buffered_socket.cpp.

 `Lines` is the input side (`readln`), `BufferedSocket` the output side (`write`,
 `write_from_buffer`, `close`) with callbacks that call back into the socket.
 */
module Lines {
  import opened Bytes

  predicate IsNewline(c: char) {
    c == '\r' || c == '\n'
  }

  /** The two newline bytes by their codes; the laws below are stated with it. */
  predicate IsLineEnd(c: char) {
    c as int == 13 || c as int == 10
  }

  predicate NewlineFree(s: string) {
    forall i :: 0 <= i < |s| ==> !IsLineEnd(s[i])
  }

  /** std::find_first_of CR and LF: a position, or the end. */
  function FirstNewline(s: string): (r: nat)
    ensures r <= |s|
    ensures forall i :: 0 <= i < r ==> !IsNewline(s[i])
    ensures r < |s| ==> IsNewline(s[r])
  {
    if s == "" || IsNewline(s[0]) then 0 else 1 + FirstNewline(s[1..])
  }

  /** The length of the run of newline bytes at the start. */
  function NewlineRun(s: string): (r: nat)
    ensures r <= |s|
    ensures forall i :: 0 <= i < r ==> IsNewline(s[i])
    ensures r < |s| ==> !IsNewline(s[r])
  {
    if s != "" && IsNewline(s[0]) then 1 + NewlineRun(s[1..]) else 0
  }

  lemma FirstNewlineIs(s: string, r: nat)
    requires r <= |s| && forall i :: 0 <= i < r ==> !IsNewline(s[i])
    requires r < |s| ==> IsNewline(s[r])
    ensures FirstNewline(s) == r
  {
  }

  lemma NewlineRunIs(s: string, r: nat)
    requires r <= |s| && forall i :: 0 <= i < r ==> IsNewline(s[i])
    requires r < |s| ==> !IsNewline(s[r])
    ensures NewlineRun(s) == r
  {
  }

  /** A line and what `readln` leaves in the buffer. */
  datatype Line = Line(text: string, rest: string)

  function ReadLine(s: string): (l: Line)
    ensures s != "" ==> |l.rest| < |s|
  {
    var p := FirstNewline(s);
    Line(s[..p], s[p + NewlineRun(s[p..])..])
  }

  /** All lines, read until the buffer is empty. */
  function Drain(s: string): seq<string>
    decreases |s|
  {
    if s == "" then [] else [ReadLine(s).text] + Drain(ReadLine(s).rest)
  }

  lemma DrainStep(s: string)
    requires s != ""
    ensures Drain(s) == [ReadLine(s).text] + Drain(ReadLine(s).rest)
  {
  }

  lemma NoNewlineIn(line: string)
    ensures NewlineFree(line) <==> forall i :: 0 <= i < |line| ==> !IsNewline(line[i])
  {
  }

  /** `readln` of a buffer that is one line, a run of newlines, and a rest. */
  lemma ReadLineOf(line: string, gap: string, rest: string)
    requires NewlineFree(line) && forall i :: 0 <= i < |gap| ==> IsNewline(gap[i])
    requires gap == "" ==> rest == ""
    requires rest != "" ==> !IsNewline(rest[0])
    ensures ReadLine(line + gap + rest) == Line(line, rest)
  {
    var s := line + gap + rest;
    NoNewlineIn(line);
    hide NewlineFree, IsLineEnd, IsNewline;
    FirstNewlineIs(s, |line|);
    assert s[|line|..] == gap + rest;
    NewlineRunIs(gap + rest, |gap|);
  }

  /** Every nonempty buffer has that form. */
  lemma LineParts(s: string) returns (line: string, gap: string, rest: string)
    requires s != ""
    ensures s == line + gap + rest && ReadLine(s) == Line(line, rest)
    ensures NewlineFree(line) && forall i :: 0 <= i < |gap| ==> IsNewline(gap[i])
    ensures gap == "" ==> rest == ""
    ensures rest != "" ==> !IsNewline(rest[0])
    ensures |rest| < |s|
  {
    var p := FirstNewline(s);
    var k := NewlineRun(s[p..]);
    line, gap, rest := s[..p], s[p..][..k], s[p..][k..];
    assert rest == s[p + k..];
  }

  class InputBuffer {
    var bytes: string

    constructor (s: string)
      ensures bytes == s
    {
      bytes := s;
    }

    /** buffered_socket::has_input */
    method HasInput() returns (r: bool)
      ensures r <==> Drain(bytes) != []
    {
      return bytes != "";
    }

    /** buffered_socket::readln */
    method ReadLn() returns (line: string)
      modifies this
      ensures Line(line, bytes) == ReadLine(old(bytes))
      ensures Drain(old(bytes)) == if old(bytes) == "" then [] else [line] + Drain(bytes)
    {
      if bytes == "" {
        return "";
      }
      var pos := FirstNewline(bytes);
      if pos == |bytes| {
        line := bytes;
        assert bytes[..pos] == bytes;
        bytes := "";
        return;
      }
      line := bytes[..pos];
      ghost var first := pos;
      while pos != |bytes| && IsNewline(bytes[pos])
        invariant first <= pos <= |bytes|
        invariant forall i :: first <= i < pos ==> IsNewline(bytes[i])
      {
        pos := pos + 1;
      }
      NewlineRunIs(bytes[first..], pos - first);
      bytes := bytes[pos..];
    }
  }

  // ---------- what draining returns ----------

  function Flatten(lines: seq<string>): string {
    if lines == [] then "" else lines[0] + Flatten(lines[1..])
  }

  function WithoutNewlines(s: string): string {
    if s == "" then ""
    else (if IsLineEnd(s[0]) then "" else [s[0]]) + WithoutNewlines(s[1..])
  }

  lemma {:induction false} WithoutNewlinesJoin(a: string, b: string)
    ensures WithoutNewlines(a + b) == WithoutNewlines(a) + WithoutNewlines(b)
  {
    if a == "" {
      assert a + b == b;
    } else {
      assert (a + b)[1..] == a[1..] + b;
      WithoutNewlinesJoin(a[1..], b);
    }
  }

  lemma {:induction false} WithoutNewlinesIn(a: string)
    ensures NewlineFree(a) ==> WithoutNewlines(a) == a
    ensures (forall i :: 0 <= i < |a| ==> IsLineEnd(a[i])) ==> WithoutNewlines(a) == ""
  {
    if a != "" {
      WithoutNewlinesIn(a[1..]);
      assert a == [a[0]] + a[1..];
    }
  }

  lemma DrainEmpty()
    ensures Drain("") == []
  {
  }

  /** Draining loses the newline bytes and nothing else. */
  lemma {:induction false} DrainKeepsText(s: string)
    ensures Flatten(Drain(s)) == WithoutNewlines(s)
    decreases |s|
  {
    hide NewlineRun, FirstNewline, ReadLine, Drain;
    DrainEmpty();
    if s != "" {
      var line, gap, rest := LineParts(s);
      DrainStep(s);
      DrainKeepsText(rest);
      WithoutNewlinesJoin(line + gap, rest);
      WithoutNewlinesJoin(line, gap);
      WithoutNewlinesIn(line);
      WithoutNewlinesIn(gap);
      hide WithoutNewlines;
      assert Drain(s)[1..] == Drain(rest);
    }
  }

  /** No line holds a newline, and only the first can be empty, exactly if the buffer starts
      with a newline. */
  lemma {:induction false} DrainedLines(s: string)
    ensures forall i :: 0 <= i < |Drain(s)| ==> NewlineFree(Drain(s)[i])
    ensures forall i :: 1 <= i < |Drain(s)| ==> Drain(s)[i] != ""
    ensures s != "" ==> Drain(s) != [] && (Drain(s)[0] == "" <==> IsLineEnd(s[0]))
    decreases |s|
  {
    hide NewlineRun, FirstNewline, ReadLine, Drain;
    DrainEmpty();
    if s != "" {
      var line, gap, rest := LineParts(s);
      DrainStep(s);
      DrainedLines(rest);
      if line == "" {
        assert s[0] == gap[0];
      } else {
        assert !IsNewline(line[0]);
        assert s[0] == line[0];
      }
    }
  }

  /** What a list of `writeln` calls puts into the output buffer. */
  function Written(lines: seq<string>): string {
    if lines == [] then "" else lines[0] + CRLF + Written(lines[1..])
  }

  lemma WrittenStarts(lines: seq<string>)
    requires lines != [] && lines[0] != ""
    ensures Written(lines) != "" && Written(lines)[0] == lines[0][0]
  {
  }

  lemma DrainLine(l: string, rest: string)
    requires NewlineFree(l) && (rest != "" ==> !IsNewline(rest[0]))
    ensures Drain(l + CRLF + rest) == [l] + Drain(rest)
  {
    hide NewlineRun, FirstNewline, ReadLine, Drain, NewlineFree;
    ReadLineOf(l, CRLF, rest);
    DrainStep(l + CRLF + rest);
  }

  /** A list of nonempty newline-free lines, written and then drained, comes back. */
  lemma {:induction false} DrainWritten(lines: seq<string>)
    requires forall i :: 0 <= i < |lines| ==> lines[i] != "" && NewlineFree(lines[i])
    ensures Drain(Written(lines)) == lines
  {
    hide NewlineRun, FirstNewline, ReadLine, Drain, NewlineFree, IsNewline;
    if lines == [] {
      DrainEmpty();
    } else {
      DrainWritten(lines[1..]);
      if |lines| > 1 {
        assert lines[1..][0] == lines[1];
        WrittenStarts(lines[1..]);
        LineStarts(lines[1]);
      }
      DrainLine(lines[0], Written(lines[1..]));
    }
  }

  lemma LineStarts(l: string)
    requires l != "" && NewlineFree(l)
    ensures !IsNewline(l[0])
  {
  }

  /** Draining `a + b` is draining `a` and then `b` exactly if one of them is empty, or the
      cut is behind a newline and not in front of one. */
  predicate CleanCut(a: string, b: string) {
    a == "" || b == "" || (IsLineEnd(a[|a| - 1]) && !IsLineEnd(b[0]))
  }

  lemma DrainSplitsIff(a: string, b: string)
    ensures Drain(a + b) == Drain(a) + Drain(b) <==> CleanCut(a, b)
  {
    if a == "" {
      assert a + b == b;
    } else if b == "" {
      assert a + b == a;
    } else {
      DrainJoin(a, b);
    }
  }

  lemma {:induction false} DrainJoin(a: string, b: string)
    requires a != "" && b != ""
    ensures CleanCut(a, b) ==> Drain(a + b) == Drain(a) + Drain(b)
    ensures !CleanCut(a, b) ==> |Drain(a + b)| < |Drain(a)| + |Drain(b)|
    decreases |a|
  {
    hide NewlineRun, ReadLine, Drain;
    var line, gap, rest := LineParts(a);
    DrainStep(a);
    if rest != "" {
      assert a + b == line + gap + (rest + b);
      ReadLineOf(line, gap, rest + b);
      DrainStep(a + b);
      DrainJoin(rest, b);
      assert rest[|rest| - 1] == a[|a| - 1];
    } else {
      var line', gap', rest' := LineParts(b);
      DrainStep(b);
      DrainEmpty();
      if gap == "" {
        assert a == line && a + b == (line + line') + gap' + rest';
        ReadLineOf(line + line', gap', rest');
      } else if line' == "" {
        assert a + b == line + (gap + gap') + rest';
        ReadLineOf(line, gap + gap', rest');
        assert b[0] == gap'[0];
      } else {
        assert a + b == line + gap + b;
        ReadLineOf(line, gap, b);
        assert a[|a| - 1] == gap[|gap| - 1] && b[0] == line'[0];
      }
      DrainStep(a + b);
    }
  }
}

module BufferedSocket {
  import opened Bytes

  /** What a callback may do with its socket. */
  datatype Action = Write(s: string) | WriteLn(s: string) | Flush | Close

  /** The system's answer to one `send` of a nonempty buffer. */
  datatype Sent = All | Error | Took(n: nat)

  /** One `send` as it was: the bytes offered and the bytes taken. */
  datatype Attempt = Attempt(offered: nat, taken: nat)

  /** The end of a connection: it leaves the server's registry, its descriptor is closed. */
  datatype Mark = Left | Closed

  /** A socket, what is still to come from its callbacks and from the system, and a history. */
  datatype State = State(
    valid: bool,
    registered: bool,            // a server has it in its registry, with a cleanup listener
    out: string,                 // outBuffer_
    script: seq<seq<Action>>,    // what the handlers of the next notifications do, in order; then nothing
    sends: seq<Sent>,            // what the next sends answer; then Error
    wire: string,                // bytes the system took
    written: string,             // bytes passed to write and writeln
    attempts: seq<Attempt>,      // the sends so far
    trace: seq<Mark>)

  /** A send that took some of its bytes but not all. */
  predicate IsPartial(a: Attempt) {
    0 < a.taken < a.offered
  }

  /** The bytes taken by partial sends: they are still in the buffer when the next send comes. */
  function Repeated(attempts: seq<Attempt>): nat {
    if attempts == [] then 0
    else
      var last := attempts[|attempts| - 1];
      Repeated(attempts[..|attempts| - 1]) + (if IsPartial(last) then last.taken else 0)
  }

  lemma RepeatedLast(attempts: seq<Attempt>, a: Attempt)
    ensures Repeated(attempts + [a]) == Repeated(attempts) + (if IsPartial(a) then a.taken else 0)
  {
    assert (attempts + [a])[..|attempts|] == attempts;
  }

  lemma {:induction false} NothingRepeatedIff(attempts: seq<Attempt>)
    ensures Repeated(attempts) == 0 <==> forall i :: 0 <= i < |attempts| ==> !IsPartial(attempts[i])
  {
    if attempts != [] {
      NothingRepeatedIff(attempts[..|attempts| - 1]);
      assert forall i :: 0 <= i < |attempts| - 1 ==> attempts[..|attempts| - 1][i] == attempts[i];
    }
  }

  /** Only a valid socket is in a registry. */
  predicate Sound(st: State) {
    st.registered ==> st.valid
  }

  /** What happened to the connection between two states, in this order. */
  function Marks(st: State, r: State): seq<Mark> {
    (if st.registered && !r.registered then [Left] else []) + (if st.valid && !r.valid then [Closed] else [])
  }

  /** What holds between a state and any later one. */
  ghost predicate Follows(st: State, r: State) {
    && |r.script| <= |st.script|
    && |r.sends| <= |st.sends| && r.sends == st.sends[|st.sends| - |r.sends|..]
    && st.written <= r.written && st.wire <= r.wire && st.attempts <= r.attempts
    && (r.registered ==> st.registered)
    && (!st.valid ==> !r.valid && r.wire == st.wire && r.trace == st.trace && r.registered == st.registered)
    && (Sound(st) ==> Sound(r) && r.trace == st.trace + Marks(st, r))
    && Balanced(st, r)
    && Flushed(st, r)
  }

  /** The buffer keeps its bytes until some send takes all it is offered. */
  ghost predicate Flushed(st: State, r: State) {
    st.out <= r.out || SomeFull(st, r)
  }

  ghost predicate SomeFull(st: State, r: State) {
    exists i :: |st.attempts| <= i < |r.attempts| && 0 < r.attempts[i].taken == r.attempts[i].offered
  }

  /** The account of the bytes between two states. */
  ghost predicate Balanced(st: State, r: State) {
    && Repeated(st.attempts) <= Repeated(r.attempts)
    && |r.wire| + |r.out| + |st.written| + Repeated(st.attempts)
       == |st.wire| + |st.out| + |r.written| + Repeated(r.attempts)
    && (st.wire + st.out == st.written && Repeated(r.attempts) == Repeated(st.attempts)
        ==> r.wire + r.out == r.written)
    && ((forall x :: x in st.sends ==> !x.Took?) ==> Repeated(r.attempts) == Repeated(st.attempts))
  }

  /** Every send between two states took what it was offered. */
  ghost predicate AllTaken(st: State, r: State) {
    forall i :: |st.attempts| <= i < |r.attempts| ==> r.attempts[i].taken == r.attempts[i].offered
  }

  /** Unless a send falls short, no byte is lost, and a socket closes with the bytes it had on the wire. */
  ghost predicate Delivers(st: State, r: State) {
    AllTaken(st, r) ==>
      st.wire + st.out <= r.wire + r.out && (st.valid && !r.valid ==> st.wire + st.out <= r.wire)
  }

  /** What a call from outside keeps, though not each stage of a close: a connection that has left
      the registry is closed as well, and nothing is left behind. */
  ghost predicate Settled(st: State, r: State) {
    (st.registered && !r.registered ==> !r.valid) && Delivers(st, r)
  }

  lemma FollowsTransitive(a: State, b: State, c: State)
    requires Follows(a, b) && Follows(b, c)
    ensures Follows(a, c)
    ensures Settled(a, b) && Settled(b, c) ==> Settled(a, c)
  {
    DeliversTransitive(a, b, c);
    FlushedTransitive(a, b, c);
    BalancedTransitive(a, b, c);
    hide Delivers, Flushed, Balanced;
    if Sound(a) {
      MarksTransitive(a, b, c);
      hide Marks;
    }
  }

  lemma MarksTransitive(a: State, b: State, c: State)
    requires Sound(a) && Sound(b) && (!a.valid ==> !b.valid) && (!b.valid ==> !c.valid)
    requires (b.registered ==> a.registered) && (c.registered ==> b.registered)
    ensures Marks(a, c) == Marks(a, b) + Marks(b, c)
  {
  }

  lemma BalancedTransitive(a: State, b: State, c: State)
    requires Balanced(a, b) && Balanced(b, c)
    requires |b.sends| <= |a.sends| && b.sends == a.sends[|a.sends| - |b.sends|..]
    ensures Balanced(a, c)
  {
    hide Repeated;
    assert forall x :: x in b.sends ==> x in a.sends;
  }

  lemma FlushedTransitive(a: State, b: State, c: State)
    requires a.attempts <= b.attempts <= c.attempts && Flushed(a, b) && Flushed(b, c)
    ensures Flushed(a, c)
    ensures SomeFull(a, b) || SomeFull(b, c) ==> SomeFull(a, c)
  {
    if i :| |a.attempts| <= i < |b.attempts| && 0 < b.attempts[i].taken == b.attempts[i].offered {
      assert c.attempts[i] == b.attempts[i];
    }
  }

  lemma DeliversTransitive(a: State, b: State, c: State)
    requires Follows(a, b) && Follows(b, c)
    ensures AllTaken(a, c) ==> AllTaken(a, b) && AllTaken(b, c)
    ensures Delivers(a, b) && Delivers(b, c) ==> Delivers(a, c)
  {
    hide Balanced, Sound, Marks, Flushed;
    assert b.attempts <= c.attempts;
    if AllTaken(a, c) {
      assert forall i :: 0 <= i < |b.attempts| ==> b.attempts[i] == c.attempts[i];
    }
  }

  lemma FollowsSelf(st: State)
    ensures Follows(st, st) && Settled(st, st)
  {
    assert st.trace + [] == st.trace;
  }

  function Append(st: State, s: string): (r: State)
    ensures Follows(st, r) && Settled(st, r)
  {
    assert st.wire + (st.out + s) == (st.wire + st.out) + s;
    st.(out := st.out + s, written := st.written + s)
  }

  /** One notification: on_X and then the same handler of each listener. */
  function AfterNotify(st: State): (r: State)
    ensures Follows(st, r) && Settled(st, r)
    decreases |st.script|, 0, 0
  {
    if st.script == [] then st
    else
      var s := st.(script := st.script[1..]);
      var r := Run(s, st.script[0]);
      FollowsTransitive(st, s, r);
      r
  }

  function Run(st: State, actions: seq<Action>): (r: State)
    ensures Follows(st, r) && Settled(st, r)
    decreases |st.script|, 4, |actions|
  {
    if actions == [] then st
    else
      var s := Do(st, actions[0]);
      var r := Run(s, actions[1..]);
      FollowsTransitive(st, s, r);
      r
  }

  function Do(st: State, a: Action): (r: State)
    ensures Follows(st, r) && Settled(st, r)
    decreases |st.script|, 3, 0
  {
    hide Follows, Settled;
    match a
    case Write(s) => Append(st, s)
    case WriteLn(s) => Append(st, s + CRLF)
    case Flush => AfterWrite(st).0
    case Close => AfterClose(st)
  }

  /** How many bytes of the buffer the next send takes. */
  function NextTaken(st: State): (n: nat)
    ensures n <= |st.out|
  {
    if st.sends == [] then 0
    else match st.sends[0]
      case All => |st.out|
      case Error => 0
      case Took(n) => if n <= |st.out| then n else |st.out|
  }

  /** A send by a valid socket with a nonempty buffer. */
  function Taken(st: State): State {
    var n := NextTaken(st);
    st.(sends := if st.sends == [] then [] else st.sends[1..],
        wire := st.wire + st.out[..n],
        attempts := st.attempts + [Attempt(|st.out|, n)],
        out := if n == |st.out| then "" else st.out)
  }

  lemma TakenBalances(st: State)
    requires st.out != ""
    ensures Balanced(st, Taken(st))
  {
    var n, s := NextTaken(st), Taken(st);
    hide Repeated;
    RepeatedLast(st.attempts, Attempt(|st.out|, n));
    if n == |st.out| {
      assert st.out[..n] == st.out && s.wire + "" == st.wire + st.out;
    } else {
      assert st.sends != [] && st.sends[0].Took? ==> st.sends[0] in st.sends;
      assert n == 0 ==> s.wire == st.wire;
    }
  }

  lemma TakenFollows(st: State)
    requires st.valid && st.out != ""
    ensures Follows(st, Taken(st)) && Settled(st, Taken(st))
    ensures AllTaken(st, Taken(st)) ==> Taken(st).out == "" && NextTaken(st) == |st.out|
    ensures NextTaken(st) == |st.out| ==> SomeFull(st, Taken(st))
  {
    TakenBalances(st);
    hide Balanced, Repeated;
    assert st.trace + [] == st.trace;
    var n := NextTaken(st);
    assert Taken(st).attempts[|st.attempts|] == Attempt(|st.out|, n);
    hide NextTaken;
    assert n == |st.out| ==> st.out[..n] == st.out;
  }

  /** socket::send of the output buffer: the new state and whether everything was taken. */
  function AfterSend(st: State): (r: (State, bool))
    ensures Follows(st, r.0) && Settled(st, r.0)
    ensures r.1 ==> r.0.out == ""
    ensures r.0.script == st.script
    ensures st.valid && AllTaken(st, r.0) ==> r.0.out == "" && r.1
    ensures !st.valid ==> r == (st, false)
    ensures st.valid && st.out == "" ==> r == (st, true)
    ensures st.out != "" && r.1 ==> SomeFull(st, r.0)
  {
    hide Follows, Settled, AllTaken, SomeFull;
    FollowsSelf(st);
    if !st.valid then (st, false)
    else if st.out == "" then (st, true)
    else
      TakenFollows(st);
      (Taken(st), NextTaken(st) == |st.out|)
  }

  /** write_from_buffer.  A valid socket with an empty buffer has nothing to do and reports success; with
      a nonempty one, success means that some send since then took all it was offered, and unless a
      callback closed the socket or some send fell short there is success. */
  function AfterWrite(st: State): (r: (State, bool))
    ensures Follows(st, r.0) && Settled(st, r.0)
    ensures st.valid && AllTaken(st, r.0) ==> st.wire + st.out <= r.0.wire
    ensures !st.valid ==> r == (st, false)
    ensures st.valid && st.out == "" ==> r == (st, true)
    ensures st.out != "" && r.1 ==> SomeFull(st, r.0)
    ensures st.valid && AllTaken(st, r.0) && r.0.valid ==> r.1
    decreases |st.script|, 1, 0
  {
    hide Settled, Balanced, Sound, Marks, Flushed, SomeFull, AllTaken;
    FollowsSelf(st);
    if !st.valid then (st, false)
    else if st.out == "" then
      assert st.wire + st.out == st.wire;
      (st, true)
    else
      var s := AfterNotify(st);
      var (t, all) := AfterSend(s);
      FollowsTransitive(st, s, t);
      SendEmpties(st, s, t);
      SendReports(st, s, t, all);
      if !all then (t, false)
      else
        var u := AfterNotify(t);
        FollowsTransitive(st, t, u);
        DeliversTransitive(st, t, u);
        FlushedTransitive(st, t, u);
        (u, true)
  }

  /** If the send had nothing left to do, a nested flush has done it. */
  lemma SendReports(st: State, s: State, t: State, all: bool)
    requires st.valid && st.out != "" && Follows(st, s) && Follows(s, t)
    requires s.out != "" && all ==> SomeFull(s, t)
    requires s.valid && AllTaken(s, t) ==> all
    ensures all ==> SomeFull(st, t)
    ensures AllTaken(st, t) && t.valid ==> all
  {
    hide Balanced, Sound, Marks, SomeFull, AllTaken;
    DeliversTransitive(st, s, t);
    FlushedTransitive(st, s, t);
  }

  lemma SendEmpties(st: State, s: State, t: State)
    requires Follows(st, s) && Settled(st, s) && Follows(s, t) && Settled(s, t)
    requires s.valid && AllTaken(s, t) ==> t.out == ""
    ensures st.valid && AllTaken(st, t) ==> st.wire + st.out <= t.wire
  {
    hide Balanced, Sound, Marks, AllTaken;
    DeliversTransitive(st, s, t);
    assert t.out == "" ==> t.wire + t.out == t.wire;
  }

  /** The server's cleanup listener takes the connection out of the registry, unless a nested close
      has already closed it. */
  function Cleanup(st: State): (r: State)
    ensures Follows(st, r)
    ensures r.valid ==> !r.registered
  {
    if st.valid && st.registered then st.(registered := false, trace := st.trace + [Left]) else st
  }

  /** socket::close */
  function AfterSocketClose(st: State): (r: State)
    ensures !(st.valid && st.registered) ==> Follows(st, r)
    ensures !r.valid
  {
    if st.valid then st.(valid := false, trace := st.trace + [Closed]) else st
  }

  /** buffered_socket::close: notify, flush, then socket::close.  The cleanup listener hears of it behind
      some of the listeners and in front of others. */
  function AfterClose(st: State): (r: State)
    ensures Follows(st, r) && Settled(st, r)
    ensures !r.valid
    decreases |st.script|, 2, 0
  {
    hide Settled, Balanced, Marks, Sound;
    FollowsSelf(st);
    if !st.valid then st
    else
      var s := AfterNotify(st);
      var c := Cleanup(s);
      FollowsTransitive(st, s, c);
      var d := AfterNotify(c);
      FollowsTransitive(st, c, d);
      var t := AfterWrite(d).0;
      FollowsTransitive(st, d, t);
      var u := AfterSocketClose(t);
      FollowsTransitive(st, t, u);
      CloseSettles(st, s, d, t, u);
      u
  }

  /** Either a nested close has delivered the buffer, or the flush of this one does. */
  lemma CloseSettles(st: State, s: State, d: State, t: State, u: State)
    requires st.valid && Follows(st, s) && Settled(st, s)
    requires Follows(Cleanup(s), d) && Settled(Cleanup(s), d) && Follows(d, t)
    requires d.valid && AllTaken(d, t) ==> d.wire + d.out <= t.wire
    requires u == AfterSocketClose(t)
    ensures Settled(st, u)
  {
    hide Follows, AllTaken;
    NotifyTwice(st, s, d);
    AllTakenParts(st, d, t, u);
    if AllTaken(st, u) {
      var all := st.wire + st.out;
      assert all <= d.wire + d.out && (!d.valid ==> all <= d.wire);
      assert all <= t.wire;
      assert u.wire == t.wire && t.wire <= u.wire + u.out;
    }
  }

  lemma NotifyTwice(st: State, s: State, d: State)
    requires Follows(st, s) && Settled(st, s) && Follows(Cleanup(s), d) && Settled(Cleanup(s), d)
    ensures Follows(st, d) && Delivers(st, d)
  {
    FollowsTransitive(st, s, Cleanup(s));
    FollowsTransitive(st, Cleanup(s), d);
    assert Delivers(st, Cleanup(s)) by {
      hide Follows;
    }
    hide Delivers, Follows;
    DeliversTransitive(st, Cleanup(s), d);
  }

  lemma AllTakenParts(st: State, d: State, t: State, u: State)
    requires Follows(st, d) && Follows(d, t) && t.attempts == u.attempts
    ensures AllTaken(st, u) ==> AllTaken(st, d) && AllTaken(d, t)
    ensures d.wire <= t.wire
  {
    DeliversTransitive(st, d, t);
    hide Follows;
  }

  /** A socket before its first write, whatever its callbacks and the system will do. */
  function Fresh(registered: bool, script: seq<seq<Action>>, sends: seq<Sent>): State {
    State(true, registered, "", script, sends, "", "", [], [])
  }

  // ---------- the bytes ----------

  /** Over every run, with callbacks that call back in any way: the bytes on the wire followed by the
      output buffer are the bytes written, in order, exactly if no send took only a part of what it
      was offered, and the excess is what those sends took. */
  lemma RunConserves(registered: bool, script: seq<seq<Action>>, sends: seq<Sent>, actions: seq<Action>)
    ensures var r := Run(Fresh(registered, script, sends), actions);
      && (r.wire + r.out == r.written <==> forall i :: 0 <= i < |r.attempts| ==> !IsPartial(r.attempts[i]))
      && |r.wire + r.out| == |r.written| + Repeated(r.attempts)
  {
    hide Run;
    var st, r := Fresh(registered, script, sends), Run(Fresh(registered, script, sends), actions);
    assert Follows(st, r);
    assert st.wire + st.out == st.written && Repeated(st.attempts) == 0;
    hide Repeated;
    NothingRepeatedIff(r.attempts);
    assert r.wire + r.out == r.written ==> |r.wire + r.out| == |r.written|;
  }

  /** Systems that take all or nothing conserve every run. */
  lemma AllOrNothingConserves(registered: bool, script: seq<seq<Action>>, sends: seq<Sent>, actions: seq<Action>)
    requires forall x :: x in sends ==> !x.Took?
    ensures var r := Run(Fresh(registered, script, sends), actions); r.wire + r.out == r.written
  {
    hide Run;
    assert Follows(Fresh(registered, script, sends), Run(Fresh(registered, script, sends), actions));
  }

  /** One send conserves exactly if it is not answered with a proper part of the buffer. */
  lemma SendConservesIff(st: State)
    requires st.wire + st.out == st.written
    ensures var r := AfterSend(st).0;
      r.wire + r.out == r.written
      <==> !st.valid || st.sends == [] || !st.sends[0].Took? || st.sends[0].n == 0 || st.sends[0].n >= |st.out|
  {
    hide Follows;
    var r := AfterSend(st).0;
    if st.valid && st.out != "" {
      var n := NextTaken(st);
      assert n == |st.out| ==> st.out[..n] == st.out && r.wire + "" == st.written;
      assert n == 0 ==> r.wire == st.wire;
      assert 0 < n < |st.out| ==> |r.wire + r.out| != |st.written|;
    }
  }

  /** After a partial send the whole buffer is sent again, so the part goes out twice. */
  lemma PartGoesOutTwice(st: State, n: nat, more: seq<Sent>)
    requires st.valid && st.script == [] && st.sends == [Took(n), All] + more && 0 < n < |st.out|
    ensures var r := Run(st, [Flush, Flush]);
      r.wire == st.wire + st.out[..n] + st.out && r.out == "" && r.written == st.written
  {
    hide Follows;
    RunTwo(st, Flush, Flush);
    var s := AfterSend(st).0;
    assert AfterWrite(st).0 == s;
    assert s.sends == [All] + more && s.out == st.out;
    var t := AfterSend(s).0;
    assert s.out[..|s.out|] == s.out;
    assert AfterWrite(s).0 == t;
  }

  /** The smallest such run: "ab" is written, "aab" is sent. */
  lemma PartialSendWitness()
    ensures var r := Run(Fresh(false, [], [Took(1), All]), [Write("ab")] + [Flush, Flush]);
      r.wire == "aab" && r.out == "" && r.written == "ab"
  {
    hide Run, Do, Follows, Settled, Append;
    var st := Fresh(false, [], [Took(1), All]);
    RunConcat(st, [Write("ab")], [Flush, Flush]);
    RunOne(st, Write("ab"));
    DoIs(st, Write("ab"));
    var s := Append(st, "ab");
    WrittenAb(st);
    PartGoesOutTwice(s, 1, []);
    assert "" + "a" + "ab" == "aab";
  }

  lemma WrittenAb(st: State)
    requires st == Fresh(false, [], [Took(1), All])
    ensures Append(st, "ab") == st.(out := "ab", written := "ab")
    ensures st.sends == [Took(1), All] + [] && "ab"[..1] == "a"
  {
    assert "" + "ab" == "ab";
  }

  // ---------- the end of a connection ----------

  /** Over every run, however its callbacks nest closes into closes: the descriptor is closed at most
      once, a registered connection has left the registry before that, and at the end of the run it
      has done both or neither. */
  lemma EntryLeavesFirst(registered: bool, script: seq<seq<Action>>, sends: seq<Sent>, actions: seq<Action>)
    ensures var r := Run(Fresh(registered, script, sends), actions);
      if r.valid then r.registered == registered && r.trace == []
      else !r.registered && r.trace == if registered then [Left, Closed] else [Closed]
  {
    RunMarks(Fresh(registered, script, sends), actions);
  }

  /** The same from any sound state of a socket. */
  lemma RunMarks(st: State, actions: seq<Action>)
    requires Sound(st) && st.valid
    ensures var r := Run(st, actions);
      && (r.valid ==> r.registered == st.registered && r.trace == st.trace)
      && (!r.valid ==> !r.registered && r.trace == st.trace + if st.registered then [Left, Closed] else [Closed])
  {
    hide Run, Balanced;
    assert Follows(st, Run(st, actions)) && Settled(st, Run(st, actions));
    assert [Left] + [Closed] == [Left, Closed];
  }

  lemma {:induction false} RunConcat(st: State, a: seq<Action>, b: seq<Action>)
    ensures Run(st, a + b) == Run(Run(st, a), b)
    decreases |a|
  {
    hide Follows, Settled, Do;
    if a == [] {
      assert a + b == b;
    } else {
      assert (a + b)[1..] == a[1..] + b;
      RunConcat(Do(st, a[0]), a[1..], b);
    }
  }

  lemma RunOne(st: State, a: Action)
    ensures Run(st, [a]) == Do(st, a)
  {
    hide Follows, Settled, Do;
    assert Run(st, [a]) == Run(Do(st, a), []);
  }

  lemma RunTwo(st: State, a: Action, b: Action)
    ensures Run(st, [a, b]) == Do(Do(st, a), b)
  {
    hide Run, Do, Follows, Settled;
    assert [a] + [b] == [a, b];
    RunConcat(st, [a], [b]);
    RunOne(st, a);
    RunOne(Do(st, a), b);
  }

  /** Nothing reaches the wire after a close, and the descriptor is not closed again. */
  lemma CloseIsFinal(st: State, before: seq<Action>, after: seq<Action>)
    ensures var closed := Run(st, before + [Close]);
      var r := Run(st, before + [Close] + after);
      !closed.valid && !r.valid && r.wire == closed.wire && r.trace == closed.trace
  {
    hide Run, AfterNotify, AfterWrite, AfterClose, Balanced;
    RunConcat(st, before + [Close], after);
    RunConcat(st, before, [Close]);
    RunOne(Run(st, before), Close);
    assert Follows(Run(st, before + [Close]), Run(Run(st, before + [Close]), after));
  }

  /** However callbacks and closes nest: a socket that is closed has delivered whatever it had
      buffered at any time before, unless a send since then fell short. */
  lemma CloseDelivers(st: State, before: seq<Action>, after: seq<Action>)
    ensures var s := Run(st, before);
      var r := Run(st, before + after);
      s.valid && !r.valid && AllTaken(s, r) ==> s.wire + s.out <= r.wire
  {
    hide Run, Follows;
    RunConcat(st, before, after);
    assert Settled(Run(st, before), Run(Run(st, before), after));
  }

  lemma NotifyShrinks(st: State)
    ensures |AfterNotify(st).script| <= |st.script|
  {
    hide AfterNotify, Balanced;
    assert Follows(st, AfterNotify(st));
  }

  lemma RunStep(st: State, actions: seq<Action>, i: nat)
    requires i < |actions|
    ensures Run(st, actions[i..]) == Run(Do(st, actions[i]), actions[i + 1..])
  {
    hide Do, Follows, Settled;
    assert actions[i..][1..] == actions[i + 1..];
  }

  lemma RunEmpty(st: State)
    ensures Run(st, []) == st
  {
  }

  lemma DoIs(st: State, a: Action)
    ensures |Do(st, a).script| <= |st.script|
    ensures Do(st, a) == match a
      case Write(s) => Append(st, s)
      case WriteLn(s) => Append(st, s + CRLF)
      case Flush => AfterWrite(st).0
      case Close => AfterClose(st)
  {
    hide Balanced;
    assert Follows(st, Do(st, a));
  }

  lemma NotifyIs(st: State)
    ensures AfterNotify(st) == if st.script == [] then st else Run(st.(script := st.script[1..]), st.script[0])
  {
    hide Run;
  }

  function Text(actions: seq<Action>): string {
    if actions == [] then ""
    else (match actions[0]
          case Write(s) => s
          case WriteLn(s) => s + CRLF
          case _ => "") + Text(actions[1..])
  }

  predicate OnlyWrites(actions: seq<Action>) {
    forall i :: 0 <= i < |actions| ==> actions[i].Write? || actions[i].WriteLn?
  }

  lemma {:induction false} RunWrites(st: State, actions: seq<Action>)
    requires OnlyWrites(actions)
    ensures Run(st, actions) == Append(st, Text(actions))
    decreases |actions|
  {
    hide AfterNotify, AfterWrite, AfterClose, Follows, Settled;
    if actions == [] {
      assert st.out + "" == st.out && st.written + "" == st.written;
    } else {
      var s := if actions[0].Write? then actions[0].s else actions[0].s + CRLF;
      assert Do(st, actions[0]) == Append(st, s);
      RunWrites(Append(st, s), actions[1..]);
      assert (st.out + s) + Text(actions[1..]) == st.out + (s + Text(actions[1..]));
      assert (st.written + s) + Text(actions[1..]) == st.written + (s + Text(actions[1..]));
    }
  }

  /** What the callbacks of the notification after `i` others do. */
  function Actions(st: State, i: nat): seq<Action> {
    if i < |st.script| then st.script[i] else []
  }

  function Later(st: State): State {
    st.(script := if st.script == [] then [] else st.script[1..])
  }

  /** A notification whose callbacks only write. */
  lemma NotifyWrites(st: State)
    requires OnlyWrites(Actions(st, 0))
    ensures AfterNotify(st) == Append(Later(st), Text(Actions(st, 0)))
  {
    NotifyIs(st);
    hide Run, AfterNotify, Follows, Settled;
    if st.script == [] {
      assert st.out + "" == st.out && st.written + "" == st.written;
    } else {
      RunWrites(Later(st), st.script[0]);
    }
  }

  /** The system's next answer takes `size` bytes or more. */
  predicate TakesWhole(sends: seq<Sent>, size: nat) {
    sends != [] && (sends[0] == All || (sends[0].Took? && sends[0].n >= size))
  }

  /** Without callbacks, write_from_buffer reports success exactly if the system takes the whole
      buffer, and then the buffer is empty and the bytes are on the wire; an error puts nothing there. */
  lemma WriteReportsIff(st: State)
    requires st.valid && st.out != "" && st.script == []
    ensures var (r, ok) := AfterWrite(st);
      && (ok <==> TakesWhole(st.sends, |st.out|))
      && (ok ==> r.out == "" && r.wire == st.wire + st.out)
      && (!ok ==> r.out == st.out)
      && (st.sends == [] || st.sends[0] == Error ==> r.wire == st.wire)
  {
    hide Follows, Settled, AllTaken, SomeFull;
    NotifyIs(st);
    var t := AfterSend(st).0;
    NotifyIs(t);
    assert st.out[..|st.out|] == st.out && st.out[..0] == "";
  }

  /** One flush of a nonempty buffer, for callbacks that only write; it reports success exactly if its
      one send takes the whole offer. */
  lemma WriteDelivers(st: State)
    requires st.valid && st.out != "" && OnlyWrites(Actions(st, 0)) && OnlyWrites(Actions(st, 1))
    ensures var offer, r := st.out + Text(Actions(st, 0)), AfterWrite(st).0;
      var n := NextTaken(st.(out := offer));
      && r.wire == st.wire + offer[..n]
      && r.out == (if n == |offer| then Text(Actions(st, 1)) else offer)
      && (AfterWrite(st).1 <==> n == |offer|)
      && (n == |offer| <==> TakesWhole(st.sends, |offer|))
  {
    WriteAppends(st);
    hide AfterWrite, Follows, Settled, Text, OnlyWrites, NextTaken, TakesWhole, AllTaken, SomeFull, Actions;
    hide Append, Taken, Later;
    var s := Append(Later(st), Text(Actions(st, 0)));
    AppendFields(st, Text(Actions(st, 0)));
    TakenFields(s);
    AppendFields(Taken(s), Text(Actions(st, 1)));
    TakenIff(st.(out := s.out));
    NextTakenOf(s, st.(out := s.out));
    assert "" + Text(Actions(st, 1)) == Text(Actions(st, 1));
  }

  lemma AppendFields(st: State, text: string)
    ensures var s := Append(Later(st), text);
      && s.valid == st.valid && s.out == st.out + text && s.sends == st.sends && s.wire == st.wire
      && Actions(s, 0) == Actions(st, 1)
  {
    hide Follows, Settled;
  }

  lemma TakenFields(st: State)
    ensures var s, n := Taken(st), NextTaken(st);
      && s.wire == st.wire + st.out[..n] && s.out == (if n == |st.out| then "" else st.out)
      && Actions(s, 0) == Actions(st, 0)
  {
    hide NextTaken;
  }

  lemma WriteAppends(st: State)
    requires st.valid && st.out != "" && OnlyWrites(Actions(st, 0)) && OnlyWrites(Actions(st, 1))
    ensures var s := Append(Later(st), Text(Actions(st, 0)));
      AfterWrite(st) ==
        if NextTaken(s) == |s.out| then (Append(Later(Taken(s)), Text(Actions(st, 1))), true) else (Taken(s), false)
  {
    WriteIs(st);
    hide AfterNotify, AfterWrite, Follows, Settled, Text, OnlyWrites, NextTaken, AllTaken, SomeFull, Actions;
    hide Append, Taken, Later;
    NotifyWrites(st);
    AppendFields(st, Text(Actions(st, 0)));
    var s := AfterNotify(st);
    TakenFields(s);
    NotifyWrites(Taken(s));
  }

  lemma WriteIs(st: State)
    requires st.valid && st.out != ""
    ensures var s := AfterNotify(st);
      s.valid && s.out != "" ==>
        AfterWrite(st) == if NextTaken(s) == |s.out| then (AfterNotify(Taken(s)), true) else (Taken(s), false)
  {
    hide AfterNotify, Follows, Settled, AllTaken, SomeFull, NextTaken;
  }

  lemma TakenIff(st: State)
    requires st.out != ""
    ensures NextTaken(st) == |st.out| <==> TakesWhole(st.sends, |st.out|)
  {
  }

  lemma NextTakenOf(a: State, b: State)
    requires a.sends == b.sends && a.out == b.out
    ensures NextTaken(a) == NextTaken(b)
  {
  }

  /** For callbacks that only write, a close delivers exactly this, whatever the system answers: what is
      buffered and what on_close and on_will_write add goes out as far as its one send takes it; what
      on_did_write adds behind a full send stays in the closed socket. */
  lemma CloseOfWriters(st: State)
    requires st.valid && forall i :: 0 <= i < 4 ==> OnlyWrites(Actions(st, i))
    ensures var first, r := st.out + Text(Actions(st, 0)) + Text(Actions(st, 1)), AfterClose(st);
      var offer := first + Text(Actions(st, 2));
      var n := NextTaken(st.(out := offer));
      && !r.valid
      && (first == "" ==> r.wire == st.wire && r.out == "")
      && (first != "" ==> r.wire == st.wire + offer[..n])
      && (first != "" ==> r.out == if n == |offer| then Text(Actions(st, 3)) else offer)
  {
    hide AfterNotify, Follows, Settled, Text, OnlyWrites, NextTaken, AfterClose;
    CloseIs(st);
    NotifyWrites(st);
    var c := Cleanup(AfterNotify(st));
    assert Actions(c, 0) == Actions(st, 1);
    NotifyWrites(c);
    var d := AfterNotify(c);
    assert Actions(d, 0) == Actions(st, 2) && Actions(d, 1) == Actions(st, 3);
    if d.out == "" {
      assert AfterWrite(d).0 == d;
    } else {
      hide AfterWrite, Actions;
      WriteDelivers(d);
      var offer := d.out + Text(Actions(d, 0));
      NextTakenOf(d.(out := offer), st.(out := offer));
    }
  }

  lemma CloseIs(st: State)
    requires st.valid
    ensures AfterClose(st) == AfterSocketClose(AfterWrite(AfterNotify(Cleanup(AfterNotify(st)))).0)
  {
    hide AfterNotify, AfterWrite, Follows, Settled;
  }

  /** The socket itself. */
  class Socket {
    var valid: bool
    var outBuffer: string
    var script: seq<seq<Action>>
    var sends: seq<Sent>
    var wire: string
    var written: string
    var registered: bool
    var attempts: seq<Attempt>
    var trace: seq<Mark>

    constructor (registered: bool, script: seq<seq<Action>>, sends: seq<Sent>)
      ensures View() == Fresh(registered, script, sends)
    {
      valid, this.registered, outBuffer, this.script, this.sends := true, registered, "", script, sends;
      wire, written, attempts, trace := "", "", [], [];
    }

    function View(): State
      reads this
    {
      State(valid, registered, outBuffer, script, sends, wire, written, attempts, trace)
    }

    method Write(s: string)
      modifies this
      ensures View() == Append(old(View()), s)
    {
      hide Follows, Settled;
      outBuffer := outBuffer + s;
      written := written + s;
    }

    method WriteLn(s: string)
      modifies this
      ensures View() == Append(old(View()), s + CRLF)
    {
      hide Follows, Settled;
      outBuffer := outBuffer + s;
      outBuffer := outBuffer + CRLF;
      written := written + (s + CRLF);
      assert outBuffer == old(outBuffer) + (s + CRLF);
    }

    /** The callbacks of one notification, on_X first and then the listeners. */
    method Notify()
      modifies this
      ensures View() == AfterNotify(old(View()))
      decreases |script|, 0, 0
    {
      hide AfterNotify, Run, Do, Follows, Settled;
      NotifyIs(View());
      if script != [] {
        var actions := script[0];
        script := script[1..];
        ghost var begin := View();
        var i := 0;
        assert actions[0..] == actions;
        while i < |actions|
          invariant 0 <= i <= |actions|
          invariant Run(View(), actions[i..]) == Run(begin, actions)
          invariant |script| < |old(script)|
        {
          RunStep(View(), actions, i);
          DoIs(View(), actions[i]);
          match actions[i] {
            case Write(s) => Write(s);
            case WriteLn(s) => WriteLn(s);
            case Flush => var _ := WriteFromBuffer();
            case Close => Close();
          }
          i := i + 1;
        }
        assert actions[i..] == [];
        RunEmpty(View());
      }
    }

    /** socket::send(outBuffer_): the number of bytes the system took, -1 for an error. */
    method Send() returns (n: int)
      modifies this
      ensures n == |old(outBuffer)| <==> AfterSend(old(View())).1
      ensures View() == AfterSend(old(View())).0.(out := old(outBuffer))
      ensures old(valid) && old(outBuffer) == "" ==> n == 0
      ensures n == -1 <==> !old(valid) || (old(outBuffer) != "" && (old(sends) == [] || old(sends)[0] == Error))
      ensures old(valid) && old(outBuffer) != "" && n >= 0 ==> n == NextTaken(old(View()))
    {
      hide Follows, Settled, AllTaken, SomeFull;
      if !valid {
        return -1;
      }
      if outBuffer == "" {
        return 0;
      }
      var answer := if sends == [] then Error else sends[0];
      sends := if sends == [] then [] else sends[1..];
      match answer {
        case All =>
          n := |outBuffer|;
        case Error =>
          n := -1;
        case Took(k) =>
          n := if k <= |outBuffer| then k else |outBuffer|;
      }
      if n > 0 {
        wire := wire + outBuffer[..n];
      }
      var taken := if n > 0 then n else 0;
      attempts := attempts + [Attempt(|outBuffer|, taken)];
      assert taken == NextTaken(old(View()));
      assert wire == old(wire) + outBuffer[..taken];
    }

    /** buffered_socket::write_from_buffer */
    method WriteFromBuffer() returns (ok: bool)
      modifies this
      ensures (View(), ok) == AfterWrite(old(View()))
      decreases |script|, 1, 0
    {
      if !valid {
        return false;
      }
      if outBuffer == "" {
        return true;
      }
      hide AfterNotify, Follows, Settled;
      NotifyShrinks(View());
      Notify();
      ghost var s := View();
      var n := Send();
      if n != |outBuffer| {
        return false;
      }
      outBuffer := "";
      assert View() == AfterSend(s).0;
      Notify();
      return true;
    }

    /** cleanup_listener::on_close */
    method OnClose()
      modifies this`registered, this`trace
      ensures View() == Cleanup(old(View()))
    {
      hide Follows;
      if !valid {
        return;
      }
      if registered {
        registered := false;
        trace := trace + [Left];
      }
    }

    /** socket::close */
    method SocketClose()
      modifies this`valid, this`trace
      ensures View() == AfterSocketClose(old(View()))
    {
      hide Follows;
      if valid {
        valid := false;
        trace := trace + [Closed];
      }
    }

    /** buffered_socket::close */
    method Close()
      modifies this
      ensures View() == AfterClose(old(View()))
      decreases |script|, 2, 0
    {
      hide AfterNotify, AfterWrite, Follows, Settled;
      if valid {
        NotifyShrinks(View());
        Notify();
        OnClose();
        NotifyShrinks(View());
        Notify();
        var _ := WriteFromBuffer();
        SocketClose();
      }
    }
  }
}
