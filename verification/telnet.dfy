/**
 The telnet command filter of src/telnet/socket.cpp.

 A received buffer is described by its tokens: the tokens partition the buffer, each token
 keeps some of its bytes as data and fires at most one event.  `TelnetSocket.OnRecv` erases
 commands from the buffer in place and is proved to leave and fire exactly what the tokens say.
 */
module Telnet {
  import opened Bytes

  const SE: char := 240 as char
  const SB: char := 250 as char
  const WILL: char := 251 as char
  const WONT: char := 252 as char
  const DO: char := 253 as char
  const DONT: char := 254 as char
  const IAC: char := 255 as char

  predicate IsNegotiation(c: char) {
    c == WILL || c == WONT || c == DO || c == DONT
  }

  /** The callbacks `on_telopt` and `on_sub_neg`. */
  datatype Event = Telopt(action: char, option: char) | SubNeg(kind: char, params: string)

  datatype Token =
    | Data(b: char)
    | Doubled                            // IAC IAC: both bytes are dropped
    | Negotiation(action: char, option: char)
    | Sub(kind: char, params: string)
    | BadSub                             // IAC SB whose next IAC is not followed by SE: only IAC is dropped
    | Unlisted(command: char)            // any other command: only IAC is dropped
    | LastIac                            // an IAC that ends the buffer stays
    | CutNegotiation(action: char)       // the buffer ends before the option: only IAC is dropped
    | OpenSub                            // the buffer ends before IAC SE: only IAC is dropped
    | Undefined                          // IAC SB IAC SE: the parameter range would be reversed

  /** The number of input bytes in a token. */
  function Width(t: Token): nat {
    match t
    case Data(_) => 1
    case LastIac => 1
    case Negotiation(_, _) => 3
    case Sub(_, p) => 5 + |p|
    case Undefined => 4
    case _ => 2
  }

  /** The bytes of a token on the wire. */
  function Wire(t: Token): (w: string)
    ensures |w| == Width(t)
  {
    match t
    case Data(b) => [b]
    case Doubled => [IAC, IAC]
    case Negotiation(a, o) => [IAC, a, o]
    case Sub(k, p) => [IAC, SB, k] + p + [IAC, SE]
    case BadSub => [IAC, SB]
    case Unlisted(c) => [IAC, c]
    case LastIac => [IAC]
    case CutNegotiation(a) => [IAC, a]
    case OpenSub => [IAC, SB]
    case Undefined => [IAC, SB, IAC, SE]
  }

  /** The bytes of a token that stay in the buffer. */
  function Kept(t: Token): string {
    match t
    case Data(b) => [b]
    case BadSub => [SB]
    case Unlisted(c) => [c]
    case LastIac => [IAC]
    case CutNegotiation(a) => [a]
    case OpenSub => [SB]
    case _ => ""
  }

  function Fired(t: Token): seq<Event> {
    match t
    case Negotiation(a, o) => [Telopt(a, o)]
    case Sub(k, p) => [SubNeg(k, p)]
    case _ => []
  }

  /** Did the filter run into the end of the buffer while it read this token? */
  predicate HitsEnd(t: Token) {
    t.LastIac? || t.CutNegotiation? || t.OpenSub?
  }

  /** The subnegotiation whose text after IAC SB is `t`. */
  function SubHead(t: string): (r: Token)
    ensures r.OpenSub? || r.BadSub? || r.Undefined? || r.Sub?
    ensures r.Undefined? ==> |t| >= 2 && t[0] == IAC && t[1] == SE
    ensures r.Sub? ==>
      && |t| >= |r.params| + 3 && t[0] == r.kind && t[1..1 + |r.params|] == r.params
      && t[1 + |r.params|] == IAC && t[2 + |r.params|] == SE
  {
    var p := IndexOf(t, IAC);
    if p == |t| || p + 1 == |t| then OpenSub
    else if t[p + 1] != SE then BadSub
    else if p == 0 then Undefined
    else Sub(t[0], t[1..p])
  }

  /** The first token of a nonempty buffer. */
  function Head(s: string): (t: Token)
    requires s != ""
    ensures 0 < Width(t) <= |s|
    ensures t.Data? ==> t.b != IAC
    ensures t.LastIac? ==> s == [IAC]
  {
    if s[0] != IAC then Data(s[0])
    else if |s| == 1 then LastIac
    else if s[1] == IAC then Doubled
    else if IsNegotiation(s[1]) then
      if |s| == 2 then CutNegotiation(s[1]) else Negotiation(s[1], s[2])
    else if s[1] == SB then
      SubHead(s[2..])
    else Unlisted(s[1])
  }

  function Tokens(s: string): seq<Token> {
    if s == "" then [] else [Head(s)] + Tokens(s[Width(Head(s))..])
  }

  function DataOf(ts: seq<Token>): string {
    if ts == [] then "" else Kept(ts[0]) + DataOf(ts[1..])
  }

  function EventsOf(ts: seq<Token>): seq<Event> {
    if ts == [] then [] else Fired(ts[0]) + EventsOf(ts[1..])
  }

  function WireOf(ts: seq<Token>): string {
    if ts == [] then "" else Wire(ts[0]) + WireOf(ts[1..])
  }

  /** The buffer behind its first token. */
  function Rest(s: string): (r: string)
    requires s != ""
    ensures |r| < |s|
  {
    s[Width(Head(s))..]
  }

  /** What one call of `on_recv` leaves in the buffer and reports. */
  datatype Output = Output(data: string, events: seq<Event>)

  function Join(a: Output, b: Output): Output {
    Output(a.data + b.data, a.events + b.events)
  }

  /** The filter as a one-pass parser. */
  function Filter(s: string): Output {
    if s == "" then Output("", []) else
      Join(Output(Kept(Head(s)), Fired(Head(s))), Filter(Rest(s)))
  }

  /** The filter never forms the reversed range of src/telnet/socket.cpp:50. */
  predicate Safe(s: string) {
    s != "" ==> Head(s) != Undefined && Safe(Rest(s))
  }

  /** The filter of `s` never runs into the end of the buffer. */
  predicate Complete(s: string) {
    s != "" ==> !HitsEnd(Head(s)) && Complete(Rest(s))
  }

  // ---------- the tokens partition the buffer ----------

  lemma {:induction false} Partition(s: string)
    ensures WireOf(Tokens(s)) == s
  {
    if s != "" {
      Partition(Rest(s));
      WireOfHead(s);
    }
  }

  lemma WireOfHead(s: string)
    requires s != ""
    ensures Wire(Head(s)) + Rest(s) == s
  {
    var t := Head(s);
    if t.Sub? {
      var n := |t.params|;
      assert s[2..][1..1 + n] == s[3..3 + n];
      assert s == [IAC, SB, t.kind] + s[3..3 + n] + [IAC, SE] + Rest(s);
    }
  }

  /** A buffer that never holds IAC SB IAC SE contiguously is safe. */
  lemma {:induction false} NoContiguousIsSafe(s: string)
    requires !Contains(s, [IAC, SB, IAC, SE])
    ensures Safe(s)
  {
    if s != "" {
      var w, rest := Width(Head(s)), Rest(s);
      assert !MatchesAt(s, [IAC, SB, IAC, SE], 0);
      assert |s| >= 4 ==> s[0..4] == s[..4];
      assert !Contains(rest, [IAC, SB, IAC, SE]) by {
        forall i | 0 <= i <= |rest| ensures !MatchesAt(rest, [IAC, SB, IAC, SE], i) {
          var j := i + w;
          assert !MatchesAt(s, [IAC, SB, IAC, SE], j);
          if i + 4 <= |rest| {
            assert rest[i..i + 4] == s[j..j + 4];
          }
        }
      }
      NoContiguousIsSafe(rest);
    }
  }

  // ---------- the code ----------

  /** What vector::erase of the range from `i` to `j` leaves. */
  function Cut(b: string, i: nat, j: nat): (r: string)
    requires i <= j <= |b|
    ensures |r| == |b| - (j - i)
  {
    b[..i] + b[j..]
  }

  /** Erasing the byte at `n` and then `k` bytes there erases `k + 1` bytes. */
  lemma CutCut(b: string, n: nat, k: nat)
    requires n + 1 + k <= |b|
    ensures Cut(Cut(b, n, n + 1), n, n + k) == Cut(b, n, n + 1 + k)
  {
  }

  lemma CutOne(b: string, n: nat)
    requires n + 1 < |b|
    ensures Cut(b, n, n + 1)[n..] == b[n + 1..]
    ensures Cut(b, n, n + 1)[n] == b[n + 1]
    ensures Cut(b, n, n + 1)[n + 1..] == b[n + 2..]
    ensures n + 2 < |b| ==> Cut(b, n, n + 1)[n + 1] == b[n + 2]
  {
  }

  /** The `data_buffer &s` that the handlers share. */
  class DataBuffer {
    var bytes: string

    constructor (s: string)
      ensures bytes == s
    {
      bytes := s;
    }

    /** vector::erase of a range; the result is the position of the byte after it. */
    method Erase(first: nat, last: nat) returns (pos: nat)
      requires first <= last <= |bytes|
      modifies this
      ensures bytes == Cut(old(bytes), first, last)
      ensures pos == first <= |bytes|
    {
      bytes := Cut(bytes, first, last);
      pos := first;
    }
  }

  /** A step over bytes that are no IAC. */
  lemma {:induction false} SkipData(s: string, k: nat)
    requires k <= |s|
    requires forall i :: 0 <= i < k ==> s[i] != IAC
    ensures Filter(s).data == s[..k] + Filter(s[k..]).data
    ensures Filter(s).events == Filter(s[k..]).events
    ensures Safe(s) <==> Safe(s[k..])
    ensures Complete(s) <==> Complete(s[k..])
  {
    hide Filter, Safe, Complete;
    if k == 0 {
      assert s[k..] == s;
    } else {
      SkipOne(s);
      SkipData(s[1..], k - 1);
      assert s[1..][k - 1..] == s[k..];
      assert s[..k] == [s[0]] + s[1..][..k - 1];
    }
  }

  /** What `on_recv` leaves untouched when it stops. */
  lemma FilterEnd(s: string)
    requires s == "" || s == [IAC]
    ensures Filter(s) == Output(s, [])
    ensures Safe(s) && (Complete(s) <==> s == "")
  {
    assert s == [IAC] ==> Rest(s) == "";
  }

  lemma StepHead(s: string)
    requires s != ""
    ensures Filter(s).data == Kept(Head(s)) + Filter(Rest(s)).data
    ensures Filter(s).events == Fired(Head(s)) + Filter(Rest(s)).events
    ensures Safe(s) <==> Head(s) != Undefined && Safe(Rest(s))
    ensures Complete(s) <==> !HitsEnd(Head(s)) && Complete(Rest(s))
  {
  }

  lemma SkipOne(s: string)
    requires s != "" && s[0] != IAC
    ensures Filter(s).data == [s[0]] + Filter(s[1..]).data
    ensures Filter(s).events == Filter(s[1..]).events
    ensures Safe(s) <==> Safe(s[1..])
    ensures Complete(s) <==> Complete(s[1..])
  {
    assert Head(s) == Data(s[0]);
    assert Rest(s) == s[1..];
  }

  /** The buffer in front of `pos` is finished, the rest is still raw input, and together with
      the events so far they make up `goal`. */
  ghost predicate Agrees(bytes: string, pos: nat, events: seq<Event>, goal: Output) {
    && pos <= |bytes|
    && Safe(bytes[pos..])
    && bytes[..pos] + Filter(bytes[pos..]).data == goal.data
    && events + Filter(bytes[pos..]).events == goal.events
  }

  lemma AgreesAtNextIac(bytes: string, pos: nat, events: seq<Event>, goal: Output)
    requires Agrees(bytes, pos, events, goal)
    ensures Agrees(bytes, IndexFrom(bytes, IAC, pos), events, goal)
  {
    hide Filter, Safe, Complete;
    var rest, k := bytes[pos..], IndexOf(bytes[pos..], IAC);
    SkipData(rest, k);
    assert rest[k..] == bytes[pos + k..];
    assert bytes[..pos] + rest[..k] == bytes[..pos + k];
  }

  /** A command that leaves no data: all its bytes are erased. */
  lemma AgreesAfterErase(before: string, pos: nat, events: seq<Event>, goal: Output,
                         after: string, fired: seq<Event>, t: Token)
    requires Agrees(before, pos, events, goal) && pos < |before|
    requires t == Head(before[pos..]) && Kept(t) == "" && pos + Width(t) <= |before|
    requires after == Cut(before, pos, pos + Width(t))
    requires fired == events + Fired(t)
    ensures Agrees(after, pos, fired, goal)
  {
    hide Filter, Safe, Complete;
    StepHead(before[pos..]);
    assert after[pos..] == Rest(before[pos..]);
    assert after[..pos] == before[..pos];
  }

  /** IAC IAC, or a negotiation with its option. */
  lemma AgreesAfterFixed(before: string, pos: nat, events: seq<Event>, goal: Output,
                         after: string, fired: seq<Event>)
    requires Agrees(before, pos, events, goal) && pos + 1 < |before| && before[pos] == IAC
    requires
      || (before[pos + 1] == IAC && fired == events && after == Cut(before, pos, pos + 2))
      || (IsNegotiation(before[pos + 1]) && pos + 2 < |before|
          && fired == events + [Telopt(before[pos + 1], before[pos + 2])]
          && after == Cut(before, pos, pos + 3))
    ensures Agrees(after, pos, fired, goal)
  {
    hide Agrees;
    var t := Head(before[pos..]);
    assert t == if before[pos + 1] == IAC then Doubled else Negotiation(before[pos + 1], before[pos + 2]);
    AgreesAfterErase(before, pos, events, goal, after, fired, t);
  }

  /** A command that loses its IAC only; its second byte is data. */
  lemma AgreesAfterIac(before: string, pos: nat, events: seq<Event>, goal: Output, after: string)
    requires Agrees(before, pos, events, goal) && pos + 1 < |before|
    requires before[pos] == IAC != before[pos + 1]
    requires IsNegotiation(before[pos + 1]) ==> pos + 2 == |before|
    requires before[pos + 1] == SB ==> SubHead(before[pos + 2..]).BadSub? || SubHead(before[pos + 2..]).OpenSub?
    requires after == Cut(before, pos, pos + 1)
    ensures Agrees(after, pos, events, goal)
  {
    hide Filter, Safe, Complete;
    var rest := before[pos..];
    assert rest[2..] == before[pos + 2..];
    StepHead(rest);
    assert Kept(Head(rest)) == [rest[1]] && Fired(Head(rest)) == [] && Width(Head(rest)) == 2;
    assert after[pos..][0] == before[pos + 1];
    assert after[pos..][1..] == Rest(rest);
    assert after[..pos] == before[..pos];
    SkipOne(after[pos..]);
  }

  /** A negotiation cut off by the end of the buffer: the filter stops behind its command byte. */
  lemma AgreesAfterCut(before: string, pos: nat, events: seq<Event>, goal: Output, after: string)
    requires Agrees(before, pos, events, goal) && pos + 2 == |before|
    requires before[pos] == IAC && IsNegotiation(before[pos + 1])
    requires after == Cut(before, pos, pos + 1)
    ensures Agrees(after, |after|, events, goal)
  {
    hide Filter, Safe, Complete;
    AgreesAfterIac(before, pos, events, goal, after);
    AgreesAtNextIac(after, pos, events, goal);
  }

  lemma AgreesAtStart(bytes: string, events: seq<Event>)
    requires Safe(bytes)
    ensures Agrees(bytes, 0, events, Output(Filter(bytes).data, events + Filter(bytes).events))
  {
    assert bytes[0..] == bytes;
  }

  lemma AgreesAtEnd(bytes: string, pos: nat, events: seq<Event>, goal: Output)
    requires Agrees(bytes, pos, events, goal)
    requires pos == |bytes| || bytes[pos..] == [IAC]
    ensures goal == Output(bytes, events)
  {
    FilterEnd(bytes[pos..]);
    assert bytes == bytes[..pos] + bytes[pos..];
  }

  /** The subnegotiation handler meets no reversed range. */
  lemma AgreesAtSub(bytes: string, pos: nat, events: seq<Event>, goal: Output)
    requires Agrees(bytes, pos, events, goal)
    requires pos + 1 < |bytes| && bytes[pos] == IAC && bytes[pos + 1] == SB
    ensures Head(bytes[pos..]) == SubHead(bytes[pos + 2..]) != Undefined
  {
    hide Filter, Complete;
    StepHead(bytes[pos..]);
    assert bytes[pos..][2..] == bytes[pos + 2..];
  }

  /** A whole subnegotiation is erased. */
  lemma AgreesAfterSub(before: string, pos: nat, events: seq<Event>, goal: Output,
                       t: Token, after: string, fired: seq<Event>)
    requires Agrees(before, pos, events, goal)
    requires pos + 1 < |before| && before[pos] == IAC && before[pos + 1] == SB
    requires t == SubHead(before[pos + 2..]) && t.Sub?
    requires pos + 5 + |t.params| <= |before|
    requires after == Cut(before, pos, pos + 5 + |t.params|)
    requires fired == events + [SubNeg(t.kind, t.params)]
    ensures Agrees(after, pos, fired, goal)
  {
    AgreesAtSub(before, pos, events, goal);
    hide Agrees, SubHead, Head;
    AgreesAfterErase(before, pos, events, goal, after, fired, t);
  }

  /** The state after one pass of the loop over the command at `n`: buffer, position, events. */
  function AfterCommand(b: string, n: nat): (string, nat, seq<Event>)
    requires n + 1 < |b|
  {
    var c, t := b[n + 1], SubHead(b[n + 2..]);
    if c == IAC then
      (Cut(b, n, n + 2), n, [])
    else if IsNegotiation(c) && n + 2 < |b| then
      (Cut(b, n, n + 3), n, [Telopt(c, b[n + 2])])
    else if c == SB && t.Sub? then
      (Cut(b, n, n + 5 + |t.params|), n, [SubNeg(t.kind, t.params)])
    else
      (Cut(b, n, n + 1), if IsNegotiation(c) then n + 1 else n, [])
  }

  lemma AgreesAfterCommand(b: string, n: nat, events: seq<Event>, goal: Output)
    requires Agrees(b, n, events, goal) && n + 1 < |b| && b[n] == IAC
    ensures var after := AfterCommand(b, n); Agrees(after.0, after.1, events + after.2, goal)
  {
    hide Agrees, SubHead;
    var after := AfterCommand(b, n);
    assert after.2 == [] ==> events + after.2 == events;
    if b[n + 1] == IAC || (IsNegotiation(b[n + 1]) && n + 2 < |b|) {
      AgreesAfterFixed(b, n, events, goal, after.0, events + after.2);
    } else if IsNegotiation(b[n + 1]) {
      AgreesAfterCut(b, n, events, goal, after.0);
    } else {
      if b[n + 1] == SB {
        AgreesAtSub(b, n, events, goal);
      }
      if b[n + 1] == SB && SubHead(b[n + 2..]).Sub? {
        AgreesAfterSub(b, n, events, goal, SubHead(b[n + 2..]), after.0, events + after.2);
      } else {
        AgreesAfterIac(b, n, events, goal, after.0);
      }
    }
  }

  /** One call of the system's `recv`: some bytes, the peer's close, a retryable error, or an error. */
  datatype Recv = Chunk(bytes: string) | Closed | Again | Failed

  /** The results of `recv` that one `read_to_buffer` consumes. */
  datatype Reads = Reads(chunks: seq<string>, rest: seq<Recv>, failed: bool)

  function TakeReads(incoming: seq<Recv>, nonBlocking: bool): (r: Reads)
    ensures |r.rest| <= |incoming|
  {
    if incoming == [] then Reads([], [], false)
    else match incoming[0] {
      case Chunk(b) =>
        if !nonBlocking then Reads([b], incoming[1..], false)
        else
          var r := TakeReads(incoming[1..], nonBlocking);
          Reads([b] + r.chunks, r.rest, r.failed)
      case e => Reads([], incoming[1..], e.Failed?)
    }
  }

  function Chunks(cs: seq<string>): seq<Recv> {
    if cs == [] then [] else [Chunk(cs[0])] + Chunks(cs[1..])
  }

  /** A non-blocking socket reads all that is there, up to and with the first answer that is no data. */
  lemma {:induction false} TakesAll(cs: seq<string>, after: seq<Recv>)
    requires after != [] ==> !after[0].Chunk?
    ensures TakeReads(Chunks(cs) + after, true)
         == Reads(cs, if after == [] then [] else after[1..], after != [] && after[0] == Failed)
  {
    if cs == [] {
      assert Chunks(cs) + after == after;
    } else {
      TakesAll(cs[1..], after);
      TakeChunk(cs[0], Chunks(cs[1..]) + after);
      assert Chunks(cs) + after == [Chunk(cs[0])] + (Chunks(cs[1..]) + after);
      hide Chunks, TakeReads;
      assert [cs[0]] + cs[1..] == cs;
    }
  }

  lemma TakeChunk(b: string, later: seq<Recv>)
    ensures var r := TakeReads(later, true);
      TakeReads([Chunk(b)] + later, true) == Reads([b] + r.chunks, r.rest, r.failed)
  {
    assert ([Chunk(b)] + later)[1..] == later;
  }

  /** A blocking one takes one answer. */
  lemma TakesOne(first: Recv, later: seq<Recv>)
    ensures TakeReads([first] + later, false)
         == Reads(if first.Chunk? then [first.bytes] else [], later, first == Failed)
  {
  }

  /** `done` and what `incoming` still yields make up `all`, on a non-blocking socket. */
  ghost predicate Pending(all: Reads, done: seq<string>, incoming: seq<Recv>) {
    var r := TakeReads(incoming, true);
    all.chunks == done + r.chunks && all.rest == r.rest && all.failed == r.failed
  }

  lemma PendingStart(incoming: seq<Recv>, nonBlocking: bool)
    requires incoming != [] && incoming[0].Chunk?
    ensures var all := TakeReads(incoming, nonBlocking);
      if nonBlocking then Pending(all, [incoming[0].bytes], incoming[1..])
      else all == Reads([incoming[0].bytes], incoming[1..], false)
  {
  }

  lemma PendingStep(all: Reads, done: seq<string>, incoming: seq<Recv>)
    requires Pending(all, done, incoming)
    ensures if incoming != [] && incoming[0].Chunk? then
        && incoming[0].bytes in all.chunks
        && Pending(all, done + [incoming[0].bytes], incoming[1..])
      else
        all == Reads(done, if incoming == [] then [] else incoming[1..], incoming != [] && incoming[0].Failed?)
  {
    var r := TakeReads(incoming, true);
    if incoming != [] && incoming[0].Chunk? {
      var c := incoming[0].bytes;
      var next := TakeReads(incoming[1..], true);
      assert r.chunks == [c] + next.chunks;
      assert all.chunks == (done + [c]) + next.chunks;
    }
  }

  function FilterAll(chunks: seq<string>): Output {
    if chunks == [] then Output("", []) else Join(Filter(chunks[0]), FilterAll(chunks[1..]))
  }

  function Concat(chunks: seq<string>): string {
    if chunks == [] then "" else chunks[0] + Concat(chunks[1..])
  }

  class TelnetSocket {
    var inBuffer: string        // buffered_socket::inBuffer_
    var sent: string            // bytes handed to socket::send
    var events: seq<Event>      // calls of on_telopt and on_sub_neg, in order
    var valid: bool
    var nonBlocking: bool
    var willReads: nat          // calls of notify_will_read
    var didReads: nat           // calls of notify_did_read
    var incoming: seq<Recv>     // what the system's recv will answer; nothing more is "try again"

    constructor (nonBlocking: bool, incoming: seq<Recv>)
      ensures inBuffer == "" && sent == "" && events == [] && willReads == didReads == 0
      ensures valid && this.nonBlocking == nonBlocking && this.incoming == incoming
    {
      inBuffer, sent, events, willReads, didReads := "", "", [], 0, 0;
      valid, this.nonBlocking, this.incoming := true, nonBlocking, incoming;
    }

    /** `it` points behind an erased IAC, at a negotiation command. */
    method HandleTelopt(s: DataBuffer, it: nat) returns (pos: nat)
      requires it <= |s.bytes|
      modifies s, this`events
      ensures it + 1 < |old(s.bytes)| ==>
        && pos == it
        && s.bytes == Cut(old(s.bytes), it, it + 2)
        && events == old(events) + [Telopt(old(s.bytes)[it], old(s.bytes)[it + 1])]
      ensures it + 1 >= |old(s.bytes)| ==>
        && pos == |s.bytes|
        && s.bytes == old(s.bytes)
        && events == old(events)
    {
      if it == |s.bytes| {
        return it;
      }
      pos := it + 1;
      if pos == |s.bytes| {
        return pos;
      }
      events := events + [Telopt(s.bytes[it], s.bytes[pos])];
      pos := s.Erase(it, pos + 1);
    }

    /** `it` points behind an erased IAC, at SB. */
    method HandleSubNeg(s: DataBuffer, it: nat) returns (pos: nat)
      requires it <= |s.bytes|
      requires it < |s.bytes| ==> SubHead(s.bytes[it + 1..]) != Undefined
      modifies s, this`events
      ensures pos == it <= |s.bytes|
      ensures it == |old(s.bytes)| ==> s.bytes == old(s.bytes) && events == old(events)
      ensures it < |old(s.bytes)| ==>
        var t := SubHead(old(s.bytes)[it + 1..]);
        if t.Sub? then
          && s.bytes == Cut(old(s.bytes), it, it + 4 + |t.params|)
          && events == old(events) + [SubNeg(t.kind, t.params)]
        else
          s.bytes == old(s.bytes) && events == old(events)
    {
      if it == |s.bytes| || it + 1 == |s.bytes| {
        return it;
      }
      var kind := s.bytes[it + 1];
      pos := IndexFrom(s.bytes, IAC, it + 1);
      if pos == |s.bytes| || s.bytes[pos] != IAC {
        return it;
      }
      if pos + 1 == |s.bytes| || s.bytes[pos + 1] != SE || it + 2 == |s.bytes| {
        return it;
      }
      var buf := s.bytes[it + 2..pos];
      assert s.bytes[it + 1..][1..pos - (it + 1)] == buf;
      events := events + [SubNeg(kind, buf)];
      pos := s.Erase(it, pos + 2);
    }

    /** The filter in place. */
    method OnRecv(s: DataBuffer)
      requires Safe(s.bytes)
      modifies s, this`events
      ensures s.bytes == Filter(old(s.bytes)).data
      ensures events == old(events) + Filter(old(s.bytes)).events
    {
      hide Agrees, Filter, Safe, SubHead, Head, IndexOf, IndexFrom, IsNegotiation, Cut;
      ghost var goal := Output(Filter(s.bytes).data, events + Filter(s.bytes).events);
      var pos := IndexOf(s.bytes, IAC);
      AgreesAtStart(s.bytes, events);
      AgreesAtNextIac(s.bytes, 0, events, goal);
      assert IndexFrom(s.bytes, IAC, 0) == pos by { assert s.bytes[0..] == s.bytes; }
      while pos != |s.bytes| && pos + 1 != |s.bytes|
        invariant 0 <= pos <= |s.bytes|
        invariant pos < |s.bytes| ==> s.bytes[pos] == IAC
        invariant Agrees(s.bytes, pos, events, goal)
        decreases |s.bytes| - pos
      {
        ghost var before, fired := s.bytes, events;
        var next := s.Erase(pos, pos + 1);
        CutOne(before, next);
        if s.bytes[next] == IAC {
          CutCut(before, next, 1);
          pos := s.Erase(next, next + 1);
        } else if IsNegotiation(s.bytes[next]) {
          if next + 2 < |before| {
            CutCut(before, next, 2);
          }
          pos := HandleTelopt(s, next);
        } else if s.bytes[next] == SB {
          AgreesAtSub(before, next, fired, goal);
          ghost var t := SubHead(before[next + 2..]);
          if t.Sub? {
            CutCut(before, next, 4 + |t.params|);
          }
          pos := HandleSubNeg(s, next);
        } else {
          pos := next;
        }
        AgreesAfterCommand(before, next, fired, goal);
        assert (s.bytes, pos) == (AfterCommand(before, next).0, AfterCommand(before, next).1);
        assert events == fired + AfterCommand(before, next).2;
        AgreesAtNextIac(s.bytes, pos, events, goal);
        pos := IndexFrom(s.bytes, IAC, pos);
      }
      AgreesAtEnd(s.bytes, pos, events, goal);
    }

    /** socket::recv followed by the error cases of buffered_socket::read_chunk. */
    method ReadChunk(chunk: DataBuffer) returns (got: bool, threw: bool)
      requires valid && incoming != [] && incoming[0].Chunk? ==> Safe(incoming[0].bytes)
      modifies this`incoming, this`events, chunk
      ensures got <==> valid && old(incoming) != [] && old(incoming)[0].Chunk?
      ensures threw <==> valid && old(incoming) != [] && old(incoming)[0].Failed?
      ensures incoming == if valid && old(incoming) != [] then old(incoming)[1..] else old(incoming)
      ensures got ==>
        && chunk.bytes == Filter(old(incoming)[0].bytes).data
        && events == old(events) + Filter(old(incoming)[0].bytes).events
      ensures !got ==> events == old(events)
    {
      got, threw := false, false;
      if !valid {
        return;
      }
      chunk.bytes := "";
      if incoming == [] {
        return;
      }
      var status := incoming[0];
      incoming := incoming[1..];
      if status.Chunk? {
        chunk.bytes := status.bytes;
        OnRecv(chunk);
        got := true;
      } else {
        threw := status.Failed?;
      }
    }

    /** buffered_socket::read_to_buffer. */
    method ReadToBuffer() returns (ok: bool)
      requires forall c :: c in TakeReads(incoming, nonBlocking).chunks ==> Safe(c)
      modifies this`inBuffer, this`events, this`incoming, this`willReads, this`didReads
      ensures willReads == old(willReads) + 1
      ensures !valid ==> ok && inBuffer == old(inBuffer) && events == old(events) && didReads == old(didReads)
      ensures valid ==>
        var r := TakeReads(old(incoming), nonBlocking);
        && ok == !r.failed
        && incoming == r.rest
        && Output(inBuffer, events) == Join(old(Output(inBuffer, events)), FilterAll(r.chunks))
        && didReads == old(didReads) + (if r.chunks != [] && !r.failed then 1 else 0)
    {
      hide Filter, Safe, FilterAll, Join, Pending;
      ghost var base := Output(inBuffer, events);
      JoinEmpty(base);
      var chunk := new DataBuffer("");
      willReads := willReads + 1;
      ghost var all := TakeReads(incoming, nonBlocking);
      var got, threw := ReadChunk(chunk);
      if !got {
        return !threw;
      }
      ghost var done := [old(incoming)[0].bytes];
      PendingStart(old(incoming), nonBlocking);
      inBuffer := inBuffer + chunk.bytes;
      AppendChunk(base, base, [], done[0], Output(inBuffer, events));
      assert [] + done == done;
      hide TakeReads;
      while nonBlocking && got
        invariant done != [] && willReads == old(willReads) + 1 && didReads == old(didReads)
        invariant got && nonBlocking ==> Pending(all, done, incoming)
        invariant !nonBlocking || !got ==> all == Reads(done, incoming, threw)
        invariant Output(inBuffer, events) == Join(base, FilterAll(done))
        decreases got, |incoming|
      {
        ghost var before, was := incoming, Output(inBuffer, events);
        PendingStep(all, done, before);
        got, threw := ReadChunk(chunk);
        if got {
          inBuffer := inBuffer + chunk.bytes;
          AppendChunk(was, base, done, before[0].bytes, Output(inBuffer, events));
          done := done + [before[0].bytes];
        }
      }
      if threw {
        return false;
      }
      didReads := didReads + 1;
      return true;
    }

    /** send_telopt: the assertion on `action` is the caller's duty. */
    method SendTelopt(action: char, option: char)
      requires IsNegotiation(action)
      modifies this`sent
      ensures sent == old(sent) + Wire(Negotiation(action, option)) == old(sent) + [255 as char, action, option]
    {
      sent := sent + [IAC, action, option];
    }
  }

  lemma JoinEmpty(a: Output)
    ensures FilterAll([]) == Output("", [])
    ensures Join(a, FilterAll([])) == a == Join(FilterAll([]), a)
  {
    assert a.data + "" == a.data == "" + a.data;
    assert a.events + [] == a.events == [] + a.events;
  }

  lemma AppendChunk(before: Output, base: Output, done: seq<string>, c: string, after: Output)
    requires before == Join(base, FilterAll(done))
    requires after.data == before.data + Filter(c).data
    requires after.events == before.events + Filter(c).events
    ensures after == Join(base, FilterAll(done + [c]))
  {
    hide Filter, FilterAll;
    FilterAllSnoc(done, c);
    JoinIsAssociative(base, FilterAll(done), Filter(c));
  }

  lemma FilterAllOne(c: string)
    ensures FilterAll([c]) == Filter(c)
  {
    hide Filter;
    JoinEmpty(Filter(c));
    assert FilterAll([c]) == Join(Filter(c), FilterAll([]));
  }

  lemma {:induction false} FilterAllSnoc(cs: seq<string>, c: string)
    ensures FilterAll(cs + [c]) == Join(FilterAll(cs), Filter(c))
  {
    hide Filter;
    if cs == [] {
      assert cs + [c] == [c];
      FilterAllOne(c);
      JoinEmpty(Filter(c));
    } else {
      assert (cs + [c])[1..] == cs[1..] + [c];
      FilterAllSnoc(cs[1..], c);
      JoinIsAssociative(Filter(cs[0]), FilterAll(cs[1..]), Filter(c));
    }
  }

  // ---------- splitting the stream into chunks ----------

  /** A token read before the end of `a` is the same whatever follows. */
  lemma HeadStable(a: string, b: string)
    requires a != "" && !HitsEnd(Head(a))
    ensures Head(a + b) == Head(a)
    ensures Rest(a + b) == Rest(a) + b
  {
    if |a| > 1 && a[0] == IAC && a[1] == SB {
      SubStable(a[2..], b);
      assert (a + b)[2..] == a[2..] + b;
    }
  }

  lemma SubStable(t: string, b: string)
    requires !SubHead(t).OpenSub?
    ensures SubHead(t + b) == SubHead(t)
  {
    var p := IndexOf(t, IAC);
    IndexOfIs(t + b, IAC, p);
    assert p > 0 ==> (t + b)[1..p] == t[1..p];
  }

  lemma {:induction false} SplitFilter(a: string, b: string)
    requires Complete(a)
    ensures Filter(a + b) == Join(Filter(a), Filter(b))
    ensures Safe(a + b) <==> Safe(a) && Safe(b)
    ensures Complete(a + b) <==> Complete(b)
    decreases |a|
  {
    hide Filter, Safe, Complete;
    if a == "" {
      assert a + b == b;
      FilterEnd(a);
      assert Join(Output("", []), Filter(b)) == Filter(b);
    } else {
      StepHead(a);
      HeadStable(a, b);
      StepHead(a + b);
      assert |Rest(a)| < |a|;
      SplitFilter(Rest(a), b);
      JoinIsAssociative(Output(Kept(Head(a)), Fired(Head(a))), Filter(Rest(a)), Filter(b));
    }
  }

  lemma JoinIsAssociative(a: Output, b: Output, c: Output)
    ensures Join(a, Join(b, c)) == Join(Join(a, b), c)
  {
    assert a.data + (b.data + c.data) == (a.data + b.data) + c.data;
    assert a.events + (b.events + c.events) == (a.events + b.events) + c.events;
  }

  /** Reading a stream chunk by chunk leaves the filter of the whole stream, as long as no
      chunk but the last ends inside a command. */
  lemma {:induction false} ChunkedStream(chunks: seq<string>)
    requires forall i :: 0 <= i < |chunks| - 1 ==> Complete(chunks[i])
    ensures FilterAll(chunks) == Filter(Concat(chunks))
    ensures Safe(Concat(chunks)) <==> forall i :: 0 <= i < |chunks| ==> Safe(chunks[i])
  {
    hide Filter, Safe, Complete;
    FilterEnd("");
    if |chunks| == 1 {
      assert Concat(chunks) == chunks[0];
      FilterAllOne(chunks[0]);
      assert chunks == [chunks[0]];
    } else if |chunks| > 1 {
      ChunkedStream(chunks[1..]);
      SplitFilter(chunks[0], Concat(chunks[1..]));
      assert forall i :: 0 < i < |chunks| ==> chunks[i] == chunks[1..][i - 1];
    }
  }

  /** Filtering `a` and then whatever comes next is the same as filtering both at once. */
  ghost predicate Splits(a: string) {
    forall b :: Safe(a + b) && Safe(b) ==> Filter(a + b) == Join(Filter(a), Filter(b))
  }

  /** The buffers after which a stream may be cut are exactly those whose filter never runs
      into the end. */
  lemma SplitsIffComplete(a: string)
    requires Safe(a)
    ensures Splits(a) <==> Complete(a)
  {
    if Complete(a) {
      forall b ensures Filter(a + b) == Join(Filter(a), Filter(b)) {
        SplitFilter(a, b);
      }
    } else {
      var b := Continuation(a);
    }
  }

  lemma JoinCancels(k: Output, x: Output, y: Output)
    ensures Join(k, x) == Join(k, y) ==> x == y
  {
    if Join(k, x) == Join(k, y) {
      assert x.data == (k.data + x.data)[|k.data|..] == (k.data + y.data)[|k.data|..] == y.data;
      assert x.events == (k.events + x.events)[|k.events|..] == (k.events + y.events)[|k.events|..] == y.events;
    }
  }

  /** What to send next so that the cut behind an incomplete `a` shows. */
  lemma {:induction false} Continuation(a: string) returns (b: string)
    requires Safe(a) && !Complete(a)
    ensures Safe(a + b) && Safe(b) && Filter(a + b) != Join(Filter(a), Filter(b))
    decreases |a|
  {
    assert a != "";
    hide Filter, Safe, Complete;
    var t := Head(a);
    StepHead(a);
    FilterEnd("");
    if !HitsEnd(t) {
      b := Continuation(Rest(a));
      HeadStable(a, b);
      StepHead(a + b);
      JoinIsAssociative(Output(Kept(t), Fired(t)), Filter(Rest(a)), Filter(b));
      JoinCancels(Output(Kept(t), Fired(t)), Filter(Rest(a) + b), Join(Filter(Rest(a)), Filter(b)));
    } else if t.LastIac? {
      b := [IAC];
      assert Head(a + b) == Doubled && Rest(a + b) == "";
      StepHead(a + b);
      FilterEnd(b);
    } else if t.CutNegotiation? {
      b := [SE];
      assert Head(a + b).Negotiation? && Rest(a + b) == "" && Rest(a) == "";
      StepHead(a + b);
      SkipOne(b);
      assert |Filter(a + b).events| == 1 && |Filter(a).events + Filter(b).events| == 0;
    } else {
      b := OpenContinuation(a);
    }
  }

  lemma OpenContinuation(a: string) returns (b: string)
    requires a != "" && Head(a).OpenSub?
    ensures Safe(a + b) && Safe(b) && Filter(a + b) != Join(Filter(a), Filter(b))
  {
    hide Filter, Safe, Complete;
    var t := a[2..];
    var p := IndexOf(t, IAC);
    StepHead(a);
    SkipData(t, p);
    if p == |t| {
      b := CloseSub(a, t);
    } else {
      b := [IAC];
      assert t[p..] == [IAC];
      FilterEnd([IAC]);
      BrokenByIac(a, t, p);
    }
  }

  /** No IAC follows yet: finish the subnegotiation. */
  lemma CloseSub(a: string, t: string) returns (b: string)
    requires a == [IAC, SB] + t && IAC !in t
    ensures Safe(a + b) && Safe(b) && Filter(a + b) != Join(Filter(a), Filter(b))
  {
    b := (if t == "" then [SE] else "") + [IAC, SE];
    HeadsClosed(a, t, b);
    FiredClosed(a, t, b);
    hide Filter;
    assert |Filter(a + b).events| == 1 && |Filter(a).events + Filter(b).events| == 0;
  }

  lemma FiredClosed(a: string, t: string, b: string)
    requires a != "" && Head(a) == OpenSub && Rest(a) == t && IAC !in t
    requires b == [SE, IAC, SE] || b == [IAC, SE]
    requires Head(a + b).Sub? && Rest(a + b) == ""
    ensures |Filter(a + b).events| == 1 && Filter(a).events == [] && Filter(b).events == []
    ensures Safe(a + b) && Safe(b)
  {
    hide Filter, Safe, Complete, Head, Rest;
    FilterEnd("");
    StepHead(a + b);
    StepHead(a);
    SkipData(t, |t|);
    assert t[|t|..] == "";
    BareSe();
    if |b| == 3 {
      SkipOne(b);
      assert b[1..] == [IAC, SE];
    }
  }

  lemma HeadsClosed(a: string, t: string, b: string)
    requires a == [IAC, SB] + t && IAC !in t
    requires b == (if t == "" then [SE] else "") + [IAC, SE]
    ensures Head(a) == OpenSub && Rest(a) == t
    ensures Head(a + b).Sub? && Rest(a + b) == ""
  {
    var whole := t + b;
    IndexOfIs(t, IAC, |t|);
    BodyClosed(whole);
    assert a[2..] == t;
    hide IndexOf;
    assert SubHead(t) == OpenSub;
    assert (a + b)[2..] == whole;
    hide SubHead;
    assert Width(SubHead(whole)) == |a + b|;
  }

  lemma BodyClosed(whole: string)
    requires |whole| > 2 && whole[|whole| - 2] == IAC && whole[|whole| - 1] == SE
    requires forall i :: 0 <= i < |whole| - 2 ==> whole[i] != IAC
    ensures SubHead(whole) == Sub(whole[0], whole[1..|whole| - 2])
  {
    IndexOfIs(whole, IAC, |whole| - 2);
  }

  /** The buffer ends in the IAC that might end the subnegotiation: another IAC breaks it. */
  lemma BrokenByIac(a: string, t: string, p: nat)
    requires a == [IAC, SB] + t && p + 1 == |t| && t[p] == IAC && IAC !in t[..p]
    ensures Safe(a + [IAC]) && Safe([IAC])
    ensures Filter(a + [IAC]) != Join(Filter(a), Filter([IAC]))
  {
    var whole := t + [IAC];
    HeadsBrokenByIac(a, t, p);
    hide Filter, Safe, Complete, Head, Rest;
    FilterEnd("");
    FilterEnd([IAC]);
    StepHead(a + [IAC]);
    StepHead(a);
    SkipData(whole, p);
    SkipData(t, p);
    assert whole[p..] == [IAC, IAC] && t[p..] == [IAC];
    StepHead([IAC, IAC]);
    assert |Filter(a + [IAC]).data| < |Filter(a).data|;
  }

  lemma HeadsBrokenByIac(a: string, t: string, p: nat)
    requires a == [IAC, SB] + t && p + 1 == |t| && t[p] == IAC && IAC !in t[..p]
    ensures Head(a) == OpenSub && Rest(a) == t
    ensures Head(a + [IAC]) == BadSub && Rest(a + [IAC]) == t + [IAC]
    ensures Head([IAC, IAC]) == Doubled && Rest([IAC, IAC]) == ""
  {
    IndexOfIs(t, IAC, p);
    IndexOfIs(t + [IAC], IAC, p);
    assert a[2..] == t;
    assert (a + [IAC])[2..] == t + [IAC];
  }

  lemma BareSe()
    ensures Filter([IAC, SE]) == Output([SE], []) && Safe([IAC, SE]) && Complete([IAC, SE])
  {
    var s := [IAC, SE];
    assert Head(s) == Unlisted(SE) && Rest(s) == "";
  }

  // ---------- commands written by the library are read back ----------

  /** Data bytes, what `send_telopt` sends, and well-formed subnegotiations. */
  predicate Sendable(t: Token) {
    match t
    case Data(b) => b != IAC
    case Negotiation(a, _) => IsNegotiation(a)
    case Sub(k, p) => k != IAC && IAC !in p
    case _ => false
  }

  lemma HeadOfWire(t: Token, rest: string)
    requires Sendable(t)
    ensures Head(Wire(t) + rest) == t
    ensures Rest(Wire(t) + rest) == rest
  {
    if t.Sub? {
      var body := [t.kind] + t.params + [IAC, SE] + rest;
      assert (Wire(t) + rest)[2..] == body;
      IndexOfIs(body, IAC, 1 + |t.params|);
      assert body[1..1 + |t.params|] == t.params;
    }
  }

  lemma {:induction false} RoundTrip(ts: seq<Token>)
    requires forall t :: t in ts ==> Sendable(t)
    ensures Tokens(WireOf(ts)) == ts
    ensures Filter(WireOf(ts)) == Output(DataOf(ts), EventsOf(ts))
    ensures Safe(WireOf(ts)) && Complete(WireOf(ts))
  {
    if ts != [] {
      HeadOfWire(ts[0], WireOf(ts[1..]));
      RoundTrip(ts[1..]);
    }
  }

  // ---------- the commands by their codes ----------

  /** The bytes of `w` are read alone: they leave `data`, fire `events`, and then `r` is read.
      The bytes are given by their codes, so that these laws fix which bytes are commands. */
  ghost predicate ReadsAs(w: string, data: string, events: seq<Event>, r: string) {
    && Filter(w + r) == Join(Output(data, events), Filter(r))
    && (Safe(w + r) <==> Safe(r))
    && (Complete(w + r) <==> Complete(r))
  }

  lemma ReadsHead(w: string, t: Token, r: string)
    requires w != "" && Head(w + r) == t && |w| == Width(t) && t != Undefined && !HitsEnd(t)
    ensures ReadsAs(w, Kept(t), Fired(t), r)
  {
    StepHead(w + r);
    assert Rest(w + r) == r;
    hide Filter, Safe, Complete, Head;
  }

  /** Any byte but 255 is data. */
  lemma DataByNumber(b: char, r: string)
    requires b as int != 255
    ensures ReadsAs([b], [b], [], r)
  {
    ReadsHead([b], Data(b), r);
  }

  /** 255 255 leaves nothing. */
  lemma DoubledByNumber(r: string)
    ensures ReadsAs([255 as char, 255 as char], "", [], r)
  {
    ReadsHead([255 as char, 255 as char], Doubled, r);
  }

  /** 255, a code from 251 to 254 and an option are a negotiation. */
  lemma NegotiationByNumber(c: char, o: char, r: string)
    requires 251 <= c as int <= 254
    ensures ReadsAs([255 as char, c, o], "", [Telopt(c, o)], r)
  {
    ReadsHead([255 as char, c, o], Negotiation(c, o), r);
  }

  /** 255 250, a type, parameters without 255, and 255 240 are a subnegotiation. */
  lemma SubByNumber(k: char, p: string, r: string)
    requires k as int != 255 && forall i :: 0 <= i < |p| ==> p[i] as int != 255
    ensures ReadsAs([255 as char, 250 as char, k] + p + [255 as char, 240 as char], "", [SubNeg(k, p)], r)
  {
    var t := Sub(k, p);
    HeadOfWire(t, r);
    assert Wire(t) == [255 as char, 250 as char, k] + p + [255 as char, 240 as char];
    hide Head, Wire;
    ReadsHead(Wire(t), t, r);
  }

  /** A subnegotiation whose next 255 is followed by anything but 240 loses its first byte; what is
      behind it is read again. */
  lemma BrokenByNumber(p: string, c: char, r: string)
    requires c as int != 240 && forall i :: 0 <= i < |p| ==> p[i] as int != 255
    ensures ReadsAs([255 as char, 250 as char], [250 as char], [], p + [255 as char, c] + r)
  {
    var w, t := [255 as char, 250 as char], p + [255 as char, c] + r;
    IndexOfIs(t, IAC, |p|);
    assert (w + t)[2..] == t;
    assert Head(w + t) == BadSub;
    hide Head;
    ReadsHead(w, BadSub, t);
  }

  /** 255 and any code below 250 leave that code. */
  lemma UnlistedByNumber(c: char, r: string)
    requires c as int < 250
    ensures ReadsAs([255 as char, c], [c], [], r)
  {
    ReadsHead([255 as char, c], Unlisted(c), r);
  }

  /** The filter runs into the end of a single 255, of a negotiation without its option, and of a
      subnegotiation without 255 and another byte; only the first byte of a command is lost. */
  lemma CutByNumber(c: char)
    requires 251 <= c as int <= 254
    ensures Filter("") == Output("", []) && Complete("") && Safe("")
    ensures Filter([255 as char]) == Output([255 as char], []) && !Complete([255 as char])
    ensures Filter([255 as char, c]) == Output([c], []) && !Complete([255 as char, c]) && Safe([255 as char, c])
  {
    var s := [255 as char, c];
    assert Head(s) == CutNegotiation(c) && Rest(s) == "";
    StepHead(s);
    FilterEnd("");
    FilterEnd([255 as char]);
  }

  lemma OpenByNumber(p: string, last: string)
    requires (forall i :: 0 <= i < |p| ==> p[i] as int != 255) && (last == "" || last == [255 as char])
    ensures var s := [255 as char, 250 as char] + (p + last);
      Filter(s) == Output([250 as char] + (p + last), []) && !Complete(s) && Safe(s)
  {
    var t := p + last;
    var s := [255 as char, 250 as char] + t;
    IndexOfIs(t, IAC, |p|);
    assert s[2..] == t;
    assert Head(s) == OpenSub && Rest(s) == t;
    hide Filter, Safe, Complete, Head, Rest;
    StepHead(s);
    SkipData(t, |p|);
    assert t[|p|..] == last && t[..|p|] == p;
    FilterEnd(last);
  }

  /** The one buffer start whose filter is undefined behaviour. */
  lemma UndefinedByNumber(r: string)
    ensures !Safe([255 as char, 250 as char, 255 as char, 240 as char] + r)
  {
    var s := [255 as char, 250 as char, 255 as char, 240 as char] + r;
    assert s[2..][0] == IAC;
    IndexOfIs(s[2..], IAC, 0);
  }

  // ---------- what the standard's senders mean ----------

  /** What a sender writes for data or parameters: an IAC is doubled (RFC 854). */
  function Escape(d: string): string {
    if d == "" then "" else (if d[0] == IAC then [IAC, IAC] else [d[0]]) + Escape(d[1..])
  }

  function WithoutIac(d: string): (r: string)
    ensures |r| <= |d| && (|r| == |d| <==> IAC !in d)
  {
    if d == "" then "" else
      assert d == [d[0]] + d[1..];
      (if d[0] == IAC then "" else [d[0]]) + WithoutIac(d[1..])
  }

  /** The filter undoes no escape: it drops both bytes. */
  lemma {:induction false} EscapeIsDropped(d: string)
    ensures Filter(Escape(d)) == Output(WithoutIac(d), []) && Safe(Escape(d)) && Complete(Escape(d))
  {
    hide Filter, Safe, Complete;
    var e := Escape(d);
    if d == "" {
      FilterEnd("");
    } else {
      EscapeIsDropped(d[1..]);
      StepHead(e);
      assert Head(e) == if d[0] == IAC then Doubled else Data(d[0]);
      assert Rest(e) == Escape(d[1..]);
    }
  }

  /** Escaped data arrives exactly if there was nothing to escape. */
  lemma EscapedIff(d: string)
    ensures Filter(Escape(d)).data == d <==> IAC !in d
  {
    EscapeIsDropped(d);
    hide Filter, Escape;
    if IAC !in d {
      NoIacToDrop(d);
    }
  }

  lemma {:induction false} NoIacToDrop(d: string)
    requires IAC !in d
    ensures WithoutIac(d) == d
  {
    if d != "" {
      NoIacToDrop(d[1..]);
    }
  }

  /** The data bytes that the sender of a token means. */
  function Meant(t: Token): string {
    match t
    case Data(b) => [b]
    case Doubled => [IAC]
    case _ => ""
  }

  function MeantOf(ts: seq<Token>): string {
    if ts == [] then "" else Meant(ts[0]) + MeantOf(ts[1..])
  }

  /** A token whose kept bytes are not those that its sender means. */
  predicate Misread(t: Token) {
    t.Doubled? || t.Unlisted? || t.BadSub?
  }

  /** Of the tokens of a complete buffer, these and only these leave other data than was meant. */
  lemma MeantIff(s: string)
    requires Complete(s)
    ensures var ts := Tokens(s);
      Filter(s).data == MeantOf(ts) <==> forall i :: 0 <= i < |ts| ==> !Misread(ts[i])
  {
    var ts := Tokens(s);
    FilterIsTokens(s);
    NoIacLeft(s);
    CompleteTokens(s);
    hide Filter, Tokens, Complete;
    MeantOrKept(ts);
  }

  /** What the filter makes of a complete buffer holds no IAC. */
  lemma {:induction false} NoIacLeft(s: string)
    requires Complete(s)
    ensures IAC !in Filter(s).data
  {
    if s != "" {
      StepHead(s);
      NoIacLeft(Rest(s));
      assert IAC !in Kept(Head(s));
      hide Filter, Kept, Head;
    }
  }

  lemma {:induction false} CompleteTokens(s: string)
    requires Complete(s)
    ensures forall i :: 0 <= i < |Tokens(s)| ==> !HitsEnd(Tokens(s)[i])
  {
    if s != "" {
      CompleteTokens(Rest(s));
      assert Tokens(s) == [Head(s)] + Tokens(Rest(s));
      hide Tokens, Head, Rest;
    }
  }

  lemma {:induction false} MeantOrKept(ts: seq<Token>)
    requires forall i :: 0 <= i < |ts| ==> !HitsEnd(ts[i])
    ensures (forall i :: 0 <= i < |ts| ==> !Misread(ts[i])) ==> DataOf(ts) == MeantOf(ts)
    ensures (exists i :: 0 <= i < |ts| && ts[i].Doubled?) ==> IAC in MeantOf(ts)
    ensures (forall i :: 0 <= i < |ts| ==> !ts[i].Doubled?) ==>
      |MeantOf(ts)| <= |DataOf(ts)|
      && ((exists i :: 0 <= i < |ts| && Misread(ts[i])) ==> |MeantOf(ts)| < |DataOf(ts)|)
  {
    if ts != [] {
      assert forall i :: 1 <= i < |ts| ==> ts[i] == ts[1..][i - 1];
      assert forall i :: 0 <= i < |ts| - 1 ==> ts[1..][i] == ts[i + 1];
      MeantOrKept(ts[1..]);
      hide MeantOf, DataOf;
      MeantStep(ts);
    }
  }

  lemma MeantStep(ts: seq<Token>)
    requires ts != []
    ensures MeantOf(ts) == Meant(ts[0]) + MeantOf(ts[1..])
    ensures DataOf(ts) == Kept(ts[0]) + DataOf(ts[1..])
  {
  }

  /** The smallest buffers that are misread. */
  lemma MisreadWitnesses()
    ensures Complete([IAC, IAC]) && Filter([IAC, IAC]).data == "" && MeantOf(Tokens([IAC, IAC])) == [IAC]
    ensures var s := [IAC, 241 as char];
      Complete(s) && Filter(s).data == [241 as char] && MeantOf(Tokens(s)) == ""
  {
    var e, s := [IAC, IAC], [IAC, 241 as char];
    assert Head(e) == Doubled && Rest(e) == "" && Head(s) == Unlisted(241 as char) && Rest(s) == "";
    assert Tokens(e) == [Doubled] + Tokens("") && Tokens(s) == [Unlisted(241 as char)] + Tokens("");
  }

  /** What RFC 854 and RFC 855 let a sender write: any data byte, negotiations, subnegotiations with
      any parameters, and the other two-byte commands. */
  predicate Standard(t: Token) {
    match t
    case Data(_) => true
    case Negotiation(a, _) => IsNegotiation(a)
    case Sub(k, _) => k != IAC
    case Unlisted(c) => c != IAC && c != SB && !IsNegotiation(c)
    case _ => false
  }

  /** How the sender writes it. */
  function Written(t: Token): string {
    match t
    case Data(b) => Escape([b])
    case Sub(k, p) => [IAC, SB, k] + Escape(p) + [IAC, SE]
    case _ => Wire(t)
  }

  function WrittenOf(ts: seq<Token>): string {
    if ts == [] then "" else Written(ts[0]) + WrittenOf(ts[1..])
  }

  predicate LosesEvent(t: Token) {
    t.Sub? && IAC in t.params
  }

  predicate LosesByte(t: Token) {
    t == Data(IAC)
  }

  /** A stream of any length written by the standard is read as it was meant exactly if it holds no
      data byte 255, no parameter byte 255 and no other command. */
  lemma StandardIff(ts: seq<Token>)
    requires forall i :: 0 <= i < |ts| ==> Standard(ts[i])
    ensures Filter(WrittenOf(ts)) == Output(MeantOf(ts), EventsOf(ts))
       <==> forall i :: 0 <= i < |ts| ==> Sendable(ts[i])
    ensures Safe(WrittenOf(ts)) && Complete(WrittenOf(ts))
  {
    ReadAll(ts);
    NoIacLeft(WrittenOf(ts));
    hide Filter, Complete, Safe, MeantOf, EventsOf, WrittenOf;
    if k :| 0 <= k < |ts| && !Sendable(ts[k]) {
      assert Faulty(ts[k]);
    }
  }

  predicate Faulty(t: Token) {
    LosesEvent(t) || LosesByte(t) || t.Unlisted?
  }

  lemma {:induction false} ReadAll(ts: seq<Token>)
    requires forall i :: 0 <= i < |ts| ==> Standard(ts[i])
    ensures var f, data, events := Filter(WrittenOf(ts)), MeantOf(ts), EventsOf(ts);
      && Complete(WrittenOf(ts)) && Safe(WrittenOf(ts))
      && ((forall i :: 0 <= i < |ts| ==> Sendable(ts[i])) ==> f == Output(data, events))
      && |f.events| <= |events|
      && ((exists i :: 0 <= i < |ts| && LosesEvent(ts[i])) ==> |f.events| < |events|)
      && ((exists i :: 0 <= i < |ts| && LosesByte(ts[i])) ==> IAC in data)
      && ((forall i :: 0 <= i < |ts| ==> !LosesEvent(ts[i]) && !LosesByte(ts[i])) ==>
            |data| <= |f.data| && ((exists i :: 0 <= i < |ts| && ts[i].Unlisted?) ==> |data| < |f.data|))
  {
    hide Filter, Complete, Safe, LosesEvent, LosesByte, Sendable, Standard;
    if ts == [] {
      FilterEnd("");
    } else {
      var t, rest := ts[0], ts[1..];
      assert forall i :: 1 <= i < |ts| ==> ts[i] == rest[i - 1];
      assert forall i :: 0 <= i < |rest| ==> rest[i] == ts[i + 1];
      ReadAll(rest);
      ReadOne(t);
      SplitFilter(Written(t), WrittenOf(rest));
      StandardStep(ts);
      hide WrittenOf, MeantOf, EventsOf, Written, Meant, Fired;
    }
  }

  lemma StandardStep(ts: seq<Token>)
    requires ts != []
    ensures WrittenOf(ts) == Written(ts[0]) + WrittenOf(ts[1..])
    ensures MeantOf(ts) == Meant(ts[0]) + MeantOf(ts[1..])
    ensures EventsOf(ts) == Fired(ts[0]) + EventsOf(ts[1..])
  {
  }

  /** What the filter makes of one token of the standard. */
  lemma ReadOne(t: Token)
    requires Standard(t)
    ensures var f := Filter(Written(t));
      && Complete(Written(t)) && Safe(Written(t))
      && (Sendable(t) ==> f == Output(Meant(t), Fired(t)))
      && |f.events| + (if LosesEvent(t) then 1 else 0) == |Fired(t)|
      && (LosesByte(t) ==> Meant(t) == [IAC])
      && (!LosesEvent(t) && !LosesByte(t) ==> |f.data| == |Meant(t)| + if t.Unlisted? then 1 else 0)
  {
    hide Filter, Complete, Safe;
    match t {
      case Data(b) =>
        EscapeIsDropped([b]);
        assert [b][1..] == "";
      case Sub(k, p) =>
        if IAC in p {
          ReadBroken(k, p);
        } else {
          EscapeOfPlain(p);
          ReadSendable(t);
        }
      case Unlisted(c) =>
        StepHead(Wire(t));
        FilterEnd("");
        assert Head(Wire(t)) == t && Rest(Wire(t)) == "";
      case _ =>
        ReadSendable(t);
    }
  }

  lemma ReadSendable(t: Token)
    requires Sendable(t)
    ensures Filter(Wire(t)) == Output(Kept(t), Fired(t)) && Complete(Wire(t)) && Safe(Wire(t))
  {
    hide Filter, Complete, Safe, Wire;
    HeadOfWire(t, "");
    assert Wire(t) + "" == Wire(t);
    StepHead(Wire(t));
    FilterEnd("");
  }

  lemma {:induction false} EscapeOfPlain(p: string)
    requires IAC !in p
    ensures Escape(p) == p
  {
    if p != "" {
      EscapeOfPlain(p[1..]);
    }
  }

  /** Parameters with an IAC end up in the data, with SB in front and SE behind. */
  lemma ReadBroken(k: char, p: string)
    requires k != IAC && IAC in p
    ensures var w := Written(Sub(k, p));
      Filter(w) == Output([SB] + ([k] + (WithoutIac(p) + [SE])), []) && Complete(w) && Safe(w)
  {
    var w, tail := Written(Sub(k, p)), Escape(p) + [IAC, SE];
    HeadOfBroken(k, p);
    ReadTail(p);
    hide Filter, Complete, Safe, Head, Rest, Written, Escape, WithoutIac;
    StepHead(w);
    SkipOne([k] + tail);
    assert ([k] + tail)[1..] == tail;
  }

  lemma ReadTail(p: string)
    ensures var tail := Escape(p) + [IAC, SE];
      Filter(tail) == Output(WithoutIac(p) + [SE], []) && Complete(tail) && Safe(tail)
  {
    hide Filter, Complete, Safe, Escape, WithoutIac;
    EscapeIsDropped(p);
    SplitFilter(Escape(p), [IAC, SE]);
    BareSe();
  }

  lemma HeadOfBroken(k: char, p: string)
    requires k != IAC && IAC in p
    ensures var w := Written(Sub(k, p));
      w != "" && Head(w) == BadSub && Rest(w) == [k] + (Escape(p) + [IAC, SE])
  {
    var w, e, t := Written(Sub(k, p)), Escape(p), [k] + (Escape(p) + [IAC, SE]);
    var q := FirstEscaped(p);
    BrokenBody(k, e, q);
    hide Escape, IndexOf;
    assert w == [IAC, SB] + t && w[2..] == t;
  }

  lemma BrokenBody(k: char, e: string, q: nat)
    requires k != IAC && q + 1 < |e| && e[q] == e[q + 1] == IAC
    requires forall i :: 0 <= i < q ==> e[i] != IAC
    ensures SubHead([k] + (e + [IAC, SE])) == BadSub
  {
    var t := [k] + (e + [IAC, SE]);
    assert t[q + 1] == e[q] && t[q + 2] == e[q + 1];
    assert forall i :: 0 < i < q + 1 ==> t[i] == e[i - 1];
    IndexOfIs(t, IAC, q + 1);
  }

  lemma {:induction false} FirstEscaped(p: string) returns (q: nat)
    requires IAC in p
    ensures q + 1 < |Escape(p)| && Escape(p)[q] == Escape(p)[q + 1] == IAC
    ensures forall i :: 0 <= i < q ==> Escape(p)[i] != IAC
  {
    if p[0] == IAC {
      q := 0;
    } else {
      assert p == [p[0]] + p[1..];
      q := FirstEscaped(p[1..]);
      q := q + 1;
    }
  }

  // ---------- what is left in the buffer ----------

  lemma {:induction false} FilterIsTokens(s: string)
    ensures Filter(s) == Output(DataOf(Tokens(s)), EventsOf(Tokens(s)))
  {
    if s != "" {
      FilterIsTokens(Rest(s));
    }
  }

  /** How many bytes of a token the filter removes. */
  function Removed(t: Token): nat {
    Width(t) - |Kept(t)|
  }

  /** `a` can be read off `b` from left to right. */
  predicate Subsequence(a: string, b: string)
    decreases |b|
  {
    || a == ""
    || (b != "" && a[0] == b[0] && Subsequence(a[1..], b[1..]))
    || (b != "" && Subsequence(a, b[1..]))
  }

  /** An IAC may stand at the end only. */
  predicate IacOnlyLast(s: string) {
    forall i :: 0 <= i < |s| - 1 ==> s[i] != IAC
  }

  lemma {:induction false} OutputShape(s: string)
    ensures IacOnlyLast(Filter(s).data)
    ensures Subsequence(Filter(s).data, s)
  {
    if s != "" {
      OutputShape(Rest(s));
      StepHead(s);
      KeptIsLast(s);
      var t, rest, d := Head(s), Rest(s), Filter(Rest(s)).data;
      var k := Removed(t);
      hide Filter, Head, Kept, Removed;
      if Kept(t) != "" {
        assert s[k..][1..] == rest && s[k..][0] == Kept(t)[0];
        assert (Kept(t) + d)[1..] == d;
      } else {
        assert Kept(t) + d == d;
      }
      PrefixDropped(Kept(t) + d, s, k);
    }
  }

  /** A token keeps at most its last byte, and an IAC only at the end of the buffer. */
  lemma KeptIsLast(s: string)
    requires s != ""
    ensures var t := Head(s); var k := Removed(t);
      && k + |Kept(t)| == Width(t)
      && (Kept(t) == "" || (k < |s| && Kept(t) == [s[k]] && Rest(s) == s[k + 1..]))
      && (Kept(t) == [IAC] ==> Rest(s) == "")
  {
  }

  /** The kinds of tokens, to count them. */
  datatype Kind = OfData | OfDoubled | OfNegotiation | OfSub | OfBadSub | OfUnlisted
    | OfLastIac | OfCut | OfOpenSub | OfUndefined

  function KindOf(t: Token): Kind {
    match t
    case Data(_) => OfData
    case Doubled => OfDoubled
    case Negotiation(_, _) => OfNegotiation
    case Sub(_, _) => OfSub
    case BadSub => OfBadSub
    case Unlisted(_) => OfUnlisted
    case LastIac => OfLastIac
    case CutNegotiation(_) => OfCut
    case OpenSub => OfOpenSub
    case Undefined => OfUndefined
  }

  function One(t: Token, k: Kind): nat {
    if KindOf(t) == k then 1 else 0
  }

  function Count(ts: seq<Token>, k: Kind): nat {
    if ts == [] then 0 else One(ts[0], k) + Count(ts[1..], k)
  }

  /** The parameter bytes of all subnegotiations. */
  function ParamBytes(ts: seq<Token>): nat {
    if ts == [] then 0 else (if ts[0].Sub? then |ts[0].params| else 0) + ParamBytes(ts[1..])
  }

  lemma WidthByKind(t: Token)
    ensures Width(t) == |Kept(t)| + 2 * One(t, OfDoubled) + 3 * One(t, OfNegotiation) + 5 * One(t, OfSub)
      + (if t.Sub? then |t.params| else 0) + One(t, OfBadSub) + One(t, OfUnlisted) + One(t, OfCut)
      + One(t, OfOpenSub) + 4 * One(t, OfUndefined)
    ensures |Fired(t)| == One(t, OfNegotiation) + One(t, OfSub)
    ensures HitsEnd(t) <==> One(t, OfLastIac) + One(t, OfCut) + One(t, OfOpenSub) > 0
    ensures t == Undefined <==> One(t, OfUndefined) > 0
  {
  }

  lemma {:induction false} CountTokens(ts: seq<Token>)
    ensures |WireOf(ts)| == |DataOf(ts)| + 2 * Count(ts, OfDoubled) + 3 * Count(ts, OfNegotiation)
      + 5 * Count(ts, OfSub) + ParamBytes(ts) + Count(ts, OfBadSub) + Count(ts, OfUnlisted) + Count(ts, OfCut)
      + Count(ts, OfOpenSub) + 4 * Count(ts, OfUndefined)
    ensures |EventsOf(ts)| == Count(ts, OfNegotiation) + Count(ts, OfSub)
  {
    hide One, Kept, Width, Fired, Wire;
    if ts != [] {
      CountTokens(ts[1..]);
      WidthByKind(ts[0]);
    }
  }

  lemma {:induction false} CountEnds(s: string)
    ensures var ts := Tokens(s);
      && (Complete(s) <==> Count(ts, OfLastIac) + Count(ts, OfCut) + Count(ts, OfOpenSub) == 0)
      && (Safe(s) <==> Count(ts, OfUndefined) == 0)
  {
    if s != "" {
      StepHead(s);
      CountEnds(Rest(s));
      assert Tokens(s) == [Head(s)] + Tokens(Rest(s));
      WidthByKind(Head(s));
      hide Tokens, Head, Rest, Filter, Safe, Complete, One, HitsEnd;
    }
  }

  /** Every input byte is either kept or removed as part of a command: two bytes for an IAC IAC, three
      for a negotiation, five and the parameters for a subnegotiation, and one for any other command. */
  lemma Conservation(s: string)
    ensures var ts, f := Tokens(s), Filter(s);
      && |s| == |f.data| + 2 * Count(ts, OfDoubled) + 3 * Count(ts, OfNegotiation) + 5 * Count(ts, OfSub)
         + ParamBytes(ts) + Count(ts, OfBadSub) + Count(ts, OfUnlisted) + Count(ts, OfCut) + Count(ts, OfOpenSub)
         + 4 * Count(ts, OfUndefined)
      && |f.events| == Count(ts, OfNegotiation) + Count(ts, OfSub)
      && (Complete(s) <==> Count(ts, OfLastIac) + Count(ts, OfCut) + Count(ts, OfOpenSub) == 0)
      && (Safe(s) <==> Count(ts, OfUndefined) == 0)
  {
    hide Count, ParamBytes, Tokens, Filter, Safe, Complete;
    Partition(s);
    FilterIsTokens(s);
    CountTokens(Tokens(s));
    CountEnds(s);
  }

  lemma {:induction false} PrefixDropped(a: string, b: string, k: nat)
    requires k <= |b| && Subsequence(a, b[k..])
    ensures Subsequence(a, b)
  {
    if k == 0 {
      assert b[k..] == b;
    } else {
      assert b[1..][k - 1..] == b[k..];
      PrefixDropped(a, b[1..], k - 1);
    }
  }

  /** A second pass changes nothing and fires nothing. */
  lemma Idempotent(s: string)
    ensures Filter(Filter(s).data) == Output(Filter(s).data, [])
    ensures Safe(Filter(s).data)
  {
    hide Filter, Safe, Complete;
    OutputShape(s);
    var d := Filter(s).data;
    var k := if d == "" then 0 else |d| - 1;
    SkipData(d, k);
    if d != "" {
      assert d == d[..k] + d[k..];
      assert d[k..] == [d[k]] && d[k..][1..] == "";
      if d[k] == IAC {
        FilterEnd(d[k..]);
      } else {
        SkipOne(d[k..]);
        FilterEnd("");
      }
    } else {
      FilterEnd("");
    }
  }
}
