/**
 The polling server of src/sync/server.cpp on top of src/sync/select_impl.cpp.

 `State` is what a poll reads and writes: the listening descriptor, the registry of connections,
 the two descriptor sets and their bound.  The classes `Server` and `Poller` change it in place;
 the runs at the end are over any answers of `select`, `accept` and the connections.
 */
module PollServer {
  import opened Bytes
  import BufferedSocket

  const INVALID: int := -1

  /** A connection by its raw descriptor, INVALID once it is closed. */
  datatype Conn = Conn(fd: int)

  datatype State = State(
    server: int,                // the listening descriptor
    sockets: map<int, Conn>,    // sockets_
    open: set<int>,             // descriptors of the connections' sockets
    inSet: set<int>,
    outSet: set<int>,
    maxdesc: int)

  /** What select reports; `Failed` is an error other than EINTR, for which poll throws. */
  datatype Selected = Ready(readable: set<int>, writable: set<int>) | Interrupted | Failed

  /** What the system and the connections answer during one poll. */
  datatype Answers = Answers(
    selected: Selected,
    accepted: Option<int>,      // the result of accept, if it is called
    staysOpen: bool,            // the accepted connection is not closed by its own callbacks
    failsRead: set<int>,        // connections whose read_to_buffer returns false
    hasOutput: set<int>,
    failsWrite: set<int>)

  /** Is the connection under `key` to be removed? */
  predicate Rejected(st: State, a: Answers, key: int)
    requires key in st.sockets
  {
    var fd := st.sockets[key].fd;
    || fd == INVALID
    || (fd in st.inSet && key in a.failsRead)
    || (fd in st.outSet && key in a.hasOutput && key in a.failsWrite)
  }

  /** select overwrites the sets with the descriptors that are ready. */
  function AfterSelect(st: State, a: Answers): State {
    match a.selected
    case Ready(readable, writable) => st.(inSet := st.inSet * readable, outSet := st.outSet * writable)
    case _ => st
  }

  /** server::on_accept and the bookkeeping behind it. */
  function AfterAccept(st: State, a: Answers): State {
    if st.server !in st.inSet || a.accepted.None? then st
    else
      var fd := a.accepted.value;
      st.(sockets := if a.staysOpen then st.sockets[fd := Conn(fd)] else st.sockets,
          open := if a.staysOpen then st.open + {fd} else st.open,
          maxdesc := if fd > st.maxdesc then fd else st.maxdesc,
          inSet := st.inSet + {fd},
          outSet := st.outSet + {fd})
  }

  /** iterate_connections with the delegate of poll; the last reference to a removed connection
      goes with its entry. */
  function AfterIterate(st: State, a: Answers): State {
    var gone := set k | k in st.sockets && Rejected(st, a, k);
    st.(sockets := st.sockets - gone, open := st.open - gone,
        inSet := st.inSet - gone, outSet := st.outSet - gone)
  }

  function Poll(st: State, a: Answers): State {
    if st.server == INVALID || a.selected.Failed? then st
    else AfterIterate(AfterAccept(AfterSelect(st, a), a), a)
  }

  // ---------- the code ----------

  class Server {
    var sock: int
    var sockets: map<int, Conn>
    var open: set<int>

    constructor (sock: int)
      ensures this.sock == sock && sockets == map[] && open == {}
    {
      this.sock, sockets, open := sock, map[], {};
    }

    /** server::add_socket */
    method AddSocket(c: Conn)
      modifies this`sockets
      ensures sockets == if c.fd == INVALID then old(sockets) else old(sockets)[c.fd := c]
    {
      if c.fd == INVALID {
        return;
      }
      sockets := sockets[c.fd := c];
    }

    /** server::remove_socket, called by the cleanup listener before a socket closes. */
    method RemoveSocket(fd: int)
      modifies this`sockets
      ensures sockets == old(sockets) - {fd}
    {
      sockets := sockets - {fd};
    }

    /** server::clear_sockets: the last reference to a connection goes with its entry, which closes it. */
    method ClearSockets()
      modifies this`sockets, this`open
      ensures sockets == map[] && open == old(open) - old(sockets).Keys
    {
      open := open - sockets.Keys;
      sockets := map[];
    }

    /** server::stop: the listening socket is closed first. */
    method Stop()
      modifies this
      ensures sock == INVALID && sockets == map[] && open == old(open) - old(sockets).Keys
    {
      sock := INVALID;
      ClearSockets();
    }
  }

  class Poller {
    var inSet: set<int>
    var outSet: set<int>
    var maxdesc: int

    constructor ()
      ensures inSet == outSet == {} && maxdesc == 0
    {
      inSet, outSet, maxdesc := {}, {}, 0;
    }

    function View(server: Server): State
      reads this, server
    {
      State(server.sock, server.sockets, server.open, inSet, outSet, maxdesc)
    }

    method Listen(server: Server)
      modifies this
      ensures View(server) == old(View(server)).(maxdesc := server.sock, inSet := old(inSet) + {server.sock})
    {
      maxdesc := server.sock;
      inSet := inSet + {maxdesc};
    }

    method Clear(fd: int)
      modifies this`inSet, this`outSet
      ensures fd != INVALID ==> inSet == old(inSet) - {fd} && outSet == old(outSet) - {fd}
      ensures fd == INVALID ==> inSet == old(inSet) && outSet == old(outSet)
    {
      if fd == INVALID {
        return;
      }
      inSet := inSet - {fd};
      outSet := outSet - {fd};
    }

    /** The delegate of poll: reads and writes one connection; true if it is to be removed. */
    method Serve(key: int, c: Conn, a: Answers) returns (remove: bool)
      ensures remove == (c.fd == INVALID || (c.fd in inSet && key in a.failsRead)
                         || (c.fd in outSet && key in a.hasOutput && key in a.failsWrite))
    {
      if c.fd == INVALID {
        return true;
      }
      if c.fd in inSet {
        if key in a.failsRead {
          return true;
        }
      }
      if c.fd in outSet {
        if key in a.hasOutput {
          if key in a.failsWrite {
            return true;
          }
        }
      }
      return false;
    }

    /** iterate_connections: erases from the registry while it goes through it in ascending order. */
    method IterateConnections(server: Server, a: Answers) returns (ghost visited: seq<int>)
      requires Registered(View(server))
      modifies this`inSet, this`outSet, server`sockets, server`open
      ensures View(server) ==
        if server.sock == INVALID then old(View(server)) else AfterIterate(old(View(server)), a)
      ensures server.sock != INVALID ==> forall k :: k in visited <==> k in old(server.sockets)
      ensures forall i, j :: 0 <= i < j < |visited| ==> visited[i] < visited[j]
    {
      visited := [];
      if server.sock == INVALID {
        return;
      }
      ghost var start := View(server);
      ghost var gone := {};
      var rest := server.sockets.Keys;
      while rest != {}
        invariant rest <= start.sockets.Keys
        invariant forall k :: k in visited <==> k in start.sockets.Keys - rest
        invariant forall i, j :: 0 <= i < j < |visited| ==> visited[i] < visited[j]
        invariant forall i, k :: 0 <= i < |visited| && k in rest ==> visited[i] < k
        invariant gone == set k | k in visited && k in start.sockets && Rejected(start, a, k)
        invariant View(server) == start.(sockets := start.sockets - gone, open := start.open - gone,
                                         inSet := start.inSet - gone, outSet := start.outSet - gone)
        decreases rest
      {
        SmallestExists(rest);
        var key :| key in rest && IsSmallest(key, rest);
        assert key !in gone && key in server.sockets && server.sockets[key].fd == key;
        var remove := Serve(key, server.sockets[key], a);
        assert remove == Rejected(start, a, key);
        if remove {
          Clear(key);
          server.RemoveSocket(key);
          server.open := server.open - {key};
          gone := gone + {key};
        }
        visited := visited + [key];
        rest := rest - {key};
      }
      assert gone == set k | k in start.sockets && Rejected(start, a, k);
    }

    /** impl::poll; the result is false if it throws. */
    method PollOnce(server: Server, a: Answers) returns (ok: bool)
      requires Registered(View(server))
      requires a.accepted.Some? ==> a.accepted.value >= 0
      modifies this, server`sockets, server`open
      ensures View(server) == Poll(old(View(server)), a)
      ensures ok <==> server.sock == INVALID || !a.selected.Failed?
    {
      if server.sock == INVALID {
        return true;
      }
      match a.selected {
        case Ready(readable, writable) =>
          inSet := inSet * readable;
          outSet := outSet * writable;
        case Interrupted =>
        case Failed =>
          return false;
      }
      if server.sock in inSet && a.accepted.Some? {
        var fd := a.accepted.value;
        if a.staysOpen {
          server.open := server.open + {fd};
        }
        server.AddSocket(Conn(if a.staysOpen then fd else INVALID));
        maxdesc := if fd > maxdesc then fd else maxdesc;
        inSet := inSet + {fd};
        outSet := outSet + {fd};
      }
      assert View(server) == AfterAccept(AfterSelect(old(View(server)), a), a);
      ghost var _ := IterateConnections(server, a);
      return true;
    }
  }

  predicate IsSmallest(k: int, s: set<int>) {
    k in s && forall x :: x in s ==> k <= x
  }

  lemma SomeElement(s: set<int>)
    ensures s == {} || exists x :: x in s
  {
    if forall x :: x !in s {
      assert s == {};
    }
  }

  lemma {:induction false} SmallestExists(s: set<int>)
    requires s != {}
    ensures exists k :: k in s && IsSmallest(k, s)
    decreases |s|
  {
    SomeElement(s);
    var x :| x in s;
    var rest := s - {x};
    if rest == {} {
      assert s == {x};
      assert x in s && IsSmallest(x, s);
    } else {
      SmallestExists(rest);
      var k :| k in rest && IsSmallest(k, rest);
      var least := if x < k then x else k;
      assert forall y :: y in s ==> y == x || y in rest;
      assert least in s && IsSmallest(least, s);
    }
  }

  // ---------- invariants ----------

  /** Every key of the registry is the raw descriptor of a valid socket. */
  predicate Registered(st: State) {
    INVALID !in st.sockets && forall k :: k in st.sockets ==> st.sockets[k].fd == k && k in st.open
  }

  /** Between two calls from outside there is no open connection besides these. */
  predicate Exact(st: State) {
    Registered(st) && st.open == st.sockets.Keys
  }

  /** The sets hold the server and registered connections only, all within the bound. */
  predicate Watched(st: State) {
    forall fd :: fd in st.inSet + st.outSet ==> fd <= st.maxdesc && (fd == st.server || fd in st.sockets)
  }

  /** What the system guarantees: accept hands out a descriptor that nobody holds, perhaps one that
      was closed before and is still in the descriptor sets. */
  predicate PossibleAnswers(st: State, a: Answers) {
    a.accepted.Some? ==>
      var fd := a.accepted.value;
      fd >= 0 && fd != st.server && fd !in st.sockets && fd !in st.open
  }

  /** A connection is accepted in this poll. */
  predicate Accepts(st: State, a: Answers) {
    st.server != INVALID && !a.selected.Failed? && st.server in AfterSelect(st, a).inSet && a.accepted.Some?
  }

  lemma PollKeepsRegistered(st: State, a: Answers)
    requires Registered(st) && PossibleAnswers(st, a)
    ensures Registered(Poll(st, a))
    ensures Exact(st) ==> Exact(Poll(st, a))
  {
    if Exact(st) {
      var s := AfterAccept(AfterSelect(st, a), a);
      assert s.open == s.sockets.Keys;
    }
  }

  /** One poll keeps the sets to what is registered exactly if it accepts nothing or the accepted
      connection survives its own callbacks: the sets get the descriptor in any case. */
  lemma PollKeepsWatchedIff(st: State, a: Answers)
    requires Registered(st) && Watched(st) && PossibleAnswers(st, a) && st.server !in st.sockets
    ensures Watched(Poll(st, a)) <==> !Accepts(st, a) || a.staysOpen
  {
    var s := AfterAccept(AfterSelect(st, a), a);
    if Accepts(st, a) && !a.staysOpen {
      var fd := a.accepted.value;
      assert fd !in s.sockets;
      assert fd in Poll(st, a).inSet + Poll(st, a).outSet;
    }
  }

  /** A poll removes exactly the rejected connections, with their descriptors, and keeps the rest. */
  lemma PollRemovesRejected(st: State, a: Answers, key: int)
    requires Registered(st) && PossibleAnswers(st, a) && key in st.sockets
    requires st.server != INVALID && !a.selected.Failed?
    ensures var s, r := AfterAccept(AfterSelect(st, a), a), Poll(st, a);
      && (key in r.sockets <==> !Rejected(s, a, key))
      && (key in r.sockets ==> r.sockets[key] == st.sockets[key])
      && (key !in r.sockets ==> key !in r.inSet && key !in r.outSet)
  {
  }

  /** `fd` survives `select`, if it was watched: an interrupted call leaves the sets as they were. */
  predicate IsReadable(a: Answers, fd: int) {
    a.selected == Interrupted || (a.selected.Ready? && fd in a.selected.readable)
  }

  predicate IsWritable(a: Answers, fd: int) {
    a.selected == Interrupted || (a.selected.Ready? && fd in a.selected.writable)
  }

  /** The server accepts exactly if it was watched and reported and accept yields a descriptor. */
  lemma AcceptsIff(st: State, a: Answers)
    ensures Accepts(st, a) <==> st.server != -1 && st.server in st.inSet && IsReadable(a, st.server) && a.accepted.Some?
  {
  }

  /** An accepted connection that its callbacks leave open is registered under its descriptor and watched
      for reading and for writing after the poll, exactly if it neither fails its first read nor its
      first write. */
  lemma AcceptedIsWatched(st: State, a: Answers)
    requires Registered(st) && PossibleAnswers(st, a) && Accepts(st, a)
    ensures var fd, r := a.accepted.value, Poll(st, a);
      && (fd in r.sockets <==> a.staysOpen && fd !in a.failsRead && !(fd in a.hasOutput && fd in a.failsWrite))
      && (fd in r.sockets ==> r.sockets[fd] == Conn(fd) && fd in r.open && fd in r.inSet && fd in r.outSet)
      && r.maxdesc == if fd > st.maxdesc then fd else st.maxdesc
  {
    AcceptsIff(st, a);
    var s := AfterAccept(AfterSelect(st, a), a);
    assert a.staysOpen ==> s.sockets[a.accepted.value] == Conn(a.accepted.value);
  }

  /** A connection is removed by a poll exactly if it was reported readable and its read fails, or
      reported writable, with something to write, and its write fails.  One that stays is watched
      afterwards for what it was watched for and reported for, and for nothing else. */
  lemma PollWatchesReported(st: State, a: Answers, key: int)
    requires Registered(st) && PossibleAnswers(st, a) && key in st.sockets && key != st.server
    requires st.server != INVALID && !a.selected.Failed?
    ensures var r := Poll(st, a);
      && (key !in r.sockets <==>
            || (key in st.inSet && IsReadable(a, key) && key in a.failsRead)
            || (key in st.outSet && IsWritable(a, key) && key in a.hasOutput && key in a.failsWrite))
      && (key in r.sockets ==>
            && r.sockets[key] == st.sockets[key]
            && (key in r.inSet <==> key in st.inSet && IsReadable(a, key))
            && (key in r.outSet <==> key in st.outSet && IsWritable(a, key)))
  {
    PollRemovesRejected(st, a, key);
    var s := AfterAccept(AfterSelect(st, a), a);
    assert s.sockets[key] == st.sockets[key];
    assert key in s.inSet <==> key in st.inSet && IsReadable(a, key);
    assert key in s.outSet <==> key in st.outSet && IsWritable(a, key);
  }

  /** No other connection appears, and a poll of an invalid server or one that throws changes nothing. */
  lemma PollAddsOnlyAccepted(st: State, a: Answers, key: int)
    requires Registered(st) && PossibleAnswers(st, a)
    ensures key in Poll(st, a).sockets ==> key in st.sockets || (Accepts(st, a) && a.accepted == Some(key))
    ensures st.server == INVALID || a.selected.Failed? ==> Poll(st, a) == st
    ensures !Accepts(st, a) ==> Poll(st, a).maxdesc == st.maxdesc
  {
  }

  // ---------- calls from outside a poll ----------

  /** The cleanup listener: server::remove_socket. */
  function Unregister(st: State, key: int): State {
    st.(sockets := st.sockets - {key})
  }

  /** socket::close of a connection. */
  function CloseFd(st: State, key: int): State {
    st.(open := st.open - {key})
  }

  /** What a server sees of a connection under `key`, mark by mark. */
  function Shown(st: State, key: int, marks: seq<BufferedSocket.Mark>): (r: State)
    ensures r == st.(sockets := r.sockets, open := r.open) && r.sockets.Keys <= st.sockets.Keys
    decreases |marks|
  {
    if marks == [] then st
    else
      var s := if marks[0].Left? then Unregister(st, key) else CloseFd(st, key);
      Shown(s, key, marks[1..])
  }

  /** A connection in a registry, with any buffer, callbacks and answers of the system to come. */
  type Live = c: BufferedSocket.State | c.valid && c.registered
    witness BufferedSocket.Fresh(true, [], [])

  /** The marks that calls on a connection leave. */
  function NewMarks(conn: Live, actions: seq<BufferedSocket.Action>): seq<BufferedSocket.Mark> {
    var trace := BufferedSocket.Run(conn, actions).trace;
    if |conn.trace| <= |trace| then trace[|conn.trace|..] else []
  }

  /** Someone outside the poll calls into the connection under `key`. */
  function AfterCalls(st: State, key: int, conn: Live, actions: seq<BufferedSocket.Action>): (r: State)
    ensures r == st.(sockets := r.sockets, open := r.open) && r.sockets.Keys <= st.sockets.Keys
  {
    Shown(st, key, NewMarks(conn, actions))
  }

  /** Its calls close the connection or they do not; if so, its entry leaves the registry first. */
  lemma MarksOfCalls(conn: Live, actions: seq<BufferedSocket.Action>)
    ensures NewMarks(conn, actions) ==
      if BufferedSocket.Run(conn, actions).valid then [] else [BufferedSocket.Left, BufferedSocket.Closed]
  {
    hide BufferedSocket.Run, BufferedSocket.Follows, BufferedSocket.Settled;
    BufferedSocket.RunMarks(conn, actions);
  }

  /** At every moment of any calls on a registered connection, with any callbacks that call back into
      it, every key of the registry is the raw descriptor of a valid socket. */
  lemma CallsKeepRegistered(st: State, key: int, conn: Live, actions: seq<BufferedSocket.Action>, n: nat)
    requires Registered(st) && n <= |NewMarks(conn, actions)|
    ensures Registered(Shown(st, key, NewMarks(conn, actions)[..n]))
  {
    hide NewMarks, Shown, BufferedSocket.Run;
    var marks := NewMarks(conn, actions);
    MarksOfCalls(conn, actions);
    ShownTwo(st, key);
    assert marks[..n] == if n == 0 then [] else if n == 1 then [BufferedSocket.Left] else marks;
  }

  lemma ShownTwo(st: State, key: int)
    ensures Shown(st, key, []) == st
    ensures Shown(st, key, [BufferedSocket.Left]) == Unregister(st, key)
    ensures Shown(st, key, [BufferedSocket.Left, BufferedSocket.Closed]) == CloseFd(Unregister(st, key), key)
  {
    assert [BufferedSocket.Left, BufferedSocket.Closed][1..] == [BufferedSocket.Closed];
    assert [BufferedSocket.Left][1..] == [] && [BufferedSocket.Closed][1..] == [];
  }

  /** After the calls the connection is out of the registry and its descriptor closed, or nothing has
      changed; the descriptor sets are the same in both cases. */
  lemma CallsCloseOrKeep(st: State, key: int, conn: Live, actions: seq<BufferedSocket.Action>)
    requires Exact(st) && key in st.sockets
    ensures var r := AfterCalls(st, key, conn, actions);
      && Exact(r)
      && (BufferedSocket.Run(conn, actions).valid ==> r == st)
      && (!BufferedSocket.Run(conn, actions).valid ==>
            r == st.(sockets := st.sockets - {key}, open := st.open - {key}))
  {
    MarksOfCalls(conn, actions);
    hide NewMarks, BufferedSocket.Run;
    ShownTwo(st, key);
  }

  /** Calls from outside a poll keep the descriptor sets sound exactly if they leave the connection
      open or `select` had already dropped its descriptor, because nothing clears it. */
  lemma CallsKeepWatchedIff(st: State, key: int, conn: Live, actions: seq<BufferedSocket.Action>)
    requires Exact(st) && Watched(st) && key in st.sockets && key != st.server
    ensures Watched(AfterCalls(st, key, conn, actions))
       <==> BufferedSocket.Run(conn, actions).valid || (key !in st.inSet && key !in st.outSet)
  {
    CallsCloseOrKeep(st, key, conn, actions);
    hide AfterCalls, BufferedSocket.Run;
    var r := AfterCalls(st, key, conn, actions);
    if key in st.inSet || key in st.outSet {
      assert key in r.inSet + r.outSet;
    }
  }

  // ---------- runs ----------

  datatype Event =
    | DoPoll(a: Answers)
    | DoCalls(key: int, conn: Live, actions: seq<BufferedSocket.Action>)
    | DoStop

  /** server::stop */
  function AfterStop(st: State): State {
    st.(server := INVALID, sockets := map[], open := st.open - st.sockets.Keys)
  }

  function Step(st: State, e: Event): State {
    match e
    case DoPoll(a) => Poll(st, a)
    case DoCalls(key, conn, actions) => AfterCalls(st, key, conn, actions)
    case DoStop => AfterStop(st)
  }

  predicate Possible(st: State, e: Event) {
    match e
    case DoPoll(a) => PossibleAnswers(st, a)
    case DoCalls(key, _, _) => key in st.sockets
    case DoStop => true
  }

  predicate PossibleRun(st: State, es: seq<Event>)
    decreases |es|
  {
    es == [] || (Possible(st, es[0]) && PossibleRun(Step(st, es[0]), es[1..]))
  }

  function Run(st: State, es: seq<Event>): State
    decreases |es|
  {
    if es == [] then st else Run(Step(st, es[0]), es[1..])
  }

  /** A server after `listen` on a fresh poller. */
  function Start(server: int): State {
    State(server, map[], {}, {server}, {}, server)
  }

  lemma StepKeepsExact(st: State, e: Event)
    requires Exact(st) && Possible(st, e)
    ensures Exact(Step(st, e))
  {
    match e {
      case DoPoll(a) => PollKeepsRegistered(st, a);
      case DoCalls(key, conn, actions) => CallsCloseOrKeep(st, key, conn, actions);
      case DoStop =>
    }
  }

  /** Over every run, with calls and closes outside the polls and descriptors handed out again: the keys
      of the registry are exactly the open descriptors of connections, each under its own. */
  lemma {:induction false} RunKeepsRegistered(st: State, es: seq<Event>)
    requires Exact(st) && PossibleRun(st, es)
    ensures Exact(Run(st, es))
    decreases |es|
  {
    hide Step, Exact, Possible;
    if es != [] {
      StepKeepsExact(st, es[0]);
      RunKeepsRegistered(Step(st, es[0]), es[1..]);
    }
  }

  /** From listen on, a stop at any point of any run closes every connection, and no later event opens
      one again. */
  lemma StopClosesAll(server: int, before: seq<Event>, after: seq<Event>)
    requires PossibleRun(Start(server), before + [DoStop] + after)
    ensures var r := Run(Start(server), before + [DoStop] + after);
      r.open == {} && r.sockets == map[] && r.server == INVALID
  {
    var st := Start(server);
    assert before + [DoStop] + after == before + ([DoStop] + after);
    RunParts(st, before, [DoStop] + after);
    RunKeepsRegistered(st, before);
    assert ([DoStop] + after)[1..] == after;
    StoppedStays(AfterStop(Run(st, before)), after);
  }

  lemma {:induction false} RunParts(st: State, a: seq<Event>, b: seq<Event>)
    ensures Run(st, a + b) == Run(Run(st, a), b)
    ensures PossibleRun(st, a + b) ==> PossibleRun(st, a)
    decreases |a|
  {
    hide Step, Possible;
    if a == [] {
      assert a + b == b;
    } else {
      assert (a + b)[1..] == a[1..] + b;
      RunParts(Step(st, a[0]), a[1..], b);
    }
  }

  /** A stopped server does nothing in its polls, and nothing is added to it. */
  lemma {:induction false} StoppedStays(st: State, es: seq<Event>)
    requires st.server == INVALID
    ensures var r := Run(st, es);
      && r.server == INVALID && r.inSet == st.inSet && r.outSet == st.outSet
      && (st.sockets == map[] && st.open == {} ==> r.sockets == map[] && r.open == {})
    decreases |es|
  {
    hide Shown, NewMarks;
    if es != [] {
      if es[0].DoCalls? {
        CallsOnEmpty(st, es[0].key, es[0].conn, es[0].actions);
      }
      StoppedStays(Step(st, es[0]), es[1..]);
    }
  }

  lemma CallsOnEmpty(st: State, key: int, conn: Live, actions: seq<BufferedSocket.Action>)
    ensures st.sockets == map[] && st.open == {} ==> AfterCalls(st, key, conn, actions) == st
  {
    MarksOfCalls(conn, actions);
    hide NewMarks, BufferedSocket.Run;
    ShownTwo(st, key);
    assert st.open == {} ==> st.open - {key} == {};
    assert st.sockets == map[] ==> st.sockets - {key} == map[];
  }

  /** No accepted connection closes itself in a callback, no call from outside closes a connection,
      and the server is not stopped. */
  predicate Calm(es: seq<Event>) {
    forall i :: 0 <= i < |es| ==>
      match es[i]
      case DoPoll(a) => a.staysOpen
      case DoCalls(_, conn, actions) => BufferedSocket.Run(conn, actions).valid
      case DoStop => false
  }

  lemma CalmStep(st: State, es: seq<Event>)
    requires Exact(st) && Watched(st) && st.server !in st.sockets && es != [] && Possible(st, es[0]) && Calm(es)
    ensures var next := Step(st, es[0]); Watched(next) && next.server == st.server && st.server !in next.sockets
    ensures Calm(es[1..])
  {
    assert forall i :: 0 <= i < |es| - 1 ==> es[1..][i] == es[i + 1];
    if es[0].DoPoll? {
      PollKeepsWatchedIff(st, es[0].a);
    } else {
      CallsCloseOrKeep(st, es[0].key, es[0].conn, es[0].actions);
    }
  }

  lemma {:induction false} RunKeepsWatched(st: State, es: seq<Event>)
    requires Exact(st) && Watched(st) && st.server !in st.sockets && PossibleRun(st, es) && Calm(es)
    ensures Watched(Run(st, es))
    decreases |es|
  {
    hide Step, Exact, Possible, Watched, Calm;
    if es != [] {
      StepKeepsExact(st, es[0]);
      CalmStep(st, es);
      RunKeepsWatched(Step(st, es[0]), es[1..]);
    }
  }

  /** From listen to stop, if no connection is closed outside the delegate, the sets hold the server and
      registered connections only. */
  lemma EveryRunIsWatched(server: int, es: seq<Event>)
    requires PossibleRun(Start(server), es) && Calm(es)
    ensures var r := Run(Start(server), es); Watched(r) && Exact(r)
  {
    RunKeepsRegistered(Start(server), es);
    RunKeepsWatched(Start(server), es);
  }

  /** In this event the server's descriptor survives `select`. */
  predicate HearsServer(server: int, e: Event) {
    e.DoPoll? && e.a.selected.Ready? ==> server in e.a.selected.readable
  }

  /** How many events come before the server is stopped. */
  function UntilStop(es: seq<Event>): (n: nat)
    ensures n <= |es|
  {
    if es == [] || es[0].DoStop? then 0 else 1 + UntilStop(es[1..])
  }

  /** select clears what is not ready and nothing sets it again: the server is still watched exactly
      if it was ready in every poll until it was stopped. */
  lemma {:induction false} ListensIff(st: State, es: seq<Event>)
    requires Exact(st) && st.server !in st.sockets && st.server in st.inSet && PossibleRun(st, es)
    requires st.server != INVALID
    ensures st.server in Run(st, es).inSet
       <==> forall i :: 0 <= i < UntilStop(es) ==> HearsServer(st.server, es[i])
    decreases |es|
  {
    hide Exact;
    if es != [] {
      var next := Step(st, es[0]);
      StepKeepsExact(st, es[0]);
      assert forall i :: 1 <= i < |es| ==> es[i] == es[1..][i - 1];
      assert forall i :: 0 <= i < |es| - 1 ==> es[1..][i] == es[i + 1];
      ListenStep(st, es[0]);
      hide Step, HearsServer, Possible;
      if es[0].DoStop? {
        StoppedStays(next, es[1..]);
      } else if HearsServer(st.server, es[0]) {
        ListensIff(next, es[1..]);
      } else {
        Deaf(next, es[1..]);
        assert !HearsServer(st.server, es[0]);
      }
    }
  }

  lemma ListenStep(st: State, e: Event)
    requires Exact(st) && st.server !in st.sockets && st.server in st.inSet && Possible(st, e)
    requires st.server != INVALID
    ensures var next := Step(st, e);
      && (e.DoStop? ==> next.server == INVALID && next.inSet == st.inSet)
      && (!e.DoStop? ==> next.server == st.server && st.server !in next.sockets)
      && (!e.DoStop? ==> (st.server in next.inSet <==> HearsServer(st.server, e)))
  {
    hide AfterCalls, Registered;
  }

  /** Once the server is not watched, it accepts nothing any more, whatever happens: no descriptor
      is ever added to the sets or to the registry. */
  lemma {:induction false} Deaf(st: State, es: seq<Event>)
    requires st.server == INVALID || st.server !in st.inSet
    ensures var r := Run(st, es);
      && r.inSet <= st.inSet && r.outSet <= st.outSet && r.sockets.Keys <= st.sockets.Keys
      && (r.server == st.server || r.server == INVALID)
    decreases |es|
  {
    if es != [] {
      DeafStep(st, es[0]);
      hide Step;
      Deaf(Step(st, es[0]), es[1..]);
    }
  }

  lemma DeafStep(st: State, e: Event)
    requires st.server == INVALID || st.server !in st.inSet
    ensures var r := Step(st, e);
      && r.inSet <= st.inSet && r.outSet <= st.outSet && r.sockets.Keys <= st.sockets.Keys
      && (r.server == st.server || r.server == INVALID)
  {
    hide AfterCalls, Rejected;
  }

  /** The same holds for a connection: once it was not ready, it is never read again unless its
      number is handed out anew. */
  lemma {:induction false} ForgottenStaysForgotten(st: State, es: seq<Event>, fd: int)
    requires fd !in st.inSet
    requires forall i :: 0 <= i < |es| ==> es[i].DoPoll? ==> es[i].a.accepted != Some(fd)
    ensures fd !in Run(st, es).inSet
    decreases |es|
  {
    hide AfterCalls, Rejected;
    if es != [] {
      assert forall i :: 0 <= i < |es| - 1 ==> es[1..][i] == es[i + 1];
      ForgottenStaysForgotten(Step(st, es[0]), es[1..], fd);
    }
  }
}
