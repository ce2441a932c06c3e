/**
 Descriptor ownership in src/socket.cpp: which object closes which descriptor, and when.

 The system is a set of open descriptors with a log.  The operations of a socket are functions
 on the system and the sockets involved; the class `Socket` carries them out, and the worlds at
 the end run any number of objects through any list of operations.
 */
module Descriptors {
  const INVALID: int := -1

  datatype Event = Opened(fd: int) | Closed(fd: int)

  datatype Os = Os(open: set<int>, log: seq<Event>)

  /** The fields of a socket that matter here. */
  datatype Sock = Sock(fd: int, nonBlocking: bool) {
    predicate Valid() { fd != INVALID }
  }

  function OpenFd(os: Os, fd: int): Os {
    Os(os.open + {fd}, os.log + [Opened(fd)])
  }

  function CloseFd(os: Os, fd: int): Os {
    Os(os.open - {fd}, os.log + [Closed(fd)])
  }

  /** A descriptor the system may hand out. */
  predicate IsFresh(os: Os, fd: int) {
    fd >= 0 && fd !in os.open
  }

  /** socket::close */
  function CloseSock(os: Os, s: Sock): (Os, Sock) {
    (if s.Valid() then CloseFd(os, s.fd) else os, Sock(INVALID, false))
  }

  /** What the system answers for one address of a candidate list: no descriptor, one that must
      be closed again, or one that is kept. */
  datatype Candidate = NoSocket | Rejected(fd: int) | Taken(fd: int)

  predicate Legal(os: Os, cs: seq<Candidate>) {
    forall i :: 0 <= i < |cs| && !cs[i].NoSocket? ==> IsFresh(os, cs[i].fd)
  }

  /** The loop over the candidates: the system and the kept descriptor. */
  function Try(os: Os, cs: seq<Candidate>): (Os, int)
    decreases |cs|
  {
    if cs == [] then (os, INVALID)
    else match cs[0] {
      case NoSocket => Try(os, cs[1..])
      case Rejected(fd) => Try(CloseFd(OpenFd(os, fd), fd), cs[1..])
      case Taken(fd) => (OpenFd(os, fd), fd)
    }
  }

  predicate SomeTaken(cs: seq<Candidate>) {
    exists i :: 0 <= i < |cs| && cs[i].Taken?
  }

  /** socket::connect: the system, the socket, the result. */
  function ConnectSock(os: Os, s: Sock, resolved: bool, cs: seq<Candidate>): (Os, Sock, bool) {
    if !resolved then (os, s, false)
    else
      var (os1, s1) := if s.Valid() then CloseSock(os, s) else (os, s);
      var (os2, fd) := Try(os1, cs);
      if fd == INVALID then (os2, s1, false) else (os2, s1.(fd := fd), true)
  }

  /** socket::listen; the descriptor that was held before is overwritten. */
  function ListenSock(os: Os, s: Sock, cs: seq<Candidate>, listening: bool): (Os, Sock, bool) {
    var (os1, fd) := Try(os, cs);
    if fd == INVALID then (os1, s, false) else (os1, s.(fd := fd), listening)
  }

  /** Move assignment between different objects: the system, the target, the source. */
  function MoveSock(os: Os, target: Sock, source: Sock): (Os, Sock, Sock) {
    (CloseSock(os, target).0, source, Sock(INVALID, false))
  }

  // ---------- the code ----------

  class System {
    var open: set<int>
    var log: seq<Event>

    constructor ()
      ensures View() == Os({}, [])
    {
      open, log := {}, [];
    }

    function View(): Os
      reads this
    {
      Os(open, log)
    }

    method Create(fd: int)
      requires IsFresh(View(), fd)
      modifies this
      ensures View() == OpenFd(old(View()), fd)
    {
      open := open + {fd};
      log := log + [Opened(fd)];
    }

    method CloseSocket(fd: int)
      requires fd in open
      modifies this
      ensures View() == CloseFd(old(View()), fd)
    {
      open := open - {fd};
      log := log + [Closed(fd)];
    }
  }

  class Socket {
    var sock: int
    var nonBlocking: bool

    function View(): Sock
      reads this
    {
      Sock(sock, nonBlocking)
    }

    /** The descriptor is the system's, if there is one. */
    predicate Holds(os: System)
      reads this, os
    {
      sock != INVALID ==> sock in os.open
    }

    constructor ()
      ensures View() == Sock(INVALID, false)
    {
      sock, nonBlocking := INVALID, false;
    }

    /** Takes over a raw descriptor. */
    constructor Wrap(fd: int)
      ensures View() == Sock(fd, false)
    {
      sock, nonBlocking := fd, false;
    }

    constructor Move(other: Socket)
      modifies other
      ensures View() == old(other.View())
      ensures other.View() == old(other.View()).(fd := INVALID)
    {
      sock, nonBlocking := other.sock, other.nonBlocking;
      new;
      other.sock := INVALID;
    }

    method Close(os: System)
      requires Holds(os)
      modifies this, os
      ensures (os.View(), View()) == CloseSock(old(os.View()), old(View()))
      ensures sock == -1 && !nonBlocking
      ensures old(sock) == -1 ==> os.View() == old(os.View())
      ensures old(sock) != -1 ==> os.open == old(os.open) - {old(sock)} && os.log == old(os.log) + [Closed(old(sock))]
    {
      if sock != INVALID {
        os.CloseSocket(sock);
        sock := INVALID;
      }
      nonBlocking := false;
    }

    method MoveAssign(os: System, other: Socket)
      requires Holds(os)
      modifies this, other, os
      ensures this == other ==> os.View() == old(os.View()) && View() == old(View())
      ensures this != other ==>
        (os.View(), View(), other.View()) == MoveSock(old(os.View()), old(View()), old(other.View()))
      ensures this != other ==>
        && sock == old(other.sock) && nonBlocking == old(other.nonBlocking)
        && other.sock == -1 && !other.nonBlocking
        && (old(sock) == -1 ==> os.View() == old(os.View()))
        && (old(sock) != -1 ==> os.open == old(os.open) - {old(sock)})
    {
      if this == other {
        return;
      }
      Close(os);
      sock := other.sock;
      nonBlocking := other.nonBlocking;
      other.sock := INVALID;
      other.nonBlocking := false;
    }

    /** The loop of connect and listen over the candidate addresses. */
    method TryCandidates(os: System, cs: seq<Candidate>) returns (kept: bool)
      requires Legal(os.View(), cs)
      modifies this`sock, os
      ensures kept == (Try(old(os.View()), cs).1 != INVALID)
      ensures os.View() == Try(old(os.View()), cs).0
      ensures sock == if kept then Try(old(os.View()), cs).1 else old(sock)
    {
      var i := 0;
      kept := false;
      assert cs[0..] == cs;
      while i < |cs|
        invariant 0 <= i <= |cs| && !kept && sock == old(sock)
        invariant os.open == old(os.open)
        invariant Try(os.View(), cs[i..]) == Try(old(os.View()), cs)
      {
        assert cs[i..][1..] == cs[i + 1..];
        match cs[i] {
          case NoSocket =>
          case Rejected(fd) =>
            os.Create(fd);
            os.CloseSocket(fd);
          case Taken(fd) =>
            os.Create(fd);
            sock := fd;
            kept := true;
            return;
        }
        i := i + 1;
      }
    }

    method Connect(os: System, resolved: bool, cs: seq<Candidate>) returns (ok: bool)
      requires Holds(os)
      requires resolved ==> Legal(CloseSock(os.View(), View()).0, cs)
      modifies this, os
      ensures (os.View(), View(), ok) == ConnectSock(old(os.View()), old(View()), resolved, cs)
    {
      if !resolved {
        return false;
      }
      if sock != INVALID {
        Close(os);
      }
      ok := TryCandidates(os, cs);
    }

    method Listen(os: System, cs: seq<Candidate>, listening: bool) returns (ok: bool)
      requires Legal(os.View(), cs)
      modifies this, os
      ensures (os.View(), View(), ok) == ListenSock(old(os.View()), old(View()), cs, listening)
    {
      var bound := TryCandidates(os, cs);
      ok := bound && listening;
    }
  }

  // ---------- the log ----------

  /** The descriptors open after a log. */
  function OpenAfter(log: seq<Event>): set<int> {
    if log == [] then {}
    else
      var before := OpenAfter(log[..|log| - 1]);
      match log[|log| - 1] {
        case Opened(fd) => before + {fd}
        case Closed(fd) => before - {fd}
      }
  }

  /** Only closed descriptors are handed out and only open ones are closed. */
  predicate Proper(log: seq<Event>) {
    log == [] ||
    (Proper(log[..|log| - 1]) &&
     match log[|log| - 1] {
       case Opened(fd) => fd !in OpenAfter(log[..|log| - 1])
       case Closed(fd) => fd in OpenAfter(log[..|log| - 1])
     })
  }

  function Times(log: seq<Event>, e: Event): nat {
    if log == [] then 0
    else Times(log[..|log| - 1], e) + (if log[|log| - 1] == e then 1 else 0)
  }

  lemma {:induction false} ClosedAsOftenAsOpened(log: seq<Event>, fd: int)
    requires Proper(log)
    ensures Times(log, Opened(fd)) == Times(log, Closed(fd)) + (if fd in OpenAfter(log) then 1 else 0)
  {
    if log != [] {
      ClosedAsOftenAsOpened(log[..|log| - 1], fd);
    }
  }

  ghost predicate Consistent(os: Os) {
    Proper(os.log) && OpenAfter(os.log) == os.open && INVALID !in os.open
  }

  lemma OpenIsConsistent(os: Os, fd: int)
    requires Consistent(os) && IsFresh(os, fd)
    ensures Consistent(OpenFd(os, fd))
  {
    assert (os.log + [Opened(fd)])[..|os.log|] == os.log;
  }

  lemma CloseIsConsistent(os: Os, fd: int)
    requires Consistent(os) && fd in os.open
    ensures Consistent(CloseFd(os, fd))
  {
    assert (os.log + [Closed(fd)])[..|os.log|] == os.log;
  }

  lemma {:induction false} TryKeeps(os: Os, cs: seq<Candidate>)
    requires Consistent(os) && Legal(os, cs)
    ensures var (r, fd) := Try(os, cs);
      && Consistent(r)
      && (fd == INVALID <==> !SomeTaken(cs))
      && (fd == INVALID ==> r.open == os.open)
      && (fd != INVALID ==> IsFresh(os, fd) && r.open == os.open + {fd})
    decreases |cs|
  {
    if cs != [] {
      assert forall i :: 0 <= i < |cs| - 1 ==> cs[1..][i] == cs[i + 1];
      assert SomeTaken(cs) <==> cs[0].Taken? || SomeTaken(cs[1..]) by {
        if i :| 0 <= i < |cs| && cs[i].Taken? {
          assert i > 0 ==> cs[1..][i - 1].Taken?;
        }
      }
      match cs[0] {
        case NoSocket =>
          TryKeeps(os, cs[1..]);
        case Rejected(fd) =>
          OpenIsConsistent(os, fd);
          CloseIsConsistent(OpenFd(os, fd), fd);
          assert CloseFd(OpenFd(os, fd), fd).open == os.open;
          TryKeeps(CloseFd(OpenFd(os, fd), fd), cs[1..]);
        case Taken(fd) =>
          OpenIsConsistent(os, fd);
      }
    }
  }

  // ---------- what connect and listen report ----------

  /** `fd` is the descriptor of the first candidate that is taken. */
  predicate IsFirstTaken(cs: seq<Candidate>, fd: int) {
    exists i :: 0 <= i < |cs| && cs[i] == Taken(fd) && forall j :: 0 <= j < i ==> !cs[j].Taken?
  }

  lemma {:induction false} TryTakesFirst(os: Os, cs: seq<Candidate>)
    requires Legal(os, cs)
    ensures var (r, fd) := Try(os, cs);
      if SomeTaken(cs) then fd >= 0 && IsFirstTaken(cs, fd) else fd == -1 && r.open == os.open
    decreases |cs|
  {
    if cs != [] {
      var rest := cs[1..];
      assert forall i :: 0 <= i < |rest| ==> rest[i] == cs[i + 1];
      if cs[0].Taken? {
        assert cs[0] == Taken(cs[0].fd);
      } else {
        var next := if cs[0].NoSocket? then os else CloseFd(OpenFd(os, cs[0].fd), cs[0].fd);
        assert next.open == os.open;
        TryTakesFirst(next, rest);
        if SomeTaken(cs) {
          var i :| 0 <= i < |cs| && cs[i].Taken?;
          assert rest[i - 1].Taken?;
          var fd := Try(next, rest).1;
          var k :| 0 <= k < |rest| && rest[k] == Taken(fd) && forall j :: 0 <= j < k ==> !rest[j].Taken?;
          assert cs[k + 1] == Taken(fd) && forall j :: 0 <= j < k + 1 ==> j == 0 || cs[j] == rest[j - 1];
        } else {
          assert forall i :: 0 <= i < |rest| ==> !rest[i].Taken?;
        }
      }
    }
  }

  /** `connect` returns true exactly if the name resolves and some candidate is taken; then the socket
      holds the first of those.  If none is taken the socket ends invalid; if the name does not resolve
      nothing changes.  The blocking mode is lost exactly if an old descriptor was closed. */
  lemma ConnectReportsIff(os: Os, s: Sock, resolved: bool, cs: seq<Candidate>)
    requires resolved ==> Legal(CloseSock(os, s).0, cs)
    ensures var (r, t, ok) := ConnectSock(os, s, resolved, cs);
      && (ok <==> resolved && SomeTaken(cs))
      && (ok ==> t.fd >= 0 && IsFirstTaken(cs, t.fd))
      && (resolved && !ok ==> t.fd == -1 && r.open == if s.fd == -1 then os.open else os.open - {s.fd})
      && (!resolved ==> r == os && t == s)
      && t.nonBlocking == (s.nonBlocking && (s.fd == -1 || !resolved))
  {
    if resolved {
      TryTakesFirst(CloseSock(os, s).0, cs);
    }
  }

  /** `listen` returns true exactly if some address was bound and the system listens; a bound descriptor
      is held in both cases. */
  lemma ListenReportsIff(os: Os, s: Sock, cs: seq<Candidate>, listening: bool)
    requires Legal(os, cs)
    ensures var (r, t, ok) := ListenSock(os, s, cs, listening);
      && (ok <==> SomeTaken(cs) && listening)
      && (SomeTaken(cs) ==> t.fd >= 0 && IsFirstTaken(cs, t.fd))
      && (!SomeTaken(cs) ==> t == s && r.open == os.open)
      && t.nonBlocking == s.nonBlocking
  {
    TryTakesFirst(os, cs);
  }

  // ---------- worlds ----------

  /** The live objects, by name, and the system. */
  datatype World = World(socks: map<nat, Sock>, os: Os)

  datatype Op =
    | New(id: nat)
    | Accept(id: nat, fd: int)                     // a new descriptor of the system, wrapped
    | Connect(id: nat, resolved: bool, cs: seq<Candidate>)
    | Listen(id: nat, cs: seq<Candidate>, listening: bool)
    | MoveConstruct(id: nat, from: nat)
    | MoveAssign(id: nat, from: nat)
    | Close(id: nat)
    | Destroy(id: nat)

  /** What the language and the system guarantee about an operation. */
  predicate Possible(w: World, op: Op) {
    match op
    case New(id) => id !in w.socks
    case Accept(id, fd) => id !in w.socks && IsFresh(w.os, fd)
    case Connect(id, resolved, cs) => id in w.socks && Legal(CloseSock(w.os, w.socks[id]).0, cs)
    case Listen(id, cs, _) => id in w.socks && Legal(w.os, cs)
    case MoveConstruct(id, from) => id !in w.socks && from in w.socks
    case MoveAssign(id, from) => id in w.socks && from in w.socks
    case Close(id) => id in w.socks
    case Destroy(id) => id in w.socks
  }

  function Step(w: World, op: Op): World
    requires Possible(w, op)
  {
    match op
    case New(id) => w.(socks := w.socks[id := Sock(INVALID, false)])
    case Accept(id, fd) => World(w.socks[id := Sock(fd, false)], OpenFd(w.os, fd))
    case Connect(id, resolved, cs) =>
      var (os, s, _) := ConnectSock(w.os, w.socks[id], resolved, cs);
      World(w.socks[id := s], os)
    case Listen(id, cs, listening) =>
      var (os, s, _) := ListenSock(w.os, w.socks[id], cs, listening);
      World(w.socks[id := s], os)
    case MoveConstruct(id, from) =>
      w.(socks := w.socks[id := w.socks[from]][from := w.socks[from].(fd := INVALID)])
    case MoveAssign(id, from) =>
      if id == from then w
      else
        var (os, t, s) := MoveSock(w.os, w.socks[id], w.socks[from]);
        World(w.socks[id := t][from := s], os)
    case Close(id) =>
      var (os, s) := CloseSock(w.os, w.socks[id]);
      World(w.socks[id := s], os)
    case Destroy(id) =>
      World(w.socks - {id}, CloseSock(w.os, w.socks[id]).0)
  }

  /** The descriptors the live objects hold. */
  ghost function Held(socks: map<nat, Sock>): set<int> {
    set id | id in socks && socks[id].Valid() :: socks[id].fd
  }

  /** The open descriptors are exactly those of the live objects, and no two objects share one. */
  ghost predicate Owned(w: World) {
    && Consistent(w.os)
    && w.os.open == Held(w.socks)
    && forall a, b :: a in w.socks && b in w.socks && a != b && w.socks[a].Valid() ==> w.socks[a].fd != w.socks[b].fd
  }

  /** One object gives up its descriptor and takes another that nobody has. */
  lemma Replace(w: World, id: nat, s: Sock, os: Os)
    requires Owned(w) && Consistent(os)
    requires id in w.socks || s.fd !in w.os.open
    requires var kept := if id in w.socks then w.os.open - {w.socks[id].fd} else w.os.open;
      && s.fd !in kept
      && os.open == if s.Valid() then kept + {s.fd} else kept
    ensures Owned(World(w.socks[id := s], os))
  {
    var after := w.socks[id := s];
    forall fd | fd in os.open ensures fd in Held(after) {
      if fd == s.fd {
        assert id in after && after[id].Valid() && after[id].fd == fd;
      } else {
        assert fd in Held(w.socks);
        var a :| a in w.socks && w.socks[a].Valid() && w.socks[a].fd == fd;
        assert a in after && after[a].Valid() && after[a].fd == fd;
      }
    }
    forall fd | fd in Held(after) ensures fd in os.open {
      var a :| a in after && after[a].Valid() && after[a].fd == fd;
      assert a != id ==> w.socks[a].fd in Held(w.socks);
    }
    forall a, b | a in after && b in after && a != b && after[a].Valid() ensures after[a].fd != after[b].fd {
      if a == id {
        assert w.socks[b].Valid() ==> w.socks[b].fd in Held(w.socks);
      } else if b == id {
        assert w.socks[a].fd in Held(w.socks);
      }
    }
  }

  /** A descriptor changes hands from one object to one that has none. */
  lemma Transfer(w: World, to: nat, from: nat, left: Sock)
    requires Owned(w) && to in w.socks && from in w.socks && to != from
    requires !w.socks[to].Valid() && !left.Valid()
    ensures Owned(w.(socks := w.socks[to := w.socks[from]][from := left]))
  {
    var after := w.socks[to := w.socks[from]][from := left];
    forall fd | fd in Held(w.socks) ensures fd in Held(after) {
      var a :| a in w.socks && w.socks[a].Valid() && w.socks[a].fd == fd;
      var b := if a == from then to else a;
      assert b in after && after[b].Valid() && after[b].fd == fd;
    }
    forall fd | fd in Held(after) ensures fd in Held(w.socks) {
      var a :| a in after && after[a].Valid() && after[a].fd == fd;
      var b := if a == to then from else a;
      assert b in w.socks && w.socks[b].Valid() && w.socks[b].fd == fd;
    }
  }

  lemma Remove(w: World, id: nat)
    requires Owned(w) && id in w.socks && !w.socks[id].Valid()
    ensures Owned(World(w.socks - {id}, w.os))
  {
    var after := w.socks - {id};
    forall fd ensures fd in Held(w.socks) <==> fd in Held(after) {
      if fd in Held(w.socks) {
        var a :| a in w.socks && w.socks[a].Valid() && w.socks[a].fd == fd;
        assert a in after;
      }
    }
  }

  lemma HeldIsOpen(w: World, id: nat)
    requires Owned(w) && id in w.socks && w.socks[id].Valid()
    ensures w.socks[id].fd in w.os.open
  {
  }

  lemma CloseKeeps(w: World, id: nat)
    requires Owned(w) && id in w.socks
    ensures Owned(Step(w, Close(id)))
  {
    var s := w.socks[id];
    var (os, closed) := CloseSock(w.os, s);
    if s.Valid() {
      HeldIsOpen(w, id);
      CloseIsConsistent(w.os, s.fd);
    }
    assert INVALID !in w.os.open;
    Replace(w, id, closed, os);
  }

  lemma ConnectKeeps(w: World, id: nat, resolved: bool, cs: seq<Candidate>)
    requires Owned(w) && Possible(w, Connect(id, resolved, cs))
    ensures Owned(Step(w, Connect(id, resolved, cs)))
  {
    var s := w.socks[id];
    if !resolved {
      assert w.socks[id := s] == w.socks;
    } else {
      var v := if s.Valid() then Step(w, Close(id)) else w;
      CloseKeeps(w, id);
      TryKeeps(v.os, cs);
      var (os, fd) := Try(v.os, cs);
      var t := v.socks[id].(fd := fd);
      Replace(v, id, t, os);
      assert v.socks[id := t] == w.socks[id := t];
    }
  }

  /** `listen` keeps the ownership exactly if the socket was invalid or no address could be bound:
      on a valid socket the old descriptor leaks. */
  lemma ListenKeepsIff(w: World, id: nat, cs: seq<Candidate>, listening: bool)
    requires Owned(w) && Possible(w, Listen(id, cs, listening))
    ensures Owned(Step(w, Listen(id, cs, listening))) <==> !w.socks[id].Valid() || !SomeTaken(cs)
  {
    var s := w.socks[id];
    var (os, fd) := Try(w.os, cs);
    TryKeeps(w.os, cs);
    var after := Step(w, Listen(id, cs, listening));
    if !SomeTaken(cs) {
      assert w.socks[id := s] == w.socks;
    } else if !s.Valid() {
      Replace(w, id, s.(fd := fd), os);
    } else {
      HeldIsOpen(w, id);
      assert s.fd in after.os.open && fd != s.fd;
      forall a | a in after.socks && after.socks[a].Valid() ensures after.socks[a].fd != s.fd {
        assert a != id ==> w.socks[a].fd != w.socks[id].fd;
      }
    }
  }

  /** The callers' guard: servers refuse to start twice. */
  predicate Guarded(w: World, op: Op) {
    Possible(w, op) && (op.Listen? ==> !w.socks[op.id].Valid())
  }

  lemma StepKeeps(w: World, op: Op)
    requires Owned(w) && Guarded(w, op)
    ensures Owned(Step(w, op))
  {
    match op
    case New(id) =>
      Replace(w, id, Sock(INVALID, false), w.os);
    case Accept(id, fd) =>
      OpenIsConsistent(w.os, fd);
      Replace(w, id, Sock(fd, false), OpenFd(w.os, fd));
    case Connect(id, resolved, cs) =>
      ConnectKeeps(w, id, resolved, cs);
    case Listen(id, cs, listening) =>
      ListenKeepsIff(w, id, cs, listening);
    case MoveConstruct(id, from) =>
      Replace(w, id, Sock(INVALID, false), w.os);
      var v := World(w.socks[id := Sock(INVALID, false)], w.os);
      Transfer(v, id, from, w.socks[from].(fd := INVALID));
      assert v.socks[id := v.socks[from]][from := w.socks[from].(fd := INVALID)] == Step(w, op).socks;
    case MoveAssign(id, from) =>
      if id != from {
        CloseKeeps(w, id);
        var v := Step(w, Close(id));
        Transfer(v, id, from, Sock(INVALID, false));
        assert v.socks[id := v.socks[from]][from := Sock(INVALID, false)] == Step(w, op).socks;
      }
    case Close(id) =>
      CloseKeeps(w, id);
    case Destroy(id) =>
      CloseKeeps(w, id);
      var v := Step(w, Close(id));
      Remove(v, id);
      assert v.socks - {id} == w.socks - {id};
  }

  predicate GuardedRun(w: World, ops: seq<Op>)
    decreases |ops|
  {
    ops == [] || (Guarded(w, ops[0]) && GuardedRun(Step(w, ops[0]), ops[1..]))
  }

  function Run(w: World, ops: seq<Op>): World
    requires GuardedRun(w, ops)
    decreases |ops|
  {
    if ops == [] then w else Run(Step(w, ops[0]), ops[1..])
  }

  lemma {:induction false} RunKeeps(w: World, ops: seq<Op>)
    requires Owned(w) && GuardedRun(w, ops)
    ensures Owned(Run(w, ops))
    decreases |ops|
  {
    if ops != [] {
      StepKeeps(w, ops[0]);
      RunKeeps(Step(w, ops[0]), ops[1..]);
    }
  }

  /** From the empty world on, every run keeps the ownership; when the last object is gone, every
      descriptor was closed exactly as often as it was opened. */
  lemma EveryRunOwns(ops: seq<Op>)
    requires GuardedRun(World(map[], Os({}, [])), ops)
    ensures var w := Run(World(map[], Os({}, [])), ops);
      && Owned(w)
      && forall fd :: Times(w.os.log, Opened(fd)) == Times(w.os.log, Closed(fd)) + (if fd in w.os.open then 1 else 0)
    ensures var w := Run(World(map[], Os({}, [])), ops);
      w.socks == map[] ==> w.os.open == {}
  {
    var w0 := World(map[], Os({}, []));
    assert Held(w0.socks) == {};
    RunKeeps(w0, ops);
    var w := Run(w0, ops);
    forall fd ensures Times(w.os.log, Opened(fd)) == Times(w.os.log, Closed(fd)) + (if fd in w.os.open then 1 else 0) {
      ClosedAsOftenAsOpened(w.os.log, fd);
    }
  }

  /** socket_server's move assignment invalidates the source after socket's returned, also when
      that returned at once because both are the same object. */
  function ServerMoveAssign(w: World, id: nat, from: nat): World
    requires Possible(w, MoveAssign(id, from))
  {
    var v := Step(w, MoveAssign(id, from));
    v.(socks := v.socks[from := v.socks[from].(fd := INVALID)])
  }

  /** It keeps the ownership exactly if the objects differ or the source was invalid. */
  lemma ServerMoveKeepsIff(w: World, id: nat, from: nat)
    requires Owned(w) && Possible(w, MoveAssign(id, from))
    ensures Owned(ServerMoveAssign(w, id, from)) <==> id != from || !w.socks[from].Valid()
  {
    StepKeeps(w, MoveAssign(id, from));
    var v := Step(w, MoveAssign(id, from));
    var after := ServerMoveAssign(w, id, from);
    if id != from || !w.socks[from].Valid() {
      assert after.socks == v.socks;
    } else {
      var fd := w.socks[from].fd;
      HeldIsOpen(w, from);
      forall a | a in after.socks && after.socks[a].Valid() ensures after.socks[a].fd != fd {
        assert a != from && w.socks[a].fd != w.socks[from].fd;
      }
    }
  }
}
