/** The encapsulation session table and the socket timer table, which have to agree after every event. */
module Sessions {
  import opened Sequences
  import opened Connections

  /** A timer is free when its socket is invalid. */
  datatype SocketTimer = SocketTimer(socket: int, lastUpdate: nat)

  const CLEARED: SocketTimer := SocketTimer(INVALID_SOCKET, 0)

  /** The sessions by index, each with its socket, and the timers. */
  datatype Tables = Tables(sessions: seq<int>, timers: seq<SocketTimer>)

  ghost function SocketsOf(timers: seq<SocketTimer>): (r: seq<int>)
    ensures |r| == |timers|
  {
    seq(|timers|, i requires 0 <= i < |timers| => timers[i].socket)
  }

  /** Every valid socket has at most one session, and exactly as many timers as sessions. */
  ghost predicate Agree(t: Tables) {
    && |t.sessions| == |t.timers|
    && forall x :: x != INVALID_SOCKET ==> multiset(t.sessions)[x] == multiset(SocketsOf(t.timers))[x] <= 1
  }

  // ---- The events ----

  predicate HasTimer(timers: seq<SocketTimer>, socket: int) {
    exists i :: 0 <= i < |timers| && timers[i].socket == socket
  }

  /** `SocketTimerArrayGetSocketTimer`: the first timer of a socket. */
  function FirstTimer(timers: seq<SocketTimer>, socket: int): (i: nat)
    ensures i <= |timers|
    ensures i < |timers| ==> timers[i].socket == socket
    ensures i == |timers| <==> !HasTimer(timers, socket)
  {
    if timers == [] then 0
    else if timers[0].socket == socket then 0
    else
      assert HasTimer(timers, socket) <==> HasTimer(timers[1..], socket) by {
        if HasTimer(timers, socket) {
          var i :| 0 <= i < |timers| && timers[i].socket == socket;
          assert timers[1..][i - 1].socket == socket;
        }
      }
      1 + FirstTimer(timers[1..], socket)
  }

  /** All timers of a socket cleared. */
  function ClearTimers(timers: seq<SocketTimer>, socket: int): (r: seq<SocketTimer>)
    ensures |r| == |timers|
  {
    seq(|timers|, i requires 0 <= i < |timers| => if timers[i].socket == socket then CLEARED else timers[i])
  }

  /** The first session of a socket freed, if it has one. */
  function FreeSession(sessions: seq<int>, socket: int): (r: seq<int>)
    ensures |r| == |sessions|
  {
    if socket in sessions then sessions[IndexOf(sessions, socket) := INVALID_SOCKET] else sessions
  }

  datatype Status = Success | InvalidCommand | InsufficientMemory | UnsupportedProtocol

  /** Session handles are indices plus one; 0 is none. */
  datatype Registration = Registration(tables: Tables, handle: nat, status: Status)

  const SUPPORTED_VERSION: nat := 1

  /** A socket that has a session gets its handle back with an error; a new one gets the first free session and timer. */
  function Register(t: Tables, socket: int, version: nat, options: nat, now: nat): Registration
    requires HasTimer(t.timers, INVALID_SOCKET) || INVALID_SOCKET !in t.sessions
  {
    if !(0 < version <= SUPPORTED_VERSION && options == 0) then Registration(t, 0, UnsupportedProtocol)
    else if socket in t.sessions then Registration(t, IndexOf(t.sessions, socket) + 1, InvalidCommand)
    else if INVALID_SOCKET !in t.sessions then Registration(t, 0, InsufficientMemory)
    else
      var i, j := IndexOf(t.sessions, INVALID_SOCKET), FirstTimer(t.timers, INVALID_SOCKET);
      Registration(Tables(t.sessions[i := socket], t.timers[j := SocketTimer(socket, now)]), i + 1, Success)
  }

  /** The timers of a socket go, then its session. */
  function Drop(t: Tables, socket: int): Tables {
    Tables(FreeSession(t.sessions, socket), ClearTimers(t.timers, socket))
  }

  /** Unregister and the close of a session by its handle. */
  function CloseHandle(t: Tables, handle: nat): Tables {
    if 0 < handle <= |t.sessions| && t.sessions[handle - 1] != INVALID_SOCKET then
      Tables(t.sessions[handle - 1 := INVALID_SOCKET], ClearTimers(t.timers, t.sessions[handle - 1]))
    else t
  }

  /** `CloseSession`: only a socket that has a session is closed. */
  function CloseSession(t: Tables, socket: int): Tables {
    if socket in t.sessions then Drop(t, socket) else t
  }

  /** A socket whose timer is older than the timeout (in seconds; 0 switches this off) is closed. */
  function CheckInactivity(t: Tables, socket: int, timeout: nat, now: nat): Tables {
    var j := FirstTimer(t.timers, socket);
    if timeout > 0 && j < |t.timers| && now - t.timers[j].lastUpdate >= 1000 * timeout then Drop(t, socket) else t
  }

  /** A time stamp for the socket's timer, if it has one. */
  function Touch(t: Tables, socket: int, now: nat): Tables {
    var j := FirstTimer(t.timers, socket);
    if j < |t.timers| then t.(timers := t.timers[j := t.timers[j].(lastUpdate := now)]) else t
  }

  datatype Event =
    | RegisterEvent(socket: int, version: nat, options: nat, now: nat)
    | UnregisterEvent(handle: nat)
    | CloseEvent(socket: int)
    | InactivityEvent(socket: int, timeout: nat, now: nat)
    | ReceiveErrorEvent(socket: int)
    | ReceiveEvent(socket: int, now: nat)

  /** Sockets handed out by the platform are not negative. */
  predicate Genuine(e: Event) {
    e.UnregisterEvent? || e.socket >= 0
  }

  ghost function Next(t: Tables, e: Event): Tables
    requires Agree(t)
  {
    match e
    case RegisterEvent(socket, version, options, now) => FreeTimerForFreeSession(t); Register(t, socket, version, options, now).tables
    case UnregisterEvent(handle) => CloseHandle(t, handle)
    case CloseEvent(socket) => CloseSession(t, socket)
    case InactivityEvent(socket, timeout, now) => CheckInactivity(t, socket, timeout, now)
    case ReceiveErrorEvent(socket) => Drop(t, socket)
    case ReceiveEvent(socket, now) => Touch(t, socket, now)
  }

  // ---- Agreement ----

  /** A free session always comes with a free timer (and the other way round): as many of them, in fact. */
  lemma FreeTimerForFreeSession(t: Tables)
    requires Agree(t)
    ensures multiset(t.sessions)[INVALID_SOCKET] == multiset(SocketsOf(t.timers))[INVALID_SOCKET]
    ensures INVALID_SOCKET in t.sessions <==> HasTimer(t.timers, INVALID_SOCKET)
  {
    var a, b := multiset(t.sessions), multiset(SocketsOf(t.timers));
    var a', b' := a[INVALID_SOCKET := 0], b[INVALID_SOCKET := 0];
    forall x: int
      ensures a'[x] == b'[x]
    {
    }
    assert a' == b';
    assert |a'| == |a| - a[INVALID_SOCKET] && |b'| == |b| - b[INVALID_SOCKET];
    assert INVALID_SOCKET in t.sessions <==> INVALID_SOCKET in a;
    TimerInSockets(t.timers, INVALID_SOCKET);
  }

  lemma TimerInSockets(timers: seq<SocketTimer>, socket: int)
    ensures HasTimer(timers, socket) <==> socket in SocketsOf(timers)
    ensures HasTimer(timers, socket) <==> multiset(SocketsOf(timers))[socket] > 0
  {
    var sockets := SocketsOf(timers);
    assert socket in sockets <==> socket in multiset(sockets);
    if HasTimer(timers, socket) {
      var i :| 0 <= i < |timers| && timers[i].socket == socket;
      assert sockets[i] == socket;
    }
    if socket in sockets {
      var i := IndexOf(sockets, socket);
      assert timers[i].socket == socket;
    }
  }

  /** What agreement means, slot by slot. */
  lemma AgreementMeans(t: Tables)
    requires Agree(t)
    ensures forall i, j :: 0 <= i < j < |t.sessions| && t.sessions[i] != INVALID_SOCKET ==> t.sessions[i] != t.sessions[j]
    ensures forall i, j :: 0 <= i < j < |t.timers| && t.timers[i].socket != INVALID_SOCKET ==> t.timers[i].socket != t.timers[j].socket
    ensures forall x :: x != INVALID_SOCKET ==> (x in t.sessions <==> HasTimer(t.timers, x))
  {
    forall i, j | 0 <= i < j < |t.sessions| && t.sessions[i] != INVALID_SOCKET
      ensures t.sessions[i] != t.sessions[j]
    {
      OnceOnly(t.sessions, i, j);
    }
    forall i, j | 0 <= i < j < |t.timers| && t.timers[i].socket != INVALID_SOCKET
      ensures t.timers[i].socket != t.timers[j].socket
    {
      OnceOnly(SocketsOf(t.timers), i, j);
    }
    forall x | x != INVALID_SOCKET
      ensures x in t.sessions <==> HasTimer(t.timers, x)
    {
      TimerInSockets(t.timers, x);
      assert x in t.sessions <==> x in multiset(t.sessions);
    }
  }

  lemma OnceOnly(s: seq<int>, i: nat, j: nat)
    requires i < j < |s| && multiset(s)[s[i]] <= 1
    ensures s[i] != s[j]
  {
    assert s == s[..i] + [s[i]] + s[i + 1..j] + [s[j]] + s[j + 1..];
    assert multiset(s) == multiset(s[..i]) + multiset([s[i]]) + multiset(s[i + 1..j]) + multiset([s[j]]) + multiset(s[j + 1..]);
  }

  /** Clearing the timers of one socket takes it out of the timer table and touches no other valid socket. */
  lemma {:induction false} ClearedSockets(timers: seq<SocketTimer>, socket: int, x: int)
    requires socket != INVALID_SOCKET && x != INVALID_SOCKET
    ensures multiset(SocketsOf(ClearTimers(timers, socket)))[x] == if x == socket then 0 else multiset(SocketsOf(timers))[x]
  {
    var after := ClearTimers(timers, socket);
    if timers != [] {
      var n := |timers| - 1;
      ClearedSockets(timers[..n], socket, x);
      assert ClearTimers(timers[..n], socket) == after[..n];
      assert SocketsOf(timers) == SocketsOf(timers[..n]) + [timers[n].socket];
      assert SocketsOf(after) == SocketsOf(after[..n]) + [after[n].socket];
    }
  }

  /** Freeing one session and clearing its socket's timers. */
  lemma FreedAgrees(t: Tables, i: nat)
    requires Agree(t) && i < |t.sessions| && t.sessions[i] != INVALID_SOCKET
    ensures Agree(Tables(t.sessions[i := INVALID_SOCKET], ClearTimers(t.timers, t.sessions[i])))
  {
    var socket := t.sessions[i];
    var u := Tables(t.sessions[i := INVALID_SOCKET], ClearTimers(t.timers, socket));
    forall x | x != INVALID_SOCKET
      ensures multiset(u.sessions)[x] == multiset(SocketsOf(u.timers))[x] <= 1
    {
      ClearedSockets(t.timers, socket, x);
      assert multiset(u.sessions) == multiset(t.sessions) - multiset{socket} + multiset{INVALID_SOCKET};
      assert socket in multiset(t.sessions);
    }
  }

  lemma DropAgrees(t: Tables, socket: int)
    requires Agree(t) && socket != INVALID_SOCKET
    ensures Agree(Drop(t, socket))
  {
    if socket in t.sessions {
      FreedAgrees(t, IndexOf(t.sessions, socket));
    } else {
      AgreementMeans(t);
      assert ClearTimers(t.timers, socket) == t.timers;
    }
  }

  lemma RegisterAgrees(t: Tables, socket: int, version: nat, options: nat, now: nat)
    requires Agree(t) && socket != INVALID_SOCKET && (HasTimer(t.timers, INVALID_SOCKET) || INVALID_SOCKET !in t.sessions)
    ensures Agree(Register(t, socket, version, options, now).tables)
  {
    var r := Register(t, socket, version, options, now);
    if r.status == Success {
      var i, j := IndexOf(t.sessions, INVALID_SOCKET), FirstTimer(t.timers, INVALID_SOCKET);
      assert SocketsOf(r.tables.timers) == SocketsOf(t.timers)[j := socket];
      var a, b := multiset(t.sessions), multiset(SocketsOf(t.timers));
      assert multiset(r.tables.sessions) == a - multiset{INVALID_SOCKET} + multiset{socket};
      assert multiset(SocketsOf(r.tables.timers)) == b - multiset{INVALID_SOCKET} + multiset{socket};
      assert a[socket] == 0;
    }
  }

  lemma TouchAgrees(t: Tables, socket: int, now: nat)
    requires Agree(t)
    ensures Agree(Touch(t, socket, now))
  {
    assert SocketsOf(Touch(t, socket, now).timers) == SocketsOf(t.timers);
  }

  /** Every event keeps the tables in agreement. */
  lemma NextAgrees(t: Tables, e: Event)
    requires Agree(t) && Genuine(e)
    ensures Agree(Next(t, e))
  {
    match e
    case RegisterEvent(socket, version, options, now) =>
      FreeTimerForFreeSession(t);
      RegisterAgrees(t, socket, version, options, now);
    case UnregisterEvent(handle) =>
      if 0 < handle <= |t.sessions| && t.sessions[handle - 1] != INVALID_SOCKET {
        FreedAgrees(t, handle - 1);
      }
    case CloseEvent(socket) => DropAgrees(t, socket);
    case InactivityEvent(socket, _, _) => DropAgrees(t, socket);
    case ReceiveErrorEvent(socket) => DropAgrees(t, socket);
    case ReceiveEvent(socket, now) => TouchAgrees(t, socket, now);
  }

  /** Tables as they are at start-up. */
  ghost function Fresh(n: nat): (t: Tables)
    ensures Agree(t)
  {
    var t := Tables(seq(n, _ => INVALID_SOCKET), seq(n, _ => CLEARED));
    assert SocketsOf(t.timers) == t.sessions;
    NoOther(t.sessions);
    t
  }

  lemma NoOther(s: seq<int>)
    requires forall i :: 0 <= i < |s| ==> s[i] == INVALID_SOCKET
    ensures forall x :: x != INVALID_SOCKET ==> multiset(s)[x] == 0
  {
    forall x | x != INVALID_SOCKET
      ensures multiset(s)[x] == 0
    {
      assert x !in s;
      assert x !in multiset(s);
    }
  }

  ghost function Run(t: Tables, events: seq<Event>): (u: Tables)
    requires Agree(t) && forall i :: 0 <= i < |events| ==> Genuine(events[i])
    ensures Agree(u)
    decreases events
  {
    if events == [] then t else
      NextAgrees(t, events[0]);
      Run(Next(t, events[0]), events[1..])
  }

  /** After any run of events from start-up: sessions and timers pair off, and the next register request of a
      new socket fails for want of memory exactly when all sessions are taken. */
  lemma EveryRunAgrees(n: nat, events: seq<Event>, socket: int, now: nat)
    requires (forall i :: 0 <= i < |events| ==> Genuine(events[i])) && socket >= 0
    ensures var t := Run(Fresh(n), events);
      && Agree(t)
      && (INVALID_SOCKET in t.sessions <==> HasTimer(t.timers, INVALID_SOCKET))
      && (socket !in t.sessions ==>
        (Register(t, socket, 1, 0, now).status == InsufficientMemory <==> forall i :: 0 <= i < |t.sessions| ==> t.sessions[i] != INVALID_SOCKET))
  {
    FreeTimerForFreeSession(Run(Fresh(n), events));
  }

  // ---- What each event does ----

  /** The socket has a timer with this time stamp. */
  ghost predicate Stamped(t: Tables, socket: int, stamp: nat) {
    exists i :: 0 <= i < |t.timers| && t.timers[i] == SocketTimer(socket, stamp)
  }

  /** Session and timer of the socket are gone; all others are as they were, in their places. */
  ghost predicate Forgets(t: Tables, u: Tables, socket: int) {
    && |u.sessions| == |t.sessions|
    && (forall i :: 0 <= i < |t.sessions| ==> u.sessions[i] == if t.sessions[i] == socket then INVALID_SOCKET else t.sessions[i])
    && (forall x: int, n: nat :: x != INVALID_SOCKET ==> (Stamped(u, x, n) <==> x != socket && Stamped(t, x, n)))
  }

  lemma ClearedStamps(t: Tables, u: Tables, socket: int)
    requires socket != INVALID_SOCKET && u.timers == ClearTimers(t.timers, socket)
    ensures forall x: int, n: nat :: x != INVALID_SOCKET ==> (Stamped(u, x, n) <==> x != socket && Stamped(t, x, n))
  {
    forall x: int, n: nat | x != INVALID_SOCKET
      ensures Stamped(u, x, n) <==> x != socket && Stamped(t, x, n)
    {
      if x != socket && Stamped(t, x, n) {
        var i :| 0 <= i < |t.timers| && t.timers[i] == SocketTimer(x, n);
        assert u.timers[i] == SocketTimer(x, n);
      }
    }
  }

  lemma DropExactly(t: Tables, socket: int)
    requires Agree(t) && socket != INVALID_SOCKET
    ensures Forgets(t, Drop(t, socket), socket)
  {
    AgreementMeans(t);
    ClearedStamps(t, Drop(t, socket), socket);
  }

  /** The handle that is the place of a session, counted from one, closes that session; any other closes nothing. */
  lemma CloseHandleExactly(t: Tables, handle: nat)
    requires Agree(t)
    ensures if 0 < handle <= |t.sessions| && t.sessions[handle - 1] != INVALID_SOCKET then Forgets(t, CloseHandle(t, handle), t.sessions[handle - 1])
            else CloseHandle(t, handle) == t
  {
    if 0 < handle <= |t.sessions| && t.sessions[handle - 1] != INVALID_SOCKET {
      AgreementMeans(t);
      ClearedStamps(t, CloseHandle(t, handle), t.sessions[handle - 1]);
    }
  }

  lemma CloseSessionExactly(t: Tables, socket: int)
    requires Agree(t) && socket != INVALID_SOCKET
    ensures if socket in t.sessions then Forgets(t, CloseSession(t, socket), socket) else CloseSession(t, socket) == t
  {
    DropExactly(t, socket);
  }

  /** A socket is dropped exactly if its last time stamp lies at least the timeout back, and there is a timeout. */
  lemma InactivityExactly(t: Tables, socket: int, timeout: nat, now: nat)
    requires Agree(t) && socket != INVALID_SOCKET
    ensures (forall n: nat :: Stamped(t, socket, n) && timeout > 0 && n + 1000 * timeout <= now ==> Forgets(t, CheckInactivity(t, socket, timeout, now), socket))
    ensures (forall n: nat :: Stamped(t, socket, n) && (timeout == 0 || now < n + 1000 * timeout) ==> CheckInactivity(t, socket, timeout, now) == t)
    ensures socket !in t.sessions ==> CheckInactivity(t, socket, timeout, now) == t
  {
    AgreementMeans(t);
    DropExactly(t, socket);
    forall n: nat | Stamped(t, socket, n)
      ensures FirstTimer(t.timers, socket) < |t.timers| && t.timers[FirstTimer(t.timers, socket)].lastUpdate == n
    {
      OneStamp(t, socket, n);
    }
  }

  lemma OneStamp(t: Tables, socket: int, stamp: nat)
    requires Agree(t) && socket != INVALID_SOCKET && Stamped(t, socket, stamp)
    ensures FirstTimer(t.timers, socket) < |t.timers| && t.timers[FirstTimer(t.timers, socket)] == SocketTimer(socket, stamp)
  {
    AgreementMeans(t);
    var i :| 0 <= i < |t.timers| && t.timers[i] == SocketTimer(socket, stamp);
    assert HasTimer(t.timers, socket);
  }

  /** A receive stamps the socket's timer, if it has one, and touches nothing else. */
  lemma TouchExactly(t: Tables, socket: int, now: nat)
    requires Agree(t) && socket != INVALID_SOCKET
    ensures var u := Touch(t, socket, now);
      && u.sessions == t.sessions
      && (forall n: nat :: Stamped(u, socket, n) <==> n == now && socket in t.sessions)
      && (forall x: int, n: nat :: x != socket ==> (Stamped(u, x, n) <==> Stamped(t, x, n)))
  {
    var u, j := Touch(t, socket, now), FirstTimer(t.timers, socket);
    AgreementMeans(t);
    TouchAgrees(t, socket, now);
    if socket in t.sessions {
      assert u.timers[j] == SocketTimer(socket, now);
      forall n: nat
        ensures Stamped(u, socket, n) <==> n == now
      {
        if Stamped(u, socket, n) {
          OneStamp(u, socket, n);
          OneStamp(u, socket, now);
        }
      }
    }
    forall x: int, n: nat | x != socket
      ensures Stamped(u, x, n) <==> Stamped(t, x, n)
    {
      if Stamped(t, x, n) {
        var i :| 0 <= i < |t.timers| && t.timers[i] == SocketTimer(x, n);
        assert u.timers[i] == SocketTimer(x, n);
      }
    }
  }

  /** So a socket heard from less than the timeout ago keeps session and timer. */
  lemma HeardIsKept(t: Tables, socket: int, heard: nat, timeout: nat, now: nat)
    requires Agree(t) && socket != INVALID_SOCKET && socket in t.sessions && now < heard + 1000 * timeout
    ensures var u := Touch(t, socket, heard); CheckInactivity(u, socket, timeout, now) == u && socket in u.sessions
  {
    TouchExactly(t, socket, heard);
    TouchAgrees(t, socket, heard);
    assert Stamped(Touch(t, socket, heard), socket, heard);
    InactivityExactly(Touch(t, socket, heard), socket, timeout, now);
  }

  /** Registering, in full: refused for another protocol version or options; a known socket gets its handle, and an error;
      a new one the first free place, whose number counted from one is its handle, and a timer stamped now; or there is no place. */
  lemma RegisterExactly(t: Tables, socket: int, version: nat, options: nat, now: nat)
    requires Agree(t) && socket != INVALID_SOCKET
    requires HasTimer(t.timers, INVALID_SOCKET) || INVALID_SOCKET !in t.sessions
    ensures var r := Register(t, socket, version, options, now);
      && (r.status == UnsupportedProtocol <==> version != 1 || options != 0)
      && (version == 1 && options == 0 ==> (r.status == InvalidCommand <==> socket in t.sessions))
      && (version == 1 && options == 0 && socket !in t.sessions ==> (r.status == InsufficientMemory <==> INVALID_SOCKET !in t.sessions))
      && (r.status != Success ==> r.tables == t)
      && (r.status in {UnsupportedProtocol, InsufficientMemory} ==> r.handle == 0)
      && (r.status in {Success, InvalidCommand} ==> 0 < r.handle <= |r.tables.sessions| && r.tables.sessions[r.handle - 1] == socket)
      && (r.status == Success ==> TakesPlace(t, r.tables, r.handle, socket, now))
  {
    var r := Register(t, socket, version, options, now);
    if r.status == Success {
      PlaceTaken(t, r.tables, r.handle, socket, now);
    }
  }

  /** The first free place holds the socket now, its timer is stamped, and every other session and timer is as it was. */
  ghost predicate TakesPlace(t: Tables, u: Tables, handle: nat, socket: int, now: nat) {
    && 0 < handle <= |t.sessions| && t.sessions[handle - 1] == INVALID_SOCKET
    && (forall i :: 0 <= i < handle - 1 ==> t.sessions[i] != INVALID_SOCKET)
    && u.sessions == t.sessions[handle - 1 := socket]
    && (forall x: int, n: nat :: x != INVALID_SOCKET ==> (Stamped(u, x, n) <==> if x == socket then n == now else Stamped(t, x, n)))
  }

  lemma PlaceTaken(t: Tables, u: Tables, handle: nat, socket: int, now: nat)
    requires Agree(t) && socket != INVALID_SOCKET && socket !in t.sessions && INVALID_SOCKET in t.sessions && HasTimer(t.timers, INVALID_SOCKET)
    requires handle == IndexOf(t.sessions, INVALID_SOCKET) + 1
    requires u == Tables(t.sessions[handle - 1 := socket], t.timers[FirstTimer(t.timers, INVALID_SOCKET) := SocketTimer(socket, now)])
    ensures TakesPlace(t, u, handle, socket, now)
  {
    var j := FirstTimer(t.timers, INVALID_SOCKET);
    AgreementMeans(t);
    assert u.timers[j] == SocketTimer(socket, now);
    forall x: int, n: nat | x != INVALID_SOCKET
      ensures Stamped(u, x, n) <==> if x == socket then n == now else Stamped(t, x, n)
    {
      if Stamped(t, x, n) {
        var i :| 0 <= i < |t.timers| && t.timers[i] == SocketTimer(x, n);
        assert u.timers[i] == SocketTimer(x, n);
        assert HasTimer(t.timers, x);
      }
    }
  }

  /** What every event does, told by places, sockets and time stamps. */
  ghost predicate Does(t: Tables, e: Event, u: Tables)
    requires Agree(t)
  {
    match e
    case RegisterEvent(socket, version, options, now) =>
      if version == 1 && options == 0 && socket !in t.sessions && INVALID_SOCKET in t.sessions then exists h: nat :: TakesPlace(t, u, h, socket, now)
      else u == t
    case UnregisterEvent(handle) =>
      if 0 < handle <= |t.sessions| && t.sessions[handle - 1] != INVALID_SOCKET then Forgets(t, u, t.sessions[handle - 1]) else u == t
    case CloseEvent(socket) => Forgets(t, u, socket)
    case InactivityEvent(socket, timeout, now) =>
      if timeout > 0 && exists n: nat :: Stamped(t, socket, n) && n + 1000 * timeout <= now then Forgets(t, u, socket) else u == t
    case ReceiveErrorEvent(socket) => Forgets(t, u, socket)
    case ReceiveEvent(socket, now) =>
      u.sessions == t.sessions && forall x: int, n: nat :: x != INVALID_SOCKET ==>
        (Stamped(u, x, n) <==> if x == socket then n == now && socket in t.sessions else Stamped(t, x, n))
  }

  lemma NextExactly(t: Tables, e: Event)
    requires Agree(t) && Genuine(e)
    ensures Does(t, e, Next(t, e))
  {
    match e
    case RegisterEvent(socket, version, options, now) =>
      FreeTimerForFreeSession(t);
      RegisterExactly(t, socket, version, options, now);
      assert Register(t, socket, version, options, now).status == Success ==>
        TakesPlace(t, Next(t, e), Register(t, socket, version, options, now).handle, socket, now);
    case UnregisterEvent(handle) => CloseHandleExactly(t, handle);
    case CloseEvent(socket) =>
      CloseSessionExactly(t, socket);
      DropExactly(t, socket);
      if socket !in t.sessions {
        Unknown(t, socket);
      }
    case InactivityEvent(socket, timeout, now) => InactivityCases(t, socket, timeout, now);
    case ReceiveErrorEvent(socket) => DropExactly(t, socket);
    case ReceiveEvent(socket, now) => TouchExactly(t, socket, now);
  }

  lemma Unknown(t: Tables, socket: int)
    requires Agree(t) && socket != INVALID_SOCKET && socket !in t.sessions
    ensures Forgets(t, t, socket) && forall n: nat :: !Stamped(t, socket, n)
  {
    AgreementMeans(t);
  }

  lemma InactivityCases(t: Tables, socket: int, timeout: nat, now: nat)
    requires Agree(t) && socket != INVALID_SOCKET
    ensures var u := CheckInactivity(t, socket, timeout, now);
      if timeout > 0 && exists n: nat :: Stamped(t, socket, n) && n + 1000 * timeout <= now then Forgets(t, u, socket) else u == t
  {
    InactivityExactly(t, socket, timeout, now);
    AgreementMeans(t);
    if socket in t.sessions {
      var j := FirstTimer(t.timers, socket);
      assert t.timers[j] == SocketTimer(socket, t.timers[j].lastUpdate);
      assert Stamped(t, socket, t.timers[j].lastUpdate);
    }
  }

  /** A handle leads back: closing it right away leaves the sessions as they were before, and the socket without a timer. */
  lemma RegisterThenClose(t: Tables, socket: int, now: nat)
    requires Agree(t) && socket >= 0 && (HasTimer(t.timers, INVALID_SOCKET) || INVALID_SOCKET !in t.sessions)
    ensures var r := Register(t, socket, 1, 0, now);
      r.status == Success ==>
        && CloseHandle(r.tables, r.handle).sessions == t.sessions
        && forall x: int, n: nat :: x != INVALID_SOCKET ==> (Stamped(CloseHandle(r.tables, r.handle), x, n) <==> x != socket && Stamped(t, x, n))
  {
    var r := Register(t, socket, 1, 0, now);
    RegisterExactly(t, socket, 1, 0, now);
    if r.status == Success {
      RegisterAgrees(t, socket, 1, 0, now);
      CloseHandleExactly(r.tables, r.handle);
      assert CloseHandle(r.tables, r.handle).sessions == t.sessions;
    }
  }

  // ---- The tables in place ----

  /** How many timers a socket has. */
  ghost function CountTimers(timers: seq<SocketTimer>, socket: int): nat {
    multiset(SocketsOf(timers))[socket]
  }

  class SessionTable {
    const sessions: array<int>
    const timers: array<SocketTimer>

    ghost predicate Valid()
      reads this, sessions, timers
    {
      Agree(View())
    }

    ghost function View(): Tables
      reads this, sessions, timers
    {
      Tables(sessions[..], timers[..])
    }

    constructor (n: nat)
      ensures Valid() && View() == Fresh(n) && fresh(sessions) && fresh(timers)
    {
      sessions := new int[n](_ => INVALID_SOCKET);
      timers := new SocketTimer[n](_ => CLEARED);
      new;
      assert View() == Fresh(n) by {
        assert sessions[..] == seq(n, _ => INVALID_SOCKET);
        assert timers[..] == seq(n, _ => CLEARED);
      }
    }

    /** The index of the first session with this socket, or the table's length. */
    method FindSession(socket: int) returns (i: nat)
      ensures i <= sessions.Length
      ensures i < sessions.Length <==> socket in sessions[..]
      ensures i < sessions.Length ==> i == IndexOf(sessions[..], socket)
    {
      i := 0;
      while i < sessions.Length
        invariant 0 <= i <= sessions.Length
        invariant forall j :: 0 <= j < i ==> sessions[j] != socket
      {
        if sessions[i] == socket {
          return;
        }
        i := i + 1;
      }
    }

    method GetTimer(socket: int) returns (j: nat)
      ensures j == FirstTimer(timers[..], socket)
    {
      j := 0;
      while j < timers.Length
        invariant 0 <= j <= timers.Length
        invariant forall k :: 0 <= k < j ==> timers[k].socket != socket
      {
        if timers[j].socket == socket {
          FirstTimerAt(timers[..], socket, j);
          return;
        }
        j := j + 1;
      }
    }

    /** `RemoveSocketTimerFromList`: search and clear until the search finds nothing. It ends because every
        round clears one timer of the socket, which a valid socket makes sure is not found again. */
    method RemoveTimers(socket: int)
      requires socket != INVALID_SOCKET
      modifies timers
      ensures timers[..] == ClearTimers(old(timers[..]), socket)
    {
      ghost var before := timers[..];
      var j := GetTimer(socket);
      while j < timers.Length
        invariant j == FirstTimer(timers[..], socket)
        invariant forall k :: 0 <= k < timers.Length ==> timers[k] == before[k] || (before[k].socket == socket && timers[k] == CLEARED)
        decreases CountTimers(timers[..], socket)
      {
        CountDrops(timers[..], socket, j);
        timers[j] := CLEARED;
        j := GetTimer(socket);
      }
      assert timers[..] == ClearTimers(before, socket);
    }

    method RegisterSession(socket: int, version: nat, options: nat, now: nat) returns (handle: nat, status: Status)
      requires Valid() && socket != INVALID_SOCKET
      modifies sessions, timers
      ensures Valid()
      ensures HasTimer(old(timers[..]), INVALID_SOCKET) || INVALID_SOCKET !in old(sessions[..])
      ensures Registration(View(), handle, status) == Register(old(View()), socket, version, options, now)
    {
      ghost var t := View();
      FreeTimerForFreeSession(t);
      RegisterAgrees(t, socket, version, options, now);
      handle := 0;
      if 0 < version <= SUPPORTED_VERSION && options == 0 {
        var i := FindSession(socket);
        if i < sessions.Length {
          return i + 1, InvalidCommand;
        }
        i := FindSession(INVALID_SOCKET);
        if i == sessions.Length {
          return 0, InsufficientMemory;
        }
        var j := GetTimer(INVALID_SOCKET);
        timers[j] := SocketTimer(socket, now);
        sessions[i] := socket;
        assert sessions[..] == t.sessions[i := socket];
        assert timers[..] == t.timers[j := SocketTimer(socket, now)];
        return i + 1, Success;
      }
      status := UnsupportedProtocol;
    }

    method UnregisterSession(handle: nat) returns (closed: bool)
      requires Valid()
      modifies sessions, timers
      ensures Valid() && View() == CloseHandle(old(View()), handle)
      ensures closed <==> 0 < handle <= sessions.Length && old(sessions[..])[handle - 1] != INVALID_SOCKET
    {
      NextAgrees(View(), UnregisterEvent(handle));
      if 0 < handle <= sessions.Length {
        if sessions[handle - 1] != INVALID_SOCKET {
          RemoveTimers(sessions[handle - 1]);
          sessions[handle - 1] := INVALID_SOCKET;
          return true;
        }
      }
      closed := false;
    }

    method RemoveSession(socket: int)
      modifies sessions
      ensures sessions[..] == FreeSession(old(sessions[..]), socket)
    {
      var i := FindSession(socket);
      if i < sessions.Length {
        sessions[i] := INVALID_SOCKET;
      }
    }

    method CloseSessionOf(socket: int)
      requires Valid() && socket != INVALID_SOCKET
      modifies sessions, timers
      ensures Valid() && View() == CloseSession(old(View()), socket)
    {
      DropAgrees(View(), socket);
      var i := FindSession(socket);
      if i < sessions.Length {
        RemoveTimers(socket);
        sessions[i] := INVALID_SOCKET;
      }
    }

    method CheckEncapsulationInactivity(socket: int, timeout: nat, now: nat)
      requires Valid() && socket != INVALID_SOCKET
      modifies sessions, timers
      ensures Valid() && View() == CheckInactivity(old(View()), socket, timeout, now)
    {
      DropAgrees(View(), socket);
      if timeout > 0 {
        var j := GetTimer(socket);
        if j < timers.Length {
          if now - timers[j].lastUpdate >= 1000 * timeout {
            RemoveTimers(socket);
            RemoveSession(socket);
          }
        }
      }
    }

    /** The connection was closed by its client, or receiving failed: the receive handler clears up,
        and its caller clears up once more. */
    method ReceiveFailed(socket: int)
      requires Valid() && socket != INVALID_SOCKET
      modifies sessions, timers
      ensures Valid() && View() == Drop(old(View()), socket)
    {
      ghost var t := View();
      DropAgrees(t, socket);
      RemoveTimers(socket);
      RemoveSession(socket);
      AgreementMeans(Drop(t, socket));
      DroppedIsGone(t, socket);
      RemoveTimers(socket);
      RemoveSession(socket);
    }
  }

  lemma {:induction false} FirstTimerAt(timers: seq<SocketTimer>, socket: int, j: nat)
    requires j < |timers| && timers[j].socket == socket && forall k :: 0 <= k < j ==> timers[k].socket != socket
    ensures FirstTimer(timers, socket) == j
  {
    if j > 0 {
      assert timers[1..][j - 1] == timers[j];
      FirstTimerAt(timers[1..], socket, j - 1);
    }
  }

  lemma CountDrops(timers: seq<SocketTimer>, socket: int, j: nat)
    requires j < |timers| && timers[j].socket == socket != INVALID_SOCKET
    ensures CountTimers(timers[j := CLEARED], socket) < CountTimers(timers, socket)
  {
    assert SocketsOf(timers[j := CLEARED]) == SocketsOf(timers)[j := INVALID_SOCKET];
    assert SocketsOf(timers)[j] == socket;
    assert multiset(SocketsOf(timers)[j := INVALID_SOCKET]) == multiset(SocketsOf(timers)) - multiset{socket} + multiset{INVALID_SOCKET};
  }

  /** A dropped socket is in neither table, so dropping it again changes nothing. */
  lemma DroppedIsGone(t: Tables, socket: int)
    requires Agree(t) && socket != INVALID_SOCKET
    ensures Drop(Drop(t, socket), socket) == Drop(t, socket) && socket !in Drop(t, socket).sessions
  {
    AgreementMeans(t);
    var u := Drop(t, socket);
    assert ClearTimers(u.timers, socket) == u.timers;
  }
}
