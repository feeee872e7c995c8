/** The stream of frames on one multicast input: its master may change, its numbering does not break. */
module Streams {
  import opened Sequences
  import opened Wrappers
  import opened Connections
  import opened Lifecycle
  import opened Invariants
  import opened Runs
  import Timing
  import Words

  /** The connection that currently manages production on the input, as the stack itself finds it. */
  function Master(s: State, p: nat): Option<nat>
    requires InRange(s)
  {
    First(s.slots, s.active, Producer(true, p))
  }

  /** The EIP sequence number last used on the input. */
  function Position(s: State, p: nat): nat
    requires InRange(s) && Master(s, p).Some?
  {
    s.slots[Master(s, p).value].eipSequence
  }

  /** The class 1 sequence count last used on the input. */
  function Count(s: State, p: nat): nat
    requires InRange(s) && Master(s, p).Some?
  {
    s.slots[Master(s, p).value].sequenceCount
  }

  function StreamId(s: State, p: nat): nat
    requires InRange(s) && Master(s, p).Some?
  {
    s.slots[Master(s, p).value].producedId
  }

  /** The transmission trigger timer of the input, and the requested interval (in microseconds) it is reloaded with. */
  function Trigger(s: State, p: nat): nat
    requires InRange(s) && Master(s, p).Some?
  {
    s.slots[Master(s, p).value].trigger
  }

  function Interval(s: State, p: nat): nat
    requires InRange(s) && Master(s, p).Some?
  {
    s.slots[Master(s, p).value].production.interval
  }

  /** The frames of a run that were sent on input `p`. */
  function OnInput(packets: seq<Packet>, p: nat): (own: seq<Packet>) {
    if packets == [] then []
    else if packets[0].input == p then [packets[0]] + OnInput(packets[1..], p)
    else OnInput(packets[1..], p)
  }

  /** Frames that continue a stream: same connection ID, sequence numbers rising by one modulo 2^32. */
  ghost predicate Follows(packets: seq<Packet>, position: nat, id: nat) {
    forall i :: 0 <= i < |packets| ==>
      packets[i].sequence == (position + i + 1) % Words.WORD32 && packets[i].connectionId == id
  }

  /** From `s` to `t` the stream on `p` advanced by exactly the frames sent. */
  ghost predicate Advanced(s: State, t: State, packets: seq<Packet>, p: nat)
    requires InRange(s) && Master(s, p).Some?
  {
    && InRange(t) && Master(t, p).Some? && StreamId(t, p) == StreamId(s, p)
    && var own := OnInput(packets, p);
    && Follows(own, Position(s, p), StreamId(s, p))
    && Position(t, p) % Words.WORD32 == (Position(s, p) + |own|) % Words.WORD32
  }

  // ---- Arithmetic of concatenated streams ----

  lemma {:induction false} OnInputConcat(a: seq<Packet>, b: seq<Packet>, p: nat)
    ensures OnInput(a + b, p) == OnInput(a, p) + OnInput(b, p)
  {
    if a == [] {
      assert a + b == b;
    } else {
      assert (a + b)[1..] == a[1..] + b;
      OnInputConcat(a[1..], b, p);
    }
  }

  lemma AdvancedTransitive(s: State, t: State, u: State, a: seq<Packet>, b: seq<Packet>, p: nat)
    requires InRange(s) && Master(s, p).Some? && Advanced(s, t, a, p) && Advanced(t, u, b, p)
    ensures Advanced(s, u, a + b, p)
  {
    OnInputConcat(a, b, p);
    var x, y, both := OnInput(a, p), OnInput(b, p), OnInput(a + b, p);
    forall i | 0 <= i < |both|
      ensures both[i].sequence == (Position(s, p) + i + 1) % Words.WORD32 && both[i].connectionId == StreamId(s, p)
    {
      if i >= |x| {
        Words.ShiftedModulo(Position(t, p), Position(s, p) + |x|, i - |x| + 1);
      }
    }
    Words.ShiftedModulo(Position(t, p), Position(s, p) + |x|, |y|);
  }

  // ---- Silent changes: the stream stays where it is ----

  ghost predicate SameStream(s: State, t: State, p: nat)
    requires InRange(s)
  {
    Master(s, p).Some? ==>
      InRange(t) && Master(t, p).Some? && StreamId(t, p) == StreamId(s, p) && Position(t, p) == Position(s, p) &&
      Count(t, p) == Count(s, p) && Trigger(t, p) == Trigger(s, p) && Interval(t, p) == Interval(s, p)
  }

  lemma SameStreamAdvanced(s: State, t: State, p: nat)
    requires InRange(s) && Master(s, p).Some? && SameStream(s, t, p)
    ensures Advanced(s, t, [], p)
  {
  }

  lemma MasterUnique(s: State, p: nat, h: nat)
    requires InRange(s) && SingleMaster(s) && h in s.active && Holds(s.slots[h]) && s.slots[h].input == p
    ensures Master(s, p) == Some(h)
  {
    assert Matches(s.slots[h], Producer(true, p));
  }

  lemma DropAllStream(s: State, gone: set<nat>, p: nat)
    requires InRange(s) && SingleMaster(s)
    requires Master(s, p).Some? ==> Master(s, p).value !in gone
    ensures SameStream(s, DropAll(s, gone), p)
  {
    if Master(s, p).Some? {
      var t := DropAll(s, gone);
      assert InRange(t) && SingleMaster(t);
      MasterUnique(t, p, Master(s, p).value);
    }
  }

  lemma TouchedStream(s: State, t: State, c: nat, p: nat)
    requires InRange(s) && SingleMaster(s) && Touched(s, t, c)
    requires t.slots[c].eipSequence == s.slots[c].eipSequence && t.slots[c].trigger == s.slots[c].trigger
    requires t.slots[c].sequenceCount == s.slots[c].sequenceCount
    ensures SameStream(s, t, p)
  {
    if Master(s, p).Some? {
      assert InRange(t) && SingleMaster(t);
      MasterUnique(t, p, Master(s, p).value);
    }
  }

  lemma ExpireStream(s: State, c: nat, p: nat)
    requires InRange(s) && SingleMaster(s) && c in s.active
    ensures SameStream(s, Expire(s, c), p)
  {
    if Master(s, p).Some? {
      var t := Expire(s, c);
      assert InRange(t) && SingleMaster(t);
      MasterUnique(t, p, Master(s, p).value);
    }
  }

  /** A handover passes on the position, and the heir already carries the connection ID. */
  lemma MoveMasterStream(cfg: Config, s: State, c: nat, m: nat, p: nat)
    requires Inv(cfg, s) && Mastered(s, p) && c in s.active && m in s.active
    requires MustHandOver(s.slots[c]) && Matches(s.slots[m], NextMaster(s.slots[c].input))
    ensures SameStream(s, MoveMaster(s, c, m), p)
  {
    var t := MoveMaster(s, c, m);
    MoveMasterInv(cfg, s, c, m);
    if s.slots[c].input == p {
      MasterUnique(s, p, c);
      MasterUnique(t, p, m);
      var h :| IsMaster(s, h, p, s.slots[m].producedId);
      assert h == c;
    } else if Master(s, p).Some? {
      MasterUnique(t, p, Master(s, p).value);
    }
  }

  lemma CloseStream(cfg: Config, s: State, c: nat, p: nat)
    requires Inv(cfg, s) && Mastered(s, p) && c < |s.slots|
    requires InRange(Close(s, c)) && Master(Close(s, c), p).Some?
    ensures SameStream(s, Close(s, c), p)
  {
    if !MustHandOver(s.slots[c]) {
      DropAllStream(s, {c}, p);
    } else if Heir(s, c).Some? {
      var m := Heir(s, c).value;
      MoveMasterStream(cfg, s, c, m, p);
      MoveMasterInv(cfg, s, c, m);
      DropAllStream(MoveMaster(s, c, m), {c}, p);
    } else {
      if s.slots[c].input == p {
        MasterUnique(s, p, Master(Close(s, c), p).value);
        MasterUnique(s, p, c);
      }
      DropAllStream(s, Mates(s, ListenOnly, s.slots[c].input) + {c}, p);
    }
  }

  lemma {:induction false} CloseSessionsStream(cfg: Config, s: State, sessions: seq<nat>, p: nat)
    requires Inv(cfg, s)
    ensures SameStream(s, CloseSessions(s, sessions), p)
    decreases sessions
  {
    if sessions != [] {
      var c := First(s.slots, s.active, Class3(sessions[0]));
      if c.Some? {
        Class3Explicit(cfg, s, sessions[0]);
        CloseInv(cfg, s, c.value);
        DropAllStream(s, {c.value}, p);
      }
      CloseSessionShrinks(s, sessions[0]);
      ShrunkKeepsOrder(s, CloseSession(s, sessions[0]));
      CloseSessionsStream(cfg, CloseSession(s, sessions[0]), sessions[1..], p);
    }
  }

  /** The walk over the input-only connections of `input` leaves the stream on `p` alone: it is another input, or
      `p` keeps the timed-out owner as its master. */
  ghost predicate Shielded(s: State, input: nat, p: nat)
    requires InRange(s)
  {
    input == p && Master(s, p).Some? ==> s.slots[Master(s, p).value].kind != InputOnly
  }

  lemma CloseMateStream(cfg: Config, s: State, c: nat, input: nat, p: nat)
    requires Inv(cfg, s) && Mastered(s, p) && c in s.active && Shielded(s, input, p)
    ensures var t := CloseIfMate(s, c, InputOnly, input); InRange(t) && SameStream(s, t, p) && (Master(s, p).Some? ==> Shielded(t, input, p))
  {
    var k := s.slots[c];
    if k.kind == InputOnly && k.input == input && Master(s, p).Some? {
      var h := Master(s, p).value;
      if !MustHandOver(k) {
        DropAllStream(s, {c}, p);
      } else {
        MasterUnique(s, k.input, c);
        assert k.input != p;
        if Heir(s, c).Some? {
          MoveMasterStream(cfg, s, c, Heir(s, c).value, p);
          MoveMasterInv(cfg, s, c, Heir(s, c).value);
          DropAllStream(MoveMaster(s, c, Heir(s, c).value), {c}, p);
        } else {
          DropAllStream(s, Mates(s, ListenOnly, k.input) + {c}, p);
        }
      }
      CloseInv(cfg, s, c);
      MasterKind(s, c, h, p);
    }
  }

  /** The master on `p` is not the one closed, and stays as it is. */
  lemma MasterKind(s: State, c: nat, h: nat, p: nat)
    requires InRange(s) && c in s.active && s.slots[c].kind == InputOnly && Master(s, p) == Some(h)
    requires InRange(Close(s, c)) && SingleMaster(Close(s, c)) && SameStream(s, Close(s, c), p) && (s.slots[c].input == p ==> s.slots[h].kind != InputOnly)
    requires SingleMaster(s)
    ensures Master(Close(s, c), p) == Some(h) && Close(s, c).slots[h].kind == s.slots[h].kind
  {
    var t := Close(s, c);
    assert h != c;
    assert Matches(s.slots[h], Producer(true, p));
    if s.slots[c].input == p {
      MasterUnique(s, p, h);
      assert !Holds(s.slots[c]);
    } else {
      assert s.slots[h].kind == ListenOnly ==> h !in Mates(s, ListenOnly, s.slots[c].input);
    }
    assert h in t.active && t.slots[h] == s.slots[h];
    MasterUnique(t, p, h);
  }

  lemma {:induction false} CloseFromStream(cfg: Config, s: State, c: nat, input: nat, p: nat)
    requires Inv(cfg, s) && Mastered(s, p) && c in s.active && Shielded(s, input, p)
    ensures SameStream(s, CloseFrom(s, c, InputOnly, input).0, p)
    decreases |After(s.active, c)|
  {
    var t := CloseIfMate(s, c, InputOnly, input);
    CloseInv(cfg, s, c);
    CloseMastered(cfg, s, c, p);
    CloseMateStream(cfg, s, c, input, p);
    CloseIfMateShrinks(s, c, InputOnly, input);
    ShrunkKeepsOrder(s, t);
    if Master(s, p).Some? && After(s.active, c) != [] && After(s.active, c)[0] in t.active {
      AfterTail(s.active, c);
      CloseFromStream(cfg, t, After(s.active, c)[0], input, p);
    }
  }

  lemma DropDependentsStream(cfg: Config, s: State, input: nat, p: nat)
    requires Inv(cfg, s) && Mastered(s, p) && Shielded(s, input, p)
    ensures SameStream(s, DropDependents(s, input).0, p)
  {
    if s.active != [] {
      CloseFromInv(cfg, s, s.active[0], InputOnly, input);
      CloseFromMastered(cfg, s, s.active[0], InputOnly, input, p);
      CloseFromStream(cfg, s, s.active[0], input, p);
    }
    var t := CloseMates(s, InputOnly, input).0;
    DropListenersStream(t, input, p);
  }

  lemma DropListenersStream(s: State, input: nat, p: nat)
    requires InRange(s) && SingleMaster(s) && Mastered(s, p)
    ensures SameStream(s, DropAll(s, Mates(s, ListenOnly, input)), p)
  {
    DropAllStream(s, Mates(s, ListenOnly, input), p);
  }

  lemma HalfStream(cfg: Config, s: State, c: nat, p: nat)
    requires Inv(cfg, s) && Mastered(s, p) && c in s.active
    ensures SameStream(s, Half(s, c), p)
  {
    if MustHandOver(s.slots[c]) {
      if Heir(s, c).Some? {
        MoveMasterStream(cfg, s, c, Heir(s, c).value, p);
      } else {
        DropListenersStream(s, s.slots[c].input, p);
      }
    }
  }

  /** An established owner is the master of its multicast input, and stays it through its own timeout unless it hands over. */
  lemma OwnerShields(cfg: Config, s: State, c: nat, sessions: seq<nat>, p: nat)
    requires Inv(cfg, s) && Mastered(s, p) && c in s.active && s.slots[c].state == Established && s.slots[c].kind == ExclusiveOwner
    ensures var s1 := CloseSessions(Expire(s, c), sessions);
      Inv(cfg, s1) && InRange(Half(s1, c)) && (!HandsOver(s1, c) ==> Shielded(Half(s1, c), s.slots[c].input, p))
  {
    var s1 := CloseSessions(Expire(s, c), sessions);
    ExpiredAndSessions(cfg, s, c, sessions);
    HalfInv(cfg, s1, c);
    if s.slots[c].input == p && !HandsOver(s1, c) {
      assert Holds(s1.slots[c]);
      MasterUnique(Half(s1, c), p, c);
    }
  }

  /** A timeout never silences an input that had a master: an heir takes over, or the old one stays listed. */
  lemma TimeOutStream(cfg: Config, s: State, c: nat, sessions: seq<nat>, p: nat)
    requires Inv(cfg, s) && Mastered(s, p) && c in s.active && s.slots[c].state == Established
    ensures SameStream(s, TimeOut(s, c, sessions).0, p)
  {
    if s.slots[c].kind == Explicit {
      DropAllStream(s, {c}, p);
    } else {
      var s0 := Expire(s, c);
      ExpireStream(s, c, p);
      ExpireInv(cfg, s, c);
      ExpireMastered(s, c, p);
      CloseSessionsInv(cfg, s0, sessions);
      CloseSessionsMastered(cfg, s0, sessions, p);
      CloseSessionsStream(cfg, s0, sessions, p);
      FallStream(cfg, s, c, sessions, CloseSessions(s0, sessions), p);
    }
  }

  lemma FallStream(cfg: Config, s: State, c: nat, sessions: seq<nat>, s1: State, p: nat)
    requires Inv(cfg, s) && Mastered(s, p) && c in s.active && s.slots[c].state == Established && s.slots[c].kind != Explicit
    requires s1 == CloseSessions(Expire(s, c), sessions) && Mastered(s1, p)
    ensures SameStream(s1, Fall(s1, c).0, p)
  {
    ExpiredAndSessions(cfg, s, c, sessions);
    HalfInv(cfg, s1, c);
    HalfMastered(cfg, s1, c, p);
    HalfStream(cfg, s1, c, p);
    if s1.slots[c].kind == ExclusiveOwner && !HandsOver(s1, c) {
      OwnerShields(cfg, s, c, sessions, p);
      DropDependentsStream(cfg, Half(s1, c), s1.slots[c].input, p);
    }
  }

  // ---- One visit ----

  /** Only the master of an input sends on it, and it sends the next number. */
  lemma ProduceStream(cfg: Config, s: State, c: nat, elapsed: nat, env: Surroundings, p: nat)
    requires Inv(cfg, s) && Uniform(s, p) && c < |s.slots| && Master(s, p).Some?
    ensures var (t, packets) := Produce(s, c, elapsed, env); Advanced(s, t, packets, p)
  {
    var (t, packets) := Produce(s, c, elapsed, env);
    var k := s.slots[c];
    if Produces(k) && Timing.Due(k.trigger, elapsed) && k.input == p {
      assert c in s.active;
      MasterUnique(s, p, c);
      assert InRange(t) && SingleMaster(t);
      MasterUnique(t, p, c);
      assert OnInput(packets, p) == packets;
    } else {
      TouchedInv(cfg, s, t, c);
      MasterUnique(t, p, Master(s, p).value);
      assert OnInput(packets, p) == [];
    }
  }

  lemma SuperviseStream(cfg: Config, s: State, c: nat, elapsed: nat, env: Surroundings, p: nat)
    requires Inv(cfg, s) && Mastered(s, p) && c in s.active && s.slots[c].state == Established && Master(s, p).Some?
    ensures var t := Supervise(s, c, elapsed, env).0; Inv(cfg, t) && Mastered(t, p) && SameStream(s, t, p)
  {
    SuperviseInv(cfg, s, c, elapsed, env);
    if WatchdogFires(s.slots[c], elapsed) {
      TimeOutStream(cfg, s, c, ClosingWith(env, c), p);
      TimeOutMastered(cfg, s, c, ClosingWith(env, c), p);
    } else {
      TouchedStream(s, Supervise(s, c, elapsed, env).0, c, p);
      TouchedMastered(s, Supervise(s, c, elapsed, env).0, c, p);
    }
  }

  lemma ServiceStream(cfg: Config, s: State, c: nat, elapsed: nat, env: Surroundings, p: nat)
    requires Inv(cfg, s) && Mastered(s, p) && c in s.active && Master(s, p).Some?
    ensures var visit := Service(s, c, elapsed, env); Advanced(s, visit.state, visit.sent, p)
  {
    if s.slots[c].state == Established {
      var (t, fatal) := Supervise(s, c, elapsed, env);
      SuperviseStream(cfg, s, c, elapsed, env, p);
      SameStreamAdvanced(s, t, p);
      ProduceStream(cfg, t, c, elapsed, env, p);
      var (u, packets) := Produce(t, c, elapsed, env);
      AdvancedTransitive(s, t, u, [], packets, p);
      assert [] + packets == packets;
    } else {
      SameStreamAdvanced(s, s, p);
    }
  }

  lemma {:induction false} TickFromStream(cfg: Config, s: State, c: nat, elapsed: nat, env: Surroundings, p: nat)
    requires Inv(cfg, s) && Mastered(s, p) && c in s.active && Master(s, p).Some?
    ensures var end := TickFrom(s, c, elapsed, env); Advanced(s, end.state, end.sent, p)
    decreases |After(s.active, c)|
  {
    var visit := Service(s, c, elapsed, env);
    var t := visit.state;
    ServiceInv(cfg, s, c, elapsed, env);
    ServiceMastered(cfg, s, c, elapsed, env, p);
    ServiceStream(cfg, s, c, elapsed, env, p);
    ServiceShrinks(s, c, elapsed, env);
    ShrunkKeepsOrder(s, t);
    if !visit.halted && c in t.active && After(t.active, c) != [] {
      AfterTail(t.active, c);
      var next := After(t.active, c)[0];
      TickFromStream(cfg, t, next, elapsed, env, p);
      var rest := TickFrom(t, next, elapsed, env);
      AdvancedTransitive(s, t, rest.state, visit.sent, rest.sent, p);
    }
  }

  // ---- Whole runs ----

  /** An open does not start the numbering on `p` afresh: it is not an exclusive owner taking over,
      and the connection it replaces, if any, leaves a master behind. */
  ghost predicate Continues(cfg: Config, s: State, step: Step, p: nat)
    requires Fits(cfg, s)
  {
    step.Open? && step.request.path.Path? && step.request.path.target == Assembly && step.request.path.input == p &&
    ForwardOpen(cfg, s, step.request).1.Accepted? ==>
      var pick := PickIo(cfg, s, step.request);
      pick.Slot? && pick.kind != ExclusiveOwner && InRange(pick.state) && Master(pick.state, p).Some?
  }

  lemma AttachStream(s: State, c: nat, k: Conn, socket: nat, p: nat)
    requires InRange(s) && SingleMaster(s) && c < |s.slots| && c !in s.active && k.kind != Explicit && k.producing == INVALID_SOCKET
    requires k.input == p ==> k.kind != ExclusiveOwner && k.tToO == Multicast
    ensures SameStream(s, Attach(s, c, k, socket), p)
  {
    if Master(s, p).Some? {
      var h := Master(s, p).value;
      var t := Attach(s, c, k, socket);
      AttachAttached(s, c, k, socket);
      AttachSingleMaster(s, c, k, socket);
      assert t.slots[h] == s.slots[h];
      MasterUnique(t, p, h);
    }
  }

  /** Attaching on another input does not conjure up a master here. */
  lemma AttachElsewhere(s: State, c: nat, k: Conn, socket: nat, p: nat)
    requires InRange(s) && c < |s.slots| && c !in s.active && k.input != p
    requires InRange(Attach(s, c, k, socket)) && Master(Attach(s, c, k, socket), p).Some?
    ensures Master(s, p).Some?
  {
    AttachAttached(s, c, k, socket);
    var h := Master(Attach(s, c, k, socket), p).value;
    assert h != c && Matches(s.slots[h], Producer(true, p));
  }

  lemma PickStream(cfg: Config, s: State, r: Request, p: nat)
    requires Inv(cfg, s) && Mastered(s, p) && r.path.Path?
    requires var pick := PickIo(cfg, s, r); pick.Slot? && InRange(pick.state) && Master(pick.state, p).Some?
    ensures SameStream(s, PickIo(cfg, s, r).state, p)
  {
    PickIoGood(cfg, s, r);
    var pick := PickIo(cfg, s, r);
    if pick.state != s {
      CloseStream(cfg, s, pick.id, p);
    }
  }

  lemma AcceptedStream(cfg: Config, s: State, r: Request, p: nat)
    requires Inv(cfg, s) && Mastered(s, p) && AsksMulticast(r, p)
    requires r.path.Path? && r.path.target == Assembly && ForwardOpen(cfg, s, r).1.Accepted?
    requires Continues(cfg, s, Open(r), p)
    requires InRange(ForwardOpen(cfg, s, r).0) && Master(ForwardOpen(cfg, s, r).0, p).Some?
    ensures SameStream(s, ForwardOpen(cfg, s, r).0, p)
  {
    PickIoGood(cfg, s, r);
    var pick := PickIo(cfg, s, r);
    var k := AcceptedAttaches(cfg, s, r);
    if r.path.input != p {
      AttachElsewhere(pick.state, pick.id, k, r.socket, p);
    }
    PickStream(cfg, s, r, p);
    AttachStream(pick.state, pick.id, k, r.socket, p);
  }

  /** The exception is exact: an accepted open on `p` for which that does not hold makes the new connection
      the master, and its numbers and counts start from zero. */
  lemma TakeoverRestarts(cfg: Config, s: State, r: Request, p: nat)
    requires Inv(cfg, s) && r.path.Path? && r.path.target == Assembly && r.path.input == p && r.tToO == Multicast
    requires ForwardOpen(cfg, s, r).1.Accepted? && !Continues(cfg, s, Open(r), p)
    ensures var (t, reply) := ForwardOpen(cfg, s, r);
      InRange(t) && Master(t, p) == Some(reply.slot) && Position(t, p) == 0 && Count(t, p) == 0
  {
    PickIoGood(cfg, s, r);
    var pick := PickIo(cfg, s, r);
    var k := AcceptedAttaches(cfg, s, r);
    AcceptedSlot(cfg, s, r);
    NewMaster(pick.state, pick.id, k, r.socket, p);
  }

  lemma NewMaster(s: State, c: nat, k: Conn, socket: nat, p: nat)
    requires InRange(s) && c < |s.slots| && c !in s.active && k.kind != Explicit && k.input == p && k.tToO == Multicast && k.eipSequence == 0 && k.sequenceCount == 0
    requires k.kind == ExclusiveOwner || Master(s, p).None?
    ensures var t := Attach(s, c, k, socket); InRange(t) && Master(t, p) == Some(c) && Position(t, p) == 0 && Count(t, p) == 0
  {
    var t := Attach(s, c, k, socket);
    assert t.active[0] == c && Matches(t.slots[c], Producer(true, p));
  }

  lemma RefusedStream(cfg: Config, s: State, r: Request, p: nat)
    requires Inv(cfg, s) && Mastered(s, p)
    requires r.path.Path? && r.path.target == Assembly && !ForwardOpen(cfg, s, r).1.Accepted?
    requires InRange(ForwardOpen(cfg, s, r).0) && Master(ForwardOpen(cfg, s, r).0, p).Some?
    ensures SameStream(s, ForwardOpen(cfg, s, r).0, p)
  {
    var k := RefusedWrites(cfg, s, r);
    var t := ForwardOpen(cfg, s, r).0;
    if t != s {
      PickIoGood(cfg, s, r);
      var pick := PickIo(cfg, s, r);
      FirstUnlisted(pick.state.slots, pick.state.active, pick.id, k, Producer(true, p));
      PickStream(cfg, s, r, p);
    }
  }

  lemma ExplicitStream(cfg: Config, s: State, r: Request, p: nat)
    requires Inv(cfg, s) && r.path.Path? && r.path.target == MessageRouter && Inv(cfg, ForwardOpen(cfg, s, r).0)
    ensures SameStream(s, ForwardOpen(cfg, s, r).0, p)
  {
    OpenCases(cfg, s, r);
    var t := ForwardOpen(cfg, s, r).0;
    if t != s && Master(s, p).Some? {
      ExplicitKeepsOthers(cfg, s, r, FirstUnused(r.draws, Numbers(s)).value, Master(s, p).value);
      MasterUnique(t, p, Master(s, p).value);
    }
  }

  lemma ExplicitKeepsOthers(cfg: Config, s: State, r: Request, number: nat, h: nat)
    requires Inv(cfg, s) && r.path.Path? && h in s.active
    ensures var t := EstablishExplicit(cfg, s, r, number).0; h in t.active && h < |t.slots| && t.slots[h] == s.slots[h]
  {
  }

  lemma OpenStream(cfg: Config, s: State, r: Request, p: nat)
    requires Inv(cfg, s) && Mastered(s, p) && Parsed(r) && AsksMulticast(r, p)
    requires Continues(cfg, s, Open(r), p)
    requires InRange(ForwardOpen(cfg, s, r).0) && Master(ForwardOpen(cfg, s, r).0, p).Some?
    ensures SameStream(s, ForwardOpen(cfg, s, r).0, p)
  {
    ForwardOpenInv(cfg, s, r);
    if r.path.Path? && r.path.target == Assembly {
      if ForwardOpen(cfg, s, r).1.Accepted? {
        AcceptedStream(cfg, s, r, p);
      } else {
        RefusedStream(cfg, s, r, p);
      }
    } else if r.path.Path? && r.path.target == MessageRouter {
      ExplicitStream(cfg, s, r, p);
    }
  }

  /** Whatever is not a tick sends nothing and leaves the stream where it is. */
  lemma QuietStream(cfg: Config, s: State, step: Step, p: nat)
    requires Inv(cfg, s) && Mastered(s, p) && Proper(step) && !step.Elapse?
    requires (step.Open? ==> AsksMulticast(step.request, p)) && Continues(cfg, s, step, p)
    requires Master(s, p).Some? && InRange(Next(cfg, s, step).state) && Master(Next(cfg, s, step).state, p).Some?
    ensures SameStream(s, Next(cfg, s, step).state, p)
  {
    match step {
      case Open(request) =>
        OpenStream(cfg, s, request, p);
      case Shut(triad, from) => ShutStream(cfg, s, triad, from, p);
      case Elapse(_, _) =>
      case Arrive(connectionId, sequence, from) => ReceiveStream(s, connectionId, sequence, from, p);
      case Message(connectionId) => RearmStream(s, connectionId, p);
      case EndSession(session) => CloseSessionStream(cfg, s, session, p);
      case ShutDown =>
    }
  }

  lemma ReceiveStream(s: State, connectionId: nat, sequence: nat, from: nat, p: nat)
    requires InRange(s) && SingleMaster(s)
    ensures SameStream(s, Receive(s, connectionId, sequence, from), p)
  {
    var c := First(s.slots, s.active, Consumer(connectionId));
    if c.Some? {
      TouchedStream(s, Receive(s, connectionId, sequence, from), c.value, p);
    }
  }

  lemma RearmStream(s: State, connectionId: nat, p: nat)
    requires InRange(s) && SingleMaster(s)
    ensures SameStream(s, Rearm(s, connectionId), p)
  {
    var c := First(s.slots, s.active, Consumer(connectionId));
    if c.Some? {
      TouchedStream(s, Rearm(s, connectionId), c.value, p);
    }
  }

  lemma ShutStream(cfg: Config, s: State, triad: Triad, from: nat, p: nat)
    requires Inv(cfg, s) && Mastered(s, p) && InRange(ForwardClose(s, triad, from).0) && Master(ForwardClose(s, triad, from).0, p).Some?
    ensures SameStream(s, ForwardClose(s, triad, from).0, p)
  {
    var c := First(s.slots, s.active, AnyTriad(triad));
    if c.Some? && s.slots[c.value].address == from {
      CloseStream(cfg, s, c.value, p);
    }
  }

  lemma CloseSessionStream(cfg: Config, s: State, session: nat, p: nat)
    requires Inv(cfg, s)
    ensures SameStream(s, CloseSession(s, session), p)
  {
    var c := First(s.slots, s.active, Class3(session));
    if c.Some? {
      Class3Explicit(cfg, s, session);
      DropAllStream(s, {c.value}, p);
    }
  }

  lemma NextStream(cfg: Config, s: State, step: Step, p: nat)
    requires Inv(cfg, s) && Mastered(s, p) && Proper(step)
    requires (step.Open? ==> AsksMulticast(step.request, p)) && Continues(cfg, s, step, p)
    requires Master(s, p).Some? && InRange(Next(cfg, s, step).state) && Master(Next(cfg, s, step).state, p).Some?
    ensures var n := Next(cfg, s, step); Advanced(s, n.state, n.sent, p)
  {
    if step.Elapse? {
      assert s.active != [];
      TickFromStream(cfg, s, s.active[0], step.elapsed, step.env, p);
    } else {
      QuietStream(cfg, s, step, p);
      SameStreamAdvanced(s, Next(cfg, s, step).state, p);
    }
  }

  /** Input `p` has a master all along and no open restarts its numbering. */
  ghost predicate Unbroken(cfg: Config, s: State, steps: seq<Step>, p: nat)
    requires Inv(cfg, s) && ProperSteps(steps)
    decreases steps
  {
    && Master(s, p).Some?
    && (steps != [] ==>
      var n := Next(cfg, s, steps[0]);
      && Continues(cfg, s, steps[0], p)
      && Inv(cfg, n.state) && Master(n.state, p).Some?
      && (!n.halted ==> Unbroken(cfg, n.state, steps[1..], p)))
  }

  /** Across any run of sends, opens, closes and timeouts that leaves the input a master, the frames
      sent on it carry one connection ID and sequence numbers that rise by exactly one. */
  lemma {:induction false} StreamContinues(cfg: Config, s: State, steps: seq<Step>, p: nat)
    requires Inv(cfg, s) && ProperSteps(steps) && MulticastOnly(steps, p) && Mastered(s, p)
    requires Unbroken(cfg, s, steps, p)
    ensures var end := Run(cfg, s, steps); Advanced(s, end.state, end.sent, p)
    decreases steps
  {
    if steps == [] {
      SameStreamAdvanced(s, s, p);
    } else {
      var n := Next(cfg, s, steps[0]);
      NextInv(cfg, s, steps[0]);
      NextMastered(cfg, s, steps[0], p);
      NextStream(cfg, s, steps[0], p);
      if !n.halted {
        StreamContinues(cfg, n.state, steps[1..], p);
        var rest := Run(cfg, n.state, steps[1..]);
        AdvancedTransitive(s, n.state, rest.state, n.sent, rest.sent, p);
      }
    }
  }
}
