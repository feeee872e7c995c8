/** The connection lifecycle as a transition system: one function per operation of the stack,
    from the slots and the active list before to the slots and the list after. */
module Lifecycle {
  import opened Sequences
  import opened Wrappers
  import opened Connections
  import Timing
  import Words

  datatype State = State(slots: seq<Conn>, active: seq<nat>)

  predicate InRange(s: State) {
    forall c :: c in s.active ==> c < |s.slots|
  }

  // ---- Scans of the active list ----

  datatype Query =
    | Producer(multicastOnly: bool, input: nat)
    | NextMaster(input: nat)
    | Owner(input: nat)
    | MatchingTriad(triad: Triad)
    | AnyTriad(triad: Triad)
    | Consumer(connectionId: nat)
    | Class3(session: nat)

  predicate Matches(k: Conn, q: Query) {
    match q
    case Producer(multicastOnly, input) =>
      && k.kind != Explicit && k.input == input && k.producing != INVALID_SOCKET
      && (k.tToO == Multicast || (!multicastOnly && k.tToO == PointToPoint))
    case NextMaster(input) =>
      && (k.kind == ExclusiveOwner || k.kind == InputOnly) && k.state == Established
      && k.input == input && k.tToO == Multicast && k.producing == INVALID_SOCKET
    case Owner(input) => k.kind == ExclusiveOwner && k.state != NonExistent && k.input == input
    case MatchingTriad(triad) => k.state == Established && k.triad == triad
    case AnyTriad(triad) => k.state != NonExistent && k.triad == triad
    case Consumer(connectionId) => k.state == Established && k.consumedId == connectionId
    case Class3(session) => k.production.transportClass == 3 && k.session == session
  }

  /** The first of the listed slots that matches. */
  function First(slots: seq<Conn>, xs: seq<nat>, q: Query): (r: Option<nat>)
    requires forall x :: x in xs ==> x < |slots|
    ensures r.Some? ==> r.value in xs && Matches(slots[r.value], q)
    ensures r.None? ==> forall x :: x in xs ==> !Matches(slots[x], q)
  {
    if xs == [] then None else
      assert xs[0] in xs && forall x :: x in xs[1..] ==> x in xs;
      if Matches(slots[xs[0]], q) then Some(xs[0])
      else First(slots, xs[1..], q)
  }

  /** Whatever else passes the test comes after the one found. */
  lemma {:induction false} FirstPrecedes(slots: seq<Conn>, xs: seq<nat>, q: Query, b: nat)
    requires (forall x :: x in xs ==> x < |slots|) && b in xs && Matches(slots[b], q)
    ensures var o := First(slots, xs, q); o.Some? && (b == o.value || b in After(xs, o.value))
  {
    assert xs[0] in xs && forall x :: x in xs[1..] ==> x in xs;
    if !Matches(slots[xs[0]], q) {
      FirstPrecedes(slots, xs[1..], q, b);
    }
  }

  /** A scan does not see slots that are not listed. */
  lemma {:induction false} FirstUnlisted(slots: seq<Conn>, xs: seq<nat>, c: nat, k: Conn, q: Query)
    requires (forall x :: x in xs ==> x < |slots|) && c < |slots| && c !in xs
    ensures First(slots[c := k], xs, q) == First(slots, xs, q)
  {
    if xs != [] {
      assert xs[0] in xs && forall x :: x in xs[1..] ==> x in xs;
      FirstUnlisted(slots, xs[1..], c, k, q);
    }
  }

  // ---- Closing ----

  /** Slots emptied and taken off the list, the rest of the list in order. */
  function DropAll(s: State, gone: set<nat>): (t: State)
    ensures |t.slots| == |s.slots|
    ensures forall i :: 0 <= i < |s.slots| ==> t.slots[i] == if i in gone then EMPTY else s.slots[i]
    ensures t.active == Without(s.active, gone)
  {
    State(seq(|s.slots|, i requires 0 <= i < |s.slots| => if i in gone then EMPTY else s.slots[i]), Without(s.active, gone))
  }

  /** The listed connections of one application type on one input. */
  function Mates(s: State, kind: Kind, input: nat): set<nat>
    requires InRange(s)
  {
    set c | c in s.active && s.slots[c].kind == kind && s.slots[c].input == input
  }

  /** Whether this connection holds the multicast socket of its input. */
  predicate Holds(k: Conn) {
    k.kind != Explicit && k.tToO == Multicast && k.producing != INVALID_SOCKET
  }

  /** Whether closing or timing out this connection has to look for a new master. */
  predicate MustHandOver(k: Conn) {
    Holds(k) && (k.kind == ExclusiveOwner || k.kind == InputOnly)
  }

  /** Socket, destination and counters move from `c` to `m`. */
  function MoveMaster(s: State, c: nat, m: nat): (t: State)
    requires c < |s.slots| && m < |s.slots|
    ensures |t.slots| == |s.slots| && t.active == s.active
  {
    var k := s.slots[c];
    var heir := s.slots[m].(producing := k.producing, remote := k.remote, eipSequence := k.eipSequence,
                            sequenceCount := k.sequenceCount, trigger := k.trigger);
    s.(slots := s.slots[m := heir][c := k.(producing := INVALID_SOCKET)])
  }

  /** The listed connection that would take over the input of `c`. */
  function Heir(s: State, c: nat): Option<nat>
    requires InRange(s) && c < |s.slots|
  {
    First(s.slots, s.active, NextMaster(s.slots[c].input))
  }

  /** Closing: a master hands over or takes the listeners of its input with it. */
  function Close(s: State, c: nat): (t: State)
    requires InRange(s) && c < |s.slots|
    ensures |t.slots| == |s.slots|
  {
    if !MustHandOver(s.slots[c]) then DropAll(s, {c})
    else match Heir(s, c)
      case Some(m) => DropAll(MoveMaster(s, c, m), {c})
      case None => DropAll(s, Mates(s, ListenOnly, s.slots[c].input) + {c})
  }

  // ---- The list only ever loses members between opens ----

  /** `t` lists what `s` lists, less some members, in the same order. */
  ghost predicate Shrunk(s: State, t: State) {
    t.active == Without(s.active, Missing(s, t))
  }

  ghost function Missing(s: State, t: State): set<nat> {
    set c | c in s.active && c !in t.active
  }

  lemma DropAllShrinks(s: State, gone: set<nat>)
    ensures Shrunk(s, DropAll(s, gone))
  {
    WithoutSame(s.active, gone, Missing(s, DropAll(s, gone)));
  }

  lemma SameShrinks(s: State, t: State)
    requires s.active == t.active
    ensures Shrunk(s, t)
  {
    WithoutNone(s.active, Missing(s, t));
  }

  lemma ShrunkTransitive(s: State, t: State, u: State)
    requires Shrunk(s, t) && Shrunk(t, u)
    ensures Shrunk(s, u)
  {
    WithoutTwice(s.active, Missing(s, t), Missing(t, u));
    WithoutSame(s.active, Missing(s, t) + Missing(t, u), Missing(s, u));
  }

  lemma CloseShrinks(s: State, c: nat)
    requires InRange(s) && c < |s.slots|
    ensures Shrunk(s, Close(s, c))
  {
    if !MustHandOver(s.slots[c]) {
      DropAllShrinks(s, {c});
    } else if Heir(s, c).Some? {
      var t := MoveMaster(s, c, Heir(s, c).value);
      SameShrinks(s, t);
      DropAllShrinks(t, {c});
      ShrunkTransitive(s, t, Close(s, c));
    } else {
      DropAllShrinks(s, Mates(s, ListenOnly, s.slots[c].input) + {c});
    }
  }

  lemma ShrunkKeepsOrder(s: State, t: State)
    requires InRange(s) && Distinct(s.active) && Shrunk(s, t) && |t.slots| == |s.slots|
    ensures InRange(t) && Distinct(t.active)
    ensures forall c :: c in t.active ==> c in s.active && |After(t.active, c)| <= |After(s.active, c)|
  {
    WithoutDistinct(s.active, Missing(s, t));
    forall c | c in t.active
      ensures c in s.active && |After(t.active, c)| <= |After(s.active, c)|
    {
      AfterWithout(s.active, Missing(s, t), c);
    }
  }

  lemma AfterTail(xs: seq<nat>, c: nat)
    requires Distinct(xs) && c in xs && After(xs, c) != []
    ensures After(xs, c)[0] in xs && After(xs, c)[0] != c
    ensures After(xs, After(xs, c)[0]) == After(xs, c)[1..]
  {
    var k := IndexOf(xs, c);
    AfterAt(xs, k);
    AfterAt(xs, k + 1);
  }

  // ---- Closing all connections of one type on one input ----

  /** What one round of the walk does to the connection at the cursor. */
  function CloseIfMate(s: State, c: nat, kind: Kind, input: nat): (t: State)
    requires InRange(s) && c < |s.slots|
    ensures |t.slots| == |s.slots|
  {
    if s.slots[c].kind == kind && s.slots[c].input == input then Close(s, c) else s
  }

  lemma CloseIfMateShrinks(s: State, c: nat, kind: Kind, input: nat)
    requires InRange(s) && c < |s.slots|
    ensures Shrunk(s, CloseIfMate(s, c, kind, input))
  {
    SameShrinks(s, s);
    CloseShrinks(s, c);
  }

  /** The walk from the node of `c` on, which reads each successor before it closes. A close may take the
      successor off the list too; its node then reads as zero, and following the data of that node is fatal. */
  function CloseFrom(s: State, c: nat, kind: Kind, input: nat): (r: (State, bool))
    requires InRange(s) && Distinct(s.active) && c in s.active
    ensures |r.0.slots| == |s.slots| && InRange(r.0) && Distinct(r.0.active)
    decreases |After(s.active, c)|
  {
    var t := CloseIfMate(s, c, kind, input);
    CloseIfMateShrinks(s, c, kind, input);
    ShrunkKeepsOrder(s, t);
    if After(s.active, c) == [] then (t, false) else
      AfterTail(s.active, c);
      var n := After(s.active, c)[0];
      if n !in t.active then (t, true) else CloseFrom(t, n, kind, input)
  }

  function CloseMates(s: State, kind: Kind, input: nat): (r: (State, bool))
    requires InRange(s) && Distinct(s.active)
    ensures |r.0.slots| == |s.slots| && InRange(r.0) && Distinct(r.0.active)
  {
    if s.active == [] then (s, false) else CloseFrom(s, s.active[0], kind, input)
  }

  lemma {:induction false} CloseFromShrinks(s: State, c: nat, kind: Kind, input: nat)
    requires InRange(s) && Distinct(s.active) && c in s.active
    ensures Shrunk(s, CloseFrom(s, c, kind, input).0)
    decreases |After(s.active, c)|
  {
    var t := CloseIfMate(s, c, kind, input);
    CloseIfMateShrinks(s, c, kind, input);
    ShrunkKeepsOrder(s, t);
    if After(s.active, c) != [] && After(s.active, c)[0] in t.active {
      AfterTail(s.active, c);
      CloseFromShrinks(t, After(s.active, c)[0], kind, input);
      ShrunkTransitive(s, t, CloseFrom(s, c, kind, input).0);
    }
  }

  lemma CloseMatesShrinks(s: State, kind: Kind, input: nat)
    requires InRange(s) && Distinct(s.active)
    ensures Shrunk(s, CloseMates(s, kind, input).0)
  {
    SameShrinks(s, s);
    if s.active != [] {
      CloseFromShrinks(s, s.active[0], kind, input);
    }
  }

  /** No connection of this type on the input has to look for a new master when it is closed. */
  ghost predicate Settled(s: State, kind: Kind, input: nat)
    requires InRange(s)
  {
    forall c :: c in Mates(s, kind, input) ==> !MustHandOver(s.slots[c])
  }

  /** One round takes the successor off the list exactly when the last master closes and the successor listens to it. */
  lemma FatalRound(s: State, c: nat, kind: Kind, input: nat)
    requires InRange(s) && Distinct(s.active) && c in s.active && After(s.active, c) != []
    ensures After(s.active, c)[0] in s.active
    ensures var n, k := After(s.active, c)[0], s.slots[c];
      n !in CloseIfMate(s, c, kind, input).active <==>
      && k.kind == kind && k.input == input && MustHandOver(k) && Heir(s, c).None?
      && s.slots[n].kind == ListenOnly && s.slots[n].input == input
  {
    AfterTail(s.active, c);
  }

  /** The mates at the cursor or behind it. */
  ghost function DueMates(s: State, c: nat, kind: Kind, input: nat): set<nat>
    requires InRange(s)
  {
    set m | m in Mates(s, kind, input) && (m == c || m in After(s.active, c))
  }

  /** Moving on from `c`, whether or not `c` is taken off the list, what follows stays what follows. */
  lemma StepOn(xs: seq<nat>, c: nat, here: set<nat>)
    requires Distinct(xs) && c in xs && After(xs, c) != [] && here <= {c}
    ensures var n, ys := After(xs, c)[0], Without(xs, here);
      && n != c && n in xs && n in ys && Distinct(ys) && c !in After(xs, c)
      && After(xs, c) == [n] + After(xs, n) && After(ys, n) == After(xs, n)
  {
    var n := After(xs, c)[0];
    AfterTail(xs, c);
    AfterAt(xs, IndexOf(xs, c));
    assert c !in After(xs, c);
    assert After(xs, c) == [n] + After(xs, c)[1..];
    WithoutDistinct(xs, here);
    AfterWithout(xs, here, n);
    WithoutNone(After(xs, n), here);
  }

  /** What is left of a type after some connections are dropped. */
  lemma MatesLeft(s: State, gone: set<nat>, kind: Kind, input: nat)
    requires InRange(s)
    ensures InRange(DropAll(s, gone)) && Mates(DropAll(s, gone), kind, input) == Mates(s, kind, input) - gone
  {
  }

  /** What is due after one round. */
  lemma DueNext(s: State, c: nat, kind: Kind, input: nat, here: set<nat>)
    requires InRange(s) && Distinct(s.active) && c in s.active && After(s.active, c) != []
    requires here == if c in Mates(s, kind, input) then {c} else {}
    ensures var t, n := DropAll(s, here), After(s.active, c)[0];
      InRange(t) && here + DueMates(t, n, kind, input) == DueMates(s, c, kind, input)
  {
    var t, n := DropAll(s, here), After(s.active, c)[0];
    StepOn(s.active, c, here);
    MatesLeft(s, here, kind, input);
    forall m
      ensures m in here + DueMates(t, n, kind, input) <==> m in DueMates(s, c, kind, input)
    {
      assert m in After(s.active, c) <==> m == n || m in After(s.active, n);
      assert m in Mates(t, kind, input) <==> m in Mates(s, kind, input) && m !in here;
    }
  }

  /** One round, where nobody has to hand over. */
  lemma SettledRound(s: State, c: nat, kind: Kind, input: nat, here: set<nat>, t: State)
    requires InRange(s) && Distinct(s.active) && c in s.active && Settled(s, kind, input)
    requires here == (if c in Mates(s, kind, input) then {c} else {}) && t == CloseIfMate(s, c, kind, input)
    ensures t == DropAll(s, here) && InRange(t) && Distinct(t.active) && Settled(t, kind, input)
  {
    DropAllNone(s);
    WithoutDistinct(s.active, here);
  }

  /** From the cursor on, all mates are dropped and nothing is fatal, as long as none of them holds the socket. */
  lemma {:induction false} SettledFrom(s: State, c: nat, kind: Kind, input: nat)
    requires InRange(s) && Distinct(s.active) && c in s.active && Settled(s, kind, input)
    ensures CloseFrom(s, c, kind, input) == (DropAll(s, DueMates(s, c, kind, input)), false)
    decreases |After(s.active, c)|
  {
    var here := if c in Mates(s, kind, input) then {c} else {};
    var t := CloseIfMate(s, c, kind, input);
    SettledRound(s, c, kind, input, here, t);
    if After(s.active, c) == [] {
      assert DueMates(s, c, kind, input) == here;
    } else {
      var n := After(s.active, c)[0];
      StepOn(s.active, c, here);
      SettledFrom(t, n, kind, input);
      DueNext(s, c, kind, input, here);
      DropAllTwice(s, here, DueMates(t, n, kind, input));
    }
  }

  /** So the whole walk drops exactly the mates. */
  lemma SettledWalk(s: State, kind: Kind, input: nat)
    requires InRange(s) && Distinct(s.active) && Settled(s, kind, input)
    ensures CloseMates(s, kind, input) == (DropAll(s, Mates(s, kind, input)), false)
  {
    if s.active == [] {
      DropAllNone(s);
      assert Mates(s, kind, input) == {};
    } else {
      SettledFrom(s, s.active[0], kind, input);
      AllDue(s, kind, input);
    }
  }

  lemma AllDue(s: State, kind: Kind, input: nat)
    requires InRange(s) && s.active != []
    ensures DueMates(s, s.active[0], kind, input) == Mates(s, kind, input)
  {
    assert s.active == [s.active[0]] + After(s.active, s.active[0]);
  }

  lemma DropAllTwice(s: State, a: set<nat>, b: set<nat>)
    ensures DropAll(DropAll(s, a), b) == DropAll(s, a + b)
  {
    WithoutTwice(s.active, a, b);
    assert DropAll(DropAll(s, a), b).slots == DropAll(s, a + b).slots;
  }

  lemma DropAllNone(s: State)
    ensures DropAll(s, {}) == s
  {
    WithoutNone(s.active, {});
    assert DropAll(s, {}).slots == s.slots;
  }

  // ---- Ending sessions ----

  /** Closing an encapsulation session closes the first class 3 connection that came through it. */
  function CloseSession(s: State, session: nat): (t: State)
    requires InRange(s)
    ensures |t.slots| == |s.slots|
  {
    match First(s.slots, s.active, Class3(session))
    case Some(c) => Close(s, c)
    case None => s
  }

  lemma CloseSessionShrinks(s: State, session: nat)
    requires InRange(s)
    ensures Shrunk(s, CloseSession(s, session))
  {
    var c := First(s.slots, s.active, Class3(session));
    if c.Some? {
      CloseShrinks(s, c.value);
    } else {
      SameShrinks(s, s);
    }
  }

  function CloseSessions(s: State, sessions: seq<nat>): (t: State)
    requires InRange(s) && Distinct(s.active)
    ensures |t.slots| == |s.slots| && InRange(t) && Distinct(t.active)
    decreases sessions
  {
    if sessions == [] then s else
      var t := CloseSession(s, sessions[0]);
      CloseSessionShrinks(s, sessions[0]);
      ShrunkKeepsOrder(s, t);
      CloseSessions(t, sessions[1..])
  }

  lemma {:induction false} CloseSessionsShrinks(s: State, sessions: seq<nat>)
    requires InRange(s) && Distinct(s.active)
    ensures Shrunk(s, CloseSessions(s, sessions))
    decreases sessions
  {
    if sessions == [] {
      SameShrinks(s, s);
    } else {
      var t := CloseSession(s, sessions[0]);
      CloseSessionShrinks(s, sessions[0]);
      ShrunkKeepsOrder(s, t);
      CloseSessionsShrinks(t, sessions[1..]);
      ShrunkTransitive(s, t, CloseSessions(s, sessions));
    }
  }

  // ---- Timing out ----

  function Expire(s: State, c: nat): State
    requires c < |s.slots|
  {
    s.(slots := s.slots[c := s.slots[c].(state := TimedOut)])
  }

  /** Whether a connection that times out finds somebody to take the socket of its input. */
  predicate HandsOver(s: State, c: nat)
    requires InRange(s) && c < |s.slots|
  {
    MustHandOver(s.slots[c]) && Heir(s, c).Some?
  }

  /** First half of a timeout: the master hands over, or its listeners go. */
  function Half(s: State, c: nat): (t: State)
    requires InRange(s) && c < |s.slots|
    ensures |t.slots| == |s.slots|
  {
    if !MustHandOver(s.slots[c]) then s
    else match Heir(s, c)
      case Some(m) => MoveMaster(s, c, m)
      case None => DropAll(s, Mates(s, ListenOnly, s.slots[c].input))
  }

  lemma HalfShrinks(s: State, c: nat)
    requires InRange(s) && c < |s.slots|
    ensures Shrunk(s, Half(s, c))
  {
    if MustHandOver(s.slots[c]) && Heir(s, c).None? {
      DropAllShrinks(s, Mates(s, ListenOnly, s.slots[c].input));
    } else {
      SameShrinks(s, Half(s, c));
    }
  }

  /** An owner that timed out takes the input-only, then the listen-only connections of its input along. */
  function DropDependents(s: State, input: nat): (r: (State, bool))
    requires InRange(s) && Distinct(s.active)
    ensures |r.0.slots| == |s.slots|
  {
    var (t, fatal) := CloseMates(s, InputOnly, input);
    if fatal then (t, true) else (DropAll(t, Mates(t, ListenOnly, input)), false)
  }

  lemma DropDependentsShrinks(s: State, input: nat)
    requires InRange(s) && Distinct(s.active)
    ensures Shrunk(s, DropDependents(s, input).0)
  {
    var (t, fatal) := CloseMates(s, InputOnly, input);
    CloseMatesShrinks(s, InputOnly, input);
    if !fatal {
      DropAllShrinks(t, Mates(t, ListenOnly, input));
      ShrunkTransitive(s, t, DropDependents(s, input).0);
    }
  }

  /** What follows the change to the timed-out state and the closing of sessions. */
  function Fall(s: State, c: nat): (r: (State, bool))
    requires InRange(s) && Distinct(s.active) && c < |s.slots|
    ensures |r.0.slots| == |s.slots|
  {
    HalfShrinks(s, c);
    ShrunkKeepsOrder(s, Half(s, c));
    if s.slots[c].kind == ExclusiveOwner && !HandsOver(s, c) then DropDependents(Half(s, c), s.slots[c].input)
    else (Half(s, c), false)
  }

  lemma FallShrinks(s: State, c: nat)
    requires InRange(s) && Distinct(s.active) && c < |s.slots|
    ensures Shrunk(s, Fall(s, c).0)
  {
    var u := Half(s, c);
    HalfShrinks(s, c);
    ShrunkKeepsOrder(s, u);
    if s.slots[c].kind == ExclusiveOwner && !HandsOver(s, c) {
      DropDependentsShrinks(u, s.slots[c].input);
      ShrunkTransitive(s, u, Fall(s, c).0);
    }
  }

  /** Watchdog action, and whether it is fatal. `sessions` are the encapsulation sessions that close along with it. */
  function TimeOut(s: State, c: nat, sessions: seq<nat>): (r: (State, bool))
    requires InRange(s) && Distinct(s.active) && c < |s.slots|
    ensures |r.0.slots| == |s.slots|
  {
    if s.slots[c].kind == Explicit then (DropAll(s, {c}), false) else Fall(CloseSessions(Expire(s, c), sessions), c)
  }

  lemma TimeOutShrinks(s: State, c: nat, sessions: seq<nat>)
    requires InRange(s) && Distinct(s.active) && c < |s.slots|
    ensures Shrunk(s, TimeOut(s, c, sessions).0)
  {
    if s.slots[c].kind == Explicit {
      DropAllShrinks(s, {c});
    } else {
      var s1 := CloseSessions(Expire(s, c), sessions);
      CloseSessionsShrinks(Expire(s, c), sessions);
      SameShrinks(s, Expire(s, c));
      ShrunkTransitive(s, Expire(s, c), s1);
      FallShrinks(s1, c);
      ShrunkTransitive(s, s1, TimeOut(s, c, sessions).0);
    }
  }

  // ---- Servicing ----

  /** A UDP frame as it leaves: on which input, with which connection ID and EIP sequence number. A class 0 frame does
      not carry that number, the stack only counts it. */
  datatype Packet = Packet(input: nat, connectionId: nat, sequence: nat, count: nat)

  /** What the surroundings contribute to a tick: the sessions closed when a slot times out,
      and the slots whose application data is new. */
  datatype Surroundings = Surroundings(closing: map<nat, seq<nat>>, changed: set<nat>)

  function ClosingWith(env: Surroundings, c: nat): seq<nat> {
    if c in env.closing then env.closing[c] else []
  }

  predicate WatchdogFires(k: Conn, elapsed: nat) {
    k.state == Established && k.supervised && elapsed >= k.watchdog
  }

  predicate Produces(k: Conn) {
    k.state == Established && Timing.ExpectedPacketRate(k.production.interval) != 0 && k.producing != INVALID_SOCKET
  }

  /** The watchdog half of one visit, and whether it is fatal. */
  function Supervise(s: State, c: nat, elapsed: nat, env: Surroundings): (r: (State, bool))
    requires InRange(s) && Distinct(s.active) && c < |s.slots|
    ensures |r.0.slots| == |s.slots|
  {
    var k := s.slots[c];
    if WatchdogFires(k, elapsed) then TimeOut(s, c, ClosingWith(env, c))
    else if k.state == Established && k.supervised then (s.(slots := s.slots[c := k.(watchdog := k.watchdog - elapsed)]), false)
    else (s, false)
  }

  /** A connection after sending one frame. */
  function Sent(k: Conn, changed: bool): Conn {
    k.(eipSequence := (k.eipSequence + 1) % Words.WORD32,
       sequenceCount := if changed then (k.sequenceCount + 1) % Words.WORD16 else k.sequenceCount)
  }

  /** The production half of one visit. */
  function Produce(s: State, c: nat, elapsed: nat, env: Surroundings): (r: (State, seq<Packet>))
    requires c < |s.slots|
    ensures |r.0.slots| == |s.slots| && r.0.active == s.active
  {
    var k := s.slots[c];
    if !Produces(k) then (s, []) else
      var sent := if Timing.Due(k.trigger, elapsed) then Sent(k, c in env.changed) else k;
      var after := sent.(trigger := Timing.NextTrigger(k.trigger, elapsed, Timing.RequestedInterval(k.production.interval)));
      (s.(slots := s.slots[c := after]),
       if Timing.Due(k.trigger, elapsed) then [Packet(k.input, k.producedId, sent.eipSequence, sent.sequenceCount)] else [])
  }

  /** The state and the frames after a visit, a walk or a run, and whether the stack goes no further. */
  datatype Progress = Progress(state: State, sent: seq<Packet>, halted: bool)

  function Service(s: State, c: nat, elapsed: nat, env: Surroundings): (r: Progress)
    requires InRange(s) && Distinct(s.active) && c < |s.slots|
    ensures |r.state.slots| == |s.slots|
  {
    if s.slots[c].state != Established then Progress(s, [], false) else
      var (t, fatal) := Supervise(s, c, elapsed, env);
      if fatal then Progress(t, [], true) else Progress(Produce(t, c, elapsed, env).0, Produce(t, c, elapsed, env).1, false)
  }

  lemma ServiceShrinks(s: State, c: nat, elapsed: nat, env: Surroundings)
    requires InRange(s) && Distinct(s.active) && c < |s.slots|
    ensures Shrunk(s, Service(s, c, elapsed, env).state)
  {
    var t := Supervise(s, c, elapsed, env).0;
    if WatchdogFires(s.slots[c], elapsed) {
      TimeOutShrinks(s, c, ClosingWith(env, c));
    } else {
      SameShrinks(s, t);
    }
    if s.slots[c].state == Established {
      assert Service(s, c, elapsed, env).state.active == t.active;
    } else {
      SameShrinks(s, s);
    }
  }

  // ---- One tick: the walk reads each node's successor after the visit ----

  /** The walk from the node of `c` on. A visit may take other nodes off the list; if it takes the
      node of `c` itself off, that node reads as zero and the walk ends. */
  function TickFrom(s: State, c: nat, elapsed: nat, env: Surroundings): (r: Progress)
    requires InRange(s) && Distinct(s.active) && c in s.active
    ensures |r.state.slots| == |s.slots|
    decreases |After(s.active, c)|
  {
    var visit := Service(s, c, elapsed, env);
    var t := visit.state;
    ServiceShrinks(s, c, elapsed, env);
    ShrunkKeepsOrder(s, t);
    if visit.halted || c !in t.active || After(t.active, c) == [] then visit else
      AfterTail(t.active, c);
      var rest := TickFrom(t, After(t.active, c)[0], elapsed, env);
      rest.(sent := visit.sent + rest.sent)
  }

  function Tick(s: State, elapsed: nat, env: Surroundings): (r: Progress)
    requires InRange(s) && Distinct(s.active)
    ensures |r.state.slots| == |s.slots|
  {
    if s.active == [] then Progress(s, [], false) else TickFrom(s, s.active[0], elapsed, env)
  }

  // ---- Receiving ----

  /** A connected explicit message re-arms the watchdog of the connection it is addressed to, whatever its number. */
  function Rearm(s: State, connectionId: nat): (t: State)
    requires InRange(s)
    ensures |t.slots| == |s.slots| && t.active == s.active
  {
    match First(s.slots, s.active, Consumer(connectionId))
    case Some(c) => s.(slots := s.slots[c := Rearmed(s.slots[c])])
    case None => s
  }

  function Rearmed(k: Conn): Conn {
    k.(watchdog := Timing.WatchdogValue(k.oToTInterval, k.multiplier))
  }

  /** A sequenced packet for an established connection, from its originator. */
  function Accept(k: Conn, sequence: nat): Conn {
    if Timing.SequenceGreater(sequence, k.consumedSequence) || !k.sequenceReceived then
      k.(watchdog := Timing.WatchdogValue(k.oToTInterval, k.multiplier), consumedSequence := sequence, sequenceReceived := true)
    else k
  }

  function Receive(s: State, connectionId: nat, sequence: nat, from: nat): (t: State)
    requires InRange(s)
    ensures |t.slots| == |s.slots| && t.active == s.active
  {
    match First(s.slots, s.active, Consumer(connectionId))
    case Some(c) =>
      if s.slots[c].address == from then s.(slots := s.slots[c := Accept(s.slots[c], sequence)]) else s
    case None => s
  }

  // ---- Opening ----

  datatype Target = Assembly | MessageRouter | OtherClass

  /** The outcome of parsing the connection path: an error or the application path it names. */
  datatype PathResult =
    | PathError(general: nat, extended: nat)
    | Path(target: Target, output: nat, input: nat, config: nat)

  /** A parsed Forward Open together with what the surroundings answer while it is handled:
      the random draws, the connection IDs generated, the outcome of the assembly and
      configuration checks, and the socket. */
  datatype Request = Request(
    triad: Triad, draws: seq<nat>, oToT: Traffic, tToO: Traffic, onSubnet: bool, triggerValid: bool,
    path: PathResult, address: nat, session: nat, production: Production, server: bool,
    oToTInterval: nat, multiplier: nat, consumedId: nat, producedId: nat,
    newConsumedId: nat, newProducedId: nat,
    consumerStatus: nat, producerStatus: nat, configStatus: nat, channelsOpen: bool, socket: nat, remote: nat)

  /** `Drawing`: no number unused came up, and the generator does not return. `Fatal`: a call through a close
      function that is not set, or a write through the node that an exhausted pool did not give. */
  datatype Reply = Accepted(slot: nat) | Refused(general: nat, extended: nat) | Drawing | Fatal

  const CONNECTION_FAILURE: nat := 0x01
  const ERROR_DUPLICATE: nat := 0x0100
  const ERROR_TRIGGER: nat := 0x0103
  const ERROR_OWNERSHIP: nat := 0x0106
  const ERROR_INTERVAL: nat := 0x0112
  const ERROR_NO_MORE: nat := 0x0113
  const ERROR_NOT_LISTENABLE: nat := 0x0119
  const ERROR_OUT_OF_CONNECTIONS: nat := 0x011A
  const ERROR_INHIBIT: nat := 0x011B
  const ERROR_O_TO_T_TYPE: nat := 0x0123
  const ERROR_T_TO_O_TYPE: nat := 0x0124
  const ERROR_PRODUCING_PATH: nat := 0x012B
  const ERROR_COMBINATION: nat := 0x012F
  const ERROR_NULL_OPEN: nat := 0x0132
  const ERROR_SIZE_TYPE: nat := 0x0135
  const ERROR_PRIORITY: nat := 0x0136
  const ERROR_TRANSPORT: nat := 0x0137
  const ERROR_PRODUCTION_TRIGGER: nat := 0x0138
  const ERROR_INHIBIT_SEGMENT: nat := 0x0139
  const ERROR_SUBNET: nat := 0x0813

  /** The connection numbers in use. */
  function Numbers(s: State): set<nat>
    requires InRange(s)
  {
    set c | c in s.active :: s.slots[c].number
  }

  /** The first draw that is not in use. */
  function FirstUnused(draws: seq<nat>, used: set<nat>): (r: Option<nat>)
    ensures r.Some? ==> r.value in draws && r.value !in used
    ensures r.None? ==> forall d :: d in draws ==> d in used
  {
    if draws == [] then None
    else if draws[0] !in used then Some(draws[0])
    else FirstUnused(draws[1..], used)
  }

  /** The dummy connection object once the request is parsed, before a slot is chosen. */
  function Draft(r: Request, kind: Kind, number: nat): Conn
    requires r.path.Path?
  {
    Conn(NonExistent, kind, r.tToO, r.path.output, r.path.input, r.path.config, INVALID_SOCKET, INVALID_SOCKET, r.remote,
         r.producedId, r.consumedId, r.triad, number, r.address, r.session, r.production, r.server,
         r.oToTInterval, r.multiplier, 0, 0, 0, Timing.InitialWatchdog(r.oToTInterval, r.multiplier), 0, false, false)
  }

  /** `ConnectionObjectGeneralConfiguration`: the target chooses the IDs it has to choose. */
  function Configured(r: Request, k: Conn): Conn {
    k.(consumedId := if r.oToT == PointToPoint then r.newConsumedId else k.consumedId,
       producedId := if r.tToO == Multicast then r.newProducedId else k.producedId)
  }

  /** A slot found for a request, with the state after closing what it held; or why there is none; or the
      call of a close function that is not set. */
  datatype Pick = Slot(id: nat, kind: Kind, state: State) | NoSlot(error: nat) | NullCall

  predicate SameOriginator(t: Triad, u: Triad) {
    t.vendor == u.vendor && t.originator == u.originator
  }

  function FirstEntry(entries: seq<Entry>, p: PathResult): (r: Option<nat>)
    requires p.Path?
    ensures r.Some? ==> r.value < |entries| && Serves(entries[r.value], p)
    ensures r.None? ==> forall i :: 0 <= i < |entries| ==> !Serves(entries[i], p)
  {
    if entries == [] then None
    else if Serves(entries[0], p) then Some(0)
    else match FirstEntry(entries[1..], p)
      case Some(i) => Some(i + 1)
      case None => None
  }

  predicate Serves(e: Entry, p: PathResult)
    requires p.Path?
  {
    e.output == p.output && e.input == p.input && e.config == p.config
  }

  function PickOwner(cfg: Config, s: State, r: Request): (p: Pick)
    requires r.path.Path? && InRange(s)
    requires forall i :: 0 <= i < |cfg.owners| ==> cfg.owners[i].base < |s.slots|
  {
    match FirstEntry(cfg.owners, r.path)
    case None => NoSlot(0)
    case Some(i) =>
      match First(s.slots, s.active, Owner(r.path.input))
      case None => Slot(cfg.owners[i].base, ExclusiveOwner, s)
      case Some(o) =>
        if !(s.slots[o].state == TimedOut && SameOriginator(r.triad, s.slots[o].triad)) then NoSlot(ERROR_OWNERSHIP)
        else if !s.slots[cfg.owners[i].base].closable then NullCall
        else Slot(cfg.owners[i].base, ExclusiveOwner, Close(s, cfg.owners[i].base))
  }

  /** The first slot from `c` on, below `end`, that timed out on the same originator. */
  function Stale(slots: seq<Conn>, c: nat, end: nat, t: Triad): (r: Option<nat>)
    requires c <= end <= |slots|
    ensures r.Some? ==> c <= r.value < end && slots[r.value].state == TimedOut && SameOriginator(t, slots[r.value].triad)
    decreases end - c
  {
    if c == end then None
    else if slots[c].state == TimedOut && SameOriginator(t, slots[c].triad) then Some(c)
    else Stale(slots, c + 1, end, t)
  }

  /** The first free slot from `c` on, below `end`. */
  function Free(slots: seq<Conn>, c: nat, end: nat): (r: Option<nat>)
    requires c <= end <= |slots|
    ensures r.Some? ==> c <= r.value < end && slots[r.value].state == NonExistent
    ensures r.None? ==> forall i :: c <= i < end ==> slots[i].state != NonExistent
    decreases end - c
  {
    if c == end then None else if slots[c].state == NonExistent then Some(c) else Free(slots, c + 1, end)
  }

  /** Input-only and listen-only paths: scan the entries from `i` on; `error` is what the ones passed over left. */
  function PickShared(entries: seq<Entry>, kind: Kind, s: State, r: Request, i: nat, error: nat): (p: Pick)
    requires r.path.Path? && InRange(s) && i <= |entries|
    requires forall j :: 0 <= j < |entries| ==> entries[j].base + entries[j].size <= |s.slots|
    decreases |entries| - i
  {
    if i == |entries| then NoSlot(error) else
      var e := entries[i];
      if e.output != r.path.output then PickShared(entries, kind, s, r, i + 1, error)
      else if e.input != r.path.input then PickShared(entries, kind, s, r, i + 1, ERROR_PRODUCING_PATH)
      else if e.config != r.path.config then PickShared(entries, kind, s, r, i + 1, ERROR_COMBINATION)
      else if kind == ListenOnly && First(s.slots, s.active, Producer(false, r.path.input)).None? then NoSlot(ERROR_NOT_LISTENABLE)
      else PickFrom(e, kind, s, r.triad)
  }

  /** Within one entry: a slot that timed out on the same originator, else a free one. */
  function PickFrom(e: Entry, kind: Kind, s: State, t: Triad): (p: Pick)
    requires InRange(s) && e.base + e.size <= |s.slots|
  {
    match Stale(s.slots, e.base, e.base + e.size, t)
    case Some(c) => Slot(c, kind, Close(s, c))
    case None =>
      match Free(s.slots, e.base, e.base + e.size)
      case Some(c) => Slot(c, kind, s)
      case None => NoSlot(ERROR_OUT_OF_CONNECTIONS)
  }

  ghost predicate Fits(cfg: Config, s: State) {
    WellFormed(cfg) && InRange(s) && |s.slots| == |cfg.homes|
  }

  /** The application connection type that serves the request: owner, then input-only, then listen-only. */
  function PickIo(cfg: Config, s: State, r: Request): (p: Pick)
    requires r.path.Path? && Fits(cfg, s)
  {
    var owner := PickOwner(cfg, s, r);
    if owner != NoSlot(0) then owner else
      var input := PickShared(cfg.inputs, InputOnly, s, r, 0, 0);
      if input != NoSlot(0) then input else
        var listener := PickShared(cfg.listeners, ListenOnly, s, r, 0, 0);
        if listener != NoSlot(0) then listener else NoSlot(ERROR_COMBINATION)
  }

  /** The production inhibit time the slot ends up with, or an error when it exceeds the interval. */
  function Inhibit(p: Production): Option<Production> {
    if p.trigger != 0 then Some(p)
    else if p.inhibit == 256 then Some(p.(inhibit := p.interval / 4000 % Words.WORD16))
    else if p.inhibit > p.interval / 1000 then None
    else Some(p)
  }

  /** The first production parameter in which two connections differ decides the error. */
  function Difference(p: Production, q: Production): (error: nat)
    ensures error == 0 <==> p == q
  {
    if p.interval != q.interval then ERROR_INTERVAL
    else if p.variableSize != q.variableSize then ERROR_SIZE_TYPE
    else if p.priority != q.priority then ERROR_PRIORITY
    else if p.transportClass != q.transportClass then ERROR_TRANSPORT
    else if p.trigger != q.trigger then ERROR_PRODUCTION_TRIGGER
    else if p.inhibit != q.inhibit then ERROR_INHIBIT_SEGMENT
    else 0
  }

  /** The first listed connection on the input whose production parameters differ decides the error. */
  function Mismatch(slots: seq<Conn>, xs: seq<nat>, input: nat, p: Production): (error: nat)
    requires forall x :: x in xs ==> x < |slots|
    ensures error == 0 <==> forall x :: x in xs && slots[x].input == input ==> slots[x].production == p
  {
    if xs == [] then 0 else
      assert xs[0] in xs && forall x :: x in xs[1..] ==> x in xs;
      if slots[xs[0]].input == input && p != slots[xs[0]].production then Difference(p, slots[xs[0]].production)
      else Mismatch(slots, xs[1..], input, p)
  }

  /** Opening the channels of slot `c` and listing it. A multicast producer joins the stream of the
      master on its input, and an exclusive owner also takes the socket from it. */
  function Attach(s: State, c: nat, k: Conn, socket: nat): (t: State)
    requires InRange(s) && c < |s.slots|
    ensures |t.slots| == |s.slots|
  {
    var open := k.(state := Established);
    var listed := [c] + s.active;
    if k.tToO == PointToPoint then State(s.slots[c := open.(producing := socket)], listed)
    else if k.tToO != Multicast then State(s.slots[c := open], listed)
    else match First(s.slots, s.active, Producer(true, k.input))
      case None => State(s.slots[c := open.(producing := socket)], listed)
      case Some(m) =>
        var joined := open.(producedId := s.slots[m].producedId);
        if k.kind == ExclusiveOwner then
          State(s.slots[m := s.slots[m].(producing := INVALID_SOCKET)][c := joined.(producing := s.slots[m].producing)], listed)
        else State(s.slots[c := joined], listed)
  }

  /** Why an I/O connection cannot be set up in the slot found for it; 0 if it can. */
  function SetupError(s: State, r: Request, p: Production): (error: nat)
    requires r.path.Path? && InRange(s)
  {
    if r.oToT != NullType && r.consumerStatus != 0 then r.consumerStatus
    else if r.tToO == Multicast && Mismatch(s.slots, s.active, r.path.input, p) != 0 then Mismatch(s.slots, s.active, r.path.input, p)
    else if r.tToO != NullType && r.producerStatus != 0 then r.producerStatus
    else r.configStatus
  }

  lemma PickInRange(cfg: Config, s: State, r: Request)
    requires r.path.Path? && Fits(cfg, s)
    ensures var p := PickIo(cfg, s, r); p.Slot? ==> p.id < |s.slots| && InRange(p.state) && |p.state.slots| == |s.slots|
  {
    if PickOwner(cfg, s, r) == NoSlot(0) {
      PickSharedInRange(cfg.inputs, InputOnly, s, r, 0, 0);
      PickSharedInRange(cfg.listeners, ListenOnly, s, r, 0, 0);
    }
  }

  lemma {:induction false} PickSharedInRange(entries: seq<Entry>, kind: Kind, s: State, r: Request, i: nat, error: nat)
    requires r.path.Path? && InRange(s) && i <= |entries|
    requires forall j :: 0 <= j < |entries| ==> entries[j].base + entries[j].size <= |s.slots|
    ensures var p := PickShared(entries, kind, s, r, i, error);
      p.Slot? ==> p.id < |s.slots| && InRange(p.state) && |p.state.slots| == |s.slots|
    decreases |entries| - i
  {
    if i < |entries| {
      PickSharedInRange(entries, kind, s, r, i + 1, error);
      PickSharedInRange(entries, kind, s, r, i + 1, ERROR_PRODUCING_PATH);
      PickSharedInRange(entries, kind, s, r, i + 1, ERROR_COMBINATION);
    }
  }

  /** `EstablishIoConnection`. A failure after the slot is chosen leaves the slot off the list. */
  function EstablishIo(cfg: Config, s: State, r: Request, number: nat): (res: (State, Reply))
    requires r.path.Path? && Fits(cfg, s)
    ensures |res.0.slots| == |s.slots|
  {
    PickInRange(cfg, s, r);
    match PickIo(cfg, s, r)
    case NoSlot(error) => (s, Refused(CONNECTION_FAILURE, error))
    case NullCall => (s, Fatal)
    case Slot(c, kind, t) =>
      var draft := Draft(r, kind, number);
      match Inhibit(r.production)
      case None => (t.(slots := t.slots[c := draft]), Refused(CONNECTION_FAILURE, ERROR_INHIBIT))
      case Some(p) =>
        var k := Configured(r, draft).(production := p, closable := true);
        var error := SetupError(t, r, p);
        if error != 0 then (t.(slots := t.slots[c := k]), Refused(CONNECTION_FAILURE, error))
        else if !r.channelsOpen then (t.(slots := t.slots[c := k]), Refused(CONNECTION_FAILURE, 0))
        else if |t.active| >= NodePoolSize(cfg) then (t.(slots := t.slots[c := k]), Fatal)
        else (Attach(t, c, Wired(r, k), r.socket), Accepted(c))
  }

  /** The consuming side of a slot once its channels are open. */
  function Wired(r: Request, k: Conn): Conn {
    if r.oToT == NullType then k
    else k.(supervised := true, consuming := if r.oToT == PointToPoint then r.socket else k.consuming)
  }

  /** `EstablishClass3Connection`: explicit messaging uses no UDP socket. */
  function EstablishExplicit(cfg: Config, s: State, r: Request, number: nat): (res: (State, Reply))
    requires r.path.Path? && Fits(cfg, s)
    ensures |res.0.slots| == |s.slots|
  {
    match Free(s.slots, cfg.explicits.base, cfg.explicits.base + cfg.explicits.size)
    case None => (s, Refused(CONNECTION_FAILURE, ERROR_NO_MORE))
    case Some(c) =>
      var k := Configured(r, Draft(r, Explicit, number)).(state := Established, closable := true);
      if |s.active| >= NodePoolSize(cfg) then (s, Fatal) else (State(s.slots[c := k], [c] + s.active), Accepted(c))
  }

  function ForwardOpen(cfg: Config, s: State, r: Request): (res: (State, Reply))
    requires Fits(cfg, s)
    ensures |res.0.slots| == |s.slots|
  {
    match FirstUnused(r.draws, Numbers(s))
    case None => (s, Drawing)
    case Some(number) =>
      if r.oToT == InvalidType then (s, Refused(CONNECTION_FAILURE, ERROR_O_TO_T_TYPE))
      else if r.tToO == InvalidType then (s, Refused(CONNECTION_FAILURE, ERROR_T_TO_O_TYPE))
      else if r.tToO == Multicast && !r.onSubnet then (s, Refused(CONNECTION_FAILURE, ERROR_SUBNET))
      else if r.oToT == NullType && r.tToO == NullType then (s, Refused(CONNECTION_FAILURE, ERROR_NULL_OPEN))
      else if First(s.slots, s.active, MatchingTriad(r.triad)).Some? then (s, Refused(CONNECTION_FAILURE, ERROR_DUPLICATE))
      else if !r.triggerValid then (s, Refused(CONNECTION_FAILURE, ERROR_TRIGGER))
      else match r.path
        case PathError(general, extended) => (s, Refused(general, extended))
        case Path(Assembly, _, _, _) => EstablishIo(cfg, s, r, number)
        case Path(MessageRouter, _, _, _) => EstablishExplicit(cfg, s, r, number)
        case Path(OtherClass, _, _, _) => (s, Refused(0xFF, ERROR_COMBINATION))
  }

  // ---- Forward Close and shutdown ----

  datatype CloseReply = Closed | WrongCloser | NotFound

  function ForwardClose(s: State, triad: Triad, from: nat): (res: (State, CloseReply))
    requires InRange(s)
    ensures |res.0.slots| == |s.slots|
  {
    match First(s.slots, s.active, AnyTriad(triad))
    case None => (s, NotFound)
    case Some(c) => if s.slots[c].address == from then (Close(s, c), Closed) else (s, WrongCloser)
  }

  lemma CloseRemoves(s: State, c: nat)
    requires InRange(s) && c in s.active
    ensures InRange(Close(s, c)) && |Close(s, c).active| < |s.active|
  {
    var t := Close(s, c);
    CloseShrinks(s, c);
    assert c !in t.active;
    WithoutShorter(s.active, Missing(s, t), c);
  }

  /** Shutdown closes the head of the list until none is left. */
  function CloseAll(s: State): (t: State)
    requires InRange(s)
    ensures |t.slots| == |s.slots| && t.active == []
    decreases |s.active|
  {
    if s.active == [] then s else
      CloseRemoves(s, s.active[0]);
      CloseAll(Close(s, s.active[0]))
  }
}
