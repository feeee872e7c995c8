/** What every operation keeps: slots and list agree, one master per input, unique identities. */
module Invariants {
  import opened Sequences
  import opened Wrappers
  import opened Connections
  import opened Lifecycle
  import Timing

  // ---- The invariants ----

  /** A slot is listed, once, exactly when it is established or timed out. */
  ghost predicate Agrees(s: State) {
    && Distinct(s.active)
    && InRange(s)
    && forall c :: 0 <= c < |s.slots| ==> (c in s.active <==> s.slots[c].state != NonExistent)
  }

  /** A listed connection lives in a slot reserved for its application path. */
  ghost predicate AtHome(h: Home, k: Conn) {
    && k.kind == h.kind
    && (k.kind != Explicit ==>
      k.output == h.output && k.input == h.input && k.config == h.config && k.production.transportClass != 3)
    && (k.kind == Explicit ==> k.producing == INVALID_SOCKET)
    && k.closable
  }

  /** A slot that is not in use holds no producing socket, and a close function only for its own kind. */
  ghost predicate AtRest(h: Home, k: Conn) {
    && (k.state == NonExistent ==> k.producing == INVALID_SOCKET)
    && (k.closable ==> k.kind == h.kind)
  }

  ghost predicate Typed(cfg: Config, s: State) {
    && Fits(cfg, s)
    && (forall c :: c in s.active ==> AtHome(cfg.homes[c], s.slots[c]))
    && (forall c :: 0 <= c < |s.slots| ==> AtRest(cfg.homes[c], s.slots[c]))
  }

  /** At most one listed connection holds the multicast socket of an input. */
  ghost predicate SingleMaster(s: State)
    requires InRange(s)
  {
    forall a, b :: a in s.active && b in s.active && a != b && Holds(s.slots[a]) && Holds(s.slots[b]) ==>
      s.slots[a].input != s.slots[b].input
  }

  /** Established connections differ in their triads, listed ones in their numbers. */
  ghost predicate Identified(s: State)
    requires InRange(s)
  {
    forall a, b :: a in s.active && b in s.active && a != b ==>
      && s.slots[a].number != s.slots[b].number
      && (s.slots[a].state == Established && s.slots[b].state == Established ==> s.slots[a].triad != s.slots[b].triad)
  }

  /** Of the exclusive owners on one input, all but the first listed have timed out, on the same originator. */
  ghost predicate Lineage(s: State)
    requires InRange(s)
  {
    forall a, b :: a in s.active && b in After(s.active, a) ==> Succeeds(s, a, b)
  }

  ghost predicate Succeeds(s: State, a: nat, b: nat) {
    a < |s.slots| && b < |s.slots| && s.slots[a].kind == ExclusiveOwner && s.slots[b].kind == ExclusiveOwner &&
    s.slots[a].input == s.slots[b].input ==>
      s.slots[b].state == TimedOut && SameOriginator(s.slots[a].triad, s.slots[b].triad)
  }

  /** At most one exclusive owner, established or timed out, per input. */
  ghost predicate Owned(s: State)
    requires InRange(s)
  {
    forall a, b :: a in s.active && b in s.active && a != b && s.slots[a].kind == ExclusiveOwner && s.slots[b].kind == ExclusiveOwner ==>
      s.slots[a].input != s.slots[b].input
  }

  ghost predicate Inv(cfg: Config, s: State) {
    Agrees(s) && Typed(cfg, s) && SingleMaster(s) && Identified(s) && Lineage(s)
  }

  /** So there is never more than one established exclusive owner on an input ... */
  lemma OneEstablishedOwner(cfg: Config, s: State, a: nat, b: nat)
    requires Inv(cfg, s) && a in s.active && b in s.active && a != b
    requires s.slots[a].kind == ExclusiveOwner && s.slots[b].kind == ExclusiveOwner && s.slots[a].input == s.slots[b].input
    ensures s.slots[a].state == TimedOut || s.slots[b].state == TimedOut
    ensures SameOriginator(s.slots[a].triad, s.slots[b].triad)
  {
    InOrder(s.active, a, b);
    assert b in After(s.active, a) ==> Succeeds(s, a, b);
    assert a in After(s.active, b) ==> Succeeds(s, b, a);
  }

  /** ... and where the owner entries have distinct inputs, never more than one at all. */
  lemma DistinctOwned(cfg: Config, s: State)
    requires Inv(cfg, s) && OwnerInputsDistinct(cfg)
    ensures Owned(s)
  {
    forall a, b | a in s.active && b in s.active && a != b && s.slots[a].kind == ExclusiveOwner && s.slots[b].kind == ExclusiveOwner
      ensures s.slots[a].input != s.slots[b].input
    {
      assert AtHome(cfg.homes[a], s.slots[a]) && AtHome(cfg.homes[b], s.slots[b]);
    }
  }

  // ---- The invariants of one input on which every connection is multicast ----

  ghost predicate Uniform(s: State, p: nat)
    requires InRange(s)
  {
    forall c :: c in s.active && s.slots[c].kind != Explicit && s.slots[c].input == p ==> s.slots[c].tToO == Multicast
  }

  /** A connection that is only of use while somebody produces its input. */
  predicate Depends(k: Conn, p: nat) {
    k.input == p && (k.kind == ListenOnly || (k.state == Established && (k.kind == ExclusiveOwner || k.kind == InputOnly)))
  }

  /** A listed connection that holds the socket of input `p` under connection ID `id`. */
  ghost predicate IsMaster(s: State, h: nat, p: nat, id: nat)
    requires InRange(s)
  {
    h in s.active && Holds(s.slots[h]) && s.slots[h].input == p && s.slots[h].producedId == id
  }

  /** Listeners never hold the socket of the input, an established owner always does. */
  ghost predicate RolesKept(s: State, p: nat)
    requires InRange(s)
  {
    && (forall c :: c in s.active && s.slots[c].kind == ListenOnly && s.slots[c].input == p ==> s.slots[c].producing == INVALID_SOCKET)
    && (forall c :: c in s.active && s.slots[c].kind == ExclusiveOwner && s.slots[c].state == Established && s.slots[c].input == p ==>
         s.slots[c].producing != INVALID_SOCKET)
  }

  /** All connections on the input ask for the same production. */
  ghost predicate SameProduction(s: State, p: nat)
    requires InRange(s)
  {
    forall a, b :: a in s.active && b in s.active && ProducesOn(s.slots[a], p) && ProducesOn(s.slots[b], p) ==>
      s.slots[a].production == s.slots[b].production
  }

  predicate ProducesOn(k: Conn, p: nat) {
    k.kind != Explicit && k.input == p
  }

  /** Whoever depends on the input has a master, whose connection ID it carries. */
  ghost predicate Mastered(s: State, p: nat)
    requires InRange(s)
  {
    && Uniform(s, p)
    && RolesKept(s, p)
    && SameProduction(s, p)
    && (forall c :: c in s.active && Depends(s.slots[c], p) ==> exists h :: IsMaster(s, h, p, s.slots[c].producedId))
  }

  // ---- Primitive changes keep them ----

  lemma DropAllInv(cfg: Config, s: State, gone: set<nat>)
    requires Inv(cfg, s)
    ensures Inv(cfg, DropAll(s, gone))
  {
    WithoutDistinct(s.active, gone);
    DropAllLineage(s, gone);
  }

  lemma DropAllLineage(s: State, gone: set<nat>)
    requires InRange(s) && Lineage(s)
    ensures InRange(DropAll(s, gone)) && Lineage(DropAll(s, gone))
  {
    var t := DropAll(s, gone);
    forall a, b | a in t.active && b in After(t.active, a)
      ensures Succeeds(t, a, b)
    {
      AfterWithout(s.active, gone, a);
      assert Succeeds(s, a, b);
    }
  }

  lemma DropAllMastered(s: State, gone: set<nat>, p: nat)
    requires InRange(s) && Mastered(s, p)
    requires forall h, c ::
      (h in s.active && h in gone && Holds(s.slots[h]) && s.slots[h].input == p && c in s.active && c !in gone) ==>
      !Depends(s.slots[c], p)
    ensures InRange(DropAll(s, gone)) && Mastered(DropAll(s, gone), p)
  {
    var t := DropAll(s, gone);
    forall c | c in t.active && Depends(t.slots[c], p)
      ensures exists h :: IsMaster(t, h, p, t.slots[c].producedId)
    {
      var h :| IsMaster(s, h, p, s.slots[c].producedId);
      assert IsMaster(t, h, p, t.slots[c].producedId);
    }
  }

  /** Fields that the invariants look at. */
  ghost predicate Alike(k: Conn, l: Conn) {
    && k.state == l.state && k.kind == l.kind && k.tToO == l.tToO && k.output == l.output && k.input == l.input
    && k.config == l.config && k.producing == l.producing && k.producedId == l.producedId && k.triad == l.triad
    && k.number == l.number && k.production == l.production && k.closable == l.closable
  }

  ghost predicate Touched(s: State, t: State, c: nat) {
    c < |s.slots| && t.active == s.active && |t.slots| == |s.slots| && Alike(s.slots[c], t.slots[c]) && t.slots == s.slots[c := t.slots[c]]
  }

  /** Nothing changed that decides who follows whom, unless a connection timed out. */
  lemma SameLineage(s: State, t: State)
    requires InRange(s) && Lineage(s) && t.active == s.active && |t.slots| == |s.slots|
    requires forall c :: c in s.active ==>
      && t.slots[c].kind == s.slots[c].kind && t.slots[c].input == s.slots[c].input && t.slots[c].triad == s.slots[c].triad
      && (t.slots[c].state == s.slots[c].state || t.slots[c].state == TimedOut)
    ensures Lineage(t)
  {
    forall a, b | a in t.active && b in After(t.active, a)
      ensures Succeeds(t, a, b)
    {
      AfterIn(s.active, a);
      assert Succeeds(s, a, b);
    }
  }

  lemma TouchedInv(cfg: Config, s: State, t: State, c: nat)
    requires Inv(cfg, s) && Touched(s, t, c)
    ensures Inv(cfg, t)
  {
    SameLineage(s, t);
  }

  lemma TouchedMastered(s: State, t: State, c: nat, p: nat)
    requires InRange(s) && Mastered(s, p) && Touched(s, t, c)
    ensures InRange(t) && Mastered(t, p)
  {
    forall d | d in t.active && Depends(t.slots[d], p)
      ensures exists h :: IsMaster(t, h, p, t.slots[d].producedId)
    {
      var h :| IsMaster(s, h, p, s.slots[d].producedId);
      assert IsMaster(t, h, p, t.slots[d].producedId);
    }
  }

  lemma ExpireInv(cfg: Config, s: State, c: nat)
    requires Inv(cfg, s) && c in s.active
    ensures Inv(cfg, Expire(s, c))
  {
    SameLineage(s, Expire(s, c));
  }

  lemma ExpireMastered(s: State, c: nat, p: nat)
    requires InRange(s) && Mastered(s, p) && c in s.active
    ensures Mastered(Expire(s, c), p)
  {
    var t := Expire(s, c);
    forall d | d in t.active && Depends(t.slots[d], p)
      ensures exists h :: IsMaster(t, h, p, t.slots[d].producedId)
    {
      var h :| IsMaster(s, h, p, s.slots[d].producedId);
      assert IsMaster(t, h, p, t.slots[d].producedId);
    }
  }

  lemma MoveMasterInv(cfg: Config, s: State, c: nat, m: nat)
    requires Inv(cfg, s) && c in s.active && m in s.active
    requires MustHandOver(s.slots[c]) && Matches(s.slots[m], NextMaster(s.slots[c].input))
    ensures Inv(cfg, MoveMaster(s, c, m))
  {
    SameLineage(s, MoveMaster(s, c, m));
  }

  lemma MoveMasterMastered(s: State, c: nat, m: nat, p: nat)
    requires InRange(s) && SingleMaster(s) && Mastered(s, p) && c in s.active && m in s.active
    requires MustHandOver(s.slots[c]) && s.slots[c].state != Established && Matches(s.slots[m], NextMaster(s.slots[c].input))
    ensures Mastered(MoveMaster(s, c, m), p)
  {
    var t := MoveMaster(s, c, m);
    forall d | d in t.active && Depends(t.slots[d], p)
      ensures exists h :: IsMaster(t, h, p, t.slots[d].producedId)
    {
      MovedMasterFound(s, c, m, p, d);
    }
  }

  lemma MovedMasterFound(s: State, c: nat, m: nat, p: nat, d: nat)
    requires InRange(s) && SingleMaster(s) && Mastered(s, p) && c in s.active && m in s.active && c != m
    requires MustHandOver(s.slots[c]) && Matches(s.slots[m], NextMaster(s.slots[c].input)) && d in s.active && Depends(s.slots[d], p)
    ensures var t := MoveMaster(s, c, m); exists h :: IsMaster(t, h, p, t.slots[d].producedId)
  {
    var t := MoveMaster(s, c, m);
    var h :| IsMaster(s, h, p, s.slots[d].producedId);
    if s.slots[c].input == p {
      var g :| IsMaster(s, g, p, s.slots[m].producedId);
      assert h == c && g == c;
      assert IsMaster(t, m, p, t.slots[d].producedId);
    } else {
      assert IsMaster(t, h, p, t.slots[d].producedId);
    }
  }

  // ---- Closing ----

  /** Closing keeps the invariants, be the slot listed or not. */
  lemma CloseInv(cfg: Config, s: State, c: nat)
    requires Inv(cfg, s) && c < |s.slots|
    ensures Inv(cfg, Close(s, c))
  {
    if !MustHandOver(s.slots[c]) {
      DropAllInv(cfg, s, {c});
    } else if Heir(s, c).Some? {
      MoveMasterInv(cfg, s, c, Heir(s, c).value);
      DropAllInv(cfg, MoveMaster(s, c, Heir(s, c).value), {c});
    } else {
      DropAllInv(cfg, s, Mates(s, ListenOnly, s.slots[c].input) + {c});
    }
  }

  /** A master that closes may as well have timed out first: it is emptied either way. */
  lemma CloseByExpiring(s: State, c: nat, m: nat)
    requires InRange(s) && c in s.active && m in s.active && c != m
    ensures DropAll(MoveMaster(s, c, m), {c}) == DropAll(MoveMaster(Expire(s, c), c, m), {c})
  {
    var t, u := DropAll(MoveMaster(s, c, m), {c}), DropAll(MoveMaster(Expire(s, c), c, m), {c});
    forall i | 0 <= i < |s.slots|
      ensures t.slots[i] == u.slots[i]
    {
    }
  }

  lemma HandoverMastered(cfg: Config, s: State, c: nat, m: nat, p: nat)
    requires Inv(cfg, s) && Mastered(s, p) && c in s.active && MustHandOver(s.slots[c]) && Heir(s, c) == Some(m)
    ensures InRange(DropAll(MoveMaster(s, c, m), {c})) && Mastered(DropAll(MoveMaster(s, c, m), {c}), p)
  {
    ExpireInv(cfg, s, c);
    ExpireMastered(s, c, p);
    MoveMasterMastered(Expire(s, c), c, m, p);
    DropAllMastered(MoveMaster(Expire(s, c), c, m), {c}, p);
    CloseByExpiring(s, c, m);
  }

  /** Losing the last master takes every listener along; any other close leaves the input mastered. */
  lemma CloseMastered(cfg: Config, s: State, c: nat, p: nat)
    requires Inv(cfg, s) && Mastered(s, p) && c < |s.slots|
    ensures InRange(Close(s, c)) && Mastered(Close(s, c), p)
  {
    if !MustHandOver(s.slots[c]) {
      DropAllMastered(s, {c}, p);
    } else if Heir(s, c).Some? {
      HandoverMastered(cfg, s, c, Heir(s, c).value, p);
    } else {
      DropAllMastered(s, Mates(s, ListenOnly, s.slots[c].input) + {c}, p);
    }
  }

  /** Only explicit connections are class 3. */
  lemma Class3Explicit(cfg: Config, s: State, session: nat)
    requires Inv(cfg, s)
    ensures var c := First(s.slots, s.active, Class3(session)); c.Some? ==> s.slots[c.value].kind == Explicit
  {
  }

  lemma {:induction false} CloseSessionsInv(cfg: Config, s: State, sessions: seq<nat>)
    requires Inv(cfg, s)
    ensures Inv(cfg, CloseSessions(s, sessions))
    ensures forall c :: 0 <= c < |s.slots| && s.slots[c].kind != Explicit ==> CloseSessions(s, sessions).slots[c] == s.slots[c]
    ensures forall c :: c in s.active && s.slots[c].kind != Explicit ==> c in CloseSessions(s, sessions).active
    decreases sessions
  {
    if sessions != [] {
      var c := First(s.slots, s.active, Class3(sessions[0]));
      if c.Some? {
        Class3Explicit(cfg, s, sessions[0]);
        CloseInv(cfg, s, c.value);
      }
      CloseSessionShrinks(s, sessions[0]);
      ShrunkKeepsOrder(s, CloseSession(s, sessions[0]));
      CloseSessionsInv(cfg, CloseSession(s, sessions[0]), sessions[1..]);
    }
  }

  lemma {:induction false} CloseSessionsMastered(cfg: Config, s: State, sessions: seq<nat>, p: nat)
    requires Inv(cfg, s) && Mastered(s, p)
    ensures Mastered(CloseSessions(s, sessions), p)
    decreases sessions
  {
    if sessions != [] {
      var c := First(s.slots, s.active, Class3(sessions[0]));
      if c.Some? {
        CloseInv(cfg, s, c.value);
        CloseMastered(cfg, s, c.value, p);
      }
      CloseSessionShrinks(s, sessions[0]);
      ShrunkKeepsOrder(s, CloseSession(s, sessions[0]));
      CloseSessionsMastered(cfg, CloseSession(s, sessions[0]), sessions[1..], p);
    }
  }

  // ---- Timing out ----

  lemma {:induction false} CloseFromInv(cfg: Config, s: State, c: nat, kind: Kind, input: nat)
    requires Inv(cfg, s) && c in s.active
    ensures Inv(cfg, CloseFrom(s, c, kind, input).0)
    decreases |After(s.active, c)|
  {
    var t := CloseIfMate(s, c, kind, input);
    CloseInv(cfg, s, c);
    CloseIfMateShrinks(s, c, kind, input);
    ShrunkKeepsOrder(s, t);
    if After(s.active, c) != [] && After(s.active, c)[0] in t.active {
      AfterTail(s.active, c);
      CloseFromInv(cfg, t, After(s.active, c)[0], kind, input);
    }
  }

  lemma {:induction false} CloseFromMastered(cfg: Config, s: State, c: nat, kind: Kind, input: nat, p: nat)
    requires Inv(cfg, s) && Mastered(s, p) && c in s.active
    ensures Mastered(CloseFrom(s, c, kind, input).0, p)
    decreases |After(s.active, c)|
  {
    var t := CloseIfMate(s, c, kind, input);
    CloseInv(cfg, s, c);
    CloseMastered(cfg, s, c, p);
    CloseIfMateShrinks(s, c, kind, input);
    ShrunkKeepsOrder(s, t);
    if After(s.active, c) != [] && After(s.active, c)[0] in t.active {
      AfterTail(s.active, c);
      CloseFromMastered(cfg, t, After(s.active, c)[0], kind, input, p);
    }
  }

  lemma DropDependentsInv(cfg: Config, s: State, input: nat)
    requires Inv(cfg, s)
    ensures Inv(cfg, DropDependents(s, input).0)
  {
    if s.active != [] {
      CloseFromInv(cfg, s, s.active[0], InputOnly, input);
    }
    var t := CloseMates(s, InputOnly, input).0;
    DropAllInv(cfg, t, Mates(t, ListenOnly, input));
  }

  lemma DropDependentsMastered(cfg: Config, s: State, input: nat, p: nat)
    requires Inv(cfg, s) && Mastered(s, p)
    ensures InRange(DropDependents(s, input).0) && Mastered(DropDependents(s, input).0, p)
  {
    if s.active != [] {
      CloseFromInv(cfg, s, s.active[0], InputOnly, input);
      CloseFromMastered(cfg, s, s.active[0], InputOnly, input, p);
    }
    var t := CloseMates(s, InputOnly, input).0;
    DropAllMastered(t, Mates(t, ListenOnly, input), p);
  }

  lemma HalfInv(cfg: Config, s: State, c: nat)
    requires Inv(cfg, s) && c in s.active
    ensures Inv(cfg, Half(s, c))
  {
    if MustHandOver(s.slots[c]) {
      if Heir(s, c).Some? {
        MoveMasterInv(cfg, s, c, Heir(s, c).value);
      } else {
        DropAllInv(cfg, s, Mates(s, ListenOnly, s.slots[c].input));
      }
    }
  }

  lemma HalfMastered(cfg: Config, s: State, c: nat, p: nat)
    requires Inv(cfg, s) && Mastered(s, p) && c in s.active && s.slots[c].state != Established
    ensures InRange(Half(s, c)) && Mastered(Half(s, c), p)
  {
    if MustHandOver(s.slots[c]) {
      if Heir(s, c).Some? {
        MoveMasterMastered(s, c, Heir(s, c).value, p);
      } else {
        DropAllMastered(s, Mates(s, ListenOnly, s.slots[c].input), p);
      }
    }
  }

  lemma TimeOutInv(cfg: Config, s: State, c: nat, sessions: seq<nat>)
    requires Inv(cfg, s) && c in s.active
    ensures Inv(cfg, TimeOut(s, c, sessions).0)
  {
    if s.slots[c].kind == Explicit {
      DropAllInv(cfg, s, {c});
    } else {
      ExpireInv(cfg, s, c);
      CloseSessionsInv(cfg, Expire(s, c), sessions);
      var s1 := CloseSessions(Expire(s, c), sessions);
      HalfInv(cfg, s1, c);
      DropDependentsInv(cfg, Half(s1, c), s1.slots[c].input);
    }
  }

  lemma TimeOutMastered(cfg: Config, s: State, c: nat, sessions: seq<nat>, p: nat)
    requires Inv(cfg, s) && Mastered(s, p) && c in s.active
    ensures InRange(TimeOut(s, c, sessions).0) && Mastered(TimeOut(s, c, sessions).0, p)
  {
    if s.slots[c].kind == Explicit {
      DropAllMastered(s, {c}, p);
    } else {
      var s0 := Expire(s, c);
      ExpireInv(cfg, s, c);
      ExpireMastered(s, c, p);
      CloseSessionsInv(cfg, s0, sessions);
      CloseSessionsMastered(cfg, s0, sessions, p);
      var s1 := CloseSessions(s0, sessions);
      HalfInv(cfg, s1, c);
      HalfMastered(cfg, s1, c, p);
      DropDependentsMastered(cfg, Half(s1, c), s1.slots[c].input, p);
    }
  }

  /** After a timeout, and the closing of sessions with it, everything but explicit connections is as before. */
  lemma ExpiredAndSessions(cfg: Config, s: State, c: nat, sessions: seq<nat>)
    requires Inv(cfg, s) && c in s.active && s.slots[c].kind != Explicit
    ensures var s0, s1 := Expire(s, c), CloseSessions(Expire(s, c), sessions);
      && Inv(cfg, s1) && c in s1.active && s1.slots[c] == s0.slots[c]
      && (forall a :: a in s1.active && s1.slots[a].kind != Explicit ==> a in s.active && s1.slots[a] == s0.slots[a])
  {
    var s0 := Expire(s, c);
    ExpireInv(cfg, s, c);
    CloseSessionsInv(cfg, s0, sessions);
    CloseSessionsShrinks(s0, sessions);
    var s1 := CloseSessions(s0, sessions);
    forall a | a in s1.active && s1.slots[a].kind != Explicit
      ensures a in s.active && s1.slots[a] == s0.slots[a]
    {
      assert a in s0.active;
      assert AtHome(cfg.homes[a], s0.slots[a]) && AtHome(cfg.homes[a], s1.slots[a]);
    }
  }

  // ---- Servicing ----

  lemma SuperviseInv(cfg: Config, s: State, c: nat, elapsed: nat, env: Surroundings)
    requires Inv(cfg, s) && c in s.active
    ensures Inv(cfg, Supervise(s, c, elapsed, env).0)
  {
    if WatchdogFires(s.slots[c], elapsed) {
      TimeOutInv(cfg, s, c, ClosingWith(env, c));
    } else {
      TouchedInv(cfg, s, Supervise(s, c, elapsed, env).0, c);
    }
  }

  lemma ServiceInv(cfg: Config, s: State, c: nat, elapsed: nat, env: Surroundings)
    requires Inv(cfg, s) && c in s.active
    ensures Inv(cfg, Service(s, c, elapsed, env).state)
  {
    if s.slots[c].state == Established {
      var (t, fatal) := Supervise(s, c, elapsed, env);
      SuperviseInv(cfg, s, c, elapsed, env);
      TouchedInv(cfg, t, Produce(t, c, elapsed, env).0, c);
    }
  }

  lemma ServiceMastered(cfg: Config, s: State, c: nat, elapsed: nat, env: Surroundings, p: nat)
    requires Inv(cfg, s) && Mastered(s, p) && c in s.active
    ensures InRange(Service(s, c, elapsed, env).state) && Mastered(Service(s, c, elapsed, env).state, p)
  {
    if s.slots[c].state == Established {
      var (t, fatal) := Supervise(s, c, elapsed, env);
      if WatchdogFires(s.slots[c], elapsed) {
        TimeOutMastered(cfg, s, c, ClosingWith(env, c), p);
      } else {
        TouchedMastered(s, t, c, p);
      }
      TouchedMastered(t, Produce(t, c, elapsed, env).0, c, p);
    }
  }

  lemma {:induction false} TickFromInv(cfg: Config, s: State, c: nat, elapsed: nat, env: Surroundings)
    requires Inv(cfg, s) && c in s.active
    ensures Inv(cfg, TickFrom(s, c, elapsed, env).state)
    decreases |After(s.active, c)|
  {
    var visit := Service(s, c, elapsed, env);
    var t := visit.state;
    ServiceInv(cfg, s, c, elapsed, env);
    ServiceShrinks(s, c, elapsed, env);
    ShrunkKeepsOrder(s, t);
    if !visit.halted && c in t.active && After(t.active, c) != [] {
      AfterTail(t.active, c);
      TickFromInv(cfg, t, After(t.active, c)[0], elapsed, env);
    }
  }

  lemma {:induction false} TickFromMastered(cfg: Config, s: State, c: nat, elapsed: nat, env: Surroundings, p: nat)
    requires Inv(cfg, s) && Mastered(s, p) && c in s.active
    ensures InRange(TickFrom(s, c, elapsed, env).state) && Mastered(TickFrom(s, c, elapsed, env).state, p)
    decreases |After(s.active, c)|
  {
    var visit := Service(s, c, elapsed, env);
    var t := visit.state;
    ServiceInv(cfg, s, c, elapsed, env);
    ServiceMastered(cfg, s, c, elapsed, env, p);
    ServiceShrinks(s, c, elapsed, env);
    ShrunkKeepsOrder(s, t);
    if !visit.halted && c in t.active && After(t.active, c) != [] {
      AfterTail(t.active, c);
      TickFromMastered(cfg, t, After(t.active, c)[0], elapsed, env, p);
    }
  }

  lemma ReceiveInv(cfg: Config, s: State, connectionId: nat, sequence: nat, from: nat)
    requires Inv(cfg, s)
    ensures Inv(cfg, Receive(s, connectionId, sequence, from))
    ensures forall p :: Mastered(s, p) ==> Mastered(Receive(s, connectionId, sequence, from), p)
  {
    var t := Receive(s, connectionId, sequence, from);
    var c := First(s.slots, s.active, Consumer(connectionId));
    if c.Some? {
      TouchedInv(cfg, s, t, c.value);
      forall p | Mastered(s, p)
        ensures Mastered(t, p)
      {
        TouchedMastered(s, t, c.value, p);
      }
    }
  }

  lemma RearmInv(cfg: Config, s: State, connectionId: nat)
    requires Inv(cfg, s)
    ensures Inv(cfg, Rearm(s, connectionId))
    ensures forall p :: Mastered(s, p) ==> Mastered(Rearm(s, connectionId), p)
  {
    var t := Rearm(s, connectionId);
    var c := First(s.slots, s.active, Consumer(connectionId));
    if c.Some? {
      TouchedInv(cfg, s, t, c.value);
      forall p | Mastered(s, p)
        ensures Mastered(t, p)
      {
        TouchedMastered(s, t, c.value, p);
      }
    }
  }

  // ---- Shutting down ----

  lemma {:induction false} CloseAllInv(cfg: Config, s: State)
    requires Inv(cfg, s)
    ensures Inv(cfg, CloseAll(s))
    decreases |s.active|
  {
    if s.active != [] {
      assert s.active[0] in s.active;
      CloseInv(cfg, s, s.active[0]);
      CloseRemoves(s, s.active[0]);
      CloseAllInv(cfg, Close(s, s.active[0]));
    }
  }

  /** Shutdown leaves nothing behind: no listed connection and no slot in use. */
  lemma CloseAllEmpties(cfg: Config, s: State)
    requires Inv(cfg, s)
    ensures CloseAll(s).active == []
    ensures forall c :: 0 <= c < |s.slots| ==> CloseAll(s).slots[c].state == NonExistent
  {
    CloseAllInv(cfg, s);
  }

  // ---- Opening ----

  /** What attaching does, slot by slot. */
  ghost predicate Attached(s: State, t: State, c: nat, k: Conn) {
    && |t.slots| == |s.slots| && c < |s.slots|
    && t.active == [c] + s.active
    && t.slots[c] == k.(state := Established, producing := t.slots[c].producing, producedId := t.slots[c].producedId)
    && (forall a :: 0 <= a < |s.slots| && a != c ==> t.slots[a] == s.slots[a].(producing := t.slots[a].producing))
    && (forall a :: 0 <= a < |s.slots| && a != c ==> t.slots[a].producing == s.slots[a].producing || t.slots[a].producing == INVALID_SOCKET)
  }

  lemma AttachAttached(s: State, c: nat, k: Conn, socket: nat)
    requires InRange(s) && c < |s.slots| && c !in s.active
    ensures Attached(s, Attach(s, c, k, socket), c, k)
  {
    var found := First(s.slots, s.active, Producer(true, k.input));
    if k.tToO == Multicast && found.Some? && k.kind == ExclusiveOwner {
      TakeoverAttached(s, c, k, found.value);
    }
  }

  lemma TakeoverAttached(s: State, c: nat, k: Conn, m: nat)
    requires c < |s.slots| && m < |s.slots| && c != m
    ensures var joined := k.(state := Established, producedId := s.slots[m].producedId, producing := s.slots[m].producing);
      Attached(s, State(s.slots[m := s.slots[m].(producing := INVALID_SOCKET)][c := joined], [c] + s.active), c, k)
  {
  }

  /** Only an owner takes a socket away, and only from its own input. */
  lemma AttachTakes(s: State, c: nat, k: Conn, socket: nat, a: nat)
    requires InRange(s) && c < |s.slots| && c !in s.active && a in s.active
    ensures Attach(s, c, k, socket).slots[a].producing == s.slots[a].producing || (k.kind == ExclusiveOwner && s.slots[a].input == k.input)
  {
  }

  /** A multicast connection gets a socket if it is an owner's or there is none yet. */
  lemma AttachGives(s: State, c: nat, k: Conn, socket: nat)
    requires InRange(s) && c < |s.slots| && c !in s.active && k.producing == INVALID_SOCKET && k.tToO == Multicast
    ensures Attach(s, c, k, socket).slots[c].producing != INVALID_SOCKET <==>
      k.kind == ExclusiveOwner || First(s.slots, s.active, Producer(true, k.input)).None?
  {
  }

  lemma AttachSingleMaster(s: State, c: nat, k: Conn, socket: nat)
    requires InRange(s) && SingleMaster(s) && c < |s.slots| && c !in s.active && k.producing == INVALID_SOCKET && k.kind != Explicit
    ensures InRange(Attach(s, c, k, socket)) && SingleMaster(Attach(s, c, k, socket))
  {
    var t := Attach(s, c, k, socket);
    AttachAttached(s, c, k, socket);
    if k.tToO == Multicast {
      AttachAlone(s, c, k, socket);
    }
  }

  /** If the new connection holds the socket of its input, nobody else does. */
  lemma AttachAlone(s: State, c: nat, k: Conn, socket: nat)
    requires InRange(s) && SingleMaster(s) && c < |s.slots| && c !in s.active && k.producing == INVALID_SOCKET && k.tToO == Multicast
    ensures var t := Attach(s, c, k, socket);
      t.slots[c].producing != INVALID_SOCKET ==> forall a :: a in s.active && Holds(t.slots[a]) ==> t.slots[a].input != k.input
  {
    var t, found := Attach(s, c, k, socket), First(s.slots, s.active, Producer(true, k.input));
    if t.slots[c].producing != INVALID_SOCKET {
      forall a | a in s.active && Holds(t.slots[a])
        ensures t.slots[a].input != k.input
      {
        assert Holds(s.slots[a]);
      }
    }
  }

  /** If both are owners of one input, the older one has timed out on the originator of the newer. */
  ghost predicate Outlives(k: Conn, old_k: Conn) {
    k.kind == ExclusiveOwner && old_k.kind == ExclusiveOwner && k.input == old_k.input ==>
      old_k.state == TimedOut && SameOriginator(k.triad, old_k.triad)
  }

  lemma AttachedLineage(s: State, t: State, c: nat, k: Conn)
    requires InRange(s) && Lineage(s) && Attached(s, t, c, k) && c !in s.active && InRange(t)
    requires forall a :: a in s.active ==> Outlives(k, s.slots[a])
    ensures Lineage(t)
  {
    forall a, b | a in t.active && b in After(t.active, a)
      ensures Succeeds(t, a, b)
    {
      if a != c {
        AfterIn(s.active, a);
        assert Succeeds(s, a, b);
      }
    }
  }

  lemma AttachedInv(cfg: Config, s: State, t: State, c: nat, k: Conn)
    requires Inv(cfg, s) && Attached(s, t, c, k) && c !in s.active && InRange(t) && SingleMaster(t)
    requires AtHome(cfg.homes[c], k) && k.kind != Explicit
    requires forall a :: a in s.active ==>
      && s.slots[a].number != k.number
      && (s.slots[a].state == Established ==> s.slots[a].triad != k.triad)
      && Outlives(k, s.slots[a])
    ensures Inv(cfg, t)
  {
    AttachedLineage(s, t, c, k);
  }

  lemma AttachInv(cfg: Config, s: State, c: nat, k: Conn, socket: nat)
    requires Inv(cfg, s) && c < |s.slots| && c !in s.active
    requires AtHome(cfg.homes[c], k) && k.kind != Explicit && k.producing == INVALID_SOCKET
    requires forall a :: a in s.active ==>
      && s.slots[a].number != k.number
      && (s.slots[a].state == Established ==> s.slots[a].triad != k.triad)
      && Outlives(k, s.slots[a])
    ensures Inv(cfg, Attach(s, c, k, socket))
  {
    AttachAttached(s, c, k, socket);
    AttachSingleMaster(s, c, k, socket);
    AttachedInv(cfg, s, Attach(s, c, k, socket), c, k);
  }

  /** Whoever depends on the input after an open finds a master with its connection ID. */
  lemma AttachFindsMaster(s: State, c: nat, k: Conn, socket: nat, p: nat, d: nat)
    requires InRange(s) && SingleMaster(s) && Mastered(s, p) && c < |s.slots| && c !in s.active
    requires k.kind != Explicit && k.producing == INVALID_SOCKET && (k.input == p ==> k.tToO == Multicast)
    requires InRange(Attach(s, c, k, socket))
    requires d in Attach(s, c, k, socket).active && Depends(Attach(s, c, k, socket).slots[d], p)
    ensures exists h :: IsMaster(Attach(s, c, k, socket), h, p, Attach(s, c, k, socket).slots[d].producedId)
  {
    var t := Attach(s, c, k, socket);
    AttachAttached(s, c, k, socket);
    var found := First(s.slots, s.active, Producer(true, k.input));
    if d != c {
      var h :| IsMaster(s, h, p, s.slots[d].producedId);
      assert k.input == p ==> found == Some(h);
      assert IsMaster(t, if k.input == p && k.kind == ExclusiveOwner then c else h, p, t.slots[d].producedId);
    } else {
      assert IsMaster(t, if found.None? || k.kind == ExclusiveOwner then c else found.value, p, t.slots[d].producedId);
    }
  }

  /** The socket rules of listeners and owners after an open. */
  lemma AttachRoles(s: State, c: nat, k: Conn, socket: nat, p: nat)
    requires InRange(s) && Mastered(s, p) && c < |s.slots| && c !in s.active
    requires k.kind != Explicit && k.producing == INVALID_SOCKET && (k.input == p ==> k.tToO == Multicast)
    requires k.input == p && k.kind == ListenOnly ==> First(s.slots, s.active, Producer(true, p)).Some?
    requires forall a :: a in s.active ==> Outlives(k, s.slots[a])
    ensures var t := Attach(s, c, k, socket); InRange(t) && Uniform(t, p) && RolesKept(t, p)
  {
    AttachAttached(s, c, k, socket);
    if k.input == p {
      AttachGives(s, c, k, socket);
    }
    forall a | a in s.active
      ensures Attach(s, c, k, socket).slots[a].producing == s.slots[a].producing || (k.kind == ExclusiveOwner && s.slots[a].input == k.input)
    {
      AttachTakes(s, c, k, socket, a);
    }
    AttachedRoles(s, Attach(s, c, k, socket), c, k, p);
  }

  lemma AttachedRoles(s: State, t: State, c: nat, k: Conn, p: nat)
    requires InRange(s) && Mastered(s, p) && Attached(s, t, c, k) && c !in s.active && (k.input == p ==> k.tToO == Multicast)
    requires forall a :: a in s.active ==>
      Outlives(k, s.slots[a]) && (t.slots[a].producing == s.slots[a].producing || (k.kind == ExclusiveOwner && s.slots[a].input == k.input))
    requires k.input == p && k.kind == ListenOnly ==> t.slots[c].producing == INVALID_SOCKET
    requires k.input == p && k.kind == ExclusiveOwner ==> t.slots[c].producing != INVALID_SOCKET
    ensures InRange(t) && Uniform(t, p) && RolesKept(t, p)
  {
  }

  lemma AttachedProduction(s: State, t: State, c: nat, k: Conn, p: nat)
    requires InRange(s) && SameProduction(s, p) && Attached(s, t, c, k) && c !in s.active && InRange(t)
    requires k.input == p ==> forall a :: a in s.active && ProducesOn(s.slots[a], p) ==> s.slots[a].production == k.production
    ensures SameProduction(t, p)
  {
  }

  lemma AttachMastered(s: State, c: nat, k: Conn, socket: nat, p: nat)
    requires InRange(s) && SingleMaster(s) && Mastered(s, p) && c < |s.slots| && c !in s.active
    requires k.kind != Explicit && k.producing == INVALID_SOCKET
    requires k.input == p ==> k.tToO == Multicast
    requires k.input == p && k.kind == ListenOnly ==> First(s.slots, s.active, Producer(true, p)).Some?
    requires forall a :: a in s.active ==> Outlives(k, s.slots[a])
    requires k.input == p ==> forall a :: a in s.active && ProducesOn(s.slots[a], p) ==> s.slots[a].production == k.production
    ensures InRange(Attach(s, c, k, socket)) && Mastered(Attach(s, c, k, socket), p)
  {
    var t := Attach(s, c, k, socket);
    AttachAttached(s, c, k, socket);
    AttachRoles(s, c, k, socket, p);
    AttachedProduction(s, t, c, k, p);
    forall d | d in t.active && Depends(t.slots[d], p)
      ensures exists h :: IsMaster(t, h, p, t.slots[d].producedId)
    {
      AttachFindsMaster(s, c, k, socket, p, d);
    }
  }

  /** When an exclusive owner that timed out is replaced, the slot closed is that owner's own. */
  predicate TakesOwnSlot(cfg: Config, s: State, p: PathResult)
    requires InRange(s) && p.Path?
  {
    var i := FirstEntry(cfg.owners, p);
    var o := First(s.slots, s.active, Owner(p.input));
    i.Some? && o.Some? ==> o.value == cfg.owners[i.value].base
  }

  lemma DistinctTakesOwnSlot(cfg: Config, s: State, p: PathResult)
    requires Inv(cfg, s) && OwnerInputsDistinct(cfg) && p.Path?
    ensures TakesOwnSlot(cfg, s, p)
  {
    var i := FirstEntry(cfg.owners, p);
    var o := First(s.slots, s.active, Owner(p.input));
    if i.Some? && o.Some? {
      assert AtHome(cfg.homes[o.value], s.slots[o.value]);
      assert cfg.homes[cfg.owners[i.value].base].kind == ExclusiveOwner;
    }
  }

  /** A slot whose close is deliberate: it is not in use, or it timed out on the originator that asks. */
  ghost predicate Reclaims(s: State, r: Request, c: nat) {
    c < |s.slots| && (c !in s.active || (s.slots[c].state == TimedOut && SameOriginator(r.triad, s.slots[c].triad)))
  }

  /** What a pick guarantees about the slot and the state it leaves. */
  ghost predicate GoodPick(cfg: Config, s: State, r: Request, p: Pick)
    requires r.path.Path? && Fits(cfg, s) && p.Slot?
  {
    && Inv(cfg, p.state) && Shrunk(s, p.state)
    && (p.state == s || (Reclaims(s, r, p.id) && p.state == Close(s, p.id)))
    && p.id < |s.slots| && p.id !in p.state.active
    && p.kind != Explicit && cfg.homes[p.id] == Home(p.kind, r.path.output, r.path.input, r.path.config)
    && (forall a :: a in p.state.active ==>
         a in s.active && s.slots[a].number == p.state.slots[a].number &&
         s.slots[a].triad == p.state.slots[a].triad && s.slots[a].state == p.state.slots[a].state)
    && (p.kind == ExclusiveOwner ==> OwnersGone(p.state, r))
  }

  /** Every owner of the input asked for has timed out on the originator that asks. */
  ghost predicate OwnersGone(s: State, r: Request)
    requires r.path.Path?
  {
    forall a :: a in s.active && a < |s.slots| && s.slots[a].kind == ExclusiveOwner && s.slots[a].input == r.path.input ==>
      s.slots[a].state == TimedOut && SameOriginator(r.triad, s.slots[a].triad)
  }

  lemma CloseKeepsOthers(s: State, c: nat)
    requires InRange(s) && c < |s.slots|
    ensures forall a :: a in Close(s, c).active ==>
      && a in s.active && Close(s, c).slots[a].number == s.slots[a].number && Close(s, c).slots[a].triad == s.slots[a].triad
      && Close(s, c).slots[a].state == s.slots[a].state && Close(s, c).slots[a].kind == s.slots[a].kind
      && Close(s, c).slots[a].input == s.slots[a].input
  {
  }

  /** The first owner found speaks for all of them. */
  lemma FirstOwnerSpeaks(cfg: Config, s: State, r: Request)
    requires r.path.Path? && Inv(cfg, s)
    requires var o := First(s.slots, s.active, Owner(r.path.input));
      o.Some? ==> s.slots[o.value].state == TimedOut && SameOriginator(r.triad, s.slots[o.value].triad)
    ensures OwnersGone(s, r)
  {
    var o := First(s.slots, s.active, Owner(r.path.input));
    forall a | a in s.active && s.slots[a].kind == ExclusiveOwner && s.slots[a].input == r.path.input
      ensures s.slots[a].state == TimedOut && SameOriginator(r.triad, s.slots[a].triad)
    {
      assert Matches(s.slots[a], Owner(r.path.input));
      FirstPrecedes(s.slots, s.active, Owner(r.path.input), a);
      assert a != o.value ==> Succeeds(s, o.value, a);
    }
  }

  lemma PickOwnerGood(cfg: Config, s: State, r: Request)
    requires r.path.Path? && Inv(cfg, s)
    ensures PickOwner(cfg, s, r).Slot? ==> GoodPick(cfg, s, r, PickOwner(cfg, s, r))
  {
    var p := PickOwner(cfg, s, r);
    if p.Slot? {
      var c := p.id;
      assert Reserves(cfg.homes, ExclusiveOwner, cfg.owners[FirstEntry(cfg.owners, r.path).value]);
      FirstOwnerSpeaks(cfg, s, r);
      SameShrinks(s, s);
      if c in s.active {
        assert AtHome(cfg.homes[c], s.slots[c]);
      }
      if First(s.slots, s.active, Owner(r.path.input)).Some? {
        CloseInv(cfg, s, c);
        CloseShrinks(s, c);
        CloseKeepsOthers(s, c);
      }
    }
  }

  lemma {:induction false} PickSharedGood(cfg: Config, entries: seq<Entry>, kind: Kind, s: State, r: Request, i: nat, error: nat)
    requires r.path.Path? && Inv(cfg, s) && i <= |entries| && (kind == InputOnly || kind == ListenOnly)
    requires forall j :: 0 <= j < |entries| ==> Reserves(cfg.homes, kind, entries[j]) && entries[j].base + entries[j].size <= |s.slots|
    ensures var p := PickShared(entries, kind, s, r, i, error);
      p.Slot? ==> GoodPick(cfg, s, r, p) && p.kind == kind &&
                  (kind == ListenOnly ==> First(s.slots, s.active, Producer(false, r.path.input)).Some?)
    decreases |entries| - i
  {
    if i < |entries| {
      var e := entries[i];
      if e.output != r.path.output {
        PickSharedGood(cfg, entries, kind, s, r, i + 1, error);
      } else if e.input != r.path.input {
        PickSharedGood(cfg, entries, kind, s, r, i + 1, ERROR_PRODUCING_PATH);
      } else if e.config != r.path.config {
        PickSharedGood(cfg, entries, kind, s, r, i + 1, ERROR_COMBINATION);
      } else {
        PickFromGood(cfg, e, kind, s, r);
      }
    }
  }

  lemma PickFromGood(cfg: Config, e: Entry, kind: Kind, s: State, r: Request)
    requires r.path.Path? && Inv(cfg, s) && (kind == InputOnly || kind == ListenOnly)
    requires Reserves(cfg.homes, kind, e) && Serves(e, r.path) && e.base + e.size <= |s.slots|
    ensures var p := PickFrom(e, kind, s, r.triad);
      p.Slot? ==> GoodPick(cfg, s, r, p) && p.kind == kind
  {
    var p := PickFrom(e, kind, s, r.triad);
    if p.Slot? {
      assert cfg.homes[p.id] == Home(kind, e.output, e.input, e.config);
      if p.state == s && s.slots[p.id].state == NonExistent {
        SameShrinks(s, s);
      } else {
        PickStaleGood(cfg, s, r, kind, p);
      }
    }
  }

  lemma PickStaleGood(cfg: Config, s: State, r: Request, kind: Kind, p: Pick)
    requires r.path.Path? && Inv(cfg, s) && (kind == InputOnly || kind == ListenOnly) && p.Slot? && p.kind == kind
    requires p.id < |s.slots| && cfg.homes[p.id] == Home(kind, r.path.output, r.path.input, r.path.config)
    requires p.state == Close(s, p.id) && s.slots[p.id].state == TimedOut && SameOriginator(r.triad, s.slots[p.id].triad)
    ensures GoodPick(cfg, s, r, p)
  {
    CloseInv(cfg, s, p.id);
    CloseShrinks(s, p.id);
    CloseKeepsOthers(s, p.id);
  }

  lemma PickIoGood(cfg: Config, s: State, r: Request)
    requires r.path.Path? && Inv(cfg, s)
    ensures PickIo(cfg, s, r).Slot? ==> GoodPick(cfg, s, r, PickIo(cfg, s, r))
  {
    PickOwnerGood(cfg, s, r);
    PickSharedGood(cfg, cfg.inputs, InputOnly, s, r, 0, 0);
    PickSharedGood(cfg, cfg.listeners, ListenOnly, s, r, 0, 0);
  }

  /** Writing to a slot that is not listed, and stays unlisted, disturbs nothing. */
  lemma UnlistedInv(cfg: Config, s: State, c: nat, k: Conn)
    requires Inv(cfg, s) && c < |s.slots| && c !in s.active && k.state == NonExistent && AtRest(cfg.homes[c], k)
    ensures Inv(cfg, s.(slots := s.slots[c := k]))
  {
    SameLineage(s, s.(slots := s.slots[c := k]));
  }

  lemma UnlistedMastered(s: State, c: nat, k: Conn, p: nat)
    requires InRange(s) && Mastered(s, p) && c < |s.slots| && c !in s.active
    ensures Mastered(s.(slots := s.slots[c := k]), p)
  {
    var t := s.(slots := s.slots[c := k]);
    forall d | d in t.active && Depends(t.slots[d], p)
      ensures exists h :: IsMaster(t, h, p, t.slots[d].producedId)
    {
      var h :| IsMaster(s, h, p, s.slots[d].producedId);
      assert IsMaster(t, h, p, t.slots[d].producedId);
    }
  }

  /** What the path parser guarantees: class 3 paths end at the message router. */
  predicate Parsed(r: Request) {
    r.path.Path? && r.path.target == Assembly ==> r.production.transportClass != 3
  }

  /** A connection set up for request `r` under `number`, before its channels are opened. */
  ghost predicate SetUpFor(k: Conn, r: Request, kind: Kind, number: nat)
    requires r.path.Path?
  {
    && k.state == NonExistent && k.producing == INVALID_SOCKET && k.kind == kind && k.number == number && k.triad == r.triad
    && k.output == r.path.output && k.input == r.path.input && k.config == r.path.config
    && k.production.transportClass == r.production.transportClass && k.tToO == r.tToO
  }

  /** What an open does once its slot is chosen: an unlisted slot is written, or attached to the list. */
  lemma EstablishIoShape(cfg: Config, s: State, r: Request, number: nat) returns (k: Conn)
    requires r.path.Path? && Fits(cfg, s) && PickIo(cfg, s, r).Slot?
    ensures var res, p := EstablishIo(cfg, s, r, number).0, PickIo(cfg, s, r);
      && SetUpFor(k, r, p.kind, number)
      && p.id < |p.state.slots| && InRange(p.state)
      && (res == p.state.(slots := p.state.slots[p.id := k]) || (k.closable && res == Attach(p.state, p.id, k, r.socket) && SetupError(p.state, r, k.production) == 0))
  {
    PickInRange(cfg, s, r);
    var draft, inhibited := Draft(r, PickIo(cfg, s, r).kind, number), Inhibit(r.production);
    k := draft;
    if inhibited.Some? {
      k := Configured(r, draft).(production := inhibited.value, closable := true);
      if EstablishIo(cfg, s, r, number).1.Accepted? {
        k := Wired(r, k);
      }
    }
  }

  /** The new connection differs from those listed in what has to be unique. */
  lemma PickedAttachInv(cfg: Config, s: State, r: Request, number: nat, p: Pick, k: Conn, res: State)
    requires r.path.Path? && r.production.transportClass != 3 && Inv(cfg, s) && p.Slot? && GoodPick(cfg, s, r, p)
    requires number !in Numbers(s) && First(s.slots, s.active, MatchingTriad(r.triad)).None? && SetUpFor(k, r, p.kind, number)
    requires p.id < |p.state.slots| && InRange(p.state) && k.closable && res == Attach(p.state, p.id, k, r.socket)
    ensures Inv(cfg, res)
  {
    forall a | a in p.state.active
      ensures && p.state.slots[a].number != k.number
              && (p.state.slots[a].state == Established ==> p.state.slots[a].triad != k.triad)
              && Outlives(k, p.state.slots[a])
    {
      assert s.slots[a].number in Numbers(s) && !Matches(s.slots[a], MatchingTriad(r.triad));
    }
    AttachInv(cfg, p.state, p.id, k, r.socket);
  }

  lemma EstablishIoInv(cfg: Config, s: State, r: Request, number: nat)
    requires r.path.Path? && r.path.target == Assembly && Parsed(r) && Inv(cfg, s)
    requires number !in Numbers(s) && First(s.slots, s.active, MatchingTriad(r.triad)).None?
    ensures Inv(cfg, EstablishIo(cfg, s, r, number).0)
  {
    var res, p := EstablishIo(cfg, s, r, number).0, PickIo(cfg, s, r);
    if p.Slot? {
      var k := EstablishIoShape(cfg, s, r, number);
      PickIoGood(cfg, s, r);
      if res == p.state.(slots := p.state.slots[p.id := k]) {
        UnlistedInv(cfg, p.state, p.id, k);
      } else {
        PickedAttachInv(cfg, s, r, number, p, k, res);
      }
    }
  }

  lemma EstablishExplicitInv(cfg: Config, s: State, r: Request, number: nat)
    requires r.path.Path? && Inv(cfg, s)
    requires number !in Numbers(s) && First(s.slots, s.active, MatchingTriad(r.triad)).None?
    ensures Inv(cfg, EstablishExplicit(cfg, s, r, number).0)
  {
    var free := Free(s.slots, cfg.explicits.base, cfg.explicits.base + cfg.explicits.size);
    if free.Some? && |s.active| < NodePoolSize(cfg) {
      var c, k := free.value, ExplicitConn(r, number);
      assert c !in s.active && AtHome(cfg.homes[c], k);
      assert forall a :: a in s.active ==> s.slots[a].number in Numbers(s);
      ListedInv(cfg, s, c, k, EstablishExplicit(cfg, s, r, number).0);
    }
  }

  /** The connection an explicit open puts in its slot. */
  ghost function ExplicitConn(r: Request, number: nat): (k: Conn)
    requires r.path.Path?
    ensures k == Configured(r, Draft(r, Explicit, number)).(state := Established, closable := true)
    ensures k.kind == Explicit && k.state == Established && k.closable && k.producing == INVALID_SOCKET && k.number == number && k.triad == r.triad
  {
    Configured(r, Draft(r, Explicit, number)).(state := Established, closable := true)
  }

  /** A slot without a socket joins the list. */
  lemma ListedInv(cfg: Config, s: State, c: nat, k: Conn, t: State)
    requires Inv(cfg, s) && c < |s.slots| && c !in s.active && AtHome(cfg.homes[c], k)
    requires k.kind == Explicit && k.state == Established
    requires forall a :: a in s.active ==>
      s.slots[a].number != k.number && (s.slots[a].state == Established ==> s.slots[a].triad != k.triad)
    requires t == State(s.slots[c := k], [c] + s.active)
    ensures Inv(cfg, t)
  {
    AttachedLineage(s, t, c, k);
  }

  lemma ForwardOpenInv(cfg: Config, s: State, r: Request)
    requires Inv(cfg, s) && Parsed(r)
    ensures Inv(cfg, ForwardOpen(cfg, s, r).0)
  {
    var number := FirstUnused(r.draws, Numbers(s));
    OpenCases(cfg, s, r);
    if number.Some? && First(s.slots, s.active, MatchingTriad(r.triad)).None? && r.path.Path? {
      if r.path.target == Assembly {
        EstablishIoInv(cfg, s, r, number.value);
      } else if r.path.target == MessageRouter {
        EstablishExplicitInv(cfg, s, r, number.value);
      }
    }
  }

  /** An open changes nothing unless it is handed to one of the two establishing functions. */
  lemma OpenCases(cfg: Config, s: State, r: Request)
    requires Fits(cfg, s)
    ensures var t, number := ForwardOpen(cfg, s, r).0, FirstUnused(r.draws, Numbers(s));
      || t == s
      || (number.Some? && First(s.slots, s.active, MatchingTriad(r.triad)).None? && r.path.Path? &&
          ((r.path.target == Assembly && t == EstablishIo(cfg, s, r, number.value).0) ||
           (r.path.target == MessageRouter && t == EstablishExplicit(cfg, s, r, number.value).0)))
  {
  }

  // ---- Opening keeps an input mastered ----

  lemma PickMastered(cfg: Config, s: State, r: Request, p: nat)
    requires r.path.Path? && Inv(cfg, s) && Mastered(s, p)
    ensures var pick := PickIo(cfg, s, r);
      pick.Slot? ==> InRange(pick.state) && Mastered(pick.state, p)
  {
    PickIoGood(cfg, s, r);
    var pick := PickIo(cfg, s, r);
    if pick.Slot? && pick.state != s {
      CloseMastered(cfg, s, pick.id, p);
    }
  }

  /** A listener is only let in while somebody holds the socket, and that master stays. */
  lemma ListenerHasMaster(cfg: Config, s: State, r: Request, p: nat)
    requires r.path.Path? && r.path.input == p && Inv(cfg, s) && Mastered(s, p)
    requires var pick := PickIo(cfg, s, r); pick.Slot? && pick.kind == ListenOnly
    ensures var t := PickIo(cfg, s, r).state; InRange(t) && First(t.slots, t.active, Producer(true, p)).Some?
  {
    var pick := PickIo(cfg, s, r);
    PickSharedGood(cfg, cfg.inputs, InputOnly, s, r, 0, 0);
    PickSharedGood(cfg, cfg.listeners, ListenOnly, s, r, 0, 0);
    assert pick == PickShared(cfg.listeners, ListenOnly, s, r, 0, 0);
    var h := First(s.slots, s.active, Producer(false, p)).value;
    assert Matches(s.slots[h], Producer(true, p));
    if pick.state != s {
      assert pick.state == DropAll(s, {pick.id});
      assert h in pick.state.active && pick.state.slots[h] == s.slots[h];
    }
  }

  /** Every request for an I/O connection on the input asks for multicast. */
  predicate AsksMulticast(r: Request, p: nat) {
    r.path.Path? && r.path.target == Assembly && r.path.input == p ==> r.tToO == Multicast
  }

  lemma EstablishIoMastered(cfg: Config, s: State, r: Request, number: nat, p: nat)
    requires r.path.Path? && r.path.target == Assembly && AsksMulticast(r, p)
    requires Inv(cfg, s) && Mastered(s, p)
    ensures InRange(EstablishIo(cfg, s, r, number).0) && Mastered(EstablishIo(cfg, s, r, number).0, p)
  {
    var res, pick := EstablishIo(cfg, s, r, number).0, PickIo(cfg, s, r);
    if pick.Slot? {
      var k := EstablishIoShape(cfg, s, r, number);
      PickIoGood(cfg, s, r);
      PickMastered(cfg, s, r, p);
      if res == pick.state.(slots := pick.state.slots[pick.id := k]) {
        UnlistedMastered(pick.state, pick.id, k, p);
      } else {
        PickedAttachMastered(cfg, s, r, number, pick, k, res, p);
      }
    }
  }

  lemma PickedAttachMastered(cfg: Config, s: State, r: Request, number: nat, pick: Pick, k: Conn, res: State, p: nat)
    requires r.path.Path? && AsksMulticast(r, p) && r.path.target == Assembly && Inv(cfg, s) && Mastered(s, p)
    requires pick == PickIo(cfg, s, r) && pick.Slot? && GoodPick(cfg, s, r, pick) && Mastered(pick.state, p)
    requires SetUpFor(k, r, pick.kind, number) && SetupError(pick.state, r, k.production) == 0
    requires res == Attach(pick.state, pick.id, k, r.socket)
    ensures InRange(res) && Mastered(res, p)
  {
    forall a | a in pick.state.active
      ensures Outlives(k, pick.state.slots[a])
    {
    }
    if pick.kind == ListenOnly && r.path.input == p {
      ListenerHasMaster(cfg, s, r, p);
    }
    AttachMastered(pick.state, pick.id, k, r.socket, p);
  }

  lemma EstablishExplicitMastered(cfg: Config, s: State, r: Request, number: nat, p: nat)
    requires r.path.Path? && Inv(cfg, s) && Mastered(s, p)
    ensures InRange(EstablishExplicit(cfg, s, r, number).0) && Mastered(EstablishExplicit(cfg, s, r, number).0, p)
  {
    var free := Free(s.slots, cfg.explicits.base, cfg.explicits.base + cfg.explicits.size);
    if free.Some? && |s.active| < NodePoolSize(cfg) {
      ListedMastered(s, free.value, ExplicitConn(r, number), EstablishExplicit(cfg, s, r, number).0, p);
    }
  }

  lemma ListedMastered(s: State, c: nat, k: Conn, t: State, p: nat)
    requires InRange(s) && Mastered(s, p) && c < |s.slots| && c !in s.active && k.kind == Explicit
    requires t == State(s.slots[c := k], [c] + s.active)
    ensures InRange(t) && Mastered(t, p)
  {
    forall d | d in t.active && Depends(t.slots[d], p)
      ensures exists h :: IsMaster(t, h, p, t.slots[d].producedId)
    {
      var h :| IsMaster(s, h, p, s.slots[d].producedId);
      assert IsMaster(t, h, p, t.slots[d].producedId);
    }
  }

  lemma ForwardOpenMastered(cfg: Config, s: State, r: Request, p: nat)
    requires Inv(cfg, s) && AsksMulticast(r, p) && Mastered(s, p)
    ensures InRange(ForwardOpen(cfg, s, r).0) && Mastered(ForwardOpen(cfg, s, r).0, p)
  {
    var number := FirstUnused(r.draws, Numbers(s));
    if number.Some? && r.path.Path? {
      if r.path.target == Assembly {
        EstablishIoMastered(cfg, s, r, number.value, p);
      } else if r.path.target == MessageRouter {
        EstablishExplicitMastered(cfg, s, r, number.value, p);
      }
    }
  }
}
