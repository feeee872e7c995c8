/** Who goes when a connection closes, a session ends or a connection times out: told by slots and list alone. */
module Departures {
  import opened Wrappers
  import opened Sequences
  import opened Connections
  import opened Lifecycle
  import opened Invariants
  import opened Runs
  import opened Timeouts

  // ---- The first of the listed connections ----

  /** `c` is the member of `good` that comes first in `xs`. */
  ghost predicate FirstOf(xs: seq<nat>, good: set<nat>, c: nat) {
    exists i :: 0 <= i < |xs| && xs[i] == c && c in good && forall j :: 0 <= j < i ==> xs[j] !in good
  }

  /** A scan finds the first listed connection that passes its test. */
  lemma {:induction false} ScanIsFirst(slots: seq<Conn>, xs: seq<nat>, q: Query, good: set<nat>)
    requires forall x :: x in xs ==> x < |slots| && (x in good <==> Matches(slots[x], q))
    ensures First(slots, xs, q).None? <==> forall x :: x in xs ==> x !in good
    ensures forall c: nat :: FirstOf(xs, good, c) <==> First(slots, xs, q) == Some(c)
  {
    if xs != [] {
      assert xs[0] in xs && forall x :: x in xs[1..] ==> x in xs;
      ScanIsFirst(slots, xs[1..], q, good);
      forall c: nat
        ensures FirstOf(xs, good, c) <==> First(slots, xs, q) == Some(c)
      {
        FirstOfTail(xs, good, c);
      }
    }
  }

  lemma FirstOfTail(xs: seq<nat>, good: set<nat>, c: nat)
    requires xs != []
    ensures FirstOf(xs, good, c) <==> if xs[0] in good then c == xs[0] else FirstOf(xs[1..], good, c)
  {
    if xs[0] !in good && FirstOf(xs[1..], good, c) {
      var i :| 0 <= i < |xs[1..]| && xs[1..][i] == c && c in good && forall j :: 0 <= j < i ==> xs[1..][j] !in good;
      assert xs[i + 1] == c && forall j :: 0 <= j < i + 1 ==> xs[j] !in good;
    }
    if FirstOf(xs, good, c) {
      var i :| 0 <= i < |xs| && xs[i] == c && c in good && forall j :: 0 <= j < i ==> xs[j] !in good;
      if i > 0 {
        assert xs[1..][i - 1] == c && forall j :: 0 <= j < i - 1 ==> xs[1..][j] == xs[j + 1];
      }
    }
  }

  /** Leaving out others does not change who is first. */
  lemma {:induction false} FirstOfWithout(xs: seq<nat>, good: set<nat>, gone: set<nat>, c: nat)
    requires good !! gone
    ensures FirstOf(Without(xs, gone), good, c) <==> FirstOf(xs, good, c)
  {
    if xs != [] {
      FirstOfWithout(xs[1..], good, gone, c);
      FirstOfTail(xs, good, c);
      if xs[0] !in gone {
        var rest := Without(xs[1..], gone);
        assert Without(xs, gone) == [xs[0]] + rest && ([xs[0]] + rest)[1..] == rest;
        FirstOfTail([xs[0]] + rest, good, c);
      }
    }
  }

  // ---- Handing over ----

  /** It has the multicast socket of its input to give away. */
  predicate Gives(k: Conn) {
    (k.kind == ExclusiveOwner || k.kind == InputOnly) && k.tToO == Multicast && k.producing != INVALID_SOCKET
  }

  /** It could take over input `p`. */
  predicate Takes(k: Conn, p: nat) {
    && (k.kind == ExclusiveOwner || k.kind == InputOnly) && k.state == Established
    && k.input == p && k.tToO == Multicast && k.producing == INVALID_SOCKET
  }

  ghost function Heirs(s: State, p: nat): set<nat>
    requires InRange(s)
  {
    set a | a in s.active && Takes(s.slots[a], p)
  }

  /** Socket, destination, both counters and the trigger timer of `k` pass to `l`. */
  function Succeeding(l: Conn, k: Conn): Conn {
    l.(producing := k.producing, remote := k.remote, eipSequence := k.eipSequence, sequenceCount := k.sequenceCount, trigger := k.trigger)
  }

  lemma HeirIsFirst(s: State, c: nat)
    requires InRange(s) && c < |s.slots|
    ensures forall m: nat :: FirstOf(s.active, Heirs(s, s.slots[c].input), m) <==> Heir(s, c) == Some(m)
    ensures Heir(s, c).None? <==> Heirs(s, s.slots[c].input) == {}
  {
    ScanIsFirst(s.slots, s.active, NextMaster(s.slots[c].input), Heirs(s, s.slots[c].input));
  }

  // ---- Closing ----

  /** `a` goes when `c` is closed. */
  ghost predicate ClosesWith(s: State, c: nat, a: nat)
    requires InRange(s) && c < |s.slots| && a < |s.slots|
  {
    var p := s.slots[c].input;
    a == c || (Gives(s.slots[c]) && Heirs(s, p) == {} && a in s.active && Listens(s.slots[a], p))
  }

  ghost function SlotAfterClose(s: State, c: nat, a: nat): Conn
    requires InRange(s) && c < |s.slots| && a < |s.slots|
  {
    if ClosesWith(s, c, a) then EMPTY
    else if Gives(s.slots[c]) && FirstOf(s.active, Heirs(s, s.slots[c].input), a) then Succeeding(s.slots[a], s.slots[c])
    else s.slots[a]
  }

  /** All of the state after closing `c`: who goes leaves an empty slot, the first heir takes over, nobody else changes. */
  ghost predicate Vacates(s: State, t: State, c: nat)
    requires InRange(s) && c in s.active
  {
    && |t.slots| == |s.slots| && Shrunk(s, t)
    && (forall a :: a in s.active ==> (a in t.active <==> !ClosesWith(s, c, a)))
    && (forall a :: 0 <= a < |s.slots| ==> t.slots[a] == SlotAfterClose(s, c, a))
  }

  lemma CloseExactly(s: State, c: nat)
    requires InRange(s) && c in s.active
    ensures Vacates(s, Close(s, c), c)
  {
    CloseShrinks(s, c);
    HeirIsFirst(s, c);
    if Gives(s.slots[c]) && Heir(s, c).Some? {
      HandoverVacates(s, c, Heir(s, c).value);
    }
  }

  lemma HandoverVacates(s: State, c: nat, m: nat)
    requires InRange(s) && c in s.active && Gives(s.slots[c]) && Heir(s, c) == Some(m)
    ensures Vacates(s, DropAll(MoveMaster(s, c, m), {c}), c)
  {
    var u := MoveMaster(s, c, m);
    var t := DropAll(u, {c});
    SameShrinks(s, u);
    DropAllShrinks(u, {c});
    ShrunkTransitive(s, u, t);
    forall a | 0 <= a < |s.slots|
      ensures (ClosesWith(s, c, a) <==> a == c) && t.slots[a] == SlotAfterClose(s, c, a)
    {
      HandoverSlot(s, c, m, a);
    }
  }

  lemma HandoverSlot(s: State, c: nat, m: nat, a: nat)
    requires InRange(s) && c in s.active && Gives(s.slots[c]) && Heir(s, c) == Some(m) && a < |s.slots|
    ensures ClosesWith(s, c, a) <==> a == c
    ensures SlotAfterClose(s, c, a) == if a == c then EMPTY else if a == m then Succeeding(s.slots[m], s.slots[c]) else s.slots[a]
    ensures m != c && DropAll(MoveMaster(s, c, m), {c}).slots[a] == SlotAfterClose(s, c, a)
  {
    HeirIsFirst(s, c);
  }

  /** A slot that is not listed, and has nothing to give, is emptied. */
  lemma CloseUnlistedExactly(s: State, c: nat)
    requires InRange(s) && c < |s.slots| && c !in s.active && !Gives(s.slots[c])
    ensures Loses(s, Close(s, c), {c}) && Close(s, c).active == s.active
  {
    WithoutNone(s.active, {c});
  }

  // ---- Forward Close ----

  ghost function Carrying(s: State, triad: Triad): set<nat>
    requires InRange(s)
  {
    set a | a in s.active && s.slots[a].state != NonExistent && s.slots[a].triad == triad
  }

  /** The first listed connection with the triad decides: its originator closes it and whoever goes with it, anybody
      else is turned away; and without such a connection nothing is found. */
  lemma ForwardCloseExactly(cfg: Config, s: State, triad: Triad, from: nat)
    requires Inv(cfg, s)
    ensures var (t, reply) := ForwardClose(s, triad, from);
      && Next(cfg, s, Shut(triad, from)) == Progress(t, [], false)
      && (reply == NotFound <==> forall a :: a in s.active ==> s.slots[a].triad != triad)
      && (reply != Closed ==> t == s)
      && forall c: nat :: FirstOf(s.active, Carrying(s, triad), c) ==>
           (if s.slots[c].address == from then reply == Closed && Vacates(s, t, c) else reply == WrongCloser)
  {
    ScanIsFirst(s.slots, s.active, AnyTriad(triad), Carrying(s, triad));
    var found := First(s.slots, s.active, AnyTriad(triad));
    if found.Some? {
      CloseExactly(s, found.value);
    }
  }

  // ---- Ending sessions ----

  /** The listed class 3 connections of a session. */
  ghost function OfSession(s: State, session: nat): set<nat>
    requires InRange(s)
  {
    set a | a in s.active && s.slots[a].production.transportClass == 3 && s.slots[a].session == session
  }

  /** The connections `gone` are off the list and their slots empty; all else is as before. */
  ghost predicate Loses(s: State, t: State, gone: set<nat>) {
    t.active == Without(s.active, gone) && |t.slots| == |s.slots| &&
    forall a :: 0 <= a < |s.slots| ==> t.slots[a] == if a in gone then EMPTY else s.slots[a]
  }

  /** Ending a session closes the first class 3 connection that came through it, if there is one, and nothing else. */
  lemma EndSessionExactly(cfg: Config, s: State, session: nat)
    requires Inv(cfg, s)
    ensures var t := CloseSession(s, session);
      && Next(cfg, s, EndSession(session)) == Progress(t, [], false)
      && (OfSession(s, session) == {} ==> t == s)
      && (OfSession(s, session) != {} ==> exists c: nat :: FirstOf(s.active, OfSession(s, session), c))
      && forall c: nat :: FirstOf(s.active, OfSession(s, session), c) ==> s.slots[c].kind == Explicit && Loses(s, t, {c})
  {
    ScanIsFirst(s.slots, s.active, Class3(session), OfSession(s, session));
    Class3Explicit(cfg, s, session);
    var found := First(s.slots, s.active, Class3(session));
    if found.Some? {
      assert CloseSession(s, session) == DropAll(s, {found.value});
      assert FirstOf(s.active, OfSession(s, session), found.value);
    }
  }

  /** The connections of its session listed before `a`. */
  ghost function Earlier(s: State, a: nat): set<nat>
    requires InRange(s) && a in s.active
  {
    set b | b in OfSession(s, s.slots[a].session) && a in After(s.active, b)
  }

  /** It belongs to a session that ends often enough for its turn to come. */
  ghost predicate Ends(s: State, sessions: seq<nat>, a: nat)
    requires InRange(s) && a in s.active
  {
    s.slots[a].production.transportClass == 3 && |Earlier(s, a)| < multiset(sessions)[s.slots[a].session]
  }

  ghost function Ending(s: State, sessions: seq<nat>): set<nat>
    requires InRange(s)
  {
    set a | a in s.active && Ends(s, sessions, a)
  }

  lemma {:induction false} FirstOfLeads(xs: seq<nat>, good: set<nat>, c: nat, a: nat)
    requires Distinct(xs) && FirstOf(xs, good, c) && a in good && a in xs
    ensures a == c || a in After(xs, c)
    ensures forall b :: b in good && b in xs ==> c !in After(xs, b)
  {
    FirstOfTail(xs, good, c);
    if xs[0] in good {
      forall b | b in good && b in xs && b != c
        ensures c !in After(xs, b)
      {
        AfterIn(xs[1..], b);
      }
      assert c !in xs[1..];
    } else {
      FirstOfLeads(xs[1..], good, c, a);
    }
  }

  /** One session less: who is left of it moves up by one, the others stay where they are. */
  lemma OneSession(s: State, session: nat, c: nat, t: State, a: nat)
    requires InRange(s) && Distinct(s.active) && FirstOf(s.active, OfSession(s, session), c) && Loses(s, t, {c}) && InRange(t)
    requires a in t.active && s.slots[a].production.transportClass == 3
    ensures a in s.active && a != c && t.slots[a] == s.slots[a]
    ensures Earlier(t, a) == Earlier(s, a) - {c}
    ensures c in Earlier(s, a) <==> s.slots[a].session == session
  {
    forall b | b in t.active
      ensures a in After(t.active, b) <==> a in After(s.active, b)
    {
      AfterWithout(s.active, {c}, b);
    }
    if s.slots[a].session == session {
      FirstOfLeads(s.active, OfSession(s, session), c, a);
    }
  }

  lemma FirstEndsFirst(s: State, session: nat, c: nat)
    requires InRange(s) && Distinct(s.active) && FirstOf(s.active, OfSession(s, session), c)
    ensures Earlier(s, c) == {}
  {
    FirstOfLeads(s.active, OfSession(s, session), c, c);
  }

  lemma LosesTwice(s: State, t: State, u: State, a: set<nat>, b: set<nat>)
    requires Loses(s, t, a) && Loses(t, u, b)
    ensures Loses(s, u, a + b)
  {
    WithoutTwice(s.active, a, b);
  }

  lemma LosesNobody(s: State, gone: set<nat>)
    requires gone == {}
    ensures Loses(s, s, gone)
  {
    WithoutNone(s.active, {});
  }

  /** Ending sessions, some of them perhaps more than once, closes of each as many as it ends times, in list order. */
  lemma {:induction false} SessionsExactly(cfg: Config, s: State, sessions: seq<nat>)
    requires Inv(cfg, s)
    ensures Loses(s, CloseSessions(s, sessions), Ending(s, sessions))
    decreases sessions
  {
    if sessions == [] {
      LosesNobody(s, Ending(s, sessions));
    } else {
      var x, rest, t := sessions[0], sessions[1..], CloseSession(s, sessions[0]);
      EndSessionExactly(cfg, s, x);
      CloseSessionsInv(cfg, s, [x]);
      SessionsOne(s, x);
      SessionsExactly(cfg, t, rest);
      assert sessions == [x] + rest;
      if OfSession(s, x) == {} {
        EndingWithout(s, x, rest);
      } else {
        var c: nat :| FirstOf(s.active, OfSession(s, x), c);
        EndingSplits(s, x, rest, c, t);
        LosesTwice(s, t, CloseSessions(s, sessions), {c}, Ending(t, rest));
      }
    }
  }

  lemma EndingWithout(s: State, x: nat, rest: seq<nat>)
    requires InRange(s) && OfSession(s, x) == {}
    ensures Ending(s, [x] + rest) == Ending(s, rest)
  {
    assert multiset([x] + rest) == multiset{x} + multiset(rest);
    forall a | a in s.active && s.slots[a].production.transportClass == 3
      ensures s.slots[a].session != x
    {
      assert a in OfSession(s, s.slots[a].session);
    }
  }

  lemma SessionsOne(s: State, x: nat)
    requires InRange(s) && Distinct(s.active)
    ensures CloseSessions(s, [x]) == CloseSession(s, x)
  {
    CloseSessionShrinks(s, x);
    ShrunkKeepsOrder(s, CloseSession(s, x));
    assert CloseSessions(CloseSession(s, x), []) == CloseSession(s, x);
  }

  lemma EndingSplits(s: State, x: nat, rest: seq<nat>, c: nat, t: State)
    requires InRange(s) && Distinct(s.active) && FirstOf(s.active, OfSession(s, x), c) && Loses(s, t, {c}) && InRange(t)
    ensures Ending(s, [x] + rest) == {c} + Ending(t, rest)
  {
    var sessions := [x] + rest;
    assert multiset(sessions) == multiset{x} + multiset(rest);
    FirstEndsFirst(s, x, c);
    forall a
      ensures a in Ending(s, sessions) <==> a in {c} + Ending(t, rest)
    {
      if a in t.active && s.slots[a].production.transportClass == 3 {
        OneSession(s, x, c, t, a);
      }
    }
  }

  // ---- The walk of a timed-out owner ----

  predicate Depending(k: Conn, p: nat) {
    (k.kind == InputOnly || k.kind == ListenOnly) && k.input == p
  }

  /** Input-only and listen-only connections of the input may go, or change hands; all others are as before. */
  ghost predicate Sweeps(s: State, t: State, p: nat)
    requires InRange(s)
  {
    && |t.slots| == |s.slots| && Shrunk(s, t) && InRange(t)
    && (forall a :: a in s.active && !Depending(s.slots[a], p) ==> a in t.active)
    && (forall a :: 0 <= a < |s.slots| && (a !in s.active || !Depending(s.slots[a], p)) ==> t.slots[a] == s.slots[a])
    && (forall a :: a in s.active && a !in t.active ==> t.slots[a] == EMPTY)
    && (forall a :: a in t.active && Listens(s.slots[a], p) ==> t.slots[a] == s.slots[a])
    && (forall a :: a in t.active ==>
         a in s.active && t.slots[a].kind == s.slots[a].kind && t.slots[a].input == s.slots[a].input && t.slots[a].state == s.slots[a].state)
  }

  lemma SweepsTwice(s: State, t: State, u: State, p: nat)
    requires InRange(s) && Sweeps(s, t, p) && Sweeps(t, u, p)
    ensures Sweeps(s, u, p)
  {
    ShrunkTransitive(s, t, u);
  }

  lemma SweepsNobody(s: State, p: nat)
    requires InRange(s)
    ensures Sweeps(s, s, p)
  {
    SameShrinks(s, s);
  }

  lemma DropSweeps(s: State, gone: set<nat>, p: nat)
    requires InRange(s) && forall a :: a in gone ==> a in s.active && Depending(s.slots[a], p)
    ensures Sweeps(s, DropAll(s, gone), p)
  {
    DropAllShrinks(s, gone);
  }

  /** One round, while no owner of the input is up to take over. */
  lemma RoundSweeps(s: State, c: nat, p: nat, t: State)
    requires InRange(s) && Midway(s, c, p) && t == CloseIfMate(s, c, InputOnly, p)
    ensures Sweeps(s, t, p) && (c in t.active ==> !(s.slots[c].kind == InputOnly && s.slots[c].input == p))
  {
    SweepsNobody(s, p);
    if s.slots[c].kind == InputOnly && s.slots[c].input == p {
      CloseShrinks(s, c);
      CloseExactly(s, c);
    }
  }

  /** Moving on, what is ahead stays ahead. */
  lemma MidwayMoves(s: State, c: nat, p: nat, t: State, n: nat)
    requires InRange(s) && Distinct(s.active) && Midway(s, c, p) && Sweeps(s, t, p) && n in t.active
    requires c in t.active ==> !(s.slots[c].kind == InputOnly && s.slots[c].input == p)
    requires After(s.active, c) != [] && n == After(s.active, c)[0]
    ensures Midway(t, n, p)
  {
    StepOn(s.active, c, {});
    AfterWithout(s.active, Missing(s, t), n);
  }

  /** A walk that does not end fatally leaves no input-only connection of the input. */
  lemma {:induction false} WalkSweeps(cfg: Config, s: State, c: nat, p: nat)
    requires Inv(cfg, s) && Midway(s, c, p) && !CloseFrom(s, c, InputOnly, p).1
    ensures var t := CloseFrom(s, c, InputOnly, p).0;
      Sweeps(s, t, p) && forall a :: a in t.active ==> !(t.slots[a].kind == InputOnly && t.slots[a].input == p)
    decreases |After(s.active, c)|
  {
    var t := CloseIfMate(s, c, InputOnly, p);
    CloseIfMateShrinks(s, c, InputOnly, p);
    ShrunkKeepsOrder(s, t);
    RoundSweeps(s, c, p, t);
    if After(s.active, c) != [] {
      var n := After(s.active, c)[0];
      AfterTail(s.active, c);
      CloseInv(cfg, s, c);
      MidwayMoves(s, c, p, t, n);
      WalkSweeps(cfg, t, n, p);
      SweepsTwice(s, t, CloseFrom(s, c, InputOnly, p).0, p);
    }
  }

  /** Then its listeners go, and nobody who depends on the input is left. */
  lemma DependentsGo(cfg: Config, s: State, p: nat)
    requires Inv(cfg, s) && !DropDependents(s, p).1
    requires forall a :: a in s.active && s.slots[a].kind == ExclusiveOwner && s.slots[a].input == p ==> s.slots[a].state != Established
    ensures var t := DropDependents(s, p).0; Sweeps(s, t, p) && forall a :: a in t.active ==> !Depending(t.slots[a], p)
  {
    var t := CloseMates(s, InputOnly, p).0;
    if s.active == [] {
      SweepsNobody(s, p);
    } else {
      assert s.active == [s.active[0]] + After(s.active, s.active[0]);
      WalkSweeps(cfg, s, s.active[0], p);
    }
    DropSweeps(t, Mates(t, ListenOnly, p), p);
    SweepsTwice(s, t, DropDependents(s, p).0, p);
  }

  // ---- Timing out ----

  /** A connection that times out finds somebody to take the socket of its input. */
  ghost predicate Hands(s: State, c: nat)
    requires InRange(s) && c < |s.slots|
  {
    Gives(s.slots[c]) && Heirs(s, s.slots[c].input) != {}
  }

  /** `a` goes when `c` times out: a last master takes the listeners of its input along, and an owner that hands over
      nothing takes along all who depend on it. */
  ghost predicate Falls(s: State, c: nat, a: nat)
    requires InRange(s) && c < |s.slots| && a < |s.slots|
  {
    && a in s.active && !Hands(s, c) && s.slots[a].input == s.slots[c].input
    && (if s.slots[a].kind == ListenOnly then s.slots[c].kind == ExclusiveOwner || Gives(s.slots[c])
        else s.slots[a].kind == InputOnly && s.slots[c].kind == ExclusiveOwner)
  }

  ghost function SlotAfterFall(s: State, c: nat, a: nat): Conn
    requires InRange(s) && c < |s.slots| && a < |s.slots|
  {
    if Falls(s, c, a) then EMPTY
    else if a == c then (if Hands(s, c) then s.slots[c].(producing := INVALID_SOCKET) else s.slots[c])
    else if Gives(s.slots[c]) && FirstOf(s.active, Heirs(s, s.slots[c].input), a) then Succeeding(s.slots[a], s.slots[c])
    else s.slots[a]
  }

  /** All of the state after the fall of `c`. */
  ghost predicate Fallen(s: State, t: State, c: nat)
    requires InRange(s) && c in s.active
  {
    && |t.slots| == |s.slots| && Shrunk(s, t)
    && (forall a :: a in s.active ==> (a in t.active <==> !Falls(s, c, a)))
    && (forall a :: 0 <= a < |s.slots| ==> t.slots[a] == SlotAfterFall(s, c, a))
  }

  /** An owner that hands over nothing: all who depend on its input go. */
  lemma OwnerFalls(s: State, c: nat, t: State)
    requires InRange(s) && c in s.active && s.slots[c].kind == ExclusiveOwner && !Hands(s, c) && Sweeps(s, t, s.slots[c].input)
    requires forall a :: a in t.active ==> !Depending(t.slots[a], s.slots[c].input)
    ensures Fallen(s, t, c)
  {
    forall a | a in s.active
      ensures a in t.active <==> !Falls(s, c, a)
    {
    }
  }

  lemma HandsExactly(s: State, c: nat)
    requires InRange(s) && c < |s.slots|
    ensures Hands(s, c) <==> HandsOver(s, c)
    ensures MustHandOver(s.slots[c]) <==> Gives(s.slots[c])
  {
    HeirIsFirst(s, c);
  }

  lemma HandoverFalls(s: State, c: nat, m: nat)
    requires InRange(s) && c in s.active && HandsOver(s, c) && Heir(s, c) == Some(m)
    ensures Fallen(s, MoveMaster(s, c, m), c)
  {
    HeirIsFirst(s, c);
    SameShrinks(s, MoveMaster(s, c, m));
  }

  lemma LastInputFalls(s: State, c: nat)
    requires InRange(s) && c in s.active && s.slots[c].kind == InputOnly && Gives(s.slots[c]) && !Hands(s, c)
    ensures Fallen(s, DropAll(s, Mates(s, ListenOnly, s.slots[c].input)), c)
  {
    DropAllShrinks(s, Mates(s, ListenOnly, s.slots[c].input));
  }

  lemma FallExactly(cfg: Config, s: State, c: nat)
    requires Inv(cfg, s) && c in s.active && s.slots[c].kind != Explicit && !Fall(s, c).1
    requires s.slots[c].kind == ExclusiveOwner ==>
      forall a :: a in s.active && s.slots[a].kind == ExclusiveOwner && s.slots[a].input == s.slots[c].input ==> s.slots[a].state != Established
    ensures Fallen(s, Fall(s, c).0, c)
  {
    var u, p := Half(s, c), s.slots[c].input;
    HandsExactly(s, c);
    if HandsOver(s, c) {
      HandoverFalls(s, c, Heir(s, c).value);
    } else if s.slots[c].kind == ExclusiveOwner {
      HalfInv(cfg, s, c);
      SweepsNobody(s, p);
      DropSweeps(s, Mates(s, ListenOnly, p), p);
      DependentsGo(cfg, u, p);
      SweepsTwice(s, u, Fall(s, c).0, p);
      OwnerFalls(s, c, Fall(s, c).0);
    } else if Gives(s.slots[c]) {
      LastInputFalls(s, c);
    } else {
      SameShrinks(s, s);
    }
  }

  /** `a` goes when `c` times out and these sessions end with it. */
  ghost predicate GoesWith(s: State, c: nat, sessions: seq<nat>, a: nat)
    requires InRange(s) && c < |s.slots| && a < |s.slots|
  {
    Falls(s, c, a) || (a in s.active && Ends(s, sessions, a))
  }

  /** A slot after that: who goes leaves it empty, `c` has timed out, the first heir has its socket, the rest is as before. */
  ghost function SlotAfterTimeOut(s: State, c: nat, sessions: seq<nat>, a: nat): Conn
    requires InRange(s) && c < |s.slots| && a < |s.slots|
  {
    if GoesWith(s, c, sessions, a) then EMPTY
    else if a == c then
      s.slots[c].(state := TimedOut, producing := if Hands(s, c) then INVALID_SOCKET else s.slots[c].producing)
    else if Gives(s.slots[c]) && FirstOf(s.active, Heirs(s, s.slots[c].input), a) then Succeeding(s.slots[a], s.slots[c])
    else s.slots[a]
  }

  lemma OwnersDown(cfg: Config, s: State, c: nat, u: State)
    requires Inv(cfg, s) && c in s.active && s.slots[c].state == Established && s.slots[c].kind == ExclusiveOwner && InRange(u)
    requires |u.slots| == |s.slots| && forall a :: a in u.active && u.slots[a].kind != Explicit ==> a in s.active && u.slots[a] == Expire(s, c).slots[a]
    ensures forall a :: a in u.active && u.slots[a].kind == ExclusiveOwner && u.slots[a].input == s.slots[c].input ==> u.slots[a].state != Established
  {
    forall a | a in u.active && u.slots[a].kind == ExclusiveOwner && u.slots[a].input == s.slots[c].input
      ensures u.slots[a].state != Established
    {
      if a != c {
        OneEstablishedOwner(cfg, s, a, c);
      }
    }
  }

  lemma ExpiredEnding(cfg: Config, s: State, c: nat, sessions: seq<nat>)
    requires Inv(cfg, s) && c in s.active && s.slots[c].kind != Explicit
    ensures Ending(Expire(s, c), sessions) == Ending(s, sessions)
    ensures forall a :: a in Ending(s, sessions) ==> s.slots[a].kind == Explicit
  {
    forall x: nat
      ensures OfSession(Expire(s, c), x) == OfSession(s, x)
    {
    }
  }

  /** `u` is `s` once `c` has timed out and the connections of ending sessions are gone. */
  ghost predicate Readied(s: State, c: nat, u: State, gone: set<nat>)
    requires InRange(s) && c < |s.slots|
  {
    Loses(Expire(s, c), u, gone) && forall a :: a in gone ==> a in s.active && s.slots[a].kind == Explicit
  }

  lemma ReadiedHeirs(s: State, c: nat, u: State, gone: set<nat>)
    requires InRange(s) && c in s.active && s.slots[c].kind != Explicit && Readied(s, c, u, gone) && InRange(u) && Gives(s.slots[c])
    ensures Heirs(u, s.slots[c].input) == Heirs(s, s.slots[c].input)
    ensures forall m: nat :: FirstOf(u.active, Heirs(s, s.slots[c].input), m) <==> FirstOf(s.active, Heirs(s, s.slots[c].input), m)
  {
    var heirs := Heirs(s, s.slots[c].input);
    forall a
      ensures a in Heirs(u, s.slots[c].input) <==> a in heirs
    {
    }
    forall m: nat
      ensures FirstOf(u.active, heirs, m) <==> FirstOf(s.active, heirs, m)
    {
      FirstOfWithout(s.active, heirs, gone, m);
    }
  }

  /** Nothing that decides who falls has changed. */
  lemma ReadiedFalls(s: State, c: nat, u: State, gone: set<nat>, a: nat)
    requires InRange(s) && c in s.active && s.slots[c].kind != Explicit && Readied(s, c, u, gone) && InRange(u) && a < |s.slots|
    ensures Gives(u.slots[c]) <==> Gives(s.slots[c])
    ensures Hands(u, c) <==> Hands(s, c)
    ensures Falls(u, c, a) <==> Falls(s, c, a)
  {
    if Gives(s.slots[c]) {
      ReadiedHeirs(s, c, u, gone);
    }
  }

  lemma ReadiedSlot(s: State, c: nat, sessions: seq<nat>, u: State, t: State, a: nat)
    requires InRange(s) && c in s.active && s.slots[c].kind != Explicit && Readied(s, c, u, Ending(s, sessions)) && InRange(u)
    requires c in u.active && Fallen(u, t, c) && a < |s.slots|
    ensures t.slots[a] == SlotAfterTimeOut(s, c, sessions, a)
    ensures a in s.active ==> (a in t.active <==> !GoesWith(s, c, sessions, a))
  {
    ReadiedFalls(s, c, u, Ending(s, sessions), a);
    if Gives(s.slots[c]) {
      ReadiedHeirs(s, c, u, Ending(s, sessions));
    }
    assert a in s.active ==> (a in t.active ==> a in u.active);
  }

  /** An explicit connection that times out goes alone. */
  lemma ExplicitTimeOutExactly(s: State, c: nat, sessions: seq<nat>)
    requires InRange(s) && Distinct(s.active) && c in s.active && s.slots[c].kind == Explicit
    ensures Loses(s, TimeOut(s, c, sessions).0, {c}) && !TimeOut(s, c, sessions).1
  {
  }

  /** A timeout that does not end fatally, in full: who goes, and what every slot holds afterwards. */
  lemma TimeOutExactly(cfg: Config, s: State, c: nat, sessions: seq<nat>)
    requires Inv(cfg, s) && c in s.active && s.slots[c].state == Established && s.slots[c].kind != Explicit && !TimeOut(s, c, sessions).1
    ensures var t := TimeOut(s, c, sessions).0;
      && |t.slots| == |s.slots| && Shrunk(s, t)
      && (forall a :: a in s.active ==> (a in t.active <==> !GoesWith(s, c, sessions, a)))
      && (forall a :: 0 <= a < |s.slots| ==> t.slots[a] == SlotAfterTimeOut(s, c, sessions, a))
  {
    var t, u := TimeOut(s, c, sessions).0, CloseSessions(Expire(s, c), sessions);
    ExpireInv(cfg, s, c);
    ExpiredAndSessions(cfg, s, c, sessions);
    SessionsExactly(cfg, Expire(s, c), sessions);
    ExpiredEnding(cfg, s, c, sessions);
    if s.slots[c].kind == ExclusiveOwner {
      OwnersDown(cfg, s, c, u);
    }
    FallExactly(cfg, u, c);
    TimeOutShrinks(s, c, sessions);
    forall a | 0 <= a < |s.slots|
      ensures t.slots[a] == SlotAfterTimeOut(s, c, sessions, a)
      ensures a in s.active ==> (a in t.active <==> !GoesWith(s, c, sessions, a))
    {
      ReadiedSlot(s, c, sessions, u, t, a);
    }
  }
}
