/** What happens to one connection in a run of the whole stack is what happens to it alone: its timer, its state and
    its sequence number follow the visits, packets and messages that concern it, and nothing else. */
module Clocks {
  import opened Wrappers
  import opened Sequences
  import opened Connections
  import opened Lifecycle
  import opened Invariants
  import opened Runs
  import Supervision
  import Timing

  /** All that decides about supervision and replay. */
  ghost predicate SameClock(k: Conn, l: Conn) {
    && k.state == l.state && k.kind == l.kind && k.supervised == l.supervised && k.watchdog == l.watchdog
    && k.oToTInterval == l.oToTInterval && k.multiplier == l.multiplier
    && k.consumedSequence == l.consumedSequence && k.sequenceReceived == l.sequenceReceived
  }

  lemma ReactClock(k: Conn, l: Conn, e: Supervision.Event)
    requires SameClock(k, l)
    ensures SameClock(Supervision.React(k, e), Supervision.React(l, e))
  {
  }

  /** One reaction, now or later. */
  lemma ChainClock(k: Conn, l: Conn, m: Conn, e: Supervision.Event, now: bool, later: bool)
    requires !(now && later) && SameClock(if now then Supervision.React(k, e) else k, l)
    requires SameClock(if later then Supervision.React(l, e) else l, m)
    ensures SameClock(if now || later then Supervision.React(k, e) else k, m)
  {
    if later {
      ReactClock(k, l, e);
    }
  }

  // ---- Transitions that do not concern a connection leave its clock alone ----

  /** Some connections may go; those that stay keep their clocks. */
  ghost predicate Unwound(s: State, t: State)
    requires InRange(s) && InRange(t)
  {
    forall a :: a in t.active ==> a in s.active && SameClock(s.slots[a], t.slots[a])
  }

  lemma UnwoundTransitive(s: State, t: State, u: State)
    requires InRange(s) && InRange(t) && InRange(u) && Unwound(s, t) && Unwound(t, u)
    ensures Unwound(s, u)
  {
  }

  lemma DropAllUnwound(s: State, gone: set<nat>)
    requires InRange(s)
    ensures InRange(DropAll(s, gone)) && Unwound(s, DropAll(s, gone))
  {
  }

  lemma CloseUnwound(s: State, c: nat)
    requires InRange(s) && c < |s.slots|
    ensures InRange(Close(s, c)) && Unwound(s, Close(s, c))
  {
  }

  lemma {:induction false} CloseFromUnwound(s: State, c: nat, kind: Kind, input: nat)
    requires InRange(s) && Distinct(s.active) && c in s.active
    ensures Unwound(s, CloseFrom(s, c, kind, input).0)
    decreases |After(s.active, c)|
  {
    var t := CloseIfMate(s, c, kind, input);
    CloseUnwound(s, c);
    CloseIfMateShrinks(s, c, kind, input);
    ShrunkKeepsOrder(s, t);
    if After(s.active, c) != [] && After(s.active, c)[0] in t.active {
      AfterTail(s.active, c);
      CloseFromUnwound(t, After(s.active, c)[0], kind, input);
      UnwoundTransitive(s, t, CloseFrom(s, c, kind, input).0);
    }
  }

  lemma {:induction false} CloseSessionsUnwound(s: State, sessions: seq<nat>)
    requires InRange(s) && Distinct(s.active)
    ensures Unwound(s, CloseSessions(s, sessions))
    decreases sessions
  {
    if sessions != [] {
      var c, t := First(s.slots, s.active, Class3(sessions[0])), CloseSession(s, sessions[0]);
      if c.Some? {
        CloseUnwound(s, c.value);
      }
      CloseSessionShrinks(s, sessions[0]);
      ShrunkKeepsOrder(s, t);
      CloseSessionsUnwound(t, sessions[1..]);
      UnwoundTransitive(s, t, CloseSessions(s, sessions));
    }
  }

  lemma HalfUnwound(s: State, c: nat)
    requires InRange(s) && c < |s.slots|
    ensures InRange(Half(s, c)) && Unwound(s, Half(s, c))
  {
  }

  lemma FallUnwound(s: State, c: nat)
    requires InRange(s) && Distinct(s.active) && c < |s.slots|
    ensures InRange(Fall(s, c).0) && Unwound(s, Fall(s, c).0)
  {
    var u, p := Half(s, c), s.slots[c].input;
    HalfShrinks(s, c);
    ShrunkKeepsOrder(s, u);
    HalfUnwound(s, c);
    if s.slots[c].kind == ExclusiveOwner && !HandsOver(s, c) {
      var t := CloseMates(u, InputOnly, p).0;
      if u.active != [] {
        CloseFromUnwound(u, u.active[0], InputOnly, p);
      }
      UnwoundTransitive(s, u, t);
      DropAllUnwound(t, Mates(t, ListenOnly, p));
      UnwoundTransitive(s, t, DropAll(t, Mates(t, ListenOnly, p)));
    }
  }

  /** A timeout winds up no clock but the one that ran down. */
  lemma TimeOutUnwound(s: State, c: nat, sessions: seq<nat>)
    requires InRange(s) && Distinct(s.active) && c < |s.slots|
    ensures InRange(TimeOut(s, c, sessions).0)
    ensures s.slots[c].kind == Explicit ==> Unwound(s, TimeOut(s, c, sessions).0)
    ensures s.slots[c].kind != Explicit ==> Unwound(Expire(s, c), TimeOut(s, c, sessions).0)
  {
    if s.slots[c].kind == Explicit {
      DropAllUnwound(s, {c});
    } else {
      var s1 := CloseSessions(Expire(s, c), sessions);
      CloseSessionsUnwound(Expire(s, c), sessions);
      FallUnwound(s1, c);
      UnwoundTransitive(Expire(s, c), s1, Fall(s1, c).0);
    }
  }

  // ---- One visit ----

  /** A visit passes time for the connection visited, and for no other that stays listed. */
  lemma VisitClock(s: State, c: nat, elapsed: nat, env: Surroundings, a: nat)
    requires InRange(s) && Distinct(s.active) && c in s.active && a in s.active && s.slots[a].kind != Explicit
    requires InRange(Service(s, c, elapsed, env).state) && a in Service(s, c, elapsed, env).state.active
    ensures SameClock(if a == c then Supervision.React(s.slots[a], Supervision.Elapse(elapsed)) else s.slots[a],
                      Service(s, c, elapsed, env).state.slots[a])
  {
    if s.slots[c].state == Established {
      SuperviseClock(s, c, elapsed, env, a);
      var (t, fatal) := Supervise(s, c, elapsed, env);
      ProduceClock(t, c, elapsed, env, a);
    }
  }

  lemma ProduceClock(s: State, c: nat, elapsed: nat, env: Surroundings, a: nat)
    requires c < |s.slots| && a < |s.slots|
    ensures SameClock(s.slots[a], Produce(s, c, elapsed, env).0.slots[a])
  {
  }

  lemma SuperviseClock(s: State, c: nat, elapsed: nat, env: Surroundings, a: nat)
    requires InRange(s) && Distinct(s.active) && c in s.active && a in s.active && s.slots[a].kind != Explicit
    requires s.slots[c].state == Established && a in Supervise(s, c, elapsed, env).0.active
    ensures SameClock(if a == c then Supervision.React(s.slots[a], Supervision.Elapse(elapsed)) else s.slots[a],
                      Supervise(s, c, elapsed, env).0.slots[a])
  {
    if WatchdogFires(s.slots[c], elapsed) {
      TimeOutUnwound(s, c, ClosingWith(env, c));
    }
  }

  /** The visits of a tick: whether the walk from `at` on comes to `a`. */
  ghost predicate Visited(s: State, at: nat, elapsed: nat, env: Surroundings, a: nat)
    requires InRange(s) && Distinct(s.active) && at in s.active
    decreases |After(s.active, at)|
  {
    var visit := Service(s, at, elapsed, env);
    ServiceShrinks(s, at, elapsed, env);
    ShrunkKeepsOrder(s, visit.state);
    a == at ||
    (!visit.halted && at in visit.state.active && After(visit.state.active, at) != [] &&
     (AfterTail(visit.state.active, at);
      Visited(visit.state, After(visit.state.active, at)[0], elapsed, env, a)))
  }

  /** A walk only ever comes to what lies ahead of it. */
  lemma {:induction false} VisitedLiesAhead(s: State, at: nat, elapsed: nat, env: Surroundings, a: nat)
    requires InRange(s) && Distinct(s.active) && at in s.active && Visited(s, at, elapsed, env, a)
    ensures a == at || a in After(s.active, at)
    decreases |After(s.active, at)|
  {
    var t := Service(s, at, elapsed, env).state;
    ServiceShrinks(s, at, elapsed, env);
    ShrunkKeepsOrder(s, t);
    if a != at {
      AfterTail(t.active, at);
      var n := After(t.active, at)[0];
      VisitedLiesAhead(t, n, elapsed, env, a);
      assert After(t.active, at) == [n] + After(t.active, n);
      AfterWithout(s.active, Missing(s, t), at);
    }
  }

  lemma {:induction false} TickKeepsToList(s: State, at: nat, elapsed: nat, env: Surroundings)
    requires InRange(s) && Distinct(s.active) && at in s.active
    ensures InRange(TickFrom(s, at, elapsed, env).state)
    ensures forall a :: a in TickFrom(s, at, elapsed, env).state.active ==> a in s.active
    decreases |After(s.active, at)|
  {
    var visit := Service(s, at, elapsed, env);
    ServiceShrinks(s, at, elapsed, env);
    ShrunkKeepsOrder(s, visit.state);
    if !visit.halted && at in visit.state.active && After(visit.state.active, at) != [] {
      AfterTail(visit.state.active, at);
      TickKeepsToList(visit.state, After(visit.state.active, at)[0], elapsed, env);
    }
  }

  lemma NotVisitedAgain(t: State, at: nat, elapsed: nat, env: Surroundings)
    requires InRange(t) && Distinct(t.active) && at in t.active && After(t.active, at) != [] && After(t.active, at)[0] in t.active
    ensures !Visited(t, After(t.active, at)[0], elapsed, env, at)
  {
    var n := After(t.active, at)[0];
    if Visited(t, n, elapsed, env, at) {
      VisitedLiesAhead(t, n, elapsed, env, at);
      StepOn(t.active, at, {});
    }
  }

  /** Over a tick a connection that stays listed passes the time once if the walk comes to it, and not otherwise. */
  lemma {:induction false} TickClock(s: State, at: nat, elapsed: nat, env: Surroundings, a: nat)
    requires InRange(s) && Distinct(s.active) && at in s.active && a in s.active && s.slots[a].kind != Explicit
    requires InRange(TickFrom(s, at, elapsed, env).state) && a in TickFrom(s, at, elapsed, env).state.active
    ensures SameClock(
      if Visited(s, at, elapsed, env, a) then Supervision.React(s.slots[a], Supervision.Elapse(elapsed)) else s.slots[a],
      TickFrom(s, at, elapsed, env).state.slots[a])
    decreases |After(s.active, at)|
  {
    var visit := Service(s, at, elapsed, env);
    var t := visit.state;
    ServiceShrinks(s, at, elapsed, env);
    ShrunkKeepsOrder(s, t);
    if !visit.halted && at in t.active && After(t.active, at) != [] {
      AfterTail(t.active, at);
      var n := After(t.active, at)[0];
      TickKeepsToList(t, n, elapsed, env);
      VisitClock(s, at, elapsed, env, a);
      TickClock(t, n, elapsed, env, a);
      NotVisitedAgain(t, at, elapsed, env);
      ChainClock(s.slots[a], t.slots[a], TickFrom(t, n, elapsed, env).state.slots[a], Supervision.Elapse(elapsed),
                 a == at, Visited(t, n, elapsed, env, a));
    } else {
      VisitClock(s, at, elapsed, env, a);
    }
  }

  // ---- Whole runs ----

  /** What a step means to connection `a`. */
  ghost function Concerns(s: State, step: Step, a: nat): seq<Supervision.Event>
    requires InRange(s) && Distinct(s.active) && a < |s.slots|
  {
    match step
    case Elapse(elapsed, env) =>
      if s.active != [] && Visited(s, s.active[0], elapsed, env, a) then [Supervision.Elapse(elapsed)] else []
    case Arrive(connectionId, sequence, from) =>
      if First(s.slots, s.active, Consumer(connectionId)) == Some(a) && s.slots[a].address == from then [Supervision.Arrive(sequence)] else []
    case Message(connectionId) =>
      if First(s.slots, s.active, Consumer(connectionId)) == Some(a) then [Supervision.Rearm] else []
    case _ => []
  }

  /** The connection is not removed by this step, nor replaced by a new one in its slot. */
  ghost predicate Survives(cfg: Config, s: State, step: Step, a: nat)
    requires Fits(cfg, s) && Distinct(s.active)
  {
    a in Next(cfg, s, step).state.active && !(step.Open? && ForwardOpen(cfg, s, step.request).1 == Accepted(a))
  }

  function Reactions(k: Conn, events: seq<Supervision.Event>): Conn {
    Supervision.At(k, events, |events|)
  }

  lemma StepClock(cfg: Config, s: State, step: Step, a: nat)
    requires Inv(cfg, s) && Proper(step) && a in s.active && s.slots[a].kind != Explicit && Survives(cfg, s, step, a)
    ensures InRange(Next(cfg, s, step).state) && SameClock(Reactions(s.slots[a], Concerns(s, step, a)), Next(cfg, s, step).state.slots[a])
  {
    NextInv(cfg, s, step);
    match step {
      case Open(request) => OpenClock(cfg, s, request, a);
      case Shut(triad, from) =>
        var c := First(s.slots, s.active, AnyTriad(triad));
        if c.Some? {
          CloseUnwound(s, c.value);
        }
      case Elapse(elapsed, env) =>
        TickClock(s, s.active[0], elapsed, env, a);
        OneReaction(s.slots[a], Supervision.Elapse(elapsed));
      case Arrive(connectionId, sequence, from) => ArriveClock(s, connectionId, sequence, from, a);
      case Message(connectionId) => MessageClock(s, connectionId, a);
      case EndSession(session) =>
        var c := First(s.slots, s.active, Class3(session));
        if c.Some? {
          CloseUnwound(s, c.value);
        }
      case ShutDown =>
    }
  }

  lemma ArriveClock(s: State, connectionId: nat, sequence: nat, from: nat, a: nat)
    requires InRange(s) && Distinct(s.active) && a in s.active
    ensures SameClock(Reactions(s.slots[a], Concerns(s, Arrive(connectionId, sequence, from), a)),
                      Receive(s, connectionId, sequence, from).slots[a])
  {
    OneReaction(s.slots[a], Supervision.Arrive(sequence));
  }

  lemma MessageClock(s: State, connectionId: nat, a: nat)
    requires InRange(s) && Distinct(s.active) && a in s.active
    ensures SameClock(Reactions(s.slots[a], Concerns(s, Message(connectionId), a)), Lifecycle.Rearm(s, connectionId).slots[a])
  {
    OneReaction(s.slots[a], Supervision.Rearm);
  }

  lemma OneReaction(k: Conn, e: Supervision.Event)
    ensures Reactions(k, [e]) == Supervision.React(k, e)
  {
    assert Supervision.At(k, [e], 0) == k;
  }

  lemma OpenClock(cfg: Config, s: State, r: Request, a: nat)
    requires Inv(cfg, s) && Parsed(r) && a in s.active
    requires InRange(ForwardOpen(cfg, s, r).0) && a in ForwardOpen(cfg, s, r).0.active && ForwardOpen(cfg, s, r).1 != Accepted(a)
    ensures SameClock(s.slots[a], ForwardOpen(cfg, s, r).0.slots[a])
  {
    if r.path.Path? && r.path.target == Assembly {
      PickIoGood(cfg, s, r);
      var pick := PickIo(cfg, s, r);
      if pick.Slot? {
        CloseUnwound(s, pick.id);
        if ForwardOpen(cfg, s, r).1.Accepted? {
          var k := AcceptedAttaches(cfg, s, r);
          AcceptedSlot(cfg, s, r);
          AttachAttached(pick.state, pick.id, k, r.socket);
        } else {
          var k := RefusedWrites(cfg, s, r);
        }
      }
    }
  }

  /** The connection stays listed, and stays itself, throughout a run. */
  ghost predicate Stays(cfg: Config, s: State, steps: seq<Step>, a: nat)
    requires Inv(cfg, s) && ProperSteps(steps)
    decreases steps
  {
    && a in s.active && s.slots[a].kind != Explicit
    && (steps == [] ||
        (Survives(cfg, s, steps[0], a) &&
         (Next(cfg, s, steps[0]).halted ||
          (NextInv(cfg, s, steps[0]);
           Stays(cfg, Next(cfg, s, steps[0]).state, steps[1..], a)))))
  }

  /** All that concerns the connection in a run, in order. */
  ghost function History(cfg: Config, s: State, steps: seq<Step>, a: nat): seq<Supervision.Event>
    requires Inv(cfg, s) && ProperSteps(steps) && a < |s.slots|
    decreases steps
  {
    if steps == [] then [] else
      NextInv(cfg, s, steps[0]);
      var n := Next(cfg, s, steps[0]);
      Concerns(s, steps[0], a) + (if n.halted then [] else History(cfg, n.state, steps[1..], a))
  }

  lemma {:induction false} ReactionsConcat(k: Conn, x: seq<Supervision.Event>, y: seq<Supervision.Event>)
    ensures Reactions(k, x + y) == Reactions(Reactions(k, x), y)
  {
    AtConcat(k, x, y, |y|);
    assert (x + y)[..|x| + |y|] == x + y;
  }

  lemma {:induction false} AtConcat(k: Conn, x: seq<Supervision.Event>, y: seq<Supervision.Event>, n: nat)
    requires n <= |y|
    ensures Supervision.At(k, x + y, |x| + n) == Supervision.At(Reactions(k, x), y, n)
  {
    if n > 0 {
      AtConcat(k, x, y, n - 1);
    } else {
      AtPrefix(k, x, y, |x|);
    }
  }

  lemma {:induction false} AtPrefix(k: Conn, x: seq<Supervision.Event>, y: seq<Supervision.Event>, n: nat)
    requires n <= |x|
    ensures Supervision.At(k, x + y, n) == Supervision.At(k, x, n)
  {
    if n > 0 {
      AtPrefix(k, x, y, n - 1);
    }
  }

  lemma {:induction false} ReactionsClock(k: Conn, l: Conn, events: seq<Supervision.Event>, n: nat)
    requires SameClock(k, l) && n <= |events|
    ensures SameClock(Supervision.At(k, events, n), Supervision.At(l, events, n))
  {
    if n > 0 {
      ReactionsClock(k, l, events, n - 1);
      ReactClock(Supervision.At(k, events, n - 1), Supervision.At(l, events, n - 1), events[n - 1]);
    }
  }

  /** In any run through which it stays listed, a connection is where its own history alone takes it. */
  lemma {:induction false} RunFollowsHistory(cfg: Config, s: State, steps: seq<Step>, a: nat)
    requires Inv(cfg, s) && ProperSteps(steps) && Stays(cfg, s, steps, a)
    ensures a in Run(cfg, s, steps).state.active
    ensures SameClock(Reactions(s.slots[a], History(cfg, s, steps, a)), Run(cfg, s, steps).state.slots[a])
    decreases steps
  {
    if steps != [] {
      var n, now := Next(cfg, s, steps[0]), Concerns(s, steps[0], a);
      NextInv(cfg, s, steps[0]);
      StepClock(cfg, s, steps[0], a);
      if n.halted {
        assert now + [] == now;
      } else {
        var later := History(cfg, n.state, steps[1..], a);
        RunFollowsHistory(cfg, n.state, steps[1..], a);
        ReactionsConcat(s.slots[a], now, later);
        ReactionsClock(Reactions(s.slots[a], now), n.state.slots[a], later, |later|);
      }
    }
  }

  /** At some visit the time since the last re-arming had reached the time allowed. */
  ghost predicate RunsOut(k: Conn, events: seq<Supervision.Event>) {
    exists n :: 0 <= n < |events| && Supervision.Overdue(k, events, n)
  }

  /** Watchdog exactness for the whole stack: a supervised connection that stays listed through a run has timed out at
      its end if and only if, at some visit on the way, the time since its last re-arming had reached the time allowed. */
  lemma RunTimesOutExactly(cfg: Config, s: State, steps: seq<Step>, a: nat)
    requires Inv(cfg, s) && ProperSteps(steps) && Stays(cfg, s, steps, a) && s.slots[a].state == Established && s.slots[a].supervised
    ensures a in Run(cfg, s, steps).state.active
    ensures var events := History(cfg, s, steps, a);
      Run(cfg, s, steps).state.slots[a].state == TimedOut <==> RunsOut(s.slots[a], events)
  {
    var events := History(cfg, s, steps, a);
    RunFollowsHistory(cfg, s, steps, a);
    TimedOutExactly(s.slots[a], events);
    assert Reactions(s.slots[a], events).state == Run(cfg, s, steps).state.slots[a].state;
  }

  lemma TimedOutExactly(k: Conn, events: seq<Supervision.Event>)
    requires k.state == Established && k.supervised
    ensures Reactions(k, events).state == TimedOut <==> RunsOut(k, events)
  {
    if RunsOut(k, events) {
      var j := Supervision.FirstDeadline(k, events, |events|);
      Supervision.WatchdogExact(k, events, j);
      Supervision.OnceTimedOut(k, events, j + 1, |events|);
    } else {
      Supervision.WatchdogCountsDown(k, events, |events|);
    }
  }

  /** From an accepted open on: the connection times out when its regular value has passed since the last re-arming, or,
      before the first, the larger of that and 10 s. */
  lemma NewConnectionTimesOut(cfg: Config, s: State, r: Request, steps: seq<Step>)
    requires Inv(cfg, s) && r.path.Path? && r.path.target == Assembly && Parsed(r) && r.oToT != NullType && ForwardOpen(cfg, s, r).1.Accepted?
    requires ProperSteps(steps) && Inv(cfg, ForwardOpen(cfg, s, r).0)
    requires Stays(cfg, ForwardOpen(cfg, s, r).0, steps, ForwardOpen(cfg, s, r).1.slot)
    ensures var (t, reply) := ForwardOpen(cfg, s, r);
      && reply.slot in Run(cfg, t, steps).state.active
      && var k, events := t.slots[reply.slot], History(cfg, t, steps, reply.slot);
      && (Run(cfg, t, steps).state.slots[reply.slot].state == TimedOut <==> RunsOut(k, events))
      && forall n :: 0 <= n <= |events| ==> Supervision.Allowed(k, events, n) == Deadline(k, events, n, r)
  {
    var (t, reply) := ForwardOpen(cfg, s, r);
    AcceptedOpenIsFirst(cfg, s, r);
    AcceptedOpenIsRested(cfg, s, r);
    RunTimesOutExactly(cfg, t, steps, reply.slot);
    var k, events := t.slots[reply.slot], History(cfg, t, steps, reply.slot);
    forall n | 0 <= n <= |events|
      ensures Supervision.Allowed(k, events, n) == Deadline(k, events, n, r)
    {
      Supervision.AllowedIs(k, events, n);
    }
  }

  /** The time allowed at event `n`, as the request determines it. */
  ghost function Deadline(k: Conn, events: seq<Supervision.Event>, n: nat, r: Request): nat
    requires n <= |events|
  {
    if exists j :: 0 <= j < n && Supervision.Rearms(Supervision.At(k, events, j), events[j]) then
      Timing.WatchdogValue(r.oToTInterval, r.multiplier)
    else Timing.InitialWatchdog(r.oToTInterval, r.multiplier)
  }
}
