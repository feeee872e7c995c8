/** A tick connection by connection: what one visit does, and that every listed connection is visited once. */
module Visits {
  import opened Wrappers
  import opened Sequences
  import opened Connections
  import opened Lifecycle
  import opened Invariants
  import opened Departures
  import Supervision
  import Timing
  import Words

  /** The packet rate asked for, in milliseconds and 16 bits, rounded up to the tick. */
  function Rate(k: Conn): nat {
    10 * ((k.production.interval + 9999) / 10000) % Words.WORD16
  }

  /** Established, with a socket and a packet rate. */
  predicate Transmits(k: Conn) {
    k.state == Established && k.producing != INVALID_SOCKET && Rate(k) != 0
  }

  /** A connection whose watchdog does not fire, after a visit: less time on its watchdog, and if it sends, the timer moved
      on, reloaded with the interval rounded down when due, and the numbers of the frame sent. */
  function MovedOn(k: Conn, elapsed: nat, renewed: bool): Conn {
    var watched := if k.state == Established && k.supervised && elapsed <= k.watchdog then k.(watchdog := k.watchdog - elapsed) else k;
    if !Transmits(k) then watched
    else if elapsed < k.trigger then watched.(trigger := k.trigger - elapsed)
    else
      var reload := k.trigger + 10 * (k.production.interval / 10000) % Words.WORD16;
      watched.(trigger := if reload > elapsed then reload - elapsed else 0,
               eipSequence := (k.eipSequence + 1) % Words.WORD32,
               sequenceCount := Supervision.CountWith(k.sequenceCount, renewed))
  }

  function Frames(k: Conn, elapsed: nat, renewed: bool): seq<Packet> {
    if Transmits(k) && k.trigger <= elapsed then
      [Packet(k.input, k.producedId, (k.eipSequence + 1) % Words.WORD32, Supervision.CountWith(k.sequenceCount, renewed))]
    else []
  }

  /** Its time is up: established, supervised, and no more time left than passes. */
  predicate Expires(k: Conn, elapsed: nat) {
    k.state == Established && k.supervised && k.watchdog <= elapsed
  }

  /** A visit in full: unless its time is up it changes the connection visited, as it calls for by itself, and nothing else;
      if its time is up, the visit is the timeout, and sends nothing. */
  lemma VisitExactly(cfg: Config, s: State, c: nat, elapsed: nat, env: Surroundings)
    requires Inv(cfg, s) && c in s.active
    ensures !Expires(s.slots[c], elapsed) ==>
      Service(s, c, elapsed, env) ==
      Progress(s.(slots := s.slots[c := MovedOn(s.slots[c], elapsed, c in env.changed)]), Frames(s.slots[c], elapsed, c in env.changed), false)
    ensures Expires(s.slots[c], elapsed) ==>
      var (t, fatal) := TimeOut(s, c, ClosingWith(env, c)); Service(s, c, elapsed, env) == Progress(t, [], fatal)
  {
    Supervision.RateIs(s.slots[c].production.interval);
    Supervision.IntervalIs(s.slots[c].production.interval);
    if Expires(s.slots[c], elapsed) {
      TimedOutIsStill(cfg, s, c, ClosingWith(env, c), elapsed, env);
    } else {
      QuietVisit(s, c, elapsed, env);
    }
  }

  lemma TimedOutIsStill(cfg: Config, s: State, c: nat, sessions: seq<nat>, elapsed: nat, env: Surroundings)
    requires Inv(cfg, s) && c in s.active && s.slots[c].state == Established
    ensures var (t, fatal) := TimeOut(s, c, sessions); !fatal ==> Produce(t, c, elapsed, env) == (t, [])
  {
    if s.slots[c].kind != Explicit && !TimeOut(s, c, sessions).1 {
      TimeOutExactly(cfg, s, c, sessions);
    }
  }

  lemma QuietVisit(s: State, c: nat, elapsed: nat, env: Surroundings)
    requires InRange(s) && Distinct(s.active) && c < |s.slots| && !Expires(s.slots[c], elapsed)
    requires Timing.ExpectedPacketRate(s.slots[c].production.interval) == Rate(s.slots[c])
    requires Timing.RequestedInterval(s.slots[c].production.interval) == 10 * (s.slots[c].production.interval / 10000) % Words.WORD16
    ensures Service(s, c, elapsed, env) ==
      Progress(s.(slots := s.slots[c := MovedOn(s.slots[c], elapsed, c in env.changed)]), Frames(s.slots[c], elapsed, c in env.changed), false)
  {
    assert s.slots[c := s.slots[c]] == s.slots;
  }

  // ---- A tick in which nobody's time is up ----

  /** The frames of the connections `xs`, in this order. */
  function AllFrames(slots: seq<Conn>, xs: seq<nat>, elapsed: nat, env: Surroundings): seq<Packet>
    requires forall x :: x in xs ==> x < |slots|
  {
    if xs == [] then [] else
      assert xs[0] in xs && forall x :: x in xs[1..] ==> x in xs;
      Frames(slots[xs[0]], elapsed, xs[0] in env.changed) + AllFrames(slots, xs[1..], elapsed, env)
  }

  lemma {:induction false} SameFrames(slots: seq<Conn>, now: seq<Conn>, xs: seq<nat>, elapsed: nat, env: Surroundings)
    requires |now| == |slots| && forall x :: x in xs ==> x < |slots| && now[x] == slots[x]
    ensures AllFrames(now, xs, elapsed, env) == AllFrames(slots, xs, elapsed, env)
  {
    if xs != [] {
      assert xs[0] in xs && forall x :: x in xs[1..] ==> x in xs;
      SameFrames(slots, now, xs[1..], elapsed, env);
    }
  }

  /** The connections `xs` have moved on, each by itself, and nothing else has changed. */
  ghost predicate MovesOn(s: State, t: State, xs: seq<nat>, elapsed: nat, env: Surroundings) {
    && |t.slots| == |s.slots| && t.active == s.active
    && forall a :: 0 <= a < |s.slots| ==> t.slots[a] == if a in xs then MovedOn(s.slots[a], elapsed, a in env.changed) else s.slots[a]
  }

  lemma MovesOnTwice(s: State, t: State, u: State, c: nat, later: seq<nat>, elapsed: nat, env: Surroundings)
    requires c < |s.slots| && c !in later && t == s.(slots := s.slots[c := MovedOn(s.slots[c], elapsed, c in env.changed)])
    requires MovesOn(t, u, later, elapsed, env)
    ensures MovesOn(s, u, [c] + later, elapsed, env)
  {
  }

  lemma {:induction false} QuietWalk(cfg: Config, s: State, c: nat, elapsed: nat, env: Surroundings)
    requires Inv(cfg, s) && c in s.active && forall a :: a in s.active ==> a == c || a in After(s.active, c) ==> !Expires(s.slots[a], elapsed)
    ensures forall a :: a in [c] + After(s.active, c) ==> a in s.active
    ensures var end := TickFrom(s, c, elapsed, env);
      && !end.halted && end.sent == AllFrames(s.slots, [c] + After(s.active, c), elapsed, env)
      && MovesOn(s, end.state, [c] + After(s.active, c), elapsed, env)
    decreases |After(s.active, c)|
  {
    var visit, later := Service(s, c, elapsed, env), After(s.active, c);
    var t := visit.state;
    AfterIn(s.active, c);
    VisitExactly(cfg, s, c, elapsed, env);
    ServiceInv(cfg, s, c, elapsed, env);
    assert ([c] + later)[1..] == later;
    if later == [] {
      assert MovesOn(s, t, [c] + later, elapsed, env);
    } else {
      StepOn(s.active, c, {});
      QuietWalk(cfg, t, later[0], elapsed, env);
      MovesOnTwice(s, t, TickFrom(t, later[0], elapsed, env).state, c, later, elapsed, env);
      SameFrames(s.slots, t.slots, later, elapsed, env);
    }
  }

  /** If nobody's time is up, a tick visits every listed connection, in order: each moves on by itself, and sends its own
      frames. */
  lemma QuietTickExactly(cfg: Config, s: State, elapsed: nat, env: Surroundings)
    requires Inv(cfg, s) && forall a :: a in s.active ==> !Expires(s.slots[a], elapsed)
    ensures var end := Tick(s, elapsed, env);
      !end.halted && end.sent == AllFrames(s.slots, s.active, elapsed, env) && MovesOn(s, end.state, s.active, elapsed, env)
  {
    if s.active != [] {
      var c := s.active[0];
      assert s.active == [c] + After(s.active, c);
      QuietWalk(cfg, s, c, elapsed, env);
    }
  }
}
