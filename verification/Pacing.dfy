/** Production on a multicast input over whole runs: whoever is its master, the frames sent and the timer that is
    handed on account for the time of the visits that passed it, and a tick passes it at most once. */
module Pacing {
  import opened Wrappers
  import opened Sequences
  import opened Connections
  import opened Lifecycle
  import opened Invariants
  import opened Runs
  import opened Streams
  import Supervision
  import Clocks
  import Timing

  // ---- Which visits pass time for the input ----

  /** A visit passes its time for input `p` when the connection visited, still established, produces on `p`. */
  predicate Passes(s: State, c: nat, elapsed: nat, env: Surroundings, p: nat)
    requires InRange(s) && Distinct(s.active) && c < |s.slots|
  {
    s.slots[c].state == Established &&
    var (t, fatal) := Supervise(s, c, elapsed, env);
    !fatal && Produces(t.slots[c]) && t.slots[c].input == p
  }

  function Now(s: State, c: nat, elapsed: nat, env: Surroundings, p: nat): seq<nat>
    requires InRange(s) && Distinct(s.active) && c < |s.slots|
  {
    if Passes(s, c, elapsed, env, p) then [elapsed] else []
  }

  /** The time passed for the input in the walk of a tick from `at` on. */
  function TickPasses(s: State, at: nat, elapsed: nat, env: Surroundings, p: nat): seq<nat>
    requires InRange(s) && Distinct(s.active) && at in s.active
    decreases |After(s.active, at)|
  {
    var visit := Service(s, at, elapsed, env);
    ServiceShrinks(s, at, elapsed, env);
    ShrunkKeepsOrder(s, visit.state);
    if visit.halted || at !in visit.state.active || After(visit.state.active, at) == [] then Now(s, at, elapsed, env, p)
    else
      AfterTail(visit.state.active, at);
      Now(s, at, elapsed, env, p) + TickPasses(visit.state, After(visit.state.active, at)[0], elapsed, env, p)
  }

  function StepPasses(s: State, step: Step, p: nat): seq<nat>
    requires InRange(s) && Distinct(s.active)
  {
    if step.Elapse? && s.active != [] then TickPasses(s, s.active[0], step.elapsed, step.env, p) else []
  }

  /** The time passed for the input over a run, visit by visit. */
  ghost function RunPasses(cfg: Config, s: State, steps: seq<Step>, p: nat): seq<nat>
    requires Inv(cfg, s) && ProperSteps(steps)
    decreases steps
  {
    if steps == [] then [] else
      var n := Next(cfg, s, steps[0]);
      NextInv(cfg, s, steps[0]);
      StepPasses(s, steps[0], p) + (if n.halted then [] else RunPasses(cfg, n.state, steps[1..], p))
  }

  // ---- The law ----

  /** From `s` to `t` the trigger timer of `p` went through the ticks given, and the frames are those that fell due. */
  ghost predicate Paced(s: State, t: State, ticks: seq<nat>, packets: seq<Packet>, p: nat)
    requires InRange(s) && Master(s, p).Some?
  {
    var interval := Timing.RequestedInterval(Interval(s, p));
    && InRange(t) && Master(t, p).Some? && Interval(t, p) == Interval(s, p)
    && Trigger(t, p) == Supervision.TimerAfter(Trigger(s, p), ticks, interval)
    && |OnInput(packets, p)| == Supervision.Sends(Trigger(s, p), ticks, interval)
  }

  lemma {:induction false} TimerConcat(timer: nat, x: seq<nat>, y: seq<nat>, interval: nat)
    ensures Supervision.TimerAfter(timer, x + y, interval) == Supervision.TimerAfter(Supervision.TimerAfter(timer, x, interval), y, interval)
    ensures Supervision.Sends(timer, x + y, interval) ==
      Supervision.Sends(timer, x, interval) + Supervision.Sends(Supervision.TimerAfter(timer, x, interval), y, interval)
    decreases x
  {
    if x == [] {
      assert x + y == y;
    } else {
      assert (x + y)[1..] == x[1..] + y;
      TimerConcat(Timing.NextTrigger(timer, x[0], interval), x[1..], y, interval);
    }
  }

  lemma PacedTransitive(s: State, t: State, u: State, x: seq<nat>, y: seq<nat>, a: seq<Packet>, b: seq<Packet>, p: nat)
    requires InRange(s) && Master(s, p).Some? && Paced(s, t, x, a, p) && Paced(t, u, y, b, p)
    ensures Paced(s, u, x + y, a + b, p)
  {
    TimerConcat(Trigger(s, p), x, y, Timing.RequestedInterval(Interval(s, p)));
    OnInputConcat(a, b, p);
  }

  lemma SameStreamPaced(s: State, t: State, p: nat)
    requires InRange(s) && Master(s, p).Some? && SameStream(s, t, p)
    ensures Paced(s, t, [], [], p)
  {
  }

  lemma PacedAfter(s: State, t: State, u: State, ticks: seq<nat>, packets: seq<Packet>, p: nat)
    requires InRange(s) && Master(s, p).Some? && SameStream(s, t, p) && Paced(t, u, ticks, packets, p)
    ensures Paced(s, u, ticks, packets, p)
  {
  }

  /** The production half of a visit. */
  lemma ProducePace(cfg: Config, s: State, c: nat, elapsed: nat, env: Surroundings, p: nat)
    requires Inv(cfg, s) && Uniform(s, p) && c < |s.slots| && Master(s, p).Some?
    ensures var (t, packets) := Produce(s, c, elapsed, env);
      Paced(s, t, if Produces(s.slots[c]) && s.slots[c].input == p then [elapsed] else [], packets, p)
  {
    var (t, packets) := Produce(s, c, elapsed, env);
    var k := s.slots[c];
    if Produces(k) {
      assert c in s.active && AtHome(cfg.homes[c], k);
      TouchedInv(cfg, s, t, c);
      if k.input == p {
        MasterUnique(s, p, c);
        MasterUnique(t, p, c);
        OneTick(k.trigger, elapsed, Timing.RequestedInterval(k.production.interval));
        assert OnInput(packets, p) == packets;
      } else {
        MasterUnique(t, p, Master(s, p).value);
        assert OnInput(packets, p) == [];
      }
    }
  }

  lemma OneTick(timer: nat, elapsed: nat, interval: nat)
    ensures Supervision.TimerAfter(timer, [elapsed], interval) == Timing.NextTrigger(timer, elapsed, interval)
    ensures Supervision.Sends(timer, [elapsed], interval) == if Timing.Due(timer, elapsed) then 1 else 0
  {
    assert [elapsed][1..] == [];
  }

  lemma ServicePace(cfg: Config, s: State, c: nat, elapsed: nat, env: Surroundings, p: nat)
    requires Inv(cfg, s) && Mastered(s, p) && c in s.active && Master(s, p).Some?
    ensures var visit := Service(s, c, elapsed, env); Paced(s, visit.state, Now(s, c, elapsed, env, p), visit.sent, p)
  {
    if s.slots[c].state == Established {
      var (t, fatal) := Supervise(s, c, elapsed, env);
      SuperviseStream(cfg, s, c, elapsed, env, p);
      if fatal {
        SameStreamPaced(s, t, p);
      } else {
        ProducePace(cfg, t, c, elapsed, env, p);
        var (u, packets) := Produce(t, c, elapsed, env);
        PacedAfter(s, t, u, Now(s, c, elapsed, env, p), packets, p);
      }
    } else {
      SameStreamPaced(s, s, p);
    }
  }

  lemma {:induction false} TickPace(cfg: Config, s: State, at: nat, elapsed: nat, env: Surroundings, p: nat)
    requires Inv(cfg, s) && Mastered(s, p) && at in s.active && Master(s, p).Some?
    ensures var end := TickFrom(s, at, elapsed, env); Paced(s, end.state, TickPasses(s, at, elapsed, env, p), end.sent, p)
    decreases |After(s.active, at)|
  {
    var visit := Service(s, at, elapsed, env);
    var t := visit.state;
    ServiceInv(cfg, s, at, elapsed, env);
    ServiceMastered(cfg, s, at, elapsed, env, p);
    ServicePace(cfg, s, at, elapsed, env, p);
    ServiceShrinks(s, at, elapsed, env);
    ShrunkKeepsOrder(s, t);
    if !visit.halted && at in t.active && After(t.active, at) != [] {
      AfterTail(t.active, at);
      var n := After(t.active, at)[0];
      TickPace(cfg, t, n, elapsed, env, p);
      var rest := TickFrom(t, n, elapsed, env);
      PacedTransitive(s, t, rest.state, Now(s, at, elapsed, env, p), TickPasses(t, n, elapsed, env, p), visit.sent, rest.sent, p);
    }
  }

  lemma StepPace(cfg: Config, s: State, step: Step, p: nat)
    requires Inv(cfg, s) && Mastered(s, p) && Proper(step)
    requires (step.Open? ==> AsksMulticast(step.request, p)) && Continues(cfg, s, step, p)
    requires Master(s, p).Some? && InRange(Next(cfg, s, step).state) && Master(Next(cfg, s, step).state, p).Some?
    ensures var n := Next(cfg, s, step); Paced(s, n.state, StepPasses(s, step, p), n.sent, p)
  {
    if step.Elapse? {
      assert s.active != [];
      TickPace(cfg, s, s.active[0], step.elapsed, step.env, p);
    } else {
      QuietStream(cfg, s, step, p);
      SameStreamPaced(s, Next(cfg, s, step).state, p);
    }
  }

  /** Across handovers by close and timeout, and opens that join, the frames sent on the input and its timer are those
      of one timer that went through the passes of the run. */
  lemma {:induction false} RunPace(cfg: Config, s: State, steps: seq<Step>, p: nat)
    requires Inv(cfg, s) && ProperSteps(steps) && MulticastOnly(steps, p) && Mastered(s, p) && Unbroken(cfg, s, steps, p)
    ensures var end := Run(cfg, s, steps); Paced(s, end.state, RunPasses(cfg, s, steps, p), end.sent, p)
    decreases steps
  {
    if steps == [] {
      SameStreamPaced(s, s, p);
    } else {
      var n, now := Next(cfg, s, steps[0]), StepPasses(s, steps[0], p);
      NextInv(cfg, s, steps[0]);
      NextMastered(cfg, s, steps[0], p);
      StepPace(cfg, s, steps[0], p);
      if n.halted {
        assert now + [] == now;
      } else {
        RunPace(cfg, n.state, steps[1..], p);
        var rest := Run(cfg, n.state, steps[1..]);
        PacedTransitive(s, n.state, rest.state, now, RunPasses(cfg, n.state, steps[1..], p), n.sent, rest.sent, p);
      }
    }
  }

  /** No drift on the input: the time passed, less what late visits throw away, is in the frames sent and in the timer;
      with visits no longer than the interval nothing is thrown away. */
  lemma InputKeepsPace(cfg: Config, s: State, steps: seq<Step>, p: nat)
    requires Inv(cfg, s) && ProperSteps(steps) && MulticastOnly(steps, p) && Mastered(s, p) && Unbroken(cfg, s, steps, p)
    ensures var end, passes, interval := Run(cfg, s, steps), RunPasses(cfg, s, steps, p), Timing.RequestedInterval(Interval(s, p));
      && Master(end.state, p).Some?
      && Supervision.Sum(passes) + Trigger(end.state, p) ==
         Trigger(s, p) + interval * |OnInput(end.sent, p)| + Supervision.Lost(Trigger(s, p), passes, interval)
      && ((forall e :: e in passes ==> e <= interval) ==> Supervision.Lost(Trigger(s, p), passes, interval) == 0)
      && (Trigger(s, p) <= interval ==> Trigger(end.state, p) <= interval)
  {
    var passes, interval := RunPasses(cfg, s, steps, p), Timing.RequestedInterval(Interval(s, p));
    RunPace(cfg, s, steps, p);
    Supervision.TimeIsConserved(Trigger(s, p), passes, interval);
    if forall e :: e in passes ==> e <= interval {
      Supervision.PunctualTicksLoseNothing(Trigger(s, p), passes, interval);
    }
    if Trigger(s, p) <= interval {
      Supervision.TimerStaysBounded(Trigger(s, p), passes, interval);
    }
  }

  // ---- At most one pass per tick, and which ticks pass the input by ----

  /** A walk over the input-only connections of another input leaves a connection alone. */
  lemma {:induction false} CloseFromSpares(s: State, at: nat, input: nat, h: nat)
    requires InRange(s) && Distinct(s.active) && at in s.active && h in s.active && s.slots[h].input != input
    ensures var t := CloseFrom(s, at, InputOnly, input).0; h in t.active && t.slots[h] == s.slots[h]
    decreases |After(s.active, at)|
  {
    var t := CloseIfMate(s, at, InputOnly, input);
    CloseSpares(s, at, input, h);
    CloseIfMateShrinks(s, at, InputOnly, input);
    ShrunkKeepsOrder(s, t);
    if After(s.active, at) != [] && After(s.active, at)[0] in t.active {
      AfterTail(s.active, at);
      CloseFromSpares(t, After(s.active, at)[0], input, h);
    }
  }

  lemma CloseSpares(s: State, c: nat, input: nat, h: nat)
    requires InRange(s) && c in s.active && h in s.active && s.slots[h].input != input
    ensures var t := CloseIfMate(s, c, InputOnly, input); InRange(t) && h in t.active && t.slots[h] == s.slots[h]
  {
  }

  lemma FallSpares(s: State, d: nat, h: nat)
    requires InRange(s) && Distinct(s.active) && d in s.active && h in s.active && s.slots[h].input != s.slots[d].input
    ensures var t := Fall(s, d).0; h in t.active && t.slots[h] == s.slots[h]
  {
    var u, q := Half(s, d), s.slots[d].input;
    HalfShrinks(s, d);
    ShrunkKeepsOrder(s, u);
    assert h in u.active && u.slots[h] == s.slots[h];
    if s.slots[d].kind == ExclusiveOwner && !HandsOver(s, d) {
      CloseFromSpares(u, u.active[0], q, h);
    }
  }

  /** The timeout of another connection leaves an established master alone. */
  lemma TimeOutSpares(cfg: Config, s: State, d: nat, sessions: seq<nat>, p: nat, h: nat)
    requires Inv(cfg, s) && Mastered(s, p) && Master(s, p) == Some(h)
    requires d in s.active && d != h && s.slots[d].state == Established
    ensures var t := TimeOut(s, d, sessions).0; h in t.active && t.slots[h] == s.slots[h]
  {
    if s.slots[d].kind != Explicit {
      var s0 := Expire(s, d);
      ExpireInv(cfg, s, d);
      CloseSessionsInv(cfg, s0, sessions);
      var s1 := CloseSessions(s0, sessions);
      assert s1.slots[h] == s.slots[h] && h in s1.active && s1.slots[d] == s0.slots[d] && d in s1.active;
      if s.slots[d].input == p {
        NotTheMaster(cfg, s, d, p, h);
        assert Fall(s1, d) == (s1, false);
      } else {
        FallSpares(s1, d, h);
      }
    }
  }

  /** Who is not the master of a multicast input neither holds its socket nor is its established owner. */
  lemma NotTheMaster(cfg: Config, s: State, d: nat, p: nat, h: nat)
    requires Inv(cfg, s) && Mastered(s, p) && Master(s, p) == Some(h)
    requires d in s.active && d != h && s.slots[d].state == Established && s.slots[d].input == p && s.slots[d].kind != Explicit
    ensures !Holds(s.slots[d]) && s.slots[d].kind != ExclusiveOwner
  {
    assert Matches(s.slots[h], Producer(true, p));
    if Holds(s.slots[d]) || s.slots[d].kind == ExclusiveOwner {
      assert Holds(s.slots[d]);
      MasterUnique(s, p, d);
    }
  }

  /** So a visit to somebody else neither passes time for the input nor changes its master. */
  lemma VisitElsewhere(cfg: Config, s: State, d: nat, elapsed: nat, env: Surroundings, p: nat, h: nat)
    requires Inv(cfg, s) && Mastered(s, p) && Master(s, p) == Some(h) && s.slots[h].state == Established && d in s.active && d != h
    ensures var t := Service(s, d, elapsed, env).state;
      Inv(cfg, t) && Mastered(t, p) && Master(t, p) == Some(h) && t.slots[h].state == Established
    ensures !Passes(s, d, elapsed, env, p)
  {
    ServiceInv(cfg, s, d, elapsed, env);
    ServiceMastered(cfg, s, d, elapsed, env, p);
    if s.slots[d].state == Established {
      SuperviseElsewhere(cfg, s, d, elapsed, env, p, h);
      var (t, fatal) := Supervise(s, d, elapsed, env);
      if !fatal && Produces(t.slots[d]) && t.slots[d].input == p {
        assert d in t.active && AtHome(cfg.homes[d], t.slots[d]);
        MasterUnique(t, p, d);
      }
      MasterUnique(Service(s, d, elapsed, env).state, p, h);
    }
  }

  lemma SuperviseElsewhere(cfg: Config, s: State, d: nat, elapsed: nat, env: Surroundings, p: nat, h: nat)
    requires Inv(cfg, s) && Mastered(s, p) && Master(s, p) == Some(h) && d in s.active && d != h && s.slots[d].state == Established
    ensures var t := Supervise(s, d, elapsed, env).0;
      Inv(cfg, t) && Mastered(t, p) && Master(t, p) == Some(h) && h in t.active && t.slots[h] == s.slots[h]
  {
    var t := Supervise(s, d, elapsed, env).0;
    SuperviseStream(cfg, s, d, elapsed, env, p);
    if WatchdogFires(s.slots[d], elapsed) {
      TimeOutSpares(cfg, s, d, ClosingWith(env, d), p, h);
    }
    assert Matches(s.slots[h], Producer(true, p));
    MasterUnique(t, p, h);
  }

  /** Once an established master is behind the walk, the rest of the tick passes the input by. */
  lemma {:induction false} NoPassBehind(cfg: Config, s: State, at: nat, elapsed: nat, env: Surroundings, p: nat, h: nat)
    requires Inv(cfg, s) && Mastered(s, p) && Master(s, p) == Some(h) && s.slots[h].state == Established
    requires at in s.active && at != h && h !in After(s.active, at)
    ensures TickPasses(s, at, elapsed, env, p) == []
    decreases |After(s.active, at)|
  {
    var visit := Service(s, at, elapsed, env);
    var t := visit.state;
    VisitElsewhere(cfg, s, at, elapsed, env, p, h);
    ServiceShrinks(s, at, elapsed, env);
    ShrunkKeepsOrder(s, t);
    if !visit.halted && at in t.active && After(t.active, at) != [] {
      StillBehind(s, t, at, h);
      NoPassBehind(cfg, t, After(t.active, at)[0], elapsed, env, p, h);
    }
  }

  lemma StillBehind(s: State, t: State, at: nat, h: nat)
    requires InRange(s) && Distinct(s.active) && Shrunk(s, t) && at in s.active && at in t.active && After(t.active, at) != []
    requires Distinct(t.active) && h !in After(s.active, at)
    ensures var n := After(t.active, at)[0];
      n in t.active && n != h && h !in After(t.active, n) && |After(t.active, n)| < |After(s.active, at)|
  {
    AfterWithout(s.active, Missing(s, t), at);
    StepOn(t.active, at, {});
  }

  /** A tick passes time for an input at most once. */
  lemma {:induction false} AtMostOnePass(cfg: Config, s: State, at: nat, elapsed: nat, env: Surroundings, p: nat)
    requires Inv(cfg, s) && Mastered(s, p) && Master(s, p).Some? && at in s.active
    ensures |TickPasses(s, at, elapsed, env, p)| <= 1
    decreases |After(s.active, at)|
  {
    var visit := Service(s, at, elapsed, env);
    var t := visit.state;
    ServiceInv(cfg, s, at, elapsed, env);
    ServiceMastered(cfg, s, at, elapsed, env, p);
    ServicePace(cfg, s, at, elapsed, env, p);
    ServiceShrinks(s, at, elapsed, env);
    ShrunkKeepsOrder(s, t);
    if !visit.halted && at in t.active && After(t.active, at) != [] {
      var n := After(t.active, at)[0];
      AfterTail(t.active, at);
      if Passes(s, at, elapsed, env, p) {
        PassedBy(cfg, s, at, elapsed, env, p);
        StepOn(t.active, at, {});
        NoPassBehind(cfg, t, n, elapsed, env, p, at);
      } else {
        AtMostOnePass(cfg, t, n, elapsed, env, p);
      }
    }
  }

  /** Only the established master passes time, and it stays that. */
  lemma PassedBy(cfg: Config, s: State, c: nat, elapsed: nat, env: Surroundings, p: nat)
    requires Inv(cfg, s) && Mastered(s, p) && Master(s, p).Some? && c in s.active && Passes(s, c, elapsed, env, p)
    requires Inv(cfg, Service(s, c, elapsed, env).state)
    ensures var t := Service(s, c, elapsed, env).state; Master(t, p) == Some(c) && t.slots[c].state == Established
  {
    var u, t := Supervise(s, c, elapsed, env).0, Service(s, c, elapsed, env).state;
    SuperviseStream(cfg, s, c, elapsed, env, p);
    assert c in u.active && AtHome(cfg.homes[c], u.slots[c]);
    MasterUnique(t, p, c);
  }

  /** Exactly the visits to the established master pass time, unless its watchdog fires or its interval switches production off. */
  lemma PassesExactly(cfg: Config, s: State, c: nat, elapsed: nat, env: Surroundings, p: nat)
    requires Inv(cfg, s) && Mastered(s, p) && c in s.active
    ensures Passes(s, c, elapsed, env, p) <==>
      && Master(s, p) == Some(c) && s.slots[c].state == Established && !WatchdogFires(s.slots[c], elapsed)
      && Timing.ExpectedPacketRate(s.slots[c].production.interval) != 0
  {
    if WatchdogFires(s.slots[c], elapsed) {
      TimeOutInv(cfg, s, c, ClosingWith(env, c));
      TimedOutStays(cfg, s, c, ClosingWith(env, c));
    } else if Passes(s, c, elapsed, env, p) {
      assert AtHome(cfg.homes[c], s.slots[c]);
      MasterUnique(s, p, c);
    }
  }

  /** A master that times out at its visit hands its timer on as it stands: if the heir is listed before it, the walk is
      past the heir, and this tick passes the input by. */
  lemma EarlierHeirLosesTick(cfg: Config, s: State, h: nat, elapsed: nat, env: Surroundings, p: nat, m: nat)
    requires Inv(cfg, s) && Mastered(s, p) && Master(s, p) == Some(h) && s.slots[h].state == Established && WatchdogFires(s.slots[h], elapsed)
    requires var t := TimeOut(s, h, ClosingWith(env, h)).0; InRange(t) && Master(t, p) == Some(m) && t.slots[m].state == Established
    requires m != h && m !in After(s.active, h)
    ensures TickPasses(s, h, elapsed, env, p) == []
    ensures Trigger(TimeOut(s, h, ClosingWith(env, h)).0, p) == Trigger(s, p)
  {
    var visit, t := Service(s, h, elapsed, env), TimeOut(s, h, ClosingWith(env, h)).0;
    TimeOutStream(cfg, s, h, ClosingWith(env, h), p);
    TimeOutInv(cfg, s, h, ClosingWith(env, h));
    TimedOutStays(cfg, s, h, ClosingWith(env, h));
    assert !Passes(s, h, elapsed, env, p) && visit.state == t;
    ServiceShrinks(s, h, elapsed, env);
    ShrunkKeepsOrder(s, t);
    if !visit.halted && h in t.active && After(t.active, h) != [] {
      TimeOutMastered(cfg, s, h, ClosingWith(env, h), p);
      StillBehind(s, t, h, m);
      NoPassBehind(cfg, t, After(t.active, h)[0], elapsed, env, p, m);
    }
  }

  /** Whoever has timed out does not produce. */
  lemma TimedOutStays(cfg: Config, s: State, c: nat, sessions: seq<nat>)
    requires Inv(cfg, s) && c in s.active && Inv(cfg, TimeOut(s, c, sessions).0)
    ensures !Produces(TimeOut(s, c, sessions).0.slots[c])
  {
    var t := TimeOut(s, c, sessions).0;
    if s.slots[c].kind != Explicit {
      Clocks.TimeOutUnwound(s, c, sessions);
      if c in t.active {
        assert Clocks.SameClock(Expire(s, c).slots[c], t.slots[c]);
      }
    }
  }
}
