/** The class 1 sequence count of a multicast input over whole runs: whoever is its master, the count on its frames goes
    up by one exactly with new data. */
module Counts {
  import opened Wrappers
  import opened Sequences
  import opened Connections
  import opened Lifecycle
  import opened Invariants
  import opened Runs
  import opened Streams
  import Supervision
  import Words

  // ---- Which frames have new data ----

  /** The frames sent on the input in one visit, of the connection visited: whether its data was new. */
  function NewsOf(s: State, c: nat, elapsed: nat, env: Surroundings, p: nat): seq<bool>
    requires InRange(s) && Distinct(s.active) && c < |s.slots|
  {
    if OnInput(Service(s, c, elapsed, env).sent, p) == [] then [] else [c in env.changed]
  }

  function TickNews(s: State, at: nat, elapsed: nat, env: Surroundings, p: nat): seq<bool>
    requires InRange(s) && Distinct(s.active) && at in s.active
    decreases |After(s.active, at)|
  {
    var visit := Service(s, at, elapsed, env);
    ServiceShrinks(s, at, elapsed, env);
    ShrunkKeepsOrder(s, visit.state);
    if visit.halted || at !in visit.state.active || After(visit.state.active, at) == [] then NewsOf(s, at, elapsed, env, p)
    else
      AfterTail(visit.state.active, at);
      NewsOf(s, at, elapsed, env, p) + TickNews(visit.state, After(visit.state.active, at)[0], elapsed, env, p)
  }

  function StepNews(s: State, step: Step, p: nat): seq<bool>
    requires InRange(s) && Distinct(s.active)
  {
    if step.Elapse? && s.active != [] then TickNews(s, s.active[0], step.elapsed, step.env, p) else []
  }

  /** Of each frame a run sends on the input, in order, whether its data was new. */
  ghost function RunNews(cfg: Config, s: State, steps: seq<Step>, p: nat): seq<bool>
    requires Inv(cfg, s) && ProperSteps(steps)
    decreases steps
  {
    if steps == [] then [] else
      var n := Next(cfg, s, steps[0]);
      NextInv(cfg, s, steps[0]);
      StepNews(s, steps[0], p) + (if n.halted then [] else RunNews(cfg, n.state, steps[1..], p))
  }

  // ---- The law ----

  /** From `s` to `t` the count of the input goes through the frames sent. */
  ghost predicate Tallied(s: State, t: State, news: seq<bool>, packets: seq<Packet>, p: nat)
    requires InRange(s) && Master(s, p).Some?
  {
    && InRange(t) && Master(t, p).Some?
    && Supervision.Numbered(OnInput(packets, p), Count(s, p), news)
    && Count(t, p) == Supervision.LastCount(OnInput(packets, p), Count(s, p))
  }

  lemma TalliedTransitive(s: State, t: State, u: State, x: seq<bool>, y: seq<bool>, a: seq<Packet>, b: seq<Packet>, p: nat)
    requires InRange(s) && Master(s, p).Some? && Tallied(s, t, x, a, p) && Tallied(t, u, y, b, p)
    ensures Tallied(s, u, x + y, a + b, p)
  {
    OnInputConcat(a, b, p);
    Supervision.NumberedConcat(OnInput(a, p), OnInput(b, p), Count(s, p), x, y);
  }

  lemma SameStreamTallied(s: State, t: State, p: nat)
    requires InRange(s) && Master(s, p).Some? && SameStream(s, t, p)
    ensures Tallied(s, t, [], [], p)
  {
  }

  lemma TalliedAfter(s: State, t: State, u: State, news: seq<bool>, packets: seq<Packet>, p: nat)
    requires InRange(s) && Master(s, p).Some? && SameStream(s, t, p) && Tallied(t, u, news, packets, p)
    ensures Tallied(s, u, news, packets, p)
  {
  }

  /** The production half of a visit. */
  lemma ProduceTallied(cfg: Config, s: State, c: nat, elapsed: nat, env: Surroundings, p: nat)
    requires Inv(cfg, s) && Uniform(s, p) && c < |s.slots| && Master(s, p).Some?
    ensures var (t, packets) := Produce(s, c, elapsed, env);
      Tallied(s, t, if OnInput(packets, p) == [] then [] else [c in env.changed], packets, p)
  {
    var (t, packets) := Produce(s, c, elapsed, env);
    ProduceStream(cfg, s, c, elapsed, env, p);
    var h := Master(s, p).value;
    if Produces(s.slots[c]) {
      Supervision.FrameExactly(s, c, elapsed, env);
      TouchedInv(cfg, s, t, c);
      MasterUnique(t, p, h);
      if s.slots[c].input == p {
        MasterUnique(s, p, c);
        assert OnInput(packets, p) == packets;
      } else {
        assert OnInput(packets, p) == [];
      }
    }
  }

  lemma ServiceTallied(cfg: Config, s: State, c: nat, elapsed: nat, env: Surroundings, p: nat)
    requires Inv(cfg, s) && Mastered(s, p) && c in s.active && Master(s, p).Some?
    ensures var visit := Service(s, c, elapsed, env); Tallied(s, visit.state, NewsOf(s, c, elapsed, env, p), visit.sent, p)
  {
    if s.slots[c].state == Established {
      var (t, fatal) := Supervise(s, c, elapsed, env);
      SuperviseStream(cfg, s, c, elapsed, env, p);
      if fatal {
        SameStreamTallied(s, t, p);
      } else {
        ProduceTallied(cfg, t, c, elapsed, env, p);
        var (u, packets) := Produce(t, c, elapsed, env);
        TalliedAfter(s, t, u, NewsOf(s, c, elapsed, env, p), packets, p);
      }
    } else {
      SameStreamTallied(s, s, p);
    }
  }

  lemma {:induction false} TickTallied(cfg: Config, s: State, at: nat, elapsed: nat, env: Surroundings, p: nat)
    requires Inv(cfg, s) && Mastered(s, p) && at in s.active && Master(s, p).Some?
    ensures var end := TickFrom(s, at, elapsed, env); Tallied(s, end.state, TickNews(s, at, elapsed, env, p), end.sent, p)
    decreases |After(s.active, at)|
  {
    var visit := Service(s, at, elapsed, env);
    var t := visit.state;
    ServiceInv(cfg, s, at, elapsed, env);
    ServiceMastered(cfg, s, at, elapsed, env, p);
    ServiceTallied(cfg, s, at, elapsed, env, p);
    ServiceShrinks(s, at, elapsed, env);
    ShrunkKeepsOrder(s, t);
    if !visit.halted && at in t.active && After(t.active, at) != [] {
      AfterTail(t.active, at);
      var n := After(t.active, at)[0];
      TickTallied(cfg, t, n, elapsed, env, p);
      var rest := TickFrom(t, n, elapsed, env);
      TalliedTransitive(s, t, rest.state, NewsOf(s, at, elapsed, env, p), TickNews(t, n, elapsed, env, p), visit.sent, rest.sent, p);
    }
  }

  lemma StepTallied(cfg: Config, s: State, step: Step, p: nat)
    requires Inv(cfg, s) && Mastered(s, p) && Proper(step)
    requires (step.Open? ==> AsksMulticast(step.request, p)) && Continues(cfg, s, step, p)
    requires Master(s, p).Some? && InRange(Next(cfg, s, step).state) && Master(Next(cfg, s, step).state, p).Some?
    ensures var n := Next(cfg, s, step); Tallied(s, n.state, StepNews(s, step, p), n.sent, p)
  {
    if step.Elapse? {
      assert s.active != [];
      TickTallied(cfg, s, s.active[0], step.elapsed, step.env, p);
    } else {
      QuietStream(cfg, s, step, p);
      SameStreamTallied(s, Next(cfg, s, step).state, p);
    }
  }

  lemma {:induction false} RunTallied(cfg: Config, s: State, steps: seq<Step>, p: nat)
    requires Inv(cfg, s) && ProperSteps(steps) && MulticastOnly(steps, p) && Mastered(s, p) && Unbroken(cfg, s, steps, p)
    ensures var end := Run(cfg, s, steps); Tallied(s, end.state, RunNews(cfg, s, steps, p), end.sent, p)
    decreases steps
  {
    if steps == [] {
      SameStreamTallied(s, s, p);
    } else {
      var n, now := Next(cfg, s, steps[0]), StepNews(s, steps[0], p);
      NextInv(cfg, s, steps[0]);
      StepTallied(cfg, s, steps[0], p);
      if n.halted {
        assert now + [] == now;
      } else {
        NextMastered(cfg, s, steps[0], p);
        RunTallied(cfg, n.state, steps[1..], p);
        RunTalliedOn(cfg, s, steps, n, p);
      }
    }
  }

  lemma RunTalliedOn(cfg: Config, s: State, steps: seq<Step>, n: Progress, p: nat)
    requires Inv(cfg, s) && ProperSteps(steps) && steps != [] && n == Next(cfg, s, steps[0]) && !n.halted && Inv(cfg, n.state)
    requires Master(s, p).Some? && Tallied(s, n.state, StepNews(s, steps[0], p), n.sent, p)
    requires var rest := Run(cfg, n.state, steps[1..]); Tallied(n.state, rest.state, RunNews(cfg, n.state, steps[1..], p), rest.sent, p)
    ensures var end := Run(cfg, s, steps); Tallied(s, end.state, RunNews(cfg, s, steps, p), end.sent, p)
  {
    var rest := Run(cfg, n.state, steps[1..]);
    TalliedTransitive(s, n.state, rest.state, StepNews(s, steps[0], p), RunNews(cfg, n.state, steps[1..], p), n.sent, rest.sent, p);
  }

  /** Each count is that of the frame before, plus one modulo 2^16 exactly if the data was new. */
  ghost predicate GoesOn(own: seq<Packet>, news: seq<bool>, before: nat, after: nat) {
    && |own| == |news|
    && (forall i :: 0 <= i < |own| ==>
         var last := if i == 0 then before else own[i - 1].count;
         own[i].count == if news[i] then (last + 1) % Words.WORD16 else last)
    && after == (if own == [] then before else own[|own| - 1].count)
    && after % Words.WORD16 == (before + Supervision.Renewals(news)) % Words.WORD16
  }

  lemma NumberedGoesOn(own: seq<Packet>, news: seq<bool>, before: nat, after: nat)
    requires Supervision.Numbered(own, before, news) && after == Supervision.LastCount(own, before)
    ensures GoesOn(own, news, before, after)
  {
    Supervision.NumberedMeans(own, before, news);
    Supervision.CountTallies(own, before, news);
  }

  /** Across sends, handovers by close or timeout and joining opens, the frames on the input so carry on the count that
      the master had, and leave it to the master there is at the end. */
  lemma CountContinues(cfg: Config, s: State, steps: seq<Step>, p: nat)
    requires Inv(cfg, s) && ProperSteps(steps) && MulticastOnly(steps, p) && Mastered(s, p) && Unbroken(cfg, s, steps, p)
    ensures var end := Run(cfg, s, steps);
      InRange(end.state) && Master(end.state, p).Some? &&
      GoesOn(OnInput(end.sent, p), RunNews(cfg, s, steps, p), Count(s, p), Count(end.state, p))
  {
    RunTallied(cfg, s, steps, p);
    var end := Run(cfg, s, steps);
    NumberedGoesOn(OnInput(end.sent, p), RunNews(cfg, s, steps, p), Count(s, p), Count(end.state, p));
  }
}
