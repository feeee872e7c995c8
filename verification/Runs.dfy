/** Whole runs of the connection manager: every reachable state keeps the invariants. */
module Runs {
  import opened Sequences
  import opened Wrappers
  import opened Connections
  import opened Lifecycle
  import opened Invariants
  import Timing

  /** `Message` is a connected explicit message, whose service is a step of its own. */
  datatype Step =
    | Open(request: Request)
    | Shut(triad: Triad, from: nat)
    | Elapse(elapsed: nat, env: Surroundings)
    | Arrive(connectionId: nat, sequence: nat, from: nat)
    | Message(connectionId: nat)
    | EndSession(session: nat)
    | ShutDown

  /** A step the parser can deliver: class 3 only towards the message router. */
  predicate Proper(step: Step) {
    step.Open? ==> Parsed(step.request)
  }

  predicate ProperSteps(steps: seq<Step>) {
    forall i :: 0 <= i < |steps| ==> Proper(steps[i])
  }

  /** No open on input `p` asks for anything but multicast. */
  predicate MulticastOnly(steps: seq<Step>, p: nat) {
    forall i :: 0 <= i < |steps| && steps[i].Open? ==> AsksMulticast(steps[i].request, p)
  }

  function Next(cfg: Config, s: State, step: Step): (r: Progress)
    requires Fits(cfg, s) && Distinct(s.active)
    ensures |r.state.slots| == |s.slots|
  {
    match step
    case Open(request) =>
      var (t, reply) := ForwardOpen(cfg, s, request);
      Progress(t, [], reply.Fatal? || reply.Drawing?)
    case Shut(triad, from) => Progress(ForwardClose(s, triad, from).0, [], false)
    case Elapse(elapsed, env) => Tick(s, elapsed, env)
    case Arrive(connectionId, sequence, from) => Progress(Receive(s, connectionId, sequence, from), [], false)
    case Message(connectionId) => Progress(Rearm(s, connectionId), [], false)
    case EndSession(session) => Progress(CloseSession(s, session), [], false)
    case ShutDown => Progress(CloseAll(s), [], false)
  }

  /** Start-up: every slot empty, nothing listed. */
  ghost function Initial(cfg: Config): (s: State)
    requires WellFormed(cfg)
    ensures Inv(cfg, s)
    ensures forall p :: Mastered(s, p)
  {
    State(seq(|cfg.homes|, _ => EMPTY), [])
  }

  /** Every step keeps the invariants. */
  lemma NextInv(cfg: Config, s: State, step: Step)
    requires Inv(cfg, s) && Proper(step)
    ensures Inv(cfg, Next(cfg, s, step).state)
  {
    match step {
      case Open(request) => ForwardOpenInv(cfg, s, request);
      case Shut(triad, from) =>
        var c := First(s.slots, s.active, AnyTriad(triad));
        if c.Some? {
          CloseInv(cfg, s, c.value);
        }
      case Elapse(elapsed, env) =>
        if s.active != [] {
          TickFromInv(cfg, s, s.active[0], elapsed, env);
        }
      case Arrive(connectionId, sequence, from) => ReceiveInv(cfg, s, connectionId, sequence, from);
      case Message(connectionId) => RearmInv(cfg, s, connectionId);
      case EndSession(session) =>
        var c := First(s.slots, s.active, Class3(session));
        if c.Some? {
          CloseInv(cfg, s, c.value);
        }
      case ShutDown => CloseAllInv(cfg, s);
    }
  }

  lemma NextMastered(cfg: Config, s: State, step: Step, p: nat)
    requires Inv(cfg, s) && Mastered(s, p) && (step.Open? ==> AsksMulticast(step.request, p))
    ensures InRange(Next(cfg, s, step).state) && Mastered(Next(cfg, s, step).state, p)
  {
    match step {
      case Open(request) => ForwardOpenMastered(cfg, s, request, p);
      case Shut(triad, from) =>
        var c := First(s.slots, s.active, AnyTriad(triad));
        if c.Some? {
          CloseMastered(cfg, s, c.value, p);
        }
      case Elapse(elapsed, env) =>
        if s.active != [] {
          TickFromMastered(cfg, s, s.active[0], elapsed, env, p);
        }
      case Arrive(connectionId, sequence, from) => ReceiveInv(cfg, s, connectionId, sequence, from);
      case Message(connectionId) => RearmInv(cfg, s, connectionId);
      case EndSession(session) =>
        var c := First(s.slots, s.active, Class3(session));
        if c.Some? {
          CloseMastered(cfg, s, c.value, p);
        }
      case ShutDown =>
    }
  }

  /** The state and the frames sent after a run, which ends early where the stack goes no further.
      Every state on the way satisfies the invariants, whatever the configuration. */
  function Run(cfg: Config, s: State, steps: seq<Step>): (r: Progress)
    requires Inv(cfg, s) && ProperSteps(steps)
    ensures Inv(cfg, r.state)
    decreases steps
  {
    if steps == [] then Progress(s, [], false) else
      var first := Next(cfg, s, steps[0]);
      NextInv(cfg, s, steps[0]);
      if first.halted then first else
        var rest := Run(cfg, first.state, steps[1..]);
        rest.(sent := first.sent + rest.sent)
  }

  /** A run that starts with `step`. */
  lemma RunOn(cfg: Config, s: State, step: Step, rest: seq<Step>, t: State)
    requires Inv(cfg, s) && Proper(step) && ProperSteps(rest)
    requires Next(cfg, s, step).state == t && !Next(cfg, s, step).halted
    ensures Inv(cfg, t) && ProperSteps([step] + rest)
    ensures var whole, end := Run(cfg, s, [step] + rest), Run(cfg, t, rest); whole.state == end.state && whole.halted == end.halted
  {
    NextInv(cfg, s, step);
    assert ([step] + rest)[1..] == rest;
  }

  lemma {:induction false} RunMastered(cfg: Config, s: State, steps: seq<Step>, p: nat)
    requires Inv(cfg, s) && ProperSteps(steps) && MulticastOnly(steps, p) && Mastered(s, p)
    ensures Mastered(Run(cfg, s, steps).state, p)
    decreases steps
  {
    if steps != [] {
      NextInv(cfg, s, steps[0]);
      NextMastered(cfg, s, steps[0], p);
      if !Next(cfg, s, steps[0]).halted {
        RunMastered(cfg, Next(cfg, s, steps[0]).state, steps[1..], p);
      }
    }
  }

  /** In every reachable state of every configuration: slots and list agree, listed connections sit in the slots of
      their paths, each input has at most one multicast holder, triads and numbers are unique, and of the exclusive
      owners on an input at most the first listed is established. */
  lemma EveryRunIsSound(cfg: Config, steps: seq<Step>)
    requires WellFormed(cfg) && ProperSteps(steps)
    ensures var s := Run(cfg, Initial(cfg), steps).state;
      Agrees(s) && Typed(cfg, s) && SingleMaster(s) && Identified(s) && Lineage(s)
  {
  }

  /** No run has two established exclusive owners on one input, and two listed ones are of the same originator. */
  lemma EstablishedOwnersDiffer(cfg: Config, steps: seq<Step>, a: nat, b: nat)
    requires WellFormed(cfg) && ProperSteps(steps)
    requires var s := Run(cfg, Initial(cfg), steps).state;
      && a in s.active && b in s.active && a != b
      && s.slots[a].kind == ExclusiveOwner && s.slots[b].kind == ExclusiveOwner && s.slots[a].input == s.slots[b].input
    ensures var s := Run(cfg, Initial(cfg), steps).state;
      && !(s.slots[a].state == Established && s.slots[b].state == Established)
      && SameOriginator(s.slots[a].triad, s.slots[b].triad)
  {
    OneEstablishedOwner(cfg, Run(cfg, Initial(cfg), steps).state, a, b);
  }

  /** With distinct owner inputs there is never more than one exclusive owner on an input, established or timed out. */
  lemma EveryRunIsOwned(cfg: Config, steps: seq<Step>)
    requires WellFormed(cfg) && OwnerInputsDistinct(cfg) && ProperSteps(steps)
    ensures Owned(Run(cfg, Initial(cfg), steps).state)
  {
    DistinctOwned(cfg, Run(cfg, Initial(cfg), steps).state);
  }

  /** On an input whose connections are all multicast: as soon as an established owner or input-only
      connection, or any listener, is listed, exactly one listed connection holds the socket, and the
      one that depends on it carries its connection ID. */
  lemma ExactlyOneMaster(cfg: Config, steps: seq<Step>, p: nat, c: nat)
    requires WellFormed(cfg) && ProperSteps(steps) && MulticastOnly(steps, p)
    requires var s := Run(cfg, Initial(cfg), steps).state; c in s.active && Depends(s.slots[c], p)
    ensures var s := Run(cfg, Initial(cfg), steps).state;
      exists h :: IsMaster(s, h, p, s.slots[c].producedId) &&
                  forall g :: g in s.active && Holds(s.slots[g]) && s.slots[g].input == p ==> g == h
  {
    RunMastered(cfg, Initial(cfg), steps, p);
    var s := Run(cfg, Initial(cfg), steps).state;
    var h :| IsMaster(s, h, p, s.slots[c].producedId);
    assert forall g :: g in s.active && Holds(s.slots[g]) && s.slots[g].input == p ==> g == h;
  }

  /** The outcome of a run that has sent `sent` and has `steps` still to take. */
  ghost function Outcome(cfg: Config, s: State, steps: seq<Step>, sent: seq<Packet>): Progress
    requires Inv(cfg, s) && ProperSteps(steps)
  {
    Run(cfg, s, steps).(sent := sent + Run(cfg, s, steps).sent)
  }

  lemma OutcomeAtEnds(cfg: Config, s: State, steps: seq<Step>, sent: seq<Packet>)
    requires Inv(cfg, s) && ProperSteps(steps)
    ensures Outcome(cfg, s, steps, []) == Run(cfg, s, steps)
    ensures steps == [] ==> Outcome(cfg, s, steps, sent) == Progress(s, sent, false)
  {
    assert [] + Run(cfg, s, steps).sent == Run(cfg, s, steps).sent;
    assert sent + [] == sent;
  }

  lemma OutcomeUnfolds(cfg: Config, s: State, steps: seq<Step>, sent: seq<Packet>)
    requires Inv(cfg, s) && ProperSteps(steps) && steps != []
    ensures var first := Next(cfg, s, steps[0]);
      && Inv(cfg, first.state) && ProperSteps(steps[1..])
      && Outcome(cfg, s, steps, sent) ==
         if first.halted then first.(sent := sent + first.sent) else Outcome(cfg, first.state, steps[1..], sent + first.sent)
  {
    NextInv(cfg, s, steps[0]);
    var first := Next(cfg, s, steps[0]);
    if !first.halted {
      var rest := Run(cfg, first.state, steps[1..]);
      assert sent + (first.sent + rest.sent) == sent + first.sent + rest.sent;
    }
  }

  /** A refused open writes at most the slot that was chosen for it. */
  lemma RefusedWrites(cfg: Config, s: State, r: Request) returns (k: Conn)
    requires Fits(cfg, s) && r.path.Path? && r.path.target == Assembly && !ForwardOpen(cfg, s, r).1.Accepted?
    ensures var pick, t := PickIo(cfg, s, r), ForwardOpen(cfg, s, r).0;
      t == s || (pick.Slot? && pick.id < |pick.state.slots| && t == pick.state.(slots := pick.state.slots[pick.id := k]))
  {
    PickInRange(cfg, s, r);
    var pick := PickIo(cfg, s, r);
    var number := FirstUnused(r.draws, Numbers(s));
    if pick.Slot? && number.Some? {
      k := Draft(r, pick.kind, number.value);
      if Inhibit(r.production).Some? {
        k := Configured(r, k).(production := Inhibit(r.production).value, closable := true);
      }
    } else {
      k := EMPTY;
    }
  }

  /** A refused open changes the list only by closing a connection that had timed out on the same originator. */
  lemma RefusedOpenKeepsList(cfg: Config, s: State, r: Request)
    requires Inv(cfg, s) && !ForwardOpen(cfg, s, r).1.Accepted?
    ensures var t := ForwardOpen(cfg, s, r).0;
      t.active == s.active ||
      exists c :: c in s.active && s.slots[c].state == TimedOut && SameOriginator(r.triad, s.slots[c].triad) && t.active == Close(s, c).active
  {
    if r.path.Path? && r.path.target == Assembly {
      PickIoGood(cfg, s, r);
      var k := RefusedWrites(cfg, s, r);
      var pick := PickIo(cfg, s, r);
      if pick.Slot? && pick.id !in s.active {
        WithoutNone(s.active, {pick.id});
      }
    }
  }

  /** An accepted open puts the new connection at the head of the list, established. */
  lemma AcceptedOpenIsFirst(cfg: Config, s: State, r: Request)
    requires Inv(cfg, s) && ForwardOpen(cfg, s, r).1.Accepted?
    ensures var (t, reply) := ForwardOpen(cfg, s, r);
      t.active != [] && t.active[0] == reply.slot && reply.slot < |t.slots| && t.slots[reply.slot].state == Established &&
      t.slots[reply.slot].triad == r.triad && t.slots[reply.slot].input == r.path.input
  {
    if r.path.target == Assembly {
      PickIoGood(cfg, s, r);
      var pick := PickIo(cfg, s, r);
      var k := AcceptedAttaches(cfg, s, r);
      AttachAttached(pick.state, pick.id, k, r.socket);
      AcceptedSlot(cfg, s, r);
    }
  }

  /** Timers and counters of a connection that has just been set up for a request. */
  predicate Rested(k: Conn, r: Request) {
    && k.watchdog == Timing.InitialWatchdog(r.oToTInterval, r.multiplier)
    && k.oToTInterval == r.oToTInterval && k.multiplier == r.multiplier
    && k.trigger == 0 && k.eipSequence == 0 && k.sequenceCount == 0 && !k.sequenceReceived
    && (r.oToT != NullType && k.kind != Explicit ==> k.supervised)
  }

  /** A new connection starts with the long watchdog value, its trigger due and no packet received. */
  lemma AcceptedOpenIsRested(cfg: Config, s: State, r: Request)
    requires Inv(cfg, s) && ForwardOpen(cfg, s, r).1.Accepted?
    ensures var (t, reply) := ForwardOpen(cfg, s, r); reply.slot < |t.slots| && Rested(t.slots[reply.slot], r)
  {
    if r.path.target == Assembly {
      PickIoGood(cfg, s, r);
      var pick := PickIo(cfg, s, r);
      var k := AcceptedAttaches(cfg, s, r);
      AttachAttached(pick.state, pick.id, k, r.socket);
      AcceptedSlot(cfg, s, r);
    }
  }

  lemma AcceptedSlot(cfg: Config, s: State, r: Request)
    requires Fits(cfg, s) && r.path.Path? && r.path.target == Assembly && ForwardOpen(cfg, s, r).1.Accepted?
    ensures PickIo(cfg, s, r).Slot? && ForwardOpen(cfg, s, r).1.slot == PickIo(cfg, s, r).id
  {
  }

  lemma AcceptedAttaches(cfg: Config, s: State, r: Request) returns (k: Conn)
    requires Fits(cfg, s) && r.path.Path? && r.path.target == Assembly && ForwardOpen(cfg, s, r).1.Accepted?
    ensures var pick := PickIo(cfg, s, r);
      pick.Slot? && pick.id < |s.slots| && InRange(pick.state) && |pick.state.slots| == |s.slots| &&
      ForwardOpen(cfg, s, r).0 == Attach(pick.state, pick.id, k, r.socket) &&
      k.kind == pick.kind && k.input == r.path.input && k.triad == r.triad && k.tToO == r.tToO && k.producing == INVALID_SOCKET && k.eipSequence == 0 &&
      Rested(k, r)
  {
    PickInRange(cfg, s, r);
    var pick := PickIo(cfg, s, r);
    var number := FirstUnused(r.draws, Numbers(s)).value;
    k := NewConn(r, pick.kind, number, Inhibit(r.production).value);
  }

  /** The connection set up for an I/O request, before it is attached. */
  function NewConn(r: Request, kind: Kind, number: nat, p: Production): Conn
    requires r.path.Path?
  {
    Wired(r, Configured(r, Draft(r, kind, number)).(production := p, closable := true))
  }

  /** The request passes every test before the choice of a slot, and its path leads to `target`. */
  predicate Admitted(s: State, r: Request, target: Target)
    requires InRange(s)
  {
    && FirstUnused(r.draws, Numbers(s)).Some? && r.oToT != InvalidType && r.tToO != InvalidType
    && (r.tToO == Multicast ==> r.onSubnet) && !(r.oToT == NullType && r.tToO == NullType)
    && First(s.slots, s.active, MatchingTriad(r.triad)).None? && r.triggerValid
    && r.path.Path? && r.path.target == target
  }

  /** Nothing but the pool stands between an I/O request and slot `c`. */
  ghost predicate Settles(cfg: Config, s: State, r: Request, c: nat, kind: Kind)
    requires Fits(cfg, s)
  {
    && Admitted(s, r, Assembly) && PickIo(cfg, s, r) == Slot(c, kind, s) && Inhibit(r.production) == Some(r.production)
    && SetupError(s, r, r.production) == 0 && r.channelsOpen
  }

  lemma OpensInto(cfg: Config, s: State, r: Request, c: nat, kind: Kind)
    requires Fits(cfg, s) && Settles(cfg, s, r, c, kind) && |s.active| < NodePoolSize(cfg)
    ensures c < |s.slots|
    ensures var k := NewConn(r, kind, FirstUnused(r.draws, Numbers(s)).value, r.production);
      ForwardOpen(cfg, s, r) == (Attach(s, c, k, r.socket), Accepted(c))
  {
    PickInRange(cfg, s, r);
  }

  lemma ExplicitOpensInto(cfg: Config, s: State, r: Request, c: nat)
    requires Fits(cfg, s) && Admitted(s, r, MessageRouter) && |s.active| < NodePoolSize(cfg)
    requires Free(s.slots, cfg.explicits.base, cfg.explicits.base + cfg.explicits.size) == Some(c)
    ensures var k := ExplicitConn(r, FirstUnused(r.draws, Numbers(s)).value);
      ForwardOpen(cfg, s, r) == (State(s.slots[c := k], [c] + s.active), Accepted(c))
  {
  }
}
