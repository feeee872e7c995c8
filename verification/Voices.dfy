/** Whether the holder of a multicast socket still speaks: an input whose dependents have an established master loses
    it in exactly one way. */
module Voices {
  import opened Wrappers
  import opened Sequences
  import opened Connections
  import opened Lifecycle
  import opened Invariants
  import opened Runs
  import opened Streams
  import Pacing
  import Timeouts
  import Timing

  /** Whoever depends on the input has a master that is established. */
  ghost predicate Voiced(s: State, p: nat)
    requires InRange(s)
  {
    forall c, h :: c in s.active && h in s.active && Depends(s.slots[c], p) && Speaks(s.slots[h], p) ==> s.slots[h].state == Established
  }

  /** Holds the multicast socket of this input. */
  predicate Speaks(k: Conn, p: nat) {
    Holds(k) && k.input == p
  }

  // ---- What closes or times out leaves an established master ----

  lemma DropAllVoiced(s: State, gone: set<nat>, p: nat)
    requires InRange(s) && Voiced(s, p)
    ensures InRange(DropAll(s, gone)) && Voiced(DropAll(s, gone), p)
  {
  }

  lemma TouchedVoiced(s: State, t: State, c: nat, p: nat)
    requires InRange(s) && Voiced(s, p) && Touched(s, t, c)
    ensures InRange(t) && Voiced(t, p)
  {
  }

  /** An heir is established. */
  lemma MoveMasterVoiced(s: State, c: nat, m: nat, p: nat)
    requires InRange(s) && SingleMaster(s) && c in s.active && m in s.active
    requires MustHandOver(s.slots[c]) && Matches(s.slots[m], NextMaster(s.slots[c].input))
    requires Voiced(s, p) || s.slots[c].input == p
    ensures Voiced(MoveMaster(s, c, m), p)
  {
  }

  lemma CloseVoiced(s: State, c: nat, p: nat)
    requires InRange(s) && SingleMaster(s) && Voiced(s, p) && c < |s.slots| && (c !in s.active ==> s.slots[c].producing == INVALID_SOCKET)
    ensures InRange(Close(s, c)) && Voiced(Close(s, c), p)
  {
    if !MustHandOver(s.slots[c]) {
      DropAllVoiced(s, {c}, p);
    } else if Heir(s, c).Some? {
      MoveMasterVoiced(s, c, Heir(s, c).value, p);
      DropAllVoiced(MoveMaster(s, c, Heir(s, c).value), {c}, p);
    } else {
      DropAllVoiced(s, Mates(s, ListenOnly, s.slots[c].input) + {c}, p);
    }
  }

  lemma {:induction false} CloseFromVoiced(cfg: Config, s: State, c: nat, kind: Kind, input: nat, p: nat)
    requires Inv(cfg, s) && Voiced(s, p) && c in s.active
    ensures Voiced(CloseFrom(s, c, kind, input).0, p)
    decreases |After(s.active, c)|
  {
    var t := CloseIfMate(s, c, kind, input);
    CloseInv(cfg, s, c);
    CloseVoiced(s, c, p);
    CloseIfMateShrinks(s, c, kind, input);
    ShrunkKeepsOrder(s, t);
    if After(s.active, c) != [] && After(s.active, c)[0] in t.active {
      AfterTail(s.active, c);
      CloseFromVoiced(cfg, t, After(s.active, c)[0], kind, input, p);
    }
  }

  lemma DropDependentsVoiced(cfg: Config, s: State, input: nat, p: nat)
    requires Inv(cfg, s) && Voiced(s, p)
    ensures InRange(DropDependents(s, input).0) && Voiced(DropDependents(s, input).0, p)
  {
    if s.active != [] {
      CloseFromVoiced(cfg, s, s.active[0], InputOnly, input, p);
    }
    var t := CloseMates(s, InputOnly, input).0;
    DropAllVoiced(t, Mates(t, ListenOnly, input), p);
  }

  /** A master that timed out hands over, or nobody is left who depends on it. */
  lemma HalfVoiced(cfg: Config, s: State, c: nat, p: nat)
    requires Inv(cfg, s) && Mastered(s, p) && c in s.active && s.slots[c].state == TimedOut
    requires Voiced(s, p) || Speaks(s.slots[c], p)
    ensures InRange(Half(s, c)) && Voiced(Half(s, c), p)
  {
    if MustHandOver(s.slots[c]) {
      if Heir(s, c).Some? {
        MoveMasterVoiced(s, c, Heir(s, c).value, p);
      } else if s.slots[c].input == p {
        NobodyDepends(s, c, p);
      } else {
        DropAllVoiced(s, Mates(s, ListenOnly, s.slots[c].input), p);
      }
    }
  }

  lemma NobodyDepends(s: State, c: nat, p: nat)
    requires InRange(s) && SingleMaster(s) && Mastered(s, p) && c in s.active && s.slots[c].state == TimedOut
    requires Speaks(s.slots[c], p) && MustHandOver(s.slots[c]) && Heir(s, c).None?
    ensures forall d :: d in Half(s, c).active ==> d < |s.slots| && !Depends(Half(s, c).slots[d], p)
  {
    forall d | d in Half(s, c).active
      ensures d < |s.slots| && !Depends(Half(s, c).slots[d], p)
    {
      assert !Matches(s.slots[d], NextMaster(p));
    }
  }

  /** Once `c` has timed out and sessions are closed: others speak as before. */
  lemma ExpiredVoiced(cfg: Config, s: State, c: nat, sessions: seq<nat>, u: State, p: nat)
    requires Inv(cfg, s) && Voiced(s, p) && c in s.active && s.slots[c].kind != Explicit && u == CloseSessions(Expire(s, c), sessions)
    ensures Inv(cfg, u) && c in u.active && u.slots[c] == Expire(s, c).slots[c]
    ensures Voiced(u, p) || Speaks(u.slots[c], p)
  {
    ExpiredAndSessions(cfg, s, c, sessions);
  }

  lemma TimeOutVoiced(cfg: Config, s: State, c: nat, sessions: seq<nat>, p: nat)
    requires Inv(cfg, s) && Mastered(s, p) && Voiced(s, p) && c in s.active
    ensures InRange(TimeOut(s, c, sessions).0) && Voiced(TimeOut(s, c, sessions).0, p)
  {
    if s.slots[c].kind == Explicit {
      DropAllVoiced(s, {c}, p);
    } else {
      var u := CloseSessions(Expire(s, c), sessions);
      ExpiredVoiced(cfg, s, c, sessions, u, p);
      ExpireInv(cfg, s, c);
      ExpireMastered(s, c, p);
      CloseSessionsMastered(cfg, Expire(s, c), sessions, p);
      HalfInv(cfg, u, c);
      HalfVoiced(cfg, u, c, p);
      DropDependentsVoiced(cfg, Half(u, c), u.slots[c].input, p);
    }
  }

  lemma ServiceVoiced(cfg: Config, s: State, c: nat, elapsed: nat, env: Surroundings, p: nat)
    requires Inv(cfg, s) && Mastered(s, p) && Voiced(s, p) && c in s.active
    ensures InRange(Service(s, c, elapsed, env).state) && Voiced(Service(s, c, elapsed, env).state, p)
  {
    if s.slots[c].state == Established {
      var (t, fatal) := Supervise(s, c, elapsed, env);
      if WatchdogFires(s.slots[c], elapsed) {
        TimeOutVoiced(cfg, s, c, ClosingWith(env, c), p);
      } else {
        TouchedVoiced(s, t, c, p);
      }
      TouchedVoiced(t, Produce(t, c, elapsed, env).0, c, p);
    }
  }

  lemma {:induction false} TickFromVoiced(cfg: Config, s: State, c: nat, elapsed: nat, env: Surroundings, p: nat)
    requires Inv(cfg, s) && Mastered(s, p) && Voiced(s, p) && c in s.active
    ensures InRange(TickFrom(s, c, elapsed, env).state) && Voiced(TickFrom(s, c, elapsed, env).state, p)
    decreases |After(s.active, c)|
  {
    var visit := Service(s, c, elapsed, env);
    var t := visit.state;
    ServiceInv(cfg, s, c, elapsed, env);
    ServiceMastered(cfg, s, c, elapsed, env, p);
    ServiceVoiced(cfg, s, c, elapsed, env, p);
    ServiceShrinks(s, c, elapsed, env);
    ShrunkKeepsOrder(s, t);
    if !visit.halted && c in t.active && After(t.active, c) != [] {
      AfterTail(t.active, c);
      TickFromVoiced(cfg, t, After(t.active, c)[0], elapsed, env, p);
    }
  }

  // ---- Opens ----

  /** The master of the input has timed out. */
  predicate Dumb(s: State, p: nat)
    requires InRange(s)
  {
    Master(s, p).Some? && s.slots[Master(s, p).value].state != Established
  }

  /** A new connection on the input depends on it, and hears its master exactly if that is established or itself. */
  lemma AttachVoicedExactly(s: State, c: nat, k: Conn, socket: nat, p: nat)
    requires InRange(s) && SingleMaster(s) && Voiced(s, p) && c < |s.slots| && c !in s.active
    requires k.kind != Explicit && k.producing == INVALID_SOCKET && (k.input == p ==> k.tToO == Multicast)
    ensures var t := Attach(s, c, k, socket);
      InRange(t) && (Voiced(t, p) <==> !(k.input == p && k.kind != ExclusiveOwner && Dumb(s, p)))
  {
    AttachAttached(s, c, k, socket);
    AttachSingleMaster(s, c, k, socket);
    if k.input == p {
      JoinedVoicedExactly(s, c, k, socket, p);
    }
  }

  lemma JoinedVoicedExactly(s: State, c: nat, k: Conn, socket: nat, p: nat)
    requires InRange(s) && SingleMaster(s) && c < |s.slots| && c !in s.active
    requires k.kind != Explicit && k.producing == INVALID_SOCKET && k.input == p && k.tToO == Multicast
    requires Attached(s, Attach(s, c, k, socket), c, k) && InRange(Attach(s, c, k, socket)) && SingleMaster(Attach(s, c, k, socket))
    ensures Voiced(Attach(s, c, k, socket), p) <==> !(k.kind != ExclusiveOwner && Dumb(s, p))
  {
    var t, found := Attach(s, c, k, socket), Master(s, p);
    var h := if found.None? || k.kind == ExclusiveOwner then c else found.value;
    assert c in t.active && Depends(t.slots[c], p);
    assert h in t.active && Speaks(t.slots[h], p);
    assert t.slots[h].state == Established <==> !(k.kind != ExclusiveOwner && Dumb(s, p));
  }

  /** The choice of a slot on the input leaves its master alone, unless the slot is the master's own; then an
      established heir takes over, or there is no master any more. */
  lemma PickDumb(cfg: Config, s: State, r: Request, p: nat)
    requires Inv(cfg, s) && r.path.Path? && r.path.input == p && PickIo(cfg, s, r).Slot?
    ensures var pick := PickIo(cfg, s, r);
      InRange(pick.state) && (Dumb(pick.state, p) <==> Dumb(s, p) && Master(s, p) != Some(pick.id))
  {
    PickIoGood(cfg, s, r);
    var pick := PickIo(cfg, s, r);
    if pick.state != s {
      ClosedDumb(cfg, s, pick.id, p);
    }
  }

  lemma ClosedDumb(cfg: Config, s: State, c: nat, p: nat)
    requires Inv(cfg, s) && c < |s.slots| && cfg.homes[c].kind != Explicit && cfg.homes[c].input == p
    ensures InRange(Close(s, c)) && (Dumb(Close(s, c), p) <==> Dumb(s, p) && Master(s, p) != Some(c))
  {
    var t := Close(s, c);
    CloseInv(cfg, s, c);
    if MustHandOver(s.slots[c]) {
      MasterUnique(s, p, c);
      if Heir(s, c).Some? {
        MasterUnique(t, p, Heir(s, c).value);
      } else {
        assert forall a :: a in t.active ==> !Matches(t.slots[a], Producer(true, p));
      }
    } else if Master(s, p).Some? && Master(s, p) != Some(c) {
      MasterUnique(t, p, Master(s, p).value);
    } else {
      assert forall a :: a in t.active ==> !Matches(t.slots[a], Producer(true, p));
    }
  }

  /** An accepted open of a connection that is no owner, on an input whose master has timed out, into another slot. */
  ghost predicate Mutes(cfg: Config, s: State, r: Request, p: nat)
    requires Fits(cfg, s)
  {
    && r.path.Path? && r.path.target == Assembly && r.path.input == p && ForwardOpen(cfg, s, r).1.Accepted?
    && PickIo(cfg, s, r).Slot? && PickIo(cfg, s, r).kind != ExclusiveOwner && Dumb(s, p) && Master(s, p) != Some(PickIo(cfg, s, r).id)
  }

  lemma PickVoiced(cfg: Config, s: State, r: Request, p: nat)
    requires Inv(cfg, s) && Voiced(s, p) && r.path.Path? && PickIo(cfg, s, r).Slot?
    ensures InRange(PickIo(cfg, s, r).state) && Voiced(PickIo(cfg, s, r).state, p)
  {
    PickIoGood(cfg, s, r);
    CloseVoiced(s, PickIo(cfg, s, r).id, p);
  }

  lemma AcceptedVoicedExactly(cfg: Config, s: State, r: Request, p: nat)
    requires Inv(cfg, s) && Voiced(s, p) && AsksMulticast(r, p) && r.path.Path? && r.path.target == Assembly && ForwardOpen(cfg, s, r).1.Accepted?
    ensures var t := ForwardOpen(cfg, s, r).0; InRange(t) && (Voiced(t, p) <==> !Mutes(cfg, s, r, p))
  {
    PickIoGood(cfg, s, r);
    var k := AcceptedAttaches(cfg, s, r);
    var pick := PickIo(cfg, s, r);
    PickVoiced(cfg, s, r, p);
    if r.path.input == p {
      PickDumb(cfg, s, r, p);
    }
    AttachVoicedExactly(pick.state, pick.id, k, r.socket, p);
  }

  lemma RefusedVoiced(cfg: Config, s: State, r: Request, p: nat)
    requires Inv(cfg, s) && Voiced(s, p) && r.path.Path? && r.path.target == Assembly && !ForwardOpen(cfg, s, r).1.Accepted?
    ensures var t := ForwardOpen(cfg, s, r).0; InRange(t) && Voiced(t, p)
  {
    var k := RefusedWrites(cfg, s, r);
    var pick := PickIo(cfg, s, r);
    if pick.Slot? {
      PickIoGood(cfg, s, r);
      PickVoiced(cfg, s, r, p);
    }
  }

  lemma ExplicitVoiced(cfg: Config, s: State, r: Request, p: nat)
    requires Inv(cfg, s) && Voiced(s, p) && !(r.path.Path? && r.path.target == Assembly)
    ensures var t := ForwardOpen(cfg, s, r).0; InRange(t) && Voiced(t, p)
  {
    OpenCases(cfg, s, r);
    var t := ForwardOpen(cfg, s, r).0;
    var free := Free(s.slots, cfg.explicits.base, cfg.explicits.base + cfg.explicits.size);
    if t != s && free.Some? {
      ListedVoiced(s, free.value, ExplicitConn(r, FirstUnused(r.draws, Numbers(s)).value), t, p);
    }
  }

  lemma ListedVoiced(s: State, c: nat, k: Conn, t: State, p: nat)
    requires InRange(s) && Voiced(s, p) && c < |s.slots| && c !in s.active && k.kind == Explicit
    requires t == State(s.slots[c := k], [c] + s.active)
    ensures InRange(t) && Voiced(t, p)
  {
  }

  lemma OpenVoicedExactly(cfg: Config, s: State, r: Request, p: nat)
    requires Inv(cfg, s) && Voiced(s, p) && AsksMulticast(r, p)
    ensures var t := ForwardOpen(cfg, s, r).0; InRange(t) && (Voiced(t, p) <==> !Mutes(cfg, s, r, p))
  {
    if !(r.path.Path? && r.path.target == Assembly) {
      ExplicitVoiced(cfg, s, r, p);
    } else if ForwardOpen(cfg, s, r).1.Accepted? {
      AcceptedVoicedExactly(cfg, s, r, p);
    } else {
      RefusedVoiced(cfg, s, r, p);
    }
  }

  // ---- Steps and runs ----

  /** On a multicast input whose dependents have an established master, a step keeps that if and only if it is not an
      accepted open, other than an owner's, while the master has timed out. */
  lemma NextVoicedExactly(cfg: Config, s: State, step: Step, p: nat)
    requires Inv(cfg, s) && Mastered(s, p) && Voiced(s, p) && (step.Open? ==> AsksMulticast(step.request, p))
    ensures var t := Next(cfg, s, step).state; InRange(t) && (Voiced(t, p) <==> !(step.Open? && Mutes(cfg, s, step.request, p)))
  {
    match step {
      case Open(request) => OpenVoicedExactly(cfg, s, request, p);
      case Shut(triad, from) =>
        var c := First(s.slots, s.active, AnyTriad(triad));
        if c.Some? {
          CloseVoiced(s, c.value, p);
        }
      case Elapse(elapsed, env) =>
        if s.active != [] {
          TickFromVoiced(cfg, s, s.active[0], elapsed, env, p);
        }
      case Arrive(connectionId, sequence, from) =>
        var c := First(s.slots, s.active, Consumer(connectionId));
        if c.Some? {
          TouchedVoiced(s, Receive(s, connectionId, sequence, from), c.value, p);
        }
      case Message(connectionId) =>
        var c := First(s.slots, s.active, Consumer(connectionId));
        if c.Some? {
          TouchedVoiced(s, Rearm(s, connectionId), c.value, p);
        }
      case EndSession(session) =>
        var c := First(s.slots, s.active, Class3(session));
        if c.Some? {
          CloseVoiced(s, c.value, p);
        }
      case ShutDown =>
    }
  }

  /** No open of the run is accepted onto a master that has timed out, but an owner's. */
  ghost predicate Unmuted(cfg: Config, s: State, steps: seq<Step>, p: nat)
    requires Inv(cfg, s) && ProperSteps(steps)
    decreases steps
  {
    steps == [] ||
    (NextInv(cfg, s, steps[0]);
     && !(steps[0].Open? && Mutes(cfg, s, steps[0].request, p))
     && (!Next(cfg, s, steps[0]).halted ==> Unmuted(cfg, Next(cfg, s, steps[0]).state, steps[1..], p)))
  }

  lemma {:induction false} RunVoiced(cfg: Config, s: State, steps: seq<Step>, p: nat)
    requires Inv(cfg, s) && ProperSteps(steps) && MulticastOnly(steps, p) && Mastered(s, p) && Voiced(s, p) && Unmuted(cfg, s, steps, p)
    ensures Voiced(Run(cfg, s, steps).state, p)
    decreases steps
  {
    if steps != [] {
      NextInv(cfg, s, steps[0]);
      NextMastered(cfg, s, steps[0], p);
      NextVoicedExactly(cfg, s, steps[0], p);
      if !Next(cfg, s, steps[0]).halted {
        RunVoiced(cfg, Next(cfg, s, steps[0]).state, steps[1..], p);
      }
    }
  }

  // ---- Silence ----

  /** Whoever is not the master sends nothing on the input. */
  lemma OthersAreSilent(cfg: Config, s: State, d: nat, elapsed: nat, env: Surroundings, p: nat, h: nat)
    requires Inv(cfg, s) && Uniform(s, p) && Master(s, p) == Some(h) && d < |s.slots| && d != h
    ensures OnInput(Produce(s, d, elapsed, env).1, p) == []
    ensures h in Produce(s, d, elapsed, env).0.active && Produce(s, d, elapsed, env).0.slots[h] == s.slots[h]
  {
    if Produces(s.slots[d]) && s.slots[d].input == p {
      MasterUnique(s, p, d);
    }
  }

  /** A visit sends nothing on an input whose master has timed out, and leaves that master where it is. */
  lemma DumbVisit(cfg: Config, s: State, d: nat, elapsed: nat, env: Surroundings, p: nat)
    requires Inv(cfg, s) && Mastered(s, p) && Dumb(s, p) && d in s.active
    ensures var visit := Service(s, d, elapsed, env);
      Inv(cfg, visit.state) && Mastered(visit.state, p) && Dumb(visit.state, p) && OnInput(visit.sent, p) == []
  {
    ServiceInv(cfg, s, d, elapsed, env);
    ServiceMastered(cfg, s, d, elapsed, env, p);
    var h := Master(s, p).value;
    if s.slots[d].state == Established {
      Pacing.SuperviseElsewhere(cfg, s, d, elapsed, env, p, h);
      OthersAreSilent(cfg, Supervise(s, d, elapsed, env).0, d, elapsed, env, p, h);
      MasterUnique(Service(s, d, elapsed, env).state, p, h);
    }
  }

  lemma {:induction false} DumbWalk(cfg: Config, s: State, c: nat, elapsed: nat, env: Surroundings, p: nat)
    requires Inv(cfg, s) && Mastered(s, p) && Dumb(s, p) && c in s.active
    ensures var end := TickFrom(s, c, elapsed, env); InRange(end.state) && Dumb(end.state, p) && OnInput(end.sent, p) == []
    decreases |After(s.active, c)|
  {
    var visit := Service(s, c, elapsed, env);
    var t := visit.state;
    DumbVisit(cfg, s, c, elapsed, env, p);
    ServiceShrinks(s, c, elapsed, env);
    ShrunkKeepsOrder(s, t);
    if !visit.halted && c in t.active && After(t.active, c) != [] {
      AfterTail(t.active, c);
      var n := After(t.active, c)[0];
      DumbWalk(cfg, t, n, elapsed, env, p);
      OnInputConcat(visit.sent, TickFrom(t, n, elapsed, env).sent, p);
    }
  }

  /** As long as the master of a multicast input has timed out, ticks send nothing on it and change nothing about that. */
  lemma DumbTickIsSilent(cfg: Config, s: State, elapsed: nat, env: Surroundings, p: nat)
    requires Inv(cfg, s) && Mastered(s, p) && Dumb(s, p)
    ensures var end := Tick(s, elapsed, env); InRange(end.state) && Dumb(end.state, p) && OnInput(end.sent, p) == []
  {
    if s.active != [] {
      DumbWalk(cfg, s, s.active[0], elapsed, env, p);
    }
  }

  /** So whoever depends on a master that is not established hears nothing. */
  lemma UnvoicedIsSilent(cfg: Config, s: State, elapsed: nat, env: Surroundings, p: nat)
    requires Inv(cfg, s) && Mastered(s, p) && !Voiced(s, p)
    ensures OnInput(Tick(s, elapsed, env).sent, p) == []
  {
    var h :| h in s.active && Speaks(s.slots[h], p) && s.slots[h].state != Established;
    MasterUnique(s, p, h);
    DumbTickIsSilent(cfg, s, elapsed, env, p);
  }

  // ---- A run from start-up into silence ----

  const OWNER: Step := Open(Timeouts.AskFor(0, Multicast))
  const LONG: Step := Elapse(10000, Surroundings(map[], {}))

  /** The owner of input 9 is listed alone, and holds the socket. */
  ghost predicate Alone(s: State, state: ConnState) {
    && Inv(Timeouts.MIXED, s) && s.active == [0] && |s.slots| == 3 && Timeouts.Up(s.slots[0].(state := Established), 0, ExclusiveOwner, Multicast, 10000)
    && s.slots[0].state == state
  }

  lemma MulticastOwnerOpens(s: State)
    requires Inv(Timeouts.MIXED, s) && s.active == []
    ensures var n := Next(Timeouts.MIXED, s, OWNER); !n.halted && Alone(n.state, Established)
  {
    NextInv(Timeouts.MIXED, s, OWNER);
    assert Timing.Pow2(2) == 4;
    assert Settles(Timeouts.MIXED, s, OWNER.request, 0, ExclusiveOwner);
    OpensInto(Timeouts.MIXED, s, OWNER.request, 0, ExclusiveOwner);
  }

  lemma OwnerTimesOut(s: State)
    requires Alone(s, Established)
    ensures var n := Next(Timeouts.MIXED, s, LONG); !n.halted && Alone(n.state, TimedOut)
  {
    NextInv(Timeouts.MIXED, s, LONG);
    assert ClosingWith(LONG.env, 0) == [];
    var u := Expire(s, 0);
    assert Mates(u, InputOnly, 9) == {} && Mates(u, ListenOnly, 9) == {};
    SettledWalk(u, InputOnly, 9);
    DropAllNone(u);
    assert Fall(u, 0) == (u, false);
    assert After([0], 0) == [];
  }

  lemma InputJoins(s: State)
    requires Alone(s, TimedOut)
    ensures Mutes(Timeouts.MIXED, s, Timeouts.INPUT.request, 9)
  {
    var r := Timeouts.INPUT.request;
    assert FirstUnused([1], Numbers(s)) == Some(1);
    assert PickFrom(Timeouts.MIXED.inputs[0], InputOnly, s, r.triad) == Slot(1, InputOnly, s);
    assert PickShared(Timeouts.MIXED.inputs, InputOnly, s, r, 0, 0) == Slot(1, InputOnly, s);
    assert Mismatch(s.slots, s.active, 9, Timeouts.PLAIN) == 0;
    assert Settles(Timeouts.MIXED, s, r, 1, InputOnly);
    OpensInto(Timeouts.MIXED, s, r, 1, InputOnly);
    MasterUnique(s, 9, 0);
  }

  lemma MutedRun(cfg: Config, s: State, r: Request, p: nat)
    requires Inv(cfg, s) && Mastered(s, p) && Voiced(s, p) && AsksMulticast(r, p) && Parsed(r) && Mutes(cfg, s, r, p)
    ensures ProperSteps([Open(r)]) && !Run(cfg, s, [Open(r)]).halted && !Voiced(Run(cfg, s, [Open(r)]).state, p)
  {
    NextVoicedExactly(cfg, s, Open(r), p);
    RunOn(cfg, s, Open(r), [], Next(cfg, s, Open(r)).state);
  }

  lemma SilentEnd(s: State)
    requires Alone(s, TimedOut) && Mastered(s, 9)
    ensures ProperSteps([Timeouts.INPUT])
    ensures var end := Run(Timeouts.MIXED, s, [Timeouts.INPUT]); !end.halted && !Voiced(end.state, 9)
  {
    InputJoins(s);
    MutedRun(Timeouts.MIXED, s, Timeouts.INPUT.request, 9);
  }

  lemma RunIntoSilence(s: State)
    requires Inv(Timeouts.MIXED, s) && s.active == [] && Mastered(s, 9)
    ensures ProperSteps([OWNER] + ([LONG] + [Timeouts.INPUT]))
    ensures var end := Run(Timeouts.MIXED, s, [OWNER] + ([LONG] + [Timeouts.INPUT])); !end.halted && !Voiced(end.state, 9)
  {
    MulticastOwnerOpens(s);
    var t := Next(Timeouts.MIXED, s, OWNER).state;
    NextMastered(Timeouts.MIXED, s, OWNER, 9);
    OwnerTimesOut(t);
    var u := Next(Timeouts.MIXED, t, LONG).state;
    NextMastered(Timeouts.MIXED, t, LONG, 9);
    SilentEnd(u);
    RunOn(Timeouts.MIXED, t, LONG, [Timeouts.INPUT], u);
    RunOn(Timeouts.MIXED, s, OWNER, [LONG] + [Timeouts.INPUT], t);
  }

  /** The owner times out, and an input-only connection is accepted onto it: it has a master, and hears nothing. */
  lemma SilenceIsReachable(elapsed: nat, env: Surroundings)
    ensures WellFormed(Timeouts.MIXED) && ProperSteps([OWNER, LONG, Timeouts.INPUT]) && MulticastOnly([OWNER, LONG, Timeouts.INPUT], 9)
    ensures var end := Run(Timeouts.MIXED, Initial(Timeouts.MIXED), [OWNER, LONG, Timeouts.INPUT]);
      !end.halted && !Voiced(end.state, 9) && OnInput(Tick(end.state, elapsed, env).sent, 9) == []
  {
    var s, steps := Initial(Timeouts.MIXED), [OWNER, LONG, Timeouts.INPUT];
    assert [OWNER] + ([LONG] + [Timeouts.INPUT]) == steps;
    RunIntoSilence(s);
    RunMastered(Timeouts.MIXED, s, steps, 9);
    UnvoicedIsSilent(Timeouts.MIXED, Run(Timeouts.MIXED, s, steps).state, elapsed, env, 9);
  }
}
