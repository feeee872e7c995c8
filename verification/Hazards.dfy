/** Where the stack goes no further, and when a second exclusive owner gets in: exact conditions and witnesses. */
module Hazards {
  import opened Wrappers
  import opened Sequences
  import opened Connections
  import opened Lifecycle
  import opened Invariants
  import opened Runs
  import Timing
  import Timeouts

  // ---- Exclusive ownership ----

  lemma {:induction false} SharedNeverNull(entries: seq<Entry>, kind: Kind, s: State, r: Request, i: nat, error: nat)
    requires r.path.Path? && InRange(s) && i <= |entries|
    requires forall j :: 0 <= j < |entries| ==> entries[j].base + entries[j].size <= |s.slots|
    ensures !PickShared(entries, kind, s, r, i, error).NullCall?
    decreases |entries| - i
  {
    if i < |entries| {
      SharedNeverNull(entries, kind, s, r, i + 1, error);
      SharedNeverNull(entries, kind, s, r, i + 1, ERROR_PRODUCING_PATH);
      SharedNeverNull(entries, kind, s, r, i + 1, ERROR_COMBINATION);
    }
  }

  /** It names an owner entry, and the owner listed on its input timed out on the same originator. */
  predicate Inherits(cfg: Config, s: State, r: Request)
    requires InRange(s) && r.path.Path?
  {
    var o := First(s.slots, s.active, Owner(r.path.input));
    && FirstEntry(cfg.owners, r.path).Some? && o.Some?
    && s.slots[o.value].state == TimedOut && SameOriginator(r.triad, s.slots[o.value].triad)
  }

  function EntrySlot(cfg: Config, p: PathResult): nat
    requires p.Path? && FirstEntry(cfg.owners, p).Some?
  {
    cfg.owners[FirstEntry(cfg.owners, p).value].base
  }

  /** No open refused late has left its close function in the entry's slot. */
  predicate Unclosable(cfg: Config, s: State, p: PathResult)
    requires p.Path? && FirstEntry(cfg.owners, p).Some?
  {
    EntrySlot(cfg, p) < |s.slots| && !s.slots[EntrySlot(cfg, p)].closable
  }

  /** The entry's slot is not the one of the owner that timed out. */
  predicate Misdirected(cfg: Config, s: State, r: Request)
    requires InRange(s) && r.path.Path?
  {
    Inherits(cfg, s, r) && !TakesOwnSlot(cfg, s, r.path)
  }

  /** The call of a close function that is not set: exactly when the entry's slot is not the timed-out owner's
      and no open refused late has left its close function there. */
  lemma NullCallExactly(cfg: Config, s: State, r: Request)
    requires Inv(cfg, s) && r.path.Path?
    ensures PickIo(cfg, s, r).NullCall? <==>
      Misdirected(cfg, s, r) && Unclosable(cfg, s, r.path)
    ensures PickIo(cfg, s, r).NullCall? && Admitted(s, r, Assembly) ==> ForwardOpen(cfg, s, r) == (s, Fatal)
  {
    SharedNeverNull(cfg.inputs, InputOnly, s, r, 0, 0);
    SharedNeverNull(cfg.listeners, ListenOnly, s, r, 0, 0);
    if Inherits(cfg, s, r) {
      assert AtHome(cfg.homes[First(s.slots, s.active, Owner(r.path.input)).value], s.slots[First(s.slots, s.active, Owner(r.path.input)).value]);
    }
  }

  lemma OwnersAfterOpen(cfg: Config, s: State, r: Request)
    requires Inv(cfg, s) && Owned(s) && Admitted(s, r, Assembly) && ForwardOpen(cfg, s, r).1.Accepted? && !Misdirected(cfg, s, r)
    ensures InRange(ForwardOpen(cfg, s, r).0) && Owned(ForwardOpen(cfg, s, r).0)
  {
    PickIoGood(cfg, s, r);
    var pick := PickIo(cfg, s, r);
    var k := AcceptedAttaches(cfg, s, r);
    AttachAttached(pick.state, pick.id, k, r.socket);
    PickOwned(cfg, s, r);
    if pick.kind == ExclusiveOwner {
      SoleOwner(cfg, s, r);
    }
    AttachedOwned(pick.state, ForwardOpen(cfg, s, r).0, pick.id, k);
  }

  lemma PickOwned(cfg: Config, s: State, r: Request)
    requires Inv(cfg, s) && Owned(s) && r.path.Path? && PickIo(cfg, s, r).Slot? && GoodPick(cfg, s, r, PickIo(cfg, s, r))
    ensures Owned(PickIo(cfg, s, r).state)
  {
    CloseKeepsOthers(s, PickIo(cfg, s, r).id);
  }

  lemma AttachedOwned(s: State, t: State, c: nat, k: Conn)
    requires InRange(s) && Owned(s) && Attached(s, t, c, k) && c !in s.active
    requires k.kind == ExclusiveOwner ==> forall a :: a in s.active && s.slots[a].kind == ExclusiveOwner ==> s.slots[a].input != k.input
    ensures InRange(t) && Owned(t)
  {
  }

  /** Once the timed-out owner's own slot is closed, no owner of the input is left. */
  lemma SoleOwner(cfg: Config, s: State, r: Request)
    requires Inv(cfg, s) && Owned(s) && r.path.Path? && !Misdirected(cfg, s, r)
    requires PickIo(cfg, s, r).Slot? && PickIo(cfg, s, r).kind == ExclusiveOwner
    ensures var t := PickIo(cfg, s, r).state;
      InRange(t) && forall a :: a in t.active && t.slots[a].kind == ExclusiveOwner ==> t.slots[a].input != r.path.input
  {
    PickIsOwners(cfg, s, r);
    var pick := PickIo(cfg, s, r);
    CloseKeepsOthers(s, pick.id);
    var o := First(s.slots, s.active, Owner(r.path.input));
    forall a | a in s.active && s.slots[a].kind == ExclusiveOwner && s.slots[a].input == r.path.input
      ensures o.Some? && a == o.value
    {
      assert Matches(s.slots[a], Owner(r.path.input));
    }
  }

  /** An owner's slot comes from the owner entries. */
  lemma PickIsOwners(cfg: Config, s: State, r: Request)
    requires Fits(cfg, s) && r.path.Path? && PickIo(cfg, s, r).Slot? && PickIo(cfg, s, r).kind == ExclusiveOwner
    ensures PickIo(cfg, s, r) == PickOwner(cfg, s, r)
  {
    PickSharedKind(cfg.inputs, InputOnly, s, r, 0, 0);
    PickSharedKind(cfg.listeners, ListenOnly, s, r, 0, 0);
  }

  lemma {:induction false} PickSharedKind(entries: seq<Entry>, kind: Kind, s: State, r: Request, i: nat, error: nat)
    requires r.path.Path? && InRange(s) && i <= |entries|
    requires forall j :: 0 <= j < |entries| ==> entries[j].base + entries[j].size <= |s.slots|
    ensures var p := PickShared(entries, kind, s, r, i, error); p.Slot? ==> p.kind == kind
    decreases |entries| - i
  {
    if i < |entries| {
      PickSharedKind(entries, kind, s, r, i + 1, error);
      PickSharedKind(entries, kind, s, r, i + 1, ERROR_PRODUCING_PATH);
      PickSharedKind(entries, kind, s, r, i + 1, ERROR_COMBINATION);
    }
  }

  /** A misdirected open that is accepted leaves the timed-out owner listed beside the new one. */
  lemma SecondOwner(cfg: Config, s: State, r: Request)
    requires Inv(cfg, s) && Admitted(s, r, Assembly) && ForwardOpen(cfg, s, r).1.Accepted? && Misdirected(cfg, s, r)
    ensures InRange(ForwardOpen(cfg, s, r).0) && !Owned(ForwardOpen(cfg, s, r).0)
  {
    PickIoGood(cfg, s, r);
    var pick, t, o := PickIo(cfg, s, r), ForwardOpen(cfg, s, r).0, First(s.slots, s.active, Owner(r.path.input)).value;
    var k := AcceptedAttaches(cfg, s, r);
    AttachAttached(pick.state, pick.id, k, r.socket);
    assert pick == PickOwner(cfg, s, r);
    CloseKeepsAnother(s, pick.id, o);
    assert pick.id in t.active && o in t.active && t.slots[o].kind == ExclusiveOwner && t.slots[o].input == r.path.input;
  }

  /** A close takes no owner along but the one closed. */
  lemma CloseKeepsAnother(s: State, c: nat, o: nat)
    requires InRange(s) && c < |s.slots| && o in s.active && o != c && s.slots[o].kind == ExclusiveOwner
    ensures o in Close(s, c).active && Close(s, c).slots[o].kind == ExclusiveOwner && Close(s, c).slots[o].input == s.slots[o].input
  {
  }

  /** What becomes of exclusive ownership in an open that is admitted: where the slot of the entry is the timed-out
      owner's, or there is no such owner, it stays exclusive; where it is another slot, the stack goes no further
      unless that slot carries a close function, and then an accepted open makes a second owner. */
  lemma OwnershipExactly(cfg: Config, s: State, r: Request)
    requires Inv(cfg, s) && Owned(s) && Admitted(s, r, Assembly)
    ensures var (t, reply) := ForwardOpen(cfg, s, r);
      && InRange(t)
      && (reply.Accepted? ==> (Owned(t) <==> !Misdirected(cfg, s, r)))
      && (Misdirected(cfg, s, r) && Unclosable(cfg, s, r.path) ==> reply.Fatal? && t == s)
      && (reply.Accepted? && Misdirected(cfg, s, r) ==> EntrySlot(cfg, r.path) < |s.slots| && s.slots[EntrySlot(cfg, r.path)].closable)
  {
    NullCallExactly(cfg, s, r);
    PickIoGood(cfg, s, r);
    PickInRange(cfg, s, r);
    if ForwardOpen(cfg, s, r).1.Accepted? {
      if Misdirected(cfg, s, r) {
        SecondOwner(cfg, s, r);
      } else {
        OwnersAfterOpen(cfg, s, r);
      }
    } else {
      OpenInRange(cfg, s, r);
    }
  }

  lemma OpenInRange(cfg: Config, s: State, r: Request)
    requires Inv(cfg, s) && r.path.Path? && r.path.target == Assembly && !ForwardOpen(cfg, s, r).1.Accepted?
    ensures InRange(ForwardOpen(cfg, s, r).0)
  {
    PickIoGood(cfg, s, r);
    var k := RefusedWrites(cfg, s, r);
  }

  // ---- Opens ----

  /** The list has no more members than the pool has nodes. */
  ghost predicate WithinPool(cfg: Config, s: State) {
    |s.active| <= NodePoolSize(cfg)
  }

  /** Nothing refuses the request once a slot is chosen for it. */
  predicate Unrefused(s: State, r: Request)
    requires r.path.Path? && InRange(s)
  {
    Inhibit(r.production).Some? && SetupError(s, r, Inhibit(r.production).value) == 0 && r.channelsOpen
  }

  /** All nodes are on the list, and the slot chosen needs another. */
  ghost predicate Overflows(cfg: Config, s: State, r: Request)
    requires r.path.Path? && Fits(cfg, s)
  {
    var pick := PickIo(cfg, s, r);
    |s.active| == NodePoolSize(cfg) && pick.Slot? && pick.id !in s.active && Unrefused(s, r)
  }

  /** Only listed connections refuse. */
  lemma SameListRefuses(s: State, t: State, r: Request)
    requires r.path.Path? && InRange(s) && t.active == s.active && |t.slots| == |s.slots| && forall a :: a in s.active ==> t.slots[a] == s.slots[a]
    ensures Unrefused(t, r) <==> Unrefused(s, r)
  {
    if Inhibit(r.production).Some? {
      var p := Inhibit(r.production).value;
      assert Mismatch(s.slots, s.active, r.path.input, p) == 0 <==> Mismatch(t.slots, t.active, r.path.input, p) == 0;
    }
  }

  /** A slot that was not listed is taken as it is; one that was listed gives a node back. */
  lemma PickedNodes(cfg: Config, s: State, r: Request)
    requires Inv(cfg, s) && r.path.Path? && PickIo(cfg, s, r).Slot?
    ensures var pick := PickIo(cfg, s, r);
      && InRange(pick.state)
      && (pick.id !in s.active ==> pick.state.active == s.active && (Unrefused(pick.state, r) <==> Unrefused(s, r)))
      && (pick.id in s.active ==> |pick.state.active| < |s.active|)
  {
    PickIoGood(cfg, s, r);
    var pick := PickIo(cfg, s, r);
    if pick.id in s.active {
      CloseRemoves(s, pick.id);
    } else {
      WithoutNone(s.active, {pick.id});
      SameListRefuses(s, pick.state, r);
    }
  }

  lemma IoFatalExactly(cfg: Config, s: State, r: Request)
    requires Inv(cfg, s) && WithinPool(cfg, s) && Admitted(s, r, Assembly)
    ensures ForwardOpen(cfg, s, r).1.Fatal? <==> (Misdirected(cfg, s, r) && Unclosable(cfg, s, r.path)) || Overflows(cfg, s, r)
  {
    NullCallExactly(cfg, s, r);
    PickInRange(cfg, s, r);
    if PickIo(cfg, s, r).Slot? {
      PickedNodes(cfg, s, r);
    }
  }

  /** The request is admitted, and either it is an I/O request misdirected to a slot that has no close function, or all
      nodes are on the list and a slot is there that needs another. */
  ghost predicate Dooms(cfg: Config, s: State, r: Request)
    requires Fits(cfg, s)
  {
    || (Admitted(s, r, Assembly) && ((Misdirected(cfg, s, r) && Unclosable(cfg, s, r.path)) || Overflows(cfg, s, r)))
    || (Admitted(s, r, MessageRouter) && |s.active| == NodePoolSize(cfg) &&
        exists c :: cfg.explicits.base <= c < cfg.explicits.base + cfg.explicits.size && s.slots[c].state == NonExistent)
  }

  lemma OpenFatalExactly(cfg: Config, s: State, r: Request)
    requires Inv(cfg, s) && WithinPool(cfg, s)
    ensures ForwardOpen(cfg, s, r).1.Fatal? <==> Dooms(cfg, s, r)
  {
    if Admitted(s, r, Assembly) {
      IoFatalExactly(cfg, s, r);
    }
  }

  /** The list never outgrows the pool. */
  lemma NextWithinPool(cfg: Config, s: State, step: Step)
    requires Inv(cfg, s) && WithinPool(cfg, s)
    ensures WithinPool(cfg, Next(cfg, s, step).state)
  {
    match step {
      case Open(request) => OpenWithinPool(cfg, s, request);
      case Shut(triad, from) =>
      case Elapse(elapsed, env) =>
        if s.active != [] {
          TickShorter(s, s.active[0], elapsed, env);
        }
      case Arrive(connectionId, sequence, from) =>
      case Message(connectionId) =>
      case EndSession(session) =>
      case ShutDown =>
    }
  }

  lemma OpenWithinPool(cfg: Config, s: State, r: Request)
    requires Inv(cfg, s) && WithinPool(cfg, s)
    ensures WithinPool(cfg, ForwardOpen(cfg, s, r).0)
  {
    if r.path.Path? && r.path.target == Assembly {
      PickInRange(cfg, s, r);
      if PickIo(cfg, s, r).Slot? {
        PickedNodes(cfg, s, r);
      }
    }
  }

  lemma {:induction false} TickShorter(s: State, c: nat, elapsed: nat, env: Surroundings)
    requires InRange(s) && Distinct(s.active) && c in s.active
    ensures |TickFrom(s, c, elapsed, env).state.active| <= |s.active|
    decreases |After(s.active, c)|
  {
    var visit := Service(s, c, elapsed, env);
    ServiceShrinks(s, c, elapsed, env);
    ShrunkKeepsOrder(s, visit.state);
    if !visit.halted && c in visit.state.active && After(visit.state.active, c) != [] {
      AfterTail(visit.state.active, c);
      TickShorter(visit.state, After(visit.state.active, c)[0], elapsed, env);
    }
  }

  lemma {:induction false} RunWithinPool(cfg: Config, s: State, steps: seq<Step>)
    requires Inv(cfg, s) && ProperSteps(steps) && WithinPool(cfg, s)
    ensures WithinPool(cfg, Run(cfg, s, steps).state)
    decreases steps
  {
    if steps != [] {
      NextInv(cfg, s, steps[0]);
      NextWithinPool(cfg, s, steps[0]);
      if !Next(cfg, s, steps[0]).halted {
        RunWithinPool(cfg, Next(cfg, s, steps[0]).state, steps[1..]);
      }
    }
  }

  // ---- Where a run ends early ----

  /** No number drawn for an open is unused, an open is fatal, or the walk of a tick comes to an owner whose watchdog
      fires and who is trapped. */
  ghost predicate Halts(cfg: Config, s: State, step: Step)
    requires Fits(cfg, s) && Distinct(s.active)
  {
    match step
    case Open(r) => FirstUnused(r.draws, Numbers(s)).None? || Dooms(cfg, s, r)
    case Elapse(elapsed, env) => s.active != [] && s.active[0] in s.active && Timeouts.ComesToTrap(cfg, s, s.active[0], elapsed, env)
    case _ => false
  }

  lemma HaltsExactly(cfg: Config, s: State, step: Step)
    requires Inv(cfg, s) && WithinPool(cfg, s)
    ensures Next(cfg, s, step).halted <==> Halts(cfg, s, step)
  {
    match step {
      case Open(r) => OpenFatalExactly(cfg, s, r);
      case Elapse(elapsed, env) => Timeouts.TickFatalExactly(cfg, s, elapsed, env);
      case Shut(_, _) =>
      case Arrive(_, _, _) =>
      case Message(_) =>
      case EndSession(_) =>
      case ShutDown =>
    }
  }

  /** The run gets as far as step `i`, and no further. */
  ghost predicate HaltsAt(cfg: Config, s: State, steps: seq<Step>, i: nat)
    requires Inv(cfg, s) && ProperSteps(steps)
  {
    && i < |steps| && !Run(cfg, s, steps[..i]).halted
    && Halts(cfg, Run(cfg, s, steps[..i]).state, steps[i])
  }

  lemma HaltsLater(cfg: Config, s: State, steps: seq<Step>, t: State, i: nat)
    requires Inv(cfg, s) && ProperSteps(steps) && steps != [] && i < |steps| - 1
    requires Next(cfg, s, steps[0]).state == t && !Next(cfg, s, steps[0]).halted
    ensures Inv(cfg, t) && (HaltsAt(cfg, t, steps[1..], i) <==> HaltsAt(cfg, s, steps, i + 1))
  {
    RunOn(cfg, s, steps[0], steps[1..][..i], t);
    assert [steps[0]] + steps[1..][..i] == steps[..i + 1];
  }

  /** A run ends early if and only if it comes to such a step. */
  lemma {:induction false} RunHaltsExactly(cfg: Config, s: State, steps: seq<Step>)
    requires Inv(cfg, s) && ProperSteps(steps) && WithinPool(cfg, s)
    ensures Run(cfg, s, steps).halted <==> exists i: nat :: HaltsAt(cfg, s, steps, i)
    decreases steps
  {
    if steps != [] {
      var t := Next(cfg, s, steps[0]).state;
      HaltsExactly(cfg, s, steps[0]);
      NextInv(cfg, s, steps[0]);
      NextWithinPool(cfg, s, steps[0]);
      assert steps[..0] == [];
      if Next(cfg, s, steps[0]).halted {
        assert HaltsAt(cfg, s, steps, 0);
      } else {
        RunHaltsExactly(cfg, t, steps[1..]);
        forall i: nat | i < |steps| - 1
          ensures HaltsAt(cfg, t, steps[1..], i) <==> HaltsAt(cfg, s, steps, i + 1)
        {
          HaltsLater(cfg, s, steps, t, i);
        }
        if i: nat :| HaltsAt(cfg, s, steps, i) {
          assert HaltsAt(cfg, t, steps[1..], i - 1);
        }
      }
    }
  }

  // ---- Configurations in which opens are safe ----

  /** With a list node per slot, and owner entries that do not share inputs, no open is fatal. */
  lemma OpensAreSafe(cfg: Config, s: State, r: Request)
    requires Inv(cfg, s) && |cfg.homes| <= NodePoolSize(cfg) && OwnerInputsDistinct(cfg)
    ensures !ForwardOpen(cfg, s, r).1.Fatal?
  {
    if r.path.Path? && r.path.target == Assembly {
      PickIoGood(cfg, s, r);
      OwnSlotIsClosable(cfg, s, r);
      var pick := PickIo(cfg, s, r);
      if pick.Slot? {
        PoolSuffices(cfg, pick.state, pick.id);
      }
    } else if r.path.Path? && r.path.target == MessageRouter {
      var c := Free(s.slots, cfg.explicits.base, cfg.explicits.base + cfg.explicits.size);
      if c.Some? {
        PoolSuffices(cfg, s, c.value);
      }
    }
  }

  lemma OwnSlotIsClosable(cfg: Config, s: State, r: Request)
    requires Inv(cfg, s) && OwnerInputsDistinct(cfg) && r.path.Path?
    ensures !PickIo(cfg, s, r).NullCall?
  {
    DistinctTakesOwnSlot(cfg, s, r.path);
    SharedNeverNull(cfg.inputs, InputOnly, s, r, 0, 0);
    SharedNeverNull(cfg.listeners, ListenOnly, s, r, 0, 0);
  }

  /** One node per slot is enough: a slot picked for an open is not listed, so a node is free for it. */
  lemma PoolSuffices(cfg: Config, s: State, c: nat)
    requires Inv(cfg, s) && |cfg.homes| <= NodePoolSize(cfg) && c < |s.slots| && c !in s.active
    ensures |s.active| < NodePoolSize(cfg)
  {
    DistinctBound(s.active + [c], |s.slots|);
  }

  // ---- Witnesses ----

  /** Two owner entries that share input 9. */
  const SHARED: Config := Config(
    [Entry(1, 9, 5, 0, 1), Entry(2, 9, 6, 1, 1)], [], [], Entry(0, 0, 0, 2, 0),
    [Home(ExclusiveOwner, 1, 9, 5), Home(ExclusiveOwner, 2, 9, 6)])

  /** A request of originator 7 for one of the entries, refused by the configuration check unless that says 0. */
  function Ask(output: nat, config: nat, serial: nat, number: nat, configStatus: nat): Request {
    Request(Triad(serial, 7, 7), [number], PointToPoint, NullType, true, true, Path(Assembly, output, 9, config),
            0, 0, Production(0, false, 0, 1, 0, 0), true, 1000, 0, 0, 0, 0, 0, 0, 0, configStatus, true, 4, 0)
  }

  const OPEN_A: Step := Open(Ask(1, 5, 1, 1, 0))
  const REFUSED_B: Step := Open(Ask(2, 6, 2, 2, 1))
  const OPEN_B: Step := Open(Ask(2, 6, 3, 3, 0))
  const LONG: Step := Elapse(10000, Surroundings(map[], {}))

  /** Both slots as far as the witnesses need them. */
  ghost predicate Shared(s: State, active: seq<nat>, first: ConnState, closable: bool) {
    && Inv(SHARED, s) && s.active == active && |s.slots| == 2
    && s.slots[0].state == first && (active != [] ==> s.slots[0].kind == ExclusiveOwner && s.slots[0].input == 9)
    && (active == [0] ==> s.slots[0].triad == Triad(1, 7, 7) && s.slots[0].number == 1)
    && s.slots[1].state == NonExistent && s.slots[1].closable == closable
  }

  lemma EntriesFound()
    ensures WellFormed(SHARED) && NodePoolSize(SHARED) == 2
    ensures FirstEntry(SHARED.owners, Path(Assembly, 1, 9, 5)) == Some(0)
    ensures FirstEntry(SHARED.owners, Path(Assembly, 2, 9, 6)) == Some(1)
  {
    assert SHARED.owners[1..] == [Entry(2, 9, 6, 1, 1)];
  }

  lemma RefusedB(s: State)
    requires Shared(s, [], NonExistent, false)
    ensures var n := Next(SHARED, s, REFUSED_B); !n.halted && Shared(n.state, [], NonExistent, true)
  {
    EntriesFound();
    NextInv(SHARED, s, REFUSED_B);
  }

  lemma OpenA(s: State, closable: bool)
    requires Shared(s, [], NonExistent, closable)
    ensures var n := Next(SHARED, s, OPEN_A); !n.halted && Shared(n.state, [0], Established, closable)
    ensures var k := Next(SHARED, s, OPEN_A).state.slots[0]; k.supervised && k.watchdog == 10000 && k.producing == INVALID_SOCKET
  {
    EntriesFound();
    NextInv(SHARED, s, OPEN_A);
    assert Timing.Pow2(2) == 4;
  }

  lemma Long(s: State, closable: bool)
    requires Shared(s, [0], Established, closable)
    requires s.slots[0].supervised && s.slots[0].watchdog == 10000 && s.slots[0].producing == INVALID_SOCKET
    ensures var n := Next(SHARED, s, LONG); !n.halted && Shared(n.state, [0], TimedOut, closable)
  {
    NextInv(SHARED, s, LONG);
    assert ClosingWith(LONG.env, 0) == [];
    var u := Expire(s, 0);
    assert Mates(u, InputOnly, 9) == {} && Mates(u, ListenOnly, 9) == {};
    SettledWalk(u, InputOnly, 9);
    DropAllNone(u);
    assert Fall(u, 0) == (u, false);
    assert After([0], 0) == [];
  }

  lemma OpenBShared(s: State, closable: bool)
    requires Shared(s, [0], TimedOut, closable)
    ensures Admitted(s, OPEN_B.request, Assembly) && Misdirected(SHARED, s, OPEN_B.request) && EntrySlot(SHARED, OPEN_B.request.path) == 1
    ensures closable ==> ForwardOpen(SHARED, s, OPEN_B.request).1.Accepted?
  {
    EntriesFound();
    var r := OPEN_B.request;
    assert FirstUnused(r.draws, Numbers(s)) == Some(3);
    assert Matches(s.slots[0], Owner(9)) && First(s.slots, s.active, Owner(9)) == Some(0);
    if closable {
      assert PickOwner(SHARED, s, r) == Slot(1, ExclusiveOwner, Close(s, 1));
      assert |Close(s, 1).active| <= 1;
    }
  }

  lemma LastLeg(s: State, closable: bool)
    requires Shared(s, [0], TimedOut, closable)
    ensures ProperSteps([OPEN_B])
    ensures var end := Run(SHARED, s, [OPEN_B]); if closable then !end.halted && !Owned(end.state) else end.halted
  {
    OpenBShared(s, closable);
    if closable {
      SecondOwner(SHARED, s, OPEN_B.request);
      RunOn(SHARED, s, OPEN_B, [], Next(SHARED, s, OPEN_B).state);
    } else {
      NullCallExactly(SHARED, s, OPEN_B.request);
    }
  }

  /** A opened, timed out, and asked for again as B: the end of both witnesses. */
  lemma Relay(s: State, closable: bool)
    requires Shared(s, [], NonExistent, closable)
    ensures ProperSteps([OPEN_A, LONG, OPEN_B])
    ensures var end := Run(SHARED, s, [OPEN_A, LONG, OPEN_B]); if closable then !end.halted && !Owned(end.state) else end.halted
  {
    OpenA(s, closable);
    var s1 := Next(SHARED, s, OPEN_A).state;
    Long(s1, closable);
    var s2 := Next(SHARED, s1, LONG).state;
    RunOn(SHARED, s1, LONG, [OPEN_B], s2);
    RunOn(SHARED, s, OPEN_A, [LONG] + [OPEN_B], s1);
    assert [OPEN_A] + ([LONG] + [OPEN_B]) == [OPEN_A, LONG, OPEN_B];
    LastLeg(s2, closable);
  }

  /** A run from start-up in which a call goes through a close function that is not set. */
  lemma FatalIsReachable()
    ensures WellFormed(SHARED) && ProperSteps([OPEN_A, LONG, OPEN_B]) && Run(SHARED, Initial(SHARED), [OPEN_A, LONG, OPEN_B]).halted
  {
    EntriesFound();
    Relay(Initial(SHARED), false);
  }

  /** And one, after a late refusal has left the close function, that ends with two exclusive owners on one input. */
  lemma TwoOwnersAreReachable()
    ensures WellFormed(SHARED) && ProperSteps([REFUSED_B, OPEN_A, LONG, OPEN_B])
    ensures var end := Run(SHARED, Initial(SHARED), [REFUSED_B, OPEN_A, LONG, OPEN_B]); !end.halted && !Owned(end.state)
  {
    EntriesFound();
    var s := Initial(SHARED);
    RefusedB(s);
    Relay(Next(SHARED, s, REFUSED_B).state, true);
    RunOn(SHARED, s, REFUSED_B, [OPEN_A, LONG, OPEN_B], Next(SHARED, s, REFUSED_B).state);
    assert [REFUSED_B] + [OPEN_A, LONG, OPEN_B] == [REFUSED_B, OPEN_A, LONG, OPEN_B];
  }

  // ---- The pool runs out at the sizes of the sample application ----

  /** Six explicit slots, three input-only, one owner and three listen-only slots; but nine list nodes. */
  const SAMPLE: Config := Config(
    [Entry(150, 100, 151, 9, 1)], [Entry(152, 100, 151, 6, 3)], [Entry(153, 100, 151, 10, 3)], Entry(0, 0, 0, 0, 6),
    [EXPLICIT, EXPLICIT, EXPLICIT, EXPLICIT, EXPLICIT, EXPLICIT, SHARING, SHARING, SHARING,
     Home(ExclusiveOwner, 150, 100, 151), LISTENING, LISTENING, LISTENING])

  const EXPLICIT: Home := Home(Explicit, 0, 0, 0)
  const SHARING: Home := Home(InputOnly, 152, 100, 151)
  const LISTENING: Home := Home(ListenOnly, 153, 100, 151)

  /** The `n`th request: explicit, then input-only, then the owner. */
  function Nth(n: nat): Request {
    Request(Triad(n, 7, 7), [n], PointToPoint, NullType, true, true,
            Path(if n < 6 then MessageRouter else Assembly, if n < 9 then 152 else 150, 100, 151),
            0, 0, Production(0, false, 0, 1, 0, 0), true, 1000, 0, 0, 0, 0, 0, 0, 0, 0, true, 4, 0)
  }

  /** From the `n`th request on, up to and including the owner's. */
  function Program(n: nat): (steps: seq<Step>)
    requires n <= 9
    ensures ProperSteps(steps)
    decreases 9 - n
  {
    [Open(Nth(n))] + if n == 9 then [] else Program(n + 1)
  }

  /** The first `n` slots are in use, each by its request. */
  ghost predicate Filled(s: State, n: nat) {
    && Inv(SAMPLE, s) && |s.slots| == 13 && |s.active| == n <= 9
    && (forall c :: n <= c < 13 ==> s.slots[c].state == NonExistent)
    && (forall c :: 0 <= c < n ==> s.slots[c].state == Established && s.slots[c].number == c && s.slots[c].triad == Triad(c, 7, 7))
  }

  lemma SampleSizes()
    ensures WellFormed(SAMPLE) && OwnerInputsDistinct(SAMPLE) && NodePoolSize(SAMPLE) == 9 && |SAMPLE.homes| == 13
  {
  }

  lemma {:induction false} FreeAt(slots: seq<Conn>, c: nat, end: nat, n: nat)
    requires c <= n < end <= |slots| && slots[n].state == NonExistent && forall i :: c <= i < n ==> slots[i].state != NonExistent
    ensures Free(slots, c, end) == Some(n)
    decreases n - c
  {
    if c < n {
      FreeAt(slots, c + 1, end, n);
    }
  }

  lemma NthAdmitted(s: State, n: nat)
    requires Filled(s, n)
    ensures Admitted(s, Nth(n), if n < 6 then MessageRouter else Assembly) && FirstUnused([n], Numbers(s)) == Some(n)
  {
    assert forall a :: a in s.active ==> a < n && s.slots[a].number != n && s.slots[a].triad != Triad(n, 7, 7);
    assert n !in Numbers(s);
  }

  lemma ExplicitOpens(s: State, n: nat)
    requires Filled(s, n) && n < 6
    ensures var k := ExplicitConn(Nth(n), n); ForwardOpen(SAMPLE, s, Nth(n)) == (State(s.slots[n := k], [n] + s.active), Accepted(n))
  {
    SampleSizes();
    NthAdmitted(s, n);
    FreeAt(s.slots, 0, 6, n);
    ExplicitOpensInto(SAMPLE, s, Nth(n), n);
  }

  lemma ExplicitFills(s: State, n: nat)
    requires Filled(s, n) && n < 6
    ensures var next := Next(SAMPLE, s, Open(Nth(n))); !next.halted && Filled(next.state, n + 1)
  {
    NextInv(SAMPLE, s, Open(Nth(n)));
    ExplicitOpens(s, n);
  }

  lemma SharedSettles(s: State, n: nat)
    requires Filled(s, n) && 6 <= n < 9
    ensures Settles(SAMPLE, s, Nth(n), n, InputOnly) && FirstUnused([n], Numbers(s)) == Some(n)
  {
    SampleSizes();
    NthAdmitted(s, n);
    FreeAt(s.slots, 6, 9, n);
    var e := SAMPLE.inputs[0];
    assert Stale(s.slots, 6, 9, Nth(n).triad).None?;
    assert PickFrom(e, InputOnly, s, Nth(n).triad) == Slot(n, InputOnly, s);
    assert PickShared(SAMPLE.inputs, InputOnly, s, Nth(n), 0, 0) == Slot(n, InputOnly, s);
  }

  lemma InputFills(s: State, n: nat)
    requires Filled(s, n) && 6 <= n < 9
    ensures var next := Next(SAMPLE, s, Open(Nth(n))); !next.halted && Filled(next.state, n + 1)
  {
    SampleSizes();
    NextInv(SAMPLE, s, Open(Nth(n)));
    SharedSettles(s, n);
    OpensInto(SAMPLE, s, Nth(n), n, InputOnly);
  }

  /** With nine connections listed the owner gets its slot, but no node. */
  lemma OwnerOverflows(s: State)
    requires Filled(s, 9)
    ensures Next(SAMPLE, s, Open(Nth(9))).halted
  {
    SampleSizes();
    NthAdmitted(s, 9);
    NoOwnerListed(s);
    OpenFatalExactly(SAMPLE, s, Nth(9));
  }

  lemma NoOwnerListed(s: State)
    requires Filled(s, 9)
    ensures PickIo(SAMPLE, s, Nth(9)) == Slot(9, ExclusiveOwner, s)
  {
    assert forall c :: c in s.active ==> c < 9 && AtHome(SAMPLE.homes[c], s.slots[c]) && s.slots[c].kind != ExclusiveOwner;
  }

  lemma {:induction false} RunsOut(s: State, n: nat)
    requires Filled(s, n)
    ensures Run(SAMPLE, s, Program(n)).halted
    decreases 9 - n
  {
    if n == 9 {
      OwnerOverflows(s);
    } else {
      if n < 6 {
        ExplicitFills(s, n);
      } else {
        InputFills(s, n);
      }
      var t := Next(SAMPLE, s, Open(Nth(n))).state;
      RunsOut(t, n + 1);
      RunOn(SAMPLE, s, Open(Nth(n)), Program(n + 1), t);
    }
  }

  /** Six explicit and three input-only connections, and the exclusive owner finds no node. */
  lemma ExhaustionIsReachable()
    ensures WellFormed(SAMPLE) && Run(SAMPLE, Initial(SAMPLE), Program(0)).halted
  {
    SampleSizes();
    RunsOut(Initial(SAMPLE), 0);
  }
}
