/** Whom a packet or a connected explicit message reaches, and what it changes. */
module Arrivals {
  import opened Wrappers
  import opened Connections
  import opened Lifecycle
  import opened Invariants
  import opened Runs
  import opened Departures
  import opened Opens
  import Timing
  import Words

  /** The established connections that consume under this ID. */
  ghost function Consuming(s: State, id: nat): set<nat>
    requires InRange(s)
  {
    set a | a in s.active && s.slots[a].state == Established && s.slots[a].consumedId == id
  }

  /** The first number, or one that is 1 to 2^31 - 1 ahead of the last. */
  predicate InWindow(k: Conn, sequence: nat) {
    !k.sequenceReceived || 1 <= (sequence - k.consumedSequence) % Words.WORD32 <= 0x7FFF_FFFF
  }

  function Heard(k: Conn, sequence: nat): Conn {
    k.(watchdog := Timing.WatchdogValue(k.oToTInterval, k.multiplier), consumedSequence := sequence, sequenceReceived := true)
  }

  lemma AcceptExactly(k: Conn, sequence: nat)
    ensures Accept(k, sequence) == if InWindow(k, sequence) then Heard(k, sequence) else k
  {
  }

  /** A packet with an ID nobody consumes changes nothing; any other concerns the first that consumes it, and re-arms that
      exactly if it comes from its originator with a number in the window. */
  lemma ReceiveExactly(cfg: Config, s: State, id: nat, sequence: nat, from: nat)
    requires Inv(cfg, s)
    ensures var t := Receive(s, id, sequence, from);
      && Next(cfg, s, Arrive(id, sequence, from)) == Progress(t, [], false)
      && (Consuming(s, id) == {} ==> t == s)
      && forall c: nat :: FirstOf(s.active, Consuming(s, id), c) && c < |s.slots| ==>
           t == if s.slots[c].address == from && InWindow(s.slots[c], sequence) then s.(slots := s.slots[c := Heard(s.slots[c], sequence)]) else s
  {
    ScanIsFirst(s.slots, s.active, Consumer(id), Consuming(s, id));
    var c := First(s.slots, s.active, Consumer(id));
    if c.Some? {
      AcceptExactly(s.slots[c.value], sequence);
      assert s.slots[c.value := s.slots[c.value]] == s.slots;
    }
  }

  /** A connected explicit message re-arms the first that consumes its ID, and changes nothing else. */
  lemma MessageExactly(cfg: Config, s: State, id: nat)
    requires Inv(cfg, s)
    ensures var t := Rearm(s, id);
      && Next(cfg, s, Message(id)) == Progress(t, [], false)
      && (Consuming(s, id) == {} ==> t == s)
      && forall c: nat :: FirstOf(s.active, Consuming(s, id), c) && c < |s.slots| ==>
           t == s.(slots := s.slots[c := s.slots[c].(watchdog := Timing.WatchdogValue(s.slots[c].oToTInterval, s.slots[c].multiplier))])
  {
    ScanIsFirst(s.slots, s.active, Consumer(id), Consuming(s, id));
  }

  /** The ID under which the target consumes: its own choice if it is the only consumer, the originator's otherwise. */
  function ConsumedUnder(r: Request): nat {
    if r.oToT == PointToPoint then r.newConsumedId else r.consumedId
  }

  /** The first packet for a new connection, from its originator, re-arms it and touches nobody else, whoever else consumes
      that ID; from any other address it changes nothing. A message does likewise. */
  lemma NewConnectionHears(cfg: Config, s: State, r: Request, sequence: nat, from: nat)
    requires Inv(cfg, s) && Parsed(r) && r.path.Path? && r.path.target != OtherClass && ForwardOpen(cfg, s, r).1.Accepted?
    ensures var (t, reply) := ForwardOpen(cfg, s, r);
      && InRange(t) && reply.slot < |t.slots|
      && var k := t.slots[reply.slot];
      && k.consumedId == ConsumedUnder(r) && k.address == r.address && k.state == Established
      && k.oToTInterval == r.oToTInterval && k.multiplier == r.multiplier && !k.sequenceReceived
      && Receive(t, ConsumedUnder(r), sequence, from) ==
           (if from == r.address then t.(slots := t.slots[reply.slot := Heard(k, sequence)]) else t)
      && Rearm(t, ConsumedUnder(r)) ==
           t.(slots := t.slots[reply.slot := k.(watchdog := Timing.WatchdogValue(r.oToTInterval, r.multiplier))])
  {
    var (t, reply) := ForwardOpen(cfg, s, r);
    ForwardOpenInv(cfg, s, r);
    NewConnection(cfg, s, r);
    var c := reply.slot;
    assert FirstOf(t.active, Consuming(t, ConsumedUnder(r)), c) by {
      assert t.active[0] == c && c in Consuming(t, ConsumedUnder(r));
    }
    ReceiveExactly(cfg, t, ConsumedUnder(r), sequence, from);
    MessageExactly(cfg, t, ConsumedUnder(r));
  }

  /** Who is first on the list after an accepted open. */
  lemma NewConnection(cfg: Config, s: State, r: Request)
    requires Inv(cfg, s) && r.path.Path? && r.path.target != OtherClass && ForwardOpen(cfg, s, r).1.Accepted?
    ensures var (t, reply) := ForwardOpen(cfg, s, r);
      && InRange(t) && reply.slot < |t.slots| && t.active != [] && t.active[0] == reply.slot
      && var k := t.slots[reply.slot];
      && k.consumedId == ConsumedUnder(r) && k.address == r.address && k.state == Established
      && k.oToTInterval == r.oToTInterval && k.multiplier == r.multiplier && !k.sequenceReceived
  {
    if r.path.target == Assembly {
      AcceptedExactly(cfg, s, r);
    } else {
      AcceptedExplicitExactly(cfg, s, r);
    }
  }
}
