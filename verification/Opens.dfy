/** What a Forward Open answers, and what it leaves behind: the slot chosen, the refusals, and the new connection. */
module Opens {
  import opened Wrappers
  import opened Sequences
  import opened Connections
  import opened Lifecycle
  import opened Invariants
  import opened Runs
  import opened Departures
  import Words
  import Timing

  // ---- Which entry, which slot ----

  predicate Names(e: Entry, r: Request)
    requires r.path.Path?
  {
    e.output == r.path.output && e.input == r.path.input && e.config == r.path.config
  }

  /** The first entry that the path names. */
  ghost predicate FirstNamed(entries: seq<Entry>, r: Request, i: nat)
    requires r.path.Path?
  {
    i < |entries| && Names(entries[i], r) && forall j :: 0 <= j < i ==> !Names(entries[j], r)
  }

  ghost predicate NoneNamed(entries: seq<Entry>, r: Request)
    requires r.path.Path?
  {
    forall j :: 0 <= j < |entries| ==> !Names(entries[j], r)
  }

  /** Timed out on the originator that asks. */
  predicate StaleFor(k: Conn, t: Triad) {
    k.state == TimedOut && k.triad.vendor == t.vendor && k.triad.originator == t.originator
  }

  ghost predicate LowestStale(s: State, e: Entry, t: Triad, c: nat) {
    && e.base <= c < e.base + e.size <= |s.slots| && StaleFor(s.slots[c], t)
    && forall d :: e.base <= d < c ==> !StaleFor(s.slots[d], t)
  }

  ghost predicate NoneStale(s: State, e: Entry, t: Triad) {
    forall d :: e.base <= d < e.base + e.size && d < |s.slots| ==> !StaleFor(s.slots[d], t)
  }

  ghost predicate LowestFree(s: State, e: Entry, c: nat) {
    && e.base <= c < e.base + e.size <= |s.slots| && s.slots[c].state == NonExistent
    && forall d :: e.base <= d < c ==> s.slots[d].state != NonExistent
  }

  ghost predicate NoneFree(s: State, e: Entry) {
    forall d :: e.base <= d < e.base + e.size && d < |s.slots| ==> s.slots[d].state != NonExistent
  }

  lemma {:induction false} StaleIsLowest(slots: seq<Conn>, c: nat, end: nat, t: Triad)
    requires c <= end <= |slots|
    ensures var r := Stale(slots, c, end, t);
      && (r.Some? ==> c <= r.value < end && StaleFor(slots[r.value], t) && forall d :: c <= d < r.value ==> !StaleFor(slots[d], t))
      && (r.None? ==> forall d :: c <= d < end ==> !StaleFor(slots[d], t))
    decreases end - c
  {
    if c < end {
      StaleIsLowest(slots, c + 1, end, t);
    }
  }

  lemma {:induction false} FreeIsLowest(slots: seq<Conn>, c: nat, end: nat)
    requires c <= end <= |slots|
    ensures var r := Free(slots, c, end);
      && (r.Some? ==> c <= r.value < end && slots[r.value].state == NonExistent && forall d :: c <= d < r.value ==> slots[d].state != NonExistent)
      && (r.None? ==> forall d :: c <= d < end ==> slots[d].state != NonExistent)
    decreases end - c
  {
    if c < end {
      FreeIsLowest(slots, c + 1, end);
    }
  }

  lemma {:induction false} EntryIsFirst(entries: seq<Entry>, r: Request)
    requires r.path.Path?
    ensures var i := FirstEntry(entries, r.path); if i.Some? then FirstNamed(entries, r, i.value) else NoneNamed(entries, r)
  {
    if entries != [] {
      EntryIsFirst(entries[1..], r);
      assert forall j :: 0 <= j < |entries[1..]| ==> entries[1..][j] == entries[j + 1];
      assert forall j :: 0 < j < |entries| ==> entries[j] == entries[1..][j - 1];
    }
  }

  /** Within an entry: the lowest slot that timed out on the originator, closed; else the lowest free slot; else none. */
  ghost predicate FromEntry(e: Entry, kind: Kind, s: State, t: Triad, p: Pick)
    requires InRange(s)
  {
    && (forall c: nat :: LowestStale(s, e, t, c) && c < |s.slots| ==> p == Slot(c, kind, Close(s, c)))
    && (NoneStale(s, e, t) ==> forall c: nat :: LowestFree(s, e, c) ==> p == Slot(c, kind, s))
    && (p == NoSlot(ERROR_OUT_OF_CONNECTIONS) <==> NoneStale(s, e, t) && NoneFree(s, e))
  }

  lemma StaleUnique(s: State, e: Entry, t: Triad)
    requires e.base + e.size <= |s.slots|
    ensures var r := Stale(s.slots, e.base, e.base + e.size, t);
      (r.None? <==> NoneStale(s, e, t)) && forall c: nat :: LowestStale(s, e, t, c) <==> r == Some(c)
  {
    var r := Stale(s.slots, e.base, e.base + e.size, t);
    StaleIsLowest(s.slots, e.base, e.base + e.size, t);
    assert r.Some? ==> LowestStale(s, e, t, r.value);
  }

  lemma FreeUnique(s: State, e: Entry)
    requires e.base + e.size <= |s.slots|
    ensures var r := Free(s.slots, e.base, e.base + e.size);
      (r.None? <==> NoneFree(s, e)) && forall c: nat :: LowestFree(s, e, c) <==> r == Some(c)
  {
    var r := Free(s.slots, e.base, e.base + e.size);
    FreeIsLowest(s.slots, e.base, e.base + e.size);
    assert r.Some? ==> LowestFree(s, e, r.value);
  }

  lemma PickFromExactly(e: Entry, kind: Kind, s: State, t: Triad)
    requires InRange(s) && e.base + e.size <= |s.slots|
    ensures FromEntry(e, kind, s, t, PickFrom(e, kind, s, t))
  {
    StaleUnique(s, e, t);
    FreeUnique(s, e);
  }

  /** Somebody sends on the input, by multicast or to one consumer. */
  predicate Sending(k: Conn, p: nat) {
    k.kind != Explicit && k.input == p && k.producing != INVALID_SOCKET && (k.tToO == Multicast || k.tToO == PointToPoint)
  }

  ghost predicate Deaf(s: State, kind: Kind, p: nat)
    requires InRange(s)
  {
    kind == ListenOnly && forall a :: a in s.active ==> !Sending(s.slots[a], p)
  }

  /** The last entry with the output asked for, none of which the path names in full, decides the error; without any, there is none. */
  ghost predicate Leaves(entries: seq<Entry>, r: Request, error: nat)
    requires r.path.Path?
  {
    || (error == 0 && forall j :: 0 <= j < |entries| ==> entries[j].output != r.path.output)
    || (exists j :: LastWithOutput(entries, r, j) &&
          error == if entries[j].input != r.path.input then ERROR_PRODUCING_PATH else ERROR_COMBINATION)
  }

  ghost predicate LastWithOutput(entries: seq<Entry>, r: Request, j: int)
    requires r.path.Path?
  {
    0 <= j < |entries| && entries[j].output == r.path.output && forall i :: j < i < |entries| ==> entries[i].output != r.path.output
  }

  /** Input-only and listen-only paths: the first entry named gives the slot, or refuses a listener to whom nobody sends. */
  ghost predicate FromShared(entries: seq<Entry>, kind: Kind, s: State, r: Request, p: Pick)
    requires r.path.Path? && InRange(s)
  {
    && (forall i: nat :: FirstNamed(entries, r, i) ==>
         (if Deaf(s, kind, r.path.input) then p == NoSlot(ERROR_NOT_LISTENABLE) else FromEntry(entries[i], kind, s, r.triad, p)))
    && (NoneNamed(entries, r) ==> p.NoSlot? && Leaves(entries, r, p.error))
  }

  lemma SharedFrom(entries: seq<Entry>, kind: Kind, s: State, r: Request, i: nat, error: nat)
    requires r.path.Path? && InRange(s) && i <= |entries|
    requires forall j :: 0 <= j < |entries| ==> entries[j].base + entries[j].size <= |s.slots|
    requires (forall j :: 0 <= j < i ==> !Names(entries[j], r)) && Leaves(entries[..i], r, error)
    ensures FromShared(entries, kind, s, r, PickShared(entries, kind, s, r, i, error))
    decreases |entries| - i
  {
    if i == |entries| {
      assert entries[..i] == entries;
    } else if Names(entries[i], r) {
      SharedNamed(entries, kind, s, r, i, error);
    } else {
      var e := entries[i];
      var left := if e.output != r.path.output then error else if e.input != r.path.input then ERROR_PRODUCING_PATH else ERROR_COMBINATION;
      LeavesNext(entries, r, i, error, left);
      SharedFrom(entries, kind, s, r, i + 1, left);
    }
  }

  lemma SharedNamed(entries: seq<Entry>, kind: Kind, s: State, r: Request, i: nat, error: nat)
    requires r.path.Path? && InRange(s) && FirstNamed(entries, r, i)
    requires forall j :: 0 <= j < |entries| ==> entries[j].base + entries[j].size <= |s.slots|
    ensures FromShared(entries, kind, s, r, PickShared(entries, kind, s, r, i, error))
  {
    PickFromExactly(entries[i], kind, s, r.triad);
    assert forall j: nat :: FirstNamed(entries, r, j) ==> j == i;
    assert First(s.slots, s.active, Producer(false, r.path.input)).None? <==> forall a :: a in s.active ==> !Sending(s.slots[a], r.path.input) by {
      forall a | a in s.active
        ensures Sending(s.slots[a], r.path.input) <==> Matches(s.slots[a], Producer(false, r.path.input))
      {
      }
    }
  }

  lemma LeavesNext(entries: seq<Entry>, r: Request, i: nat, error: nat, left: nat)
    requires r.path.Path? && i < |entries| && Leaves(entries[..i], r, error)
    requires var e := entries[i];
      left == if e.output != r.path.output then error else if e.input != r.path.input then ERROR_PRODUCING_PATH else ERROR_COMBINATION
    ensures Leaves(entries[..i + 1], r, left)
  {
    var before, after := entries[..i], entries[..i + 1];
    if entries[i].output == r.path.output {
      assert LastWithOutput(after, r, i);
    } else if error != 0 {
      var j :| LastWithOutput(before, r, j) && error == if before[j].input != r.path.input then ERROR_PRODUCING_PATH else ERROR_COMBINATION;
      assert LastWithOutput(after, r, j);
    }
  }

  // ---- Which application connection type ----

  /** The owners listed on an input. */
  ghost function OwnersOf(s: State, p: nat): set<nat>
    requires InRange(s)
  {
    set a | a in s.active && s.slots[a].kind == ExclusiveOwner && s.slots[a].state != NonExistent && s.slots[a].input == p
  }

  /** An owner entry: its slot if the input has no owner; if the first owner timed out on the originator that asks, its
      slot closed, for which the slot has to have a close function; a conflict in any other case. */
  ghost predicate FromOwner(e: Entry, s: State, r: Request, p: Pick)
    requires r.path.Path? && InRange(s) && e.base < |s.slots|
  {
    && (OwnersOf(s, r.path.input) == {} ==> p == Slot(e.base, ExclusiveOwner, s))
    && forall o: nat :: FirstOf(s.active, OwnersOf(s, r.path.input), o) ==>
         p == if !StaleFor(s.slots[o], r.triad) then NoSlot(ERROR_OWNERSHIP)
              else if !s.slots[e.base].closable then NullCall
              else Slot(e.base, ExclusiveOwner, Close(s, e.base))
  }

  ghost predicate HasOutput(entries: seq<Entry>, r: Request)
    requires r.path.Path?
  {
    exists j :: 0 <= j < |entries| && entries[j].output == r.path.output
  }

  lemma OwnerExactly(cfg: Config, s: State, r: Request)
    requires r.path.Path? && Fits(cfg, s)
    ensures NoneNamed(cfg.owners, r) <==> PickOwner(cfg, s, r) == NoSlot(0)
    ensures forall i: nat :: FirstNamed(cfg.owners, r, i) ==> cfg.owners[i].base < |s.slots| && FromOwner(cfg.owners[i], s, r, PickOwner(cfg, s, r))
  {
    EntryIsFirst(cfg.owners, r);
    ScanIsFirst(s.slots, s.active, Owner(r.path.input), OwnersOf(s, r.path.input));
    forall i: nat | FirstNamed(cfg.owners, r, i)
      ensures FirstEntry(cfg.owners, r.path) == Some(i)
    {
    }
  }

  lemma SharedExactly(entries: seq<Entry>, kind: Kind, s: State, r: Request)
    requires r.path.Path? && InRange(s)
    requires forall j :: 0 <= j < |entries| ==> entries[j].base + entries[j].size <= |s.slots|
    ensures FromShared(entries, kind, s, r, PickShared(entries, kind, s, r, 0, 0))
    ensures PickShared(entries, kind, s, r, 0, 0) == NoSlot(0) <==> !HasOutput(entries, r)
  {
    SharedFrom(entries, kind, s, r, 0, 0);
    SharedNone(entries, kind, s, r, 0, 0);
  }

  lemma {:induction false} SharedNone(entries: seq<Entry>, kind: Kind, s: State, r: Request, i: nat, error: nat)
    requires r.path.Path? && InRange(s) && i <= |entries|
    requires forall j :: 0 <= j < |entries| ==> entries[j].base + entries[j].size <= |s.slots|
    ensures PickShared(entries, kind, s, r, i, error) == NoSlot(0) <==>
      error == 0 && forall j :: i <= j < |entries| ==> entries[j].output != r.path.output
    decreases |entries| - i
  {
    if i < |entries| {
      SharedNone(entries, kind, s, r, i + 1, error);
      SharedNone(entries, kind, s, r, i + 1, ERROR_PRODUCING_PATH);
      SharedNone(entries, kind, s, r, i + 1, ERROR_COMBINATION);
    }
  }

  /** The choice of a slot, in full: an owner entry named in full decides first; else the input-only entries, if one has
      the output asked for; else the listen-only entries likewise; else there is no such combination. */
  lemma SlotChoiceExactly(cfg: Config, s: State, r: Request)
    requires r.path.Path? && Fits(cfg, s)
    ensures var p := PickIo(cfg, s, r);
      && (forall i: nat :: FirstNamed(cfg.owners, r, i) ==> cfg.owners[i].base < |s.slots| && FromOwner(cfg.owners[i], s, r, p))
      && (NoneNamed(cfg.owners, r) ==>
           if HasOutput(cfg.inputs, r) then FromShared(cfg.inputs, InputOnly, s, r, p)
           else if HasOutput(cfg.listeners, r) then FromShared(cfg.listeners, ListenOnly, s, r, p)
           else p == NoSlot(ERROR_COMBINATION))
  {
    OwnerExactly(cfg, s, r);
    SharedExactly(cfg.inputs, InputOnly, s, r);
    SharedExactly(cfg.listeners, ListenOnly, s, r);
  }

  // ---- Refusals ----

  /** The first production parameter in which two connections differ names the error. */
  lemma DifferenceExactly(p: Production, q: Production)
    ensures p.interval != q.interval ==> Difference(p, q) == ERROR_INTERVAL
    ensures p.interval == q.interval && p.variableSize != q.variableSize ==> Difference(p, q) == ERROR_SIZE_TYPE
    ensures p.interval == q.interval && p.variableSize == q.variableSize && p.priority != q.priority ==> Difference(p, q) == ERROR_PRIORITY
    ensures p == q.(transportClass := p.transportClass, trigger := p.trigger, inhibit := p.inhibit) && p.transportClass != q.transportClass ==>
      Difference(p, q) == ERROR_TRANSPORT
    ensures p == q.(trigger := p.trigger, inhibit := p.inhibit) && p.trigger != q.trigger ==> Difference(p, q) == ERROR_PRODUCTION_TRIGGER
    ensures p == q.(inhibit := p.inhibit) && p.inhibit != q.inhibit ==> Difference(p, q) == ERROR_INHIBIT_SEGMENT
  {
  }

  /** The listed connections on the input that produce otherwise. */
  ghost function Differing(s: State, input: nat, p: Production): set<nat>
    requires InRange(s)
  {
    set a | a in s.active && s.slots[a].input == input && s.slots[a].production != p
  }

  lemma {:induction false} MismatchExactly(slots: seq<Conn>, xs: seq<nat>, input: nat, p: Production, differing: set<nat>)
    requires forall x :: x in xs ==> x < |slots| && (x in differing <==> slots[x].input == input && slots[x].production != p)
    ensures forall a: nat :: FirstOf(xs, differing, a) && a < |slots| ==> Mismatch(slots, xs, input, p) == Difference(p, slots[a].production)
    ensures (forall x :: x in xs ==> x !in differing) ==> Mismatch(slots, xs, input, p) == 0
  {
    if xs != [] {
      assert xs[0] in xs && forall x :: x in xs[1..] ==> x in xs;
      MismatchExactly(slots, xs[1..], input, p, differing);
      forall a: nat | FirstOf(xs, differing, a) && a < |slots|
        ensures Mismatch(slots, xs, input, p) == Difference(p, slots[a].production)
      {
        FirstOfTail(xs, differing, a);
      }
    }
  }

  /** The production parameters an I/O connection ends up with: a cyclic one without an inhibit segment gets a quarter of
      its interval as inhibit time. */
  function Inhibited(p: Production): Production {
    p.(inhibit := if p.trigger == 0 && p.inhibit == 256 then p.interval / 4000 % Words.WORD16 else p.inhibit)
  }

  /** A cyclic connection whose inhibit time is longer than its interval. */
  predicate Overinhibited(p: Production) {
    p.trigger == 0 && p.inhibit != 256 && p.inhibit > p.interval / 1000
  }

  /** Why a connection for which there is a slot is refused, state `s` being what is left once the slot is cleared: the
      inhibit time, the consuming assembly, the production of the others on the input, the producing assembly, the
      configuration and the channels, in this order. */
  ghost predicate SetUpAnswers(s: State, r: Request, reply: Reply)
    requires r.path.Path? && InRange(s)
  {
    var p := Inhibited(r.production);
    if Overinhibited(r.production) then reply == Refused(CONNECTION_FAILURE, ERROR_INHIBIT)
    else if r.oToT != NullType && r.consumerStatus != 0 then reply == Refused(CONNECTION_FAILURE, r.consumerStatus)
    else if r.tToO == Multicast && Differing(s, r.path.input, p) != {} then
      forall a: nat :: FirstOf(s.active, Differing(s, r.path.input, p), a) && a < |s.slots| ==>
        reply == Refused(CONNECTION_FAILURE, Difference(p, s.slots[a].production))
    else if r.tToO != NullType && r.producerStatus != 0 then reply == Refused(CONNECTION_FAILURE, r.producerStatus)
    else if r.configStatus != 0 then reply == Refused(CONNECTION_FAILURE, r.configStatus)
    else if !r.channelsOpen then reply == Refused(CONNECTION_FAILURE, 0)
    else reply.Accepted? || reply.Fatal?
  }

  lemma MismatchOf(s: State, input: nat, p: Production)
    requires InRange(s)
    ensures var error := Mismatch(s.slots, s.active, input, p);
      && (error == 0 <==> Differing(s, input, p) == {})
      && forall a: nat :: FirstOf(s.active, Differing(s, input, p), a) && a < |s.slots| ==> error == Difference(p, s.slots[a].production)
  {
    MismatchExactly(s.slots, s.active, input, p, Differing(s, input, p));
  }

  lemma SetUpExactly(cfg: Config, s: State, r: Request, number: nat)
    requires r.path.Path? && Fits(cfg, s) && PickIo(cfg, s, r).Slot?
    ensures InRange(PickIo(cfg, s, r).state) && SetUpAnswers(PickIo(cfg, s, r).state, r, EstablishIo(cfg, s, r, number).1)
  {
    PickInRange(cfg, s, r);
    InhibitExactly(r.production);
    MismatchOf(PickIo(cfg, s, r).state, r.path.input, Inhibited(r.production));
  }

  lemma InhibitExactly(p: Production)
    ensures Inhibit(p) == if Overinhibited(p) then None else Some(Inhibited(p))
  {
  }

  /** Some established connection already has the triad of the request. */
  ghost predicate Duplicate(s: State, t: Triad)
    requires InRange(s)
  {
    exists a :: a in s.active && s.slots[a].state == Established && s.slots[a].triad == t
  }

  ghost predicate AllDrawn(s: State, r: Request)
    requires InRange(s)
  {
    forall d :: d in r.draws ==> exists a :: a in s.active && s.slots[a].number == d
  }

  /** What is answered before a slot is looked for, in the order of the tests; `None` where the path decides. */
  ghost function Verdict(s: State, r: Request): Option<Reply>
    requires InRange(s)
  {
    if AllDrawn(s, r) then Some(Drawing)
    else if r.oToT == InvalidType then Some(Refused(CONNECTION_FAILURE, ERROR_O_TO_T_TYPE))
    else if r.tToO == InvalidType then Some(Refused(CONNECTION_FAILURE, ERROR_T_TO_O_TYPE))
    else if r.tToO == Multicast && !r.onSubnet then Some(Refused(CONNECTION_FAILURE, ERROR_SUBNET))
    else if r.oToT == NullType && r.tToO == NullType then Some(Refused(CONNECTION_FAILURE, ERROR_NULL_OPEN))
    else if Duplicate(s, r.triad) then Some(Refused(CONNECTION_FAILURE, ERROR_DUPLICATE))
    else if !r.triggerValid then Some(Refused(CONNECTION_FAILURE, ERROR_TRIGGER))
    else if r.path.PathError? then Some(Refused(r.path.general, r.path.extended))
    else if r.path.target == OtherClass then Some(Refused(0xFF, ERROR_COMBINATION))
    else None
  }

  lemma VerdictExactly(cfg: Config, s: State, r: Request)
    requires Fits(cfg, s)
    ensures Verdict(s, r).Some? ==> ForwardOpen(cfg, s, r) == (s, Verdict(s, r).value)
    ensures Verdict(s, r).None? ==> r.path.Path? && r.path.target != OtherClass && Admitted(s, r, r.path.target)
  {
    assert FirstUnused(r.draws, Numbers(s)).None? <==> AllDrawn(s, r) by {
      forall d
        ensures d in Numbers(s) <==> exists a :: a in s.active && s.slots[a].number == d
      {
      }
    }
    assert First(s.slots, s.active, MatchingTriad(r.triad)).Some? <==> Duplicate(s, r.triad);
  }

  /** The answer to an open, in full. */
  lemma AnswerExactly(cfg: Config, s: State, r: Request)
    requires Inv(cfg, s)
    ensures var (t, reply) := ForwardOpen(cfg, s, r); Next(cfg, s, Open(r)) == Progress(t, [], reply == Fatal || reply == Drawing)
    ensures var reply := ForwardOpen(cfg, s, r).1;
      if Verdict(s, r).Some? then reply == Verdict(s, r).value
      else if r.path.target == MessageRouter then
        if NoneFree(s, cfg.explicits) then reply == Refused(CONNECTION_FAILURE, ERROR_NO_MORE) else reply.Accepted? || reply.Fatal?
      else match PickIo(cfg, s, r)
        case NoSlot(error) => reply == Refused(CONNECTION_FAILURE, error)
        case NullCall => reply == Fatal
        case Slot(_, _, t) => InRange(t) && SetUpAnswers(t, r, reply)
  {
    VerdictExactly(cfg, s, r);
    if Verdict(s, r).None? {
      if r.path.target == MessageRouter {
        FreeUnique(s, cfg.explicits);
      } else if PickIo(cfg, s, r).Slot? {
        SetUpExactly(cfg, s, r, FirstUnused(r.draws, Numbers(s)).value);
      }
    }
  }

  /** A refused open, in full: nothing happened unless a slot was chosen; if one was, it is cleared and holds a connection
      that does not exist, with its close function unless the inhibit time was refused. */
  lemma RefusedExactly(cfg: Config, s: State, r: Request)
    requires Inv(cfg, s) && ForwardOpen(cfg, s, r).1.Refused?
    ensures var t, io := ForwardOpen(cfg, s, r).0, Verdict(s, r).None? && r.path.Path? && r.path.target == Assembly;
      && (!io ==> t == s)
      && (io ==> match PickIo(cfg, s, r)
                 case Slot(c, _, u) =>
                   && t.active == u.active && c < |t.slots| == |u.slots| && c !in t.active
                   && t.slots[c].state == NonExistent && (t.slots[c].closable <==> !Overinhibited(r.production))
                   && forall a :: 0 <= a < |u.slots| && a != c ==> t.slots[a] == u.slots[a]
                 case _ => t == s)
  {
    VerdictExactly(cfg, s, r);
    if Verdict(s, r).None? && r.path.target == Assembly {
      PickInRange(cfg, s, r);
      PickIoGood(cfg, s, r);
      InhibitExactly(r.production);
    }
  }

  // ---- The new connection ----

  /** The listed connections that hold the multicast socket of an input; there is at most one. */
  ghost function HoldersOf(s: State, p: nat): set<nat>
    requires InRange(s)
  {
    set a | a in s.active && s.slots[a].kind != Explicit && s.slots[a].input == p && s.slots[a].tToO == Multicast &&
            s.slots[a].producing != INVALID_SOCKET
  }

  /** What an accepted I/O open leaves in its slot, but for socket and ID of what it produces. */
  function Made(r: Request, kind: Kind, number: nat): Conn
    requires r.path.Path?
  {
    Conn(Established, kind, r.tToO, r.path.output, r.path.input, r.path.config, INVALID_SOCKET,
         if r.oToT == PointToPoint then r.socket else INVALID_SOCKET, r.remote, 0,
         if r.oToT == PointToPoint then r.newConsumedId else r.consumedId, r.triad, number, r.address, r.session,
         Inhibited(r.production), r.oToT != NullType || r.server, r.oToTInterval, r.multiplier, 0, 0, 0,
         Timing.InitialWatchdog(r.oToTInterval, r.multiplier), 0, false, true)
  }

  /** Socket and ID it produces with: its own to one consumer, or as the first on a multicast input; otherwise the
      holder's ID, and for an owner the holder's socket. */
  ghost predicate ProducesAs(s: State, r: Request, k: Conn)
    requires r.path.Path? && InRange(s)
  {
    var holders := HoldersOf(s, r.path.input);
    && (r.tToO != Multicast ==> k.producedId == r.producedId && k.producing == if r.tToO == PointToPoint then r.socket else INVALID_SOCKET)
    && (r.tToO == Multicast && holders == {} ==> k.producedId == r.newProducedId && k.producing == r.socket)
    && (r.tToO == Multicast ==> forall h :: h in holders ==>
         k.producedId == s.slots[h].producedId &&
         k.producing == if k.kind == ExclusiveOwner then s.slots[h].producing else INVALID_SOCKET)
  }

  /** Everybody else is as before, but for a holder whose socket an owner takes. */
  ghost predicate OthersAfterOpen(s: State, t: State, r: Request, kind: Kind, c: nat)
    requires r.path.Path? && InRange(s)
  {
    |t.slots| == |s.slots| && forall a :: 0 <= a < |s.slots| && a != c ==>
      t.slots[a] == if r.tToO == Multicast && kind == ExclusiveOwner && a in HoldersOf(s, r.path.input) then s.slots[a].(producing := INVALID_SOCKET)
                    else s.slots[a]
  }

  /** The number given is the first one drawn that is not in use. */
  ghost predicate FirstDrawn(s: State, r: Request, number: nat)
    requires InRange(s)
  {
    exists i :: 0 <= i < |r.draws| && r.draws[i] == number && number !in Numbers(s) && forall j :: 0 <= j < i ==> r.draws[j] in Numbers(s)
  }

  lemma {:induction false} DrawnFirst(draws: seq<nat>, used: set<nat>) returns (i: nat)
    requires FirstUnused(draws, used).Some?
    ensures i < |draws| && draws[i] == FirstUnused(draws, used).value && draws[i] !in used && forall j :: 0 <= j < i ==> draws[j] in used
  {
    if draws[0] !in used {
      i := 0;
    } else {
      var k := DrawnFirst(draws[1..], used);
      i := k + 1;
    }
  }

  lemma AttachExactly(s: State, c: nat, k: Conn, r: Request)
    requires InRange(s) && SingleMaster(s) && c < |s.slots| && c !in s.active && r.path.Path?
    requires k.kind != Explicit && k.input == r.path.input && k.tToO == r.tToO && k.producing == INVALID_SOCKET
    requires k.producedId == if r.tToO == Multicast then r.newProducedId else r.producedId
    requires r.tToO != InvalidType
    ensures var t := Attach(s, c, k, r.socket);
      && t.active == [c] + s.active && c < |t.slots|
      && t.slots[c] == k.(state := Established, producing := t.slots[c].producing, producedId := t.slots[c].producedId)
      && ProducesAs(s, r, t.slots[c]) && OthersAfterOpen(s, t, r, k.kind, c)
  {
    var holders, found := HoldersOf(s, k.input), First(s.slots, s.active, Producer(true, k.input));
    ScanIsFirst(s.slots, s.active, Producer(true, k.input), holders);
    if found.Some? {
      assert found.value in holders;
      assert forall h :: h in holders ==> h == found.value;
    }
  }

  /** An accepted I/O open in full: the slot chosen, at the head of the list, holds what was asked for; the rest of the state
      is what was left once the slot was cleared, but for a holder whose socket went to an owner. */
  lemma AcceptedExactly(cfg: Config, s: State, r: Request)
    requires Inv(cfg, s) && r.path.Path? && r.path.target == Assembly && ForwardOpen(cfg, s, r).1.Accepted?
    ensures var (t, reply), pick := ForwardOpen(cfg, s, r), PickIo(cfg, s, r);
      && pick.Slot? && reply.slot == pick.id < |t.slots| && InRange(pick.state)
      && t.active == [pick.id] + pick.state.active
      && (exists number: nat :: FirstDrawn(s, r, number) && MadeFor(r, pick.kind, number, t.slots[pick.id]))
      && ProducesAs(pick.state, r, t.slots[pick.id])
      && OthersAfterOpen(pick.state, t, r, pick.kind, pick.id)
  {
    PickIoGood(cfg, s, r);
    var pick := PickIo(cfg, s, r);
    var number, k := AcceptedMade(cfg, s, r);
    AttachExactly(pick.state, pick.id, k, r);
    assert MadeFor(r, pick.kind, number, ForwardOpen(cfg, s, r).0.slots[pick.id]);
  }

  /** Made as asked, whatever it produces with. */
  ghost predicate MadeFor(r: Request, kind: Kind, number: nat, k: Conn)
    requires r.path.Path?
  {
    k == Made(r, kind, number).(producing := k.producing, producedId := k.producedId)
  }

  lemma AcceptedMade(cfg: Config, s: State, r: Request) returns (number: nat, k: Conn)
    requires Fits(cfg, s) && r.path.Path? && r.path.target == Assembly && ForwardOpen(cfg, s, r).1.Accepted?
    ensures var (t, reply), pick := ForwardOpen(cfg, s, r), PickIo(cfg, s, r);
      && pick.Slot? && reply.slot == pick.id < |s.slots| && InRange(pick.state) && |pick.state.slots| == |s.slots|
      && t == Attach(pick.state, pick.id, k, r.socket)
      && FirstDrawn(s, r, number) && MadeFor(r, pick.kind, number, k.(state := Established)) && r.tToO != InvalidType
      && k.kind == pick.kind && k.tToO == r.tToO && k.producing == INVALID_SOCKET
      && k.producedId == if r.tToO == Multicast then r.newProducedId else r.producedId
  {
    PickInRange(cfg, s, r);
    VerdictExactly(cfg, s, r);
    InhibitExactly(r.production);
    var i := DrawnFirst(r.draws, Numbers(s));
    number := r.draws[i];
    k := NewConn(r, PickIo(cfg, s, r).kind, number, Inhibited(r.production));
  }

  /** An accepted explicit open: the lowest free explicit slot, listed first, and nothing else changes. */
  lemma AcceptedExplicitExactly(cfg: Config, s: State, r: Request)
    requires Inv(cfg, s) && r.path.Path? && r.path.target == MessageRouter && ForwardOpen(cfg, s, r).1.Accepted?
    ensures var (t, reply) := ForwardOpen(cfg, s, r);
      && LowestFree(s, cfg.explicits, reply.slot) && t.active == [reply.slot] + s.active && |t.slots| == |s.slots|
      && (exists number: nat :: FirstDrawn(s, r, number) && t.slots[reply.slot] == MadeExplicit(r, number))
      && forall a :: 0 <= a < |s.slots| && a != reply.slot ==> t.slots[a] == s.slots[a]
  {
    var number := AcceptedMadeExplicit(cfg, s, r);
    FreeUnique(s, cfg.explicits);
    assert FirstDrawn(s, r, number);
  }

  lemma AcceptedMadeExplicit(cfg: Config, s: State, r: Request) returns (number: nat)
    requires Fits(cfg, s) && r.path.Path? && r.path.target == MessageRouter && ForwardOpen(cfg, s, r).1.Accepted?
    ensures var (t, reply) := ForwardOpen(cfg, s, r);
      && Free(s.slots, cfg.explicits.base, cfg.explicits.base + cfg.explicits.size) == Some(reply.slot)
      && FirstDrawn(s, r, number) && t == State(s.slots[reply.slot := MadeExplicit(r, number)], [reply.slot] + s.active)
  {
    VerdictExactly(cfg, s, r);
    var i := DrawnFirst(r.draws, Numbers(s));
    number := r.draws[i];
  }

  function MadeExplicit(r: Request, number: nat): Conn
    requires r.path.Path?
  {
    Made(r, Explicit, number).(consuming := INVALID_SOCKET, supervised := r.server, production := r.production,
                               producedId := if r.tToO == Multicast then r.newProducedId else r.producedId)
  }
}
