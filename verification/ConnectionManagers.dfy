/** The connection manager as it runs: slots in a static array, the active list linked through its
    node pool, and every operation a method that changes them in place. Each method is proved to
    compute the transition of the same name in `Lifecycle`. */
module ConnectionManagers {
  import opened Sequences
  import opened Wrappers
  import opened Connections
  import opened Lifecycle
  import opened ActiveLists
  import Invariants
  import Runs
  import Timing
  import Words

  // ---- Facts about the transitions that the methods need ----

  /** A connection that fails the test before and after a change is passed over either way. */
  lemma {:induction false} FirstIgnores(slots: seq<Conn>, xs: seq<nat>, c: nat, k: Conn, q: Query)
    requires (forall x :: x in xs ==> x < |slots|) && c < |slots|
    requires !Matches(slots[c], q) && !Matches(k, q)
    ensures First(slots[c := k], xs, q) == First(slots, xs, q)
  {
    if xs != [] {
      assert xs[0] in xs && forall x :: x in xs[1..] ==> x in xs;
      FirstIgnores(slots, xs[1..], c, k, q);
    }
  }

  /** None of the first `k` listed connections passes the test. */
  ghost predicate Unmatched(slots: seq<Conn>, xs: seq<nat>, q: Query, k: nat) {
    k <= |xs| && forall j :: 0 <= j < k ==> xs[j] < |slots| && !Matches(slots[xs[j]], q)
  }

  /** A walk stands on the node at position `k`, and none before it matched. */
  ghost predicate Seeking(s: State, order: seq<int>, session: nat, node: int, k: nat) {
    k < |order| && node == order[k] && Unmatched(s.slots, s.active, Class3(session), k)
  }

  lemma ClosedIsGone(s: State, c: nat)
    requires InRange(s) && c < |s.slots|
    ensures c !in Close(s, c).active
  {
  }

  lemma UnmatchedNext(slots: seq<Conn>, xs: seq<nat>, q: Query, k: nat)
    requires Unmatched(slots, xs, q, k) && k < |xs| && xs[k] < |slots| && !Matches(slots[xs[k]], q)
    ensures Unmatched(slots, xs, q, k + 1)
  {
  }

  /** Passing over `k` connections that do not match leads to the one at `k`, if any. */
  lemma {:induction false} FirstAt(slots: seq<Conn>, xs: seq<nat>, q: Query, k: nat)
    requires (forall x :: x in xs ==> x < |slots|) && Unmatched(slots, xs, q, k)
    requires k < |xs| ==> xs[k] < |slots| && Matches(slots[xs[k]], q)
    ensures First(slots, xs, q) == if k < |xs| then Some(xs[k]) else None
  {
    if k > 0 {
      assert forall x :: x in xs[1..] ==> x in xs;
      assert forall j :: 0 <= j < k - 1 ==> xs[1..][j] == xs[j + 1];
      FirstAt(slots, xs[1..], q, k - 1);
    }
  }

  lemma DropOne(s: State, c: nat)
    requires c < |s.slots|
    ensures DropAll(s, {c}) == State(s.slots[c := EMPTY], Without(s.active, {c}))
  {
    assert DropAll(s, {c}).slots == s.slots[c := EMPTY];
  }

  /** What a slot held does not matter once it is emptied. */
  lemma DropAllForgets(s: State, c: nat, k: Conn, gone: set<nat>)
    requires c < |s.slots| && c in gone
    ensures DropAll(s.(slots := s.slots[c := k]), gone) == DropAll(s, gone)
  {
    assert DropAll(s.(slots := s.slots[c := k]), gone).slots == DropAll(s, gone).slots;
  }

  lemma MoveMasterForgets(s: State, c: nat, m: nat, k: Conn)
    requires c < |s.slots| && m < |s.slots| && c != m
    requires k == s.slots[c].(state := k.state)
    ensures DropAll(MoveMaster(s.(slots := s.slots[c := k]), c, m), {c}) == DropAll(MoveMaster(s, c, m), {c})
  {
    assert DropAll(MoveMaster(s.(slots := s.slots[c := k]), c, m), {c}).slots == DropAll(MoveMaster(s, c, m), {c}).slots;
  }

  /** The state in which a close looks for an heir: the connection is still listed but no longer exists. */
  ghost function Closing(s: State, c: nat): (u: State)
    requires c < |s.slots|
    ensures |u.slots| == |s.slots| && u.active == s.active
  {
    s.(slots := s.slots[c := s.slots[c].(state := NonExistent)])
  }

  /** Every way through a close ends in the transition `Close`. */
  lemma CloseInSteps(s: State, c: nat)
    requires InRange(s) && c < |s.slots|
    ensures var u, k := Closing(s, c), s.slots[c];
      if !MustHandOver(k) then DropAll(u, {c}) == Close(s, c)
      else match Heir(u, c)
        case Some(m) => DropAll(MoveMaster(u, c, m), {c}) == Close(s, c)
        case None => DropAll(DropAll(u, Mates(u, ListenOnly, k.input)), {c}) == Close(s, c)
  {
    var u, k := Closing(s, c), s.slots[c];
    if !MustHandOver(k) {
      DropAllForgets(s, c, u.slots[c], {c});
    } else {
      FirstIgnores(s.slots, s.active, c, u.slots[c], NextMaster(k.input));
      if Heir(s, c).Some? {
        MoveMasterForgets(s, c, Heir(s, c).value, u.slots[c]);
      } else {
        var mates := Mates(s, ListenOnly, k.input);
        assert mates == Mates(u, ListenOnly, k.input);
        DropAllTwice(u, mates, {c});
        DropAllForgets(s, c, u.slots[c], mates + {c});
      }
    }
  }

  class ConnectionManager {
    const cfg: Config
    const slots: array<Conn>
    const list: NodeList

    ghost predicate Valid()
      reads this, slots, list, list.nodes
    {
      && list.Valid()
      && WellFormed(cfg)
      && slots.Length == |cfg.homes|
      && list.nodes.Length == NodePoolSize(cfg)
      && Distinct(list.Contents())
      && InRange(State(slots[..], list.Contents()))
    }

    ghost function View(): (s: State)
      requires Valid()
      reads this, slots, list, list.nodes
      ensures Fits(cfg, s) && Distinct(s.active) && |s.slots| == slots.Length
    {
      State(slots[..], list.Contents())
    }

    /** All slots empty, all nodes free. */
    constructor (cfg: Config)
      requires WellFormed(cfg)
      ensures Valid() && this.cfg == cfg && fresh(slots) && fresh(list) && fresh(list.nodes)
      ensures View() == State(seq(|cfg.homes|, _ => EMPTY), [])
    {
      this.cfg := cfg;
      slots := new Conn[|cfg.homes|](_ => EMPTY);
      list := new NodeList(NodePoolSize(cfg));
      new;
      assert slots[..] == seq(|cfg.homes|, _ => EMPTY);
    }

    /** The list walk behind the searches of the stack: the first connection, from the head, that passes the test. */
    method Scan(q: Query) returns (found: Option<nat>)
      requires Valid()
      ensures found == First(View().slots, View().active, q)
    {
      ghost var xs := list.Contents();
      var node := list.first;
      ghost var k := 0;
      while node != NULL
        invariant 0 <= k <= |xs| && node == At(list.order, k) && Unmatched(slots[..], xs, q, k)
        decreases |xs| - k
      {
        list.Visit(k);
        assert xs[k] in View().active;
        var c := list.nodes[node].data;
        if Matches(slots[c], q) {
          FirstAt(slots[..], xs, q, k);
          return Some(c);
        }
        UnmatchedNext(slots[..], xs, q, k);
        node := list.nodes[node].next;
        k := k + 1;
      }
      FirstAt(slots[..], xs, q, k);
      found := None;
    }

    /** Takes the node of a connection off the list, if it has one. */
    method RemoveFromActive(c: nat)
      requires Valid()
      modifies list, list.nodes
      ensures Valid() && Thinned(old(list.nodes[..]), old(list.order), list.nodes[..], list.order)
      ensures View() == State(old(View()).slots, Without(old(View()).active, {c}))
    {
      ghost var xs := list.Contents();
      var node := list.first;
      ghost var k := 0;
      while node != NULL
        invariant Valid() && list.Contents() == xs && list.order == old(list.order) && list.nodes[..] == old(list.nodes[..])
        invariant 0 <= k <= |xs| && node == At(list.order, k)
        invariant forall j :: 0 <= j < k ==> xs[j] != c
        decreases |xs| - k
      {
        list.Visit(k);
        if list.nodes[node].data == c {
          WithoutOne(xs, k);
          WithoutDistinct(xs, {c});
          list.RemoveNode(node, k);
          return;
        }
        node := list.nodes[node].next;
        k := k + 1;
      }
      WithoutNone(xs, {c});
    }

    /** Closes the sockets, unlists the connection and empties its slot. */
    method Release(c: nat)
      requires Valid() && c < slots.Length
      modifies slots, list, list.nodes
      ensures Valid() && Thinned(old(list.nodes[..]), old(list.order), list.nodes[..], list.order)
      ensures View() == DropAll(old(View()), {c})
    {
      RemoveFromActive(c);
      slots[c] := EMPTY;
      DropOne(old(View()), c);
    }

    /** Hands the socket of `c` to the next master of its input, if there is one. */
    method TransferMaster(c: nat) returns (moved: bool)
      requires Valid() && c < slots.Length && slots[c].producing != INVALID_SOCKET
      modifies slots
      ensures Valid()
      ensures moved == Heir(old(View()), c).Some?
      ensures View() == if moved then MoveMaster(old(View()), c, Heir(old(View()), c).value) else old(View())
    {
      var heir := Scan(NextMaster(slots[c].input));
      if heir.None? {
        return false;
      }
      var m := heir.value;
      slots[m] := slots[m].(producing := slots[c].producing, remote := slots[c].remote, eipSequence := slots[c].eipSequence,
                            sequenceCount := slots[c].sequenceCount, trigger := slots[c].trigger);
      slots[c] := slots[c].(producing := INVALID_SOCKET);
      moved := true;
      assert slots[..] == MoveMaster(old(View()), c, m).slots;
    }

    // ---- Closing ----

    /** `CloseIoConnection`. A master that finds no heir closes the listeners of its input first. */
    method CloseIo(c: nat)
      requires Valid() && c < slots.Length && slots[c].kind != Explicit
      modifies slots, list, list.nodes
      ensures Valid() && Thinned(old(list.nodes[..]), old(list.order), list.nodes[..], list.order)
      ensures View() == Close(old(View()), c)
      decreases if slots[c].kind == ListenOnly then 0 else 2, 0
    {
      ghost var s := View();
      CloseInSteps(s, c);
      var k := slots[c];
      slots[c] := slots[c].(state := NonExistent);
      assert View() == Closing(s, c);
      if k.kind == ExclusiveOwner || k.kind == InputOnly {
        if k.tToO == Multicast && slots[c].producing != INVALID_SOCKET {
          var moved := TransferMaster(c);
          if !moved {
            ListenersWalk(View(), k.input);
            var fatal := CloseSameType(k.input, ListenOnly);
          }
        }
      }
      Release(c);
    }

    /** Closes every connection of one type on one input while walking the list. The successor is read before the
        close, so the walk survives the removal of the node it stands on, but not that of the successor: a node
        that was freed meanwhile has no data to follow. */
    method CloseSameType(input: nat, kind: Kind) returns (fatal: bool)
      requires Valid() && (kind == ListenOnly || kind == InputOnly)
      modifies slots, list, list.nodes
      ensures Valid() && Thinned(old(list.nodes[..]), old(list.order), list.nodes[..], list.order)
      ensures (View(), fatal) == CloseMates(old(View()), kind, input)
      decreases if kind == ListenOnly then 1 else 3, 2
    {
      ghost var s, ns, order := View(), list.nodes[..], list.order;
      ghost var at := WalkStart(kind, input);
      var node := list.first;
      while node != NULL
        invariant Walking(s, ns, order, kind, input, node, at)
        decreases node != NULL, if node != NULL && list.nodes[node].data != NULL then 1 + |After(View().active, at)| else 0
      {
        if list.nodes[node].data == NULL {
          return true;
        }
        node, at := CloseAtCursor(node, input, kind, s, ns, order, at);
      }
      fatal := false;
    }

    lemma WalkStart(kind: Kind, input: nat) returns (at: nat)
      requires Valid()
      ensures Walking(View(), list.nodes[..], list.order, kind, input, list.first, at)
    {
      at := 0;
      if list.first != NULL {
        list.Visit(0);
        at := View().active[0];
      }
    }

    /** What is left of the walk leads to where the whole walk leads. */
    ghost predicate Walking(s: State, ns: seq<Node>, order: seq<int>, kind: Kind, input: nat, node: int, at: nat)
      requires InRange(s) && Distinct(s.active)
      reads this, slots, list, list.nodes
    {
      && Valid() && Thinned(ns, order, list.nodes[..], list.order)
      && (node == NULL ==> (View(), false) == CloseMates(s, kind, input))
      && (node != NULL ==> 0 <= node < list.nodes.Length)
      && (node != NULL && list.nodes[node].data == NULL ==> (View(), true) == CloseMates(s, kind, input))
      && (node != NULL && list.nodes[node].data != NULL ==>
           Carries(list.nodes[..], list.order, node, at) && at in View().active && CloseFrom(View(), at, kind, input) == CloseMates(s, kind, input))
    }

    /** One round: move the cursor on, then close the connection it stood on if it is of the type. */
    method CloseAtCursor(node: int, input: nat, kind: Kind, ghost s: State, ghost ns: seq<Node>, ghost order: seq<int>, ghost at: nat)
      returns (next: int, ghost at': nat)
      requires InRange(s) && Distinct(s.active) && Walking(s, ns, order, kind, input, node, at)
      requires node != NULL && list.nodes[node].data != NULL && (kind == ListenOnly || kind == InputOnly)
      modifies slots, list, list.nodes
      ensures Walking(s, ns, order, kind, input, next, at')
      ensures next != NULL && list.nodes[next].data != NULL ==> |After(View().active, at')| < |After(old(View().active), at)|
      decreases if kind == ListenOnly then 1 else 3, 1
    {
      var c: nat := list.nodes[node].data;
      ghost var ms, first, last, line, u := list.nodes[..], list.first, list.last, list.order, View();
      NextCarries(ms, first, last, line, node, c);
      next := list.nodes[node].next;
      ghost var rest := After(u.active, c);
      at' := if rest == [] then at else rest[0];
      CloseIfOfType(c, input, kind);
      ThinnedTransitive(ns, order, ms, line, list.nodes[..], list.order);
      CloseRound(u, c, kind, input);
      if next != NULL {
        assert Carries(ms, line, next, at');
        if at' in View().active {
          StillCarries(ms, first, last, line, list.nodes[..], list.first, list.last, list.order, next, at');
          Attached(next, at');
        } else {
          Freed(ms, line, list.nodes[..], list.first, list.last, list.order, next, at');
        }
      }
    }

    /** A node on the list has data. */
    lemma Attached(node: int, c: nat)
      requires Valid() && Carries(list.nodes[..], list.order, node, c)
      ensures list.nodes[node].data != NULL
    {
    }

    method CloseIfOfType(c: nat, input: nat, kind: Kind)
      requires Valid() && c < slots.Length && (kind == ListenOnly || kind == InputOnly)
      modifies slots, list, list.nodes
      ensures Valid() && Thinned(old(list.nodes[..]), old(list.order), list.nodes[..], list.order)
      ensures View() == CloseIfMate(old(View()), c, kind, input)
      decreases if kind == ListenOnly then 1 else 3, 0
    {
      if slots[c].kind == kind && slots[c].input == input {
        CloseIo(c);
      }
    }

    /** The close function of a connection: `CloseConnection` for explicit ones, `CloseIoConnection` otherwise. */
    method CloseListed(c: nat)
      requires Valid() && c < slots.Length
      modifies slots, list, list.nodes
      ensures Valid() && Thinned(old(list.nodes[..]), old(list.order), list.nodes[..], list.order)
      ensures View() == Close(old(View()), c)
    {
      if slots[c].kind == Explicit {
        Release(c);
      } else {
        CloseIo(c);
      }
    }

    /** `CloseClass3ConnectionBasedOnSession`: the walk goes on from the node it has just closed, which reads as zero. */
    method CloseClass3OfSession(session: nat)
      requires Valid()
      modifies slots, list, list.nodes
      ensures Valid() && Thinned(old(list.nodes[..]), old(list.order), list.nodes[..], list.order)
      ensures View() == CloseSession(old(View()), session)
    {
      ghost var s, ns, order := View(), list.nodes[..], list.order;
      var node := list.first;
      ghost var k := 0;
      SeekStart(session);
      while node != NULL
        invariant Sought(s, ns, order, session, node, k)
        decreases node != NULL, |order| - k
      {
        node := SeekRound(session, node, s, ns, order, k);
        k := k + 1;
      }
    }

    /** The walk has ended and the session's connection is closed, or it has not met any and nothing has changed. */
    ghost predicate Sought(s: State, ns: seq<Node>, order: seq<int>, session: nat, node: int, k: nat)
      requires InRange(s)
      reads this, slots, list, list.nodes
    {
      && Valid() && Thinned(ns, order, list.nodes[..], list.order)
      && (node == NULL ==> View() == CloseSession(s, session))
      && (node != NULL ==> View() == s && list.nodes[..] == ns && list.order == order && Seeking(s, order, session, node, k))
    }

    method SeekRound(session: nat, node: int, ghost s: State, ghost ns: seq<Node>, ghost order: seq<int>, ghost k: nat) returns (next: int)
      requires InRange(s) && Sought(s, ns, order, session, node, k) && node != NULL
      modifies slots, list, list.nodes
      ensures Sought(s, ns, order, session, next, k + 1)
    {
      SeekNext(session, node, k);
      var c: nat := list.nodes[node].data;
      if slots[c].production.transportClass == 3 && slots[c].session == session {
        next := CloseNode(node, c);
      } else {
        next := list.nodes[node].next;
      }
    }

    lemma SeekStart(session: nat)
      requires Valid()
      ensures if list.first == NULL then CloseSession(View(), session) == View() else Seeking(View(), list.order, session, list.first, 0)
    {
      if list.first != NULL {
        list.Visit(0);
      }
    }

    /** The node matches, or the walk goes on to the next, or no connection matches at all. */
    lemma SeekNext(session: nat, node: int, k: nat)
      requires Valid() && Seeking(View(), list.order, session, node, k)
      ensures 0 <= node < list.nodes.Length && list.nodes[node].data >= 0
      ensures var c: nat, next := list.nodes[node].data, list.nodes[node].next;
        && c < slots.Length && Carries(list.nodes[..], list.order, node, c) && c in View().active
        && (if Matches(slots[c], Class3(session)) then CloseSession(View(), session) == Close(View(), c)
            else if next == NULL then CloseSession(View(), session) == View()
            else Seeking(View(), list.order, session, next, k + 1))
    {
      list.Visit(k);
      assert View().active[k] in View().active;
      var c: nat := list.nodes[node].data;
      if Matches(slots[c], Class3(session)) {
        FirstAt(View().slots, View().active, Class3(session), k);
      } else {
        UnmatchedNext(View().slots, View().active, Class3(session), k);
        if list.nodes[node].next == NULL {
          FirstAt(View().slots, View().active, Class3(session), k + 1);
        }
      }
    }

    /** Closes the connection at a node and reads where the node then leads: nowhere. */
    method CloseNode(node: int, c: nat) returns (next: int)
      requires Valid() && Carries(list.nodes[..], list.order, node, c) && c in View().active
      modifies slots, list, list.nodes
      ensures Valid() && Thinned(old(list.nodes[..]), old(list.order), list.nodes[..], list.order)
      ensures View() == Close(old(View()), c) && next == NULL
    {
      ghost var ns, order := list.nodes[..], list.order;
      ClosedIsGone(View(), c);
      CloseListed(c);
      Freed(ns, order, list.nodes[..], list.first, list.last, list.order, node, c);
      next := list.nodes[node].next;
    }

    method CloseClass3OfSessions(sessions: seq<nat>)
      requires Valid()
      modifies slots, list, list.nodes
      ensures Valid() && Thinned(old(list.nodes[..]), old(list.order), list.nodes[..], list.order)
      ensures View() == CloseSessions(old(View()), sessions)
    {
      var i := 0;
      while i < |sessions|
        invariant 0 <= i <= |sessions|
        invariant Valid() && Thinned(old(list.nodes[..]), old(list.order), list.nodes[..], list.order)
        invariant CloseSessions(View(), sessions[i..]) == CloseSessions(old(View()), sessions)
      {
        ghost var ns, order, t := list.nodes[..], list.order, View();
        CloseClass3OfSession(sessions[i]);
        ThinnedTransitive(old(list.nodes[..]), old(list.order), ns, order, list.nodes[..], list.order);
        CloseSessionShrinks(t, sessions[i]);
        assert sessions[i..][1..] == sessions[i + 1..];
        i := i + 1;
      }
    }

    /** Shutdown: close the head of the list until there is none. */
    method CloseAllConnections()
      requires Valid()
      modifies slots, list, list.nodes
      ensures Valid()
      ensures View() == CloseAll(old(View()))
      ensures View().active == []
    {
      var node := list.first;
      while node != NULL
        invariant Valid() && node == list.first
        invariant CloseAll(View()) == CloseAll(old(View()))
        decreases |View().active|
      {
        list.Visit(0);
        var c: nat := list.nodes[node].data;
        CloseRemoves(View(), c);
        CloseListed(c);
        node := list.first;
      }
    }

    method ForwardClose(triad: Triad, from: nat) returns (reply: CloseReply)
      requires Valid()
      modifies slots, list, list.nodes
      ensures Valid()
      ensures (View(), reply) == Lifecycle.ForwardClose(old(View()), triad, from)
    {
      var found := Scan(AnyTriad(triad));
      if found.None? {
        return NotFound;
      }
      if slots[found.value].address == from {
        CloseListed(found.value);
        return Closed;
      }
      reply := WrongCloser;
    }

    // ---- Timing out ----

    /** A master that timed out hands over, or closes the listeners of its input. */
    method HandOverOrDropListeners(c: nat) returns (handover: bool)
      requires Valid() && c < slots.Length
      modifies slots, list, list.nodes
      ensures Valid() && Thinned(old(list.nodes[..]), old(list.order), list.nodes[..], list.order)
      ensures handover == HandsOver(old(View()), c) && View() == Half(old(View()), c)
    {
      handover := false;
      if slots[c].kind == ExclusiveOwner || slots[c].kind == InputOnly {
        if slots[c].tToO == Multicast && slots[c].producing != INVALID_SOCKET {
          var moved := TransferMaster(c);
          if !moved {
            ListenersWalk(View(), slots[c].input);
            var fatal := CloseSameType(slots[c].input, ListenOnly);
          } else {
            handover := true;
          }
        }
      }
    }

    /** Without an owner its input-only and listen-only connections go. */
    method DropDependents(input: nat) returns (fatal: bool)
      requires Valid()
      modifies slots, list, list.nodes
      ensures Valid() && Thinned(old(list.nodes[..]), old(list.order), list.nodes[..], list.order)
      ensures (View(), fatal) == Lifecycle.DropDependents(old(View()), input)
    {
      fatal := CloseSameType(input, InputOnly);
      if fatal {
        return;
      }
      ghost var ns, order := list.nodes[..], list.order;
      ListenersWalk(View(), input);
      fatal := CloseSameType(input, ListenOnly);
      ThinnedTransitive(old(list.nodes[..]), old(list.order), ns, order, list.nodes[..], list.order);
    }

    /** `HandleIoConnectionTimeOut` and the class 3 timeout handler. */
    method HandleTimeOut(c: nat, sessions: seq<nat>) returns (fatal: bool)
      requires Valid() && Invariants.Inv(cfg, View()) && c in View().active
      modifies slots, list, list.nodes
      ensures Valid() && Thinned(old(list.nodes[..]), old(list.order), list.nodes[..], list.order)
      ensures (View(), fatal) == TimeOut(old(View()), c, sessions)
    {
      if slots[c].kind == Explicit {
        Release(c);
        fatal := false;
      } else {
        ghost var s := View();
        slots[c] := slots[c].(state := TimedOut);
        assert View() == Expire(s, c);
        CloseClass3OfSessions(sessions);
        Invariants.ExpiredAndSessions(cfg, s, c, sessions);
        ghost var ns, order := list.nodes[..], list.order;
        fatal := FinishTimeOut(c);
        ThinnedTransitive(old(list.nodes[..]), old(list.order), ns, order, list.nodes[..], list.order);
      }
    }

    /** What follows the change to the timed-out state and the closing of sessions. */
    method FinishTimeOut(c: nat) returns (fatal: bool)
      requires Valid() && c in View().active && slots[c].state == TimedOut && slots[c].kind != Explicit
      modifies slots, list, list.nodes
      ensures Valid() && Thinned(old(list.nodes[..]), old(list.order), list.nodes[..], list.order)
      ensures (View(), fatal) == Fall(old(View()), c)
    {
      ghost var s := View();
      FallKeepsOwn(s, c);
      var handover := HandOverOrDropListeners(c);
      fatal := false;
      if slots[c].kind == ExclusiveOwner && !handover {
        ghost var ns, order := list.nodes[..], list.order;
        fatal := DropDependents(slots[c].input);
        ThinnedTransitive(old(list.nodes[..]), old(list.order), ns, order, list.nodes[..], list.order);
        if fatal {
          return;
        }
      }
      MarkTimedOut(c);
    }

    method MarkTimedOut(c: nat)
      requires Valid() && c < slots.Length
      modifies slots
      ensures Valid() && View() == State(old(View()).slots[c := old(slots[c]).(state := TimedOut)], old(View()).active)
    {
      slots[c] := slots[c].(state := TimedOut);
    }

    // ---- Servicing ----

    method SuperviseSlot(c: nat, elapsed: nat, env: Surroundings) returns (fatal: bool)
      requires Valid() && Invariants.Inv(cfg, View()) && c in View().active && slots[c].state == Established
      modifies slots, list, list.nodes
      ensures Valid() && Thinned(old(list.nodes[..]), old(list.order), list.nodes[..], list.order)
      ensures (View(), fatal) == Supervise(old(View()), c, elapsed, env)
    {
      fatal := false;
      if slots[c].supervised {
        if elapsed >= slots[c].watchdog {
          fatal := HandleTimeOut(c, ClosingWith(env, c));
        } else {
          slots[c] := slots[c].(watchdog := slots[c].watchdog - elapsed);
        }
      }
    }

    /** `SendConnectedData`, as far as the counters of the connection go. */
    method SendConnectedData(c: nat, changed: bool) returns (packet: Packet)
      requires Valid() && c < slots.Length
      modifies slots
      ensures Valid() && View() == State(old(View()).slots[c := Sent(old(slots[c]), changed)], old(View()).active)
      ensures packet == Packet(old(slots[c]).input, old(slots[c]).producedId, slots[c].eipSequence, slots[c].sequenceCount)
    {
      slots[c] := slots[c].(eipSequence := (slots[c].eipSequence + 1) % Words.WORD32);
      if changed {
        slots[c] := slots[c].(sequenceCount := (slots[c].sequenceCount + 1) % Words.WORD16);
      }
      packet := Packet(slots[c].input, slots[c].producedId, slots[c].eipSequence, slots[c].sequenceCount);
    }

    method ProduceSlot(c: nat, elapsed: nat, env: Surroundings) returns (sent: seq<Packet>)
      requires Valid() && c < slots.Length
      modifies slots
      ensures Valid() && (View(), sent) == Produce(old(View()), c, elapsed, env)
    {
      sent := [];
      if slots[c].state == Established && Timing.ExpectedPacketRate(slots[c].production.interval) != 0 &&
         slots[c].producing != INVALID_SOCKET {
        if slots[c].trigger <= elapsed {
          var packet := SendConnectedData(c, c in env.changed);
          sent := [packet];
          var timer := slots[c].trigger + Timing.RequestedInterval(slots[c].production.interval);
          slots[c] := slots[c].(trigger := if timer > elapsed then timer - elapsed else 0);
        } else {
          slots[c] := slots[c].(trigger := slots[c].trigger - elapsed);
        }
        assert slots[..] == Produce(old(View()), c, elapsed, env).0.slots;
      }
    }

    method ServiceSlot(c: nat, elapsed: nat, env: Surroundings) returns (sent: seq<Packet>, fatal: bool)
      requires Valid() && Invariants.Inv(cfg, View()) && c in View().active
      modifies slots, list, list.nodes
      ensures Valid() && Thinned(old(list.nodes[..]), old(list.order), list.nodes[..], list.order)
      ensures Progress(View(), sent, fatal) == Service(old(View()), c, elapsed, env)
    {
      sent, fatal := [], false;
      if slots[c].state == Established {
        fatal := SuperviseSlot(c, elapsed, env);
        if !fatal {
          sent := ProduceSlot(c, elapsed, env);
        }
      }
    }

    /** One round of the walk: the successor is read after the visit, from whatever the node then holds. */
    method ServiceAtCursor(node: int, elapsed: nat, env: Surroundings, ghost at: nat)
      returns (next: int, sent: seq<Packet>, fatal: bool, ghost at': nat)
      requires Valid() && Carries(list.nodes[..], list.order, node, at) && Invariants.Inv(cfg, View())
      modifies slots, list, list.nodes
      ensures Valid() && old(at in View().active) && Progress(View(), sent, fatal) == Service(old(View()), at, elapsed, env)
      ensures next == NULL <==> fatal || at !in View().active || After(View().active, at) == []
      ensures next != NULL ==> at' == After(View().active, at)[0] && Carries(list.nodes[..], list.order, next, at')
    {
      var c: nat := list.nodes[node].data;
      ghost var ns, first, last, order := list.nodes[..], list.first, list.last, list.order;
      NextCarries(ns, first, last, order, node, c);
      sent, fatal := ServiceSlot(c, elapsed, env);
      at' := at;
      if fatal {
        next := NULL;
        return;
      }
      if c in View().active {
        StillCarries(ns, first, last, order, list.nodes[..], list.first, list.last, list.order, node, c);
        NextCarries(list.nodes[..], list.first, list.last, list.order, node, c);
        at' := if After(View().active, c) == [] then at else After(View().active, c)[0];
      } else {
        Freed(ns, order, list.nodes[..], list.first, list.last, list.order, node, c);
      }
      next := list.nodes[node].next;
    }

    /** `ManageConnections`: one tick over the list. */
    method ManageConnections(elapsed: nat, env: Surroundings) returns (sent: seq<Packet>, halted: bool)
      requires Valid() && Invariants.Inv(cfg, View())
      modifies slots, list, list.nodes
      ensures Valid() && Invariants.Inv(cfg, View()) && Progress(View(), sent, halted) == Tick(old(View()), elapsed, env)
    {
      sent, halted := [], false;
      var node := list.first;
      ghost var at: nat := 0;
      if node != NULL {
        list.Visit(0);
        at := View().active[0];
        assert [] + TickFrom(View(), at, elapsed, env).sent == TickFrom(View(), at, elapsed, env).sent;
      }
      while node != NULL
        invariant Valid() && Invariants.Inv(cfg, View())
        invariant node == NULL ==> Progress(View(), sent, halted) == Tick(old(View()), elapsed, env)
        invariant node != NULL ==> Carries(list.nodes[..], list.order, node, at) && at in View().active
        invariant node != NULL ==> Remains(View(), at, elapsed, env, sent) == Tick(old(View()), elapsed, env)
        decreases node != NULL, |After(View().active, at)|
      {
        ghost var s, c := View(), at;
        var packets;
        node, packets, halted, at := ServiceAtCursor(node, elapsed, env, at);
        TickStep(cfg, s, c, elapsed, env, sent);
        sent := sent + packets;
      }
    }

    // ---- Receiving ----

    /** A connected explicit message, as far as the watchdog goes. */
    method HandleMessage(connectionId: nat)
      requires Valid()
      modifies slots
      ensures Valid() && View() == Rearm(old(View()), connectionId)
    {
      var found := Scan(Consumer(connectionId));
      if found.Some? {
        var c := found.value;
        slots[c] := slots[c].(watchdog := Timing.WatchdogValue(slots[c].oToTInterval, slots[c].multiplier));
        assert slots[..] == Rearm(old(View()), connectionId).slots;
      }
    }

    /** `HandleReceivedConnectedData`, once the packet is parsed. */
    method HandleReceived(connectionId: nat, sequence: nat, from: nat)
      requires Valid()
      modifies slots
      ensures Valid() && View() == Receive(old(View()), connectionId, sequence, from)
    {
      var found := Scan(Consumer(connectionId));
      if found.Some? {
        var c := found.value;
        if slots[c].address == from {
          if Timing.SequenceGreater(sequence, slots[c].consumedSequence) || !slots[c].sequenceReceived {
            slots[c] := slots[c].(watchdog := Timing.WatchdogValue(slots[c].oToTInterval, slots[c].multiplier),
                                  consumedSequence := sequence, sequenceReceived := true);
          }
        }
        assert slots[..] == Receive(old(View()), connectionId, sequence, from).slots;
      }
    }

    // ---- Opening ----

    /** `GenerateRandomConnectionNumber`, over the values the random source will return. A clash makes
        it call itself from inside the scan, and the scan then goes on with the new number. */
    method GenerateNumber(draws: seq<nat>) returns (number: Option<nat>)
      requires Valid()
      ensures number == FirstUnused(draws, Numbers(View()))
      decreases |draws|
    {
      if draws == [] {
        return None;
      }
      ghost var xs := list.Contents();
      var drawn := draws[0];
      var node := list.first;
      ghost var k := 0;
      while node != NULL
        invariant 0 <= k <= |xs| && node == At(list.order, k)
        invariant Some(drawn) == FirstUnused(draws, Numbers(View())) ||
                  (drawn == draws[0] && forall j :: 0 <= j < k ==> xs[j] < slots.Length && slots[xs[j]].number != drawn)
        decreases |xs| - k
      {
        list.Visit(k);
        assert xs[k] in View().active;
        var c := list.nodes[node].data;
        if slots[c].number == drawn {
          assert drawn in Numbers(View());
          var again := GenerateNumber(draws[1..]);
          if again.None? {
            return None;
          }
          drawn := again.value;
        }
        node := list.nodes[node].next;
        k := k + 1;
      }
      assert drawn !in Numbers(View());
      number := Some(drawn);
    }

    /** `GetExclusiveOwnerConnection`. */
    method PickOwnerSlot(r: Request) returns (choice: Choice)
      requires Valid() && Invariants.Inv(cfg, View()) && r.path.Path?
      modifies slots, list, list.nodes
      ensures Valid() && Picked(PickOwner(cfg, old(View()), r), ExclusiveOwner, choice, old(View()), View())
    {
      var i := 0;
      while i < |cfg.owners|
        invariant 0 <= i <= |cfg.owners|
        invariant forall j :: 0 <= j < i ==> !Serves(cfg.owners[j], r.path)
      {
        if Serves(cfg.owners[i], r.path) {
          FirstEntryAt(cfg.owners, r.path, i);
          choice := ClaimOwnerSlot(cfg.owners[i].base, r);
          return;
        }
        i := i + 1;
      }
      FirstEntryNone(cfg.owners, r.path);
      choice := Denied(0);
    }

    /** The entry's slot, closed through its own close function where an owner timed out on the same originator. */
    method ClaimOwnerSlot(c: nat, r: Request) returns (choice: Choice)
      requires Valid() && Invariants.Inv(cfg, View()) && r.path.Path? && c < slots.Length && cfg.homes[c].kind == ExclusiveOwner
      modifies slots, list, list.nodes
      ensures Valid() && Picked(ClaimOwner(old(View()), c, r), ExclusiveOwner, choice, old(View()), View())
    {
      var owner := Scan(Owner(r.path.input));
      if owner.None? {
        return Chosen(c);
      }
      if !(slots[owner.value].state == TimedOut && SameOriginator(r.triad, slots[owner.value].triad)) {
        return Denied(ERROR_OWNERSHIP);
      }
      if !slots[c].closable {
        return Broken;
      }
      assert Invariants.AtRest(cfg.homes[c], View().slots[c]);
      CloseIo(c);
      choice := Chosen(c);
    }

    /** `GetInputOnlyConnection` and `GetListenOnlyConnection`. */
    method PickSharedSlot(entries: seq<Entry>, kind: Kind, r: Request) returns (choice: Choice)
      requires Valid() && Invariants.Inv(cfg, View()) && r.path.Path? && (kind == InputOnly || kind == ListenOnly)
      requires forall j :: 0 <= j < |entries| ==>
        entries[j].base + entries[j].size <= slots.Length && Reserves(cfg.homes, kind, entries[j])
      modifies slots, list, list.nodes
      ensures Valid() && Picked(PickShared(entries, kind, old(View()), r, 0, 0), kind, choice, old(View()), View())
    {
      var error: nat := 0;
      var i := 0;
      while i < |entries|
        invariant 0 <= i <= |entries|
        invariant PickShared(entries, kind, View(), r, i, error) == PickShared(entries, kind, old(View()), r, 0, 0)
        invariant View() == old(View()) && Valid()
      {
        var e := entries[i];
        if e.output == r.path.output {
          if e.input != r.path.input {
            error := ERROR_PRODUCING_PATH;
          } else if e.config != r.path.config {
            error := ERROR_COMBINATION;
          } else {
            if kind == ListenOnly {
              var producer := Scan(Producer(false, r.path.input));
              if producer.None? {
                return Denied(ERROR_NOT_LISTENABLE);
              }
            }
            StaleKind(cfg, View(), e, kind);
            choice := PickSlotOf(e, kind, r.triad);
            return;
          }
        }
        i := i + 1;
      }
      choice := Denied(error);
    }

    /** The two passes over the slots of one entry: timed out on the same originator, then free. */
    method PickSlotOf(e: Entry, kind: Kind, triad: Triad) returns (choice: Choice)
      requires Valid() && (kind == InputOnly || kind == ListenOnly) && e.base + e.size <= slots.Length
      requires Kindred(View(), e, kind)
      modifies slots, list, list.nodes
      ensures Valid() && Picked(PickFrom(e, kind, old(View()), triad), kind, choice, old(View()), View())
    {
      var stale := FindStale(e, triad);
      PickFromCases(e, kind, View(), triad, stale);
      if stale.Some? {
        KindredAt(View(), e, kind, stale.value);
        CloseIo(stale.value);
        choice := Chosen(stale.value);
      } else {
        var free := FindFree(e);
        choice := if free.Some? then Chosen(free.value) else Denied(ERROR_OUT_OF_CONNECTIONS);
      }
    }

    method FindStale(e: Entry, triad: Triad) returns (found: Option<nat>)
      requires e.base + e.size <= slots.Length
      ensures found == Stale(slots[..], e.base, e.base + e.size, triad)
    {
      var j: nat := 0;
      while j < e.size
        invariant j <= e.size
        invariant Stale(slots[..], e.base + j, e.base + e.size, triad) == Stale(slots[..], e.base, e.base + e.size, triad)
      {
        if slots[e.base + j].state == TimedOut && SameOriginator(triad, slots[e.base + j].triad) {
          return Some(e.base + j);
        }
        j := j + 1;
      }
      found := None;
    }

    /** Also `GetFreeExplicitConnection`. */
    method FindFree(e: Entry) returns (found: Option<nat>)
      requires e.base + e.size <= slots.Length
      ensures found == Free(slots[..], e.base, e.base + e.size)
    {
      var j: nat := 0;
      while j < e.size
        invariant j <= e.size
        invariant Free(slots[..], e.base + j, e.base + e.size) == Free(slots[..], e.base, e.base + e.size)
      {
        if slots[e.base + j].state == NonExistent {
          return Some(e.base + j);
        }
        j := j + 1;
      }
      found := None;
    }

    /** `GetIoConnectionForConnectionData`: owner, then input-only, then listen-only. */
    method PickIoSlot(r: Request) returns (choice: Choice, kind: Kind)
      requires Valid() && Invariants.Inv(cfg, View()) && r.path.Path?
      modifies slots, list, list.nodes
      ensures Valid() && Picked(PickIo(cfg, old(View()), r), kind, choice, old(View()), View())
    {
      kind := ExclusiveOwner;
      choice := PickOwnerSlot(r);
      if choice == Denied(0) {
        kind := InputOnly;
        choice := PickSharedSlot(cfg.inputs, InputOnly, r);
        if choice == Denied(0) {
          kind := ListenOnly;
          choice := PickSharedSlot(cfg.listeners, ListenOnly, r);
          if choice == Denied(0) {
            choice := Denied(ERROR_COMBINATION);
          }
        }
      }
    }

    /** The comparison with the connections already on the input, for a multicast producer. */
    method CheckProduction(input: nat, p: Production) returns (error: nat)
      requires Valid()
      ensures error == Mismatch(View().slots, View().active, input, p)
    {
      ghost var xs := list.Contents();
      var node := list.first;
      ghost var k := 0;
      while node != NULL
        invariant 0 <= k <= |xs| && node == At(list.order, k)
        invariant forall j :: 0 <= j < k ==> xs[j] < slots.Length && Compatible(slots[xs[j]], input, p)
        decreases |xs| - k
      {
        list.Visit(k);
        assert xs[k] in View().active;
        var c := list.nodes[node].data;
        if slots[c].input == input {
          error := Difference(p, slots[c].production);
          if error != 0 {
            MismatchAt(slots[..], xs, input, p, k);
            return;
          }
        }
        node := list.nodes[node].next;
        k := k + 1;
      }
      MismatchAt(slots[..], xs, input, p, k);
      error := 0;
    }

    /** `OpenCommunicationChannels`, once the sockets are there: the producing side. */
    method OpenProducing(c: nat, socket: nat)
      requires Valid() && c < slots.Length && c !in View().active && slots[c].producing == INVALID_SOCKET
      modifies slots
      ensures Valid() && View() == Channelled(old(View()), c, socket)
    {
      if slots[c].tToO == PointToPoint {
        slots[c] := slots[c].(producing := socket);
      } else if slots[c].tToO == Multicast {
        var master := Scan(Producer(true, slots[c].input));
        if master.None? {
          slots[c] := slots[c].(producing := socket);
        } else {
          JoinStream(c, master.value);
        }
      }
    }

    /** A multicast producer finds a master: it takes over the connection ID and, as an owner, the socket. */
    method JoinStream(c: nat, m: nat)
      requires Valid() && c < slots.Length && m < slots.Length && c != m
      modifies slots
      ensures Valid() && View() == Joined(old(View()), c, m)
    {
      slots[c] := slots[c].(producedId := slots[m].producedId);
      if slots[c].kind == ExclusiveOwner {
        slots[c] := slots[c].(producing := slots[m].producing);
        slots[m] := slots[m].(producing := INVALID_SOCKET);
      } else {
        slots[c] := slots[c].(producing := INVALID_SOCKET);
      }
      assert slots[..] == Joined(old(View()), c, m).slots;
    }

    /** `AddNewActiveConnection`; without a node from the pool there is nothing to write to. */
    method AddNewActive(c: nat) returns (fatal: bool)
      requires Valid() && c < slots.Length && c !in View().active
      modifies slots, list, list.nodes
      ensures Valid() && fatal == (|old(View()).active| >= NodePoolSize(cfg))
      ensures View() == if fatal then old(View()) else Listed(old(View()), c)
    {
      DistinctNodes();
      var node := list.Allocate();
      if node == NULL {
        return true;
      }
      list.InsertAtHead(c);
      slots[c] := slots[c].(state := Established);
      assert View().active == [c] + old(View()).active;
      fatal := false;
    }

    /** The list is never longer than the pool. */
    lemma DistinctNodes()
      requires Valid()
      ensures |View().active| <= NodePoolSize(cfg)
    {
      DistinctBound(list.order, list.nodes.Length);
    }

    /** What the surroundings and the list have against the connection set up in slot `c`; 0 if nothing. */
    method CheckSetup(r: Request, p: Production) returns (error: nat)
      requires Valid() && r.path.Path?
      ensures error == SetupError(View(), r, p)
    {
      if r.oToT != NullType {
        if r.consumerStatus != 0 {
          return r.consumerStatus;
        }
      }
      if r.tToO != NullType {
        if r.tToO == Multicast {
          error := CheckProduction(r.path.input, p);
          if error != 0 {
            return;
          }
        }
        if r.producerStatus != 0 {
          return r.producerStatus;
        }
      }
      error := r.configStatus;
    }

    /** The channels of a slot that passed every check, and its place at the head of the list. */
    method Connect(c: nat, k: Conn, socket: nat) returns (fatal: bool)
      requires Valid() && c < slots.Length && c !in View().active && k.producing == INVALID_SOCKET
      modifies slots, list, list.nodes
      ensures Valid() && fatal == (|old(View()).active| >= NodePoolSize(cfg))
      ensures !fatal ==> View() == Attach(old(View()), c, k, socket)
    {
      ghost var s := View();
      slots[c] := k;
      assert View() == s.(slots := s.slots[c := k]);
      AttachInSteps(s, c, k, socket);
      OpenProducing(c, socket);
      fatal := AddNewActive(c);
    }

    /** `EstablishIoConnection`. */
    method EstablishIo(r: Request, number: nat) returns (reply: Reply)
      requires Valid() && Invariants.Inv(cfg, View()) && r.path.Path?
      modifies slots, list, list.nodes
      ensures Valid() && Ends(View(), reply, Lifecycle.EstablishIo(cfg, old(View()), r, number))
    {
      Invariants.PickIoGood(cfg, View(), r);
      var choice, kind := PickIoSlot(r);
      match choice {
        case Denied(error) => reply := Refused(CONNECTION_FAILURE, error);
        case Broken => reply := Fatal;
        case Chosen(c) => reply := SetUp(c, kind, r, number);
      }
    }

    /** What follows the choice of a slot. */
    method SetUp(c: nat, kind: Kind, r: Request, number: nat) returns (reply: Reply)
      requires Valid() && r.path.Path? && c < slots.Length && c !in View().active
      modifies slots, list, list.nodes
      ensures Valid() && Ends(View(), reply, SetUpOutcome(cfg, old(View()), c, kind, r, number))
    {
      ghost var s := View();
      slots[c] := Draft(r, kind, number);
      var inhibited := Inhibit(slots[c].production);
      if inhibited.None? {
        return Refused(CONNECTION_FAILURE, ERROR_INHIBIT);
      }
      slots[c] := slots[c].(production := inhibited.value);
      slots[c] := slots[c].(closable := true);
      slots[c] := Configured(r, slots[c]);
      ghost var k := Configured(r, Draft(r, kind, number)).(production := inhibited.value, closable := true);
      assert View() == s.(slots := s.slots[c := k]);
      SetupErrorIgnores(s, c, k, r, inhibited.value);
      var error := CheckSetup(r, inhibited.value);
      if error != 0 {
        return Refused(CONNECTION_FAILURE, error);
      }
      if !r.channelsOpen {
        return Refused(CONNECTION_FAILURE, 0);
      }
      AttachForgets(s, c, k, Lifecycle.Wired(r, k), r.socket);
      var fatal := Connect(c, Lifecycle.Wired(r, slots[c]), r.socket);
      reply := if fatal then Fatal else Accepted(c);
    }

    /** `EstablishClass3Connection`. */
    method EstablishExplicit(r: Request, number: nat) returns (reply: Reply)
      requires Valid() && Invariants.Agrees(View()) && r.path.Path?
      modifies slots, list, list.nodes
      ensures Valid() && Ends(View(), reply, Lifecycle.EstablishExplicit(cfg, old(View()), r, number))
    {
      var free := FindFree(cfg.explicits);
      if free.None? {
        return Refused(CONNECTION_FAILURE, ERROR_NO_MORE);
      }
      var c := free.value;
      ghost var s := View();
      ExplicitInSteps(cfg, s, r, number, c);
      slots[c] := Configured(r, Draft(r, Explicit, number)).(closable := true);
      assert View() == s.(slots := s.slots[c := Configured(r, Draft(r, Explicit, number)).(closable := true)]);
      var fatal := AddNewActive(c);
      reply := if fatal then Fatal else Accepted(c);
    }

    /** `ForwardOpenRoutine` and the handlers it dispatches to. */
    method ForwardOpen(r: Request) returns (reply: Reply)
      requires Valid() && Invariants.Inv(cfg, View())
      modifies slots, list, list.nodes
      ensures Valid() && Ends(View(), reply, Lifecycle.ForwardOpen(cfg, old(View()), r))
    {
      var number := GenerateNumber(r.draws);
      if number.None? {
        return Drawing;
      }
      if r.oToT == InvalidType {
        return Refused(CONNECTION_FAILURE, ERROR_O_TO_T_TYPE);
      }
      if r.tToO == InvalidType {
        return Refused(CONNECTION_FAILURE, ERROR_T_TO_O_TYPE);
      }
      if r.tToO == Multicast && !r.onSubnet {
        return Refused(CONNECTION_FAILURE, ERROR_SUBNET);
      }
      if r.oToT == NullType && r.tToO == NullType {
        return Refused(CONNECTION_FAILURE, ERROR_NULL_OPEN);
      }
      var existing := Scan(MatchingTriad(r.triad));
      if existing.Some? {
        return Refused(CONNECTION_FAILURE, ERROR_DUPLICATE);
      }
      if !r.triggerValid {
        return Refused(CONNECTION_FAILURE, ERROR_TRIGGER);
      }
      match r.path {
        case PathError(general, extended) => reply := Refused(general, extended);
        case Path(Assembly, _, _, _) => reply := EstablishIo(r, number.value);
        case Path(MessageRouter, _, _, _) => reply := EstablishExplicit(r, number.value);
        case Path(OtherClass, _, _, _) => reply := Refused(0xFF, ERROR_COMBINATION);
      }
    }

    // ---- Whole runs ----

    /** Any step of a run, in place. Once the stack goes no further, its state is of no concern. */
    method Perform(step: Runs.Step) returns (sent: seq<Packet>, halted: bool)
      requires Valid() && Invariants.Inv(cfg, View()) && Runs.Proper(step)
      modifies slots, list, list.nodes
      ensures Valid() && var n := Runs.Next(cfg, old(View()), step); sent == n.sent && halted == n.halted && (!halted ==> View() == n.state)
    {
      sent, halted := [], false;
      match step {
        case Open(request) =>
          var reply := ForwardOpen(request);
          halted := reply.Fatal? || reply.Drawing?;
        case Elapse(elapsed, env) => sent, halted := ManageConnections(elapsed, env);
        case _ => PerformQuietly(step);
      }
    }

    /** The steps that neither send nor end the stack. */
    method PerformQuietly(step: Runs.Step)
      requires Valid() && Invariants.Inv(cfg, View()) && !step.Open? && !step.Elapse?
      modifies slots, list, list.nodes
      ensures Valid() && Runs.Next(cfg, old(View()), step) == Progress(View(), [], false)
    {
      match step {
        case Shut(triad, from) => var reply := ForwardClose(triad, from);
        case Arrive(connectionId, sequence, from) => HandleReceived(connectionId, sequence, from);
        case Message(connectionId) => HandleMessage(connectionId);
        case EndSession(session) => CloseClass3OfSession(session);
        case ShutDown => CloseAllConnections();
      }
    }

    /** The stack over a whole run: slots, list and frames sent are those of the transition system, and
        the invariants of every reachable state hold of the arrays and the linked list. */
    method PerformAll(steps: seq<Runs.Step>) returns (sent: seq<Packet>, halted: bool)
      requires Valid() && Invariants.Inv(cfg, View()) && Runs.ProperSteps(steps)
      modifies slots, list, list.nodes
      ensures Valid() && var end := Runs.Run(cfg, old(View()), steps);
        sent == end.sent && halted == end.halted && (!halted ==> View() == end.state && Invariants.Inv(cfg, View()))
    {
      sent, halted := [], false;
      ghost var s := View();
      Runs.OutcomeAtEnds(cfg, s, steps, []);
      var rest := steps;
      while rest != []
        invariant Valid() && Invariants.Inv(cfg, View()) && Runs.ProperSteps(rest)
        invariant !halted && Runs.Outcome(cfg, View(), rest, sent) == Runs.Run(cfg, s, steps)
        decreases |rest|
      {
        Runs.OutcomeUnfolds(cfg, View(), rest, sent);
        var packets;
        packets, halted := Perform(rest[0]);
        sent := sent + packets;
        if halted {
          return;
        }
        rest := rest[1..];
      }
      Runs.OutcomeAtEnds(cfg, View(), rest, sent);
    }
  }

  // ---- Facts about opening ----

  /** How a slot finder ends: with a slot, with an error, or in a call that goes nowhere. */
  datatype Choice = Chosen(slot: nat) | Denied(error: nat) | Broken

  /** The outcome of a slot finder is the pick, with its closings done. */
  ghost predicate Picked(p: Pick, kind: Kind, choice: Choice, before: State, after: State) {
    match p
    case Slot(c, k, t) => choice == Chosen(c) && kind == k && after == t
    case NoSlot(e) => choice == Denied(e) && after == before
    case NullCall => choice == Broken && after == before
  }

  /** The outcome of an open: its reply and, unless that was the end, its state. */
  ghost predicate Ends(after: State, reply: Reply, outcome: (State, Reply)) {
    reply == outcome.1 && (!reply.Fatal? ==> after == outcome.0)
  }

  /** `PickOwner` once the entry is found. */
  ghost function ClaimOwner(s: State, c: nat, r: Request): Pick
    requires InRange(s) && r.path.Path? && c < |s.slots|
  {
    match First(s.slots, s.active, Owner(r.path.input))
    case None => Slot(c, ExclusiveOwner, s)
    case Some(o) =>
      if !(s.slots[o].state == TimedOut && SameOriginator(r.triad, s.slots[o].triad)) then NoSlot(ERROR_OWNERSHIP)
      else if !s.slots[c].closable then NullCall
      else Slot(c, ExclusiveOwner, Close(s, c))
  }

  /** A timed-out slot of an entry holds a connection of the entry's type. */
  lemma StaleKind(cfg: Config, s: State, e: Entry, kind: Kind)
    requires Invariants.Inv(cfg, s) && Reserves(cfg.homes, kind, e)
    ensures Kindred(s, e, kind)
  {
  }

  lemma PickFromCases(e: Entry, kind: Kind, s: State, triad: Triad, stale: Option<nat>)
    requires InRange(s) && e.base + e.size <= |s.slots| && stale == Stale(s.slots, e.base, e.base + e.size, triad)
    ensures PickFrom(e, kind, s, triad) ==
      if stale.Some? then Slot(stale.value, kind, Close(s, stale.value))
      else match Free(s.slots, e.base, e.base + e.size)
        case Some(c) => Slot(c, kind, s)
        case None => NoSlot(ERROR_OUT_OF_CONNECTIONS)
  {
  }

  ghost predicate Kindred(s: State, e: Entry, kind: Kind) {
    e.base + e.size <= |s.slots| &&
    forall c :: e.base <= c < e.base + e.size && s.slots[c].state == TimedOut ==> s.slots[c].kind == kind
  }

  lemma KindredAt(s: State, e: Entry, kind: Kind, c: nat)
    requires Kindred(s, e, kind) && e.base <= c < e.base + e.size && s.slots[c].state == TimedOut
    ensures s.slots[c].kind == kind
  {
  }

  lemma ExplicitInSteps(cfg: Config, s: State, r: Request, number: nat, c: nat)
    requires r.path.Path? && Fits(cfg, s) && c < |s.slots|
    requires Free(s.slots, cfg.explicits.base, cfg.explicits.base + cfg.explicits.size) == Some(c)
    ensures Lifecycle.EstablishExplicit(cfg, s, r, number) ==
      if |s.active| >= NodePoolSize(cfg) then (s, Fatal)
      else (Listed(s.(slots := s.slots[c := Configured(r, Draft(r, Explicit, number)).(closable := true)]), c), Accepted(c))
  {
    var k := Configured(r, Draft(r, Explicit, number)).(closable := true);
    assert s.slots[c := k][c := k.(state := Established)] == s.slots[c := k.(state := Established)];
  }

  lemma {:induction false} FirstEntryAt(entries: seq<Entry>, p: PathResult, i: nat)
    requires p.Path? && i < |entries| && Serves(entries[i], p) && forall j :: 0 <= j < i ==> !Serves(entries[j], p)
    ensures FirstEntry(entries, p) == Some(i)
  {
    if i > 0 {
      assert forall j :: 0 <= j < i - 1 ==> entries[1..][j] == entries[j + 1];
      FirstEntryAt(entries[1..], p, i - 1);
    }
  }

  lemma FirstEntryNone(entries: seq<Entry>, p: PathResult)
    requires p.Path? && forall j :: 0 <= j < |entries| ==> !Serves(entries[j], p)
    ensures FirstEntry(entries, p).None?
  {
  }

  predicate Compatible(k: Conn, input: nat, p: Production) {
    k.input == input ==> k.production == p
  }

  lemma {:induction false} MismatchAt(slots: seq<Conn>, xs: seq<nat>, input: nat, p: Production, k: nat)
    requires (forall x :: x in xs ==> x < |slots|) && k <= |xs|
    requires forall j :: 0 <= j < k ==> xs[j] < |slots| && Compatible(slots[xs[j]], input, p)
    requires k < |xs| ==> xs[k] < |slots| && !Compatible(slots[xs[k]], input, p)
    ensures Mismatch(slots, xs, input, p) == if k < |xs| then Difference(p, slots[xs[k]].production) else 0
  {
    if k > 0 {
      assert forall x :: x in xs[1..] ==> x in xs;
      assert forall j :: 0 <= j < k - 1 ==> xs[1..][j] == xs[j + 1];
      MismatchAt(slots, xs[1..], input, p, k - 1);
    }
  }

  lemma {:induction false} MismatchUnlisted(slots: seq<Conn>, xs: seq<nat>, c: nat, k: Conn, input: nat, p: Production)
    requires (forall x :: x in xs ==> x < |slots|) && c < |slots| && c !in xs
    ensures Mismatch(slots[c := k], xs, input, p) == Mismatch(slots, xs, input, p)
  {
    if xs != [] {
      assert xs[0] in xs && forall x :: x in xs[1..] ==> x in xs;
      MismatchUnlisted(slots, xs[1..], c, k, input, p);
    }
  }

  lemma SetupErrorIgnores(s: State, c: nat, k: Conn, r: Request, p: Production)
    requires r.path.Path? && InRange(s) && c < |s.slots| && c !in s.active
    ensures SetupError(s.(slots := s.slots[c := k]), r, p) == SetupError(s, r, p)
  {
    MismatchUnlisted(s.slots, s.active, c, k, r.path.input, p);
  }

  /** What slot `c` held before is of no consequence. */
  lemma AttachForgets(s: State, c: nat, old_k: Conn, k: Conn, socket: nat)
    requires InRange(s) && c < |s.slots| && c !in s.active
    ensures Attach(s.(slots := s.slots[c := old_k]), c, k, socket) == Attach(s, c, k, socket)
  {
    FirstUnlisted(s.slots, s.active, c, old_k, Producer(true, k.input));
    var t := s.(slots := s.slots[c := old_k]);
    assert Attach(t, c, k, socket).slots == Attach(s, c, k, socket).slots;
  }

  /** The producing side of slot `c` opened, before it is listed. */
  ghost function Channelled(s: State, c: nat, socket: nat): (t: State)
    requires InRange(s) && c < |s.slots|
    ensures |t.slots| == |s.slots| && t.active == s.active
  {
    var k := s.slots[c];
    if k.tToO == PointToPoint then s.(slots := s.slots[c := k.(producing := socket)])
    else if k.tToO != Multicast then s
    else match First(s.slots, s.active, Producer(true, k.input))
      case None => s.(slots := s.slots[c := k.(producing := socket)])
      case Some(m) => Joined(s, c, m)
  }

  ghost function Joined(s: State, c: nat, m: nat): (t: State)
    requires c < |s.slots| && m < |s.slots|
    ensures |t.slots| == |s.slots| && t.active == s.active
  {
    var joined := s.slots[c].(producedId := s.slots[m].producedId);
    if joined.kind == ExclusiveOwner then
      s.(slots := s.slots[m := s.slots[m].(producing := INVALID_SOCKET)][c := joined.(producing := s.slots[m].producing)])
    else s.(slots := s.slots[c := joined.(producing := INVALID_SOCKET)])
  }

  ghost function Listed(s: State, c: nat): State
    requires c < |s.slots|
  {
    State(s.slots[c := s.slots[c].(state := Established)], [c] + s.active)
  }

  lemma AttachInSteps(s: State, c: nat, k: Conn, socket: nat)
    requires InRange(s) && c < |s.slots| && c !in s.active && k.producing == INVALID_SOCKET
    ensures Listed(Channelled(s.(slots := s.slots[c := k]), c, socket), c) == Attach(s, c, k, socket)
  {
    FirstUnlisted(s.slots, s.active, c, k, Producer(true, k.input));
    var t := s.(slots := s.slots[c := k]);
    assert Listed(Channelled(t, c, socket), c).slots == Attach(s, c, k, socket).slots;
  }

  /** `EstablishIo` from the chosen slot on. */
  ghost function SetUpOutcome(cfg: Config, t: State, c: nat, kind: Kind, r: Request, number: nat): (State, Reply)
    requires r.path.Path? && InRange(t) && c < |t.slots|
  {
    var draft := Draft(r, kind, number);
    match Inhibit(r.production)
    case None => (t.(slots := t.slots[c := draft]), Refused(CONNECTION_FAILURE, ERROR_INHIBIT))
    case Some(p) =>
      var k := Configured(r, draft).(production := p, closable := true);
      var error := SetupError(t, r, p);
      if error != 0 then (t.(slots := t.slots[c := k]), Refused(CONNECTION_FAILURE, error))
      else if !r.channelsOpen then (t.(slots := t.slots[c := k]), Refused(CONNECTION_FAILURE, 0))
      else if |t.active| >= NodePoolSize(cfg) then (t.(slots := t.slots[c := k]), Fatal)
      else (Attach(t, c, Lifecycle.Wired(r, k), r.socket), Accepted(c))
  }

  /** One round of the closing walk. */
  lemma CloseRound(s: State, c: nat, kind: Kind, input: nat)
    requires InRange(s) && Distinct(s.active) && c in s.active
    ensures var t, rest := CloseIfMate(s, c, kind, input), After(s.active, c);
      && InRange(t) && Distinct(t.active)
      && (rest == [] ==> CloseFrom(s, c, kind, input) == (t, false))
      && (rest != [] && rest[0] !in t.active ==> CloseFrom(s, c, kind, input) == (t, true))
      && (rest != [] && rest[0] in t.active ==>
           CloseFrom(s, c, kind, input) == CloseFrom(t, rest[0], kind, input) && |After(t.active, rest[0])| < |After(s.active, c)|)
  {
    var t := CloseIfMate(s, c, kind, input);
    CloseIfMateShrinks(s, c, kind, input);
    ShrunkKeepsOrder(s, t);
    if After(s.active, c) != [] {
      AfterTail(s.active, c);
    }
  }

  /** Listeners hold no socket of their own kind to hand over, so closing them is never fatal. */
  lemma ListenersWalk(s: State, input: nat)
    requires InRange(s) && Distinct(s.active)
    ensures CloseMates(s, ListenOnly, input) == (DropAll(s, Mates(s, ListenOnly, input)), false)
  {
    SettledWalk(s, ListenOnly, input);
  }

  /** The walk over the input-only connections does not touch an owner that timed out. */
  lemma {:induction false} CloseFromKeepsOwn(s: State, at: nat, input: nat, c: nat)
    requires InRange(s) && Distinct(s.active) && at in s.active && c < |s.slots|
    requires s.slots[c].kind == ExclusiveOwner && s.slots[c].state == TimedOut
    ensures CloseFrom(s, at, InputOnly, input).0.slots[c] == s.slots[c]
    decreases |After(s.active, at)|
  {
    var t := CloseIfMate(s, at, InputOnly, input);
    CloseRound(s, at, InputOnly, input);
    assert t.slots[c] == s.slots[c];
    if After(s.active, at) != [] && After(s.active, at)[0] in t.active {
      CloseFromKeepsOwn(t, After(s.active, at)[0], input, c);
    }
  }

  lemma HalfKeepsOwn(s: State, c: nat)
    requires InRange(s) && c < |s.slots| && s.slots[c].state == TimedOut && s.slots[c].kind != Explicit
    ensures var k := Half(s, c).slots[c]; k.state == TimedOut && k.kind == s.slots[c].kind && k.input == s.slots[c].input
  {
  }

  lemma DependentsKeepOwn(s: State, input: nat, c: nat)
    requires InRange(s) && Distinct(s.active) && c < |s.slots| && s.slots[c].kind == ExclusiveOwner && s.slots[c].state == TimedOut
    ensures Lifecycle.DropDependents(s, input).0.slots[c] == s.slots[c]
  {
    if s.active != [] {
      CloseFromKeepsOwn(s, s.active[0], input, c);
    }
  }

  /** Nor does anything else that follows its timeout; marking it once more changes nothing. */
  lemma FallKeepsOwn(s: State, c: nat)
    requires InRange(s) && Distinct(s.active) && c < |s.slots| && s.slots[c].state == TimedOut && s.slots[c].kind != Explicit
    ensures var u, f := Half(s, c), Fall(s, c).0;
      && InRange(u) && Distinct(u.active) && u.slots[c].kind == s.slots[c].kind && u.slots[c].input == s.slots[c].input
      && f.slots[c := f.slots[c].(state := TimedOut)] == f.slots
  {
    var u := Half(s, c);
    HalfShrinks(s, c);
    ShrunkKeepsOrder(s, u);
    HalfKeepsOwn(s, c);
    if s.slots[c].kind == ExclusiveOwner && !HandsOver(s, c) {
      DependentsKeepOwn(u, s.slots[c].input, c);
    }
    assert Fall(s, c).0.slots[c].state == TimedOut;
  }

  /** The outcome of a walk that has sent `sent` and stands at `c`. */
  ghost function Remains(s: State, c: nat, elapsed: nat, env: Surroundings, sent: seq<Packet>): Progress
    requires InRange(s) && Distinct(s.active) && c in s.active
  {
    var end := TickFrom(s, c, elapsed, env);
    end.(sent := sent + end.sent)
  }

  /** A visit leaves the walk somewhere further down the list, or at its end. */
  lemma VisitMovesOn(s: State, c: nat, elapsed: nat, env: Surroundings)
    requires InRange(s) && Distinct(s.active) && c in s.active
    ensures var t := Service(s, c, elapsed, env).state;
      && InRange(t) && Distinct(t.active)
      && (c in t.active && After(t.active, c) != [] ==>
        After(t.active, c)[0] in t.active && |After(t.active, After(t.active, c)[0])| < |After(s.active, c)|)
  {
    var t := Service(s, c, elapsed, env).state;
    ServiceShrinks(s, c, elapsed, env);
    ShrunkKeepsOrder(s, t);
    if c in t.active && After(t.active, c) != [] {
      AfterTail(t.active, c);
    }
  }

  lemma TickUnfolds(s: State, c: nat, elapsed: nat, env: Surroundings, sent: seq<Packet>, visit: Progress, t: State)
    requires InRange(s) && Distinct(s.active) && c in s.active && Service(s, c, elapsed, env) == visit && visit.state == t
    requires InRange(t) && Distinct(t.active)
    ensures visit.halted || c !in t.active || After(t.active, c) == [] ==>
      Remains(s, c, elapsed, env, sent) == visit.(sent := sent + visit.sent)
    ensures !visit.halted && c in t.active && After(t.active, c) != [] && After(t.active, c)[0] in t.active ==>
      Remains(s, c, elapsed, env, sent) == Remains(t, After(t.active, c)[0], elapsed, env, sent + visit.sent)
  {
    if !visit.halted && c in t.active && After(t.active, c) != [] && After(t.active, c)[0] in t.active {
      var more := TickFrom(t, After(t.active, c)[0], elapsed, env).sent;
      assert sent + (visit.sent + more) == (sent + visit.sent) + more;
    }
  }

  /** One round accounts for the first frames of the walk, and the rest of the walk for the others. */
  lemma TickStep(cfg: Config, s: State, c: nat, elapsed: nat, env: Surroundings, sent: seq<Packet>)
    requires Invariants.Inv(cfg, s) && c in s.active
    ensures var visit := Service(s, c, elapsed, env);
      var t := visit.state;
      && Invariants.Inv(cfg, t)
      && (if visit.halted || c !in t.active || After(t.active, c) == [] then
            Remains(s, c, elapsed, env, sent) == visit.(sent := sent + visit.sent)
          else
            var n := After(t.active, c)[0];
            && n in t.active && |After(t.active, n)| < |After(s.active, c)|
            && Remains(t, n, elapsed, env, sent + visit.sent) == Remains(s, c, elapsed, env, sent))
  {
    var visit := Service(s, c, elapsed, env);
    Invariants.ServiceInv(cfg, s, c, elapsed, env);
    VisitMovesOn(s, c, elapsed, env);
    TickUnfolds(s, c, elapsed, env, sent, visit, visit.state);
  }
}
