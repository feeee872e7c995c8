/** When the timeout of an exclusive owner makes its walk follow the node of a listener that was freed meanwhile. */
module Timeouts {
  import opened Wrappers
  import opened Sequences
  import opened Connections
  import opened Lifecycle
  import opened Invariants
  import opened Runs
  import Timing

  // ---- The exact condition, on the connections in list order ----

  /** An input-only connection that holds the multicast socket of input `p`. */
  predicate Leads(k: Conn, p: nat) {
    k.kind == InputOnly && k.input == p && Holds(k)
  }

  /** One that holds it or could take it over. */
  predicate InLine(k: Conn, p: nat) {
    k.kind == InputOnly && k.input == p && k.tToO == Multicast && (k.producing != INVALID_SOCKET || k.state == Established)
  }

  predicate Listens(k: Conn, p: nat) {
    k.kind == ListenOnly && k.input == p
  }

  /** From the master at position `h` on, the last connection in line is at position `l`, and a listener follows it. */
  predicate Trap(ks: seq<Conn>, p: nat, h: nat, l: nat) {
    && h <= l && l + 1 < |ks| && Leads(ks[h], p) && InLine(ks[l], p) && Listens(ks[l + 1], p)
    && NoneInLine(ks[l + 1..], p)
  }

  predicate NoneInLine(ks: seq<Conn>, p: nat) {
    forall k :: k in ks ==> !InLine(k, p)
  }

  ghost predicate Doomed(ks: seq<Conn>, p: nat) {
    exists h: nat, l: nat :: Trap(ks, p, h, l)
  }

  lemma NoneFrom(ks: seq<Conn>, from: nat, p: nat)
    requires from <= |ks| && NoneInLine(ks[from..], p)
    ensures forall j :: from <= j < |ks| ==> !InLine(ks[j], p)
  {
    assert forall j :: from <= j < |ks| ==> ks[j] == ks[from..][j - from];
  }

  lemma TrapShifts(k: Conn, ks: seq<Conn>, p: nat, h: nat, l: nat)
    ensures Trap([k] + ks, p, h + 1, l + 1) <==> Trap(ks, p, h, l)
  {
    var all := [k] + ks;
    if h <= l && l + 1 < |ks| {
      assert all[h + 1] == ks[h] && all[l + 1] == ks[l] && all[l + 2] == ks[l + 1] && all[l + 2..] == ks[l + 1..];
    }
  }

  /** A connection that does not lead makes no difference at the front. */
  lemma DoomedBehind(k: Conn, ks: seq<Conn>, p: nat)
    requires !Leads(k, p)
    ensures Doomed([k] + ks, p) <==> Doomed(ks, p)
  {
    if Doomed([k] + ks, p) {
      var h: nat, l: nat :| Trap([k] + ks, p, h, l);
      TrapShifts(k, ks, p, h - 1, l - 1);
    }
    if Doomed(ks, p) {
      var h: nat, l: nat :| Trap(ks, p, h, l);
      TrapShifts(k, ks, p, h, l);
    }
  }

  /** A master may leave once another connection in line holds its socket. */
  lemma DoomedHandedOn(k: Conn, ks: seq<Conn>, m: nat, now: seq<Conn>, p: nat)
    requires Leads(k, p) && m < |ks| && InLine(ks[m], p) && |now| == |ks| && Leads(now[m], p)
    requires forall j :: 0 <= j < |ks| && j != m ==> now[j] == ks[j]
    ensures Doomed([k] + ks, p) <==> Doomed(now, p)
  {
    if Doomed([k] + ks, p) {
      var h: nat, l: nat :| Trap([k] + ks, p, h, l);
      TrapHandedOn(k, ks, m, now, p, h, l);
    }
    if Doomed(now, p) {
      var h: nat, l: nat :| Trap(now, p, h, l);
      TrapHandedBack(k, ks, m, now, p, h, l);
    }
  }

  lemma TrapHandedOn(k: Conn, ks: seq<Conn>, m: nat, now: seq<Conn>, p: nat, h: nat, l: nat)
    requires Leads(k, p) && m < |ks| && InLine(ks[m], p) && |now| == |ks| && Leads(now[m], p)
    requires forall j :: 0 <= j < |ks| && j != m ==> now[j] == ks[j]
    requires Trap([k] + ks, p, h, l)
    ensures l > 0 && Trap(now, p, m, l - 1)
  {
    var all := [k] + ks;
    NoneFrom(all, l + 1, p);
    assert InLine(all[m + 1], p);
    assert all[l + 1..] == now[l..];
  }

  lemma TrapHandedBack(k: Conn, ks: seq<Conn>, m: nat, now: seq<Conn>, p: nat, h: nat, l: nat)
    requires Leads(k, p) && m < |ks| && InLine(ks[m], p) && |now| == |ks| && Leads(now[m], p)
    requires forall j :: 0 <= j < |ks| && j != m ==> now[j] == ks[j]
    requires Trap(now, p, h, l)
    ensures Trap([k] + ks, p, 0, l + 1)
  {
    var all := [k] + ks;
    NoneFrom(now, l + 1, p);
    assert all[l + 1] == ks[l] && all[l + 2] == now[l + 1] && all[l + 2..] == now[l + 1..];
  }

  /** The last in line is doomed exactly by a listener right behind it. */
  lemma DoomedLast(k: Conn, ks: seq<Conn>, p: nat)
    requires Leads(k, p) && NoneInLine(ks, p)
    ensures Doomed([k] + ks, p) <==> ks != [] && Listens(ks[0], p)
  {
    var all := [k] + ks;
    assert all[1..] == ks && forall j :: 0 <= j < |ks| ==> all[j + 1] == ks[j] && ks[j] in ks;
    if ks != [] && Listens(ks[0], p) {
      assert Trap(all, p, 0, 0);
    }
  }

  // ---- The walk ----

  /** The connections in the slots `xs`. */
  function View(slots: seq<Conn>, xs: seq<nat>): (ks: seq<Conn>)
    requires forall x :: x in xs ==> x < |slots|
    ensures |ks| == |xs| && forall i :: 0 <= i < |xs| ==> xs[i] in xs && ks[i] == slots[xs[i]]
  {
    seq(|xs|, i requires 0 <= i < |xs| => (assert xs[i] in xs; slots[xs[i]]))
  }

  /** What the walk has before it, from `c` on. */
  function Remaining(s: State, c: nat): seq<Conn>
    requires InRange(s) && c in s.active
  {
    AfterIn(s.active, c);
    View(s.slots, [c] + After(s.active, c))
  }

  /** No input-only connection of the input is behind `c`, and no owner of the input is up. */
  ghost predicate Midway(s: State, c: nat, p: nat)
    requires InRange(s)
  {
    && c in s.active
    && (forall a :: a in s.active && s.slots[a].kind == InputOnly && s.slots[a].input == p ==> a == c || a in After(s.active, c))
    && (forall a :: a in s.active && s.slots[a].kind == ExclusiveOwner && s.slots[a].input == p ==> s.slots[a].state != Established)
  }

  /** A round that at most takes `c` off the list, and gives its socket to a connection `m` ahead. */
  lemma MidwayNext(s: State, c: nat, p: nat, t: State, here: set<nat>)
    requires InRange(s) && Distinct(s.active) && Midway(s, c, p) && After(s.active, c) != [] && here <= {c}
    requires |t.slots| == |s.slots| && t.active == Without(s.active, here)
    requires forall a :: a in t.active ==>
      t.slots[a].kind == s.slots[a].kind && t.slots[a].input == s.slots[a].input && t.slots[a].state == s.slots[a].state
    requires c in here || s.slots[c].kind != InputOnly || s.slots[c].input != p
    ensures var n := After(s.active, c)[0];
      && InRange(t) && Distinct(t.active) && Midway(t, n, p)
      && [n] + After(t.active, n) == After(s.active, c)
  {
    StepOn(s.active, c, here);
  }

  /** Moving on from `c`: what lies ahead is the rest, in the slots as they then are. */
  lemma RemainingNext(s: State, c: nat, t: State, here: set<nat>)
    requires InRange(s) && Distinct(s.active) && c in s.active && After(s.active, c) != [] && here <= {c}
    requires |t.slots| == |s.slots| && t.active == Without(s.active, here) && InRange(t)
    ensures var rest := After(s.active, c);
      && (forall a :: a in rest ==> a in s.active && a in t.active && a != c) && rest[0] in t.active
      && Remaining(s, c) == [s.slots[c]] + View(s.slots, rest)
      && Remaining(t, rest[0]) == View(t.slots, rest)
  {
    StepOn(s.active, c, here);
    AfterIn(s.active, c);
  }

  /** The round of a connection that does not lead. */
  lemma WalkPast(s: State, c: nat, p: nat, t: State)
    requires InRange(s) && Distinct(s.active) && Midway(s, c, p) && After(s.active, c) != []
    requires !Leads(s.slots[c], p) && t == CloseIfMate(s, c, InputOnly, p)
    ensures var n := After(s.active, c)[0];
      && InRange(t) && Distinct(t.active) && Midway(t, n, p)
      && (Doomed(Remaining(s, c), p) <==> Doomed(Remaining(t, n), p))
  {
    var rest, here := After(s.active, c), if c in Mates(s, InputOnly, p) then {c} else {};
    DropAllNone(s);
    assert t == DropAll(s, here);
    MidwayNext(s, c, p, t, here);
    RemainingNext(s, c, t, here);
    assert View(s.slots, rest) == View(t.slots, rest);
    DoomedBehind(s.slots[c], View(s.slots, rest), p);
  }

  /** The heir of a master at the cursor is an input-only connection ahead. */
  lemma HeirRemains(s: State, c: nat, p: nat)
    requires InRange(s) && Midway(s, c, p) && Leads(s.slots[c], p) && Heir(s, c).Some?
    ensures var m := Heir(s, c).value; m in After(s.active, c) && m != c && InLine(s.slots[m], p) && s.slots[m].producing == INVALID_SOCKET
  {
  }

  /** `c` is off the list, its heir `m` leads, and the others are as they were. */
  ghost predicate HandedOn(s: State, c: nat, t: State, m: nat, p: nat)
    requires InRange(s)
  {
    && |t.slots| == |s.slots| && t.active == Without(s.active, {c}) && InRange(t)
    && (forall a :: a in t.active && a != m ==> t.slots[a] == s.slots[a])
    && m in After(s.active, c) && m < |s.slots| && t.slots[m].state == s.slots[m].state && InLine(s.slots[m], p) && Leads(t.slots[m], p)
  }

  lemma HandsOn(s: State, c: nat, p: nat, t: State, m: nat)
    requires InRange(s) && Midway(s, c, p) && Leads(s.slots[c], p) && Heir(s, c) == Some(m) && t == CloseIfMate(s, c, InputOnly, p)
    ensures HandedOn(s, c, t, m, p)
  {
    HeirRemains(s, c, p);
  }

  /** The round of a master that hands its socket on. */
  lemma WalkHandsOn(s: State, c: nat, p: nat, t: State, m: nat)
    requires InRange(s) && Distinct(s.active) && Midway(s, c, p) && After(s.active, c) != []
    requires Leads(s.slots[c], p) && HandedOn(s, c, t, m, p)
    ensures var n := After(s.active, c)[0];
      && InRange(t) && Distinct(t.active) && Midway(t, n, p)
      && (Doomed(Remaining(s, c), p) <==> Doomed(Remaining(t, n), p))
  {
    var rest := After(s.active, c);
    MidwayNext(s, c, p, t, {c});
    RemainingNext(s, c, t, {c});
    AfterDistinct(s.active, c);
    DoomedHandedOn(s.slots[c], View(s.slots, rest), IndexOf(rest, m), View(t.slots, rest), p);
  }

  lemma AfterDistinct(xs: seq<nat>, c: nat)
    requires Distinct(xs) && c in xs
    ensures Distinct(After(xs, c))
  {
    AfterAt(xs, IndexOf(xs, c));
  }

  /** Without an heir, nobody else of the input is in line. */
  lemma NobodyInLine(s: State, c: nat, p: nat)
    requires InRange(s) && SingleMaster(s) && c in s.active && Leads(s.slots[c], p) && Heir(s, c).None?
    ensures forall a :: a in s.active && a != c ==> !InLine(s.slots[a], p)
  {
    forall a | a in s.active && a != c
      ensures !InLine(s.slots[a], p)
    {
      assert !Matches(s.slots[a], NextMaster(p));
    }
  }

  /** The last master is doomed exactly by a listener that is next. */
  lemma BehindLast(s: State, c: nat, p: nat)
    requires InRange(s) && Distinct(s.active) && SingleMaster(s) && c in s.active && Leads(s.slots[c], p) && Heir(s, c).None?
    ensures var rest := After(s.active, c);
      Doomed(Remaining(s, c), p) <==> rest != [] && rest[0] in s.active && Listens(s.slots[rest[0]], p)
  {
    var rest := After(s.active, c);
    AfterIn(s.active, c);
    AfterAt(s.active, IndexOf(s.active, c));
    NobodyInLine(s, c, p);
    assert Remaining(s, c) == [s.slots[c]] + View(s.slots, rest);
    DoomedLast(s.slots[c], View(s.slots, rest), p);
  }

  /** After its close nobody has to look for a new master. */
  lemma SettledAfterLast(s: State, c: nat, p: nat, t: State)
    requires InRange(s) && SingleMaster(s) && c in s.active && Leads(s.slots[c], p) && Heir(s, c).None?
    requires t == CloseIfMate(s, c, InputOnly, p)
    ensures InRange(t) && Settled(t, InputOnly, p)
  {
  }

  /** The round of the last master: fatal at once if a listener is next, harmless from then on if not. */
  lemma WalkEnds(s: State, c: nat, p: nat)
    requires InRange(s) && Distinct(s.active) && SingleMaster(s) && c in s.active && Leads(s.slots[c], p) && Heir(s, c).None?
    ensures CloseFrom(s, c, InputOnly, p).1 <==> Doomed(Remaining(s, c), p)
  {
    var rest, t := After(s.active, c), CloseIfMate(s, c, InputOnly, p);
    BehindLast(s, c, p);
    if rest != [] {
      FatalRound(s, c, InputOnly, p);
      CloseIfMateShrinks(s, c, InputOnly, p);
      ShrunkKeepsOrder(s, t);
      SettledAfterLast(s, c, p, t);
      if rest[0] in t.active {
        SettledFrom(t, rest[0], InputOnly, p);
      }
    }
  }

  /** From any point of the walk: it meets a freed node if and only if what lies ahead is doomed. */
  lemma {:induction false} WalkFatalExactly(cfg: Config, s: State, c: nat, p: nat)
    requires Inv(cfg, s) && Midway(s, c, p)
    ensures CloseFrom(s, c, InputOnly, p).1 <==> Doomed(Remaining(s, c), p)
    decreases |After(s.active, c)|
  {
    var t := CloseIfMate(s, c, InputOnly, p);
    CloseIfMateShrinks(s, c, InputOnly, p);
    ShrunkKeepsOrder(s, t);
    if Leads(s.slots[c], p) && Heir(s, c).None? {
      WalkEnds(s, c, p);
    } else if After(s.active, c) != [] {
      AfterTail(s.active, c);
      CloseInv(cfg, s, c);
      if Leads(s.slots[c], p) {
        HandsOn(s, c, p, t, Heir(s, c).value);
        WalkHandsOn(s, c, p, t, Heir(s, c).value);
      } else {
        WalkPast(s, c, p, t);
      }
      WalkFatalExactly(cfg, t, After(s.active, c)[0], p);
    } else if Leads(s.slots[c], p) {
      HeirRemains(s, c, p);
    }
  }

  // ---- A timeout, a visit, a tick ----

  /** The timeout of this owner leaves the input-only connections to the walk, and the walk is doomed. */
  ghost predicate Trapped(s: State, c: nat, sessions: seq<nat>)
    requires InRange(s) && Distinct(s.active) && c < |s.slots|
  {
    var u := CloseSessions(Expire(s, c), sessions);
    s.slots[c].kind == ExclusiveOwner && !MustHandOver(s.slots[c]) && Doomed(View(u.slots, u.active), s.slots[c].input)
  }

  /** Once the owner is down, the walk over its input-only connections starts with everything ahead. */
  lemma DropFatalExactly(cfg: Config, u: State, p: nat)
    requires Inv(cfg, u)
    requires forall a :: a in u.active && u.slots[a].kind == ExclusiveOwner && u.slots[a].input == p ==> u.slots[a].state != Established
    ensures DropDependents(u, p).1 <==> Doomed(View(u.slots, u.active), p)
  {
    if u.active != [] {
      var c := u.active[0];
      assert u.active == [c] + After(u.active, c);
      assert Midway(u, c, p);
      WalkFatalExactly(cfg, u, c, p);
    }
  }

  /** A master without an heir takes its listeners along before the walk, which then finds nobody to hand over. */
  lemma MasterIsSafe(cfg: Config, u: State, c: nat)
    requires Inv(cfg, u) && c in u.active && MustHandOver(u.slots[c])
    ensures !Fall(u, c).1
  {
    if u.slots[c].kind == ExclusiveOwner && !HandsOver(u, c) {
      var h := Half(u, c);
      HalfInv(cfg, u, c);
      assert Settled(h, InputOnly, u.slots[c].input);
      SettledWalk(h, InputOnly, u.slots[c].input);
    }
  }

  /** The timeout of an established connection is fatal if and only if it is an owner that is trapped. */
  lemma TimeOutFatalExactly(cfg: Config, s: State, c: nat, sessions: seq<nat>)
    requires Inv(cfg, s) && c in s.active && s.slots[c].state == Established
    ensures TimeOut(s, c, sessions).1 <==> Trapped(s, c, sessions)
  {
    if s.slots[c].kind != Explicit {
      var u, p := CloseSessions(Expire(s, c), sessions), s.slots[c].input;
      ExpiredAndSessions(cfg, s, c, sessions);
      if MustHandOver(s.slots[c]) {
        MasterIsSafe(cfg, u, c);
      } else if s.slots[c].kind == ExclusiveOwner {
        forall a | a in u.active && u.slots[a].kind == ExclusiveOwner && u.slots[a].input == p
          ensures u.slots[a].state != Established
        {
          if a != c {
            OneEstablishedOwner(cfg, s, a, c);
          }
        }
        DropFatalExactly(cfg, u, p);
      }
    }
  }

  /** A visit is fatal exactly when the watchdog fires for a trapped owner. */
  lemma VisitFatalExactly(cfg: Config, s: State, c: nat, elapsed: nat, env: Surroundings)
    requires Inv(cfg, s) && c in s.active
    ensures Service(s, c, elapsed, env).halted <==> WatchdogFires(s.slots[c], elapsed) && Trapped(s, c, ClosingWith(env, c))
  {
    if WatchdogFires(s.slots[c], elapsed) {
      TimeOutFatalExactly(cfg, s, c, ClosingWith(env, c));
    }
  }

  /** The walk of a tick that is at `c` in state `s` comes to `d` in state `t`. */
  ghost predicate Comes(s: State, c: nat, elapsed: nat, env: Surroundings, t: State, d: nat)
    requires InRange(s) && Distinct(s.active) && c in s.active
    decreases |After(s.active, c)|
  {
    (t == s && d == c) ||
    (var visit := Service(s, c, elapsed, env);
     ServiceShrinks(s, c, elapsed, env);
     ShrunkKeepsOrder(s, visit.state);
     && !visit.halted && c in visit.state.active && After(visit.state.active, c) != []
     && (AfterTail(visit.state.active, c);
         Comes(visit.state, After(visit.state.active, c)[0], elapsed, env, t, d)))
  }

  /** A visit to an owner whose watchdog fires and who is trapped. */
  ghost predicate Springs(cfg: Config, s: State, c: nat, elapsed: nat, env: Surroundings) {
    Inv(cfg, s) && c in s.active && WatchdogFires(s.slots[c], elapsed) && Trapped(s, c, ClosingWith(env, c))
  }

  ghost predicate ComesToTrap(cfg: Config, s: State, c: nat, elapsed: nat, env: Surroundings)
    requires InRange(s) && Distinct(s.active) && c in s.active
  {
    exists t, d :: Comes(s, c, elapsed, env, t, d) && Springs(cfg, t, d, elapsed, env)
  }

  /** The walk comes to a trap here or further on. */
  lemma TrapHereOrBehind(cfg: Config, s: State, c: nat, elapsed: nat, env: Surroundings, u: State, n: nat)
    requires InRange(s) && Distinct(s.active) && c in s.active && u == Service(s, c, elapsed, env).state && InRange(u) && Distinct(u.active)
    requires !Service(s, c, elapsed, env).halted && c in u.active && After(u.active, c) != [] && n == After(u.active, c)[0] && n in u.active
    ensures ComesToTrap(cfg, s, c, elapsed, env) <==> Springs(cfg, s, c, elapsed, env) || ComesToTrap(cfg, u, n, elapsed, env)
  {
    if Springs(cfg, s, c, elapsed, env) {
      assert Comes(s, c, elapsed, env, s, c);
    }
    if ComesToTrap(cfg, u, n, elapsed, env) {
      var t, d :| Comes(u, n, elapsed, env, t, d) && Springs(cfg, t, d, elapsed, env);
      assert Comes(s, c, elapsed, env, t, d);
    }
  }

  lemma TrapHere(cfg: Config, s: State, c: nat, elapsed: nat, env: Surroundings, u: State)
    requires InRange(s) && Distinct(s.active) && c in s.active && u == Service(s, c, elapsed, env).state
    requires Service(s, c, elapsed, env).halted || c !in u.active || After(u.active, c) == []
    ensures ComesToTrap(cfg, s, c, elapsed, env) <==> Springs(cfg, s, c, elapsed, env)
  {
    if Springs(cfg, s, c, elapsed, env) {
      assert Comes(s, c, elapsed, env, s, c);
    }
  }

  lemma {:induction false} WalkOfTickFatalExactly(cfg: Config, s: State, c: nat, elapsed: nat, env: Surroundings)
    requires Inv(cfg, s) && c in s.active
    ensures TickFrom(s, c, elapsed, env).halted <==> ComesToTrap(cfg, s, c, elapsed, env)
    decreases |After(s.active, c)|
  {
    var visit := Service(s, c, elapsed, env);
    var u := visit.state;
    ServiceInv(cfg, s, c, elapsed, env);
    ServiceShrinks(s, c, elapsed, env);
    ShrunkKeepsOrder(s, u);
    VisitFatalExactly(cfg, s, c, elapsed, env);
    if !visit.halted && c in u.active && After(u.active, c) != [] {
      AfterTail(u.active, c);
      TrapHereOrBehind(cfg, s, c, elapsed, env, u, After(u.active, c)[0]);
      WalkOfTickFatalExactly(cfg, u, After(u.active, c)[0], elapsed, env);
    } else {
      TrapHere(cfg, s, c, elapsed, env, u);
    }
  }

  /** A tick is fatal if and only if its walk comes, in some state, to an owner whose watchdog fires and who is trapped. */
  lemma TickFatalExactly(cfg: Config, s: State, elapsed: nat, env: Surroundings)
    requires Inv(cfg, s)
    ensures Tick(s, elapsed, env).halted <==> s.active != [] && s.active[0] in s.active && ComesToTrap(cfg, s, s.active[0], elapsed, env)
  {
    if s.active != [] {
      WalkOfTickFatalExactly(cfg, s, s.active[0], elapsed, env);
    }
  }

  // ---- Inputs on which everybody, or nobody, is multicast ----

  /** No listed connection produces on this input by multicast. */
  ghost predicate Unicast(s: State, p: nat)
    requires InRange(s)
  {
    forall c :: c in s.active && s.slots[c].kind != Explicit && s.slots[c].input == p ==> s.slots[c].tToO != Multicast
  }

  /** An input on which everybody, or nobody, is multicast. */
  ghost predicate Pure(s: State, p: nat)
    requires InRange(s)
  {
    Mastered(s, p) || Unicast(s, p)
  }

  /** Connections may go; those that stay are of the type they were. */
  ghost predicate SameTypes(s: State, t: State)
    requires InRange(s) && InRange(t)
  {
    forall c :: c in t.active ==>
      c in s.active && t.slots[c].kind == s.slots[c].kind && t.slots[c].input == s.slots[c].input && t.slots[c].tToO == s.slots[c].tToO
  }

  lemma CloseSameTypes(s: State, c: nat)
    requires InRange(s) && c < |s.slots|
    ensures InRange(Close(s, c)) && SameTypes(s, Close(s, c))
  {
  }

  lemma {:induction false} CloseFromSameTypes(s: State, c: nat, kind: Kind, input: nat)
    requires InRange(s) && Distinct(s.active) && c in s.active
    ensures SameTypes(s, CloseFrom(s, c, kind, input).0)
    decreases |After(s.active, c)|
  {
    var t := CloseIfMate(s, c, kind, input);
    CloseSameTypes(s, c);
    CloseIfMateShrinks(s, c, kind, input);
    ShrunkKeepsOrder(s, t);
    if After(s.active, c) != [] && After(s.active, c)[0] in t.active {
      AfterTail(s.active, c);
      CloseFromSameTypes(t, After(s.active, c)[0], kind, input);
    }
  }

  lemma {:induction false} CloseSessionsSameTypes(s: State, sessions: seq<nat>)
    requires InRange(s) && Distinct(s.active)
    ensures SameTypes(s, CloseSessions(s, sessions))
    decreases sessions
  {
    if sessions != [] {
      var c := First(s.slots, s.active, Class3(sessions[0]));
      if c.Some? {
        CloseSameTypes(s, c.value);
      }
      CloseSessionShrinks(s, sessions[0]);
      ShrunkKeepsOrder(s, CloseSession(s, sessions[0]));
      CloseSessionsSameTypes(CloseSession(s, sessions[0]), sessions[1..]);
    }
  }

  lemma DropDependentsSameTypes(s: State, input: nat)
    requires InRange(s) && Distinct(s.active)
    ensures InRange(DropDependents(s, input).0) && SameTypes(s, DropDependents(s, input).0)
  {
    if s.active != [] {
      CloseFromSameTypes(s, s.active[0], InputOnly, input);
    }
  }

  lemma HalfSameTypes(s: State, c: nat)
    requires InRange(s) && c < |s.slots|
    ensures InRange(Half(s, c)) && SameTypes(s, Half(s, c))
  {
  }

  lemma FallSameTypes(s: State, c: nat)
    requires InRange(s) && Distinct(s.active) && c < |s.slots|
    ensures InRange(Fall(s, c).0) && SameTypes(s, Fall(s, c).0)
  {
    HalfShrinks(s, c);
    ShrunkKeepsOrder(s, Half(s, c));
    HalfSameTypes(s, c);
    DropDependentsSameTypes(Half(s, c), s.slots[c].input);
  }

  lemma TimeOutSameTypes(s: State, c: nat, sessions: seq<nat>)
    requires InRange(s) && Distinct(s.active) && c < |s.slots|
    ensures InRange(TimeOut(s, c, sessions).0) && SameTypes(s, TimeOut(s, c, sessions).0)
  {
    if s.slots[c].kind == Explicit {
      assert SameTypes(s, DropAll(s, {c}));
    } else {
      CloseSessionsSameTypes(Expire(s, c), sessions);
      FallSameTypes(CloseSessions(Expire(s, c), sessions), c);
    }
  }

  lemma ServiceSameTypes(s: State, c: nat, elapsed: nat, env: Surroundings)
    requires InRange(s) && Distinct(s.active) && c < |s.slots|
    ensures InRange(Service(s, c, elapsed, env).state) && SameTypes(s, Service(s, c, elapsed, env).state)
  {
    if WatchdogFires(s.slots[c], elapsed) {
      TimeOutSameTypes(s, c, ClosingWith(env, c));
    }
  }

  /** On such an input no timeout is fatal: its owner is the master, or nobody is in line. */
  lemma TimeOutSafe(cfg: Config, s: State, c: nat, sessions: seq<nat>)
    requires Inv(cfg, s) && c in s.active && s.slots[c].state == Established && Pure(s, s.slots[c].input)
    ensures !TimeOut(s, c, sessions).1
  {
    TimeOutFatalExactly(cfg, s, c, sessions);
    if s.slots[c].kind == ExclusiveOwner && !MustHandOver(s.slots[c]) {
      ExpiredAndSessions(cfg, s, c, sessions);
      var u, p := CloseSessions(Expire(s, c), sessions), s.slots[c].input;
      assert forall a :: a in u.active ==> !Leads(u.slots[a], p);
    }
  }

  lemma ServicePure(cfg: Config, s: State, c: nat, elapsed: nat, env: Surroundings, p: nat)
    requires Inv(cfg, s) && c in s.active && Pure(s, p)
    ensures InRange(Service(s, c, elapsed, env).state) && Pure(Service(s, c, elapsed, env).state, p)
  {
    ServiceSameTypes(s, c, elapsed, env);
    if Mastered(s, p) {
      ServiceMastered(cfg, s, c, elapsed, env, p);
    }
  }

  lemma {:induction false} TickFromSafe(cfg: Config, s: State, c: nat, elapsed: nat, env: Surroundings)
    requires Inv(cfg, s) && c in s.active && forall p :: Pure(s, p)
    ensures !TickFrom(s, c, elapsed, env).halted
    ensures InRange(TickFrom(s, c, elapsed, env).state) && forall p :: Pure(TickFrom(s, c, elapsed, env).state, p)
    decreases |After(s.active, c)|
  {
    var visit := Service(s, c, elapsed, env);
    var t := visit.state;
    if WatchdogFires(s.slots[c], elapsed) {
      TimeOutSafe(cfg, s, c, ClosingWith(env, c));
    }
    ServiceInv(cfg, s, c, elapsed, env);
    forall p: nat
      ensures Pure(t, p)
    {
      ServicePure(cfg, s, c, elapsed, env, p);
    }
    ServiceShrinks(s, c, elapsed, env);
    ShrunkKeepsOrder(s, t);
    if c in t.active && After(t.active, c) != [] {
      AfterTail(t.active, c);
      TickFromSafe(cfg, t, After(t.active, c)[0], elapsed, env);
    }
  }

  /** No open on input `p` asks for multicast. */
  predicate NeverMulticast(steps: seq<Step>, p: nat) {
    forall i :: 0 <= i < |steps| && steps[i].Open? ==> AsksOtherwise(steps[i].request, p)
  }

  predicate AsksOtherwise(r: Request, p: nat) {
    r.path.Path? && r.path.target == Assembly && r.path.input == p ==> r.tToO != Multicast
  }

  lemma OpenUnicast(cfg: Config, s: State, r: Request, p: nat)
    requires Inv(cfg, s) && Parsed(r) && AsksOtherwise(r, p) && Unicast(s, p)
    ensures InRange(ForwardOpen(cfg, s, r).0) && Unicast(ForwardOpen(cfg, s, r).0, p)
  {
    ForwardOpenInv(cfg, s, r);
    if r.path.Path? && r.path.target == Assembly {
      PickIoGood(cfg, s, r);
      var pick := PickIo(cfg, s, r);
      if pick.Slot? {
        CloseSameTypes(s, pick.id);
        if ForwardOpen(cfg, s, r).1.Accepted? {
          AcceptedUnicast(cfg, s, r, pick, p);
        } else {
          var k := RefusedWrites(cfg, s, r);
        }
      }
    }
  }

  lemma AcceptedUnicast(cfg: Config, s: State, r: Request, pick: Pick, p: nat)
    requires Fits(cfg, s) && r.path.Path? && r.path.target == Assembly && ForwardOpen(cfg, s, r).1.Accepted? && pick == PickIo(cfg, s, r)
    requires AsksOtherwise(r, p) && pick.Slot? && pick.id !in pick.state.active && InRange(pick.state) && Unicast(pick.state, p)
    ensures InRange(ForwardOpen(cfg, s, r).0) && Unicast(ForwardOpen(cfg, s, r).0, p)
  {
    var k := AcceptedAttaches(cfg, s, r);
    AttachAttached(pick.state, pick.id, k, r.socket);
    AttachedUnicast(pick.state, ForwardOpen(cfg, s, r).0, pick.id, k, p);
  }

  lemma AttachedUnicast(s: State, t: State, c: nat, k: Conn, p: nat)
    requires InRange(s) && Unicast(s, p) && Attached(s, t, c, k) && c !in s.active && (k.input == p ==> k.tToO != Multicast)
    ensures InRange(t) && Unicast(t, p)
  {
  }

  lemma NextUnicast(cfg: Config, s: State, step: Step, p: nat)
    requires Inv(cfg, s) && Proper(step) && Unicast(s, p) && (step.Open? ==> AsksOtherwise(step.request, p))
    ensures InRange(Next(cfg, s, step).state) && Unicast(Next(cfg, s, step).state, p)
  {
    match step {
      case Open(request) => OpenUnicast(cfg, s, request, p);
      case Shut(triad, from) =>
        var c := First(s.slots, s.active, AnyTriad(triad));
        if c.Some? {
          CloseSameTypes(s, c.value);
        }
      case Elapse(elapsed, env) =>
        if s.active != [] {
          TickFromSameTypes(s, s.active[0], elapsed, env);
        }
      case Arrive(connectionId, sequence, from) =>
      case Message(connectionId) =>
      case EndSession(session) =>
        var c := First(s.slots, s.active, Class3(session));
        if c.Some? {
          CloseSameTypes(s, c.value);
        }
      case ShutDown =>
    }
  }

  lemma {:induction false} TickFromSameTypes(s: State, c: nat, elapsed: nat, env: Surroundings)
    requires InRange(s) && Distinct(s.active) && c in s.active
    ensures InRange(TickFrom(s, c, elapsed, env).state) && SameTypes(s, TickFrom(s, c, elapsed, env).state)
    decreases |After(s.active, c)|
  {
    var visit := Service(s, c, elapsed, env);
    ServiceSameTypes(s, c, elapsed, env);
    ServiceShrinks(s, c, elapsed, env);
    ShrunkKeepsOrder(s, visit.state);
    if !visit.halted && c in visit.state.active && After(visit.state.active, c) != [] {
      AfterTail(visit.state.active, c);
      TickFromSameTypes(visit.state, After(visit.state.active, c)[0], elapsed, env);
    }
  }

  lemma {:induction false} RunUnicast(cfg: Config, s: State, steps: seq<Step>, p: nat)
    requires Inv(cfg, s) && ProperSteps(steps) && NeverMulticast(steps, p) && Unicast(s, p)
    ensures Unicast(Run(cfg, s, steps).state, p)
    decreases steps
  {
    if steps != [] {
      NextInv(cfg, s, steps[0]);
      NextUnicast(cfg, s, steps[0], p);
      if !Next(cfg, s, steps[0]).halted {
        RunUnicast(cfg, Next(cfg, s, steps[0]).state, steps[1..], p);
      }
    }
  }

  /** If each input is asked for either always or never by multicast, no tick is ever fatal. */
  lemma TicksAreSafe(cfg: Config, steps: seq<Step>, elapsed: nat, env: Surroundings)
    requires WellFormed(cfg) && ProperSteps(steps) && forall p :: MulticastOnly(steps, p) || NeverMulticast(steps, p)
    ensures !Tick(Run(cfg, Initial(cfg), steps).state, elapsed, env).halted
  {
    var s := Run(cfg, Initial(cfg), steps).state;
    forall p: nat
      ensures Pure(s, p)
    {
      if MulticastOnly(steps, p) {
        assert Mastered(Initial(cfg), p);
        RunMastered(cfg, Initial(cfg), steps, p);
      } else {
        RunUnicast(cfg, Initial(cfg), steps, p);
      }
    }
    if s.active != [] {
      TickFromSafe(cfg, s, s.active[0], elapsed, env);
    }
  }

  // ---- A run from start-up into the trap ----

  /** One owner, one input-only and one listen-only entry, all on input 9. */
  const MIXED: Config := Config(
    [Entry(1, 9, 5, 0, 1)], [Entry(2, 9, 5, 1, 1)], [Entry(3, 9, 5, 2, 1)], Entry(0, 0, 0, 3, 0),
    [Home(ExclusiveOwner, 1, 9, 5), Home(InputOnly, 2, 9, 5), Home(ListenOnly, 3, 9, 5)])

  const PLAIN: Production := Production(0, false, 0, 1, 0, 0)

  /** The request that slot `c` is for, with a watchdog of 10 seconds. */
  function AskFor(c: nat, tToO: Traffic): Request {
    Request(Triad(c, 7, 7), [c], PointToPoint, tToO, true, true, Path(Assembly, c + 1, 9, 5),
            0, 0, PLAIN, true, 1000, 0, 0, 0, 0, 0, 0, 0, 0, true, 4, 0)
  }

  const OWNER: Step := Open(AskFor(0, PointToPoint))
  const LISTENER: Step := Open(AskFor(2, PointToPoint))
  const INPUT: Step := Open(AskFor(1, Multicast))
  const PAUSE: Step := Elapse(5000, Surroundings(map[], {}))

  /** A connection that came of such a request, with its socket and what is left of its watchdog. */
  predicate Up(k: Conn, c: nat, kind: Kind, tToO: Traffic, watchdog: nat) {
    && k.state == Established && k.kind == kind && k.input == 9 && k.tToO == tToO && k.producing == 4
    && k.triad == Triad(c, 7, 7) && k.number == c && k.production == PLAIN && k.supervised && k.watchdog == watchdog
  }

  /** Where the run stands: who is listed, and with how much of its watchdog left. */
  ghost predicate Stands(s: State, active: seq<nat>, owner: nat, others: nat) {
    && Inv(MIXED, s) && s.active == active && |s.slots| == 3
    && (0 in active ==> Up(s.slots[0], 0, ExclusiveOwner, PointToPoint, owner))
    && (1 in active ==> Up(s.slots[1], 1, InputOnly, Multicast, others))
    && (2 in active ==> Up(s.slots[2], 2, ListenOnly, PointToPoint, others))
  }

  lemma OwnerOpens(s: State)
    requires Stands(s, [], 0, 0)
    ensures var n := Next(MIXED, s, OWNER); !n.halted && Stands(n.state, [0], 10000, 0)
  {
    NextInv(MIXED, s, OWNER);
    assert Timing.Pow2(2) == 4;
    assert Settles(MIXED, s, OWNER.request, 0, ExclusiveOwner);
    OpensInto(MIXED, s, OWNER.request, 0, ExclusiveOwner);
  }

  /** Neither triad nor number of another slot's request is in use. */
  lemma Unlike(s: State, active: seq<nat>, owner: nat, others: nat, c: nat, tToO: Traffic)
    requires Stands(s, active, owner, others) && c !in active && tToO != InvalidType
    ensures Admitted(s, AskFor(c, tToO), Assembly) && FirstUnused([c], Numbers(s)) == Some(c)
  {
    assert forall a :: a in s.active ==> s.slots[a].number == a && s.slots[a].triad == Triad(a, 7, 7);
    assert c !in Numbers(s);
  }

  lemma ListenerSettles(s: State)
    requires Stands(s, [0], 5000, 0)
    ensures Settles(MIXED, s, LISTENER.request, 2, ListenOnly) && FirstUnused([2], Numbers(s)) == Some(2)
  {
    Unlike(s, [0], 5000, 0, 2, PointToPoint);
    assert PickFrom(MIXED.listeners[0], ListenOnly, s, LISTENER.request.triad) == Slot(2, ListenOnly, s);
    assert First(s.slots, s.active, Producer(false, 9)) == Some(0);
    assert PickShared(MIXED.listeners, ListenOnly, s, LISTENER.request, 0, 0) == Slot(2, ListenOnly, s);
  }

  lemma ListenerOpens(s: State)
    requires Stands(s, [0], 5000, 0)
    ensures var n := Next(MIXED, s, LISTENER); !n.halted && Stands(n.state, [2, 0], 5000, 10000)
  {
    NextInv(MIXED, s, LISTENER);
    assert Timing.Pow2(2) == 4;
    ListenerSettles(s);
    OpensInto(MIXED, s, LISTENER.request, 2, ListenOnly);
  }

  lemma InputSettles(s: State)
    requires Stands(s, [2, 0], 5000, 10000)
    ensures Settles(MIXED, s, INPUT.request, 1, InputOnly) && FirstUnused([1], Numbers(s)) == Some(1)
  {
    Unlike(s, [2, 0], 5000, 10000, 1, Multicast);
    assert PickFrom(MIXED.inputs[0], InputOnly, s, INPUT.request.triad) == Slot(1, InputOnly, s);
    assert PickShared(MIXED.inputs, InputOnly, s, INPUT.request, 0, 0) == Slot(1, InputOnly, s);
    assert Mismatch(s.slots, s.active, 9, PLAIN) == 0;
  }

  lemma InputOpens(s: State)
    requires Stands(s, [2, 0], 5000, 10000)
    ensures var n := Next(MIXED, s, INPUT); !n.halted && Stands(n.state, [1, 2, 0], 5000, 10000)
  {
    NextInv(MIXED, s, INPUT);
    assert Timing.Pow2(2) == 4;
    InputSettles(s);
    OpensInto(MIXED, s, INPUT.request, 1, InputOnly);
    assert First(s.slots, s.active, Producer(true, 9)).None?;
  }

  /** A visit that finds time left on the watchdog, and nothing to produce. */
  lemma CountsDown(s: State, c: nat, kind: Kind, tToO: Traffic, watchdog: nat)
    requires InRange(s) && Distinct(s.active) && c < |s.slots| && Up(s.slots[c], c, kind, tToO, watchdog) && watchdog > 5000
    ensures Service(s, c, 5000, PAUSE.env) == Progress(s.(slots := s.slots[c := s.slots[c].(watchdog := watchdog - 5000)]), [], false)
  {
  }

  lemma Pauses(s: State)
    requires Stands(s, [0], 10000, 0)
    ensures var n := Next(MIXED, s, PAUSE); !n.halted && Stands(n.state, [0], 5000, 0)
  {
    NextInv(MIXED, s, PAUSE);
    CountsDown(s, 0, ExclusiveOwner, PointToPoint, 10000);
    assert After([0], 0) == [];
  }

  /** The third visit of the last tick springs the trap. */
  lemma Falls(s: State)
    requires Stands(s, [1, 2, 0], 5000, 5000)
    ensures Service(s, 0, 5000, PAUSE.env).halted
  {
    VisitFatalExactly(MIXED, s, 0, 5000, PAUSE.env);
    var u := Expire(s, 0);
    assert ClosingWith(PAUSE.env, 0) == [];
    assert Trap(View(u.slots, u.active), 9, 0, 0);
  }

  /** The walk of the last tick from the listener on. */
  lemma LastVisits(s: State)
    requires Inv(MIXED, s) && s.active == [1, 2, 0] && |s.slots| == 3 && Up(s.slots[0], 0, ExclusiveOwner, PointToPoint, 5000)
    requires Up(s.slots[1], 1, InputOnly, Multicast, 5000) && Up(s.slots[2], 2, ListenOnly, PointToPoint, 10000)
    ensures TickFrom(s, 2, 5000, PAUSE.env).halted
  {
    CountsDown(s, 2, ListenOnly, PointToPoint, 10000);
    ServiceInv(MIXED, s, 2, 5000, PAUSE.env);
    var t := Service(s, 2, 5000, PAUSE.env).state;
    Falls(t);
    assert After([1, 2, 0], 2) == [0];
    assert TickFrom(t, 0, 5000, PAUSE.env).halted;
  }

  lemma LastTick(s: State)
    requires Stands(s, [1, 2, 0], 5000, 10000)
    ensures Next(MIXED, s, PAUSE).halted && Run(MIXED, s, [PAUSE]).halted
  {
    CountsDown(s, 1, InputOnly, Multicast, 10000);
    ServiceInv(MIXED, s, 1, 5000, PAUSE.env);
    LastVisits(Service(s, 1, 5000, PAUSE.env).state);
    assert After([1, 2, 0], 1) == [2, 0];
  }

  lemma SecondHalf(s: State)
    requires Stands(s, [0], 5000, 0)
    ensures ProperSteps([LISTENER] + ([INPUT] + [PAUSE])) && Run(MIXED, s, [LISTENER] + ([INPUT] + [PAUSE])).halted
  {
    ListenerOpens(s);
    var t := Next(MIXED, s, LISTENER).state;
    InputOpens(t);
    var u := Next(MIXED, t, INPUT).state;
    LastTick(u);
    RunOn(MIXED, t, INPUT, [PAUSE], u);
    RunOn(MIXED, s, LISTENER, [INPUT] + [PAUSE], t);
  }

  lemma RunIntoTrap(s: State, rest: seq<Step>)
    requires Stands(s, [], 0, 0) && rest == [LISTENER] + ([INPUT] + [PAUSE])
    ensures ProperSteps([OWNER] + ([PAUSE] + rest)) && Run(MIXED, s, [OWNER] + ([PAUSE] + rest)).halted
  {
    OwnerOpens(s);
    var t := Next(MIXED, s, OWNER).state;
    Pauses(t);
    var u := Next(MIXED, t, PAUSE).state;
    SecondHalf(u);
    RunOn(MIXED, t, PAUSE, rest, u);
    RunOn(MIXED, s, OWNER, [PAUSE] + rest, t);
  }

  /** A point-to-point owner, a listener, a multicast input-only connection, and the owner times out. */
  lemma FreedNodeIsReachable()
    ensures WellFormed(MIXED) && ProperSteps([OWNER, PAUSE, LISTENER, INPUT, PAUSE])
    ensures Run(MIXED, Initial(MIXED), [OWNER, PAUSE, LISTENER, INPUT, PAUSE]).halted
  {
    var rest := [LISTENER] + ([INPUT] + [PAUSE]);
    RunIntoTrap(Initial(MIXED), rest);
    assert [OWNER] + ([PAUSE] + rest) == [OWNER, PAUSE, LISTENER, INPUT, PAUSE];
  }
}
