/** What the timers and sequence numbers of one connection guarantee over whole runs of ticks and packets. */
module Supervision {
  import opened Wrappers
  import opened Connections
  import Lifecycle
  import Timing
  import Words

  // ---- The intervals ----

  /** Microseconds as ticks of 10 ms, milliseconds beyond them and a rest. */
  lemma Ticks(microseconds: nat) returns (q: nat, ms: nat, us: nat)
    ensures microseconds == 10000 * q + 1000 * ms + us && ms < 10 && us < 1000
    ensures microseconds / 1000 == 10 * q + ms && microseconds % 10000 == 1000 * ms + us && (1000 * ms + us) / 1000 == ms
  {
    q, ms, us := microseconds / 10000, microseconds / 1000 % 10, microseconds % 1000;
    assert microseconds / 1000 / 10 == q;
  }

  /** An interval is rounded down to the tick, in 16 bits ... */
  lemma IntervalIs(microseconds: nat)
    ensures Timing.RequestedInterval(microseconds) == 10 * (microseconds / 10000) % Words.WORD16
  {
    var q, ms, us := Ticks(microseconds);
  }

  /** ... and the expected packet rate up. */
  lemma RateIs(microseconds: nat)
    ensures Timing.ExpectedPacketRate(microseconds) == 10 * ((microseconds + 9999) / 10000) % Words.WORD16
  {
    var q, ms, us := Ticks(microseconds);
    assert (microseconds + 9999) / 10000 == if ms == 0 && us == 0 then q else q + 1;
  }

  /** So an interval that fits the 16-bit field is met to within a tick, from below ... */
  lemma IntervalRoundsDown(microseconds: nat)
    requires microseconds / 1000 < Words.WORD16
    ensures var ms := Timing.RequestedInterval(microseconds);
      ms % Timing.TICK_MS == 0 && 1000 * ms <= microseconds < 1000 * (ms + Timing.TICK_MS)
  {
    var q, ms, us := Ticks(microseconds);
    assert Timing.RequestedInterval(microseconds) == 10 * q;
  }

  /** ... while the rate is met from above, and only a zero interval switches production off. */
  lemma RateRoundsUp(microseconds: nat)
    requires microseconds / 1000 + Timing.TICK_MS < Words.WORD16
    ensures var ms := Timing.ExpectedPacketRate(microseconds);
      && ms % Timing.TICK_MS == 0 && 1000 * ms - 1000 * Timing.TICK_MS < microseconds <= 1000 * ms
      && (ms == 0 <==> microseconds == 0)
  {
    var q, ms, us := Ticks(microseconds);
    assert Timing.ExpectedPacketRate(microseconds) == if ms == 0 && us == 0 then 10 * q else 10 * (q + 1);
  }

  // ---- Production over a run of ticks ----

  function Sum(ticks: seq<nat>): nat {
    if ticks == [] then 0 else ticks[0] + Sum(ticks[1..])
  }

  /** The trigger timer after a run of ticks. */
  function TimerAfter(timer: nat, ticks: seq<nat>, interval: nat): nat
    decreases ticks
  {
    if ticks == [] then timer else TimerAfter(Timing.NextTrigger(timer, ticks[0], interval), ticks[1..], interval)
  }

  /** How many of the ticks send a frame. */
  function Sends(timer: nat, ticks: seq<nat>, interval: nat): nat
    decreases ticks
  {
    if ticks == [] then 0 else
      (if Timing.Due(timer, ticks[0]) then 1 else 0) + Sends(Timing.NextTrigger(timer, ticks[0], interval), ticks[1..], interval)
  }

  /** The time thrown away because a tick came more than a whole interval late. */
  function Lost(timer: nat, ticks: seq<nat>, interval: nat): nat
    decreases ticks
  {
    if ticks == [] then 0 else
      (if ticks[0] > timer + interval then ticks[0] - timer - interval else 0) +
      Lost(Timing.NextTrigger(timer, ticks[0], interval), ticks[1..], interval)
  }

  /** Conservation: all time that passes is in the frames sent, in the timer, or lost to late ticks. */
  lemma {:induction false} TimeIsConserved(timer: nat, ticks: seq<nat>, interval: nat)
    ensures Sum(ticks) + TimerAfter(timer, ticks, interval) ==
      timer + interval * Sends(timer, ticks, interval) + Lost(timer, ticks, interval)
    decreases ticks
  {
    if ticks != [] {
      var next := Timing.NextTrigger(timer, ticks[0], interval);
      TimeIsConserved(next, ticks[1..], interval);
      if Timing.Due(timer, ticks[0]) {
        var more := Sends(next, ticks[1..], interval);
        assert interval * (1 + more) == interval + interval * more;
      }
    }
  }

  lemma {:induction false} TimerStaysBounded(timer: nat, ticks: seq<nat>, interval: nat)
    requires timer <= interval
    ensures TimerAfter(timer, ticks, interval) <= interval
    decreases ticks
  {
    if ticks != [] {
      TimerStaysBounded(Timing.NextTrigger(timer, ticks[0], interval), ticks[1..], interval);
    }
  }

  lemma {:induction false} PunctualTicksLoseNothing(timer: nat, ticks: seq<nat>, interval: nat)
    requires forall e :: e in ticks ==> e <= interval
    ensures Lost(timer, ticks, interval) == 0
    decreases ticks
  {
    if ticks != [] {
      assert ticks[0] in ticks && forall e :: e in ticks[1..] ==> e in ticks;
      PunctualTicksLoseNothing(Timing.NextTrigger(timer, ticks[0], interval), ticks[1..], interval);
    }
  }

  /** No drift: with ticks no longer than the interval, every interval that passes sends one frame. */
  lemma NoDrift(timer: nat, ticks: seq<nat>, interval: nat)
    requires timer <= interval && forall e :: e in ticks ==> e <= interval
    ensures Sum(ticks) + TimerAfter(timer, ticks, interval) == timer + interval * Sends(timer, ticks, interval)
    ensures 0 <= TimerAfter(timer, ticks, interval) <= interval
  {
    TimeIsConserved(timer, ticks, interval);
    TimerStaysBounded(timer, ticks, interval);
    PunctualTicksLoseNothing(timer, ticks, interval);
  }

  /** However late the ticks come, production never runs ahead of time by more than one interval. */
  lemma NeverAhead(timer: nat, ticks: seq<nat>, interval: nat)
    requires timer <= interval
    ensures interval * Sends(timer, ticks, interval) <= Sum(ticks) + interval
  {
    TimeIsConserved(timer, ticks, interval);
    TimerStaysBounded(timer, ticks, interval);
  }

  /** A slot that produces, visited by a run of ticks, each with its surroundings. */
  function ProduceAll(s: Lifecycle.State, c: nat, ticks: seq<nat>, envs: seq<Lifecycle.Surroundings>): (r: (Lifecycle.State, seq<Lifecycle.Packet>))
    requires c < |s.slots| && |ticks| == |envs|
    decreases ticks
  {
    if ticks == [] then (s, []) else
      var (t, packets) := Lifecycle.Produce(s, c, ticks[0], envs[0]);
      var (u, more) := ProduceAll(t, c, ticks[1..], envs[1..]);
      (u, packets + more)
  }

  /** The frames that leave and the timer that remains are those of the timer arithmetic. */
  lemma {:induction false} ProductionFollowsTimer(s: Lifecycle.State, c: nat, ticks: seq<nat>, envs: seq<Lifecycle.Surroundings>)
    requires c < |s.slots| && |ticks| == |envs| && Lifecycle.Produces(s.slots[c])
    ensures var k, interval := s.slots[c], Timing.RequestedInterval(s.slots[c].production.interval);
      var (t, packets) := ProduceAll(s, c, ticks, envs);
      && |packets| == Sends(k.trigger, ticks, interval)
      && |t.slots| == |s.slots| && t.slots[c].trigger == TimerAfter(k.trigger, ticks, interval)
    decreases ticks
  {
    if ticks != [] {
      ProductionFollowsTimer(Lifecycle.Produce(s, c, ticks[0], envs[0]).0, c, ticks[1..], envs[1..]);
    }
  }

  /** No frame leaves before the time on the timer has passed, and one leaves as soon as it has. */
  lemma {:induction false} FirstFrameExactly(timer: nat, ticks: seq<nat>, interval: nat)
    ensures Sends(timer, ticks, interval) > 0 <==> ticks != [] && Sum(ticks) >= timer
    decreases ticks
  {
    if ticks != [] {
      FirstFrameExactly(Timing.NextTrigger(timer, ticks[0], interval), ticks[1..], interval);
    }
  }

  // ---- The numbers on the frames ----

  /** The class 1 sequence count on the next frame: one more, modulo 2^16, exactly if its data is new. */
  function CountWith(count: nat, renewed: bool): nat {
    if renewed then (count + 1) % Words.WORD16 else count
  }

  function LastCount(packets: seq<Lifecycle.Packet>, count: nat): nat {
    if packets == [] then count else packets[|packets| - 1].count
  }

  /** Frames whose counts go on from `count`; `news` says of each whether its data was new. */
  ghost predicate Numbered(packets: seq<Lifecycle.Packet>, count: nat, news: seq<bool>) {
    |packets| == |news| && forall i :: 0 <= i < |packets| ==> packets[i].count == CountWith(LastCount(packets[..i], count), news[i])
  }

  lemma NumberedConcat(a: seq<Lifecycle.Packet>, b: seq<Lifecycle.Packet>, count: nat, x: seq<bool>, y: seq<bool>)
    requires Numbered(a, count, x) && Numbered(b, LastCount(a, count), y)
    ensures Numbered(a + b, count, x + y) && LastCount(a + b, count) == LastCount(b, LastCount(a, count))
  {
    forall i | 0 <= i < |a + b|
      ensures (a + b)[i].count == CountWith(LastCount((a + b)[..i], count), (x + y)[i])
    {
      if i < |a| {
        assert (a + b)[..i] == a[..i];
      } else {
        assert (a + b)[..i] == a + b[..i - |a|];
      }
    }
  }

  function Renewals(news: seq<bool>): nat {
    if news == [] then 0 else Renewals(news[..|news| - 1]) + if news[|news| - 1] then 1 else 0
  }

  lemma {:induction false} CountTallies(packets: seq<Lifecycle.Packet>, count: nat, news: seq<bool>)
    requires Numbered(packets, count, news)
    ensures LastCount(packets, count) % Words.WORD16 == (count + Renewals(news)) % Words.WORD16
    decreases |packets|
  {
    if packets != [] {
      var n := |packets| - 1;
      NumberedPrefix(packets, count, news, n);
      CountTallies(packets[..n], count, news[..n]);
      TallyOne(LastCount(packets[..n], count), count + Renewals(news[..n]), news[n]);
    }
  }

  lemma TallyOne(before: nat, tally: nat, renewed: bool)
    requires before % Words.WORD16 == tally % Words.WORD16
    ensures CountWith(before, renewed) % Words.WORD16 == (tally + if renewed then 1 else 0) % Words.WORD16
  {
    NextCount(before, tally);
  }

  lemma NumberedPrefix(packets: seq<Lifecycle.Packet>, count: nat, news: seq<bool>, n: nat)
    requires Numbered(packets, count, news) && n <= |packets|
    ensures Numbered(packets[..n], count, news[..n])
  {
    assert forall i :: 0 <= i < n ==> packets[..n][..i] == packets[..i];
  }

  lemma NumberedMeans(packets: seq<Lifecycle.Packet>, count: nat, news: seq<bool>)
    requires Numbered(packets, count, news)
    ensures |packets| == |news|
    ensures forall i :: 0 <= i < |packets| ==> packets[i].count == CountWith(if i == 0 then count else packets[i - 1].count, news[i])
  {
    forall i | 0 <= i < |packets|
      ensures packets[i].count == CountWith(if i == 0 then count else packets[i - 1].count, news[i])
    {
      assert i > 0 ==> packets[..i][i - 1] == packets[i - 1];
    }
  }

  /** In all, the count advances by the number of frames with new data; two successive frames differ in their counts
      exactly if the second has new data. */
  lemma CountsAddUp(packets: seq<Lifecycle.Packet>, count: nat, news: seq<bool>)
    requires Numbered(packets, count, news)
    ensures LastCount(packets, count) % Words.WORD16 == (count + Renewals(news)) % Words.WORD16
    ensures forall i :: 0 < i < |packets| ==> (packets[i].count != packets[i - 1].count <==> news[i])
  {
    CountTallies(packets, count, news);
    NumberedMeans(packets, count, news);
  }

  lemma NextCount(a: nat, b: nat)
    requires a % Words.WORD16 == b % Words.WORD16
    ensures (a + 1) % Words.WORD16 == (b + 1) % Words.WORD16
  {
  }

  /** For each frame sent, in order, whether the slot's data was new at that tick. */
  function News(timer: nat, ticks: seq<nat>, envs: seq<Lifecycle.Surroundings>, c: nat, interval: nat): seq<bool>
    requires |ticks| == |envs|
    decreases ticks
  {
    if ticks == [] then [] else
      (if timer <= ticks[0] then [c in envs[0].changed] else []) +
      News(Timing.NextTrigger(timer, ticks[0], interval), ticks[1..], envs[1..], c, interval)
  }

  /** EIP sequence numbers that go on from `from`. */
  ghost predicate Sequenced(packets: seq<Lifecycle.Packet>, from: nat) {
    forall i :: 0 <= i < |packets| ==> packets[i].sequence == (from + i + 1) % Words.WORD32
  }

  lemma SequencedConcat(a: seq<Lifecycle.Packet>, b: seq<Lifecycle.Packet>, from: nat, next: nat)
    requires Sequenced(a, from) && Sequenced(b, next) && next % Words.WORD32 == (from + |a|) % Words.WORD32
    ensures Sequenced(a + b, from)
  {
    forall i | 0 <= i < |a + b|
      ensures (a + b)[i].sequence == (from + i + 1) % Words.WORD32
    {
      if i >= |a| {
        Words.ShiftedModulo(next, from + |a|, i - |a| + 1);
      }
    }
  }

  /** All frames of one connection. */
  ghost predicate Carried(packets: seq<Lifecycle.Packet>, input: nat, id: nat) {
    forall i :: 0 <= i < |packets| ==> packets[i].input == input && packets[i].connectionId == id
  }

  /** One visit that produces. */
  lemma FrameExactly(s: Lifecycle.State, c: nat, elapsed: nat, env: Lifecycle.Surroundings)
    requires c < |s.slots| && Lifecycle.Produces(s.slots[c])
    ensures var k, (t, packets) := s.slots[c], Lifecycle.Produce(s, c, elapsed, env);
      && Numbered(packets, k.sequenceCount, if k.trigger <= elapsed then [c in env.changed] else [])
      && Sequenced(packets, k.eipSequence) && Carried(packets, k.input, k.producedId)
      && t == s.(slots := s.slots[c := k.(eipSequence := t.slots[c].eipSequence, sequenceCount := LastCount(packets, k.sequenceCount),
                                          trigger := Timing.NextTrigger(k.trigger, elapsed, Timing.RequestedInterval(k.production.interval)))])
      && t.slots[c].eipSequence % Words.WORD32 == (k.eipSequence + |packets|) % Words.WORD32
  {
  }

  lemma {:induction false} FramesCounted(s: Lifecycle.State, c: nat, ticks: seq<nat>, envs: seq<Lifecycle.Surroundings>)
    requires c < |s.slots| && |ticks| == |envs| && Lifecycle.Produces(s.slots[c])
    ensures var k, (t, packets) := s.slots[c], ProduceAll(s, c, ticks, envs);
      && Numbered(packets, k.sequenceCount, News(k.trigger, ticks, envs, c, Timing.RequestedInterval(k.production.interval)))
      && |t.slots| == |s.slots| && t.slots[c].sequenceCount == LastCount(packets, k.sequenceCount)
    decreases ticks
  {
    if ticks != [] {
      var k, interval := s.slots[c], Timing.RequestedInterval(s.slots[c].production.interval);
      var (t, now) := Lifecycle.Produce(s, c, ticks[0], envs[0]);
      FrameExactly(s, c, ticks[0], envs[0]);
      FramesCounted(t, c, ticks[1..], envs[1..]);
      NumberedConcat(now, ProduceAll(t, c, ticks[1..], envs[1..]).1, k.sequenceCount, if k.trigger <= ticks[0] then [c in envs[0].changed] else [],
                     News(t.slots[c].trigger, ticks[1..], envs[1..], c, interval));
    }
  }

  lemma {:induction false} FramesSequenced(s: Lifecycle.State, c: nat, ticks: seq<nat>, envs: seq<Lifecycle.Surroundings>)
    requires c < |s.slots| && |ticks| == |envs| && Lifecycle.Produces(s.slots[c])
    ensures var k, packets := s.slots[c], ProduceAll(s, c, ticks, envs).1;
      Sequenced(packets, k.eipSequence) && Carried(packets, k.input, k.producedId)
    decreases ticks
  {
    if ticks != [] {
      var (t, now) := Lifecycle.Produce(s, c, ticks[0], envs[0]);
      FrameExactly(s, c, ticks[0], envs[0]);
      FramesSequenced(t, c, ticks[1..], envs[1..]);
      SequencedConcat(now, ProduceAll(t, c, ticks[1..], envs[1..]).1, s.slots[c].eipSequence, t.slots[c].eipSequence);
    }
  }

  /** The frames of a producing slot over any ticks: its input and connection ID, EIP sequence numbers that rise by one,
      counts that rise with new data. */
  lemma FramesExactly(s: Lifecycle.State, c: nat, ticks: seq<nat>, envs: seq<Lifecycle.Surroundings>)
    requires c < |s.slots| && |ticks| == |envs| && Lifecycle.Produces(s.slots[c])
    ensures var k, (t, packets) := s.slots[c], ProduceAll(s, c, ticks, envs);
      var news := News(k.trigger, ticks, envs, c, Timing.RequestedInterval(k.production.interval));
      && Numbered(packets, k.sequenceCount, news) && Sequenced(packets, k.eipSequence) && Carried(packets, k.input, k.producedId)
      && |t.slots| == |s.slots| && t.slots[c].sequenceCount % Words.WORD16 == (k.sequenceCount + Renewals(news)) % Words.WORD16
      && forall i :: 0 < i < |packets| ==> (packets[i].count != packets[i - 1].count <==> news[i])
  {
    var k := s.slots[c];
    FramesCounted(s, c, ticks, envs);
    FramesSequenced(s, c, ticks, envs);
    CountsAddUp(ProduceAll(s, c, ticks, envs).1, k.sequenceCount, News(k.trigger, ticks, envs, c, Timing.RequestedInterval(k.production.interval)));
  }

  /** Who sends: established, with a socket, and with a packet rate that is not zero in 16 bits. Anybody else sends nothing
      and stays as it is. */
  lemma ProducesExactly(s: Lifecycle.State, c: nat, elapsed: nat, env: Lifecycle.Surroundings)
    requires c < |s.slots|
    ensures var k := s.slots[c];
      var rate := 10 * ((k.production.interval + 9999) / 10000) % Words.WORD16;
      && (Lifecycle.Produces(k) <==> k.state == Established && k.producing != INVALID_SOCKET && rate != 0)
      && (!Lifecycle.Produces(k) ==> Lifecycle.Produce(s, c, elapsed, env) == (s, []))
  {
    RateIs(s.slots[c].production.interval);
  }

  // ---- The inactivity watchdog ----

  /** What happens to a consuming connection: time passes at a visit, a packet with a sequence number arrives,
      or a connected explicit message re-arms the watchdog. */
  datatype Event = Elapse(ms: nat) | Arrive(sequence: nat) | Rearm

  /** The connection after one event. */
  function React(k: Conn, e: Event): Conn {
    match e
    case Elapse(ms) =>
      if Lifecycle.WatchdogFires(k, ms) then k.(state := TimedOut)
      else if k.state == Established && k.supervised then k.(watchdog := k.watchdog - ms)
      else k
    case Arrive(sequence) =>
      if k.state == Established then Lifecycle.Accept(k, sequence) else k
    case Rearm =>
      if k.state == Established then Lifecycle.Rearmed(k) else k
  }

  /** The connection after the first `n` events. */
  function At(k: Conn, events: seq<Event>, n: nat): Conn
    requires n <= |events|
  {
    if n == 0 then k else React(At(k, events, n - 1), events[n - 1])
  }

  predicate Accepts(k: Conn, e: Event) {
    e.Arrive? && k.state == Established && (Timing.SequenceGreater(e.sequence, k.consumedSequence) || !k.sequenceReceived)
  }

  /** An accepted packet re-arms the watchdog, and so does an explicit message. */
  predicate Rearms(k: Conn, e: Event) {
    Accepts(k, e) || (e.Rearm? && k.state == Established)
  }

  predicate FiresAt(k: Conn, events: seq<Event>, n: nat)
    requires n < |events|
  {
    events[n].Elapse? && Lifecycle.WatchdogFires(At(k, events, n), events[n].ms)
  }

  /** Time passed over the first `n` events since the last re-arming of the watchdog. */
  function Quiet(k: Conn, events: seq<Event>, n: nat): nat
    requires n <= |events|
  {
    if n == 0 then 0
    else if events[n - 1].Elapse? then Quiet(k, events, n - 1) + events[n - 1].ms
    else if Rearms(At(k, events, n - 1), events[n - 1]) then 0
    else Quiet(k, events, n - 1)
  }

  /** The time allowed from then on: as armed at the start, or the regular value after a re-arming. */
  function Allowed(k: Conn, events: seq<Event>, n: nat): nat
    requires n <= |events|
  {
    if n == 0 then k.watchdog
    else if Rearms(At(k, events, n - 1), events[n - 1]) then Timing.WatchdogValue(k.oToTInterval, k.multiplier)
    else Allowed(k, events, n - 1)
  }

  /** The time allowed is the regular value once the watchdog was re-armed, and the initial one before. */
  lemma {:induction false} AllowedIs(k: Conn, events: seq<Event>, n: nat)
    requires n <= |events|
    ensures Allowed(k, events, n) ==
      if exists j :: 0 <= j < n && Rearms(At(k, events, j), events[j]) then Timing.WatchdogValue(k.oToTInterval, k.multiplier)
      else k.watchdog
  {
    if n > 0 {
      AllowedIs(k, events, n - 1);
    }
  }

  /** At visit `n` the time allowed is over. */
  predicate Overdue(k: Conn, events: seq<Event>, n: nat)
    requires n < |events|
  {
    events[n].Elapse? && Quiet(k, events, n + 1) >= Allowed(k, events, n)
  }

  /** While no deadline has passed, the watchdog holds what is left of the time allowed. */
  lemma {:induction false} WatchdogCountsDown(k: Conn, events: seq<Event>, n: nat)
    requires n <= |events| && k.state == Established && k.supervised
    requires forall j :: 0 <= j < n ==> !Overdue(k, events, j)
    ensures var c := At(k, events, n);
      && c.state == Established && c.supervised && c.oToTInterval == k.oToTInterval && c.multiplier == k.multiplier
      && c.watchdog + Quiet(k, events, n) == Allowed(k, events, n)
  {
    if n > 0 {
      WatchdogCountsDown(k, events, n - 1);
      assert !Overdue(k, events, n - 1);
    }
  }

  lemma {:induction false} OnceTimedOut(k: Conn, events: seq<Event>, m: nat, n: nat)
    requires m <= n <= |events| && At(k, events, m).state == TimedOut
    ensures At(k, events, n).state == TimedOut
  {
    if m < n {
      OnceTimedOut(k, events, m, n - 1);
    }
  }

  /** The watchdog fires at exactly one visit: the first at which the time since the last re-arm reaches the time allowed. */
  lemma WatchdogExact(k: Conn, events: seq<Event>, n: nat)
    requires n < |events| && k.state == Established && k.supervised
    ensures FiresAt(k, events, n) <==> Overdue(k, events, n) && forall j :: 0 <= j < n ==> !Overdue(k, events, j)
  {
    if forall j :: 0 <= j < n ==> !Overdue(k, events, j) {
      WatchdogCountsDown(k, events, n);
    } else {
      var j := FirstDeadline(k, events, n);
      WatchdogCountsDown(k, events, j);
      assert At(k, events, j + 1).state == TimedOut;
      OnceTimedOut(k, events, j + 1, n);
    }
  }

  /** The earliest visit at which a deadline has passed. */
  lemma FirstDeadline(k: Conn, events: seq<Event>, n: nat) returns (j: nat)
    requires n <= |events|
    requires exists i :: 0 <= i < n && Overdue(k, events, i)
    ensures j < n && Overdue(k, events, j) && forall i :: 0 <= i < j ==> !Overdue(k, events, i)
  {
    j := 0;
    while !Overdue(k, events, j)
      invariant 0 <= j < n
      invariant exists i :: j <= i < n && Overdue(k, events, i)
      invariant forall i :: 0 <= i < j ==> !Overdue(k, events, i)
      decreases n - j
    {
      j := j + 1;
    }
  }

  /** It never fires twice. */
  lemma WatchdogFiresOnce(k: Conn, events: seq<Event>, m: nat, n: nat)
    requires m < |events| && n < |events| && FiresAt(k, events, m) && FiresAt(k, events, n)
    ensures m == n
  {
    if m < n {
      OnceTimedOut(k, events, m + 1, n);
    } else if n < m {
      OnceTimedOut(k, events, n + 1, m);
    }
  }

  /** Multipliers 0 to 7 give 4, 8, ... 512 times the interval in milliseconds, within 32 bits. */
  lemma WatchdogValues(microseconds: nat, multiplier: nat)
    requires microseconds < Words.WORD32 && multiplier <= 7
    ensures Timing.WatchdogValue(microseconds, multiplier) < Words.WORD32
    ensures Timing.InitialWatchdog(microseconds, multiplier) < Words.WORD32
    ensures Timing.InitialWatchdog(microseconds, multiplier) >= 10000
    ensures Timing.Pow2(2 + multiplier) in {4, 8, 16, 32, 64, 128, 256, 512}
  {
    Powers(multiplier);
    ScaleBound(microseconds / 1000, 4294967, Timing.Pow2(2 + multiplier));
  }

  /** The regular value is the interval in whole milliseconds times four, doubled with each step of the multiplier; the
      initial one is the larger of that and 10 s. */
  lemma WatchdogIs(microseconds: nat, multiplier: nat)
    ensures Timing.WatchdogValue(microseconds, 0) == 4 * (microseconds / 1000)
    ensures Timing.WatchdogValue(microseconds, multiplier + 1) == 2 * Timing.WatchdogValue(microseconds, multiplier)
    ensures var regular, initial := Timing.WatchdogValue(microseconds, multiplier), Timing.InitialWatchdog(microseconds, multiplier);
      initial >= regular && initial >= 10000 && (initial == regular || initial == 10000)
  {
    var ms, p := microseconds / 1000, Timing.Pow2(2 + multiplier);
    assert Timing.Pow2(2) == 4;
    assert ms * (2 * p) == 2 * (ms * p);
  }

  lemma Powers(multiplier: nat)
    requires multiplier <= 7
    ensures Timing.Pow2(2 + multiplier) in {4, 8, 16, 32, 64, 128, 256, 512}
  {
    assert Timing.Pow2(2) == 4;
    assert Timing.Pow2(4) == 16;
    assert Timing.Pow2(6) == 64;
    assert Timing.Pow2(8) == 256;
  }

  lemma {:induction false} PowersGrow(a: nat, b: nat)
    requires a <= b
    ensures Timing.Pow2(a) <= Timing.Pow2(b)
    decreases b
  {
    if a < b {
      PowersGrow(a, b - 1);
    }
  }

  lemma Tenfold(n: nat)
    ensures Timing.Pow2(n + 10) == 1024 * Timing.Pow2(n)
  {
    assert Timing.Pow2(n + 10) == 4 * Timing.Pow2(n + 8);
    assert Timing.Pow2(n + 8) == 4 * Timing.Pow2(n + 6);
    assert Timing.Pow2(n + 6) == 4 * Timing.Pow2(n + 4);
    assert Timing.Pow2(n + 4) == 4 * Timing.Pow2(n + 2);
  }

  lemma Power41()
    ensures Timing.Pow2(41) == 0x200_0000_0000 && Timing.Pow2(42) == 0x400_0000_0000
  {
    Tenfold(1);
    Tenfold(11);
    Tenfold(21);
    Tenfold(31);
  }

  /** The 64-bit value is exact for every 32-bit interval if and only if the multiplier is at most 39. */
  lemma WatchdogFitsExactly(multiplier: nat)
    ensures multiplier <= 39 <==> forall us :: 0 <= us < Words.WORD32 ==> Timing.WatchdogValue(us, multiplier) < Words.WORD64
  {
    Power41();
    var p := Timing.Pow2(2 + multiplier);
    if multiplier <= 39 {
      PowersGrow(2 + multiplier, 41);
      forall us: nat | us < Words.WORD32
        ensures Timing.WatchdogValue(us, multiplier) < Words.WORD64
      {
        ScaleBound(us / 1000, 4294967, p);
      }
    } else {
      PowersGrow(42, 2 + multiplier);
      assert Timing.WatchdogValue(Words.WORD32 - 1, multiplier) == 4294967 * p;
    }
  }

  lemma ScaleBound(a: nat, b: nat, p: nat)
    requires a <= b
    ensures a * p <= b * p
  {
  }

  // ---- The replay window ----

  /** The sequence numbers accepted over the first `n` events. */
  function Accepted(k: Conn, events: seq<Event>, n: nat): (numbers: seq<nat>)
    requires n <= |events|
  {
    if n == 0 then []
    else if Accepts(At(k, events, n - 1), events[n - 1]) then Accepted(k, events, n - 1) + [events[n - 1].sequence]
    else Accepted(k, events, n - 1)
  }

  function Ahead(a: nat, b: nat): nat {
    (a - b) % Words.WORD32
  }

  lemma {:induction false} LastAccepted(k: Conn, events: seq<Event>, n: nat)
    requires n <= |events| && !k.sequenceReceived
    ensures var a, c := Accepted(k, events, n), At(k, events, n);
      (c.sequenceReceived <==> a != []) && (a != [] ==> c.consumedSequence == a[|a| - 1])
  {
    if n > 0 {
      LastAccepted(k, events, n - 1);
    }
  }

  /** Each accepted number is 1 to 2^31 - 1 ahead of the one before it. */
  lemma {:induction false} AcceptedMoveForward(k: Conn, events: seq<Event>, n: nat)
    requires n <= |events| && !k.sequenceReceived
    ensures var a := Accepted(k, events, n); forall i :: 0 < i < |a| ==> 1 <= Ahead(a[i], a[i - 1]) < Words.WORD32 / 2
  {
    if n > 0 {
      AcceptedMoveForward(k, events, n - 1);
      LastAccepted(k, events, n - 1);
      var a, b, c := Accepted(k, events, n - 1), Accepted(k, events, n), At(k, events, n - 1);
      forall i | 0 < i < |b|
        ensures 1 <= Ahead(b[i], b[i - 1]) < Words.WORD32 / 2
      {
        if i < |a| {
          assert b[i] == a[i] && b[i - 1] == a[i - 1];
        } else {
          assert b[i - 1] == c.consumedSequence && b[i] == events[n - 1].sequence;
        }
      }
    }
  }

  /** How far the accepted numbers moved on from position `i` to position `j`. */
  function Advance(a: seq<nat>, i: nat, j: nat): nat
    requires i <= j < |a|
  {
    if i == j then 0 else Advance(a, i, j - 1) + Ahead(a[j], a[j - 1])
  }

  lemma {:induction false} AdvanceModulo(a: seq<nat>, i: nat, j: nat)
    requires i <= j < |a|
    ensures Advance(a, i, j) % Words.WORD32 == Ahead(a[j], a[i])
  {
    if i < j {
      AdvanceModulo(a, i, j - 1);
      AddAhead(Advance(a, i, j - 1), a[j], a[j - 1], a[i]);
    }
  }

  lemma AddAhead(d: nat, x: nat, y: nat, z: nat)
    requires d % Words.WORD32 == Ahead(y, z)
    ensures (d + Ahead(x, y)) % Words.WORD32 == Ahead(x, z)
  {
    var w := Words.WORD32;
    var p, q, r := d / w, (y - z) / w, (x - y) / w;
    assert d + Ahead(x, y) == (x - z) + w * (p - q - r);
    ModuloShift(x - z, p - q - r);
  }

  lemma ModuloShift(n: int, k: int)
    ensures (n + Words.WORD32 * k) % Words.WORD32 == n % Words.WORD32
  {
  }

  /** A number accepted before is accepted again only after the numbers went round completely:
      the advance in between is a positive multiple of 2^32, hence more than 2^31. */
  lemma ReplayWindow(k: Conn, events: seq<Event>, i: nat, j: nat)
    requires !k.sequenceReceived && i < j < |Accepted(k, events, |events|)|
    requires Accepted(k, events, |events|)[i] == Accepted(k, events, |events|)[j]
    ensures var d := Advance(Accepted(k, events, |events|), i, j); d > 0 && d % Words.WORD32 == 0 && d > Words.WORD32 / 2
  {
    var a := Accepted(k, events, |events|);
    AcceptedMoveForward(k, events, |events|);
    AdvanceModulo(a, i, j);
    assert Ahead(a[j], a[j - 1]) >= 1;
  }

  /** On an established connection a packet is turned away exactly when it does not lie in the window ahead. */
  lemma RefusedExactly(k: Conn, events: seq<Event>, n: nat)
    requires n < |events| && !k.sequenceReceived && events[n].Arrive? && At(k, events, n).state == Established
    ensures var a := Accepted(k, events, n);
      Accepted(k, events, n + 1) == a <==>
        a != [] && !(1 <= Ahead(events[n].sequence, a[|a| - 1]) < Words.WORD32 / 2)
  {
    LastAccepted(k, events, n);
    assert |Accepted(k, events, n) + [events[n].sequence]| == |Accepted(k, events, n)| + 1;
  }
}
