/** I/O frames: assembled with an empty data item, then rewritten in place; and what the consumer makes of them. */
module IoFrames {
  import opened Words
  import opened Messages
  import opened Wrappers
  import opened PacketFormats
  import opened PacketRoundTrips

  /** What a producing connection puts into a frame: transport class, connection ID, both counters, the
      run/idle word if one is sent, and the data of the assembly. */
  datatype Production = Production(transportClass: nat, connectionId: nat, sequence: nat, count: nat, runIdle: Option<nat>, data: seq<Octet>)

  /** Class 0 connections use the plain connected address item. */
  function Address(p: Production): AddressItem {
    if p.transportClass != 0 then AddressItem(SEQUENCED_ADDRESS, 8, p.connectionId, p.sequence)
    else AddressItem(CONNECTION_ADDRESS, 4, p.connectionId, p.sequence)
  }

  /** The run/idle word is left out of heartbeats. */
  function Status(p: Production): seq<Octet> {
    if p.runIdle.Some? && p.data != [] then Le32(p.runIdle.value) else []
  }

  function Count(p: Production): seq<Octet> {
    if p.transportClass == 1 then Le16(p.count) else []
  }

  function Body(p: Production): seq<Octet> {
    Count(p) + Status(p) + p.data
  }

  function Frame(p: Production): seq<Octet> {
    Packet(2, Address(p), CONNECTED_DATA, |Body(p)|, Body(p), [])
  }

  ghost predicate ProductionFits(p: Production) {
    && p.transportClass <= 1 && p.connectionId < WORD32 && p.sequence < WORD32 && p.count < WORD16
    && (p.runIdle.Some? ==> p.runIdle.value < WORD32) && |Body(p)| < WORD16
  }

  // ---- Sending ----

  /** Going back `|x|` octets and writing at least as many: the first version leaves no trace. */
  lemma Rewritten(d: Draft, start: seq<Octet>, x: seq<Octet>, y: seq<Octet>)
    requires |x| <= |y| && d.position + |start| + |y| <= |d.buffer|
    ensures var first := Append(d, start + x);
      Append(Draft(first.buffer, first.position - |x|, first.used - |x|), y) == Append(d, start + y)
  {
    var first := Append(d, start + x);
    assert Append(Draft(first.buffer, first.position - |x|, first.used - |x|), y).buffer == Append(d, start + y).buffer;
  }

  /** The part of a frame before the length of its data item. */
  function Start(p: Production): seq<Octet> {
    Le16(2) + AddressOctets(Address(p)).value + Le16(CONNECTED_DATA)
  }

  lemma FrameParts(p: Production)
    ensures Frame(p) == Start(p) + (Le16(|Body(p)|) + Body(p))
  {
    assert Le16(CONNECTED_DATA) + Le16(|Body(p)|) + Body(p) == Le16(CONNECTED_DATA) + (Le16(|Body(p)|) + Body(p));
  }

  /** The structure `SendConnectedData` hands to the assembler: two items, no data yet, no sockets. */
  function Bare(p: Production): Cpf {
    Cpf(2, Address(p), DataItem(CONNECTED_DATA, 0, []), seq(2, _ => SocketItem(0, 0, 0, 0, 0, [])))
  }

  lemma BareEncoded(p: Production)
    ensures Encodable(Bare(p), None) && Encoded(Bare(p), None) == Start(p) + Le16(0)
  {
    EncodedTwoItems(Bare(p));
    var none: seq<Octet> := [];
    assert Le16(2) + AddressOctets(Address(p)).value + (Le16(CONNECTED_DATA) + Le16(0) + none) == Start(p) + Le16(0);
  }

  /** `SendConnectedData`, up to the socket. */
  method SendConnectedData(p: Production, m: Message)
    requires m.position == 0 && m.used == 0 && m.Room(|Frame(p)|)
    modifies m, m.buffer
    ensures m.View() == Append(old(m.View()), Frame(p)) && m.buffer[..m.used] == Frame(p)
  {
    ghost var d := m.View();
    FrameParts(p);
    WriteBare(p, m);
    AddBody(p, m);
    Rewritten(d, Start(p), Le16(0), Le16(|Body(p)|) + Body(p));
    AtFront(d, Frame(p));
  }

  /** The frame without data, and the cursor back at the length of its data item. */
  method WriteBare(p: Production, m: Message)
    requires m.Room(|Start(p)| + 2)
    modifies m, m.buffer
    ensures var first := Append(old(m.View()), Start(p) + Le16(0)); m.View() == Draft(first.buffer, first.position - 2, first.used - 2)
  {
    BareEncoded(p);
    var ok := Assemble(Bare(p), None, m);
    m.Move(-2);
  }

  lemma AtFront(d: Draft, octets: seq<Octet>)
    requires d.position == 0 && d.used == 0 && |octets| <= |d.buffer|
    ensures var e := Append(d, octets); e.used == |octets| && e.buffer[..|octets|] == octets
  {
  }

  method AddBody(p: Production, m: Message)
    requires m.Room(2 + |Body(p)|)
    modifies m, m.buffer
    ensures m.View() == Append(old(m.View()), Le16(|Body(p)|) + Body(p))
  {
    ghost var d := m.View();
    AddLengthAndCount(p, m);
    AddStatusAndData(p, m);
    AppendTwice(d, Le16(|Body(p)|) + Count(p), Status(p) + p.data);
    assert Le16(|Body(p)|) + Count(p) + (Status(p) + p.data) == Le16(|Body(p)|) + Body(p);
  }

  method AddLengthAndCount(p: Production, m: Message)
    requires m.Room(2 + |Count(p)|)
    modifies m, m.buffer
    ensures m.View() == Append(old(m.View()), Le16(|Body(p)|) + Count(p))
  {
    ghost var d := m.View();
    var length := |p.data|;
    var heartbeat := length == 0;
    if p.runIdle.Some? && !heartbeat {
      length := length + 4;
    }
    if p.transportClass == 1 {
      length := length + 2;
      assert length == |Body(p)|;
      m.AddInt(length);
      m.AddInt(p.count);
      AppendTwice(d, Le16(|Body(p)|), Le16(p.count));
    } else {
      assert length == |Body(p)|;
      m.AddInt(length);
      assert Le16(|Body(p)|) + Count(p) == Le16(|Body(p)|);
    }
  }

  method AddStatusAndData(p: Production, m: Message)
    requires m.Room(|Status(p) + p.data|)
    modifies m, m.buffer
    ensures m.View() == Append(old(m.View()), Status(p) + p.data)
  {
    ghost var d := m.View();
    if p.runIdle.Some? && p.data != [] {
      m.AddDint(p.runIdle.value);
    } else {
      AppendNothing(d);
    }
    m.AddOctets(p.data);
    AppendTwice(d, Status(p), p.data);
  }

  // ---- Receiving ----

  datatype Delivery = Delivered(data: seq<Octet>) | Nothing | TooShort

  /** What is known afterwards: the last sequence count, the run/idle word, and what went to the assembly. */
  datatype Reception = Reception(count: nat, runIdle: nat, delivery: Delivery)

  /** The value of a 16-bit difference read as a signed number. */
  function Signed16(x: int): int {
    if x % WORD16 >= WORD16 / 2 then x % WORD16 - WORD16 else x % WORD16
  }

  /** `SEQ_LEQ16`. */
  predicate NotNewer(a: nat, b: nat) {
    Signed16(a - b) <= 0
  }

  /** `HandleReceivedIoConnectionData` on the octets from the data item on; lengths are 16-bit. */
  function Receive(transportClass: nat, expectRunIdle: bool, before: Reception, m: seq<Octet>, length: nat): Reception {
    if transportClass != 1 then ReceiveFrom(expectRunIdle, before, false, m, 0, length)
    else if |m| < 2 then before.(delivery := TooShort)
    else ReceiveFrom(expectRunIdle, before.(count := Get16(m, 0)), NotNewer(Get16(m, 0), before.count), m, 2, (length - 2) % WORD16)
  }

  /** What follows the sequence count: `rest` octets from `offset` on. */
  function ReceiveFrom(expectRunIdle: bool, before: Reception, stale: bool, m: seq<Octet>, offset: nat, rest: nat): Reception {
    if rest == 0 then before.(delivery := Nothing)
    else if !expectRunIdle then before.(delivery := Deliver(stale, m, offset, rest))
    else if |m| < offset + 4 then before.(delivery := TooShort)
    else Reception(before.count, Get32(m, offset), Deliver(stale, m, offset + 4, (rest - 4) % WORD16))
  }

  function Deliver(stale: bool, m: seq<Octet>, start: nat, length: nat): Delivery {
    if stale then Nothing else if |m| < start + length then TooShort else Delivered(m[start..start + length])
  }

  method HandleReceived(transportClass: nat, expectRunIdle: bool, before: Reception, m: seq<Octet>, length: nat) returns (r: Reception)
    ensures r == Receive(transportClass, expectRunIdle, before, m, length)
  {
    var noNewData := false;
    var cursor: nat, left: nat := 0, length;
    r := before;
    if transportClass == 1 {
      if |m| < 2 { return r.(delivery := TooShort); }
      var received := Get16(m, cursor);
      cursor := cursor + 2;
      if NotNewer(received, r.count) {
        noNewData := true;
      }
      r := r.(count := received);
      left := (left - 2) % WORD16;
    }
    if left > 0 {
      if expectRunIdle {
        if |m| < cursor + 4 { return r.(delivery := TooShort); }
        r := r.(runIdle := Get32(m, cursor));
        cursor := cursor + 4;
        left := (left - 4) % WORD16;
      }
      if noNewData { return r.(delivery := Nothing); }
      if |m| < cursor + left { return r.(delivery := TooShort); }
      return r.(delivery := Delivered(m[cursor..cursor + left]));
    }
    r := r.(delivery := Nothing);
  }

  // ---- Round trip ----

  /** The address item a frame carries, by its transport class: with connection ID and EIP sequence number in class 1, with
      the connection ID alone in class 0. */
  lemma AddressExactly(p: Production)
    requires ProductionFits(p)
    ensures p.transportClass == 1 ==> Address(p) == AddressItem(SEQUENCED_ADDRESS, 8, p.connectionId, p.sequence)
    ensures p.transportClass == 0 ==> Address(p).typeId == CONNECTION_ADDRESS && Address(p).length == 4 && Address(p).connectionId == p.connectionId
  {
  }

  /** A frame parses as OK, to its last octet, into a connected data item and the address of its class. */
  lemma FrameParses(p: Production, was: Cpf)
    requires ProductionFits(p) && |was.sockets| == 2
    ensures Parse(Frame(p), |Frame(p)|, was) ==
      Parsed(Cpf(2,
        if p.transportClass == 1 then AddressItem(SEQUENCED_ADDRESS, 8, p.connectionId, p.sequence)
        else AddressItem(CONNECTION_ADDRESS, 4, p.connectionId, was.address.sequence),
        DataItem(CONNECTED_DATA, |Body(p)|, Body(p)), Unset(was.sockets)))
  {
    AddressExactly(p);
    PacketParses(Frame(p), 2, Address(p), CONNECTED_DATA, Body(p), [], was);
  }

  /** Where everything stands in a frame: item count, address item and data item; in class 1 the count, then the run/idle
      word unless it is a heartbeat, then the data. */
  lemma FrameLayout(p: Production)
    requires ProductionFits(p)
    ensures var m, start := Frame(p), if p.transportClass == 1 then 18 else 14;
      var status := start + if p.transportClass == 1 then 2 else 0;
      var data := status + if p.runIdle.Some? && p.data != [] then 4 else 0;
      && |m| == data + |p.data| && Get16(m, 0) == 2
      && Get16(m, 2) == (if p.transportClass == 1 then 0x8002 else 0x00A1) && Get16(m, 4) == (if p.transportClass == 1 then 8 else 4)
      && Get32(m, 6) == p.connectionId && (p.transportClass == 1 ==> Get32(m, 10) == p.sequence)
      && Get16(m, start - 4) == 0x00B1 && Get16(m, start - 2) == |m| - start
      && (p.transportClass == 1 ==> Get16(m, start) == p.count)
      && (p.runIdle.Some? && p.data != [] ==> Get32(m, status) == p.runIdle.value)
      && m[data..] == p.data
  {
    var m, a := Frame(p), AddressOctets(Address(p)).value;
    var start := 6 + |a|;
    AddressExactly(p);
    assert m == Le16(2) + a + (Le16(CONNECTED_DATA) + Le16(|Body(p)|) + Body(p)) + [];
    PacketHas(m, 2, a, Le16(CONNECTED_DATA) + Le16(|Body(p)|) + Body(p), []);
    Word16(m, 0, 2);
    AddressReads(m, Address(p), Address(p));
    ItemReads(m, 2 + |a|, CONNECTED_DATA, Body(p));
    BodyLayout(m, start, p);
  }

  lemma BodyLayout(m: seq<Octet>, start: nat, p: Production)
    requires ProductionFits(p) && start + |Body(p)| == |m| && m[start..start + |Body(p)|] == Body(p)
    ensures var status := start + if p.transportClass == 1 then 2 else 0;
      var data := status + if p.runIdle.Some? && p.data != [] then 4 else 0;
      && |m| == data + |p.data|
      && (p.transportClass == 1 ==> Get16(m, start) == p.count)
      && (p.runIdle.Some? && p.data != [] ==> Get32(m, status) == p.runIdle.value)
      && m[data..] == p.data
  {
    assert Has(m, start, Body(p));
    HasSplit(m, start, Count(p) + Status(p), p.data);
    HasSplit(m, start, Count(p), Status(p));
    if p.transportClass == 1 {
      Word16(m, start, p.count);
    }
    if p.runIdle.Some? && p.data != [] {
      Word32(m, start + |Count(p)|, p.runIdle.value);
    }
  }

  /** A count is newer exactly if it is 1 to 2^15 - 1 ahead; so one with new data is newer than the one before, and a
      repetition is not. */
  lemma NewerExactly(a: nat, b: nat)
    requires a < WORD16 && b < WORD16
    ensures !NotNewer(a, b) <==> 1 <= (a - b) % WORD16 <= 0x7FFF
    ensures !NotNewer((b + 1) % WORD16, b) && NotNewer(b, b)
  {
  }

  /** The consumer strips the frame down to exactly the produced octets: none for a heartbeat, and none
      again when a class 1 sequence count is not newer than the last. */
  lemma BodyDelivers(p: Production, before: Reception)
    requires ProductionFits(p)
    ensures Receive(p.transportClass, p.runIdle.Some?, before, Body(p), |Body(p)|) ==
      Reception(if p.transportClass == 1 then p.count else before.count,
                if p.runIdle.Some? && p.data != [] then p.runIdle.value else before.runIdle,
                if p.data == [] || (p.transportClass == 1 && NotNewer(p.count, before.count)) then Nothing else Delivered(p.data))
  {
    var m := Body(p);
    HasWhole(m);
    HasSplit(m, 0, Count(p) + Status(p), p.data);
    HasSplit(m, 0, Count(p), Status(p));
    if p.transportClass == 1 {
      Word16(m, 0, p.count);
      RestDelivers(p, before.(count := p.count), NotNewer(p.count, before.count), m, 2);
    } else {
      RestDelivers(p, before, false, m, 0);
    }
  }

  lemma RestDelivers(p: Production, before: Reception, stale: bool, m: seq<Octet>, offset: nat)
    requires Has(m, offset, Status(p)) && Has(m, offset + |Status(p)|, p.data)
    requires |m| == offset + |Status(p)| + |p.data| < WORD16 && (p.runIdle.Some? ==> p.runIdle.value < WORD32)
    ensures ReceiveFrom(p.runIdle.Some?, before, stale, m, offset, |m| - offset) ==
      Reception(before.count, if p.runIdle.Some? && p.data != [] then p.runIdle.value else before.runIdle,
                if p.data == [] || stale then Nothing else Delivered(p.data))
  {
    if p.data != [] {
      var start := offset + |Status(p)|;
      assert m[start..start + |p.data|] == p.data;
      if p.runIdle.Some? {
        Word32(m, offset, p.runIdle.value);
      }
    }
  }

  /** Producer to consumer: whatever was produced arrives, as parsed from the frame. */
  lemma ProducedIsConsumed(p: Production, was: Cpf, before: Reception)
    requires ProductionFits(p) && |was.sockets| == 2 && p.data != []
    requires p.transportClass == 1 ==> !NotNewer(p.count, before.count)
    ensures var outcome := Parse(Frame(p), |Frame(p)|, was);
      && outcome.Parsed?
      && Receive(p.transportClass, p.runIdle.Some?, before, outcome.cpf.data.data, outcome.cpf.data.length).delivery == Delivered(p.data)
  {
    FrameParses(p, was);
    BodyDelivers(p, before);
  }

  /** When the octets of a data item do not reach for what its length and the connection call for: the count of class 1, the
      run/idle word of a connection that expects one, and the data unless the count is stale. */
  lemma TooShortExactly(transportClass: nat, expectRunIdle: bool, before: Reception, m: seq<Octet>, length: nat)
    ensures var skip := if transportClass == 1 then 2 else 0;
      var rest := if transportClass == 1 then (length - 2) % WORD16 else length;
      var stale := transportClass == 1 && |m| >= 2 && NotNewer(Get16(m, 0), before.count);
      Receive(transportClass, expectRunIdle, before, m, length).delivery == TooShort <==>
        || |m| < skip
        || (rest > 0 && expectRunIdle && |m| < skip + 4)
        || (rest > 0 && !stale && |m| < skip + if expectRunIdle then 4 + (rest - 4) % WORD16 else rest)
  {
  }
}
