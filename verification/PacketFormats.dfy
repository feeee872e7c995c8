/** The Common Packet Format: an item count, an address item, a data item and up to two socket address items. */
module PacketFormats {
  import opened Words
  import opened Messages
  import opened Wrappers

  const NULL_ADDRESS: nat := 0x0000
  const CONNECTION_ADDRESS: nat := 0x00A1
  const CONNECTED_DATA: nat := 0x00B1
  const UNCONNECTED_DATA: nat := 0x00B2
  const SOCKET_O_TO_T: nat := 0x8000
  const SOCKET_T_TO_O: nat := 0x8001
  const SEQUENCED_ADDRESS: nat := 0x8002

  /** AF_INET in network order, as a little-endian host reads it. */
  const FAMILY: nat := 0x0200

  datatype AddressItem = AddressItem(typeId: nat, length: nat, connectionId: nat, sequence: nat)
  datatype DataItem = DataItem(typeId: nat, length: nat, data: seq<Octet>)
  datatype SocketItem = SocketItem(typeId: nat, length: nat, family: nat, port: nat, address: nat, zero: seq<Octet>)
  datatype Cpf = Cpf(itemCount: nat, address: AddressItem, data: DataItem, sockets: seq<SocketItem>)

  /** `Overrun`: the parser would read beyond the octets there are. */
  datatype Outcome = Parsed(cpf: Cpf) | Malformed | Overrun

  predicate IsSocketType(typeId: nat) {
    typeId == SOCKET_O_TO_T || typeId == SOCKET_T_TO_O
  }

  // ---- Parsing ----

  /** Octets of an address item that the parser takes: the length field decides, 4 and 8 being the known values. */
  function AddressSize(length: nat): nat {
    4 + (if length >= 4 then 4 else 0) + (if length == 8 then 4 else 0)
  }

  /** The address item behind the item count; fields that are not sent keep what they held. */
  function ReadAddress(m: seq<Octet>, was: AddressItem): AddressItem
    requires 6 <= |m| && 2 + AddressSize(Get16(m, 4)) <= |m|
  {
    var length := Get16(m, 4);
    AddressItem(Get16(m, 2), length,
                if length >= 4 then Get32(m, 6) else was.connectionId,
                if length == 8 then Get32(m, 10) else was.sequence)
  }

  function ReadSocket(m: seq<Octet>, p: nat): SocketItem
    requires p + 20 <= |m|
  {
    SocketItem(Get16(m, p), Get16(m, p + 2), Get16(m, p + 4), Get16(m, p + 6), Get32(m, p + 8), m[p + 12..p + 20])
  }

  /** The socket items from number `j` on: where the cursor is, and how much is counted, differ once
      an item of another type is met, which is counted but not passed over. */
  function ReadSockets(m: seq<Octet>, p: nat, counted: nat, j: nat, limit: nat, sockets: seq<SocketItem>): (r: Option<(seq<SocketItem>, nat)>)
    requires j <= limit <= 2 == |sockets|
    ensures r.Some? ==> |r.value.0| == 2
    decreases limit - j
  {
    if j == limit then Some((sockets, counted))
    else if |m| < p + 2 then None
    else if !IsSocketType(Get16(m, p)) then ReadSockets(m, p, counted + 2, j + 1, limit, sockets[j := sockets[j].(typeId := 0)])
    else if |m| < p + 20 then None
    else ReadSockets(m, p + 20, counted + 20, j + 1, limit, sockets[j := ReadSocket(m, p)])
  }

  /** The length has to come out exactly, unless there were further items. */
  function Finish(cpf: Cpf, counted: nat, dataLength: nat): Outcome {
    if counted == dataLength || cpf.itemCount > 2 then Parsed(cpf) else Malformed
  }

  function Unset(sockets: seq<SocketItem>): (r: seq<SocketItem>)
    requires |sockets| == 2
    ensures |r| == 2
  {
    [sockets[0].(typeId := 0), sockets[1].(typeId := 0)]
  }

  /** `CreateCommonPacketFormatStructure`, given the octets from the start of the packet on. */
  function Parse(m: seq<Octet>, dataLength: nat, was: Cpf): (r: Outcome)
    requires dataLength <= |m| && |was.sockets| == 2
    ensures r.Parsed? ==> |r.cpf.sockets| == 2
  {
    if |m| < 2 then Overrun else
    var count, unset := Get16(m, 0), Unset(was.sockets);
    if count == 0 then Finish(was.(itemCount := 0, sockets := unset), 2, dataLength)
    else if |m| < 6 || |m| < 2 + AddressSize(Get16(m, 4)) then Overrun else
    var p, address := 2 + AddressSize(Get16(m, 4)), ReadAddress(m, was.address);
    if count == 1 then Finish(Cpf(1, address, was.data, unset), p, dataLength)
    else if |m| < p + 4 then Overrun else
    var q := p + 4 + Get16(m, p + 2);
    if dataLength < q then Malformed else
    var data := DataItem(Get16(m, p), Get16(m, p + 2), m[p + 4..q]);
    match ReadSockets(m, q, q, 0, if count - 2 > 2 then 2 else count - 2, unset)
    case None => Overrun
    case Some((sockets, counted)) => Finish(Cpf(count, address, data, sockets), counted, dataLength)
  }

  /** The parser itself, with its read cursor and its separate count of the length. */
  method CreateStructure(m: seq<Octet>, dataLength: nat, was: Cpf) returns (outcome: Outcome)
    requires dataLength <= |m| && |was.sockets| == 2
    ensures outcome == Parse(m, dataLength, was)
  {
    var g := was;
    var cursor: nat, counted: nat := 0, 0;
    g := g.(sockets := [g.sockets[0].(typeId := 0), g.sockets[1].(typeId := 0)]);
    if |m| < 2 { return Overrun; }
    g := g.(itemCount := Get16(m, cursor));
    cursor, counted := cursor + 2, counted + 2;
    if g.itemCount >= 1 {
      var address, taken := ReadAddressItem(m, g.address);
      if taken == 0 { return Overrun; }
      g := g.(address := address);
      cursor, counted := cursor + taken, counted + taken;
    }
    if g.itemCount >= 2 {
      if |m| < cursor + 4 { return Overrun; }
      var typeId, length := Get16(m, cursor), Get16(m, cursor + 2);
      cursor := cursor + 4;
      if dataLength < counted + 4 + length { return Malformed; }
      g := g.(data := DataItem(typeId, length, m[cursor..cursor + length]));
      cursor, counted := cursor + length, counted + 4 + length;
      var limit := if g.itemCount - 2 > 2 then 2 else g.itemCount - 2;
      var items := ReadSocketItems(m, cursor, counted, limit, g.sockets);
      if items.None? { return Overrun; }
      g, counted := g.(sockets := items.value.0), items.value.1;
    }
    if counted == dataLength || g.itemCount > 2 {
      return Parsed(g);
    }
    outcome := Malformed;
  }

  /** The address item and the octets it takes; none are taken when the octets run out. */
  method ReadAddressItem(m: seq<Octet>, was: AddressItem) returns (a: AddressItem, taken: nat)
    requires 2 <= |m|
    ensures taken == 0 <==> |m| < 6 || |m| < 2 + AddressSize(Get16(m, 4))
    ensures taken > 0 ==> taken == AddressSize(Get16(m, 4)) && a == ReadAddress(m, was)
  {
    a, taken := was, 0;
    if |m| < 6 { return; }
    a := a.(typeId := Get16(m, 2), length := Get16(m, 4));
    var cursor := 6;
    if a.length >= 4 {
      if |m| < cursor + 4 { return; }
      a := a.(connectionId := Get32(m, cursor));
      cursor := cursor + 4;
    }
    if a.length == 8 {
      if |m| < cursor + 4 { return; }
      a := a.(sequence := Get32(m, cursor));
      cursor := cursor + 4;
    }
    taken := cursor - 2;
  }

  /** The loop over the socket items: at most `limit`, whatever the item count says. */
  method ReadSocketItems(m: seq<Octet>, start: nat, before: nat, limit: nat, was: seq<SocketItem>) returns (r: Option<(seq<SocketItem>, nat)>)
    requires limit <= 2 == |was|
    ensures r == ReadSockets(m, start, before, 0, limit, was)
  {
    var cursor, counted, sockets := start, before, was;
    var j := 0;
    while j < limit
      invariant 0 <= j <= limit && |sockets| == 2
      invariant ReadSockets(m, cursor, counted, j, limit, sockets) == ReadSockets(m, start, before, 0, limit, was)
    {
      if |m| < cursor + 2 { return None; }
      counted := counted + 2;
      if IsSocketType(Get16(m, cursor)) {
        if |m| < cursor + 20 { return None; }
        sockets := sockets[j := ReadSocket(m, cursor)];
        cursor, counted := cursor + 20, counted + 18;
      } else {
        sockets := sockets[j := sockets[j].(typeId := 0)];
      }
      j := j + 1;
    }
    r := Some((sockets, counted));
  }

  // ---- Assembling ----

  /** What the message router answers. */
  datatype Response = Response(service: nat, reserved: nat, status: nat, size: nat, additional: seq<nat>, payload: seq<Octet>)

  const MAX_ADDITIONAL: nat := 2

  predicate IsDataType(typeId: nat) {
    typeId == CONNECTED_DATA || typeId == UNCONNECTED_DATA
  }

  /** The address item as written, or nothing for a type the assembler does not know. */
  function AddressOctets(a: AddressItem): Option<seq<Octet>> {
    if a.typeId == NULL_ADDRESS then Some(Le16(NULL_ADDRESS) + Le16(0))
    else if a.typeId == CONNECTION_ADDRESS then Some(Le16(CONNECTION_ADDRESS) + Le16(4) + Le32(a.connectionId))
    else if a.typeId == SEQUENCED_ADDRESS then Some(Le16(SEQUENCED_ADDRESS) + Le16(8) + Le32(a.connectionId) + Le32(a.sequence))
    else None
  }

  function WordOctets(words: seq<nat>): (r: seq<Octet>)
    ensures |r| == 2 * |words|
  {
    if words == [] then [] else WordOctets(words[..|words| - 1]) + Le16(words[|words| - 1])
  }

  /** The additional status words that are written: at most two, whatever the size says. */
  function Written(r: Response): seq<nat>
    requires |r.additional| == MAX_ADDITIONAL
  {
    r.additional[..if r.size < MAX_ADDITIONAL then r.size else MAX_ADDITIONAL]
  }

  function RouterOctets(r: Response): seq<Octet>
    requires |r.additional| == MAX_ADDITIONAL
  {
    [r.service % 256, r.reserved % 256, r.status % 256, r.size % 256] + WordOctets(Written(r)) + r.payload
  }

  /** The data of a reply: connected replies repeat the sequence number. */
  function ReplyBody(g: Cpf, r: Response): seq<Octet>
    requires |r.additional| == MAX_ADDITIONAL
  {
    if g.data.typeId == CONNECTED_DATA then Le16(g.address.sequence) + RouterOctets(r) else RouterOctets(r)
  }

  /** The length field of a reply, computed from the size of the status and of the payload. */
  function ReplyLength(g: Cpf, r: Response): nat {
    |r.payload| + 4 + (if g.data.typeId == CONNECTED_DATA then 2 else 0) + 2 * r.size
  }

  function DataOctets(g: Cpf, response: Option<Response>): seq<Octet>
    requires response.Some? ==> |response.value.additional| == MAX_ADDITIONAL
    requires g.data.length <= |g.data.data|
  {
    if !IsDataType(g.data.typeId) then []
    else match response
      case Some(r) => Le16(g.data.typeId) + Le16(ReplyLength(g, r)) + ReplyBody(g, r)
      case None => Le16(g.data.typeId) + Le16(g.data.length) + g.data.data[..g.data.length]
  }

  const ZEROS: seq<Octet> := [0, 0, 0, 0, 0, 0, 0, 0]

  function SocketOctets(i: SocketItem): (r: seq<Octet>)
    ensures |r| == 20
  {
    Le16(i.typeId) + Le16(i.length) + Le16(FAMILY) + Le16(i.port) + Le32(i.address) + ZEROS
  }

  /** The socket items of one type that are written: the first there is. */
  function OfType(sockets: seq<SocketItem>, typeId: nat): seq<SocketItem>
    requires |sockets| == 2
  {
    if sockets[0].typeId == typeId then [sockets[0]] else if sockets[1].typeId == typeId then [sockets[1]] else []
  }

  /** O->T first, then T->O. */
  function Emitted(sockets: seq<SocketItem>): (items: seq<SocketItem>)
    requires |sockets| == 2
    ensures |items| <= 2
  {
    OfType(sockets, SOCKET_O_TO_T) + OfType(sockets, SOCKET_T_TO_O)
  }

  function SocketsOctets(items: seq<SocketItem>): (r: seq<Octet>)
    requires |items| <= 2
    ensures |r| == 20 * |items|
  {
    if |items| == 0 then []
    else if |items| == 1 then SocketOctets(items[0])
    else SocketOctets(items[0]) + SocketOctets(items[1])
  }

  /** Interface handle and timeout, which only replies carry. */
  function Prefix(response: Option<Response>): seq<Octet> {
    if response.Some? then Le32(0) + Le16(0) else []
  }

  ghost predicate Encodable(g: Cpf, response: Option<Response>) {
    && |g.sockets| == 2 && g.data.length <= |g.data.data|
    && (response.Some? ==> |response.value.additional| == MAX_ADDITIONAL)
  }

  /** What `AssembleLinearMessage` writes; it stops at an unknown address item. */
  function Encoded(g: Cpf, response: Option<Response>): seq<Octet>
    requires Encodable(g, response)
  {
    var start := Prefix(response) + Le16(g.itemCount);
    match AddressOctets(g.address)
    case None => start
    case Some(address) => start + address + DataOctets(g, response) + SocketsOctets(Emitted(g.sockets))
  }

  /** Two more writes at the end of what is written so far. */
  lemma Grow(d: Draft, a: seq<Octet>, b: seq<Octet>, c: seq<Octet>)
    requires d.position + |a| + |b| + |c| <= |d.buffer|
    ensures Append(Append(Append(d, a), b), c) == Append(d, a + b + c)
  {
    AppendTwice(d, a, b);
    AppendTwice(d, a + b, c);
  }

  method AddAddress(a: AddressItem, m: Message) returns (known: bool)
    requires AddressOctets(a).Some? ==> m.Room(|AddressOctets(a).value|)
    modifies m, m.buffer
    ensures known == AddressOctets(a).Some?
    ensures m.View() == if known then Append(old(m.View()), AddressOctets(a).value) else old(m.View())
  {
    ghost var d := m.View();
    known := true;
    if a.typeId == NULL_ADDRESS {
      m.AddInt(NULL_ADDRESS);
      m.AddInt(0);
      AppendTwice(d, Le16(NULL_ADDRESS), Le16(0));
    } else if a.typeId == CONNECTION_ADDRESS {
      m.AddInt(CONNECTION_ADDRESS);
      m.AddInt(4);
      m.AddDint(a.connectionId);
      Grow(d, Le16(CONNECTION_ADDRESS), Le16(4), Le32(a.connectionId));
    } else if a.typeId == SEQUENCED_ADDRESS {
      m.AddInt(SEQUENCED_ADDRESS);
      m.AddInt(8);
      m.AddDint(a.connectionId);
      Grow(d, Le16(SEQUENCED_ADDRESS), Le16(8), Le32(a.connectionId));
      m.AddDint(a.sequence);
      AppendTwice(d, Le16(SEQUENCED_ADDRESS) + Le16(8) + Le32(a.connectionId), Le32(a.sequence));
    } else {
      known := false;
    }
  }

  /** The loop over the additional status words, bounded by the size field and by the array. */
  method AddStatusWords(r: Response, m: Message)
    requires |r.additional| == MAX_ADDITIONAL && m.Room(2 * |Written(r)|)
    modifies m, m.buffer
    ensures m.View() == Append(old(m.View()), WordOctets(Written(r)))
  {
    ghost var d, words := m.View(), Written(r);
    AppendNothing(d);
    var i := 0;
    while i < r.size && i < MAX_ADDITIONAL
      invariant 0 <= i <= |words| && m.View() == Append(d, WordOctets(words[..i]))
    {
      m.AddInt(r.additional[i]);
      WordsStep(d, words, i);
      i := i + 1;
    }
    assert words[..i] == words;
  }

  lemma WordsStep(d: Draft, words: seq<nat>, i: nat)
    requires i < |words| && d.position + 2 * i + 2 <= |d.buffer|
    ensures Append(Append(d, WordOctets(words[..i])), Le16(words[i])) == Append(d, WordOctets(words[..i + 1]))
  {
    AppendTwice(d, WordOctets(words[..i]), Le16(words[i]));
    assert words[..i + 1][..i] == words[..i];
  }

  method AddResponse(r: Response, m: Message)
    requires |r.additional| == MAX_ADDITIONAL && m.Room(|RouterOctets(r)|)
    modifies m, m.buffer
    ensures m.View() == Append(old(m.View()), RouterOctets(r))
  {
    ghost var d := m.View();
    AddStatus(r, m);
    AddStatusWords(r, m);
    m.AddOctets(r.payload);
    Grow(d, [r.service % 256, r.reserved % 256, r.status % 256, r.size % 256], WordOctets(Written(r)), r.payload);
  }

  method AddStatus(r: Response, m: Message)
    requires m.Room(4)
    modifies m, m.buffer
    ensures m.View() == Append(old(m.View()), [r.service % 256, r.reserved % 256, r.status % 256, r.size % 256])
  {
    ghost var d, head := m.View(), [r.service % 256] + [r.reserved % 256] + [r.status % 256];
    m.AddSint(r.service);
    m.AddSint(r.reserved);
    m.AddSint(r.status);
    Grow(d, [r.service % 256], [r.reserved % 256], [r.status % 256]);
    m.AddSint(r.size);
    AppendTwice(d, head, [r.size % 256]);
    assert head + [r.size % 256] == [r.service % 256, r.reserved % 256, r.status % 256, r.size % 256];
  }

  method AddReply(g: Cpf, r: Response, m: Message)
    requires |r.additional| == MAX_ADDITIONAL && m.Room(4 + |ReplyBody(g, r)|)
    modifies m, m.buffer
    ensures m.View() == Append(old(m.View()), Le16(g.data.typeId) + Le16(ReplyLength(g, r)) + ReplyBody(g, r))
  {
    ghost var d := m.View();
    m.AddInt(g.data.typeId);
    m.AddInt(ReplyLength(g, r));
    AddReplyBody(g, r, m);
    Grow(d, Le16(g.data.typeId), Le16(ReplyLength(g, r)), ReplyBody(g, r));
  }

  method AddReplyBody(g: Cpf, r: Response, m: Message)
    requires |r.additional| == MAX_ADDITIONAL && m.Room(|ReplyBody(g, r)|)
    modifies m, m.buffer
    ensures m.View() == Append(old(m.View()), ReplyBody(g, r))
  {
    ghost var d := m.View();
    if g.data.typeId == CONNECTED_DATA {
      m.AddInt(g.address.sequence);
      AddResponse(r, m);
      AppendTwice(d, Le16(g.address.sequence), RouterOctets(r));
    } else {
      AddResponse(r, m);
    }
  }

  method AddData(g: Cpf, response: Option<Response>, m: Message)
    requires Encodable(g, response) && m.Room(|DataOctets(g, response)|)
    modifies m, m.buffer
    ensures m.View() == Append(old(m.View()), DataOctets(g, response))
  {
    ghost var d := m.View();
    if g.data.typeId == UNCONNECTED_DATA || g.data.typeId == CONNECTED_DATA {
      if response.Some? {
        AddReply(g, response.value, m);
      } else {
        m.AddInt(g.data.typeId);
        m.AddInt(g.data.length);
        m.AddOctets(g.data.data[..g.data.length]);
        Grow(d, Le16(g.data.typeId), Le16(g.data.length), g.data.data[..g.data.length]);
      }
    } else {
      AppendNothing(d);
    }
  }

  method AddSocket(i: SocketItem, m: Message)
    requires m.Room(20)
    modifies m, m.buffer
    ensures m.View() == Append(old(m.View()), SocketOctets(i))
  {
    ghost var d := m.View();
    m.AddInt(i.typeId);
    m.AddInt(i.length);
    m.AddInt(FAMILY);
    Grow(d, Le16(i.typeId), Le16(i.length), Le16(FAMILY));
    m.AddInt(i.port);
    m.AddDint(i.address);
    Grow(d, Le16(i.typeId) + Le16(i.length) + Le16(FAMILY), Le16(i.port), Le32(i.address));
    m.Fill(0, 8);
    assert seq(8, _ => 0) == ZEROS;
    AppendTwice(d, Le16(i.typeId) + Le16(i.length) + Le16(FAMILY) + Le16(i.port) + Le32(i.address), ZEROS);
  }

  /** The inner loop: the first item of the type, and no other. */
  method AddSocketOfType(sockets: seq<SocketItem>, typeId: nat, m: Message)
    requires |sockets| == 2 && m.Room(20 * |OfType(sockets, typeId)|)
    modifies m, m.buffer
    ensures m.View() == Append(old(m.View()), SocketsOctets(OfType(sockets, typeId)))
  {
    ghost var d := m.View();
    AppendNothing(d);
    var j := 0;
    while j < 2
      invariant 0 <= j <= 2 && m.View() == d
      invariant forall i :: 0 <= i < j ==> sockets[i].typeId != typeId
    {
      if sockets[j].typeId == typeId {
        AddSocket(sockets[j], m);
        assert OfType(sockets, typeId) == [sockets[j]];
        return;
      }
      j := j + 1;
    }
  }

  lemma SocketsConcat(a: seq<SocketItem>, b: seq<SocketItem>)
    requires |a| <= 1 && |b| <= 1
    ensures SocketsOctets(a + b) == SocketsOctets(a) + SocketsOctets(b)
  {
    assert a == [] ==> a + b == b;
    assert b == [] ==> a + b == a;
  }

  method AddSockets(sockets: seq<SocketItem>, m: Message)
    requires |sockets| == 2 && m.Room(20 * |Emitted(sockets)|)
    modifies m, m.buffer
    ensures m.View() == Append(old(m.View()), SocketsOctets(Emitted(sockets)))
  {
    ghost var d := m.View();
    AddSocketOfType(sockets, SOCKET_O_TO_T, m);
    AddSocketOfType(sockets, SOCKET_T_TO_O, m);
    AppendTwice(d, SocketsOctets(OfType(sockets, SOCKET_O_TO_T)), SocketsOctets(OfType(sockets, SOCKET_T_TO_O)));
    SocketsConcat(OfType(sockets, SOCKET_O_TO_T), OfType(sockets, SOCKET_T_TO_O));
  }

  method AddHead(count: nat, response: Option<Response>, m: Message)
    requires m.Room(|Prefix(response)| + 2)
    modifies m, m.buffer
    ensures m.View() == Append(old(m.View()), Prefix(response) + Le16(count))
  {
    ghost var d := m.View();
    if response.Some? {
      m.AddDint(0);
      m.AddInt(0);
      AppendTwice(d, Le32(0), Le16(0));
    } else {
      AppendNothing(d);
    }
    m.AddInt(count);
    AppendTwice(d, Prefix(response), Le16(count));
  }

  lemma EncodedParts(g: Cpf, response: Option<Response>, d: Draft)
    requires Encodable(g, response) && AddressOctets(g.address).Some?
    requires d.position + |Encoded(g, response)| <= |d.buffer|
    ensures |Encoded(g, response)| ==
      |Prefix(response)| + 2 + |AddressOctets(g.address).value| + |DataOctets(g, response)| + 20 * |Emitted(g.sockets)|
    ensures Append(d, Encoded(g, response)) ==
      Append(Append(Append(Append(d, Prefix(response) + Le16(g.itemCount)), AddressOctets(g.address).value),
                    DataOctets(g, response)), SocketsOctets(Emitted(g.sockets)))
  {
    var head, address, data := Prefix(response) + Le16(g.itemCount), AddressOctets(g.address).value, DataOctets(g, response);
    Grow(d, head, address, data);
    AppendTwice(d, head + address + data, SocketsOctets(Emitted(g.sockets)));
  }

  /** `AssembleLinearMessage`, for a reply or (without a response) for an I/O message. */
  method Assemble(g: Cpf, response: Option<Response>, m: Message) returns (ok: bool)
    requires Encodable(g, response) && m.Room(|Encoded(g, response)|)
    modifies m, m.buffer
    ensures ok == AddressOctets(g.address).Some?
    ensures m.View() == Append(old(m.View()), Encoded(g, response))
  {
    ghost var d := m.View();
    if AddressOctets(g.address).Some? {
      EncodedParts(g, response, d);
    }
    AddHead(g.itemCount, response, m);
    ok := AddAddress(g.address, m);
    if !ok {
      return;
    }
    AddData(g, response, m);
    AddSockets(g.sockets, m);
  }
}
