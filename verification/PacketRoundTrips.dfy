/** What the assembler writes, the parser reads back; and what the parser accepts, the assembler writes. */
module PacketRoundTrips {
  import opened Words
  import opened Messages
  import opened Wrappers
  import opened PacketFormats

  // ---- From the items to the octets and back ----

  /** Values that fit their fields, with an address type the assembler knows. */
  ghost predicate AddressFits(a: AddressItem) {
    AddressOctets(a).Some? && a.connectionId < WORD32 && a.sequence < WORD32
  }

  ghost predicate SocketFits(i: SocketItem) {
    IsSocketType(i.typeId) && i.length < WORD16 && i.port < WORD16 && i.address < WORD32
  }

  /** The address item as it comes back: the length its type calls for, and only the fields that were sent. */
  function Returned(a: AddressItem, was: AddressItem): AddressItem {
    if a.typeId == NULL_ADDRESS then AddressItem(NULL_ADDRESS, 0, was.connectionId, was.sequence)
    else if a.typeId == CONNECTION_ADDRESS then AddressItem(CONNECTION_ADDRESS, 4, a.connectionId, was.sequence)
    else AddressItem(SEQUENCED_ADDRESS, 8, a.connectionId, a.sequence)
  }

  /** A socket item as it comes back: family and padding are fixed. */
  function ReturnedSocket(i: SocketItem): SocketItem {
    i.(family := FAMILY, zero := ZEROS)
  }

  lemma AddressReads(m: seq<Octet>, a: AddressItem, was: AddressItem)
    requires AddressFits(a) && Has(m, 2, AddressOctets(a).value)
    ensures var size := |AddressOctets(a).value|;
      && 2 + size <= |m| && Get16(m, 4) < 9 && AddressSize(Get16(m, 4)) == size && ReadAddress(m, was) == Returned(a, was)
  {
    if a.typeId == NULL_ADDRESS {
      HasSplit(m, 2, Le16(NULL_ADDRESS), Le16(0));
      Word16(m, 2, NULL_ADDRESS);
      Word16(m, 4, 0);
    } else if a.typeId == CONNECTION_ADDRESS {
      HasSplit(m, 2, Le16(CONNECTION_ADDRESS) + Le16(4), Le32(a.connectionId));
      HasSplit(m, 2, Le16(CONNECTION_ADDRESS), Le16(4));
      Word16(m, 2, CONNECTION_ADDRESS);
      Word16(m, 4, 4);
      Word32(m, 6, a.connectionId);
    } else {
      HasSplit(m, 2, Le16(SEQUENCED_ADDRESS) + Le16(8) + Le32(a.connectionId), Le32(a.sequence));
      HasSplit(m, 2, Le16(SEQUENCED_ADDRESS) + Le16(8), Le32(a.connectionId));
      HasSplit(m, 2, Le16(SEQUENCED_ADDRESS), Le16(8));
      Word16(m, 2, SEQUENCED_ADDRESS);
      Word16(m, 4, 8);
      Word32(m, 6, a.connectionId);
      Word32(m, 10, a.sequence);
    }
  }

  lemma SocketReads(m: seq<Octet>, p: nat, i: SocketItem)
    requires SocketFits(i) && Has(m, p, SocketOctets(i))
    ensures p + 20 <= |m| && ReadSocket(m, p) == ReturnedSocket(i)
  {
    var a, b, c := Le16(i.typeId), Le16(i.length), Le16(FAMILY);
    HasSplit(m, p, a + b + c + Le16(i.port) + Le32(i.address), ZEROS);
    HasSplit(m, p, a + b + c + Le16(i.port), Le32(i.address));
    HasSplit(m, p, a + b + c, Le16(i.port));
    HasSplit(m, p, a + b, c);
    HasSplit(m, p, a, b);
    Word16(m, p, i.typeId);
    Word16(m, p + 2, i.length);
    Word16(m, p + 4, FAMILY);
    Word16(m, p + 6, i.port);
    Word32(m, p + 8, i.address);
  }

  /** The sockets as they come back, item by item; entries not received are marked unset. */
  function ReturnedSockets(items: seq<SocketItem>, was: seq<SocketItem>): seq<SocketItem>
    requires |items| <= 2 == |was|
  {
    if |items| == 0 then Unset(was)
    else if |items| == 1 then [ReturnedSocket(items[0]), was[1].(typeId := 0)]
    else [ReturnedSocket(items[0]), ReturnedSocket(items[1])]
  }

  lemma Pair<T>(a: T, b: T, x: T, y: T)
    ensures [a, b][0 := x] == [x, b] && [a, b][1 := y] == [a, y] && [a, b][0 := x][1 := y] == [x, y]
  {
  }

  lemma OneSocketRead(m: seq<Octet>, p: nat, counted: nat, j: nat, limit: nat, sockets: seq<SocketItem>, i: SocketItem)
    requires j < limit <= 2 == |sockets| && SocketFits(i) && Has(m, p, SocketOctets(i))
    ensures ReadSockets(m, p, counted, j, limit, sockets) ==
            ReadSockets(m, p + 20, counted + 20, j + 1, limit, sockets[j := ReturnedSocket(i)])
  {
    SocketReads(m, p, i);
  }

  lemma SocketsRead1(m: seq<Octet>, p: nat, items: seq<SocketItem>, u: seq<SocketItem>)
    requires |items| == 1 && |u| == 2 && Has(m, p, SocketOctets(items[0])) && SocketFits(items[0])
    ensures ReadSockets(m, p, p, 0, 1, u) == Some((u[0 := ReturnedSocket(items[0])], p + 20))
  {
    OneSocketRead(m, p, p, 0, 1, u, items[0]);
  }

  lemma SocketsRead2(m: seq<Octet>, p: nat, items: seq<SocketItem>, u: seq<SocketItem>)
    requires |items| == 2 == |u| && Has(m, p, SocketOctets(items[0]) + SocketOctets(items[1]))
    requires SocketFits(items[0]) && SocketFits(items[1])
    ensures ReadSockets(m, p, p, 0, 2, u) == Some((u[0 := ReturnedSocket(items[0])][1 := ReturnedSocket(items[1])], p + 40))
  {
    HasSplit(m, p, SocketOctets(items[0]), SocketOctets(items[1]));
    var one := u[0 := ReturnedSocket(items[0])];
    OneSocketRead(m, p, p, 0, 2, u, items[0]);
    OneSocketRead(m, p + 20, p + 20, 1, 2, one, items[1]);
  }

  lemma SocketsRead(m: seq<Octet>, p: nat, items: seq<SocketItem>, was: seq<SocketItem>, n: nat, end: nat)
    requires |items| <= 2 == |was| && Has(m, p, SocketsOctets(items)) && n == |items| && end == p + 20 * n
    requires forall k :: 0 <= k < |items| ==> SocketFits(items[k])
    ensures ReadSockets(m, p, p, 0, n, Unset(was)) == Some((ReturnedSockets(items, was), end))
  {
    var u := Unset(was);
    if n == 1 {
      SocketsRead1(m, p, items, u);
      Pair(u[0], u[1], ReturnedSocket(items[0]), u[1]);
    } else if n == 2 {
      SocketsRead2(m, p, items, u);
      Pair(u[0], u[1], ReturnedSocket(items[0]), ReturnedSocket(items[1]));
    }
  }

  /** A packet with its items in order. */
  function Packet(count: nat, a: AddressItem, typeId: nat, length: nat, body: seq<Octet>, items: seq<SocketItem>): seq<Octet>
    requires AddressOctets(a).Some? && |items| <= 2
  {
    Le16(count) + AddressOctets(a).value + (Le16(typeId) + Le16(length) + body) + SocketsOctets(items)
  }

  /** The octets of an address item behind its type and length. */
  function AddressWidth(typeId: nat): nat {
    if typeId == NULL_ADDRESS then 0 else if typeId == CONNECTION_ADDRESS then 4 else 8
  }

  lemma AddressLayout(m: seq<Octet>, a: AddressItem)
    requires AddressFits(a) && Has(m, 2, AddressOctets(a).value)
    ensures var size := AddressWidth(a.typeId);
      && |AddressOctets(a).value| == 4 + size && 6 + size <= |m|
      && Get16(m, 2) == a.typeId && Get16(m, 4) == size
      && (size >= 4 ==> Get32(m, 6) == a.connectionId) && (size == 8 ==> Get32(m, 10) == a.sequence)
  {
    AddressReads(m, a, a);
  }

  /** Where everything stands in it: the count, the address item by its type, the data item, and twenty octets for each socket. */
  lemma PacketLayout(m: seq<Octet>, count: nat, a: AddressItem, typeId: nat, body: seq<Octet>, items: seq<SocketItem>, p: nat, q: nat)
    requires AddressFits(a) && typeId < WORD16 && |body| < WORD16 && |items| <= 2 && count < WORD16
    requires forall k :: 0 <= k < |items| ==> SocketFits(items[k])
    requires m == Packet(count, a, typeId, |body|, body, items) && p == 6 + AddressWidth(a.typeId) && q == p + 4 + |body|
    ensures |m| == q + 20 * |items|
    ensures Get16(m, 0) == count && Get16(m, 2) == a.typeId && Get16(m, 4) == p - 6
    ensures (p >= 10 ==> Get32(m, 6) == a.connectionId) && (p == 14 ==> Get32(m, 10) == a.sequence)
    ensures Get16(m, p) == typeId && Get16(m, p + 2) == |body| && m[p + 4..q] == body
    ensures (|items| >= 1 ==> SocketAt(m, q, items[0])) && (|items| == 2 ==> SocketAt(m, q + 20, items[1]))
  {
    var address, item, rest := AddressOctets(a).value, Le16(typeId) + Le16(|body|) + body, SocketsOctets(items);
    PacketHas(m, count, address, item, rest);
    assert |address| == 4 + AddressWidth(a.typeId);
    PartsLayout(m, count, a, typeId, body, items, p, q);
  }

  lemma PartsLayout(m: seq<Octet>, count: nat, a: AddressItem, typeId: nat, body: seq<Octet>, items: seq<SocketItem>, p: nat, q: nat)
    requires AddressFits(a) && typeId < WORD16 && |body| < WORD16 && |items| <= 2 && count < WORD16
    requires forall k :: 0 <= k < |items| ==> SocketFits(items[k])
    requires Has(m, 0, Le16(count)) && Has(m, 2, AddressOctets(a).value) && Has(m, p, Le16(typeId) + Le16(|body|) + body)
    requires Has(m, q, SocketsOctets(items)) && p == 6 + AddressWidth(a.typeId) && q == p + 4 + |body|
    ensures Get16(m, 0) == count && Get16(m, 2) == a.typeId && Get16(m, 4) == p - 6
    ensures (p >= 10 ==> Get32(m, 6) == a.connectionId) && (p == 14 ==> Get32(m, 10) == a.sequence)
    ensures Get16(m, p) == typeId && Get16(m, p + 2) == |body| && m[p + 4..q] == body
    ensures (|items| >= 1 ==> SocketAt(m, q, items[0])) && (|items| == 2 ==> SocketAt(m, q + 20, items[1]))
  {
    Word16(m, 0, count);
    AddressLayout(m, a);
    ItemReads(m, p, typeId, body);
    if |items| > 0 {
      SocketsStand(m, q, items);
    }
  }

  /** The fields of a socket item: family and padding are fixed. */
  ghost predicate SocketAt(m: seq<Octet>, p: nat, i: SocketItem) {
    p + 20 <= |m| && Get16(m, p) == i.typeId && Get16(m, p + 2) == i.length && Get16(m, p + 4) == 0x0200 && Get16(m, p + 6) == i.port
    && Get32(m, p + 8) == i.address && m[p + 12..p + 20] == [0, 0, 0, 0, 0, 0, 0, 0]
  }

  lemma SocketsStand(m: seq<Octet>, p: nat, items: seq<SocketItem>)
    requires 1 <= |items| <= 2 && Has(m, p, SocketsOctets(items)) && forall k :: 0 <= k < |items| ==> SocketFits(items[k])
    ensures SocketAt(m, p, items[0]) && (|items| == 2 ==> SocketAt(m, p + 20, items[1]))
  {
    if |items| == 2 {
      HasSplit(m, p, SocketOctets(items[0]), SocketOctets(items[1]));
      SocketReads(m, p + 20, items[1]);
    }
    SocketReads(m, p, items[0]);
  }

  /** Such a packet parses, to its last octet, into exactly its items. */
  lemma PacketParses(m: seq<Octet>, count: nat, a: AddressItem, typeId: nat, body: seq<Octet>, items: seq<SocketItem>, was: Cpf)
    requires AddressFits(a) && typeId < WORD16 && |body| < WORD16 && |items| <= 2 == |was.sockets| && count == 2 + |items|
    requires forall k :: 0 <= k < |items| ==> SocketFits(items[k])
    requires m == Packet(count, a, typeId, |body|, body, items)
    ensures Parse(m, |m|, was) ==
      Parsed(Cpf(count, Returned(a, was.address), DataItem(typeId, |body|, body), ReturnedSockets(items, was.sockets)))
  {
    PacketHas(m, count, AddressOctets(a).value, Le16(typeId) + Le16(|body|) + body, SocketsOctets(items));
    ItemsParse(m, count, a, typeId, body, items, was);
  }

  lemma ItemReads(m: seq<Octet>, p: nat, typeId: nat, body: seq<Octet>)
    requires typeId < WORD16 && |body| < WORD16 && Has(m, p, Le16(typeId) + Le16(|body|) + body)
    ensures p + 4 + |body| <= |m| && Get16(m, p) == typeId && Get16(m, p + 2) == |body| && m[p + 4..p + 4 + |body|] == body
  {
    HasSplit(m, p, Le16(typeId) + Le16(|body|), body);
    HasSplit(m, p, Le16(typeId), Le16(|body|));
    Word16(m, p, typeId);
    Word16(m, p + 2, |body|);
  }

  lemma ItemsParse(m: seq<Octet>, count: nat, a: AddressItem, typeId: nat, body: seq<Octet>, items: seq<SocketItem>, was: Cpf)
    requires AddressFits(a) && typeId < WORD16 && |body| < WORD16 && |items| <= 2 == |was.sockets| && count == 2 + |items|
    requires forall k :: 0 <= k < |items| ==> SocketFits(items[k])
    requires Has(m, 0, Le16(count)) && Has(m, 2, AddressOctets(a).value)
    requires var p := 2 + |AddressOctets(a).value|;
      && Has(m, p, Le16(typeId) + Le16(|body|) + body)
      && Has(m, p + 4 + |body|, SocketsOctets(items)) && |m| == p + 4 + |body| + 20 * |items|
    ensures Parse(m, |m|, was) ==
      Parsed(Cpf(count, Returned(a, was.address), DataItem(typeId, |body|, body), ReturnedSockets(items, was.sockets)))
  {
    var p := 2 + |AddressOctets(a).value|;
    Word16(m, 0, count);
    AddressReads(m, a, was.address);
    ItemReads(m, p, typeId, body);
    SocketsRead(m, p + 4 + |body|, items, was.sockets, |items|, |m|);
    assert (if count - 2 > 2 then 2 else count - 2) == |items|;
  }

  lemma PacketHas(m: seq<Octet>, count: nat, address: seq<Octet>, item: seq<Octet>, rest: seq<Octet>)
    requires m == Le16(count) + address + item + rest
    ensures Has(m, 0, Le16(count)) && Has(m, 2, address) && Has(m, 2 + |address|, item) && Has(m, 2 + |address| + |item|, rest)
  {
    HasWhole(m);
    HasSplit(m, 0, Le16(count) + address + item, rest);
    HasSplit(m, 0, Le16(count) + address, item);
    HasSplit(m, 0, Le16(count), address);
  }

  // ---- Explicit replies ----

  /** A reply whose fields fit and whose item count is what will be written. */
  ghost predicate Answerable(g: Cpf, r: Response) {
    && Encodable(g, Some(r)) && AddressFits(g.address) && IsDataType(g.data.typeId)
    && r.size <= MAX_ADDITIONAL && ReplyLength(g, r) < WORD16
    && (forall k :: 0 <= k < 2 && IsSocketType(g.sockets[k].typeId) ==> SocketFits(g.sockets[k]))
    && g.itemCount == 2 + |Emitted(g.sockets)|
  }

  /** The length field is right exactly while the status fits the two words that are written. */
  lemma BodyLength(g: Cpf, r: Response)
    requires |r.additional| == MAX_ADDITIONAL
    ensures |ReplyBody(g, r)| <= ReplyLength(g, r)
    ensures |ReplyBody(g, r)| == ReplyLength(g, r) <==> r.size <= MAX_ADDITIONAL
  {
    assert |Written(r)| == if r.size < MAX_ADDITIONAL then r.size else MAX_ADDITIONAL;
  }

  /** With a longer status the length field promises more than is written, and the parser refuses the packet. */
  lemma LongStatusRefused(g: Cpf, r: Response, was: Cpf)
    requires Encodable(g, Some(r)) && AddressFits(g.address) && IsDataType(g.data.typeId) && |was.sockets| == 2
    requires g.itemCount == 2 && Emitted(g.sockets) == [] && r.size > MAX_ADDITIONAL && ReplyLength(g, r) < WORD16
    ensures var octets := Encoded(g, Some(r)); |octets| >= 6 && Parse(octets[6..], |octets| - 6, was) == Malformed
  {
    BodyLength(g, r);
    LongReplyOctets(g, r);
    PromisesTooMuch(Encoded(g, Some(r))[6..], g.address, g.data.typeId, ReplyLength(g, r), ReplyBody(g, r), was);
  }

  lemma LongReplyOctets(g: Cpf, r: Response)
    requires Encodable(g, Some(r)) && AddressOctets(g.address).Some? && IsDataType(g.data.typeId)
    requires g.itemCount == 2 && Emitted(g.sockets) == []
    ensures var octets := Encoded(g, Some(r));
      |octets| >= 6 && octets[6..] ==
      Le16(2) + AddressOctets(g.address).value + (Le16(g.data.typeId) + Le16(ReplyLength(g, r)) + ReplyBody(g, r)) + []
  {
    assert |Prefix(Some(r))| == 6;
  }

  lemma PromisesTooMuch(m: seq<Octet>, a: AddressItem, typeId: nat, length: nat, body: seq<Octet>, was: Cpf)
    requires AddressFits(a) && |body| < length < WORD16 && |was.sockets| == 2
    requires m == Le16(2) + AddressOctets(a).value + (Le16(typeId) + Le16(length) + body) + []
    ensures Parse(m, |m|, was) == Malformed
  {
    PacketHas(m, 2, AddressOctets(a).value, Le16(typeId) + Le16(length) + body, []);
    var p := 2 + |AddressOctets(a).value|;
    Word16(m, 0, 2);
    AddressReads(m, a, was.address);
    HasSplit(m, p, Le16(typeId) + Le16(length), body);
    HasSplit(m, p, Le16(typeId), Le16(length));
    Word16(m, p + 2, length);
  }

  /** A reply as it comes back: the address, the router's answer as the data item, and the sockets. */
  function ReturnedReply(g: Cpf, r: Response, was: Cpf): Cpf
    requires Encodable(g, Some(r)) && |was.sockets| == 2
  {
    Cpf(g.itemCount, Returned(g.address, was.address), DataItem(g.data.typeId, ReplyLength(g, r), ReplyBody(g, r)),
        ReturnedSockets(Emitted(g.sockets), was.sockets))
  }

  /** Behind the interface handle and the timeout, a reply parses as OK into its own items:
      the data item is the router's answer, the sockets come O->T first. */
  lemma ReplyRoundTrip(g: Cpf, r: Response, was: Cpf)
    requires Answerable(g, r) && |was.sockets| == 2
    ensures var octets := Encoded(g, Some(r));
      && |octets| >= 6 && octets[..6] == [0, 0, 0, 0, 0, 0]
      && Parse(octets[6..], |octets| - 6, was) ==
         Parsed(ReturnedReply(g, r, was))
  {
    BodyLength(g, r);
    EmittedFits(g.sockets);
    EncodedReply(g, r);
    PacketParses(Encoded(g, Some(r))[6..], g.itemCount, g.address, g.data.typeId, ReplyBody(g, r), Emitted(g.sockets), was);
  }

  lemma EncodedReply(g: Cpf, r: Response)
    requires Answerable(g, r)
    ensures var octets, packet := Encoded(g, Some(r)),
        Packet(g.itemCount, g.address, g.data.typeId, ReplyLength(g, r), ReplyBody(g, r), Emitted(g.sockets));
      octets == [0, 0, 0, 0, 0, 0] + packet && octets[..6] == [0, 0, 0, 0, 0, 0] && octets[6..] == packet
  {
    var zeros: seq<Octet> := [0, 0, 0, 0, 0, 0];
    assert Prefix(Some(r)) == zeros;
    var data := Le16(g.data.typeId) + Le16(ReplyLength(g, r)) + ReplyBody(g, r);
    InFront(zeros, Le16(g.itemCount), AddressOctets(g.address).value, data, SocketsOctets(Emitted(g.sockets)));
  }

  lemma InFront(start: seq<Octet>, a: seq<Octet>, b: seq<Octet>, c: seq<Octet>, d: seq<Octet>)
    ensures start + a + b + c + d == start + (a + b + c + d)
    ensures (start + (a + b + c + d))[..|start|] == start && (start + (a + b + c + d))[|start|..] == a + b + c + d
  {
  }

  lemma EmittedFits(sockets: seq<SocketItem>)
    requires |sockets| == 2 && forall k :: 0 <= k < 2 && IsSocketType(sockets[k].typeId) ==> SocketFits(sockets[k])
    ensures forall k :: 0 <= k < |Emitted(sockets)| ==> SocketFits(Emitted(sockets)[k])
    ensures forall j, k :: 0 <= j < k < |Emitted(sockets)| ==>
      Emitted(sockets)[j].typeId == SOCKET_O_TO_T && Emitted(sockets)[k].typeId == SOCKET_T_TO_O
  {
  }

  /** The socket items of a reply: of each type present the first there is, O->T before T->O, and none of another type. */
  lemma EmittedExactly(sockets: seq<SocketItem>)
    requires |sockets| == 2
    ensures var items, a, b := Emitted(sockets), sockets[0], sockets[1];
      && (IsSocketType(a.typeId) ==> a in items)
      && (IsSocketType(b.typeId) && b.typeId != a.typeId ==> b in items)
      && (forall i :: i in items ==> IsSocketType(i.typeId) && (i == a || (i == b && b.typeId != a.typeId)))
      && (|items| == 2 ==> items[0].typeId == SOCKET_O_TO_T && items[1].typeId == SOCKET_T_TO_O)
  {
  }

  /** Where everything stands in the data of a reply: the sequence number of a connected one, then service, reserved octet,
      general status and size of the additional status, its words, and the payload. */
  lemma ReplyLayout(g: Cpf, r: Response)
    requires |r.additional| == MAX_ADDITIONAL && r.service < 256 && r.reserved < 256 && r.status < 256 && r.size <= MAX_ADDITIONAL
    requires g.address.sequence < WORD32 && forall j :: 0 <= j < MAX_ADDITIONAL ==> r.additional[j] < WORD16
    ensures var b, o := ReplyBody(g, r), if g.data.typeId == CONNECTED_DATA then 2 else 0;
      && |b| == o + 4 + 2 * r.size + |r.payload|
      && (o == 2 ==> Get16(b, 0) == g.address.sequence % WORD16)
      && b[o] == r.service && b[o + 1] == r.reserved && b[o + 2] == r.status && b[o + 3] == r.size
      && (r.size >= 1 ==> Get16(b, o + 4) == r.additional[0]) && (r.size == 2 ==> Get16(b, o + 6) == r.additional[1])
      && b[o + 4 + 2 * r.size..] == r.payload
  {
    var b, o := ReplyBody(g, r), if g.data.typeId == CONNECTED_DATA then 2 else 0;
    var head: seq<Octet>, words := [r.service, r.reserved, r.status, r.size], WordOctets(Written(r));
    assert RouterOctets(r) == head + words + r.payload;
    HasWhole(b);
    if o == 2 {
      HasSplit(b, 0, Le16(g.address.sequence), RouterOctets(r));
      assert b[0] == Le16(g.address.sequence)[0] && b[1] == Le16(g.address.sequence)[1];
    }
    RouterStands(b, o, head, words, r);
  }

  lemma RouterStands(b: seq<Octet>, o: nat, head: seq<Octet>, words: seq<Octet>, r: Response)
    requires |r.additional| == MAX_ADDITIONAL && r.size <= MAX_ADDITIONAL && |head| == 4 && words == WordOctets(Written(r))
    requires forall j :: 0 <= j < MAX_ADDITIONAL ==> r.additional[j] < WORD16
    requires Has(b, o, head + words + r.payload) && |b| == o + 4 + 2 * r.size + |r.payload|
    ensures b[o] == head[0] && b[o + 1] == head[1] && b[o + 2] == head[2] && b[o + 3] == head[3]
    ensures (r.size >= 1 ==> Get16(b, o + 4) == r.additional[0]) && (r.size == 2 ==> Get16(b, o + 6) == r.additional[1])
    ensures b[o + 4 + 2 * r.size..] == r.payload
  {
    HasSplit(b, o, head + words, r.payload);
    HasSplit(b, o, head, words);
    WordsStand(Written(r));
    var there := b[o + 4..o + 4 + 2 * r.size];
    if r.size >= 1 {
      assert b[o + 4] == there[0] && b[o + 5] == there[1] && Get16(words, 0) == Written(r)[0];
    }
    if r.size == 2 {
      assert b[o + 6] == there[2] && b[o + 7] == there[3] && Get16(words, 2) == Written(r)[1];
    }
  }

  lemma {:induction false} WordsStand(words: seq<nat>)
    requires forall j :: 0 <= j < |words| ==> words[j] < WORD16
    ensures forall j :: 0 <= j < |words| ==> Get16(WordOctets(words), 2 * j) == words[j]
  {
    if words != [] {
      var n := |words| - 1;
      WordsStand(words[..n]);
      forall j | 0 <= j < |words|
        ensures Get16(WordOctets(words), 2 * j) == words[j]
      {
        if j < n {
          assert Get16(WordOctets(words[..n]), 2 * j) == words[..n][j];
        }
      }
    }
  }

  // ---- From the octets to the items and back ----

  /** The address item has the length its type calls for. */
  predicate Canonical(a: AddressItem) {
    || (a.typeId == NULL_ADDRESS && a.length == 0)
    || (a.typeId == CONNECTION_ADDRESS && a.length == 4)
    || (a.typeId == SEQUENCED_ADDRESS && a.length == 8)
  }

  lemma AddressRewrites(m: seq<Octet>, was: AddressItem)
    requires 6 <= |m| && 2 + AddressSize(Get16(m, 4)) <= |m| && Canonical(ReadAddress(m, was))
    ensures var a := ReadAddress(m, was);
      AddressOctets(a).Some? && |AddressOctets(a).value| == AddressSize(a.length) && Has(m, 2, AddressOctets(a).value)
  {
    var a := ReadAddress(m, was);
    Word16(m, 2, a.typeId);
    Word16(m, 4, a.length);
    HasSplit(m, 2, Le16(a.typeId), Le16(a.length));
    if a.length >= 4 {
      Word32(m, 6, a.connectionId);
      HasSplit(m, 2, Le16(a.typeId) + Le16(a.length), Le32(a.connectionId));
    }
    if a.length == 8 {
      Word32(m, 10, a.sequence);
      HasSplit(m, 2, Le16(a.typeId) + Le16(a.length) + Le32(a.connectionId), Le32(a.sequence));
    }
  }

  /** Any two-item packet that parses, with a data item and a canonical address item, is what the
      assembler makes of the parsed structure: nothing in it was overlooked. */
  lemma ParseThenEncode(m: seq<Octet>, was: Cpf)
    requires |was.sockets| == 2 && Parse(m, |m|, was).Parsed?
    requires var g := Parse(m, |m|, was).cpf; g.itemCount == 2 && Canonical(g.address) && IsDataType(g.data.typeId)
    ensures var g := Parse(m, |m|, was).cpf; Encodable(g, None) && Encoded(g, None) == m
  {
    var g := Parse(m, |m|, was).cpf;
    TwoItemsShape(m, was);
    AddressRewrites(m, was.address);
    Word16(m, 0, 2);
    Rewrites(m, AddressOctets(g.address).value, g.data);
    EncodedTwoItems(g);
  }

  lemma TwoItemsShape(m: seq<Octet>, was: Cpf)
    requires |was.sockets| == 2 && Parse(m, |m|, was).Parsed? && Parse(m, |m|, was).cpf.itemCount == 2
    ensures |m| >= 6 && Get16(m, 0) == 2
    ensures var g, p := Parse(m, |m|, was).cpf, 2 + AddressSize(Get16(m, 4));
      && p + 4 <= |m| && Get16(m, p + 2) == |m| - p - 4
      && g == Cpf(2, ReadAddress(m, was.address), DataItem(Get16(m, p), |m| - p - 4, m[p + 4..]), Unset(was.sockets))
  {
  }

  lemma EncodedTwoItems(g: Cpf)
    requires |g.sockets| == 2 && g.sockets[0].typeId == 0 && g.sockets[1].typeId == 0
    requires g.itemCount == 2 && AddressOctets(g.address).Some? && IsDataType(g.data.typeId) && g.data.length == |g.data.data|
    ensures Encoded(g, None) == Le16(2) + AddressOctets(g.address).value + (Le16(g.data.typeId) + Le16(g.data.length) + g.data.data)
  {
    assert g.data.data[..g.data.length] == g.data.data;
    assert Emitted(g.sockets) == [];
  }

  lemma Rewrites(m: seq<Octet>, address: seq<Octet>, d: DataItem)
    requires Has(m, 0, Le16(2)) && Has(m, 2, address) && |m| >= 6 + |address|
    requires d.typeId == Get16(m, 2 + |address|) && d.length == Get16(m, 4 + |address|) == |m| - 6 - |address| && d.data == m[6 + |address|..]
    ensures m == Le16(2) + address + (Le16(d.typeId) + Le16(d.length) + d.data)
  {
    var p := 2 + |address|;
    Word16(m, p, d.typeId);
    Word16(m, p + 2, d.length);
    HasSplit(m, p, Le16(d.typeId), Le16(d.length));
    HasSplit(m, p, Le16(d.typeId) + Le16(d.length), d.data);
    HasSplit(m, 0, Le16(2), address);
    HasSplit(m, 0, Le16(2) + address, Le16(d.typeId) + Le16(d.length) + d.data);
  }

  /** Up to two items the declared lengths have to account for every octet; from three on, the parser is lenient. */
  lemma AcceptsExactly(m: seq<Octet>, dataLength: nat, was: Cpf)
    requires |was.sockets| == 2 && dataLength <= |m| && Parse(m, dataLength, was).Parsed?
    requires Parse(m, dataLength, was).cpf.itemCount == 2
    ensures var g := Parse(m, dataLength, was).cpf; dataLength == 2 + AddressSize(g.address.length) + 4 + g.data.length
  {
  }

  /** An item behind the data item lies within the octets: its type does, and if that is a socket's, all twenty. */
  predicate Reaches(m: seq<Octet>, q: nat) {
    q + 2 <= |m| && (IsSocketType(Get16(m, q)) ==> q + 20 <= |m|)
  }

  /** So do the first `n` of them, at most two; one of another type is not passed over. */
  predicate AllReach(m: seq<Octet>, q: nat, n: nat) {
    n == 0 || (Reaches(m, q) && (n == 1 || Reaches(m, if IsSocketType(Get16(m, q)) then q + 20 else q)))
  }

  lemma SocketsReach(m: seq<Octet>, q: nat, n: nat, sockets: seq<SocketItem>)
    requires n <= 2 == |sockets|
    ensures ReadSockets(m, q, q, 0, n, sockets).Some? <==> AllReach(m, q, n)
  {
  }

  /** What the parser makes of every packet, by its item count: without items, or with an address item alone, the length has
      to be exact; a data item has to lie within it, and to end it unless more items follow; and of those only the octets
      have to be there. */
  lemma OutcomeExactly(m: seq<Octet>, dataLength: nat, was: Cpf)
    requires |was.sockets| == 2 && dataLength <= |m|
    ensures |m| < 2 ==> Parse(m, dataLength, was) == Overrun
    ensures |m| >= 2 && Get16(m, 0) == 0 ==> Parse(m, dataLength, was) == if dataLength == 2 then Parsed(was.(itemCount := 0, sockets := Unset(was.sockets))) else Malformed
    ensures |m| >= 2 && Get16(m, 0) > 0 && (|m| < 6 || |m| < 2 + AddressSize(Get16(m, 4))) ==> Parse(m, dataLength, was) == Overrun
    ensures |m| >= 6 && |m| >= 2 + AddressSize(Get16(m, 4)) && Get16(m, 0) > 0 ==> BehindAddress(m, dataLength, was, Get16(m, 0), 2 + AddressSize(Get16(m, 4)))
  {
    if |m| >= 6 && |m| >= 2 + AddressSize(Get16(m, 4)) && Get16(m, 0) > 2 {
      var p := 2 + AddressSize(Get16(m, 4));
      if |m| >= p + 4 && p + 4 + Get16(m, p + 2) <= dataLength {
        SocketsReach(m, p + 4 + Get16(m, p + 2), if Get16(m, 0) - 2 > 2 then 2 else Get16(m, 0) - 2, Unset(was.sockets));
      }
    }
  }

  /** The outcome for `n` items, of which the first ends at `p`. */
  ghost predicate BehindAddress(m: seq<Octet>, dataLength: nat, was: Cpf, n: nat, p: nat)
    requires |was.sockets| == 2 && dataLength <= |m| && p <= |m| && n > 0
  {
    var r := Parse(m, dataLength, was);
    if n == 1 then (if dataLength == p then r.Parsed? && r.cpf.itemCount == 1 && r.cpf.data == was.data else r == Malformed)
    else if |m| < p + 4 then r == Overrun
    else
      var q := p + 4 + Get16(m, p + 2);
      if dataLength < q || (n == 2 && dataLength != q) then r == Malformed
      else if !AllReach(m, q, if n > 4 then 2 else n - 2) then r == Overrun
      else r.Parsed? && r.cpf.itemCount == n && r.cpf.data == DataItem(Get16(m, p), Get16(m, p + 2), m[p + 4..q])
  }
}
