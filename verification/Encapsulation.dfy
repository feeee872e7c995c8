/** The encapsulation header and the framing of explicit replies behind it. */
module Encapsulation {
  import opened Words
  import opened Messages
  import opened Wrappers
  import opened PacketFormats
  import PacketRoundTrips

  const HEADER_LENGTH: nat := 24
  const CONTEXT_LENGTH: nat := 8

  datatype Header = Header(command: nat, length: nat, session: nat, status: nat, context: seq<Octet>, options: nat)

  function HeaderOctets(h: Header): (octets: seq<Octet>)
    requires |h.context| == CONTEXT_LENGTH
    ensures |octets| == HEADER_LENGTH
  {
    Le16(h.command) + Le16(h.length) + Le32(h.session) + Le32(h.status) + h.context + Le32(h.options)
  }

  /** `CreateEncapsulationStructure`: the header, and how many octets there are beyond its message. */
  function ReadHeader(m: seq<Octet>): (r: (Header, int))
    requires |m| >= HEADER_LENGTH
  {
    var h := Header(Get16(m, 0), Get16(m, 2), Get32(m, 4), Get32(m, 8), m[12..20], Get32(m, 20));
    (h, |m| - HEADER_LENGTH - h.length)
  }

  ghost predicate HeaderFits(h: Header) {
    h.command < WORD16 && h.length < WORD16 && h.session < WORD32 && h.status < WORD32 && |h.context| == CONTEXT_LENGTH && h.options < WORD32
  }

  /** A header read back from the front of a message is the one written, and nothing remains beyond
      a message exactly as long as its header says. */
  lemma HeaderRoundTrip(h: Header, rest: seq<Octet>)
    requires HeaderFits(h)
    ensures ReadHeader(HeaderOctets(h) + rest) == (h, |rest| - h.length)
  {
    var m := HeaderOctets(h) + rest;
    var a, b, c := Le16(h.command), Le16(h.length), Le32(h.session);
    HasWhole(m);
    HasSplit(m, 0, HeaderOctets(h), rest);
    HasSplit(m, 0, a + b + c + Le32(h.status) + h.context, Le32(h.options));
    HasSplit(m, 0, a + b + c + Le32(h.status), h.context);
    HasSplit(m, 0, a + b + c, Le32(h.status));
    HasSplit(m, 0, a + b, c);
    HasSplit(m, 0, a, b);
    Word16(m, 0, h.command);
    Word16(m, 2, h.length);
    Word32(m, 4, h.session);
    Word32(m, 8, h.status);
    Word32(m, 20, h.options);
  }

  method GenerateHeader(h: Header, m: Message)
    requires |h.context| == CONTEXT_LENGTH && h.options == 0 && m.Room(HEADER_LENGTH)
    modifies m, m.buffer
    ensures m.View() == Append(old(m.View()), HeaderOctets(h))
  {
    ghost var d := m.View();
    ghost var a, b, c := Le16(h.command), Le16(h.length), Le32(h.session);
    m.AddInt(h.command);
    m.AddInt(h.length);
    m.AddDint(h.session);
    Grow(d, a, b, c);
    m.AddDint(h.status);
    m.AddOctets(h.context);
    Grow(d, a + b + c, Le32(h.status), h.context);
    m.AddDint(0);
    AppendTwice(d, a + b + c + Le32(h.status) + h.context, Le32(0));
  }

  /** The header that answers a request: same command and context, success, no options. */
  function Answer(request: Header, length: nat): Header {
    Header(request.command, length, request.session, 0, request.context, 0)
  }

  /** The tail of `NotifyCommonPacketFormat`: skip the header, write the items, go back and write the
      header over the gap with the length counted meanwhile, and return to the end. */
  method SendReply(request: Header, g: Cpf, r: Response, m: Message)
    requires |request.context| == CONTEXT_LENGTH && Encodable(g, Some(r))
    requires m.position == 0 && m.used == 0 && m.Room(HEADER_LENGTH + |Encoded(g, Some(r))|)
    modifies m, m.buffer
    ensures var e := Encoded(g, Some(r));
      && m.used == m.position == HEADER_LENGTH + |e|
      && m.buffer[..m.used] == HeaderOctets(Answer(request, |e|)) + e
  {
    ghost var b, e := m.buffer[..], Encoded(g, Some(r));
    m.Seek(HEADER_LENGTH);
    var ok := Assemble(g, Some(r), m);
    var end := m.position;
    m.Seek(0);
    var length := m.used;
    GenerateHeader(Answer(request, length), m);
    m.Seek(end);
    OverTheGap(b, HeaderOctets(Answer(request, |e|)), e);
  }

  lemma OverTheGap(b: seq<Octet>, h: seq<Octet>, e: seq<Octet>)
    requires |h| + |e| <= |b|
    ensures Overwrite(Overwrite(b, |h|, e), 0, h)[..|h| + |e|] == h + e
  {
  }

  /** The header that answers, read back in front of what it answers with. */
  lemma AnswerReads(request: Header, e: seq<Octet>)
    requires HeaderFits(request) && |e| < WORD16
    ensures var m := HeaderOctets(Answer(request, |e|)) + e;
      && |m| == HEADER_LENGTH + |e|
      && ReadHeader(m) == (Header(request.command, |e|, request.session, 0, request.context, 0), 0)
      && (|e| >= 6 ==> m[HEADER_LENGTH + 6..] == e[6..])
  {
    HeaderRoundTrip(Answer(request, |e|), e);
  }

  lemma FramedReads(request: Header, e: seq<Octet>, m: seq<Octet>, was: Cpf)
    requires HeaderFits(request) && 6 <= |e| < WORD16 && |was.sockets| == 2 && m == HeaderOctets(Answer(request, |e|)) + e
    ensures |m| >= HEADER_LENGTH + 6
    ensures ReadHeader(m) == (Header(request.command, |m| - HEADER_LENGTH, request.session, 0, request.context, 0), 0)
    ensures Parse(m[HEADER_LENGTH + 6..], |m| - HEADER_LENGTH - 6, was) == Parse(e[6..], |e| - 6, was)
  {
    AnswerReads(request, e);
  }

  /** A finished reply is one whole message: the receiver has nothing left over, finds the command, the session and the
      context of the request with status 0, no options and the length of what follows, and reads the items back behind the
      interface handle and the timeout. */
  lemma ReplyFramed(request: Header, g: Cpf, r: Response, was: Cpf, m: seq<Octet>)
    requires PacketRoundTrips.Answerable(g, r) && |was.sockets| == 2
    requires HeaderFits(request) && |Encoded(g, Some(r))| < WORD16
    requires m == HeaderOctets(Answer(request, |Encoded(g, Some(r))|)) + Encoded(g, Some(r))
    ensures |m| >= HEADER_LENGTH + 6
    ensures ReadHeader(m) == (Header(request.command, |m| - HEADER_LENGTH, request.session, 0, request.context, 0), 0)
    ensures Parse(m[HEADER_LENGTH + 6..], |m| - HEADER_LENGTH - 6, was) == Parsed(PacketRoundTrips.ReturnedReply(g, r, was))
  {
    var e := Encoded(g, Some(r));
    PacketRoundTrips.ReplyRoundTrip(g, r, was);
    FramedReads(request, e, m, was);
  }

  /** Where the fields of a header stand. */
  lemma HeaderLayout(h: Header, rest: seq<Octet>)
    requires HeaderFits(h)
    ensures var m := HeaderOctets(h) + rest;
      && Get16(m, 0) == h.command && Get16(m, 2) == h.length && Get32(m, 4) == h.session && Get32(m, 8) == h.status
      && m[12..20] == h.context && Get32(m, 20) == h.options && m[24..] == rest
  {
    HeaderRoundTrip(h, rest);
  }
}
