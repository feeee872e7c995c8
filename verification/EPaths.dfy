/** Padded EPATHs: class, instance and attribute segments behind a size in words. */
module EPaths {
  import opened Words
  import opened Messages

  const CLASS_SEGMENT: nat := 0x20
  const INSTANCE_SEGMENT: nat := 0x24
  const MEMBER_SEGMENT: nat := 0x28
  const ATTRIBUTE_SEGMENT: nat := 0x30

  datatype Path = Path(size: nat, classId: nat, instance: nat, attribute: nat)

  // ---- Encoding ----

  /** The words one logical segment takes. */
  function Width(v: nat): nat {
    if v < 256 then 1 else 2
  }

  /** The 8-bit form, or the 16-bit form with its pad octet. */
  function Segment(code: nat, v: nat): (octets: seq<Octet>)
    requires code < 255
    ensures |octets| == 2 * Width(v)
  {
    if v < 256 then [code, v] else [code + 1, 0] + Le16(v)
  }

  /** Subtraction on the 32-bit unsigned count of words still to write. */
  function Less(length: nat, words: nat): nat {
    (length - words) % WORD32
  }

  /** `EncodeEPath`: segments are written for as long as the declared size is not used up. */
  function Encoded(p: Path): seq<Octet> {
    if p.size == 0 then [] else
    var afterClass := Less(p.size, Width(p.classId));
    if afterClass == 0 then Segment(CLASS_SEGMENT, p.classId) else
    var afterInstance := Less(afterClass, Width(p.instance));
    if afterInstance == 0 then Segment(CLASS_SEGMENT, p.classId) + Segment(INSTANCE_SEGMENT, p.instance) else
    Segment(CLASS_SEGMENT, p.classId) + Segment(INSTANCE_SEGMENT, p.instance) + Segment(ATTRIBUTE_SEGMENT, p.attribute)
  }

  /** A size that is exactly that of a leading part of class, instance, attribute; the rest is zero. */
  ghost predicate SizeExact(p: Path) {
    || p.size == 0
    || p.size == Width(p.classId)
    || p.size == Width(p.classId) + Width(p.instance)
    || p.size == Width(p.classId) + Width(p.instance) + Width(p.attribute)
  }

  /** The assertion that closes the encoder holds for exactly these sizes. */
  lemma EncodedSize(p: Path)
    requires p.size < 256
    ensures |Encoded(p)| == 2 * p.size <==> SizeExact(p)
  {
  }

  method AddSegment(code: nat, v: nat, m: Message)
    requires code < 255 && m.Room(2 * Width(v))
    modifies m, m.buffer
    ensures m.View() == Append(old(m.View()), Segment(code, v))
  {
    SegmentInSteps(m.View(), code, v);
    if v < 256 {
      m.AddSint(code);
      m.AddSint(v);
    } else {
      m.AddSint(code + 1);
      m.AddSint(0);
      m.AddInt(v);
    }
  }

  lemma SegmentInSteps(d: Draft, code: nat, v: nat)
    requires code < 255 && d.position + 2 * Width(v) <= |d.buffer|
    ensures Append(d, Segment(code, v)) ==
      if v < 256 then Append(Append(d, [code % 256]), [v % 256])
      else Append(Append(Append(d, [(code + 1) % 256]), [0 % 256]), Le16(v))
  {
    assert [code % 256] == [code] && [(code + 1) % 256] == [code + 1] && [0 % 256] == [0];
    if v < 256 {
      assert [v % 256] == [v];
      AppendTwice(d, [code], [v]);
      assert [code] + [v] == Segment(code, v);
    } else {
      AppendTwice(d, [code + 1], [0]);
      AppendTwice(d, [code + 1] + [0], Le16(v));
      assert [code + 1] + [0] + Le16(v) == Segment(code, v);
    }
  }

  method EncodePath(p: Path, m: Message)
    requires p.size < 256 && m.Room(|Encoded(p)|)
    modifies m, m.buffer
    ensures m.View() == Append(old(m.View()), Encoded(p))
  {
    ghost var d := m.View();
    AppendNothing(d);
    var length := p.size;
    if 0 < length {
      AddSegment(CLASS_SEGMENT, p.classId, m);
      length := Less(length, Width(p.classId));
    }
    if 0 < length {
      AddSegment(INSTANCE_SEGMENT, p.instance, m);
      AppendTwice(d, Segment(CLASS_SEGMENT, p.classId), Segment(INSTANCE_SEGMENT, p.instance));
      length := Less(length, Width(p.instance));
      if 0 < length {
        AddSegment(ATTRIBUTE_SEGMENT, p.attribute, m);
        AppendTwice(d, Segment(CLASS_SEGMENT, p.classId) + Segment(INSTANCE_SEGMENT, p.instance), Segment(ATTRIBUTE_SEGMENT, p.attribute));
      }
    }
  }

  // ---- Decoding ----

  /** The path, where the cursor ends up, and the octets reported as consumed. */
  datatype Outcome = Decoded(path: Path, cursor: nat, consumed: nat) | Invalid | Overrun

  /** One segment: the octets the cursor moves over, the words counted, and the path. */
  datatype Step = Step(moved: nat, words: nat, path: Path) | Unknown | Beyond

  /** Segments whose low three bits are all set are refused before anything else, then all that are not logical 8- or 16-bit ones. */
  function ReadSegment(m: seq<Octet>, i: nat, p: Path): Step {
    if |m| <= i then Beyond else
    var code: int := m[i];
    if code % 8 == 7 then Unknown
    else if code in {CLASS_SEGMENT, INSTANCE_SEGMENT, ATTRIBUTE_SEGMENT} then
      if |m| < i + 2 then Beyond
      else Step(2, 1, Put(p, code, m[i + 1]))
    else if code in {CLASS_SEGMENT + 1, INSTANCE_SEGMENT + 1, ATTRIBUTE_SEGMENT + 1} then
      if |m| < i + 4 then Beyond
      else Step(4, 2, Put(p, code - 1, Get16(m, i + 2)))
    else if code == MEMBER_SEGMENT then Step(2, 1, p)
    else if code == MEMBER_SEGMENT + 1 then Step(2, 2, p)
    else Unknown
  }

  function Put(p: Path, code: int, v: int): Path
    requires v >= 0
  {
    if code == CLASS_SEGMENT then p.(classId := v)
    else if code == INSTANCE_SEGMENT then p.(instance := v)
    else p.(attribute := v)
  }

  function DecodeFrom(m: seq<Octet>, i: nat, elements: nat, p: Path): Outcome
    decreases p.size - elements
  {
    if elements >= p.size then Decoded(p, i, 2 * elements + 1)
    else match ReadSegment(m, i, p)
      case Beyond => Overrun
      case Unknown => Invalid
      case Step(moved, words, q) => DecodeFrom(m, i + moved, elements + words, q)
  }

  /** `DecodePaddedEPath`. */
  function Decode(m: seq<Octet>): Outcome {
    if m == [] then Overrun else DecodeFrom(m, 1, 0, Path(m[0], 0, 0, 0))
  }

  method DecodePath(m: seq<Octet>) returns (r: Outcome)
    ensures r == Decode(m)
  {
    if m == [] { return Overrun; }
    var p := Path(m[0], 0, 0, 0);
    var runner: nat, elements: nat := 1, 0;
    while elements < p.size
      invariant DecodeFrom(m, runner, elements, p) == Decode(m)
      decreases p.size - elements
    {
      var step := ReadSegment(m, runner, p);
      match step {
        case Beyond => return Overrun;
        case Unknown => return Invalid;
        case Step(moved, words, q) =>
          p := q;
          runner, elements := runner + moved, elements + words;
      }
    }
    r := Decoded(p, runner, 2 * elements + 1);
  }

  // ---- Round trip ----

  /** Nothing is set beyond the part the size covers. */
  ghost predicate Tidy(p: Path) {
    && (p.size == 0 ==> p.classId == 0)
    && (p.size <= Width(p.classId) ==> p.instance == 0)
    && (p.size <= Width(p.classId) + Width(p.instance) ==> p.attribute == 0)
  }

  ghost predicate PathFits(p: Path) {
    p.size < 256 && p.classId < WORD16 && p.instance < WORD16 && p.attribute < WORD16
  }

  /** A segment that stands in the message is read back. */
  lemma SegmentReads(m: seq<Octet>, i: nat, code: nat, v: nat, p: Path)
    requires code in {CLASS_SEGMENT, INSTANCE_SEGMENT, ATTRIBUTE_SEGMENT} && v < WORD16 && Has(m, i, Segment(code, v))
    ensures ReadSegment(m, i, p) == Step(2 * Width(v), Width(v), Put(p, code, v))
  {
    var octets := Segment(code, v);
    assert m[i] == m[i..i + |octets|][0] == octets[0] && m[i + 1] == m[i..i + |octets|][1] == octets[1];
    if v >= 256 {
      HasSplit(m, i, [code + 1, 0], Le16(v));
      Word16(m, i + 2, v);
    }
  }

  /** Decoding the size octet and what the encoder wrote for it gives the same path back, with the cursor
      behind it and every octet accounted for, whatever follows. */
  lemma PathRoundTrip(p: Path, rest: seq<Octet>)
    requires PathFits(p) && SizeExact(p) && Tidy(p)
    ensures Decode([p.size] + Encoded(p) + rest) == Decoded(p, 1 + 2 * p.size, 1 + 2 * p.size)
  {
    var m := [p.size] + Encoded(p) + rest;
    assert m[0] == p.size;
    HasWhole(m);
    HasSplit(m, 0, [p.size] + Encoded(p), rest);
    HasSplit(m, 0, [p.size], Encoded(p));
    SegmentsDecode(m, p);
  }

  lemma SegmentsDecode(m: seq<Octet>, p: Path)
    requires PathFits(p) && SizeExact(p) && Tidy(p) && Has(m, 1, Encoded(p))
    ensures DecodeFrom(m, 1, 0, Path(p.size, 0, 0, 0)) == Decoded(p, 1 + 2 * p.size, 1 + 2 * p.size)
  {
    var c, i, a := Segment(CLASS_SEGMENT, p.classId), Segment(INSTANCE_SEGMENT, p.instance), Segment(ATTRIBUTE_SEGMENT, p.attribute);
    var p0, p1, p2 := Path(p.size, 0, 0, 0), Path(p.size, p.classId, 0, 0), Path(p.size, p.classId, p.instance, 0);
    var x, y := 1 + |c|, 1 + |c| + |i|;
    if p.size > 0 {
      if p.size == Width(p.classId) {
        SegmentReads(m, 1, CLASS_SEGMENT, p.classId, p0);
        assert p == p1;
      } else if p.size == Width(p.classId) + Width(p.instance) {
        HasSplit(m, 1, c, i);
        SegmentReads(m, 1, CLASS_SEGMENT, p.classId, p0);
        SegmentReads(m, x, INSTANCE_SEGMENT, p.instance, p1);
        assert p == p2;
        assert DecodeFrom(m, x, Width(p.classId), p1) == DecodeFrom(m, y, p.size, p);
      } else {
        HasSplit(m, 1, c + i, a);
        HasSplit(m, 1, c, i);
        SegmentReads(m, 1, CLASS_SEGMENT, p.classId, p0);
        SegmentReads(m, x, INSTANCE_SEGMENT, p.instance, p1);
        SegmentReads(m, y, ATTRIBUTE_SEGMENT, p.attribute, p2);
        assert DecodeFrom(m, y, Width(p.classId) + Width(p.instance), p2) == DecodeFrom(m, y + |a|, p.size, p);
        assert DecodeFrom(m, x, Width(p.classId), p1) == DecodeFrom(m, y + |a|, p.size, p);
      }
    }
  }

  /** A logical segment on the wire: its 8-bit form, or the 16-bit form with a pad octet. */
  ghost predicate SegmentAt(m: seq<Octet>, i: nat, code: nat, v: nat) {
    if v < 256 then i + 2 <= |m| && m[i] == code && m[i + 1] == v
    else i + 4 <= |m| && m[i] == code + 1 && m[i + 1] == 0 && Get16(m, i + 2) == v
  }

  lemma SegmentStands(m: seq<Octet>, i: nat, code: nat, v: nat)
    requires code < 255 && v < WORD16 && Has(m, i, Segment(code, v))
    ensures SegmentAt(m, i, code, v)
  {
    var octets := Segment(code, v);
    assert m[i] == m[i..i + |octets|][0] == octets[0] && m[i + 1] == m[i..i + |octets|][1] == octets[1];
    if v >= 256 {
      HasSplit(m, i, [code + 1, 0], Le16(v));
      Word16(m, i + 2, v);
    }
  }

  /** Where everything stands in an encoded path of exact size: the class segment, then that of the instance, then that of
      the attribute, as far as the size goes. */
  lemma PathLayout(p: Path)
    requires PathFits(p) && SizeExact(p)
    ensures var m, i := Encoded(p), 2 * Width(p.classId);
      var a := i + 2 * Width(p.instance);
      && |m| == 2 * p.size
      && (p.size > 0 ==> SegmentAt(m, 0, 0x20, p.classId))
      && (p.size > Width(p.classId) ==> SegmentAt(m, i, 0x24, p.instance))
      && (p.size > Width(p.classId) + Width(p.instance) ==> SegmentAt(m, a, 0x30, p.attribute))
  {
    var m, c, i, a := Encoded(p), Segment(CLASS_SEGMENT, p.classId), Segment(INSTANCE_SEGMENT, p.instance), Segment(ATTRIBUTE_SEGMENT, p.attribute);
    if p.size > Width(p.classId) + Width(p.instance) {
      assert m == c + i + a;
      SegmentWithin(c + i, ATTRIBUTE_SEGMENT, p.attribute, []);
      SegmentWithin(c, INSTANCE_SEGMENT, p.instance, a);
      SegmentWithin([], CLASS_SEGMENT, p.classId, i + a);
      assert m == c + i + a + [] && m == [] + c + (i + a);
    } else if p.size > Width(p.classId) {
      assert m == c + i;
      SegmentWithin(c, INSTANCE_SEGMENT, p.instance, []);
      SegmentWithin([], CLASS_SEGMENT, p.classId, i);
      assert m == c + i + [] && m == [] + c + i;
    } else if p.size > 0 {
      SegmentWithin([], CLASS_SEGMENT, p.classId, []);
      assert m == [] + c + [];
    }
  }

  lemma SegmentWithin(front: seq<Octet>, code: nat, v: nat, back: seq<Octet>)
    requires code < 255 && v < WORD16
    ensures SegmentAt(front + Segment(code, v) + back, |front|, code, v)
  {
    var m := front + Segment(code, v) + back;
    assert m[|front|..|front| + |Segment(code, v)|] == Segment(code, v);
    SegmentStands(m, |front|, code, v);
  }

  /** What one segment does to the path, and which segments are refused: all but the logical ones for class, instance and
      attribute, which set their value, and for a member, which is passed over. */
  lemma SegmentExactly(m: seq<Octet>, i: nat, p: Path)
    ensures i < |m| && m[i] !in {0x20, 0x21, 0x24, 0x25, 0x28, 0x29, 0x30, 0x31} ==> ReadSegment(m, i, p) == Unknown
    ensures i + 2 <= |m| && m[i] == 0x20 ==> ReadSegment(m, i, p) == Step(2, 1, p.(classId := m[i + 1]))
    ensures i + 2 <= |m| && m[i] == 0x24 ==> ReadSegment(m, i, p) == Step(2, 1, p.(instance := m[i + 1]))
    ensures i + 2 <= |m| && m[i] == 0x30 ==> ReadSegment(m, i, p) == Step(2, 1, p.(attribute := m[i + 1]))
    ensures i + 4 <= |m| && m[i] == 0x21 ==> ReadSegment(m, i, p) == Step(4, 2, p.(classId := Get16(m, i + 2)))
    ensures i + 4 <= |m| && m[i] == 0x25 ==> ReadSegment(m, i, p) == Step(4, 2, p.(instance := Get16(m, i + 2)))
    ensures i + 4 <= |m| && m[i] == 0x31 ==> ReadSegment(m, i, p) == Step(4, 2, p.(attribute := Get16(m, i + 2)))
    ensures i < |m| && m[i] == 0x28 ==> ReadSegment(m, i, p) == Step(2, 1, p)
    ensures i < |m| && m[i] == 0x29 ==> ReadSegment(m, i, p) == Step(2, 2, p)
    ensures ReadSegment(m, i, p) == Beyond <==>
      || |m| <= i
      || (m[i] in {0x20, 0x24, 0x30} && |m| < i + 2)
      || (m[i] in {0x21, 0x25, 0x31} && |m| < i + 4)
  {
  }

  // ---- The cursor and the count ----

  /** How many 16-bit member segments are met on the way. */
  function Members(m: seq<Octet>, i: nat, elements: nat, p: Path): nat
    decreases p.size - elements
  {
    if elements >= p.size then 0
    else match ReadSegment(m, i, p)
      case Step(moved, words, q) => (if m[i] == MEMBER_SEGMENT + 1 then 1 else 0) + Members(m, i + moved, elements + words, q)
      case _ => 0
  }

  lemma {:induction false} CursorAccounts(m: seq<Octet>, i: nat, elements: nat, p: Path)
    requires DecodeFrom(m, i, elements, p).Decoded? && elements <= p.size + 1
    ensures var r := DecodeFrom(m, i, elements, p);
      && (r.cursor - i) + 2 * Members(m, i, elements, p) == r.consumed - 1 - 2 * elements
      && r.path.size == p.size && r.consumed <= 2 * (p.size + 1) + 1
      && (elements <= p.size ==> r.consumed >= 2 * p.size + 1)
    decreases p.size - elements
  {
    if elements < p.size {
      var step := ReadSegment(m, i, p);
      CursorAccounts(m, i + step.moved, elements + step.words, step.path);
    }
  }

  /** Every successful decode consumes the declared words or one more, and the cursor lags behind the
      reported count by one word for each 16-bit member segment: without one, they are equal. */
  lemma DecodeAdvances(m: seq<Octet>)
    requires Decode(m).Decoded?
    ensures var r, members, size: int := Decode(m), Members(m, 1, 0, Path(m[0], 0, 0, 0)), m[0];
      && r.path.size == size
      && (r.consumed == 2 * size + 1 || r.consumed == 2 * size + 3)
      && r.cursor + 2 * members == r.consumed
      && (r.cursor == r.consumed <==> members == 0)
  {
    CursorAccounts(m, 1, 0, Path(m[0], 0, 0, 0));
    ConsumedOdd(m, 1, 0, Path(m[0], 0, 0, 0));
  }

  lemma {:induction false} ConsumedOdd(m: seq<Octet>, i: nat, elements: nat, p: Path)
    requires DecodeFrom(m, i, elements, p).Decoded?
    ensures DecodeFrom(m, i, elements, p).consumed % 2 == 1
    decreases p.size - elements
  {
    if elements < p.size {
      var step := ReadSegment(m, i, p);
      ConsumedOdd(m, i + step.moved, elements + step.words, step.path);
    }
  }
}
