/** Attributes of the instances of a CIP class, indexed by three packed bit masks of the class. */
module Attributes {

  const GETABLE_ALL: bv8 := 0x01
  const GETABLE_SINGLE: bv8 := 0x02
  const SETABLE: bv8 := 0x04
  const GETABLE_ALL_DUMMY: bv8 := 0x08

  /** Either flag makes an attribute part of Get Attribute All. */
  const PART_OF_ALL: bv8 := GETABLE_ALL | GETABLE_ALL_DUMMY

  /** A place in an instance's attribute array; a place that is not set reads as number 0. */
  datatype Place = Unset | Attribute(number: nat, flags: bv8, data: nat)

  datatype Masks = Masks(getSingle: seq<bv8>, getAll: seq<bv8>, set_: seq<bv8>)

  /** The attribute arrays of the instances, and the masks they share. */
  datatype Table = Table(instances: seq<seq<Place>>, masks: Masks)

  // ---- Packed bits ----

  function Single(bit: nat): bv8
    requires bit < 8
  {
    1 << bit
  }

  predicate Bit(mask: seq<bv8>, k: nat)
    requires k / 8 < |mask|
  {
    mask[k / 8] & Single(k % 8) != 0
  }

  /** One insertion's contribution to a mask. */
  function Mark(mask: seq<bv8>, k: nat, on: bool): (r: seq<bv8>)
    requires k / 8 < |mask|
    ensures |r| == |mask|
  {
    mask[k / 8 := mask[k / 8] | (if on then Single(k % 8) else 0)]
  }

  lemma Singles()
    ensures Single(0) == 0x01 && Single(1) == 0x02 && Single(2) == 0x04 && Single(3) == 0x08
    ensures Single(4) == 0x10 && Single(5) == 0x20 && Single(6) == 0x40 && Single(7) == 0x80
  {
  }

  lemma SinglesApart(a: nat, b: nat, m: bv8)
    requires a < 8 && b < 8
    ensures (m | Single(a)) & Single(b) != 0 <==> a == b || m & Single(b) != 0
  {
    Singles();
    assert a == 0 || a == 1 || a == 2 || a == 3 || a == 4 || a == 5 || a == 6 || a == 7;
    assert b == 0 || b == 1 || b == 2 || b == 3 || b == 4 || b == 5 || b == 6 || b == 7;
  }

  /** Marking one number changes the bit of that number and of no other. */
  lemma MarkSets(mask: seq<bv8>, k: nat, on: bool, j: nat)
    requires k / 8 < |mask| && j / 8 < |mask|
    ensures Bit(Mark(mask, k, on), j) <==> Bit(mask, j) || (on && j == k)
  {
    if k / 8 == j / 8 {
      SinglesApart(k % 8, j % 8, mask[k / 8]);
      assert k % 8 == j % 8 <==> k == j;
      assert mask[k / 8] | 0 == mask[k / 8];
    }
  }

  // ---- What the masks stand for ----

  predicate Flagged(flags: bv8, wanted: bv8) {
    flags & wanted != 0
  }

  /** Some instance of the class has attribute `k` with one of the wanted flags. */
  ghost predicate Offers(instances: seq<seq<Place>>, k: nat, wanted: bv8) {
    exists i, j :: 0 <= i < |instances| && 0 <= j < |instances[i]| && Carries(instances[i][j], k, wanted)
  }

  predicate Carries(p: Place, k: nat, wanted: bv8) {
    p.Attribute? && p.number == k && Flagged(p.flags, wanted)
  }

  /** A mask has the bit of each number exactly when some instance offers that attribute. */
  ghost predicate Indexes(mask: seq<bv8>, instances: seq<seq<Place>>, wanted: bv8) {
    forall k :: 0 <= k && k / 8 < |mask| ==> (Bit(mask, k) <==> Offers(instances, k, wanted))
  }

  /** Attributes fill their array from the front, without gaps, and have numbers the masks cover. */
  ghost predicate Filled(places: seq<Place>, highest: nat) {
    && (forall i, j :: 0 <= i < j < |places| && places[j].Attribute? ==> places[i].Attribute?)
    && (forall j :: 0 <= j < |places| && places[j].Attribute? ==> places[j].number <= highest)
  }

  ghost predicate Valid(t: Table, highest: nat) {
    && |t.masks.getSingle| == |t.masks.getAll| == |t.masks.set_| == 1 + highest / 8
    && (forall i :: 0 <= i < |t.instances| ==> Filled(t.instances[i], highest))
    && Indexes(t.masks.getSingle, t.instances, GETABLE_SINGLE)
    && Indexes(t.masks.getAll, t.instances, PART_OF_ALL)
    && Indexes(t.masks.set_, t.instances, SETABLE)
  }

  // ---- Insertion ----

  /** The first place that is not set, or the length. */
  function FirstUnset(places: seq<Place>): (j: nat)
    ensures j <= |places| && (j < |places| ==> places[j].Unset?)
    ensures forall i :: 0 <= i < j ==> places[i].Attribute?
  {
    if places == [] || places[0].Unset? then 0 else 1 + FirstUnset(places[1..])
  }

  function MarkAll(m: Masks, number: nat, flags: bv8): Masks
    requires number / 8 < |m.getSingle| && number / 8 < |m.getAll| && number / 8 < |m.set_|
  {
    Masks(Mark(m.getSingle, number, Flagged(flags, GETABLE_SINGLE)),
          Mark(m.getAll, number, Flagged(flags, PART_OF_ALL)),
          Mark(m.set_, number, Flagged(flags, SETABLE)))
  }

  /** `InsertAttribute`; a full array leaves everything as it is. */
  function Insert(t: Table, i: nat, a: Place): (u: Table)
    requires i < |t.instances| && a.Attribute?
    requires a.number / 8 < |t.masks.getSingle| && a.number / 8 < |t.masks.getAll| && a.number / 8 < |t.masks.set_|
    ensures |u.instances| == |t.instances|
  {
    var j := FirstUnset(t.instances[i]);
    if j == |t.instances[i]| then t
    else Table(t.instances[i := t.instances[i][j := a]], MarkAll(t.masks, a.number, a.flags))
  }

  /** Setting a place that was unset adds exactly what its attribute offers. */
  lemma PlacedOffers(instances: seq<seq<Place>>, i: nat, j: nat, a: Place, k: nat, wanted: bv8)
    requires i < |instances| && j < |instances[i]| && instances[i][j].Unset?
    ensures Offers(instances[i := instances[i][j := a]], k, wanted) <==> Offers(instances, k, wanted) || Carries(a, k, wanted)
  {
    var after := instances[i := instances[i][j := a]];
    if Offers(instances, k, wanted) {
      var x, y :| 0 <= x < |instances| && 0 <= y < |instances[x]| && Carries(instances[x][y], k, wanted);
      assert Carries(after[x][y], k, wanted);
    }
    if Carries(a, k, wanted) {
      assert Carries(after[i][j], k, wanted);
    }
    if Offers(after, k, wanted) && !Carries(a, k, wanted) {
      var x, y :| 0 <= x < |after| && 0 <= y < |after[x]| && Carries(after[x][y], k, wanted);
      assert Carries(instances[x][y], k, wanted);
    }
  }

  lemma MarkIndexes(mask: seq<bv8>, instances: seq<seq<Place>>, i: nat, j: nat, a: Place, wanted: bv8)
    requires i < |instances| && j < |instances[i]| && instances[i][j].Unset? && a.Attribute? && a.number / 8 < |mask|
    requires Indexes(mask, instances, wanted)
    ensures Indexes(Mark(mask, a.number, Flagged(a.flags, wanted)), instances[i := instances[i][j := a]], wanted)
  {
    var after := instances[i := instances[i][j := a]];
    forall k | 0 <= k && k / 8 < |mask|
      ensures Bit(Mark(mask, a.number, Flagged(a.flags, wanted)), k) <==> Offers(after, k, wanted)
    {
      MarkSets(mask, a.number, Flagged(a.flags, wanted), k);
      PlacedOffers(instances, i, j, a, k, wanted);
    }
  }

  lemma InsertValid(t: Table, highest: nat, i: nat, a: Place)
    requires Valid(t, highest) && i < |t.instances| && a.Attribute? && a.number <= highest
    ensures Valid(Insert(t, i, a), highest)
  {
    var j := FirstUnset(t.instances[i]);
    if j < |t.instances[i]| {
      MarkIndexes(t.masks.getSingle, t.instances, i, j, a, GETABLE_SINGLE);
      MarkIndexes(t.masks.getAll, t.instances, i, j, a, PART_OF_ALL);
      MarkIndexes(t.masks.set_, t.instances, i, j, a, SETABLE);
    }
  }

  /** The attributes of an instance, in the order in which they were inserted. */
  function Own(places: seq<Place>): (r: seq<Place>)
    ensures forall a :: a in r ==> a.Attribute?
  {
    if places == [] || places[0].Unset? then [] else [places[0]] + Own(places[1..])
  }

  /** They stand before the first unset place. */
  lemma {:induction false} OwnBound(places: seq<Place>)
    ensures |Own(places)| == FirstUnset(places) && Own(places) == places[..FirstUnset(places)]
  {
    if places != [] && places[0].Attribute? {
      OwnBound(places[1..]);
    }
  }

  /** An insertion that finds room appends to the attributes of its instance and to no other's. */
  lemma InsertAppends(places: seq<Place>, a: Place)
    requires a.Attribute? && FirstUnset(places) < |places|
    requires forall i, j :: 0 <= i < j < |places| && places[j].Attribute? ==> places[i].Attribute?
    ensures Own(places[FirstUnset(places) := a]) == Own(places) + [a]
  {
    var j := FirstUnset(places);
    var after := places[j := a];
    OwnBound(places);
    OwnBound(after);
    assert j + 1 < |places| ==> places[j + 1].Unset?;
    FirstUnsetIs(after, j + 1);
  }

  datatype Insertion = Insertion(instance: nat, attribute: Place)

  ghost predicate Fitting(insertions: seq<Insertion>, count: nat, highest: nat) {
    forall n :: 0 <= n < |insertions| ==>
      insertions[n].instance < count && insertions[n].attribute.Attribute? && insertions[n].attribute.number <= highest
  }

  /** All places unset, all masks zero. */
  ghost function Blank(count: nat, size: nat, highest: nat): (t: Table)
    ensures Valid(t, highest)
  {
    var zero := seq(1 + highest / 8, _ => 0 as bv8);
    NoBits(zero);
    Table(seq(count, _ => seq(size, _ => Unset)), Masks(zero, zero, zero))
  }

  lemma NoBits(mask: seq<bv8>)
    requires forall i :: 0 <= i < |mask| ==> mask[i] == 0
    ensures forall k :: 0 <= k && k / 8 < |mask| ==> !Bit(mask, k)
  {
    forall k | 0 <= k && k / 8 < |mask|
      ensures !Bit(mask, k)
    {
      assert 0 & Single(k % 8) == 0;
    }
  }

  ghost function Run(t: Table, highest: nat, insertions: seq<Insertion>): (u: Table)
    requires Valid(t, highest) && Fitting(insertions, |t.instances|, highest)
    ensures Valid(u, highest)
    decreases insertions
  {
    if insertions == [] then t else
      InsertValid(t, highest, insertions[0].instance, insertions[0].attribute);
      Run(Insert(t, insertions[0].instance, insertions[0].attribute), highest, insertions[1..])
  }

  // ---- What a run of insertions leaves ----

  /** The attributes inserted for instance `i`, in order. */
  function Of(insertions: seq<Insertion>, i: nat): seq<Place> {
    if insertions == [] then []
    else if insertions[0].instance == i then [insertions[0].attribute] + Of(insertions[1..], i)
    else Of(insertions[1..], i)
  }

  /** At most the first `n`. */
  function Prefix(xs: seq<Place>, n: nat): seq<Place> {
    if |xs| <= n then xs else xs[..n]
  }

  lemma {:induction false} OfConcat(x: seq<Insertion>, y: seq<Insertion>, i: nat)
    ensures Of(x + y, i) == Of(x, i) + Of(y, i)
  {
    if x == [] {
      assert x + y == y;
    } else {
      assert (x + y)[1..] == x[1..] + y;
      OfConcat(x[1..], y, i);
    }
  }

  /** One insertion, seen from instance `i`: its attribute is appended if there is room, and others do not matter. */
  lemma InsertOwn(t: Table, highest: nat, x: Insertion, i: nat, size: nat)
    requires Valid(t, highest) && i < |t.instances| && |t.instances[i]| == size
    requires x.instance < |t.instances| && x.attribute.Attribute? && x.attribute.number <= highest
    ensures var u := Insert(t, x.instance, x.attribute);
      |u.instances[i]| == size && Own(u.instances[i]) == Prefix(Own(t.instances[i]) + Of([x], i), size)
  {
    var places := t.instances[i];
    OwnBound(places);
    assert Of([x], i) == if x.instance == i then [x.attribute] else [];
    if x.instance == i && FirstUnset(places) < size {
      InsertAppends(places, x.attribute);
    }
  }

  lemma PrefixConcat(xs: seq<Place>, ys: seq<Place>, zs: seq<Place>, n: nat)
    ensures Prefix(Prefix(xs + ys, n) + zs, n) == Prefix(xs + (ys + zs), n)
  {
    assert xs + ys + zs == xs + (ys + zs);
  }

  /** Each instance ends up with the first of its own insertions that its array holds, in order. */
  lemma {:induction false} RunOwn(t: Table, highest: nat, insertions: seq<Insertion>, i: nat, size: nat)
    requires Valid(t, highest) && Fitting(insertions, |t.instances|, highest) && i < |t.instances| && |t.instances[i]| == size
    ensures var u := Run(t, highest, insertions);
      && |u.instances| == |t.instances| && |u.instances[i]| == size
      && Own(u.instances[i]) == Prefix(Own(t.instances[i]) + Of(insertions, i), size)
    decreases insertions
  {
    if insertions == [] {
      OwnBound(t.instances[i]);
      assert Own(t.instances[i]) + [] == Own(t.instances[i]);
    } else {
      var x, rest := insertions[0], insertions[1..];
      var u := Insert(t, x.instance, x.attribute);
      InsertValid(t, highest, x.instance, x.attribute);
      InsertOwn(t, highest, x, i, size);
      RunOwn(u, highest, rest, i, size);
      assert insertions == [x] + rest;
      OfConcat([x], rest, i);
      PrefixConcat(Own(t.instances[i]), Of([x], i), Of(rest, i), size);
    }
  }

  /** Insertion `n` found a place: fewer than `size` of those before it were for the same instance. */
  ghost predicate FoundRoom(insertions: seq<Insertion>, n: nat, size: nat)
    requires n < |insertions|
  {
    |Of(insertions[..n], insertions[n].instance)| < size
  }

  /** Some insertion that found room was of attribute `k` with one of the wanted flags. */
  ghost predicate Inserted(insertions: seq<Insertion>, size: nat, k: nat, wanted: bv8) {
    exists n :: 0 <= n < |insertions| && FoundRoom(insertions, n, size) && IsOf(insertions[n].attribute, k, wanted)
  }

  predicate IsOf(p: Place, k: nat, wanted: bv8) {
    p.Attribute? && p.number == k && p.flags & wanted != 0
  }

  lemma OfAt(insertions: seq<Insertion>, n: nat)
    requires n < |insertions|
    ensures var x := insertions[n];
      var m := |Of(insertions[..n], x.instance)|;
      m < |Of(insertions, x.instance)| && Of(insertions, x.instance)[m] == x.attribute
  {
    var x, front, back := insertions[n], insertions[..n], insertions[n + 1..];
    assert insertions == front + ([x] + back);
    OfConcat(front, [x] + back, x.instance);
    OfConcat([x], back, x.instance);
  }

  lemma {:induction false} OfFrom(insertions: seq<Insertion>, i: nat, m: nat) returns (n: nat)
    requires m < |Of(insertions, i)|
    ensures n < |insertions| && insertions[n].instance == i && |Of(insertions[..n], i)| == m && insertions[n].attribute == Of(insertions, i)[m]
  {
    var last := |insertions| - 1;
    var x, front := insertions[last], insertions[..last];
    assert insertions == front + [x];
    OfConcat(front, [x], i);
    if m < |Of(front, i)| {
      n := OfFrom(front, i, m);
      assert insertions[..n] == front[..n];
    } else {
      n := last;
    }
  }

  /** What the table offers is what was inserted. */
  lemma OffersExactly(count: nat, size: nat, highest: nat, insertions: seq<Insertion>, k: nat, wanted: bv8)
    requires Fitting(insertions, count, highest)
    ensures var t := Run(Blank(count, size, highest), highest, insertions);
      Offers(t.instances, k, wanted) <==> Inserted(insertions, size, k, wanted)
  {
    var t := Run(Blank(count, size, highest), highest, insertions);
    RunKeepsCount(Blank(count, size, highest), highest, insertions);
    if Offers(t.instances, k, wanted) {
      var i, j :| 0 <= i < |t.instances| && 0 <= j < |t.instances[i]| && Carries(t.instances[i][j], k, wanted);
      OfferedWasInserted(count, size, highest, insertions, t, i, j);
    }
    if Inserted(insertions, size, k, wanted) {
      var n :| 0 <= n < |insertions| && FoundRoom(insertions, n, size) && IsOf(insertions[n].attribute, k, wanted);
      var m := InsertedIsOffered(count, size, highest, insertions, t, n);
    }
  }

  lemma OfferedWasInserted(count: nat, size: nat, highest: nat, insertions: seq<Insertion>, t: Table, i: nat, j: nat)
    requires Fitting(insertions, count, highest) && t == Run(Blank(count, size, highest), highest, insertions)
    requires i < count == |t.instances| && j < |t.instances[i]| && t.instances[i][j].Attribute?
    ensures exists n :: 0 <= n < |insertions| && FoundRoom(insertions, n, size) && insertions[n].attribute == t.instances[i][j]
  {
    BlankRun(count, size, highest, insertions, i);
    OwnHas(t.instances[i], j);
    var n := OfFrom(insertions, i, j);
    assert FoundRoom(insertions, n, size);
  }

  lemma InsertedIsOffered(count: nat, size: nat, highest: nat, insertions: seq<Insertion>, t: Table, n: nat) returns (m: nat)
    requires Fitting(insertions, count, highest) && t == Run(Blank(count, size, highest), highest, insertions)
    requires |t.instances| == count && n < |insertions| && FoundRoom(insertions, n, size)
    ensures m < |t.instances[insertions[n].instance]| && t.instances[insertions[n].instance][m] == insertions[n].attribute
  {
    var i := insertions[n].instance;
    m := |Of(insertions[..n], i)|;
    OfAt(insertions, n);
    BlankRun(count, size, highest, insertions, i);
    OwnBound(t.instances[i]);
  }

  lemma {:induction false} RunKeepsCount(t: Table, highest: nat, insertions: seq<Insertion>)
    requires Valid(t, highest) && Fitting(insertions, |t.instances|, highest)
    ensures |Run(t, highest, insertions).instances| == |t.instances|
    decreases insertions
  {
    if insertions != [] {
      InsertValid(t, highest, insertions[0].instance, insertions[0].attribute);
      RunKeepsCount(Insert(t, insertions[0].instance, insertions[0].attribute), highest, insertions[1..]);
    }
  }

  lemma OwnHas(places: seq<Place>, j: nat)
    requires j < |places| && places[j].Attribute? && forall i, j :: 0 <= i < j < |places| && places[j].Attribute? ==> places[i].Attribute?
    ensures j < |Own(places)| && Own(places)[j] == places[j]
  {
    OwnBound(places);
  }

  lemma BlankRun(count: nat, size: nat, highest: nat, insertions: seq<Insertion>, i: nat)
    requires Fitting(insertions, count, highest) && i < count
    ensures var t := Run(Blank(count, size, highest), highest, insertions);
      i < |t.instances| && |t.instances[i]| == size && Filled(t.instances[i], highest) && Own(t.instances[i]) == Prefix(Of(insertions, i), size)
  {
    var t := Blank(count, size, highest);
    RunOwn(t, highest, insertions, i, size);
    assert Own(t.instances[i]) == [];
    assert [] + Of(insertions, i) == Of(insertions, i);
  }

  /** After any sequence of insertions into a blank class: the three bits of number `k` are set exactly when some insertion
      that found room, on any instance, was of `k` with the matching flag. */
  lemma MasksTellTheTruth(count: nat, size: nat, highest: nat, insertions: seq<Insertion>, k: nat)
    requires Fitting(insertions, count, highest) && k <= highest
    ensures var t := Run(Blank(count, size, highest), highest, insertions);
      && (Bit(t.masks.getSingle, k) <==> Inserted(insertions, size, k, 0x02))
      && (Bit(t.masks.getAll, k) <==> Inserted(insertions, size, k, 0x09))
      && (Bit(t.masks.set_, k) <==> Inserted(insertions, size, k, 0x04))
  {
    var t := Run(Blank(count, size, highest), highest, insertions);
    assert k / 8 < |t.masks.getSingle|;
    OffersExactly(count, size, highest, insertions, k, GETABLE_SINGLE);
    OffersExactly(count, size, highest, insertions, k, PART_OF_ALL);
    OffersExactly(count, size, highest, insertions, k, SETABLE);
  }

  // ---- Get Attribute All ----

  /** What the service sends: the attributes in the order of their encoding, or a jump through the
      encoder of a place that is not set. */
  datatype Answer = Sent(attributes: seq<Place>) | NoEncoder

  /** The number a place reads as. */
  function NumberOf(p: Place): nat {
    if p.Unset? then 0 else p.number
  }

  /** The offered attributes among the places, in order. */
  ghost function Chosen(places: seq<Place>, instances: seq<seq<Place>>): seq<Place> {
    if places == [] then []
    else if places[0].Attribute? && Offers(instances, places[0].number, PART_OF_ALL) then
      [places[0]] + Chosen(places[1..], instances)
    else Chosen(places[1..], instances)
  }

  lemma {:induction false} ChosenStep(places: seq<Place>, n: nat, instances: seq<seq<Place>>)
    requires n < |places|
    ensures Chosen(places[..n + 1], instances) ==
      if places[n].Attribute? && Offers(instances, places[n].number, PART_OF_ALL) then
        Chosen(places[..n], instances) + [places[n]]
      else Chosen(places[..n], instances)
  {
    if n == 0 {
      assert places[..1][1..] == [] && places[..0] == [];
    } else {
      assert places[..n + 1][1..] == places[1..][..n];
      assert places[..n][1..] == places[1..][..n - 1];
      ChosenStep(places[1..], n - 1, instances);
    }
  }

  /** Of the attributes given, those whose number some insertion that found room marked for Get Attribute All. */
  ghost function Marked(attributes: seq<Place>, insertions: seq<Insertion>, size: nat): seq<Place> {
    if attributes == [] then []
    else if Inserted(insertions, size, NumberOf(attributes[0]), PART_OF_ALL) then
      [attributes[0]] + Marked(attributes[1..], insertions, size)
    else Marked(attributes[1..], insertions, size)
  }

  /** The places that are not set contribute nothing. */
  lemma {:induction false} ChosenIsMarked(places: seq<Place>, instances: seq<seq<Place>>, insertions: seq<Insertion>, size: nat)
    requires forall i, j :: 0 <= i < j < |places| && places[j].Attribute? ==> places[i].Attribute?
    requires forall k: nat :: Offers(instances, k, PART_OF_ALL) <==> Inserted(insertions, size, k, PART_OF_ALL)
    ensures Chosen(places, instances) == Marked(Own(places), insertions, size)
  {
    if places != [] {
      ChosenIsMarked(places[1..], instances, insertions, size);
      if places[0].Unset? {
        OwnBound(places[1..]);
        assert FirstUnset(places[1..]) == 0;
      }
    }
  }

  /** What Get Attribute All sends for an instance, told by the insertions alone: the attributes inserted for it that
      found room, in the order of their insertion, less those whose number was never marked. */
  lemma AnswerIsInsertionOrder(count: nat, size: nat, highest: nat, insertions: seq<Insertion>, i: nat)
    requires Fitting(insertions, count, highest) && i < count
    ensures var t := Run(Blank(count, size, highest), highest, insertions);
      i < |t.instances| && Chosen(t.instances[i], t.instances) == Marked(Prefix(Of(insertions, i), size), insertions, size)
  {
    var t := Run(Blank(count, size, highest), highest, insertions);
    BlankRun(count, size, highest, insertions, i);
    forall k: nat
      ensures Offers(t.instances, k, PART_OF_ALL) <==> Inserted(insertions, size, k, PART_OF_ALL)
    {
      OffersExactly(count, size, highest, insertions, k, PART_OF_ALL);
    }
    ChosenIsMarked(t.instances[i], t.instances, insertions, size);
  }

  /** Whether no place that is not set can be taken for attribute 0. */
  ghost predicate ZeroSafe(t: Table, i: nat)
    requires i < |t.instances|
  {
    !Offers(t.instances, 0, PART_OF_ALL) || forall j :: 0 <= j < |t.instances[i]| ==> t.instances[i][j].Attribute?
  }

  // ---- The class in place ----

  class AttributeTable {
    const highest: nat
    var instances: seq<seq<Place>>
    const getSingle: array<bv8>
    const getAll: array<bv8>
    const set_: array<bv8>

    ghost function View(): Table
      reads this, getSingle, getAll, set_
    {
      Table(instances, Masks(getSingle[..], getAll[..], set_[..]))
    }

    ghost predicate Ready()
      reads this, getSingle, getAll, set_
    {
      Valid(View(), highest) && getSingle != getAll && getSingle != set_ && getAll != set_
    }

    /** `CreateCipClass` and `AllocateAttributeMasks`: places unset, masks zero. */
    constructor (count: nat, size: nat, highest: nat)
      ensures Ready() && this.highest == highest && View() == Blank(count, size, highest)
      ensures fresh(getSingle) && fresh(getAll) && fresh(set_)
    {
      this.highest := highest;
      instances := seq(count, _ => seq(size, _ => Unset));
      getSingle := new bv8[1 + highest / 8](_ => 0);
      getAll := new bv8[1 + highest / 8](_ => 0);
      set_ := new bv8[1 + highest / 8](_ => 0);
      new;
      assert getSingle[..] == getAll[..] == set_[..] == seq(1 + highest / 8, _ => 0 as bv8);
    }

    method InsertAttribute(i: nat, a: Place) returns (inserted: bool)
      requires Ready() && i < |instances| && a.Attribute? && a.number <= highest
      modifies this, getSingle, getAll, set_
      ensures Ready() && View() == Insert(old(View()), i, a)
      ensures inserted <==> FirstUnset(old(instances)[i]) < |old(instances)[i]|
    {
      ghost var t := View();
      InsertValid(t, highest, i, a);
      var j := FindUnset(instances[i]);
      if j == |instances[i]| {
        return false;
      }
      instances := instances[i := instances[i][j := a]];
      MarkBit(getSingle, a.number, Flagged(a.flags, GETABLE_SINGLE));
      MarkBit(getAll, a.number, Flagged(a.flags, PART_OF_ALL));
      MarkBit(set_, a.number, Flagged(a.flags, SETABLE));
      inserted := true;
    }

    /** `GetAttributeAll`: exactly the instance's attributes that some instance of the class marked, in insertion
        order; and the loop meets a place without encoder exactly when attribute 0 is marked and a place is unset. */
    method GetAttributeAll(i: nat) returns (answer: Answer)
      requires Ready() && i < |instances|
      ensures answer == if ZeroSafe(View(), i) then Sent(Chosen(instances[i], instances)) else NoEncoder
    {
      var places := instances[i];
      var sent: seq<Place> := [];
      var j := 0;
      while j < |places|
        invariant 0 <= j <= |places| && sent == Chosen(places[..j], instances)
        invariant forall n :: 0 <= n < j && places[n].Unset? ==> !Offers(instances, 0, PART_OF_ALL)
      {
        var number := NumberOf(places[j]);
        assert Filled(places, highest) && number / 8 < getAll.Length;
        assert Bit(View().masks.getAll, number) <==> Offers(instances, number, PART_OF_ALL);
        ChosenStep(places, j, instances);
        if getAll[number / 8] & Single(number % 8) != 0 {
          if places[j].Unset? {
            return NoEncoder;
          }
          sent := sent + [places[j]];
        }
        j := j + 1;
      }
      assert places[..j] == places;
      answer := Sent(sent);
    }
  }

  /** OR-s one bit into a mask. */
  method MarkBit(mask: array<bv8>, k: nat, on: bool)
    requires k / 8 < mask.Length
    modifies mask
    ensures mask[..] == Mark(old(mask[..]), k, on)
  {
    mask[k / 8] := mask[k / 8] | (if on then Single(k % 8) else 0);
  }

  method FindUnset(places: seq<Place>) returns (j: nat)
    ensures j == FirstUnset(places)
  {
    j := 0;
    while j < |places|
      invariant 0 <= j <= |places| && forall n :: 0 <= n < j ==> places[n].Attribute?
    {
      if places[j].Unset? {
        break;
      }
      j := j + 1;
    }
    FirstUnsetIs(places, j);
  }

  lemma FirstUnsetIs(places: seq<Place>, j: nat)
    requires j <= |places| && (forall n :: 0 <= n < j ==> places[n].Attribute?) && (j < |places| ==> places[j].Unset?)
    ensures FirstUnset(places) == j
  {
  }
}
