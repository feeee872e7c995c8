/** The instances of a CIP class: a list of numbered objects with two counters beside it. */
module Instances {
  import opened Sequences

  /** Instance numbers are 16-bit, and 0 stands for the class itself. */
  const NUMBERS: nat := 0x1_0000

  datatype ClassState = ClassState(instances: seq<nat>, count: nat, max: nat)

  /** `GetMaxInstanceNumber`. */
  function Max(xs: seq<nat>): (m: nat)
    ensures forall x :: x in xs ==> x <= m
    ensures m == 0 || m in xs
  {
    if xs == [] then 0 else
      var rest := Max(xs[..|xs| - 1]);
      assert forall x :: x in xs ==> x in xs[..|xs| - 1] || x == xs[|xs| - 1];
      if xs[|xs| - 1] > rest then xs[|xs| - 1] else rest
  }

  /** Distinct positive numbers, and counters that tell the truth about them. */
  ghost predicate Numbered(c: ClassState) {
    && Distinct(c.instances)
    && (forall x :: x in c.instances ==> 1 <= x < NUMBERS)
    && c.count == |c.instances|
    && c.max == Max(c.instances)
  }

  // ---- Choosing numbers ----

  /** The smallest number from `start` on that is not in use. */
  function SmallestFree(used: seq<nat>, start: nat): (n: nat)
    ensures start <= n <= start + |used| && n !in used
    ensures forall x :: start <= x < n ==> x in used
    decreases |used|
  {
    if start !in used then start else
      WithoutShorter(used, {start}, start);
      SmallestFree(Without(used, {start}), start + 1)
  }

  /** Numbers in use below which everything is in use. */
  lemma FreeIs(used: seq<nat>, start: nat, n: nat)
    requires start <= n && n !in used && forall x :: start <= x < n ==> x in used
    ensures SmallestFree(used, start) == n
  {
    var m := SmallestFree(used, start);
    assert m < n ==> m in used;
    assert n < m ==> n in used;
  }

  /** The numbers of `n` instances more: each time the smallest free one. */
  function NewNumbers(used: seq<nat>, n: nat): (more: seq<nat>)
    ensures |more| == n
    decreases n
  {
    if n == 0 then [] else
      var first := SmallestFree(used, 1);
      [first] + NewNumbers(used + [first], n - 1)
  }

  lemma {:induction false} NewNumbersFree(used: seq<nat>, n: nat)
    ensures forall i :: 0 <= i < n ==> NewNumbers(used, n)[i] >= 1 && NewNumbers(used, n)[i] !in used
    decreases n
  {
    if n > 0 {
      NewNumbersFree(used + [SmallestFree(used, 1)], n - 1);
    }
  }

  lemma {:induction false} NewNumbersAscend(used: seq<nat>, n: nat)
    ensures forall i, j :: 0 <= i < j < n ==> NewNumbers(used, n)[i] < NewNumbers(used, n)[j]
    decreases n
  {
    if n > 0 {
      var first := SmallestFree(used, 1);
      var rest := NewNumbers(used + [first], n - 1);
      NewNumbersAscend(used + [first], n - 1);
      NewNumbersFree(used + [first], n - 1);
      forall j | 0 <= j < n - 1
        ensures first < rest[j]
      {
        assert rest[j] !in used + [first];
      }
    }
  }

  lemma {:induction false} NewNumbersLeaveNoGap(used: seq<nat>, n: nat, i: nat, x: nat)
    requires i < n && 1 <= x < NewNumbers(used, n)[i]
    ensures x in used || x in NewNumbers(used, n)
    decreases n
  {
    if i > 0 {
      NewNumbersLeaveNoGap(used + [SmallestFree(used, 1)], n - 1, i - 1, x);
    }
  }

  /** The numbers given are the `n` smallest free ones, in ascending order: positive, free before, and
      with everything below the largest of them in use afterwards. */
  lemma NewNumbersAreSmallest(used: seq<nat>, n: nat)
    ensures var more := NewNumbers(used, n);
      && |more| == n
      && (forall i :: 0 <= i < n ==> more[i] >= 1 && more[i] !in used)
      && (forall i, j :: 0 <= i < j < n ==> more[i] < more[j])
      && (forall i, x :: 0 <= i < n && 1 <= x < more[i] ==> x in used || x in more)
  {
    NewNumbersFree(used, n);
    NewNumbersAscend(used, n);
    forall i, x | 0 <= i < n && 1 <= x < NewNumbers(used, n)[i]
      ensures x in used || x in NewNumbers(used, n)
    {
      NewNumbersLeaveNoGap(used, n, i, x);
    }
  }

  /** As long as there is room for them all, the numbers stay distinct and within 16 bits. */
  lemma {:induction false} NewNumbersFit(used: seq<nat>, n: nat)
    requires Distinct(used) && (forall x :: x in used ==> 1 <= x < NUMBERS) && |used| + n < NUMBERS
    ensures var all := used + NewNumbers(used, n); Distinct(all) && forall x :: x in all ==> 1 <= x < NUMBERS
    decreases n
  {
    if n > 0 {
      NewNumbersFit(used + [SmallestFree(used, 1)], n - 1);
      OneMore(used, n);
    } else {
      assert used + NewNumbers(used, n) == used;
    }
  }

  lemma OneMore(used: seq<nat>, n: nat)
    requires n > 0
    ensures var next: seq<nat> := used + [SmallestFree(used, 1)];
      next + NewNumbers(next, n - 1) == used + NewNumbers(used, n)
  {
  }

  /** A class with every number taken but one asked for still has a spare number for the detour of `AddCipInstance`. */
  lemma MissingLeavesRoom(instances: seq<nat>, id: nat)
    requires Distinct(instances) && (forall x :: x in instances ==> 1 <= x < NUMBERS) && 1 <= id < NUMBERS && id !in instances
    ensures |instances| + 1 < NUMBERS
  {
    var all: seq<nat> := instances + [id] + [0];
    assert forall i :: 0 <= i < |instances| ==> instances[i] in instances;
    DistinctBound(all, NUMBERS);
  }

  // ---- Operations and runs ----

  datatype Operation = Add(n: nat) | AddById(id: nat) | Delete(number: nat)

  /** The caller's side: room for the new instances, a 16-bit number, an instance that exists. */
  ghost predicate Possible(c: ClassState, op: Operation) {
    match op
    case Add(n) => |c.instances| + n < NUMBERS
    case AddById(id) => id < NUMBERS
    case Delete(number) => number in c.instances
  }

  function Counted(instances: seq<nat>, count: nat): ClassState {
    ClassState(instances, count, Max(instances))
  }

  function Next(c: ClassState, op: Operation): ClassState {
    match op
    case Add(n) => Counted(c.instances + NewNumbers(c.instances, n), c.count + n)
    case AddById(id) =>
      if id == 0 || id in c.instances then Counted(c.instances, c.count)
      else Counted(c.instances + [id], c.count + 1)
    case Delete(number) => Counted(Without(c.instances, {number}), if c.count > 0 then c.count - 1 else 0)
  }

  lemma NextNumbered(c: ClassState, op: Operation)
    requires Numbered(c) && Possible(c, op)
    ensures Numbered(Next(c, op))
  {
    match op
    case Add(n) => NewNumbersFit(c.instances, n);
    case AddById(id) => AppendNumbered(c, id);
    case Delete(number) => OneLess(c.instances, number);
  }

  lemma AppendNumbered(c: ClassState, id: nat)
    requires Numbered(c) && id < NUMBERS
    ensures Numbered(Next(c, AddById(id)))
  {
  }

  lemma OneLess(xs: seq<nat>, x: nat)
    requires Distinct(xs) && x in xs
    ensures Distinct(Without(xs, {x})) && |Without(xs, {x})| == |xs| - 1
  {
    var k: nat := IndexOf(xs, x);
    WithoutOne(xs, k);
    WithoutDistinct(xs, {x});
  }

  ghost predicate PossibleRun(c: ClassState, ops: seq<Operation>)
    decreases ops
  {
    ops == [] || (Possible(c, ops[0]) && PossibleRun(Next(c, ops[0]), ops[1..]))
  }

  function Run(c: ClassState, ops: seq<Operation>): ClassState
    decreases ops
  {
    if ops == [] then c else Run(Next(c, ops[0]), ops[1..])
  }

  /** Over any run of adding, adding by number and deleting, the list and its counters stay in agreement. */
  lemma {:induction false} EveryRunNumbered(c: ClassState, ops: seq<Operation>)
    requires Numbered(c) && PossibleRun(c, ops)
    ensures Numbered(Run(c, ops))
    decreases ops
  {
    if ops != [] {
      NextNumbered(c, ops[0]);
      EveryRunNumbered(Next(c, ops[0]), ops[1..]);
    }
  }

  // ---- What each operation does ----

  /** Deleting takes out the instance with the number and no other; the rest keep their order. */
  lemma DeleteExactly(c: ClassState, number: nat)
    requires Numbered(c) && number in c.instances
    ensures var d := Next(c, Delete(number));
      && (exists k :: 0 <= k < |c.instances| && c.instances[k] == number && d.instances == c.instances[..k] + c.instances[k + 1..])
      && number !in d.instances && (forall x :: x in c.instances && x != number ==> x in d.instances)
      && d.count == c.count - 1
  {
    var k: nat := IndexOf(c.instances, number);
    WithoutOne(c.instances, k);
  }

  /** Adding by number puts the instance behind all others, unless it is there already or the number is that of the class. */
  lemma AddByIdExactly(c: ClassState, id: nat)
    requires Numbered(c)
    ensures Next(c, AddById(id)).instances == if id == 0 || id in c.instances then c.instances else c.instances + [id]
    ensures Next(c, AddById(id)).count == |Next(c, AddById(id)).instances|
  {
  }

  /** Adding keeps the instances there are, in front, and puts the smallest free numbers behind them, ascending. */
  lemma AddExactly(c: ClassState, n: nat)
    requires Numbered(c)
    ensures var d := Next(c, Add(n));
      && |d.instances| == |c.instances| + n == d.count && d.instances[..|c.instances|] == c.instances
      && var more := d.instances[|c.instances|..];
      && (forall i :: 0 <= i < n ==> more[i] >= 1 && more[i] !in c.instances)
      && (forall i, j :: 0 <= i < j < n ==> more[i] < more[j])
      && (forall i, x :: 0 <= i < n && 1 <= x < more[i] ==> x in d.instances)
  {
    NewNumbersAreSmallest(c.instances, n);
  }

  // ---- The class object ----

  class CipClass {
    var instances: seq<nat>
    var numberOfInstances: nat
    var maxInstance: nat

    ghost function View(): ClassState
      reads this
    {
      ClassState(instances, numberOfInstances, maxInstance)
    }

    constructor ()
      ensures View() == ClassState([], 0, 0) && Numbered(View())
    {
      instances, numberOfInstances, maxInstance := [], 0, 0;
    }

    method GetMaxInstanceNumber() returns (m: nat)
      ensures m == Max(instances)
    {
      m := 0;
      var i := 0;
      while i < |instances|
        invariant 0 <= i <= |instances| && m == Max(instances[..i])
      {
        assert instances[..i + 1][..i] == instances[..i];
        if instances[i] > m {
          m := instances[i];
        }
        i := i + 1;
      }
      assert instances[..i] == instances;
    }

    method InUse(number: nat) returns (used: bool)
      ensures used <==> number in instances
    {
      var i := 0;
      while i < |instances|
        invariant 0 <= i <= |instances| && number !in instances[..i]
      {
        if instances[i] == number {
          return true;
        }
        i := i + 1;
      }
      used := false;
    }

    /** The search for the next free number: it starts over from the head of the list for each candidate,
        and ends before the 16-bit number would wrap to 0. */
    method FindFree(from: nat) returns (number: nat)
      requires 1 <= from && (forall x :: 1 <= x < from ==> x in instances) && |instances| + 1 < NUMBERS
      ensures number == SmallestFree(instances, 1) < NUMBERS
    {
      var free := SmallestFree(instances, 1);
      assert free >= from by {
        assert free < from ==> free in instances;
      }
      number := from % NUMBERS;
      var used := InUse(number);
      while used
        invariant 1 <= number <= free < NUMBERS && (forall x :: 1 <= x < number ==> x in instances)
        invariant used <==> number in instances
        decreases free - number
      {
        number := (number + 1) % NUMBERS;
        used := InUse(number);
      }
      FreeIs(instances, 1, number);
    }

    method AddInstances(n: nat)
      requires Numbered(View()) && Possible(View(), Add(n))
      modifies this
      ensures View() == Next(old(View()), Add(n)) && Numbered(View())
    {
      NextNumbered(View(), Add(n));
      LinkNew(n);
      maxInstance := GetMaxInstanceNumber();
    }

    /** The loop that links the new instances, one by one, behind the last; numbers only go up. */
    method LinkNew(n: nat)
      requires |instances| + n < NUMBERS
      modifies this`instances, this`numberOfInstances
      ensures instances == old(instances) + NewNumbers(old(instances), n) && numberOfInstances == old(numberOfInstances) + n
    {
      var number := 1;
      var added := 0;
      while added < n
        invariant 0 <= added <= n && |instances| + (n - added) < NUMBERS && numberOfInstances == old(numberOfInstances) + added
        invariant instances + NewNumbers(instances, n - added) == old(instances) + NewNumbers(old(instances), n)
        invariant 1 <= number <= NUMBERS && forall x :: 1 <= x < number ==> x in instances
      {
        number := LinkOne(number, n - added);
        added := added + 1;
      }
      assert instances + NewNumbers(instances, 0) == instances;
    }

    method LinkOne(from: nat, ghost left: nat) returns (next: nat)
      requires 1 <= from && (forall x :: 1 <= x < from ==> x in instances) && |instances| + 1 < NUMBERS && left > 0
      modifies this`instances, this`numberOfInstances
      ensures instances == old(instances) + [SmallestFree(old(instances), 1)] && numberOfInstances == old(numberOfInstances) + 1
      ensures 1 <= next <= NUMBERS && forall x :: 1 <= x < next ==> x in instances
      ensures instances + NewNumbers(instances, left - 1) == old(instances) + NewNumbers(old(instances), left)
    {
      var found := FindFree(from);
      OneMore(instances, left);
      instances := instances + [found];
      numberOfInstances := numberOfInstances + 1;
      next := found + 1;
    }

    /** The new instance first gets the smallest free number, which is then overwritten. */
    method AddInstance(id: nat)
      requires Numbered(View()) && Possible(View(), AddById(id))
      modifies this
      ensures View() == Next(old(View()), AddById(id)) && Numbered(View())
    {
      NextNumbered(View(), AddById(id));
      if id != 0 {
        var used := InUse(id);
        if !used {
          MissingLeavesRoom(instances, id);
          AddInstances(1);
          assert instances == old(instances) + [instances[|old(instances)|]];
          instances := instances[..|instances| - 1] + [id];
        }
      }
      maxInstance := GetMaxInstanceNumber();
    }

    /** Unlinks the instance with the number: the head, or the first successor that carries it. */
    method DeleteInstance(number: nat)
      requires Numbered(View()) && Possible(View(), Delete(number))
      modifies this
      ensures View() == Next(old(View()), Delete(number)) && Numbered(View())
    {
      NextNumbered(View(), Delete(number));
      Unlink(number);
      numberOfInstances := numberOfInstances - 1;
      maxInstance := GetMaxInstanceNumber();
    }

    method Unlink(number: nat)
      requires Distinct(instances) && number in instances
      modifies this`instances
      ensures instances == Without(old(instances), {number})
    {
      if instances[0] == number {
        WithoutOne(instances, 0);
        instances := instances[1..];
        return;
      }
      var i := 0;
      while instances[i + 1] != number
        invariant 0 <= i && i + 1 < |instances| && instances == old(instances)
        invariant forall j :: 0 <= j <= i ==> instances[j] != number
        decreases |instances| - i
      {
        i := i + 1;
        assert i == |instances| - 1 ==> number !in instances;
      }
      WithoutOne(instances, i + 1);
      instances := instances[..i + 1] + instances[i + 2..];
    }
  }
}
