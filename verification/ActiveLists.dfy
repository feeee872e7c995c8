/** The doubly linked list of active connections, over its static pool of nodes.

    Nodes live in one fixed array, so a node pointer is an index into that array and
    `NULL` is -1. The `data` of a node is the number of a connection slot. */
module ActiveLists {
  import opened Sequences

  const NULL: int := -1

  datatype Node = Node(previous: int, next: int, data: int)

  /** A node after `memset` to zero: the allocator's mark for "free". */
  const ZERO_NODE: Node := Node(NULL, NULL, NULL)

  /** The node at position `k`, or `NULL` beyond either end. */
  ghost function At(order: seq<int>, k: int): int {
    if 0 <= k < |order| then order[k] else NULL
  }

  /** The node at position `k` points at its two neighbours and carries a connection. */
  ghost predicate Wired(ns: seq<Node>, order: seq<int>, k: int)
    requires 0 <= k < |order| && 0 <= order[k] < |ns|
  {
    && ns[order[k]].data >= 0
    && ns[order[k]].previous == At(order, k - 1)
    && ns[order[k]].next == At(order, k + 1)
  }

  ghost predicate InPool(ns: seq<Node>, order: seq<int>) {
    forall k :: 0 <= k < |order| ==> 0 <= order[k] < |ns|
  }

  /** `order` lists the nodes of the pool that hang on the list, head first: neighbours point
      at each other, `first` and `last` at the ends, and every other node of the pool is zero. */
  ghost predicate Linked(ns: seq<Node>, first: int, last: int, order: seq<int>) {
    && Distinct(order)
    && InPool(ns, order)
    && first == At(order, 0)
    && last == At(order, |order| - 1)
    && (forall k {:trigger Wired(ns, order, k)} :: 0 <= k < |order| ==> Wired(ns, order, k))
    && (forall i :: 0 <= i < |ns| && i !in order ==> ns[i] == ZERO_NODE)
  }

  /** The connection slots on the list, head first. */
  ghost function Slots(ns: seq<Node>, order: seq<int>): (slots: seq<nat>)
    requires InPool(ns, order)
    requires forall k {:trigger Wired(ns, order, k)} :: 0 <= k < |order| ==> Wired(ns, order, k)
    ensures |slots| == |order|
    ensures forall k :: 0 <= k < |slots| ==> slots[k] == ns[order[k]].data
  {
    seq<nat>(|order|, k requires 0 <= k < |order| => assert Wired(ns, order, k); ns[order[k]].data as nat)
  }

  ghost function InsertAt<T>(xs: seq<T>, k: nat, x: T): seq<T>
    requires k <= |xs|
  {
    xs[..k] + [x] + xs[k..]
  }

  ghost function Cut<T>(xs: seq<T>, k: nat): seq<T>
    requires k < |xs|
  {
    xs[..k] + xs[k + 1..]
  }

  /** `ms` is `ns` with a node for `data` hooked in at position `k`, between its neighbours. */
  ghost predicate Hooked(ns: seq<Node>, ms: seq<Node>, order: seq<int>, k: nat, added: int, data: nat)
    requires k <= |order| && 0 <= added < |ns|
    requires InPool(ns, order)
  {
    && |ms| == |ns|
    && ms[added] == Node(At(order, k - 1), At(order, k), data)
    && (k > 0 ==> ms[order[k - 1]] == ns[order[k - 1]].(next := added))
    && (k < |order| ==> ms[order[k]] == ns[order[k]].(previous := added))
    && (forall i :: 0 <= i < |ns| && i != added && i != At(order, k - 1) && i != At(order, k) ==> ms[i] == ns[i])
  }

  /** `longer` is `order` with `added` at position `k`, element by element. */
  ghost predicate Inserted<T>(order: seq<T>, longer: seq<T>, k: nat, added: T) {
    && k <= |order|
    && |longer| == |order| + 1
    && longer[k] == added
    && (forall j {:trigger longer[j]} :: 0 <= j < k ==> longer[j] == order[j])
    && (forall j {:trigger longer[j]} :: k < j < |longer| ==> longer[j] == order[j - 1])
  }

  lemma HookedWired(ns: seq<Node>, order: seq<int>, k: nat, added: int, data: nat, ms: seq<Node>, longer: seq<int>, j: nat)
    requires Distinct(order) && InPool(ns, order) && InPool(ms, longer)
    requires k <= |order| && 0 <= added < |ns| && added !in order
    requires Hooked(ns, ms, order, k, added, data) && Inserted(order, longer, k, added)
    requires j <= |order|
    requires j < k ==> Wired(ns, order, j)
    requires j > k ==> Wired(ns, order, j - 1)
    ensures Wired(ms, longer, j)
    ensures ms[longer[j]].data == if j < k then ns[order[j]].data else if j == k then data else ns[order[j - 1]].data
  {
    assert j > 0 ==> At(longer, j - 1) == longer[j - 1];
    assert j + 1 < |longer| ==> At(longer, j + 1) == longer[j + 1];
  }

  lemma InsertedDistinct(order: seq<int>, longer: seq<int>, k: nat, added: int)
    requires Distinct(order) && added !in order && Inserted(order, longer, k, added)
    ensures Distinct(longer)
    ensures added in longer && forall x :: x in order ==> x in longer
  {
    forall x | x in order
      ensures x in longer
    {
      var j := IndexOf(order, x);
      assert longer[if j < k then j else j + 1] == x;
    }
  }

  lemma HookedAllWired(ns: seq<Node>, order: seq<int>, k: nat, added: int, data: nat, ms: seq<Node>, longer: seq<int>)
    requires Distinct(order) && InPool(ns, order) && InPool(ms, longer)
    requires forall j {:trigger Wired(ns, order, j)} :: 0 <= j < |order| ==> Wired(ns, order, j)
    requires k <= |order| && 0 <= added < |ns| && added !in order
    requires Hooked(ns, ms, order, k, added, data) && Inserted(order, longer, k, added)
    ensures forall j {:trigger Wired(ms, longer, j)} :: 0 <= j < |longer| ==> Wired(ms, longer, j)
  {
    forall j | 0 <= j < |longer|
      ensures Wired(ms, longer, j)
    {
      assert j < k ==> Wired(ns, order, j);
      assert j > k ==> Wired(ns, order, j - 1);
      HookedWired(ns, order, k, added, data, ms, longer, j);
    }
  }

  /** The connections listed gain exactly the new one. */
  lemma HookedSlots(ns: seq<Node>, order: seq<int>, k: nat, added: int, data: nat, ms: seq<Node>, longer: seq<int>)
    requires Distinct(order) && InPool(ns, order) && InPool(ms, longer)
    requires forall j {:trigger Wired(ns, order, j)} :: 0 <= j < |order| ==> Wired(ns, order, j)
    requires forall j {:trigger Wired(ms, longer, j)} :: 0 <= j < |longer| ==> Wired(ms, longer, j)
    requires k <= |order| && 0 <= added < |ns| && added !in order
    requires Hooked(ns, ms, order, k, added, data) && Inserted(order, longer, k, added)
    ensures Inserted(Slots(ns, order), Slots(ms, longer), k, data)
  {
    var xs, ys := Slots(ns, order), Slots(ms, longer);
    forall j | 0 <= j < |longer|
      ensures ys[j] == if j < k then xs[j] else if j == k then data else xs[j - 1]
    {
      assert j < k ==> Wired(ns, order, j);
      assert j > k ==> Wired(ns, order, j - 1);
      HookedWired(ns, order, k, added, data, ms, longer, j);
    }
  }

  lemma HookedAllFree(ns: seq<Node>, order: seq<int>, k: nat, added: int, data: nat, ms: seq<Node>, longer: seq<int>)
    requires InPool(ns, order) && k <= |order| && 0 <= added < |ns|
    requires Hooked(ns, ms, order, k, added, data)
    requires added in longer && forall x :: x in order ==> x in longer
    requires forall i :: 0 <= i < |ns| && i !in order ==> ns[i] == ZERO_NODE
    ensures forall i :: 0 <= i < |ms| && i !in longer ==> ms[i] == ZERO_NODE
  {
  }

  lemma HookedLinked(ns: seq<Node>, first: int, last: int, order: seq<int>, k: nat, added: int, data: nat, ms: seq<Node>, longer: seq<int>)
    requires Linked(ns, first, last, order)
    requires k <= |order| && 0 <= added < |ns| && added !in order
    requires Hooked(ns, ms, order, k, added, data) && Inserted(order, longer, k, added)
    ensures Linked(ms, if k == 0 then added else first, if k == |order| then added else last, longer)
    ensures Inserted(Slots(ns, order), Slots(ms, longer), k, data)
  {
    InsertedDistinct(order, longer, k, added);
    assert InPool(ms, longer);
    HookedAllWired(ns, order, k, added, data, ms, longer);
    HookedSlots(ns, order, k, added, data, ms, longer);
    HookedAllFree(ns, order, k, added, data, ms, longer);
  }

  /** `ms` is `ns` with the node at position `k` unhooked from its neighbours and zeroed. */
  ghost predicate Unhooked(ns: seq<Node>, ms: seq<Node>, order: seq<int>, k: nat)
    requires k < |order|
    requires InPool(ns, order)
  {
    && |ms| == |ns|
    && ms[order[k]] == ZERO_NODE
    && (k > 0 ==> ms[order[k - 1]] == ns[order[k - 1]].(next := At(order, k + 1)))
    && (k + 1 < |order| ==> ms[order[k + 1]] == ns[order[k + 1]].(previous := At(order, k - 1)))
    && (forall i :: 0 <= i < |ns| && i != order[k] && i != At(order, k - 1) && i != At(order, k + 1) ==> ms[i] == ns[i])
  }

  /** `shorter` is `order` without position `k`, element by element. */
  ghost predicate Removed<T>(order: seq<T>, shorter: seq<T>, k: nat) {
    && k < |order|
    && |shorter| == |order| - 1
    && (forall j {:trigger shorter[j]} :: 0 <= j < k ==> shorter[j] == order[j])
    && (forall j {:trigger shorter[j]} :: k <= j < |shorter| ==> shorter[j] == order[j + 1])
  }

  lemma UnhookedWired(ns: seq<Node>, order: seq<int>, k: nat, ms: seq<Node>, shorter: seq<int>, j: nat)
    requires Distinct(order) && InPool(ns, order) && InPool(ms, shorter)
    requires k < |order| && Unhooked(ns, ms, order, k) && Removed(order, shorter, k)
    requires j < |shorter|
    requires Wired(ns, order, if j < k then j else j + 1)
    ensures Wired(ms, shorter, j)
    ensures ms[shorter[j]].data == ns[order[if j < k then j else j + 1]].data
  {
    assert j > 0 ==> At(shorter, j - 1) == shorter[j - 1];
    assert j + 1 < |shorter| ==> At(shorter, j + 1) == shorter[j + 1];
  }

  lemma UnhookedAllWired(ns: seq<Node>, order: seq<int>, k: nat, ms: seq<Node>, shorter: seq<int>)
    requires Distinct(order) && InPool(ns, order) && InPool(ms, shorter)
    requires forall j {:trigger Wired(ns, order, j)} :: 0 <= j < |order| ==> Wired(ns, order, j)
    requires k < |order| && Unhooked(ns, ms, order, k) && Removed(order, shorter, k)
    ensures forall j {:trigger Wired(ms, shorter, j)} :: 0 <= j < |shorter| ==> Wired(ms, shorter, j)
  {
    forall j | 0 <= j < |shorter|
      ensures Wired(ms, shorter, j)
    {
      assert Wired(ns, order, if j < k then j else j + 1);
      UnhookedWired(ns, order, k, ms, shorter, j);
    }
  }

  /** The nodes that stay keep their data, so the connections listed lose exactly one position. */
  lemma UnhookedSlots(ns: seq<Node>, order: seq<int>, k: nat, ms: seq<Node>, shorter: seq<int>)
    requires Distinct(order) && InPool(ns, order) && InPool(ms, shorter)
    requires forall j {:trigger Wired(ns, order, j)} :: 0 <= j < |order| ==> Wired(ns, order, j)
    requires forall j {:trigger Wired(ms, shorter, j)} :: 0 <= j < |shorter| ==> Wired(ms, shorter, j)
    requires k < |order| && Unhooked(ns, ms, order, k) && Removed(order, shorter, k)
    ensures Removed(Slots(ns, order), Slots(ms, shorter), k)
  {
    var xs, ys := Slots(ns, order), Slots(ms, shorter);
    forall j | 0 <= j < |shorter|
      ensures ys[j] == xs[if j < k then j else j + 1]
    {
      assert Wired(ns, order, if j < k then j else j + 1);
      UnhookedWired(ns, order, k, ms, shorter, j);
    }
  }

  lemma UnhookedEnds(order: seq<int>, k: nat, shorter: seq<int>)
    requires Removed(order, shorter, k)
    ensures At(shorter, 0) == if k == 0 then At(order, 1) else At(order, 0)
    ensures At(shorter, |shorter| - 1) == if k + 1 == |order| then At(order, k - 1) else At(order, |order| - 1)
  {
  }

  lemma UnhookedAllFree(ns: seq<Node>, order: seq<int>, k: nat, ms: seq<Node>, shorter: seq<int>)
    requires Distinct(order) && InPool(ns, order)
    requires k < |order| && Unhooked(ns, ms, order, k) && Removed(order, shorter, k)
    requires forall i :: 0 <= i < |ns| && i !in order ==> ns[i] == ZERO_NODE
    ensures forall i :: 0 <= i < |ms| && i !in shorter ==> ms[i] == ZERO_NODE
  {
    forall i | 0 <= i < |ms| && i !in shorter
      ensures ms[i] == ZERO_NODE
    {
      UnhookedFree(ns, order, k, ms, shorter, i);
    }
  }

  lemma UnhookedLinked(ns: seq<Node>, first: int, last: int, order: seq<int>, k: nat, ms: seq<Node>, shorter: seq<int>)
    requires Linked(ns, first, last, order)
    requires k < |order| && Unhooked(ns, ms, order, k) && Removed(order, shorter, k)
    ensures Linked(ms, if k == 0 then At(order, 1) else first, if k + 1 == |order| then At(order, k - 1) else last, shorter)
    ensures Removed(Slots(ns, order), Slots(ms, shorter), k)
  {
    RemovedDistinct(order, shorter, k);
    assert InPool(ms, shorter);
    UnhookedEnds(order, k, shorter);
    UnhookedAllWired(ns, order, k, ms, shorter);
    UnhookedSlots(ns, order, k, ms, shorter);
    UnhookedAllFree(ns, order, k, ms, shorter);
  }

  lemma UnhookedFree(ns: seq<Node>, order: seq<int>, k: nat, ms: seq<Node>, shorter: seq<int>, i: nat)
    requires Distinct(order) && InPool(ns, order)
    requires k < |order| && Unhooked(ns, ms, order, k) && Removed(order, shorter, k)
    requires i < |ms| && i !in shorter && (i !in order ==> ns[i] == ZERO_NODE)
    ensures ms[i] == ZERO_NODE
  {
    if i in order && i != order[k] {
      RemovedKeepsOthers(order, shorter, k, i);
    } else if i !in order {
      assert i != At(order, k - 1) && i != At(order, k + 1);
    }
  }

  lemma RemovedDistinct(order: seq<int>, shorter: seq<int>, k: nat)
    requires Distinct(order) && Removed(order, shorter, k)
    ensures Distinct(shorter)
  {
  }

  lemma RemovedKeepsOthers(order: seq<int>, shorter: seq<int>, k: nat, x: int)
    requires Removed(order, shorter, k) && x in order && x != order[k]
    ensures x in shorter
  {
    var j := IndexOf(order, x);
    assert shorter[if j < k then j else j - 1] == x;
  }

  lemma InsertAtInserted<T>(xs: seq<T>, k: nat, x: T)
    requires k <= |xs|
    ensures Inserted(xs, InsertAt(xs, k, x), k, x)
  {
  }

  lemma InsertedIsInsertAt<T>(xs: seq<T>, ys: seq<T>, k: nat, x: T)
    requires Inserted(xs, ys, k, x)
    ensures ys == InsertAt(xs, k, x)
  {
  }

  lemma CutRemoved<T>(xs: seq<T>, k: nat)
    requires k < |xs|
    ensures Removed(xs, Cut(xs, k), k)
  {
  }

  lemma RemovedIsCut<T>(xs: seq<T>, ys: seq<T>, k: nat)
    requires Removed(xs, ys, k)
    ensures ys == Cut(xs, k)
  {
  }

  /** Hooking a free node in at position `k` inserts into the list at position `k`. */
  lemma HookInserts(ns: seq<Node>, first: int, last: int, order: seq<int>, k: nat, added: int, data: nat,
                    ms: seq<Node>, first': int, last': int, longer: seq<int>)
    requires Linked(ns, first, last, order)
    requires k <= |order| && 0 <= added < |ns| && added !in order
    requires Hooked(ns, ms, order, k, added, data) && longer == InsertAt(order, k, added)
    requires first' == (if k == 0 then added else first) && last' == (if k == |order| then added else last)
    ensures Linked(ms, first', last', longer)
    ensures Slots(ms, longer) == InsertAt(Slots(ns, order), k, data)
  {
    InsertAtInserted(order, k, added);
    HookedLinked(ns, first, last, order, k, added, data, ms, longer);
    InsertedIsInsertAt(Slots(ns, order), Slots(ms, longer), k, data);
  }

  /** The pool after the four pointer writes that hook a node in between two others. */
  ghost function HookMiddle(ns: seq<Node>, before: int, after: int, added: int, data: nat): seq<Node>
    requires 0 <= before < |ns| && 0 <= after < |ns| && 0 <= added < |ns|
    requires before != after && before != added && after != added
  {
    ns[added := Node(before, after, data)][before := ns[before].(next := added)][after := ns[after].(previous := added)]
  }

  lemma HookMiddleInserts(ns: seq<Node>, first: int, last: int, order: seq<int>, k: nat, added: int, data: nat, ms: seq<Node>, longer: seq<int>)
    requires Linked(ns, first, last, order)
    requires 0 < k < |order| && 0 <= added < |ns| && added !in order
    requires ms == HookMiddle(ns, order[k - 1], order[k], added, data) && longer == InsertAt(order, k, added)
    ensures Linked(ms, first, last, longer)
    ensures Slots(ms, longer) == InsertAt(Slots(ns, order), k, data)
  {
    HookInserts(ns, first, last, order, k, added, data, ms, first, last, longer);
  }

  /** The pool after hooking a node in front of `first`, if there is one. */
  ghost function HookFront(ns: seq<Node>, first: int, added: int, data: nat): seq<Node>
    requires NULL <= first < |ns| && 0 <= added < |ns| && added != first
  {
    var a := ns[added := Node(NULL, first, data)];
    if first == NULL then a else a[first := ns[first].(previous := added)]
  }

  lemma HookFrontInserts(ns: seq<Node>, first: int, last: int, order: seq<int>, added: int, data: nat,
                         ms: seq<Node>, last': int, longer: seq<int>)
    requires Linked(ns, first, last, order)
    requires NULL <= first < |ns| && 0 <= added < |ns| && added !in order && added != first
    requires ms == HookFront(ns, first, added, data) && longer == [added] + order
    requires last' == if first == NULL then added else last
    ensures Linked(ms, added, last', longer)
    ensures Slots(ms, longer) == [data] + Slots(ns, order)
  {
    assert longer == InsertAt(order, 0, added);
    HookInserts(ns, first, last, order, 0, added, data, ms, added, last', longer);
  }

  /** The pool after hooking a node in behind `last`, if there is one. */
  ghost function HookBack(ns: seq<Node>, last: int, added: int, data: nat): seq<Node>
    requires NULL <= last < |ns| && 0 <= added < |ns| && added != last
  {
    var a := ns[added := Node(last, NULL, data)];
    if last == NULL then a else a[last := ns[last].(next := added)]
  }

  lemma HookBackInserts(ns: seq<Node>, first: int, last: int, order: seq<int>, added: int, data: nat,
                        ms: seq<Node>, first': int, longer: seq<int>)
    requires Linked(ns, first, last, order)
    requires NULL <= last < |ns| && 0 <= added < |ns| && added !in order && added != last
    requires ms == HookBack(ns, last, added, data) && longer == order + [added]
    requires first' == if last == NULL then added else first
    ensures Linked(ms, first', added, longer)
    ensures Slots(ms, longer) == Slots(ns, order) + [data]
  {
    assert longer == InsertAt(order, |order|, added);
    HookInserts(ns, first, last, order, |order|, added, data, ms, first', added, longer);
  }

  /** The pool after the writes that unhook `node` from the neighbours it has. */
  ghost function Unhook(ns: seq<Node>, previous: int, next: int, node: int): seq<Node>
    requires NULL <= previous < |ns| && NULL <= next < |ns| && 0 <= node < |ns|
  {
    var a := if previous != NULL then ns[previous := ns[previous].(next := next)] else ns;
    var b := if next != NULL then a[next := a[next].(previous := previous)] else a;
    b[node := ZERO_NODE]
  }

  /** Unhooking the node at position `k` cuts that position out of the list. */
  lemma UnhookRemoves(ns: seq<Node>, first: int, last: int, order: seq<int>, k: nat, ms: seq<Node>, first': int, last': int, shorter: seq<int>)
    requires Linked(ns, first, last, order)
    requires k < |order| && shorter == Cut(order, k)
    requires NULL <= At(order, k - 1) < |ns| && NULL <= At(order, k + 1) < |ns|
    requires ms == Unhook(ns, At(order, k - 1), At(order, k + 1), order[k])
    requires first' == (if k == 0 then At(order, 1) else first) && last' == (if k + 1 == |order| then At(order, k - 1) else last)
    ensures Linked(ms, first', last', shorter)
    ensures Slots(ms, shorter) == Cut(Slots(ns, order), k)
  {
    CutRemoved(order, k);
    UnhookedLinked(ns, first, last, order, k, ms, shorter);
    RemovedIsCut(Slots(ns, order), Slots(ms, shorter), k);
  }

  /** Nodes that are still on the list carry the connection they carried before. */
  ghost predicate Thinned(ns: seq<Node>, order: seq<int>, ms: seq<Node>, shorter: seq<int>) {
    forall n :: n in shorter ==> n in order && 0 <= n < |ns| && n < |ms| && ms[n].data == ns[n].data
  }

  lemma ThinnedTransitive(ns: seq<Node>, order: seq<int>, ms: seq<Node>, shorter: seq<int>, ls: seq<Node>, shortest: seq<int>)
    requires Thinned(ns, order, ms, shorter) && Thinned(ms, shorter, ls, shortest)
    ensures Thinned(ns, order, ls, shortest)
  {
  }

  /** `node` hangs on the list and carries connection `c`. */
  ghost predicate Carries(ns: seq<Node>, order: seq<int>, node: int, c: nat) {
    node in order && 0 <= node < |ns| && ns[node].data == c
  }

  lemma CarriesAt(ns: seq<Node>, first: int, last: int, order: seq<int>, node: int, c: nat) returns (k: nat)
    requires Linked(ns, first, last, order) && Carries(ns, order, node, c)
    ensures k < |order| && order[k] == node && Slots(ns, order)[k] == c
  {
    k :| 0 <= k < |order| && order[k] == node;
  }

  lemma CarriesUnique(ns: seq<Node>, first: int, last: int, order: seq<int>, n: int, m: int, c: nat)
    requires Linked(ns, first, last, order) && Distinct(Slots(ns, order))
    requires Carries(ns, order, n, c) && Carries(ns, order, m, c)
    ensures n == m
  {
    var j := CarriesAt(ns, first, last, order, n, c);
    var k := CarriesAt(ns, first, last, order, m, c);
  }

  /** A node stays with its connection for as long as the connection is listed ... */
  lemma StillCarries(ns: seq<Node>, first: int, last: int, order: seq<int>,
                     ms: seq<Node>, first': int, last': int, shorter: seq<int>, node: int, c: nat)
    requires Linked(ns, first, last, order) && Distinct(Slots(ns, order)) && Linked(ms, first', last', shorter)
    requires Thinned(ns, order, ms, shorter) && Carries(ns, order, node, c) && c in Slots(ms, shorter)
    ensures Carries(ms, shorter, node, c)
  {
    var k := IndexOf(Slots(ms, shorter), c);
    CarriesUnique(ns, first, last, order, shorter[k], node, c);
  }

  /** ... and reads as zero afterwards. */
  lemma Freed(ns: seq<Node>, order: seq<int>,
              ms: seq<Node>, first': int, last': int, shorter: seq<int>, node: int, c: nat)
    requires Linked(ms, first', last', shorter)
    requires Thinned(ns, order, ms, shorter) && Carries(ns, order, node, c) && c !in Slots(ms, shorter) && node < |ms|
    ensures ms[node] == ZERO_NODE
  {
    if node in shorter {
      var k := CarriesAt(ms, first', last', shorter, node, c);
    }
  }

  /** The node after the one that carries `c` carries the connection after `c`. */
  lemma NextCarries(ns: seq<Node>, first: int, last: int, order: seq<int>, node: int, c: nat)
    requires Linked(ns, first, last, order) && Distinct(Slots(ns, order)) && Carries(ns, order, node, c)
    ensures c in Slots(ns, order)
    ensures var rest, next := After(Slots(ns, order), c), ns[node].next;
      if rest == [] then next == NULL else next != NULL && Carries(ns, order, next, rest[0])
  {
    var k := CarriesAt(ns, first, last, order, node, c);
    assert Wired(ns, order, k);
    AfterAt(Slots(ns, order), k);
    if k + 1 < |order| {
      assert Wired(ns, order, k + 1);
    }
  }

  lemma CutKeepsData(ns: seq<Node>, order: seq<int>, k: nat, ms: seq<Node>, shorter: seq<int>)
    requires InPool(ns, order) && InPool(ms, shorter) && k < |order| && shorter == Cut(order, k)
    requires forall j {:trigger Wired(ns, order, j)} :: 0 <= j < |order| ==> Wired(ns, order, j)
    requires forall j {:trigger Wired(ms, shorter, j)} :: 0 <= j < |shorter| ==> Wired(ms, shorter, j)
    requires Slots(ms, shorter) == Cut(Slots(ns, order), k)
    ensures Thinned(ns, order, ms, shorter)
  {
    forall n | n in shorter
      ensures n in order && 0 <= n < |ns| && n < |ms| && ms[n].data == ns[n].data
    {
      var j :| 0 <= j < |shorter| && shorter[j] == n;
      assert shorter[j] == order[if j < k then j else j + 1];
      assert Slots(ms, shorter)[j] == Cut(Slots(ns, order), k)[j];
    }
  }

  class NodeList {
    const nodes: array<Node>
    var first: int
    var last: int
    ghost var order: seq<int>

    ghost predicate Valid()
      reads this, nodes
    {
      Linked(nodes[..], first, last, order)
    }

    ghost function Contents(): (slots: seq<nat>)
      requires Valid()
      reads this, nodes
      ensures |slots| == |order|
    {
      Slots(nodes[..], order)
    }

    /** What the node at position `k` tells a walk: its connection and where to go next. */
    lemma Visit(k: nat)
      requires Valid() && k < |order|
      ensures 0 <= order[k] < nodes.Length
      ensures nodes[order[k]].data == Contents()[k] && nodes[order[k]].next == At(order, k + 1)
    {
      assert Wired(nodes[..], order, k);
    }

    /** An empty list over a zeroed pool of `capacity` nodes. */
    constructor (capacity: nat)
      ensures Valid() && fresh(nodes) && nodes.Length == capacity
      ensures order == [] && Contents() == []
    {
      nodes := new Node[capacity](_ => ZERO_NODE);
      first, last := NULL, NULL;
      order := [];
    }

    /** The array allocator: the first node whose three fields are zero. A node it returns is never
        on the list, and it finds one exactly when the list does not occupy the whole pool. */
    method Allocate() returns (node: int)
      requires Valid()
      ensures node == NULL <==> |order| == nodes.Length
      ensures node != NULL ==> 0 <= node < nodes.Length && node !in order && nodes[node] == ZERO_NODE
    {
      var i := 0;
      while i < nodes.Length
        invariant 0 <= i <= nodes.Length
        invariant forall j :: 0 <= j < i ==> j in order
      {
        assert i in order ==> nodes[i].data >= 0 by {
          if i in order {
            assert Wired(nodes[..], order, IndexOf(order, i));
          }
        }
        if nodes[i].previous == NULL && nodes[i].next == NULL && nodes[i].data == NULL {
          Occupancy(order, nodes.Length, i);
          return i;
        }
        i := i + 1;
      }
      FullyOccupied(order, nodes.Length);
      DistinctBound(order, nodes.Length);
      node := NULL;
    }

    /** New elements go in front: the order of the others stays. */
    method InsertAtHead(data: nat)
      requires Valid() && |order| < nodes.Length
      modifies this, nodes
      ensures Valid()
      ensures Contents() == [data] + old(Contents())
      ensures |order| == |old(order)| + 1
    {
      var node := Allocate();
      nodes[node] := nodes[node].(data := data);
      if first == NULL {
        first := node;
        last := node;
      } else {
        nodes[node] := nodes[node].(next := first);
        nodes[first] := nodes[first].(previous := node);
        first := node;
      }
      assert nodes[..] == HookFront(old(nodes[..]), old(first), node, data);
      order := [node] + order;
      HookFrontInserts(old(nodes[..]), old(first), old(last), old(order), node, data, nodes[..], last, order);
    }

    method InsertAtTail(data: nat)
      requires Valid() && |order| < nodes.Length
      modifies this, nodes
      ensures Valid()
      ensures Contents() == old(Contents()) + [data]
    {
      var node := Allocate();
      nodes[node] := nodes[node].(data := data);
      if last == NULL {
        first := node;
        last := node;
      } else {
        nodes[node] := nodes[node].(previous := last);
        nodes[last] := nodes[last].(next := node);
        last := node;
      }
      assert nodes[..] == HookBack(old(nodes[..]), old(last), node, data);
      order := order + [node];
      HookBackInserts(old(nodes[..]), old(first), old(last), old(order), node, data, nodes[..], first, order);
    }

    method InsertBefore(node: int, data: nat, ghost k: nat)
      requires Valid() && |order| < nodes.Length
      requires k < |order| && order[k] == node
      modifies this, nodes
      ensures Valid()
      ensures Contents() == InsertAt(old(Contents()), k, data)
    {
      if first == node {
        assert k == 0;
        InsertAtHead(data);
      } else {
        Between(k);
        var added := Allocate();
        HookBefore(node, added, data, order[k - 1]);
        order := InsertAt(order, k, added);
        HookMiddleInserts(old(nodes[..]), first, last, old(order), k, added, data, nodes[..], order);
      }
    }

    /** Two neighbours point at each other and are two nodes. */
    lemma Between(k: nat)
      requires Valid() && 0 < k < |order|
      ensures 0 <= order[k - 1] < nodes.Length && 0 <= order[k] < nodes.Length && order[k - 1] != order[k]
      ensures nodes[order[k]].previous == order[k - 1] && nodes[order[k - 1]].next == order[k]
    {
      assert Wired(nodes[..], order, k - 1) && Wired(nodes[..], order, k);
    }

    /** The pointer writes in front of a node that has a predecessor. */
    method HookBefore(node: int, added: int, data: nat, ghost before: int)
      requires 0 <= before < nodes.Length && 0 <= node < nodes.Length && 0 <= added < nodes.Length
      requires before != node && before != added && node != added && nodes[node].previous == before && nodes[added] == ZERO_NODE
      modifies nodes
      ensures nodes[..] == HookMiddle(old(nodes[..]), before, node, added, data)
    {
      nodes[added] := nodes[added].(data := data);
      nodes[added] := nodes[added].(previous := nodes[node].previous);
      nodes[added] := nodes[added].(next := node);
      nodes[node] := nodes[node].(previous := added);
      nodes[nodes[added].previous] := nodes[nodes[added].previous].(next := added);
    }

    /** The pointer writes behind a node that has a successor. */
    method HookBehind(node: int, added: int, data: nat, ghost after: int)
      requires 0 <= after < nodes.Length && 0 <= node < nodes.Length && 0 <= added < nodes.Length
      requires after != node && after != added && node != added && nodes[node].next == after && nodes[added] == ZERO_NODE
      modifies nodes
      ensures nodes[..] == HookMiddle(old(nodes[..]), node, after, added, data)
    {
      nodes[added] := nodes[added].(data := data);
      nodes[added] := nodes[added].(previous := node);
      nodes[added] := nodes[added].(next := nodes[node].next);
      nodes[nodes[node].next] := nodes[nodes[node].next].(previous := added);
      nodes[node] := nodes[node].(next := added);
    }

    method InsertAfter(node: int, data: nat, ghost k: nat)
      requires Valid() && |order| < nodes.Length
      requires k < |order| && order[k] == node
      modifies this, nodes
      ensures Valid()
      ensures Contents() == InsertAt(old(Contents()), k + 1, data)
    {
      if last == node {
        assert k == |order| - 1;
        InsertAtTail(data);
      } else {
        Between(k + 1);
        var added := Allocate();
        HookBehind(node, added, data, order[k + 1]);
        order := InsertAt(order, k + 1, added);
        HookMiddleInserts(old(nodes[..]), first, last, old(order), k + 1, added, data, nodes[..], order);
      }
    }

    /** `DoublyLinkedListDestroy`: each successor is read before its node is zeroed, and all nodes end up free. */
    method Destroy()
      requires Valid()
      modifies this, nodes
      ensures Valid() && Contents() == [] && forall i :: 0 <= i < nodes.Length ==> nodes[i] == ZERO_NODE
    {
      var node := first;
      ghost var k := 0;
      while node != NULL
        invariant 0 <= k <= |order| && node == At(order, k) && order == old(order)
        invariant forall j :: k <= j < |order| ==> nodes[order[j]] == old(nodes[..])[order[j]]
        invariant forall i :: 0 <= i < nodes.Length && i !in order[k..] ==> nodes[i] == ZERO_NODE
        decreases |order| - k
      {
        assert Wired(old(nodes[..]), order, k);
        var doomed := node;
        node := nodes[node].next;
        nodes[doomed] := ZERO_NODE;
        assert order[k..] == [order[k]] + order[k + 1..];
        k := k + 1;
      }
      first, last := NULL, NULL;
      order := [];
    }

    /** Unhooks a node and returns it, zeroed, to the pool. */
    method RemoveNode(node: int, ghost k: nat)
      requires Valid()
      requires k < |order| && order[k] == node
      modifies this, nodes
      ensures Valid()
      ensures order == Cut(old(order), k)
      ensures Contents() == Cut(old(Contents()), k)
      ensures nodes[node] == ZERO_NODE
      ensures Thinned(old(nodes[..]), old(order), nodes[..], order)
    {
      assert Wired(nodes[..], order, k);
      var previous, next := nodes[node].previous, nodes[node].next;
      if node == first && node == last {
        first := NULL;
        last := NULL;
      } else {
        if node == first {
          first := next;
        }
        if node == last {
          last := previous;
        }
        if previous != NULL {
          nodes[previous] := nodes[previous].(next := next);
        }
        if next != NULL {
          nodes[next] := nodes[next].(previous := previous);
        }
      }
      nodes[node] := ZERO_NODE;
      assert nodes[..] == Unhook(old(nodes[..]), previous, next, node);
      order := Cut(order, k);
      UnhookRemoves(old(nodes[..]), old(first), old(last), old(order), k, nodes[..], first, last, order);
      CutKeepsData(old(nodes[..]), old(order), k, nodes[..], order);
    }
  }

  lemma Occupancy(order: seq<int>, n: nat, free: int)
    requires Distinct(order) && (forall k :: 0 <= k < |order| ==> 0 <= order[k] < n)
    requires 0 <= free < n && free !in order
    ensures |order| < n
  {
    var all: seq<nat> := order + [free];
    DistinctBound(all, n);
  }

  lemma {:induction false} FullyOccupied(order: seq<int>, n: nat)
    requires Distinct(order)
    requires forall i :: 0 <= i < n ==> i in order
    ensures |order| >= n
  {
    if n > 0 {
      var k := IndexOf(order, n - 1);
      WithoutOne(order, k);
      WithoutDistinct(order, {n - 1});
      FullyOccupied(Without(order, {n - 1}), n - 1);
    }
  }
}
