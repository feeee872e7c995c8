/** Facts about sequences without repetition, shared by the list and connection models. */
module Sequences {

  ghost predicate Distinct<T>(xs: seq<T>) {
    forall i, j :: 0 <= i < j < |xs| ==> xs[i] != xs[j]
  }

  /** The position of the first `x` in `xs`. */
  function IndexOf<T(==)>(xs: seq<T>, x: T): (k: nat)
    requires x in xs
    ensures k < |xs| && xs[k] == x
    ensures forall j :: 0 <= j < k ==> xs[j] != x
  {
    if xs[0] == x then 0 else 1 + IndexOf(xs[1..], x)
  }

  /** `xs` with every member of `gone` left out, the rest in order. */
  function Without<T(==, !new)>(xs: seq<T>, gone: set<T>): (ys: seq<T>)
    ensures |ys| <= |xs|
    ensures forall x :: x in ys <==> x in xs && x !in gone
  {
    if xs == [] then []
    else if xs[0] in gone then Without(xs[1..], gone)
    else [xs[0]] + Without(xs[1..], gone)
  }

  /** The members that follow the first `x`; nothing when `x` is absent. */
  function After<T(==)>(xs: seq<T>, x: T): seq<T> {
    if xs == [] then [] else if xs[0] == x then xs[1..] else After(xs[1..], x)
  }

  lemma {:induction false} AfterAt<T>(xs: seq<T>, k: nat)
    requires k < |xs| && forall j :: 0 <= j < k ==> xs[j] != xs[k]
    ensures After(xs, xs[k]) == xs[k + 1..]
  {
    if k > 0 {
      AfterAt(xs[1..], k - 1);
    }
  }

  /** What follows a member is listed, and of two members one follows the other. */
  lemma {:induction false} AfterIn<T(!new)>(xs: seq<T>, x: T)
    ensures forall y :: y in After(xs, x) ==> y in xs
  {
    if xs != [] && xs[0] != x {
      AfterIn(xs[1..], x);
    }
  }

  lemma {:induction false} InOrder<T(!new)>(xs: seq<T>, x: T, y: T)
    requires x in xs && y in xs && x != y
    ensures y in After(xs, x) || x in After(xs, y)
  {
    if xs[0] != x && xs[0] != y {
      InOrder(xs[1..], x, y);
    }
  }

  lemma {:induction false} WithoutConcat<T(!new)>(xs: seq<T>, ys: seq<T>, gone: set<T>)
    ensures Without(xs + ys, gone) == Without(xs, gone) + Without(ys, gone)
  {
    if xs == [] {
      assert xs + ys == ys;
    } else {
      assert (xs + ys)[1..] == xs[1..] + ys;
      WithoutConcat(xs[1..], ys, gone);
    }
  }

  lemma {:induction false} WithoutNone<T(!new)>(xs: seq<T>, gone: set<T>)
    requires forall x :: x in xs ==> x !in gone
    ensures Without(xs, gone) == xs
  {
    if xs != [] {
      WithoutNone(xs[1..], gone);
    }
  }

  lemma {:induction false} WithoutTwice<T(!new)>(xs: seq<T>, a: set<T>, b: set<T>)
    ensures Without(Without(xs, a), b) == Without(xs, a + b)
  {
    if xs != [] {
      WithoutTwice(xs[1..], a, b);
      if xs[0] !in a {
        assert Without(xs, a) == [xs[0]] + Without(xs[1..], a);
        assert Without(xs, a)[1..] == Without(xs[1..], a);
      }
    }
  }

  lemma {:induction false} WithoutSame<T(!new)>(xs: seq<T>, a: set<T>, b: set<T>)
    requires forall x :: x in xs ==> (x in a <==> x in b)
    ensures Without(xs, a) == Without(xs, b)
  {
    if xs != [] {
      WithoutSame(xs[1..], a, b);
    }
  }

  lemma {:induction false} WithoutDistinct<T(!new)>(xs: seq<T>, gone: set<T>)
    requires Distinct(xs)
    ensures Distinct(Without(xs, gone))
  {
    if xs != [] {
      WithoutDistinct(xs[1..], gone);
      assert xs[0] !in Without(xs[1..], gone);
    }
  }

  /** In a sequence without repetition, leaving out one member cuts one position. */
  lemma {:induction false} WithoutOne<T(!new)>(xs: seq<T>, k: nat)
    requires k < |xs| && Distinct(xs)
    ensures Without(xs, {xs[k]}) == xs[..k] + xs[k + 1..]
  {
    if k == 0 {
      WithoutNone(xs[1..], {xs[0]});
    } else {
      WithoutOne(xs[1..], k - 1);
      assert [xs[0]] + (xs[1..][..k - 1] + xs[1..][k..]) == xs[..k] + xs[k + 1..];
    }
  }

  /** What follows `x` in `front + [x] + back` when `x` is not in `front`. */
  lemma AfterSplit<T(!new)>(front: seq<T>, x: T, back: seq<T>)
    requires x !in front
    ensures After(front + [x] + back, x) == back
  {
    var xs := front + [x] + back;
    assert xs[|front|] == x;
    assert forall j :: 0 <= j < |front| ==> xs[j] == front[j];
    AfterAt(xs, |front|);
  }

  lemma WithoutSplit<T(!new)>(front: seq<T>, x: T, back: seq<T>, gone: set<T>)
    requires x !in gone
    ensures Without(front + [x] + back, gone) == Without(front, gone) + [x] + Without(back, gone)
  {
    WithoutConcat(front + [x], back, gone);
    WithoutConcat(front, [x], gone);
  }

  /** Leaving members out commutes with taking what follows a survivor. */
  lemma AfterWithout<T(!new)>(xs: seq<T>, gone: set<T>, x: T)
    requires x in xs && x !in gone
    ensures x in Without(xs, gone)
    ensures After(Without(xs, gone), x) == Without(After(xs, x), gone)
  {
    var k := IndexOf(xs, x);
    var front, back := xs[..k], xs[k + 1..];
    assert xs == front + [x] + back;
    WithoutSplit(front, x, back, gone);
    AfterAt(xs, k);
    assert x !in Without(front, gone);
    AfterSplit(Without(front, gone), x, Without(back, gone));
  }

  lemma {:induction false} WithoutShorter<T(!new)>(xs: seq<T>, gone: set<T>, x: T)
    requires x in xs && x in gone
    ensures |Without(xs, gone)| < |xs|
  {
    if xs[0] !in gone {
      WithoutShorter(xs[1..], gone, x);
    }
  }

  /** At most as many distinct naturals below `n` as `n`. */
  lemma {:induction false} DistinctBound(xs: seq<nat>, n: nat)
    requires Distinct(xs) && forall x :: x in xs ==> x < n
    ensures |xs| <= n
    decreases n
  {
    if xs != [] {
      assert xs[0] in xs;
      var top: nat := n - 1;
      var rest: seq<nat> := Without(xs, {top});
      WithoutDistinct(xs, {top});
      DistinctBound(rest, top);
      if top in xs {
        WithoutOne(xs, IndexOf(xs, top));
      } else {
        WithoutNone(xs, {top});
      }
    }
  }
}
