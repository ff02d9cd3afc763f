/** Sequence vocabulary shared by the model: duplicate-freedom, occurrence counts,
    first-occurrence deduplication and the "every element except u" filter that
    builds a member's peer list. */
module Seqs {

  predicate NoDups<T(==)>(xs: seq<T>) {
    forall i, j :: 0 <= i < j < |xs| ==> xs[i] != xs[j]
  }

  /** The distinct elements of `xs`. */
  function Elems<T(==)>(xs: seq<T>): set<T> {
    set x | x in xs
  }

  /** Number of occurrences of `x` in `xs`. */
  function Count<T(==)>(xs: seq<T>, x: T): (n: nat)
    ensures n <= |xs|
    ensures n > 0 <==> x in xs
  {
    if xs == [] then 0 else Count(xs[..|xs| - 1], x) + (if xs[|xs| - 1] == x then 1 else 0)
  }

  /** `order` lists every distinct element of `xs` exactly once, in some order:
      what iterating over `list(set(xs))` gives in Python. */
  predicate IsEnumeration<T(==,!new)>(order: seq<T>, xs: seq<T>) {
    && NoDups(order)
    && (forall x :: x in order ==> x in xs)
    && (forall x :: x in xs ==> x in order)
  }

  /** Deduplication keeping the first occurrence of each element, in the order of
      first appearance. */
  function Dedup<T(==,!new)>(xs: seq<T>): (r: seq<T>)
    ensures IsEnumeration(r, xs)
    decreases |xs|
  {
    if xs == [] then []
    else
      var d := Dedup(xs[..|xs| - 1]);
      var x := xs[|xs| - 1];
      assert forall y :: y in xs <==> y in xs[..|xs| - 1] || y == x by {
        assert xs == xs[..|xs| - 1] + [x];
      }
      if x in d then d else d + [x]
  }

  /** Appending an element bumps its count and leaves every other count alone. */
  lemma CountAppend<T>(xs: seq<T>, y: T, x: T)
    ensures Count(xs + [y], x) == Count(xs, x) + (if y == x then 1 else 0)
  {
    assert (xs + [y])[..|xs + [y]| - 1] == xs;
  }

  /** A one-element sequence holds its element once. */
  lemma CountSingle<T>(y: T, x: T)
    ensures Count([y], x) == if y == x then 1 else 0
  {
    assert [y][..0] == [];
  }

  /** Counting from the front: the head, then the rest. */
  lemma CountFront<T>(xs: seq<T>, x: T)
    requires xs != []
    ensures Count(xs, x) == (if xs[0] == x then 1 else 0) + Count(xs[1..], x)
  {
    assert xs == [xs[0]] + xs[1..];
    CountConcat([xs[0]], xs[1..], x);
    CountSingle(xs[0], x);
  }

  /** Counting over a concatenation adds the counts. */
  lemma {:induction false} CountConcat<T>(xs: seq<T>, ys: seq<T>, x: T)
    ensures Count(xs + ys, x) == Count(xs, x) + Count(ys, x)
    decreases |ys|
  {
    if ys == [] {
      assert xs + ys == xs;
    } else {
      var init := ys[..|ys| - 1];
      assert xs + ys == (xs + init) + [ys[|ys| - 1]];
      assert ys == init + [ys[|ys| - 1]];
      CountConcat(xs, init, x);
      CountAppend(xs + init, ys[|ys| - 1], x);
      CountAppend(init, ys[|ys| - 1], x);
    }
  }

  /** In a duplicate-free sequence every element occurs exactly once. */
  lemma {:induction false} NoDupsCount<T>(xs: seq<T>, x: T)
    requires NoDups(xs)
    ensures Count(xs, x) == (if x in xs then 1 else 0)
    decreases |xs|
  {
    if xs != [] {
      var init := xs[..|xs| - 1];
      assert xs == init + [xs[|xs| - 1]];
      NoDupsCount(init, x);
      if x == xs[|xs| - 1] {
        assert x !in init;
      }
    }
  }

  /** An enumeration of the distinct elements of `xs` holds each of them exactly
      once and nothing else. */
  lemma EnumerationCount<T(!new)>(order: seq<T>, xs: seq<T>, x: T)
    requires IsEnumeration(order, xs)
    ensures Count(order, x) == (if x in xs then 1 else 0)
  {
    NoDupsCount(order, x);
  }

  /** A duplicate-free sequence is as long as its set of elements is large. */
  lemma {:induction false} NoDupsCardinality<T>(xs: seq<T>)
    requires NoDups(xs)
    ensures |Elems(xs)| == |xs|
    decreases |xs|
  {
    if xs != [] {
      var init := xs[..|xs| - 1];
      var x := xs[|xs| - 1];
      assert xs == init + [x];
      NoDupsCardinality(init);
      assert x !in Elems(init);
      assert Elems(xs) == Elems(init) + {x};
    }
  }

  /** Every enumeration of the same elements has the same length: the number of
      distinct elements. */
  lemma EnumerationLength<T(!new)>(order: seq<T>, xs: seq<T>)
    requires IsEnumeration(order, xs)
    ensures |order| == |Elems(xs)|
  {
    NoDupsCardinality(order);
    assert Elems(order) == Elems(xs);
  }

  /** `[x for x in xs if x != u]`: every element except `u`, in order. */
  function Without<T(==,!new)>(xs: seq<T>, u: T): (r: seq<T>)
    ensures |r| == |xs| - Count(xs, u)
    decreases |xs|
  {
    if xs == [] then []
    else Without(xs[..|xs| - 1], u) + (if xs[|xs| - 1] != u then [xs[|xs| - 1]] else [])
  }

  /** `Without` keeps exactly the elements different from `u`. */
  lemma {:induction false} WithoutMembers<T(!new)>(xs: seq<T>, u: T, x: T)
    ensures x in Without(xs, u) <==> x in xs && x != u
    decreases |xs|
  {
    if xs != [] {
      var init := xs[..|xs| - 1];
      assert xs == init + [xs[|xs| - 1]];
      WithoutMembers(init, u, x);
    }
  }

  /** `Without` keeps every other element as often as it occurs and drops every
      copy of `u`. */
  lemma {:induction false} WithoutCount<T(!new)>(xs: seq<T>, u: T, x: T)
    ensures Count(Without(xs, u), x) == if x == u then 0 else Count(xs, x)
    decreases |xs|
  {
    if xs != [] {
      var init, last := xs[..|xs| - 1], xs[|xs| - 1];
      var w := Without(init, u);
      WithoutCount(init, u, x);
      assert Count(xs, x) == Count(init, x) + (if last == x then 1 else 0);
      if last != u {
        assert Without(xs, u) == w + [last];
        CountAppend(w, last, x);
      } else {
        assert Without(xs, u) == w + [];
        assert w + [] == w;
      }
    }
  }
}
