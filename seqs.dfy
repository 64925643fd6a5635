/** Sequence facts shared by the extraction and validation modules. */
module Seqs {

  /** No element occurs twice (exact equality). */
  predicate NoDuplicates<T(==)>(xs: seq<T>) {
    forall i, j :: 0 <= i < j < |xs| ==> xs[i] != xs[j]
  }

  /** The set of elements of a sequence (Python's `set(xs)`). */
  function Elements<T>(xs: seq<T>): set<T> {
    set x | x in xs
  }

  /** Index of the first occurrence of `x` in `xs`. */
  function FirstIndex<T(==)>(xs: seq<T>, x: T): (k: nat)
    requires x in xs
    ensures k < |xs| && xs[k] == x && x !in xs[..k]
  {
    if xs[0] == x then 0 else 1 + FirstIndex(xs[1..], x)
  }

  /**
   * The distinct elements of `xs` in order of first appearance, as pandas'
   * `Series.unique()` returns them.
   */
  function Unique<T(==)>(xs: seq<T>): (r: seq<T>)
    ensures NoDuplicates(r)
    ensures Elements(r) == Elements(xs)
  {
    if xs == [] then []
    else
      var u := Unique(xs[..|xs| - 1]);
      var last := xs[|xs| - 1];
      assert xs == xs[..|xs| - 1] + [last];
      if last in u then u
      else
        assert Elements(u + [last]) == Elements(u) + {last};
        u + [last]
  }

  /** A duplicate-free sequence has as many elements as its set. */
  lemma {:induction false} DistinctCount<T>(xs: seq<T>)
    requires NoDuplicates(xs)
    ensures |Elements(xs)| == |xs|
  {
    if xs != [] {
      var init := xs[..|xs| - 1];
      var last := xs[|xs| - 1];
      assert xs == init + [last];
      assert NoDuplicates(init);
      DistinctCount(init);
      assert forall k :: 0 <= k < |init| ==> init[k] == xs[k];
      assert last !in init;
      assert Elements(xs) == Elements(init) + {last};
    }
  }

  /** `Unique` keeps the first occurrences in order: earlier in `r` means first seen earlier in `xs`. */
  lemma {:induction false} UniqueInFirstOccurrenceOrder<T>(xs: seq<T>, a: nat, b: nat)
    requires a < b < |Unique(xs)|
    ensures Unique(xs)[a] in xs && Unique(xs)[b] in xs
    ensures FirstIndex(xs, Unique(xs)[a]) < FirstIndex(xs, Unique(xs)[b])
  {
    var init := xs[..|xs| - 1];
    var last := xs[|xs| - 1];
    var u := Unique(init);
    assert xs == init + [last];
    assert Elements(u) == Elements(init);
    var r := Unique(xs);
    assert r[a] in Elements(r) && r[b] in Elements(r);
    if last in u {
      assert r == u;
      UniqueInFirstOccurrenceOrder(init, a, b);
      FirstIndexOfPrefix(init, last, u[a]);
      FirstIndexOfPrefix(init, last, u[b]);
    } else {
      assert r == u + [last];
      if b < |u| {
        UniqueInFirstOccurrenceOrder(init, a, b);
        FirstIndexOfPrefix(init, last, u[a]);
        FirstIndexOfPrefix(init, last, u[b]);
      } else {
        assert last !in Elements(init);
        assert r[b] == last && last !in init;
        assert u[a] in Elements(init);
        FirstIndexOfPrefix(init, last, u[a]);
        assert forall k :: 0 <= k < |init| ==> xs[k] == init[k];
        assert FirstIndex(xs, last) == |init|;
      }
    }
  }

  /** Appending an element does not move first occurrences already present. */
  lemma {:induction false} FirstIndexOfPrefix<T>(init: seq<T>, last: T, x: T)
    requires x in init
    ensures x in init + [last] && FirstIndex(init + [last], x) == FirstIndex(init, x)
  {
    if init[0] != x {
      assert (init + [last])[1..] == init[1..] + [last];
      FirstIndexOfPrefix(init[1..], last, x);
    }
  }

  /** The first occurrence of an element is at or before any occurrence of it. */
  lemma FirstIndexAtMost<T>(xs: seq<T>, i: nat)
    requires i < |xs|
    ensures FirstIndex(xs, xs[i]) <= i
  {
    var k := FirstIndex(xs, xs[i]);
    assert forall j :: 0 <= j < k ==> xs[..k][j] == xs[j];
  }

  /** A sequence with no duplicates is its own `Unique`. */
  lemma {:induction false} UniqueOfDistinct<T>(xs: seq<T>)
    requires NoDuplicates(xs)
    ensures Unique(xs) == xs
  {
    if xs != [] {
      var init := xs[..|xs| - 1];
      var last := xs[|xs| - 1];
      assert xs == init + [last];
      assert NoDuplicates(init);
      UniqueOfDistinct(init);
      assert forall k :: 0 <= k < |init| ==> init[k] == xs[k];
      assert last !in init;
    }
  }
}
