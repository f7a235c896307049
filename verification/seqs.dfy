/** Sequence helpers: `Array.prototype.filter` with a predicate. */
module Seqs {

  /** How many elements of `xs` satisfy `p`. */
  function CountIf<T>(xs: seq<T>, p: T -> bool): nat {
    if xs == [] then 0 else (if p(xs[0]) then 1 else 0) + CountIf(xs[1..], p)
  }

  /** The elements of `xs` satisfying `p`, in their original order: there
      are as many as pass, and the element that passes at `i` is the
      result's element number `CountIf(xs[..i], p)`, the number of passing
      elements before it. */
  function Filter<T>(xs: seq<T>, p: T -> bool): (r: seq<T>)
    ensures |r| == CountIf(xs, p) && |r| <= |xs|
    ensures forall i :: 0 <= i < |xs| && p(xs[i]) ==>
      CountIf(xs[..i], p) < |r| && r[CountIf(xs[..i], p)] == xs[i]
    ensures forall i :: 0 <= i < |r| ==> r[i] in xs && p(r[i])
  {
    if xs == [] then []
    else
      var rest := Filter(xs[1..], p);
      FilterCons(xs, p, rest);
      (if p(xs[0]) then [xs[0]] else []) + rest
  }

  /** `r` is what filtering `xs` by `p` must give. */
  ghost predicate Filtered<T>(xs: seq<T>, p: T -> bool, r: seq<T>) {
    && |r| == CountIf(xs, p) && |r| <= |xs|
    && (forall i :: 0 <= i < |xs| && p(xs[i]) ==>
          CountIf(xs[..i], p) < |r| && r[CountIf(xs[..i], p)] == xs[i])
    && (forall i :: 0 <= i < |r| ==> r[i] in xs && p(r[i]))
  }

  /** Filtering a non-empty sequence: the head, if it passes, then the
      filtered rest. */
  lemma FilterCons<T>(xs: seq<T>, p: T -> bool, rest: seq<T>)
    requires xs != [] && Filtered(xs[1..], p, rest)
    ensures Filtered(xs, p, (if p(xs[0]) then [xs[0]] else []) + rest)
  {
    var head := if p(xs[0]) then [xs[0]] else [];
    var r := head + rest;
    CountIfPrefixes(xs, p);
    forall i | 0 <= i < |xs| && p(xs[i])
      ensures CountIf(xs[..i], p) < |r| && r[CountIf(xs[..i], p)] == xs[i]
    {
      if i > 0 {
        assert xs[i] == xs[1..][i - 1];
      }
    }
    forall i | 0 <= i < |r| ensures r[i] in xs && p(r[i]) {
      if i >= |head| {
        assert r[i] == rest[i - |head|];
      }
    }
  }

  /** Counting over a prefix that keeps the head: the head's share plus
      the count over the rest of the prefix. */
  lemma CountIfPrefixes<T>(xs: seq<T>, p: T -> bool)
    requires xs != []
    ensures CountIf(xs[..0], p) == 0
    ensures forall i :: 1 <= i <= |xs| ==>
      CountIf(xs[..i], p) == (if p(xs[0]) then 1 else 0) + CountIf(xs[1..][..i - 1], p)
  {
    forall i | 1 <= i <= |xs|
      ensures CountIf(xs[..i], p) == (if p(xs[0]) then 1 else 0) + CountIf(xs[1..][..i - 1], p)
    {
      assert xs[..i][0] == xs[0];
      assert xs[..i][1..] == xs[1..][..i - 1];
    }
  }

  lemma FilterAppend<T>(xs: seq<T>, ys: seq<T>, p: T -> bool)
    ensures Filter(xs + ys, p) == Filter(xs, p) + Filter(ys, p)
  {
    if xs == [] {
      assert xs + ys == ys;
    } else {
      assert (xs + ys)[1..] == xs[1..] + ys;
      FilterAppend(xs[1..], ys, p);
    }
  }
}
