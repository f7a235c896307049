/** The optional value used wherever the source has `null`, `undefined` or a
    failed regular-expression match. */
module Wrappers {

  datatype Option<+T> = None | Some(value: T)

  /** The carried values of a sequence of options, in order. */
  function Somes<T>(xs: seq<Option<T>>): seq<T>
  {
    if xs == [] then []
    else (if xs[0].Some? then [xs[0].value] else []) + Somes(xs[1..])
  }

  /** The empty entries of a sequence of options. */
  function Nones<T>(xs: seq<Option<T>>): seq<Option<T>>
  {
    if xs == [] then []
    else (if xs[0].None? then [xs[0]] else []) + Nones(xs[1..])
  }

  /** Each empty entry removes exactly one value. */
  lemma {:induction false} SomesCount<T>(xs: seq<Option<T>>)
    ensures |Somes(xs)| == |xs| - |Nones(xs)|
  {
    if xs != [] {
      SomesCount(xs[1..]);
    }
  }

  /** Each value comes from an entry that carries it. */
  lemma {:induction false} SomesSource<T>(xs: seq<Option<T>>, v: T) returns (i: nat)
    requires v in Somes(xs)
    ensures i < |xs| && xs[i] == Some(v)
  {
    if xs[0] == Some(v) {
      i := 0;
    } else {
      var j := SomesSource(xs[1..], v);
      i := j + 1;
    }
  }
}
