/** The optional value that the Python code expresses with None. */
module Wrappers {

  datatype Option<+T> = None | Some(value: T) {

    /** The value, or `default` when there is none. */
    function GetOr(default: T): (r: T)
      ensures Some? ==> r == value
      ensures None? ==> r == default
    {
      match this
      case Some(v) => v
      case None => default
    }
  }

  /** The values of the Some entries, in order: [x for x in xs if x is not None]. */
  function Values<T>(xs: seq<Option<T>>): (vs: seq<T>)
    decreases |xs|
  {
    if xs == [] then []
    else (if xs[0].Some? then [xs[0].value] else []) + Values(xs[1..])
  }

  lemma {:induction false} ValuesLength<T>(xs: seq<Option<T>>)
    ensures |Values(xs)| <= |xs|
    decreases |xs|
  {
    if xs != [] {
      ValuesLength(xs[1..]);
    }
  }

  lemma {:induction false} ValuesAppend<T>(a: seq<Option<T>>, b: seq<Option<T>>)
    ensures Values(a + b) == Values(a) + Values(b)
    decreases |a|
  {
    if a == [] {
      assert a + b == b;
    } else {
      assert (a + b)[0] == a[0];
      assert (a + b)[1..] == a[1..] + b;
      ValuesAppend(a[1..], b);
    }
  }

  /** A value is kept exactly when it occurs as a Some entry. */
  lemma {:induction false} ValuesMembers<T>(xs: seq<Option<T>>, v: T)
    ensures v in Values(xs) <==> Some(v) in xs
    decreases |xs|
  {
    if xs != [] {
      ValuesMembers(xs[1..], v);
      assert xs == [xs[0]] + xs[1..];
    }
  }

  /** With no None entry, every value is kept, in place. */
  lemma {:induction false} ValuesAllSome<T>(xs: seq<Option<T>>)
    requires forall i :: 0 <= i < |xs| ==> xs[i].Some?
    ensures |Values(xs)| == |xs|
    ensures forall i :: 0 <= i < |xs| ==> Values(xs)[i] == xs[i].value
    decreases |xs|
  {
    if xs != [] {
      var rest := xs[1..];
      assert forall i :: 0 <= i < |rest| ==> rest[i] == xs[i + 1];
      ValuesAllSome(rest);
    }
  }
}
