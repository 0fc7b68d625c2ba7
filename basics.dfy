/** Small value types shared by the scraper model. */
module Basics {

  /** A value that may be missing: Python's None versus a present value. */
  datatype Option<+T> = None | Some(value: T)

  /** How a Python call ends: it returns a value, or it raises an exception. */
  datatype Outcome<+T> = Returned(value: T) | Raised

  /** No element occurs twice. */
  predicate NoDuplicates<T(==)>(xs: seq<T>) {
    forall i, j :: 0 <= i < j < |xs| ==> xs[i] != xs[j]
  }

  /** The set of the elements of a sequence. */
  function Elements<T(==)>(xs: seq<T>): set<T> {
    set x | x in xs
  }

  /** Python's list(s) for a set s: each element once, in an order the set chooses. */
  method ListOf<T(==)>(s: set<T>) returns (xs: seq<T>)
    ensures Elements(xs) == s
    ensures NoDuplicates(xs) && |xs| == |s|
  {
    xs := [];
    var rest := s;
    while rest != {}
      invariant rest <= s
      invariant Elements(xs) == s - rest
      invariant NoDuplicates(xs)
      invariant |xs| + |rest| == |s|
      decreases |rest|
    {
      var x :| x in rest;
      assert x !in Elements(xs);
      assert Elements(xs + [x]) == Elements(xs) + {x};
      xs := xs + [x];
      rest := rest - {x};
    }
  }

  /** A list without duplicates has as many elements as its set. */
  lemma {:induction false} DistinctElementsCount<T>(xs: seq<T>)
    requires NoDuplicates(xs)
    ensures |Elements(xs)| == |xs|
  {
    if xs != [] {
      var n := |xs| - 1;
      DistinctElementsCount(xs[..n]);
      assert Elements(xs) == Elements(xs[..n]) + {xs[n]};
      assert xs[n] !in Elements(xs[..n]);
    }
  }
}
