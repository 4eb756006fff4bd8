/** Python's `list(some_set)`: a list holding each element of a set once,
    in an order the model does not fix. */
module Lists {

  /** No element occurs twice. */
  predicate Distinct<T(==)>(xs: seq<T>) {
    forall i, j :: 0 <= i < j < |xs| ==> xs[i] != xs[j]
  }

  /** The elements of `xs`, as a set. */
  function Elements<T>(xs: seq<T>): set<T> {
    set x | x in xs
  }

  /** A list without duplicates is as long as the set of its elements. */
  lemma {:induction false} DistinctCard<T>(xs: seq<T>)
    requires Distinct(xs)
    ensures |Elements(xs)| == |xs|
  {
    if xs != [] {
      var last := xs[|xs| - 1];
      var init := xs[..|xs| - 1];
      assert Elements(xs) == Elements(init) + {last};
      assert last !in Elements(init);
      DistinctCard(init);
    }
  }

  /** `list(s)`: every element of `s` exactly once. */
  method ListOf<T(==)>(s: set<T>) returns (xs: seq<T>)
    ensures Elements(xs) == s
    ensures Distinct(xs)
    ensures |xs| == |s|
  {
    xs := [];
    var rest := s;
    while rest != {}
      invariant rest <= s
      invariant Elements(xs) == s - rest
      invariant Distinct(xs)
      decreases rest
    {
      var x :| x in rest;
      assert Elements(xs + [x]) == Elements(xs) + {x};
      xs := xs + [x];
      rest := rest - {x};
    }
    DistinctCard(xs);
  }
}
