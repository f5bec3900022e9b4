/** Sequences as enumerations of sets. */
module Collections {

  predicate Distinct<T(==)>(xs: seq<T>) { forall i, j :: 0 <= i < j < |xs| ==> xs[i] != xs[j] }

  function Elements<T(==)>(xs: seq<T>): set<T> { set x | x in xs }

  lemma ElementsAppend<T>(xs: seq<T>, x: T)
    ensures Elements(xs + [x]) == Elements(xs) + {x}
  {
  }

  lemma {:induction false} SubsetSize<T>(x: set<T>, y: set<T>)
    requires x <= y
    ensures |x| <= |y|
  {
    if x != {} {
      var e :| e in x;
      SubsetSize(x - {e}, y - {e});
    }
  }

  lemma {:induction false} DistinctSize<T>(xs: seq<T>)
    requires Distinct(xs)
    ensures |Elements(xs)| == |xs|
  {
    if xs != [] {
      var init, last := xs[..|xs| - 1], xs[|xs| - 1];
      DistinctSize(init);
      ElementsAppend(init, last);
      assert xs == init + [last] && last !in Elements(init);
    }
  }

  /** The only enumeration of a set with one element. */
  lemma Singleton<T>(xs: seq<T>, x: T)
    requires Distinct(xs) && Elements(xs) == {x}
    ensures xs == [x]
  {
    DistinctSize(xs);
    assert xs[0] in Elements(xs);
  }

  /** The elements of a set, such as the keys of a map, in the order of some iteration. */
  method Enumerate<T(==)>(keys: set<T>) returns (xs: seq<T>)
    ensures Distinct(xs) && Elements(xs) == keys && |xs| == |keys|
    ensures forall i :: 0 <= i < |xs| ==> xs[i] in keys
  {
    xs := [];
    var left := keys;
    while left != {}
      invariant Distinct(xs) && left <= keys && |xs| + |left| == |keys|
      invariant forall x :: x in xs <==> x in keys && x !in left
    {
      var x :| x in left;
      left := left - {x};
      xs := xs + [x];
    }
  }
}
