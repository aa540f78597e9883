/** Sets written out as sequences. */
module Listing {

  ghost predicate Distinct<T>(xs: seq<T>)
  {
    forall i, j :: 0 <= i < j < |xs| ==> xs[i] != xs[j]
  }

  lemma SubsetIsSmaller<T>(a: set<T>, b: set<T>)
    requires a <= b
    ensures |a| <= |b|
  {
    assert b == a + (b - a);
  }

  ghost function Elements<T>(xs: seq<T>): set<T>
  {
    set x | x in xs
  }

  lemma {:induction false} ElementsSize<T>(xs: seq<T>)
    ensures |Elements(xs)| <= |xs| && (Distinct(xs) ==> |Elements(xs)| == |xs|)
  {
    if xs != [] {
      var n := |xs| - 1;
      ElementsSize(xs[..n]);
      assert xs == xs[..n] + [xs[n]];
      assert Elements(xs) == Elements(xs[..n]) + {xs[n]};
    }
  }

  /** Distinct elements that are all among `ys` are no more than `ys`. */
  lemma DistinctAmong<T>(xs: seq<T>, ys: seq<T>)
    requires Distinct(xs) && forall x :: x in xs ==> x in ys
    ensures |xs| <= |ys|
  {
    ElementsSize(xs);
    ElementsSize(ys);
    assert Elements(xs) <= Elements(ys);
    SubsetIsSmaller(Elements(xs), Elements(ys));
  }

  /** The elements of a set in some order. */
  method Listed<T(==)>(s: set<T>) returns (xs: seq<T>)
    ensures Distinct(xs) && forall x :: x in xs <==> x in s
  {
    xs := [];
    var left := s;
    while left != {}
      invariant left <= s && Distinct(xs)
      invariant forall x :: x in xs <==> x in s && x !in left
      decreases left
    {
      var y :| y in left;
      xs := xs + [y];
      left := left - {y};
    }
  }
}
