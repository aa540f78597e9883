/**
 Depth-first order over a finite graph, cycles included. `Visit` lists the nodes in the order a
 recursive traversal meets them when the nodes of `seen` already carry the traversal's mark.
 The three block traversals of the MDF writer all refine this one function; they differ only in
 which field serves as the mark.
 */
module DepthFirst {
  import opened Listing

  /** Every node with its successors, in the order they are followed. */
  type Graph<T(==)> = map<T, seq<T>>

  ghost predicate Closed<T>(g: Graph<T>)
  {
    forall x, y :: x in g && y in g[x] ==> y in g
  }

  ghost predicate AllIn<T>(g: Graph<T>, xs: seq<T>)
  {
    forall x :: x in xs ==> x in g
  }

  ghost function Visit<T>(g: Graph<T>, x: T, seen: set<T>): (order: seq<T>)
    requires Closed(g) && x in g && x !in seen
    ensures x in order && AllIn(g, order)
    decreases g.Keys - seen, 1, 0
  {
    [x] + VisitAll(g, g[x], seen + {x})
  }

  ghost function VisitAll<T>(g: Graph<T>, xs: seq<T>, seen: set<T>): (order: seq<T>)
    requires Closed(g) && AllIn(g, xs)
    ensures AllIn(g, order)
    decreases g.Keys - seen, 2, |xs|
  {
    if xs == [] then []
    else if xs[0] in seen then VisitAll(g, xs[1..], seen)
    else
      var first := Visit(g, xs[0], seen);
      assert xs[0] in g.Keys - seen && xs[0] !in g.Keys - (seen + Elements(first));
      first + VisitAll(g, xs[1..], seen + Elements(first))
  }

  /** The nodes met are new and met once. */
  lemma {:induction false} VisitOnce<T>(g: Graph<T>, x: T, seen: set<T>)
    requires Closed(g) && x in g && x !in seen
    ensures Distinct(Visit(g, x, seen))
    ensures Elements(Visit(g, x, seen)) !! seen
    decreases g.Keys - seen, 1, 0
  {
    VisitAllOnce(g, g[x], seen + {x});
    assert x !in VisitAll(g, g[x], seen + {x}) by {
      assert Elements(VisitAll(g, g[x], seen + {x})) !! {x};
    }
  }

  lemma {:induction false} VisitAllOnce<T>(g: Graph<T>, xs: seq<T>, seen: set<T>)
    requires Closed(g) && AllIn(g, xs)
    ensures Distinct(VisitAll(g, xs, seen))
    ensures Elements(VisitAll(g, xs, seen)) !! seen
    decreases g.Keys - seen, 2, |xs|
  {
    if xs == [] {
    } else if xs[0] in seen {
      VisitAllOnce(g, xs[1..], seen);
    } else {
      var first := Visit(g, xs[0], seen);
      assert xs[0] in g.Keys - seen && xs[0] !in g.Keys - (seen + Elements(first));
      VisitOnce(g, xs[0], seen);
      VisitAllOnce(g, xs[1..], seen + Elements(first));
      DistinctAppend(first, VisitAll(g, xs[1..], seen + Elements(first)));
    }
  }

  lemma DistinctAppend<T>(a: seq<T>, b: seq<T>)
    requires Distinct(a) && Distinct(b) && Elements(a) !! Elements(b)
    ensures Distinct(a + b)
    ensures Elements(a + b) == Elements(a) + Elements(b)
  {
    forall i, j | 0 <= i < j < |a + b|
      ensures (a + b)[i] != (a + b)[j]
    {
      if i < |a| <= j {
        assert (a + b)[i] in Elements(a) && (a + b)[j] in Elements(b);
      }
    }
  }

  /** Visiting a list in two parts is visiting the whole list. */
  lemma {:induction false} VisitAllAppend<T>(g: Graph<T>, xs: seq<T>, ys: seq<T>, seen: set<T>)
    requires Closed(g) && AllIn(g, xs) && AllIn(g, ys)
    ensures AllIn(g, xs + ys)
    ensures VisitAll(g, xs + ys, seen)
         == VisitAll(g, xs, seen) + VisitAll(g, ys, seen + Elements(VisitAll(g, xs, seen)))
    decreases |xs|
  {
    if xs == [] {
      assert xs + ys == ys;
      assert seen + Elements<T>([]) == seen;
    } else {
      assert (xs + ys)[1..] == xs[1..] + ys;
      if xs[0] in seen {
        VisitAllAppend(g, xs[1..], ys, seen);
      } else {
        var first := Visit(g, xs[0], seen);
        var rest := VisitAll(g, xs[1..], seen + Elements(first));
        VisitAllAppend(g, xs[1..], ys, seen + Elements(first));
        assert seen + Elements(first) + Elements(rest) == seen + Elements(first + rest);
      }
    }
  }

  /** A walk along successor links whose nodes are all outside `avoid`. */
  ghost predicate Path<T>(g: Graph<T>, older p: seq<T>, x: T, y: T, avoid: set<T>)
  {
    && p != [] && p[0] == x && p[|p| - 1] == y
    && (forall i :: 0 <= i < |p| ==> p[i] in g && p[i] !in avoid)
    && (forall i :: 0 <= i < |p| - 1 ==> p[i + 1] in g[p[i]])
  }

  ghost predicate Reaches<T>(g: Graph<T>, x: T, y: T, avoid: set<T>)
  {
    exists p :: Path(g, p, x, y, avoid)
  }

  /** Everything a met node leads to is met or was marked before. */
  lemma {:induction false} VisitCloses<T>(g: Graph<T>, x: T, seen: set<T>)
    requires Closed(g) && x in g && x !in seen
    ensures forall u, v :: u in Visit(g, x, seen) && v in g[u] ==> v in seen || v in Visit(g, x, seen)
    decreases g.Keys - seen, 1, 0
  {
    VisitAllCloses(g, g[x], seen + {x});
  }

  lemma {:induction false} VisitAllCloses<T>(g: Graph<T>, xs: seq<T>, seen: set<T>)
    requires Closed(g) && AllIn(g, xs)
    ensures forall u :: u in xs ==> u in seen || u in VisitAll(g, xs, seen)
    ensures forall u, v :: u in VisitAll(g, xs, seen) && v in g[u] ==> v in seen || v in VisitAll(g, xs, seen)
    decreases g.Keys - seen, 2, |xs|
  {
    if xs == [] {
    } else if xs[0] in seen {
      VisitAllCloses(g, xs[1..], seen);
    } else {
      var first := Visit(g, xs[0], seen);
      assert xs[0] in g.Keys - seen && xs[0] !in g.Keys - (seen + Elements(first));
      VisitCloses(g, xs[0], seen);
      VisitAllCloses(g, xs[1..], seen + Elements(first));
    }
  }

  /** A path outside the marked nodes stays inside the order. */
  lemma {:induction false} PathIsVisited<T>(g: Graph<T>, p: seq<T>, x: T, y: T, seen: set<T>)
    requires Closed(g) && x in g && x !in seen
    requires Path(g, p, x, y, seen)
    ensures y in Visit(g, x, seen)
    decreases |p|
  {
    if |p| > 1 {
      var q := p[..|p| - 1];
      PathIsVisited(g, q, x, q[|q| - 1], seen);
      VisitCloses(g, x, seen);
      assert p[|q| - 1 + 1] in g[p[|q| - 1]];
    }
  }

  lemma {:induction false} VisitedHasPath<T>(g: Graph<T>, x: T, y: T, seen: set<T>)
    requires Closed(g) && x in g && x !in seen
    requires y in Visit(g, x, seen)
    ensures Reaches(g, x, y, seen)
    decreases g.Keys - seen, 1, 0
  {
    if y == x {
      assert Path(g, [x], x, y, seen);
    } else {
      var z := VisitedFromList(g, g[x], y, seen + {x});
      var q :| Path(g, q, z, y, seen + {x});
      assert Path(g, [x] + q, x, y, seen);
    }
  }

  lemma {:induction false} VisitedFromList<T>(g: Graph<T>, xs: seq<T>, y: T, seen: set<T>) returns (z: T)
    requires Closed(g) && AllIn(g, xs)
    requires y in VisitAll(g, xs, seen)
    ensures z in xs && Reaches(g, z, y, seen)
    decreases g.Keys - seen, 2, |xs|
  {
    if xs[0] in seen {
      z := VisitedFromList(g, xs[1..], y, seen);
    } else {
      var first := Visit(g, xs[0], seen);
      assert xs[0] in g.Keys - seen && xs[0] !in g.Keys - (seen + Elements(first));
      if y in first {
        z := xs[0];
        VisitedHasPath(g, z, y, seen);
      } else {
        z := VisitedFromList(g, xs[1..], y, seen + Elements(first));
        var q :| Path(g, q, z, y, seen + Elements(first));
        assert Path(g, q, z, y, seen);
      }
    }
  }

  /** The order holds exactly the nodes reachable outside the marked ones, each once. */
  lemma VisitIsReachability<T>(g: Graph<T>, x: T, seen: set<T>)
    requires Closed(g) && x in g && x !in seen
    ensures Distinct(Visit(g, x, seen))
    ensures forall y :: y in Visit(g, x, seen) <==> y in g && Reaches(g, x, y, seen)
  {
    VisitOnce(g, x, seen);
    forall y | y in g
      ensures y in Visit(g, x, seen) <==> Reaches(g, x, y, seen)
    {
      if y in Visit(g, x, seen) {
        VisitedHasPath(g, x, y, seen);
      }
      if Reaches(g, x, y, seen) {
        var p :| Path(g, p, x, y, seen);
        PathIsVisited(g, p, x, y, seen);
      }
    }
  }

  /** Marks on nodes the traversal would not meet make no difference to its order. */
  lemma {:induction false} VisitIgnoresOthers<T>(g: Graph<T>, x: T, seen: set<T>, others: set<T>)
    requires Closed(g) && x in g && x !in seen
    requires others !! Elements(Visit(g, x, seen))
    ensures x !in seen + others && Visit(g, x, seen + others) == Visit(g, x, seen)
    decreases g.Keys - seen, 1, 0
  {
    assert x in Elements(Visit(g, x, seen));
    assert Elements(VisitAll(g, g[x], seen + {x})) <= Elements(Visit(g, x, seen));
    VisitAllIgnoresOthers(g, g[x], seen + {x}, others);
    assert seen + {x} + others == seen + others + {x};
  }

  lemma {:induction false} VisitAllIgnoresOthers<T>(g: Graph<T>, xs: seq<T>, seen: set<T>, others: set<T>)
    requires Closed(g) && AllIn(g, xs)
    requires others !! Elements(VisitAll(g, xs, seen))
    ensures VisitAll(g, xs, seen + others) == VisitAll(g, xs, seen)
    decreases g.Keys - seen, 2, |xs|
  {
    if xs == [] {
    } else if xs[0] in seen {
      VisitAllIgnoresOthers(g, xs[1..], seen, others);
    } else {
      var first := Visit(g, xs[0], seen);
      var rest := VisitAll(g, xs[1..], seen + Elements(first));
      assert xs[0] in g.Keys - seen && xs[0] !in g.Keys - (seen + Elements(first));
      assert Elements(first + rest) == Elements(first) + Elements(rest);
      assert xs[0] in Elements(first);
      VisitIgnoresOthers(g, xs[0], seen, others);
      VisitAllIgnoresOthers(g, xs[1..], seen + Elements(first), others);
      assert seen + others + Elements(first) == seen + Elements(first) + others;
    }
  }
}
