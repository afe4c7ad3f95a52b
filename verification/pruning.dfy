/** Pruning is exact: the descent that skips a branch when the splitting
    plane is farther than the entry at index 0 returns the same list as
    the descent that visits every node. */
module Pruning {
  import opened Observation
  import opened KDTree
  import opened Neighbours
  import opened Grouping

  /** The same descent without pruning: the unchosen branch is always
      visited. The reference `Search` is proved equal to. */
  function SearchAll(t: Tree, q: Obs, maxDistance: real, K: int, acc: seq<Entry>): (r: seq<Entry>)
    requires Routable(t, q)
    requires |acc| < K || |acc| > 0
    ensures |r| >= |acc|
    ensures |acc| <= K ==> |r| <= K
    decreases t, 1
  {
    if t.Nil? then acc else VisitAll(t, q, maxDistance, K, acc)
  }

  /** The visit of a node without pruning. */
  function VisitAll(t: Tree, q: Obs, maxDistance: real, K: int, acc: seq<Entry>): (r: seq<Entry>)
    requires t.Node? && Routable(t, q)
    requires |acc| < K || |acc| > 0
    ensures |r| >= |acc|
    ensures |acc| <= K ==> |r| <= K
    decreases t, 0
  {
    var acc1 := Offer(acc, t.pivot, q, maxDistance, K);
    var b := Branches(t, q);
    SearchAll(b.1, q, maxDistance, K, SearchAll(b.0, q, maxDistance, K, acc1))
  }

  /** One step of `SearchAll` at a node. */
  lemma SearchAllNode(t: Tree, q: Obs, maxDistance: real, K: int, acc: seq<Entry>)
    requires t.Node? && Routable(t, q)
    requires |acc| < K || |acc| > 0
    ensures var b := Branches(t, q);
            SearchAll(t, q, maxDistance, K, acc)
              == SearchAll(b.1, q, maxDistance, K, SearchAll(b.0, q, maxDistance, K, Offer(acc, t.pivot, q, maxDistance, K)))
  {
    assert SearchAll(t, q, maxDistance, K, acc) == VisitAll(t, q, maxDistance, K, acc);
  }

  /** The members of a node are its pivot and those of its subtrees. */
  lemma NodeMembers(t: Tree)
    requires t.Node?
    ensures t.pivot in Elems(t)
    ensures forall o :: o in Elems(t.left) ==> o in Elems(t)
    ensures forall o :: o in Elems(t.right) ==> o in Elems(t)
  {
    assert Points(t) == Points(t.left) + [t.pivot] + Points(t.right);
  }

  /** A full list whose entry at index 0 is at least as close as every
      observation of the tree is left untouched by the descent. */
  lemma {:induction false} NothingCloserKeepsList(t: Tree, q: Obs, maxDistance: real, K: int, acc: seq<Entry>)
    requires Routable(t, q)
    requires |acc| >= K && |acc| > 0
    requires forall o :: o in Elems(t) ==> Distance(o, q) >= -acc[0].negDist
    ensures SearchAll(t, q, maxDistance, K, acc) == acc
    decreases t
  {
    if t.Node? {
      NodeMembers(t);
      SearchAllNode(t, q, maxDistance, K, acc);
      assert Offer(acc, t.pivot, q, maxDistance, K) == acc;
      var b := Branches(t, q);
      NothingCloserKeepsList(b.0, q, maxDistance, K, acc);
      NothingCloserKeepsList(b.1, q, maxDistance, K, acc);
    }
  }

  /** Every observation of `u` has coordinate `a`, on the other side of
      `y` from the query's (or on the plane). */
  predicate BeyondPlane(u: Tree, q: Obs, a: nat, y: real)
    requires a < |q.features|
  {
    forall o :: o in Elems(u) ==>
      a < |o.features| &&
      (q.features[a] < y ==> y <= o.features[a]) &&
      (y <= q.features[a] ==> o.features[a] <= y)
  }

  /** In an ordered tree the unchosen branch lies on the far side of the
      splitting plane from the query. */
  lemma UnchosenBeyondPlane(t: Tree, q: Obs)
    requires t.Node? && Ordered(t) && Routable(t, q)
    ensures BeyondPlane(Branches(t, q).1, q, t.axis, t.pivot.features[t.axis])
  {
  }

  /** A point `z` on the far side of `y` from `x` is at least as far from
      `x` as `y` is. */
  lemma GapBound(x: real, y: real, z: real, d: real)
    requires (x < y && y <= z) || (y <= x && z <= y)
    requires Square(z - x) <= d
    ensures Square(x - y) <= d
  {
    SquareOfLargerGap(x - y, z - x);
  }

  /** A point whose coordinate `a` lies on the far side of the plane at `y`
      is at least as far from the query as the plane is. */
  lemma FarPoint(o: Obs, q: Obs, a: nat, y: real)
    requires a < |o.features| && a < |q.features|
    requires var x, z := q.features[a], o.features[a];
             (x < y && y <= z) || (y <= x && z <= y)
    ensures Square(q.features[a] - y) <= Distance(o, q)
  {
    CoordinateBound(o.features, q.features, a);
    GapBound(q.features[a], y, o.features[a], Distance(o, q));
  }

  /** Every observation beyond the splitting plane is at least as far from
      the query as the plane: the squared gap on the node's axis bounds
      the squared distance from below. */
  lemma FarSideIsFar(u: Tree, q: Obs, a: nat, y: real)
    requires a < |q.features| && BeyondPlane(u, q, a, y)
    ensures forall o :: o in Elems(u) ==> Square(q.features[a] - y) <= Distance(o, q)
  {
    forall o | o in Elems(u)
      ensures Square(q.features[a] - y) <= Distance(o, q)
    {
      FarPoint(o, q, a, y);
    }
  }

  /** When the plane is strictly farther than `bound`, so is every
      observation beyond it. */
  lemma FartherThanPlane(u: Tree, q: Obs, a: nat, y: real, bound: real)
    requires a < |q.features| && BeyondPlane(u, q, a, y)
    requires Square(q.features[a] - y) > bound
    ensures forall o :: o in Elems(u) ==> Distance(o, q) > bound
  {
    FarSideIsFar(u, q, a, y);
  }

  /** When `KDTree.py` skips the unchosen branch, every observation in it
      is strictly farther than the entry at index 0. */
  lemma PrunedBranchIsFar(t: Tree, q: Obs, maxDistance: real, K: int, acc: seq<Entry>)
    requires t.Node? && Routable(t, q) && Ordered(t)
    requires |acc| < K || |acc| > 0
    requires Consistent(acc, q)
    requires !ShouldCheck(t, q, acc, K)
    ensures |acc| >= K && |acc| > 0
    ensures forall o :: o in Elems(Branches(t, q).1) ==> Distance(o, q) > -acc[0].negDist
  {
    assert acc[0] in acc;
    SqDistSymmetric(q.features, acc[0].obs.features);
    assert Square(q.features[t.axis] - t.pivot.features[t.axis]) > -acc[0].negDist;
    UnchosenBeyondPlane(t, q);
    FartherThanPlane(Branches(t, q).1, q, t.axis, t.pivot.features[t.axis], -acc[0].negDist);
  }

  /** Pruning is exact: on an ordered tree, with keys that are the
      negated distances of their observations, skipping the unchosen
      branch as `KDTree.py` does never changes the resulting list. */
  lemma {:induction false} PruningIsExact(t: Tree, q: Obs, maxDistance: real, K: int, acc: seq<Entry>)
    requires Routable(t, q) && Ordered(t)
    requires |acc| < K || |acc| > 0
    requires Consistent(acc, q)
    ensures Search(t, q, maxDistance, K, acc) == SearchAll(t, q, maxDistance, K, acc)
    decreases t, 3
  {
    if t.Node? {
      PruningNode(t, q, maxDistance, K, acc);
    }
  }

  /** The node case of `PruningIsExact`. */
  lemma {:induction false} PruningNode(t: Tree, q: Obs, maxDistance: real, K: int, acc: seq<Entry>)
    requires t.Node? && Routable(t, q) && Ordered(t)
    requires |acc| < K || |acc| > 0
    requires Consistent(acc, q)
    ensures Search(t, q, maxDistance, K, acc) == SearchAll(t, q, maxDistance, K, acc)
    decreases t, 2
  {
    var acc1 := Offer(acc, t.pivot, q, maxDistance, K);
    var b := Branches(t, q);
    PruningChosen(t, q, maxDistance, K, acc);
    PruningUnchosen(t, q, maxDistance, K, acc);
    SearchNode(t, q, maxDistance, K, acc);
    SearchAllNode(t, q, maxDistance, K, acc);
  }

  /** The chosen branch's share of `PruningIsExact`. */
  lemma {:induction false} PruningChosen(t: Tree, q: Obs, maxDistance: real, K: int, acc: seq<Entry>)
    requires t.Node? && Routable(t, q) && Ordered(t)
    requires |acc| < K || |acc| > 0
    requires Consistent(acc, q)
    ensures var acc1 := Offer(acc, t.pivot, q, maxDistance, K);
            var b := Branches(t, q);
            && Search(b.0, q, maxDistance, K, acc1) == SearchAll(b.0, q, maxDistance, K, acc1)
            && Consistent(Search(b.0, q, maxDistance, K, acc1), q)
    decreases t, 0
  {
    var acc1 := Offer(acc, t.pivot, q, maxDistance, K);
    OfferConsistent(acc, t.pivot, q, maxDistance, K);
    var b := Branches(t, q);
    PruningIsExact(b.0, q, maxDistance, K, acc1);
    SearchKeepsInvariants(b.0, q, maxDistance, K, acc1);
  }

  /** The unchosen branch's share of `PruningIsExact`: visited, it gives
      what the unpruned descent gives; skipped, the unpruned descent would
      not have changed the list either. */
  lemma {:induction false} PruningUnchosen(t: Tree, q: Obs, maxDistance: real, K: int, acc: seq<Entry>)
    requires t.Node? && Routable(t, q) && Ordered(t)
    requires |acc| < K || |acc| > 0
    requires Consistent(acc, q)
    ensures var b := Branches(t, q);
            var acc2 := Search(b.0, q, maxDistance, K, Offer(acc, t.pivot, q, maxDistance, K));
            (if ShouldCheck(t, q, acc2, K) then Search(b.1, q, maxDistance, K, acc2) else acc2)
              == SearchAll(b.1, q, maxDistance, K, acc2)
    decreases t, 1
  {
    var b := Branches(t, q);
    var acc2 := Search(b.0, q, maxDistance, K, Offer(acc, t.pivot, q, maxDistance, K));
    PruningChosen(t, q, maxDistance, K, acc);
    if ShouldCheck(t, q, acc2, K) {
      PruningIsExact(b.1, q, maxDistance, K, acc2);
    } else {
      PrunedBranchIsFar(t, q, maxDistance, K, acc2);
      NothingCloserKeepsList(b.1, q, maxDistance, K, acc2);
    }
  }

  /** End to end: on a tree built by `build`, `create_grouping` returns
      what it would return if it visited every branch. */
  lemma GroupingIgnoresPruning(ps: seq<Obs>, q: Obs, maxDistance: real, K: int)
    requires WellDimensioned(ps) && (|ps| > 0 ==> |ps[0].features| <= |q.features|)
    ensures Routable(Build(ps, 0), q)
    ensures CreateGrouping(Build(ps, 0), q, maxDistance, K)
              == if maxDistance <= 0.0 || K < 1 then []
                 else Observations(SearchAll(Build(ps, 0), q, maxDistance, K, []))
  {
    var t := Build(ps, 0);
    if |ps| > 0 {
      BuildAxesCycle(ps, 0);
      AxesCycleRoutable(t, 0, |ps[0].features|, q);
    }
    if maxDistance > 0.0 && K >= 1 {
      BuildOrdered(ps, 0);
      PruningIsExact(t, q, maxDistance, K, []);
    }
  }
}
