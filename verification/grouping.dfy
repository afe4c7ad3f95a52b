/** The bounded neighbour search of `KDTree.create_grouping`: a
    branch-and-bound descent that keeps at most `K` entries. */
module Grouping {
  import opened Observation
  import opened KDTree
  import opened Neighbours

  /** The first step of `KDTree._create_grouping` at a node: the pivot is
      offered to the list when it lies within `maxDistance` of the query. */
  function Offer(acc: seq<Entry>, p: Obs, q: Obs, maxDistance: real, K: int): (r: seq<Entry>)
    requires |acc| < K || |acc| > 0
    ensures |r| >= |acc| && (|acc| <= K ==> |r| <= K)
  {
    var d2 := Distance(p, q);
    if WithinRadius(d2, maxDistance) then AddNearest(acc, d2, p, K) else acc
  }

  /** `n`, but at most `K`. */
  function Cap(K: int, n: int): int
  {
    if n <= K then n else K
  }

  /** Offering grows the list by the in-range pivot, up to `K`. */
  lemma OfferSize(acc: seq<Entry>, p: Obs, q: Obs, maxDistance: real, K: int)
    requires |acc| < K || |acc| > 0
    requires |acc| <= K
    ensures |Offer(acc, p, q, maxDistance, K)|
            == Cap(K, |acc| + if WithinRadius(Distance(p, q), maxDistance) then 1 else 0)
  {
  }

  /** Offering keeps every key the negated distance of its observation. */
  lemma OfferConsistent(acc: seq<Entry>, p: Obs, q: Obs, maxDistance: real, K: int)
    requires |acc| < K || |acc| > 0
    requires Consistent(acc, q)
    ensures Consistent(Offer(acc, p, q, maxDistance, K), q)
  {
    AddNearestMembers(acc, Distance(p, q), p, K);
  }

  /** Offering an observation while there is room: it is kept, in order,
      exactly when it is in range. */
  lemma OfferUnderCapacity(acc: seq<Entry>, o: Obs, q: Obs, maxDistance: real, K: int)
    requires |acc| < K || |acc| > 0
    requires Ascending(acc)
    requires WithinRadius(Distance(o, q), maxDistance) ==> |acc| < K
    ensures var acc1 := Offer(acc, o, q, maxDistance, K);
            var kept := if WithinRadius(Distance(o, q), maxDistance) then [o] else [];
            && |acc1| == |acc| + |kept|
            && Ascending(acc1)
            && multiset(Observations(acc1)) == multiset(Observations(acc)) + multiset(kept)
  {
    AddNearestObservations(acc, Distance(o, q), o, K);
    if WithinRadius(Distance(o, q), maxDistance) {
      AddNearestAscending(acc, Distance(o, q), o, K);
    }
  }

  /** The node's split coordinate exists on the pivot and on the query. */
  predicate Routable(t: Tree, q: Obs)
  {
    match t
    case Nil => true
    case Node(p, a, l, r) =>
      a < |p.features| && a < |q.features| && Routable(l, q) && Routable(r, q)
  }

  /** A tree whose axes cycle through `dim` dimensions can route any query
      with at least `dim` features. */
  lemma {:induction false} AxesCycleRoutable(t: Tree, axis: nat, dim: nat, q: Obs)
    requires AxesCycle(t, axis, dim) && axis < dim && dim <= |q.features|
    ensures Routable(t, q)
  {
    if t.Node? {
      assert NextAxis(axis, dim) < dim;
      AxesCycleRoutable(t.left, NextAxis(axis, dim), dim, q);
      AxesCycleRoutable(t.right, NextAxis(axis, dim), dim, q);
    }
  }

  /** `KDTree._get_chosen_and_unchosen_branches`. */
  function Branches(t: Tree, q: Obs): (b: (Tree, Tree))
    requires t.Node? && t.axis < |t.pivot.features| && t.axis < |q.features|
    ensures q.features[t.axis] < t.pivot.features[t.axis] ==> b == (t.left, t.right)
    ensures q.features[t.axis] >= t.pivot.features[t.axis] ==> b == (t.right, t.left)
  {
    if q.features[t.axis] < t.pivot.features[t.axis] then (t.left, t.right)
    else (t.right, t.left)
  }

  /** `KDTree._should_check_unchosen_branch`, with the distance to the
      splitting plane and to the entry at index 0 both squared. */
  function ShouldCheck(t: Tree, q: Obs, acc: seq<Entry>, K: int): (b: bool)
    requires t.Node? && t.axis < |t.pivot.features| && t.axis < |q.features|
    requires |acc| < K || |acc| > 0
    ensures |acc| < K ==> b
    ensures |acc| >= K ==>
              (b <==> Square(q.features[t.axis] - t.pivot.features[t.axis])
                      <= Distance(q, acc[0].obs))
  {
    if |acc| < K then true
    else
      Square(q.features[t.axis] - t.pivot.features[t.axis])
        <= Distance(q, acc[0].obs)
  }

  /** The pruning test on squares agrees with `KDTree.py`'s
      `abs(gap) <= distance` on roots. */
  lemma PlaneTestMatchesRoot(gap: real, s: real, d2: real)
    requires s >= 0.0 && Square(s) == d2
    ensures (if gap < 0.0 then -gap else gap) <= s <==> Square(gap) <= d2
  {
    var g := if gap < 0.0 then -gap else gap;
    SquareNegate(gap);
    assert Square(g) == Square(gap);
    SquaringPreservesOrder(g, s);
  }

  /** `KDTree._create_grouping`, with the accumulator threaded through
      explicitly: an empty subtree leaves the list as it is. */
  function Search(t: Tree, q: Obs, maxDistance: real, K: int, acc: seq<Entry>): (r: seq<Entry>)
    requires Routable(t, q)
    requires |acc| < K || |acc| > 0
    ensures |r| >= |acc|
    ensures |acc| <= K ==> |r| <= K
    decreases t, 1
  {
    if t.Nil? then acc else Visit(t, q, maxDistance, K, acc)
  }

  /** The visit of a node: offer the pivot, descend into the chosen
      branch, then into the other one unless it is pruned. */
  function Visit(t: Tree, q: Obs, maxDistance: real, K: int, acc: seq<Entry>): (r: seq<Entry>)
    requires t.Node? && Routable(t, q)
    requires |acc| < K || |acc| > 0
    ensures |r| >= |acc|
    ensures |acc| <= K ==> |r| <= K
    decreases t, 0
  {
    var acc1 := Offer(acc, t.pivot, q, maxDistance, K);
    var b := Branches(t, q);
    var acc2 := Search(b.0, q, maxDistance, K, acc1);
    if ShouldCheck(t, q, acc2, K) then Search(b.1, q, maxDistance, K, acc2) else acc2
  }

  /** One step of `Search` at a node. */
  lemma SearchNode(t: Tree, q: Obs, maxDistance: real, K: int, acc: seq<Entry>)
    requires t.Node? && Routable(t, q)
    requires |acc| < K || |acc| > 0
    ensures var b := Branches(t, q);
            var acc2 := Search(b.0, q, maxDistance, K, Offer(acc, t.pivot, q, maxDistance, K));
            Search(t, q, maxDistance, K, acc)
              == if ShouldCheck(t, q, acc2, K) then Search(b.1, q, maxDistance, K, acc2) else acc2
  {
    assert Search(t, q, maxDistance, K, acc) == Visit(t, q, maxDistance, K, acc);
  }

  /** Every entry's key is the negated squared distance of its observation
      to the query, as computed when it was offered. */
  predicate Consistent(s: seq<Entry>, q: Obs)
  {
    forall e :: e in s ==> e.negDist == -Distance(e.obs, q)
  }

  /** Every entry lies within `maxDistance` of the query. */
  predicate AllWithin(s: seq<Entry>, q: Obs, maxDistance: real)
  {
    forall e :: e in s ==> WithinRadius(Distance(e.obs, q), maxDistance)
  }

  /** The search keeps the two entry invariants: every key is the negated
      squared distance of its observation to the query, and every kept
      observation lies within `maxDistance` of it. */
  lemma {:induction false} SearchKeepsInvariants(t: Tree, q: Obs, maxDistance: real, K: int, acc: seq<Entry>)
    requires Routable(t, q)
    requires |acc| < K || |acc| > 0
    ensures Consistent(acc, q) ==> Consistent(Search(t, q, maxDistance, K, acc), q)
    ensures AllWithin(acc, q, maxDistance) ==> AllWithin(Search(t, q, maxDistance, K, acc), q, maxDistance)
    decreases t
  {
    if t.Node? {
      var p := t.pivot;
      SearchNode(t, q, maxDistance, K, acc);
      AddNearestMembers(acc, Distance(p, q), p, K);
      var acc1 := Offer(acc, p, q, maxDistance, K);
      var b := Branches(t, q);
      SearchKeepsInvariants(b.0, q, maxDistance, K, acc1);
      var acc2 := Search(b.0, q, maxDistance, K, acc1);
      if ShouldCheck(t, q, acc2, K) {
        SearchKeepsInvariants(b.1, q, maxDistance, K, acc2);
      }
    }
  }

  /** A node's observations: the left subtree's, the pivot, the right
      subtree's; the two branches together hold the two subtrees'. */
  lemma ElemsNode(t: Tree, q: Obs)
    requires t.Node? && Routable(t, q)
    ensures Elems(t) == Elems(t.left) + multiset{t.pivot} + Elems(t.right)
    ensures Elems(Branches(t, q).0) + Elems(Branches(t, q).1) == Elems(t.left) + Elems(t.right)
  {
    assert Points(t) == Points(t.left) + [t.pivot] + Points(t.right);
  }

  /** The search only ever keeps observations of the tree, each at most as
      often as it occurs there, besides those it started with. */
  lemma {:induction false} SearchObservations(t: Tree, q: Obs, maxDistance: real, K: int, acc: seq<Entry>)
    requires Routable(t, q)
    requires |acc| < K || |acc| > 0
    ensures multiset(Observations(Search(t, q, maxDistance, K, acc)))
              <= multiset(Observations(acc)) + Elems(t)
    decreases t
  {
    if t.Node? {
      var p := t.pivot;
      SearchNode(t, q, maxDistance, K, acc);
      AddNearestObservations(acc, Distance(p, q), p, K);
      var acc1 := Offer(acc, p, q, maxDistance, K);
      var b := Branches(t, q);
      SearchObservations(b.0, q, maxDistance, K, acc1);
      var acc2 := Search(b.0, q, maxDistance, K, acc1);
      var r := if ShouldCheck(t, q, acc2, K) then Search(b.1, q, maxDistance, K, acc2) else acc2;
      if ShouldCheck(t, q, acc2, K) {
        SearchObservations(b.1, q, maxDistance, K, acc2);
      }
      ElemsNode(t, q);
      SubMultisetChain(multiset(Observations(acc)), multiset(Observations(acc1)),
                       multiset(Observations(acc2)), multiset(Observations(r)),
                       p, Elems(b.0), Elems(b.1), Elems(t.left), Elems(t.right));
    }
  }

  lemma SubMultisetChain<T>(m0: multiset<T>, m1: multiset<T>, m2: multiset<T>, m3: multiset<T>,
                            p: T, e0: multiset<T>, e1: multiset<T>, el: multiset<T>, er: multiset<T>)
    requires m1 <= m0 + multiset{p} && m2 <= m1 + e0 && m3 <= m2 + e1
    requires e0 + e1 == el + er
    ensures m3 <= m0 + (el + multiset{p} + er)
  {
    forall x
      ensures m3[x] <= (m0 + (el + multiset{p} + er))[x]
    {
      assert m3[x] <= m2[x] + e1[x] <= m1[x] + e0[x] + e1[x];
      assert m1[x] <= m0[x] + multiset{p}[x];
      assert (e0 + e1)[x] == (el + er)[x];
    }
  }

  /** `KDTree.create_grouping`: nothing for a non-positive radius or a
      capacity below one; otherwise the observations of the list the
      search builds from an empty one, in the list's order. */
  function CreateGrouping(t: Tree, q: Obs, maxDistance: real, K: int): (g: seq<Obs>)
    requires Routable(t, q)
    ensures maxDistance <= 0.0 || K < 1 ==> g == []
    ensures K >= 1 ==> |g| <= K
  {
    if maxDistance <= 0.0 || K < 1 then []
    else Observations(Search(t, q, maxDistance, K, []))
  }

  /** Every observation of the grouping lies within `maxDistance` of the
      query. */
  lemma GroupingWithinRadius(t: Tree, q: Obs, maxDistance: real, K: int)
    requires Routable(t, q)
    ensures forall o :: o in CreateGrouping(t, q, maxDistance, K) ==>
              WithinRadius(Distance(o, q), maxDistance)
  {
    if maxDistance > 0.0 && K >= 1 {
      var r := Search(t, q, maxDistance, K, []);
      SearchKeepsInvariants(t, q, maxDistance, K, []);
      assert forall i :: 0 <= i < |r| ==> r[i] in r;
    }
  }

  /** The grouping holds only observations of the tree, each at most as
      often as the tree holds it. */
  lemma GroupingFromTree(t: Tree, q: Obs, maxDistance: real, K: int)
    requires Routable(t, q)
    ensures multiset(CreateGrouping(t, q, maxDistance, K)) <= Elems(t)
  {
    if maxDistance > 0.0 && K >= 1 {
      SearchObservations(t, q, maxDistance, K, []);
      assert Observations([]) == [];
    }
  }
}
