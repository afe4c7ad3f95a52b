/** What the grouping contains: `K` observations, or all the in-range
    observations of the tree when there are at most `K` of them. */
module Coverage {
  import opened Observation
  import opened KDTree
  import opened Neighbours
  import opened Grouping

  /** The observations of a list within `maxDistance` of the query, in
      order: the reference the search is compared against. */
  function InRange(ps: seq<Obs>, q: Obs, maxDistance: real): (r: seq<Obs>)
    ensures |r| <= |ps|
  {
    if |ps| == 0 then []
    else
      (if WithinRadius(Distance(ps[0], q), maxDistance) then [ps[0]] else [])
        + InRange(ps[1..], q, maxDistance)
  }

  /** `InRange` keeps exactly the in-radius occurrences, each as often as
      it occurs in the input. */
  lemma {:induction false} InRangeCounts(ps: seq<Obs>, q: Obs, maxDistance: real, o: Obs)
    ensures multiset(InRange(ps, q, maxDistance))[o]
            == if WithinRadius(Distance(o, q), maxDistance) then multiset(ps)[o] else 0
    decreases |ps|
  {
    if ps != [] {
      InRangeCounts(ps[1..], q, maxDistance, o);
      assert ps == [ps[0]] + ps[1..];
    }
  }

  /** Equal multisets of observations have equal in-range multisets. */
  lemma InRangePermutation(ps: seq<Obs>, qs: seq<Obs>, q: Obs, maxDistance: real)
    requires multiset(ps) == multiset(qs)
    ensures multiset(InRange(ps, q, maxDistance)) == multiset(InRange(qs, q, maxDistance))
  {
    forall o
      ensures multiset(InRange(ps, q, maxDistance))[o] == multiset(InRange(qs, q, maxDistance))[o]
    {
      InRangeCounts(ps, q, maxDistance, o);
      InRangeCounts(qs, q, maxDistance, o);
    }
  }

  lemma {:induction false} InRangeConcat(a: seq<Obs>, b: seq<Obs>, q: Obs, maxDistance: real)
    ensures InRange(a + b, q, maxDistance) == InRange(a, q, maxDistance) + InRange(b, q, maxDistance)
    decreases |a|
  {
    if a == [] {
      assert a + b == b;
    } else {
      var head := if WithinRadius(Distance(a[0], q), maxDistance) then [a[0]] else [];
      assert (a + b)[0] == a[0] && (a + b)[1..] == a[1..] + b;
      calc {
        InRange(a + b, q, maxDistance);
        head + InRange(a[1..] + b, q, maxDistance);
        { InRangeConcat(a[1..], b, q, maxDistance); }
        head + (InRange(a[1..], q, maxDistance) + InRange(b, q, maxDistance));
        InRange(a, q, maxDistance) + InRange(b, q, maxDistance);
      }
    }
  }

  /** The in-range observations of a node: those of the left subtree, the
      pivot if it is in range, then those of the right subtree. */
  lemma InRangeNode(t: Tree, q: Obs, maxDistance: real)
    requires t.Node?
    ensures var inPivot := if WithinRadius(Distance(t.pivot, q), maxDistance) then [t.pivot] else [];
            InRange(Points(t), q, maxDistance)
              == InRange(Points(t.left), q, maxDistance) + inPivot + InRange(Points(t.right), q, maxDistance)
  {
    InRangeConcat(Points(t.left) + [t.pivot], Points(t.right), q, maxDistance);
    InRangeConcat(Points(t.left), [t.pivot], q, maxDistance);
    assert [t.pivot][1..] == [];
  }

  /** The in-range observations of a tree, gathered node by node: the
      tree-shaped form of `InRange(Points(t), ...)` (see `InRangeOfPoints`). */
  function InRangeOf(t: Tree, q: Obs, maxDistance: real): multiset<Obs>
  {
    match t
    case Nil => multiset{}
    case Node(p, _, l, r) =>
      InRangeOf(l, q, maxDistance) + PivotInRange(t, q, maxDistance) + InRangeOf(r, q, maxDistance)
  }

  /** The pivot of a node, if it lies within `maxDistance` of the query. */
  function PivotInRange(t: Tree, q: Obs, maxDistance: real): (m: multiset<Obs>)
    requires t.Node?
    ensures |m| <= 1
  {
    if WithinRadius(Distance(t.pivot, q), maxDistance) then multiset{t.pivot} else multiset{}
  }

  lemma {:induction false} InRangeOfPoints(t: Tree, q: Obs, maxDistance: real)
    ensures InRangeOf(t, q, maxDistance) == multiset(InRange(Points(t), q, maxDistance))
  {
    if t.Node? {
      InRangeOfPoints(t.left, q, maxDistance);
      InRangeOfPoints(t.right, q, maxDistance);
      InRangeNode(t, q, maxDistance);
    }
  }

  /** How many observations of the tree lie within `maxDistance`. */
  function CountInRange(t: Tree, q: Obs, maxDistance: real): nat
  {
    match t
    case Nil => 0
    case Node(p, _, l, r) =>
      CountInRange(l, q, maxDistance)
        + (if WithinRadius(Distance(p, q), maxDistance) then 1 else 0)
        + CountInRange(r, q, maxDistance)
  }

  lemma {:induction false} CountInRangeIsSize(t: Tree, q: Obs, maxDistance: real)
    ensures CountInRange(t, q, maxDistance) == |InRangeOf(t, q, maxDistance)|
  {
    if t.Node? {
      CountInRangeIsSize(t.left, q, maxDistance);
      CountInRangeIsSize(t.right, q, maxDistance);
    }
  }

  /** The chosen and the unchosen branch together hold the in-range
      observations of the two subtrees. */
  lemma BranchesPartition(t: Tree, q: Obs, maxDistance: real)
    requires t.Node? && Routable(t, q)
    ensures var b := Branches(t, q);
            && b.0 < t && b.1 < t
            && Routable(b.0, q) && Routable(b.1, q)
            && InRangeOf(t, q, maxDistance)
               == InRangeOf(b.0, q, maxDistance) + PivotInRange(t, q, maxDistance) + InRangeOf(b.1, q, maxDistance)
  {
  }

  lemma CappedSum(K: int, a: nat, w: nat, n0: nat, n1: nat, s1: int, s2: int, r: int, check: bool)
    requires a <= K
    requires s1 == Cap(K, a + w) && s2 == Cap(K, s1 + n0)
    requires check ==> r == Cap(K, s2 + n1)
    requires !check ==> K <= s2 && r == s2
    ensures r == Cap(K, a + w + n0 + n1)
  {
  }

  /** The list grows until it holds `K` entries or every in-range
      observation of the tree, whichever comes first. */
  lemma {:induction false} SearchSize(t: Tree, q: Obs, maxDistance: real, K: int, acc: seq<Entry>)
    requires Routable(t, q)
    requires |acc| < K || |acc| > 0
    requires |acc| <= K
    ensures |Search(t, q, maxDistance, K, acc)| == Cap(K, |acc| + CountInRange(t, q, maxDistance))
    decreases t, 3
  {
    if t.Node? {
      SearchSizeNode(t, q, maxDistance, K, acc);
    }
  }

  /** The chosen branch's share of `SearchSize`. */
  lemma {:induction false} ChosenSize(t: Tree, q: Obs, maxDistance: real, K: int, acc: seq<Entry>)
    requires t.Node? && Routable(t, q)
    requires |acc| < K || |acc| > 0
    requires |acc| <= K
    ensures var acc1 := Offer(acc, t.pivot, q, maxDistance, K);
            var b := Branches(t, q);
            && |acc1| <= K
            && |Search(b.0, q, maxDistance, K, acc1)| == Cap(K, |acc1| + CountInRange(b.0, q, maxDistance))
    decreases t, 0
  {
    var acc1 := Offer(acc, t.pivot, q, maxDistance, K);
    SearchSize(Branches(t, q).0, q, maxDistance, K, acc1);
  }

  /** The unchosen branch's share of `SearchSize`, when it is visited. */
  lemma {:induction false} UnchosenSize(t: Tree, q: Obs, maxDistance: real, K: int, acc: seq<Entry>)
    requires t.Node? && Routable(t, q)
    requires |acc| < K || |acc| > 0
    requires |acc| <= K
    ensures var b := Branches(t, q);
            var acc2 := Search(b.0, q, maxDistance, K, Offer(acc, t.pivot, q, maxDistance, K));
            ShouldCheck(t, q, acc2, K) ==>
              |Search(b.1, q, maxDistance, K, acc2)| == Cap(K, |acc2| + CountInRange(b.1, q, maxDistance))
    decreases t, 0
  {
    var b := Branches(t, q);
    var acc2 := Search(b.0, q, maxDistance, K, Offer(acc, t.pivot, q, maxDistance, K));
    if ShouldCheck(t, q, acc2, K) {
      SearchSize(b.1, q, maxDistance, K, acc2);
    }
  }

  /** The three steps of `SearchSize` at a node, chained. */
  lemma {:induction false} SizeSteps(t: Tree, q: Obs, maxDistance: real, K: int, acc: seq<Entry>)
    requires t.Node? && Routable(t, q)
    requires |acc| < K || |acc| > 0
    requires |acc| <= K
    ensures var b := Branches(t, q);
            var acc2 := Search(b.0, q, maxDistance, K, Offer(acc, t.pivot, q, maxDistance, K));
            var r := if ShouldCheck(t, q, acc2, K) then Search(b.1, q, maxDistance, K, acc2) else acc2;
            |r| == Cap(K, |acc| + CountInRange(t, q, maxDistance))
    decreases t, 1
  {
    var p := t.pivot;
    var acc1 := Offer(acc, p, q, maxDistance, K);
    var b := Branches(t, q);
    var acc2 := Search(b.0, q, maxDistance, K, acc1);
    var n0, n1 := CountInRange(b.0, q, maxDistance), CountInRange(b.1, q, maxDistance);
    var w := if WithinRadius(Distance(p, q), maxDistance) then 1 else 0;
    assert CountInRange(t, q, maxDistance) == w + n0 + n1;
    OfferSize(acc, p, q, maxDistance, K);
    ChosenSize(t, q, maxDistance, K, acc);
    var check := ShouldCheck(t, q, acc2, K);
    var r := if check then Search(b.1, q, maxDistance, K, acc2) else acc2;
    UnchosenSize(t, q, maxDistance, K, acc);
    CappedSum(K, |acc|, w, n0, n1, |acc1|, |acc2|, |r|, check);
  }

  /** The node case of `SearchSize`. */
  lemma {:induction false} SearchSizeNode(t: Tree, q: Obs, maxDistance: real, K: int, acc: seq<Entry>)
    requires t.Node? && Routable(t, q)
    requires |acc| < K || |acc| > 0
    requires |acc| <= K
    ensures |Search(t, q, maxDistance, K, acc)| == Cap(K, |acc| + CountInRange(t, q, maxDistance))
    decreases t, 2
  {
    SizeSteps(t, q, maxDistance, K, acc);
    SearchNode(t, q, maxDistance, K, acc);
  }

  /** The grouping holds `K` observations, or every in-range one when
      there are fewer. */
  lemma GroupingSize(t: Tree, q: Obs, maxDistance: real, K: int)
    requires Routable(t, q) && maxDistance > 0.0 && K >= 1
    ensures |CreateGrouping(t, q, maxDistance, K)| == Cap(K, |InRange(Points(t), q, maxDistance)|)
  {
    var inRange := InRange(Points(t), q, maxDistance);
    assert CountInRange(t, q, maxDistance) == |inRange| by {
      CountInRangeIsSize(t, q, maxDistance);
      InRangeOfPoints(t, q, maxDistance);
      assert |multiset(inRange)| == |inRange|;
    }
    SearchSize(t, q, maxDistance, K, []);
  }

  /** `r` is the ascending list `acc` extended by exactly the observations
      `added`. */
  predicate Collected(r: seq<Entry>, acc: seq<Entry>, added: multiset<Obs>)
  {
    && |r| == |acc| + |added|
    && Ascending(r)
    && multiset(Observations(r)) == multiset(Observations(acc)) + added
  }

  /** Extending twice extends by both parts. */
  lemma CollectedChain(a2: seq<Entry>, a1: seq<Entry>, a0: seq<Entry>, m1: multiset<Obs>, m0: multiset<Obs>)
    requires Collected(a1, a0, m0) && Collected(a2, a1, m1)
    ensures Collected(a2, a0, m0 + m1)
  {
  }

  /** With room for every in-range observation, nothing is pruned that
      matters and nothing is evicted: the search adds exactly the tree's
      in-range observations to the list, and keeps it ascending. */
  lemma {:induction false} SearchCollectsAll(t: Tree, q: Obs, maxDistance: real, K: int, acc: seq<Entry>)
    requires Routable(t, q)
    requires |acc| < K || |acc| > 0
    requires Ascending(acc)
    requires |acc| + |InRangeOf(t, q, maxDistance)| <= K
    ensures Collected(Search(t, q, maxDistance, K, acc), acc, InRangeOf(t, q, maxDistance))
    decreases t, 4
  {
    if t.Node? {
      CollectsNode(t, q, maxDistance, K, acc);
    }
  }

  /** The pivot and the chosen branch's share of `SearchCollectsAll`. */
  lemma {:induction false} CollectsChosen(t: Tree, q: Obs, maxDistance: real, K: int, acc: seq<Entry>)
    requires t.Node? && Routable(t, q)
    requires |acc| < K || |acc| > 0
    requires Ascending(acc)
    requires |acc| + |InRangeOf(t, q, maxDistance)| <= K
    ensures var acc1 := Offer(acc, t.pivot, q, maxDistance, K);
            var b := Branches(t, q);
            && Collected(acc1, acc, PivotInRange(t, q, maxDistance))
            && Collected(Search(b.0, q, maxDistance, K, acc1), acc1, InRangeOf(b.0, q, maxDistance))
    decreases t, 0
  {
    BranchesPartition(t, q, maxDistance);
    OfferUnderCapacity(acc, t.pivot, q, maxDistance, K);
    SearchCollectsAll(Branches(t, q).0, q, maxDistance, K, Offer(acc, t.pivot, q, maxDistance, K));
  }

  /** The unchosen branch's share of `SearchCollectsAll`: when it is
      skipped, it holds nothing in range. */
  lemma {:induction false} CollectsUnchosen(t: Tree, q: Obs, maxDistance: real, K: int, acc: seq<Entry>)
    requires t.Node? && Routable(t, q)
    requires |acc| < K || |acc| > 0
    requires Ascending(acc)
    requires |acc| + |InRangeOf(t, q, maxDistance)| <= K
    ensures var b := Branches(t, q);
            var acc2 := Search(b.0, q, maxDistance, K, Offer(acc, t.pivot, q, maxDistance, K));
            var r := if ShouldCheck(t, q, acc2, K) then Search(b.1, q, maxDistance, K, acc2) else acc2;
            Collected(r, acc2, InRangeOf(b.1, q, maxDistance))
    decreases t, 1
  {
    var b := Branches(t, q);
    var acc2 := Search(b.0, q, maxDistance, K, Offer(acc, t.pivot, q, maxDistance, K));
    CollectsChosen(t, q, maxDistance, K, acc);
    BranchesPartition(t, q, maxDistance);
    if ShouldCheck(t, q, acc2, K) {
      SearchCollectsAll(b.1, q, maxDistance, K, acc2);
    } else {
      assert |InRangeOf(b.1, q, maxDistance)| == 0;
    }
  }

  /** The three steps of `SearchCollectsAll` at a node, chained. */
  lemma {:induction false} CollectsSteps(t: Tree, q: Obs, maxDistance: real, K: int, acc: seq<Entry>)
    requires t.Node? && Routable(t, q)
    requires |acc| < K || |acc| > 0
    requires Ascending(acc)
    requires |acc| + |InRangeOf(t, q, maxDistance)| <= K
    ensures var b := Branches(t, q);
            var acc2 := Search(b.0, q, maxDistance, K, Offer(acc, t.pivot, q, maxDistance, K));
            var r := if ShouldCheck(t, q, acc2, K) then Search(b.1, q, maxDistance, K, acc2) else acc2;
            Collected(r, acc, PivotInRange(t, q, maxDistance) + InRangeOf(b.0, q, maxDistance) + InRangeOf(b.1, q, maxDistance))
    decreases t, 2
  {
    var acc1 := Offer(acc, t.pivot, q, maxDistance, K);
    var b := Branches(t, q);
    var acc2 := Search(b.0, q, maxDistance, K, acc1);
    var r := if ShouldCheck(t, q, acc2, K) then Search(b.1, q, maxDistance, K, acc2) else acc2;
    var mp, m0, m1 := PivotInRange(t, q, maxDistance), InRangeOf(b.0, q, maxDistance), InRangeOf(b.1, q, maxDistance);
    CollectsChosen(t, q, maxDistance, K, acc);
    CollectsUnchosen(t, q, maxDistance, K, acc);
    CollectedChain(acc2, acc1, acc, m0, mp);
    CollectedChain(r, acc2, acc, m1, mp + m0);
  }

  /** The node case of `SearchCollectsAll`. */
  lemma {:induction false} CollectsNode(t: Tree, q: Obs, maxDistance: real, K: int, acc: seq<Entry>)
    requires t.Node? && Routable(t, q)
    requires |acc| < K || |acc| > 0
    requires Ascending(acc)
    requires |acc| + |InRangeOf(t, q, maxDistance)| <= K
    ensures Collected(Search(t, q, maxDistance, K, acc), acc, InRangeOf(t, q, maxDistance))
    decreases t, 3
  {
    var acc1 := Offer(acc, t.pivot, q, maxDistance, K);
    var b := Branches(t, q);
    var acc2 := Search(b.0, q, maxDistance, K, acc1);
    var r := if ShouldCheck(t, q, acc2, K) then Search(b.1, q, maxDistance, K, acc2) else acc2;
    assert InRangeOf(t, q, maxDistance)
           == PivotInRange(t, q, maxDistance) + InRangeOf(b.0, q, maxDistance) + InRangeOf(b.1, q, maxDistance) by {
      BranchesPartition(t, q, maxDistance);
    }
    SearchNode(t, q, maxDistance, K, acc);
    CollectsSteps(t, q, maxDistance, K, acc);
  }

  /** When at most `K` observations are in range, the grouping holds each
      of them exactly as often as the tree does, and nothing else. */
  lemma GroupingComplete(t: Tree, q: Obs, maxDistance: real, K: int)
    requires Routable(t, q) && maxDistance > 0.0 && K >= 1
    requires |InRange(Points(t), q, maxDistance)| <= K
    ensures multiset(CreateGrouping(t, q, maxDistance, K)) == multiset(InRange(Points(t), q, maxDistance))
  {
    InRangeOfPoints(t, q, maxDistance);
    SearchCollectsAll(t, q, maxDistance, K, []);
    assert Observations([]) == [];
  }

  /** End to end: a tree built from `ps` answers a query with at least as
      many features as the observations; when at most `K` of them are in
      range, it returns exactly those, and otherwise `K` of them. */
  lemma GroupingOfBuiltTree(ps: seq<Obs>, q: Obs, maxDistance: real, K: int)
    requires WellDimensioned(ps) && (|ps| > 0 ==> |ps[0].features| <= |q.features|)
    requires maxDistance > 0.0 && K >= 1
    ensures Routable(Build(ps, 0), q)
    ensures |CreateGrouping(Build(ps, 0), q, maxDistance, K)| == Cap(K, |InRange(ps, q, maxDistance)|)
    ensures |InRange(ps, q, maxDistance)| <= K ==>
              multiset(CreateGrouping(Build(ps, 0), q, maxDistance, K)) == multiset(InRange(ps, q, maxDistance))
  {
    var t := Build(ps, 0);
    if |ps| > 0 {
      BuildAxesCycle(ps, 0);
      AxesCycleRoutable(t, 0, |ps[0].features|, q);
    }
    InRangePermutation(Points(t), ps, q, maxDistance);
    assert |InRange(Points(t), q, maxDistance)| == |InRange(ps, q, maxDistance)| by {
      assert |multiset(InRange(Points(t), q, maxDistance))| == |multiset(InRange(ps, q, maxDistance))|;
    }
    GroupingSize(t, q, maxDistance, K);
    if |InRange(ps, q, maxDistance)| <= K {
      GroupingComplete(t, q, maxDistance, K);
    }
  }

  /** Four observations on one axis, at 3, 2, 1 and 1.5, and a query at 0;
      the labels are arbitrary. */
  predicate SkewPoints(a: Obs, b: Obs, c: Obs, d: Obs, q: Obs)
  {
    a.features == [3.0] && b.features == [2.0] && c.features == [1.0] && d.features == [1.5]
    && q.features == [0.0]
  }

  /** An axis-ordered tree of those points: `a` at the root, `b` to its
      left, `c` to the left of that, and `d` to the right of `c`. */
  function SkewTree(a: Obs, b: Obs, c: Obs, d: Obs): Tree
  {
    Node(a, 0, Node(b, 0, Node(c, 0, Nil, Node(d, 0, Nil, Nil)), Nil), Nil)
  }

  /** Every subtree of `SkewTree` routes the query. */
  lemma SkewShape(a: Obs, b: Obs, c: Obs, d: Obs, q: Obs)
    requires SkewPoints(a, b, c, d, q)
    ensures Routable(Node(d, 0, Nil, Nil), q)
    ensures Routable(Node(c, 0, Nil, Node(d, 0, Nil, Nil)), q)
    ensures Routable(Node(b, 0, Node(c, 0, Nil, Node(d, 0, Nil, Nil)), Nil), q)
    ensures Routable(SkewTree(a, b, c, d), q)
  {
    var t3 := Node(d, 0, Nil, Nil);
    var t2 := Node(c, 0, Nil, t3);
    assert Routable(t3, q);
    assert Routable(t2, q);
  }

  /** The points of `SkewTree`, subtree by subtree. */
  lemma SkewPointsInOrder(a: Obs, b: Obs, c: Obs, d: Obs)
    ensures Points(Node(d, 0, Nil, Nil)) == [d]
    ensures Points(Node(c, 0, Nil, Node(d, 0, Nil, Nil))) == [c, d]
    ensures Points(Node(b, 0, Node(c, 0, Nil, Node(d, 0, Nil, Nil)), Nil)) == [c, d, b]
    ensures Points(SkewTree(a, b, c, d)) == [c, d, b, a]
  {
    var t3 := Node(d, 0, Nil, Nil);
    var t2 := Node(c, 0, Nil, t3);
    var t1 := Node(b, 0, t2, Nil);
    assert Points(t3) == [d];
    assert Points(t2) == [c, d];
    assert Points(t1) == [c, d, b];
  }

  /** The subtree of `c` and `d` is axis-ordered. */
  lemma SkewOrderedLow(c: Obs, d: Obs)
    requires c.features == [1.0] && d.features == [1.5]
    ensures Ordered(Node(c, 0, Nil, Node(d, 0, Nil, Nil)))
  {
    assert Elems(Node(d, 0, Nil, Nil)) == multiset{d} by {
      assert Points(Node(d, 0, Nil, Nil)) == [d];
    }
  }

  /** `SkewTree` is axis-ordered. */
  lemma SkewOrdered(a: Obs, b: Obs, c: Obs, d: Obs, q: Obs)
    requires SkewPoints(a, b, c, d, q)
    ensures Ordered(SkewTree(a, b, c, d))
  {
    var t2 := Node(c, 0, Nil, Node(d, 0, Nil, Nil));
    var t1 := Node(b, 0, t2, Nil);
    SkewPointsInOrder(a, b, c, d);
    SkewOrderedLow(c, d);
    assert Ordered(t1) by {
      assert Elems(t2) == multiset{c, d};
    }
    assert Elems(t1) == multiset{c, d, b};
  }

  /** All four points of `SkewTree` lie within 10 of the query. */
  lemma SkewInRange(a: Obs, b: Obs, c: Obs, d: Obs, q: Obs)
    requires SkewPoints(a, b, c, d, q)
    ensures InRange([c, d, b, a], q, 10.0) == [c, d, b, a]
  {
    SkewDistances(a, b, c, d, q);
    assert [c, d, b, a][1..] == [d, b, a];
    assert [d, b, a][1..] == [b, a];
    assert [b, a][1..] == [a];
    assert InRange([a], q, 10.0) == [a];
    assert InRange([b, a], q, 10.0) == [b, a];
    assert InRange([d, b, a], q, 10.0) == [d, b, a];
  }

  lemma SkewDistances(a: Obs, b: Obs, c: Obs, d: Obs, q: Obs)
    requires SkewPoints(a, b, c, d, q)
    ensures Distance(a, q) == 9.0 && Distance(b, q) == 4.0
    ensures Distance(c, q) == 1.0 && Distance(d, q) == 2.25
    ensures Distance(q, c) == 1.0
  {
    assert SqDist([3.0], [0.0]) == 9.0;
    assert SqDist([2.0], [0.0]) == 4.0;
    assert SqDist([1.0], [0.0]) == 1.0;
    assert SqDist([1.5], [0.0]) == 2.25;
    assert SqDist([0.0], [1.0]) == 1.0;
  }

  /** At `d` the list is full and index 0 holds the distance of `c`, which
      is closer than `d`: `d` is not kept. */
  lemma SkewLeaf(a: Obs, b: Obs, c: Obs, d: Obs, q: Obs)
    requires SkewPoints(a, b, c, d, q)
    ensures Routable(Node(d, 0, Nil, Nil), q)
    ensures var full := [Entry(-1.0, c), Entry(-4.0, b)];
            Search(Node(d, 0, Nil, Nil), q, 10.0, 2, full) == full
  {
    SkewShape(a, b, c, d, q);
    SkewDistances(a, b, c, d, q);
    var full := [Entry(-1.0, c), Entry(-4.0, b)];
    SearchNode(Node(d, 0, Nil, Nil), q, 10.0, 2, full);
    assert Offer(full, d, q, 10.0, 2) == full;
  }

  /** At `c` the list `[a, b]` is full; `c` overwrites index 0, and `d`, in
      the branch not chosen, is still visited. */
  lemma SkewOne(a: Obs, b: Obs, c: Obs, d: Obs, q: Obs)
    requires SkewPoints(a, b, c, d, q)
    ensures Routable(Node(c, 0, Nil, Node(d, 0, Nil, Nil)), q)
    ensures Search(Node(c, 0, Nil, Node(d, 0, Nil, Nil)), q, 10.0, 2, [Entry(-9.0, a), Entry(-4.0, b)])
            == [Entry(-1.0, c), Entry(-4.0, b)]
  {
    SkewShape(a, b, c, d, q);
    SkewDistances(a, b, c, d, q);
    var t := Node(c, 0, Nil, Node(d, 0, Nil, Nil));
    var acc := [Entry(-9.0, a), Entry(-4.0, b)];
    SearchNode(t, q, 10.0, 2, acc);
    var acc1 := Offer(acc, c, q, 10.0, 2);
    assert acc1 == [Entry(-1.0, c), Entry(-4.0, b)];
    assert Branches(t, q) == (Nil, t.right);
    assert ShouldCheck(t, q, acc1, 2);
    SkewLeaf(a, b, c, d, q);
  }

  /** Inserting `b` into `[a]`, where there is room, puts it after `a`. */
  lemma SkewInsert(a: Obs, b: Obs, c: Obs, d: Obs, q: Obs)
    requires SkewPoints(a, b, c, d, q)
    ensures Offer([Entry(-9.0, a)], b, q, 10.0, 2) == [Entry(-9.0, a), Entry(-4.0, b)]
  {
    SkewDistances(a, b, c, d, q);
    var acc := [Entry(-9.0, a)];
    var x := Entry(-4.0, b);
    assert BisectRight(acc, x, 0, 1) == 1 by {
      assert !EntryLess(x, acc[0]);
      assert BisectRight(acc, x, 1, 1) == 1;
    }
    assert acc[..1] + [x] + acc[1..] == [Entry(-9.0, a), Entry(-4.0, b)];
  }

  /** At `b` there is room: `b` goes after `a`, then the chosen branch. */
  lemma SkewTwo(a: Obs, b: Obs, c: Obs, d: Obs, q: Obs)
    requires SkewPoints(a, b, c, d, q)
    ensures Routable(Node(b, 0, Node(c, 0, Nil, Node(d, 0, Nil, Nil)), Nil), q)
    ensures Search(Node(b, 0, Node(c, 0, Nil, Node(d, 0, Nil, Nil)), Nil), q, 10.0, 2, [Entry(-9.0, a)])
            == [Entry(-1.0, c), Entry(-4.0, b)]
  {
    SkewShape(a, b, c, d, q);
    SkewDistances(a, b, c, d, q);
    var t := Node(b, 0, Node(c, 0, Nil, Node(d, 0, Nil, Nil)), Nil);
    var acc := [Entry(-9.0, a)];
    SearchNode(t, q, 10.0, 2, acc);
    SkewInsert(a, b, c, d, q);
    assert Branches(t, q) == (t.left, Nil);
    SkewOne(a, b, c, d, q);
    assert !ShouldCheck(t, q, [Entry(-1.0, c), Entry(-4.0, b)], 2);
  }

  /** The whole descent of `SkewTree`: it ends with `c` and `b`. */
  lemma SkewSearch(a: Obs, b: Obs, c: Obs, d: Obs, q: Obs)
    requires SkewPoints(a, b, c, d, q)
    ensures Routable(SkewTree(a, b, c, d), q)
    ensures Search(SkewTree(a, b, c, d), q, 10.0, 2, []) == [Entry(-1.0, c), Entry(-4.0, b)]
  {
    SkewShape(a, b, c, d, q);
    SkewDistances(a, b, c, d, q);
    var t := SkewTree(a, b, c, d);
    SearchNode(t, q, 10.0, 2, []);
    assert Offer([], a, q, 10.0, 2) == [Entry(-9.0, a)];
    assert Branches(t, q) == (t.left, Nil);
    SkewTwo(a, b, c, d, q);
    assert !ShouldCheck(t, q, [Entry(-1.0, c), Entry(-4.0, b)], 2);
  }

  /** The grouping of `SkewTree`: `c`, then `b`. */
  lemma SkewGrouping(a: Obs, b: Obs, c: Obs, d: Obs, q: Obs)
    requires SkewPoints(a, b, c, d, q)
    ensures Routable(SkewTree(a, b, c, d), q)
    ensures CreateGrouping(SkewTree(a, b, c, d), q, 10.0, 2) == [c, b]
  {
    SkewSearch(a, b, c, d, q);
    assert Observations([Entry(-1.0, c), Entry(-4.0, b)]) == [c, b];
  }

  /** The grouping need not hold the `K` closest points in range. On the
      axis-ordered `SkewTree`, with the query at 0 and room for two, all
      four points are in range and `d` (at 1.5) is closer than `b` (at 2),
      yet the grouping is `c` and `b`: once `c` overwrites index 0 the list
      is not re-sorted, so `d` is compared with `c` and rejected. */
  lemma GroupingNotClosest(a: Obs, b: Obs, c: Obs, d: Obs, q: Obs)
    requires SkewPoints(a, b, c, d, q)
    ensures Routable(SkewTree(a, b, c, d), q) && Ordered(SkewTree(a, b, c, d))
    ensures |InRange(Points(SkewTree(a, b, c, d)), q, 10.0)| == 4
    ensures CreateGrouping(SkewTree(a, b, c, d), q, 10.0, 2) == [c, b]
    ensures d in Elems(SkewTree(a, b, c, d))
    ensures Distance(d, q) < Distance(b, q)
  {
    SkewShape(a, b, c, d, q);
    SkewOrdered(a, b, c, d, q);
    SkewPointsInOrder(a, b, c, d);
    SkewInRange(a, b, c, d, q);
    SkewDistances(a, b, c, d, q);
    SkewGrouping(a, b, c, d, q);
    assert d in multiset([c, d, b, a]);
  }
}
