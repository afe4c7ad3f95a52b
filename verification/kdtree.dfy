/** The k-d tree and its construction by recursive median split
    (`KDTree.build`). */
module KDTree {
  import opened Observation

  /** A tree node holds its pivot observation and the axis it splits on;
      an absent subtree (`None` in `KDTree.py`) is `Nil`. */
  datatype Tree = Nil | Node(pivot: Obs, axis: nat, left: Tree, right: Tree)

  /** The observations held by a tree, in order (left, pivot, right). */
  function Points(t: Tree): seq<Obs>
  {
    match t
    case Nil => []
    case Node(p, _, l, r) => Points(l) + [p] + Points(r)
  }

  function Elems(t: Tree): multiset<Obs>
  {
    multiset(Points(t))
  }

  function Size(t: Tree): nat
  {
    |Points(t)|
  }

  /** The sort key of `o` on `axis` (the coordinate, when it exists). */
  function Key(o: Obs, axis: nat): real
  {
    if axis < |o.features| then o.features[axis] else 0.0
  }

  /** `ps` is sorted ascending by its key on `axis`. */
  predicate SortedOn(ps: seq<Obs>, axis: nat)
  {
    forall i, j :: 0 <= i < j < |ps| ==> Key(ps[i], axis) <= Key(ps[j], axis)
  }

  /** Inserts `o` in front of the first element whose key is not smaller,
      so that it stays before the equal keys that followed it in the input. */
  function InsertOn(o: Obs, ps: seq<Obs>, axis: nat): (r: seq<Obs>)
    ensures |r| == |ps| + 1
    ensures multiset(r) == multiset(ps) + multiset{o}
  {
    if ps == [] || Key(o, axis) <= Key(ps[0], axis) then [o] + ps
    else
      assert ps == [ps[0]] + ps[1..];
      [ps[0]] + InsertOn(o, ps[1..], axis)
  }

  lemma {:induction false} InsertOnSorted(o: Obs, ps: seq<Obs>, axis: nat)
    requires SortedOn(ps, axis)
    ensures SortedOn(InsertOn(o, ps, axis), axis)
    ensures ps != [] ==> InsertOn(o, ps, axis)[0] in {o, ps[0]}
  {
    if ps != [] && Key(ps[0], axis) < Key(o, axis) {
      var rest := InsertOn(o, ps[1..], axis);
      InsertOnSorted(o, ps[1..], axis);
      assert Key(ps[0], axis) <= Key(rest[0], axis);
      forall i | 0 <= i < |rest|
        ensures Key(ps[0], axis) <= Key(rest[i], axis)
      {
        if i > 0 {
          assert Key(rest[0], axis) <= Key(rest[i], axis);
        }
      }
      assert InsertOn(o, ps, axis) == [ps[0]] + rest;
    }
  }


  /** `list.sort(key=...)` on the `axis` coordinate, as an insertion sort:
      a sorted permutation of the input that is stable, as Python's sort is
      (`SortOnStable`). */
  function SortOn(ps: seq<Obs>, axis: nat): (r: seq<Obs>)
    ensures |r| == |ps|
    ensures multiset(r) == multiset(ps)
    ensures SortedOn(r, axis)
  {
    if ps == [] then []
    else
      assert ps == [ps[0]] + ps[1..];
      InsertOnSorted(ps[0], SortOn(ps[1..], axis), axis);
      InsertOn(ps[0], SortOn(ps[1..], axis), axis)
  }

  /** The observations of `ps` whose key on `axis` is `k`, in order. */
  function WithKey(ps: seq<Obs>, axis: nat, k: real): seq<Obs>
  {
    if ps == [] then []
    else (if Key(ps[0], axis) == k then [ps[0]] else []) + WithKey(ps[1..], axis, k)
  }

  /** `InsertOn` puts `o` before every observation with its own key. */
  lemma {:induction false} InsertOnStable(o: Obs, ps: seq<Obs>, axis: nat, k: real)
    ensures WithKey(InsertOn(o, ps, axis), axis, k)
            == (if Key(o, axis) == k then [o] else []) + WithKey(ps, axis, k)
  {
    if ps == [] || Key(o, axis) <= Key(ps[0], axis) {
      assert ([o] + ps)[1..] == ps;
    } else {
      var rest := InsertOn(o, ps[1..], axis);
      InsertOnStable(o, ps[1..], axis, k);
      assert ([ps[0]] + rest)[1..] == rest;
    }
  }

  /** The sort is stable: on every key, the observations with that key
      keep the order they had in the input. */
  lemma {:induction false} SortOnStable(ps: seq<Obs>, axis: nat, k: real)
    ensures WithKey(SortOn(ps, axis), axis, k) == WithKey(ps, axis, k)
  {
    if ps != [] {
      SortOnStable(ps[1..], axis, k);
      InsertOnStable(ps[0], SortOn(ps[1..], axis), axis, k);
    }
  }

  /** The split axis one level deeper, given the current one. */
  function NextAxis(axis: nat, dim: nat): nat
  {
    if axis + 1 < dim then axis + 1 else 0
  }

  lemma MulAtLeast(k: int, d: int)
    requires k >= 1 && d > 0
    ensures k * d >= d
  {
  }

  /** Division with remainder is unique. */
  lemma ModUnique(n: nat, d: nat, q: nat, r: nat)
    requires d > 0 && r < d && n == q * d + r
    ensures n % d == r
  {
    var q', r' := n / d, n % d;
    assert n == q' * d + r';
    assert (q - q') * d == r' - r;
    if q > q' {
      MulAtLeast(q - q', d);
    } else if q' > q {
      assert (q' - q) * d == r - r';
      MulAtLeast(q' - q, d);
    }
  }

  /** Stepping with `NextAxis` from `depth % dim` gives `(depth + 1) % dim`:
      the axis cycles through the dimensions as the depth grows. */
  lemma NextAxisCycles(depth: nat, dim: nat)
    requires dim > 0
    ensures NextAxis(depth % dim, dim) == (depth + 1) % dim
  {
    var q, r := depth / dim, depth % dim;
    assert depth == q * dim + r;
    if r + 1 < dim {
      ModUnique(depth + 1, dim, q, r + 1);
    } else {
      assert depth + 1 == (q + 1) * dim + 0;
      ModUnique(depth + 1, dim, q + 1, 0);
    }
  }

  /** All observations have `dim` features. */
  predicate Uniform(ps: seq<Obs>, dim: nat)
  {
    forall o :: o in ps ==> |o.features| == dim
  }

  /** What `build` needs of its input: the first observation has at least
      one feature (the axis is taken modulo its length) and every
      observation has the same number of features, so every sort key
      exists. */
  predicate WellDimensioned(ps: seq<Obs>)
  {
    |ps| == 0 || (|ps[0].features| > 0 && Uniform(ps, |ps[0].features|))
  }

  lemma UniformPermutation(ps: seq<Obs>, qs: seq<Obs>, dim: nat)
    requires Uniform(ps, dim) && multiset(qs) == multiset(ps)
    ensures Uniform(qs, dim)
  {
    assert forall o :: o in qs ==> o in multiset(ps);
  }

  lemma UniformSlices(s: seq<Obs>, dim: nat, m: nat)
    requires Uniform(s, dim) && m < |s|
    ensures Uniform(s[..m], dim) && Uniform(s[m + 1..], dim)
  {
    assert forall o :: o in s[..m] ==> o in s;
    assert forall o :: o in s[m + 1..] ==> o in s;
  }

  /** The recursion of `build` with the dimension fixed and the current
      split axis (`depth % dim`) carried along instead of the depth. */
  function BuildSplit(ps: seq<Obs>, axis: nat, dim: nat): (t: Tree)
    requires axis < dim && Uniform(ps, dim)
    ensures t == Nil <==> ps == []
    ensures Elems(t) == multiset(ps)
    decreases |ps|
  {
    if |ps| == 0 then Nil
    else
      var sorted := SortOn(ps, axis);
      var m := |sorted| / 2;
      MedianSplit(ps, sorted, dim, m);
      var next := NextAxis(axis, dim);
      Node(sorted[m], axis, BuildSplit(sorted[..m], next, dim), BuildSplit(sorted[m + 1..], next, dim))
  }

  /** Splitting a permutation of `ps` around index `m` keeps every
      observation exactly once and keeps the dimension uniform. */
  lemma MedianSplit(ps: seq<Obs>, sorted: seq<Obs>, dim: nat, m: nat)
    requires Uniform(ps, dim) && multiset(sorted) == multiset(ps) && m < |sorted|
    ensures |sorted[..m]| < |ps| && |sorted[m + 1..]| < |ps|
    ensures Uniform(sorted[..m], dim) && Uniform(sorted[m + 1..], dim)
    ensures multiset(ps) == multiset(sorted[..m]) + multiset{sorted[m]} + multiset(sorted[m + 1..])
  {
    assert |sorted| == |multiset(sorted)| == |ps|;
    UniformPermutation(ps, sorted, dim);
    UniformSlices(sorted, dim, m);
    assert sorted == sorted[..m] + [sorted[m]] + sorted[m + 1..];
  }

  /** `KDTree.build(observations, depth)`: `Nil` for no observations,
      otherwise a tree holding exactly the input observations. */
  function Build(ps: seq<Obs>, depth: nat): (t: Tree)
    requires WellDimensioned(ps)
    ensures t == Nil <==> ps == []
    ensures Elems(t) == multiset(ps)
  {
    if |ps| == 0 then Nil
    else BuildSplit(ps, depth % |ps[0].features|, |ps[0].features|)
  }

  /** `Build` follows `KDTree.build`'s recursion step for step: split axis
      `depth % dim`, input sorted on that axis, the element at index
      `n / 2` as pivot, and the slices before and after it built at
      `depth + 1`. */
  lemma BuildMatchesSource(ps: seq<Obs>, depth: nat)
    requires WellDimensioned(ps) && |ps| > 0
    ensures var axis := depth % |ps[0].features|;
            var sorted := SortOn(ps, axis);
            var m := |sorted| / 2;
            && WellDimensioned(sorted[..m]) && WellDimensioned(sorted[m + 1..])
            && Build(ps, depth)
               == Node(sorted[m], axis, Build(sorted[..m], depth + 1), Build(sorted[m + 1..], depth + 1))
  {
    var dim := |ps[0].features|;
    var axis := depth % dim;
    var sorted := SortOn(ps, axis);
    var m := |sorted| / 2;
    UniformPermutation(ps, sorted, dim);
    UniformSlices(sorted, dim, m);
    var lo, hi := sorted[..m], sorted[m + 1..];
    NextAxisCycles(depth, dim);
    if lo != [] {
      assert lo[0] in sorted;
    }
    if hi != [] {
      assert hi[0] in sorted;
    }
  }

  /** Axis ordering at every node: left-subtree coordinates on the node's
      axis are at most the pivot's, right-subtree ones at least. Equal
      coordinates may fall on either side. */
  predicate Ordered(t: Tree)
  {
    match t
    case Nil => true
    case Node(p, a, l, r) =>
      && a < |p.features|
      && (forall o :: o in Elems(l) ==> a < |o.features| && o.features[a] <= p.features[a])
      && (forall o :: o in Elems(r) ==> a < |o.features| && o.features[a] >= p.features[a])
      && Ordered(l)
      && Ordered(r)
  }

  /** Median split: at every node the left subtree holds as many points as
      the right one, or one more. */
  predicate Balanced(t: Tree)
  {
    match t
    case Nil => true
    case Node(_, _, l, r) =>
      && (Size(l) == Size(r) || Size(l) == Size(r) + 1)
      && Balanced(l)
      && Balanced(r)
  }

  /** The root splits on `axis`, each level below on the next axis in
      cyclic order, and every pivot has `dim` features. */
  predicate AxesCycle(t: Tree, axis: nat, dim: nat)
  {
    match t
    case Nil => true
    case Node(p, a, l, r) =>
      && a == axis
      && |p.features| == dim
      && AxesCycle(l, NextAxis(axis, dim), dim)
      && AxesCycle(r, NextAxis(axis, dim), dim)
  }

  /** Unfolds one step of `BuildSplit` on a non-empty input. */
  lemma BuildSplitUnfold(ps: seq<Obs>, axis: nat, dim: nat)
    requires axis < dim && Uniform(ps, dim) && |ps| > 0
    ensures var sorted := SortOn(ps, axis);
            var m := |sorted| / 2;
            && Uniform(sorted, dim)
            && Uniform(sorted[..m], dim) && Uniform(sorted[m + 1..], dim)
            && BuildSplit(ps, axis, dim)
               == Node(sorted[m], axis,
                       BuildSplit(sorted[..m], NextAxis(axis, dim), dim),
                       BuildSplit(sorted[m + 1..], NextAxis(axis, dim), dim))
  {
    var sorted := SortOn(ps, axis);
    UniformPermutation(ps, sorted, dim);
    UniformSlices(sorted, dim, |sorted| / 2);
  }

  /** The root splits on `depth % dim`, its left subtree holds `n / 2`
      observations and its right subtree `n - n / 2 - 1`. */
  lemma BuildRoot(ps: seq<Obs>, depth: nat)
    requires WellDimensioned(ps) && |ps| > 0
    ensures var t := Build(ps, depth);
            && t.Node?
            && t.axis == depth % |ps[0].features|
            && Size(t) == |ps|
            && Size(t.left) == |ps| / 2
            && Size(t.right) == |ps| - |ps| / 2 - 1
  {
    var dim := |ps[0].features|;
    BuildSplitUnfold(ps, depth % dim, dim);
  }

  lemma {:induction false} BuildSplitBalanced(ps: seq<Obs>, axis: nat, dim: nat)
    requires axis < dim && Uniform(ps, dim)
    ensures Balanced(BuildSplit(ps, axis, dim))
    decreases |ps|
  {
    if |ps| > 0 {
      BuildSplitUnfold(ps, axis, dim);
      var sorted := SortOn(ps, axis);
      var m := |sorted| / 2;
      BuildSplitBalanced(sorted[..m], NextAxis(axis, dim), dim);
      BuildSplitBalanced(sorted[m + 1..], NextAxis(axis, dim), dim);
    }
  }

  lemma BuildBalanced(ps: seq<Obs>, depth: nat)
    requires WellDimensioned(ps)
    ensures Balanced(Build(ps, depth))
  {
    if |ps| > 0 {
      BuildSplitBalanced(ps, depth % |ps[0].features|, |ps[0].features|);
    }
  }

  /** A node is ordered when its subtrees are and they hold, as multisets,
      slices whose keys lie on the correct side of the pivot's. */
  lemma OrderedNode(p: Obs, axis: nat, l: Tree, r: Tree, lo: seq<Obs>, hi: seq<Obs>)
    requires axis < |p.features| && Ordered(l) && Ordered(r)
    requires Elems(l) == multiset(lo) && Elems(r) == multiset(hi)
    requires forall o :: o in lo ==> axis < |o.features| && Key(o, axis) <= Key(p, axis)
    requires forall o :: o in hi ==> axis < |o.features| && Key(p, axis) <= Key(o, axis)
    ensures Ordered(Node(p, axis, l, r))
  {
    assert forall o :: o in Elems(l) ==> o in lo;
    assert forall o :: o in Elems(r) ==> o in hi;
  }

  lemma {:induction false} BuildSplitOrdered(ps: seq<Obs>, axis: nat, dim: nat)
    requires axis < dim && Uniform(ps, dim)
    ensures Ordered(BuildSplit(ps, axis, dim))
    decreases |ps|
  {
    if |ps| > 0 {
      BuildSplitUnfold(ps, axis, dim);
      var sorted := SortOn(ps, axis);
      var m := |sorted| / 2;
      var p := sorted[m];
      var next := NextAxis(axis, dim);
      var lo, hi := sorted[..m], sorted[m + 1..];
      BuildSplitOrdered(lo, next, dim);
      BuildSplitOrdered(hi, next, dim);
      OrderedNode(p, axis, BuildSplit(lo, next, dim), BuildSplit(hi, next, dim), lo, hi);
    }
  }

  lemma BuildOrdered(ps: seq<Obs>, depth: nat)
    requires WellDimensioned(ps)
    ensures Ordered(Build(ps, depth))
  {
    if |ps| > 0 {
      BuildSplitOrdered(ps, depth % |ps[0].features|, |ps[0].features|);
    }
  }

  lemma {:induction false} BuildSplitAxesCycle(ps: seq<Obs>, axis: nat, dim: nat)
    requires axis < dim && Uniform(ps, dim)
    ensures AxesCycle(BuildSplit(ps, axis, dim), axis, dim)
    decreases |ps|
  {
    if |ps| > 0 {
      BuildSplitUnfold(ps, axis, dim);
      var sorted := SortOn(ps, axis);
      var m := |sorted| / 2;
      assert sorted[m] in sorted;
      BuildSplitAxesCycle(sorted[..m], NextAxis(axis, dim), dim);
      BuildSplitAxesCycle(sorted[m + 1..], NextAxis(axis, dim), dim);
    }
  }

  /** Every node of a built tree splits on the axis its depth selects,
      cycling through the `dim` dimensions, and holds a `dim`-feature
      pivot. */
  lemma BuildAxesCycle(ps: seq<Obs>, depth: nat)
    requires WellDimensioned(ps) && |ps| > 0
    ensures AxesCycle(Build(ps, depth), depth % |ps[0].features|, |ps[0].features|)
  {
    BuildSplitAxesCycle(ps, depth % |ps[0].features|, |ps[0].features|);
  }

  /** Two observations already in key order stay as they are. */
  lemma SortOnPair(a: Obs, b: Obs, axis: nat)
    requires Key(a, axis) <= Key(b, axis)
    ensures SortOn([a, b], axis) == [a, b]
  {
    assert [b][1..] == [] && [a, b][1..] == [b];
    assert SortOn([b], axis) == [b];
  }

  /** One observation builds a leaf. */
  lemma BuildSplitSingle(a: Obs, axis: nat, dim: nat)
    requires axis < dim && |a.features| == dim
    ensures BuildSplit([a], axis, dim) == Node(a, axis, Nil, Nil)
  {
    assert [a][1..] == [];
    assert SortOn([a], axis) == [a];
    BuildSplitUnfold([a], axis, dim);
    assert [a][..0] == [];
  }

  /** Two observations in key order: the second is the pivot (index
      `2 / 2`) and the first becomes its left leaf, even when the keys are
      equal. */
  lemma BuildSplitPair(a: Obs, b: Obs, axis: nat, dim: nat)
    requires axis < dim && |a.features| == dim && |b.features| == dim
    requires Key(a, axis) <= Key(b, axis)
    ensures BuildSplit([a, b], axis, dim) == Node(b, axis, Node(a, NextAxis(axis, dim), Nil, Nil), Nil)
  {
    SortOnPair(a, b, axis);
    BuildSplitUnfold([a, b], axis, dim);
    assert [a, b][..1] == [a] && [a, b][2..] == [];
    BuildSplitSingle(a, NextAxis(axis, dim), dim);
  }

  /** `KDTree.build` routes equal coordinates both ways: with a duplicate key
      the upper of the two is the pivot and the equal element lands on the
      LEFT, so the left side is not strictly smaller than the pivot. */
  lemma DuplicateKeyGoesLeft()
    ensures var a := Obs(0, [1.0]);
            var b := Obs(1, [1.0]);
            var t := Build([a, b], 0);
            && t.pivot == b
            && t.left == Node(a, 0, Nil, Nil)
            && t.left.pivot.features[0] == t.pivot.features[0]
  {
    BuildSplitPair(Obs(0, [1.0]), Obs(1, [1.0]), 0, 1);
  }
}
