/** The majority vote of `KDTree.predict_class`: the most frequent label
    among the observations of the grouping. */
module Vote {
  import opened Observation
  import opened KDTree
  import opened Grouping
  import opened Coverage
  import opened Majority

  /** The outcome of a prediction. `max` over an empty set raises in
      `KDTree.predict_class`; here that case is the value `NoNeighbours`. */
  datatype Prediction = Label(classification: int) | NoNeighbours

  /** `predict_class`: the most frequent label of the grouping, and
      `NoNeighbours` exactly when the grouping is empty. */
  function PredictClass(t: Tree, q: Obs, maxDistance: real, K: int): (p: Prediction)
    requires Routable(t, q)
    ensures p.NoNeighbours? <==> CreateGrouping(t, q, maxDistance, K) == []
    ensures p.Label? ==> IsMostCommon(Labels(CreateGrouping(t, q, maxDistance, K)), p.classification)
  {
    var g := CreateGrouping(t, q, maxDistance, K);
    if g == [] then NoNeighbours else Label(MostCommon(Labels(g)))
  }

  /** The prediction is `NoNeighbours` exactly when no observation of the
      tree lies within `maxDistance` (or `create_grouping`'s guard rejects the
      arguments). */
  lemma PredictNoNeighbours(t: Tree, q: Obs, maxDistance: real, K: int)
    requires Routable(t, q)
    ensures PredictClass(t, q, maxDistance, K).NoNeighbours?
            <==> maxDistance <= 0.0 || K < 1 || |InRange(Points(t), q, maxDistance)| == 0
  {
    if maxDistance > 0.0 && K >= 1 {
      GroupingSize(t, q, maxDistance, K);
    }
  }

  /** When at most `K` observations are in range and more than half of
      them carry label `x`, the prediction is `x`. */
  lemma PredictInRangeMajority(t: Tree, q: Obs, maxDistance: real, K: int, x: int)
    requires Routable(t, q) && maxDistance > 0.0 && K >= 1
    requires |InRange(Points(t), q, maxDistance)| <= K
    requires 2 * Count(Labels(InRange(Points(t), q, maxDistance)), x) > |InRange(Points(t), q, maxDistance)|
    ensures PredictClass(t, q, maxDistance, K) == Label(x)
  {
    var inRange := InRange(Points(t), q, maxDistance);
    var g := CreateGrouping(t, q, maxDistance, K);
    GroupingComplete(t, q, maxDistance, K);
    LabelCountPermutation(g, inRange, x);
    assert |g| == |inRange| by {
      assert |multiset(g)| == |multiset(inRange)|;
    }
    MostCommonStrictMajority(Labels(g), x);
  }

  /** The training points of a four-point example: labels 0, 1, 0, 1
      at `[0, 0]`, `[10, 0]`, `[0, 10]` and `[1, 1]`. */
  predicate ExamplePoints(a: Obs, b: Obs, c: Obs, d: Obs)
  {
    a == Obs(0, [0.0, 0.0]) && b == Obs(1, [10.0, 0.0]) &&
    c == Obs(0, [0.0, 10.0]) && d == Obs(1, [1.0, 1.0])
  }

  /** Two of the four points lie within distance 2 of `[0.5, 0.5]`. */
  lemma ExampleInRange(a: Obs, b: Obs, c: Obs, d: Obs, q: Obs)
    requires ExamplePoints(a, b, c, d) && q.features == [0.5, 0.5]
    ensures InRange([a, b, c, d], q, 2.0) == [a, d]
  {
    assert SqDist([0.0, 0.0], [0.5, 0.5]) == 0.5;
    assert SqDist([10.0, 0.0], [0.5, 0.5]) == 90.5;
    assert SqDist([0.0, 10.0], [0.5, 0.5]) == 90.5;
    assert SqDist([1.0, 1.0], [0.5, 0.5]) == 0.5;
    assert [a, b, c, d][1..] == [b, c, d];
    assert [b, c, d][1..] == [c, d];
    assert [c, d][1..] == [d];
    assert InRange([d], q, 2.0) == [d];
    assert InRange([c, d], q, 2.0) == [d];
    assert InRange([b, c, d], q, 2.0) == [d];
  }

  /** Whenever exactly two observations of a built tree's input are in
      range and there is room for two, the grouping is those two and the
      vote is one of their labels. */
  lemma TwoInRange(ps: seq<Obs>, q: Obs, maxDistance: real, a: Obs, d: Obs)
    requires WellDimensioned(ps) && (|ps| > 0 ==> |ps[0].features| <= |q.features|)
    requires maxDistance > 0.0 && InRange(ps, q, maxDistance) == [a, d]
    ensures Routable(Build(ps, 0), q)
    ensures multiset(CreateGrouping(Build(ps, 0), q, maxDistance, 2)) == multiset{a, d}
    ensures PredictClass(Build(ps, 0), q, maxDistance, 2) in {Label(a.classification), Label(d.classification)}
  {
    var t := Build(ps, 0);
    GroupingOfBuiltTree(ps, q, maxDistance, 2);
    var g := CreateGrouping(t, q, maxDistance, 2);
    assert multiset(g) == multiset{a, d};
    var p := PredictClass(t, q, maxDistance, 2);
    if p.Label? {
      var ls := Labels(g);
      var i :| 0 <= i < |ls| && ls[i] == p.classification;
      assert g[i] in multiset(g);
    }
  }

  /** The four-point example: querying `[0.5, 0.5]` with `max_distance = 2`
      and room for two returns the points `[0, 0]` and `[1, 1]`, and the
      vote, a tie, is one of their two labels. */
  lemma ExampleScenario(a: Obs, b: Obs, c: Obs, d: Obs, q: Obs)
    requires ExamplePoints(a, b, c, d) && q.features == [0.5, 0.5]
    ensures Routable(Build([a, b, c, d], 0), q)
    ensures multiset(CreateGrouping(Build([a, b, c, d], 0), q, 2.0, 2)) == multiset{a, d}
    ensures PredictClass(Build([a, b, c, d], 0), q, 2.0, 2) in {Label(0), Label(1)}
  {
    ExampleInRange(a, b, c, d, q);
    assert WellDimensioned([a, b, c, d]);
    TwoInRange([a, b, c, d], q, 2.0, a, d);
  }
}
