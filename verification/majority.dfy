/** Counting labels and choosing the most frequent one: the vote of
    `KDTree.predict_class`, on a plain list of labels. */
module Majority {
  import opened Observation

  /** The labels of a grouping, in order. */
  function Labels(g: seq<Obs>): (ls: seq<int>)
    ensures |ls| == |g|
    ensures forall i :: 0 <= i < |g| ==> ls[i] == g[i].classification
  {
    if g == [] then [] else [g[0].classification] + Labels(g[1..])
  }

  /** `list.count`: how often `x` occurs in `ls`. */
  function Count(ls: seq<int>, x: int): nat
  {
    if ls == [] then 0
    else (if ls[0] == x then 1 else 0) + Count(ls[1..], x)
  }

  /** `x` occurs in `ls` and no label occurs more often. */
  predicate IsMostCommon(ls: seq<int>, x: int)
  {
    x in ls && forall y :: y in ls ==> Count(ls, y) <= Count(ls, x)
  }

  /** `Count` is the multiplicity of the multiset of the list. */
  lemma {:induction false} CountIsMultiplicity(ls: seq<int>, x: int)
    ensures Count(ls, x) == multiset(ls)[x]
  {
    if ls != [] {
      CountIsMultiplicity(ls[1..], x);
      assert ls == [ls[0]] + ls[1..];
    }
  }

  /** Two different labels never occur more often together than the list
      is long. */
  lemma {:induction false} CountTwo(ls: seq<int>, x: int, y: int)
    requires x != y
    ensures Count(ls, x) + Count(ls, y) <= |ls|
  {
    if ls != [] {
      CountTwo(ls[1..], x, y);
    }
  }

  /** The scan behind `max(set(classes), key=classes.count)`: the labels
      before `i` have been compared, `best` is the most frequent of them. */
  function MostCommonFrom(ls: seq<int>, i: nat, best: int): (r: int)
    requires i <= |ls| && best in ls
    requires forall j :: 0 <= j < i ==> Count(ls, ls[j]) <= Count(ls, best)
    ensures IsMostCommon(ls, r)
    decreases |ls| - i
  {
    if i == |ls| then best
    else MostCommonFrom(ls, i + 1, if Count(ls, ls[i]) > Count(ls, best) then ls[i] else best)
  }

  /** The most frequent label of a non-empty list. */
  function MostCommon(ls: seq<int>): (r: int)
    requires |ls| > 0
    ensures IsMostCommon(ls, r)
  {
    MostCommonFrom(ls, 1, ls[0])
  }

  /** A label held by more than half of the list is the one chosen. */
  lemma MostCommonStrictMajority(ls: seq<int>, x: int)
    requires 2 * Count(ls, x) > |ls|
    ensures |ls| > 0 && MostCommon(ls) == x
  {
    var r := MostCommon(ls);
    if r != x {
      CountTwo(ls, x, r);
      if x !in ls {
        CountIsMultiplicity(ls, x);
      }
      assert false;
    }
  }

  lemma {:induction false} LabelsConcat(a: seq<Obs>, b: seq<Obs>)
    ensures Labels(a + b) == Labels(a) + Labels(b)
  {
    if a == [] {
      assert a + b == b;
    } else {
      assert (a + b)[1..] == a[1..] + b;
      LabelsConcat(a[1..], b);
    }
  }

  lemma {:induction false} CountConcat(a: seq<int>, b: seq<int>, x: int)
    ensures Count(a + b, x) == Count(a, x) + Count(b, x)
  {
    if a == [] {
      assert a + b == b;
    } else {
      assert (a + b)[1..] == a[1..] + b;
      CountConcat(a[1..], b, x);
    }
  }

  /** How often `x` labels the observations of `g`. */
  function LabelCount(g: seq<Obs>, x: int): nat
  {
    Count(Labels(g), x)
  }

  /** Counting across a split of the observations. */
  lemma LabelCountConcat(a: seq<Obs>, b: seq<Obs>, x: int)
    ensures LabelCount(a + b, x) == LabelCount(a, x) + LabelCount(b, x)
  {
    LabelsConcat(a, b);
    CountConcat(Labels(a), Labels(b), x);
  }

  /** Taking out the observation at `k` takes out its label once. */
  lemma LabelCountRemove(h: seq<Obs>, k: nat, x: int)
    requires k < |h|
    ensures LabelCount(h, x)
            == LabelCount(h[..k] + h[k + 1..], x) + (if h[k].classification == x then 1 else 0)
  {
    assert h == h[..k] + ([h[k]] + h[k + 1..]);
    LabelCountConcat(h[..k], [h[k]] + h[k + 1..], x);
    LabelCountConcat([h[k]], h[k + 1..], x);
    LabelCountConcat(h[..k], h[k + 1..], x);
  }

  /** Removing the element at `k` removes one occurrence from the multiset. */
  lemma MultisetRemove(h: seq<Obs>, k: nat)
    requires k < |h|
    ensures multiset(h[..k] + h[k + 1..]) == multiset(h) - multiset{h[k]}
  {
    assert h == h[..k] + [h[k]] + h[k + 1..];
  }

  /** Label counts do not depend on the order of the observations. */
  lemma {:induction false} LabelCountPermutation(g: seq<Obs>, h: seq<Obs>, x: int)
    requires multiset(g) == multiset(h)
    ensures LabelCount(g, x) == LabelCount(h, x)
    decreases |g|
  {
    if g != [] {
      assert g[0] in multiset(h);
      var k :| 0 <= k < |h| && h[k] == g[0];
      var h' := h[..k] + h[k + 1..];
      MultisetRemove(h, k);
      assert g == [g[0]] + g[1..];
      assert multiset(g[1..]) == multiset(g) - multiset{g[0]};
      LabelCountPermutation(g[1..], h', x);
      LabelCountRemove(h, k, x);
    }
  }
}
