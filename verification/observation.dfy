/** A labelled point in feature space, and the distance between two points.

    `Observation.py` computes the Euclidean distance with a square root over
    floating-point numbers. This model works with the SQUARED distance over
    exact reals: every comparison the search makes has two non-negative
    sides, so squaring both preserves its outcome (see `SquaringPreservesOrder`
    and `WithinRadiusMatchesRoot`).
 */
module Observation {

  /** An observation: a classification label and a feature vector.
      The constructor and the getters of `Observation.py` are the datatype's
      constructor and its two destructors. */
  datatype Obs = Obs(classification: int, features: seq<real>)

  /** `Observation.__lt__`: observations are ordered by label alone. */
  predicate Less(a: Obs, b: Obs)
  {
    a.classification < b.classification
  }

  /** `__lt__` looks at the labels alone, whatever the features, and is a
      strict order. */
  lemma LessByLabelOnly(a: Obs, b: Obs, c: Obs, f: seq<real>, g: seq<real>)
    ensures Less(a, b) <==> Less(Obs(a.classification, f), Obs(b.classification, g))
    ensures !Less(a, a)
    ensures Less(a, b) ==> !Less(b, a)
    ensures Less(a, b) && Less(b, c) ==> Less(a, c)
  {
  }

  function Square(x: real): real
  {
    x * x
  }

  /** Sum of squared coordinate differences over the pairs that `zip`
      produces, i.e. over the common prefix of the two vectors. */
  function SqDist(a: seq<real>, b: seq<real>): (d: real)
    ensures d >= 0.0
    decreases |a|
  {
    if |a| == 0 || |b| == 0 then 0.0
    else
      SquareNonNegative(a[0] - b[0]);
      Square(a[0] - b[0]) + SqDist(a[1..], b[1..])
  }

  /** The squared form of `compute_distance` between two observations. */
  function Distance(a: Obs, b: Obs): real
  {
    SqDist(a.features, b.features)
  }

  function Min(x: nat, y: nat): nat
  {
    if x <= y then x else y
  }

  /** The root of the squared distance `d2` is at most the radius `r`. */
  predicate WithinRadius(d2: real, r: real)
  {
    r >= 0.0 && d2 <= Square(r)
  }

  lemma SquareNonNegative(x: real)
    ensures Square(x) >= 0.0
  {
  }

  lemma SquareNegate(x: real)
    ensures Square(-x) == Square(x)
  {
  }

  lemma SquareStrictlyMonotone(s: real, t: real)
    requires 0.0 <= s < t
    ensures Square(s) < Square(t)
  {
    calc {
      s * s;
    <= s * t;
    <  t * t;
    }
  }

  lemma SquareMonotone(s: real, t: real)
    requires 0.0 <= s <= t
    ensures Square(s) <= Square(t)
  {
    if s < t {
      SquareStrictlyMonotone(s, t);
    }
  }

  lemma SquarePositive(x: real)
    requires x != 0.0
    ensures Square(x) > 0.0
  {
    if x > 0.0 {
      SquareStrictlyMonotone(0.0, x);
    } else {
      SquareStrictlyMonotone(0.0, -x);
      SquareNegate(x);
    }
  }

  /** A larger absolute difference has a larger square. */
  lemma SquareOfLargerGap(x: real, y: real)
    requires (if x < 0.0 then -x else x) <= (if y < 0.0 then -y else y)
    ensures Square(x) <= Square(y)
  {
    SquareNegate(x);
    SquareNegate(y);
    SquareMonotone(if x < 0.0 then -x else x, if y < 0.0 then -y else y);
  }

  lemma {:induction false} SqDistSymmetric(a: seq<real>, b: seq<real>)
    ensures SqDist(a, b) == SqDist(b, a)
    decreases |a|
  {
    if |a| != 0 && |b| != 0 {
      SqDistSymmetric(a[1..], b[1..]);
      assert b[0] - a[0] == -(a[0] - b[0]);
      SquareNegate(a[0] - b[0]);
    }
  }

  lemma DistanceSymmetric(a: Obs, b: Obs)
    ensures Distance(a, b) == Distance(b, a)
  {
    SqDistSymmetric(a.features, b.features);
  }

  /** Only the common prefix takes part: extra trailing features of the
      longer vector are ignored, and no error arises. */
  lemma {:induction false} SqDistTruncates(a: seq<real>, b: seq<real>)
    ensures SqDist(a, b) == SqDist(a[..Min(|a|, |b|)], b[..Min(|a|, |b|)])
    decreases |a|
  {
    var m := Min(|a|, |b|);
    if |a| != 0 && |b| != 0 {
      SqDistTruncates(a[1..], b[1..]);
      assert a[..m][1..] == a[1..][..Min(|a| - 1, |b| - 1)];
      assert b[..m][1..] == b[1..][..Min(|a| - 1, |b| - 1)];
    }
  }

  /** The squared distance is zero exactly when the two vectors agree on
      their common prefix; in particular an observation is at distance zero
      from itself and from any observation with the same features. */
  lemma {:induction false} SqDistZeroIff(a: seq<real>, b: seq<real>)
    ensures SqDist(a, b) == 0.0 <==> a[..Min(|a|, |b|)] == b[..Min(|a|, |b|)]
    decreases |a|
  {
    var m := Min(|a|, |b|);
    if |a| != 0 && |b| != 0 {
      SqDistZeroIff(a[1..], b[1..]);
      var m' := Min(|a| - 1, |b| - 1);
      assert a[..m] == [a[0]] + a[1..][..m'];
      assert b[..m] == [b[0]] + b[1..][..m'];
      if a[0] != b[0] {
        SquarePositive(a[0] - b[0]);
        assert a[..m][0] != b[..m][0];
      } else {
        assert a[..m] == b[..m] <==> a[1..][..m'] == b[1..][..m'];
      }
    }
  }

  lemma DistanceToSelf(a: Obs)
    ensures Distance(a, a) == 0.0
  {
    SqDistZeroIff(a.features, a.features);
  }

  /** One coordinate's squared difference never exceeds the whole sum. */
  lemma {:induction false} CoordinateBound(a: seq<real>, b: seq<real>, i: nat)
    requires i < |a| && i < |b|
    ensures Square(a[i] - b[i]) <= SqDist(a, b)
    decreases i
  {
    SquareNonNegative(a[0] - b[0]);
    if i > 0 {
      CoordinateBound(a[1..], b[1..], i - 1);
      assert a[1..][i - 1] == a[i] && b[1..][i - 1] == b[i];
    }
  }

  /** Squaring is order-preserving on non-negative reals, both for `<=`
      and for `<`; so comparing squared distances decides every comparison
      `KDTree.py` makes between (non-negative) roots. */
  lemma SquaringPreservesOrder(s: real, t: real)
    requires s >= 0.0 && t >= 0.0
    ensures s <= t <==> Square(s) <= Square(t)
    ensures s < t <==> Square(s) < Square(t)
  {
    if s < t {
      SquareStrictlyMonotone(s, t);
    } else if t < s {
      SquareStrictlyMonotone(t, s);
    }
  }

  /** For the root `s` of a squared distance `d2`, `KDTree.py`'s admission
      test `s <= r` agrees with `WithinRadius(d2, r)` for every real `r`,
      including non-positive ones. */
  lemma WithinRadiusMatchesRoot(s: real, d2: real, r: real)
    requires s >= 0.0 && Square(s) == d2
    ensures s <= r <==> WithinRadius(d2, r)
  {
    if r >= 0.0 {
      SquaringPreservesOrder(s, r);
    }
  }
}
