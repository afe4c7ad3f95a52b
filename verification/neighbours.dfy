/** The list of nearest neighbours that `KDTree._create_grouping` keeps:
    `(-distance, observation)` entries, maintained with `bisect.insort`
    while there is room and by overwriting index 0 once it is full. */
module Neighbours {
  import opened Observation

  /** A kept neighbour, as `KDTree.py`'s tuple `(-distance, observation)`;
      here the negated SQUARED distance, which orders entries the same way. */
  datatype Entry = Entry(negDist: real, obs: Obs)

  /** Python's tuple order on entries: by negated distance, then by
      `Observation.__lt__`, i.e. by label. */
  predicate EntryLess(x: Entry, y: Entry)
  {
    x.negDist < y.negDist || (x.negDist == y.negDist && Less(x.obs, y.obs))
  }

  /** Non-decreasing in the tuple order: the farthest entry first. */
  predicate Ascending(s: seq<Entry>)
  {
    forall i, j :: 0 <= i < j < |s| ==> !EntryLess(s[j], s[i])
  }

  /** The squared model's entry order is `KDTree.py`'s: with `s1`, `s2` the
      (non-negative) distances, comparing `(-s1, o1)` with `(-s2, o2)` as
      tuples gives the same answer as comparing the negated squares. */
  lemma EntryOrderMatchesRoot(s1: real, o1: Obs, s2: real, o2: Obs)
    requires s1 >= 0.0 && s2 >= 0.0
    ensures EntryLess(Entry(-Square(s1), o1), Entry(-Square(s2), o2))
            <==> (-s1 < -s2 || (-s1 == -s2 && Less(o1, o2)))
  {
    SquaringPreservesOrder(s1, s2);
    SquaringPreservesOrder(s2, s1);
  }

  /** `bisect.bisect_right(a, x, lo, hi)`: binary search for the index
      after the last entry not greater than `x`. */
  function BisectRight(a: seq<Entry>, x: Entry, lo: nat, hi: nat): (i: nat)
    requires lo <= hi <= |a|
    ensures lo <= i <= hi
    decreases hi - lo
  {
    if lo < hi then
      var mid := (lo + hi) / 2;
      if EntryLess(x, a[mid]) then BisectRight(a, x, lo, mid)
      else BisectRight(a, x, mid + 1, hi)
    else lo
  }

  /** On an ascending list, `bisect_right` finds the insertion point that
      puts `x` after every entry it does not precede (after equal keys),
      and before every entry greater than it. */
  lemma {:induction false} BisectRightFindsInsertionPoint(a: seq<Entry>, x: Entry, lo: nat, hi: nat)
    requires lo <= hi <= |a| && Ascending(a)
    requires forall k :: 0 <= k < lo ==> !EntryLess(x, a[k])
    requires forall k :: hi <= k < |a| ==> EntryLess(x, a[k])
    ensures var i := BisectRight(a, x, lo, hi);
            && (forall k :: 0 <= k < i ==> !EntryLess(x, a[k]))
            && (forall k :: i <= k < |a| ==> EntryLess(x, a[k]))
    decreases hi - lo
  {
    if lo < hi {
      var mid := (lo + hi) / 2;
      if EntryLess(x, a[mid]) {
        forall k | mid <= k < |a|
          ensures EntryLess(x, a[k])
        {
          LessThenNotLess(x, a[mid], a[k]);
        }
        BisectRightFindsInsertionPoint(a, x, lo, mid);
      } else {
        forall k | 0 <= k <= mid
          ensures !EntryLess(x, a[k])
        {
          NotLessChain(a[k], a[mid], x);
        }
        BisectRightFindsInsertionPoint(a, x, mid + 1, hi);
      }
    }
  }

  lemma LessThenNotLess(x: Entry, y: Entry, z: Entry)
    requires EntryLess(x, y) && !EntryLess(z, y)
    ensures EntryLess(x, z)
  {
  }

  lemma NotLessChain(x: Entry, y: Entry, z: Entry)
    requires !EntryLess(y, x) && !EntryLess(z, y)
    ensures !EntryLess(z, x)
  {
  }

  /** `bisect.insort(a, x)`: `x` inserted at `bisect_right`'s index. */
  function Insort(a: seq<Entry>, x: Entry): (r: seq<Entry>)
    ensures |r| == |a| + 1
  {
    var i := BisectRight(a, x, 0, |a|);
    a[..i] + [x] + a[i..]
  }

  /** The insertion is `a[:i] + [x] + a[i:]` at `bisect_right`'s index. */
  lemma InsortSplits(a: seq<Entry>, x: Entry)
    ensures Insort(a, x) == a[..BisectRight(a, x, 0, |a|)] + [x] + a[BisectRight(a, x, 0, |a|)..]
  {
  }

  /** Insertion adds exactly `x` and loses nothing. */
  lemma InsortMultiset(a: seq<Entry>, x: Entry)
    ensures multiset(Insort(a, x)) == multiset(a) + multiset{x}
  {
    var i := BisectRight(a, x, 0, |a|);
    InsortSplits(a, x);
    assert a == a[..i] + a[i..];
  }

  /** Insertion into an ascending list keeps it ascending, with `x` placed
      after every entry it does not precede and before every greater one. */
  lemma InsortAscending(a: seq<Entry>, x: Entry)
    requires Ascending(a)
    ensures Ascending(Insort(a, x))
    ensures exists i :: 0 <= i <= |a| && Insort(a, x) == a[..i] + [x] + a[i..]
                        && (forall k :: 0 <= k < i ==> !EntryLess(x, a[k]))
                        && (forall k :: i <= k < |a| ==> EntryLess(x, a[k]))
  {
    var i := BisectRight(a, x, 0, |a|);
    BisectRightFindsInsertionPoint(a, x, 0, |a|);
    var r := Insort(a, x);
    InsortSplits(a, x);
    forall p, q | 0 <= p < q < |r|
      ensures !EntryLess(r[q], r[p])
    {
      if q < i || p > i {
        var p', q' := if p < i then p else p - 1, if q < i then q else q - 1;
        assert r[p] == a[p'] && r[q] == a[q'];
      } else if p == i {
        assert r[q] == a[q - 1];
      } else {
        assert r[p] == a[p];
      }
    }
  }

  /** `KDTree._add_nearest_observation`: under capacity the entry is
      inserted in order; at capacity it overwrites index 0, and only when
      strictly closer than the entry held there; the rest is untouched and
      the list is not re-sorted. */
  function AddNearest(acc: seq<Entry>, d2: real, o: Obs, K: int): (r: seq<Entry>)
    requires |acc| < K || |acc| > 0
    ensures |r| == if |acc| < K then |acc| + 1 else |acc|
  {
    var e := Entry(-d2, o);
    if |acc| < K then
      Insort(acc, e)
    else if acc[0].negDist < -d2 then acc[0 := e]
    else acc
  }

  /** What `AddNearest` does to the list's contents: under capacity the
      new entry is added; at capacity only index 0 can change, and it
      changes, to the new entry, exactly when that is strictly closer. */
  lemma AddNearestContents(acc: seq<Entry>, d2: real, o: Obs, K: int)
    requires |acc| < K || |acc| > 0
    ensures var r := AddNearest(acc, d2, o, K);
            && (|acc| < K ==> multiset(r) == multiset(acc) + multiset{Entry(-d2, o)})
            && (|acc| >= K ==> r[1..] == acc[1..])
            && (|acc| >= K && d2 < -acc[0].negDist ==> r[0] == Entry(-d2, o))
            && (|acc| >= K && d2 >= -acc[0].negDist ==> r == acc)
  {
    if |acc| < K {
      InsortMultiset(acc, Entry(-d2, o));
    }
  }

  /** Under capacity, an ascending list stays ascending. */
  lemma AddNearestAscending(acc: seq<Entry>, d2: real, o: Obs, K: int)
    requires |acc| < K && Ascending(acc)
    ensures Ascending(AddNearest(acc, d2, o, K))
  {
    InsortAscending(acc, Entry(-d2, o));
  }

  /** Every entry `AddNearest` leaves in the list was there before or is
      the one offered. */
  lemma AddNearestMembers(acc: seq<Entry>, d2: real, o: Obs, K: int)
    requires |acc| < K || |acc| > 0
    ensures forall e :: e in AddNearest(acc, d2, o, K) ==> e in acc || e == Entry(-d2, o)
  {
    var r := AddNearest(acc, d2, o, K);
    if |acc| < K {
      assert forall e :: e in r ==> e in multiset(r);
    } else if acc[0].negDist < -d2 {
      assert r == [Entry(-d2, o)] + acc[1..];
      assert forall e :: e in acc[1..] ==> e in acc;
    }
  }

  /** The observations of a list of entries, distances dropped. */
  function Observations(s: seq<Entry>): (os: seq<Obs>)
    ensures |os| == |s| && forall i :: 0 <= i < |s| ==> os[i] == s[i].obs
  {
    seq(|s|, i requires 0 <= i < |s| => s[i].obs)
  }

  lemma ObservationsConcat(a: seq<Entry>, b: seq<Entry>)
    ensures Observations(a + b) == Observations(a) + Observations(b)
  {
  }

  /** Inserting an entry anywhere adds its observation to the multiset. */
  lemma ObservationsInsert(a: seq<Entry>, i: nat, e: Entry)
    requires i <= |a|
    ensures multiset(Observations(a[..i] + [e] + a[i..]))
              == multiset(Observations(a)) + multiset{e.obs}
  {
    var left, right := a[..i], a[i..];
    assert a == left + right;
    ObservationsConcat(left, right);
    ObservationsConcat(left + [e], right);
    ObservationsConcat(left, [e]);
    ObservationsSingleton(e);
    calc {
      multiset(Observations(left + [e] + right));
      multiset(Observations(left) + [e.obs] + Observations(right));
      multiset(Observations(left)) + multiset{e.obs} + multiset(Observations(right));
    }
  }

  lemma ObservationsSingleton(e: Entry)
    ensures Observations([e]) == [e.obs]
  {
    assert [e][1..] == [];
  }

  /** Overwriting the first entry swaps its observation for the new one. */
  lemma ObservationsReplaceFirst(a: seq<Entry>, e: Entry)
    requires |a| > 0
    ensures multiset(Observations(a[0 := e]))
              == multiset(Observations(a)) - multiset{a[0].obs} + multiset{e.obs}
  {
    assert a[0 := e] == [e] + a[1..];
    assert a == [a[0]] + a[1..];
    ObservationsConcat([e], a[1..]);
    ObservationsConcat([a[0]], a[1..]);
    ObservationsSingleton(e);
    ObservationsSingleton(a[0]);
  }

  /** What `AddNearest` does to the multiset of kept observations: under
      capacity it gains the offered one; at capacity it may swap one out. */
  lemma AddNearestObservations(acc: seq<Entry>, d2: real, o: Obs, K: int)
    requires |acc| < K || |acc| > 0
    ensures multiset(Observations(AddNearest(acc, d2, o, K)))
              <= multiset(Observations(acc)) + multiset{o}
    ensures |acc| < K ==>
              multiset(Observations(AddNearest(acc, d2, o, K)))
                == multiset(Observations(acc)) + multiset{o}
  {
    var e := Entry(-d2, o);
    if |acc| < K {
      InsortSplits(acc, e);
      ObservationsInsert(acc, BisectRight(acc, e, 0, |acc|), e);
    } else if acc[0].negDist < -d2 {
      ObservationsReplaceFirst(acc, e);
    }
  }
}
