# k-d tree classifier, modelled in Dafny

This project models the k-d tree of `KDTree.py` and the labelled point of
`Observation.py`:

- construction of the tree by recursive median split (`build`);
- the bounded, branch-and-bound neighbour search (`create_grouping`,
  `_create_grouping` and its three helpers);
- the majority vote over the neighbours' labels (`predict_class`);
- the point record with its label order (`__lt__`) and its Euclidean
  distance (`compute_distance`).

Everything is pure. The tree is an immutable `datatype`. The search threads
its list of `(-distance, observation)` entries through the recursion
explicitly, and each call of `create_grouping` starts from an empty list.

Distances are **squared** and exact (`real`). Every comparison the source
makes between distances has two non-negative sides, so squaring both keeps
its outcome:
- `Observation.WithinRadiusMatchesRoot` covers the radius test;
- `Grouping.PlaneTestMatchesRoot` covers the pruning test;
- `Neighbours.EntryOrderMatchesRoot` covers the order of the entries.

Modules, in dependency order:

| file | module | models |
|---|---|---|
| observation.dfy | `Observation` | `Observation`, `__lt__`, `compute_distance` |
| kdtree.dfy | `KDTree` | the tree, the stable sort on one axis, `build` |
| neighbours.dfy | `Neighbours` | `bisect.bisect_right`, `bisect.insort`, `_add_nearest_observation` |
| grouping.dfy | `Grouping` | branch choice, pruning test, `_create_grouping`, `create_grouping` |
| pruning.dfy | `Pruning` | the search without pruning; proof that pruning changes nothing |
| coverage.dfy | `Coverage` | brute-force in-range reference; size and completeness of the grouping |
| majority.dfy | `Majority` | `list.count` and the most frequent label |
| vote.dfy | `Vote` | `predict_class`; a four-point example |

Three behaviours of the code shape the model:
- **Equal keys go left.** The left subtree is not strictly smaller: the
  code sorts on the axis and takes index `n // 2` as the pivot, so a point
  whose coordinate equals the pivot's can land in the left subtree.
  `KDTree.Ordered` is therefore non-strict on both sides, and
  `KDTree.DuplicateKeyGoesLeft` exhibits a two-point tree whose left child
  has the pivot's coordinate.
- **Vectors of different lengths.** `compute_distance` pairs coordinates
  with `zip`, which stops at the shorter vector without error;
  `Observation.SqDistTruncates` states this. (`build` is modelled only for
  observations of one common dimension; see "Left out".)
- **No closest-K claim.** Once the list is full, a closer candidate
  overwrites index 0 and the list is not re-sorted, so index 0 need not
  stay the farthest entry and the grouping need not hold the `K` closest
  in-range points; `Coverage.GroupingNotClosest` exhibits such a case.
  The model claims what the code does ensure:
  - everything kept is in range and comes from the tree;
  - at most `K` entries are kept;
  - exactly the in-range points are kept when there are at most `K` of them;
  - the pruning never changes the result.

## Model

| member | source | states |
|---|---|---|
| Observation.SqDist | Observation.py:21-23 | the distance summed over the `zip`ped coordinate pairs is never negative |
| Observation.SqDistSymmetric | Observation.py:21-23 | distance from a to b equals distance from b to a |
| Observation.DistanceSymmetric | Observation.py:21-23 | `a.compute_distance(b) == b.compute_distance(a)` for observations |
| Observation.SqDistTruncates | Observation.py:22 | only the common prefix of the two feature vectors is compared; longer vectors are cut to the shorter length, with no error |
| Observation.SqDistZeroIff | Observation.py:21-23 | the distance is zero exactly when the vectors agree on their common prefix |
| Observation.DistanceToSelf | Observation.py:21-23 | an observation is at distance zero from itself |
| Observation.CoordinateBound | Observation.py:22-23 | one coordinate's squared difference never exceeds the whole (squared) distance |
| Observation.SquaringPreservesOrder | Observation.py:23 | on non-negative reals, `<=` and `<` agree with the same comparison of the squares, so the square root can be dropped |
| Observation.WithinRadiusMatchesRoot | KDTree.py:45-46 | the admission test `distance <= max_distance` on the root agrees with the squared test for every radius, including non-positive ones |
| Observation.LessByLabelOnly | Observation.py:9-10 | `Observation.Less` (`__lt__`) compares labels only, whatever the features, and is irreflexive, asymmetric and transitive |
| KDTree.InsertOn | KDTree.py:17 | one insertion step of the sort adds exactly the inserted observation |
| KDTree.InsertOnSorted | KDTree.py:17 | inserting into a list sorted on the axis keeps it sorted |
| KDTree.SortOn | KDTree.py:17 | `observations.sort(key=...)` yields a permutation of the input that is sorted on the axis coordinate |
| KDTree.NextAxisCycles | KDTree.py:16-21 | the split axis of depth `d + 1` is the axis after that of depth `d`, wrapping at the dimension |
| KDTree.BuildSplit | KDTree.py:12-23 | the recursion with the axis carried along yields an empty tree exactly for empty input, and holds exactly the input observations |
| KDTree.MedianSplit | KDTree.py:19-21 | the slices before and after index `m` and the pivot together are the input, each slice smaller than it |
| KDTree.Build | KDTree.py:12-23 | for observations of one common, non-zero dimension, `build` returns no tree exactly for no observations, and the tree holds exactly the input as a multiset |
| KDTree.BuildMatchesSource | KDTree.py:16-23 | one step of `build`: axis `depth % dim`, input sorted on it, pivot at index `n // 2`, the two slices built at `depth + 1` |
| KDTree.BuildRoot | KDTree.py:16-23 | the root splits on `depth % dim`; the tree holds `n` points, the left subtree `n // 2` and the right `n - n // 2 - 1` |
| KDTree.BuildBalanced | KDTree.py:19-21 | at every node the left subtree holds as many points as the right, or one more |
| KDTree.OrderedNode | KDTree.py:17-21 | a node whose subtrees hold the slices below and above the pivot in the sorted order is axis-ordered |
| KDTree.BuildOrdered | KDTree.py:17-21 | at every node the left points' split coordinates are at most the pivot's and the right ones' at least |
| KDTree.BuildAxesCycle | KDTree.py:16-21 | every node splits on the axis its depth selects, cycling through the dimensions, and its pivot has all of them |
| KDTree.InsertOnStable | KDTree.py:17 | one insertion step places the new observation before every observation with the same key |
| KDTree.SortOnStable | KDTree.py:17 | the sort is stable: for every key, the observations with that key keep their input order |
| KDTree.SortOnPair | KDTree.py:17 | two observations already in key order are left in place by the sort |
| KDTree.BuildSplitSingle | KDTree.py:19-23 | one observation builds a leaf |
| KDTree.BuildSplitPair | KDTree.py:17-23 | two observations in key order: the second is the pivot and the first its left leaf, even with equal keys |
| KDTree.DuplicateKeyGoesLeft | KDTree.py:17-21 | a concrete tree whose left child has the same split coordinate as the pivot: the left side is not strictly smaller |
| Neighbours.EntryOrderMatchesRoot | KDTree.py:75-77 | comparing entries with squared distances gives the source's tuple order `(-distance, observation)` |
| Neighbours.BisectRight | KDTree.py:77 | the binary search of `insort` stays within its bounds |
| Neighbours.BisectRightFindsInsertionPoint | KDTree.py:77 | on an ascending list, `bisect_right` returns the index after every entry the new one does not precede and before every greater one |
| Neighbours.Insort | KDTree.py:77 | `insort` grows the list by one |
| Neighbours.InsortMultiset | KDTree.py:77 | `insort` adds exactly the new entry and loses nothing |
| Neighbours.InsortAscending | KDTree.py:77 | `insort` keeps the list ascending in the tuple order and puts the new entry after equal ones |
| Neighbours.AddNearest | KDTree.py:74-79 | the list grows by one under capacity and keeps its length at capacity |
| Neighbours.AddNearestContents | KDTree.py:76-79 | under capacity one entry is added; at capacity only index 0 can change, to the new entry exactly when it is strictly closer, and an equal or larger distance leaves the list as it is |
| Neighbours.AddNearestAscending | KDTree.py:76-77 | under capacity an ascending list stays ascending |
| Neighbours.AddNearestMembers | KDTree.py:74-79 | every entry afterwards was there before or is the one offered |
| Neighbours.ObservationsInsert | KDTree.py:77 | inserting an entry adds its observation to the observations of the list |
| Neighbours.ObservationsReplaceFirst | KDTree.py:79 | overwriting index 0 swaps one observation for the new one |
| Neighbours.AddNearestObservations | KDTree.py:74-79 | the kept observations gain at most the offered one, and exactly it under capacity |
| Grouping.Offer | KDTree.py:45-47 | offering a pivot never shrinks the list nor takes it past `K` |
| Grouping.OfferSize | KDTree.py:45-47 | the list grows by one exactly when the pivot is within `max_distance` and there is room; otherwise its length is unchanged |
| Grouping.OfferConsistent | KDTree.py:45-47 | every key stays the negated distance of its observation to the query |
| Grouping.OfferUnderCapacity | KDTree.py:45-47 | with room, the pivot is kept exactly when in range, and the list stays ascending |
| Grouping.AxesCycleRoutable | KDTree.py:86-109 | a query with at least the tree's dimension never indexes a missing coordinate |
| Grouping.Branches | KDTree.py:85-96 | the chosen branch is the left one exactly when the query's coordinate is smaller than the pivot's; the other is the unchosen one |
| Grouping.ShouldCheck | KDTree.py:104-114 | below capacity the unchosen branch is always visited; at capacity exactly when the squared gap to the plane is at most the squared distance to the entry at index 0 |
| Grouping.PlaneTestMatchesRoot | KDTree.py:111-114 | `abs(gap) <= distance` on roots agrees with the squared test |
| Grouping.Search | KDTree.py:44-68 | the descent never shrinks the list nor takes it past `K` |
| Grouping.Visit | KDTree.py:45-66 | the body of `_create_grouping` at a node (offer the pivot, descend into the chosen branch, then into the other unless pruned) never shrinks the list nor takes it past `K` |
| Grouping.SearchKeepsInvariants | KDTree.py:44-79 | keys stay the negated distances of their observations, and every kept observation stays within `max_distance` |
| Grouping.ElemsNode | KDTree.py:85-96 | the chosen and the unchosen branch together hold the node's two subtrees |
| Grouping.SearchObservations | KDTree.py:44-68 | the search keeps only observations of the tree, each at most as often as the tree holds it, besides those it started with |
| Neighbours.Observations | KDTree.py:41 | `map(lambda …: nearest_observation[1], …)`: one observation per entry, the one at the same position |
| Grouping.CreateGrouping | KDTree.py:36-41 | no observations for `max_distance <= 0` or `K < 1`; otherwise at most `K` |
| Grouping.GroupingWithinRadius | KDTree.py:36-47 | every observation of the grouping is within `max_distance` of the query |
| Grouping.GroupingFromTree | KDTree.py:36-68 | the grouping holds only observations of the tree, none more often than the tree does |
| Pruning.NothingCloserKeepsList | KDTree.py:76-79 | when the list is full and nothing in a subtree is strictly closer than index 0, the subtree leaves the list unchanged |
| Pruning.UnchosenBeyondPlane | KDTree.py:89-94 | in an ordered tree the unchosen branch lies on the far side of the splitting plane |
| Pruning.GapBound | KDTree.py:112-114 | a coordinate beyond the plane is at least as far from the query's as the plane is |
| Pruning.FarPoint | KDTree.py:111-114 | the squared gap to the plane bounds from below the distance to any point beyond it |
| Pruning.FarSideIsFar | KDTree.py:111-114 | every observation of the unchosen branch is at least as far as the plane |
| Pruning.FartherThanPlane | KDTree.py:111-114 | when the plane is strictly farther than a bound, so is every observation beyond it |
| Pruning.PrunedBranchIsFar | KDTree.py:104-114 | a skipped branch holds only observations strictly farther than the entry at index 0 |
| Pruning.PruningIsExact | KDTree.py:59-66 | on an axis-ordered tree (as `build` returns), with keys that are the negated distances, skipping a branch as the source does gives the same list as always visiting it |
| Pruning.PruningNode | KDTree.py:44-68 | the node case of the exactness proof |
| Pruning.PruningChosen | KDTree.py:49-57 | the chosen branch gives the same list with and without pruning and keeps keys consistent |
| Pruning.PruningUnchosen | KDTree.py:59-66 | the unchosen branch, visited or skipped, gives what visiting it gives |
| Pruning.GroupingIgnoresPruning | KDTree.py:12-68 | for a tree returned by `build` and a query with at least its dimension, `create_grouping` equals the grouping of a descent that visits every branch |
| Coverage.InRange | KDTree.py:45-46 | the brute-force filter of the points within `max_distance` is no longer than its input |
| Coverage.InRangeCounts | KDTree.py:45-46 | the filter keeps every in-range occurrence and nothing else |
| Coverage.InRangePermutation | KDTree.py:45-46 | the filters of two permutations are permutations of each other |
| Coverage.InRangeConcat | KDTree.py:45-46 | the filter distributes over concatenation |
| Coverage.InRangeNode | KDTree.py:45-46 | the in-range points of a node: left subtree's, pivot if in range, right subtree's |
| Coverage.InRangeOfPoints | KDTree.py:45-46 | the node-by-node gathering of in-range points equals the filter of the tree's points |
| Coverage.CountInRangeIsSize | KDTree.py:45-46 | the node-by-node count is the number of in-range points |
| Coverage.BranchesPartition | KDTree.py:85-96 | the in-range points of a node are the pivot's and those of its chosen and unchosen branches |
| Coverage.SearchSize | KDTree.py:44-68 | the search ends with `min(K, held + in-range points of the tree)` entries: while below capacity nothing in range is missed |
| Coverage.SizeSteps | KDTree.py:45-66 | the three steps of a node add up to that count |
| Coverage.GroupingSize | KDTree.py:36-41 | the grouping holds `min(K, number of in-range observations)` observations |
| Coverage.SearchCollectsAll | KDTree.py:44-68 | with room for every in-range point, the search adds exactly those points and keeps the list ascending |
| Coverage.CollectsSteps | KDTree.py:45-66 | the node's three steps together add the pivot and the two branches' in-range points |
| Coverage.CollectsNode | KDTree.py:44-68 | the node case of the completeness proof |
| Coverage.GroupingComplete | KDTree.py:36-68 | with at most `K` in-range observations, the grouping is exactly those, as a multiset |
| Coverage.GroupingOfBuiltTree | KDTree.py:12-68 | for a built tree: `min(K, in-range count)` observations, and exactly the in-range ones when there are at most `K` |
| Coverage.GroupingNotClosest | KDTree.py:44-114 | on an axis-ordered four-point tree with room for two, every point is in range, yet the grouping misses a point (at 1.5) that is closer than one it keeps (at 2): after index 0 is overwritten, the unsorted list rejects it |
| Majority.Labels | KDTree.py:30 | the list comprehension: the label at each position is the classification of the observation at that position |
| Majority.CountIsMultiplicity | KDTree.py:31 | `Majority.Count`, the model of `classes.count(x)`, is the multiplicity of `x` in the list |
| Majority.CountTwo | KDTree.py:31 | two different labels occur together at most as often as the list is long |
| Majority.MostCommonFrom | KDTree.py:31 | the scan over the labels ends with a label of the list that no other label outnumbers |
| Majority.MostCommon | KDTree.py:31 | `max(set(classes), key=classes.count)` is a label of the list with maximal count |
| Majority.MostCommonStrictMajority | KDTree.py:31 | a label held by more than half of the list is the one returned |
| Majority.LabelCountPermutation | KDTree.py:30-31 | label counts do not depend on the order of the observations |
| Vote.PredictClass | KDTree.py:28-31 | the prediction is a label of maximal count among the grouping's labels, and there is none exactly when the grouping is empty |
| Vote.PredictNoNeighbours | KDTree.py:28-41 | there is no prediction exactly when the arguments are rejected or nothing lies within `max_distance` |
| Vote.PredictInRangeMajority | KDTree.py:28-68 | with at most `K` in-range observations and a strict majority of them labelled `x`, the prediction is `x` |
| Vote.TwoInRange | KDTree.py:12-68 | for a built tree with exactly two observations in range and `max_observations_in_grouping = 2`, the grouping is those two, and the vote is one of their labels |
| Vote.ExampleInRange | Observation.py:21-23 | of the points `[0, 0]`, `[10, 0]`, `[0, 10]` and `[1, 1]`, exactly the first and the last lie within distance 2 of `[0.5, 0.5]` |
| Vote.ExampleScenario | KDTree.py:12-68 | a four-point example: those four labelled points, queried at `[0.5, 0.5]` with `max_distance = 2` and room for two, give the points `[0, 0]` and `[1, 1]`, and the tied vote returns label 0 or 1 |

## Left out

- `main.py`: reading the CSV file and the demonstration query are input and output, with nothing to prove.
- Floating point and `math.sqrt`: distances are exact squared reals. The lemmas named above show that every comparison the search makes gives the same outcome on squares as on roots. Rounding is not modelled.
- The default argument `nearest_observations=[]` of `_create_grouping` is one list shared by every call. In the source, entries leak from one `create_grouping` call into the next. The model starts each call from an empty list, and makes no claim about repeated calls.
- The caller's list is sorted in place by `build`. The model's `build` is a pure function of its input sequence, and the aliasing effect on the caller is not modelled.
- Grouping.CreateGrouping: no claim that the grouping holds the `K` closest in-range observations. Once the list is full, the source overwrites index 0 and does not re-sort, so index 0 need not stay the farthest entry.
- Vote.PredictClass: for equal counts, the source returns the label met first while iterating over a Python `set`. That order is the set's hashing order, so the model promises only some label of maximal count.
- Vote.PredictClass: `max` over an empty set raises `ValueError` in the source. The model returns the value `NoNeighbours` instead of raising.
- Grouping.Search: a coordinate missing on the pivot or the query raises `IndexError` in the source. The model requires every node's split axis to exist on both (`Routable`). `Grouping.AxesCycleRoutable` shows that a tree built by `build` meets this for any query with at least its dimension.
- A tree built from no observations is `None` in the source, and calling `create_grouping` on `None` fails. In the model the empty tree is `Nil`, and searching it returns the list unchanged.
- KDTree.Build: requires every observation to have the same, non-zero number of features (`WellDimensioned`). The source demands less. It re-reads the dimension from the first observation of each slice at every level (`KDTree.py:16`), so mixed lengths such as `[[1, 2], [3]]` can still build when every sort key exists. A first observation with no features raises `ZeroDivisionError` there, and a missing sort key raises `IndexError` (`KDTree.py:17`). Neither error path nor mixed-length input is modelled.
- Neighbours.BisectRight: its own contract only bounds the index. What the index means is stated by `Neighbours.BisectRightFindsInsertionPoint`.
- Neighbours.Insort: its own contract gives only the new length. The contents and the order are stated by `Neighbours.InsortMultiset` and `Neighbours.InsortAscending`.
- Neighbours.AddNearest: its own contract gives only the new length. The contents are stated by `Neighbours.AddNearestContents`, `Neighbours.AddNearestAscending` and `Neighbours.AddNearestObservations`.
- Grouping.Offer: its own contract bounds the length only. When the pivot is kept is stated by `Grouping.OfferSize` and `Grouping.OfferUnderCapacity`.
- Grouping.Visit: its own contract bounds the length only, as for `Grouping.Search`, of which it is the node case.
- Grouping.Search: its own contract bounds the length only. What the descent keeps is stated by `Grouping.SearchKeepsInvariants`, `Grouping.SearchObservations`, `Coverage.SearchSize` and `Coverage.SearchCollectsAll`.
- Coverage.InRange: its own contract bounds the length only. What the filter keeps is stated by `Coverage.InRangeCounts`.
- `Observation.get_classification` and `get_features` are the two destructors of the `Obs` datatype, and the constructor is its constructor. Nothing about them needs proving.
- The label of the query observation is never read by the source. The model's query is an ordinary `Obs`, whose label plays no part.
