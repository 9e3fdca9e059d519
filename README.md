# geocluster, modelled in Dafny

`geocluster` (frontend/globe.js) groups an ordered list of `[lat, lon]` points
into clusters for the globe view. It works in two steps.

1. It derives a threshold from the input order. The threshold is the
   population standard deviation of the distances between consecutive points,
   times `bias`.
2. It runs passes over a list of clusters `{centroid, elements}` until a pass
   creates no cluster and moves no centroid. One pass does three things:
   - Each point joins its nearest centroid if that distance is below the
     threshold or exactly 0. Otherwise it starts a new cluster at the end.
   - Empty clusters are dropped.
   - Every centroid is reset to the mean of its members.

The project has five modules:

- `Geometry` (geometry.dfy): points, the component-wise sum and the centroid
  of `_centroid`, and what a mean satisfies.
- `Threshold` (threshold.dfy): the bias default, the consecutive distances,
  their mean and population variance, and the threshold. The two loops that
  compute them are methods proved against these functions.
- `Clusters` (clusters.dfy): one pass as functions, and what each step keeps.
  - `Closest` is the first nearest cluster.
  - `Place` and `AssignAll` are the assignment.
  - `Prune` drops empty clusters, and `Survivors` says where each survivor came from.
  - `Recentred`, `Changed` and `Cleared` recompute, compare and clear.
  - `Pass` is the three steps together, and `Pool` is the multiset of all members.
- `Stability` (stability.dfy): the loop and its exit condition.
  - `Iterate` is the loop.
  - `PassFixedPoint` proves that a map the loop stops at is a fixed point.
    One more pass from it, with its members cleared, returns the same map and
    asks to stop again.
- `GeoCluster` (geocluster.dfy): the loops of `_cluster` as methods, each proved
  to compute the function that specifies it.
  - `ClusterElements` is the whole routine.
  - `Clean` is `_clean`.

The distance `_dist` and `Math.sqrt` are parameters. `Math.random()` is
replaced by a `seed` index, and the unbounded loop gets a pass cap
`maxPasses` (see "Left out").

Three behaviours of the code are kept as they are:

- With fewer than two points the code divides 0 by 0 and gets a NaN
  threshold. The model keeps it (`Threshold.NaN`), which no comparison
  accepts, so then only a distance of exactly 0 lets a point join.
  `GeoCluster.SinglePoint` shows what this gives for one point.
- The code has no pass cap. `maxPasses` and `converged` belong to the model
  only.
- `_clean` is never called. The routine returns the cluster objects
  themselves.

## Model

| member | source | states |
|---|---|---|
| Geometry.Centroid | frontend/globe.js:18-24 | `_centroid`: the component-wise sum divided by the number of members; the sum is `Sum`, the `reduce` folded left to right from `[0, 0]`; its properties are stated by `SumAppend`, `SumPermutation`, `CentroidInBox`, `CentroidPermutation` and `CentroidOfCopies` |
| Geometry.SumAppend | frontend/globe.js:19-21 | the component-wise `reduce` over a concatenation is the sum of the two parts' sums |
| Geometry.SumPermutation | frontend/globe.js:19-21 | the component-wise sum does not depend on the order of the points (equal multisets give equal sums) |
| Geometry.CentroidPermutation | frontend/globe.js:18-24 | the centroid of a member list depends only on the multiset of its members |
| Geometry.CentroidInBox | frontend/globe.js:18-24 | the centroid is a mean: it lies in every latitude/longitude box that holds all the members |
| Geometry.CentroidOfCopies | frontend/globe.js:18-24 | a cluster whose members all equal one point has that point as centroid |
| Estimate.EffectiveBias | frontend/globe.js:37 | a number other than NaN is used unchanged; NaN or a non-number becomes 1 |
| Estimate.Diffs | frontend/globe.js:44-48 | there are `n - 1` distances (none for an empty input), and entry `j` is the distance from point `j + 1` to point `j`, in input order |
| Estimate.ThresholdOf | frontend/globe.js:39-61 | the threshold is a finite number exactly when there are at least two points, and NaN otherwise. It is built from `Diffs`, their `Total`, the `Mean`, the `SquaredDeviation` sum, the `PopulationVariance` and `ScaledDeviation` (the root times the bias); their properties are stated by `PopulationVarianceNonNegative`, `ThresholdSquared` and `ThresholdMonotoneInBias` |
| Estimate.PopulationVarianceNonNegative | frontend/globe.js:55-60 | the population variance of the distances is never negative, so its square root is defined |
| Estimate.ThresholdSquared | frontend/globe.js:55-61 | when `sqrt` is a true square root at the variance, threshold squared equals variance times bias squared |
| Estimate.ThresholdMonotoneInBias | frontend/globe.js:61 | with a non-negative standard deviation, a larger effective bias never gives a smaller threshold |
| Estimate.ConsecutiveDistances | frontend/globe.js:39-48 | the `for` loop builds exactly `Diffs(elements)` and its total `tot_diff` |
| Estimate.SumSquaredDeviations | frontend/globe.js:51-57 | the `forEach` adds up exactly the squared deviations of every distance from the mean |
| Estimate.EstimateThreshold | frontend/globe.js:36-61 | the imperative estimate equals `ThresholdOf`: NaN with fewer than two points, otherwise `sqrt(population variance) * bias` |
| Clusters.Joins | frontend/globe.js:98 | the join test: `closest_dist < threshold` or `closest_dist === 0`, with every comparison against NaN false; `ZeroDistanceJoins` and `MinimalBias` use it |
| Clusters.Closest | frontend/globe.js:81-95 | the chosen index is a nearest cluster and the first of the nearest (strictly closer than every earlier one) |
| Clusters.ClosestUnique | frontend/globe.js:81-95 | only one index is the first nearest cluster |
| Clusters.ClosestOnlyReadsCentroids | frontend/globe.js:85-95 | the choice depends only on the centroids, not on the members |
| Clusters.Place | frontend/globe.js:98-113 | one element joins its nearest cluster or starts a new one at the end; `PlacePool`, `ZeroDistanceJoins` and `PlaceIntoGather` state what it does |
| Clusters.AssignAll | frontend/globe.js:79-115 | a pass's assignment never removes a cluster, and `new_cluster` is set exactly when clusters were added |
| Clusters.PoolUpdate | frontend/globe.js:101 | replacing one cluster changes the multiset of all members by exactly that cluster's members |
| Clusters.PoolAppend | frontend/globe.js:106-109 | appending clusters adds exactly their members to the multiset of all members |
| Clusters.PlacePool | frontend/globe.js:98-113 | placing one element adds exactly that element, once, to the members |
| Clusters.AssignAllPool | frontend/globe.js:79-115 | after assignment, the members are the members before plus every element exactly once |
| Clusters.AssignAllShape | frontend/globe.js:98-113 | earlier clusters keep their centroids and only gain members at the end; each added cluster is centred on an input element that is also its first member |
| Clusters.ZeroDistanceJoins | frontend/globe.js:98 | a point at distance 0 from some centroid, with no distance negative, joins an existing cluster at distance 0, whatever the threshold |
| Clusters.Prune | frontend/globe.js:118-120 | the filter never adds clusters, and every cluster it keeps has members |
| Clusters.PruneAppend | frontend/globe.js:118-120 | filtering a concatenation filters each part |
| Clusters.PruneOne | frontend/globe.js:118-120 | a single cluster is kept exactly when it has members |
| Clusters.PruneKeepsNonEmpty | frontend/globe.js:118-120 | a map with no empty cluster is left unchanged |
| Clusters.PrunePool | frontend/globe.js:118-120 | dropping empty clusters loses no member |
| Clusters.SurvivorsSelect | frontend/globe.js:118-120 | survivor `i` is, unchanged, the cluster at position `Survivors[i]` of the map before |
| Clusters.SurvivorsIncreasing | frontend/globe.js:118-120 | survivors keep their relative order |
| Clusters.SurvivorsComplete | frontend/globe.js:118-120 | a position survives exactly when its cluster has members |
| Clusters.Recentred | frontend/globe.js:123-129 | every centroid reset to the mean of its members; `RecentredMeans` and `RecentredUnchanged` state its properties |
| Clusters.Changed | frontend/globe.js:125-127 | `cluster_changed`: some new centroid differs from the old one in a coordinate; `RecomputeCentroids` and `RecentredUnchanged` use it |
| Clusters.RecentredMeans | frontend/globe.js:123-129 | after recomputing, each cluster keeps its members and has their mean as centroid, and no member is lost |
| Clusters.RecentredUnchanged | frontend/globe.js:123-129 | when `cluster_changed` stays false, recomputing leaves the map as it was |
| Clusters.Cleared | frontend/globe.js:136-139 | every member list emptied, every centroid kept; stated by `ClearedShape` |
| Clusters.ClearedShape | frontend/globe.js:136-139 | clearing keeps every cluster and its centroid and empties every member list |
| Clusters.Pass | frontend/globe.js:79-129 | one pass (assign, prune, recompute) and the flag that is set when `new_cluster` or `cluster_changed` is; `PassPartition` and `PassFixedPoint` state its properties |
| Clusters.PassPartition | frontend/globe.js:79-129 | a pass from a map with no members leaves a partition of the input into non-empty clusters whose centroids are their means |
| Clusters.ClusterCountBound | frontend/globe.js:118-129 | non-empty clusters holding the members number at most the members |
| Stability.GatheredContains | frontend/globe.js:98-101 | an element that joins goes to the cluster nearest to it |
| Stability.GatheredAgree | frontend/globe.js:79-101 | two maps that send the same elements to a cluster gather the same member list there, in input order |
| Stability.GatherSnoc | frontend/globe.js:101 | one more joining element is appended to its nearest cluster and nowhere else |
| Stability.PlaceIntoGather | frontend/globe.js:98-113 | the next element joins its nearest cluster exactly when it is close enough, and otherwise starts a cluster |
| Stability.AssignAllNoNew | frontend/globe.js:79-115 | a pass sets no `new_cluster` exactly when every element is close enough to its nearest starting centroid, and then each element is appended to that cluster |
| Stability.PassFixedPoint | frontend/globe.js:132-140 | when a pass from a cleared map ends with neither `new_cluster` nor `cluster_changed`, one more pass from its result, cleared, gives the same map and asks to stop again |
| Stability.StableAfterQuietPass | frontend/globe.js:132-140 | the fixed-point property for a non-empty input |
| Stability.Regather | frontend/globe.js:79-120 | after a quiet pass, every element joins again, and each survivor gathers exactly the members it had |
| Stability.RegatherOne | frontend/globe.js:79-120 | one survivor gathers, in the next pass, exactly the members it had |
| Stability.NearestAfterPrune | frontend/globe.js:81-120 | after pruning, each element's nearest survivor is the cluster it joined |
| Stability.ClosestOfSurvivor | frontend/globe.js:81-95 | dropping clusters other than an element's nearest one does not change which cluster is nearest |
| Stability.PassNonEmpty | frontend/globe.js:79-120 | a pass over at least one element leaves at least one cluster, so the next pass has one to compare with |
| Stability.Iterate | frontend/globe.js:72-145 | the `while (changing)` loop with a pass cap, clearing the members between passes; `IterateSound` states what it returns |
| Stability.IterateSound | frontend/globe.js:72-145 | the loop returns a partition of the input into at most `n` non-empty clusters, each centred on its mean; when it stops on its own, the result is a fixed point |
| Stability.GatheredFrom | frontend/globe.js:85-101 | every element a cluster gathers comes from the input and has that cluster as its nearest |
| Stability.MinimalBias | frontend/globe.js:98 | when the distance is non-negative and the threshold is NaN or at most 0, only `closest_dist === 0` lets an element join: every member of a stable map is at distance 0 from its cluster's centroid |
| Stability.MinimalBiasExact | frontend/globe.js:98 | the corollary for a distance that is 0 only between equal points: then every member of a stable map equals its centroid. `_dist` is not such a distance (see `RoundedDistanceShares`) |
| Stability.RoundedDistanceShares | frontend/globe.js:15 | under a distance that rounds every pair to 0, as `_dist` does for points less than 5 m apart, the points (0, 0) and (0, 0.5) share a stable cluster centred on (0, 0.25) at threshold 0, and neither equals the centroid |
| Stability.GatherAtCentroid | frontend/globe.js:85-101 | from a map with no members, when every element joins and the threshold is NaN or at most 0 (so only a distance of 0 joins), every element a cluster gathers is at distance 0 from its centroid |
| Stability.PruneAtCentroid | frontend/globe.js:118-120 | the filter keeps clusters whole, so a map whose members are all at distance 0 from their centroids keeps that property |
| GeoCluster.FindClosest | frontend/globe.js:81-95 | the scan that starts from `Infinity` and moves only on a strictly smaller distance returns the first nearest cluster and its distance |
| GeoCluster.AssignElements | frontend/globe.js:79-115 | the `forEach` over the elements computes the assignment `AssignAll`, `new_cluster` included |
| GeoCluster.DropEmpty | frontend/globe.js:118-120 | the loop keeps exactly the clusters with members, in order (`Prune`) |
| GeoCluster.RecomputeCentroids | frontend/globe.js:123-129 | every centroid becomes the mean of its members, and `cluster_changed` is set exactly when some centroid differed in a coordinate |
| GeoCluster.Initial | frontend/globe.js:66-69 | the loop starts from one empty cluster centred on an input element |
| GeoCluster.ClusterElements | frontend/globe.js:32-146 | the routine computes `Iterate` from the threshold of its input; the result partitions the input into at most `n` non-empty clusters centred on their means, and is a fixed point when the loop stopped on its own |
| GeoCluster.SinglePoint | frontend/globe.js:51-61 | one point, with its NaN threshold, ends after one pass as a single cluster holding that point and centred on it, whatever the bias |
| GeoCluster.SinglePointPass | frontend/globe.js:79-129 | for one point and the empty cluster centred on it, a pass keeps that cluster with the point as its only member, and sets neither `new_cluster` nor `cluster_changed` |
| GeoCluster.Clean | frontend/globe.js:26-30 | `_clean` gives one pair per cluster |
| GeoCluster.CleanLossless | frontend/globe.js:26-30 | the pairs give back the clusters: nothing is lost |

## Left out

- `_dist` (frontend/globe.js:11-16) is a parameter. The haversine formula, the Earth radius, the rounding to two decimals and the `toRad` polyfill (frontend/globe.js:3) are floating-point trigonometry and are not modelled. No property of a metric is assumed, except where a lemma states it in its `requires`.
- `Math.sqrt` (frontend/globe.js:60) is a parameter. `Math.pow(x, 2)` is `x * x`.
- Floating point is not modelled. Coordinates, distances and the threshold are exact reals. The `!==` comparison of centroids is exact equality.
- Of JavaScript's NaN, only two cases are modelled: the `bias` default, and the 0/0 threshold with fewer than two points.
- A distance that is NaN or `Infinity`, which would leave `closest_cluster` null, cannot occur, because distances are reals.
- `Math.random()` (frontend/globe.js:67) is replaced by the index `seed`.
- For an empty input, the source's initial centroid is `undefined`. The model uses a placeholder point, which is never compared with anything.
- The `while (changing)` loop has no bound. `ClusterElements` and `Iterate` stop after at most `maxPasses` passes and report through `converged` whether the loop stopped on its own.
- The source has no termination argument, and none is given here.
- The cluster map and its records are updated in place in the source. The model reassigns a sequence of values instead. No alias can observe the difference: the records never leave the routine while it runs, and points are never mutated.
- The implicit globals `i` (frontend/globe.js:44) and `dist` (frontend/globe.js:88) leak out of the routine. They are not modelled.
- The `geocluster` wrapper (frontend/globe.js:5-8) only calls `_cluster`, and `ClusterElements` stands for both.
- Two further properties of the clustering are not proved:
  - that the number of clusters falls as `bias` grows;
  - that a bias large enough for the threshold to exceed every distance gives one cluster.

  Both relate the planar mean of a cluster's members to distances from it. An abstract distance does not constrain that relation, and with `_dist` the second one fails. Take A = (0, 179), B = (0, -179) and C = (0, 179.5), 0.5, 1.5 and 2 degrees apart across the antimeridian (about 55, 167 and 222 km), and a bias near 10.8, which makes the threshold about 300 km. The first pass puts all three points in one cluster. Its planar mean has longitude 59.83, about 13,000 km from each of them. Every later pass then opens a new cluster at the first point, gathers all three into it and moves its centroid back to 59.83, so `while (changing)` (frontend/globe.js:73) never stops.
- Estimate.ThresholdMonotoneInBias: it assumes the standard deviation `sqrt` returns is non-negative, since `sqrt` is a parameter.
- `renderGlobe`, `showGlobe` and the rest of frontend/globe.js (fetching, the Three.js scene, animation) are not part of this model. Neither is server.go (DNS crawling, SQLite, HTTP).
