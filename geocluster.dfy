/**
 The loops of `geocluster.prototype._cluster` (frontend/globe.js), step by
 step, each proved to compute the function of the `Clusters` and `Stability`
 modules that specifies it, and `_clean`.

 The cluster map is a local array of objects in the source that the loop
 updates in place; here it is a sequence of `Cluster` values that each step
 reassigns. The objects never escape the routine while it runs, so no alias
 can observe the difference.
 */
module GeoCluster {
  import opened Geometry
  import opened Estimate
  import opened Clusters
  import opened Stability

  /**
   The inner `forEach` that looks for the closest cluster. `closest_dist`
   starts at `Infinity`, so the first cluster is always taken; after that only
   a strictly smaller distance moves the choice.
   */
  method FindClosest(cs: seq<Cluster>, e: Point, dist: Distance) returns (closest: nat, closestDist: real)
    requires cs != []
    ensures IsFirstClosest(cs, e, dist, closest)
    ensures closest == Closest(cs, e, dist)
    ensures closestDist == dist(e, cs[closest].centroid)
  {
    // `closest_dist = Infinity` is `ci == 0`: nothing compares above it
    closest, closestDist := 0, 0.0;
    var ci := 0;
    while ci < |cs|
      invariant 0 <= ci <= |cs|
      invariant ci > 0 ==> IsFirstClosest(cs[..ci], e, dist, closest)
      invariant ci > 0 ==> closest < ci && closestDist == dist(e, cs[closest].centroid)
    {
      var d := dist(e, cs[ci].centroid);
      if ci == 0 || d < closestDist {
        closest, closestDist := ci, d;
      }
      ci := ci + 1;
    }
    assert cs[..ci] == cs;
    ClosestUnique(cs, e, dist, closest);
  }

  /** The outer `forEach` over the elements: each is placed into the map the ones before it left. */
  method AssignElements(cs: seq<Cluster>, elements: seq<Point>, dist: Distance, threshold: Threshold)
    returns (clusters: seq<Cluster>, newCluster: bool)
    requires cs != [] || elements == []
    ensures (clusters, newCluster) == AssignAll(cs, elements, dist, threshold)
  {
    clusters, newCluster := cs, false;
    var ei := 0;
    while ei < |elements|
      invariant 0 <= ei <= |elements|
      invariant (clusters, newCluster) == AssignAll(cs, elements[..ei], dist, threshold)
    {
      var e := elements[ei];
      assert elements[..ei + 1][..ei] == elements[..ei];
      var closest, closestDist := FindClosest(clusters, e, dist);
      if Joins(closestDist, threshold) {
        clusters := clusters[closest := Cluster(clusters[closest].centroid, clusters[closest].members + [e])];
      } else {
        clusters := clusters + [Cluster(e, [e])];
        newCluster := true;
      }
      ei := ei + 1;
    }
    assert elements[..ei] == elements;
  }

  /** The `filter` that deletes empty clusters. */
  method DropEmpty(cs: seq<Cluster>) returns (kept: seq<Cluster>)
    ensures kept == Prune(cs)
  {
    kept := [];
    var ci := 0;
    while ci < |cs|
      invariant 0 <= ci <= |cs|
      invariant kept == Prune(cs[..ci])
    {
      assert cs[..ci + 1] == cs[..ci] + [cs[ci]];
      PruneAppend(cs[..ci], [cs[ci]]);
      PruneOne(cs[ci]);
      if cs[ci].members != [] {
        kept := kept + [cs[ci]];
      }
      ci := ci + 1;
    }
    assert cs[..ci] == cs;
  }

  /**
   The `forEach` that recomputes every centroid and sets `cluster_changed`
   when one differs from the old one in either coordinate.
   */
  method RecomputeCentroids(cs: seq<Cluster>) returns (recentred: seq<Cluster>, clusterChanged: bool)
    requires AllNonEmpty(cs)
    ensures recentred == Recentred(cs)
    ensures clusterChanged == Changed(cs)
  {
    recentred, clusterChanged := cs, false;
    var ci := 0;
    while ci < |cs|
      invariant 0 <= ci <= |cs| && |recentred| == |cs|
      invariant forall j :: 0 <= j < ci ==> recentred[j] == Cluster(Centroid(cs[j].members), cs[j].members)
      invariant forall j :: ci <= j < |cs| ==> recentred[j] == cs[j]
      invariant clusterChanged <==> exists j :: 0 <= j < ci && Centroid(cs[j].members) != cs[j].centroid
    {
      var centroid := Centroid(recentred[ci].members);
      if centroid.lat != recentred[ci].centroid.lat || centroid.lon != recentred[ci].centroid.lon {
        recentred := recentred[ci := Cluster(centroid, recentred[ci].members)];
        clusterChanged := true;
      }
      ci := ci + 1;
    }
  }

  /** The map `_cluster` starts from: one empty cluster centred on the element picked at random. */
  function Initial(elements: seq<Point>, seed: nat): (cs: seq<Cluster>)
    requires seed < |elements| || elements == []
    ensures |cs| == 1 && AllEmpty(cs)
    ensures elements != [] ==> cs[0].centroid in elements
  {
    [Cluster(if elements == [] then Point(0.0, 0.0) else elements[seed], [])]
  }

  /**
   `_cluster`: estimate the threshold, then run passes (assign, drop empty
   clusters, recompute centroids) until one neither creates a cluster nor
   moves a centroid, clearing the members between passes. The random pick of
   the first centroid is the index `seed`; at most `maxPasses` passes are run,
   and `converged` says whether the loop stopped on its own.
   */
  method ClusterElements(elements: seq<Point>, bias: BiasArg, seed: nat, maxPasses: nat, dist: Distance, sqrt: real -> real)
    returns (clusters: seq<Cluster>, converged: bool)
    requires seed < |elements| || elements == []
    requires maxPasses > 0
    ensures (clusters, converged)
         == Iterate(Initial(elements, seed), elements, dist, ThresholdOf(elements, bias, dist, sqrt), maxPasses)
    ensures Pool(clusters) == multiset(elements)
    ensures AllNonEmpty(clusters) && |clusters| <= |elements|
    ensures forall i :: 0 <= i < |clusters| ==> clusters[i].centroid == Centroid(clusters[i].members)
    ensures converged ==> Stable(clusters, elements, dist, ThresholdOf(elements, bias, dist, sqrt))
  {
    var threshold := EstimateThreshold(elements, bias, dist, sqrt);
    var start := Initial(elements, seed);
    ghost var goal := Iterate(start, elements, dist, threshold, maxPasses);
    var cs := start;
    var fuel := maxPasses;
    var changing := true;
    clusters, converged := [], false;
    while changing
      invariant changing ==> fuel > 0 && (cs != [] || elements == []) && AllEmpty(cs)
      invariant changing ==> Iterate(cs, elements, dist, threshold, fuel) == goal
      invariant !changing ==> (clusters, converged) == goal
      decreases fuel + (if changing then 1 else 0)
    {
      var placed, newCluster := AssignElements(cs, elements, dist, threshold);
      var kept := DropEmpty(placed);
      var recentred, clusterChanged := RecomputeCentroids(kept);
      if !clusterChanged && !newCluster {
        clusters, converged, changing := recentred, true, false;
      } else if fuel == 1 {
        clusters, converged, changing := recentred, false, false;
      } else {
        PassNonEmpty(cs, elements, dist, threshold);
        ClearedShape(recentred);
        cs, fuel := Cleared(recentred), fuel - 1;
      }
    }
    IterateSound(start, elements, dist, threshold, maxPasses);
  }

  /**
   A single point, for which the threshold is NaN, ends as one cluster holding
   that point and centred on it, after one pass, whatever the bias.
   */
  lemma SinglePoint(p: Point, bias: BiasArg, dist: Distance, sqrt: real -> real, maxPasses: nat)
    requires dist(p, p) == 0.0 && maxPasses > 0
    ensures Iterate(Initial([p], 0), [p], dist, ThresholdOf([p], bias, dist, sqrt), maxPasses)
         == ([Cluster(p, [p])], true)
  {
    var t := ThresholdOf([p], bias, dist, sqrt);
    SinglePointPass(p, dist, t);
  }

  /** The one pass: the point joins the cluster centred on it, which then neither goes nor moves. */
  lemma SinglePointPass(p: Point, dist: Distance, t: Threshold)
    requires dist(p, p) == 0.0
    ensures Pass([Cluster(p, [])], [p], dist, t) == ([Cluster(p, [p])], false)
  {
    var one := [Cluster(p, [p])];
    SinglePointJoins(p, dist, t);
    assert Prune(one) == one by {
      PruneOne(one[0]);
    }
    CentroidOfCopies([p], p);
    assert Recentred(one) == one;
  }

  lemma SinglePointJoins(p: Point, dist: Distance, t: Threshold)
    requires dist(p, p) == 0.0
    ensures AssignAll([Cluster(p, [])], [p], dist, t) == ([Cluster(p, [p])], false)
  {
    var start := [Cluster(p, [])];
    AssignAllStep(start, [], p, dist, t);
    assert [] + [p] == [p];
    assert Closest(start, p, dist) == 0;
    assert Joins(dist(p, start[0].centroid), t);
    assert start[0 := Cluster(p, [] + [p])] == [Cluster(p, [p])];
  }

  /** `_clean`: each cluster as the pair `[centroid, elements]`. */
  function Clean(cs: seq<Cluster>): (r: seq<(Point, seq<Point>)>)
    ensures |r| == |cs|
  {
    seq(|cs|, i requires 0 <= i < |cs| => (cs[i].centroid, cs[i].members))
  }

  /** The pairs `_clean` produces lose nothing: they give the clusters back. */
  lemma CleanLossless(cs: seq<Cluster>)
    ensures var r := Clean(cs);
      seq(|r|, i requires 0 <= i < |r| => Cluster(r[i].0, r[i].1)) == cs
  {
  }
}
