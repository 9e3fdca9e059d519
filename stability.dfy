/**
 What the `while (changing)` loop of `geocluster.prototype._cluster`
 (frontend/globe.js) stops at. When a pass creates no cluster and moves no
 centroid, the loop ends; the map it returns is then a fixed point: one more
 pass from that map with its members cleared gives the same map back and
 again asks to stop.
 */
module Stability {
  import opened Geometry
  import opened Estimate
  import opened Clusters

  /** The elements of `es`, in order, whose nearest centroid in `cs` is cluster `k`. */
  function Gathered(cs: seq<Cluster>, es: seq<Point>, dist: Distance, k: nat): seq<Point>
    requires cs != []
  {
    if es == [] then []
    else
      var e := es[|es| - 1];
      Gathered(cs, es[..|es| - 1], dist, k) + (if Closest(cs, e, dist) == k then [e] else [])
  }

  /** Every element is close enough to its nearest centroid to join it. */
  ghost predicate AllJoin(cs: seq<Cluster>, es: seq<Point>, dist: Distance, t: Threshold)
    requires cs != []
  {
    forall i :: 0 <= i < |es| ==> Joins(dist(es[i], cs[Closest(cs, es[i], dist)].centroid), t)
  }

  /** The map after a pass in which every element joins: each cluster gains the elements nearest to it. */
  function Gather(cs: seq<Cluster>, es: seq<Point>, dist: Distance): seq<Cluster>
    requires cs != []
  {
    seq(|cs|, k requires 0 <= k < |cs| => Cluster(cs[k].centroid, cs[k].members + Gathered(cs, es, dist, k)))
  }

  lemma GatheredSnoc(cs: seq<Cluster>, es: seq<Point>, e: Point, dist: Distance, k: nat)
    requires cs != []
    ensures Gathered(cs, es + [e], dist, k)
         == Gathered(cs, es, dist, k) + (if Closest(cs, e, dist) == k then [e] else [])
  {
    assert (es + [e])[..|es|] == es;
  }

  /** An element is gathered by the cluster nearest to it. */
  lemma {:induction false} GatheredContains(cs: seq<Cluster>, es: seq<Point>, dist: Distance, i: nat)
    requires cs != [] && i < |es|
    ensures es[i] in Gathered(cs, es, dist, Closest(cs, es[i], dist))
    decreases |es|
  {
    if i < |es| - 1 {
      GatheredContains(cs, es[..|es| - 1], dist, i);
    }
  }

  /** Two maps that agree on which elements go to clusters `k1` and `k2` gather the same elements there. */
  lemma {:induction false} GatheredAgree(cs1: seq<Cluster>, k1: nat, cs2: seq<Cluster>, k2: nat, es: seq<Point>, dist: Distance)
    requires cs1 != [] && cs2 != []
    requires forall i :: 0 <= i < |es| ==> (Closest(cs1, es[i], dist) == k1 <==> Closest(cs2, es[i], dist) == k2)
    ensures Gathered(cs1, es, dist, k1) == Gathered(cs2, es, dist, k2)
    decreases |es|
  {
    if es != [] {
      var es' := es[..|es| - 1];
      assert forall i :: 0 <= i < |es'| ==> es'[i] == es[i];
      GatheredAgree(cs1, k1, cs2, k2, es', dist);
    }
  }

  /** Gathering moves no centroid. */
  lemma GatherKeepsCentroids(cs: seq<Cluster>, es: seq<Point>, dist: Distance, e: Point)
    requires cs != []
    ensures |Gather(cs, es, dist)| == |cs|
    ensures Closest(Gather(cs, es, dist), e, dist) == Closest(cs, e, dist)
  {
    ClosestOnlyReadsCentroids(cs, Gather(cs, es, dist), e, dist);
  }

  lemma AllJoinSnoc(cs: seq<Cluster>, es: seq<Point>, e: Point, dist: Distance, t: Threshold)
    requires cs != []
    ensures AllJoin(cs, es + [e], dist, t)
        <==> AllJoin(cs, es, dist, t) && Joins(dist(e, cs[Closest(cs, e, dist)].centroid), t)
  {
    var es2 := es + [e];
    assert forall i :: 0 <= i < |es| ==> es2[i] == es[i];
    assert es2[|es|] == e;
  }

  /** Adding one more element that joins adds it to its nearest cluster and nowhere else. */
  lemma GatherSnoc(cs: seq<Cluster>, es: seq<Point>, e: Point, dist: Distance)
    requires cs != []
    ensures var g := Gather(cs, es, dist);
      var k := Closest(cs, e, dist);
      Gather(cs, es + [e], dist) == g[k := Cluster(g[k].centroid, g[k].members + [e])]
  {
    var g := Gather(cs, es, dist);
    var k := Closest(cs, e, dist);
    var g' := Gather(cs, es + [e], dist);
    var h := g[k := Cluster(g[k].centroid, g[k].members + [e])];
    forall j | 0 <= j < |cs|
      ensures g'[j] == h[j]
    {
      GatherSnocAt(cs, es, e, dist, j);
    }
  }

  lemma GatherSnocAt(cs: seq<Cluster>, es: seq<Point>, e: Point, dist: Distance, j: nat)
    requires cs != [] && j < |cs|
    ensures var g := Gather(cs, es, dist);
      Gather(cs, es + [e], dist)[j]
        == Cluster(g[j].centroid, g[j].members + (if Closest(cs, e, dist) == j then [e] else []))
  {
    var gathered := Gathered(cs, es, dist, j);
    var added := if Closest(cs, e, dist) == j then [e] else [];
    GatheredSnoc(cs, es, e, dist, j);
    assert Gather(cs, es, dist)[j].members == cs[j].members + gathered;
    assert Gather(cs, es + [e], dist)[j].members == cs[j].members + (gathered + added);
    assert cs[j].members + (gathered + added) == (cs[j].members + gathered) + added;
  }

  /** Placing the next element into a gathered map: it joins its nearest cluster, or the pass creates one. */
  lemma PlaceIntoGather(cs: seq<Cluster>, es: seq<Point>, e: Point, dist: Distance, t: Threshold)
    requires cs != []
    ensures var r := Place(Gather(cs, es, dist), e, dist, t);
      var joins := Joins(dist(e, cs[Closest(cs, e, dist)].centroid), t);
      (r.1 <==> !joins) && (joins ==> r.0 == Gather(cs, es + [e], dist))
  {
    var g := Gather(cs, es, dist);
    var k := Closest(cs, e, dist);
    GatherKeepsCentroids(cs, es, dist, e);
    assert g[k].centroid == cs[k].centroid;
    GatherSnoc(cs, es, e, dist);
  }

  /**
   A pass creates no cluster exactly when every element is close enough to its
   nearest starting centroid; the map is then the starting one with each
   element added to its nearest cluster.
   */
  lemma {:induction false} AssignAllNoNew(cs: seq<Cluster>, es: seq<Point>, dist: Distance, t: Threshold)
    requires cs != []
    ensures !AssignAll(cs, es, dist, t).1 <==> AllJoin(cs, es, dist, t)
    ensures AllJoin(cs, es, dist, t) ==> AssignAll(cs, es, dist, t).0 == Gather(cs, es, dist)
    decreases |es|
  {
    if es == [] {
      var g := Gather(cs, es, dist);
      forall k | 0 <= k < |cs|
        ensures g[k] == cs[k]
      {
        assert cs[k].members + [] == cs[k].members;
      }
    } else {
      var es', e := es[..|es| - 1], es[|es| - 1];
      assert es == es' + [e];
      AssignAllNoNew(cs, es', dist, t);
      AllJoinSnoc(cs, es', e, dist, t);
      AssignAllStep(cs, es', e, dist, t);
      if !AssignAll(cs, es', dist, t).1 {
        PlaceIntoGather(cs, es', e, dist, t);
      }
    }
  }

  /**
   The map a converged loop returns: one more pass from it, with its members
   cleared, gives it back unchanged and does not ask for another pass.
   */
  ghost predicate Stable(cs: seq<Cluster>, es: seq<Point>, dist: Distance, t: Threshold)
  {
    (cs != [] || es == []) && Pass(Cleared(cs), es, dist, t) == (cs, false)
  }

  /**
   The loop's exit condition is enough for a fixed point: when a pass from a
   map with no members ends with neither `new_cluster` nor `cluster_changed`,
   the map it leaves is stable.
   */
  lemma PassFixedPoint(cs: seq<Cluster>, es: seq<Point>, dist: Distance, t: Threshold)
    requires cs != [] || es == []
    requires AllEmpty(cs)
    requires !Pass(cs, es, dist, t).1
    ensures Stable(Pass(cs, es, dist, t).0, es, dist, t)
  {
    var s := Pass(cs, es, dist, t).0;
    if es == [] {
      assert AssignAll(cs, es, dist, t).0 == cs;
      PrunePool(cs);
      PoolOfAllEmpty(cs);
      PassPartition(cs, es, dist, t);
      ClusterCountBound(s);
      assert s == [];
    } else {
      StableAfterQuietPass(cs, es, dist, t);
    }
  }

  /** The case of `PassFixedPoint` with at least one element. */
  lemma StableAfterQuietPass(cs: seq<Cluster>, es: seq<Point>, dist: Distance, t: Threshold)
    requires cs != [] && es != []
    requires AllEmpty(cs)
    requires !Pass(cs, es, dist, t).1
    ensures Stable(Pass(cs, es, dist, t).0, es, dist, t)
  {
    var q := AssignAll(cs, es, dist, t).0;
    var s := Prune(q);
    AssignAllNoNew(cs, es, dist, t);
    assert q == Gather(cs, es, dist);
    RecentredUnchanged(s);
    assert Pass(cs, es, dist, t).0 == s;
    var c := Cleared(s);
    Regather(cs, es, dist, t);
    AssignAllNoNew(c, es, dist, t);
    PruneKeepsNonEmpty(s);
    PassPartition(cs, es, dist, t);
    assert !Changed(s);
    RecentredUnchanged(s);
  }

  /**
   The second pass of the fixed-point argument: from the survivors of a pass
   in which every element joined, cleared, every element joins again, and the
   survivor it was gathered by gathers exactly the same elements.
   */
  lemma Regather(cs: seq<Cluster>, es: seq<Point>, dist: Distance, t: Threshold)
    requires cs != [] && es != []
    requires AllEmpty(cs) && AllJoin(cs, es, dist, t)
    ensures var s := Prune(Gather(cs, es, dist));
      s != [] && AllJoin(Cleared(s), es, dist, t) && Gather(Cleared(s), es, dist) == s
  {
    var q := Gather(cs, es, dist);
    var s := Prune(q);
    var c := Cleared(s);
    var idx := Survivors(q);
    SurvivorsSelect(q);
    NearestAfterPrune(cs, es, dist, 0);
    forall i | 0 <= i < |es|
      ensures Joins(dist(es[i], c[Closest(c, es[i], dist)].centroid), t)
    {
      NearestAfterPrune(cs, es, dist, i);
      var j := Closest(c, es[i], dist);
      assert c[j].centroid == q[idx[j]].centroid == cs[idx[j]].centroid;
    }
    var g := Gather(c, es, dist);
    forall j | 0 <= j < |s|
      ensures g[j] == s[j]
    {
      RegatherOne(cs, es, dist, j);
    }
  }

  /** One survivor gathers in the second pass what its original cluster gathered in the first. */
  lemma RegatherOne(cs: seq<Cluster>, es: seq<Point>, dist: Distance, j: nat)
    requires cs != [] && es != [] && AllEmpty(cs)
    requires j < |Prune(Gather(cs, es, dist))|
    ensures var s := Prune(Gather(cs, es, dist));
      Cleared(s) != [] && Gather(Cleared(s), es, dist)[j] == s[j]
  {
    var q := Gather(cs, es, dist);
    var s := Prune(q);
    var c := Cleared(s);
    var idx := Survivors(q);
    SurvivorsSelect(q);
    SurvivorsIncreasing(q);
    forall i | 0 <= i < |es|
      ensures Closest(c, es[i], dist) == j <==> Closest(cs, es[i], dist) == idx[j]
    {
      NearestAfterPrune(cs, es, dist, i);
      var j' := Closest(c, es[i], dist);
      if j' != j {
        assert idx[j'] != idx[j] by {
          if j' < j {
            assert idx[j'] < idx[j];
          } else {
            assert idx[j] < idx[j'];
          }
        }
      }
    }
    GatheredAgree(c, j, cs, idx[j], es, dist);
    assert s[j] == q[idx[j]];
    assert cs[idx[j]].members == [];
  }

  /**
   After pruning, every element's nearest cluster among the survivors is the
   one it was gathered by.
   */
  lemma NearestAfterPrune(cs: seq<Cluster>, es: seq<Point>, dist: Distance, i: nat)
    requires cs != [] && i < |es|
    ensures var q := Gather(cs, es, dist);
      var c := Cleared(Prune(q));
      c != [] && Closest(c, es[i], dist) < |Survivors(q)|
      && Survivors(q)[Closest(c, es[i], dist)] == Closest(cs, es[i], dist)
  {
    var q := Gather(cs, es, dist);
    var s := Prune(q);
    var k := Closest(cs, es[i], dist);
    GatheredContains(cs, es, dist, i);
    assert es[i] in q[k].members;
    SurvivorsComplete(q);
    SurvivorsSelect(q);
    SurvivorsIncreasing(q);
    ClosestOfSurvivor(cs, q, s, Cleared(s), Survivors(q), es[i], dist);
  }

  /**
   After pruning, an element's nearest cluster among the survivors is the one
   it was nearest to before, provided that one survived: pruning removes
   clusters, it never brings a farther one closer.
   */
  lemma ClosestOfSurvivor(cs: seq<Cluster>, q: seq<Cluster>, s: seq<Cluster>, c: seq<Cluster>,
                          idx: seq<nat>, e: Point, dist: Distance)
    requires cs != [] && |q| == |cs|
    requires forall k :: 0 <= k < |cs| ==> q[k].centroid == cs[k].centroid
    requires |idx| == |s| && Increasing(idx)
    requires forall i :: 0 <= i < |idx| ==> idx[i] < |q| && s[i] == q[idx[i]]
    requires c == Cleared(s)
    requires Closest(cs, e, dist) in idx
    ensures c != [] && idx[Closest(c, e, dist)] == Closest(cs, e, dist)
  {
    var k := Closest(cs, e, dist);
    var j :| 0 <= j < |idx| && idx[j] == k;
    assert forall i :: 0 <= i < |c| ==> c[i].centroid == cs[idx[i]].centroid;
    assert IsFirstClosest(c, e, dist, j);
    ClosestUnique(c, e, dist, j);
  }

  // ---------------------------------------------------------------------------
  // The loop

  /** A pass over at least one element leaves at least one cluster. */
  lemma PassNonEmpty(cs: seq<Cluster>, es: seq<Point>, dist: Distance, t: Threshold)
    requires cs != [] || es == []
    requires AllEmpty(cs)
    ensures Pass(cs, es, dist, t).0 == [] ==> es == []
  {
    PassPartition(cs, es, dist, t);
    assert |multiset(es)| == |es|;
  }

  /**
   The `while (changing)` loop, stopped after at most `fuel` passes. Each pass
   after the first starts from the map the previous one left, with its members
   cleared. The flag says whether the loop stopped on its own.
   */
  function Iterate(cs: seq<Cluster>, es: seq<Point>, dist: Distance, t: Threshold, fuel: nat): (r: (seq<Cluster>, bool))
    requires cs != [] || es == []
    requires AllEmpty(cs)
    requires fuel > 0
    decreases fuel
  {
    var p := Pass(cs, es, dist, t);
    if !p.1 || fuel == 1 then (p.0, !p.1)
    else
      PassNonEmpty(cs, es, dist, t);
      ClearedShape(p.0);
      Iterate(Cleared(p.0), es, dist, t, fuel - 1)
  }

  /**
   What the loop returns, however many passes it took: a partition of the
   input into non-empty clusters, each centred on the mean of its members, no
   more clusters than elements; and, when the loop stopped on its own, a
   fixed point of one more pass.
   */
  lemma {:induction false} IterateSound(cs: seq<Cluster>, es: seq<Point>, dist: Distance, t: Threshold, fuel: nat)
    requires cs != [] || es == []
    requires AllEmpty(cs)
    requires fuel > 0
    ensures var r := Iterate(cs, es, dist, t, fuel);
      && Pool(r.0) == multiset(es)
      && AllNonEmpty(r.0)
      && |r.0| <= |es|
      && (forall i :: 0 <= i < |r.0| ==> r.0[i].centroid == Centroid(r.0[i].members))
      && (r.1 ==> Stable(r.0, es, dist, t))
    decreases fuel
  {
    var p := Pass(cs, es, dist, t);
    if !p.1 || fuel == 1 {
      PassPartition(cs, es, dist, t);
      ClusterCountBound(p.0);
      assert |multiset(es)| == |es|;
      if !p.1 {
        PassFixedPoint(cs, es, dist, t);
      }
    } else {
      PassNonEmpty(cs, es, dist, t);
      ClearedShape(p.0);
      IterateSound(Cleared(p.0), es, dist, t, fuel - 1);
    }
  }

  // ---------------------------------------------------------------------------
  // A threshold that lets only exact duplicates join

  /** Every gathered element is an input element whose nearest cluster is the one gathering it. */
  lemma {:induction false} GatheredFrom(cs: seq<Cluster>, es: seq<Point>, dist: Distance, k: nat)
    requires cs != []
    ensures forall m :: m in Gathered(cs, es, dist, k) ==> m in es && Closest(cs, m, dist) == k
    decreases |es|
  {
    if es != [] {
      var es' := es[..|es| - 1];
      GatheredFrom(cs, es', dist, k);
      assert forall m :: m in es' ==> m in es;
    }
  }

  /**
   With a threshold that no distance falls below (NaN, as with fewer than two
   points, or at most 0), only a distance of exactly 0 lets an element join:
   in a stable map every member is at distance 0 from its cluster's centroid.
   `_dist` rounds to hundredths of a kilometre, so that includes distinct points
   less than 5 m apart.
   */
  lemma MinimalBias(cs: seq<Cluster>, es: seq<Point>, dist: Distance, t: Threshold)
    requires forall p, q :: dist(p, q) >= 0.0
    requires t.NaN? || t.value <= 0.0
    requires Stable(cs, es, dist, t)
    ensures AtCentroid(cs, dist)
  {
    if cs != [] {
      var c := Cleared(cs);
      ClearedShape(cs);
      AssignAllNoNew(c, es, dist, t);
      var q := AssignAll(c, es, dist, t).0;
      assert q == Gather(c, es, dist);
      RecentredUnchanged(Prune(q));
      GatherAtCentroid(c, es, dist, t);
      PruneAtCentroid(q, dist);
    }
  }

  /**
   The same for a distance that is 0 only between equal points (which `_dist`,
   rounding to hundredths of a kilometre, is not): a stable map then holds only exact
   duplicates, every member being its cluster's centroid.
   */
  lemma MinimalBiasExact(cs: seq<Cluster>, es: seq<Point>, dist: Distance, t: Threshold)
    requires forall p, q :: dist(p, q) >= 0.0
    requires forall p, q :: dist(p, q) == 0.0 ==> p == q
    requires t.NaN? || t.value <= 0.0
    requires Stable(cs, es, dist, t)
    ensures forall i, m :: 0 <= i < |cs| && m in cs[i].members ==> m == cs[i].centroid
  {
    MinimalBias(cs, es, dist, t);
  }

  /** Every member of every cluster is at distance 0 from that cluster's centroid. */
  ghost predicate AtCentroid(cs: seq<Cluster>, dist: Distance)
  {
    forall i, m :: 0 <= i < |cs| && m in cs[i].members ==> dist(m, cs[i].centroid) == 0.0
  }

  /** From a map with no members, a pass where every element joins under such a threshold gathers only elements at distance 0. */
  lemma GatherAtCentroid(c: seq<Cluster>, es: seq<Point>, dist: Distance, t: Threshold)
    requires forall p, q :: dist(p, q) >= 0.0
    requires t.NaN? || t.value <= 0.0
    requires c != [] && AllEmpty(c) && AllJoin(c, es, dist, t)
    ensures AtCentroid(Gather(c, es, dist), dist)
  {
    var g := Gather(c, es, dist);
    forall k, m | 0 <= k < |g| && m in g[k].members
      ensures dist(m, g[k].centroid) == 0.0
    {
      assert g[k].members == c[k].members + Gathered(c, es, dist, k);
      GatheredAtCentroid(c, es, dist, t, k, m);
    }
  }

  lemma GatheredAtCentroid(c: seq<Cluster>, es: seq<Point>, dist: Distance, t: Threshold, k: nat, m: Point)
    requires forall p, q :: dist(p, q) >= 0.0
    requires t.NaN? || t.value <= 0.0
    requires c != [] && k < |c| && AllJoin(c, es, dist, t)
    requires m in Gathered(c, es, dist, k)
    ensures dist(m, c[k].centroid) == 0.0
  {
    GatheredFrom(c, es, dist, k);
    var j :| 0 <= j < |es| && es[j] == m;
    assert Joins(dist(es[j], c[Closest(c, es[j], dist)].centroid), t);
  }

  /** Dropping empty clusters keeps the property: the survivors are clusters of the map. */
  lemma PruneAtCentroid(q: seq<Cluster>, dist: Distance)
    requires AtCentroid(q, dist)
    ensures AtCentroid(Prune(q), dist)
  {
    SurvivorsSelect(q);
    var idx := Survivors(q);
    forall i, m | 0 <= i < |Prune(q)| && m in Prune(q)[i].members
      ensures dist(m, Prune(q)[i].centroid) == 0.0
    {
      assert Prune(q)[i] == q[idx[i]];
    }
  }
  /**
   Why `MinimalBiasExact` does not describe `_dist`: under a distance that
   rounds every pair to 0, two distinct points share a stable cluster centred
   between them, at a threshold of 0.
   */
  lemma RoundedDistanceShares(dist: Distance)
    requires forall p, q :: dist(p, q) == 0.0
    ensures var a, b := Point(0.0, 0.0), Point(0.0, 0.5);
      var cs := [Cluster(Point(0.0, 0.25), [a, b])];
      Stable(cs, [a, b], dist, Finite(0.0)) && a != cs[0].centroid && b != cs[0].centroid
  {
    var a, b, mid := Point(0.0, 0.0), Point(0.0, 0.5), Point(0.0, 0.25);
    var cs := [Cluster(mid, [a, b])];
    assert Cleared(cs) == [Cluster(mid, [])];
    TwoJoin(a, b, mid, dist, Finite(0.0));
    assert Prune(cs) == cs by {
      PruneOne(cs[0]);
    }
    PairCentroid();
    assert Recentred(cs) == cs;
  }

  /** Two elements at distance 0 from the only centroid both join it. */
  lemma TwoJoin(a: Point, b: Point, mid: Point, dist: Distance, t: Threshold)
    requires dist(a, mid) == 0.0 && dist(b, mid) == 0.0
    ensures AssignAll([Cluster(mid, [])], [a, b], dist, t) == ([Cluster(mid, [a, b])], false)
  {
    var start := [Cluster(mid, [])];
    AssignAllStep(start, [], a, dist, t);
    assert [] + [a] == [a];
    JoinOnly(Cluster(mid, []), a, dist, t);
    AssignAllStep(start, [a], b, dist, t);
    assert [a] + [b] == [a, b];
    JoinOnly(Cluster(mid, [a]), b, dist, t);
  }

  lemma JoinOnly(c: Cluster, e: Point, dist: Distance, t: Threshold)
    requires dist(e, c.centroid) == 0.0
    ensures Place([c], e, dist, t) == ([Cluster(c.centroid, c.members + [e])], false)
  {
    var k := Closest([c], e, dist);
    assert k == 0;
    assert Joins(dist(e, [c][k].centroid), t);
    assert [c][k := Cluster(c.centroid, c.members + [e])] == [Cluster(c.centroid, c.members + [e])];
  }

  lemma PairCentroid()
    ensures Centroid([Point(0.0, 0.0), Point(0.0, 0.5)]) == Point(0.0, 0.25)
  {
    var a, b := Point(0.0, 0.0), Point(0.0, 0.5);
    assert Sum([a]) == a by {
      assert [a][..0] == [];
    }
    assert Sum([a, b]) == Add(a, b) by {
      assert [a, b][..1] == [a];
    }
    assert Add(a, b) == Point(0.0, 0.5);
    assert 0.5 / 2.0 == 0.25;
  }
}
