/**
 The cluster map of `geocluster.prototype._cluster` (frontend/globe.js) and
 the three steps of one pass over it, as functions: every element is placed
 (into the closest cluster or a new one), empty clusters are dropped, and
 every centroid is recomputed as the mean of its members.
 */
module Clusters {
  import opened Geometry
  import opened Estimate

  /** One entry `{centroid, elements}` of `cluster_map`. */
  datatype Cluster = Cluster(centroid: Point, members: seq<Point>)

  /** `closest_dist < threshold || closest_dist === 0`: every comparison with NaN is false. */
  predicate Joins(d: real, t: Threshold)
  {
    d == 0.0 || (t.Finite? && d < t.value)
  }

  /**
   `k` is where a left-to-right scan that only moves on a strictly smaller
   distance stops: a nearest cluster, and the first of the nearest.
   */
  ghost predicate IsFirstClosest(cs: seq<Cluster>, e: Point, dist: Distance, k: nat)
  {
    && k < |cs|
    && (forall j :: 0 <= j < |cs| ==> dist(e, cs[k].centroid) <= dist(e, cs[j].centroid))
    && (forall j :: 0 <= j < k ==> dist(e, cs[k].centroid) < dist(e, cs[j].centroid))
  }

  /** The `closest_cluster` that the inner `forEach` of `_cluster` ends with. */
  function Closest(cs: seq<Cluster>, e: Point, dist: Distance): (k: nat)
    requires cs != []
    ensures IsFirstClosest(cs, e, dist, k)
  {
    if |cs| == 1 then 0
    else
      var front := cs[..|cs| - 1];
      var k' := Closest(front, e, dist);
      assert forall j :: 0 <= j < |front| ==> front[j] == cs[j];
      if dist(e, cs[|cs| - 1].centroid) < dist(e, cs[k'].centroid) then |cs| - 1 else k'
  }

  /** Only one index is the first nearest cluster. */
  lemma ClosestUnique(cs: seq<Cluster>, e: Point, dist: Distance, k: nat)
    requires IsFirstClosest(cs, e, dist, k)
    ensures k == Closest(cs, e, dist)
  {
  }

  /** The scan only looks at centroids. */
  lemma ClosestOnlyReadsCentroids(cs: seq<Cluster>, cs': seq<Cluster>, e: Point, dist: Distance)
    requires cs != [] && |cs'| == |cs|
    requires forall i :: 0 <= i < |cs| ==> cs'[i].centroid == cs[i].centroid
    ensures Closest(cs', e, dist) == Closest(cs, e, dist)
  {
    ClosestUnique(cs', e, dist, Closest(cs, e, dist));
  }

  /**
   One element `e` placed by the outer `forEach`: appended to the members of
   its closest cluster when that one is close enough, otherwise the start of a
   new cluster `{centroid: e, elements: [e]}` at the end of the map. The flag
   is `new_cluster`.
   */
  function Place(cs: seq<Cluster>, e: Point, dist: Distance, t: Threshold): (r: (seq<Cluster>, bool))
    requires cs != []
  {
    var k := Closest(cs, e, dist);
    if Joins(dist(e, cs[k].centroid), t) then
      (cs[k := Cluster(cs[k].centroid, cs[k].members + [e])], false)
    else
      (cs + [Cluster(e, [e])], true)
  }

  /**
   The outer `forEach` over all elements, in order. Each element sees the map
   as the elements before it left it, clusters created earlier in the same pass
   included. The flag says whether any cluster was created.
   */
  function AssignAll(cs: seq<Cluster>, es: seq<Point>, dist: Distance, t: Threshold): (r: (seq<Cluster>, bool))
    requires cs != [] || es == []
    ensures |r.0| >= |cs|
    ensures r.1 <==> |r.0| > |cs|
    decreases |es|
  {
    if es == [] then (cs, false)
    else
      var before := AssignAll(cs, es[..|es| - 1], dist, t);
      var after := Place(before.0, es[|es| - 1], dist, t);
      (after.0, before.1 || after.1)
  }

  predicate AllNonEmpty(cs: seq<Cluster>)
  {
    forall i :: 0 <= i < |cs| ==> cs[i].members != []
  }

  predicate AllEmpty(cs: seq<Cluster>)
  {
    forall i :: 0 <= i < |cs| ==> cs[i].members == []
  }

  /** `cluster_map.filter(...)`: keep the clusters that have members, in order. */
  function Prune(cs: seq<Cluster>): (r: seq<Cluster>)
    ensures |r| <= |cs|
    ensures AllNonEmpty(r)
  {
    if cs == [] then []
    else (if cs[0].members == [] then [] else [cs[0]]) + Prune(cs[1..])
  }

  /** Each surviving cluster with its centroid set to the mean of its members. */
  function Recentred(cs: seq<Cluster>): seq<Cluster>
    requires AllNonEmpty(cs)
  {
    seq(|cs|, i requires 0 <= i < |cs| => Cluster(Centroid(cs[i].members), cs[i].members))
  }

  /** `cluster_changed`: some recomputed centroid differs from the old one in a coordinate. */
  predicate Changed(cs: seq<Cluster>)
    requires AllNonEmpty(cs)
  {
    exists i :: 0 <= i < |cs| && Centroid(cs[i].members) != cs[i].centroid
  }

  /** The map before the next pass: every `elements` emptied, every centroid kept. */
  function Cleared(cs: seq<Cluster>): seq<Cluster>
  {
    seq(|cs|, i requires 0 <= i < |cs| => Cluster(cs[i].centroid, []))
  }

  /** Clearing keeps every cluster and its centroid, and empties every member list. */
  lemma ClearedShape(cs: seq<Cluster>)
    ensures var r := Cleared(cs);
      |r| == |cs| && AllEmpty(r) && forall i :: 0 <= i < |cs| ==> r[i].centroid == cs[i].centroid
  {
  }

  /**
   One pass of the `while (changing)` loop: assign, prune, recompute. The
   flag is `new_cluster || cluster_changed`: whether the loop goes on.
   */
  function Pass(cs: seq<Cluster>, es: seq<Point>, dist: Distance, t: Threshold): (r: (seq<Cluster>, bool))
    requires cs != [] || es == []
  {
    var placement := AssignAll(cs, es, dist, t);
    var pruned := Prune(placement.0);
    (Recentred(pruned), placement.1 || Changed(pruned))
  }

  /** All the members of all the clusters, counted with multiplicity. */
  function Pool(cs: seq<Cluster>): multiset<Point>
  {
    if cs == [] then multiset{} else multiset(cs[0].members) + Pool(cs[1..])
  }

  // ---------------------------------------------------------------------------
  // Members: each pass distributes the elements, exactly once each

  lemma {:induction false} PoolAppend(a: seq<Cluster>, b: seq<Cluster>)
    ensures Pool(a + b) == Pool(a) + Pool(b)
  {
    if a == [] {
      assert a + b == b;
    } else {
      assert (a + b)[0] == a[0];
      assert (a + b)[1..] == a[1..] + b;
      PoolAppend(a[1..], b);
    }
  }

  /** Replacing cluster `k` replaces its members in the pool and nothing else. */
  lemma {:induction false} PoolUpdate(cs: seq<Cluster>, k: nat, c: Cluster)
    requires k < |cs|
    ensures Pool(cs[k := c]) + multiset(cs[k].members) == Pool(cs) + multiset(c.members)
  {
    var cs' := cs[k := c];
    if k > 0 {
      var tail, tail' := cs[1..], cs'[1..];
      assert tail' == tail[k - 1 := c];
      assert tail[k - 1] == cs[k];
      PoolUpdate(tail, k - 1, c);
      assert Pool(cs') == multiset(cs[0].members) + Pool(tail');
      assert Pool(cs) == multiset(cs[0].members) + Pool(tail);
      var m0 := multiset(cs[0].members);
      assert (m0 + Pool(tail')) + multiset(cs[k].members) == m0 + (Pool(tail') + multiset(cs[k].members));
      assert (m0 + Pool(tail)) + multiset(c.members) == m0 + (Pool(tail) + multiset(c.members));
    } else {
      assert cs'[1..] == cs[1..];
      assert Pool(cs') == multiset(c.members) + Pool(cs[1..]);
      assert Pool(cs) == multiset(cs[0].members) + Pool(cs[1..]);
      assert Pool(cs') + multiset(cs[k].members) == Pool(cs) + multiset(c.members);
    }
  }

  /** Two maps with the same member lists, position by position, hold the same pool. */
  lemma {:induction false} PoolOfMembers(cs: seq<Cluster>, cs': seq<Cluster>)
    requires |cs'| == |cs|
    requires forall i :: 0 <= i < |cs| ==> cs'[i].members == cs[i].members
    ensures Pool(cs') == Pool(cs)
  {
    if cs != [] {
      PoolOfMembers(cs[1..], cs'[1..]);
    }
  }

  lemma {:induction false} PoolOfAllEmpty(cs: seq<Cluster>)
    requires AllEmpty(cs)
    ensures Pool(cs) == multiset{}
  {
    if cs != [] {
      PoolOfAllEmpty(cs[1..]);
    }
  }

  /** Placing an element adds exactly that element to the pool. */
  lemma PlacePool(cs: seq<Cluster>, e: Point, dist: Distance, t: Threshold)
    requires cs != []
    ensures Pool(Place(cs, e, dist, t).0) == Pool(cs) + multiset{e}
  {
    var k := Closest(cs, e, dist);
    var r := Place(cs, e, dist, t).0;
    if Joins(dist(e, cs[k].centroid), t) {
      var c := Cluster(cs[k].centroid, cs[k].members + [e]);
      assert r == cs[k := c];
      PoolUpdate(cs, k, c);
      var mk := multiset(cs[k].members);
      assert multiset(c.members) == mk + multiset{e};
      assert Pool(r) + mk == (Pool(cs) + multiset{e}) + mk;
      MultisetCancel(Pool(r), Pool(cs) + multiset{e}, mk);
    } else {
      var single := [Cluster(e, [e])];
      assert r == cs + single;
      PoolAppend(cs, single);
      assert Pool(single) == multiset{e} + Pool([]);
    }
  }

  /** The last element of a pass is placed into the map the others left. */
  lemma AssignAllStep(cs: seq<Cluster>, es: seq<Point>, e: Point, dist: Distance, t: Threshold)
    requires cs != []
    ensures AssignAll(cs, es + [e], dist, t).0 == Place(AssignAll(cs, es, dist, t).0, e, dist, t).0
    ensures AssignAll(cs, es + [e], dist, t).1
        == (AssignAll(cs, es, dist, t).1 || Place(AssignAll(cs, es, dist, t).0, e, dist, t).1)
  {
    assert (es + [e])[..|es|] == es;
  }

  lemma PoolSnoc(p0: multiset<Point>, p1: multiset<Point>, p2: multiset<Point>, es: seq<Point>, e: Point)
    requires p1 == p0 + multiset(es)
    requires p2 == p1 + multiset{e}
    ensures p2 == p0 + multiset(es + [e])
  {
  }

  /** A pass's assignment adds every element to the pool, each exactly once. */
  lemma {:induction false} AssignAllPool(cs: seq<Cluster>, es: seq<Point>, dist: Distance, t: Threshold)
    requires cs != [] || es == []
    ensures Pool(AssignAll(cs, es, dist, t).0) == Pool(cs) + multiset(es)
    decreases |es|
  {
    if es != [] {
      var es', e := es[..|es| - 1], es[|es| - 1];
      assert es == es' + [e];
      AssignAllPool(cs, es', dist, t);
      AssignAllPoolStep(cs, es', e, dist, t);
    }
  }

  /** The inductive step of `AssignAllPool`: the last element is added to what the others left. */
  lemma AssignAllPoolStep(cs: seq<Cluster>, es: seq<Point>, e: Point, dist: Distance, t: Threshold)
    requires cs != []
    requires Pool(AssignAll(cs, es, dist, t).0) == Pool(cs) + multiset(es)
    ensures Pool(AssignAll(cs, es + [e], dist, t).0) == Pool(cs) + multiset(es + [e])
  {
    var before := AssignAll(cs, es, dist, t).0;
    AssignAllStep(cs, es, e, dist, t);
    PlacePool(before, e, dist, t);
    PoolSnoc(Pool(cs), Pool(before), Pool(AssignAll(cs, es + [e], dist, t).0), es, e);
  }

  /** Dropping empty clusters loses no member. */
  lemma {:induction false} PrunePool(cs: seq<Cluster>)
    ensures Pool(Prune(cs)) == Pool(cs)
  {
    if cs != [] {
      PrunePool(cs[1..]);
      var head := if cs[0].members == [] then [] else [cs[0]];
      PoolAppend(head, Prune(cs[1..]));
    }
  }

  // ---------------------------------------------------------------------------
  // The shape of the map after the assignment step

  /**
   Assignment only appends: the clusters there before keep their centroids and
   gain members at the end of their lists; every cluster after them was
   created by an element of the pass, has that element as its centroid and as
   its first member.
   */
  lemma {:induction false} AssignAllShape(cs: seq<Cluster>, es: seq<Point>, dist: Distance, t: Threshold)
    requires cs != [] || es == []
    ensures var r := AssignAll(cs, es, dist, t).0;
      && (forall k :: 0 <= k < |cs| ==> r[k].centroid == cs[k].centroid && cs[k].members <= r[k].members)
      && (forall k :: |cs| <= k < |r| ==> r[k].members != [] && r[k].centroid == r[k].members[0] && r[k].centroid in es)
    decreases |es|
  {
    if es != [] {
      var es' := es[..|es| - 1];
      var e := es[|es| - 1];
      AssignAllShape(cs, es', dist, t);
      var before := AssignAll(cs, es', dist, t).0;
      var r := AssignAll(cs, es, dist, t).0;
      assert r == Place(before, e, dist, t).0;
      forall k | |cs| <= k < |r|
        ensures r[k].centroid in es
      {
        if k < |before| {
          assert before[k].centroid in es';
        }
      }
    }
  }

  /** A point at distance exactly 0 from some centroid never starts a new cluster, whatever the threshold. */
  lemma ZeroDistanceJoins(cs: seq<Cluster>, e: Point, dist: Distance, t: Threshold, j: nat)
    requires j < |cs|
    requires dist(e, cs[j].centroid) == 0.0
    requires forall k :: 0 <= k < |cs| ==> dist(e, cs[k].centroid) >= 0.0
    ensures var r := Place(cs, e, dist, t);
      !r.1 && |r.0| == |cs| && dist(e, r.0[Closest(cs, e, dist)].centroid) == 0.0
  {
  }

  // ---------------------------------------------------------------------------
  // Pruning is a filter

  /** Filtering a concatenation filters each part. */
  lemma {:induction false} PruneAppend(a: seq<Cluster>, b: seq<Cluster>)
    ensures Prune(a + b) == Prune(a) + Prune(b)
  {
    if a == [] {
      assert a + b == b;
    } else {
      assert (a + b)[0] == a[0];
      assert (a + b)[1..] == a[1..] + b;
      PruneAppend(a[1..], b);
    }
  }

  /** A single cluster survives exactly when it has members. */
  lemma PruneOne(c: Cluster)
    ensures Prune([c]) == if c.members == [] then [] else [c]
  {
    assert [c][1..] == [];
  }

  lemma {:induction false} PruneKeepsNonEmpty(cs: seq<Cluster>)
    requires AllNonEmpty(cs)
    ensures Prune(cs) == cs
  {
    if cs != [] {
      PruneKeepsNonEmpty(cs[1..]);
    }
  }

  /** Every position moved one place on. */
  function Shift(s: seq<nat>): (r: seq<nat>)
    ensures |r| == |s| && forall i :: 0 <= i < |s| ==> r[i] == s[i] + 1
  {
    seq(|s|, i requires 0 <= i < |s| => s[i] + 1)
  }

  /** The positions of the clusters that survive pruning, in order. */
  function Survivors(cs: seq<Cluster>): seq<nat>
  {
    if cs == [] then []
    else (if cs[0].members == [] then [] else [0]) + Shift(Survivors(cs[1..]))
  }

  /**
   Where each survivor came from: cluster `i` of the pruned map is the cluster
   at position `Survivors(cs)[i]` of the map before.
   */
  lemma {:induction false} SurvivorsSelect(cs: seq<Cluster>)
    ensures SelectsPrune(cs, Survivors(cs))
  {
    if cs != [] {
      SurvivorsSelect(cs[1..]);
      SurvivorsSelectStep(cs);
    }
  }

  /** Cluster `i` of the pruned map is the cluster at position `idx[i]` of `cs`. */
  ghost predicate SelectsPrune(cs: seq<Cluster>, idx: seq<nat>)
  {
    && |idx| == |Prune(cs)|
    && forall i :: 0 <= i < |idx| ==> idx[i] < |cs| && Prune(cs)[i] == cs[idx[i]]
  }

  lemma SurvivorsSelectStep(cs: seq<Cluster>)
    requires cs != []
    requires SelectsPrune(cs[1..], Survivors(cs[1..]))
    ensures SelectsPrune(cs, Survivors(cs))
  {
    var rest, tail := Survivors(cs[1..]), Prune(cs[1..]);
    var h := if cs[0].members == [] then 0 else 1;
    var idx, r := Survivors(cs), Prune(cs);
    assert idx == (if h == 0 then [] else [0]) + Shift(rest);
    assert r == (if h == 0 then [] else [cs[0]]) + tail;
    forall i | h <= i < |idx|
      ensures idx[i] < |cs| && r[i] == cs[idx[i]]
    {
      assert idx[i] == rest[i - h] + 1;
      assert r[i] == tail[i - h] == cs[1..][rest[i - h]];
    }
  }

  predicate Increasing(s: seq<nat>)
  {
    forall i, j :: 0 <= i < j < |s| ==> s[i] < s[j]
  }

  /** The surviving positions are strictly increasing. */
  lemma {:induction false} SurvivorsIncreasing(cs: seq<Cluster>)
    ensures Increasing(Survivors(cs))
  {
    if cs != [] {
      SurvivorsIncreasing(cs[1..]);
      var base := Survivors(cs[1..]);
      var rest := Shift(base);
      var idx := Survivors(cs);
      var h := if cs[0].members == [] then 0 else 1;
      assert idx == (if h == 0 then [] else [0]) + rest;
      forall i, j | 0 <= i < j < |idx|
        ensures idx[i] < idx[j]
      {
        assert idx[j] == base[j - h] + 1;
        if i >= h {
          assert idx[i] == base[i - h] + 1;
          assert base[i - h] < base[j - h];
        } else {
          assert idx[i] == 0;
        }
      }
    }
  }

  /** A position survives exactly when its cluster has members. */
  lemma {:induction false} SurvivorsComplete(cs: seq<Cluster>)
    ensures forall k :: 0 <= k < |cs| ==> (k in Survivors(cs) <==> cs[k].members != [])
  {
    if cs != [] {
      SurvivorsComplete(cs[1..]);
      forall k | 0 <= k < |cs|
        ensures k in Survivors(cs) <==> cs[k].members != []
      {
        SurvivorsCompleteAt(cs, k);
      }
    }
  }

  /** One position of `SurvivorsComplete`, given the property for the tail. */
  lemma SurvivorsCompleteAt(cs: seq<Cluster>, k: nat)
    requires k < |cs|
    requires forall k :: 0 <= k < |cs| - 1 ==> (k in Survivors(cs[1..]) <==> cs[1..][k].members != [])
    ensures k in Survivors(cs) <==> cs[k].members != []
  {
    var rest := Survivors(cs[1..]);
    var head: seq<nat> := if cs[0].members == [] then [] else [0];
    assert Survivors(cs) == head + Shift(rest);
    ShiftMember(rest, k);
    if k > 0 {
      assert cs[1..][k - 1] == cs[k];
    }
  }

  /** `k` is in the shifted sequence exactly when `k - 1` is in the original, and 0 never is. */
  lemma ShiftMember(s: seq<nat>, k: nat)
    ensures k in Shift(s) <==> k > 0 && k - 1 in s
  {
    if k in Shift(s) {
      var i :| 0 <= i < |s| && Shift(s)[i] == k;
    }
    if k > 0 && k - 1 in s {
      var i :| 0 <= i < |s| && s[i] == k - 1;
      assert Shift(s)[i] == k;
    }
  }

  // ---------------------------------------------------------------------------
  // Centroids and the whole pass

  lemma RecentredMeans(cs: seq<Cluster>)
    requires AllNonEmpty(cs)
    ensures var r := Recentred(cs);
      && |r| == |cs| && AllNonEmpty(r) && Pool(r) == Pool(cs)
      && forall i :: 0 <= i < |r| ==> r[i].members == cs[i].members && r[i].centroid == Centroid(r[i].members)
  {
    PoolOfMembers(cs, Recentred(cs));
  }

  /** When no centroid moved, recomputing them changes nothing. */
  lemma RecentredUnchanged(cs: seq<Cluster>)
    requires AllNonEmpty(cs) && !Changed(cs)
    ensures Recentred(cs) == cs
  {
  }

  /**
   A pass from a map with no members leaves a partition of the input: every
   element is a member exactly once, no cluster is empty, and every centroid is
   the mean of its members.
   */
  lemma PassPartition(cs: seq<Cluster>, es: seq<Point>, dist: Distance, t: Threshold)
    requires cs != [] || es == []
    requires AllEmpty(cs)
    ensures var r := Pass(cs, es, dist, t).0;
      && Pool(r) == multiset(es)
      && AllNonEmpty(r)
      && forall i :: 0 <= i < |r| ==> r[i].centroid == Centroid(r[i].members)
  {
    var placement := AssignAll(cs, es, dist, t).0;
    PoolOfAllEmpty(cs);
    AssignAllPool(cs, es, dist, t);
    PrunePool(placement);
    RecentredMeans(Prune(placement));
  }

  /** Non-empty clusters that partition a multiset number at most its size. */
  lemma {:induction false} ClusterCountBound(cs: seq<Cluster>)
    requires AllNonEmpty(cs)
    ensures |cs| <= |Pool(cs)|
  {
    if cs != [] {
      ClusterCountBound(cs[1..]);
      assert |multiset(cs[0].members)| == |cs[0].members| > 0;
    }
  }
}
