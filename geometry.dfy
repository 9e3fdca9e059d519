/**
 Points on the globe and the planar centroid of a set of points
 (`geocluster.prototype._centroid` in frontend/globe.js).

 The haversine distance of `_dist` is not computed here: every operation that
 needs a distance takes it as a parameter of type `Distance`.
 */
module Geometry {

  /** A geodetic point `[latitude, longitude]` in decimal degrees. */
  datatype Point = Point(lat: real, lon: real)

  /** The great-circle distance of `_dist`, in kilometres, left abstract. */
  type Distance = (Point, Point) -> real

  function Add(a: Point, b: Point): Point
  {
    Point(a.lat + b.lat, a.lon + b.lon)
  }

  /** The `reduce` of `_centroid`: the component-wise sum, folded left to right from `[0, 0]`. */
  function Sum(s: seq<Point>): Point
  {
    if s == [] then Point(0.0, 0.0) else Add(Sum(s[..|s| - 1]), s[|s| - 1])
  }

  /**
   `_centroid`: the sum divided component-wise by the number of points.
   The source only calls it on non-empty member lists (an empty one would give NaN).
   */
  function Centroid(s: seq<Point>): Point
    requires s != []
  {
    var t := Sum(s);
    Point(t.lat / |s| as real, t.lon / |s| as real)
  }

  /** `p` lies in the latitude band `[south, north]` and the longitude band `[west, east]`. */
  predicate InBox(p: Point, south: real, north: real, west: real, east: real)
  {
    south <= p.lat <= north && west <= p.lon <= east
  }

  lemma {:induction false} SumAppend(a: seq<Point>, b: seq<Point>)
    ensures Sum(a + b) == Add(Sum(a), Sum(b))
    decreases |b|
  {
    if b == [] {
      assert a + b == a;
    } else {
      var b' := b[..|b| - 1];
      assert (a + b)[..|a + b| - 1] == a + b';
      SumAppend(a, b');
    }
  }

  lemma SumSnoc(a: seq<Point>, x: Point)
    ensures Sum(a + [x]) == Add(Sum(a), x)
  {
    assert (a + [x])[..|a|] == a;
  }

  /** Taking one point out of the middle of a sequence takes exactly that point off the sum. */
  lemma SumMiddle(a: seq<Point>, x: Point, b: seq<Point>)
    ensures Sum(a + [x] + b) == Add(Sum(a + b), x)
  {
    SumAppend(a + [x], b);
    SumSnoc(a, x);
    SumAppend(a, b);
  }

  /** Taking the same point out of two equal multisets leaves equal multisets. */
  lemma MultisetDropMatch(s: seq<Point>, x: Point, a: seq<Point>, b: seq<Point>)
    requires multiset(s + [x]) == multiset(a + [x] + b)
    ensures multiset(s) == multiset(a + b)
  {
    assert multiset(s + [x]) == multiset(s) + multiset{x};
    assert multiset(a + [x] + b) == multiset(a + b) + multiset{x};
    MultisetCancel(multiset(s), multiset(a + b), multiset{x});
  }

  /** Multiset union cancels. */
  lemma MultisetCancel(a: multiset<Point>, b: multiset<Point>, m: multiset<Point>)
    requires a + m == b + m
    ensures a == b
  {
    forall x
      ensures a[x] == b[x]
    {
      assert (a + m)[x] == (b + m)[x];
    }
  }

  /** Summing does not depend on the order of the points. */
  lemma {:induction false} SumPermutation(s: seq<Point>, t: seq<Point>)
    requires multiset(s) == multiset(t)
    ensures Sum(s) == Sum(t)
    decreases |s|
  {
    if s == [] {
      assert |t| == |multiset(t)| == 0;
    } else {
      var x := s[|s| - 1];
      var s' := s[..|s| - 1];
      assert s == s' + [x];
      assert x in multiset(t);
      var j :| 0 <= j < |t| && t[j] == x;
      var a, b := t[..j], t[j + 1..];
      assert t == a + [x] + b;
      MultisetDropMatch(s', x, a, b);
      SumPermutation(s', a + b);
      SumMiddle(a, x, b);
    }
  }

  /** The centroid of a cluster does not depend on the order of its members. */
  lemma CentroidPermutation(s: seq<Point>, t: seq<Point>)
    requires s != [] && multiset(s) == multiset(t)
    ensures t != [] && Centroid(s) == Centroid(t)
  {
    assert |s| == |multiset(s)| == |multiset(t)| == |t|;
    SumPermutation(s, t);
  }

  /** `k` copies of `x` added up, one at a time. */
  function Repeat(k: nat, x: real): real
  {
    if k == 0 then 0.0 else Repeat(k - 1, x) + x
  }

  lemma {:induction false} RepeatIsProduct(k: nat, x: real)
    ensures Repeat(k, x) == (k as real) * x
  {
    if k > 0 {
      RepeatIsProduct(k - 1, x);
      assert (k as real) * x == ((k - 1) as real) * x + x;
    }
  }

  /** `n` latitudes in `[south, north]` add up to a value between `n` times either bound. */
  lemma {:induction false} SumLatBounds(s: seq<Point>, south: real, north: real)
    requires forall i :: 0 <= i < |s| ==> south <= s[i].lat <= north
    ensures Repeat(|s|, south) <= Sum(s).lat <= Repeat(|s|, north)
  {
    if s != [] {
      SumLatBounds(s[..|s| - 1], south, north);
    }
  }

  /** `n` longitudes in `[west, east]` add up to a value between `n` times either bound. */
  lemma {:induction false} SumLonBounds(s: seq<Point>, west: real, east: real)
    requires forall i :: 0 <= i < |s| ==> west <= s[i].lon <= east
    ensures Repeat(|s|, west) <= Sum(s).lon <= Repeat(|s|, east)
  {
    if s != [] {
      SumLonBounds(s[..|s| - 1], west, east);
    }
  }

  lemma DivideBounds(a: real, n: real, lo: real, hi: real)
    requires n > 0.0 && n * lo <= a <= n * hi
    ensures lo <= a / n <= hi
  {
    assert a / n * n == a;
  }

  /** A total of `k` values in `[lo, hi]`, divided by `k`, lies in `[lo, hi]`. */
  lemma MeanBounds(total: real, k: nat, lo: real, hi: real)
    requires k > 0 && Repeat(k, lo) <= total <= Repeat(k, hi)
    ensures lo <= total / (k as real) <= hi
  {
    RepeatIsProduct(k, lo);
    RepeatIsProduct(k, hi);
    DivideBounds(total, k as real, lo, hi);
  }

  /** The centroid is a mean: it lies inside every box that holds all the points. */
  lemma CentroidInBox(s: seq<Point>, south: real, north: real, west: real, east: real)
    requires s != []
    requires forall i :: 0 <= i < |s| ==> InBox(s[i], south, north, west, east)
    ensures InBox(Centroid(s), south, north, west, east)
  {
    forall i | 0 <= i < |s|
      ensures south <= s[i].lat <= north && west <= s[i].lon <= east
    {
      assert InBox(s[i], south, north, west, east);
    }
    var n := |s| as real;
    var t := Sum(s);
    SumLatBounds(s, south, north);
    MeanBounds(t.lat, |s|, south, north);
    SumLonBounds(s, west, east);
    MeanBounds(t.lon, |s|, west, east);
    assert Centroid(s) == Point(t.lat / n, t.lon / n);
  }

  /** A cluster whose members all sit on one point has that point as its centroid. */
  lemma CentroidOfCopies(s: seq<Point>, p: Point)
    requires s != []
    requires forall i :: 0 <= i < |s| ==> s[i] == p
    ensures Centroid(s) == p
  {
    CentroidInBox(s, p.lat, p.lat, p.lon, p.lon);
  }
}
