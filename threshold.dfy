/**
 The threshold estimate at the start of `geocluster.prototype._cluster`
 (frontend/globe.js): the population standard deviation of the distances
 between consecutive input points, in input order, times `bias`.

 `Math.sqrt` is a parameter, as is the distance.
 */
module Estimate {
  import opened Geometry

  /** The `bias` argument as JavaScript sees it: a number, the number NaN, or anything else. */
  datatype BiasArg = Number(x: real) | NaNNumber | NotNumber

  /**
   The clustering threshold. With fewer than two points there are no distances,
   the mean is `0 / 0` and the threshold is NaN, which no comparison accepts.
   */
  datatype Threshold = NaN | Finite(value: real)

  /** The bias actually used: anything that is not a number, or is NaN, becomes 1. */
  function EffectiveBias(b: BiasArg): (r: real)
    ensures b.Number? ==> r == b.x
    ensures !b.Number? ==> r == 1.0
  {
    match b
    case Number(x) => x
    case _ => 1.0
  }

  /** The distances between consecutive points, in input order: entry `j` is `dist(es[j + 1], es[j])`. */
  function Diffs(es: seq<Point>, dist: Distance): (ds: seq<real>)
    ensures |ds| == if es == [] then 0 else |es| - 1
    ensures forall j :: 0 <= j < |ds| ==> ds[j] == dist(es[j + 1], es[j])
  {
    if |es| < 2 then [] else Diffs(es[..|es| - 1], dist) + [dist(es[|es| - 1], es[|es| - 2])]
  }

  /** The running total `tot_diff`. */
  function Total(ds: seq<real>): real
  {
    if ds == [] then 0.0 else Total(ds[..|ds| - 1]) + ds[|ds| - 1]
  }

  /** The running total `diff_variance`: the sum of squared deviations from `m`. */
  function SquaredDeviation(ds: seq<real>, m: real): real
  {
    if ds == [] then 0.0
    else SquaredDeviation(ds[..|ds| - 1], m) + (ds[|ds| - 1] - m) * (ds[|ds| - 1] - m)
  }

  function Mean(ds: seq<real>): real
    requires ds != []
  {
    Total(ds) / |ds| as real
  }

  /** Average squared deviation from the mean (divided by the count, not the count minus one). */
  function PopulationVariance(ds: seq<real>): real
    requires ds != []
  {
    SquaredDeviation(ds, Mean(ds)) / |ds| as real
  }

  /** `diff_stdev * bias`, NaN when there are no distances. */
  function ScaledDeviation(ds: seq<real>, b: real, sqrt: real -> real): Threshold
  {
    if ds == [] then NaN else Finite(sqrt(PopulationVariance(ds)) * b)
  }

  /** The threshold `_cluster` derives from its input, with `Math.sqrt` given as `sqrt`. */
  function ThresholdOf(es: seq<Point>, bias: BiasArg, dist: Distance, sqrt: real -> real): (t: Threshold)
    ensures t.Finite? <==> |es| >= 2
  {
    ScaledDeviation(Diffs(es, dist), EffectiveBias(bias), sqrt)
  }

  lemma Square(y: real)
    ensures y * y >= 0.0
  {
    if y < 0.0 {
      assert y * y == (-y) * (-y);
    }
  }

  lemma {:induction false} SquaredDeviationNonNegative(ds: seq<real>, m: real)
    ensures SquaredDeviation(ds, m) >= 0.0
  {
    if ds != [] {
      SquaredDeviationNonNegative(ds[..|ds| - 1], m);
      Square(ds[|ds| - 1] - m);
    }
  }

  /** The variance, and so `sqrt` of it, is defined: it is never negative. */
  lemma PopulationVarianceNonNegative(ds: seq<real>)
    requires ds != []
    ensures PopulationVariance(ds) >= 0.0
  {
    SquaredDeviationNonNegative(ds, Mean(ds));
  }

  /**
   With `sqrt` a true square root at the variance, the threshold squared is
   the population variance of the distances times the bias squared.
   */
  lemma ThresholdSquared(ds: seq<real>, b: real, sqrt: real -> real)
    requires ds != []
    requires sqrt(PopulationVariance(ds)) * sqrt(PopulationVariance(ds)) == PopulationVariance(ds)
    ensures ScaledDeviation(ds, b, sqrt).value * ScaledDeviation(ds, b, sqrt).value == PopulationVariance(ds) * (b * b)
  {
    ScaledSquare(sqrt(PopulationVariance(ds)), PopulationVariance(ds), b);
  }

  lemma ScaledSquare(s: real, v: real, b: real)
    requires s * s == v
    ensures (s * b) * (s * b) == v * (b * b)
  {
    assert (s * b) * (s * b) == (s * s) * (b * b);
  }

  /** A larger bias never gives a smaller threshold. */
  lemma ThresholdMonotoneInBias(es: seq<Point>, b1: BiasArg, b2: BiasArg, dist: Distance, sqrt: real -> real)
    requires |es| >= 2
    requires sqrt(PopulationVariance(Diffs(es, dist))) >= 0.0
    requires EffectiveBias(b1) <= EffectiveBias(b2)
    ensures ThresholdOf(es, b1, dist, sqrt).value <= ThresholdOf(es, b2, dist, sqrt).value
  {
    ScaledDeviationMonotone(Diffs(es, dist), EffectiveBias(b1), EffectiveBias(b2), sqrt);
  }

  lemma ScaledDeviationMonotone(ds: seq<real>, b1: real, b2: real, sqrt: real -> real)
    requires ds != []
    requires sqrt(PopulationVariance(ds)) >= 0.0 && b1 <= b2
    ensures ScaledDeviation(ds, b1, sqrt).value <= ScaledDeviation(ds, b2, sqrt).value
  {
    ScaleMonotone(sqrt(PopulationVariance(ds)), b1, b2);
  }

  lemma ScaleMonotone(s: real, b1: real, b2: real)
    requires s >= 0.0 && b1 <= b2
    ensures s * b1 <= s * b2
  {
    assert s * b2 - s * b1 == s * (b2 - b1);
  }

  /**
   The `for` loop of `_cluster` that pushes each consecutive distance onto
   `diffs` and adds it to `tot_diff`.
   */
  method ConsecutiveDistances(elements: seq<Point>, dist: Distance) returns (diffs: seq<real>, totDiff: real)
    ensures diffs == Diffs(elements, dist)
    ensures totDiff == Total(diffs)
  {
    totDiff := 0.0;
    diffs := [];
    var i := 1;
    while i < |elements|
      invariant 1 <= i <= |elements| || (elements == [] && i == 1)
      invariant |diffs| == i - 1
      invariant forall j :: 0 <= j < |diffs| ==> diffs[j] == dist(elements[j + 1], elements[j])
      invariant totDiff == Total(diffs)
    {
      var diff := dist(elements[i], elements[i - 1]);
      assert (diffs + [diff])[..|diffs|] == diffs;
      totDiff := totDiff + diff;
      diffs := diffs + [diff];
      i := i + 1;
    }
    var expected := Diffs(elements, dist);
    assert |diffs| == |expected|;
    forall j | 0 <= j < |diffs|
      ensures diffs[j] == expected[j]
    {
      assert diffs[j] == dist(elements[j + 1], elements[j]);
    }
  }

  /** The `forEach` of `_cluster` that adds up `Math.pow(diff - mean_diff, 2)` into `diff_variance`. */
  method SumSquaredDeviations(diffs: seq<real>, meanDiff: real) returns (variance: real)
    ensures variance == SquaredDeviation(diffs, meanDiff)
  {
    variance := 0.0;
    var j := 0;
    while j < |diffs|
      invariant 0 <= j <= |diffs|
      invariant variance == SquaredDeviation(diffs[..j], meanDiff)
    {
      assert diffs[..j + 1][..j] == diffs[..j];
      variance := variance + (diffs[j] - meanDiff) * (diffs[j] - meanDiff);
      j := j + 1;
    }
    assert diffs[..j] == diffs;
  }

  /** The threshold estimate of `_cluster`, from the default bias to `diff_stdev * bias`. */
  method EstimateThreshold(elements: seq<Point>, bias: BiasArg, dist: Distance, sqrt: real -> real)
    returns (threshold: Threshold)
    ensures threshold == ThresholdOf(elements, bias, dist, sqrt)
  {
    var b := EffectiveBias(bias);
    var diffs, totDiff := ConsecutiveDistances(elements, dist);
    if diffs == [] {
      threshold := NaN;
    } else {
      var n := |diffs| as real;
      var meanDiff := totDiff / n;
      var variance := SumSquaredDeviations(diffs, meanDiff);
      var stdev := sqrt(variance / n);
      threshold := Finite(stdev * b);
    }
    assert threshold == ScaledDeviation(diffs, b, sqrt);
  }
}
