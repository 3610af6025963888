/** `getOutliers`: the inter-quartile-range fences of one sample array and the
    rounded samples that fall outside them. The quartiles come from the
    seven-figure summary, whose quantiles are computed by a library that is not
    part of this model, so they enter as parameters; the summary rounds them,
    hence they are integers. */
module StatsOutliers {
  import JsMath

  /** `IOutliers`. */
  datatype Outliers = Outliers(iqr: int, outliers: seq<int>, lowerOutlier: int, upperOutlier: int)

  /** A rounded sample is an outlier when it is strictly beyond a fence. */
  predicate Outside(x: int, lowerOutlier: int, upperOutlier: int)
  {
    x < lowerOutlier || x > upperOutlier
  }

  /** The rounded samples of `a` beyond the fences, in the order of `a`. */
  function RoundedOutside(a: seq<real>, lowerOutlier: int, upperOutlier: int): seq<int>
  {
    if |a| == 0 then []
    else
      var n := JsMath.Round(a[|a| - 1]);
      RoundedOutside(a[..|a| - 1], lowerOutlier, upperOutlier)
        + (if Outside(n, lowerOutlier, upperOutlier) then [n] else [])
  }

  /** The positions of `a` whose rounded sample is beyond the fences, ascending. */
  ghost function OutsideIndices(a: seq<real>, lowerOutlier: int, upperOutlier: int): seq<nat>
  {
    if |a| == 0 then []
    else
      OutsideIndices(a[..|a| - 1], lowerOutlier, upperOutlier)
        + (if Outside(JsMath.Round(a[|a| - 1]), lowerOutlier, upperOutlier) then [|a| - 1] else [])
  }

  /** Computes the fences from the quartiles and collects the outliers of `a`. */
  method GetOutliers(a: seq<real>, q25: int, q75: int) returns (r: Outliers)
    ensures r.iqr == q75 - q25
    ensures r.lowerOutlier == (q25 as real - 1.5 * r.iqr as real).Floor
    ensures r.upperOutlier == JsMath.Round(q75 as real + 1.5 * r.iqr as real)
    ensures q25 <= q75 ==> r.lowerOutlier <= q25 && q75 <= r.upperOutlier
    ensures r.outliers == RoundedOutside(a, r.lowerOutlier, r.upperOutlier)
  {
    var iqr := q75 - q25;
    r := Outliers(iqr, [], (q25 as real - 1.5 * iqr as real).Floor, JsMath.Round(q75 as real + 1.5 * iqr as real));
    var i := 0;
    while i < |a|
      invariant 0 <= i <= |a|
      invariant r.iqr == iqr
      invariant r.lowerOutlier == (q25 as real - 1.5 * iqr as real).Floor
      invariant r.upperOutlier == JsMath.Round(q75 as real + 1.5 * iqr as real)
      invariant r.outliers == RoundedOutside(a[..i], r.lowerOutlier, r.upperOutlier)
    {
      assert a[..i + 1][..i] == a[..i];
      var roundedN := JsMath.Round(a[i]);
      if roundedN < r.lowerOutlier || roundedN > r.upperOutlier {
        r := r.(outliers := r.outliers + [roundedN]);
      }
      i := i + 1;
    }
    assert a[..i] == a;
  }

  /** There is one outlier per outside position. */
  lemma {:induction false} OutsideLengths(a: seq<real>, lowerOutlier: int, upperOutlier: int)
    ensures |RoundedOutside(a, lowerOutlier, upperOutlier)| == |OutsideIndices(a, lowerOutlier, upperOutlier)|
  {
    if |a| > 0 {
      OutsideLengths(a[..|a| - 1], lowerOutlier, upperOutlier);
    }
  }

  /** The k-th outlier is the rounded sample at the k-th outside position. */
  lemma {:induction false} OutsideAtIndices(a: seq<real>, lowerOutlier: int, upperOutlier: int)
    ensures forall k :: 0 <= k < |OutsideIndices(a, lowerOutlier, upperOutlier)| ==>
      OutsideIndices(a, lowerOutlier, upperOutlier)[k] < |a| && k < |RoundedOutside(a, lowerOutlier, upperOutlier)| &&
      RoundedOutside(a, lowerOutlier, upperOutlier)[k] == JsMath.Round(a[OutsideIndices(a, lowerOutlier, upperOutlier)[k]])
  {
    if |a| > 0 {
      var init := a[..|a| - 1];
      OutsideLengths(init, lowerOutlier, upperOutlier);
      OutsideAtIndices(init, lowerOutlier, upperOutlier);
      var out0, idx0 := RoundedOutside(init, lowerOutlier, upperOutlier), OutsideIndices(init, lowerOutlier, upperOutlier);
      var out, idx := RoundedOutside(a, lowerOutlier, upperOutlier), OutsideIndices(a, lowerOutlier, upperOutlier);
      var n := JsMath.Round(a[|a| - 1]);
      if Outside(n, lowerOutlier, upperOutlier) {
        assert out == out0 + [n] && idx == idx0 + [|a| - 1];
      } else {
        assert out == out0 && idx == idx0;
      }
      forall k | 0 <= k < |idx0|
        ensures idx[k] < |a| && out[k] == JsMath.Round(a[idx[k]])
      {
        assert idx[k] == idx0[k] < |init| && out[k] == out0[k] && a[idx0[k]] == init[idx0[k]];
      }
    }
  }

  /** The outside positions ascend strictly. */
  lemma {:induction false} OutsideIndicesAscend(a: seq<real>, lowerOutlier: int, upperOutlier: int)
    ensures forall k :: 0 <= k < |OutsideIndices(a, lowerOutlier, upperOutlier)| ==>
      OutsideIndices(a, lowerOutlier, upperOutlier)[k] < |a|
    ensures forall k, l :: 0 <= k < l < |OutsideIndices(a, lowerOutlier, upperOutlier)| ==>
      OutsideIndices(a, lowerOutlier, upperOutlier)[k] < OutsideIndices(a, lowerOutlier, upperOutlier)[l]
  {
    if |a| > 0 {
      var init := a[..|a| - 1];
      OutsideIndicesAscend(init, lowerOutlier, upperOutlier);
      var idx0 := OutsideIndices(init, lowerOutlier, upperOutlier);
      var idx := OutsideIndices(a, lowerOutlier, upperOutlier);
      var tail: seq<nat> := if Outside(JsMath.Round(a[|a| - 1]), lowerOutlier, upperOutlier) then [|a| - 1] else [];
      assert idx == idx0 + tail;
      assert forall k :: 0 <= k < |idx0| ==> idx[k] == idx0[k] < |a| - 1;
      assert forall k :: |idx0| <= k < |idx| ==> idx[k] == |a| - 1;
    }
  }

  /** A position is an outside position exactly when its rounded sample is
      beyond a fence. */
  lemma {:induction false} OutsideIndicesExact(a: seq<real>, lowerOutlier: int, upperOutlier: int)
    ensures forall i :: 0 <= i < |a| ==>
      (i in OutsideIndices(a, lowerOutlier, upperOutlier) <==> Outside(JsMath.Round(a[i]), lowerOutlier, upperOutlier))
  {
    if |a| > 0 {
      var init := a[..|a| - 1];
      OutsideIndicesAscend(init, lowerOutlier, upperOutlier);
      OutsideIndicesExact(init, lowerOutlier, upperOutlier);
      var idx0 := OutsideIndices(init, lowerOutlier, upperOutlier);
      forall x | x in idx0
        ensures x < |init|
      {
        var k :| 0 <= k < |idx0| && idx0[k] == x;
      }
      assert forall i :: 0 <= i < |init| ==> a[i] == init[i];
      if Outside(JsMath.Round(a[|a| - 1]), lowerOutlier, upperOutlier) {
        assert OutsideIndices(a, lowerOutlier, upperOutlier) == idx0 + [|a| - 1];
      } else {
        assert OutsideIndices(a, lowerOutlier, upperOutlier) == idx0;
      }
    }
  }

  /** The outliers are exactly the rounded samples beyond the fences, taken in
      the order of `a`: the k-th outlier is the rounded sample at the k-th
      position (ascending) whose rounded sample is beyond a fence, and a
      position is among those exactly when its rounded sample is beyond one. */
  lemma RoundedOutsideIsSubsequence(a: seq<real>, lowerOutlier: int, upperOutlier: int)
    ensures var out, idx := RoundedOutside(a, lowerOutlier, upperOutlier), OutsideIndices(a, lowerOutlier, upperOutlier);
      |out| == |idx| &&
      (forall k :: 0 <= k < |idx| ==> idx[k] < |a| && out[k] == JsMath.Round(a[idx[k]])) &&
      (forall k, l :: 0 <= k < l < |idx| ==> idx[k] < idx[l]) &&
      (forall i :: 0 <= i < |a| ==> (i in idx <==> Outside(JsMath.Round(a[i]), lowerOutlier, upperOutlier)))
  {
    OutsideLengths(a, lowerOutlier, upperOutlier);
    OutsideAtIndices(a, lowerOutlier, upperOutlier);
    OutsideIndicesAscend(a, lowerOutlier, upperOutlier);
    OutsideIndicesExact(a, lowerOutlier, upperOutlier);
  }

  /** Every outlier is strictly beyond a fence. */
  lemma {:induction false} OutliersAreOutside(a: seq<real>, lowerOutlier: int, upperOutlier: int)
    ensures forall x :: x in RoundedOutside(a, lowerOutlier, upperOutlier) ==> Outside(x, lowerOutlier, upperOutlier)
  {
    if |a| > 0 {
      OutliersAreOutside(a[..|a| - 1], lowerOutlier, upperOutlier);
    }
  }

  /** A sample whose rounded value is beyond a fence is reported as an outlier. */
  lemma {:induction false} OutsideSamplesAreOutliers(a: seq<real>, lowerOutlier: int, upperOutlier: int, i: nat)
    requires i < |a|
    requires Outside(JsMath.Round(a[i]), lowerOutlier, upperOutlier)
    ensures JsMath.Round(a[i]) in RoundedOutside(a, lowerOutlier, upperOutlier)
  {
    if i < |a| - 1 {
      OutsideSamplesAreOutliers(a[..|a| - 1], lowerOutlier, upperOutlier, i);
    }
  }
}
