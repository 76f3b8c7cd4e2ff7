/**
 * Anomaly scores from KMeans' distance matrix: each packet's distance to its nearest
 * centre, and min-max rescaling of a column of scores onto [0, 1].
 */
module Scores {
  import opened Counting

  /** The shape of KMeans' output for n rows and k clusters: a label and k distances per row. */
  predicate KMeansOutput(labels: seq<int>, distances: seq<seq<real>>, n: nat, k: int) {
    |labels| == n && |distances| == n &&
    (forall i :: 0 <= i < n ==> 0 <= labels[i] < k) &&
    (forall i :: 0 <= i < n ==> |distances[i]| == k)
  }

  /** np.min(distances, axis=1): each row's distance to its nearest centre. */
  function RowMins(d: seq<seq<real>>): (r: seq<real>)
    requires forall i :: 0 <= i < |d| ==> |d[i]| > 0
    ensures |r| == |d|
    ensures forall i :: 0 <= i < |d| ==> r[i] in d[i] && forall j :: 0 <= j < |d[i]| ==> r[i] <= d[i][j]
  {
    seq(|d|, i requires 0 <= i < |d| => MinOf(d[i]))
  }

  /** Min-max scaling onto [0, 1] when the scores span a positive range. */
  function Rescale(s: seq<real>, lo: real, hi: real): (r: seq<real>)
    requires lo < hi
    ensures |r| == |s|
  {
    seq(|s|, i requires 0 <= i < |s| => (s[i] - lo) / (hi - lo))
  }

  lemma RescaleAt(s: seq<real>, lo: real, hi: real, i: nat)
    requires lo < hi && i < |s| && lo <= s[i] <= hi
    ensures 0.0 <= Rescale(s, lo, hi)[i] <= 1.0
    ensures s[i] == lo ==> Rescale(s, lo, hi)[i] == 0.0
    ensures s[i] == hi ==> Rescale(s, lo, hi)[i] == 1.0
  {
    var x := Rescale(s, lo, hi)[i];
    assert x == (s[i] - lo) / (hi - lo);
    DivInUnit(s[i] - lo, hi - lo);
    if s[i] == hi {
      var d := hi - lo;
      assert s[i] - lo == d;
      assert x == d / d;
      DivSelf(d);
    }
  }

  lemma DivSelf(d: real)
    requires d > 0.0
    ensures d / d == 1.0
  {
  }

  lemma RescaleOrder(s: seq<real>, lo: real, hi: real, i: nat, j: nat)
    requires lo < hi && i < |s| && j < |s|
    ensures s[i] < s[j] <==> Rescale(s, lo, hi)[i] < Rescale(s, lo, hi)[j]
    ensures s[i] == s[j] <==> Rescale(s, lo, hi)[i] == Rescale(s, lo, hi)[j]
  {
    var d := hi - lo;
    var r := Rescale(s, lo, hi);
    assert r[i] * d == s[i] - lo && r[j] * d == s[j] - lo;
    if r[i] < r[j] {
      assert r[i] * d < r[j] * d;
    }
  }

  lemma DivInUnit(x: real, d: real)
    requires 0.0 <= x <= d && d > 0.0
    ensures 0.0 <= x / d <= 1.0
  {
    assert x / d * d == x;
  }

  /**
   * Rescaling by the column's own minimum and maximum puts every score in [0, 1], sends the
   * minimum to 0 and the maximum to 1, and keeps the order of any two scores both ways.
   */
  lemma RescaleSpec(s: seq<real>)
    requires |s| > 0 && MinOf(s) < MaxOf(s)
    ensures var r := Rescale(s, MinOf(s), MaxOf(s));
      && (forall i :: 0 <= i < |s| ==> 0.0 <= r[i] <= 1.0)
      && (forall i :: 0 <= i < |s| && s[i] == MinOf(s) ==> r[i] == 0.0)
      && (forall i :: 0 <= i < |s| && s[i] == MaxOf(s) ==> r[i] == 1.0)
      && (forall i, j :: 0 <= i < |s| && 0 <= j < |s| ==> (s[i] < s[j] <==> r[i] < r[j]))
  {
    var lo, hi := MinOf(s), MaxOf(s);
    var r := Rescale(s, lo, hi);
    forall i | 0 <= i < |s|
      ensures 0.0 <= r[i] <= 1.0 && (s[i] == lo ==> r[i] == 0.0) && (s[i] == hi ==> r[i] == 1.0)
    {
      RescaleAt(s, lo, hi, i);
    }
    forall i, j | 0 <= i < |s| && 0 <= j < |s| ensures s[i] < s[j] <==> r[i] < r[j] {
      RescaleOrder(s, lo, hi, i, j);
    }
  }
}
