/**
 * The enhanced backend's analyzer object: perform_analysis stores the cluster labels and
 * normalised anomaly scores, get_cluster_summary reports cluster sizes, small clusters
 * and score statistics from them, and export_results lists one row per packet. The
 * clustering itself is foreign: labels and the distance matrix are inputs.
 */
module EnhancedAnalysis {
  import opened Wrappers
  import opened Counting
  import opened EnhancedFeatures
  import opened Clusters
  import opened Scores

  // ----- scores --------------------------------------------------------------------

  /**
   * The enhanced normalisation: rescaled when there is more than one score and the
   * maximum exceeds the minimum, otherwise left as it is.
   */
  function NormalizeEnhanced(s: seq<real>): (r: seq<real>)
    ensures |r| == |s|
  {
    if |s| > 1 && MaxOf(s) > MinOf(s) then Rescale(s, MinOf(s), MaxOf(s)) else s
  }

  /**
   * With a positive range the normalised scores lie in [0, 1], the minimum becomes 0, the
   * maximum 1, and the order of any two scores is kept both ways; otherwise nothing changes.
   */
  lemma NormalizeEnhancedSpec(s: seq<real>)
    ensures var r := NormalizeEnhanced(s);
      if |s| > 1 && MaxOf(s) > MinOf(s) then
        && (forall i :: 0 <= i < |s| ==> 0.0 <= r[i] <= 1.0)
        && (forall i :: 0 <= i < |s| && s[i] == MinOf(s) ==> r[i] == 0.0)
        && (forall i :: 0 <= i < |s| && s[i] == MaxOf(s) ==> r[i] == 1.0)
        && (forall i, j :: 0 <= i < |s| && 0 <= j < |s| ==> (s[i] < s[j] <==> r[i] < r[j]))
      else r == s
  {
    if |s| > 1 && MaxOf(s) > MinOf(s) {
      RescaleSpec(s);
    }
  }

  /** What get_cluster_summary returns; std_score (a square root) is not modelled. */
  datatype Summary = Summary(
    totalPackets: nat, numClusters: int, clusterSizes: seq<(int, nat)>,
    meanScore: real, highAnomalyThreshold: real, highAnomalyCount: nat, smallClusters: seq<int>)

  /** One row of export_results' packet_results. */
  datatype PacketResult = PacketResult(packetNumber: nat, clusterId: int, anomalyScore: real, isAnomaly: bool)

  /** Number of rows flagged as anomalous. */
  function Flagged(rows: seq<PacketResult>): nat {
    if rows == [] then 0 else Flagged(rows[..|rows| - 1]) + (if rows[|rows| - 1].isAnomaly then 1 else 0)
  }

  lemma {:induction false} FlaggedCountsAbove(rows: seq<PacketResult>, scores: seq<real>, t: real)
    requires |rows| == |scores|
    requires forall i :: 0 <= i < |rows| ==> rows[i].isAnomaly == (scores[i] > t)
    ensures Flagged(rows) == CountAbove(scores, t)
  {
    if rows != [] {
      var n := |rows| - 1;
      FlaggedCountsAbove(rows[..n], scores[..n], t);
      CountAboveSnoc(scores[..n], scores[n], t);
      assert scores[..n] + [scores[n]] == scores;
    }
  }

  /**
   * The analyzer object. `nClusters` is k; the other fields are None until an analysis
   * succeeded, and afterwards hold one label and one score per packet.
   */
  class KmeansAnalyzer {
    const nClusters: int
    var features: Option<seq<FeatureRow>>
    var clusterLabels: Option<seq<int>>
    var anomalyScores: Option<seq<real>>

    ghost predicate Valid()
      reads this
    {
      (clusterLabels.Some? <==> anomalyScores.Some?) &&
      (clusterLabels.Some? ==>
        features.Some? && 1 <= nClusters <= |clusterLabels.value| &&
        |clusterLabels.value| == |anomalyScores.value| == |features.value| &&
        forall i :: 0 <= i < |clusterLabels.value| ==> 0 <= clusterLabels.value[i] < nClusters)
    }

    constructor(k: int)
      ensures nClusters == k && features.None? && clusterLabels.None? && anomalyScores.None?
      ensures Valid()
    {
      nClusters := k;
      features := None;
      clusterLabels := None;
      anomalyScores := None;
    }

    /**
     * perform_analysis on a feature table, given the labels and the distance matrix the
     * clustering of its scaled rows produced. Fewer rows than k is a ValueError, and
     * KMeans rejects k < 1; both leave the object unchanged. Otherwise the labels are
     * stored and each score is the row's nearest-centre distance, normalised.
     */
    method PerformAnalysis(feats: seq<FeatureRow>, labels: seq<int>, distances: seq<seq<real>>)
      returns (r: Result<(seq<int>, seq<real>), string>)
      requires Valid()
      requires |feats| >= nClusters >= 1 ==> KMeansOutput(labels, distances, |feats|, nClusters)
      modifies this
      ensures Valid()
      ensures r.Err? <==> |feats| < nClusters || nClusters < 1
      ensures r.Err? ==> unchanged(this)
      ensures r.Ok? ==>
        && clusterLabels == Some(labels) && features == Some(feats)
        && anomalyScores == Some(NormalizeEnhanced(RowMins(distances)))
        && r.value == (labels, NormalizeEnhanced(RowMins(distances)))
    {
      if |feats| < nClusters {
        return Err("Not enough data points for the requested clusters");
      }
      if nClusters < 1 {
        return Err("KMeans rejects n_clusters below 1");
      }
      clusterLabels := Some(labels);
      var scores := RowMins(distances);
      if |scores| > 1 {
        var lo, hi := MinOf(scores), MaxOf(scores);
        if hi > lo {
          scores := Rescale(scores, lo, hi);
        }
      }
      anomalyScores := Some(scores);
      features := Some(feats);
      r := Ok((labels, scores));
    }

    /**
     * get_cluster_summary, with the 90th percentile of the scores as `threshold`: None
     * before an analysis; otherwise the packet count, k, the size of every non-empty cluster
     * in ascending label order, the mean score, the threshold, the number of scores strictly
     * above it, and the labels of the clusters holding less than 5% of the packets.
     */
    method GetClusterSummary(threshold: real) returns (r: Option<Summary>)
      requires Valid()
      ensures r.None? <==> clusterLabels.None?
      ensures r.Some? ==>
        var labels, scores := clusterLabels.value, anomalyScores.value;
        && r.value.totalPackets == |labels| && r.value.numClusters == nClusters
        && r.value.clusterSizes == SizesBelow(labels, nClusters)
        && r.value.meanScore == Sum(scores) / (|scores| as real)
        && r.value.highAnomalyThreshold == threshold
        && r.value.highAnomalyCount == CountAbove(scores, threshold)
        && r.value.smallClusters == SmallOf(SizesBelow(labels, nClusters), |labels|)
    {
      if clusterLabels.None? {
        return None;
      }
      var labels, scores := clusterLabels.value, anomalyScores.value;
      var k := nClusters;
      var counts := CountLabels(labels, k);
      var sizes := SizesFromCounts(labels, counts);
      var total := |labels|;
      var small := SmallClusters(sizes, total);
      r := Some(Summary(total, k, sizes, Sum(scores) / (|scores| as real), threshold, CountAbove(scores, threshold), small));
    }

    /**
     * The per-packet rows of export_results, with the 90th percentile as `threshold`: a
     * ValueError before an analysis; otherwise row i is packet i + 1 with its label and
     * score, flagged exactly when the score exceeds the threshold.
     */
    method ExportRows(threshold: real) returns (r: Result<seq<PacketResult>, string>)
      requires Valid()
      ensures r.Err? <==> clusterLabels.None?
      ensures r.Ok? ==>
        var labels, scores := clusterLabels.value, anomalyScores.value;
        && |r.value| == |labels|
        && forall i :: 0 <= i < |labels| ==>
             r.value[i] == PacketResult(i + 1, labels[i], scores[i], scores[i] > threshold)
    {
      if clusterLabels.None? {
        return Err("No analysis results to export");
      }
      var labels, scores := clusterLabels.value, anomalyScores.value;
      var rows: seq<PacketResult> := [];
      var i := 0;
      while i < |labels|
        invariant 0 <= i <= |labels| && |rows| == i
        invariant forall m :: 0 <= m < i ==> rows[m] == PacketResult(m + 1, labels[m], scores[m], scores[m] > threshold)
      {
        rows := rows + [PacketResult(i + 1, labels[i], scores[i], scores[i] > threshold)];
        i := i + 1;
      }
      r := Ok(rows);
    }
  }

  /** np.unique's counting pass: how often each label below k occurs. */
  method CountLabels(labels: seq<int>, k: nat) returns (counts: seq<nat>)
    requires forall i :: 0 <= i < |labels| ==> 0 <= labels[i] < k
    ensures |counts| == k && forall c :: 0 <= c < k ==> counts[c] == Count(labels, c)
  {
    counts := seq(k, _ => 0);
    var i := 0;
    while i < |labels|
      invariant 0 <= i <= |labels| && |counts| == k
      invariant forall c :: 0 <= c < k ==> counts[c] == Count(labels[..i], c)
    {
      var l := labels[i];
      assert labels[..i + 1] == labels[..i] + [l];
      forall c | 0 <= c < k ensures Count(labels[..i + 1], c) == Count(labels[..i], c) + (if l == c then 1 else 0) {
        CountSnoc(labels[..i], l, c);
      }
      counts := counts[l := counts[l] + 1];
      i := i + 1;
    }
    assert labels[..i] == labels;
  }

  /** The labels that occur, ascending, with their counts. */
  method SizesFromCounts(labels: seq<int>, counts: seq<nat>) returns (sizes: seq<(int, nat)>)
    requires forall c :: 0 <= c < |counts| ==> counts[c] == Count(labels, c)
    ensures sizes == SizesBelow(labels, |counts|)
  {
    sizes := [];
    var c := 0;
    while c < |counts|
      invariant 0 <= c <= |counts|
      invariant sizes == SizesList(labels, c)
    {
      if counts[c] > 0 {
        sizes := sizes + [(c, counts[c])];
      }
      c := c + 1;
    }
  }

  /** The labels of the clusters holding less than 5% of the `total` packets, in order. */
  method SmallClusters(sizes: seq<(int, nat)>, total: nat) returns (small: seq<int>)
    ensures small == SmallOf(sizes, total)
  {
    small := [];
    var j := 0;
    while j < |sizes|
      invariant 0 <= j <= |sizes|
      invariant small == SmallOf(sizes[..j], total)
    {
      assert sizes[..j + 1][..j] == sizes[..j];
      if 20 * sizes[j].1 < total {
        small := small + [sizes[j].0];
      }
      j := j + 1;
    }
    assert sizes[..j] == sizes;
  }

  /**
   * The exported flags agree with the summary: as many rows are flagged as the summary
   * counts high-anomaly scores, and the cluster sizes add up to the packet count.
   */
  lemma ExportAgreesWithSummary(labels: seq<int>, scores: seq<real>, k: nat, rows: seq<PacketResult>, threshold: real)
    requires |labels| == |scores| == |rows|
    requires forall i :: 0 <= i < |labels| ==> 0 <= labels[i] < k
    requires forall i :: 0 <= i < |rows| ==> rows[i] == PacketResult(i + 1, labels[i], scores[i], scores[i] > threshold)
    ensures Flagged(rows) == CountAbove(scores, threshold)
    ensures SumCounts(SizesBelow(labels, k)) == |rows|
  {
    FlaggedCountsAbove(rows, scores, threshold);
    ClusterSizesSum(labels, k);
  }
}
