/**
 * The matplotlib-free backend: an analyzer object that checks the loaded table's columns,
 * builds one feature row per packet in a loop, stores the cluster labels and normalised
 * anomaly scores of a clustering, and from them assembles the cluster analysis, the
 * deduplicated anomaly list and the per-packet results. Scaling, KMeans and the silhouette
 * score are foreign: their outputs are inputs here.
 */
module Minimal {
  import opened Wrappers
  import opened Text
  import opened Counting
  import opened Table
  import opened Clusters
  import opened Scores
  import Analyzer

  // ----- load_data ------------------------------------------------------------------

  /** The six columns load_data insists on. */
  const RequiredColumns: seq<string> := ["No.", "Time", "Source", "Destination", "Protocol", "Length"]

  /** A loaded table: every required column is there. */
  predicate HasRequiredColumns(f: Frame) {
    WellFormed(f) && "No." in f.names && "Time" in f.names && "Source" in f.names &&
    "Destination" in f.names && "Protocol" in f.names && "Length" in f.names
  }

  /** The columns the feature loop and the reports read, one cell per packet. */
  datatype Columns = Columns(
    time: seq<Cell>, source: seq<Cell>, destination: seq<Cell>, protocol: seq<Cell>,
    length: seq<Cell>, info: Option<seq<Cell>>, height: nat)

  predicate ColumnsFit(x: Columns) {
    |x.time| == x.height && |x.source| == x.height && |x.destination| == x.height &&
    |x.protocol| == x.height && |x.length| == x.height && (x.info.Some? ==> |x.info.value| == x.height)
  }

  /** The columns of a loaded table; Info is optional. */
  function ColumnsOf(f: Frame): (x: Columns)
    requires HasRequiredColumns(f)
    ensures ColumnsFit(x) && x.height == f.height
    ensures x.info.Some? <==> "Info" in f.names
  {
    Columns(Column(f, "Time"), Column(f, "Source"), Column(f, "Destination"), Column(f, "Protocol"),
      Column(f, "Length"), if "Info" in f.names then Some(Column(f, "Info")) else None, f.height)
  }

  // ----- extract_features: one row ----------------------------------------------------

  /** float(x) if pd.notna(x) else 0 for one cell; None when float() raises. */
  function FloatOrZero(c: Cell): (r: Option<real>)
    ensures c == NA ==> r == Some(0.0)
    ensures c.Val? ==> r == ParseNumber(c.text)
  {
    match c
    case NA => Some(0.0)
    case Val(s) => ParseNumber(s)
  }

  /** The protocol map of this variant, which also knows ARP. */
  function ProtocolNumber(s: string): (code: int)
    ensures 0 <= code <= 8
  {
    if s == "TCP" then 1 else if s == "UDP" then 2 else if s == "ICMP" then 3
    else if s == "HTTP" then 4 else if s == "HTTPS" then 5 else if s == "DNS" then 6
    else if s == "TLS" || s == "TLSv1.2" || s == "TLSv1.3" then 7
    else if s == "ARP" then 8
    else 0
  }

  /** The ten names the protocol map knows. */
  const MappedProtocols: seq<string> := ["TCP", "UDP", "ICMP", "HTTP", "HTTPS", "DNS", "TLS", "TLSv1.2", "TLSv1.3", "ARP"]

  /** protocol_map.get(x, 0): a missing protocol (NaN) is no key. */
  function ProtocolFeature(c: Cell): (code: int)
    ensures 0 <= code <= 8
  {
    if c.Val? then ProtocolNumber(c.text) else 0
  }

  /** The ten known names get a code other than 0, TLS spellings 7, ARP 8, and nothing else. */
  lemma ProtocolTable(c: Cell)
    ensures ProtocolFeature(c) != 0 <==> c.Val? && c.text in MappedProtocols
    ensures ProtocolFeature(c) == 7 <==> c == Val("TLS") || c == Val("TLSv1.2") || c == Val("TLSv1.3")
    ensures ProtocolFeature(c) == 8 <==> c == Val("ARP")
  {
  }

  /**
   * One alternative of ^(10\.|172\.1[6-9]\.|172\.2[0-9]\.|172\.3[0-1]\.|192\.168\.): the
   * prefix "172.", then `tens`, then a digit from `lo` to `hi`, then a dot.
   */
  predicate Starts172(s: string, tens: char, lo: char, hi: char) {
    |s| >= 7 && s[..4] == "172." && s[4] == tens && lo <= s[5] <= hi && s[6] == '.'
  }

  /** re.match of the private-range pattern on an address text. */
  predicate MinimalLocal(s: string) {
    IsPrefix("10.", s) || Starts172(s, '1', '6', '9') || Starts172(s, '2', '0', '9') ||
    Starts172(s, '3', '0', '1') || IsPrefix("192.168.", s)
  }

  /** src_local or dst_local: a missing address is tested as "", which is not local. */
  function LocalFlag(c: Cell): (r: int)
    ensures r == 0 || r == 1
    ensures r == 1 <==> c.Val? && MinimalLocal(c.text)
  {
    var s := if c.Val? then c.text else "";
    assert !MinimalLocal("");
    Flag(MinimalLocal(s))
  }

  /** 172.16. to 172.31. are local, 172.32. and 100. are not. */
  lemma MinimalLocalExamples()
    ensures MinimalLocal("172.16.0.9") && MinimalLocal("172.20.0.1") && MinimalLocal("172.31.255.1")
    ensures !MinimalLocal("172.32.0.1") && !MinimalLocal("100.0.0.1") && !MinimalLocal("172.15.0.1")
    ensures MinimalLocal("10.1.2.3") && MinimalLocal("192.168.0.1")
  {
    assert "172.16.0.9"[..4] == "172.";
    assert "172.20.0.1"[..4] == "172.";
    assert "172.31.255.1"[..4] == "172.";
    assert "10.1.2.3"[..3] == "10.";
    assert "192.168.0.1"[..8] == "192.168.";
    assert "172.32.0.1"[..3][1] != "10."[1];
    assert "172.32.0.1"[..8][1] != "192.168."[1];
    assert "172.15.0.1"[..3][1] != "10."[1];
    assert "172.15.0.1"[..8][1] != "192.168."[1];
    assert "100.0.0.1"[..3][2] != "10."[2];
    assert "100.0.0.1"[..8][1] != "192.168."[1];
    assert "100.0.0.1"[..4] != "172.";
  }

  /** The ten values of one features dict, in the order the dict is built. */
  datatype MinimalRow = MinimalRow(
    length: real, time: real, protocolNum: int, srcLocal: int, dstLocal: int,
    timeDelta: real, flags: Analyzer.InfoFlags)

  /** Row i converts: float() accepts its Length and Time when they are present. */
  predicate RowReadable(x: Columns, i: nat)
    requires ColumnsFit(x) && i < x.height
  {
    FloatOrZero(x.length[i]).Some? && FloatOrZero(x.time[i]).Some?
  }

  /** The Info text of row i: str() of the cell when there is an Info column, else "". */
  function InfoText(x: Columns, i: nat): string
    requires ColumnsFit(x) && i < x.height
  {
    if x.info.Some? then StrOf(x.info.value[i]) else ""
  }

  /** float() of a cell it accepts, a missing one read as 0. */
  function ReadNumber(c: Cell): (v: real)
    requires FloatOrZero(c).Some?
    ensures c == NA ==> v == 0.0
    ensures c.Val? ==> Some(v) == ParseNumber(c.text)
  {
    FloatOrZero(c).value
  }

  /** The features dict of row i, whose Time and the previous row's Time convert. */
  function RowOf(x: Columns, i: nat): MinimalRow
    requires ColumnsFit(x) && i < x.height && RowReadable(x, i) && (i > 0 ==> RowReadable(x, i - 1))
  {
    var t := ReadNumber(x.time[i]);
    MinimalRow(ReadNumber(x.length[i]), t, ProtocolFeature(x.protocol[i]),
      LocalFlag(x.source[i]), LocalFlag(x.destination[i]),
      if i > 0 then t - ReadNumber(x.time[i - 1]) else 0.0,
      Analyzer.InfoFeatures(InfoText(x, i)))
  }

  /** The features dicts of the first n rows, all of them readable. */
  function RowsOf(x: Columns, n: nat): (rows: seq<MinimalRow>)
    requires ColumnsFit(x) && n <= x.height && forall j :: 0 <= j < n ==> RowReadable(x, j)
    ensures |rows| == n
  {
    if n == 0 then [] else RowsOf(x, n - 1) + [RowOf(x, n - 1)]
  }

  lemma {:induction false} RowsOfAt(x: Columns, n: nat)
    requires ColumnsFit(x) && n <= x.height && forall j :: 0 <= j < n ==> RowReadable(x, j)
    ensures forall j :: 0 <= j < n ==> RowsOf(x, n)[j] == RowOf(x, j)
  {
    if n > 0 {
      RowsOfAt(x, n - 1);
      assert forall j :: 0 <= j < n - 1 ==> RowsOf(x, n)[j] == RowsOf(x, n - 1)[j];
    }
  }

  /**
   * What one feature row holds: a missing length or time reads as 0; the delta is 0 on the
   * first row and otherwise this time minus the previous one, a missing one read as 0; the
   * codes and flags are 0 or 1 as their tests say; without an Info column every flag is 0.
   */
  lemma RowOfSpec(x: Columns, i: nat)
    requires ColumnsFit(x) && i < x.height && RowReadable(x, i) && (i > 0 ==> RowReadable(x, i - 1))
    ensures var r := RowOf(x, i);
      && (x.length[i] == NA ==> r.length == 0.0)
      && (x.length[i].Val? ==> Some(r.length) == ParseNumber(x.length[i].text))
      && (x.time[i] == NA ==> r.time == 0.0)
      && (x.time[i].Val? ==> Some(r.time) == ParseNumber(x.time[i].text))
      && (i == 0 ==> r.timeDelta == 0.0)
      && (i > 0 && x.time[i - 1] == NA ==> r.timeDelta == r.time)
      && (i > 0 && x.time[i - 1].Val? ==> Some(r.time - r.timeDelta) == ParseNumber(x.time[i - 1].text))
      && 0 <= r.protocolNum <= 8
      && (r.srcLocal == 1 <==> x.source[i].Val? && MinimalLocal(x.source[i].text))
      && (r.dstLocal == 1 <==> x.destination[i].Val? && MinimalLocal(x.destination[i].text))
      && (x.info.None? ==> r.flags == Analyzer.InfoFlags(0, 0, 0, 0))
  {
    RowOfReads(x, i);
    RowOfCodes(x, i);
    if i > 0 {
      DeltaRead(x.time[i - 1], RowOf(x, i).time, RowOf(x, i).timeDelta);
    }
  }

  /** A delta taken from a previous time as float() read it. */
  lemma DeltaRead(prev: Cell, t: real, delta: real)
    requires FloatOrZero(prev).Some? && delta == t - ReadNumber(prev)
    ensures prev == NA ==> delta == t
    ensures prev.Val? ==> Some(t - delta) == ParseNumber(prev.text)
  {
  }

  /** Length, time and delta of one feature row, as float() read them. */
  lemma RowOfReads(x: Columns, i: nat)
    requires ColumnsFit(x) && i < x.height && RowReadable(x, i) && (i > 0 ==> RowReadable(x, i - 1))
    ensures RowOf(x, i).length == ReadNumber(x.length[i]) && RowOf(x, i).time == ReadNumber(x.time[i])
    ensures RowOf(x, i).timeDelta == if i > 0 then ReadNumber(x.time[i]) - ReadNumber(x.time[i - 1]) else 0.0
  {
  }

  /** The protocol code and the flags of one feature row. */
  lemma RowOfCodes(x: Columns, i: nat)
    requires ColumnsFit(x) && i < x.height && RowReadable(x, i) && (i > 0 ==> RowReadable(x, i - 1))
    ensures var r := RowOf(x, i);
      && 0 <= r.protocolNum <= 8
      && (r.srcLocal == 1 <==> x.source[i].Val? && MinimalLocal(x.source[i].text))
      && (r.dstLocal == 1 <==> x.destination[i].Val? && MinimalLocal(x.destination[i].text))
      && (x.info.None? ==> r.flags == Analyzer.InfoFlags(0, 0, 0, 0))
  {
    if x.info.None? {
      assert RowOf(x, i).flags == Analyzer.InfoFeatures("");
      NoFlagsInEmptyText();
    }
  }

  /** The empty Info text sets no flag. */
  lemma NoFlagsInEmptyText()
    ensures Analyzer.InfoFeatures("") == Analyzer.InfoFlags(0, 0, 0, 0)
  {
    assert Lower("") == "";
    assert !Analyzer.ErrorWord("");
  }

  // ----- the analyzer object --------------------------------------------------------------

  /** One anomaly's reason: a high score, or membership in a small cluster of the given size. */
  datatype Reason = HighScore | SmallCluster(size: nat)

  /** One entry of the anomaly list; Length is kept as its cell (int() is not modelled). */
  datatype Anomaly = Anomaly(
    packetNumber: int, anomalyScore: real, clusterId: int,
    protocol: Cell, source: Cell, destination: Cell, length: Cell, reason: Reason)

  /** The packet numbers of the anomaly list, in order. */
  function PacketNumbers(a: seq<Anomaly>): (r: seq<int>)
    ensures |r| == |a|
    ensures forall k :: 0 <= k < |a| ==> r[k] == a[k].packetNumber
  {
    seq(|a|, k requires 0 <= k < |a| => a[k].packetNumber)
  }

  /** The table after analyze_clusters: its columns, No. read as integers, the labels and scores. */
  datatype Clustered = Clustered(cols: Columns, numbers: seq<int>, labels: seq<int>, scores: seq<real>)

  predicate ClusteredFits(d: Clustered) {
    ColumnsFit(d.cols) && |d.numbers| == d.cols.height && |d.labels| == d.cols.height &&
    |d.scores| == d.cols.height
  }

  /** The anomaly entry built from row i for the given reason. */
  function AnomalyAt(d: Clustered, i: nat, reason: Reason): (a: Anomaly)
    requires ClusteredFits(d) && i < d.cols.height
    ensures a.packetNumber == d.numbers[i]
  {
    Anomaly(d.numbers[i], d.scores[i], d.labels[i], d.cols.protocol[i], d.cols.source[i],
      d.cols.destination[i], d.cols.length[i], reason)
  }

  /** The mask df['anomaly_score'] > threshold. */
  function HotMask(d: Clustered, threshold: real): (p: seq<bool>)
    requires ClusteredFits(d)
    ensures |p| == d.cols.height
    ensures forall i :: 0 <= i < |p| ==> p[i] == (d.scores[i] > threshold)
  {
    seq(|d.scores|, i requires 0 <= i < |d.scores| => d.scores[i] > threshold)
  }

  /** The rows whose score is strictly above the threshold, ascending. */
  function HighRows(d: Clustered, threshold: real): (r: seq<nat>)
    requires ClusteredFits(d)
    ensures forall k :: 0 <= k < |r| ==> r[k] < d.cols.height
  {
    Where(HotMask(d, threshold))
  }

  /** The list starts with one high-score entry per high-scoring row, in row order. */
  predicate HighFirst(d: Clustered, threshold: real, a: seq<Anomaly>)
    requires ClusteredFits(d)
  {
    var high := HighRows(d, threshold);
    |high| <= |a| && forall k :: 0 <= k < |high| ==> a[k] == AnomalyAt(d, high[k], HighScore)
  }

  /** Entry `e` is built from a row of a small cluster, with that cluster's size as reason. */
  predicate FromSmallCluster(d: Clustered, e: Anomaly)
    requires ClusteredFits(d)
  {
    exists i :: 0 <= i < d.cols.height && IsSmall(Count(d.labels, d.labels[i]), d.cols.height) &&
      e == AnomalyAt(d, i, SmallCluster(Count(d.labels, d.labels[i])))
  }

  /** After the high-score entries come small-cluster entries, each with a number not seen before. */
  predicate SmallAfter(d: Clustered, start: nat, a: seq<Anomaly>)
    requires ClusteredFits(d)
  {
    forall k :: start <= k < |a| ==>
      FromSmallCluster(d, a[k]) && forall m :: 0 <= m < k ==> a[m].packetNumber != a[k].packetNumber
  }

  /** A small-cluster entry with a number not yet listed can be appended. */
  lemma SmallAfterSnoc(d: Clustered, start: nat, a: seq<Anomaly>, e: Anomaly)
    requires ClusteredFits(d) && start <= |a| && SmallAfter(d, start, a)
    requires FromSmallCluster(d, e) && e.packetNumber !in PacketNumbers(a)
    ensures SmallAfter(d, start, a + [e])
    ensures PacketNumbers(a + [e]) == PacketNumbers(a) + [e.packetNumber]
  {
    var b := a + [e];
    forall k | start <= k < |b|
      ensures FromSmallCluster(d, b[k]) && forall m :: 0 <= m < k ==> b[m].packetNumber != b[k].packetNumber
    {
      if k < |a| {
        assert b[k] == a[k];
        assert forall m :: 0 <= m < k ==> b[m] == a[m];
      } else {
        assert forall m :: 0 <= m < k ==> b[m].packetNumber == PacketNumbers(a)[m];
      }
    }
  }

  /** Appending to the list keeps every number already listed. */
  lemma PrefixListed(a: seq<Anomaly>, b: seq<Anomaly>)
    requires |a| <= |b| && b[..|a|] == a
    ensures forall v :: v in PacketNumbers(a) ==> v in PacketNumbers(b)
  {
    forall v | v in PacketNumbers(a) ensures v in PacketNumbers(b) {
      var k :| 0 <= k < |a| && PacketNumbers(a)[k] == v;
      assert b[k] == a[k];
    }
  }

  /** One entry of analyze_clusters' list. */
  datatype ClusterEntry = ClusterEntry(
    id: int, size: nat, percentage: real, avgPacketLength: Option<real>, avgAnomalyScore: real,
    topProtocols: seq<(Cell, nat)>, topSources: seq<(Cell, nat)>, topDestinations: seq<(Cell, nat)>)

  /** The dict analyze_clusters returns. */
  datatype ClusterAnalysis = ClusterAnalysis(numClusters: int, totalPackets: nat, clusters: seq<ClusterEntry>)

  /** The entry of a cluster with at least one packet; a mean over no number is NaN (None). */
  function EntryOf(d: Clustered, c: int): (e: ClusterEntry)
    requires ClusteredFits(d) && c in d.labels
    ensures e.id == c && e.size == Count(d.labels, c)
    ensures e.percentage == (e.size as real) / (d.cols.height as real) * 100.0
  {
    var n := d.cols.height;
    var size := Count(d.labels, c);
    ClusterEntry(c, size, (size as real) / (n as real) * 100.0,
      MeanOf(Analyzer.InCluster(Analyzer.Numeric(d.cols.length), d.labels, c)),
      Sum(Analyzer.InCluster(d.scores, d.labels, c)) / (size as real),
      Analyzer.Top3(d.cols.protocol, d.labels, c), Analyzer.Top3(d.cols.source, d.labels, c),
      Analyzer.Top3(d.cols.destination, d.labels, c))
  }

  /** The entries for a list of (cluster, size) pairs of occurring clusters. */
  function EntriesOf(d: Clustered, sizes: seq<(int, nat)>): (r: seq<ClusterEntry>)
    requires ClusteredFits(d) && forall j :: 0 <= j < |sizes| ==> sizes[j].0 in d.labels
    ensures |r| == |sizes|
    ensures forall j :: 0 <= j < |sizes| ==> r[j].id == sizes[j].0 && r[j].size == Count(d.labels, sizes[j].0)
    ensures forall j :: 0 <= j < |sizes| ==> r[j].percentage == (r[j].size as real) / (d.cols.height as real) * 100.0
  {
    seq(|sizes|, j requires 0 <= j < |sizes| => EntryOf(d, sizes[j].0))
  }

  lemma EntriesOfSnoc(d: Clustered, sizes: seq<(int, nat)>, e: (int, nat))
    requires ClusteredFits(d) && forall j :: 0 <= j < |sizes| ==> sizes[j].0 in d.labels
    requires e.0 in d.labels
    ensures EntriesOf(d, sizes + [e]) == EntriesOf(d, sizes) + [EntryOf(d, e.0)]
  {
  }

  /** The sum of the entries' percentages. */
  function PercentTotal(es: seq<ClusterEntry>): real {
    if es == [] then 0.0 else PercentTotal(es[..|es| - 1]) + es[|es| - 1].percentage
  }

  lemma DivAdd(a: real, b: real, t: real)
    requires t > 0.0
    ensures a / t * 100.0 + b / t * 100.0 == (a + b) / t * 100.0
  {
    assert a / t * t == a && b / t * t == b;
    assert (a / t + b / t) * t == a + b;
  }

  /** Percentages of sizes out of t add up as the sizes do. */
  lemma {:induction false} PercentTotalOfSizes(es: seq<ClusterEntry>, sizes: seq<(int, nat)>, t: real)
    requires t > 0.0 && |es| == |sizes|
    requires forall j :: 0 <= j < |es| ==> es[j].size == sizes[j].1 && es[j].percentage == (es[j].size as real) / t * 100.0
    ensures PercentTotal(es) == (SumCounts(sizes) as real) / t * 100.0
  {
    if es != [] {
      var m := |es| - 1;
      PercentTotalOfSizes(es[..m], sizes[..m], t);
      DivAdd(SumCounts(sizes[..m]) as real, sizes[m].1 as real, t);
    }
  }

  /**
   * The analysis of a clustering whose labels are ids below k lists each occurring cluster
   * once, in ascending id order, each with its packet count.
   */
  lemma ClusterEntriesSpec(d: Clustered, k: nat)
    requires ClusteredFits(d)
    requires forall i :: 0 <= i < |d.labels| ==> 0 <= d.labels[i] < k
    ensures var es := EntriesOf(d, SizesBelow(d.labels, k));
      && (forall j :: 0 <= j < |es| ==> es[j].size == Count(d.labels, es[j].id) > 0)
      && (forall j, l :: 0 <= j < l < |es| ==> es[j].id < es[l].id)
      && (forall c :: c in d.labels ==> c in EntryIds(es))
  {
    EntriesIds(d, SizesBelow(d.labels, k));
    EntriesCover(d, k);
  }

  /** The sizes of those entries add up to the number of packets and the percentages to 100. */
  lemma ClusterEntriesTotals(d: Clustered, k: nat)
    requires ClusteredFits(d) && d.cols.height > 0
    requires forall i :: 0 <= i < |d.labels| ==> 0 <= d.labels[i] < k
    ensures SumCounts(SizesBelow(d.labels, k)) == d.cols.height
    ensures PercentTotal(EntriesOf(d, SizesBelow(d.labels, k))) == 100.0
  {
    var sizes := SizesBelow(d.labels, k);
    var t := d.cols.height as real;
    ClusterSizesSum(d.labels, k);
    PercentTotalOfSizes(EntriesOf(d, sizes), sizes, t);
    assert (SumCounts(sizes) as real) == t;
    DivSelf(t);
  }

  /** The entries carry the ids and sizes of the pairs they were built from. */
  lemma EntriesIds(d: Clustered, sizes: seq<(int, nat)>)
    requires ClusteredFits(d)
    requires forall j :: 0 <= j < |sizes| ==> sizes[j].0 in d.labels && sizes[j].1 == Count(d.labels, sizes[j].0)
    requires forall j, l :: 0 <= j < l < |sizes| ==> sizes[j].0 < sizes[l].0
    ensures var es := EntriesOf(d, sizes);
      && (forall j :: 0 <= j < |es| ==> es[j].id == sizes[j].0 && es[j].size == Count(d.labels, es[j].id) > 0)
      && (forall j, l :: 0 <= j < l < |es| ==> es[j].id < es[l].id)
  {
  }

  /** The ids of a list of entries, in order. */
  function EntryIds(es: seq<ClusterEntry>): (r: seq<int>)
    ensures |r| == |es| && forall j :: 0 <= j < |es| ==> r[j] == es[j].id
  {
    seq(|es|, j requires 0 <= j < |es| => es[j].id)
  }

  /** Every occurring label below k has an entry. */
  lemma EntriesCover(d: Clustered, k: nat)
    requires ClusteredFits(d)
    requires forall i :: 0 <= i < |d.labels| ==> 0 <= d.labels[i] < k
    ensures forall c :: c in d.labels ==> c in EntryIds(EntriesOf(d, SizesBelow(d.labels, k)))
  {
    var sizes := SizesBelow(d.labels, k);
    var ids := EntryIds(EntriesOf(d, sizes));
    forall c | c in d.labels ensures c in ids {
      SizesBelowComplete(d.labels, k, c);
      var j :| 0 <= j < |sizes| && sizes[j] == (c, Count(d.labels, c));
      assert ids[j] == c;
    }
  }

  /**
   * silhouette_score accepts between 2 and n - 1 distinct labels; perform_clustering calls it
   * only when more than one label occurs, so it raises exactly when every one of the n rows
   * has a label of its own.
   */
  predicate SilhouetteRaises(labs: seq<int>, n: int) {
    1 < |Distinct(labs)| && n <= |Distinct(labs)|
  }

  /** Five packets that KMeans puts in five clusters of one: silhouette_score raises. */
  lemma SilhouetteRaisesOnSingletons()
    ensures SilhouetteRaises([0, 1, 2, 3, 4], 5)
    ensures !SilhouetteRaises([0, 1, 2, 3, 3], 5)
  {
    var s: seq<int> := [0, 1, 2, 3, 4];
    DistinctOfNoDuplicates(s);
    var p: seq<int> := [0, 1, 2, 3];
    DistinctOfNoDuplicates(p);
    var u: seq<int> := [0, 1, 2, 3, 3];
    assert u[..4] == p && u[4] in p;
    assert Distinct(u) == Distinct(p);
  }

  /** One row of generate_results' packet_results. */
  datatype PacketResult = PacketResult(packetNumber: int, clusterId: int, anomalyScore: real, isAnomaly: bool)

  /** analysis_info together with the three lists of generate_results. */
  datatype Results = Results(
    numClusters: int, totalPackets: nat, silhouetteScore: real, numAnomalies: nat,
    analysis: ClusterAnalysis, anomalies: seq<Anomaly>, packets: seq<PacketResult>)

  /**
   * The anomaly scores of this variant: rescaled onto [0, 1] when there is more than one
   * score and they span a positive range, all 0 when there are several equal scores, and
   * left as they are when there is at most one.
   */
  function NormalizeMinimal(s: seq<real>): (r: seq<real>)
    ensures |r| == |s|
  {
    if |s| > 1 then
      if MaxOf(s) > MinOf(s) then Rescale(s, MinOf(s), MaxOf(s)) else seq(|s|, _ => 0.0)
    else s
  }

  /** The three cases of the normalisation, with order kept both ways in the first. */
  lemma NormalizeMinimalSpec(s: seq<real>)
    ensures var r := NormalizeMinimal(s);
      && (|s| > 1 && MaxOf(s) > MinOf(s) ==>
        && (forall i :: 0 <= i < |s| ==> 0.0 <= r[i] <= 1.0)
        && (forall i :: 0 <= i < |s| && s[i] == MinOf(s) ==> r[i] == 0.0)
        && (forall i :: 0 <= i < |s| && s[i] == MaxOf(s) ==> r[i] == 1.0)
        && (forall i, j :: 0 <= i < |s| && 0 <= j < |s| ==> (s[i] < s[j] <==> r[i] < r[j])))
      && (|s| > 1 && MaxOf(s) == MinOf(s) ==> forall i :: 0 <= i < |s| ==> r[i] == 0.0)
      && (|s| <= 1 ==> r == s)
  {
    if |s| > 1 && MaxOf(s) > MinOf(s) {
      RescaleSpec(s);
    }
  }

  /** With more than one score, every normalised score lies in [0, 1]. */
  lemma NormalizeMinimalInUnit(s: seq<real>)
    requires |s| > 1
    ensures forall i :: 0 <= i < |s| ==> 0.0 <= NormalizeMinimal(s)[i] <= 1.0
  {
    NormalizeMinimalSpec(s);
  }

  /**
   * The analyzer object. `numClusters` is k; `features` holds the scaled feature rows, and
   * `labels` and `anomalyScores` one label and one score per packet once a clustering ran.
   */
  class MinimalAnalyzer {
    const numClusters: int
    var features: Option<seq<seq<real>>>
    var labels: Option<seq<int>>
    var anomalyScores: Option<seq<real>>

    ghost predicate Valid()
      reads this
    {
      (labels.Some? <==> anomalyScores.Some?) &&
      (labels.Some? ==>
        features.Some? && 1 <= numClusters <= |labels.value| &&
        |labels.value| == |anomalyScores.value| == |features.value| &&
        forall i :: 0 <= i < |labels.value| ==> 0 <= labels.value[i] < numClusters)
    }

    constructor(k: int)
      ensures numClusters == k && features.None? && labels.None? && anomalyScores.None?
      ensures Valid()
    {
      numClusters := k;
      features := None;
      labels := None;
      anomalyScores := None;
    }

    /**
     * load_data: `read` is the table pandas read, None when reading raised. The table is
     * returned exactly when it was read and has all six required columns.
     */
    method LoadData(read: Option<Frame>) returns (r: Option<Frame>)
      requires read.Some? ==> WellFormed(read.value)
      ensures r.Some? <==> read.Some? && MissingColumns(read.value.names, RequiredColumns) == []
      ensures r.Some? ==> r == read && HasRequiredColumns(r.value)
    {
      if read.None? {
        return None;
      }
      var f := read.value;
      var missing := MissingColumns(f.names, RequiredColumns);
      if missing != [] {
        return None;
      }
      assert forall c :: c in RequiredColumns ==> c in f.names;
      assert RequiredColumns[0] == "No." && RequiredColumns[1] == "Time" && RequiredColumns[2] == "Source";
      assert RequiredColumns[3] == "Destination" && RequiredColumns[4] == "Protocol" && RequiredColumns[5] == "Length";
      r := read;
    }

    /**
     * The body of extract_features' loop for row i: None when float() raises on its Length
     * or Time, otherwise the row's features dict.
     */
    static method RowFeatures(x: Columns, i: nat) returns (r: Option<MinimalRow>)
      requires ColumnsFit(x) && i < x.height && (i > 0 ==> RowReadable(x, i - 1))
      ensures r.None? <==> !RowReadable(x, i)
      ensures r.Some? ==> r.value == RowOf(x, i)
    {
      var length := FloatOrZero(x.length[i]);
      if length.None? {
        return None;
      }
      var time := FloatOrZero(x.time[i]);
      if time.None? {
        return None;
      }
      var delta := 0.0;
      if i > 0 {
        var prev := FloatOrZero(x.time[i - 1]);
        delta := time.value - prev.value;
      }
      var info := if x.info.Some? then StrOf(x.info.value[i]) else "";
      r := Some(MinimalRow(length.value, time.value, ProtocolFeature(x.protocol[i]),
        LocalFlag(x.source[i]), LocalFlag(x.destination[i]), delta, Analyzer.InfoFeatures(info)));
    }

    /**
     * extract_features on the columns of a loaded table: one features dict per row, in row
     * order. float() raising on a present Length or Time that is not a number is the error case.
     */
    static method ExtractFeatures(x: Columns) returns (r: Result<seq<MinimalRow>, string>)
      requires ColumnsFit(x)
      ensures r.Err? <==> exists i :: 0 <= i < x.height && !RowReadable(x, i)
      ensures r.Ok? ==> |r.value| == x.height
      ensures r.Ok? ==> forall i :: 0 <= i < x.height ==> RowReadable(x, i) && r.value[i] == RowOf(x, i)
    {
      var rows: seq<MinimalRow> := [];
      var i := 0;
      while i < x.height
        invariant 0 <= i <= x.height
        invariant forall j :: 0 <= j < i ==> RowReadable(x, j)
        invariant rows == RowsOf(x, i)
      {
        var row := RowFeatures(x, i);
        if row.None? {
          assert !RowReadable(x, i);
          return Err("could not convert Length or Time to float");
        }
        forall j | 0 <= j <= i ensures RowReadable(x, j) {
          if j == i {
            assert row.Some?;
          }
        }
        rows := rows + [row.value];
        i := i + 1;
      }
      RowsOfAt(x, x.height);
      assert forall j :: 0 <= j < x.height ==> RowReadable(x, j) && rows[j] == RowOf(x, j);
      r := Ok(rows);
    }

    /**
     * perform_clustering, given the scaled feature rows and what KMeans and the silhouette
     * score produced for them. KMeans raises when there are fewer rows than k or k < 1, and
     * silhouette_score raises when every row has a label of its own; nothing is stored then.
     * Otherwise the scaled rows, labels and normalised nearest-centre
     * distances are stored; the silhouette is 0 when only one label occurs.
     */
    method PerformClustering(feats: seq<MinimalRow>, scaled: seq<seq<real>>, labs: seq<int>,
                             distances: seq<seq<real>>, silhouette: real)
      returns (r: Result<(seq<int>, seq<real>, real), string>)
      requires Valid() && |scaled| == |feats|
      requires |feats| >= numClusters >= 1 ==> KMeansOutput(labs, distances, |feats|, numClusters)
      modifies this
      ensures Valid()
      ensures r.Err? <==> |feats| < numClusters || numClusters < 1 || SilhouetteRaises(labs, |feats|)
      ensures r.Err? ==> unchanged(this)
      ensures r.Ok? ==>
        && features == Some(scaled) && labels == Some(labs)
        && anomalyScores == Some(NormalizeMinimal(RowMins(distances)))
        && r.value == (labs, NormalizeMinimal(RowMins(distances)),
                       if |Distinct(labs)| > 1 then silhouette else 0.0)
    {
      if |feats| < numClusters || numClusters < 1 {
        return Err("KMeans rejects this number of clusters");
      }
      if SilhouetteRaises(labs, |feats|) {
        return Err("silhouette_score needs fewer labels than samples");
      }
      var sil := if |Distinct(labs)| > 1 then silhouette else 0.0;
      var scores := RowMins(distances);
      if |scores| > 1 {
        var lo, hi := MinOf(scores), MaxOf(scores);
        if hi > lo {
          scores := Rescale(scores, lo, hi);
        } else {
          scores := seq(|scores|, _ => 0.0);
        }
      }
      features := Some(scaled);
      labels := Some(labs);
      anomalyScores := Some(scores);
      r := Ok((labs, scores, sil));
    }

    /**
     * analyze_clusters on a loaded table (its columns `x` and its No. column as integers)
     * after a clustering: one entry per cluster id below k that has packets, in ascending
     * order, and the table with the labels and scores attached.
     */
    method AnalyzeClusters(x: Columns, numbers: seq<int>) returns (analysis: ClusterAnalysis, d: Clustered)
      requires Valid() && labels.Some? && ColumnsFit(x) && |labels.value| == x.height && |numbers| == x.height
      ensures d == Clustered(x, numbers, labels.value, anomalyScores.value) && ClusteredFits(d)
      ensures forall j :: 0 <= j < |SizesBelow(d.labels, numClusters)| ==> SizesBelow(d.labels, numClusters)[j].0 in d.labels
      ensures analysis == ClusterAnalysis(numClusters, x.height, EntriesOf(d, SizesBelow(d.labels, numClusters)))
    {
      d := Clustered(x, numbers, labels.value, anomalyScores.value);
      var k := numClusters;
      var clusters: seq<ClusterEntry> := [];
      var c := 0;
      while c < k
        invariant 0 <= c <= k
        invariant clusters == EntriesOf(d, SizesBelow(d.labels, c))
      {
        clusters := AddClusterEntry(d, c, clusters);
        c := c + 1;
      }
      analysis := ClusterAnalysis(k, x.height, clusters);
    }

    /** One round of analyze_clusters' loop: cluster c gets its entry when it has packets. */
    static method AddClusterEntry(d: Clustered, c: nat, clusters: seq<ClusterEntry>) returns (next: seq<ClusterEntry>)
      requires ClusteredFits(d) && clusters == EntriesOf(d, SizesBelow(d.labels, c))
      ensures next == EntriesOf(d, SizesBelow(d.labels, c + 1))
    {
      next := clusters;
      var size := |Analyzer.InCluster(d.labels, d.labels, c)|;
      if size > 0 {
        EntriesOfSnoc(d, SizesBelow(d.labels, c), (c, size));
        next := clusters + [EntryOf(d, c)];
      }
      assert SizesBelow(d.labels, c + 1) == SizesBelow(d.labels, c) + (if size > 0 then [(c, size)] else []);
    }

    /** The any(a['packet_number'] == n for a in anomalies) test. */
    static method IsListed(a: seq<Anomaly>, n: int) returns (b: bool)
      ensures b <==> n in PacketNumbers(a)
    {
      var k := 0;
      while k < |a|
        invariant 0 <= k <= |a|
        invariant forall m :: 0 <= m < k ==> a[m].packetNumber != n
      {
        if a[k].packetNumber == n {
          assert PacketNumbers(a)[k] == n;
          return true;
        }
        k := k + 1;
      }
      return false;
    }

    /** The first loop of detect_anomalies: one high-score entry per row above the threshold, in row order. */
    static method HighScoreEntries(d: Clustered, threshold: real) returns (anomalies: seq<Anomaly>)
      requires ClusteredFits(d)
      ensures |anomalies| == |HighRows(d, threshold)| && HighFirst(d, threshold, anomalies)
    {
      var n := d.cols.height;
      var hot := HotMask(d, threshold);
      anomalies := [];
      var i := 0;
      while i < n
        invariant 0 <= i <= n
        invariant |anomalies| == |WhereList(hot[..i])|
        invariant forall k :: 0 <= k < |anomalies| ==>
          WhereList(hot[..i])[k] < n && anomalies[k] == AnomalyAt(d, WhereList(hot[..i])[k], HighScore)
      {
        assert hot[..i + 1][..i] == hot[..i];
        if d.scores[i] > threshold {
          anomalies := anomalies + [AnomalyAt(d, i, HighScore)];
        }
        i := i + 1;
      }
      assert hot[..n] == hot;
    }

    /**
     * The inner loop of detect_anomalies for a small cluster `c` of `size` packets: every
     * packet of the cluster whose number is not yet listed is appended, so afterwards all of
     * them are listed, and the entries already there stay as they were.
     */
    static method AddClusterPackets(d: Clustered, c: int, size: nat, start: nat, a0: seq<Anomaly>)
      returns (anomalies: seq<Anomaly>)
      requires ClusteredFits(d) && size == Count(d.labels, c) && IsSmall(size, d.cols.height)
      requires start <= |a0| && SmallAfter(d, start, a0)
      ensures |a0| <= |anomalies| && anomalies[..|a0|] == a0
      ensures SmallAfter(d, start, anomalies)
      ensures forall v :: v in PacketNumbers(a0) ==> v in PacketNumbers(anomalies)
      ensures forall i :: 0 <= i < d.cols.height && d.labels[i] == c ==> d.numbers[i] in PacketNumbers(anomalies)
    {
      anomalies := a0;
      var r := 0;
      while r < d.cols.height
        invariant 0 <= r <= d.cols.height
        invariant |a0| <= |anomalies| && anomalies[..|a0|] == a0
        invariant SmallAfter(d, start, anomalies)
        invariant forall i :: 0 <= i < r && d.labels[i] == c ==> d.numbers[i] in PacketNumbers(anomalies)
      {
        anomalies := AddPacket(d, c, r, start, a0, anomalies);
        r := r + 1;
      }
      PrefixListed(a0, anomalies);
    }

    /**
     * One round of that inner loop: row r, when it belongs to cluster c, is appended unless
     * its number is listed already.
     */
    static method AddPacket(d: Clustered, c: int, r: nat, start: nat, a0: seq<Anomaly>, a: seq<Anomaly>)
      returns (next: seq<Anomaly>)
      requires ClusteredFits(d) && r < d.cols.height && IsSmall(Count(d.labels, c), d.cols.height)
      requires start <= |a0| <= |a| && a[..|a0|] == a0 && SmallAfter(d, start, a)
      requires forall i :: 0 <= i < r && d.labels[i] == c ==> d.numbers[i] in PacketNumbers(a)
      ensures |a0| <= |next| && next[..|a0|] == a0
      ensures SmallAfter(d, start, next)
      ensures forall i :: 0 <= i < r + 1 && d.labels[i] == c ==> d.numbers[i] in PacketNumbers(next)
    {
      next := a;
      if d.labels[r] == c {
        var seen := IsListed(a, d.numbers[r]);
        if !seen {
          var e := AnomalyAt(d, r, SmallCluster(Count(d.labels, c)));
          assert FromSmallCluster(d, e);
          SmallAfterSnoc(d, start, a, e);
          assert (a + [e])[..|a0|] == a[..|a0|] && (a + [e])[..|a|] == a;
          next := a + [e];
          PrefixListed(a, next);
          assert PacketNumbers(next)[|a|] == d.numbers[r];
        }
      }
    }

    /**
     * detect_anomalies on the clustered table, with the percentile as `threshold` and the
     * index of value_counts() of the labels as `order`. The list starts with the rows whose
     * score is strictly above the threshold, in row order; after them come rows of small
     * clusters whose number is not yet listed; every packet of a small cluster ends up listed.
     */
    static method DetectAnomalies(d: Clustered, order: seq<int>, threshold: real) returns (anomalies: seq<Anomaly>)
      requires ClusteredFits(d) && forall i :: 0 <= i < |d.labels| ==> d.labels[i] in order
      ensures HighFirst(d, threshold, anomalies)
      ensures SmallAfter(d, |HighRows(d, threshold)|, anomalies)
      ensures forall i :: 0 <= i < d.cols.height && IsSmall(Count(d.labels, d.labels[i]), d.cols.height) ==>
        d.numbers[i] in PacketNumbers(anomalies)
    {
      var n := d.cols.height;
      var high := HighScoreEntries(d, threshold);
      anomalies := high;
      var start := |high|;
      var j := 0;
      while j < |order|
        invariant 0 <= j <= |order|
        invariant start <= |anomalies| && anomalies[..start] == high
        invariant SmallAfter(d, start, anomalies)
        invariant forall i :: 0 <= i < n && d.labels[i] in order[..j] && IsSmall(Count(d.labels, d.labels[i]), n) ==>
          d.numbers[i] in PacketNumbers(anomalies)
      {
        var c := order[j];
        var size := Count(d.labels, c);
        if 20 * size < n {
          ghost var before := anomalies;
          anomalies := AddClusterPackets(d, c, size, start, anomalies);
          assert anomalies[..start] == anomalies[..|before|][..start];
        }
        assert order[..j + 1] == order[..j] + [c];
        j := j + 1;
      }
      assert order[..|order|] == order;
      assert high == anomalies[..start];
      HighFirstExtends(d, threshold, high, anomalies);
    }

    /** The per-packet rows: each packet with its label, score and whether its number is listed. */
    static method PacketResults(d: Clustered, anomalies: seq<Anomaly>) returns (rows: seq<PacketResult>)
      requires ClusteredFits(d)
      ensures |rows| == d.cols.height
      ensures forall i :: 0 <= i < |rows| ==>
        rows[i] == PacketResult(d.numbers[i], d.labels[i], d.scores[i], d.numbers[i] in PacketNumbers(anomalies))
    {
      rows := [];
      var i := 0;
      while i < d.cols.height
        invariant 0 <= i <= d.cols.height && |rows| == i
        invariant forall m :: 0 <= m < i ==>
          rows[m] == PacketResult(d.numbers[m], d.labels[m], d.scores[m], d.numbers[m] in PacketNumbers(anomalies))
      {
        var listed := IsListed(anomalies, d.numbers[i]);
        rows := rows + [PacketResult(d.numbers[i], d.labels[i], d.scores[i], listed)];
        i := i + 1;
      }
    }

    /**
     * The anomaly list and the per-packet rows built from it: a packet is flagged exactly
     * when its number is listed, and every high-scoring packet and every packet of a small
     * cluster is flagged.
     */
    static method FlagPackets(d: Clustered, order: seq<int>, threshold: real)
      returns (anomalies: seq<Anomaly>, packets: seq<PacketResult>)
      requires ClusteredFits(d) && forall i :: 0 <= i < |d.labels| ==> d.labels[i] in order
      ensures HighFirst(d, threshold, anomalies) && SmallAfter(d, |HighRows(d, threshold)|, anomalies)
      ensures |packets| == d.cols.height
      ensures forall i :: 0 <= i < d.cols.height ==>
        && packets[i] == PacketResult(d.numbers[i], d.labels[i], d.scores[i], packets[i].isAnomaly)
        && (packets[i].isAnomaly <==> d.numbers[i] in PacketNumbers(anomalies))
        && (d.scores[i] > threshold ==> packets[i].isAnomaly)
        && (IsSmall(Count(d.labels, d.labels[i]), d.cols.height) ==> packets[i].isAnomaly)
    {
      anomalies := DetectAnomalies(d, order, threshold);
      packets := PacketResults(d, anomalies);
      HighListed(d, threshold, anomalies);
    }

    /**
     * generate_results: clustering, cluster analysis, anomaly list and per-packet rows. The
     * clustering's error propagates and nothing is stored. Otherwise the clustering's state is
     * stored, the cluster analysis is analyze_clusters' on the clustered table, the anomaly list
     * is built as detect_anomalies builds it, num_anomalies is its length, a packet is flagged
     * exactly when its number is listed, and every high-scoring packet and every packet of a
     * small cluster is flagged.
     */
    method GenerateResults(x: Columns, numbers: seq<int>, feats: seq<MinimalRow>, scaled: seq<seq<real>>,
                           labs: seq<int>, distances: seq<seq<real>>, silhouette: real,
                           order: seq<int>, threshold: real)
      returns (r: Result<Results, string>)
      requires Valid() && ColumnsFit(x) && |numbers| == x.height && |feats| == x.height && |scaled| == x.height
      requires x.height >= numClusters >= 1 ==> KMeansOutput(labs, distances, x.height, numClusters)
      requires IsCountOrder(labs, order)
      modifies this
      ensures Valid()
      ensures r.Err? <==> x.height < numClusters || numClusters < 1 || SilhouetteRaises(labs, x.height)
      ensures r.Err? ==> unchanged(this)
      ensures r.Ok? ==>
        && features == Some(scaled) && labels == Some(labs)
        && anomalyScores == Some(NormalizeMinimal(RowMins(distances)))
      ensures r.Ok? ==>
        var res := r.value;
        var scores := NormalizeMinimal(RowMins(distances));
        var d := Clustered(x, numbers, labs, scores);
        && res.numClusters == numClusters && res.totalPackets == x.height
        && res.silhouetteScore == (if |Distinct(labs)| > 1 then silhouette else 0.0)
        && res.analysis == ClusterAnalysis(numClusters, x.height, EntriesOf(d, SizesBelow(labs, numClusters)))
        && HighFirst(d, threshold, res.anomalies) && SmallAfter(d, |HighRows(d, threshold)|, res.anomalies)
        && res.numAnomalies == |res.anomalies| && |res.packets| == x.height
        && SumCounts(SizesBelow(labs, numClusters)) == x.height
        && (forall i :: 0 <= i < x.height ==>
              && res.packets[i] == PacketResult(numbers[i], labs[i], scores[i], res.packets[i].isAnomaly)
              && (res.packets[i].isAnomaly <==> numbers[i] in PacketNumbers(res.anomalies))
              && (scores[i] > threshold ==> res.packets[i].isAnomaly)
              && (IsSmall(Count(labs, labs[i]), x.height) ==> res.packets[i].isAnomaly))
    {
      var clustering := PerformClustering(feats, scaled, labs, distances, silhouette);
      if clustering.Err? {
        return Err(clustering.error);
      }
      var analysis, d := AnalyzeClusters(x, numbers);
      var anomalies, packets := FlagPackets(d, order, threshold);
      ClusterSizesSum(labs, numClusters);
      r := Ok(Results(numClusters, x.height, clustering.value.2, |anomalies|, analysis, anomalies, packets));
    }
  }

  /** Appending to a list keeps its high-score prefix. */
  lemma HighFirstExtends(d: Clustered, threshold: real, a: seq<Anomaly>, b: seq<Anomaly>)
    requires ClusteredFits(d) && HighFirst(d, threshold, a)
    requires |a| <= |b| && b[..|a|] == a
    ensures HighFirst(d, threshold, b)
  {
    var high := HighRows(d, threshold);
    forall k | 0 <= k < |high| ensures b[k] == AnomalyAt(d, high[k], HighScore) {
      assert b[k] == b[..|a|][k];
    }
  }

  /** Every row whose score is above the threshold has its number in a list that starts with the high entries. */
  lemma HighListed(d: Clustered, threshold: real, a: seq<Anomaly>)
    requires ClusteredFits(d) && HighFirst(d, threshold, a)
    ensures forall i :: 0 <= i < d.cols.height && d.scores[i] > threshold ==> d.numbers[i] in PacketNumbers(a)
  {
    var high := HighRows(d, threshold);
    forall i | 0 <= i < d.cols.height && d.scores[i] > threshold ensures d.numbers[i] in PacketNumbers(a) {
      assert i in high;
      var k :| 0 <= k < |high| && high[k] == i;
      assert a[k].packetNumber == d.numbers[i];
      assert PacketNumbers(a)[k] == d.numbers[i];
    }
  }

  /** With unique packet numbers, no number appears twice in a list built as detect_anomalies builds it. */
  lemma AnomaliesUnique(d: Clustered, threshold: real, a: seq<Anomaly>)
    requires ClusteredFits(d) && NoDuplicates(d.numbers)
    requires HighFirst(d, threshold, a) && SmallAfter(d, |HighRows(d, threshold)|, a)
    ensures NoDuplicates(PacketNumbers(a))
  {
    var high := HighRows(d, threshold);
    forall m, k | 0 <= m < k < |a| ensures a[m].packetNumber != a[k].packetNumber {
      if k < |high| {
        assert high[m] < high[k];
        assert a[m].packetNumber == d.numbers[high[m]] && a[k].packetNumber == d.numbers[high[k]];
      }
    }
  }
}
