/**
 * The command-line analyzer: choosing the input path, the load-time check that the file
 * looks like a Wireshark export, the column-wise features computed on the display-named
 * frame, and the cluster sizes, small clusters and flagged packets of its reports. The
 * clustering is foreign: the labels are an input.
 */
module Analyzer {
  import opened Wrappers
  import opened Text
  import opened Counting
  import opened Table
  import opened Clusters

  // ----- parse_arguments ------------------------------------------------------------

  /** The positional path when one is given, else --file; an argparse error when neither is. */
  function InputPath(positional: Option<string>, file: Option<string>): (r: Result<string, string>)
    ensures r.Err? <==> positional.None? && file.None?
    ensures r.Ok? ==> Some(r.value) == positional || (positional.None? && Some(r.value) == file)
  {
    if positional.None? && file.None? then Err("You must provide a file path either as a positional argument or with --file/-f")
    else if positional.None? then Ok(file.value)
    else Ok(positional.value)
  }

  /** A positional path is used whatever --file says. */
  lemma PositionalWins(p: string, file: Option<string>)
    ensures InputPath(Some(p), file) == Ok(p)
  {
  }

  // ----- load_wireshark_csv --------------------------------------------------------

  /** The columns whose absence makes the loader doubt the file is a Wireshark export. */
  const WiresharkColumns: seq<string> := ["No.", "Time", "Source", "Destination", "Protocol"]

  datatype LoadError = FileNotFound | EmptyFile | Unreadable | NotWiresharkExport(missing: seq<string>) | SampleFailed

  /**
   * A loaded capture: the frame read, the required columns it lacks (only warned about),
   * and the sample size when df.sample took a random subset of that many rows.
   */
  datatype Capture = Capture(frame: Frame, missing: seq<string>, sampledTo: Option<nat>)

  /** `sample_size and len(df) > sample_size`. */
  predicate SampleRequested(sampleSize: Option<int>, rows: nat) {
    sampleSize.Some? && sampleSize.value != 0 && rows > sampleSize.value
  }

  /**
   * load_wireshark_csv. `found` and `size` are what the file system reports, `read` is the
   * frame read_csv produced with one of the encodings (None when every attempt failed), and
   * `sampleSize` is --sample. df.sample raises for a negative size, which the handler
   * turns into None like every other failure.
   */
  function LoadWiresharkCsv(found: bool, size: nat, read: Option<Frame>, sampleSize: Option<int>): (r: Result<Capture, LoadError>)
    ensures !found ==> r == Err(FileNotFound)
    ensures found && size == 0 ==> r == Err(EmptyFile)
    ensures found && size > 0 && read.None? ==> r == Err(Unreadable)
    ensures r.Ok? <==>
      && found && size > 0 && read.Some?
      && |MissingColumns(read.value.names, WiresharkColumns)| < 3
      && !(SampleRequested(sampleSize, read.value.height) && sampleSize.value < 0)
    ensures r.Ok? ==> r.value.frame == read.value && r.value.missing == MissingColumns(read.value.names, WiresharkColumns)
    ensures r.Ok? ==> (r.value.sampledTo.Some? <==> SampleRequested(sampleSize, read.value.height))
    ensures r.Ok? && r.value.sampledTo.Some? ==>
      sampleSize == Some(r.value.sampledTo.value as int) && 0 < r.value.sampledTo.value < read.value.height
  {
    if !found then Err(FileNotFound)
    else if size == 0 then Err(EmptyFile)
    else if read.None? then Err(Unreadable)
    else
      var df := read.value;
      var missing := MissingColumns(df.names, WiresharkColumns);
      if |missing| >= 3 then Err(NotWiresharkExport(missing))
      else if SampleRequested(sampleSize, df.height) then
        if sampleSize.value < 0 then Err(SampleFailed)
        else Ok(Capture(df, missing, Some(sampleSize.value)))
      else Ok(Capture(df, missing, None))
  }

  /**
   * A readable export, not sampled, is refused exactly when three or more of the five
   * columns are missing; with one or two missing it loads, with a warning.
   */
  lemma LoadAbortsOnThreeMissing(df: Frame)
    ensures LoadWiresharkCsv(true, 1, Some(df), None).Err? <==> |MissingColumns(df.names, WiresharkColumns)| >= 3
  {
  }

  /** A file lacking only Destination and Protocol is loaded, and one lacking Source too is refused. */
  lemma LoadExamples(df: Frame)
    ensures df.names == ["No.", "Time", "Source", "Info"] ==>
      LoadWiresharkCsv(true, 1, Some(df), None) == Ok(Capture(df, ["Destination", "Protocol"], None))
    ensures df.names == ["No.", "Time", "Info"] ==>
      LoadWiresharkCsv(true, 1, Some(df), None) == Err(NotWiresharkExport(["Source", "Destination", "Protocol"]))
  {
    if df.names == ["No.", "Time", "Source", "Info"] {
      MissingTwo();
    }
    if df.names == ["No.", "Time", "Info"] {
      MissingThree();
    }
  }

  lemma MissingTwo()
    ensures MissingColumns(["No.", "Time", "Source", "Info"], WiresharkColumns) == ["Destination", "Protocol"]
  {
    var names := ["No.", "Time", "Source", "Info"];
    var w: seq<string> := ["No.", "Time", "Source", "Destination", "Protocol"];
    assert WiresharkColumns == w;
    assert w[1..][1..][1..][1..][1..] == [];
    assert MissingList(names, w[1..][1..][1..][1..]) == ["Protocol"];
    assert MissingList(names, w[1..][1..][1..]) == ["Destination", "Protocol"];
    assert MissingList(names, w) == ["Destination", "Protocol"];
  }

  lemma MissingThree()
    ensures MissingColumns(["No.", "Time", "Info"], WiresharkColumns) == ["Source", "Destination", "Protocol"]
  {
    var names := ["No.", "Time", "Info"];
    var w: seq<string> := ["No.", "Time", "Source", "Destination", "Protocol"];
    assert WiresharkColumns == w;
    assert w[1..][1..][1..][1..][1..] == [];
    assert MissingList(names, w[1..][1..][1..][1..]) == ["Protocol"];
    assert MissingList(names, w[1..][1..][1..]) == ["Destination", "Protocol"];
    assert MissingList(names, w[1..][1..]) == ["Source", "Destination", "Protocol"];
    assert MissingList(names, w) == ["Source", "Destination", "Protocol"];
  }

  // ----- extract_ip_features ----------------------------------------------------------

  /** re.match(r'^(10\.|172\.16\.|192\.168\.)', s). */
  predicate AnalyzerLocal(s: string) {
    IsPrefix("10.", s) || IsPrefix("172.16.", s) || IsPrefix("192.168.", s)
  }

  /** src_local or dst_local of one cell, tested on str(x): a missing address is "nan". */
  function LocalFeature(c: Cell): (r: int)
    ensures r == 0 || r == 1
    ensures r == 1 <==> c.Val? && AnalyzerLocal(c.text)
  {
    assert !AnalyzerLocal("nan") by {
      assert "nan"[..3][0] != "10."[0];
    }
    Flag(AnalyzerLocal(StrOf(c)))
  }

  /** Only 172.16.x.x counts among the 172 addresses: 172.20.0.1 is not local. */
  lemma AnalyzerLocalExamples()
    ensures LocalFeature(Val("172.20.0.1")) == 0 && LocalFeature(Val("172.16.4.2")) == 1
    ensures LocalFeature(Val("10.0.0.1")) == 1 && LocalFeature(Val("192.168.1.7")) == 1
    ensures LocalFeature(Val("100.0.0.1")) == 0 && LocalFeature(NA) == 0
  {
    assert "172.20.0.1"[..7][5] != "172.16."[5];
    assert "172.20.0.1"[..3][1] != "10."[1];
    assert "172.20.0.1"[..8][1] != "192.168."[1];
    assert "172.16.4.2"[..7] == "172.16.";
    assert "10.0.0.1"[..3] == "10.";
    assert "192.168.1.7"[..8] == "192.168.";
    assert "100.0.0.1"[..3][2] != "10."[2];
    assert "100.0.0.1"[..7][1] != "172.16."[1];
    assert "100.0.0.1"[..8][1] != "192.168."[1];
  }

  // ----- extract_protocol_features -------------------------------------------------

  /** The protocol map's lookup: exact names, the three TLS spellings sharing code 7. */
  function ProtocolCode(s: string): (code: int)
    ensures 0 <= code <= 7
  {
    if s == "TCP" then 1 else if s == "UDP" then 2 else if s == "ICMP" then 3
    else if s == "HTTP" then 4 else if s == "HTTPS" then 5 else if s == "DNS" then 6
    else if s == "TLS" || s == "TLSv1.2" || s == "TLSv1.3" then 7
    else 0
  }

  /** The names the protocol map knows. */
  const KnownProtocols: seq<string> := ["TCP", "UDP", "ICMP", "HTTP", "HTTPS", "DNS", "TLS", "TLSv1.2", "TLSv1.3"]

  /** protocol_map.get(x, 0): a missing protocol (NaN) is not a key either. */
  function ProtocolFeature(c: Cell): (code: int)
    ensures 0 <= code <= 7
  {
    if c.Val? then ProtocolCode(c.text) else 0
  }

  /** Exactly the nine known names get a code other than 0, and only the TLS spellings get 7. */
  lemma ProtocolTable(c: Cell)
    ensures ProtocolFeature(c) != 0 <==> c.Val? && c.text in KnownProtocols
    ensures ProtocolFeature(c) == 7 <==> c == Val("TLS") || c == Val("TLSv1.2") || c == Val("TLSv1.3")
  {
  }

  /** The lookup is exact and case-sensitive, and ARP has no code of its own here. */
  lemma ProtocolLookupExact()
    ensures ProtocolFeature(Val("TCP")) == 1 && ProtocolFeature(Val("tcp")) == 0
    ensures ProtocolFeature(Val("UDP")) == 2 && ProtocolFeature(Val("ICMP")) == 3
    ensures ProtocolFeature(Val("HTTP")) == 4 && ProtocolFeature(Val("HTTPS")) == 5
    ensures ProtocolFeature(Val("DNS")) == 6 && ProtocolFeature(Val("TLSv1.2")) == 7
    ensures ProtocolFeature(Val("ARP")) == 0 && ProtocolFeature(NA) == 0
  {
  }

  // ----- extract_length_time_features ----------------------------------------------

  /** pd.to_numeric(column, errors='coerce'): None stands for NaN. */
  function Numeric(col: seq<Cell>): (r: seq<Option<real>>)
    ensures |r| == |col|
    ensures forall i :: 0 <= i < |col| ==> r[i] == ToNumeric(col[i])
  {
    seq(|col|, i requires 0 <= i < |col| => ToNumeric(col[i]))
  }

  /** Time.diff().fillna(0): NaN, and so 0, for the first row and next to a missing time. */
  function TimeDiff(t: seq<Option<real>>): (d: seq<real>)
    ensures |d| == |t|
    ensures |t| > 0 ==> d[0] == 0.0
    ensures forall i :: 0 < i < |t| && (t[i].None? || t[i - 1].None?) ==> d[i] == 0.0
  {
    seq(|t|, i requires 0 <= i < |t| =>
      if i > 0 && t[i].Some? && t[i - 1].Some? then t[i].value - t[i - 1].value else 0.0)
  }

  // ----- extract_info_features ----------------------------------------------------

  /** has_error, is_syn, is_fin and is_dns of one Info text. */
  datatype InfoFlags = InfoFlags(hasError: int, isSyn: int, isFin: int, isDns: int)

  /** re.search(r'error|reset|refused|failed|timeout', s). */
  predicate ErrorWord(s: string) {
    Contains(s, "error") || Contains(s, "reset") || Contains(s, "refused") ||
    Contains(s, "failed") || Contains(s, "timeout")
  }

  predicate Binary(f: InfoFlags) {
    (f.hasError == 0 || f.hasError == 1) && (f.isSyn == 0 || f.isSyn == 1) &&
    (f.isFin == 0 || f.isFin == 1) && (f.isDns == 0 || f.isDns == 1)
  }

  /** The four flags of an Info text; only the error search is on the lower-cased text. */
  function InfoFeatures(s: string): (r: InfoFlags)
    ensures r.hasError == 1 <==> ErrorWord(Lower(s))
    ensures r.isSyn == 1 <==> Contains(s, "[SYN]")
    ensures r.isFin == 1 <==> Contains(s, "[FIN")
    ensures r.isDns == 1 <==> Contains(s, "Standard query") || Contains(s, "response")
    ensures Binary(r)
  {
    InfoFlags(Flag(ErrorWord(Lower(s))), Flag(Contains(s, "[SYN]")), Flag(Contains(s, "[FIN")),
      Flag(Contains(s, "Standard query") || Contains(s, "response")))
  }

  /** The error flag does not depend on letter case. */
  lemma ErrorFlagIgnoresCase(s: string)
    ensures InfoFeatures(Upper(s)).hasError == InfoFeatures(s).hasError
  {
    LowerOfUpper(s);
  }

  /** "[FIN, ACK]" is a FIN packet, and not a SYN one: it holds no 'S'. */
  lemma FinAckIsFin()
    ensures InfoFeatures("[FIN, ACK]").isFin == 1 && InfoFeatures("[FIN, ACK]").isSyn == 0
  {
    var s := "[FIN, ACK]";
    assert s[..4] == "[FIN";
    ContainsAt(s, "[FIN", 0);
    assert "[SYN]"[1] == 'S';
    ContainsHasChar(s, "[SYN]", 'S');
    assert 'S' !in s;
  }

  /** A DNS query text sets the DNS flag. */
  lemma QueryIsDns()
    ensures InfoFeatures("Standard query 0x1a2b A example.com").isDns == 1
  {
    ContainsAt("Standard query 0x1a2b A example.com", "Standard query", 0);
  }

  // ----- prepare_features ---------------------------------------------------------

  /** The columns prepare_features reads, in the order its steps look them up. */
  const FeatureInputs: seq<string> := ["Source", "Destination", "Protocol", "Length", "Time", "Info"]

  /** The names of the nine feature columns, in order. */
  const FeatureNames: seq<string> := [
    "Length", "time_delta", "src_local", "dst_local", "protocol_num", "has_error", "is_syn", "is_fin", "is_dns"]

  predicate HasFeatureInputs(f: Frame) {
    WellFormed(f) && "Source" in f.names && "Destination" in f.names && "Protocol" in f.names &&
    "Length" in f.names && "Time" in f.names && "Info" in f.names
  }

  /** The six input columns, as prepare_features' steps look them up. */
  datatype Inputs = Inputs(
    source: seq<Cell>, destination: seq<Cell>, protocol: seq<Cell>,
    length: seq<Cell>, time: seq<Cell>, info: seq<Cell>)

  predicate InputsFit(x: Inputs, n: nat) {
    |x.source| == n && |x.destination| == n && |x.protocol| == n &&
    |x.length| == n && |x.time| == n && |x.info| == n
  }

  function InputsOf(f: Frame): (x: Inputs)
    requires HasFeatureInputs(f)
    ensures InputsFit(x, f.height)
  {
    Inputs(Column(f, "Source"), Column(f, "Destination"), Column(f, "Protocol"),
      Column(f, "Length"), Column(f, "Time"), Column(f, "Info"))
  }

  /** The columns of the enriched frame that the cluster reports go on to read. */
  datatype Enriched = Enriched(
    protocol: seq<Cell>, source: seq<Cell>, destination: seq<Cell>,
    length: seq<Option<real>>, hasError: seq<int>)

  predicate Fits(e: Enriched, n: nat) {
    |e.protocol| == n && |e.source| == n && |e.destination| == n && |e.length| == n && |e.hasError| == n
  }

  /** One row of the feature frame, with NaN (a length that does not parse) read as 0. */
  function FeatureVector(length: Cell, delta: real, src: Cell, dst: Cell, protocol: Cell, info: Cell): (v: seq<real>)
    ensures |v| == 9
  {
    VectorOf(NumericOrZero(length), delta, LocalFeature(src), LocalFeature(dst), ProtocolFeature(protocol),
      InfoFeatures(StrOf(info)))
  }

  /** The nine numbers of a feature row, in column order. */
  function VectorOf(length: real, delta: real, src: int, dst: int, protocol: int, flags: InfoFlags): (v: seq<real>)
    ensures |v| == 9
  {
    [length, delta, src as real, dst as real, protocol as real,
     flags.hasError as real, flags.isSyn as real, flags.isFin as real, flags.isDns as real]
  }

  /** df4[numerical_features].fillna(0). */
  function FeatureMatrix(x: Inputs, n: nat): (m: seq<seq<real>>)
    requires InputsFit(x, n)
    ensures |m| == n
  {
    var d := TimeDiff(Numeric(x.time));
    seq(n, i requires 0 <= i < n =>
      FeatureVector(x.length[i], d[i], x.source[i], x.destination[i], x.protocol[i], x.info[i]))
  }

  function EnrichedOf(x: Inputs, n: nat): (e: Enriched)
    requires InputsFit(x, n)
    ensures Fits(e, n)
  {
    Enriched(x.protocol, x.source, x.destination, Numeric(x.length),
      seq(n, i requires 0 <= i < n => InfoFeatures(StrOf(x.info[i])).hasError))
  }

  /**
   * prepare_features: a KeyError naming the first of the six input columns the frame lacks,
   * otherwise one nine-number row per packet and the enriched columns.
   */
  function PrepareFeatures(f: Frame): (r: Result<(seq<seq<real>>, Enriched), string>)
    requires WellFormed(f)
    ensures r.Err? <==> !HasFeatureInputs(f)
    ensures r.Err? ==> FirstMissing(f.names, FeatureInputs) == Some(r.error)
    ensures r.Ok? ==> |r.value.0| == f.height && Fits(r.value.1, f.height)
    ensures r.Ok? ==> forall i :: 0 <= i < f.height ==> |r.value.0[i]| == 9
    ensures r.Ok? ==> r.value == (FeatureMatrix(InputsOf(f), f.height), EnrichedOf(InputsOf(f), f.height))
  {
    var m := FirstMissing(f.names, FeatureInputs);
    if m.Some? then
      assert !HasFeatureInputs(f);
      Err(m.value)
    else
      assert FeatureInputs[0] in f.names && FeatureInputs[1] in f.names && FeatureInputs[2] in f.names;
      assert FeatureInputs[3] in f.names && FeatureInputs[4] in f.names && FeatureInputs[5] in f.names;
      var x := InputsOf(f);
      Ok((FeatureMatrix(x, f.height), EnrichedOf(x, f.height)))
  }

  /**
   * The numbers of one feature row: the length as parsed or 0, the gap to the previous
   * packet's time (0 for the first packet and next to a missing time), and the exact
   * protocol code.
   */
  lemma FeatureRowNumbers(x: Inputs, n: nat, i: nat)
    requires InputsFit(x, n) && i < n
    ensures var v := FeatureMatrix(x, n)[i];
      var t := Numeric(x.time);
      && v[0] == (if ToNumeric(x.length[i]).Some? then ToNumeric(x.length[i]).value else 0.0)
      && (i == 0 || t[i].None? || t[i - 1].None? ==> v[1] == 0.0)
      && (i > 0 && t[i].Some? && t[i - 1].Some? ==> v[1] == t[i].value - t[i - 1].value)
      && v[4] == ProtocolFeature(x.protocol[i]) as real
  {
    var d := TimeDiff(Numeric(x.time));
    assert FeatureMatrix(x, n)[i] == FeatureVector(x.length[i], d[i], x.source[i], x.destination[i], x.protocol[i], x.info[i]);
    VectorNumbers(x.length[i], d[i], x.source[i], x.destination[i], x.protocol[i], x.info[i]);
  }

  lemma VectorNumbers(length: Cell, delta: real, src: Cell, dst: Cell, protocol: Cell, info: Cell)
    ensures var v := FeatureVector(length, delta, src, dst, protocol, info);
      v[0] == NumericOrZero(length) && v[1] == delta && v[4] == ProtocolFeature(protocol) as real
  {
  }

  /** The flags of one feature row: 1.0 exactly when its test holds, 0.0 otherwise. */
  lemma FeatureRowFlags(x: Inputs, n: nat, i: nat)
    requires InputsFit(x, n) && i < n
    ensures var v := FeatureMatrix(x, n)[i];
      var info := StrOf(x.info[i]);
      && (forall k :: 2 <= k < 9 && k != 4 ==> v[k] == 0.0 || v[k] == 1.0)
      && (v[2] == 1.0 <==> x.source[i].Val? && AnalyzerLocal(x.source[i].text))
      && (v[3] == 1.0 <==> x.destination[i].Val? && AnalyzerLocal(x.destination[i].text))
      && (v[5] == 1.0 <==> ErrorWord(Lower(info)))
      && (v[6] == 1.0 <==> Contains(info, "[SYN]"))
      && (v[7] == 1.0 <==> Contains(info, "[FIN"))
      && (v[8] == 1.0 <==> Contains(info, "Standard query") || Contains(info, "response"))
  {
    var d := TimeDiff(Numeric(x.time));
    assert FeatureMatrix(x, n)[i] == FeatureVector(x.length[i], d[i], x.source[i], x.destination[i], x.protocol[i], x.info[i]);
    VectorFlags(x.length[i], d[i], x.source[i], x.destination[i], x.protocol[i], x.info[i]);
    VectorLocal(x.length[i], d[i], x.source[i], x.destination[i], x.protocol[i], x.info[i]);
    VectorInfo(x.length[i], d[i], x.source[i], x.destination[i], x.protocol[i], x.info[i]);
  }

  lemma VectorFlags(length: Cell, delta: real, src: Cell, dst: Cell, protocol: Cell, info: Cell)
    ensures var v := FeatureVector(length, delta, src, dst, protocol, info);
      forall k :: 2 <= k < 9 && k != 4 ==> v[k] == 0.0 || v[k] == 1.0
  {
    VectorOfBinary(NumericOrZero(length), delta, LocalFeature(src), LocalFeature(dst), ProtocolFeature(protocol),
      InfoFeatures(StrOf(info)));
  }

  lemma VectorOfBinary(length: real, delta: real, src: int, dst: int, protocol: int, flags: InfoFlags)
    requires (src == 0 || src == 1) && (dst == 0 || dst == 1) && Binary(flags)
    ensures forall k :: 2 <= k < 9 && k != 4 ==>
      VectorOf(length, delta, src, dst, protocol, flags)[k] == 0.0 || VectorOf(length, delta, src, dst, protocol, flags)[k] == 1.0
  {
    var v := VectorOf(length, delta, src, dst, protocol, flags);
    forall k | 2 <= k < 9 && k != 4 ensures v[k] == 0.0 || v[k] == 1.0 {
      if k == 2 {
      } else if k == 3 {
      } else if k == 5 {
      } else if k == 6 {
      } else if k == 7 {
      } else {
        assert k == 8;
      }
    }
  }

  lemma VectorLocal(length: Cell, delta: real, src: Cell, dst: Cell, protocol: Cell, info: Cell)
    ensures var v := FeatureVector(length, delta, src, dst, protocol, info);
      && (v[2] == 1.0 <==> src.Val? && AnalyzerLocal(src.text))
      && (v[3] == 1.0 <==> dst.Val? && AnalyzerLocal(dst.text))
  {
  }

  lemma VectorInfo(length: Cell, delta: real, src: Cell, dst: Cell, protocol: Cell, info: Cell)
    ensures var v := FeatureVector(length, delta, src, dst, protocol, info);
      var s := StrOf(info);
      && (v[5] == 1.0 <==> ErrorWord(Lower(s)))
      && (v[6] == 1.0 <==> Contains(s, "[SYN]"))
      && (v[7] == 1.0 <==> Contains(s, "[FIN"))
      && (v[8] == 1.0 <==> Contains(s, "Standard query") || Contains(s, "response"))
  {
  }

  // ----- analyze_clusters ---------------------------------------------------------

  /** The entries of `col` on the rows labelled `c`: df[df['cluster'] == c][col]. */
  function InCluster<T>(col: seq<T>, labels: seq<int>, c: int): (r: seq<T>)
    requires |col| == |labels|
    ensures |r| == Count(labels, c)
  {
    if col == [] then [] else (if labels[0] == c then [col[0]] else []) + InCluster(col[1..], labels[1..], c)
  }

  /** What analyze_clusters prints about one cluster. */
  datatype ClusterReport = ClusterReport(
    id: int, size: nat, percentage: real, topProtocols: seq<(Cell, nat)>,
    avgLength: Option<real>, topSources: seq<(Cell, nat)>, topDestinations: seq<(Cell, nat)>)

  /** value_counts().head(3) of the non-missing cells of one cluster's column. */
  function Top3(col: seq<Cell>, labels: seq<int>, c: int): seq<(Cell, nat)>
    requires |col| == |labels|
  {
    var s := Present(InCluster(col, labels, c));
    TopCounts(s, ValueCounts(s), 3)
  }

  function ReportOf(e: Enriched, labels: seq<int>, c: int): (r: ClusterReport)
    requires Fits(e, |labels|) && |labels| > 0
    ensures r.id == c && r.size == Count(labels, c)
  {
    var size := Count(labels, c);
    ClusterReport(c, size, (size as real) / (|labels| as real) * 100.0,
      Top3(e.protocol, labels, c), MeanOf(InCluster(e.length, labels, c)),
      Top3(e.source, labels, c), Top3(e.destination, labels, c))
  }

  /**
   * min(3, number of distinct protocols) protocols are reported for a cluster, each with its
   * exact count among the cluster's packets, most frequent first; no unreported protocol is
   * more frequent than a reported one.
   */
  lemma ReportTopProtocols(e: Enriched, labels: seq<int>, c: int)
    requires Fits(e, |labels|) && |labels| > 0
    ensures var s := Present(InCluster(e.protocol, labels, c));
      var t := ReportOf(e, labels, c).topProtocols;
      && |t| == (if 3 < |Distinct(s)| then 3 else |Distinct(s)|)
      && (forall i :: 0 <= i < |t| ==> t[i].0 in s && t[i].1 == Count(s, t[i].0))
      && (forall i, j :: 0 <= i < j < |t| ==> t[i].0 != t[j].0 && t[i].1 >= t[j].1)
      && (forall x, i :: x in s && 0 <= i < |t| && (forall k :: 0 <= k < |t| ==> t[k].0 != x)
            ==> Count(s, x) <= t[i].1)
  {
    var s := Present(InCluster(e.protocol, labels, c));
    ValueCountsIsCountOrder(s);
    TopCountsSound(s, ValueCounts(s), 3);
  }

  /** The (id, size) pairs of a list of reports. */
  function SizesOf(reports: seq<ClusterReport>): (r: seq<(int, nat)>)
    ensures |r| == |reports|
    ensures forall i :: 0 <= i < |r| ==> r[i] == (reports[i].id, reports[i].size)
  {
    seq(|reports|, i requires 0 <= i < |reports| => (reports[i].id, reports[i].size))
  }

  /**
   * analyze_clusters as written: a report for each i in range(len(np.unique(labels))),
   * which assumes the labels that occur are exactly 0 .. m-1.
   */
  function AnalyzeClusters(e: Enriched, labels: seq<int>): (r: seq<ClusterReport>)
    requires Fits(e, |labels|)
    ensures |r| == |Distinct(labels)|
    ensures forall i :: 0 <= i < |r| ==> r[i].id == i && r[i].size == Count(labels, i)
  {
    var m := |Distinct(labels)|;
    seq(m, i requires 0 <= i < m => ReportOf(e, labels, i))
  }

  lemma {:induction false} SumCountsOfRange(labels: seq<int>, m: nat)
    requires forall i :: 0 <= i < |labels| ==> labels[i] >= 0
    ensures SumCounts(seq(m, i requires 0 <= i < m => (i, Count(labels, i)))) == CountBelow(labels, m)
  {
    var s := seq(m, i requires 0 <= i < m => (i, Count(labels, i)));
    if m == 0 {
      CountBelowZero(labels);
    } else {
      SumCountsOfRange(labels, m - 1);
      assert s[..m - 1] == seq(m - 1, i requires 0 <= i < m - 1 => (i, Count(labels, i)));
      CountBelowStep(labels, m);
    }
  }

  /**
   * The sizes analyze_clusters reports add up to the number of packets whose label is
   * below the number of distinct labels, so they add up to the packet count exactly when
   * every label is below that number.
   */
  lemma AnalyzeClustersSizes(e: Enriched, labels: seq<int>)
    requires Fits(e, |labels|)
    requires forall i :: 0 <= i < |labels| ==> labels[i] >= 0
    ensures var m := |Distinct(labels)|;
      && SumCounts(SizesOf(AnalyzeClusters(e, labels))) == CountBelow(labels, m)
      && (SumCounts(SizesOf(AnalyzeClusters(e, labels))) == |labels| <==> forall i :: 0 <= i < |labels| ==> labels[i] < m)
  {
    var m := |Distinct(labels)|;
    assert SizesOf(AnalyzeClusters(e, labels)) == seq(m, i requires 0 <= i < m => (i, Count(labels, i)));
    SumCountsOfRange(labels, m);
    CountBelowAllIff(labels, m);
  }

  /**
   * When KMeans leaves cluster 1 of three empty, the labels [0, 2, 2] give two reports
   * (for clusters 0 and 1) whose sizes add up to 1, not 3: cluster 2 is never reported.
   */
  lemma AnalyzeClustersMissesLabel(e: Enriched)
    requires Fits(e, 3)
    ensures |AnalyzeClusters(e, [0, 2, 2])| == 2
    ensures SumCounts(SizesOf(AnalyzeClusters(e, [0, 2, 2]))) == 1
  {
    var labels := [0, 2, 2];
    DistinctOfExample();
    AnalyzeClustersSizes(e, labels);
    var s: seq<int> := [0, 2, 2];
    assert s[1..] == [2, 2] && s[1..][1..] == [2] && s[1..][1..][1..] == [];
    assert CountBelow(labels, 2) == 1;
  }

  lemma DistinctOfExample()
    ensures Distinct([0, 2, 2]) == [0, 2]
  {
    var s: seq<int> := [0, 2, 2];
    var s2: seq<int> := [0, 2];
    var s1: seq<int> := [0];
    var s0: seq<int> := [];
    assert s1[..0] == s0 && s1[0] == 0;
    assert Distinct(s1) == Distinct(s0) + [0];
    assert s2[..1] == s1 && s2[1] == 2 && 2 !in [0];
    assert Distinct(s2) == Distinct(s1) + [2];
    assert s[..2] == s2 && s[2] == 2 && 2 in s2;
    assert Distinct(s) == Distinct(s2);
  }

  /**
   * analyze_clusters iterating over the labels that occur (np.unique's values), ascending;
   * `k` is the number of clusters, which bounds every KMeans label.
   */
  function AnalyzeClustersFixed(e: Enriched, labels: seq<int>, k: nat): (r: seq<ClusterReport>)
    requires Fits(e, |labels|)
    requires forall i :: 0 <= i < |labels| ==> 0 <= labels[i] < k
    ensures SizesOf(r) == SizesBelow(labels, k)
  {
    var sizes := SizesBelow(labels, k);
    assert sizes != [] ==> |labels| > 0 by {
      if sizes != [] {
        assert Count(labels, sizes[0].0) > 0;
      }
    }
    seq(|sizes|, j requires 0 <= j < |sizes| => ReportOf(e, labels, sizes[j].0))
  }

  /**
   * The corrected reports cover every cluster that occurs once, in ascending order, and
   * their sizes add up to the number of packets.
   */
  lemma AnalyzeClustersFixedSizes(e: Enriched, labels: seq<int>, k: nat)
    requires Fits(e, |labels|)
    requires forall i :: 0 <= i < |labels| ==> 0 <= labels[i] < k
    ensures var r := AnalyzeClustersFixed(e, labels, k);
      && SumCounts(SizesOf(r)) == |labels|
      && (forall i, j :: 0 <= i < j < |r| ==> r[i].id < r[j].id)
      && (forall l :: l in labels ==> exists j :: 0 <= j < |r| && r[j].id == l && r[j].size == Count(labels, l))
  {
    var r := AnalyzeClustersFixed(e, labels, k);
    ClusterSizesSum(labels, k);
    forall l | l in labels ensures exists j :: 0 <= j < |r| && r[j].id == l && r[j].size == Count(labels, l) {
      var i :| 0 <= i < |labels| && labels[i] == l;
      SizesBelowComplete(labels, k, l);
      var sizes := SizesBelow(labels, k);
      var j :| 0 <= j < |sizes| && sizes[j] == (l, Count(labels, l));
      assert SizesOf(r)[j] == (r[j].id, r[j].size);
    }
  }

  // ----- detect_anomalies ---------------------------------------------------------

  /** cluster_sizes[cluster_sizes < len(df) * 0.05].index for the value_counts index `order`. */
  function SmallClusters(labels: seq<int>, order: seq<int>): (r: seq<int>)
    ensures forall c :: c in r <==> c in order && IsSmall(Count(labels, c), |labels|)
  {
    if order == [] then []
    else (if IsSmall(Count(labels, order[0]), |labels|) then [order[0]] else []) + SmallClusters(labels, order[1..])
  }

  /**
   * For any value_counts order, the small clusters are exactly the labels that occur on
   * fewer than 5% of the packets, each listed once.
   */
  lemma {:induction false} SmallClustersSpec(labels: seq<int>, order: seq<int>)
    requires IsCountOrder(labels, order)
    ensures forall c :: c in SmallClusters(labels, order) <==> c in labels && IsSmall(Count(labels, c), |labels|)
    ensures NoDuplicates(SmallClusters(labels, order))
  {
    SmallClustersDistinct(labels, order);
  }

  lemma {:induction false} SmallClustersDistinct(labels: seq<int>, order: seq<int>)
    requires NoDuplicates(order)
    ensures NoDuplicates(SmallClusters(labels, order))
  {
    if order != [] {
      SmallClustersDistinct(labels, order[1..]);
      assert order[0] !in order[1..];
    }
  }

  /** What detect_anomalies reports about one small cluster. */
  datatype SmallReport = SmallReport(
    cluster: int, size: nat, protocols: seq<(Cell, nat)>,
    avgLength: Option<real>, maxLength: Option<real>, errorPackets: nat)

  function SmallReportOf(e: Enriched, labels: seq<int>, c: int): (r: SmallReport)
    requires Fits(e, |labels|)
    ensures r.cluster == c && r.size == Count(labels, c)
    ensures r.errorPackets == Count(InCluster(e.hasError, labels, c), 1)
    ensures r.maxLength.Some? ==> Some(r.maxLength.value) in InCluster(e.length, labels, c)
  {
    var p := Present(InCluster(e.protocol, labels, c));
    var lengths := InCluster(e.length, labels, c);
    SmallReport(c, Count(labels, c), TopCounts(p, ValueCounts(p), |p|),
      MeanOf(lengths), MaxPresent(lengths), Count(InCluster(e.hasError, labels, c), 1))
  }

  /** The packets whose Length parses to a number above `threshold` (the 99.5% quantile). */
  function UnusualLength(length: seq<Option<real>>, threshold: real): (r: seq<nat>)
    ensures forall i: nat :: i in r <==> i < |length| && length[i].Some? && length[i].value > threshold
  {
    Where(seq(|length|, i requires 0 <= i < |length| => length[i].Some? && length[i].value > threshold))
  }

  /** df[df['has_error'] == 1]: the packets whose error flag is set, in row order. */
  function ErrorPackets(hasError: seq<int>): (r: seq<nat>)
    ensures forall i: nat :: i in r <==> i < |hasError| && hasError[i] == 1
    ensures forall a, b :: 0 <= a < b < |r| ==> r[a] < r[b]
  {
    Where(seq(|hasError|, i requires 0 <= i < |hasError| => hasError[i] == 1))
  }

  datatype AnomalyReport = AnomalyReport(small: seq<SmallReport>, unusual: seq<nat>, errors: seq<nat>)

  /**
   * detect_anomalies with `order` as value_counts()' index of the labels and the 99.5%
   * length quantile as `lengthThreshold`.
   */
  function DetectAnomalies(e: Enriched, labels: seq<int>, order: seq<int>, lengthThreshold: real): (r: AnomalyReport)
    requires Fits(e, |labels|)
    ensures |r.small| == |SmallClusters(labels, order)|
    ensures forall j :: 0 <= j < |r.small| ==> r.small[j] == SmallReportOf(e, labels, SmallClusters(labels, order)[j])
  {
    var small := SmallClusters(labels, order);
    AnomalyReport(
      seq(|small|, j requires 0 <= j < |small| => SmallReportOf(e, labels, small[j])),
      UnusualLength(e.length, lengthThreshold), ErrorPackets(e.hasError))
  }

  /**
   * For a value_counts order of the labels, the report examines exactly the clusters below
   * 5% of the packets, and its error packets are exactly those whose Info has an error word.
   */
  lemma DetectAnomaliesSpec(x: Inputs, labels: seq<int>, order: seq<int>, lengthThreshold: real)
    requires InputsFit(x, |labels|) && IsCountOrder(labels, order)
    ensures var r := DetectAnomalies(EnrichedOf(x, |labels|), labels, order, lengthThreshold);
      && (forall c :: (exists j :: 0 <= j < |r.small| && r.small[j].cluster == c) <==> c in labels && IsSmall(Count(labels, c), |labels|))
      && (forall i: nat :: i in r.errors <==> i < |labels| && ErrorWord(Lower(StrOf(x.info[i]))))
  {
    var e := EnrichedOf(x, |labels|);
    var r := DetectAnomalies(e, labels, order, lengthThreshold);
    var small := SmallClusters(labels, order);
    SmallClustersSpec(labels, order);
    forall c ensures (exists j :: 0 <= j < |r.small| && r.small[j].cluster == c) <==> c in small {
      if c in small {
        var j :| 0 <= j < |small| && small[j] == c;
        assert r.small[j].cluster == c;
      }
    }
    ErrorPacketsOfInfo(x, |labels|);
  }

  /** The error packets of the enriched frame are those whose Info text has an error word. */
  lemma ErrorPacketsOfInfo(x: Inputs, n: nat)
    requires InputsFit(x, n)
    ensures forall i: nat :: i in ErrorPackets(EnrichedOf(x, n).hasError) <==> i < n && ErrorWord(Lower(StrOf(x.info[i])))
  {
  }
}
