/**
 * Feature extraction of the enhanced backend: fifteen numeric features per packet,
 * computed column by column from the normalised frame.
 */
module EnhancedFeatures {
  import opened Wrappers
  import opened Text
  import opened Counting
  import opened Table
  import opened Scores

  /** One packet's features, in the column order of the feature frame. */
  datatype FeatureRow = FeatureRow(
    length: real, protocolEncoded: int, timeNormalized: real, timeDelta: real,
    srcLocal: int, dstLocal: int, hasPortInfo: int, hasError: int,
    isTcp: int, isUdp: int, isHttp: int, isDns: int,
    sizeSmall: int, sizeMedium: int, sizeLarge: int)

  // ----- protocol encoding -----------------------------------------------------

  /** Number of most frequent protocols that get their own code. */
  const TopProtocols: nat := 20

  /** Code for unparsed or rare protocols. */
  const RareCode: int := 999

  /** protocol_counts.index[:20]. */
  function Top(order: seq<Cell>): (t: seq<Cell>)
    ensures |t| <= TopProtocols && |t| <= |order|
    ensures |t| == |order| || |t| == TopProtocols
    ensures forall k :: 0 <= k < |t| ==> t[k] == order[k]
  {
    if |order| <= TopProtocols then order else order[..TopProtocols]
  }

  /**
   * df['protocol'].map(protocol_map).fillna(999) for one cell, where `order` is the
   * value_counts() index of the column: the rank among the 20 most frequent, or 999.
   */
  function ProtocolCode(order: seq<Cell>, c: Cell): (code: int)
    ensures 0 <= code < TopProtocols || code == RareCode
    ensures code == RareCode <==> c == NA || c !in Top(order)
    ensures code != RareCode ==> code < |order| && order[code] == c
  {
    var t := Top(order);
    if c != NA && c in t then IndexOf(t, c) else RareCode
  }

  /**
   * Among the top-20 protocols a strictly more frequent one gets a strictly smaller code,
   * for any value_counts() order of the column.
   */
  lemma MoreFrequentSmallerCode(col: seq<Cell>, order: seq<Cell>, a: Cell, b: Cell)
    requires IsCountOrder(Present(col), order)
    requires a in Present(col) && ProtocolCode(order, b) != RareCode
    requires Count(Present(col), a) > Count(Present(col), b)
    ensures ProtocolCode(order, a) < ProtocolCode(order, b)
  {
    var p := Present(col);
    var ib := ProtocolCode(order, b);
    var ia := IndexOf(order, a);
    assert ia < |order| && order[ia] == a;
    RankedBefore(p, order, ia, ib);
    assert a in Top(order) by {
      assert Top(order)[ia] == a;
    }
    assert IndexOf(Top(order), a) == ia by {
      assert forall k :: 0 <= k < ia ==> Top(order)[k] == order[k] && order[k] != a;
    }
  }

  /**
   * A present protocol coded 999 lies outside the top 20: then at least 20 distinct
   * protocols occur and each of the 20 coded ones is at least as frequent as it.
   */
  lemma RareCodeMeansOutranked(col: seq<Cell>, order: seq<Cell>, c: Cell)
    requires IsCountOrder(Present(col), order)
    requires c in Present(col) && ProtocolCode(order, c) == RareCode
    ensures |order| > TopProtocols
    ensures forall k :: 0 <= k < TopProtocols ==> Count(Present(col), order[k]) >= Count(Present(col), c)
  {
    var i := IndexOf(order, c);
    assert i < |order| && order[i] == c;
    assert c !in Top(order);
    assert forall k :: 0 <= k < |Top(order)| ==> order[k] != c;
    assert i >= |Top(order)|;
  }

  /** The protocol codes of a column, ranked by the concrete value_counts() order. */
  function ProtocolCodes(col: seq<Cell>): (r: seq<int>)
    ensures |r| == |col|
    ensures forall i :: 0 <= i < |col| ==> 0 <= r[i] < TopProtocols || r[i] == RareCode
  {
    var order := ValueCounts(Present(col));
    seq(|col|, i requires 0 <= i < |col| => ProtocolCode(order, col[i]))
  }

  // ----- time features -------------------------------------------------------------

  /** (t - t.min()) / max(t.max() - t.min(), 1) over a column of times. */
  function TimeNormalized(t: seq<real>): (r: seq<real>)
    ensures |r| == |t|
  {
    if |t| == 0 then []
    else
      var lo := MinOf(t);
      var span := MaxOf(t) - lo;
      var d := if span > 1.0 then span else 1.0;
      seq(|t|, i requires 0 <= i < |t| => (t[i] - lo) / d)
  }

  /** Every normalised time lies in [0, 1], whatever the range of the times. */
  lemma TimeNormalizedInUnit(t: seq<real>)
    ensures forall i :: 0 <= i < |t| ==> 0.0 <= TimeNormalized(t)[i] <= 1.0
  {
    forall i | 0 <= i < |t| ensures 0.0 <= TimeNormalized(t)[i] <= 1.0 {
      TimeNormalizedAt(t, i);
    }
  }

  lemma TimeNormalizedAt(t: seq<real>, i: nat)
    requires i < |t|
    ensures 0.0 <= TimeNormalized(t)[i] <= 1.0
  {
    var lo, hi := MinOf(t), MaxOf(t);
    var x, d := t[i] - lo, if hi - lo > 1.0 then hi - lo else 1.0;
    assert 0.0 <= x <= d by {
      assert lo <= t[i] <= hi;
    }
    DivInUnit(x, d);
    assert TimeNormalized(t)[i] == x / d;
  }

  /** t.diff().fillna(0): 0 for the first row, then the gap to the previous row. */
  function TimeDeltas(t: seq<real>): (r: seq<real>)
    ensures |r| == |t|
    ensures |t| > 0 ==> r[0] == 0.0
    ensures forall i :: 0 < i < |t| ==> r[i] == t[i] - t[i - 1]
  {
    seq(|t|, i requires 0 <= i < |t| => if i == 0 then 0.0 else t[i] - t[i - 1])
  }

  /** Summing the deltas telescopes to the distance from the first time to the last. */
  lemma {:induction false} TimeDeltasTelescope(t: seq<real>)
    requires |t| > 0
    ensures Sum(TimeDeltas(t)) == t[|t| - 1] - t[0]
  {
    if |t| > 1 {
      var init := t[..|t| - 1];
      TimeDeltasTelescope(init);
      assert TimeDeltas(t) == TimeDeltas(init) + [t[|t| - 1] - t[|t| - 2]];
      SumAppend(TimeDeltas(init), [t[|t| - 1] - t[|t| - 2]]);
    } else {
      assert TimeDeltas(t) == [0.0];
    }
  }

  // ----- address and text features -------------------------------------------------

  /** 1[6-9], 2[0-9] or 3[01]: two characters that spell a number from 16 to 31. */
  predicate PrivateSecondOctet(a: char, b: char) {
    (a == '1' && '6' <= b <= '9') || (a == '2' && IsDigit(b)) || (a == '3' && (b == '0' || b == '1'))
  }

  /** The search for ^(192\.168\.|10\.|172\.(1[6-9]|2[0-9]|3[01])\.) in an address. */
  predicate EnhancedLocal(s: string) {
    IsPrefix("192.168.", s) || IsPrefix("10.", s) ||
    (IsPrefix("172.", s) && |s| >= 7 && PrivateSecondOctet(s[4], s[5]) && s[6] == '.')
  }

  lemma TwoDigitText(n: nat)
    requires 10 <= n < 100
    ensures NatText(n) == [DigitChar(n / 10), DigitChar(n % 10)]
  {
  }

  /**
   * An address is local exactly when it starts with 10., with 192.168. or with 172.N.
   * for a number N from 16 to 31 written in decimal.
   */
  lemma EnhancedLocalIff(s: string)
    ensures EnhancedLocal(s) <==>
      IsPrefix("192.168.", s) || IsPrefix("10.", s) ||
      exists n :: 16 <= n <= 31 && IsPrefix("172." + NatText(n) + ".", s)
  {
    if IsPrefix("172.", s) && |s| >= 7 && PrivateSecondOctet(s[4], s[5]) && s[6] == '.' {
      var n := (s[4] as int - '0' as int) * 10 + (s[5] as int - '0' as int);
      assert 16 <= n <= 31;
      TwoDigitText(n);
      assert NatText(n) == [s[4], s[5]];
      assert s[..7] == "172." + NatText(n) + ".";
    }
    if n :| 16 <= n <= 31 && IsPrefix("172." + NatText(n) + ".", s) {
      TwoDigitText(n);
      var p := "172." + NatText(n) + ".";
      assert s[..7] == p;
      assert s[..4] == p[..4] == "172.";
      assert s[4] == p[4] == DigitChar(n / 10) && s[5] == p[5] == DigitChar(n % 10) && s[6] == '.';
    }
  }

  /** The test only looks at the start: 100.0.0.1 and 172.32.0.1 are not local. */
  lemma EnhancedLocalExamples()
    ensures !EnhancedLocal("100.0.0.1") && !EnhancedLocal("172.32.0.1")
    ensures EnhancedLocal("172.31.255.1") && EnhancedLocal("10.0.0.1")
  {
    assert "100.0.0.1"[..3][2] != "10."[2];
    assert "100.0.0.1"[..8][1] != "192.168."[1];
    assert "172.32.0.1"[..8][1] != "192.168."[1];
    assert "172.32.0.1"[..3][1] != "10."[1];
    assert "172.31.255.1"[..4] == "172.";
    assert "10.0.0.1"[..3] == "10.";
  }

  /** str.contains(local pattern, na=False): a missing cell is never local. */
  function LocalFlag(c: Cell): (r: int)
    ensures r == 1 <==> c.Val? && EnhancedLocal(c.text)
    ensures r == 0 || r == 1
  {
    if c.Val? then Flag(EnhancedLocal(c.text)) else 0
  }

  const Arrow: char := 0x2192 as char

  /**
   * A search for \d+ → in an Info field: a decimal digit directly followed by a space and
   * a right arrow, as in "443 → 51234".
   */
  predicate HasPortArrow(s: string) {
    exists i :: 0 <= i && i + 3 <= |s| && IsDigit(s[i]) && s[i + 1] == ' ' && s[i + 2] == Arrow
  }

  /** error|failed|timeout|unreachable searched without regard to ASCII case. */
  predicate EnhancedErrorText(s: string) {
    var l := Lower(s);
    Contains(l, "error") || Contains(l, "failed") || Contains(l, "timeout") || Contains(l, "unreachable")
  }

  /** The two Info flags: \d+ → and the error words; a missing cell sets neither. */
  function InfoFlags(c: Cell): (r: (int, int))
    ensures r.0 == 1 <==> c.Val? && HasPortArrow(c.text)
    ensures r.1 == 1 <==> c.Val? && EnhancedErrorText(c.text)
  {
    if c.Val? then (Flag(HasPortArrow(c.text)), Flag(EnhancedErrorText(c.text))) else (0, 0)
  }

  /** str.contains('HTTP', na=False): a case-sensitive search. */
  function HttpFlag(c: Cell): (r: int)
    ensures r == 1 <==> c.Val? && Contains(c.text, "HTTP")
  {
    if c.Val? then Flag(Contains(c.text, "HTTP")) else 0
  }

  /** str.upper() == name of a protocol cell; a missing cell compares unequal. */
  function SameUpper(c: Cell, name: string): (r: int)
    ensures r == 1 <==> c.Val? && Upper(c.text) == name
  {
    match c
    case NA => 0
    case Val(s) => Flag(Upper(s) == name)
  }

  lemma HttpsCountsAsHttp()
    ensures HttpFlag(Val("HTTPS")) == 1 && HttpFlag(Val("http")) == 0
  {
    assert IsPrefix("HTTP", "HTTPS");
    assert "http"[..4][0] != "HTTP"[0];
    assert !Contains("", "HTTP");
    assert !Contains("p", "HTTP");
    assert !Contains("tp", "HTTP");
    assert !Contains("ttp", "HTTP");
    assert "http"[1..] == "ttp" && "ttp"[1..] == "tp" && "tp"[1..] == "p" && "p"[1..] == "";
  }

  lemma TcpIgnoresCase()
    ensures SameUpper(Val("tcp"), "TCP") == 1 && SameUpper(Val("Tcp"), "TCP") == 1
  {
    assert Upper("tcp") == "TCP";
    assert Upper("Tcp") == "TCP";
  }

  // ----- the feature rows --------------------------------------------------------

  /** The three size buckets, cut at 100 and 1000 bytes. */
  function SizeBuckets(length: real): (r: (int, int, int))
    ensures r.0 + r.1 + r.2 == 1 && 0 <= r.0 && 0 <= r.1 && 0 <= r.2
    ensures r.0 == 1 <==> length < 100.0
    ensures r.1 == 1 <==> 100.0 <= length < 1000.0
    ensures r.2 == 1 <==> length >= 1000.0
  {
    (Flag(length < 100.0), Flag(100.0 <= length < 1000.0), Flag(length >= 1000.0))
  }

  /** The names of the columns extract_features reads, in the order it reads them. */
  const RequiredColumns: seq<string> := ["length", "protocol", "src_ip", "dst_ip", "info"]

  /** The frame has every column extract_features looks up unconditionally. */
  predicate HasInputs(f: Frame) {
    WellFormed(f) && "length" in f.names && "protocol" in f.names && "src_ip" in f.names &&
    "dst_ip" in f.names && "info" in f.names
  }

  /** pd.to_numeric(df[n], errors='coerce').fillna(0). */
  function Numbers(f: Frame, n: string): (r: seq<real>)
    requires WellFormed(f) && n in f.names
    ensures |r| == f.height
    ensures forall i :: 0 <= i < f.height ==> r[i] == NumericOrZero(Column(f, n)[i])
  {
    seq(f.height, i requires 0 <= i < f.height => NumericOrZero(Column(f, n)[i]))
  }

  /**
   * time_normalized and time_delta: computed from the timestamp column when there is one,
   * and 0 for every packet when there is none. Normalised times lie in [0, 1]; the first
   * delta is 0 and each later one is the gap to the previous row's time.
   */
  function TimeFeatures(f: Frame): (r: (seq<real>, seq<real>))
    requires WellFormed(f)
    ensures |r.0| == f.height && |r.1| == f.height
    ensures forall i :: 0 <= i < f.height ==> 0.0 <= r.0[i] <= 1.0
    ensures f.height > 0 ==> r.1[0] == 0.0
    ensures "timestamp" in f.names ==> forall i :: 0 < i < f.height ==>
      r.1[i] == NumericOrZero(Column(f, "timestamp")[i]) - NumericOrZero(Column(f, "timestamp")[i - 1])
    ensures "timestamp" !in f.names ==> forall i :: 0 <= i < f.height ==> r.0[i] == 0.0 && r.1[i] == 0.0
  {
    if "timestamp" in f.names then
      var times := Numbers(f, "timestamp");
      TimeNormalizedInUnit(times);
      (TimeNormalized(times), TimeDeltas(times))
    else
      (seq(f.height, _ => 0.0), seq(f.height, _ => 0.0))
  }

  /** The feature row of packet `i`, given its protocol code and time features. */
  function PacketFeatures(f: Frame, i: nat, code: int, norm: real, delta: real): (row: FeatureRow)
    requires HasInputs(f) && i < f.height
    ensures row.length == NumericOrZero(Column(f, "length")[i])
    ensures row.protocolEncoded == code && row.timeNormalized == norm && row.timeDelta == delta
    ensures row.srcLocal == LocalFlag(Column(f, "src_ip")[i]) && row.dstLocal == LocalFlag(Column(f, "dst_ip")[i])
    ensures row.hasPortInfo == InfoFlags(Column(f, "info")[i]).0 && row.hasError == InfoFlags(Column(f, "info")[i]).1
    ensures row.isTcp == SameUpper(Column(f, "protocol")[i], "TCP") && row.isUdp == SameUpper(Column(f, "protocol")[i], "UDP")
    ensures row.isHttp == HttpFlag(Column(f, "protocol")[i]) && row.isDns == SameUpper(Column(f, "protocol")[i], "DNS")
    ensures row.sizeSmall + row.sizeMedium + row.sizeLarge == 1
    ensures row.sizeSmall == 1 <==> row.length < 100.0
    ensures row.sizeMedium == 1 <==> 100.0 <= row.length < 1000.0
    ensures row.sizeLarge == 1 <==> row.length >= 1000.0
  {
    var length := NumericOrZero(Column(f, "length")[i]);
    var proto := Column(f, "protocol")[i];
    var info := Column(f, "info")[i];
    var size := SizeBuckets(length);
    FeatureRow(length, code, norm, delta,
      LocalFlag(Column(f, "src_ip")[i]), LocalFlag(Column(f, "dst_ip")[i]),
      InfoFlags(info).0, InfoFlags(info).1,
      SameUpper(proto, "TCP"), SameUpper(proto, "UDP"),
      HttpFlag(proto), SameUpper(proto, "DNS"),
      size.0, size.1, size.2)
  }

  /**
   * extract_features: a KeyError naming the first of length, protocol, src_ip, dst_ip and
   * info that the frame lacks; otherwise one feature row per packet.
   */
  function ExtractFeatures(f: Frame): (r: Result<seq<FeatureRow>, string>)
    requires WellFormed(f)
    ensures r.Err? <==> !HasInputs(f)
    ensures r.Err? ==> r.error in RequiredColumns && r.error !in f.names
    ensures r.Ok? ==> |r.value| == f.height
  {
    assert RequiredColumns[0] == "length" && RequiredColumns[1] == "protocol";
    assert RequiredColumns[2] == "src_ip" && RequiredColumns[3] == "dst_ip" && RequiredColumns[4] == "info";
    match FirstMissing(f.names, RequiredColumns)
    case Some(n) => Err(n)
    case None => Ok(FeatureRows(f))
  }

  /** The feature rows of a frame that has every looked-up column. */
  function FeatureRows(f: Frame): (rows: seq<FeatureRow>)
    requires HasInputs(f)
    ensures |rows| == f.height
  {
    var codes := ProtocolCodes(Column(f, "protocol"));
    var time := TimeFeatures(f);
    seq(f.height, i requires 0 <= i < f.height => PacketFeatures(f, i, codes[i], time.0[i], time.1[i]))
  }

  /**
   * What every row extract_features yields promises. The row is packet i's PacketFeatures
   * with its protocol code and time features. The protocol code is the protocol's rank in the
   * value_counts() order, or 999 exactly when the protocol is missing or outside the top 20.
   * The normalised time lies in [0, 1]; the first delta is 0 and later ones are gaps between
   * parsed times (unparsable read as 0). Every flag is its test on the packet's cells, and
   * exactly one size bucket is set, by the 100 and 1000 byte cut points.
   */
  lemma ExtractFeaturesRow(f: Frame, i: nat)
    requires WellFormed(f) && ExtractFeatures(f).Ok? && i < f.height
    ensures var row := ExtractFeatures(f).value[i];
      var proto, info := Column(f, "protocol")[i], Column(f, "info")[i];
      var order := ValueCounts(Present(Column(f, "protocol")));
      && row == PacketFeatures(f, i, ProtocolCodes(Column(f, "protocol"))[i], TimeFeatures(f).0[i], TimeFeatures(f).1[i])
      && row.length == NumericOrZero(Column(f, "length")[i])
      && row.protocolEncoded == ProtocolCode(order, proto)
      && (0 <= row.protocolEncoded < TopProtocols || row.protocolEncoded == RareCode)
      && (row.protocolEncoded == RareCode <==> proto == NA || proto !in Top(order))
      && (row.protocolEncoded != RareCode ==> row.protocolEncoded < |order| && order[row.protocolEncoded] == proto)
      && 0.0 <= row.timeNormalized <= 1.0
      && (i == 0 ==> row.timeDelta == 0.0)
      && ("timestamp" in f.names && i > 0 ==>
            row.timeDelta == NumericOrZero(Column(f, "timestamp")[i]) - NumericOrZero(Column(f, "timestamp")[i - 1]))
      && ("timestamp" !in f.names ==> row.timeNormalized == 0.0 && row.timeDelta == 0.0)
      && (row.srcLocal == 1 <==> Column(f, "src_ip")[i].Val? && EnhancedLocal(Column(f, "src_ip")[i].text))
      && (row.dstLocal == 1 <==> Column(f, "dst_ip")[i].Val? && EnhancedLocal(Column(f, "dst_ip")[i].text))
      && (row.hasPortInfo == 1 <==> info.Val? && HasPortArrow(info.text))
      && (row.hasError == 1 <==> info.Val? && EnhancedErrorText(info.text))
      && (row.isTcp == 1 <==> proto.Val? && Upper(proto.text) == "TCP")
      && (row.isUdp == 1 <==> proto.Val? && Upper(proto.text) == "UDP")
      && (row.isHttp == 1 <==> proto.Val? && Contains(proto.text, "HTTP"))
      && (row.isDns == 1 <==> proto.Val? && Upper(proto.text) == "DNS")
      && row.sizeSmall + row.sizeMedium + row.sizeLarge == 1
      && (row.sizeSmall == 1 <==> row.length < 100.0)
      && (row.sizeMedium == 1 <==> 100.0 <= row.length < 1000.0)
      && (row.sizeLarge == 1 <==> row.length >= 1000.0)
  {
    assert HasInputs(f);
    var codes := ProtocolCodes(Column(f, "protocol"));
    var time := TimeFeatures(f);
    assert ExtractFeatures(f).value == FeatureRows(f);
    var row := PacketFeatures(f, i, codes[i], time.0[i], time.1[i]);
    assert FeatureRows(f)[i] == row;
    var src, dst, proto, info := Column(f, "src_ip")[i], Column(f, "dst_ip")[i], Column(f, "protocol")[i], Column(f, "info")[i];
    var order := ValueCounts(Present(Column(f, "protocol")));
    assert codes[i] == ProtocolCode(order, proto);
    assert row.srcLocal == LocalFlag(src) && row.dstLocal == LocalFlag(dst) && row.isHttp == HttpFlag(proto);
    assert LocalFlag(src) == 1 <==> src.Val? && EnhancedLocal(src.text);
    assert LocalFlag(dst) == 1 <==> dst.Val? && EnhancedLocal(dst.text);
    assert HttpFlag(proto) == 1 <==> proto.Val? && Contains(proto.text, "HTTP");
  }
}
