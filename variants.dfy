/**
 * How the three variants' feature extraction and score normalisation compare: the same
 * private-address test in the enhanced and minimal backends and a narrower one in the
 * command-line analyzer, one protocol map that differs only on ARP, a missing time read
 * as 0 by the minimal backend but breaking the difference in the analyzer, and the
 * all-equal scores that only the minimal backend zeroes.
 */
module Variants {
  import opened Wrappers
  import opened Text
  import opened Counting
  import opened Table
  import Analyzer
  import EnhancedFeatures
  import EnhancedAnalysis
  import Minimal

  // ----- private addresses ----------------------------------------------------------

  /** The minimal backend's five alternatives accept exactly what the enhanced search accepts. */
  lemma LocalTestsAgree(s: string)
    ensures Minimal.MinimalLocal(s) <==> EnhancedFeatures.EnhancedLocal(s)
  {
    if |s| >= 7 && IsPrefix("172.", s) {
      assert s[..4] == "172.";
    }
    if Minimal.Starts172(s, '1', '6', '9') || Minimal.Starts172(s, '2', '0', '9') || Minimal.Starts172(s, '3', '0', '1') {
      assert IsPrefix("172.", s);
    }
  }

  /**
   * The minimal backend's test, stated as address ranges: 192.168., 10. and 172.N. for
   * N from 16 to 31.
   */
  lemma MinimalLocalRanges(s: string)
    ensures Minimal.MinimalLocal(s) <==>
      IsPrefix("192.168.", s) || IsPrefix("10.", s) ||
      exists n :: 16 <= n <= 31 && IsPrefix("172." + NatText(n) + ".", s)
  {
    LocalTestsAgree(s);
    EnhancedFeatures.EnhancedLocalIff(s);
  }

  /** Whatever the analyzer calls local the backends do too, but 172.20.0.1 only they do. */
  lemma AnalyzerLocalNarrower(s: string)
    ensures Analyzer.AnalyzerLocal(s) ==> Minimal.MinimalLocal(s)
    ensures Minimal.MinimalLocal("172.20.0.1") && !Analyzer.AnalyzerLocal("172.20.0.1")
  {
    if IsPrefix("172.16.", s) {
      assert s[..7][..4] == s[..4];
      assert s[..4] == "172.";
      assert s[4] == s[..7][4] && s[5] == s[..7][5] && s[6] == s[..7][6];
      assert Minimal.Starts172(s, '1', '6', '9');
    }
    Minimal.MinimalLocalExamples();
    var a := "172.20.0.1";
    assert a[..3][1] != "10."[1];
    assert a[..7][4] != "172.16."[4];
    assert a[..8][1] != "192.168."[1];
  }

  /** A missing address is local in neither test: the backend reads it as "", the analyzer as "nan". */
  lemma MissingAddressFlags()
    ensures Minimal.LocalFlag(NA) == 0 && Analyzer.LocalFeature(NA) == 0 && EnhancedFeatures.LocalFlag(NA) == 0
  {
  }

  // ----- protocol map ---------------------------------------------------------------

  /** The minimal backend's map is the analyzer's with ARP added as 8. */
  lemma ProtocolMapsAgree(c: Cell)
    ensures Minimal.ProtocolFeature(c) == (if c == Val("ARP") then 8 else Analyzer.ProtocolFeature(c))
  {
  }

  // ----- time deltas ----------------------------------------------------------------

  /** The times the minimal backend reads from the Time column, a missing one as 0. */
  function ReadTimes(x: Minimal.Columns): (t: seq<real>)
    requires Minimal.ColumnsFit(x)
    ensures |t| == x.height
    ensures forall i :: 0 <= i < x.height && Minimal.FloatOrZero(x.time[i]).Some? ==>
      t[i] == Minimal.FloatOrZero(x.time[i]).value
  {
    seq(x.height, i requires 0 <= i < x.height =>
      match Minimal.FloatOrZero(x.time[i]) case Some(v) => v case None => 0.0)
  }

  /**
   * The minimal backend's time deltas are the successive differences of the times it read,
   * so they add up to the last time minus the first.
   */
  lemma MinimalDeltasTelescope(x: Minimal.Columns)
    requires Minimal.ColumnsFit(x) && x.height > 0
    requires forall i :: 0 <= i < x.height ==> Minimal.RowReadable(x, i)
    ensures var deltas := seq(x.height, i requires 0 <= i < x.height => Minimal.RowOf(x, i).timeDelta);
      && deltas == EnhancedFeatures.TimeDeltas(ReadTimes(x))
      && Sum(deltas) == ReadTimes(x)[x.height - 1] - ReadTimes(x)[0]
  {
    var t := ReadTimes(x);
    var deltas := seq(x.height, i requires 0 <= i < x.height => Minimal.RowOf(x, i).timeDelta);
    forall i | 0 <= i < x.height ensures deltas[i] == EnhancedFeatures.TimeDeltas(t)[i] {
      Minimal.RowOfSpec(x, i);
    }
    EnhancedFeatures.TimeDeltasTelescope(t);
  }

  /** With every time present, the analyzer's diff().fillna(0) gives the same successive differences. */
  lemma TimeDiffWhenPresent(t: seq<Option<real>>)
    requires forall i :: 0 <= i < |t| ==> t[i].Some?
    ensures Analyzer.TimeDiff(t) == EnhancedFeatures.TimeDeltas(seq(|t|, i requires 0 <= i < |t| => t[i].value))
  {
  }

  /**
   * A missing middle time: the backend reads it as 0 and gets deltas -1 and 3, the analyzer
   * yields 0 for both differences that involve it.
   */
  lemma MissingTimeDiffers()
    ensures Analyzer.TimeDiff([Some(1.0), None, Some(3.0)]) == [0.0, 0.0, 0.0]
    ensures EnhancedFeatures.TimeDeltas([Minimal.FloatOrZero(Val("1")).value, Minimal.FloatOrZero(NA).value,
                                         Minimal.FloatOrZero(Val("3")).value]) == [0.0, -1.0, 3.0]
  {
    var t := [Some(1.0), None, Some(3.0)];
    assert Analyzer.TimeDiff(t)[1] == 0.0 && Analyzer.TimeDiff(t)[2] == 0.0;
    ParseNatText(1);
    ParseNatText(3);
    assert NatText(1) == "1" && NatText(3) == "3";
  }

  // ----- score normalisation --------------------------------------------------------

  /** The two backends' normalisations differ only when there are several scores, all equal. */
  lemma NormalizationsAgree(s: seq<real>)
    ensures !(|s| > 1 && MaxOf(s) == MinOf(s)) ==> Minimal.NormalizeMinimal(s) == EnhancedAnalysis.NormalizeEnhanced(s)
    ensures |s| > 1 && MaxOf(s) == MinOf(s) ==>
      EnhancedAnalysis.NormalizeEnhanced(s) == s && forall i :: 0 <= i < |s| ==> Minimal.NormalizeMinimal(s)[i] == 0.0
  {
    Minimal.NormalizeMinimalSpec(s);
  }

  /** Two equal scores stay 2 in the enhanced backend and become 0 in the minimal one. */
  lemma EqualScoresExample()
    ensures EnhancedAnalysis.NormalizeEnhanced([2.0, 2.0]) == [2.0, 2.0]
    ensures Minimal.NormalizeMinimal([2.0, 2.0]) == [0.0, 0.0]
  {
    var s := [2.0, 2.0];
    NormalizationsAgree(s);
    assert MaxOf(s) == 2.0 && MinOf(s) == 2.0;
  }
}
