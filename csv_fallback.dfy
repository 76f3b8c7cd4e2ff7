/**
 * The fallback CSV reader of the enhanced backend, used when pandas cannot parse the
 * export: the header line is split at every comma, and each data line is split by a
 * character loop that tracks whether it is inside a double-quoted span, after which the
 * row is padded with empty fields or cut to the header's width.
 */
module CsvFallback {
  import opened Text
  import opened Counting
  import opened Table

  /**
   * The fields a line yields when scanning starts with the given quote state: a double
   * quote toggles the state and is dropped, a comma outside quotes ends a field, and every
   * other character belongs to the current field.
   */
  function Fields(line: string, inQuotes: bool): (r: seq<string>)
    ensures |r| >= 1
  {
    if line == [] then [[]]
    else if line[0] == '"' then Fields(line[1..], !inQuotes)
    else if line[0] == ',' && !inQuotes then [[]] + Fields(line[1..], inQuotes)
    else
      var rest := Fields(line[1..], inQuotes);
      [[line[0]] + rest[0]] + rest[1..]
  }

  /** No field holds a double quote. */
  lemma {:induction false} FieldsHaveNoQuotes(line: string, inQuotes: bool)
    ensures forall i :: 0 <= i < |Fields(line, inQuotes)| ==> '"' !in Fields(line, inQuotes)[i]
  {
    if line != [] {
      FieldsHaveNoQuotes(line[1..], if line[0] == '"' then !inQuotes else inQuotes);
    }
  }

  /** The fields joined back with commas. */
  function Join(fs: seq<string>, sep: char): string
    requires |fs| >= 1
  {
    if |fs| == 1 then fs[0] else fs[0] + [sep] + Join(fs[1..], sep)
  }

  /** The line with its double quotes removed. */
  function Dequote(s: string): (r: string)
    ensures '"' !in r
  {
    if s == [] then [] else (if s[0] == '"' then [] else [s[0]]) + Dequote(s[1..])
  }

  lemma JoinConsFirst(c: char, fs: seq<string>, sep: char)
    requires |fs| >= 1
    ensures Join([[c] + fs[0]] + fs[1..], sep) == [c] + Join(fs, sep)
  {
    var g := [[c] + fs[0]] + fs[1..];
    if |fs| > 1 {
      assert g[1..] == fs[1..];
    }
  }

  /**
   * Joining the fields with commas gives back the line with its quotes removed: no
   * character other than a double quote is lost, and a comma inside quotes stays in its
   * field while a comma outside ends one.
   */
  lemma {:induction false} FieldsJoinToDequoted(line: string, inQuotes: bool)
    ensures Join(Fields(line, inQuotes), ',') == Dequote(line)
  {
    if line == [] {
    } else if line[0] == '"' {
      FieldsJoinToDequoted(line[1..], !inQuotes);
    } else if line[0] == ',' && !inQuotes {
      var rest := Fields(line[1..], inQuotes);
      assert ([[]] + rest)[1..] == rest;
      FieldsJoinToDequoted(line[1..], inQuotes);
    } else {
      FieldsJoinToDequoted(line[1..], inQuotes);
      JoinConsFirst(line[0], Fields(line[1..], inQuotes), ',');
    }
  }

  /** Position `i` is inside a quoted span: an odd number of quotes precede it. */
  predicate QuotedAt(line: string, i: nat)
    requires i <= |line|
  {
    Count(line[..i], '"') % 2 == 1
  }

  /** Number of commas before position `n` that lie outside every quoted span. */
  function UnquotedCommas(line: string, n: nat): nat
    requires n <= |line|
  {
    if n == 0 then 0
    else UnquotedCommas(line, n - 1) + (if line[n - 1] == ',' && !QuotedAt(line, n - 1) then 1 else 0)
  }

  /** A double quote toggles the quote state, every other character keeps it. */
  lemma QuotedAtStep(line: string, k: nat)
    requires k < |line|
    ensures QuotedAt(line, k + 1) == if line[k] == '"' then !QuotedAt(line, k) else QuotedAt(line, k)
  {
    assert line[..k + 1] == line[..k] + [line[k]];
    CountSnoc(line[..k], line[k], '"');
  }

  lemma {:induction false} FieldCountFrom(line: string, k: nat)
    requires k <= |line|
    ensures |Fields(line[k..], QuotedAt(line, k))| == UnquotedCommas(line, |line|) - UnquotedCommas(line, k) + 1
    decreases |line| - k
  {
    if k < |line| {
      QuotedAtStep(line, k);
      assert line[k..][0] == line[k] && line[k..][1..] == line[k + 1..];
      FieldCountFrom(line, k + 1);
    }
  }

  /** Before padding, a line yields one field more than it has commas outside quotes. */
  lemma FieldCount(line: string)
    ensures |Fields(line, false)| == UnquotedCommas(line, |line|) + 1
  {
    FieldCountFrom(line, 0);
    assert line[0..] == line;
  }

  /** The fallback yields ["a", "b,c", "d"] for the line a,"b,c",d. */
  lemma QuotedCommaStaysInField()
    ensures Fields("a,\"b,c\",d", false) == ["a", "b,c", "d"]
  {
    var l0, l1, l2 := "a,\"b,c\",d", ",\"b,c\",d", "\"b,c\",d";
    assert l0[1..] == l1 && l1[1..] == l2;
    QuotedFieldThenLast();
    assert Fields(l1, false) == [[]] + ["b,c", "d"];
    assert Fields(l0, false) == [['a'] + ""] + ["b,c", "d"];
    assert ['a'] + "" == "a";
  }

  lemma QuotedFieldThenLast()
    ensures Fields("\"b,c\",d", false) == ["b,c", "d"]
  {
    var l2, l3, l4, l5, l6 := "\"b,c\",d", "b,c\",d", ",c\",d", "c\",d", "\",d";
    assert l2[1..] == l3 && l3[1..] == l4 && l4[1..] == l5 && l5[1..] == l6;
    LastField();
    assert Fields(l6, true) == ["", "d"];
    assert Fields(l5, true) == [['c'] + ""] + ["d"];
    assert ['c'] + "" == "c";
    assert Fields(l4, true) == [[','] + "c"] + ["d"];
    assert [','] + "c" == ",c";
    assert Fields(l3, true) == [['b'] + ",c"] + ["d"];
    assert ['b'] + ",c" == "b,c";
  }

  lemma LastField()
    ensures Fields(",d", false) == ["", "d"]
  {
    var l7, l8, l9 := ",d", "d", "";
    assert l7[1..] == l8 && l8[1..] == l9;
    assert Fields(l9, false) == [""];
    assert Fields(l8, false) == [['d'] + ""] + [""][1..];
    assert ['d'] + "" == "d" && [""][1..] == [];
    assert Fields(l7, false) == [[]] + ["d"];
  }

  // ----- str.split(',') for the header ------------------------------------------

  /** Python's s.split(sep) with an explicit separator. */
  function SplitOn(s: string, sep: char): (r: seq<string>)
    ensures |r| >= 1
    ensures forall i :: 0 <= i < |r| ==> sep !in r[i]
  {
    if s == [] then [[]]
    else
      var rest := SplitOn(s[1..], sep);
      if s[0] == sep then [[]] + rest else [[s[0]] + rest[0]] + rest[1..]
  }

  /** Splitting then joining with the same separator gives the string back. */
  lemma {:induction false} SplitOnJoin(s: string, sep: char)
    ensures Join(SplitOn(s, sep), sep) == s
  {
    if s != [] {
      SplitOnJoin(s[1..], sep);
      var rest := SplitOn(s[1..], sep);
      if s[0] == sep {
        assert ([[]] + rest)[1..] == rest;
      } else {
        JoinConsFirst(s[0], rest, sep);
      }
    }
  }

  /** Splitting yields one piece more than there are separators. */
  lemma {:induction false} SplitOnCount(s: string, sep: char)
    ensures |SplitOn(s, sep)| == Count(s, sep) + 1
  {
    if s != [] {
      SplitOnCount(s[1..], sep);
    }
  }

  /** On a line without double quotes, the fallback splits exactly where str.split(',') does. */
  lemma {:induction false} FieldsWithoutQuotes(line: string, inQuotes: bool)
    requires '"' !in line && !inQuotes
    ensures Fields(line, inQuotes) == SplitOn(line, ',')
  {
    if line != [] {
      assert '"' !in line[1..] by {
        assert forall c :: c in line[1..] ==> c in line;
      }
      FieldsWithoutQuotes(line[1..], inQuotes);
    }
  }

  /** The header: f.readline().strip().split(','). */
  function HeaderNames(line: string): (r: seq<string>)
    ensures |r| >= 1
  {
    SplitOn(Strip(line), ',')
  }

  // ----- one data line ---------------------------------------------------------

  /** The fields of a line as appended: the last one also loses surrounding whitespace. */
  function Finished(raw: seq<string>): (r: seq<string>)
    requires |raw| >= 1
    ensures |r| == |raw|
  {
    raw[..|raw| - 1] + [Strip(raw[|raw| - 1])]
  }

  lemma FinishedHasNoQuotes(raw: seq<string>)
    requires |raw| >= 1 && forall i :: 0 <= i < |raw| ==> '"' !in raw[i]
    ensures forall i :: 0 <= i < |raw| ==> '"' !in Finished(raw)[i]
  {
    var last := raw[|raw| - 1];
    assert forall c :: c in Strip(last) ==> c in last;
    assert Finished(raw)[|raw| - 1] == Strip(last);
  }

  /** The row padded with empty fields or cut so that it has exactly `width` fields. */
  function Fit(fields: seq<string>, width: nat): (r: seq<string>)
    ensures |r| == width
    ensures forall i :: 0 <= i < width ==> r[i] == if i < |fields| then fields[i] else ""
  {
    if |fields| >= width then fields[..width]
    else fields + seq(width - |fields|, _ => "")
  }

  /** The fields the fallback stores for one data line under a header of `width` names. */
  function RowFields(line: string, width: nat): seq<string> {
    Fit(Finished(Fields(line, false)), width)
  }

  /** The fields still to come when `cur` is the field being built: `cur` starts the first. */
  function Continue(cur: string, fs: seq<string>): (r: seq<string>)
    requires |fs| >= 1
    ensures |r| == |fs|
  {
    [cur + fs[0]] + fs[1..]
  }

  lemma StepComma(cur: string, s: string)
    requires |s| > 0 && s[0] == ','
    ensures Continue(cur, Fields(s, false)) == [cur] + Continue("", Fields(s[1..], false))
  {
    var rest := Fields(s[1..], false);
    assert Fields(s, false) == [[]] + rest;
    assert cur + [] == cur && "" + rest[0] == rest[0];
    assert ([[]] + rest)[1..] == rest;
    assert [rest[0]] + rest[1..] == rest;
  }

  lemma StepChar(cur: string, s: string, q: bool)
    requires |s| > 0 && s[0] != '"' && !(s[0] == ',' && !q)
    ensures Continue(cur, Fields(s, q)) == Continue(cur + [s[0]], Fields(s[1..], q))
  {
    var rest := Fields(s[1..], q);
    assert Fields(s, q) == [[s[0]] + rest[0]] + rest[1..];
    assert cur + ([s[0]] + rest[0]) == (cur + [s[0]]) + rest[0];
  }

  /**
   * The character loop of the fallback reader: the fields it appends for one line are the
   * line's fields with the last one stripped, and none of them holds a double quote.
   */
  method ScanLine(line: string) returns (fields: seq<string>)
    ensures fields == Finished(Fields(line, false))
  {
    fields := [];
    var current := "";
    var inQuotes := false;
    var i := 0;
    assert line[0..] == line;
    ghost var all := Fields(line, false);
    assert Continue(current, all) == all by {
      assert current + all[0] == all[0];
      assert [all[0]] + all[1..] == all;
    }
    while i < |line|
      invariant 0 <= i <= |line|
      invariant fields + Continue(current, Fields(line[i..], inQuotes)) == all
      invariant '"' !in current
    {
      var c := line[i];
      assert line[i..][0] == c && line[i..][1..] == line[i + 1..];
      if c == '"' && !inQuotes {
        inQuotes := true;
      } else if c == '"' && inQuotes {
        inQuotes := false;
      } else if c == ',' && !inQuotes {
        StepComma(current, line[i..]);
        fields := fields + [StripQuotes(current)];
        current := "";
      } else {
        StepChar(current, line[i..], inQuotes);
        current := current + [c];
      }
      i := i + 1;
    }
    assert line[i..] == [];
    assert all == fields + [current] by {
      assert current + [] == current;
    }
    fields := fields + [StripQuotes(Strip(current))];
  }

  /**
   * One data line as the fallback stores it under a header of `width` names: the row has
   * exactly `width` fields, none holds a double quote, and they are the line's fields
   * (the last one stripped) padded with empty fields or cut to the header's width.
   */
  method SplitRow(line: string, width: nat) returns (fields: seq<string>)
    ensures |fields| == width
    ensures forall i :: 0 <= i < |fields| ==> '"' !in fields[i]
    ensures fields == RowFields(line, width)
  {
    fields := ScanLine(line);
    ghost var start := fields;
    while |fields| < width
      invariant |fields| >= |start|
      invariant fields == start + seq(|fields| - |start|, _ => "")
    {
      fields := fields + [""];
    }
    fields := fields[..width];
    FieldsHaveNoQuotes(line, false);
    FinishedHasNoQuotes(Fields(line, false));
  }

  /** pd.DataFrame(rows, columns=names): the rows, column by column, as text cells. */
  function FromRows(names: seq<string>, rows: seq<seq<string>>): (f: Frame)
    requires forall r :: 0 <= r < |rows| ==> |rows[r]| == |names|
    ensures WellFormed(f) && f.names == names && f.height == |rows|
    ensures forall j, r :: 0 <= j < |names| && 0 <= r < |rows| ==> f.columns[j][r] == Val(rows[r][j])
  {
    Frame(names, seq(|names|, j requires 0 <= j < |names| => seq(|rows|, r requires 0 <= r < |rows| => Val(rows[r][j]))), |rows|)
  }

  /**
   * The frame the fallback reader builds from a file's first line and its remaining lines:
   * the header's names, and one row of text cells per data line, fitted to the header.
   */
  function FallbackFrame(headerLine: string, dataLines: seq<string>): (f: Frame)
    ensures NoMissing(f) && f.names == HeaderNames(headerLine) && f.height == |dataLines|
    ensures forall j, r :: 0 <= j < |f.names| && 0 <= r < |dataLines| ==>
      f.columns[j][r] == Val(RowFields(dataLines[r], |f.names|)[j])
  {
    var header := HeaderNames(headerLine);
    var rows := seq(|dataLines|, r requires 0 <= r < |dataLines| => RowFields(dataLines[r], |header|));
    FromRowsNoMissing(header, rows);
    FromRows(header, rows)
  }

  /**
   * The fallback reader over a file's first line and its remaining lines. Every data line
   * becomes one row of text cells under the header's names; no cell is missing.
   */
  method ReadFallback(headerLine: string, dataLines: seq<string>) returns (f: Frame)
    ensures f == FallbackFrame(headerLine, dataLines)
    ensures WellFormed(f) && NoMissing(f)
    ensures f.names == HeaderNames(headerLine) && f.height == |dataLines|
    ensures forall j, r :: 0 <= j < |f.names| && 0 <= r < |dataLines| ==>
      f.columns[j][r] == Val(RowFields(dataLines[r], |f.names|)[j])
  {
    var header := HeaderNames(headerLine);
    var rows := SplitRows(dataLines, |header|);
    assert rows == seq(|dataLines|, r requires 0 <= r < |dataLines| => RowFields(dataLines[r], |header|));
    f := FromRows(header, rows);
    FromRowsNoMissing(header, rows);
  }

  /** The loop over the data lines: one row of `width` fields per line, in order. */
  method SplitRows(dataLines: seq<string>, width: nat) returns (rows: seq<seq<string>>)
    ensures |rows| == |dataLines|
    ensures forall r :: 0 <= r < |rows| ==> rows[r] == RowFields(dataLines[r], width) && |rows[r]| == width
  {
    rows := [];
    var n := 0;
    while n < |dataLines|
      invariant 0 <= n <= |dataLines| && |rows| == n
      invariant forall r :: 0 <= r < n ==> rows[r] == RowFields(dataLines[r], width) && |rows[r]| == width
    {
      var fields := SplitRow(dataLines[n], width);
      rows := rows + [fields];
      n := n + 1;
    }
  }

  /** Every cell the rows give is present text. */
  lemma FromRowsNoMissing(names: seq<string>, rows: seq<seq<string>>)
    requires forall r :: 0 <= r < |rows| ==> |rows[r]| == |names|
    ensures NoMissing(FromRows(names, rows))
  {
    var f := FromRows(names, rows);
    forall j, i | 0 <= j < |f.columns| && 0 <= i < f.height ensures f.columns[j][i] != NA {
      assert f.columns[j][i] == Val(rows[i][j]);
    }
  }
}
