/**
 * Column normalisation of the enhanced backend's CSV processing: the Wireshark export's
 * display names are renamed to internal names, a missing frame number or timestamp column
 * is filled with a running count, and missing cells of the five packet columns get fixed
 * defaults. Both the pandas read and the fallback reader go through these steps.
 */
module EnhancedIngest {
  import opened Wrappers
  import opened Text
  import opened Counting
  import opened Table
  import opened CsvFallback

  /** The seven renames, in the order the program applies them. */
  const Aliases: seq<(string, string)> := [
    ("No.", "frame_number"), ("Time", "timestamp"), ("Source", "src_ip"),
    ("Destination", "dst_ip"), ("Protocol", "protocol"), ("Length", "length"), ("Info", "info")]

  /** One column name after the renames of `pairs` were applied to it one after another. */
  function RenameWith(pairs: seq<(string, string)>, n: string): string {
    if pairs == [] then n
    else
      var m := RenameWith(pairs[..|pairs| - 1], n);
      if m == pairs[|pairs| - 1].0 then pairs[|pairs| - 1].1 else m
  }

  /**
   * When no new name is also an old one and the old names are distinct, applying the
   * renames in sequence maps each old name to its new name and leaves every other name alone.
   */
  lemma {:induction false} RenameWithLookup(pairs: seq<(string, string)>, n: string)
    requires forall i, j :: 0 <= i < |pairs| && 0 <= j < |pairs| ==> pairs[i].1 != pairs[j].0
    requires forall i, j :: 0 <= i < j < |pairs| ==> pairs[i].0 != pairs[j].0
    ensures forall k :: 0 <= k < |pairs| && pairs[k].0 == n ==> RenameWith(pairs, n) == pairs[k].1
    ensures (forall k :: 0 <= k < |pairs| ==> pairs[k].0 != n) ==> RenameWith(pairs, n) == n
  {
    if pairs != [] {
      var init := pairs[..|pairs| - 1];
      var last := pairs[|pairs| - 1];
      RenameWithLookup(init, n);
      assert forall k :: 0 <= k < |init| ==> init[k] == pairs[k];
      if n == last.0 {
        assert forall k :: 0 <= k < |init| ==> init[k].0 != n;
        assert RenameWith(init, n) == n;
      } else {
        forall k | 0 <= k < |init| && init[k].0 == n
          ensures RenameWith(pairs, n) == pairs[k].1
        {
          assert RenameWith(init, n) == pairs[k].1;
          assert pairs[k].1 != last.0;
        }
      }
    }
  }

  /** The internal name a column ends up with. */
  function Alias(n: string): string {
    RenameWith(Aliases, n)
  }

  /** Each of the seven display names present becomes its internal name; others stay. */
  lemma AliasSpec(n: string)
    ensures forall k :: 0 <= k < |Aliases| && Aliases[k].0 == n ==> Alias(n) == Aliases[k].1
    ensures (forall k :: 0 <= k < |Aliases| ==> Aliases[k].0 != n) ==> Alias(n) == n
  {
    RenameWithLookup(Aliases, n);
  }

  /**
   * The rename loop: for each pair, every column called by the old name is renamed. The
   * result renames each column name as Alias does and keeps the number and order of columns.
   */
  method RenameColumns(names: seq<string>) returns (renamed: seq<string>)
    ensures |renamed| == |names|
    ensures forall j :: 0 <= j < |names| ==> renamed[j] == Alias(names[j])
  {
    renamed := names;
    var k := 0;
    while k < |Aliases|
      invariant 0 <= k <= |Aliases| && |renamed| == |names|
      invariant forall j :: 0 <= j < |names| ==> renamed[j] == RenameWith(Aliases[..k], names[j])
    {
      var (oldName, newName) := Aliases[k];
      assert Aliases[..k + 1][..k] == Aliases[..k];
      if oldName in renamed {
        renamed := seq(|renamed|, j requires 0 <= j < |renamed| => if renamed[j] == oldName then newName else renamed[j]);
      }
      k := k + 1;
    }
    assert Aliases[..|Aliases|] == Aliases;
  }

  /** The column of `f` called `n` is added at the end unless one already exists. */
  function AddColumnIfMissing(f: Frame, n: string, col: seq<Cell>): (r: Frame)
    requires WellFormed(f) && |col| == f.height
    ensures WellFormed(r) && r.height == f.height && n in r.names
    ensures n in f.names ==> r == f
    ensures n !in f.names ==> r.names == f.names + [n] && r.columns == f.columns + [col] && Column(r, n) == col
  {
    if n in f.names then f
    else
      var r := Frame(f.names + [n], f.columns + [col], f.height);
      IndexOfAppendNew(f.names, [n], n);
      r
  }

  /** range(start, start + height) as text cells. */
  function Counter(start: nat, height: nat): (col: seq<Cell>)
    ensures |col| == height
    ensures forall r :: 0 <= r < height ==> ToNumeric(col[r]) == Some((start + r) as real)
  {
    var col := seq(height, r requires 0 <= r < height => Val(NatText(start + r)));
    assert forall r :: 0 <= r < height ==> ToNumeric(col[r]) == Some((start + r) as real) by {
      forall r | 0 <= r < height ensures ToNumeric(col[r]) == Some((start + r) as real) {
        ParseNatText(start + r);
      }
    }
    col
  }

  /**
   * A missing frame_number column becomes 1..n and a missing timestamp column 0..n-1;
   * afterwards both exist, and the columns already there are kept as they were.
   */
  function AddDefaults(f: Frame): (r: Frame)
    requires WellFormed(f)
    ensures WellFormed(r) && r.height == f.height
    ensures "frame_number" in r.names && "timestamp" in r.names
    ensures |f.names| <= |r.names| && r.names[..|f.names|] == f.names && r.columns[..|f.names|] == f.columns
    ensures "frame_number" !in f.names ==> forall i :: 0 <= i < f.height ==> ToNumeric(Column(r, "frame_number")[i]) == Some((i + 1) as real)
    ensures "timestamp" !in f.names ==> forall i :: 0 <= i < f.height ==> ToNumeric(Column(r, "timestamp")[i]) == Some(i as real)
  {
    var g := AddColumnIfMissing(f, "frame_number", Counter(1, f.height));
    var r := AddColumnIfMissing(g, "timestamp", Counter(0, f.height));
    assert "frame_number" !in f.names ==> Column(r, "frame_number") == Column(g, "frame_number") by {
      if "frame_number" !in f.names && "timestamp" !in g.names {
        IndexOfAppend(g.names, ["timestamp"], "frame_number");
      }
    }
    r
  }

  /** The fillna defaults: the value a missing cell of each of the five columns receives. */
  function FillValue(n: string): Option<string> {
    if n == "src_ip" || n == "dst_ip" || n == "protocol" then Some("unknown")
    else if n == "length" then Some("0")
    else if n == "info" then Some("")
    else None
  }

  function FillCell(c: Cell, d: Option<string>): Cell {
    if c == NA && d.Some? then Val(d.value) else c
  }

  /**
   * df.fillna({...}): afterwards no cell of the five packet columns is missing; a missing
   * cell of one of them holds its column's default, and every other cell is unchanged.
   */
  function FillMissing(f: Frame): (r: Frame)
    requires WellFormed(f)
    ensures WellFormed(r) && r.names == f.names && r.height == f.height
    ensures forall j, i :: 0 <= j < |f.names| && 0 <= i < f.height ==>
      (FillValue(f.names[j]).Some? ==> r.columns[j][i] != NA) &&
      (f.columns[j][i] != NA || FillValue(f.names[j]).None? ==> r.columns[j][i] == f.columns[j][i]) &&
      (f.columns[j][i] == NA && FillValue(f.names[j]).Some? ==> r.columns[j][i] == Val(FillValue(f.names[j]).value))
  {
    Frame(f.names,
      seq(|f.columns|, j requires 0 <= j < |f.columns| =>
        seq(|f.columns[j]|, i requires 0 <= i < |f.columns[j]| => FillCell(f.columns[j][i], FillValue(f.names[j])))),
      f.height)
  }

  /** Filling twice fills nothing more. */
  lemma FillMissingIdempotent(f: Frame)
    requires WellFormed(f)
    ensures FillMissing(FillMissing(f)) == FillMissing(f)
  {
    var r := FillMissing(f);
    var rr := FillMissing(r);
    assert forall j :: 0 <= j < |r.columns| ==> rr.columns[j] == r.columns[j];
  }

  /** A frame with no missing cell is left as it is by fillna. */
  lemma FillMissingNoop(f: Frame)
    requires NoMissing(f)
    ensures FillMissing(f) == f
  {
    var r := FillMissing(f);
    assert forall j :: 0 <= j < |r.columns| ==> r.columns[j] == f.columns[j];
  }

  /** The frame after renaming, the added range() columns and fillna. */
  function Normalized(f: Frame): (r: Frame)
    requires WellFormed(f)
    ensures WellFormed(r) && r.height == f.height
  {
    var names := seq(|f.names|, j requires 0 <= j < |f.names| => Alias(f.names[j]));
    FillMissing(AddDefaults(Frame(names, f.columns, f.height)))
  }

  /** The three normalisation steps on one frame. */
  method NormalizeColumns(f: Frame) returns (r: Frame)
    requires WellFormed(f)
    ensures r == Normalized(f)
    ensures "frame_number" in r.names && "timestamp" in r.names
  {
    var names := RenameColumns(f.names);
    assert names == seq(|f.names|, j requires 0 <= j < |f.names| => Alias(f.names[j]));
    r := FillMissing(AddDefaults(Frame(names, f.columns, f.height)));
  }

  /**
   * process_wireshark_csv: `pandasRead` is the frame pandas' read_csv produced, None when
   * it raised; `file` is the file's first line and remaining lines, None when it cannot be
   * read. The pandas frame is normalised when there is one; otherwise the fallback reader's
   * frame is (one row per data line, no cell missing), and when the file cannot be read
   * either the result is None.
   */
  method ProcessWiresharkCsv(pandasRead: Option<Frame>, file: Option<(string, seq<string>)>) returns (r: Option<Frame>)
    requires pandasRead.Some? ==> WellFormed(pandasRead.value)
    ensures pandasRead.Some? ==> r == Some(Normalized(pandasRead.value))
    ensures pandasRead.None? ==> (r.Some? <==> file.Some?)
    ensures pandasRead.None? && file.Some? ==> r == Some(Normalized(FallbackFrame(file.value.0, file.value.1)))
    ensures pandasRead.None? && file.Some? ==> r.Some? && r.value.height == |file.value.1| && NoMissing(r.value)
  {
    if pandasRead.Some? {
      var f := NormalizeColumns(pandasRead.value);
      r := Some(f);
    } else if file.Some? {
      var raw := ReadFallback(file.value.0, file.value.1);
      var f := NormalizeColumns(raw);
      FallbackHasNoMissing(raw);
      r := Some(f);
    } else {
      r := None;
    }
  }

  /**
   * The fallback reader never yields a missing cell, and normalising keeps that: the
   * renamed frame has the same cells, the range() columns are text, so fillna changes nothing.
   */
  lemma FallbackHasNoMissing(raw: Frame)
    requires NoMissing(raw)
    ensures NoMissing(Normalized(raw))
  {
    var names := seq(|raw.names|, j requires 0 <= j < |raw.names| => Alias(raw.names[j]));
    var f := Frame(names, raw.columns, raw.height);
    assert NoMissing(f);
    var g1 := AddColumnIfMissing(f, "frame_number", Counter(1, raw.height));
    AddColumnKeepsNoMissing(f, "frame_number", Counter(1, raw.height));
    AddColumnKeepsNoMissing(g1, "timestamp", Counter(0, raw.height));
    FillMissingNoop(AddDefaults(f));
  }

  lemma AddColumnKeepsNoMissing(f: Frame, n: string, col: seq<Cell>)
    requires NoMissing(f) && |col| == f.height && NA !in col
    ensures NoMissing(AddColumnIfMissing(f, n, col))
  {
    var r := AddColumnIfMissing(f, n, col);
    if n !in f.names {
      assert forall j :: 0 <= j < |f.columns| ==> r.columns[j] == f.columns[j];
      assert r.columns[|f.columns|] == col;
    }
  }
}
