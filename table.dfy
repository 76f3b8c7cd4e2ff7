/**
 * A packet table as the analyzers hold it in a pandas DataFrame: named columns of
 * cells, every cell either missing (NaN) or the text the CSV export had there.
 */
module Table {
  import opened Wrappers
  import opened Text
  import opened Counting

  /** One cell: NA is pandas' NaN, which an empty CSV field becomes. */
  datatype Cell = NA | Val(text: string)

  /** Column names in order, one column of cells per name, and the number of rows. */
  datatype Frame = Frame(names: seq<string>, columns: seq<seq<Cell>>, height: nat)

  predicate WellFormed(f: Frame) {
    |f.names| == |f.columns| && forall j :: 0 <= j < |f.columns| ==> |f.columns[j]| == f.height
  }

  /** A well-formed frame none of whose cells is missing. */
  predicate NoMissing(f: Frame) {
    WellFormed(f) && forall j, i :: 0 <= j < |f.columns| && 0 <= i < f.height ==> f.columns[j][i] != NA
  }

  /** df[n]: the cells of the first column called `n`. */
  function Column(f: Frame, n: string): (c: seq<Cell>)
    requires WellFormed(f) && n in f.names
    ensures |c| == f.height
  {
    f.columns[IndexOf(f.names, n)]
  }

  /** Python's str() of a cell. */
  function StrOf(c: Cell): string {
    match c
    case NA => "nan"
    case Val(s) => s
  }

  /** pd.to_numeric(cell, errors='coerce'): None stands for NaN. */
  function ToNumeric(c: Cell): Option<real> {
    match c
    case NA => None
    case Val(s) => ParseNumber(s)
  }

  /** pd.to_numeric(..., errors='coerce').fillna(0) of one cell. */
  function NumericOrZero(c: Cell): real {
    match ToNumeric(c)
    case None => 0.0
    case Some(v) => v
  }

  /** The non-missing cells of a column, in order (what value_counts() counts). */
  function Present(col: seq<Cell>): (r: seq<Cell>)
    ensures forall c :: c in r <==> c in col && c != NA
  {
    if col == [] then [] else (if col[0] == NA then [] else [col[0]]) + Present(col[1..])
  }

  /** astype(int) of a boolean. */
  function Flag(b: bool): (r: int)
    ensures r == 0 || r == 1
    ensures r == 1 <==> b
  {
    if b then 1 else 0
  }

  /** The first of the names `need` that `names` lacks: the KeyError the first lookup raises. */
  function FirstMissing(names: seq<string>, need: seq<string>): (r: Option<string>)
    ensures r.None? <==> forall k :: 0 <= k < |need| ==> need[k] in names
    ensures r.Some? ==> r.value in need && r.value !in names
    ensures r.Some? ==> exists k :: 0 <= k < |need| && need[k] == r.value && forall m :: 0 <= m < k ==> need[m] in names
  {
    if need == [] then None
    else if need[0] !in names then Some(need[0])
    else
      var r := FirstMissing(names, need[1..]);
      assert r.Some? ==> exists k :: 0 <= k < |need| && need[k] == r.value && forall m :: 0 <= m < k ==> need[m] in names by {
        if r.Some? {
          var k :| 0 <= k < |need[1..]| && need[1..][k] == r.value && forall m :: 0 <= m < k ==> need[1..][m] in names;
          assert need[k + 1] == r.value;
        }
      }
      r
  }

  /** [c for c in required if c not in names], in the order of `required`. */
  function MissingList(names: seq<string>, required: seq<string>): seq<string> {
    if required == [] then []
    else (if required[0] in names then [] else [required[0]]) + MissingList(names, required[1..])
  }

  lemma {:induction false} MissingListSpec(names: seq<string>, required: seq<string>)
    ensures |MissingList(names, required)| <= |required|
    ensures forall c :: c in MissingList(names, required) <==> c in required && c !in names
  {
    if required != [] {
      MissingListSpec(names, required[1..]);
      assert required == [required[0]] + required[1..];
    }
  }

  /** The required columns that `names` lacks, in order, with what they are. */
  function MissingColumns(names: seq<string>, required: seq<string>): (r: seq<string>)
    ensures |r| <= |required|
    ensures forall c :: c in r <==> c in required && c !in names
  {
    MissingListSpec(names, required);
    MissingList(names, required)
  }

  /** The numbers of a column that are not NaN, in order. */
  function Parsed(s: seq<Option<real>>): (r: seq<real>)
    ensures |r| <= |s|
    ensures forall x :: x in r <==> Some(x) in s
  {
    if s == [] then [] else (if s[0].Some? then [s[0].value] else []) + Parsed(s[1..])
  }

  /** Series.mean(), which skips NaN; None (NaN) when no number is present. */
  function MeanOf(s: seq<Option<real>>): (r: Option<real>)
    ensures r.None? <==> forall i :: 0 <= i < |s| ==> s[i].None?
  {
    var p := Parsed(s);
    assert p == [] <==> forall i :: 0 <= i < |s| ==> s[i].None? by {
      if p != [] {
        assert Some(p[0]) in s;
      }
    }
    if p == [] then None else Some(Sum(p) / (|p| as real))
  }

  /** Series.max(), which skips NaN; None (NaN) when no number is present. */
  function MaxPresent(s: seq<Option<real>>): (r: Option<real>)
    ensures r.None? <==> forall i :: 0 <= i < |s| ==> s[i].None?
    ensures r.Some? ==> Some(r.value) in s && forall i :: 0 <= i < |s| && s[i].Some? ==> s[i].value <= r.value
  {
    var p := Parsed(s);
    assert p == [] <==> forall i :: 0 <= i < |s| ==> s[i].None? by {
      if p != [] {
        assert Some(p[0]) in s;
      }
    }
    if p == [] then None
    else
      assert forall i :: 0 <= i < |s| && s[i].Some? ==> s[i].value in p;
      Some(MaxOf(p))
  }
}
