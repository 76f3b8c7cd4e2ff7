/**
 * Cluster sizes from a column of cluster labels: the labels that occur with their counts
 * (np.unique with return_counts, or value_counts), their total, and the "small cluster"
 * rule the analyzers share.
 */
module Clusters {
  import opened Counting

  /** The labels below m that occur, ascending, each with its count. */
  function SizesList(labels: seq<int>, m: nat): seq<(int, nat)> {
    if m == 0 then []
    else
      var c := Count(labels, m - 1);
      SizesList(labels, m - 1) + (if c > 0 then [(m - 1, c)] else [])
  }

  lemma {:induction false} SizesListEntries(labels: seq<int>, m: nat)
    ensures forall i :: 0 <= i < |SizesList(labels, m)| ==>
      0 <= SizesList(labels, m)[i].0 < m && SizesList(labels, m)[i].1 == Count(labels, SizesList(labels, m)[i].0) &&
      SizesList(labels, m)[i].1 > 0
  {
    if m > 0 {
      var prev := SizesList(labels, m - 1);
      var r := SizesList(labels, m);
      SizesListEntries(labels, m - 1);
      forall i | 0 <= i < |r| ensures 0 <= r[i].0 < m && r[i].1 == Count(labels, r[i].0) && r[i].1 > 0 {
        if i < |prev| {
          assert r[i] == prev[i];
          assert 0 <= prev[i].0 < m - 1;
        } else {
          assert r[i] == (m - 1, Count(labels, m - 1));
          assert Count(labels, m - 1) > 0;
        }
      }
    }
  }

  lemma {:induction false} SizesListAscending(labels: seq<int>, m: nat)
    ensures forall i, j :: 0 <= i < j < |SizesList(labels, m)| ==> SizesList(labels, m)[i].0 < SizesList(labels, m)[j].0
  {
    if m > 0 {
      var prev := SizesList(labels, m - 1);
      var r := SizesList(labels, m);
      SizesListEntries(labels, m - 1);
      SizesListAscending(labels, m - 1);
      forall i, j | 0 <= i < j < |r| ensures r[i].0 < r[j].0 {
        assert r[i] == prev[i];
        if j < |prev| {
          assert r[j] == prev[j];
        } else {
          assert r[j].0 == m - 1;
        }
      }
    }
  }

  /** np.unique(labels, return_counts=True) restricted to labels below m, ascending. */
  function SizesBelow(labels: seq<int>, m: nat): (r: seq<(int, nat)>)
    ensures forall i :: 0 <= i < |r| ==> 0 <= r[i].0 < m && r[i].1 == Count(labels, r[i].0) && r[i].1 > 0
    ensures forall i, j :: 0 <= i < j < |r| ==> r[i].0 < r[j].0
  {
    SizesListEntries(labels, m);
    SizesListAscending(labels, m);
    SizesList(labels, m)
  }

  /** Every label below m that occurs has its entry. */
  lemma {:induction false} SizesBelowComplete(labels: seq<int>, m: nat, l: int)
    requires 0 <= l < m && l in labels
    ensures (l, Count(labels, l)) in SizesBelow(labels, m)
  {
    if l < m - 1 {
      SizesBelowComplete(labels, m - 1, l);
    }
  }

  /** The sum of the counts of a list of entries. */
  function SumCounts(r: seq<(int, nat)>): nat {
    if r == [] then 0 else SumCounts(r[..|r| - 1]) + r[|r| - 1].1
  }

  lemma SumCountsAppendOne(prev: seq<(int, nat)>, tail: seq<(int, nat)>)
    requires |tail| <= 1
    ensures SumCounts(prev + tail) == SumCounts(prev) + (if tail == [] then 0 else tail[0].1)
  {
    if tail == [] {
      assert prev + tail == prev;
    } else {
      assert (prev + tail)[..|prev|] == prev;
    }
  }

  /** Number of labels below m. */
  function CountBelow(labels: seq<int>, m: int): (n: nat)
    ensures n <= |labels|
  {
    if labels == [] then 0 else (if labels[0] < m then 1 else 0) + CountBelow(labels[1..], m)
  }

  lemma {:induction false} CountBelowStep(labels: seq<int>, m: int)
    ensures CountBelow(labels, m) == CountBelow(labels, m - 1) + Count(labels, m - 1)
  {
    if labels != [] {
      CountBelowStep(labels[1..], m);
    }
  }

  lemma {:induction false} CountBelowAll(labels: seq<int>, m: int)
    requires forall i :: 0 <= i < |labels| ==> labels[i] < m
    ensures CountBelow(labels, m) == |labels|
  {
    if labels != [] {
      CountBelowAll(labels[1..], m);
    }
  }

  /** All labels lie below m exactly when m bounds the count of every one of them. */
  lemma {:induction false} CountBelowAllIff(labels: seq<int>, m: int)
    ensures CountBelow(labels, m) == |labels| <==> forall i :: 0 <= i < |labels| ==> labels[i] < m
  {
    if labels != [] {
      CountBelowAllIff(labels[1..], m);
      assert forall i :: 1 <= i < |labels| ==> labels[i] == labels[1..][i - 1];
    }
  }

  lemma {:induction false} CountBelowZero(labels: seq<int>)
    requires forall i :: 0 <= i < |labels| ==> labels[i] >= 0
    ensures CountBelow(labels, 0) == 0
  {
    if labels != [] {
      CountBelowZero(labels[1..]);
    }
  }

  lemma {:induction false} SumCountsBelow(labels: seq<int>, m: nat)
    requires forall i :: 0 <= i < |labels| ==> labels[i] >= 0
    ensures SumCounts(SizesList(labels, m)) == CountBelow(labels, m)
  {
    if m == 0 {
      CountBelowZero(labels);
    } else {
      SumCountsBelow(labels, m - 1);
      SumCountsBelowStep(labels, m);
    }
  }

  lemma SumCountsBelowStep(labels: seq<int>, m: nat)
    requires m > 0 && SumCounts(SizesList(labels, m - 1)) == CountBelow(labels, m - 1)
    ensures SumCounts(SizesList(labels, m)) == CountBelow(labels, m)
  {
    var c := Count(labels, m - 1);
    var tail: seq<(int, nat)> := if c > 0 then [(m - 1, c)] else [];
    SumCountsAppendOne(SizesList(labels, m - 1), tail);
    CountBelowStep(labels, m);
  }

  /** When every label is a cluster id below k, the reported cluster sizes sum to the number of packets. */
  lemma ClusterSizesSum(labels: seq<int>, k: nat)
    requires forall i :: 0 <= i < |labels| ==> 0 <= labels[i] < k
    ensures SumCounts(SizesBelow(labels, k)) == |labels|
  {
    SumCountsBelow(labels, k);
    CountBelowAll(labels, k);
  }

  /**
   * count < total * 0.05 for a cluster of `count` packets out of `total`. For whole counts
   * this is exactly 20 * count < total, since 0.05 as a double exceeds 1/20 by a relative
   * 2^-54 and the product rounds back to the integer when total is a multiple of 20.
   */
  predicate IsSmall(count: nat, total: nat) {
    20 * count < total
  }

  /** The labels of the small clusters among the entries, in their order. */
  function SmallOf(sizes: seq<(int, nat)>, total: nat): (r: seq<int>)
    ensures forall l :: l in r <==> exists e :: e in sizes && e.0 == l && IsSmall(e.1, total)
  {
    if sizes == [] then []
    else
      var init := SmallOf(sizes[..|sizes| - 1], total);
      var e := sizes[|sizes| - 1];
      assert forall x :: x in sizes <==> x in sizes[..|sizes| - 1] || x == e by {
        assert sizes == sizes[..|sizes| - 1] + [e];
      }
      init + (if IsSmall(e.1, total) then [e.0] else [])
  }
}
