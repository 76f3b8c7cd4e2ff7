/**
 * Counting and ordering over columns: occurrence counts, the distinct values of a
 * column, the "most frequent first" order of pandas' value_counts(), its first n
 * entries, and the minimum, maximum and sum of a column of reals.
 */
module Counting {

  /** Number of occurrences of `x` in `s`. */
  function Count<T(==)>(s: seq<T>, x: T): (n: nat)
    ensures n <= |s|
    ensures n > 0 <==> x in s
  {
    if s == [] then 0 else (if s[0] == x then 1 else 0) + Count(s[1..], x)
  }

  lemma {:induction false} CountAppend<T>(a: seq<T>, b: seq<T>, x: T)
    ensures Count(a + b, x) == Count(a, x) + Count(b, x)
  {
    if a != [] {
      assert (a + b)[1..] == a[1..] + b;
      assert (a + b)[0] == a[0];
      CountAppend(a[1..], b, x);
    } else {
      assert a + b == b;
    }
  }

  lemma CountSnoc<T>(s: seq<T>, y: T, x: T)
    ensures Count(s + [y], x) == Count(s, x) + (if y == x then 1 else 0)
  {
    CountAppend(s, [y], x);
  }

  /** Position of the first occurrence of `n` in `names`, or |names| when there is none. */
  function IndexOf<T(==)>(names: seq<T>, n: T): (k: nat)
    ensures k <= |names|
    ensures k < |names| <==> n in names
    ensures k < |names| ==> names[k] == n
    ensures forall j :: 0 <= j < k ==> names[j] != n
  {
    if names == [] then 0 else if names[0] == n then 0 else 1 + IndexOf(names[1..], n)
  }

  lemma {:induction false} IndexOfAppend<T>(names: seq<T>, extra: seq<T>, n: T)
    requires n in names
    ensures IndexOf(names + extra, n) == IndexOf(names, n)
  {
    if names[0] != n {
      assert (names + extra)[1..] == names[1..] + extra;
      IndexOfAppend(names[1..], extra, n);
    }
  }

  lemma {:induction false} IndexOfAppendNew<T>(names: seq<T>, extra: seq<T>, n: T)
    requires n !in names
    ensures IndexOf(names + extra, n) == |names| + IndexOf(extra, n)
  {
    if names == [] {
      assert names + extra == extra;
    } else {
      assert (names + extra)[1..] == names[1..] + extra;
      IndexOfAppendNew(names[1..], extra, n);
    }
  }

  predicate NoDuplicates<T(==)>(s: seq<T>) {
    forall i, j :: 0 <= i < j < |s| ==> s[i] != s[j]
  }

  /** The distinct values of `s`, in order of first occurrence. */
  function Distinct<T(==,!new)>(s: seq<T>): (r: seq<T>)
    ensures NoDuplicates(r)
    ensures forall x :: x in r <==> x in s
    ensures |r| <= |s|
  {
    if s == [] then []
    else
      var d := Distinct(s[..|s| - 1]);
      assert s == s[..|s| - 1] + [s[|s| - 1]];
      if s[|s| - 1] in d then d else d + [s[|s| - 1]]
  }

  /** Dropping the last entry of a sequence without duplicates leaves one, without that entry. */
  lemma NoDuplicatesInit<T>(s: seq<T>)
    requires NoDuplicates(s) && s != []
    ensures NoDuplicates(s[..|s| - 1]) && s[|s| - 1] !in s[..|s| - 1]
  {
    var p := s[..|s| - 1];
    forall i, j | 0 <= i < j < |p| ensures p[i] != p[j] {
      assert p[i] == s[i] && p[j] == s[j];
    }
    forall i | 0 <= i < |p| ensures p[i] != s[|s| - 1] {
      assert p[i] == s[i];
    }
  }

  /** A sequence without duplicates is its own list of distinct values. */
  lemma {:induction false} DistinctOfNoDuplicates<T(!new)>(s: seq<T>)
    requires NoDuplicates(s)
    ensures Distinct(s) == s
  {
    if s != [] {
      var p := s[..|s| - 1];
      NoDuplicatesInit(s);
      DistinctOfNoDuplicates(p);
      assert s == p + [s[|s| - 1]];
    }
  }

  /** A sequence without duplicates has as many entries as it has values. */
  lemma {:induction false} NoDuplicatesCard<T>(s: seq<T>)
    requires NoDuplicates(s)
    ensures |(set x | x in s)| == |s|
  {
    if s != [] {
      var p := s[..|s| - 1];
      NoDuplicatesInit(s);
      NoDuplicatesCard(p);
      assert s == p + [s[|s| - 1]];
      assert (set x | x in s) == (set x | x in p) + {s[|s| - 1]};
    }
  }

  /** Two sequences without duplicates that hold the same values are equally long. */
  lemma SameValuesSameLength<T>(a: seq<T>, b: seq<T>)
    requires NoDuplicates(a) && NoDuplicates(b) && forall x :: x in a <==> x in b
    ensures |a| == |b|
  {
    NoDuplicatesCard(a);
    NoDuplicatesCard(b);
    assert (set x | x in a) == (set x | x in b);
  }

  /** Every entry of `order` occurs at least as often in `s` as every later entry. */
  predicate NonIncreasing<T(==)>(s: seq<T>, order: seq<T>) {
    forall i, j :: 0 <= i < j < |order| ==> Count(s, order[i]) >= Count(s, order[j])
  }

  /** In a nonincreasing order, a strictly more frequent entry comes strictly earlier. */
  lemma RankedBefore<T>(s: seq<T>, order: seq<T>, i: nat, j: nat)
    requires NonIncreasing(s, order) && i < |order| && j < |order|
    requires Count(s, order[i]) > Count(s, order[j])
    ensures i < j
  {
  }

  /**
   * `order` is an index pandas' value_counts() may return for `s`: each distinct value
   * once, more frequent values first. The order among equally frequent values is left open.
   */
  ghost predicate IsCountOrder<T(!new)>(s: seq<T>, order: seq<T>) {
    NoDuplicates(order) && (forall x :: x in order <==> x in s) && NonIncreasing(s, order)
  }

  function InsertByCount<T(==,!new)>(s: seq<T>, x: T, sorted: seq<T>): (r: seq<T>)
    ensures |r| == |sorted| + 1
    ensures forall y :: y in r <==> y == x || y in sorted
    ensures r[0] == x || (sorted != [] && r[0] == sorted[0])
    ensures NoDuplicates(sorted) && x !in sorted ==> NoDuplicates(r)
    ensures NonIncreasing(s, sorted) ==> NonIncreasing(s, r)
  {
    if sorted == [] || Count(s, sorted[0]) < Count(s, x) then [x] + sorted
    else
      var rest := InsertByCount(s, x, sorted[1..]);
      assert NoDuplicates(sorted) && x !in sorted ==> sorted[0] !in rest by {
        if NoDuplicates(sorted) && x !in sorted {
          assert forall k :: 1 <= k < |sorted| ==> sorted[k] != sorted[0];
        }
      }
      [sorted[0]] + rest
  }

  /** A stable insertion sort of `xs` by decreasing number of occurrences in `s`. */
  function SortByCount<T(==,!new)>(s: seq<T>, xs: seq<T>): (r: seq<T>)
    ensures forall y :: y in r <==> y in xs
    ensures NoDuplicates(xs) ==> NoDuplicates(r)
    ensures NonIncreasing(s, r)
  {
    if xs == [] then [] else InsertByCount(s, xs[0], SortByCount(s, xs[1..]))
  }

  /** One value_counts() index: distinct values by decreasing count, ties by first occurrence. */
  function ValueCounts<T(==,!new)>(s: seq<T>): seq<T> {
    SortByCount(s, Distinct(s))
  }

  lemma ValueCountsIsCountOrder<T(!new)>(s: seq<T>)
    ensures IsCountOrder(s, ValueCounts(s))
  {
  }

  /** value_counts().head(n): the first n values of `order` with their counts. */
  function TopCounts<T(==)>(s: seq<T>, order: seq<T>, n: nat): (r: seq<(T, nat)>)
    ensures |r| == if n < |order| then n else |order|
  {
    var m := if n < |order| then n else |order|;
    seq(m, i requires 0 <= i < m => (order[i], Count(s, order[i])))
  }

  /**
   * For any value_counts() order, head(n) reports min(n, number of distinct values)
   * distinct values of `s`, each with its exact count, most frequent first, and no value
   * left out occurs more often than a reported one.
   */
  lemma {:induction false} TopCountsSound<T(!new)>(s: seq<T>, order: seq<T>, n: nat)
    requires IsCountOrder(s, order)
    ensures var r := TopCounts(s, order, n);
      && |r| <= n
      && |r| == (if n < |Distinct(s)| then n else |Distinct(s)|)
      && (forall i :: 0 <= i < |r| ==> r[i].0 in s && r[i].1 == Count(s, r[i].0))
      && (forall i, j :: 0 <= i < j < |r| ==> r[i].0 != r[j].0 && r[i].1 >= r[j].1)
      && (forall x, i :: x in s && 0 <= i < |r| && (forall k :: 0 <= k < |r| ==> r[k].0 != x)
            ==> Count(s, x) <= r[i].1)
  {
    var r := TopCounts(s, order, n);
    SameValuesSameLength(order, Distinct(s));
    forall x, i | x in s && 0 <= i < |r| && (forall k :: 0 <= k < |r| ==> r[k].0 != x)
      ensures Count(s, x) <= r[i].1
    {
      assert x in order;
      var j :| 0 <= j < |order| && order[j] == x;
      assert forall k :: 0 <= k < |r| ==> order[k] != x by {
        forall k | 0 <= k < |r| ensures order[k] != x {
          assert r[k].0 == order[k];
        }
      }
      assert i < j;
    }
  }

  // ----- columns of reals -----------------------------------------------------

  /** np.min of a non-empty column. */
  function MinOf(s: seq<real>): (r: real)
    requires |s| > 0
    ensures forall i :: 0 <= i < |s| ==> r <= s[i]
    ensures r in s
  {
    if |s| == 1 then s[0]
    else
      var m := MinOf(s[1..]);
      if s[0] <= m then s[0] else m
  }

  /** np.max of a non-empty column. */
  function MaxOf(s: seq<real>): (r: real)
    requires |s| > 0
    ensures forall i :: 0 <= i < |s| ==> s[i] <= r
    ensures r in s
  {
    if |s| == 1 then s[0]
    else
      var m := MaxOf(s[1..]);
      if s[0] >= m then s[0] else m
  }

  function Sum(s: seq<real>): real {
    if s == [] then 0.0 else s[0] + Sum(s[1..])
  }

  lemma {:induction false} SumAppend(a: seq<real>, b: seq<real>)
    ensures Sum(a + b) == Sum(a) + Sum(b)
  {
    if a != [] {
      assert (a + b)[1..] == a[1..] + b;
      assert Sum(a + b) == a[0] + Sum(a[1..] + b);
      SumAppend(a[1..], b);
    } else {
      assert a + b == b;
    }
  }

  /** Number of entries of `s` strictly above `t` (np.sum(s > t)). */
  function CountAbove(s: seq<real>, t: real): (n: nat)
    ensures n <= |s|
    ensures n == 0 <==> forall i :: 0 <= i < |s| ==> s[i] <= t
    ensures n == |s| <==> forall i :: 0 <= i < |s| ==> s[i] > t
  {
    if s == [] then 0 else (if s[0] > t then 1 else 0) + CountAbove(s[1..], t)
  }

  lemma CountAboveSnoc(s: seq<real>, x: real, t: real)
    ensures CountAbove(s + [x], t) == CountAbove(s, t) + (if x > t then 1 else 0)
  {
    if s != [] {
      assert (s + [x])[1..] == s[1..] + [x];
      CountAboveSnoc(s[1..], x, t);
    }
  }

  /** The positions at which `p` holds, ascending (the index of df[mask]). */
  function WhereList(p: seq<bool>): seq<nat> {
    if p == [] then []
    else WhereList(p[..|p| - 1]) + (if p[|p| - 1] then [|p| - 1] else [])
  }

  lemma {:induction false} WhereListSpec(p: seq<bool>)
    ensures forall i: nat :: i in WhereList(p) <==> i < |p| && p[i]
    ensures forall a :: 0 <= a < |WhereList(p)| ==> WhereList(p)[a] < |p|
  {
    if p != [] {
      var init := p[..|p| - 1];
      WhereListSpec(init);
      assert forall i :: 0 <= i < |init| ==> init[i] == p[i];
    }
  }

  lemma {:induction false} WhereListAscending(p: seq<bool>)
    ensures forall a, b :: 0 <= a < b < |WhereList(p)| ==> WhereList(p)[a] < WhereList(p)[b]
  {
    if p != [] {
      var init := p[..|p| - 1];
      var r := WhereList(p);
      WhereListSpec(init);
      WhereListAscending(init);
      forall a, b | 0 <= a < b < |r| ensures r[a] < r[b] {
        assert r[a] == WhereList(init)[a];
        if b < |WhereList(init)| {
          assert r[b] == WhereList(init)[b];
        } else {
          assert r[b] == |p| - 1;
        }
      }
    }
  }

  function Where(p: seq<bool>): (r: seq<nat>)
    ensures forall i: nat :: i in r <==> i < |p| && p[i]
    ensures forall a, b :: 0 <= a < b < |r| ==> r[a] < r[b]
    ensures forall a :: 0 <= a < |r| ==> r[a] < |p|
  {
    WhereListSpec(p);
    WhereListAscending(p);
    WhereList(p)
  }
}
