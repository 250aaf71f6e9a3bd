/** The categorical branch of the plot command: value counts of a column,
    sorted by count descending, truncated to the first fifteen. */
module ValueCounts {
  import opened Outcomes
  import Columns

  /** Number of bars the categorical chart shows at most (head(15)). */
  const BarLimit: nat := 15

  /** Counts never increase along the sequence. */
  ghost predicate ByCountDesc<T>(s: seq<(T, nat)>) {
    forall i, j :: 0 <= i < j < |s| ==> s[i].1 >= s[j].1
  }

  /** No value labels two entries. */
  ghost predicate UniqueLabels<T>(s: seq<(T, nat)>) {
    forall i, j :: 0 <= i < j < |s| ==> s[i].0 != s[j].0
  }

  /** The distinct values of xs, in order of first occurrence. */
  function Distinct<T(==)>(xs: seq<T>): (d: seq<T>)
    ensures forall i, j :: 0 <= i < j < |d| ==> d[i] != d[j]
    ensures forall i :: 0 <= i < |d| ==> d[i] in xs
    ensures forall i :: 0 <= i < |xs| ==> xs[i] in d
  {
    if |xs| == 0 then []
    else
      var init := xs[..|xs| - 1];
      var d := Distinct(init);
      assert xs == init + [xs[|xs| - 1]];
      if xs[|xs| - 1] in d then d else d + [xs[|xs| - 1]]
  }

  /** One (value, count) pair per distinct value: polars value_counts. */
  function Tally<T(==)>(xs: seq<T>): (ps: seq<(T, nat)>)
    ensures |ps| == |Distinct(xs)|
    ensures forall i :: 0 <= i < |ps| ==> ps[i].0 in xs && ps[i].1 == Columns.Count(xs, ps[i].0)
    ensures UniqueLabels(ps)
    ensures forall i :: 0 <= i < |xs| ==> (xs[i], Columns.Count(xs, xs[i])) in ps
  {
    var d := Distinct(xs);
    var ps := seq(|d|, k requires 0 <= k < |d| => (d[k], Columns.Count(xs, d[k])));
    assert forall i :: 0 <= i < |xs| ==> (xs[i], Columns.Count(xs, xs[i])) in ps by {
      forall i | 0 <= i < |xs|
        ensures (xs[i], Columns.Count(xs, xs[i])) in ps
      {
        var k :| 0 <= k < |d| && d[k] == xs[i];
        assert ps[k] == (xs[i], Columns.Count(xs, xs[i]));
      }
    }
    ps
  }

  /** Inserts p into a list sorted by count descending, in front of the
      first entry whose count it reaches (so earlier entries win ties). */
  function Insert<T>(p: (T, nat), s: seq<(T, nat)>): (r: seq<(T, nat)>)
    requires ByCountDesc(s)
    ensures ByCountDesc(r)
    ensures |r| == |s| + 1
    ensures multiset(r) == multiset(s) + multiset{p}
  {
    if |s| == 0 then [p]
    else if p.1 >= s[0].1 then [p] + s
    else
      var rest := Insert(p, s[1..]);
      var r := [s[0]] + rest;
      assert s == [s[0]] + s[1..];
      assert ByCountDesc(r) by {
        forall i | 0 <= i < |rest|
          ensures rest[i].1 <= s[0].1
        {
          var k := AddedOrKept(rest[i], rest, s[1..], p);
          if k < |s[1..]| {
            assert s[k + 1] == rest[i];
          }
        }
        assert forall j :: 0 < j < |r| ==> r[j] == rest[j - 1];
      }
      r
  }

  /** An entry of a list holding the pairs of s and one more pair p is p
      or an entry of s; k is its position in s, or |s| when it is p. */
  lemma AddedOrKept<T>(q: (T, nat), r: seq<(T, nat)>, s: seq<(T, nat)>, p: (T, nat)) returns (k: nat)
    requires multiset(r) == multiset(s) + multiset{p} && q in r
    ensures k <= |s|
    ensures k < |s| ==> s[k] == q
    ensures k == |s| ==> q == p
  {
    assert q in multiset(r);
    if q == p {
      k := |s|;
    } else {
      assert q in multiset(s);
      k :| 0 <= k < |s| && s[k] == q;
    }
  }

  /** A stable sort of the pairs by count, largest first. */
  function SortByCountDesc<T>(ps: seq<(T, nat)>): (r: seq<(T, nat)>)
    ensures ByCountDesc(r)
    ensures |r| == |ps|
    ensures multiset(r) == multiset(ps)
  {
    if |ps| == 0 then []
    else
      assert ps == [ps[0]] + ps[1..];
      Insert(ps[0], SortByCountDesc(ps[1..]))
  }

  /** Sorting neither adds nor drops a pair. */
  lemma SortSameMembers<T>(ps: seq<(T, nat)>, q: (T, nat))
    ensures q in SortByCountDesc(ps) <==> q in ps
  {
    var r := SortByCountDesc(ps);
    assert q in r <==> q in multiset(r);
    assert q in ps <==> q in multiset(ps);
  }

  /** Sorting a list whose labels are unique keeps them unique: the sorted
      list holds the same pairs, each once. */
  lemma {:induction false} SortKeepsUniqueLabels<T>(ps: seq<(T, nat)>)
    requires UniqueLabels(ps)
    ensures UniqueLabels(SortByCountDesc(ps))
    decreases |ps|
  {
    if |ps| > 0 {
      var rest := SortByCountDesc(ps[1..]);
      SortKeepsUniqueLabels(ps[1..]);
      assert forall q :: q in rest ==> q.0 != ps[0].0 by {
        forall q | q in rest
          ensures q.0 != ps[0].0
        {
          SortSameMembers(ps[1..], q);
          var k :| 0 <= k < |ps[1..]| && ps[1..][k] == q;
          assert ps[k + 1] == q;
        }
      }
      InsertKeepsUniqueLabels(ps[0], rest);
    }
  }

  lemma {:induction false} InsertKeepsUniqueLabels<T>(p: (T, nat), s: seq<(T, nat)>)
    requires ByCountDesc(s) && UniqueLabels(s)
    requires forall q :: q in s ==> q.0 != p.0
    ensures UniqueLabels(Insert(p, s))
    decreases |s|
  {
    if |s| > 0 && p.1 < s[0].1 {
      var rest := Insert(p, s[1..]);
      InsertKeepsUniqueLabels(p, s[1..]);
      var r := Insert(p, s);
      assert r == [s[0]] + rest;
      forall i, j | 0 <= i < j < |r|
        ensures r[i].0 != r[j].0
      {
        if i == 0 {
          var k := AddedOrKept(r[j], rest, s[1..], p);
          if k < |s[1..]| {
            assert s[k + 1] == r[j];
          }
        } else {
          assert r[i] == rest[i - 1] && r[j] == rest[j - 1];
        }
      }
    }
  }

  /** The bars of the categorical chart: value counts sorted by count
      descending, first BarLimit of them. */
  function TopCounts<T(==)>(xs: seq<T>): (r: seq<(T, nat)>)
    ensures |r| == Columns.Min(BarLimit, |Distinct(xs)|)
    ensures ByCountDesc(r)
    ensures UniqueLabels(r)
    ensures forall i :: 0 <= i < |r| ==> r[i].0 in xs && r[i].1 == Columns.Count(xs, r[i].0)
  {
    var t := Tally(xs);
    var s := SortByCountDesc(t);
    SortKeepsUniqueLabels(t);
    SortedTallyCounts(xs, s);
    s[..Columns.Min(BarLimit, |s|)]
  }

  /** Every pair of the sorted tally is a value of xs with its count. */
  lemma SortedTallyCounts<T>(xs: seq<T>, s: seq<(T, nat)>)
    requires s == SortByCountDesc(Tally(xs))
    ensures forall i :: 0 <= i < |s| ==> s[i].0 in xs && s[i].1 == Columns.Count(xs, s[i].0)
  {
    var t := Tally(xs);
    forall i | 0 <= i < |s|
      ensures s[i].0 in xs && s[i].1 == Columns.Count(xs, s[i].0)
    {
      SortSameMembers(t, s[i]);
      var k :| 0 <= k < |t| && t[k] == s[i];
    }
  }

  /** Where a value's pair sits in the sorted tally. */
  lemma PositionInSorted<T>(xs: seq<T>, v: T) returns (j: nat)
    requires v in xs
    ensures j < |SortByCountDesc(Tally(xs))|
    ensures SortByCountDesc(Tally(xs))[j] == (v, Columns.Count(xs, v))
  {
    var t := Tally(xs);
    var p := (v, Columns.Count(xs, v));
    var k :| 0 <= k < |xs| && xs[k] == v;
    assert p in t;
    SortSameMembers(t, p);
    var s := SortByCountDesc(t);
    j :| 0 <= j < |s| && s[j] == p;
  }

  /** In a list sorted by count descending, every entry before position n
      counts at least as much as any entry from n on. */
  lemma PrefixDominatesSuffix<T>(s: seq<(T, nat)>, n: nat, j: nat)
    requires ByCountDesc(s) && n <= j < |s|
    ensures forall i :: 0 <= i < n ==> s[i].1 >= s[j].1
  {
  }

  /** A value left off the chart occurs no more often than any value shown:
      the chart holds the most frequent values. */
  lemma TopCountsDominate<T>(xs: seq<T>, v: T)
    requires v in xs
    requires forall i :: 0 <= i < |TopCounts(xs)| ==> TopCounts(xs)[i].0 != v
    ensures forall i :: 0 <= i < |TopCounts(xs)| ==> TopCounts(xs)[i].1 >= Columns.Count(xs, v)
  {
    var s := SortByCountDesc(Tally(xs));
    var top := TopCounts(xs);
    assert top == s[..|top|];
    var j := PositionInSorted(xs, v);
    assert j >= |top| by {
      assert forall i :: 0 <= i < |top| ==> s[i] == top[i] && s[i].0 != v;
    }
    PrefixDominatesSuffix(s, |top|, j);
    assert forall i :: 0 <= i < |top| ==> top[i] == s[i];
  }

  /** A column with no more distinct values than the limit is shown whole:
      every value gets a bar. */
  lemma FewValuesAllShown<T>(xs: seq<T>, v: T)
    requires |Distinct(xs)| <= BarLimit
    requires v in xs
    ensures (v, Columns.Count(xs, v)) in TopCounts(xs)
  {
    var s := SortByCountDesc(Tally(xs));
    assert TopCounts(xs) == s;
    var j := PositionInSorted(xs, v);
    assert s[j] == (v, Columns.Count(xs, v));
  }
}
