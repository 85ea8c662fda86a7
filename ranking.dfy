/** `score_summary.sort_values('match_rate', ascending=False).head(10)`
    (app.py, line 49). pandas' default sort is an unstable quicksort, so the
    order among equal match rates is not fixed: `Rank` is one admissible
    outcome, `IsRanking` describes all of them, and the lemmas show that
    every admissible outcome has the same match rates in the same order. */
module Ranking {
  import opened Scorer

  /** How many rows `head` keeps. */
  const TopN: nat := 10

  predicate NonIncreasing(s: seq<Match>) {
    forall i, j :: 0 <= i < j < |s| ==> s[j].matchRate <= s[i].matchRate
  }

  /** A row ranked no lower than the head of a non-increasing table can
      go in front of it. */
  lemma ConsNonIncreasing(a: Match, t: seq<Match>)
    requires NonIncreasing(t)
    requires t == [] || t[0].matchRate <= a.matchRate
    ensures NonIncreasing([a] + t)
  {
    var r := [a] + t;
    forall i, j | 0 <= i < j < |r|
      ensures r[j].matchRate <= r[i].matchRate
    {
      assert r[j] == t[j - 1];
      if i > 0 {
        assert r[i] == t[i - 1];
      }
    }
  }

  /** A table is its head followed by its tail, as multisets too. */
  lemma HeadTail<T>(s: seq<T>)
    requires s != []
    ensures multiset(s) == multiset{s[0]} + multiset(s[1..])
    ensures multiset(s[1..]) == multiset(s) - multiset{s[0]}
  {
    assert s == [s[0]] + s[1..];
  }

  /** Places `x` before the first row with a lower match rate. */
  function InsertByRate(x: Match, s: seq<Match>): (r: seq<Match>)
    requires NonIncreasing(s)
    ensures NonIncreasing(r)
    ensures multiset(r) == multiset(s) + multiset{x}
    ensures |r| == |s| + 1 && (r[0] == x || (s != [] && r[0] == s[0]))
  {
    if s == [] || s[0].matchRate <= x.matchRate then
      ConsNonIncreasing(x, s);
      [x] + s
    else
      var t := InsertByRate(x, s[1..]);
      ConsNonIncreasing(s[0], t);
      HeadTail(s);
      [s[0]] + t
  }

  /** The rows sorted by descending match rate. */
  function SortByRate(s: seq<Match>): (r: seq<Match>)
    ensures NonIncreasing(r)
    ensures multiset(r) == multiset(s)
    ensures |r| == |s|
  {
    if s == [] then []
    else
      HeadTail(s);
      InsertByRate(s[0], SortByRate(s[1..]))
  }

  function Min(a: nat, b: nat): nat {
    if a < b then a else b
  }

  /** Cutting a non-increasing table leaves no row after the cut above a
      row before it. */
  lemma PrefixIsTop(p: seq<Match>, n: nat)
    requires NonIncreasing(p) && n <= |p|
    ensures forall x, y :: x in multiset(p[n..]) && y in p[..n] ==> x.matchRate <= y.matchRate
  {
    forall x, y | x in multiset(p[n..]) && y in p[..n]
      ensures x.matchRate <= y.matchRate
    {
      var a :| 0 <= a < |p[n..]| && p[n..][a] == x;
      var b :| 0 <= b < n && p[..n][b] == y;
      assert p[n + a] == x && p[b] == y;
    }
  }

  /** Cutting a non-increasing rearrangement of `s` after `n` rows keeps
      rows of `s` only, and none it drops ranks above one it keeps. */
  lemma CutSorted(s: seq<Match>, p: seq<Match>, n: nat)
    requires NonIncreasing(p) && multiset(p) == multiset(s) && n <= |p|
    ensures multiset(p[..n]) <= multiset(s)
    ensures forall m :: m in p[..n] ==> m in s
    ensures forall x, y :: x in multiset(s) - multiset(p[..n]) && y in p[..n] ==> x.matchRate <= y.matchRate
  {
    assert p == p[..n] + p[n..];
    assert multiset(s) == multiset(p[..n]) + multiset(p[n..]);
    assert multiset(s) - multiset(p[..n]) == multiset(p[n..]);
    PrefixIsTop(p, n);
    assert forall m :: m in p[..n] ==> m in multiset(s);
  }

  /** `ranked`: the first `TopN` rows of the descending sort. It holds
      min(10, |s|) rows of `s`, in non-increasing match rate, and no row
      left out has a higher match rate than a row kept. */
  function Rank(s: seq<Match>): (r: seq<Match>)
    ensures |r| == Min(TopN, |s|)
    ensures NonIncreasing(r)
    ensures multiset(r) <= multiset(s)
    ensures forall m :: m in r ==> m in s
    ensures forall x, y :: x in multiset(s) - multiset(r) && y in r ==> x.matchRate <= y.matchRate
  {
    var p := SortByRate(s);
    var n := Min(TopN, |s|);
    CutSorted(s, p, n);
    p[..n]
  }

  /** Every outcome the unstable sort may produce: the first
      min(10, |s|) rows of some non-increasing rearrangement of `s`. */
  ghost predicate IsRanking(s: seq<Match>, r: seq<Match>) {
    exists p :: |p| == |s| && multiset(p) == multiset(s) && NonIncreasing(p) && r == p[..Min(TopN, |s|)]
  }

  /** What every admissible outcome shows: min(10, |s|) rows of `s`, in
      non-increasing match rate, with no row left out ranked above a row
      kept. */
  lemma RankingIsTop(s: seq<Match>, r: seq<Match>)
    requires IsRanking(s, r)
    ensures |r| == Min(TopN, |s|)
    ensures NonIncreasing(r)
    ensures multiset(r) <= multiset(s)
    ensures forall x, y :: x in multiset(s) - multiset(r) && y in r ==> x.matchRate <= y.matchRate
  {
    var n := Min(TopN, |s|);
    var p :| |p| == |s| && multiset(p) == multiset(s) && NonIncreasing(p) && r == p[..n];
    CutSorted(s, p, n);
  }

  /** `Rank` is one of the admissible outcomes. */
  lemma RankIsRanking(s: seq<Match>)
    ensures IsRanking(s, Rank(s))
  {
    var p := SortByRate(s);
    assert Rank(s) == p[..Min(TopN, |s|)];
  }

  /** The match-rate column of a table. */
  function Rates(s: seq<Match>): (r: seq<real>)
    ensures |r| == |s|
    ensures forall i :: 0 <= i < |s| ==> r[i] == s[i].matchRate
  {
    if s == [] then [] else [s[0].matchRate] + Rates(s[1..])
  }

  lemma RatesAppend(a: seq<Match>, b: seq<Match>)
    ensures multiset(Rates(a + b)) == multiset(Rates(a)) + multiset(Rates(b))
  {
    assert forall i :: 0 <= i < |a + b| ==> Rates(a + b)[i] == (Rates(a) + Rates(b))[i];
    assert Rates(a + b) == Rates(a) + Rates(b);
  }

  /** Taking one row out of a table takes its match rate out of the column. */
  lemma RatesRemove(u: seq<Match>, x: Match, v: seq<Match>)
    ensures multiset(Rates(u + [x] + v)) == multiset(Rates(u + v)) + multiset{x.matchRate}
  {
    RatesAppend(u + [x], v);
    RatesAppend(u, [x]);
    RatesAppend(u, v);
    assert Rates([x]) == [x.matchRate];
  }

  /** Rearranging rows rearranges their match rates. */
  lemma {:induction false} RatesPermute(p: seq<Match>, q: seq<Match>)
    requires multiset(p) == multiset(q)
    ensures multiset(Rates(p)) == multiset(Rates(q))
  {
    if p != [] {
      var x := p[0];
      assert x in multiset(q);
      var j :| 0 <= j < |q| && q[j] == x;
      var u, v := q[..j], q[j + 1..];
      RemoveMatched(p, q, j);
      RatesPermute(p[1..], u + v);
      RatesRemove(u, x, v);
      RatesRemove([], x, p[1..]);
    }
  }

  /** Taking the head of `p` out of `p`, and the same row out of `q` at
      index `j`, leaves equal multisets. */
  lemma RemoveMatched<T>(p: seq<T>, q: seq<T>, j: nat)
    requires multiset(p) == multiset(q)
    requires p != [] && j < |q| && q[j] == p[0]
    ensures q == q[..j] + [p[0]] + q[j + 1..]
    ensures p == [] + [p[0]] + p[1..] && p[1..] == [] + p[1..]
    ensures multiset(p[1..]) == multiset(q[..j] + q[j + 1..])
  {
    var u, v := q[..j], q[j + 1..];
    assert q == u + [p[0]] + v;
    assert p == [p[0]] + p[1..];
    MultisetRemove(u, p[0], v);
    Cancel(multiset(p[1..]), multiset(u + v), p[0]);
  }

  lemma MultisetRemove<T>(u: seq<T>, x: T, v: seq<T>)
    ensures multiset(u + [x] + v) == multiset(u + v) + multiset{x}
  {
  }

  lemma Cancel<T>(a: multiset<T>, b: multiset<T>, x: T)
    requires a + multiset{x} == b + multiset{x}
    ensures a == b
  {
    forall y
      ensures a[y] == b[y]
    {
      assert (a + multiset{x})[y] == (b + multiset{x})[y];
    }
  }

  predicate Descending(xs: seq<real>) {
    forall i, j :: 0 <= i < j < |xs| ==> xs[j] <= xs[i]
  }

  /** The head of a non-increasing sequence is its largest element. */
  lemma DescendingHead(a: seq<real>, x: real)
    requires Descending(a) && x in multiset(a)
    ensures x <= a[0]
  {
    var i :| 0 <= i < |a| && a[i] == x;
  }

  /** A multiset of reals has one non-increasing arrangement. */
  lemma {:induction false} DescendingUnique(a: seq<real>, b: seq<real>)
    requires Descending(a) && Descending(b)
    requires multiset(a) == multiset(b)
    ensures a == b
  {
    assert |a| == |b| by {
      assert |a| == |multiset(a)| == |multiset(b)| == |b|;
    }
    if a != [] {
      assert a[0] == b[0] by {
        DescendingHead(b, a[0]);
        DescendingHead(a, b[0]);
      }
      assert multiset(a[1..]) == multiset(b[1..]) by {
        HeadTail(a);
        HeadTail(b);
      }
      DescendingUnique(a[1..], b[1..]);
      assert a == [a[0]] + a[1..] && b == [b[0]] + b[1..];
    }
  }

  /** However the sort breaks ties, the ranking shows the same match rates
      in the same order: the min(10, |s|) largest of `s`. */
  lemma RankingRatesDetermined(s: seq<Match>, r1: seq<Match>, r2: seq<Match>)
    requires IsRanking(s, r1) && IsRanking(s, r2)
    ensures Rates(r1) == Rates(r2)
  {
    var n := Min(TopN, |s|);
    var p1 :| |p1| == |s| && multiset(p1) == multiset(s) && NonIncreasing(p1) && r1 == p1[..n];
    var p2 :| |p2| == |s| && multiset(p2) == multiset(s) && NonIncreasing(p2) && r2 == p2[..n];
    RatesPermute(p1, p2);
    DescendingUnique(Rates(p1), Rates(p2));
    RatesPrefix(p1, n);
    RatesPrefix(p2, n);
  }

  lemma RatesPrefix(p: seq<Match>, n: nat)
    requires n <= |p|
    ensures Rates(p[..n]) == Rates(p)[..n]
  {
    assert forall i :: 0 <= i < n ==> Rates(p[..n])[i] == Rates(p)[..n][i];
  }

  /** Rows taken from a table with no employee twice have no employee twice. */
  lemma SubDistinct(s: seq<Match>, r: seq<Match>)
    requires DistinctEmployees(s)
    requires multiset(r) <= multiset(s)
    ensures DistinctEmployees(r)
  {
    forall a, b | 0 <= a < b < |r|
      ensures r[a].emp != r[b].emp
    {
      if r[a] == r[b] {
        TwiceCounted(r, a, b);
        DistinctOnce(s, r[a]);
      } else {
        assert r[a] in multiset(s) && r[b] in multiset(s);
        var i :| 0 <= i < |s| && s[i] == r[a];
        var j :| 0 <= j < |s| && s[j] == r[b];
        assert i != j;
      }
    }
  }

  lemma TwiceCounted(r: seq<Match>, a: nat, b: nat)
    requires a < b < |r| && r[a] == r[b]
    ensures multiset(r)[r[a]] >= 2
  {
    assert r == r[..b] + r[b..];
    assert r[..b][a] == r[a] && r[b..][0] == r[b];
    assert multiset(r) == multiset(r[..b]) + multiset(r[b..]);
  }

  lemma {:induction false} DistinctOnce(s: seq<Match>, x: Match)
    requires DistinctEmployees(s)
    ensures multiset(s)[x] <= 1
  {
    if s != [] {
      HeadTail(s);
      assert DistinctEmployees(s[1..]) by {
        forall a, b | 0 <= a < b < |s[1..]|
          ensures s[1..][a].emp != s[1..][b].emp
        {
          assert s[1..][a] == s[a + 1] && s[1..][b] == s[b + 1];
        }
      }
      DistinctOnce(s[1..], x);
      if x == s[0] {
        assert x !in s[1..] by {
          forall k | 0 <= k < |s[1..]|
            ensures s[1..][k] != x
          {
            assert s[1..][k] == s[k + 1];
          }
        }
      }
    }
  }

  /** An admissible ranking of a table with no employee twice shows no
      employee twice: with unique IDs, `ranked` lists up to ten distinct
      employees. */
  lemma RankingDistinct(s: seq<Match>, r: seq<Match>)
    requires IsRanking(s, r) && DistinctEmployees(s)
    ensures DistinctEmployees(r)
  {
    var n := Min(TopN, |s|);
    var p :| |p| == |s| && multiset(p) == multiset(s) && NonIncreasing(p) && r == p[..n];
    assert multiset(r) <= multiset(s) by {
      PrefixMultiset(p, n);
    }
    SubDistinct(s, r);
  }

  lemma PrefixMultiset(p: seq<Match>, n: nat)
    requires n <= |p|
    ensures multiset(p[..n]) <= multiset(p)
  {
    assert p == p[..n] + p[n..];
  }
}
