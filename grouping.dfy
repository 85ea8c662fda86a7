/** pandas' `df.groupby(key)[column].mean()` over exact reals: the groups
    are the distinct keys, listed in ascending key order (pandas sorts group
    keys by default), and each group's value is its column total divided by
    its row count. */
module Grouping {
  import opened Text

  /** One row reduced to the two columns a group-by reads. */
  datatype Obs = Obs(key: string, value: real)

  function Sum(xs: seq<real>): real {
    if xs == [] then 0.0 else xs[0] + Sum(xs[1..])
  }

  /** The arithmetic mean of a non-empty sequence. */
  function Mean(xs: seq<real>): real
    requires xs != []
  {
    Sum(xs) / (|xs| as real)
  }

  lemma {:induction false} SumAtLeast(xs: seq<real>, lo: real)
    requires forall i :: 0 <= i < |xs| ==> lo <= xs[i]
    ensures lo * (|xs| as real) <= Sum(xs)
  {
    if xs != [] {
      SumAtLeast(xs[1..], lo);
    }
  }

  lemma {:induction false} SumAtMost(xs: seq<real>, hi: real)
    requires forall i :: 0 <= i < |xs| ==> xs[i] <= hi
    ensures Sum(xs) <= hi * (|xs| as real)
  {
    if xs != [] {
      SumAtMost(xs[1..], hi);
    }
  }

  /** A mean is no smaller than a lower bound of its values. */
  lemma MeanAtLeast(xs: seq<real>, lo: real)
    requires xs != []
    requires forall i :: 0 <= i < |xs| ==> lo <= xs[i]
    ensures lo <= Mean(xs)
  {
    SumAtLeast(xs, lo);
    var n := |xs| as real;
    assert lo == (lo * n) / n;
  }

  /** A mean is no larger than an upper bound of its values. */
  lemma MeanAtMost(xs: seq<real>, hi: real)
    requires xs != []
    requires forall i :: 0 <= i < |xs| ==> xs[i] <= hi
    ensures Mean(xs) <= hi
  {
    SumAtMost(xs, hi);
    var n := |xs| as real;
    assert hi == (hi * n) / n;
  }

  /** The distinct keys of the rows. */
  function Keys(obs: seq<Obs>): set<string> {
    set o | o in obs :: o.key
  }

  /** The values of the rows with key `k`, in row order: one group. */
  function Group(obs: seq<Obs>, k: string): (g: seq<real>)
    ensures |g| <= |obs|
  {
    if obs == [] then []
    else if obs[0].key == k then [obs[0].value] + Group(obs[1..], k)
    else Group(obs[1..], k)
  }

  /** Running column total of the rows with key `k`. */
  function Total(obs: seq<Obs>, k: string): real {
    if obs == [] then 0.0
    else (if obs[0].key == k then obs[0].value else 0.0) + Total(obs[1..], k)
  }

  /** Running row count of the rows with key `k`. */
  function Count(obs: seq<Obs>, k: string): nat {
    if obs == [] then 0
    else (if obs[0].key == k then 1 else 0) + Count(obs[1..], k)
  }

  /** The running total and count are those of the group, and a key has
      rows exactly when its group is non-empty. */
  lemma {:induction false} TotalCountOfGroup(obs: seq<Obs>, k: string)
    ensures Total(obs, k) == Sum(Group(obs, k))
    ensures Count(obs, k) == |Group(obs, k)|
    ensures Group(obs, k) != [] <==> k in Keys(obs)
  {
    if obs != [] {
      TotalCountOfGroup(obs[1..], k);
      assert Keys(obs) == {obs[0].key} + Keys(obs[1..]) by {
        assert forall o :: o in obs <==> o == obs[0] || o in obs[1..];
      }
      if obs[0].key == k {
        var g := Group(obs[1..], k);
        assert ([obs[0].value] + g)[1..] == g;
      }
    }
  }

  /** `groupby(key)[value].mean()` as a lookup table: one entry per
      distinct key, holding the mean of that key's group. */
  function GroupMean(obs: seq<Obs>): (m: map<string, real>)
    ensures m.Keys == Keys(obs)
    ensures forall k :: k in m ==> Group(obs, k) != [] && m[k] == Mean(Group(obs, k))
  {
    var m := map k | k in Keys(obs) ::
      (TotalCountOfGroup(obs, k); Total(obs, k) / (Count(obs, k) as real));
    assert forall k :: k in m ==> Group(obs, k) != [] && m[k] == Mean(Group(obs, k)) by {
      forall k | k in m
        ensures Group(obs, k) != [] && m[k] == Mean(Group(obs, k))
      {
        TotalCountOfGroup(obs, k);
      }
    }
    m
  }

  /** Strictly ascending in Python's string order. */
  predicate Ascending(s: seq<string>) {
    forall i, j :: 0 <= i < j < |s| ==> Below(s[i], s[j])
  }

  /** Places `x` in an ascending list of distinct keys, unless present. */
  function Insert(x: string, s: seq<string>): (r: seq<string>)
    requires Ascending(s)
    ensures Ascending(r)
    ensures forall y :: y in r <==> y == x || y in s
  {
    if s == [] then [x]
    else if x == s[0] then s
    else if Below(x, s[0]) then
      assert forall j :: 0 < j < |s| ==> Below(x, s[j]) by {
        forall j | 0 < j < |s| {
          BelowTransitive(x, s[0], s[j]);
        }
      }
      [x] + s
    else
      BelowTotal(x, s[0]);
      var t := Insert(x, s[1..]);
      assert forall y :: y in t ==> Below(s[0], y) by {
        forall y | y in t
          ensures Below(s[0], y)
        {
          if y != x {
            var j :| 0 <= j < |s[1..]| && s[1..][j] == y;
            assert s[j + 1] == y;
          }
        }
      }
      [s[0]] + t
  }

  /** The index of `groupby(key)`: the distinct keys in ascending order. */
  function SortedKeys(obs: seq<Obs>): (r: seq<string>)
    ensures Ascending(r)
    ensures forall k :: k in r <==> k in Keys(obs)
  {
    if obs == [] then []
    else
      assert Keys(obs) == {obs[0].key} + Keys(obs[1..]) by {
        assert forall o :: o in obs <==> o == obs[0] || o in obs[1..];
      }
      Insert(obs[0].key, SortedKeys(obs[1..]))
  }

  /** An ascending list has no repeated key. */
  lemma AscendingDistinct(s: seq<string>)
    requires Ascending(s)
    ensures forall i, j :: 0 <= i < |s| && 0 <= j < |s| && i != j ==> s[i] != s[j]
  {
    forall i, j | 0 <= i < |s| && 0 <= j < |s| && i < j
      ensures s[i] != s[j]
    {
      BelowIrreflexive(s[i]);
    }
  }
}
