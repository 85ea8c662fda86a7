/** The scorer end to end (app.py, lines 34-49): sidebar text to
    `score_summary` to `ranked`, and what holds of the whole pipeline. */
module Dashboard {
  import opened Grouping
  import opened Scorer
  import opened Ranking

  /** `score_summary` for the sidebar's benchmark text: `Score` against the
      profile of the parsed IDs. Every row carries its employee's mean gap
      and a match rate of 1 minus it; an employee has a row exactly when they
      have a record on a profile pillar and a row in `employees`; with
      unique employee IDs the rows are in ascending ID order, one per
      employee. */
  function ScoreSummary(text: string, recs: seq<Rec>, employees: seq<Employee>): (s: seq<Match>)
    ensures forall m :: m in s ==>
              var gaps := EmployeeGaps(recs, Profile(recs, ParseIds(text)), m.emp);
              gaps != [] && m.gap == Mean(gaps) && 0.0 <= m.gap && m.matchRate == 1.0 - m.gap
    ensures forall m :: m in s ==> exists k :: 0 <= k < |employees| && employees[k] == Employee(m.emp, m.fullname)
    ensures forall e :: Covered(recs, Profile(recs, ParseIds(text)), e) && Listed(employees, e) <==> exists m :: m in s && m.emp == e
    ensures UniqueIds(employees) ==> ByEmployee(s) && DistinctEmployees(s)
  {
    Score(recs, Profile(recs, ParseIds(text)), employees)
  }

  /** `ranked`: at most ten rows of `score_summary`, each with a
      non-negative gap and a match rate of 1 minus it. */
  function Ranked(text: string, recs: seq<Rec>, employees: seq<Employee>): (r: seq<Match>)
    ensures |r| <= TopN
    ensures forall m :: m in r ==>
              m in ScoreSummary(text, recs, employees)
              && 0.0 <= m.gap && m.matchRate == 1.0 - m.gap && m.matchRate <= 1.0
    ensures UniqueIds(employees) ==> DistinctEmployees(r)
  {
    var s := ScoreSummary(text, recs, employees);
    assert UniqueIds(employees) ==> DistinctEmployees(Rank(s)) by {
      if UniqueIds(employees) {
        SubDistinct(s, Rank(s));
      }
    }
    Rank(s)
  }

  lemma {:induction false} BenchmarkObsSameIds(recs: seq<Rec>, ids1: seq<string>, ids2: seq<string>)
    requires forall i :: 0 <= i < |recs| ==> (recs[i].emp in ids1 <==> recs[i].emp in ids2)
    ensures BenchmarkObs(recs, ids1) == BenchmarkObs(recs, ids2)
  {
    if recs != [] {
      assert recs[0].emp in ids1 <==> recs[0].emp in ids2;
      BenchmarkObsSameIds(recs[1..], ids1, ids2);
    }
  }

  /** The profile depends on the benchmark IDs only through which records
      they select: IDs without records, repeated IDs and the order of the
      IDs change nothing. */
  lemma ProfileSameIds(recs: seq<Rec>, ids1: seq<string>, ids2: seq<string>)
    requires forall i :: 0 <= i < |recs| ==> (recs[i].emp in ids1 <==> recs[i].emp in ids2)
    ensures Profile(recs, ids1) == Profile(recs, ids2)
  {
    BenchmarkObsSameIds(recs, ids1, ids2);
  }

  /** When no benchmark ID has a record, the profile is empty, nobody is
      scored and the ranking is empty; nothing fails. */
  lemma NoBenchmarkOverlap(recs: seq<Rec>, ids: seq<string>, employees: seq<Employee>)
    requires forall i :: 0 <= i < |recs| ==> recs[i].emp !in ids
    ensures Profile(recs, ids) == map[]
    ensures Score(recs, Profile(recs, ids), employees) == []
    ensures Rank(Score(recs, Profile(recs, ids), employees)) == []
  {
    var profile := Profile(recs, ids);
    assert profile.Keys == {};
    var s := Score(recs, profile, employees);
    if s != [] {
      assert false;
    }
  }

  lemma {:induction false} ZeroGaps(recs: seq<Rec>, profile: map<string, real>, e: string)
    requires forall i :: 0 <= i < |recs| && recs[i].emp == e && recs[i].pillar in profile ==>
               recs[i].score == profile[recs[i].pillar]
    ensures forall k :: 0 <= k < |EmployeeGaps(recs, profile, e)| ==> EmployeeGaps(recs, profile, e)[k] == 0.0
  {
    if recs != [] {
      ZeroGaps(recs[1..], profile, e);
      assert forall i :: 0 <= i < |recs[1..]| ==> recs[1..][i] == recs[i + 1];
      var r := recs[0];
      if r.emp == e && r.pillar in profile {
        assert Abs(r.score - profile[r.pillar]) == 0.0;
      }
    }
  }

  /** An employee who scores exactly the profile on every joined record has
      gap 0 and match rate 1. */
  lemma PerfectMatch(recs: seq<Rec>, profile: map<string, real>, employees: seq<Employee>, e: string)
    requires forall i :: 0 <= i < |recs| && recs[i].emp == e && recs[i].pillar in profile ==>
               recs[i].score == profile[recs[i].pillar]
    ensures forall m :: m in Score(recs, profile, employees) && m.emp == e ==> m.gap == 0.0 && m.matchRate == 1.0
  {
    var g := EmployeeGaps(recs, profile, e);
    if g != [] {
      ZeroGaps(recs, profile, e);
      MeanAtLeast(g, 0.0);
      MeanAtMost(g, 0.0);
    }
  }

  lemma {:induction false} BenchmarkScoresFrom(recs: seq<Rec>, ids: seq<string>, p: string)
    ensures forall k :: 0 <= k < |BenchmarkScores(recs, ids, p)| ==>
              exists i :: 0 <= i < |recs| && recs[i].pillar == p && recs[i].score == BenchmarkScores(recs, ids, p)[k]
  {
    if recs != [] {
      BenchmarkScoresFrom(recs[1..], ids, p);
      var xs := BenchmarkScores(recs, ids, p);
      var t := BenchmarkScores(recs[1..], ids, p);
      forall k | 0 <= k < |xs|
        ensures exists i :: 0 <= i < |recs| && recs[i].pillar == p && recs[i].score == xs[k]
      {
        if recs[0].emp in ids && recs[0].pillar == p {
          if k == 0 {
            assert recs[0].score == xs[0];
          } else {
            assert xs[k] == t[k - 1];
            var i :| 0 <= i < |recs[1..]| && recs[1..][i].pillar == p && recs[1..][i].score == t[k - 1];
            assert recs[i + 1] == recs[1..][i];
          }
        } else {
          var i :| 0 <= i < |recs[1..]| && recs[1..][i].pillar == p && recs[1..][i].score == t[k];
          assert recs[i + 1] == recs[1..][i];
        }
      }
    } else {
      assert BenchmarkScores(recs, ids, p) == [];
    }
  }

  /** When every record on a pillar carries the same score, whatever the
      benchmark, every scored employee has gap 0 and match rate 1. */
  lemma UniformScores(recs: seq<Rec>, ids: seq<string>, employees: seq<Employee>)
    requires forall i, j :: 0 <= i < |recs| && 0 <= j < |recs| && recs[i].pillar == recs[j].pillar ==>
               recs[i].score == recs[j].score
    ensures forall m :: m in Score(recs, Profile(recs, ids), employees) ==> m.gap == 0.0 && m.matchRate == 1.0
  {
    var profile := Profile(recs, ids);
    forall i | 0 <= i < |recs| && recs[i].pillar in profile
      ensures recs[i].score == profile[recs[i].pillar]
    {
      var p := recs[i].pillar;
      var xs := BenchmarkScores(recs, ids, p);
      BenchmarkScoresFrom(recs, ids, p);
      MeanAtLeast(xs, recs[i].score);
      MeanAtMost(xs, recs[i].score);
    }
    forall m | m in Score(recs, profile, employees)
      ensures m.gap == 0.0 && m.matchRate == 1.0
    {
      PerfectMatch(recs, profile, employees, m.emp);
    }
  }
}
