/** The radar comparison (app.py, lines 66-71): one employee's mean score
    per pillar, reindexed onto the benchmark profile's pillars with missing
    pillars filled with 0, beside the benchmark's own means. */
module Radar {
  import opened Text
  import opened Grouping
  import opened Scorer

  /** One row of `compare_df`: a pillar with its `Benchmark` and `Employee`
      values. */
  datatype Spoke = Spoke(pillar: string, benchmark: real, employee: real)

  /** The reference definition of one `emp_comp` entry: the scores of
      employee `e`'s records on pillar `p`, in row order. */
  function EmployeeScores(recs: seq<Rec>, e: string, p: string): (xs: seq<real>)
    ensures xs != [] <==> exists i :: 0 <= i < |recs| && recs[i].emp == e && recs[i].pillar == p
  {
    if recs == [] then []
    else if recs[0].emp == e && recs[0].pillar == p then
      [recs[0].score] + EmployeeScores(recs[1..], e, p)
    else
      var xs := EmployeeScores(recs[1..], e, p);
      assert xs != [] <==> exists i :: 0 <= i < |recs| && recs[i].emp == e && recs[i].pillar == p by {
        if exists i :: 0 <= i < |recs| && recs[i].emp == e && recs[i].pillar == p {
          var i :| 0 <= i < |recs| && recs[i].emp == e && recs[i].pillar == p;
          assert recs[1..][i - 1] == recs[i];
        }
      }
      xs
  }

  /** `competency[competency['employee_id'] == e]`, reduced to its
      `pillar_code` and `score` columns. */
  function EmployeeObs(recs: seq<Rec>, e: string): (obs: seq<Obs>)
    ensures forall o :: o in obs <==> exists i :: 0 <= i < |recs| && recs[i].emp == e && o == Obs(recs[i].pillar, recs[i].score)
  {
    if recs == [] then []
    else
      var t := EmployeeObs(recs[1..], e);
      assert forall o :: o in t <==> exists i :: 1 <= i < |recs| && recs[i].emp == e && o == Obs(recs[i].pillar, recs[i].score) by {
        forall o
          ensures o in t <==> exists i :: 1 <= i < |recs| && recs[i].emp == e && o == Obs(recs[i].pillar, recs[i].score)
        {
          if o in t {
            var i :| 0 <= i < |recs[1..]| && recs[1..][i].emp == e && o == Obs(recs[1..][i].pillar, recs[1..][i].score);
            assert recs[i + 1] == recs[1..][i];
          }
          if exists i :: 1 <= i < |recs| && recs[i].emp == e && o == Obs(recs[i].pillar, recs[i].score) {
            var i :| 1 <= i < |recs| && recs[i].emp == e && o == Obs(recs[i].pillar, recs[i].score);
            assert recs[1..][i - 1] == recs[i];
          }
        }
      }
      if recs[0].emp == e then [Obs(recs[0].pillar, recs[0].score)] + t else t
  }

  lemma {:induction false} EmployeeObsGroup(recs: seq<Rec>, e: string, p: string)
    ensures Group(EmployeeObs(recs, e), p) == EmployeeScores(recs, e, p)
  {
    if recs != [] {
      EmployeeObsGroup(recs[1..], e, p);
      if recs[0].emp == e {
        var t := EmployeeObs(recs[1..], e);
        var o := Obs(recs[0].pillar, recs[0].score);
        assert ([o] + t)[0] == o && ([o] + t)[1..] == t;
      }
    }
  }

  /** `emp_comp`: employee `e`'s mean score on each pillar they have a
      record for, and on no other. */
  function EmployeeMeans(recs: seq<Rec>, e: string): (means: map<string, real>)
    ensures forall p :: p in means <==> EmployeeScores(recs, e, p) != []
    ensures forall p :: p in means ==> means[p] == Mean(EmployeeScores(recs, e, p))
  {
    var obs := EmployeeObs(recs, e);
    var means := GroupMean(obs);
    assert forall p :: Group(obs, p) == EmployeeScores(recs, e, p) && (p in means <==> Group(obs, p) != []) by {
      forall p
        ensures Group(obs, p) == EmployeeScores(recs, e, p) && (p in means <==> Group(obs, p) != [])
      {
        EmployeeObsGroup(recs, e, p);
        TotalCountOfGroup(obs, p);
      }
    }
    means
  }

  /** `benchmark_avg.index`: the profile's pillars in ascending order, as
      `groupby` lists them. */
  function ProfileIndex(recs: seq<Rec>, ids: seq<string>): (index: seq<string>)
    ensures Ascending(index)
    ensures forall i, j :: 0 <= i < |index| && 0 <= j < |index| && i != j ==> index[i] != index[j]
    ensures forall p :: p in index <==> p in Profile(recs, ids)
  {
    var index := SortedKeys(BenchmarkObs(recs, ids));
    AscendingDistinct(index);
    index
  }

  /** `emp_comp.reindex(index).fillna(0)` beside the profile: one spoke
      per pillar of `index`, in its order, every profile pillar present,
      with the profile's value and the employee's, which is 0 where the
      employee has none. */
  function Reindex(index: seq<string>, profile: map<string, real>, emp: map<string, real>): (spokes: seq<Spoke>)
    requires Ascending(index)
    requires forall p :: p in index <==> p in profile
    ensures |spokes| == |index|
    ensures forall i :: 0 <= i < |spokes| ==> spokes[i].pillar == index[i]
    ensures forall i, j :: 0 <= i < j < |spokes| ==> Below(spokes[i].pillar, spokes[j].pillar)
    ensures forall p :: p in profile <==> exists i :: 0 <= i < |spokes| && spokes[i].pillar == p
    ensures forall i :: 0 <= i < |spokes| ==>
              && spokes[i].pillar in profile
              && spokes[i].benchmark == profile[spokes[i].pillar]
              && spokes[i].employee == (if spokes[i].pillar in emp then emp[spokes[i].pillar] else 0.0)
  {
    var spokes := seq(|index|, i requires 0 <= i < |index| =>
                        Spoke(index[i], profile[index[i]], if index[i] in emp then emp[index[i]] else 0.0));
    forall p | p in profile
      ensures exists i :: 0 <= i < |spokes| && spokes[i].pillar == p
    {
      var i :| 0 <= i < |index| && index[i] == p;
      assert spokes[i].pillar == p;
    }
    spokes
  }

  /** `compare_df` before the label join: one spoke per profile pillar, in
      the profile's order; the benchmark value is the profile's mean and the
      employee value is the employee's mean on that pillar, or 0 when they
      have no record for it. */
  function Compare(recs: seq<Rec>, ids: seq<string>, e: string): (spokes: seq<Spoke>)
    ensures |spokes| == |ProfileIndex(recs, ids)|
    ensures forall i :: 0 <= i < |spokes| ==> spokes[i].pillar == ProfileIndex(recs, ids)[i]
    ensures forall i, j :: 0 <= i < j < |spokes| ==> Below(spokes[i].pillar, spokes[j].pillar)
    ensures forall i, j :: 0 <= i < |spokes| && 0 <= j < |spokes| && i != j ==> spokes[i].pillar != spokes[j].pillar
    ensures forall p :: p in Profile(recs, ids) <==> exists i :: 0 <= i < |spokes| && spokes[i].pillar == p
    ensures forall i :: 0 <= i < |spokes| ==>
              && spokes[i].pillar in Profile(recs, ids)
              && spokes[i].benchmark == Profile(recs, ids)[spokes[i].pillar]
    ensures forall i :: 0 <= i < |spokes| ==>
              spokes[i].employee == (if EmployeeScores(recs, e, spokes[i].pillar) != []
                                     then Mean(EmployeeScores(recs, e, spokes[i].pillar))
                                     else 0.0)
  {
    Reindex(ProfileIndex(recs, ids), Profile(recs, ids), EmployeeMeans(recs, e))
  }
}
