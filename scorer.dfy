/** The benchmark match-rate scorer of the talent dashboard (app.py, lines
    34-48): parse the benchmark employee IDs, average the benchmark group's
    competency scores per pillar, measure every employee's mean absolute
    deviation from that profile, and attach employee names. */
module Scorer {
  import opened Text
  import opened Grouping

  /** One row of `competencies_yearly`: one employee's score on one pillar
      in one year (the year column plays no part in the scoring). */
  datatype Rec = Rec(emp: string, pillar: string, score: real)

  /** One row of `employees`, reduced to the two columns the scorer reads. */
  datatype Employee = Employee(id: string, fullname: string)

  /** One row of `merged`: a record joined to the profile on its pillar,
      with its `score_emp`, `score_bm` and `gap` columns. */
  datatype Joined = Joined(emp: string, pillar: string, scoreEmp: real, scoreBm: real, gap: real)

  /** One row of `score_summary` before the names are attached. */
  datatype Summary = Summary(emp: string, gap: real, matchRate: real)

  /** One row of `score_summary` after the name join. */
  datatype Match = Match(emp: string, fullname: string, gap: real, matchRate: real)

  function Abs(x: real): (r: real)
    ensures r >= 0.0 && (r == x || r == -x)
  {
    if x < 0.0 then -x else x
  }

  // ---------- Benchmark IDs (line 34) ----------

  /** `[x.strip() for x in text.split(",")]`: one ID per comma-separated
      piece, in input order, empty pieces kept as "". */
  function ParseIds(text: string): (ids: seq<string>)
    ensures |ids| == Occurrences(text, ',') + 1
    ensures forall i :: 0 <= i < |ids| ==> NoEdgeSpace(ids[i]) && ',' !in ids[i]
    ensures forall i :: 0 <= i < |ids| ==> ids[i] == Strip(Split(text)[i])
  {
    var pieces := Split(text);
    var ids := seq(|pieces|, i requires 0 <= i < |pieces| => Strip(pieces[i]));
    assert forall i :: 0 <= i < |ids| ==> ',' !in ids[i] by {
      forall i | 0 <= i < |ids|
        ensures ',' !in ids[i]
      {
        StripInside(pieces[i], ',');
      }
    }
    ids
  }

  /** Parsing recovers any list of comma-free IDs without edge whitespace
      from its comma-joined text. */
  lemma ParseIdsJoin(ids: seq<string>)
    requires |ids| >= 1
    requires forall i :: 0 <= i < |ids| ==> ',' !in ids[i] && NoEdgeSpace(ids[i])
    ensures ParseIds(Join(ids)) == ids
  {
    SplitJoin(ids);
    forall i | 0 <= i < |ids|
      ensures ParseIds(Join(ids))[i] == ids[i]
    {
      StripUnchanged(ids[i]);
    }
  }

  /** The same with whitespace around the IDs, as in the sidebar's
      default "EMP100001, EMP100005, EMP100010": the padding is stripped
      and the IDs come back in order. */
  lemma ParseIdsPadded(ids: seq<string>, lefts: seq<string>, rights: seq<string>)
    requires |ids| >= 1 && |lefts| == |ids| && |rights| == |ids|
    requires forall i :: 0 <= i < |ids| ==> ',' !in ids[i] && NoEdgeSpace(ids[i])
    requires forall i :: 0 <= i < |ids| ==> AllSpace(lefts[i]) && AllSpace(rights[i])
    ensures ParseIds(Join(seq(|ids|, i requires 0 <= i < |ids| => lefts[i] + (ids[i] + rights[i])))) == ids
  {
    var pieces := seq(|ids|, i requires 0 <= i < |ids| => lefts[i] + (ids[i] + rights[i]));
    forall i | 0 <= i < |ids|
      ensures ',' !in pieces[i] && Strip(pieces[i]) == ids[i]
    {
      StripPadded(lefts[i], ids[i], rights[i]);
    }
    SplitJoin(pieces);
  }

  // ---------- Benchmark profile (line 39) ----------

  /** The reference definition of one profile entry: the scores of the
      benchmark employees' records on pillar `p`, in row order. */
  function BenchmarkScores(recs: seq<Rec>, ids: seq<string>, p: string): (xs: seq<real>)
    ensures xs != [] <==> exists i :: 0 <= i < |recs| && recs[i].emp in ids && recs[i].pillar == p
  {
    if recs == [] then []
    else if recs[0].emp in ids && recs[0].pillar == p then
      [recs[0].score] + BenchmarkScores(recs[1..], ids, p)
    else
      var xs := BenchmarkScores(recs[1..], ids, p);
      assert xs != [] <==> exists i :: 0 <= i < |recs| && recs[i].emp in ids && recs[i].pillar == p by {
        if exists i :: 0 <= i < |recs| && recs[i].emp in ids && recs[i].pillar == p {
          var i :| 0 <= i < |recs| && recs[i].emp in ids && recs[i].pillar == p;
          assert recs[1..][i - 1] == recs[i];
        }
      }
      xs
  }

  /** `competency[competency['employee_id'].isin(ids)]`, reduced to its
      `pillar_code` and `score` columns. */
  function BenchmarkObs(recs: seq<Rec>, ids: seq<string>): (obs: seq<Obs>)
    ensures forall o :: o in obs <==> exists i :: 0 <= i < |recs| && recs[i].emp in ids && o == Obs(recs[i].pillar, recs[i].score)
  {
    if recs == [] then []
    else
      var t := BenchmarkObs(recs[1..], ids);
      assert forall o :: o in t <==> exists i :: 1 <= i < |recs| && recs[i].emp in ids && o == Obs(recs[i].pillar, recs[i].score) by {
        forall o
          ensures o in t <==> exists i :: 1 <= i < |recs| && recs[i].emp in ids && o == Obs(recs[i].pillar, recs[i].score)
        {
          if o in t {
            var i :| 0 <= i < |recs[1..]| && recs[1..][i].emp in ids && o == Obs(recs[1..][i].pillar, recs[1..][i].score);
            assert recs[i + 1] == recs[1..][i];
          }
          if exists i :: 1 <= i < |recs| && recs[i].emp in ids && o == Obs(recs[i].pillar, recs[i].score) {
            var i :| 1 <= i < |recs| && recs[i].emp in ids && o == Obs(recs[i].pillar, recs[i].score);
            assert recs[1..][i - 1] == recs[i];
          }
        }
      }
      if recs[0].emp in ids then [Obs(recs[0].pillar, recs[0].score)] + t else t
  }

  lemma {:induction false} BenchmarkObsGroup(recs: seq<Rec>, ids: seq<string>, p: string)
    ensures Group(BenchmarkObs(recs, ids), p) == BenchmarkScores(recs, ids, p)
  {
    if recs != [] {
      BenchmarkObsGroup(recs[1..], ids, p);
      if recs[0].emp in ids {
        var t := BenchmarkObs(recs[1..], ids);
        var o := Obs(recs[0].pillar, recs[0].score);
        assert ([o] + t)[0] == o && ([o] + t)[1..] == t;
      }
    }
  }

  /** `benchmark_avg`: the mean score per pillar over the benchmark
      employees' records. A pillar is present exactly when some benchmark
      record has it; IDs without records add nothing. */
  function Profile(recs: seq<Rec>, ids: seq<string>): (profile: map<string, real>)
    ensures forall p :: p in profile <==> exists i :: 0 <= i < |recs| && recs[i].emp in ids && recs[i].pillar == p
    ensures forall p :: p in profile ==> BenchmarkScores(recs, ids, p) != [] && profile[p] == Mean(BenchmarkScores(recs, ids, p))
  {
    var obs := BenchmarkObs(recs, ids);
    var profile := GroupMean(obs);
    assert forall p :: Group(obs, p) == BenchmarkScores(recs, ids, p) && (p in profile <==> Group(obs, p) != []) by {
      forall p
        ensures Group(obs, p) == BenchmarkScores(recs, ids, p) && (p in profile <==> Group(obs, p) != [])
      {
        BenchmarkObsGroup(recs, ids, p);
        TotalCountOfGroup(obs, p);
      }
    }
    profile
  }

  // ---------- Gap and match rate (lines 42-47) ----------

  /** The join of one record with the profile entry of its pillar. */
  function JoinRow(r: Rec, profile: map<string, real>): Joined
    requires r.pillar in profile
  {
    Joined(r.emp, r.pillar, r.score, profile[r.pillar], Abs(r.score - profile[r.pillar]))
  }

  /** `competency.merge(benchmark_avg, on='pillar_code')` with the `gap`
      column: an inner join, so a record takes part exactly when its pillar
      is in the profile. */
  function Merge(recs: seq<Rec>, profile: map<string, real>): (m: seq<Joined>)
    ensures forall j :: j in m ==>
              j.pillar in profile && j.scoreBm == profile[j.pillar] && j.gap == Abs(j.scoreEmp - j.scoreBm)
    ensures forall j :: j in m <==> exists i :: 0 <= i < |recs| && recs[i].pillar in profile && j == JoinRow(recs[i], profile)
    ensures forall e :: Group(GapObs(m), e) == EmployeeGaps(recs, profile, e)
  {
    if recs == [] then []
    else
      var t := Merge(recs[1..], profile);
      assert forall j :: j in t <==> exists i :: 1 <= i < |recs| && recs[i].pillar in profile && j == JoinRow(recs[i], profile) by {
        forall j
          ensures j in t <==> exists i :: 1 <= i < |recs| && recs[i].pillar in profile && j == JoinRow(recs[i], profile)
        {
          if j in t {
            var i :| 0 <= i < |recs[1..]| && recs[1..][i].pillar in profile && j == JoinRow(recs[1..][i], profile);
            assert recs[i + 1] == recs[1..][i];
          }
          if exists i :: 1 <= i < |recs| && recs[i].pillar in profile && j == JoinRow(recs[i], profile) {
            var i :| 1 <= i < |recs| && recs[i].pillar in profile && j == JoinRow(recs[i], profile);
            assert recs[1..][i - 1] == recs[i];
          }
        }
      }
      if recs[0].pillar in profile then
        var j := JoinRow(recs[0], profile);
        GapObsCons(j, t);
        [j] + t
      else t
  }

  /** Prepending a merged row prepends its gap to its employee's group. */
  lemma GapObsCons(j: Joined, t: seq<Joined>)
    ensures forall e :: Group(GapObs([j] + t), e) ==
              if j.emp == e then [j.gap] + Group(GapObs(t), e) else Group(GapObs(t), e)
  {
    assert ([j] + t)[0] == j && ([j] + t)[1..] == t;
    var o := Obs(j.emp, j.gap);
    assert ([o] + GapObs(t))[0] == o && ([o] + GapObs(t))[1..] == GapObs(t);
  }

  /** Employee `e` has at least one record on a pillar of the profile. */
  predicate Covered(recs: seq<Rec>, profile: map<string, real>, e: string) {
    exists i :: 0 <= i < |recs| && recs[i].emp == e && recs[i].pillar in profile
  }

  /** The reference definition of an employee's gaps: one
      `|score - profile[pillar]|` per record of `e` whose pillar the profile
      has, in row order. */
  function EmployeeGaps(recs: seq<Rec>, profile: map<string, real>, e: string): (g: seq<real>)
    ensures g != [] <==> Covered(recs, profile, e)
    ensures forall i :: 0 <= i < |g| ==> g[i] >= 0.0
  {
    if recs == [] then []
    else if recs[0].emp == e && recs[0].pillar in profile then
      [Abs(recs[0].score - profile[recs[0].pillar])] + EmployeeGaps(recs[1..], profile, e)
    else
      var g := EmployeeGaps(recs[1..], profile, e);
      assert g != [] <==> Covered(recs, profile, e) by {
        if Covered(recs, profile, e) {
          var i :| 0 <= i < |recs| && recs[i].emp == e && recs[i].pillar in profile;
          assert recs[1..][i - 1] == recs[i];
        }
      }
      g
  }

  /** `merged[['employee_id', 'gap']]` as group-by rows. */
  function GapObs(m: seq<Joined>): seq<Obs> {
    if m == [] then [] else [Obs(m[0].emp, m[0].gap)] + GapObs(m[1..])
  }

  /** `merged.groupby('employee_id')['gap'].mean()` with
      `match_rate = 1 - gap`: one row per employee that has a joined
      record, in ascending ID order; the gap is the mean of that
      employee's per-record gaps, so it is never negative, and the match
      rate is never above 1 (nor clamped below). */
  function Summarize(recs: seq<Rec>, profile: map<string, real>): (s: seq<Summary>)
    ensures forall i, j :: 0 <= i < j < |s| ==> Below(s[i].emp, s[j].emp)
    ensures forall e :: Covered(recs, profile, e) <==> exists i :: 0 <= i < |s| && s[i].emp == e
    ensures forall i :: 0 <= i < |s| ==>
              EmployeeGaps(recs, profile, s[i].emp) != []
              && s[i].gap == Mean(EmployeeGaps(recs, profile, s[i].emp))
              && 0.0 <= s[i].gap
              && s[i].matchRate == 1.0 - s[i].gap
              && s[i].matchRate <= 1.0
  {
    var obs := GapObs(Merge(recs, profile));
    var means := GroupMean(obs);
    var keys := SortedKeys(obs);
    var s := seq(|keys|, i requires 0 <= i < |keys| => Summary(keys[i], means[keys[i]], 1.0 - means[keys[i]]));
    assert forall i :: 0 <= i < |s| ==>
              EmployeeGaps(recs, profile, s[i].emp) != []
              && s[i].gap == Mean(EmployeeGaps(recs, profile, s[i].emp))
              && 0.0 <= s[i].gap by {
      forall i | 0 <= i < |s|
        ensures EmployeeGaps(recs, profile, s[i].emp) != []
                && s[i].gap == Mean(EmployeeGaps(recs, profile, s[i].emp))
                && 0.0 <= s[i].gap
      {
        MeanAtLeast(EmployeeGaps(recs, profile, keys[i]), 0.0);
      }
    }
    assert forall e :: Covered(recs, profile, e) <==> exists i :: 0 <= i < |s| && s[i].emp == e by {
      forall e
        ensures Covered(recs, profile, e) <==> exists i :: 0 <= i < |s| && s[i].emp == e
      {
        TotalCountOfGroup(obs, e);
        if e in keys {
          var i :| 0 <= i < |keys| && keys[i] == e;
          assert s[i].emp == e;
        }
      }
    }
    s
  }

  // ---------- Name join (line 48) ----------

  /** `e` has a row in the employee table. */
  predicate Listed(employees: seq<Employee>, e: string) {
    exists k :: 0 <= k < |employees| && employees[k].id == e
  }

  /** No two rows of the employee table share an ID. */
  predicate UniqueIds(employees: seq<Employee>) {
    forall k, l :: 0 <= k < l < |employees| ==> employees[k].id != employees[l].id
  }

  /** Summary rows in strictly ascending employee ID order. */
  predicate AscendingSummary(s: seq<Summary>) {
    forall i, j :: 0 <= i < j < |s| ==> Below(s[i].emp, s[j].emp)
  }

  /** Rows in strictly ascending employee ID order. */
  predicate ByEmployee(r: seq<Match>) {
    forall a, b :: 0 <= a < b < |r| ==> Below(r[a].emp, r[b].emp)
  }

  /** No employee has two rows. */
  predicate DistinctEmployees(r: seq<Match>) {
    forall a, b :: 0 <= a < b < |r| ==> r[a].emp != r[b].emp
  }

  lemma ByEmployeeDistinct(r: seq<Match>)
    requires ByEmployee(r)
    ensures DistinctEmployees(r)
  {
    forall a, b | 0 <= a < b < |r|
      ensures r[a].emp != r[b].emp
    {
      BelowIrreflexive(r[a].emp);
    }
  }

  /** The rows the name join makes from one summary row: one per row of
      `employees` with that ID, in table order, so at most one when the
      IDs are unique. */
  function NameRows(sm: Summary, employees: seq<Employee>): (r: seq<Match>)
    ensures forall m :: m in r <==> exists k :: 0 <= k < |employees| && employees[k].id == sm.emp
                                             && m == Match(sm.emp, employees[k].fullname, sm.gap, sm.matchRate)
    ensures !Listed(employees, sm.emp) ==> r == []
    ensures UniqueIds(employees) ==> |r| <= 1
  {
    if employees == [] then []
    else
      assert !Listed(employees, sm.emp) ==> !Listed(employees[1..], sm.emp) by {
        if !Listed(employees, sm.emp) {
          forall k | 0 <= k < |employees[1..]|
            ensures employees[1..][k].id != sm.emp
          {
            assert employees[1..][k] == employees[k + 1];
          }
        }
      }
      assert UniqueIds(employees) ==> UniqueIds(employees[1..]) by {
        if UniqueIds(employees) {
          forall k, l | 0 <= k < l < |employees[1..]|
            ensures employees[1..][k].id != employees[1..][l].id
          {
            assert employees[1..][k] == employees[k + 1] && employees[1..][l] == employees[l + 1];
          }
        }
      }
      var t := NameRows(sm, employees[1..]);
      assert forall m :: m in t <==> exists k :: 1 <= k < |employees| && employees[k].id == sm.emp
                                              && m == Match(sm.emp, employees[k].fullname, sm.gap, sm.matchRate) by {
        forall m
          ensures m in t <==> exists k :: 1 <= k < |employees| && employees[k].id == sm.emp
                                      && m == Match(sm.emp, employees[k].fullname, sm.gap, sm.matchRate)
        {
          if m in t {
            var k :| 0 <= k < |employees[1..]| && employees[1..][k].id == sm.emp
                     && m == Match(sm.emp, employees[1..][k].fullname, sm.gap, sm.matchRate);
            assert employees[k + 1] == employees[1..][k];
          }
          if exists k :: 1 <= k < |employees| && employees[k].id == sm.emp
                         && m == Match(sm.emp, employees[k].fullname, sm.gap, sm.matchRate) {
            var k :| 1 <= k < |employees| && employees[k].id == sm.emp
                     && m == Match(sm.emp, employees[k].fullname, sm.gap, sm.matchRate);
            assert employees[1..][k - 1] == employees[k];
          }
        }
      }
      if employees[0].id == sm.emp then
        assert UniqueIds(employees) ==> !Listed(employees[1..], sm.emp) by {
          if UniqueIds(employees) {
            forall k | 0 <= k < |employees[1..]|
              ensures employees[1..][k].id != sm.emp
            {
              assert employees[1..][k] == employees[k + 1];
            }
          }
        }
        [Match(sm.emp, employees[0].fullname, sm.gap, sm.matchRate)] + t
      else t
  }

  /** `score_summary.merge(employees[['employee_id', 'fullname']], on='employee_id')`:
      an inner join, so a summary row without a matching employee row is
      dropped, and left order is kept. */
  function AttachNames(s: seq<Summary>, employees: seq<Employee>): (r: seq<Match>)
    ensures forall m :: m in r <==> exists i, k :: 0 <= i < |s| && 0 <= k < |employees| && employees[k].id == s[i].emp
                                                && m == Match(s[i].emp, employees[k].fullname, s[i].gap, s[i].matchRate)
    ensures UniqueIds(employees) && AscendingSummary(s) ==> ByEmployee(r)
  {
    if s == [] then []
    else
      var t := AttachNames(s[1..], employees);
      NamedTail(s, employees, t);
      var h := NameRows(s[0], employees);
      assert UniqueIds(employees) && AscendingSummary(s) ==> ByEmployee(h + t) by {
        if UniqueIds(employees) && AscendingSummary(s) {
          NamedTailAbove(s, employees, t);
          PrependByEmployee(h, t, s[0].emp);
        }
      }
      h + t
  }

  /** The rows named from `s[1..]`, indexed into `s`. */
  lemma NamedTail(s: seq<Summary>, employees: seq<Employee>, t: seq<Match>)
    requires s != []
    requires forall m :: m in t <==> exists i, k :: 0 <= i < |s[1..]| && 0 <= k < |employees| && employees[k].id == s[1..][i].emp
                                                 && m == Match(s[1..][i].emp, employees[k].fullname, s[1..][i].gap, s[1..][i].matchRate)
    ensures forall m :: m in t <==> exists i, k :: 1 <= i < |s| && 0 <= k < |employees| && employees[k].id == s[i].emp
                                               && m == Match(s[i].emp, employees[k].fullname, s[i].gap, s[i].matchRate)
  {
    forall m
      ensures m in t <==> exists i, k :: 1 <= i < |s| && 0 <= k < |employees| && employees[k].id == s[i].emp
                                     && m == Match(s[i].emp, employees[k].fullname, s[i].gap, s[i].matchRate)
    {
      if m in t {
        var i, k :| 0 <= i < |s[1..]| && 0 <= k < |employees| && employees[k].id == s[1..][i].emp
                    && m == Match(s[1..][i].emp, employees[k].fullname, s[1..][i].gap, s[1..][i].matchRate);
        assert s[i + 1] == s[1..][i];
      }
      if exists i, k :: 1 <= i < |s| && 0 <= k < |employees| && employees[k].id == s[i].emp
                        && m == Match(s[i].emp, employees[k].fullname, s[i].gap, s[i].matchRate) {
        var i, k :| 1 <= i < |s| && 0 <= k < |employees| && employees[k].id == s[i].emp
                    && m == Match(s[i].emp, employees[k].fullname, s[i].gap, s[i].matchRate);
        assert s[1..][i - 1] == s[i];
      }
    }
  }

  /** In an ascending summary, the rows named from its tail come after
      its head's employee, and the tail is ascending too. */
  lemma NamedTailAbove(s: seq<Summary>, employees: seq<Employee>, t: seq<Match>)
    requires s != [] && AscendingSummary(s)
    requires forall m :: m in t ==> exists i, k :: 1 <= i < |s| && 0 <= k < |employees| && employees[k].id == s[i].emp
                                              && m == Match(s[i].emp, employees[k].fullname, s[i].gap, s[i].matchRate)
    ensures forall m :: m in t ==> Below(s[0].emp, m.emp)
    ensures AscendingSummary(s[1..])
  {
    forall m | m in t
      ensures Below(s[0].emp, m.emp)
    {
      var i, k :| 1 <= i < |s| && 0 <= k < |employees| && employees[k].id == s[i].emp
                  && m == Match(s[i].emp, employees[k].fullname, s[i].gap, s[i].matchRate);
    }
    forall i, j | 0 <= i < j < |s[1..]|
      ensures Below(s[1..][i].emp, s[1..][j].emp)
    {
      assert s[1..][i] == s[i + 1] && s[1..][j] == s[j + 1];
    }
  }

  /** At most one row for employee `x` in front of rows with greater IDs
      keeps the ascending order. */
  lemma PrependByEmployee(h: seq<Match>, t: seq<Match>, x: string)
    requires |h| <= 1 && (forall m :: m in h ==> m.emp == x)
    requires forall m :: m in t ==> Below(x, m.emp)
    requires ByEmployee(t)
    ensures ByEmployee(h + t)
  {
    forall a, b | 0 <= a < b < |h + t|
      ensures Below((h + t)[a].emp, (h + t)[b].emp)
    {
      if a < |h| {
        assert (h + t)[a] in h && (h + t)[b] == t[b - |h|];
      } else {
        assert (h + t)[a] == t[a - |h|] && (h + t)[b] == t[b - |h|];
      }
    }
  }

  lemma ScoredRow(recs: seq<Rec>, profile: map<string, real>, employees: seq<Employee>, m: Match)
    requires m in AttachNames(Summarize(recs, profile), employees)
    ensures EmployeeGaps(recs, profile, m.emp) != []
            && m.gap == Mean(EmployeeGaps(recs, profile, m.emp))
            && 0.0 <= m.gap && m.matchRate == 1.0 - m.gap
    ensures exists k :: 0 <= k < |employees| && employees[k] == Employee(m.emp, m.fullname)
    ensures Covered(recs, profile, m.emp) && Listed(employees, m.emp)
  {
    var s := Summarize(recs, profile);
    var i, k :| 0 <= i < |s| && 0 <= k < |employees| && employees[k].id == s[i].emp
                && m == Match(s[i].emp, employees[k].fullname, s[i].gap, s[i].matchRate);
    assert employees[k] == Employee(m.emp, m.fullname);
  }

  lemma ScoredEmployee(recs: seq<Rec>, profile: map<string, real>, employees: seq<Employee>, e: string)
    requires Covered(recs, profile, e) && Listed(employees, e)
    ensures exists m :: m in AttachNames(Summarize(recs, profile), employees) && m.emp == e
  {
    var s := Summarize(recs, profile);
    var i :| 0 <= i < |s| && s[i].emp == e;
    var k :| 0 <= k < |employees| && employees[k].id == e;
    var m := Match(s[i].emp, employees[k].fullname, s[i].gap, s[i].matchRate);
    assert m in AttachNames(s, employees);
  }

  /** `score_summary` after line 48, for a given profile: every employee
      with at least one record on a profile pillar and a row in
      `employees`, with their mean gap and `match_rate = 1 - gap`. */
  function Score(recs: seq<Rec>, profile: map<string, real>, employees: seq<Employee>): (r: seq<Match>)
    ensures forall m :: m in r ==>
              EmployeeGaps(recs, profile, m.emp) != []
              && m.gap == Mean(EmployeeGaps(recs, profile, m.emp))
              && 0.0 <= m.gap
              && m.matchRate == 1.0 - m.gap
              && m.matchRate <= 1.0
    ensures forall m :: m in r ==> exists k :: 0 <= k < |employees| && employees[k] == Employee(m.emp, m.fullname)
    ensures forall e :: Covered(recs, profile, e) && Listed(employees, e) <==> exists m :: m in r && m.emp == e
    ensures UniqueIds(employees) ==> ByEmployee(r) && DistinctEmployees(r)
  {
    var r := AttachNames(Summarize(recs, profile), employees);
    forall m | m in r
      ensures EmployeeGaps(recs, profile, m.emp) != []
              && m.gap == Mean(EmployeeGaps(recs, profile, m.emp))
              && 0.0 <= m.gap && m.matchRate == 1.0 - m.gap
      ensures exists k :: 0 <= k < |employees| && employees[k] == Employee(m.emp, m.fullname)
      ensures Covered(recs, profile, m.emp) && Listed(employees, m.emp)
    {
      ScoredRow(recs, profile, employees, m);
    }
    forall e | Covered(recs, profile, e) && Listed(employees, e)
      ensures exists m :: m in r && m.emp == e
    {
      ScoredEmployee(recs, profile, employees, e);
    }
    assert UniqueIds(employees) ==> ByEmployee(r) && DistinctEmployees(r) by {
      if UniqueIds(employees) {
        ByEmployeeDistinct(r);
      }
    }
    r
  }
}
