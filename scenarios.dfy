/** Worked examples of the scorer on small tables. */
module Scenarios {
  import opened Text
  import opened Grouping
  import opened Scorer
  import opened Ranking
  import opened Radar

  /** Empty pieces survive the parse: "a,,b" names three IDs, the middle
      one empty. */
  lemma ParseKeepsEmptyPiece()
    ensures ParseIds("a,,b") == ["a", "", "b"]
  {
    var ids := ["a", "", "b"];
    assert Join(ids) == "a,,b";
    ParseIdsJoin(ids);
  }

  /** Three employees on two pillars, with E1 as the benchmark. */
  function ThreeEmployees(): seq<Rec> {
    [ Rec("E1", "P1", 5.0), Rec("E1", "P2", 3.0)
    , Rec("E2", "P1", 5.0), Rec("E2", "P2", 3.0)
    , Rec("E3", "P1", 1.0), Rec("E3", "P2", 1.0) ]
  }

  /** A benchmark whose first two records are on pillars `a` and `b`, and
      whose other records are on one of those, has exactly those pillars. */
  lemma TwoPillars(recs: seq<Rec>, ids: seq<string>, a: string, b: string)
    requires |recs| >= 2
    requires recs[0].emp in ids && recs[0].pillar == a
    requires recs[1].emp in ids && recs[1].pillar == b
    requires forall i :: 0 <= i < |recs| && recs[i].emp in ids ==> recs[i].pillar == a || recs[i].pillar == b
    ensures forall p :: p in Profile(recs, ids) <==> p == a || p == b
  {
  }

  /** A pillar with a single benchmark score has that score in the profile. */
  lemma SingleScore(recs: seq<Rec>, ids: seq<string>, p: string, x: real)
    requires BenchmarkScores(recs, ids, p) == [x]
    ensures p in Profile(recs, ids) && Profile(recs, ids)[p] == x
  {
    assert [x][1..] == [];
    assert Sum([x]) == x;
  }

  lemma ThreeEmployeesBenchmark()
    ensures BenchmarkScores(ThreeEmployees(), ["E1"], "P1") == [5.0]
    ensures BenchmarkScores(ThreeEmployees(), ["E1"], "P2") == [3.0]
  {
    var recs := ThreeEmployees();
    assert BenchmarkScores(recs[2..], ["E1"], "P1") == [] by {
      assert forall i :: 0 <= i < |recs[2..]| ==> recs[2..][i].emp !in ["E1"];
    }
    assert BenchmarkScores(recs[2..], ["E1"], "P2") == [] by {
      assert forall i :: 0 <= i < |recs[2..]| ==> recs[2..][i].emp !in ["E1"];
    }
    assert BenchmarkScores(recs[1..], ["E1"], "P1") == [];
    assert BenchmarkScores(recs[1..], ["E1"], "P2") == [3.0];
  }

  /** The profile of benchmark E1 is {P1: 5, P2: 3}. */
  lemma ThreeEmployeesProfile()
    ensures forall p :: p in Profile(ThreeEmployees(), ["E1"]) <==> p == "P1" || p == "P2"
    ensures Profile(ThreeEmployees(), ["E1"])["P1"] == 5.0
    ensures Profile(ThreeEmployees(), ["E1"])["P2"] == 3.0
  {
    TwoPillars(ThreeEmployees(), ["E1"], "P1", "P2");
    ThreeEmployeesBenchmark();
    SingleScore(ThreeEmployees(), ["E1"], "P1", 5.0);
    SingleScore(ThreeEmployees(), ["E1"], "P2", 3.0);
  }

  lemma ThreeEmployeesGaps(profile: map<string, real>)
    requires forall p :: p in profile <==> p == "P1" || p == "P2"
    requires profile["P1"] == 5.0 && profile["P2"] == 3.0
    ensures EmployeeGaps(ThreeEmployees(), profile, "E2") == [0.0, 0.0]
    ensures EmployeeGaps(ThreeEmployees(), profile, "E3") == [4.0, 2.0]
  {
    var recs := ThreeEmployees();
    assert EmployeeGaps(recs[6..], profile, "E2") == [] && EmployeeGaps(recs[6..], profile, "E3") == [];
    assert EmployeeGaps(recs[5..], profile, "E2") == [] && EmployeeGaps(recs[5..], profile, "E3") == [2.0];
    assert EmployeeGaps(recs[4..], profile, "E2") == [] && EmployeeGaps(recs[4..], profile, "E3") == [4.0, 2.0];
    assert EmployeeGaps(recs[3..], profile, "E2") == [0.0] && EmployeeGaps(recs[3..], profile, "E3") == [4.0, 2.0];
    assert EmployeeGaps(recs[2..], profile, "E2") == [0.0, 0.0] && EmployeeGaps(recs[2..], profile, "E3") == [4.0, 2.0];
    assert EmployeeGaps(recs[1..], profile, "E2") == [0.0, 0.0] && EmployeeGaps(recs[1..], profile, "E3") == [4.0, 2.0];
  }

  /** The benchmark employee matches its own profile. */
  lemma BenchmarkOwnGaps(profile: map<string, real>)
    requires forall p :: p in profile <==> p == "P1" || p == "P2"
    requires profile["P1"] == 5.0 && profile["P2"] == 3.0
    ensures EmployeeGaps(ThreeEmployees(), profile, "E1") == [0.0, 0.0]
  {
    var recs := ThreeEmployees();
    assert EmployeeGaps(recs[2..], profile, "E1") == [] by {
      assert !Covered(recs[2..], profile, "E1") by {
        assert forall i :: 0 <= i < |recs[2..]| ==> recs[2..][i].emp != "E1";
      }
    }
    assert EmployeeGaps(recs[1..], profile, "E1") == [0.0];
  }

  /** E1 and E2 score the profile exactly (match rate 1) and E3 is off by
      4 and 2 (gap 3, match rate -2: the rate is not clamped at 0). Each
      of the three, listed in the employee table, is scored. */
  lemma ThreeEmployeesScores(employees: seq<Employee>)
    requires Listed(employees, "E1") && Listed(employees, "E2") && Listed(employees, "E3")
    ensures exists m :: m in Score(ThreeEmployees(), Profile(ThreeEmployees(), ["E1"]), employees) && m.emp == "E1"
    ensures exists m :: m in Score(ThreeEmployees(), Profile(ThreeEmployees(), ["E1"]), employees) && m.emp == "E2"
    ensures exists m :: m in Score(ThreeEmployees(), Profile(ThreeEmployees(), ["E1"]), employees) && m.emp == "E3"
    ensures forall m :: m in Score(ThreeEmployees(), Profile(ThreeEmployees(), ["E1"]), employees) ==>
              && (m.emp == "E1" ==> m.gap == 0.0 && m.matchRate == 1.0)
              && (m.emp == "E2" ==> m.gap == 0.0 && m.matchRate == 1.0)
              && (m.emp == "E3" ==> m.gap == 3.0 && m.matchRate == -2.0)
  {
    ThreeEmployeesProfile();
    ThreeEmployeesScoresFor(Profile(ThreeEmployees(), ["E1"]), employees);
    ThreeEmployeesScoredFor(ThreeEmployees(), Profile(ThreeEmployees(), ["E1"]), employees);
  }

  lemma ThreeEmployeesScoresFor(profile: map<string, real>, employees: seq<Employee>)
    requires forall p :: p in profile <==> p == "P1" || p == "P2"
    requires profile["P1"] == 5.0 && profile["P2"] == 3.0
    ensures forall m :: m in Score(ThreeEmployees(), profile, employees) ==>
              && (m.emp == "E1" ==> m.gap == 0.0 && m.matchRate == 1.0)
              && (m.emp == "E2" ==> m.gap == 0.0 && m.matchRate == 1.0)
              && (m.emp == "E3" ==> m.gap == 3.0 && m.matchRate == -2.0)
  {
    BenchmarkOwnGaps(profile);
    ThreeEmployeesGaps(profile);
    ScoredRates(ThreeEmployees(), profile, employees);
  }

  /** All three employees have records on the profile's pillars, so each
      one listed in the employee table gets a row. */
  lemma ThreeEmployeesScoredFor(recs: seq<Rec>, profile: map<string, real>, employees: seq<Employee>)
    requires recs == ThreeEmployees()
    requires forall p :: p in profile <==> p == "P1" || p == "P2"
    requires Listed(employees, "E1") && Listed(employees, "E2") && Listed(employees, "E3")
    ensures exists m :: m in Score(recs, profile, employees) && m.emp == "E1"
    ensures exists m :: m in Score(recs, profile, employees) && m.emp == "E2"
    ensures exists m :: m in Score(recs, profile, employees) && m.emp == "E3"
  {
    assert recs[0].emp == "E1" && recs[2].emp == "E2" && recs[4].emp == "E3";
    assert recs[0].pillar == "P1" && recs[2].pillar == "P1" && recs[4].pillar == "P1";
    ScoredAt(recs, profile, employees, 0);
    ScoredAt(recs, profile, employees, 2);
    ScoredAt(recs, profile, employees, 4);
  }

  /** An employee with one record on a profile pillar, listed in the
      employee table, gets a row. */
  lemma ScoredAt(recs: seq<Rec>, profile: map<string, real>, employees: seq<Employee>, i: int)
    requires 0 <= i < |recs| && recs[i].pillar in profile && Listed(employees, recs[i].emp)
    ensures exists m :: m in Score(recs, profile, employees) && m.emp == recs[i].emp
  {
    var e := recs[i].emp;
    assert Covered(recs, profile, e);
    assert Listed(employees, e);
    var r := Score(recs, profile, employees);
    assert Covered(recs, profile, e) && Listed(employees, e) <==> exists m :: m in r && m.emp == e;
  }

  /** A non-increasing table of at most ten rows is an admissible
      ranking of any of its rearrangements. */
  lemma WholeTableRanking(s: seq<Match>, t: seq<Match>)
    requires |t| <= TopN && NonIncreasing(t)
    requires multiset(t) == multiset(s)
    ensures IsRanking(s, t)
  {
    assert |t| == |multiset(t)| == |multiset(s)| == |s|;
    assert t == t[..Min(TopN, |s|)];
  }

  lemma ThreeRatesNonIncreasing(a: Match, b: Match, c: Match)
    requires a.matchRate == 1.0 && b.matchRate == 1.0 && c.matchRate == -2.0
    ensures NonIncreasing([a, b, c])
  {
  }

  lemma SwapFirstTwo(a: Match, b: Match, c: Match)
    ensures multiset([b, a, c]) == multiset([a, b, c])
  {
    assert [b, a, c] == [b] + [a] + [c] && [a, b, c] == [a] + [b] + [c];
  }

  /** The ranking of that table: E1 and E2 tie at 1 and E3 follows at -2.
      Both tie orders are admissible outcomes of the unstable sort. */
  lemma ThreeEmployeesTieOrders(e1: Match, e2: Match, e3: Match)
    requires e1.matchRate == 1.0 && e2.matchRate == 1.0 && e3.matchRate == -2.0
    ensures IsRanking([e1, e2, e3], [e2, e1, e3])
    ensures IsRanking([e1, e2, e3], [e1, e2, e3])
  {
    ThreeRatesNonIncreasing(e2, e1, e3);
    ThreeRatesNonIncreasing(e1, e2, e3);
    SwapFirstTwo(e1, e2, e3);
    WholeTableRanking([e1, e2, e3], [e2, e1, e3]);
    WholeTableRanking([e1, e2, e3], [e1, e2, e3]);
  }

  /** A table already in ranking order, of at most ten rows, ranks with
      its own match rates, whatever the tie order. */
  lemma RankOfRankedTable(s: seq<Match>)
    requires |s| <= TopN && NonIncreasing(s)
    ensures Rates(Rank(s)) == Rates(s)
  {
    WholeTableRanking(s, s);
    RankIsRanking(s);
    RankingRatesDetermined(s, Rank(s), s);
  }

  /** Whatever the tie order, the ranking shows the rates 1, 1, -2. */
  lemma ThreeEmployeesRanking(s: seq<Match>)
    requires |s| == 3 && s[0].matchRate == 1.0 && s[1].matchRate == 1.0 && s[2].matchRate == -2.0
    ensures Rates(Rank(s)) == [1.0, 1.0, -2.0]
  {
    RankOfRankedTable(s);
  }

  /** A table ordered by employee ID whose rows are for `a`, `b` and `c`
      only, each present, is exactly one row for each, in that order. */
  lemma ThreeRows(r: seq<Match>, a: string, b: string, c: string)
    requires ByEmployee(r) && Below(a, b) && Below(b, c)
    requires forall m :: m in r ==> m.emp == a || m.emp == b || m.emp == c
    requires exists m :: m in r && m.emp == a
    requires exists m :: m in r && m.emp == b
    requires exists m :: m in r && m.emp == c
    ensures |r| == 3 && r[0].emp == a && r[1].emp == b && r[2].emp == c
  {
    var ma :| ma in r && ma.emp == a;
    var mb :| mb in r && mb.emp == b;
    var mc :| mc in r && mc.emp == c;
    var ia :| 0 <= ia < |r| && r[ia] == ma;
    var ib :| 0 <= ib < |r| && r[ib] == mb;
    var ic :| 0 <= ic < |r| && r[ic] == mc;
    RowsInOrder(r, ia, ib);
    RowsInOrder(r, ib, ic);
    RowAt(r, a, b, c, ia, ib, ic, 0);
    assert ia == 0;
    RowAt(r, a, b, c, ia, ib, ic, ia + 1);
    assert ib == 1;
    RowAt(r, a, b, c, ia, ib, ic, ib + 1);
    assert ic == 2;
    RowAt(r, a, b, c, ia, ib, ic, |r| - 1);
  }

  /** In a table ordered by employee ID, the row of a lower ID comes first. */
  lemma RowsInOrder(r: seq<Match>, i: int, j: int)
    requires ByEmployee(r) && 0 <= i < |r| && 0 <= j < |r| && Below(r[i].emp, r[j].emp)
    ensures i < j
  {
    BelowIrreflexive(r[i].emp);
    if j < i {
      BelowTransitive(r[i].emp, r[j].emp, r[i].emp);
    }
  }

  /** In such a table every row sits at the index of one of the three. */
  lemma RowAt(r: seq<Match>, a: string, b: string, c: string, ia: int, ib: int, ic: int, x: int)
    requires ByEmployee(r)
    requires forall m :: m in r ==> m.emp == a || m.emp == b || m.emp == c
    requires 0 <= ia < |r| && r[ia].emp == a
    requires 0 <= ib < |r| && r[ib].emp == b
    requires 0 <= ic < |r| && r[ic].emp == c
    requires 0 <= x < |r|
    ensures x == ia || x == ib || x == ic
  {
    assert r[x] in r;
    BelowIrreflexive(r[x].emp);
  }

  /** A table ordered by employee ID holding one row each for E1 and E2 at
      rate 1 and E3 at rate -2, and nothing else, ranks to 1, 1, -2. */
  lemma ThreeRowsRanking(r: seq<Match>)
    requires ByEmployee(r)
    requires forall m :: m in r ==> m.emp == "E1" || m.emp == "E2" || m.emp == "E3"
    requires exists m :: m in r && m.emp == "E1"
    requires exists m :: m in r && m.emp == "E2"
    requires exists m :: m in r && m.emp == "E3"
    requires forall m :: m in r ==>
              && (m.emp == "E1" ==> m.matchRate == 1.0)
              && (m.emp == "E2" ==> m.matchRate == 1.0)
              && (m.emp == "E3" ==> m.matchRate == -2.0)
    ensures Rates(Rank(r)) == [1.0, 1.0, -2.0]
  {
    assert Below("E1", "E2") && Below("E2", "E3");
    ThreeRows(r, "E1", "E2", "E3");
    assert r[0] in r && r[1] in r && r[2] in r;
    ThreeEmployeesRanking(r);
  }

  /** End to end: scoring the three employees against E1's profile, with
      each listed once in the employee table, ranks to the rates 1, 1, -2. */
  lemma ThreeEmployeesRanked(employees: seq<Employee>)
    requires |employees| == 3
    requires employees[0].id == "E1" && employees[1].id == "E2" && employees[2].id == "E3"
    ensures Rates(Rank(Score(ThreeEmployees(), Profile(ThreeEmployees(), ["E1"]), employees))) == [1.0, 1.0, -2.0]
  {
    ThreeEmployeesProfile();
    ThreeEmployeesRankedFor(Profile(ThreeEmployees(), ["E1"]), employees);
  }

  lemma ThreeEmployeesRankedFor(profile: map<string, real>, employees: seq<Employee>)
    requires forall p :: p in profile <==> p == "P1" || p == "P2"
    requires profile["P1"] == 5.0 && profile["P2"] == 3.0
    requires |employees| == 3
    requires employees[0].id == "E1" && employees[1].id == "E2" && employees[2].id == "E3"
    ensures Rates(Rank(Score(ThreeEmployees(), profile, employees))) == [1.0, 1.0, -2.0]
  {
    var recs := ThreeEmployees();
    assert recs[0].emp == "E1" && recs[2].emp == "E2" && recs[4].emp == "E3";
    assert recs[0].pillar == "P1" && recs[2].pillar == "P1" && recs[4].pillar == "P1";
    BenchmarkOwnGaps(profile);
    ThreeEmployeesGaps(profile);
    RankedFromGaps(recs, profile, employees, 0, 2, 4);
  }

  /** Whatever the records, if E1 and E2 have gaps 0 and 0 and E3 has gaps
      4 and 2, and the employee table lists E1, E2 and E3, the ranking shows
      the rates 1, 1, -2. */
  lemma RankedFromGaps(recs: seq<Rec>, profile: map<string, real>, employees: seq<Employee>, i1: int, i2: int, i3: int)
    requires 0 <= i1 < |recs| && recs[i1].emp == "E1" && recs[i1].pillar in profile
    requires 0 <= i2 < |recs| && recs[i2].emp == "E2" && recs[i2].pillar in profile
    requires 0 <= i3 < |recs| && recs[i3].emp == "E3" && recs[i3].pillar in profile
    requires EmployeeGaps(recs, profile, "E1") == [0.0, 0.0]
    requires EmployeeGaps(recs, profile, "E2") == [0.0, 0.0]
    requires EmployeeGaps(recs, profile, "E3") == [4.0, 2.0]
    requires |employees| == 3
    requires employees[0].id == "E1" && employees[1].id == "E2" && employees[2].id == "E3"
    ensures Rates(Rank(Score(recs, profile, employees))) == [1.0, 1.0, -2.0]
  {
    ThreeIdsUnique(employees);
    assert Listed(employees, "E1") && Listed(employees, "E2") && Listed(employees, "E3") by {
      assert employees[0].id == "E1" && employees[1].id == "E2" && employees[2].id == "E3";
    }
    ScoredRates(recs, profile, employees);
    var r := Score(recs, profile, employees);
    NamedAmongThree(r, employees);
    ScoredAt(recs, profile, employees, i1);
    ScoredAt(recs, profile, employees, i2);
    ScoredAt(recs, profile, employees, i3);
    ThreeRowsRanking(r);
  }

  /** Gaps 0 and 0 score gap 0 and rate 1; gaps 4 and 2 score gap 3 and
      rate -2. */
  lemma ScoredRates(recs: seq<Rec>, profile: map<string, real>, employees: seq<Employee>)
    requires EmployeeGaps(recs, profile, "E1") == [0.0, 0.0]
    requires EmployeeGaps(recs, profile, "E2") == [0.0, 0.0]
    requires EmployeeGaps(recs, profile, "E3") == [4.0, 2.0]
    ensures forall m :: m in Score(recs, profile, employees) ==>
              && (m.emp == "E1" ==> m.gap == 0.0 && m.matchRate == 1.0)
              && (m.emp == "E2" ==> m.gap == 0.0 && m.matchRate == 1.0)
              && (m.emp == "E3" ==> m.gap == 3.0 && m.matchRate == -2.0)
  {
    assert Mean([0.0, 0.0]) == 0.0;
    assert Mean([4.0, 2.0]) == 3.0;
  }

  /** A three-row employee table with IDs E1, E2 and E3 has unique IDs. */
  lemma ThreeIdsUnique(employees: seq<Employee>)
    requires |employees| == 3
    requires employees[0].id == "E1" && employees[1].id == "E2" && employees[2].id == "E3"
    ensures UniqueIds(employees)
  {
    assert "E1"[1] != "E2"[1] && "E1"[1] != "E3"[1] && "E2"[1] != "E3"[1];
  }

  /** Rows named from a three-row employee table are for its three IDs. */
  lemma NamedAmongThree(r: seq<Match>, employees: seq<Employee>)
    requires |employees| == 3
    requires employees[0].id == "E1" && employees[1].id == "E2" && employees[2].id == "E3"
    requires forall m :: m in r ==> exists k :: 0 <= k < |employees| && employees[k] == Employee(m.emp, m.fullname)
    ensures forall m :: m in r ==> m.emp == "E1" || m.emp == "E2" || m.emp == "E3"
  {
    forall m | m in r
      ensures m.emp == "E1" || m.emp == "E2" || m.emp == "E3"
    {
      var k :| 0 <= k < |employees| && employees[k] == Employee(m.emp, m.fullname);
      assert m.emp == employees[k].id;
    }
  }

  /** Records for several years: two on P1 for employee X. */
  function YearlyRecords(): seq<Rec> {
    [ Rec("B", "P1", 5.0), Rec("B", "P2", 5.0)
    , Rec("X", "P1", 5.0), Rec("X", "P1", 5.0), Rec("X", "P2", 2.0) ]
  }

  lemma YearlyProfile()
    ensures forall p :: p in Profile(YearlyRecords(), ["B"]) <==> p == "P1" || p == "P2"
    ensures Profile(YearlyRecords(), ["B"])["P1"] == 5.0
    ensures Profile(YearlyRecords(), ["B"])["P2"] == 5.0
  {
    var recs := YearlyRecords();
    var profile := Profile(recs, ["B"]);
    assert recs[0].emp in ["B"] && recs[0].pillar == "P1";
    assert recs[1].emp in ["B"] && recs[1].pillar == "P2";
    forall p | p in profile
      ensures p == "P1" || p == "P2"
    {
      var i :| 0 <= i < |recs| && recs[i].emp in ["B"] && recs[i].pillar == p;
    }
    assert BenchmarkScores(recs, ["B"], "P1") == [5.0];
    assert BenchmarkScores(recs, ["B"], "P2") == [5.0];
    assert Mean([5.0]) == 5.0;
  }

  lemma YearlyGaps(profile: map<string, real>)
    requires forall p :: p in profile <==> p == "P1" || p == "P2"
    requires profile["P1"] == 5.0 && profile["P2"] == 5.0
    ensures EmployeeGaps(YearlyRecords(), profile, "X") == [0.0, 0.0, 3.0]
  {
    var recs := YearlyRecords();
    assert EmployeeGaps(recs[5..], profile, "X") == [];
    assert EmployeeGaps(recs[4..], profile, "X") == [3.0];
    assert EmployeeGaps(recs[3..], profile, "X") == [0.0, 3.0];
    assert EmployeeGaps(recs[2..], profile, "X") == [0.0, 0.0, 3.0];
    assert EmployeeGaps(recs[1..], profile, "X") == [0.0, 0.0, 3.0];
  }

  /** Every record is compared on its own, so a pillar with records for
      several years weighs more: against a benchmark of 5 on P1 and P2,
      scores 5, 5 on P1 and 2 on P2 give gap (0 + 0 + 3) / 3 = 1, not the
      (0 + 3) / 2 = 1.5 of averaging per pillar first. */
  lemma RepeatedRecordsWeighMore(employees: seq<Employee>)
    requires Listed(employees, "X")
    ensures exists m :: m in Score(YearlyRecords(), Profile(YearlyRecords(), ["B"]), employees) && m.emp == "X"
    ensures forall m :: m in Score(YearlyRecords(), Profile(YearlyRecords(), ["B"]), employees) && m.emp == "X" ==>
              m.gap == 1.0 && m.matchRate == 0.0
  {
    YearlyProfile();
    YearlyScoresFor(Profile(YearlyRecords(), ["B"]), employees);
  }

  lemma YearlyScoresFor(profile: map<string, real>, employees: seq<Employee>)
    requires forall p :: p in profile <==> p == "P1" || p == "P2"
    requires profile["P1"] == 5.0 && profile["P2"] == 5.0
    requires Listed(employees, "X")
    ensures exists m :: m in Score(YearlyRecords(), profile, employees) && m.emp == "X"
    ensures forall m :: m in Score(YearlyRecords(), profile, employees) && m.emp == "X" ==>
              m.gap == 1.0 && m.matchRate == 0.0
  {
    YearlyGaps(profile);
    assert Mean([0.0, 0.0, 3.0]) == 1.0;
    var recs := YearlyRecords();
    assert recs[2].emp == "X" && recs[2].pillar == "P1";
    ScoredAt(recs, profile, employees, 2);
  }

  /** A benchmark on P1 and P2 and an employee X with a record on P1 only. */
  function RadarRecords(): seq<Rec> {
    [Rec("B", "P1", 5.0), Rec("B", "P2", 3.0), Rec("X", "P1", 4.0)]
  }

  lemma RadarProfile()
    ensures forall p :: p in Profile(RadarRecords(), ["B"]) <==> p == "P1" || p == "P2"
    ensures Profile(RadarRecords(), ["B"])["P1"] == 5.0
    ensures Profile(RadarRecords(), ["B"])["P2"] == 3.0
  {
    var recs := RadarRecords();
    var profile := Profile(recs, ["B"]);
    assert recs[0].emp in ["B"] && recs[0].pillar == "P1";
    assert recs[1].emp in ["B"] && recs[1].pillar == "P2";
    forall p | p in profile
      ensures p == "P1" || p == "P2"
    {
      var i :| 0 <= i < |recs| && recs[i].emp in ["B"] && recs[i].pillar == p;
    }
    assert BenchmarkScores(recs, ["B"], "P1") == [5.0];
    assert BenchmarkScores(recs, ["B"], "P2") == [3.0];
    assert Mean([5.0]) == 5.0;
    assert Mean([3.0]) == 3.0;
  }

  /** The profile's index for that benchmark is P1, P2. */
  lemma RadarIndex()
    ensures ProfileIndex(RadarRecords(), ["B"]) == ["P1", "P2"]
  {
    assert BenchmarkObs(RadarRecords(), ["B"]) == [Obs("P1", 5.0), Obs("P2", 3.0)];
    assert Below("P1", "P2");
  }

  /** X's scores on the two pillars: 4 on P1, none on P2. */
  lemma RadarEmployeeScores()
    ensures EmployeeScores(RadarRecords(), "X", "P1") == [4.0]
    ensures EmployeeScores(RadarRecords(), "X", "P2") == []
  {
  }

  lemma RadarFor(recs: seq<Rec>, ids: seq<string>, e: string)
    requires ProfileIndex(recs, ids) == ["P1", "P2"]
    requires "P1" in Profile(recs, ids) && Profile(recs, ids)["P1"] == 5.0
    requires "P2" in Profile(recs, ids) && Profile(recs, ids)["P2"] == 3.0
    requires EmployeeScores(recs, e, "P1") == [4.0] && EmployeeScores(recs, e, "P2") == []
    ensures Compare(recs, ids, e) == [Spoke("P1", 5.0, 4.0), Spoke("P2", 3.0, 0.0)]
  {
    var means := EmployeeMeans(recs, e);
    assert "P1" in means && means["P1"] == 4.0 by {
      assert Mean([4.0]) == 4.0;
    }
    assert "P2" !in means;
    ReindexTwo(ProfileIndex(recs, ids), Profile(recs, ids), means);
  }

  lemma ReindexTwo(index: seq<string>, profile: map<string, real>, emp: map<string, real>)
    requires index == ["P1", "P2"]
    requires forall p :: p in index <==> p in profile
    requires profile["P1"] == 5.0 && profile["P2"] == 3.0
    requires "P1" in emp && emp["P1"] == 4.0 && "P2" !in emp
    ensures Ascending(index)
    ensures Reindex(index, profile, emp) == [Spoke("P1", 5.0, 4.0), Spoke("P2", 3.0, 0.0)]
  {
    assert Below("P1", "P2");
    var spokes := Reindex(index, profile, emp);
    assert |spokes| == 2 && spokes[0].pillar == "P1" && spokes[1].pillar == "P2";
  }

  /** The radar for X: spokes P1 then P2, with X's value 4 on P1 and the
      filled-in 0 on P2. */
  lemma RadarFillsMissingPillar()
    ensures var spokes := Compare(RadarRecords(), ["B"], "X");
            && |spokes| == 2
            && spokes[0] == Spoke("P1", 5.0, 4.0)
            && spokes[1] == Spoke("P2", 3.0, 0.0)
  {
    RadarIndex();
    RadarProfile();
    RadarEmployeeScores();
    RadarFor(RadarRecords(), ["B"], "X");
  }
}
