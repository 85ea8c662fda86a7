# Talent match-rate scorer, modelled in Dafny

This project models the scoring core of the AI talent dashboard (`app.py`).
A user names benchmark employees: high performers whose competency scores
define the target profile for a role. The dashboard does the following:

- It parses the comma-separated ID text (line 34).
- It averages the benchmark group's competency scores per pillar into a
  profile (line 39).
- It joins every competency record to the profile on its pillar and takes
  the absolute gap (lines 42-43).
- It averages each employee's gaps and sets `match_rate = 1 - gap`
  (lines 44-47).
- It attaches employee names (line 48).
- It ranks the rows by match rate and keeps the top ten (line 49).
- It builds the radar comparison of one employee against the profile,
  with pillars where the employee has no record filled in as 0
  (lines 66-70).

The model is pure: rows are datatypes, tables are sequences, pandas
Series are maps, and every step is a function whose contract says what the
step means. The modules are:

- `Text`: Python's `str.split(",")`, `str.strip()` and `str` ordering.
- `Grouping`: sums, means, pandas `groupby(...).mean()` and its sorted
  key index.
- `Scorer`: ID parsing, the benchmark profile, the merge, per-employee
  gaps, the summary table and the name join.
- `Ranking`: the descending sort, `head(10)` and what any admissible
  ranking must show.
- `Radar`: the employee's per-pillar means, reindexed on the profile with 0
  for missing pillars.
- `Dashboard`: the pipeline end to end, and properties of the whole.
- `Scenarios`: small tables worked through the model.

Four points where the code may surprise a reader, each modelled as written:

- Gaps are taken per record, not per pillar after averaging each
  employee's years. A pillar with several yearly records therefore weighs
  more (`Scenarios.RepeatedRecordsWeighMore`).
- No record, or no benchmark overlap, raises no error. The profile,
  the summary and the ranking come out empty (`Dashboard.NoBenchmarkOverlap`).
- `sort_values` defaults to quicksort, which is not stable. Tie order
  is therefore unspecified rather than insertion order. The model states
  which outcomes are admissible (`Ranking.IsRanking`) and proves that every
  admissible outcome shows the same match rates.
- `ranked` keeps only the first ten rows (`head(10)`); the rest of
  `score_summary` never reaches the ranking.

## Model

| member | source | states |
|---|---|---|
| Text.Split | app.py:34 | `split(",")` gives one piece more than there are commas; no piece contains a comma; the pieces joined with commas give the text back |
| Text.SplitJoin | app.py:34 | splitting comma-joined comma-free pieces recovers exactly those pieces, empty ones included, in order |
| Text.Strip | app.py:34 | a stripped string has no whitespace (Python's `isspace` set) at either end |
| Text.StripDecomposes | app.py:34 | every string is whitespace, then its stripped form, then whitespace |
| Text.StripPadded | app.py:34 | stripping a string with no edge whitespace, padded by whitespace on both sides, gives it back |
| Text.StripIdempotent | app.py:34 | stripping twice is stripping once |
| Text.StripInside | app.py:34 | stripping adds no character, so a comma-free piece stays comma-free |
| Text.BelowIrreflexive | app.py:39 | Python's string order never puts a string below itself |
| Text.BelowTransitive | app.py:39 | Python's string order is transitive |
| Text.BelowTotal | app.py:39 | any two different strings are ordered one way or the other |
| Scorer.ParseIds | app.py:34 | one ID per comma-separated piece, each the stripped piece, with no edge whitespace and no comma |
| Scorer.ParseIdsJoin | app.py:34 | IDs written out comma-separated are parsed back exactly |
| Scorer.ParseIdsPadded | app.py:34 | IDs written comma-separated with any whitespace around each (as in `"EMP100001, EMP100005"`) are parsed back exactly |
| Scorer.BenchmarkObs | app.py:39 | the filtered benchmark rows are exactly the (pillar, score) pairs of records whose employee is in the ID list |
| Scorer.BenchmarkScores | app.py:39 | a pillar has benchmark scores exactly when some benchmark employee has a record on it |
| Scorer.BenchmarkObsGroup | app.py:39 | the group of a pillar in the filtered benchmark rows is that pillar's benchmark scores, in row order |
| Grouping.TotalCountOfGroup | app.py:39 | pandas' per-key sum and count are the sum and the length of that key's group; a key has a group exactly when it occurs |
| Grouping.GroupMean | app.py:39 | `groupby(...).mean()` has exactly the keys that occur, each mapped to the mean of its group |
| Grouping.SortedKeys | app.py:39 | the group-by index holds exactly the keys that occur, in strictly ascending string order |
| Grouping.AscendingDistinct | app.py:39 | an ascending index has no repeated key, so `benchmark_avg.index` names each pillar once |
| Scorer.Profile | app.py:39 | a pillar is in `benchmark_avg` exactly when a benchmark employee has a record on it, and its value is the mean of those records' scores |
| Scorer.Abs | app.py:43 | the absolute value is non-negative and equals the argument or its negation |
| Scorer.Merge | app.py:42-45 | every row of `merged` is the join of a record whose pillar is in the profile, carrying the profile's score as `score_bm` and `abs(score_emp - score_bm)` as `gap`, and every such record is joined; grouping its gap column by employee gives exactly that employee's gaps, one per record on a profile pillar, in row order |
| Scorer.EmployeeGaps | app.py:42-45 | an employee has gaps exactly when they have a record on a profile pillar; every gap is non-negative |
| Grouping.MeanAtLeast | app.py:45 | a mean is at least any lower bound of its elements |
| Grouping.MeanAtMost | app.py:45 | a mean is at most any upper bound of its elements |
| Scorer.Summarize | app.py:44-47 | `score_summary` has one row per employee with a record on a profile pillar, in ascending ID order; its gap is the mean of the employee's gaps, is non-negative, and `match_rate = 1 - gap <= 1` |
| Scorer.NameRows | app.py:48 | a summary row yields named rows exactly for the `employees` rows with its ID, carrying their names: none when the ID is not listed, at most one when the IDs are unique |
| Scorer.AttachNames | app.py:48 | the inner join on `employee_id` yields exactly the rows pairing a summary row with an `employees` row of the same ID; with unique IDs it keeps the summary's ascending ID order, one row per employee |
| Scorer.Score | app.py:42-48 | every scored row has the mean gap of its employee, a non-negative gap, `match_rate = 1 - gap <= 1`, and a name from `employees`; an employee is scored exactly when covered by the profile and listed in `employees`; with unique IDs the rows are in ascending ID order, one per employee |
| Scorer.ByEmployeeDistinct | app.py:44-48 | rows in strictly ascending ID order never repeat an employee |
| Ranking.InsertByRate | app.py:49 | inserting into a non-increasing table keeps it non-increasing and adds exactly that row |
| Ranking.SortByRate | app.py:49 | the descending sort is a non-increasing permutation of the table |
| Ranking.Rank | app.py:49 | `ranked` has `min(10, n)` rows, is non-increasing, is a sub-multiset of the table, and no dropped row has a higher match rate than a kept one |
| Ranking.RankingIsTop | app.py:49 | every admissible outcome (`Ranking.IsRanking`: the first `min(10, n)` rows of some non-increasing permutation of the table) has `min(10, n)` rows, is non-increasing, is a sub-multiset of the table, and ranks no dropped row above a kept one |
| Ranking.RankIsRanking | app.py:49 | the model's ranking is an admissible outcome of sorting descending and keeping ten rows |
| Ranking.RankingRatesDetermined | app.py:49 | any two admissible rankings show the same match rates in the same order; only tie order can differ |
| Ranking.SubDistinct | app.py:49 | rows taken (as a sub-multiset) from a table that never repeats an employee never repeat one |
| Ranking.RankingDistinct | app.py:49 | an admissible ranking of a table that never repeats an employee never repeats one |
| Radar.EmployeeObs | app.py:66 | the employee's filtered rows are exactly the (pillar, score) pairs of that employee's records |
| Radar.EmployeeObsGroup | app.py:66 | the group of a pillar in the employee's filtered rows is that employee's scores on the pillar, in row order |
| Radar.EmployeeScores | app.py:66 | an employee has scores on a pillar exactly when they have a record on it |
| Radar.EmployeeMeans | app.py:66 | `emp_comp` has exactly the pillars the employee has records on, each mapped to the mean of those scores |
| Radar.ProfileIndex | app.py:39 | `benchmark_avg.index` holds exactly the profile's pillars, ascending, none twice |
| Radar.Reindex | app.py:67-70 | one spoke per index pillar, in index order, with the profile's value as benchmark and the employee's mean, or 0 when missing, as employee value |
| Radar.Compare | app.py:66-70 | `compare_df` has one spoke per profile pillar in ascending pillar order, no pillar twice, the profile's mean as benchmark, and the employee's mean on that pillar or 0 |
| Dashboard.ScoreSummary | app.py:34-48 | from the sidebar text to `score_summary`: against the profile of the parsed IDs, every row has its employee's mean gap, non-negative, and a match rate of 1 minus it, and a name from `employees`; an employee has a row exactly when covered by that profile and listed; with unique IDs the rows are in ascending ID order, one per employee |
| Dashboard.Ranked | app.py:49 | `ranked` has at most ten rows, each a row of `score_summary` with a match rate of at most 1; with unique employee IDs no employee appears twice |
| Dashboard.BenchmarkObsSameIds | app.py:39 | benchmark rows depend only on which employees the ID list admits |
| Dashboard.ProfileSameIds | app.py:34-39 | ID lists that admit the same employees (reordered, repeated, or naming absent IDs) give the same profile |
| Dashboard.NoBenchmarkOverlap | app.py:39-49 | when no record belongs to a benchmark ID, the profile, the summary and the ranking are all empty, with no error |
| Dashboard.ZeroGaps | app.py:43 | an employee whose scores equal the profile on every covered record has only zero gaps |
| Dashboard.PerfectMatch | app.py:42-47 | such an employee scores gap 0 and match rate 1 |
| Dashboard.BenchmarkScoresFrom | app.py:39 | every benchmark score on a pillar is the score of some record on that pillar |
| Dashboard.UniformScores | app.py:39-47 | when all records on each pillar carry the same score, every scored employee has gap 0 and match rate 1 |
| Scenarios.ParseKeepsEmptyPiece | app.py:34 | `"a,,b"` parses to `a`, an empty ID, `b` |
| Scenarios.ThreeEmployeesProfile | app.py:39 | with E1 as benchmark, the profile is P1 = 5, P2 = 3 |
| Scenarios.ThreeEmployeesScores | app.py:42-48 | with E1, E2 and E3 listed, each gets a row; E1 (the benchmark itself) and E2 (equal to it) score gap 0 and rate 1; E3, off by 4 and 2, scores gap 3 and rate -2 (no clamping at 0) |
| Scenarios.ScoredAt | app.py:42-48 | an employee with a record on a profile pillar who is listed in `employees` gets a row |
| Scenarios.ScoredRates | app.py:44-47 | gaps 0 and 0 score gap 0 and rate 1; gaps 4 and 2 score gap 3 and rate -2 |
| Scenarios.WholeTableRanking | app.py:49 | a non-increasing rearrangement of a table of at most ten rows is an admissible ranking of it |
| Scenarios.ThreeEmployeesTieOrders | app.py:49 | with rates 1, 1, -2 both orders of the tied rows are admissible rankings |
| Scenarios.RankOfRankedTable | app.py:49 | a non-increasing table of at most ten rows ranks with its own match rates |
| Scenarios.ThreeEmployeesRanking | app.py:49 | rates 1, 1, -2 rank as 1, 1, -2 whatever the tie order |
| Scenarios.ThreeRows | app.py:48 | a table in ascending ID order whose rows are for three IDs only, each present, is exactly one row for each, in order |
| Scenarios.ThreeRowsRanking | app.py:49 | such a table for E1, E2, E3 with rates 1, 1, -2 ranks to 1, 1, -2 |
| Scenarios.RankedFromGaps | app.py:42-49 | for any records giving E1 and E2 gaps 0, 0 and E3 gaps 4, 2, with E1, E2, E3 listed once each, `ranked` shows rates 1, 1, -2 |
| Scenarios.ThreeEmployeesRanked | app.py:39-49 | end to end on the three-employee table with E1 as benchmark: `ranked` shows rates 1, 1, -2 |
| Scenarios.RepeatedRecordsWeighMore | app.py:42-48 | with X listed, X gets a row, and two yearly records of 5 on P1 and one of 2 on P2, against a profile of 5 and 5, give gap 1 and rate 0, not the 1.5 of averaging per pillar first |
| Scenarios.RadarIndex | app.py:68 | the radar's pillar index for benchmark B is P1, P2 |
| Scenarios.ReindexTwo | app.py:67-70 | reindexing on P1, P2 with the employee's 4 on P1 and nothing on P2 gives spokes (P1, 5, 4) and (P2, 3, 0) |
| Scenarios.RadarFillsMissingPillar | app.py:66-70 | an employee with a 4 on P1 and no record on P2 gets spokes (P1, 5, 4) and (P2, 3, 0) |

## Left out

- Loading the workbook from its URL and caching it (lines 11-24) is left out; the tables are parameters (`recs`, `employees`).
- The Streamlit sidebar, titles, histogram, tables and Plotly radar (lines 27-33, 51-63, 74-78) are left out: they are I/O. The ID text and the compared employee are parameters.
- `benchmark_perf` and `top_year` (lines 37-38) are left out: nothing downstream reads them.
- The left join of `compare_df` with the pillar labels (line 72) is left out: it only adds a display column.
- The job-profile prompt, the commented-out OpenAI call and the placeholder text (lines 80-113) are left out: they are text for display.
- The summary sentence (lines 116-119) is left out. On an empty ranking, `ranked.iloc[0]` raises; the model only shows when the ranking is empty (`Dashboard.NoBenchmarkOverlap`).
- Scores are exact reals, not float64, so rounding in sums, means and `1 - gap` is not modelled. Missing scores (NaN), which pandas' `mean` skips, are not modelled either: every record carries a score.
- The year column of `competencies_yearly` is dropped, as the scorer never reads it.
- `Ranking.Rank` is one admissible outcome of pandas' unstable quicksort, an insertion sort. Which tied row pandas puts first is not modelled; `Ranking.IsRanking` and `Ranking.RankingRatesDetermined` state what every outcome shares.
- `Radar.Compare` takes any employee ID, while the dashboard's select box offers only the IDs in `ranked`.
- Text.Strip: its contract states only that the result has no edge whitespace. That the stripped text is what remains after removing the edge whitespace is stated by `Text.StripDecomposes` and `Text.StripPadded`.
- Dashboard.Ranked: its contract states the row bound, per-row facts and distinct employees. The ordering and selection guarantees are stated on `Ranking.Rank` and `Ranking.RankIsRanking`, which it calls.
