# Table-tennis ranking analytics, modelled in Dafny

This project models the deterministic core of a table-tennis analytics
pipeline. The pipeline works on the yearly national ranking sheets:

- **Header mapping** (`HeaderMapping`) turns each wide raw ranking file into
  long-format entries, one per player and tournament. A raw file has three
  header rows (location, date, column header) and then one row per player.
  Each column is classified by an ordered keyword rule that depends on its
  index. The season year comes from the file name.
- **Sliding window** (`SlidingWindow`) reads the long table back. It
  aggregates each (id, name, season) group to its maximum seasonal total,
  orders the rows by (id, season), builds per-player lags 1 to 3 and the
  year-on-year momentum, and keeps only the rows that have a third lag.
- **Player features** (`ExtractFeatures`) normalises ids and selects the 50
  players with the largest 2024 seasonal total. For each selected player it
  builds:
  - decay-weighted momentum, with weight 0.8 per season of age, exact as 4/5;
  - the volatility of all their entries;
  - a 2024 pressure score in which "Senior" tournaments count double.
- **Elo simulation** (`Elo`) keeps a rating table that starts at 1500 for
  every id. It visits the tournaments in (season, name) order. Inside each
  tournament the entrants are sorted by points, and every entrant beats
  every entrant listed after it. The table is a class whose dictionary is
  updated in place, one match at a time.
- **Scouting ranks** (`Ranking`) ranks the 2024 rows twice, by seasonal total
  and by forecast points. Ranks are competition ("min") ranks in descending
  order. It then takes the rank jump, labels it with a trend arrow and
  orders the report by forecast rank.
- **Career durations** (`Survival`) builds one record per id, holding:
  - the first and last season;
  - the entry count;
  - the duration;
  - the censoring flag.
- **Career progression** (`CareerProgression`) reads the 2020–2024 raw files
  with a second, smaller keyword mapper into (year, id, name, points)
  records. It then picks the player whose best points grew the most from
  2020 to 2024.

Shared modules:

- `Wrappers`: `Option` and `Result`.
- `Text`: whitespace handling, substring search, the decimal reader and
  digit strings.
- `Ordering`:
  - group keys as strictly sorted key lists;
  - an insertion sort;
  - Python's string order.
- `LongTable`: the row type of the long table as the downstream scripts read
  it back.

A raw CSV file is a rectangular grid of `Option<string>` cells, where `None`
is pandas' NaN. Points and totals are exact rationals (`real`). Ids are text
throughout.

A few behaviours of the source that the model states explicitly:

- `years_active` counts entries, not seasons, so it can exceed `duration`.
  `Survival.YearsActiveCanExceedDuration` exhibits this, and
  `Survival.SeasonsWithinDuration` bounds the distinct-season count.
- An empty text in a row of the long table is a missing cell. Grouping
  leaves out the rows whose key is missing, and pandas' `first` (the career
  name, the candidate name, the annual institution) is the first value
  that is present.
- In the career-progression reader a missing id cell prints as "nan", which
  is not empty, so the row is kept under the id "nan"
  (`CareerProgression.MissingIdKept`).
- In the header loop of the mapping script, "rank" is tested before the
  tournament keywords. Since "ranking" contains "rank", a "ranking" header
  is always a rank column and never a tournament (`HeaderMapping.KindOf`).

## Model

| member | source | states |
|---|---|---|
| Text.CleanTextSpec | scripts/mapping/header_mapping.py:12-14 | a missing or empty cell cleans to ""; the result has no leading or trailing whitespace, every whitespace character is a single space with no two in a row, and it keeps exactly the non-whitespace characters of the input in order |
| Text.CleanTextIdempotent | scripts/mapping/header_mapping.py:12-14 | cleaning a cleaned text changes nothing |
| Text.DeleteAll | scripts/feature_engineering/extract_features.py:25 | deleting every occurrence of a pattern leaves a text without the pattern unchanged and shortens a text that holds it by at least the pattern's length |
| Text.DeleteAllChar | scripts/visualization/analyze_career_progression.py:44 | deleting a one-character pattern is the text with that character filtered out, in order, and leaves no occurrence of it |
| Text.DeleteAllSinglePass | scripts/feature_engineering/extract_features.py:25 | `replace` makes one left-to-right pass: deleting ".0" from "..00" leaves ".0", so the result may still contain the pattern |
| Text.ParseDecimalIntToString | scripts/feature_engineering/sliding_window.py:17 | the decimal text of any integer reads back as that integer |
| Text.ContainsIff | scripts/mapping/header_mapping.py:42-55 | the keyword test `key in text` holds exactly when the key occurs at some index |
| Text.ContainsPrefix | scripts/mapping/header_mapping.py:50-55 | a text containing a word contains each prefix of it (so "ranking" implies "rank") |
| Ordering.SortedKeys | scripts/modeling/elo_rating_system.py:34 | group keys come out strictly ascending, and a key is listed exactly when some row has it |
| Ordering.SortStable | scripts/modeling/elo_rating_system.py:40 | the sorted rows are a permutation of the input and no row is placed after one it sorts before |
| Ordering.StrLessIsStrictTotal | scripts/feature_engineering/sliding_window.py:24-29 | Python's string order is irreflexive, transitive and total |
| LongTable.PointsOfIntText | scripts/feature_engineering/extract_features.py:26 | points written as an integer count that integer |
| LongTable.RowsOf | scripts/feature_engineering/extract_features.py:47 | the rows of an id are exactly the table's rows with that id |
| LongTable.RowsOfInOrder | scripts/feature_engineering/extract_features.py:47 | the rows of an id keep their table order: they are a subsequence of the table |
| LongTable.RowsOfCount | scripts/feature_engineering/extract_features.py:47 | every row with that id occurs in the result as often as in the table, and no other row occurs |
| LongTable.RowsOfYearInOrder | scripts/feature_engineering/extract_features.py:48 | the rows of a season keep their table order |
| LongTable.RowsOfYearCount | scripts/feature_engineering/extract_features.py:48 | every row of that season occurs as often as in the table, and no other row occurs |
| LongTable.WithIdInOrder | scripts/modeling/survival_analysis.py:24 | the rows with an id keep their table order |
| LongTable.WithIdCount | scripts/modeling/survival_analysis.py:24 | every row with an id occurs as often as in the table, and no row without one occurs |
| LongTable.YearPresent | scripts/feature_engineering/extract_features.py:30-32 | the 2024 slice is non-empty exactly when some row has that season |
| LongTable.MaxTotal | scripts/feature_engineering/sliding_window.py:25 | the group maximum is missing exactly when every total is missing; otherwise it is one of the totals and bounds all of them |
| LongTable.GroupIds | scripts/feature_engineering/extract_features.py:37 | the group keys of `groupby('ttfi_id')` are strictly ascending, are exactly the ids of the rows, and each has rows |
| LongTable.RowsOfWithId | scripts/modeling/survival_analysis.py:24 | leaving out the rows with a missing id does not change the rows of any present id |
| LongTable.FirstPresent | scripts/modeling/survival_analysis.py:26 | pandas `first` over a text column is missing exactly when every value is |
| LongTable.FirstPresentIsFirst | scripts/modeling/survival_analysis.py:26 | a value `first` finds stands at an index before which every value is missing |
| HeaderMapping.FindYear | scripts/mapping/header_mapping.py:22 | the search returns the leftmost index where "20" and two digits start, or none when there is no such index |
| HeaderMapping.SeasonYear | scripts/mapping/header_mapping.py:22-23 | the year is the text of the first "20dd" match, and "Unknown" exactly when the name holds none |
| HeaderMapping.KindOf | scripts/mapping/header_mapping.py:37-56 | id, name and state columns only occur below index 4, and total, rank and tournament columns only from index 4; a tournament header contains a tournament keyword and never "rank" |
| HeaderMapping.MetadataPrecedence | scripts/mapping/header_mapping.py:41-45 | among the first four columns "id" beats "name", which beats "state"/"inst." (each as an if-and-only-if) |
| HeaderMapping.SummaryPrecedence | scripts/mapping/header_mapping.py:47-56 | from the fifth column on, "points" without "best" is a total, else "position" or "rank" is a rank, else "institutional", "national" or "championship" is a tournament, else the column is ignored (each as an if-and-only-if; a "ranking" header always falls to the rank case) |
| HeaderMapping.LastOfKind | scripts/mapping/header_mapping.py:42-51 | the column a `col_map` key ends up holding is the last column of that kind, and none when there is no such column |
| HeaderMapping.TournamentsOfKinds | scripts/mapping/header_mapping.py:55-56 | the tournament list holds exactly the tournament columns, in strictly increasing order |
| HeaderMapping.TournamentColumnsDisjoint | scripts/mapping/header_mapping.py:37-56 | tournament columns lie in [4, width), are never the total or rank column, and metadata columns lie below 4 |
| HeaderMapping.ClassifyColumns | scripts/mapping/header_mapping.py:34-56 | the header loop ends with the column map and the tournament list of the classification |
| HeaderMapping.RecordColumn | scripts/mapping/header_mapping.py:38-56 | one pass of the header loop extends the column map and the tournament list by column i |
| HeaderMapping.FilledColumns | scripts/mapping/header_mapping.py:71-73 | the columns used are exactly the tournament columns whose cell is present and not blank |
| HeaderMapping.FilledColumnsInOrder | scripts/mapping/header_mapping.py:71-73 | the columns used keep the order of the tournament list |
| HeaderMapping.FilledColumnsCount | scripts/mapping/header_mapping.py:71-73 | a filled column is used as often as the tournament list holds it, and no other column is used |
| HeaderMapping.TournamentEntriesExact | scripts/mapping/header_mapping.py:71-81 | a kept row yields exactly one entry per filled tournament column, in column order, each with that column's cleaned header, location and date, the row's base and the raw points cell |
| HeaderMapping.RowEntries | scripts/mapping/header_mapping.py:59-81 | a row whose name cell (default column 2) is missing yields nothing; the row fails exactly when the name column lies past the row or the name is present while a metadata column was not found; otherwise a named row yields the tournament entries of its own player base |
| HeaderMapping.LayoutOf | scripts/mapping/header_mapping.py:26-31 | every column the three header rows name lies inside the file's width |
| HeaderMapping.RowsEntriesShape | scripts/mapping/header_mapping.py:62-81 | every entry of a file carries the file's season year and a points cell that is not blank |
| HeaderMapping.AppendTournamentEntries | scripts/mapping/header_mapping.py:71-81 | the inner loop appends exactly the row's tournament entries to what was collected |
| HeaderMapping.MapRow | scripts/mapping/header_mapping.py:59-81 | one pass of the row loop skips, expands or stops as the row's entries say |
| HeaderMapping.ReadLayout | scripts/mapping/header_mapping.py:22-56 | the header part of the file step builds the file's layout |
| HeaderMapping.MapNextRow | scripts/mapping/header_mapping.py:59-81 | one pass of the row loop either ends in the run's error or leaves the rows after it to map |
| HeaderMapping.MapFile | scripts/mapping/header_mapping.py:20-81 | one file adds its entries to the collected ones, or the run stops with the file's error |
| HeaderMapping.RunMappingPipeline | scripts/mapping/header_mapping.py:16-83 | the run returns the entries of the `.csv` files in listing order, or the first error |
| SlidingWindow.GroupKeys | scripts/feature_engineering/sliding_window.py:24 | the (id, name, year) group keys are strictly ascending and are exactly the keys of the rows whose id and name are present |
| SlidingWindow.Aggregated | scripts/feature_engineering/sliding_window.py:24-27 | one aggregate per group key, each built from a non-empty group |
| SlidingWindow.AggregateInstitution | scripts/feature_engineering/sliding_window.py:26 | a group's institution is missing exactly when all of its institutions are; otherwise it is the first one that is present |
| SlidingWindow.AnnualTable | scripts/feature_engineering/sliding_window.py:29 | the annual table is a permutation of the aggregates, ordered by (id, year) |
| SlidingWindow.AnnualTableSpec | scripts/feature_engineering/sliding_window.py:24-29 | the annual table is ordered by (id, year), has one row per (id, name, year) group of the rows whose id and name are present, no row for a missing id or name, no two rows with one key, and each row is its group's aggregate |
| SlidingWindow.AnnualTotalIsGroupMax | scripts/feature_engineering/sliding_window.py:25 | an annual total is missing exactly when the group's totals all are; otherwise it is one of them and bounds all of them |
| SlidingWindow.WindowAt | scripts/feature_engineering/sliding_window.py:35-40 | window row i is annual row i with lags computed from the rows above it |
| SlidingWindow.LagIsRowAbove | scripts/feature_engineering/sliding_window.py:35-37 | lag k is the total of the row k places above when that row has the same id, and missing otherwise (a skipped season is not filled in) |
| SlidingWindow.Supervised | scripts/feature_engineering/sliding_window.py:47 | the filter keeps exactly the rows with a third lag |
| SlidingWindow.SupervisedRowsHaveHistory | scripts/feature_engineering/sliding_window.py:35-47 | a kept row has at least three earlier rows of its id, and with present totals its lags 1 and 2 and its momentum are present and momentum is their difference |
| SlidingWindow.SupervisedDropsFirstThree | scripts/feature_engineering/sliding_window.py:47 | with present totals each id keeps all but its first three annual rows |
| ExtractFeatures.NormalizeDigitsUnchanged | scripts/feature_engineering/extract_features.py:25 | an all-digit id is unchanged by normalisation |
| ExtractFeatures.NormalizeFloatId | scripts/feature_engineering/extract_features.py:25 | an id read back as "123.0" normalises to "123" |
| ExtractFeatures.NormalizeMissingId | scripts/feature_engineering/extract_features.py:25 | a missing id becomes the text "nan" and so is kept as a group key |
| ExtractFeatures.CandidatesSpec | scripts/feature_engineering/extract_features.py:37-39 | one candidate per 2024 id, ids ascending, each its group's candidate |
| ExtractFeatures.CandidateName | scripts/feature_engineering/extract_features.py:38 | a candidate's name is missing exactly when all of its 2024 names are; otherwise it is the first one that is present |
| ExtractFeatures.Ranked | scripts/feature_engineering/extract_features.py:40 | the ranking is a permutation with larger totals first |
| ExtractFeatures.TopPlayersSpec | scripts/feature_engineering/extract_features.py:37-42 | exactly 50 ids are selected, or all the candidates with a 2024 total when there are fewer; the ids are distinct, all have a 2024 total, come in non-increasing total order, and no unselected candidate has a larger total than a selected one |
| ExtractFeatures.WeightDecays | scripts/feature_engineering/extract_features.py:44-52 | the 2024 weight is 1, every earlier weight lies in (0, 1], and each season back multiplies it by 4/5 |
| ExtractFeatures.MomentumIsWeightedPoints | scripts/feature_engineering/extract_features.py:51-52 | the per-season weighted sum equals the sum over all entries of points times the weight of their season |
| ExtractFeatures.VolatilityZeroIffConstant | scripts/feature_engineering/extract_features.py:56-57 | the volatility is zero exactly when the player has at least two entries and all of them scored the same points |
| ExtractFeatures.SquaredDeviationsZero | scripts/feature_engineering/extract_features.py:57 | the squared deviations from a mean vanish exactly when every value equals it |
| ExtractFeatures.SquareSign | scripts/feature_engineering/extract_features.py:57 | a squared deviation is never negative and is zero only for a zero deviation |
| ExtractFeatures.VolatilityNonNegative | scripts/feature_engineering/extract_features.py:57 | a present volatility is not negative |
| ExtractFeatures.PressureBounds | scripts/feature_engineering/extract_features.py:60-61 | with non-negative points the pressure lies between the 2024 point sum and twice it |
| ExtractFeatures.PressureWithoutSenior | scripts/feature_engineering/extract_features.py:60-61 | without a "Senior" tournament the pressure is the plain point sum |
| ExtractFeatures.FeaturesNoneWithout2024 | scripts/feature_engineering/extract_features.py:29-34 | there is no output exactly when no row has season 2024 |
| ExtractFeatures.SelectedFeature | scripts/feature_engineering/extract_features.py:46-71 | a selected player's record carries its id, its candidate name, its selection total, its first 2024 institution, the weighted momentum of its whole history, a volatility present iff it has two entries, and the pressure of its 2024 entries |
| ExtractFeatures.FeaturesSpec | scripts/feature_engineering/extract_features.py:37-71 | with 2024 rows there is exactly one record per selected id, in selection order, with distinct ids |
| ExtractFeatures.BuildFeatures | scripts/feature_engineering/extract_features.py:46-71 | the loop appends exactly one feature record per selected id, in order |
| ExtractFeatures.RunFeaturePipeline | scripts/feature_engineering/extract_features.py:24-71 | the pipeline returns the feature table of the whole run |
| Elo.CalculateEloBounds | scripts/modeling/elo_rating_system.py:8-14 | with an expectation in (0, 1) a win raises the rating and a loss lowers it, each by less than 32 |
| Elo.Match | scripts/modeling/elo_rating_system.py:49-53 | a match keeps the rated ids and changes no entry other than the two players' |
| Elo.MatchMovesRatings | scripts/modeling/elo_rating_system.py:49-53 | both new ratings come from the pre-match ratings: the winner rises and the loser falls, each by less than 32 |
| Elo.MatchZeroSum | scripts/modeling/elo_rating_system.py:49-53 | with a symmetric expectation a match moves no rating points in total |
| Elo.PairsCount | scripts/modeling/elo_rating_system.py:45-46 | n entrants play n(n-1)/2 matches |
| Elo.PairsMembers | scripts/modeling/elo_rating_system.py:45-47 | the schedule holds the pair (i, j) exactly when i < j < n |
| Elo.PairsOnce | scripts/modeling/elo_rating_system.py:45-46 | the pairs come in lexicographic order, each once |
| Elo.TournamentKeys | scripts/modeling/elo_rating_system.py:25-34 | tournaments are visited in strictly ascending (season, name) order, each tournament of the table once; rows with a missing tournament name form no tournament, as `groupby` drops a NaN key |
| Elo.BlankTournamentsPlayNoMatch | scripts/modeling/elo_rating_system.py:34 | when every row's tournament name is missing, no match is played and every id keeps the initial 1500 |
| Elo.StandingRows | scripts/modeling/elo_rating_system.py:40 | a tournament's standings are its entries, reordered so that larger points come first |
| Elo.WinnerFinishedHigher | scripts/modeling/elo_rating_system.py:40-53 | in every match the winner did not score fewer points than the loser |
| Elo.SimulateKeys | scripts/modeling/elo_rating_system.py:28-53 | every id of the table, and no other, ends with a rating |
| Elo.AloneKeepsInitialRating | scripts/modeling/elo_rating_system.py:29-53 | a player who was alone in every tournament they entered keeps 1500 |
| Elo.EloTable.constructor | scripts/modeling/elo_rating_system.py:28-29 | the table starts with every id at 1500 |
| Elo.EloTable.PlayMatch | scripts/modeling/elo_rating_system.py:47-53 | the in-place update of one match is the match function on the old table |
| Elo.EloTable.PlayRound | scripts/modeling/elo_rating_system.py:46-53 | the inner loop plays entrant i against every entrant below it |
| Elo.EloTable.PlayTournament | scripts/modeling/elo_rating_system.py:45-53 | the nested loops play the whole round robin of one tournament |
| Elo.RunEloSimulation | scripts/modeling/elo_rating_system.py:22-53 | the final rating table is the simulation of the whole schedule |
| Ranking.MinRanks | scripts/modeling/train_xgboost_ensemble.py:67 | each rank is 1 plus the number of strictly larger values, and lies in [1, n] |
| Ranking.RankOrder | scripts/modeling/train_xgboost_ensemble.py:67-70 | a smaller rank means exactly a larger value, and equal values share exactly equal ranks |
| Ranking.TopRanksFirst | scripts/modeling/train_xgboost_ensemble.py:67 | a largest value has rank 1 |
| Ranking.RanksWithoutTies | scripts/modeling/train_xgboost_ensemble.py:67-70 | without ties the ranks are distinct and sum to n(n+1)/2, i.e. a permutation of 1..n |
| Ranking.Jumps | scripts/modeling/train_xgboost_ensemble.py:73 | the jumps sum to the actual ranks' sum minus the forecast ranks' sum |
| Ranking.JumpsCancel | scripts/modeling/train_xgboost_ensemble.py:67-73 | without ties in either column the rank jumps sum to 0 |
| Ranking.ArrowCases | scripts/modeling/train_xgboost_ensemble.py:76-79 | the label starts with ↑ exactly for a rise, ↓ exactly for a fall and ↔ exactly for no change |
| Ranking.JumpOfArrow | scripts/modeling/train_xgboost_ensemble.py:76-79 | every trend label reads back as the jump it was made from |
| Ranking.Latest2024 | scripts/modeling/train_xgboost_ensemble.py:24 | the baseline rows are exactly the rows of season 2024 |
| Ranking.Latest2024InOrder | scripts/modeling/train_xgboost_ensemble.py:24 | the baseline rows keep their table order |
| Ranking.Latest2024Count | scripts/modeling/train_xgboost_ensemble.py:24 | every 2024 row occurs as often as in the table, and no other row occurs |
| Ranking.TotalsOf | scripts/modeling/train_xgboost_ensemble.py:67 | the totals exist exactly when every 2024 total is present, and then they are those totals |
| Ranking.ReportRowsRanked | scripts/modeling/train_xgboost_ensemble.py:67-81 | every report row has both ranks in [1, n] and the trend label of its own rank jump |
| Ranking.ScoutingReportSpec | scripts/modeling/train_xgboost_ensemble.py:67-94 | the report exists exactly when every 2024 total is present, and then it is a permutation of the ranked rows ordered by forecast rank |
| Survival.MinYear | scripts/modeling/survival_analysis.py:25 | the start year bounds every season of the id and is one of them |
| Survival.MaxYear | scripts/modeling/survival_analysis.py:25 | the end year bounds every season of the id and is one of them |
| Survival.CareerName | scripts/modeling/survival_analysis.py:26 | a found career name belongs to one of the id's rows all of whose predecessors have no name |
| Survival.CareerOf | scripts/modeling/survival_analysis.py:24-34 | start and end are the id's first and last season, years active is its entry count, duration is end - start + 1 and at least 1, observed is 1 exactly when every season lies before 2024, else 0, and the name is missing exactly when every name of the id is |
| Survival.CareersSpec | scripts/modeling/survival_analysis.py:24-28 | exactly one career per present id, none for a missing id, in ascending id order, each the career of all that id's rows |
| Survival.SeasonsWithinDuration | scripts/modeling/survival_analysis.py:25-31 | the number of distinct seasons never exceeds the duration |
| Survival.YearsActiveCanExceedDuration | scripts/modeling/survival_analysis.py:25-31 | two entries in one season give years active 2 within a one-season career |
| CareerProgression.LastField | scripts/visualization/analyze_career_progression.py:33-37 | the mapped column is the last column whose header has that field, and none when no header does |
| CareerProgression.ColumnsDistinct | scripts/visualization/analyze_career_progression.py:33-37 | the id, name and points columns lie inside the header and are pairwise different |
| CareerProgression.IdBeforeName | scripts/visualization/analyze_career_progression.py:35-36 | a "TTFI ID" header is an id column even when it also says "NAME" |
| CareerProgression.MapProgressColumns | scripts/visualization/analyze_career_progression.py:33-37 | the header loop ends with the column map of the keyword rules |
| CareerProgression.ParsePointsIntToString | scripts/visualization/analyze_career_progression.py:45 | the points text of any integer reads back as that integer |
| CareerProgression.ParseRow | scripts/visualization/analyze_career_progression.py:40-50 | with all three columns mapped, a row is kept exactly when its id is not empty, its name is not "nan" and its points parse, and then it carries that id, name, points and the file's season; a row with an unmapped column is skipped |
| CareerProgression.BlankPointsScoreZero | scripts/visualization/analyze_career_progression.py:44-48 | a missing or blank points cell scores 0, and the row is kept exactly when its id and name pass |
| CareerProgression.ThousandsSeparator | scripts/visualization/analyze_career_progression.py:44-45 | "1,250" scores 1250 |
| CareerProgression.MissingIdKept | scripts/visualization/analyze_career_progression.py:42-48 | a missing id cell is kept as the id "nan" |
| CareerProgression.CollectMembers | scripts/visualization/analyze_career_progression.py:40-50 | the collected records are exactly the records some row parses to |
| CareerProgression.RowRecordsSpec | scripts/visualization/analyze_career_progression.py:40-50 | a file's records are exactly those of its rows that parse, each of the file's season with an id and a name |
| CareerProgression.MissingColumnSkipsRows | scripts/visualization/analyze_career_progression.py:41-50 | when a column was not found every row fails and is skipped |
| CareerProgression.FileRecords | scripts/visualization/analyze_career_progression.py:29-30 | reading a file fails exactly when it has no header row |
| CareerProgression.YearlyTotalsErr | scripts/visualization/analyze_career_progression.py:20-30 | the run fails exactly when a season's file is present but too short; missing files are skipped |
| CareerProgression.YearlyTotalsRecords | scripts/visualization/analyze_career_progression.py:20-52 | every record comes from a present season's file, passes the row filter, and the records are in season order |
| CareerProgression.YearlyTotalsComplete | scripts/visualization/analyze_career_progression.py:20-52 | when the run succeeds, every record of every present season's file is among the results |
| CareerProgression.ErrSticks | scripts/visualization/analyze_career_progression.py:20-30 | once a season fails, the later seasons do not change the outcome |
| CareerProgression.ExtractRows | scripts/visualization/analyze_career_progression.py:40-50 | the row loop appends exactly the file's records |
| CareerProgression.ExtractFileRows | scripts/visualization/analyze_career_progression.py:29-50 | one file's step appends the file's records |
| CareerProgression.ExtractYearlyTotals | scripts/visualization/analyze_career_progression.py:17-52 | the loop over 2020–2024 returns the records of all seasons |
| CareerProgression.SeasonIds | scripts/visualization/analyze_career_progression.py:58-59 | a season's id set holds exactly the ids with a record in that season |
| CareerProgression.Common | scripts/visualization/analyze_career_progression.py:60 | the intersection holds exactly the ids in both sets |
| CareerProgression.ConsistentIdsSpec | scripts/visualization/analyze_career_progression.py:58-60 | the consistent ids are exactly the ids present in both 2020 and 2024, listed once each |
| CareerProgression.SeasonPoints | scripts/visualization/analyze_career_progression.py:64-65 | a season's points list is non-empty exactly when the id has a record that season, and holds exactly its points |
| CareerProgression.MaxOf | scripts/visualization/analyze_career_progression.py:64-65 | the maximum is one of the values and bounds all of them |
| CareerProgression.FirstNameOf | scripts/visualization/analyze_career_progression.py:66 | the name is that of the id's first record |
| CareerProgression.GrowthOfSpec | scripts/visualization/analyze_career_progression.py:64-67 | start and end are the id's best 2020 and 2024 points, growth is end - start, and the name is from the id's first record |
| CareerProgression.CollectGrowth | scripts/visualization/analyze_career_progression.py:62-67 | the loop appends one growth record per consistent id |
| CareerProgression.GrowthListed | scripts/visualization/analyze_career_progression.py:62-67 | every consistent id has its growth record in the list |
| CareerProgression.GrowthFromConsistent | scripts/visualization/analyze_career_progression.py:62-67 | every growth record belongs to a consistent id and is its growth |
| CareerProgression.TopGrowth | scripts/visualization/analyze_career_progression.py:70 | there is no top exactly when the list is empty; otherwise the top is a member with maximal growth |
| CareerProgression.ProgressNone | scripts/visualization/analyze_career_progression.py:58-70 | there is no top player exactly when no id is present in both seasons |
| CareerProgression.ProgressBest | scripts/visualization/analyze_career_progression.py:58-70 | the top player is present in both seasons, carries its own growth, and no player present in both grew more |
| CareerProgression.MostProgressNone | scripts/visualization/analyze_career_progression.py:54-70 | after a successful read, the analysis fails for lack of a player exactly when no id is present in both seasons |
| CareerProgression.MostProgressBest | scripts/visualization/analyze_career_progression.py:54-70 | the chosen player is present in both seasons and no such player grew more |
| CareerProgression.AnalyzeMostProgress | scripts/visualization/analyze_career_progression.py:54-70 | the analysis returns the most-progress choice over the five seasons' files |

## Left out

- File-system and CSV I/O are not modelled (directory listing, `read_csv`, `to_csv`, `makedirs`). A raw file is an in-memory grid of optional cells, and a directory is a list of files (header mapping) or a map from season to file (career progression).
- The following are left out because they are library calls or floating-point numerics:
  - XGBoost training and the ten-seed forecast averaging (scripts/modeling/train_xgboost_ensemble.py:27-63). The forecast points are a parameter.
  - The Kaplan-Meier fit and its outputs (scripts/modeling/survival_analysis.py:37-61).
- Plots and chart text are not modelled (scripts/feature_engineering/extract_features.py:77-132, the history and chart in scripts/visualization/analyze_career_progression.py:71-106, and the printing in every script).
- Elo.CalculateElo: the logistic expectation `1 / (1 + 10 ** ((rb - ra) / 400))` is a parameter, and the properties that need it assume only that its value lies strictly between 0 and 1. The final `round(…, 2)` is not modelled.
- Elo: the id-to-name dictionary and the output table (scripts/modeling/elo_rating_system.py:30, 56-70) are not modelled. They only relabel and sort the final ratings.
- ExtractFeatures.Volatility: the value is the sample variance (ddof 1). The square root of `std()` is not taken, because square roots are not exact on rationals.
- ExtractFeatures.FeatureOf: `round(momentum, 2)` and `round(volatility, 2)` are not applied.
- SlidingWindow.SlidingWindowTable: the `career_volatility` column is not modelled (scripts/feature_engineering/sliding_window.py:20-21, 32, 43-44). It is a standard deviation per id merged in and filled with the float mean, and no other column depends on it.
- Ranking.ScoutingReport: the forecast is not rounded to two decimals before ranking.
- Ranking.ScoutingReport, Elo.StandingRows: single-column `sort_values` uses an unstable quicksort, and the order it gives to tied rows is not specified. The model keeps tied rows in table order. The contracts state only what every tie order satisfies: the sort order, and that the result is a permutation.
- CareerProgression.ConsistentIds: a Python set has no specified iteration order. The model lists the ids in ascending order. So, among several players with equal top growth, which one is chosen is not modelled. The contracts state only that the chosen one has maximal growth.
- Text.ParseDecimal: `float()` and `pd.to_numeric` are modelled for an optional sign and plain ASCII decimal digits. Non-ASCII digits, exponents, "inf", "nan", underscores and surrounding whitespace inside the parsed text are not accepted.
- Text.Lower, Text.Upper: only the ASCII letters change case. Python's `str.lower()` and `str.upper()` also map other Unicode letters (the long s upper-cases to "S", the Kelvin sign lower-cases to "k"), so a header written with such letters may match a keyword in the source and not in the model.
- HeaderMapping.FindYear: a digit is one of the ASCII digits 0-9. The pattern `\d` of Python's `re` also matches the decimal digits of other scripts.
- LongTable.LongRow: the season year is always an integer. A raw file whose name holds no year gives the year "Unknown". `pd.to_numeric` without coercion raises on it in scripts/feature_engineering/sliding_window.py:16, scripts/modeling/elo_rating_system.py:23 and scripts/modeling/survival_analysis.py:18, so those runs stop. scripts/feature_engineering/extract_features.py:27 coerces it to a missing year, so the row counts in the volatility but not in the 2024 slice or the momentum. Neither outcome is modelled.
- LongTable.LongRow: a missing id, name or institution is the empty text. The model follows pandas for it where the modelled code depends on it: `groupby` leaves such keys out (`LongTable.WithId`, `SlidingWindow.GroupKeys`), `first` skips them (`LongTable.FirstPresent`), and `astype(str)` turns a missing id into "nan" (`ExtractFeatures.NormalizeMissingId`). An empty text that pandas reads as a real empty string is not told apart from a missing cell.
- Elo, Ranking: a missing id is rated and ranked like any other id. In the source it is a NaN dictionary key, whose lookup depends on the identity of the float object; that is not modelled.
- AnnualTableSpec: the sort by (id, year) in scripts/feature_engineering/sliding_window.py:29 is stable, so rows tied on (id, year) keep the name order of the groups. The contract states the sort order and the permutation but not that tie order.
- Ids are compared as text everywhere. When pandas infers a numeric id column, it orders groups numerically. That ordering is not modelled.
- pandas' dtype inference for mixed columns is not modelled. A seasonal total is either a number or missing.
- Elo.StandingRows: the points column is taken to be numeric. When a cell is not a number, pandas keeps the whole column as text, and `sort_values` then compares texts, or raises on a mix of texts and NaN. The model reads such a cell as NaN instead.
