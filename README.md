# FTC scouting pipeline — a Dafny model

This project models the scoring core of an FTC scouting tool. That core has two parts:

- `ScoutingProcessor.py` turns scouting submissions, one per team per match, into normalised per-match records. It then builds a per-team summary of match counts, sums and per-match averages.
- `DataVisualizer.py` ranks that summary by average total score and picks and renames the columns it shows.

The model has four modules:

- `PyStrings` (`pystrings.dfy`): the two Python string operations the End Game rule uses. These are `str.split` on one separator character and `str.strip` with Python's whitespace set.
- `Normalizer` (`normalizer.dfy`): `normalize`. It covers:
  - integer coercion of the eight numeric columns;
  - the first-category-wins End Game rule;
  - the endgame points table;
  - the piece and total score formulas.

  Rows are values, and `normalize` maps a pure per-row function over the sequence of rows.
- `Aggregator` (`aggregator.dfy`): `summarize`.
  - Its `groupby` is a method with a loop that builds a map from team number to a running group.
  - The ascending `sort_values` on team number is a method that takes the least remaining team each time.
  - `Summarize` is proved against the specification `IsSummaryOf`, which is defined through `SummaryOf`. `SummaryOf` is the summary row of a team, computed from all of that team's rows at once.
- `Ranking` (`ranking.dfy`): `load_summary`, the Rank-if-absent step of `main`, and the choice and renaming of the display columns.
  - A table is a list of column names and a list of rows of numbers.
  - `Display` follows `main` step by step, from the rank step to the renamed table.

A raw numeric cell is taken as already classified the way `pd.to_numeric(errors="coerce")` sees it: `Absent`, `NonNumeric` or `Num(n)`. An End Game cell is either text or a non-text value, which pandas gives for an empty cell.

A cell holding a comma list such as `"3,3"` is not a number to `to_numeric(errors="coerce")`, so it is scored as 0 and not as the sum of its entries. A team with one row of `"3,3"` near and 3 teleop-near plus `Fully` (19 points), and one row of 3 near, 3 far and `Partially` (23 points), therefore totals 42 over two matches and averages 21. `Normalizer.CommaListRowExample`, `Normalizer.PlainRowExample` and `Aggregator.TwoMatchExample` state this.

## Model

| member | source | states |
|---|---|---|
| PyStrings.Split | ScoutingProcessor.py:71 | `val.split(";")` has at least one part and no part holds the separator |
| PyStrings.SplitJoin | ScoutingProcessor.py:71 | splitting loses nothing: joining the parts with the separator gives the text back |
| PyStrings.SplitWithoutSep | ScoutingProcessor.py:71 | text without the separator splits into itself alone |
| PyStrings.SplitFirst | ScoutingProcessor.py:71 | the first part is the text before the first separator |
| PyStrings.Strip | ScoutingProcessor.py:71 | `p.strip()` is no longer than `p` and neither starts nor ends with whitespace |
| PyStrings.StripPadded | ScoutingProcessor.py:71 | the stripped text sits inside the original with only whitespace before and after it |
| PyStrings.StripKeepsOut | ScoutingProcessor.py:71 | stripping adds no character, so it adds no `;` |
| PyStrings.StripTrimmed | ScoutingProcessor.py:71 | text with no whitespace at either end is its own strip |
| PyStrings.StripIdempotent | ScoutingProcessor.py:71 | stripping twice is stripping once |
| Normalizer.Coerce | ScoutingProcessor.py:65 | a number keeps its value; a missing or unparseable cell, such as `"3,3"`, becomes 0 |
| Normalizer.FirstLabelAt | ScoutingProcessor.py:71-72 | the index of the first non-blank part: every earlier part is blank, the part there is not, and the index is the part count when all parts are blank |
| Normalizer.NonBlank | ScoutingProcessor.py:71 | every kept label is non-empty and is some part, stripped; there are no more labels than parts; the list is empty exactly when every part is blank, and otherwise starts with the stripped first non-blank part |
| Normalizer.EndgameValue | ScoutingProcessor.py:68-72 | `endgame_value` is `""` for non-text input, and its result never holds `;` nor starts or ends with whitespace |
| Normalizer.EndgameValueIsFirstLabel | ScoutingProcessor.py:68-72 | on text the result is `""` exactly when every `;`-part is blank, and otherwise it is the stripped first non-blank part |
| Normalizer.EndgameValueIdempotent | ScoutingProcessor.py:68-72 | normalising the normalised category changes nothing |
| Normalizer.FirstLabelWins | ScoutingProcessor.py:68-72 | when the text before the first `;` holds a category, that category wins whatever follows |
| Normalizer.SingleLabel | ScoutingProcessor.py:68-72 | a single unpadded category is its own category |
| Normalizer.EndgameScore | ScoutingProcessor.py:31-36 | the four listed categories score 5, 10, 10 and 20, every other label scores 0, so the score is always in {0, 5, 10, 20} |
| Normalizer.FullyThenPartially | ScoutingProcessor.py:67-77 | the multi-select `"Fully; Partially"` scores 10 |
| Normalizer.NormalizeRow | ScoutingProcessor.py:52-87 | every numeric column is coerced, End Game is kept, its category and score are added, and `piece_score = 3 * (four zone counts)` and `total_score = piece_score + end_game_score` |
| Normalizer.Normalize | ScoutingProcessor.py:52-87 | one output row per input row, in order; a row with an unusable team or match number is kept with 0 there; every row obeys the scoring rule |
| Normalizer.NormalizeAppend | ScoutingProcessor.py:52-65 | normalising concatenated files is concatenating their normalisations: no row is dropped, merged or moved |
| Normalizer.OffTargetIgnored | ScoutingProcessor.py:80-86 | the two Off Target columns never change the piece or total score |
| Normalizer.CommaListRowExample | ScoutingProcessor.py:65 | a submission whose auto-near cell is `"3,3"` counts 0 there and scores 19 with `Fully` |
| Normalizer.PlainRowExample | ScoutingProcessor.py:80-86 | a submission of 3 auto-near and 3 auto-far pieces with `Partially` scores 23 |
| Aggregator.Cells | ScoutingProcessor.py:112-129 | a summary row exports 14 cells in the fixed column order: `Team Number`, `matches`, then each metric's average at its place among the six averages and each metric's sum at its place among the six sums |
| Aggregator.SummaryColumnsLayout | ScoutingProcessor.py:112-129 | the exported column names are `Team Number`, `matches`, then `<metric>_avg` for the six metrics in order, then `<metric>_sum` in the same order |
| Aggregator.Finish | ScoutingProcessor.py:102-107 | a finished group has at least one match |
| Aggregator.TeamHasMatches | ScoutingProcessor.py:91-92 | every team that occurs has a match number, so its match count is never 0 |
| Aggregator.SummaryOf | ScoutingProcessor.py:91-107 | `matches` is the number of distinct match numbers (at least 1), each `*_sum` is the column summed over the team's rows, and each `*_avg` is that sum divided by `matches` |
| Aggregator.GroupByTeam | ScoutingProcessor.py:91-99 | the groups are keyed by exactly the team numbers that occur, and each is that team's distinct match numbers and column sums |
| Aggregator.SortedTeams | ScoutingProcessor.py:109 | the team numbers come out strictly ascending, each exactly once |
| Aggregator.Summarize | ScoutingProcessor.py:90-129 | one row per distinct team, strictly ascending by team number, each that team's summary row |
| Aggregator.IncreasingUnique | ScoutingProcessor.py:109 | two strictly ascending lists of the same numbers are equal |
| Aggregator.SummaryUnique | ScoutingProcessor.py:90-129 | the summary is determined by the rows |
| Aggregator.SumOverTeamsCovers | ScoutingProcessor.py:91-98 | adding a column up team by team over all teams adds each row once |
| Aggregator.SummaryConserves | ScoutingProcessor.py:93-98 | each `*_sum` column added up over the summary equals that column added up over all input rows, so `total_score` is conserved by the group-by |
| Aggregator.TeamTotalSplits | ScoutingProcessor.py:80-98 | per team, summed total = 3 * (the four summed zone counts) + summed endgame score |
| Aggregator.SummaryTotalSplits | ScoutingProcessor.py:80-98 | every summary row has `total_score_sum = 3 * (four zone sums) + end_score_sum` |
| Aggregator.ResubmissionSums | ScoutingProcessor.py:93-98 | one more submission for a team adds its values in full to every `*_sum` of that team |
| Aggregator.ResubmissionMatches | ScoutingProcessor.py:92 | a submission repeating a (team, match) pair leaves `matches` unchanged; one for a new match raises it by 1 |
| Aggregator.TwoMatchExample | ScoutingProcessor.py:90-107 | two submissions for team 100 scoring 19 and 23 give 2 matches, a 42 total and a 21.0 average |
| Ranking.IndexOf | DataVisualizer.py:29 | the position of a column: the first one with that name |
| Ranking.Insert | DataVisualizer.py:29 | inserting a row into rows ordered best first keeps them ordered and adds just that row |
| Ranking.SortDescending | DataVisualizer.py:29 | `sort_values(ascending=False)` gives a permutation of the rows, non-increasing in the sort column |
| Ranking.NumberRows | DataVisualizer.py:30 | `Rank` is the row's position counted from 1, in front of the row's own cells |
| Ranking.LoadSummary | DataVisualizer.py:23-31 | fails exactly when `total_score_avg` is missing, fails with the `insert` error when `Rank` already exists, and succeeds exactly when `total_score_avg` is present and `Rank` absent; then `Rank` is the first column, the rows are a permutation ordered best first, and rank i sits on row i |
| Ranking.RankOneIsBest | DataVisualizer.py:29-30 | rank 1 holds a `total_score_avg` no input row exceeds |
| Ranking.EnsureRank | DataVisualizer.py:58-61 | a table with `Rank` is kept unchanged; otherwise it is ranked as `load_summary` ranks it |
| Ranking.EnsureRankAfterLoad | DataVisualizer.py:51-61 | a table from `load_summary` passes the Rank-if-absent step unchanged |
| Ranking.Keep | DataVisualizer.py:81 | keeps exactly the wanted names that are columns |
| Ranking.Drop | DataVisualizer.py:82 | keeps exactly the wanted names that are not columns |
| Ranking.KeepDropMultiset | DataVisualizer.py:81-82 | kept and dropped together hold each wanted name as often as it is wanted |
| Ranking.KeepInOrder | DataVisualizer.py:81 | the kept names are in the wanted order |
| Ranking.DropInOrder | DataVisualizer.py:82 | the dropped names are in the wanted order |
| Ranking.KeepDropPartition | DataVisualizer.py:81-82 | kept and dropped partition the wanted names, each in wanted order, and their lengths add up |
| Ranking.KeepDistinct | DataVisualizer.py:81 | keeping part of a list with no repeats leaves no repeats |
| Ranking.Available | DataVisualizer.py:81 | `available_cols` is exactly the display columns present |
| Ranking.Missing | DataVisualizer.py:82 | `missing` is exactly the display columns absent |
| Ranking.AvailableMissingPartition | DataVisualizer.py:64-82 | `available_cols` and `missing` partition the 14 display columns, each in display order, and their lengths sum to 14 |
| Ranking.DisplayColsDistinct | DataVisualizer.py:64-79 | the display columns have no repeats |
| Ranking.RankShownFirst | DataVisualizer.py:64-108 | a table with `Rank` shows it first, under its own name |
| Ranking.Select | DataVisualizer.py:90 | `df[available_cols]` has exactly those columns in that order, and each cell is the row's cell under that name |
| Ranking.PresentRenames | DataVisualizer.py:108 | the rename table is cut down to the columns present |
| Ranking.Rename | DataVisualizer.py:108 | renaming keeps the number of columns |
| Ranking.DisplayHeaders | DataVisualizer.py:108 | the display headers are as many as the selected columns |
| Ranking.DisplayHeadersRenameOnlyPresent | DataVisualizer.py:93-108 | a column with a rename entry takes its header and any other keeps its name; renaming with the cut-down table equals renaming with the whole table |
| Ranking.RenameMapInvertible | DataVisualizer.py:93-107 | each header leads back to the one column it renames |
| Ranking.RenameMapInjective | DataVisualizer.py:93-107 | no two columns get the same header |
| Ranking.HeadersAreNew | DataVisualizer.py:64-107 | no header is the name of a display column |
| Ranking.DisplayHeadersDistinct | DataVisualizer.py:93-108 | distinct display columns get distinct headers, so column count and order are kept |
| Ranking.Display | DataVisualizer.py:58-108 | fails only for a table with neither `Rank` nor `total_score_avg`; otherwise it shows the present display columns renamed, with `Rank` first, all headers distinct, the missing ones reported, and shown plus missing counting 14 |
| Ranking.SummaryFrame | ScoutingProcessor.py:112-129 | the exported summary reads back as a well-formed table with the 14 summary columns and one row per team, row k being the cells of the k-th summary row |
| Ranking.SummaryLoads | DataVisualizer.py:23-31 | `load_summary` always succeeds on an exported summary |

## Left out

- File and user-interface I/O are left out:
  - CSV discovery, reading and concatenation (`load_csvs`);
  - the command line and file writing of `ScoutingProcessor.py`'s `main`;
  - the Streamlit page, sidebar, upload, warnings and table rendering of `DataVisualizer.py`.

  Tables are parameters and results. `Normalizer.NormalizeAppend` states what concatenation must preserve.
- `data_plotter.py` is not part of this model. It only draws charts.
- Parsing of numeric text is left out. That includes pandas' float parsing and the truncation of fractional strings by `astype(int)`. Cells arrive already classified as absent, non-numeric or an integer.
- Floating point is left out:
  - averages are exact `real` quotients;
  - the endgame and total scores are integers, where pandas holds them as floats with integral values;
  - NaN cells in the ranking view, and pandas' placing of NaN last when sorting, are not modelled;
  - the percentage formatting of hit-rate columns (`DataVisualizer.py:110-114`) is left out.
- Ranking.SortDescending: the model is one fixed order, a stable insertion sort. pandas' default sort is not stable, and its order among equal `total_score_avg` values is unspecified. Every contract and lemma about the ranking states only what holds for any order: a permutation, non-increasing in the sort column.
- Ranking.LoadSummary: the in-place `df.insert` returns a new table in the model, and the sort's `reset_index` is implicit in numbering rows by position.
- A table holds only numeric cells. Columns other than the ones named here are carried along as numbers, and column data types are not modelled.
- The summary written by `ScoutingProcessor.py` has no cycle or hit-rate columns. `DataVisualizer.py:64-79` still lists them for display, so on such a summary they are always among the missing columns; no code that would produce them is modelled, because none exists in the core.
- Zone counts and scores are not claimed to be non-negative. A negative number in a cell passes through coercion unchanged.
- Normalizer.Coerce: a zone column missing from the input makes pandas raise `KeyError` at `df[col]` (`ScoutingProcessor.py:65`), and a missing `End Game` column does the same (`ScoutingProcessor.py:74`). The model has every column present in a raw row, and an `Absent` cell stands for a missing value inside a present column, which scores 0.
- Normalizer.NormalizeRow: `normalize` works on a copy of the whole input table, so columns other than the ones it reads (timestamps, scouter names and the like) are carried into its output. `Row` keeps only the columns it reads and the ones it adds.
- Normalizer.Coerce: `astype(int)` yields 64-bit integers, and an infinite value in a cell makes it raise. The model uses unbounded integers and has no infinite cells.
