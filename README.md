# Football statistics: the table pipeline, modelled in Dafny

The repository has two front-ends over the same small data set of
player-season rows (one CSV file per league: EPL, LaLiga and Bundesliga).
The HTTP back-end (`backend/app.py`) loads the files once and answers
`GET /api/stats`. The answer has:

- the number of players and goals;
- the ten top scorers;
- a goals-vs-xG scatter;
- one 50-row page of the filtered table.

The Streamlit dashboard (`dashboard.py`) loads the same files. It offers
league, team, position and player pickers, and draws from the filtered
table:

- a season report;
- a player summary with a verdict;
- a team or league panel;
- a head-to-head comparison.

This project models that pipeline on values:

| module | file | what it models |
|---|---|---|
| `Text` | `text.dfy` | header normalisation (`strip`, `lower`, spaces to `_`) and substring search |
| `Numbers` | `numbers.dfy` | `pd.to_numeric` on decimal text |
| `Sorting` | `sorting.dfy` | Python's string order and `sorted(set(...))` |
| `Frames` | `frames.dfy` | the loader both front-ends share |
| `BackendLoader` | `backend_loader.dfy` | the back-end's loader |
| `DashboardLoader` | `dashboard_loader.dfy` | the dashboard's loader |
| `Records` | `records.dfy` | the boolean-mask filters and their chains |
| `Ranking` | `ranking.dfy` | `idxmax`, `nlargest` and `sort_values` |
| `BackendStats` | `backend_stats.dfy` | the `/api/stats` answer |
| `Sidebar` | `sidebar.dfy` | the dashboard pickers and its view |
| `Insights` | `insights.dfy` | the season report, player summary and first tab |
| `FaceOff` | `faceoff.dfy` | the comparison tab |

In the shared loader, reading files is abstract: a `FileSystem` value maps
paths to readable tables or to files `read_csv` raises on.

The three loops of the source are methods proved against the functions that
specify them:

- the load loop (`Frames.LoadFiles`, one file at a time in `Frames.LoadFile`), which both loaders call;
- the per-column coercion inside it (`Frames.CoerceNumeric`, the loop over `cols` of
  backend/app.py:33 and dashboard.py:74);
- the data-folder probe (`DashboardLoader.FindDataDir`).

The two `load_data` functions that run these loops are methods as well
(`BackendLoader.LoadData`, `DashboardLoader.LoadData`). The request handler, the
dashboard and everything they compute are functions and lemmas.

`get_stats` slices the filtered rows `[(page - 1) * 50 : page * 50]` with
Python's slice rules. Page 0 is therefore empty, and a negative page counts
50-row blocks back from the end of the filtered table
(`BackendStats.PageZeroEmpty`, `BackendStats.NegativePageFromEnd`).

## Model

| member | source | states |
|---|---|---|
| Text.Strip | backend/app.py:28 | `strip()` removes exactly the whitespace at both ends: the result occurs in the label with only whitespace before and after it, and neither starts nor ends with whitespace |
| Text.Lower | backend/app.py:62 | lower-casing keeps the length and maps each character to its ASCII lower-case form |
| Text.LowerChar | backend/app.py:28 | A to Z become a to z, every other character is kept, so a lowered character is never upper-case |
| Text.ReplaceSpaces | backend/app.py:28 | no space is left; every other character is kept in place |
| Text.NormaliseHeader | backend/app.py:28 | character i of a normalised label is character i of the stripped label lower-cased, or `_` for a space; the label has no whitespace at either end, no space and no upper-case letter |
| Text.NormaliseIdempotent | dashboard.py:69 | normalising an already normalised label changes nothing |
| Text.ContainsIff | backend/app.py:68 | the substring scan succeeds exactly when the needle occurs at some position of the name |
| Text.TrimStart | backend/app.py:28 | `lstrip()` drops exactly the leading whitespace: the result is a suffix, everything dropped is whitespace, and it does not start with whitespace |
| Text.TrimEnd | backend/app.py:28 | `rstrip()` drops exactly the trailing whitespace: the result is a prefix, everything dropped is whitespace, and it does not end with whitespace |
| Text.Contains | backend/app.py:68 | a search text longer than the name is never found |
| Sorting.LessTransitive | dashboard.py:98 | Python's string order is transitive |
| Sorting.LessTotal | dashboard.py:98 | of two different strings one is smaller |
| Sorting.Less | dashboard.py:98 | a proper prefix sorts before the longer string |
| Sorting.SortedUnique | dashboard.py:98 | `sorted(unique())` is strictly increasing and holds exactly the column's values |
| Sorting.StrictlySortedUnique | dashboard.py:98 | two strictly sorted lists with the same values are equal, so a picker list depends only on the set of values |
| Numbers.ParsedTextHasDigit | backend/app.py:35 | text without a digit never reads as a number, so it is coerced to 0 |
| Numbers.ParseIntToString | backend/app.py:35 | the decimal text of any integer reads back as that integer |
| Numbers.ParseNumber | backend/app.py:35 | text of digits only reads as its decimal value; with a leading minus the value is at most 0, otherwise at least 0 |
| Numbers.ParseNumberDefined | backend/app.py:35 | a text reads as a number exactly when, after one optional leading sign, it holds only digits and at most one dot, with at least one digit; any other text ("12kg", "1.2.3", "N/A") reads as NaN |
| Numbers.ParseDecimal | backend/app.py:35 | `w.f` reads as the whole digits plus the fraction digits over 10 to the fraction's length; a leading '+' keeps that value and a leading '-' negates it |
| Numbers.ParseSignedDigits | backend/app.py:35 | signed digit text reads as its value, negated under '-' |
| Frames.RowOf | backend/app.py:26 | a CSV row becomes a row keyed by exactly the header labels |
| Frames.RowOfAt | backend/app.py:26 | under a label no later column repeats, the row holds that column's cell; a short row reads NaN |
| Frames.Normalised | backend/app.py:28 | column i is header i normalised, one row per CSV row, and every row is keyed by the columns |
| Frames.Tag | backend/app.py:29 | every row gets `league` set to the file's league, the column set gains `league`, and no other label's count changes |
| Frames.Coerce | backend/app.py:35 | a coerced cell is a number: numbers are kept, text that parses becomes its value, and NaN or text that does not parse becomes 0 |
| Frames.CoerceColumn | backend/app.py:35 | coercing a column keeps the labels, the row count and every row's keys |
| Frames.CoerceNumeric | backend/app.py:33-35 | the coercion loop succeeds exactly when the specifying fold does, and then returns its frame |
| Frames.CoerceAllCells | backend/app.py:33-35 | after coercion the listed columns hold numbers, other cells are untouched, and labels and rows are kept |
| Frames.CoerceAllFails | backend/app.py:33-40 | coercion raises exactly when a listed label occurs twice after normalisation |
| Frames.PreparedRows | backend/app.py:26-37 | a loaded file keeps its row count, every row carries its league, listed columns are numbers, and on the dashboard the position is set |
| Frames.PreparedCell | dashboard.py:67-81 | a cell under a unique label that is neither `league` nor `position` reaches the loaded row, coerced when its column is listed |
| Frames.TaggedCell | backend/app.py:28-29 | after normalisation and tagging, a cell under a unique label is the CSV cell |
| Frames.PrepareFails | dashboard.py:67-83 | a file is skipped exactly when a listed label is duplicated or, on the dashboard, there is no position column |
| Frames.Occurrences | backend/app.py:34 | a label occurs a positive number of times exactly when it is a column |
| Frames.AppendNew | backend/app.py:44 | the first frame's labels come first and unchanged, every appended label is a new one of the next frame, and the result holds exactly the labels of either |
| Frames.Concat | backend/app.py:44 | the concatenated frame has the labels of all frames |
| Frames.ConcatRows | backend/app.py:44 | the concatenated rows are the frames' rows in order |
| Frames.LoadFile | backend/app.py:23-37 | loading one file gives the specified frame, or nothing when the file is missing or raises |
| Frames.LoadFiles | dashboard.py:63-83 | the loop over the configured files returns exactly the frames that load, in configuration order |
| Frames.SourceRowsPrepared | backend/app.py:26-37 | every row one file contributes carries that file's league and numbers in the listed columns, and on the dashboard a position |
| Frames.LoadAllRows | backend/app.py:22-37 | every loaded row carries the league of a configured file, its listed columns are numbers, and on the dashboard its position is set |
| Frames.LoadAllSnoc | backend/app.py:22-40 | loading one more file appends its frame, or nothing when it is missing or raises |
| Frames.Leagues | backend/app.py:12-16 | the league names of the configuration, in order |
| Frames.JoinPath | backend/app.py:23 | the joined path starts with the directory and ends with the file name, with one separator between unless the directory already ends in one |
| Frames.CoerceAll | backend/app.py:32-35 | a coercion that succeeds keeps the labels and the row count |
| Frames.PositionAsText | dashboard.py:79 | every row keeps its keys, and a position a row has is never NaN afterwards |
| Frames.Prepare | backend/app.py:26-37 | a prepared file keeps the CSV's row count, its columns are the normalised labels and `league`, and on the dashboard it has a position column |
| Frames.LoadOne | backend/app.py:23-42 | a missing or unreadable file gives nothing; an existing, readable file gives exactly what preparing it gives |
| Frames.ReadableFileLoads | backend/app.py:24-37 | an existing, readable file with each numeric label once (and, on the dashboard, a position column) is loaded, one row per data line |
| Frames.LoadAllCount | backend/app.py:22-40 | at most one frame per configured file |
| Frames.LoadAllNoneLoaded | backend/app.py:22-44 | when every configured file is missing or fails, no frame is loaded |
| Frames.LoadAllEveryLoaded | backend/app.py:22-40 | when every configured file loads, there is exactly one frame per file |
| BackendLoader.LoadData | backend/app.py:19-44 | `load_data` returns the concatenation of the frames that load, or an empty frame |
| BackendLoader.Loaded | backend/app.py:44 | the table's rows are the loaded frames' rows in order, and nothing loaded gives the empty frame |
| BackendLoader.LoadedFramesInOrder | backend/app.py:22-37 | the loaded frames hold the EPL rows, then LaLiga's, then Bundesliga's |
| BackendLoader.LoadedInOrder | backend/app.py:22-44 | the table is the EPL rows, then LaLiga's, then Bundesliga's, each possibly empty |
| BackendLoader.LoadedRowsTaggedAndNumeric | backend/app.py:29-35 | every loaded row is tagged with a configured league and its seven numeric columns hold numbers |
| BackendLoader.ConfiguredLeagues | backend/app.py:12-16 | the configured leagues are EPL, LaLiga and Bundesliga |
| BackendLoader.NothingLoadedIsEmpty | backend/app.py:44 | when no file loads the table is the empty frame |
| DashboardLoader.FirstExisting | dashboard.py:48-52 | the probe picks the first existing candidate, and none exactly when none exists |
| DashboardLoader.CandidateDirs | dashboard.py:42-46 | three candidates probed in order: `<script dir>/backend/data`, then `<script dir>/data`, then the fixed Windows path |
| DashboardLoader.DataDir | dashboard.py:48-55 | no folder exactly when no candidate exists, otherwise an existing candidate |
| DashboardLoader.FindDataDir | dashboard.py:41-52 | the probing loop returns the specified folder |
| DashboardLoader.UsesFirstExisting | dashboard.py:48-52 | the folder is the k-th candidate when it exists and no earlier one does |
| DashboardLoader.LoadData | dashboard.py:40-86 | the loading routine returns the specified table and message |
| DashboardLoader.Loaded | dashboard.py:54-86 | a table exactly when no message; the message is "Data folder not found." exactly when no folder exists, else "No files loaded."; the table is the concatenation of the loaded frames |
| DashboardLoader.LoadedOutcomes | dashboard.py:54-86 | a missing folder gives "Data folder not found.", no loaded file gives "No files loaded.", otherwise a table and no message |
| DashboardLoader.ConfiguredLeagues | dashboard.py:57-61 | the configured leagues are EPL, LaLiga and Bundesliga |
| DashboardLoader.DirRowsTaggedAndNumeric | dashboard.py:64-81 | every row loaded from the folder carries a configured league, a position and numbers in the ten numeric columns |
| DashboardLoader.LoadedRowsTaggedAndNumeric | dashboard.py:64-86 | the same holds for the table the dashboard starts with |
| DashboardLoader.Start | dashboard.py:88-92 | the dashboard runs exactly when a non-empty table loaded, and otherwise halts with the banner of the loader's message |
| DashboardLoader.Banner | dashboard.py:91 | the banner is the error prefix followed by the message, or by "None" when there is none |
| DashboardLoader.EmptyFilesHaltWithoutReason | dashboard.py:85-92 | when the files load but hold no rows, the banner reads "Error: None" |
| Records.Where | backend/app.py:66 | a mask keeps exactly the matching rows and never adds rows |
| Records.Matches | backend/app.py:66-68 | an empty search text matches every row, and a matching search text is no longer than the name |
| Records.SubsequenceMembers | backend/app.py:66 | every row of a subsequence is a row of the table |
| Records.SliceIsSubsequence | backend/app.py:92 | a contiguous `iloc` slice is a subsequence |
| Records.WhereIsSubsequence | backend/app.py:66 | a mask keeps the original row order |
| Records.WhereCons | backend/app.py:66 | masking a table is masking its first row, then the rest |
| Records.WhereCounts | backend/app.py:66 | a mask keeps every copy of a matching row and no copy of another |
| Records.WhereConcat | backend/app.py:44-66 | masking a concatenation is concatenating the masked blocks |
| Records.WhereKeepsAll | dashboard.py:102 | a mask every row passes changes nothing |
| Records.WhereExtendsChain | dashboard.py:102-135 | one more mask on a chain's result is the chain with that mask |
| Records.WhereAllIsSubsequence | dashboard.py:102-135 | a chain of masks keeps the original order |
| Records.WhereAllMembers | dashboard.py:102-135 | a chain keeps exactly the rows passing every mask |
| Records.WhereAllEmpty | dashboard.py:102-135 | an empty chain keeps the whole table |
| Records.TotalGoalsConcat | backend/app.py:72 | the goal sum of two blocks is the sum of their sums |
| Records.TotalGoals | backend/app.py:72 | with non-negative goals the total is non-negative and at least any one row's goals |
| Records.TotalGoalsOfFilter | backend/app.py:72 | with non-negative goals, a filtered sum is between 0 and the whole sum |
| Ranking.FirstMax | dashboard.py:143 | the chosen candidate holds the largest value, and no earlier candidate does |
| Ranking.Key | dashboard.py:145 | the efficiency key is positive exactly when a player scored more goals than their xG |
| Ranking.Select | backend/app.py:78 | stable selection returns min(n, candidates) row numbers |
| Ranking.ArgMax | dashboard.py:143-146 | `idxmax` is absent exactly on an empty table, otherwise the first row holding the maximum |
| Ranking.SelectPicks | backend/app.py:78 | stable selection picks min(n, candidates) distinct candidates |
| Ranking.SelectRanked | backend/app.py:78 | stable selection lists its picks largest first, ties in row order |
| Ranking.SelectLeaves | backend/app.py:78 | every candidate the selection leaves out ranks below every pick: a smaller key, or an equal key and a later row |
| Ranking.SelectSpec | backend/app.py:78 | stable selection picks min(n, candidates) distinct candidates, largest first, ties in row order, and every candidate left out has a smaller key or an equal key and a later row |
| Ranking.LargestPicks | backend/app.py:78 | `nlargest` picks min(n, rows) distinct rows |
| Ranking.LargestRanked | backend/app.py:78 | `nlargest` lists its rows largest first, ties in row order |
| Ranking.LargestLeaves | backend/app.py:78 | every row `nlargest` leaves out ranks below every picked row: a smaller value, or an equal value and a later row (`keep='first'`) |
| Ranking.LargestSpec | backend/app.py:78 | `nlargest` picks min(n, rows) distinct rows, largest first, ties in row order, and at the cut-off the earlier of tied rows is kept |
| Ranking.Largest | dashboard.py:226 | the picked rows are the table's rows at the picked positions, most first, and every row left out has less, or as much and comes later |
| Ranking.InsertByGoals | dashboard.py:192 | inserting a row keeps goal order and adds exactly that row |
| Ranking.SortByGoals | dashboard.py:192 | `sort_values(by='goals')` is a permutation of the rows in non-decreasing goal order |
| Ranking.GoalsAscendingSubsequence | dashboard.py:192-193 | filtering a goal-ordered table keeps it goal-ordered |
| BackendStats.FilteredIsChain | backend/app.py:64-68 | the two optional filters are one chain of the active masks |
| BackendStats.Needle | backend/app.py:62 | an absent search is the empty text; a given search is its lower-cased form, of the same length and without upper-case letters |
| BackendStats.ActiveCriteria | backend/app.py:65-68 | the league mask comes first when the league filter applies, the name mask last when the search text is non-empty, and nothing else |
| BackendStats.Filtered | backend/app.py:64-68 | no more rows than the table, every one from it and of the requested league, and the whole table when no filter applies |
| BackendStats.FilteredMembers | backend/app.py:61-68 | a row is kept exactly when it matches the league (unless absent, empty or "All") and its lower-cased name contains the lower-cased search |
| BackendStats.FilteredIsSubsequence | backend/app.py:64-68 | the filtered rows keep the table's order |
| BackendStats.SliceBound | backend/app.py:92 | a slice bound inside the table is kept, one past the end becomes the length, a negative one counts from the end and one before the start becomes 0 |
| BackendStats.PySlice | backend/app.py:92 | an in-range slice is exact; otherwise the result is the contiguous run of rows from the clamped start, empty when the clamped end is not after it |
| BackendStats.Page | backend/app.py:88-92 | a page holds at most 50 rows |
| BackendStats.PageBlock | backend/app.py:88-92 | page p (p at least 1) is rows 50(p-1) up to 50p, clamped to the table |
| BackendStats.PageIsSubsequence | backend/app.py:92 | a page keeps the table's order |
| BackendStats.PageZeroEmpty | backend/app.py:88-92 | page 0 is empty |
| BackendStats.NegativePageFromEnd | backend/app.py:88-92 | a negative page counts 50-row blocks from the end of the table |
| BackendStats.PagesArePrefix | backend/app.py:88-92 | pages 1 to k together are the table's first 50k rows, with nothing skipped or repeated |
| BackendStats.GetStats | backend/app.py:56-98 | an empty table gives a 500 "No data loaded"; otherwise the count, the goal sum, the top scorers, the scatter and the page of the filtered rows |
| BackendStats.TopScorers | backend/app.py:76-78 | the chart has min(10, n) entries for n filtered players |
| BackendStats.Scatter | backend/app.py:81-85 | every point has more than five goals, and there are no more points than rows |
| BackendStats.TopScorersRanked | backend/app.py:76-78 | the chart lists min(10, n) of n filtered players, most goals first, each one of the filtered players |
| BackendStats.TopScorersLeaveFewer | backend/app.py:76-78 | every player left off the chart has fewer goals than each one on it, or as many and a later row |
| BackendStats.ScatterExact | backend/app.py:81-85 | the scatter is the points of a subsequence of the filtered rows holding each row with more than five goals as often as the table does and no other row |
| BackendStats.TotalGoalsBounded | backend/app.py:71-72 | with non-negative goals the reported total is between 0 and the whole table's |
| BackendStats.DefaultPageIsFirst | backend/app.py:88 | without a page parameter the table is the first 50 filtered rows |
| Sidebar.Options | dashboard.py:98 | a picker offers its sentinel, then each value once in sorted order |
| Sidebar.LeagueOptions | dashboard.py:98 | "All", then each league of the table once, strictly sorted |
| Sidebar.TeamOptions | dashboard.py:105 | "All", then each team of the league view once, strictly sorted |
| Sidebar.PositionOptions | dashboard.py:114 | "All", then each position of the whole table once, strictly sorted |
| Sidebar.PlayerOptions | dashboard.py:125-128 | "None", then each name of the position view once, strictly sorted |
| Sidebar.LeagueView | dashboard.py:102 | the rows of the chosen league, or the whole table for "All" |
| Sidebar.TeamView | dashboard.py:108-111 | the league view's rows of the chosen team, or the whole league view for "All" |
| Sidebar.PositionView | dashboard.py:118-120 | the team view's rows of the chosen position, or the whole team view for "All" |
| Sidebar.PlayerView | dashboard.py:134-135 | the position view's rows of the searched name, or the whole position view for "None" |
| Sidebar.View | dashboard.py:102-135 | a row is on view exactly when it is in the table and matches every pick that is not a sentinel |
| Sidebar.OptionalStep | dashboard.py:108-111 | a filter applied only when its pick is not the sentinel is the chain with that optional mask |
| Sidebar.ViewIsChain | dashboard.py:102-135 | the four filters in turn are one chain of the masks the picks switch on |
| Sidebar.ViewIsSubsequence | dashboard.py:102-135 | the view keeps the table's order |
| Sidebar.SentinelsShowAll | dashboard.py:102-135 | leaving every picker on its sentinel shows the whole table |
| Sidebar.OfferedTeamHasRows | dashboard.py:105-111 | a team the picker offers has rows in the league view |
| Sidebar.OfferedPlayerHasRows | dashboard.py:125-135 | a player the picker offers has rows, and all rows on view then carry that name |
| Sidebar.OfferedPositionMayBeEmpty | dashboard.py:114-120 | positions come from the whole table, so an offered position can empty the view |
| Insights.FirstMaxUnique | dashboard.py:143-146 | only one row is the first to hold a maximum |
| Insights.SeasonReport | dashboard.py:142-153 | no report on an empty view, otherwise the first rows with the most goals, most assists and best goals minus xG |
| Insights.EstimatedGames | dashboard.py:165 | `int(minutes / 90)` is the whole number of 90-minute games, truncated toward zero |
| Insights.EstimatedGamesOdd | dashboard.py:165 | truncation is symmetric in the sign of the minutes |
| Insights.Verdict | dashboard.py:166-168 | the verdict is one of the three labels |
| Insights.VerdictThresholds | dashboard.py:166-168 | legend exactly above 50 goals or 30 assists, starter exactly above 20 or 15 otherwise, rotation player else |
| Insights.VerdictMonotone | dashboard.py:166-168 | more goals and assists never lower the verdict |
| Insights.Finishing | dashboard.py:170 | the finishing text is "better" or "lower" |
| Insights.FinishingIsEfficiency | dashboard.py:145-170 | finishing is "better" exactly when goals minus xG is positive |
| Insights.ClinicalFinisherFinishesBetter | dashboard.py:145-170 | if anyone on view beat their xG, the report's clinical finisher did |
| Insights.PlayerSummary | dashboard.py:161-162 | a summary exists exactly when the view has a row, and it is the summary of the first row |
| Insights.SummaryOf | dashboard.py:162-183 | the summary shows the row's player, team, minutes, goals, assists and xG, whole games truncated from minutes, "better" exactly for positive efficiency, and the verdict the row's goals and assists earn |
| Insights.SummaryOfSearchedPlayer | dashboard.py:125-170 | a picked player always gets a summary about them, with the verdict their own row earns |
| Insights.AnalysisPanel | dashboard.py:159-206 | the player panel exactly when a player is searched, else the team panel exactly when a team is picked, else the league panel; the player panel shows the summary of the view's first row; the team panel holds the team's rows of the chosen league |
| Insights.TeamChart | dashboard.py:192-193 | the team chart runs from fewest to most goals and holds exactly the team's rows with at least one goal |
| Insights.Matrix | dashboard.py:212 | the bubble chart holds exactly the rows on view with more than 500 minutes, in view order |
| Insights.TopChart | dashboard.py:226 | the bar chart holds the view's rows at min(10, n) distinct positions, most goals first, and every row left out has fewer goals, or as many and comes later |
| Insights.TeamPanelIgnoresPosition | dashboard.py:188-193 | the team panel reads the team's rows before the position filter |
| Insights.TeamChartCounts | dashboard.py:192-193 | the team chart holds each of the team's scoring rows as often as the team's rows do |
| FaceOff.Colours | dashboard.py:256-257 | a side is green exactly when its value is strictly larger |
| FaceOff.AtMostOneGreen | dashboard.py:256-257 | never both green, and equal values leave both white |
| FaceOff.ColoursSwap | dashboard.py:256-257 | swapping the players swaps the colours |
| FaceOff.FirstNamed | dashboard.py:247-248 | the lookup finds the first row with the name, and none exactly when no row has it |
| FaceOff.FirstNamedIsFirstOfFilter | dashboard.py:247-248 | the lookup is the first row of the name mask |
| FaceOff.Tape | dashboard.py:251-257 | the five lines are Goals, Assists, xG, Shots and Mins, each with the first player's value on the left, the second's on the right, and colours from comparing them |
| FaceOff.Compare | dashboard.py:246-257 | a comparison exists exactly when both names are on some row, and it is the tape of the first row carrying each name |
| FaceOff.SelfComparisonAllWhite | dashboard.py:253-257 | a player compared with themself shows no green |
| FaceOff.NeverBothGreen | dashboard.py:253-257 | no metric shows both values green |
| FaceOff.OfferedPlayersCompare | dashboard.py:241-248 | any two names the pickers offer can be compared |
| FaceOff.FaceOffOptions | dashboard.py:241 | each name of the whole table once, strictly sorted |
| FaceOff.TapeSwap | dashboard.py:251-257 | comparing the players the other way round mirrors every line: values and colours change sides |
| FaceOff.CompareSwap | dashboard.py:243-257 | swapping the two picks swaps the sides of the comparison and changes nothing else |

## Left out

- The Flask routes (`/`), JSON encoding and CORS. The Streamlit page, its widgets, caching and styling. The Plotly figures. The React front-end. Each is presentation glue around the tables modelled here.
- Logging and the messages printed while loading.
- CSV parsing. `read_csv` is a value in the model: a readable table or a failure, so an unreadable file is skipped as the `except` branches do.
- `pd.read_csv` renaming repeated header labels. Two labels that become equal only after normalisation are modelled. A frame row is a map, so the later column's cell wins where pandas keeps both columns. The failure that duplicate can cause later is not modelled either: `pd.concat` runs outside the `try` (backend/app.py:44, dashboard.py:84), and pandas cannot align a frame holding one label twice (say a label that is not a numeric column, from headers such as "Team Name" and "team_name") with a frame lacking that duplicate, so `load_data` raises there. The model always concatenates.
- `avg_xg` (backend/app.py:73). It is a floating-point mean and round, NaN on an empty subset; floating point is not modelled.
- The radar percentile rank (`get_rank`, dashboard.py:270-271). It is a floating-point percentile.
- The team and league averages of the trends tab (dashboard.py:290-319). They are floating-point means.
- The xG histogram (dashboard.py:233) and the data grid (dashboard.py:325). They only display tables already modelled.
- Frames.Coerce: `pd.to_numeric` is modelled for an optional sign, digits and one decimal point. Exponents, `inf`, `nan`, surrounding whitespace and booleans are not modelled.
- Frames.PositionAsText: only NaN becomes the text "nan". The text form of a numeric position (`1.0`) is not modelled.
- Frames.AppendNew: states that the appended labels are new labels of the next frame, not that they keep their first-seen order or appear once each.
- Frames.Concat: states which labels the result has, not their order. Rows an earlier frame lacks a label for read as NaN through the absent key.
- The step from a loaded frame to `Records.Record`. A query layer works on typed records. The KeyError for an absent column such as `player_name` is not modelled, and the counts are taken as whole numbers.
- Text.Lower and Text.IsSpace cover ASCII only. Unicode case folding and Unicode whitespace are not modelled.
- Records.Matches: `str.contains` is a regular-expression search in pandas. It is modelled as a literal substring search, which agrees when the search text has no regex metacharacters. NaN names are not modelled.
- A `page` parameter that is not an integer makes `int()` raise (an HTML 500). The query carries the page as an optional integer.
- `os.path.abspath`/`dirname` of the script are a parameter. `os.path.join` is modelled with the POSIX separator.
- Ranking.SortByGoals: pandas' default sort is not stable, so equal goal counts may come out in any order. The model uses one particular order. Its lemmas state only what every order shares: goal order and the same rows.
- `sorted()` over a column mixing text and NaN raises TypeError. Columns are modelled as text.
- The comparison pickers' default `index=1` fails with fewer than two distinct players. Widget defaults are not modelled.
- The `efficiency` column that the season report adds to the filtered table (dashboard.py:145). The model computes it as `Ranking.Key` and does not store it.
- Ranking.Key / Insights.SeasonReport: efficiency (goals minus xG) is computed on exact reals, where the source subtracts in 64-bit floating point. Rounding can make two near-tied rows compare differently, so the clinical finisher the source picks can differ from the model's.
