# Fantasy NBA streaming report — a Dafny model

The report generator picks a four-week reporting range that starts today.
For each week it builds:

- a **team schedule grid**: one row per team that plays that week, with its game count and one cell per day showing `vs OPP` or `@ OPP`, coloured by the opponent's defensive rank;
- a **player table**: active players with season, last-7-days and last-14-days stats, joined with their team's schedule row.

This project models the logic of that pipeline, with the fetched data taken as inputs. It covers:

- **Calendar** (`calendar.dfy`): proleptic Gregorian dates.
  - `Ordinal` and `FromOrdinal` convert between dates and day numbers; they are proved inverse.
  - Day number 1 is 0001-01-01, as in Python's `toordinal`.
  - `date + timedelta(n)` becomes `AddDays` on day numbers.
  - `NextDate` steps a date by one day on the year, month and day fields. It is an independent reference, and adding one day number is proved to give the same date.
- **Report dates** (`reportdates.dfy`):
  - the move of a 2024 server date to 2025;
  - the first week's Sunday end and the final Sunday;
  - the four-week loop;
  - enumeration of a window's days;
  - the season label.
- **Decimal text** (`text.dfy`):
  - decimal rendering and parsing of naturals;
  - `str(..)[-2:]`;
  - `split(' ')` and `join`;
  - `strip`;
  - a small model of `float()` on digit strings.
- **Defensive ratings** (`ratings.dfy`): the sort by DEF_RATING (or W_PCT), the 1..N numbering, and the loop that files each ranked row under the team's abbreviation.
- **Rank colours** (`colors.dfy`): the five-step colour scale.
- **Matchups** (`matchup.dfy`): the opponent token, the home test, the rank lookup with its default of 15, and the badge.
- **Frames** (`frames.dfy`, `sorting.dfy`):
  - row filtering;
  - `unique()` in first-appearance order;
  - a sort by key, which stands for pandas `sort_values`.
- **Column projection** (`columns.dfy`): only the expected columns that exist are kept.
- **Team grid** (`teamgrid.dfy`): `process_week_grid` builds the grid row by row and day by day, then sorts it by games.
- **Player table** (`playertable.dfy`):
  - the GP > 0 filter;
  - column suffixes;
  - left joins;
  - the schedule merge;
  - the NaN fills.
- **Stat cells** (`statcell.dfy`): the cell key, the value read with a default of 0, the sort value of `%` strings and the hidden style.

Data and clock are parameters. The clock is the `today` parameter. The stats frames, schedule, team table and id-to-abbreviation map are values passed in.

## Model

| member | source | states |
|---|---|---|
| Calendar.DaysInMonth | generate_report.py:19-21 | months have 28..31 days; exactly February of a leap year has 29, so `replace(year=2025)` fails only on Feb 29 |
| Calendar.DaysBeforeYearClosedForm | generate_report.py:21 | the days before year y follow the Gregorian 4/100/400 rule |
| Calendar.MonthsMakeYear | generate_report.py:21 | the twelve month lengths add up to the year length |
| Calendar.OrdinalWithinYear | generate_report.py:21 | a date's day number lies inside its year's range |
| Calendar.OrdinalInjective | generate_report.py:21 | two valid dates with the same day number are the same date |
| Calendar.FromOrdinal | generate_report.py:21 | every day number is the number of a valid date |
| Calendar.FromOrdinalOrdinal | generate_report.py:21 | converting a date to its number and back gives the date |
| Calendar.Ordinal | generate_report.py:21 | `toordinal()`: a date's day number, counting 0001-01-01 as day 1; its inverse and range are stated by the lemmas above |
| Calendar.Weekday | generate_report.py:23 | `weekday()` is in 0..6 |
| Calendar.NextDate | generate_report.py:62 | stepping a valid date by one day gives a valid date |
| Calendar.NextDateOrdinal | generate_report.py:62 | the next date's number is one more |
| Calendar.NextDateIsAddOne | generate_report.py:62 | `curr += timedelta(days=1)` on day numbers agrees with stepping the date fields |
| Calendar.AddDays | generate_report.py:24 | `date + timedelta(days=n)` on day numbers; NextDateIsAddOne and LeapDayPlusYear state what it means for dates |
| Calendar.NotAfterIsOrdinalOrder | generate_report.py:60 | comparing dates field by field is the same as comparing day numbers |
| ReportDates.TimeTravel | generate_report.py:16-21 | the date used for the report is always a valid date |
| ReportDates.TimeTravelKeepsOtherYears | generate_report.py:16 | a date outside 2024 is left unchanged |
| ReportDates.TimeTravelReplacesYear | generate_report.py:18-19 | a 2024 date other than Feb 29 moves to the same month and day of 2025 |
| ReportDates.TimeTravelLeapDay | generate_report.py:20-21 | 2024-02-29 becomes 2025-02-28, which is 365 days later |
| ReportDates.ReplaceYearFailsOnlyOnLeapDay | generate_report.py:19-20 | `replace(year=2025)` on a 2024 date fails exactly on Feb 29 |
| ReportDates.LeapDayPlusYear | generate_report.py:21 | Feb 29 plus 365 days is Feb 28 of the next year |
| ReportDates.DaysUntilSunday | generate_report.py:23 | `(6 - weekday) % 7` is in 0..6 |
| ReportDates.WeekOneEnd | generate_report.py:24 | week one ends 0..6 days after today |
| ReportDates.WeekOneEndIsSunday | generate_report.py:23-24 | week one ends on a Sunday |
| ReportDates.WeekOneEndUnique | generate_report.py:23-25 | it is the only Sunday in today..today+6 |
| ReportDates.FinalEnd | generate_report.py:28 | the range ends 21..27 days after today |
| ReportDates.FinalEndIsSunday | generate_report.py:28 | the range ends on a Sunday |
| ReportDates.ReportWeeks | generate_report.py:259-275 | four windows: week one is today..the first Sunday; each next window starts the day after the previous one ends and spans 7 days; every window ends on a Sunday; the last ends at `final_end` |
| ReportDates.WindowsPartitionDays | generate_report.py:263-275 | every day of the range lies in exactly one window |
| ReportDates.EndsBeforeLaterStarts | generate_report.py:273-275 | a window ends before any later window starts |
| ReportDates.EnumerateDays | generate_report.py:58-62 | the days are start, start+1, ...; there are end-start+1 of them, or none when start > end |
| ReportDates.EnumeratedDaysAreTheWindow | generate_report.py:58-62 | a day is listed iff it lies in start..end, and the list is strictly increasing |
| ReportDates.SeasonLabelFormat | generate_report.py:33-37 | month >= 10 gives "Y-yy" with yy the last two digits of Y+1; otherwise "(Y-1)-yy" with yy those of Y |
| ReportDates.StartLabelFormat | generate_report.py:35 | the label is the start year, a dash and (start+1) mod 100 in two digits |
| ReportDates.SeasonLabelAutumnExample | generate_report.py:34-35 | November 2025 gives "2025-26" |
| ReportDates.SeasonLabelSpringExample | generate_report.py:36-37 | March 2025 gives "2024-25" |
| ReportDates.SeasonLabel | generate_report.py:33-37 | the season label is the start-year label of `year` from October on and of `year - 1` before; its text is stated by SeasonLabelFormat |
| Text.DecimalString | generate_report.py:35 | `str(n)` is a non-empty string of digits |
| Text.DecimalStringLastDigit | generate_report.py:35 | the last character of `str(n)` is n mod 10 |
| Text.DecimalStringRoundTrip | generate_report.py:35 | reading `str(n)` back gives n |
| Text.LastTwoDigits | generate_report.py:35 | `str(n)[-2:]` for n >= 10 is n mod 100 in two digits |
| Text.Split | generate_report.py:93 | `split(' ')` gives at least one token, none holding the separator |
| Text.JoinSplit | generate_report.py:93 | joining the tokens of a split gives back the text |
| Text.SplitJoin | generate_report.py:93 | splitting a join of separator-free tokens gives back the tokens |
| Text.SplitNoSeparator | generate_report.py:93 | a text without the separator splits into itself |
| Text.SplitFirstToken | generate_report.py:93 | the first token ends at the first separator |
| Text.StripLeft | generate_report.py:229 | only leading copies of the character are removed, and all of them |
| Text.StripRight | generate_report.py:229 | only trailing copies of the character are removed, and all of them |
| Text.StripWithout | generate_report.py:229 | stripping a character that does not occur changes nothing |
| Text.StripTrailing | generate_report.py:229 | `(w + "%").strip('%')` is w when w has no `%` |
| Text.Strip | generate_report.py:229 | `strip(c)` never lengthens the text and leaves no c at either end |
| Text.IsNanText | generate_report.py:229 | the texts `float()` reads as NaN: "nan" in any letter case, optionally signed |
| Text.NanTextIsNotDecimal | generate_report.py:229 | a NaN text is not a plain decimal |
| Text.ParseUnsigned | generate_report.py:229 | a parsed unsigned decimal is never negative |
| Text.ParseDecimal | generate_report.py:229 | `float()` of an empty text fails; a parsed value is non-positive after a minus sign and non-negative otherwise |
| Text.ParsePointed | generate_report.py:229 | `float("W.F")` is W + F/10^len(F) |
| Text.OneDecimalRoundTrip | generate_report.py:229 | parsing the one-decimal text of n.d gives n + d/10 |
| Matchups.SplitCount | generate_report.py:93 | splitting gives one more token than there are separators |
| Matchups.Opponent | generate_report.py:93 | token 2 of the matchup; an error exactly when there are fewer than three tokens |
| Matchups.OpponentOfJoin | generate_report.py:93 | for three or more space-free tokens joined by spaces, the opponent is token 2 |
| Matchups.NoDotNoVs | generate_report.py:94 | a matchup without a dot is never home |
| Matchups.VsIsHome | generate_report.py:94 | "T vs. O" is home |
| Matchups.IsHome | generate_report.py:94 | `'vs.' in matchup`; NoDotNoVs and VsIsHome state both outcomes |
| Matchups.Prefix | generate_report.py:75 | the prefix is "vs" exactly for home games |
| Matchups.OpponentRank | generate_report.py:72-73 | an opponent missing from the rank map gets rank 15 |
| Matchups.BadgeFor | generate_report.py:71-76 | the badge names the opponent, carries its rank and that rank's colour, and says "vs" iff home |
| Matchups.UnratedOpponent | generate_report.py:72-74 | an unrated opponent shows rank 15 in yellow |
| Matchups.MatchupBadge | generate_report.py:92-95 | the badge of a matchup fails exactly when the opponent token is missing; otherwise it names the opponent and is "vs" iff home |
| Matchups.ThreeTokenBadge | generate_report.py:92-95 | any three space-free tokens give the badge of the third token |
| Matchups.HomeMatchupBadge | generate_report.py:92-95 | "T vs. O" gives a home badge against O |
| Matchups.AwayMatchupBadge | generate_report.py:92-95 | "T @ O" without dots gives an away badge against O |
| RankColors.Bucket | utils.py:156-165 | the bucket index is one of five |
| RankColors.ColorForRank | utils.py:149-165 | the colour is the palette entry of the rank's bucket |
| RankColors.ColorInPalette | utils.py:156-165 | the colour is always one of the five |
| RankColors.BucketMonotone | utils.py:156-165 | a higher rank never gets a harder bucket |
| RankColors.SameColorSameBucket | utils.py:156-165 | two ranks share a colour iff they share a bucket |
| RankColors.BucketRanges | utils.py:156-165 | ranks <= 6, 7-12, 13-18, 19-24 and >= 25 get buckets 0..4, both directions |
| Sorting.InsertBy | generate_report.py:102 | inserting into a sorted list keeps it sorted and adds exactly the element |
| Sorting.SortBy | generate_report.py:102 | the result is sorted by the key and is a permutation of the input |
| Sorting.SortSorted | generate_report.py:102 | an already sorted list is unchanged |
| DefensiveRatings.SortKey | utils.py:128-132 | the key is DEF_RATING when the column exists, otherwise minus W_PCT |
| DefensiveRatings.Number | utils.py:134 | row i gets DEF_RANK i+1 |
| DefensiveRatings.SortedByKeyOrder | utils.py:128-132 | sorted by the key means ratings ascending, or win percentages descending |
| DefensiveRatings.RankTeams | utils.py:127-134 | the ranks are 1..N in order; the rows are a permutation of the frame; ratings are ascending, or win percentages descending without the column |
| DefensiveRatings.TeamDefensiveRatings | utils.py:137-147 | the map has one key per written abbreviation, and each key holds what its last writer in ranked order wrote |
| DefensiveRatings.UnknownTeamIsUnk | utils.py:140 | a team id missing from the lookup is filed under "UNK" |
| DefensiveRatings.AbbrOf | utils.py:140 | `id_to_abbr.get(tid, 'UNK')`; UnknownTeamIsUnk states the default |
| DefensiveRatings.InfoOf | utils.py:142-145 | the entry a ranked row writes: its DEF_RANK and its DEF_RATING, 0.0 without the column; RankMapOrdered states both for the map |
| DefensiveRatings.LastWriterUnique | utils.py:142-145 | each abbreviation has a single last writer, so later rows overwrite earlier ones |
| DefensiveRatings.RankMapOrdered | utils.py:134-145 | map ranks are in 1..N and distinct per key; a smaller rank never has a larger rating; without the column DefRtg is 0.0 |
| Frames.DistinctCount | generate_report.py:80 | a distinct list holds each value at most once |
| Frames.DistinctPermutation | generate_report.py:102 | a permutation of a distinct list is distinct |
| Frames.Filter | generate_report.py:67-68 | a boolean mask keeps only rows satisfying it and never adds rows |
| Frames.FilterUnfold | generate_report.py:67-68 | the mask keeps the head iff it satisfies the predicate |
| Frames.FilterMember | generate_report.py:67-68 | every kept row comes from the input |
| Frames.FilterKeeps | generate_report.py:67-68 | every row satisfying the mask is kept |
| Frames.FilterMembers | generate_report.py:67-68 | the kept rows are exactly the input rows satisfying the mask |
| Frames.FilterCount | generate_report.py:67-68 | a row is kept as often as it occurs if it satisfies the mask, otherwise never |
| Frames.FilterConcat | generate_report.py:67-68 | masking a concatenation masks each part |
| Frames.FilterKeepsAll | generate_report.py:67-68 | a mask that every row satisfies keeps the frame as it is |
| Frames.FilterDistinct | utils.py:69 | masking a list without repeats gives a list without repeats |
| Frames.FilterInOrder | utils.py:69 | masking keeps the input order |
| Frames.FirstIndex | generate_report.py:80 | the first position of a value |
| Frames.FirstIndexIsFirst | generate_report.py:80 | no earlier position holds the value |
| Frames.FirstIndexPrefix | generate_report.py:80 | appending to a list does not move a first appearance |
| Frames.FirstIndexAfter | generate_report.py:229 | a value's first position in w + t, when w lacks it and t starts with it, is the length of w |
| Frames.Unique | generate_report.py:80 | `unique()` has no repeats and holds exactly the input values |
| Frames.UniqueInFirstAppearanceOrder | generate_report.py:80 | `unique()` lists values in order of first appearance |
| Columns.ProjectColumns | utils.py:69 | the kept columns are exactly the expected columns that are present |
| Columns.ProjectionOrderedWithoutRepeats | utils.py:64-70 | the kept columns have no repeats and follow the expected order |
| Columns.AllPresentKeepsAll | utils.py:69-70 | when every expected column is present, all of them are kept in order |
| Columns.PlayerColumnsDistinct | utils.py:64-67 | the fourteen expected player columns are distinct |
| TeamGrid.WeekGames | generate_report.py:67-68 | the window's games are exactly the schedule games dated start..end |
| TeamGrid.TeamGames | generate_report.py:83 | a team's games are exactly the window games with its id |
| TeamGrid.GamesOn | generate_report.py:90 | a day's games are exactly the team games on that date |
| TeamGrid.TeamIds | generate_report.py:80 | the TEAM_ID column of the window games |
| TeamGrid.DayCells | generate_report.py:89-97 | one cell per day: blank with no game; otherwise the badge of the day's first game; it fails iff some day's first game has no opponent token, and then names the matchup of the earliest such day |
| TeamGrid.TeamRows | generate_report.py:79-98 | one row per distinct team id in the window, giving the team's abbreviation, its game count and its day cells; it fails iff some team has a bad day, and then names the first bad day's matchup of the first such team in `unique()` order |
| TeamGrid.BadTeamBreaksWeek | generate_report.py:79-95 | a bad day of team k, after fine teams 0..k-1, makes the week fail with that team's first bad matchup |
| TeamGrid.FineTeamsFineWeek | generate_report.py:79-95 | when every listed team id has fine cells, the whole week is fine |
| TeamGrid.ProcessTeamGrid | generate_report.py:56-102 | the window's days, and a grid with one row per playing team, rows in non-increasing game count, every cell showing that day's game; or, exactly when some team's first game of some day lacks an opponent token, the error naming the matchup Python's loop would hit first |
| TeamGrid.GameHasBadge | generate_report.py:82-95 | every window game shows as a badge in its team's row, in its day's column |
| TeamGrid.SortedGrid | generate_report.py:100-102 | sorting the rows by games keeps the grid: the same rows, one per playing team |
| TeamGrid.RowIdsDistinct | generate_report.py:80-82 | no two rows have the same team id |
| TeamGrid.SortedRowsShow | generate_report.py:100-102 | every row of the sorted grid is a row that was built |
| TeamGrid.GamesNonIncreasing | generate_report.py:102 | rows sorted descending by games have non-increasing game counts |
| TeamGrid.ByGamesDescending | generate_report.py:102 | the sort key of `sort_values('Games', ascending=False)`; GamesNonIncreasing states the order it gives |
| TeamGrid.SameRows | generate_report.py:102 | sorting neither adds nor loses rows |
| TeamGrid.DistinctIdsKept | generate_report.py:102 | sorting keeps team ids distinct |
| TeamGrid.PlayingTeamHasRow | generate_report.py:80-98 | a team has a row iff it plays in the window |
| PlayerTable.Lookup | generate_report.py:115-116 | a column the merge left empty reads as NaN |
| PlayerTable.Active | generate_report.py:107 | `GP > 0`, a GP that is not a number counting as inactive; ActivePlayers states the filter |
| PlayerTable.ActivePlayers | generate_report.py:107 | exactly the rows with GP > 0 survive |
| PlayerTable.SuffixRow | generate_report.py:111-112 | `add_suffix` renames every column k to k+suffix, keeping its value |
| PlayerTable.SuffixInjective | generate_report.py:111-112 | distinct columns stay distinct after suffixing |
| PlayerTable.AddSuffix | generate_report.py:111-112 | every row and every column name is suffixed |
| PlayerTable.FirstMatch | generate_report.py:115-116 | a match has the key value; no match means no right row has it; in the model a NaN key never matches |
| PlayerTable.FirstMatchIsFirst | generate_report.py:115-116 | the first row with the key value is the match |
| PlayerTable.Missing | generate_report.py:115-116 | an unmatched row gets NaN in every right column |
| PlayerTable.JoinRow | generate_report.py:115-116 | the joined row keeps every left value |
| PlayerTable.LeftJoin | generate_report.py:115-116 | a left join keeps every left row, in order, and adds the right columns |
| PlayerTable.LeftJoinKeepsLeft | generate_report.py:115-116 | a left value survives the join unchanged |
| PlayerTable.UnmatchedRowGetsMissing | generate_report.py:115-116 | an unmatched left row reads NaN in the right columns |
| PlayerTable.MatchedRowGetsRight | generate_report.py:115-116 | a matched left row reads the first matching right row's values |
| PlayerTable.PlayerStats | generate_report.py:106-116 | one row per active player, each keeping its season values |
| PlayerTable.ScheduleRow | generate_report.py:120-121 | a grid row becomes a record with TEAM_ABBREVIATION, Games and the day columns |
| PlayerTable.DayCellsRecord | generate_report.py:120-121 | the day cells are keyed by the day labels |
| PlayerTable.ScheduleFrame | generate_report.py:119-121 | the schedule frame has one record per grid row |
| PlayerTable.ScheduleColumnsJoined | generate_report.py:122 | after the schedule merge, every schedule column is present in every player row |
| PlayerTable.FillGames | generate_report.py:127 | a missing Games becomes 0, a present count stays |
| PlayerTable.FillDash | generate_report.py:129 | a missing day cell becomes "-", a present one stays |
| PlayerTable.FillCell | generate_report.py:125-129 | a filled schedule cell is never NaN |
| PlayerTable.FillIdempotent | generate_report.py:125-129 | filling twice is the same as filling once |
| PlayerTable.FillColumn | generate_report.py:125-129 | filling one column fills that column in every row and changes nothing else |
| PlayerTable.FillColumnStep | generate_report.py:125-129 | after filling column c, the columns filled so far plus c are filled |
| PlayerTable.FillSchedule | generate_report.py:125-129 | each schedule column is filled in every row; every other value and every row's column set is unchanged |
| PlayerTable.PlayerFrame | generate_report.py:104-129 | one row per active player; with a non-empty grid each row's columns are exactly the merged stats columns plus the schedule columns, and every schedule column is present, never NaN, and holds the filled value of the player's schedule join; with an empty grid each row is the merged stats row unchanged; every other value of the merged stats row, season, `_L7` and `_L14` alike, is kept |
| PlayerTable.SuffixedJoinKeys | generate_report.py:111-116 | a key of a join with a suffixed frame is a left key or ends with the suffix |
| PlayerTable.PlayerStatsKeys | generate_report.py:106-116 | a key of a merged stats row is a season key or ends with `_L7` or `_L14` |
| PlayerTable.DayCellsRecordAt | generate_report.py:120-121 | the record holds the cell of the last column with a given label |
| PlayerTable.ScheduleMatch | generate_report.py:122 | a player whose team first appears in grid row j is joined with that row's schedule record |
| PlayerTable.MatchedPlayerGames | generate_report.py:122-127 | such a player shows the team's game count |
| PlayerTable.MatchedPlayerDay | generate_report.py:122-129 | such a player shows the team's badge cell on each day |
| PlayerTable.NoGridShowsNoGames | generate_report.py:122-129 | with an empty grid nothing is merged: the report shows 0 games and a blank day for each player |
| PlayerTable.UnscheduledPlayerShowsNoGames | generate_report.py:122-129 | a player whose team has no schedule row gets Games 0 and "-" on every day after the fill |
| StatCells.ColumnKey | generate_report.py:223 | the key starts with the metric; with a suffix it is the metric, "_" and the suffix |
| StatCells.ColumnKeySplits | generate_report.py:223 | without underscores in the parts, the key splits back into metric and suffix |
| StatCells.ColumnKeyInjective | generate_report.py:223 | different (metric, suffix) pairs give different keys |
| StatCells.CellValue | generate_report.py:224 | a missing key reads as 0 |
| StatCells.SortValue | generate_report.py:227-230 | only text containing `%` is converted; the conversion gives NaN exactly for a "nan" text, otherwise a float, or 0 when parsing fails |
| StatCells.MissingPercentSortsAsNaN | generate_report.py:141-142 | "nan%", which `'{:.1f}%'` writes for a player missing from the L7 or L14 frame, sorts as NaN |
| StatCells.PercentTextSortValue | generate_report.py:229 | "w%" sorts as the number w |
| StatCells.PercentSortsAsNumber | generate_report.py:227-229 | a one-decimal percentage text sorts as its number |
| StatCells.BadPercentSortsAsZero | generate_report.py:229-230 | a `%` text that is neither a number nor "nan" sorts as 0 |
| StatCells.Style | generate_report.py:237 | the style is empty exactly for visible cells |
| StatCells.StatCellOf | generate_report.py:222-238 | the cell reads the key's value (0 when missing), sorts by its sort value, and is hidden iff not visible |
| StatCells.SuffixedCellReadsOriginal | generate_report.py:223-224 | the L7/L14 cell of a metric reads the value the period frame had under the bare metric |

## Left out

- All remote calls are inputs to the model: the game finder, the player and team stats endpoints and the team list. Their frames are parameters.
- The system clock is a parameter: `today`.
- Printing, the HTML, CSS and JavaScript text, writing the report file and opening the browser are not modelled.
- The L7/L14 refetch with 2024 dates (utils.py:94-102) is not modelled. It only reacts to what the remote service returns.
- The season label and the `season=` arguments that generate_report.py:44, 50 and 53 pass are not connected to the fetches. The fetch signatures do not take that argument, and the call sequence is not modelled.
- A schedule fetch that finds no games returns a frame without columns (utils.py:26-27), and generate_report.py:67 then raises KeyError. The model has no column-less schedule: an empty schedule gives an empty grid.
- The unused cache duration constant is not modelled.
- `strftime` day labels are not modelled: the day column names are a parameter.
- Float formatting is not modelled: `'{:.1f}%'` percentages and the `{val:.1f}` display. StatCells.SortValue takes any value; the lemmas PercentSortsAsNumber and MissingPercentSortsAsNaN state its result for the two texts `'{:.1f}%'` writes, "n.d%" and "nan%".
- The `3PM` renames are not modelled.
- pandas dtype coercion is not modelled: `astype(int)` of TEAM_ID and of a non-numeric Games.
- A GP that is NaN compares false and drops the row, as in the model. A GP that is non-numeric text is also treated as inactive here, where pandas would raise.
- Sorting.SortBy: pandas `sort_values` uses an unstable quicksort. The model uses a stable insertion sort. Every property proved about the sorted grid and ranks holds for any order of ties, but the tie order itself is not the source's.
- PlayerTable.FirstMatch: a NaN or missing key never matches here. pandas matches a null left key with a null right key, and raises KeyError when the key column itself is absent.
- PlayerTable.ActivePlayers: a frame without a GP column loses every row here; generate_report.py:107 raises KeyError instead.
- PlayerTable.LeftJoin: a left row whose key matches several right rows is joined with the first match only. pandas repeats the left row once per match.
- PlayerTable.JoinRow: on a column name clash the left value is kept. pandas would rename both columns with `_x`/`_y`.
- PlayerTable.Lookup: NaN is a single value of its own; float NaN arithmetic and NaN ratings are not modelled.
- Text.ParseUnsigned: `float()` also accepts exponents, blanks, underscores and `inf`. The model accepts digits with at most one dot; signs are read by ParseDecimal and NaN texts by IsNanText; anything else is a parse failure.
- StatCells.SortValue: a percentage text that `float()` reads as infinity sorts as 0 here, because the model's values have no infinity.
- A matchup with fewer than three tokens raises IndexError in the source. The model returns it as an error value instead of an exception.
- Calendar.FromOrdinal: dates past year 9999 (Python's `MAXYEAR`) are not rejected.
- The comment at generate_report.py:32 speaks of months up to 7. The code treats every month before October that way, and the model follows the code.
