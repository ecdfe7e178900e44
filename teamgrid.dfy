/**
 * The team schedule grid of one reporting window (`process_week_grid`):
 * one row per team with games in the window, holding the team's game count
 * and one cell per day of the window, either blank or a badge for that day's
 * opponent. Rows are listed by descending game count.
 */
module TeamGrid {
  import opened Wrappers
  import opened Calendar
  import opened ReportDates
  import opened Frames
  import opened Sorting
  import opened DefensiveRatings
  import opened Matchups

  /** One schedule row: a team's game on a date, with its matchup text. */
  datatype Game = Game(teamId: int, abbr: string, date: Day, matchup: string)

  /** A day cell: blank, or the badge of the team's game that day. */
  datatype Cell = Blank | Badged(badge: Badge)

  /** One grid row: TEAM_ID, Team, Games, then one cell per day. */
  datatype GridRow = GridRow(teamId: int, team: string, games: nat, cells: seq<Cell>)

  /** `schedule_df.loc[(GAME_DATE >= start) & (GAME_DATE <= end)]`. */
  function WeekGames(schedule: seq<Game>, start: Day, end: Day): (r: seq<Game>)
    ensures forall i :: 0 <= i < |r| ==> r[i] in schedule && start <= r[i].date <= end
    ensures forall i :: 0 <= i < |schedule| && start <= schedule[i].date <= end ==> schedule[i] in r
  {
    var inWindow := (g: Game) => start <= g.date <= end;
    FilterMembers(schedule, inWindow);
    Filter(schedule, inWindow)
  }

  /** `week_games[week_games['TEAM_ID'] == tid]`. */
  function TeamGames(games: seq<Game>, teamId: int): (r: seq<Game>)
    ensures forall i :: 0 <= i < |r| ==> r[i] in games && r[i].teamId == teamId
    ensures forall i :: 0 <= i < |games| && games[i].teamId == teamId ==> games[i] in r
  {
    var ofTeam := (g: Game) => g.teamId == teamId;
    FilterMembers(games, ofTeam);
    Filter(games, ofTeam)
  }

  /** `t_games[t_games['GAME_DATE'] == d]`. */
  function GamesOn(games: seq<Game>, d: Day): (r: seq<Game>)
    ensures forall i :: 0 <= i < |r| ==> r[i] in games && r[i].date == d
    ensures forall i :: 0 <= i < |games| && games[i].date == d ==> games[i] in r
  {
    var onDay := (g: Game) => g.date == d;
    FilterMembers(games, onDay);
    Filter(games, onDay)
  }

  /** The TEAM_ID column. */
  function TeamIds(games: seq<Game>): (ids: seq<int>)
    ensures |ids| == |games| && forall i :: 0 <= i < |games| ==> ids[i] == games[i].teamId
  {
    seq(|games|, i requires 0 <= i < |games| => games[i].teamId)
  }

  /** A game of the team on day d: the badge of its first game that day; no game: blank. */
  ghost predicate CellShows(c: Cell, teamGames: seq<Game>, d: Day, defMap: map<string, DefInfo>) {
    var onDay := GamesOn(teamGames, d);
    (c == Blank <==> onDay == [])
    && (onDay != [] ==> MatchupBadge(defMap, onDay[0].matchup) == Ok(c.badge))
  }

  /** The row of team tid: its abbreviation from its first game, its game count, and a cell per day. */
  ghost predicate RowShows(row: GridRow, week: seq<Game>, days: seq<Day>, defMap: map<string, DefInfo>) {
    var teamGames := TeamGames(week, row.teamId);
    teamGames != []
    && row.team == teamGames[0].abbr
    && row.games == |teamGames|
    && |row.cells| == |days|
    && forall m :: 0 <= m < |days| ==> CellShows(row.cells[m], teamGames, days[m], defMap)
  }

  /** Some game of the week is played by team tid. */
  ghost predicate Plays(week: seq<Game>, tid: int) {
    exists g :: g in week && g.teamId == tid
  }

  /** The first game of the team on day d has a matchup text with no third token: `split(' ')[2]` fails. */
  ghost predicate DayBad(teamGames: seq<Game>, d: Day) {
    var onDay := GamesOn(teamGames, d);
    onDay != [] && Opponent(onDay[0].matchup).Err?
  }

  /** No listed day makes the team's row fail. */
  ghost predicate CellsFine(teamGames: seq<Game>, days: seq<Day>) {
    forall m :: 0 <= m < |days| ==> !DayBad(teamGames, days[m])
  }

  /** e is the matchup of the first game on the first listed day that fails. */
  ghost predicate FirstBadDay(teamGames: seq<Game>, days: seq<Day>, e: string) {
    exists m :: 0 <= m < |days| && DayBad(teamGames, days[m]) && GamesOn(teamGames, days[m])[0].matchup == e
      && forall k :: 0 <= k < m ==> !DayBad(teamGames, days[k])
  }

  /** No team of the week has a failing day. */
  ghost predicate WeekFine(week: seq<Game>, days: seq<Day>) {
    forall i :: 0 <= i < |week| ==> CellsFine(TeamGames(week, week[i].teamId), days)
  }

  /** e is the first failing matchup met when the teams are visited in order of first appearance. */
  ghost predicate FirstBadTeam(week: seq<Game>, days: seq<Day>, e: string) {
    var ids := Unique(TeamIds(week));
    exists k :: 0 <= k < |ids| && FirstBadDay(TeamGames(week, ids[k]), days, e)
      && forall j :: 0 <= j < k ==> CellsFine(TeamGames(week, ids[j]), days)
  }

  /** The first |cells| days are shown by cells. */
  ghost predicate CellsShow(cells: seq<Cell>, teamGames: seq<Game>, days: seq<Day>, defMap: map<string, DefInfo>) {
    |cells| <= |days| && forall m :: 0 <= m < |cells| ==> CellShows(cells[m], teamGames, days[m], defMap)
  }

  /** Appending the cell of the next day keeps the cells showing their days. */
  lemma CellsShowStep(cells: seq<Cell>, c: Cell, teamGames: seq<Game>, days: seq<Day>, defMap: map<string, DefInfo>)
    requires CellsShow(cells, teamGames, days, defMap) && |cells| < |days|
    requires CellShows(c, teamGames, days[|cells|], defMap)
    ensures CellsShow(cells + [c], teamGames, days, defMap)
  {
    var next := cells + [c];
    forall m | 0 <= m < |next| ensures CellShows(next[m], teamGames, days[m], defMap) {
      if m < |cells| {
        assert next[m] == cells[m];
      }
    }
  }

  /** The cells of one team's row, day by day; a matchup without a third token aborts. */
  method DayCells(teamGames: seq<Game>, days: seq<Day>, defMap: map<string, DefInfo>)
    returns (r: Result<seq<Cell>, string>)
    ensures r.Ok? ==> (|r.value| == |days|
      && forall m :: 0 <= m < |days| ==> CellShows(r.value[m], teamGames, days[m], defMap))
    ensures r.Ok? <==> CellsFine(teamGames, days)
    ensures r.Err? ==> FirstBadDay(teamGames, days, r.error)
  {
    var cells: seq<Cell> := [];
    for j := 0 to |days|
      invariant |cells| == j && CellsShow(cells, teamGames, days, defMap)
      invariant forall k :: 0 <= k < j ==> !DayBad(teamGames, days[k])
    {
      var onDay := GamesOn(teamGames, days[j]);
      var c := Blank;
      if onDay != [] {
        var b := MatchupBadge(defMap, onDay[0].matchup);
        if b.Err? {
          assert DayBad(teamGames, days[j]) && onDay[0].matchup == b.error;
          return Err(b.error);
        }
        c := Badged(b.value);
      }
      CellsShowStep(cells, c, teamGames, days, defMap);
      cells := cells + [c];
    }
    return Ok(cells);
  }

  /** The loop over `week_games['TEAM_ID'].unique()`: one row per team, in order of first appearance. */
  method TeamRows(week: seq<Game>, days: seq<Day>, defMap: map<string, DefInfo>)
    returns (r: Result<seq<GridRow>, string>)
    ensures r.Ok? ==> RowsOf(r.value, week, days, defMap)
    ensures r.Ok? <==> WeekFine(week, days)
    ensures r.Err? ==> FirstBadTeam(week, days, r.error)
  {
    var ids := Unique(TeamIds(week));
    var rows: seq<GridRow> := [];
    for k := 0 to |ids|
      invariant |rows| == k
      invariant forall i :: 0 <= i < k ==> rows[i].teamId == ids[i] && RowShows(rows[i], week, days, defMap)
      invariant forall i :: 0 <= i < k ==> CellsFine(TeamGames(week, ids[i]), days)
    {
      var tid := ids[k];
      var teamGames := TeamGames(week, tid);
      assert teamGames != [] by {
        var i :| 0 <= i < |week| && TeamIds(week)[i] == tid;
        assert week[i] in teamGames;
      }
      var cells := DayCells(teamGames, days, defMap);
      if cells.Err? {
        BadTeamBreaksWeek(week, days, k, cells.error);
        return Err(cells.error);
      }
      rows := rows + [GridRow(tid, teamGames[0].abbr, |teamGames|, cells.value)];
    }
    FineTeamsFineWeek(week, days);
    return Ok(rows);
  }

  /** A team whose row fails makes the week fail. */
  lemma BadTeamBreaksWeek(week: seq<Game>, days: seq<Day>, k: int, e: string)
    requires 0 <= k < |Unique(TeamIds(week))|
    requires FirstBadDay(TeamGames(week, Unique(TeamIds(week))[k]), days, e)
    ensures !WeekFine(week, days)
  {
    var tid := Unique(TeamIds(week))[k];
    var i :| 0 <= i < |week| && TeamIds(week)[i] == tid;
    var m :| 0 <= m < |days| && DayBad(TeamGames(week, tid), days[m]);
    assert !CellsFine(TeamGames(week, week[i].teamId), days);
  }

  /** When no team's row fails, the week does not fail. */
  lemma FineTeamsFineWeek(week: seq<Game>, days: seq<Day>)
    requires forall k :: 0 <= k < |Unique(TeamIds(week))| ==> CellsFine(TeamGames(week, Unique(TeamIds(week))[k]), days)
    ensures WeekFine(week, days)
  {
    var ids := Unique(TeamIds(week));
    forall i | 0 <= i < |week|
      ensures CellsFine(TeamGames(week, week[i].teamId), days)
    {
      assert TeamIds(week)[i] == week[i].teamId;
      var k :| 0 <= k < |ids| && ids[k] == week[i].teamId;
    }
  }

  /** Row i is the row of the i-th team id in order of first appearance. */
  ghost predicate RowsOf(rows: seq<GridRow>, week: seq<Game>, days: seq<Day>, defMap: map<string, DefInfo>) {
    var ids := Unique(TeamIds(week));
    |rows| == |ids|
    && forall i :: 0 <= i < |ids| ==> rows[i].teamId == ids[i] && RowShows(rows[i], week, days, defMap)
  }

  /** `sort_values('Games', ascending=False)`: most games first. */
  function ByGamesDescending(row: GridRow): real {
    -(row.games as real)
  }

  /**
   * The team grid of the window start .. end: its day columns, and its rows,
   * or the matchup text that made `split(' ')[2]` fail.
   */
  method ProcessTeamGrid(schedule: seq<Game>, start: Day, end: Day, defMap: map<string, DefInfo>)
    returns (days: seq<Day>, grid: Result<seq<GridRow>, string>)
    ensures |days| == if start <= end then end - start + 1 else 0
    ensures forall i :: 0 <= i < |days| ==> days[i] == AddDays(start, i)
    ensures grid.Ok? ==> GridOf(grid.value, WeekGames(schedule, start, end), days, defMap)
    ensures grid.Ok? <==> WeekFine(WeekGames(schedule, start, end), days)
    ensures grid.Err? ==> FirstBadTeam(WeekGames(schedule, start, end), days, grid.error)
  {
    days := EnumerateDays(start, end);
    var week := WeekGames(schedule, start, end);
    var rows := TeamRows(week, days, defMap);
    if rows.Err? {
      return days, Err(rows.error);
    }
    var sorted := SortBy(rows.value, ByGamesDescending);
    SortedGrid(rows.value, sorted, week, days, defMap);
    return days, Ok(sorted);
  }

  /**
   * What a finished grid holds: exactly the teams that play in the week, each
   * once, each row showing that team; game counts never increase down the grid.
   */
  ghost predicate GridOf(grid: seq<GridRow>, week: seq<Game>, days: seq<Day>, defMap: map<string, DefInfo>) {
    (forall tid :: Plays(week, tid) <==> exists i :: 0 <= i < |grid| && grid[i].teamId == tid)
    && (forall i, j :: 0 <= i < j < |grid| ==> grid[i].teamId != grid[j].teamId)
    && (forall i :: 0 <= i < |grid| ==> RowShows(grid[i], week, days, defMap))
    && (forall i, j :: 0 <= i < j < |grid| ==> grid[i].games >= grid[j].games)
  }

  /** Every game of the window shows up as a badge in its team's row, in the column of its date. */
  lemma GameHasBadge(schedule: seq<Game>, start: Day, end: Day, days: seq<Day>, grid: seq<GridRow>,
                     defMap: map<string, DefInfo>, g: Game)
    requires |days| == (if start <= end then end - start + 1 else 0)
    requires forall i :: 0 <= i < |days| ==> days[i] == AddDays(start, i)
    requires GridOf(grid, WeekGames(schedule, start, end), days, defMap)
    requires g in WeekGames(schedule, start, end)
    ensures start <= g.date <= end
    ensures exists i :: 0 <= i < |grid| && grid[i].teamId == g.teamId && grid[i].cells[g.date - start].Badged?
  {
    var week := WeekGames(schedule, start, end);
    var k :| 0 <= k < |week| && week[k] == g;
    assert Plays(week, g.teamId);
    var i :| 0 <= i < |grid| && grid[i].teamId == g.teamId;
    assert RowShows(grid[i], week, days, defMap);
    var teamGames := TeamGames(week, g.teamId);
    var m := g.date - start;
    assert days[m] == g.date;
    assert g in teamGames;
    var t :| 0 <= t < |teamGames| && teamGames[t] == g;
    assert g in GamesOn(teamGames, g.date);
    assert CellShows(grid[i].cells[m], teamGames, days[m], defMap);
  }

  /** Sorting the rows by game count keeps what each row shows and makes the counts non-increasing. */
  lemma SortedGrid(rows: seq<GridRow>, sorted: seq<GridRow>, week: seq<Game>, days: seq<Day>,
                   defMap: map<string, DefInfo>)
    requires RowsOf(rows, week, days, defMap)
    requires multiset(sorted) == multiset(rows) && SortedBy(sorted, ByGamesDescending)
    ensures GridOf(sorted, week, days, defMap)
  {
    SameRows(rows, sorted);
    RowIdsDistinct(rows, week, days, defMap);
    DistinctIdsKept(rows, sorted);
    forall tid
      ensures Plays(week, tid) <==> exists i :: 0 <= i < |sorted| && sorted[i].teamId == tid
    {
      PlayingTeamHasRow(rows, sorted, week, days, defMap, tid);
    }
    SortedRowsShow(rows, sorted, week, days, defMap);
    GamesNonIncreasing(sorted);
  }

  lemma RowIdsDistinct(rows: seq<GridRow>, week: seq<Game>, days: seq<Day>, defMap: map<string, DefInfo>)
    requires RowsOf(rows, week, days, defMap)
    ensures forall i, j :: 0 <= i < j < |rows| ==> rows[i].teamId != rows[j].teamId
  {
  }

  lemma SortedRowsShow(rows: seq<GridRow>, sorted: seq<GridRow>, week: seq<Game>, days: seq<Day>,
                       defMap: map<string, DefInfo>)
    requires RowsOf(rows, week, days, defMap)
    requires forall i :: 0 <= i < |sorted| ==> sorted[i] in rows
    ensures forall i :: 0 <= i < |sorted| ==> RowShows(sorted[i], week, days, defMap)
  {
    forall i | 0 <= i < |sorted|
      ensures RowShows(sorted[i], week, days, defMap)
    {
      var a :| 0 <= a < |rows| && rows[a] == sorted[i];
    }
  }

  lemma GamesNonIncreasing(sorted: seq<GridRow>)
    requires SortedBy(sorted, ByGamesDescending)
    ensures forall i, j :: 0 <= i < j < |sorted| ==> sorted[i].games >= sorted[j].games
  {
    forall i, j | 0 <= i < j < |sorted|
      ensures sorted[i].games >= sorted[j].games
    {
      assert ByGamesDescending(sorted[i]) <= ByGamesDescending(sorted[j]);
    }
  }

  /** Rows and their sorted order hold the same rows. */
  lemma SameRows(rows: seq<GridRow>, sorted: seq<GridRow>)
    requires multiset(sorted) == multiset(rows)
    ensures forall i :: 0 <= i < |sorted| ==> sorted[i] in rows
    ensures forall i :: 0 <= i < |rows| ==> rows[i] in sorted
  {
    forall i | 0 <= i < |sorted| ensures sorted[i] in rows {
      assert sorted[i] in multiset(sorted);
    }
    forall i | 0 <= i < |rows| ensures rows[i] in sorted {
      assert rows[i] in multiset(rows);
    }
  }

  /** Sorting rows whose team ids differ keeps the team ids different. */
  lemma DistinctIdsKept(rows: seq<GridRow>, sorted: seq<GridRow>)
    requires forall i, j :: 0 <= i < j < |rows| ==> rows[i].teamId != rows[j].teamId
    requires multiset(sorted) == multiset(rows)
    ensures forall i, j :: 0 <= i < j < |sorted| ==> sorted[i].teamId != sorted[j].teamId
  {
    assert Distinct(rows);
    DistinctPermutation(rows, sorted);
    SameRows(rows, sorted);
    forall i, j | 0 <= i < j < |sorted|
      ensures sorted[i].teamId != sorted[j].teamId
    {
      var a :| 0 <= a < |rows| && rows[a] == sorted[i];
      var b :| 0 <= b < |rows| && rows[b] == sorted[j];
      assert a != b;
    }
  }

  /** A team has a row exactly when it plays in the week. */
  lemma PlayingTeamHasRow(rows: seq<GridRow>, sorted: seq<GridRow>, week: seq<Game>, days: seq<Day>,
                          defMap: map<string, DefInfo>, tid: int)
    requires RowsOf(rows, week, days, defMap)
    requires (forall i :: 0 <= i < |sorted| ==> sorted[i] in rows)
      && (forall i :: 0 <= i < |rows| ==> rows[i] in sorted)
    ensures Plays(week, tid) <==> exists i :: 0 <= i < |sorted| && sorted[i].teamId == tid
  {
    var ids := Unique(TeamIds(week));
    if Plays(week, tid) {
      var g :| g in week && g.teamId == tid;
      var k :| 0 <= k < |week| && week[k] == g;
      assert TeamIds(week)[k] == tid;
      var a :| 0 <= a < |ids| && ids[a] == tid;
      assert rows[a] in sorted;
    }
    if exists i :: 0 <= i < |sorted| && sorted[i].teamId == tid {
      var i :| 0 <= i < |sorted| && sorted[i].teamId == tid;
      var a :| 0 <= a < |rows| && rows[a] == sorted[i];
      assert RowShows(rows[a], week, days, defMap);
      assert TeamGames(week, tid)[0] in week;
    }
  }
}
