/**
 * The player table of one reporting window (`process_week_grid`): season
 * stats of players who have played, left-joined with their last-7-day and
 * last-14-day stats and with their team's schedule row, whose gaps are then
 * filled (0 games, '-' for a day). Frames are sequences of records; a column
 * a record lacks reads as a missing value.
 */
module PlayerTable {
  import opened Wrappers
  import opened Frames
  import opened TeamGrid

  /** A frame cell: a number, a missing value (NaN), text, or a team grid cell. */
  datatype Value = Int(i: int) | Float(x: real) | NaN | Text(s: string) | GridCell(cell: Cell)

  type Record = map<string, Value>

  /** A frame: its column names and its rows. */
  datatype Frame = Frame(columns: set<string>, rows: seq<Record>)

  /** `row[k]`, a missing column reading as NaN. */
  function Lookup(r: Record, k: string): (v: Value)
    ensures k !in r ==> v == NaN
  {
    if k in r then r[k] else NaN
  }

  // ----- active players -----

  /** `row['GP'] > 0`: false for a missing value and for anything that is not a number. */
  predicate Active(r: Record) {
    match Lookup(r, "GP")
    case Int(n) => n > 0
    case Float(x) => x > 0.0
    case _ => false
  }

  /** `base_df[base_df['GP'] > 0]`. */
  function ActivePlayers(f: Frame): (r: Frame)
    ensures r.columns == f.columns
    ensures forall i :: 0 <= i < |r.rows| ==> Active(r.rows[i]) && r.rows[i] in f.rows
    ensures forall i :: 0 <= i < |f.rows| && Active(f.rows[i]) ==> f.rows[i] in r.rows
  {
    FilterMembers(f.rows, Active);
    Frame(f.columns, Filter(f.rows, Active))
  }

  // ----- add_suffix -----

  /** `k.endswith(s)`. */
  predicate EndsWith(k: string, s: string) {
    |k| >= |s| && k[|k| - |s|..] == s
  }

  /** `df.add_suffix(s)` on one row: every column renamed to its name followed by s. */
  function SuffixRow(r: Record, suffix: string): (t: Record)
    ensures forall k :: k in r <==> k + suffix in t
    ensures forall k :: k in r ==> t[k + suffix] == r[k]
    ensures forall k :: k in t ==> EndsWith(k, suffix)
  {
    SuffixInjective(suffix);
    map k | k in r :: k + suffix := r[k]
  }

  lemma SuffixInjective(suffix: string)
    ensures forall a: string, b: string :: a + suffix == b + suffix ==> a == b
  {
    forall a: string, b: string | a + suffix == b + suffix
      ensures a == b
    {
      assert a == (a + suffix)[..|a|];
      assert b == (b + suffix)[..|b|];
    }
  }

  /** `df.add_suffix(s)`. */
  function AddSuffix(f: Frame, suffix: string): (r: Frame)
    ensures |r.rows| == |f.rows|
    ensures forall i :: 0 <= i < |f.rows| ==> r.rows[i] == SuffixRow(f.rows[i], suffix)
    ensures forall k :: k in f.columns <==> k + suffix in r.columns
    ensures forall k :: k in r.columns ==> EndsWith(k, suffix)
  {
    SuffixInjective(suffix);
    Frame(set k | k in f.columns :: k + suffix,
          seq(|f.rows|, i requires 0 <= i < |f.rows| => SuffixRow(f.rows[i], suffix)))
  }

  // ----- left join -----

  /** The first right row whose key matches; a missing key matches nothing. */
  function FirstMatch(rows: seq<Record>, key: string, v: Value): (r: Option<Record>)
    ensures r.Some? ==> r.value in rows && v != NaN && Lookup(r.value, key) == v
    ensures r.None? ==> v == NaN || forall i :: 0 <= i < |rows| ==> Lookup(rows[i], key) != v
  {
    if v == NaN || rows == [] then None
    else if Lookup(rows[0], key) == v then Some(rows[0])
    else FirstMatch(rows[1..], key, v)
  }

  /** Every column of the right frame, missing. */
  function Missing(columns: set<string>): (r: Record)
    ensures r.Keys == columns && forall k :: k in r ==> r[k] == NaN
  {
    map k | k in columns :: NaN
  }

  /**
   * One row of `pd.merge(left, right, left_on=.., right_on=.., how='left')`:
   * the left row with the matching right row's columns, or with them missing.
   * The left row's own values win over a right column of the same name.
   */
  function JoinRow(l: Record, right: Frame, leftOn: string, rightOn: string): (r: Record)
    ensures forall k :: k in l ==> k in r && r[k] == l[k]
  {
    match FirstMatch(right.rows, rightOn, Lookup(l, leftOn))
    case Some(m) => m + l
    case None => Missing(right.columns) + l
  }

  /** `pd.merge(left, right, left_on=.., right_on=.., how='left')`: one row per left row, in order. */
  function LeftJoin(left: Frame, right: Frame, leftOn: string, rightOn: string): (r: Frame)
    ensures |r.rows| == |left.rows|
    ensures forall i :: 0 <= i < |left.rows| ==> r.rows[i] == JoinRow(left.rows[i], right, leftOn, rightOn)
    ensures r.columns == left.columns + right.columns
  {
    Frame(left.columns + right.columns,
          seq(|left.rows|, i requires 0 <= i < |left.rows| => JoinRow(left.rows[i], right, leftOn, rightOn)))
  }

  /** A left join never loses a left row, nor changes a left value. */
  lemma LeftJoinKeepsLeft(left: Frame, right: Frame, leftOn: string, rightOn: string, i: int, k: string)
    requires 0 <= i < |left.rows| && k in left.rows[i]
    ensures k in LeftJoin(left, right, leftOn, rightOn).rows[i]
    ensures LeftJoin(left, right, leftOn, rightOn).rows[i][k] == left.rows[i][k]
  {
  }

  /** A left row without a match gets every right-only column as a missing value. */
  lemma UnmatchedRowGetsMissing(l: Record, right: Frame, leftOn: string, rightOn: string, k: string)
    requires forall i :: 0 <= i < |right.rows| ==> Lookup(right.rows[i], rightOn) != Lookup(l, leftOn)
    requires k in right.columns && k !in l
    ensures Lookup(JoinRow(l, right, leftOn, rightOn), k) == NaN
  {
  }

  /** A left row with a match gets the first matching right row's value of every right-only column. */
  lemma MatchedRowGetsRight(l: Record, right: Frame, leftOn: string, rightOn: string, j: int, k: string)
    requires Lookup(l, leftOn) != NaN
    requires 0 <= j < |right.rows| && Lookup(right.rows[j], rightOn) == Lookup(l, leftOn)
    requires forall i :: 0 <= i < j ==> Lookup(right.rows[i], rightOn) != Lookup(l, leftOn)
    requires k in right.rows[j] && k !in l
    ensures Lookup(JoinRow(l, right, leftOn, rightOn), k) == right.rows[j][k]
  {
    FirstMatchIsFirst(right.rows, rightOn, Lookup(l, leftOn), j);
  }

  lemma {:induction false} FirstMatchIsFirst(rows: seq<Record>, key: string, v: Value, j: int)
    requires v != NaN && 0 <= j < |rows| && Lookup(rows[j], key) == v
    requires forall i :: 0 <= i < j ==> Lookup(rows[i], key) != v
    ensures FirstMatch(rows, key, v) == Some(rows[j])
  {
    if j > 0 {
      FirstMatchIsFirst(rows[1..], key, v, j - 1);
    }
  }

  /** Joining a suffixed frame adds only suffixed columns. */
  lemma SuffixedJoinKeys(l: Record, f: Frame, suffix: string, leftOn: string, rightOn: string)
    ensures forall k :: k in JoinRow(l, AddSuffix(f, suffix), leftOn, rightOn) ==> k in l || EndsWith(k, suffix)
  {
    var right := AddSuffix(f, suffix);
    match FirstMatch(right.rows, rightOn, Lookup(l, leftOn))
    case Some(m) =>
      var i :| 0 <= i < |right.rows| && right.rows[i] == m;
      assert m == SuffixRow(f.rows[i], suffix);
    case None =>
  }

  // ----- the season, L7 and L14 stats joined -----

  /**
   * Season stats of active players, with the L7 and L14 stats (their columns
   * suffixed `_L7` and `_L14`) joined on the player id.
   */
  function PlayerStats(season: Frame, l7: Frame, l14: Frame): (r: Frame)
    ensures |r.rows| == |ActivePlayers(season).rows|
    ensures forall i, k :: 0 <= i < |r.rows| && k in ActivePlayers(season).rows[i] ==>
      k in r.rows[i] && r.rows[i][k] == ActivePlayers(season).rows[i][k]
  {
    var base := ActivePlayers(season);
    var withL7 := LeftJoin(base, AddSuffix(l7, "_L7"), "PLAYER_ID", "PLAYER_ID_L7");
    LeftJoin(withL7, AddSuffix(l14, "_L14"), "PLAYER_ID", "PLAYER_ID_L14")
  }

  /** The joins add only columns ending in `_L7` or `_L14` to a player's season row. */
  lemma PlayerStatsKeys(season: Frame, l7: Frame, l14: Frame, i: int, k: string)
    requires 0 <= i < |PlayerStats(season, l7, l14).rows| && k in PlayerStats(season, l7, l14).rows[i]
    ensures k in ActivePlayers(season).rows[i] || EndsWith(k, "_L7") || EndsWith(k, "_L14")
  {
    var base := ActivePlayers(season);
    var withL7 := LeftJoin(base, AddSuffix(l7, "_L7"), "PLAYER_ID", "PLAYER_ID_L7");
    SuffixedJoinKeys(base.rows[i], l7, "_L7", "PLAYER_ID", "PLAYER_ID_L7");
    SuffixedJoinKeys(withL7.rows[i], l14, "_L14", "PLAYER_ID", "PLAYER_ID_L14");
  }

  // ----- the team schedule joined and filled -----

  /** The schedule columns: Games, then one column per day. */
  function ScheduleColumns(dayCols: seq<string>): seq<string> {
    ["Games"] + dayCols
  }

  /** One team's schedule row: its abbreviation, its game count and its day cells. */
  function ScheduleRow(row: GridRow, dayCols: seq<string>): (r: Record)
    requires |dayCols| == |row.cells|
    ensures r.Keys == {"TEAM_ABBREVIATION", "Games"} + set k | 0 <= k < |dayCols| :: dayCols[k]
  {
    DayCellsRecord(row.cells, dayCols)["TEAM_ABBREVIATION" := Text(row.team)]["Games" := Int(row.games)]
  }

  /** The day cells keyed by their column labels (a later label wins over an equal earlier one). */
  function DayCellsRecord(cells: seq<Cell>, dayCols: seq<string>): (r: Record)
    requires |dayCols| == |cells|
    ensures r.Keys == set k | 0 <= k < |dayCols| :: dayCols[k]
  {
    if cells == [] then map[]
    else
      var n := |cells| - 1;
      assert (set k | 0 <= k < |dayCols| :: dayCols[k]) == (set k | 0 <= k < n :: dayCols[..n][k]) + {dayCols[n]};
      DayCellsRecord(cells[..n], dayCols[..n])[dayCols[n] := GridCell(cells[n])]
  }

  /** `team_df[['Team'] + schedule_cols].rename(columns={'Team': 'TEAM_ABBREVIATION'})`. */
  function ScheduleFrame(grid: seq<GridRow>, dayCols: seq<string>): (f: Frame)
    requires forall i :: 0 <= i < |grid| ==> |grid[i].cells| == |dayCols|
    ensures |f.rows| == |grid|
  {
    Frame({"TEAM_ABBREVIATION", "Games"} + (set k | 0 <= k < |dayCols| :: dayCols[k]),
          seq(|grid|, i requires 0 <= i < |grid| => ScheduleRow(grid[i], dayCols)))
  }

  /** The cell under a day label is the cell of the last day with that label. */
  lemma {:induction false} DayCellsRecordAt(cells: seq<Cell>, dayCols: seq<string>, m: int)
    requires |dayCols| == |cells| && 0 <= m < |cells|
    requires forall j :: m < j < |dayCols| ==> dayCols[j] != dayCols[m]
    ensures dayCols[m] in DayCellsRecord(cells, dayCols)
    ensures DayCellsRecord(cells, dayCols)[dayCols[m]] == GridCell(cells[m])
  {
    var n := |cells| - 1;
    if m < n {
      DayCellsRecordAt(cells[..n], dayCols[..n], m);
    }
  }

  /** The schedule join of a player finds the first grid row of the player's team. */
  lemma ScheduleMatch(l: Record, grid: seq<GridRow>, dayCols: seq<string>, j: int)
    requires forall i :: 0 <= i < |grid| ==> |grid[i].cells| == |dayCols|
    requires 0 <= j < |grid| && Lookup(l, "TEAM_ABBREVIATION") == Text(grid[j].team)
    requires forall i :: 0 <= i < j ==> grid[i].team != grid[j].team
    ensures JoinRow(l, ScheduleFrame(grid, dayCols), "TEAM_ABBREVIATION", "TEAM_ABBREVIATION")
         == ScheduleRow(grid[j], dayCols) + l
  {
    var schedule := ScheduleFrame(grid, dayCols);
    forall i | 0 <= i < j
      ensures Lookup(schedule.rows[i], "TEAM_ABBREVIATION") != Lookup(l, "TEAM_ABBREVIATION")
    {
      assert Lookup(schedule.rows[i], "TEAM_ABBREVIATION") == Text(grid[i].team);
    }
    assert Lookup(schedule.rows[j], "TEAM_ABBREVIATION") == Text(grid[j].team);
    FirstMatchIsFirst(schedule.rows, "TEAM_ABBREVIATION", Lookup(l, "TEAM_ABBREVIATION"), j);
  }

  /** A player whose team has a grid row shows that row's game count. */
  lemma MatchedPlayerGames(l: Record, grid: seq<GridRow>, dayCols: seq<string>, j: int)
    requires forall i :: 0 <= i < |grid| ==> |grid[i].cells| == |dayCols|
    requires 0 <= j < |grid| && Lookup(l, "TEAM_ABBREVIATION") == Text(grid[j].team)
    requires forall i :: 0 <= i < j ==> grid[i].team != grid[j].team
    requires "Games" !in l
    ensures FillCell("Games", Lookup(JoinRow(l, ScheduleFrame(grid, dayCols), "TEAM_ABBREVIATION", "TEAM_ABBREVIATION"), "Games"))
         == Int(grid[j].games)
  {
    ScheduleMatch(l, grid, dayCols, j);
  }

  /** A player whose team has a grid row shows that row's cell for each day. */
  lemma MatchedPlayerDay(l: Record, grid: seq<GridRow>, dayCols: seq<string>, j: int, m: int)
    requires forall i :: 0 <= i < |grid| ==> |grid[i].cells| == |dayCols|
    requires 0 <= j < |grid| && Lookup(l, "TEAM_ABBREVIATION") == Text(grid[j].team)
    requires forall i :: 0 <= i < j ==> grid[i].team != grid[j].team
    requires 0 <= m < |dayCols| && dayCols[m] !in l
    requires dayCols[m] != "Games" && dayCols[m] != "TEAM_ABBREVIATION"
    requires forall k :: m < k < |dayCols| ==> dayCols[k] != dayCols[m]
    ensures FillCell(dayCols[m], Lookup(JoinRow(l, ScheduleFrame(grid, dayCols), "TEAM_ABBREVIATION", "TEAM_ABBREVIATION"), dayCols[m]))
         == GridCell(grid[j].cells[m])
  {
    ScheduleMatch(l, grid, dayCols, j);
    DayCellsRecordAt(grid[j].cells, dayCols, m);
  }

  /** `astype(int)` on a number: truncation toward zero. */
  function Truncate(x: real): int {
    if x >= 0.0 then x.Floor else -((-x).Floor)
  }

  /** The Games column after `fillna(0).astype(int)`. */
  function FillGames(v: Value): (r: Value)
    ensures v == NaN ==> r == Int(0)
    ensures v.Int? ==> r == v
    ensures r != NaN
  {
    match v
    case NaN => Int(0)
    case Float(x) => Int(Truncate(x))
    case _ => v
  }

  /** A day column after `fillna('-')`. */
  function FillDash(v: Value): (r: Value)
    ensures v == NaN ==> r == Text("-")
    ensures v != NaN ==> r == v
  {
    if v == NaN then Text("-") else v
  }

  /** How the fill loop treats column c. */
  function FillCell(c: string, v: Value): (r: Value)
    ensures r != NaN
  {
    if c == "Games" then FillGames(v) else FillDash(v)
  }

  /** Filling a filled value changes nothing, so a column listed twice is filled once over. */
  lemma FillIdempotent(c: string, v: Value)
    ensures FillCell(c, FillCell(c, v)) == FillCell(c, v)
  {
  }

  /** One pass of the fill loop: column c of every row. */
  function FillColumn(rows: seq<Record>, c: string): (r: seq<Record>)
    ensures |r| == |rows|
    ensures forall i :: 0 <= i < |rows| ==> r[i].Keys == rows[i].Keys
    ensures forall i, k :: 0 <= i < |rows| && k in rows[i] ==>
      r[i][k] == if k == c then FillCell(c, rows[i][k]) else rows[i][k]
  {
    seq(|rows|, i requires 0 <= i < |rows| =>
      if c in rows[i] then rows[i][c := FillCell(c, rows[i][c])] else rows[i])
  }

  /** filled is rows with the columns in cols filled and every other column untouched. */
  predicate FilledBy(filled: seq<Record>, rows: seq<Record>, cols: seq<string>) {
    |filled| == |rows|
    && (forall i :: 0 <= i < |rows| ==> filled[i].Keys == rows[i].Keys)
    && forall i, k :: 0 <= i < |rows| && k in rows[i] ==>
         filled[i][k] == if k in cols then FillCell(k, rows[i][k]) else rows[i][k]
  }

  /** One more pass of the fill loop fills one more column. */
  lemma FillColumnStep(filled: seq<Record>, rows: seq<Record>, cols: seq<string>, c: string)
    requires FilledBy(filled, rows, cols)
    ensures FilledBy(FillColumn(filled, c), rows, cols + [c])
  {
    var next := FillColumn(filled, c);
    forall i, k | 0 <= i < |rows| && k in rows[i]
      ensures next[i][k] == if k in cols + [c] then FillCell(k, rows[i][k]) else rows[i][k]
    {
      assert (k in cols + [c]) == (k in cols || k == c);
      assert next[i][k] == if k == c then FillCell(c, filled[i][k]) else filled[i][k];
      if k == c {
        FillIdempotent(k, rows[i][k]);
      }
    }
  }

  /**
   * The fill loop over `schedule_cols`: every schedule column of every row
   * loses its missing values; every other column is left as it was.
   */
  method FillSchedule(rows: seq<Record>, scheduleCols: seq<string>) returns (filled: seq<Record>)
    ensures |filled| == |rows|
    ensures forall i :: 0 <= i < |rows| ==> filled[i].Keys == rows[i].Keys
    ensures forall i, k :: 0 <= i < |rows| && k in rows[i] ==>
      filled[i][k] == if k in scheduleCols then FillCell(k, rows[i][k]) else rows[i][k]
  {
    filled := rows;
    for n := 0 to |scheduleCols|
      invariant FilledBy(filled, rows, scheduleCols[..n])
    {
      FillColumnStep(filled, rows, scheduleCols[..n], scheduleCols[n]);
      assert scheduleCols[..n + 1] == scheduleCols[..n] + [scheduleCols[n]];
      filled := FillColumn(filled, scheduleCols[n]);
    }
    assert scheduleCols[..|scheduleCols|] == scheduleCols;
  }

  /**
   * The player frame of a window: joined stats, then, when the grid has rows,
   * the team schedule joined on the abbreviation and filled.
   */
  method PlayerFrame(season: Frame, l7: Frame, l14: Frame, grid: seq<GridRow>, dayCols: seq<string>)
    returns (players: seq<Record>)
    requires forall i :: 0 <= i < |grid| ==> |grid[i].cells| == |dayCols|
    ensures |players| == |ActivePlayers(season).rows|
    ensures grid != [] ==> forall i :: 0 <= i < |players| ==>
      forall c :: c in ScheduleColumns(dayCols) ==> c in players[i] && players[i][c] != NaN
    ensures grid != [] ==> forall i, c :: 0 <= i < |players| && c in ScheduleColumns(dayCols) ==>
      players[i][c] == FillCell(c, Lookup(JoinRow(PlayerStats(season, l7, l14).rows[i], ScheduleFrame(grid, dayCols),
                                                  "TEAM_ABBREVIATION", "TEAM_ABBREVIATION"), c))
    ensures grid != [] ==> forall i :: 0 <= i < |players| ==>
      players[i].Keys == PlayerStats(season, l7, l14).rows[i].Keys + ScheduleFrame(grid, dayCols).columns
    ensures grid == [] ==> forall i :: 0 <= i < |players| ==> players[i] == PlayerStats(season, l7, l14).rows[i]
    ensures forall i, k :: 0 <= i < |players| && k in ActivePlayers(season).rows[i] && k !in ScheduleColumns(dayCols) ==>
      k in players[i] && players[i][k] == ActivePlayers(season).rows[i][k]
    ensures forall i, k :: 0 <= i < |players| && k in PlayerStats(season, l7, l14).rows[i] && k !in ScheduleColumns(dayCols) ==>
      k in players[i] && players[i][k] == PlayerStats(season, l7, l14).rows[i][k]
  {
    var stats := PlayerStats(season, l7, l14);
    players := stats.rows;
    if grid != [] {
      var schedule := ScheduleFrame(grid, dayCols);
      var merged := LeftJoin(stats, schedule, "TEAM_ABBREVIATION", "TEAM_ABBREVIATION");
      players := FillSchedule(merged.rows, ScheduleColumns(dayCols));
      forall i, c | 0 <= i < |players| && c in ScheduleColumns(dayCols)
        ensures c in players[i] && players[i][c] != NaN
      {
        ScheduleColumnsJoined(stats.rows[i], schedule, dayCols, c);
      }
    }
  }

  /** After the schedule join, every row has every schedule column. */
  lemma ScheduleColumnsJoined(l: Record, schedule: Frame, dayCols: seq<string>, c: string)
    requires schedule.columns == {"TEAM_ABBREVIATION", "Games"} + (set k | 0 <= k < |dayCols| :: dayCols[k])
    requires forall i :: 0 <= i < |schedule.rows| ==> schedule.rows[i].Keys == schedule.columns
    requires c in ScheduleColumns(dayCols)
    ensures c in JoinRow(l, schedule, "TEAM_ABBREVIATION", "TEAM_ABBREVIATION")
  {
    if c != "Games" {
      var k :| 0 <= k < |dayCols| && dayCols[k] == c;
    }
  }

  // ----- what the player table shows -----

  /** `row.get('Games', 0)`. */
  function GamesShown(r: Record): Value {
    if "Games" in r then r["Games"] else Int(0)
  }

  /** `row.get(d, '')`. */
  function DayShown(r: Record, d: string): Value {
    if d in r then r[d] else Text("")
  }

  /** A player whose team has no row in the grid shows 0 games and '-' for every day. */
  lemma UnscheduledPlayerShowsNoGames(l: Record, grid: seq<GridRow>, dayCols: seq<string>, d: string)
    requires forall i :: 0 <= i < |grid| ==> |grid[i].cells| == |dayCols|
    requires forall i :: 0 <= i < |grid| ==> Text(grid[i].team) != Lookup(l, "TEAM_ABBREVIATION")
    requires "Games" !in l && d in dayCols && d !in l && d != "Games"
    ensures FillCell("Games", Lookup(JoinRow(l, ScheduleFrame(grid, dayCols), "TEAM_ABBREVIATION", "TEAM_ABBREVIATION"), "Games"))
         == Int(0)
    ensures FillCell(d, Lookup(JoinRow(l, ScheduleFrame(grid, dayCols), "TEAM_ABBREVIATION", "TEAM_ABBREVIATION"), d))
         == Text("-")
  {
    var schedule := ScheduleFrame(grid, dayCols);
    forall i | 0 <= i < |schedule.rows|
      ensures Lookup(schedule.rows[i], "TEAM_ABBREVIATION") != Lookup(l, "TEAM_ABBREVIATION")
    {
      assert Lookup(schedule.rows[i], "TEAM_ABBREVIATION") == Text(grid[i].team);
    }
    var k :| 0 <= k < |dayCols| && dayCols[k] == d;
    assert d in schedule.columns;
  }

  /**
   * With an empty grid no schedule is joined: a player shows 0 games and an
   * empty cell for every day label that is not one of its stats columns.
   */
  lemma NoGridShowsNoGames(season: Frame, l7: Frame, l14: Frame, i: int, d: string)
    requires 0 <= i < |PlayerStats(season, l7, l14).rows|
    requires "Games" !in ActivePlayers(season).rows[i]
    requires d !in ActivePlayers(season).rows[i] && !EndsWith(d, "_L7") && !EndsWith(d, "_L14")
    ensures GamesShown(PlayerStats(season, l7, l14).rows[i]) == Int(0)
    ensures DayShown(PlayerStats(season, l7, l14).rows[i], d) == Text("")
  {
    var r := PlayerStats(season, l7, l14).rows[i];
    if "Games" in r {
      PlayerStatsKeys(season, l7, l14, i, "Games");
    }
    if d in r {
      PlayerStatsKeys(season, l7, l14, i, d);
    }
  }
}
