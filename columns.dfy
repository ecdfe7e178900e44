/**
 * `fetch_stats`' column projection: of the columns the report expects, keep
 * those the fetched frame has, in the expected order.
 */
module Columns {
  import opened Frames

  /** The player columns the report expects from a stats fetch. */
  const PlayerColumns: seq<string> := [
    "PLAYER_ID", "PLAYER_NAME", "TEAM_ID", "TEAM_ABBREVIATION", "GP",
    "MIN", "PTS", "REB", "AST", "STL", "BLK", "FG_PCT", "FT_PCT", "FG3M"
  ]

  /** `[c for c in cols if c in df.columns]`. */
  function ProjectColumns(expected: seq<string>, present: set<string>): (r: seq<string>)
    ensures forall i :: 0 <= i < |r| ==> r[i] in expected && r[i] in present
    ensures forall i :: 0 <= i < |expected| && expected[i] in present ==> expected[i] in r
  {
    FilterMembers(expected, (c: string) => c in present);
    Filter(expected, (c: string) => c in present)
  }

  /**
   * The projection keeps the expected order and, when the expected columns
   * are distinct, lists each kept column once.
   */
  lemma ProjectionOrderedWithoutRepeats(expected: seq<string>, present: set<string>)
    requires Distinct(expected)
    ensures Distinct(ProjectColumns(expected, present))
    ensures var r := ProjectColumns(expected, present);
      forall i, j :: 0 <= i < j < |r| ==> FirstIndex(expected, r[i]) < FirstIndex(expected, r[j])
  {
    FilterDistinct(expected, (c: string) => c in present);
    var r := ProjectColumns(expected, present);
    forall i, j | 0 <= i < j < |r|
      ensures FirstIndex(expected, r[i]) < FirstIndex(expected, r[j])
    {
      FilterInOrder(expected, (c: string) => c in present, i, j);
    }
  }

  /** A frame that has every expected column is projected onto exactly the expected list. */
  lemma AllPresentKeepsAll(expected: seq<string>, present: set<string>)
    requires forall i :: 0 <= i < |expected| ==> expected[i] in present
    ensures ProjectColumns(expected, present) == expected
  {
    FilterKeepsAll(expected, (c: string) => c in present);
  }

  /** The fourteen expected player columns are distinct, so no projection repeats a column. */
  lemma PlayerColumnsDistinct()
    ensures |PlayerColumns| == 14 && Distinct(PlayerColumns)
  {
  }
}
