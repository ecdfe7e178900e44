/**
 * `get_team_defensive_ratings`: league team stats become a map from team
 * abbreviation to a defensive rank (1 = best defence) and rating. The stats
 * frame and the id-to-abbreviation table are inputs; fetching them is not
 * part of this model.
 */
module DefensiveRatings {
  import opened Sorting

  /** One row of the team stats frame. `defRating` means nothing when the frame has no DEF_RATING column. */
  datatype TeamStats = TeamStats(teamId: int, defRating: real, winPct: real)

  /** The frame: its rows, and whether it carries a DEF_RATING column. */
  datatype TeamFrame = TeamFrame(hasDefRating: bool, rows: seq<TeamStats>)

  /** One entry of the result map. */
  datatype DefInfo = DefInfo(rank: int, defRtg: real)

  /** A frame row together with the DEF_RANK the sort gave it. */
  datatype RankedTeam = RankedTeam(stats: TeamStats, rank: int)

  /**
   * The sort key: DEF_RATING ascending when the column exists (lowest rating
   * is the best defence), otherwise W_PCT descending.
   */
  function SortKey(hasDefRating: bool): (key: TeamStats -> real)
    ensures hasDefRating ==> forall t :: key(t) == t.defRating
    ensures !hasDefRating ==> forall t :: key(t) == -t.winPct
  {
    if hasDefRating then (t: TeamStats) => t.defRating else (t: TeamStats) => -t.winPct
  }

  /** DEF_RANK = 1 .. len(rows), in the order of the rows. */
  function Number(rows: seq<TeamStats>): (ranked: seq<RankedTeam>)
    ensures |ranked| == |rows|
    ensures forall i :: 0 <= i < |ranked| ==> ranked[i] == RankedTeam(rows[i], i + 1)
  {
    seq(|rows|, i requires 0 <= i < |rows| => RankedTeam(rows[i], i + 1))
  }

  /** Rows sorted by the sort key are ordered by rating, or by winning percentage. */
  lemma SortedByKeyOrder(rows: seq<TeamStats>, hasDefRating: bool)
    requires SortedBy(rows, SortKey(hasDefRating))
    ensures hasDefRating ==> forall i, j :: 0 <= i < j < |rows| ==> rows[i].defRating <= rows[j].defRating
    ensures !hasDefRating ==> forall i, j :: 0 <= i < j < |rows| ==> rows[i].winPct >= rows[j].winPct
  {
    var key := SortKey(hasDefRating);
    forall i, j | 0 <= i < j < |rows|
      ensures key(rows[i]) <= key(rows[j])
    {
    }
  }

  /** The frame sorted, then DEF_RANK = 1 .. len(frame) in the sorted order. */
  function RankTeams(frame: TeamFrame): (ranked: seq<RankedTeam>)
    ensures |ranked| == |frame.rows|
    ensures forall i :: 0 <= i < |ranked| ==> ranked[i].rank == i + 1
    ensures multiset(StatsOf(ranked)) == multiset(frame.rows)
    ensures frame.hasDefRating ==>
      forall i, j :: 0 <= i < j < |ranked| ==> ranked[i].stats.defRating <= ranked[j].stats.defRating
    ensures !frame.hasDefRating ==>
      forall i, j :: 0 <= i < j < |ranked| ==> ranked[i].stats.winPct >= ranked[j].stats.winPct
  {
    var sorted := SortBy(frame.rows, SortKey(frame.hasDefRating));
    SortedByKeyOrder(sorted, frame.hasDefRating);
    var ranked := Number(sorted);
    assert StatsOf(ranked) == sorted;
    ranked
  }

  function StatsOf(ranked: seq<RankedTeam>): (s: seq<TeamStats>)
    ensures |s| == |ranked| && forall i :: 0 <= i < |s| ==> s[i] == ranked[i].stats
  {
    seq(|ranked|, i requires 0 <= i < |ranked| => ranked[i].stats)
  }

  /** `id_to_abbr.get(tid, 'UNK')`. */
  function AbbrOf(idToAbbr: map<int, string>, teamId: int): string {
    if teamId in idToAbbr then idToAbbr[teamId] else "UNK"
  }

  /** The entry a ranked row writes: its rank, and `row.get('DEF_RATING', 0.0)`. */
  function InfoOf(t: RankedTeam, hasDefRating: bool): DefInfo {
    DefInfo(t.rank, if hasDefRating then t.stats.defRating else 0.0)
  }

  /** Row i is the last of the first n rows that writes key a. */
  predicate LastWriter(ranked: seq<RankedTeam>, idToAbbr: map<int, string>, a: string, i: int, n: int)
    requires 0 <= n <= |ranked|
  {
    0 <= i < n && AbbrOf(idToAbbr, ranked[i].stats.teamId) == a
    && forall j :: i < j < n ==> AbbrOf(idToAbbr, ranked[j].stats.teamId) != a
  }

  /** The abbreviations the first n ranked rows write. */
  function WrittenKeys(ranked: seq<RankedTeam>, idToAbbr: map<int, string>, n: int): set<string>
    requires 0 <= n <= |ranked|
  {
    set i | 0 <= i < n :: AbbrOf(idToAbbr, ranked[i].stats.teamId)
  }

  /**
   * What the writing loop leaves after the first n ranked rows: one entry per
   * abbreviation written, holding what its last writer wrote.
   */
  ghost predicate WrittenBy(defMap: map<string, DefInfo>, ranked: seq<RankedTeam>, idToAbbr: map<int, string>,
                            hasDefRating: bool, n: int)
    requires 0 <= n <= |ranked|
  {
    defMap.Keys == WrittenKeys(ranked, idToAbbr, n)
    && forall a :: a in defMap ==> LastWritten(defMap[a], ranked, idToAbbr, hasDefRating, a, n)
  }

  /** v is what the last of the first n rows writing key a wrote. */
  ghost predicate LastWritten(v: DefInfo, ranked: seq<RankedTeam>, idToAbbr: map<int, string>,
                              hasDefRating: bool, a: string, n: int)
    requires 0 <= n <= |ranked|
  {
    exists i :: LastWriter(ranked, idToAbbr, a, i, n) && v == InfoOf(ranked[i], hasDefRating)
  }

  /** Row n adds its abbreviation to the keys written by the rows before it. */
  lemma WrittenKeysStep(ranked: seq<RankedTeam>, idToAbbr: map<int, string>, n: int)
    requires 0 <= n < |ranked|
    ensures WrittenKeys(ranked, idToAbbr, n + 1)
         == WrittenKeys(ranked, idToAbbr, n) + {AbbrOf(idToAbbr, ranked[n].stats.teamId)}
  {
  }

  /** A row that last wrote a among the first n rows still does when row n writes another key. */
  lemma LastWriterStays(ranked: seq<RankedTeam>, idToAbbr: map<int, string>, a: string, i: int, n: int)
    requires 0 <= n < |ranked| && LastWriter(ranked, idToAbbr, a, i, n)
    requires AbbrOf(idToAbbr, ranked[n].stats.teamId) != a
    ensures LastWriter(ranked, idToAbbr, a, i, n + 1)
  {
    forall j | i < j < n + 1
      ensures AbbrOf(idToAbbr, ranked[j].stats.teamId) != a
    {
    }
  }

  /** After row n is written, every key of the map holds what its last writer wrote. */
  lemma WriteStepEntry(defMap: map<string, DefInfo>, ranked: seq<RankedTeam>, idToAbbr: map<int, string>,
                       hasDefRating: bool, n: int, a: string)
    requires 0 <= n < |ranked| && WrittenBy(defMap, ranked, idToAbbr, hasDefRating, n)
    requires a in defMap || a == AbbrOf(idToAbbr, ranked[n].stats.teamId)
    ensures var next := defMap[AbbrOf(idToAbbr, ranked[n].stats.teamId) := InfoOf(ranked[n], hasDefRating)];
      LastWritten(next[a], ranked, idToAbbr, hasDefRating, a, n + 1)
  {
    var abbr := AbbrOf(idToAbbr, ranked[n].stats.teamId);
    var next := defMap[abbr := InfoOf(ranked[n], hasDefRating)];
    if a == abbr {
      assert LastWriter(ranked, idToAbbr, a, n, n + 1) && next[a] == InfoOf(ranked[n], hasDefRating);
    } else {
      var i :| LastWriter(ranked, idToAbbr, a, i, n) && defMap[a] == InfoOf(ranked[i], hasDefRating);
      LastWriterStays(ranked, idToAbbr, a, i, n);
      assert LastWriter(ranked, idToAbbr, a, i, n + 1) && next[a] == InfoOf(ranked[i], hasDefRating);
    }
  }

  /** Writing row n's entry over the map of the first n rows gives the map of the first n + 1. */
  lemma WriteStep(defMap: map<string, DefInfo>, ranked: seq<RankedTeam>, idToAbbr: map<int, string>,
                  hasDefRating: bool, n: int)
    requires 0 <= n < |ranked| && WrittenBy(defMap, ranked, idToAbbr, hasDefRating, n)
    ensures WrittenBy(defMap[AbbrOf(idToAbbr, ranked[n].stats.teamId) := InfoOf(ranked[n], hasDefRating)],
                      ranked, idToAbbr, hasDefRating, n + 1)
  {
    var abbr := AbbrOf(idToAbbr, ranked[n].stats.teamId);
    var next := defMap[abbr := InfoOf(ranked[n], hasDefRating)];
    WrittenKeysStep(ranked, idToAbbr, n);
    forall a | a in next
      ensures LastWritten(next[a], ranked, idToAbbr, hasDefRating, a, n + 1)
    {
      WriteStepEntry(defMap, ranked, idToAbbr, hasDefRating, n, a);
    }
  }

  /**
   * `get_team_defensive_ratings`: sort and rank the frame, then write one
   * entry per row in rank order, so a later row overwrites an earlier one
   * with the same abbreviation.
   */
  method TeamDefensiveRatings(frame: TeamFrame, idToAbbr: map<int, string>)
    returns (defMap: map<string, DefInfo>)
    ensures WrittenBy(defMap, RankTeams(frame), idToAbbr, frame.hasDefRating, |frame.rows|)
  {
    var ranked := RankTeams(frame);
    defMap := map[];
    for n := 0 to |ranked|
      invariant WrittenBy(defMap, ranked, idToAbbr, frame.hasDefRating, n)
    {
      WriteStep(defMap, ranked, idToAbbr, frame.hasDefRating, n);
      defMap := defMap[AbbrOf(idToAbbr, ranked[n].stats.teamId) := InfoOf(ranked[n], frame.hasDefRating)];
    }
  }

  /** A team id missing from the lookup table is filed under "UNK". */
  lemma UnknownTeamIsUnk(ranked: seq<RankedTeam>, idToAbbr: map<int, string>, i: int)
    requires 0 <= i < |ranked| && ranked[i].stats.teamId !in idToAbbr
    ensures "UNK" in WrittenKeys(ranked, idToAbbr, |ranked|)
  {
  }

  /** Each abbreviation has exactly one last writer, so the map holds one entry per distinct abbreviation. */
  lemma LastWriterUnique(ranked: seq<RankedTeam>, idToAbbr: map<int, string>, a: string, i: int, j: int)
    requires LastWriter(ranked, idToAbbr, a, i, |ranked|) && LastWriter(ranked, idToAbbr, a, j, |ranked|)
    ensures i == j
  {
  }

  /**
   * Entries keep the order of the ranking: with a DEF_RATING column, a
   * smaller rank never has a larger rating, and distinct abbreviations
   * have distinct ranks in 1 .. len(frame); without the column every
   * rating is the 0.0 default.
   */
  lemma RankMapOrdered(frame: TeamFrame, idToAbbr: map<int, string>, defMap: map<string, DefInfo>, a: string, b: string)
    requires WrittenBy(defMap, RankTeams(frame), idToAbbr, frame.hasDefRating, |frame.rows|)
    requires a in defMap && b in defMap
    ensures 1 <= defMap[a].rank <= |frame.rows|
    ensures a != b ==> defMap[a].rank != defMap[b].rank
    ensures frame.hasDefRating && defMap[a].rank <= defMap[b].rank ==> defMap[a].defRtg <= defMap[b].defRtg
    ensures !frame.hasDefRating ==> defMap[a].defRtg == 0.0
  {
    var ranked := RankTeams(frame);
    var i :| LastWriter(ranked, idToAbbr, a, i, |ranked|) && defMap[a] == InfoOf(ranked[i], frame.hasDefRating);
    var j :| LastWriter(ranked, idToAbbr, b, j, |ranked|) && defMap[b] == InfoOf(ranked[j], frame.hasDefRating);
    assert defMap[a].rank == i + 1 && defMap[b].rank == j + 1;
  }
}
