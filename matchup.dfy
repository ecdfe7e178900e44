/**
 * Reading a schedule's matchup text ("LAL vs. BOS" at home, "LAL @ BOS"
 * away) and turning the opponent into a coloured badge: the opponent is the
 * third space-separated token, the game is at home when the text contains
 * "vs.", and an opponent without a defensive rating counts as rank 15.
 */
module Matchups {
  import opened Wrappers
  import opened Text
  import opened DefensiveRatings
  import opened RankColors

  /** The rank assumed for an opponent missing from the ratings map. */
  const DefaultRank := 15

  /** How many times c occurs in s. */
  function Count(s: string, c: char): nat {
    multiset(s)[c]
  }

  /** A split has one more token than the text has separators. */
  lemma {:induction false} SplitCount(s: string, sep: char)
    ensures |Split(s, sep)| == Count(s, sep) + 1
  {
    if s != [] {
      SplitCount(s[1..], sep);
      assert s == [s[0]] + s[1..];
      assert multiset(s) == multiset{s[0]} + multiset(s[1..]);
    }
  }

  /**
   * `matchup.split(' ')[2]`: the third space-separated token. Fewer than two
   * spaces leave no third token, and Python raises IndexError; the model
   * returns the offending text as an error.
   */
  function Opponent(matchup: string): (r: Result<string, string>)
    ensures r.Ok? ==> ' ' !in r.value
    ensures r.Err? <==> Count(matchup, ' ') < 2
    ensures r.Err? ==> r.error == matchup
  {
    var tokens := Split(matchup, ' ');
    SplitCount(matchup, ' ');
    if |tokens| >= 3 then Ok(tokens[2]) else Err(matchup)
  }

  /** Joining space-free tokens with single spaces and reading the opponent back gives the third token. */
  lemma OpponentOfJoin(tokens: seq<string>)
    requires |tokens| >= 3
    requires forall k :: 0 <= k < |tokens| ==> ' ' !in tokens[k]
    ensures Opponent(Join(tokens, ' ')) == Ok(tokens[2])
  {
    SplitJoin(tokens, ' ');
  }

  /** `'vs.' in matchup`. */
  predicate IsHome(matchup: string) {
    Contains(matchup, "vs.")
  }

  /** `'vs' if is_home else '@'`. */
  function Prefix(isHome: bool): (p: string)
    ensures p == "vs" <==> isHome
  {
    if isHome then "vs" else "@"
  }

  /** `def_ratings.get(opp_abbr, {'Rank': 15})['Rank']`. */
  function OpponentRank(defMap: map<string, DefInfo>, opponent: string): (rank: int)
    ensures opponent !in defMap ==> rank == DefaultRank
  {
    if opponent in defMap then defMap[opponent].rank else DefaultRank
  }

  /** What `get_badge_html` shows: the colour, the rank in the tooltip, the prefix and the opponent. */
  datatype Badge = Badge(color: string, rank: int, prefix: string, opponent: string)

  /** `get_badge_html(opp_abbr, is_home)`. */
  function BadgeFor(defMap: map<string, DefInfo>, opponent: string, isHome: bool): (b: Badge)
    ensures b.opponent == opponent && b.color in Palette
    ensures b.rank == OpponentRank(defMap, opponent) && b.color == ColorForRank(b.rank)
    ensures b.prefix == "vs" <==> isHome
  {
    var rank := OpponentRank(defMap, opponent);
    ColorInPalette(rank);
    Badge(ColorForRank(rank), rank, Prefix(isHome), opponent)
  }

  /** The badge of a game cell: the opponent read from the matchup, home when it says "vs.". */
  function MatchupBadge(defMap: map<string, DefInfo>, matchup: string): (r: Result<Badge, string>)
    ensures r.Err? <==> Opponent(matchup).Err?
    ensures r.Ok? ==> r.value.opponent == Opponent(matchup).value
    ensures r.Ok? ==> (r.value.prefix == "vs" <==> IsHome(matchup))
  {
    match Opponent(matchup)
    case Err(e) => Err(e)
    case Ok(opp) => Ok(BadgeFor(defMap, opp, IsHome(matchup)))
  }

  lemma JoinThree(a: string, b: string, c: string, sep: char)
    ensures Join([a, b, c], sep) == a + [sep] + b + [sep] + c
  {
    assert [a, b, c][1..] == [b, c];
    assert [b, c][1..] == [c];
    assert Join([b, c], sep) == b + [sep] + c;
  }

  /** Three space-free tokens joined by single spaces: the badge names the third. */
  lemma ThreeTokenBadge(defMap: map<string, DefInfo>, team: string, mid: string, opp: string)
    requires ' ' !in team && ' ' !in mid && ' ' !in opp
    ensures var m := team + [' '] + mid + [' '] + opp;
      MatchupBadge(defMap, m) == Ok(BadgeFor(defMap, opp, IsHome(m)))
  {
    JoinThree(team, mid, opp, ' ');
    OpponentOfJoin([team, mid, opp]);
  }

  /** Text without a '.' never contains "vs.". */
  lemma NoDotNoVs(s: string)
    requires '.' !in s
    ensures !IsHome(s)
  {
    forall i | 0 <= i <= |s| ensures !OccursAt(s, "vs.", i) {
      if i + 3 <= |s| {
        assert s[i + 2] != '.';
        assert s[i..i + 3][2] == s[i + 2];
      }
    }
  }

  /** "vs." standing between two spaces is found. */
  lemma VsIsHome(team: string, opp: string)
    ensures IsHome(team + " vs. " + opp)
  {
    var m := team + " vs. " + opp;
    assert m[|team| + 1..|team| + 4] == "vs.";
    assert OccursAt(m, "vs.", |team| + 1);
  }

  /** A home game, "TEAM vs. OPP", shows "vs OPP". */
  lemma HomeMatchupBadge(defMap: map<string, DefInfo>, team: string, opp: string)
    requires ' ' !in team && ' ' !in opp
    ensures MatchupBadge(defMap, team + " vs. " + opp) == Ok(BadgeFor(defMap, opp, true))
  {
    var m := team + " vs. " + opp;
    assert m == team + [' '] + "vs." + [' '] + opp;
    assert MatchupBadge(defMap, m) == Ok(BadgeFor(defMap, opp, IsHome(m))) by {
      ThreeTokenBadge(defMap, team, "vs.", opp);
    }
    VsIsHome(team, opp);
  }

  /** An away game, "TEAM @ OPP", shows "@ OPP" (abbreviations hold no '.'). */
  lemma AwayMatchupBadge(defMap: map<string, DefInfo>, team: string, opp: string)
    requires ' ' !in team && ' ' !in opp && '.' !in team && '.' !in opp
    ensures MatchupBadge(defMap, team + " @ " + opp) == Ok(BadgeFor(defMap, opp, false))
  {
    var m := team + " @ " + opp;
    assert m == team + [' '] + "@" + [' '] + opp;
    assert MatchupBadge(defMap, m) == Ok(BadgeFor(defMap, opp, IsHome(m))) by {
      ThreeTokenBadge(defMap, team, "@", opp);
    }
    assert !IsHome(m) by {
      assert '.' !in m;
      NoDotNoVs(m);
    }
  }

  /** An unrated opponent is shown as rank 15, which is in the middle (yellow) step. */
  lemma UnratedOpponent(defMap: map<string, DefInfo>, opp: string, isHome: bool)
    requires opp !in defMap
    ensures BadgeFor(defMap, opp, isHome).rank == 15
    ensures BadgeFor(defMap, opp, isHome).color == "#ffffcc"
  {
  }
}
