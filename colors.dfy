/**
 * The five-step colour scale for an opponent's defensive rank: rank 1 is the
 * best defence (a hard matchup, red) and rank 30 the worst (an easy one, green).
 */
module RankColors {

  /** The scale, hardest matchup first. */
  const Palette: seq<string> := ["#ffcccc", "#ffe5cc", "#ffffcc", "#e5ffcc", "#ccffcc"]

  /**
   * Which of the five steps a rank falls in: one step per six ranks,
   * everything up to 6 in the first and everything past 24 in the last.
   */
  function Bucket(rank: int): (b: nat)
    ensures b < |Palette|
  {
    if rank <= 6 then 0
    else if rank > 24 then 4
    else (rank - 1) / 6
  }

  /** `get_color_for_rank(rank)`. */
  function ColorForRank(rank: int): (c: string)
    ensures c == Palette[Bucket(rank)]
  {
    if rank <= 6 then "#ffcccc"
    else if rank <= 12 then "#ffe5cc"
    else if rank <= 18 then "#ffffcc"
    else if rank <= 24 then "#e5ffcc"
    else "#ccffcc"
  }

  /** The colour is always one of the five. */
  lemma ColorInPalette(rank: int)
    ensures ColorForRank(rank) in Palette
  {
    assert ColorForRank(rank) == Palette[Bucket(rank)];
  }

  /** A worse defence never gets a harder colour step. */
  lemma BucketMonotone(r1: int, r2: int)
    requires r1 <= r2
    ensures Bucket(r1) <= Bucket(r2)
  {
    if 6 < r1 && r2 <= 24 {
      DivMonotone(r1 - 1, r2 - 1);
    }
  }

  lemma DivMonotone(a: int, b: int)
    requires 0 <= a <= b
    ensures a / 6 <= b / 6
  {
    var qa, qb := a / 6, b / 6;
    assert a == 6 * qa + a % 6;
    assert b == 6 * qb + b % 6;
  }

  /** The five colours are distinct, so two ranks share a colour exactly when they share a step. */
  lemma SameColorSameBucket(r1: int, r2: int)
    ensures ColorForRank(r1) == ColorForRank(r2) <==> Bucket(r1) == Bucket(r2)
  {
    var b1, b2 := Bucket(r1), Bucket(r2);
    if b1 != b2 {
      assert Palette[b1][1] != Palette[b2][1] || Palette[b1][2] != Palette[b2][2] || Palette[b1][3] != Palette[b2][3];
    }
  }

  /** The step boundaries: 1-6, 7-12, 13-18, 19-24, then 25 and beyond. */
  lemma BucketRanges(rank: int)
    ensures Bucket(rank) == 0 <==> rank <= 6
    ensures Bucket(rank) == 1 <==> 7 <= rank <= 12
    ensures Bucket(rank) == 2 <==> 13 <= rank <= 18
    ensures Bucket(rank) == 3 <==> 19 <= rank <= 24
    ensures Bucket(rank) == 4 <==> 25 <= rank
  {
  }
}
