/**
 * The rank classification that the profile and badges screens both compute from a user's
 * points (src/screens/ProfileScreen.tsx:100-127, src/screens/BadgesScreen.tsx:68-94).
 * Fifteen ascending thresholds make five tiers of three numerals each; a `for` loop keeps
 * the tier and numeral of the last threshold the points reach.
 */
module Rank {

  /** One entry of the `tiers` table. */
  datatype Tier = Tier(name: string, color: string)

  const Tiers: seq<Tier> := [
    Tier("BRONZE", "#cd7f32"),
    Tier("SILVER", "#c0c0c0"),
    Tier("GOLD", "#ffd700"),
    Tier("DIAMOND", "#4f8ff7"),
    Tier("PLATINUM", "#9333ea")
  ]

  const Numerals: seq<string> := ["III", "II", "I"]

  /** Bronze III, II, I; Silver III, II, I; Gold ...; Diamond ...; Platinum III, II, I. */
  const Thresholds: seq<int> := [
    0, 100, 250,
    500, 900, 1400,
    2000, 2700, 3500,
    4400, 5400, 6500,
    7700, 9000, 10400
  ]

  /** The pair of indexes the loop leaves behind: into `Tiers` and into `Numerals`. */
  datatype RankIndex = RankIndex(tierIndex: int, numeralIndex: int)

  /** The last index below `n` whose threshold `points` reaches, or -1 when there is none. */
  function LastMet(points: int, n: nat): (i: int)
    requires n <= |Thresholds|
    ensures -1 <= i < n
    ensures i >= 0 ==> Thresholds[i] <= points
    ensures forall j :: i < j < n ==> points < Thresholds[j]
  {
    if n == 0 then -1
    else if Thresholds[n - 1] <= points then n - 1
    else LastMet(points, n - 1)
  }

  /** The indexes after the loop has looked at the first `n` thresholds. */
  function RankAfter(points: int, n: nat): RankIndex
    requires n <= |Thresholds|
  {
    var i := LastMet(points, n);
    if i < 0 then RankIndex(0, 0) else RankIndex(i / 3, i % 3)
  }

  /**
   * The indexes the loop computes for `points`. They always lie inside the tables, so the
   * `||` fallbacks after the loop are never taken.
   */
  function RankOf(points: int): (r: RankIndex)
    ensures 0 <= r.tierIndex < |Tiers|
    ensures 0 <= r.numeralIndex < |Numerals|
  {
    RankAfter(points, |Thresholds|)
  }

  /** `table[index] || fallback`: the entry when the index is in range, the fallback otherwise. */
  function Lookup<T>(table: seq<T>, index: int, fallback: T): (r: T)
    ensures 0 <= index < |table| ==> r == table[index]
    ensures !(0 <= index < |table|) ==> r == fallback
  {
    if 0 <= index < |table| then table[index] else fallback
  }

  /** The `for` loop over the thresholds (src/screens/ProfileScreen.tsx:118-125). */
  method ClassifyPoints(points: int) returns (tierIndex: int, numeralIndex: int)
    ensures RankIndex(tierIndex, numeralIndex) == RankOf(points)
  {
    tierIndex := 0;
    numeralIndex := 0;
    for i := 0 to |Thresholds|
      invariant RankIndex(tierIndex, numeralIndex) == RankAfter(points, i)
    {
      if points >= Thresholds[i] {
        tierIndex := i / 3;
        numeralIndex := i % 3;
      }
    }
  }

  // ---------------------------------------------------------------- properties

  /** The thresholds are strictly ascending. */
  lemma {:induction false} ThresholdsAscending(i: int, j: int)
    ensures 0 <= i < j < |Thresholds| ==> Thresholds[i] < Thresholds[j]
  {
    if 0 <= i && i + 1 < j < |Thresholds| {
      ThresholdsAscending(i, j - 1);
    }
  }

  /**
   * Because the thresholds ascend, the loop's index is the largest one reached: a threshold is
   * reached exactly when its index is at most that one, and none is reached for negative points.
   */
  lemma LastMetIsLargest(points: int)
    ensures LastMet(points, |Thresholds|) == -1 <==> points < 0
    ensures forall j :: 0 <= j < |Thresholds| ==>
      (Thresholds[j] <= points <==> j <= LastMet(points, |Thresholds|))
  {
    var i := LastMet(points, |Thresholds|);
    if points >= 0 {
      assert Thresholds[0] <= points;
    }
    ThresholdsAscending(0, i);
    forall j | 0 <= j < |Thresholds| && j < i
      ensures Thresholds[j] <= points
    {
      ThresholdsAscending(j, i);
    }
  }

  /** A threshold that is reached, with the next one not reached, is the loop's index. */
  lemma LastMetIs(points: int, k: int)
    requires 0 <= k < |Thresholds|
    requires Thresholds[k] <= points
    requires k == |Thresholds| - 1 || points < Thresholds[k + 1]
    ensures LastMet(points, |Thresholds|) == k
  {
    ThresholdsAscending(k + 1, LastMet(points, |Thresholds|));
  }

  /** Negative points reach no threshold and give Bronze with numeral index 0 ("III"). */
  lemma NegativePoints(points: int)
    requires points < 0
    ensures RankOf(points) == RankIndex(0, 0)
  {
    LastMetIsLargest(points);
  }

  /** More points never give a lower rank: the index pairs are ordered lexicographically. */
  lemma RankMonotone(p1: int, p2: int)
    requires p1 <= p2
    ensures var r1, r2 := RankOf(p1), RankOf(p2);
      r1.tierIndex < r2.tierIndex
      || (r1.tierIndex == r2.tierIndex && r1.numeralIndex <= r2.numeralIndex)
  {
    var i1, i2 := LastMet(p1, |Thresholds|), LastMet(p2, |Thresholds|);
    assert i1 <= i2;
    if 0 <= i1 {
      assert i1 / 3 <= i2 / 3;
    }
  }

  /** 0 is Bronze III, 1999 is Silver I, 2000 is Gold III, and from 10400 on it is Platinum I. */
  lemma RankBoundaries(points: int)
    requires points >= 10400
    ensures RankOf(0) == RankIndex(0, 0)
    ensures RankOf(1999) == RankIndex(1, 2)
    ensures RankOf(2000) == RankIndex(2, 0)
    ensures RankOf(points) == RankIndex(4, 2)
  {
    LastMetIs(0, 0);
    LastMetIs(1999, 5);
    LastMetIs(2000, 6);
    LastMetIs(points, 14);
  }
}
