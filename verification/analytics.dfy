/**
 * The analytics service (src/services/analytics.ts): per-habit analytics computed from a
 * habit's entries, the overall figures folded from them, and the two per-habit comparison
 * tables. Dates are day numbers and `today` is a parameter.
 *
 * `getHabitAnalytics` sorts the habit's entry array in place and then walks it with three
 * loops; `GetHabitAnalytics` is that method, proved equal to the specification function
 * `AnalyticsOf`, and the lemmas below state what `AnalyticsOf` promises.
 */
module Analytics {
  import opened Wrappers
  import opened Types
  import Js
  import opened DateSort
  import opened Streaks

  /** One row of the `last30Days` window; `date` is the day the row stands for. */
  datatype DayRecord = DayRecord(date: int, value: int, completed: bool)

  datatype HabitAnalytics = HabitAnalytics(
    successRate: int,
    currentStreak: nat,
    bestStreak: nat,
    totalTracked: nat,
    successfulDays: nat,
    last30Days: seq<DayRecord>)

  /** The length of the `last30Days` window. */
  const WindowDays := 30

  // ---------------------------------------------------------------- specification

  /** `total > 0 ? Math.round((successful / total) * 100) : 0`. */
  function SuccessRate(successful: nat, total: nat): int {
    if total > 0 then Js.Round(100 * successful, total) else 0
  }

  /** A success rate is a percentage: 0 with nothing tracked or nothing successful, 100 when all is. */
  lemma SuccessRateBounds(successful: nat, total: nat)
    requires successful <= total
    ensures 0 <= SuccessRate(successful, total) <= 100
    ensures successful == 0 ==> SuccessRate(successful, total) == 0
    ensures 0 < successful == total ==> SuccessRate(successful, total) == 100
  {
    if total > 0 {
      Js.RoundPercentBounds(successful, total);
      Js.RoundExact(0, total);
      Js.RoundExact(100, total);
    }
  }

  /** The `last30Days` row for `day`: the value of the entry `find` returns, or 0. */
  function DayRecordOn(s: seq<HabitEntry>, day: int): (r: DayRecord)
    ensures r.date == day
    ensures r.completed <==> r.value > 0
    ensures (forall k :: 0 <= k < |s| ==> s[k].date != day) ==> r.value == 0
  {
    var value := DayValue(s, day);
    DayRecord(day, value, value > 0)
  }

  /** The 30 rows for the days ending today, oldest first. */
  function Last30Days(s: seq<HabitEntry>, today: int): (r: seq<DayRecord>)
    ensures |r| == WindowDays
    ensures r[WindowDays - 1].date == today
    ensures forall k :: 0 <= k < |r| ==> r[k].date == today - (WindowDays - 1) + k
    ensures forall k :: 0 <= k < |r| ==> r[k].value == DayValue(s, r[k].date)
    ensures forall k :: 0 <= k < |r| ==> r[k] == DayRecordOn(s, today - (WindowDays - 1) + k)
  {
    var r := seq(WindowDays, k => DayRecordOn(s, today - (WindowDays - 1) + k));
    assert forall k :: 0 <= k < WindowDays ==> r[k] == DayRecordOn(s, today - (WindowDays - 1) + k);
    r
  }

  /** Two lists that give the same value on every day give the same window. */
  lemma {:induction false} Last30SameValues(s1: seq<HabitEntry>, s2: seq<HabitEntry>, today: int)
    requires forall d :: DayValue(s1, d) == DayValue(s2, d)
    ensures Last30Days(s1, today) == Last30Days(s2, today)
  {
    var a, b := Last30Days(s1, today), Last30Days(s2, today);
    forall k | 0 <= k < WindowDays
      ensures a[k] == b[k]
    {
      assert a[k] == DayRecordOn(s1, today - (WindowDays - 1) + k);
      assert b[k] == DayRecordOn(s2, today - (WindowDays - 1) + k);
    }
  }

  /** The window reads the same values from the list before and after the (stable) sort. */
  lemma Last30SortInvariant(entries: seq<HabitEntry>, today: int)
    ensures Last30Days(SortByDate(entries), today) == Last30Days(entries, today)
  {
    forall d
      ensures DayValue(SortByDate(entries), d) == DayValue(entries, d)
    {
      DayValueSortInvariant(entries, d);
    }
    Last30SameValues(SortByDate(entries), entries, today);
  }

  /**
   * What `getHabitAnalytics` returns for a habit whose entries are `entries`: every figure is
   * read from the entries sorted by date.
   */
  function AnalyticsOf(entries: seq<HabitEntry>, today: int): (r: HabitAnalytics)
    ensures r.totalTracked == |entries|
    ensures r.successfulDays == SuccessfulCount(entries) <= r.totalTracked
    ensures r.last30Days == Last30Days(entries, today)
  {
    var s := SortByDate(entries);
    SortKeepsSuccessfulCount(entries);
    Last30SortInvariant(entries, today);
    HabitAnalytics(
      SuccessRate(SuccessfulCount(s), |s|),
      CurrentStreak(s, today),
      BestStreak(s),
      |s|,
      SuccessfulCount(s),
      Last30Days(s, today))
  }

  /** The earliest date among the entries. */
  function MinDate(s: seq<HabitEntry>): (m: int)
    requires s != []
    ensures forall k :: 0 <= k < |s| ==> m <= s[k].date
    ensures exists k :: 0 <= k < |s| && s[k].date == m
  {
    if |s| == 1 then s[0].date
    else
      var rest := MinDate(s[1..]);
      if s[0].date <= rest then s[0].date else rest
  }

  /** After the sort, the first entry carries the earliest date. */
  lemma SortedFirstIsMin(entries: seq<HabitEntry>)
    requires entries != []
    ensures SortByDate(entries)[0].date == MinDate(entries)
  {
    var s := SortByDate(entries);
    SortIsSorted(entries);
    SortIsPermutation(entries);
    assert s[0] in multiset(entries);
    var k :| 0 <= k < |entries| && entries[k].date == MinDate(entries);
    assert entries[k] in multiset(s);
    var j :| 0 <= j < |s| && s[j] == entries[k];
  }

  /** Two lists on which the same days succeed have the same streaks. */
  lemma StreakFromSameDays(s1: seq<HabitEntry>, s2: seq<HabitEntry>, day: int, oldest: int)
    requires forall d :: SucceededOn(s1, d) == SucceededOn(s2, d)
    ensures StreakFrom(s1, day, oldest) == StreakFrom(s2, day, oldest)
  {
    StreakFromMeans(s1, day, oldest);
    StreakFromUnique(s2, day, oldest, StreakFrom(s1, day, oldest));
  }

  /** Figures of `AnalyticsOf` that are about counts: bounds and the empty case. */
  lemma AnalyticsCounts(entries: seq<HabitEntry>, today: int)
    ensures 0 <= AnalyticsOf(entries, today).successRate <= 100
    ensures AnalyticsOf(entries, today).successRate
         == SuccessRate(SuccessfulCount(entries), |entries|)
    ensures entries == [] ==> AnalyticsOf(entries, today).successRate == 0
  {
    var s := SortByDate(entries);
    SortKeepsSuccessfulCount(entries);
    SuccessRateBounds(SuccessfulCount(entries), |entries|);
  }

  /**
   * The current streak, stated on the unsorted entries: the backward walk from today over the
   * days on which the entry `find` returns is successful, stopping at the earliest date.
   */
  lemma AnalyticsCurrentStreak(entries: seq<HabitEntry>, today: int)
    ensures entries == [] ==> AnalyticsOf(entries, today).currentStreak == 0
    ensures entries != [] ==>
      AnalyticsOf(entries, today).currentStreak == StreakFrom(entries, today, MinDate(entries))
    ensures !SucceededOn(entries, today) ==> AnalyticsOf(entries, today).currentStreak == 0
    ensures AnalyticsOf(entries, today).currentStreak <= SuccessfulCount(entries)
  {
    var s := SortByDate(entries);
    forall d
      ensures SucceededOn(s, d) == SucceededOn(entries, d)
    {
      DayValueSortInvariant(entries, d);
    }
    if entries != [] {
      SortedFirstIsMin(entries);
      StreakFromSameDays(s, entries, today, MinDate(entries));
    }
    CurrentStreakAtMostSuccessful(s, today);
    SortKeepsSuccessfulCount(entries);
  }

  /**
   * The best streak is the longest run of successful entries of the sorted list, at most the
   * successful count, and zero exactly when there is no successful entry.
   */
  lemma AnalyticsBestStreak(entries: seq<HabitEntry>, today: int)
    ensures var s, best := SortByDate(entries), AnalyticsOf(entries, today).bestStreak;
      (exists i, j :: j - i == best && PositiveRun(s, i, j))
      && (forall i, j :: PositiveRun(s, i, j) ==> j - i <= best)
    ensures AnalyticsOf(entries, today).bestStreak <= SuccessfulCount(entries)
    ensures AnalyticsOf(entries, today).bestStreak == 0 <==> SuccessfulCount(entries) == 0
  {
    var s := SortByDate(entries);
    BestStreakIsLongestRun(s);
    BestStreakAndSuccessful(s);
    SortKeepsSuccessfulCount(entries);
  }

  /** Analysing an already analysed (hence sorted) list gives the same result. */
  lemma AnalyticsIdempotent(entries: seq<HabitEntry>, today: int)
    ensures AnalyticsOf(SortByDate(entries), today) == AnalyticsOf(entries, today)
  {
    SortIdempotent(entries);
  }

  // ---------------------------------------------------------------- getHabitAnalytics

  /** The `while` loop walking back from today (src/services/analytics.ts:58-72). */
  method ComputeCurrentStreak(a: array<HabitEntry>, today: int) returns (streak: nat)
    ensures streak == CurrentStreak(a[..], today)
  {
    var oldest := if a.Length > 0 then a[0].date else today;
    assert oldest == Oldest(a[..], today);
    var checkDate := today;
    streak := 0;
    while checkDate >= oldest
      invariant checkDate == today - streak
      invariant streak + StreakFrom(a[..], checkDate, oldest) == StreakFrom(a[..], today, oldest)
      decreases checkDate - oldest
    {
      if DayValue(a[..], checkDate) > 0 {
        streak := streak + 1;
      } else {
        break;
      }
      checkDate := checkDate - 1;
    }
  }

  /** The `forEach` keeping `tempStreak` and `bestStreak` (src/services/analytics.ts:75-84). */
  method ComputeBestStreak(a: array<HabitEntry>) returns (bestStreak: nat)
    ensures bestStreak == BestStreak(a[..])
  {
    var tempStreak := 0;
    bestStreak := 0;
    var i := 0;
    while i < a.Length
      invariant 0 <= i <= a.Length
      invariant tempStreak == TrailingRun(a[..i])
      invariant bestStreak == BestStreak(a[..i])
    {
      assert a[..i + 1][..i] == a[..i];
      if a[i].value > 0 {
        tempStreak := tempStreak + 1;
        if tempStreak > bestStreak {
          bestStreak := tempStreak;
        }
      } else {
        tempStreak := 0;
      }
      i := i + 1;
    }
    assert a[..a.Length] == a[..];
  }

  /** The `for` loop building `last30Days` (src/services/analytics.ts:87-98). */
  method BuildLast30Days(a: array<HabitEntry>, today: int) returns (rows: seq<DayRecord>)
    ensures rows == Last30Days(a[..], today)
  {
    rows := [];
    var i := WindowDays - 1;
    while i >= 0
      invariant -1 <= i <= WindowDays - 1
      invariant |rows| == WindowDays - 1 - i
      invariant forall k :: 0 <= k < |rows| ==> rows[k] == DayRecordOn(a[..], today - (WindowDays - 1) + k)
    {
      var date := today - i;
      var value := DayValue(a[..], date);
      rows := rows + [DayRecord(date, value, value > 0)];
      i := i - 1;
    }
  }

  /**
   * `getHabitAnalytics(habit)`: `habitEntries` is the habit's entry array, absent when the
   * record has none. The array is left sorted by date.
   */
  method GetHabitAnalytics(habitEntries: Option<array<HabitEntry>>, today: int) returns (r: HabitAnalytics)
    modifies if habitEntries.Some? then {habitEntries.value} else {}
    ensures habitEntries.Some? ==> habitEntries.value[..] == SortByDate(old(habitEntries.value[..]))
    ensures r == AnalyticsOf(if habitEntries.Some? then old(habitEntries.value[..]) else [], today)
  {
    var entries: array<HabitEntry>;
    if habitEntries.Some? {
      entries := habitEntries.value;
    } else {
      entries := new HabitEntry[0];
    }
    ghost var original := entries[..];
    SortByDateInPlace(entries);
    var successfulDays := SuccessfulCount(entries[..]);
    var totalTracked := entries.Length;
    var successRate := if totalTracked > 0 then Js.Round(100 * successfulDays, totalTracked) else 0;

    // `sortedEntries` is the same array, sorted a second time.
    SortByDateInPlace(entries);
    SortIdempotent(original);

    var currentStreak := ComputeCurrentStreak(entries, today);
    var bestStreak := ComputeBestStreak(entries);
    var last30Days := BuildLast30Days(entries, today);
    r := HabitAnalytics(successRate, currentStreak, bestStreak, totalTracked, successfulDays, last30Days);
  }

  // ---------------------------------------------------------------- calculateOverallStats

  datatype AnalyticsStats = AnalyticsStats(
    totalSuccessfulDays: int,
    averageSuccessRate: int,
    longestCurrentStreak: int,
    activeHabits: int,
    totalHabits: int,
    totalEntries: int)

  /** `habits.map(habit => this.getHabitAnalytics(habit))`, on values. */
  function AnalyticsOfAll(habits: seq<Habit>, today: int): seq<HabitAnalytics> {
    seq(|habits|, i requires 0 <= i < |habits| => AnalyticsOf(EntriesOf(habits[i]), today))
  }

  /** The numeric fields of `HabitAnalytics` that `calculateOverallStats` folds. */
  datatype Field = SuccessfulDays | Rate | Tracked | Current

  function Get(r: HabitAnalytics, f: Field): int {
    match f
    case SuccessfulDays => r.successfulDays
    case Rate => r.successRate
    case Tracked => r.totalTracked
    case Current => r.currentStreak
  }

  /** `reduce((sum, a) => sum + a.f, 0)`. */
  function SumOf(rs: seq<HabitAnalytics>, f: Field): int {
    if rs == [] then 0 else SumOf(rs[..|rs| - 1], f) + Get(rs[|rs| - 1], f)
  }

  /** `Math.max(...rs.map(a => a.f))` for a non-empty list. */
  function MaxOf(rs: seq<HabitAnalytics>, f: Field): (m: int)
    requires rs != []
    ensures forall i :: 0 <= i < |rs| ==> Get(rs[i], f) <= m
    ensures exists i :: 0 <= i < |rs| && Get(rs[i], f) == m
  {
    if |rs| == 1 then Get(rs[0], f)
    else
      var rest := MaxOf(rs[1..], f);
      assert forall i :: 1 <= i < |rs| ==> rs[i] == rs[1..][i - 1];
      if Get(rs[0], f) >= rest then Get(rs[0], f) else rest
  }

  /** `calculateOverallStats(habits)`. */
  function OverallStats(habits: seq<Habit>, today: int): (r: AnalyticsStats)
    ensures habits == [] ==> r == AnalyticsStats(0, 0, 0, 0, 0, 0)
    ensures r.activeHabits == r.totalHabits == |habits|
  {
    if |habits| == 0 then AnalyticsStats(0, 0, 0, 0, 0, 0)
    else
      var rs := AnalyticsOfAll(habits, today);
      AnalyticsStats(
        SumOf(rs, SuccessfulDays),
        Js.Round(SumOf(rs, Rate), |habits|),
        MaxOf(rs, Current),
        |habits|,
        |habits|,
        SumOf(rs, Tracked))
  }

  /** The number of successful entries over all habits, read from the raw entry lists. */
  function TotalSuccessful(habits: seq<Habit>): int {
    if habits == [] then 0
    else TotalSuccessful(habits[..|habits| - 1]) + SuccessfulCount(EntriesOf(habits[|habits| - 1]))
  }

  /** The number of entries over all habits. */
  function TotalEntries(habits: seq<Habit>): int {
    if habits == [] then 0
    else TotalEntries(habits[..|habits| - 1]) + |EntriesOf(habits[|habits| - 1])|
  }

  /** The analytics of all habits are those of all but the last, followed by the last one's. */
  lemma AnalyticsOfAllSnoc(habits: seq<Habit>, today: int)
    requires habits != []
    ensures AnalyticsOfAll(habits, today)
         == AnalyticsOfAll(habits[..|habits| - 1], today) + [AnalyticsOf(EntriesOf(habits[|habits| - 1]), today)]
  {
  }

  lemma SumOfSnoc(rs: seq<HabitAnalytics>, r: HabitAnalytics, f: Field)
    ensures SumOf(rs + [r], f) == SumOf(rs, f) + Get(r, f)
  {
    assert (rs + [r])[..|rs|] == rs;
  }

  lemma {:induction false} SuccessfulSumMatches(habits: seq<Habit>, today: int)
    ensures SumOf(AnalyticsOfAll(habits, today), SuccessfulDays) == TotalSuccessful(habits)
  {
    if habits != [] {
      var init, last := habits[..|habits| - 1], AnalyticsOf(EntriesOf(habits[|habits| - 1]), today);
      AnalyticsOfAllSnoc(habits, today);
      SuccessfulSumMatches(init, today);
      SumOfSnoc(AnalyticsOfAll(init, today), last, SuccessfulDays);
    }
  }

  lemma {:induction false} TrackedSumMatches(habits: seq<Habit>, today: int)
    ensures SumOf(AnalyticsOfAll(habits, today), Tracked) == TotalEntries(habits)
  {
    if habits != [] {
      var init, last := habits[..|habits| - 1], AnalyticsOf(EntriesOf(habits[|habits| - 1]), today);
      AnalyticsOfAllSnoc(habits, today);
      TrackedSumMatches(init, today);
      SumOfSnoc(AnalyticsOfAll(init, today), last, Tracked);
    }
  }

  lemma {:induction false} RateSumBounds(rs: seq<HabitAnalytics>)
    requires forall i :: 0 <= i < |rs| ==> 0 <= rs[i].successRate <= 100
    ensures 0 <= SumOf(rs, Rate) <= 100 * |rs|
  {
    if rs != [] {
      RateSumBounds(rs[..|rs| - 1]);
    }
  }

  /** `calculateOverallStats` sums its counts over the raw entry lists of the habits. */
  lemma OverallStatsTotals(habits: seq<Habit>, today: int)
    ensures OverallStats(habits, today).totalSuccessfulDays == TotalSuccessful(habits)
    ensures OverallStats(habits, today).totalEntries == TotalEntries(habits)
  {
    SuccessfulSumMatches(habits, today);
    TrackedSumMatches(habits, today);
  }

  /** The average success rate of `calculateOverallStats` is a percentage. */
  lemma OverallStatsAverage(habits: seq<Habit>, today: int)
    ensures 0 <= OverallStats(habits, today).averageSuccessRate <= 100
    ensures habits != [] ==>
      var avg, n := OverallStats(habits, today).averageSuccessRate, |habits|;
      2 * n * avg - n <= 2 * SumOf(AnalyticsOfAll(habits, today), Rate) < 2 * n * avg + n
  {
    if habits != [] {
      var rs := AnalyticsOfAll(habits, today);
      forall i | 0 <= i < |rs|
        ensures 0 <= rs[i].successRate <= 100
      {
        AnalyticsCounts(EntriesOf(habits[i]), today);
      }
      RateSumBounds(rs);
      Js.RoundMeanBounds(SumOf(rs, Rate), |habits|);
    }
  }

  /** The longest current streak of `calculateOverallStats` is the largest of the habits' streaks. */
  lemma OverallStatsLongest(habits: seq<Habit>, today: int)
    ensures forall i :: 0 <= i < |habits| ==>
      AnalyticsOf(EntriesOf(habits[i]), today).currentStreak <= OverallStats(habits, today).longestCurrentStreak
    ensures habits != [] ==>
      exists i :: 0 <= i < |habits| && AnalyticsOf(EntriesOf(habits[i]), today).currentStreak == OverallStats(habits, today).longestCurrentStreak
  {
    if habits != [] {
      var rs := AnalyticsOfAll(habits, today);
      var m := MaxOf(rs, Current);
      assert OverallStats(habits, today).longestCurrentStreak == m;
      forall i | 0 <= i < |habits|
        ensures AnalyticsOf(EntriesOf(habits[i]), today).currentStreak <= m
      {
        assert rs[i] == AnalyticsOf(EntriesOf(habits[i]), today);
        assert Get(rs[i], Current) <= m;
      }
      var i :| 0 <= i < |rs| && Get(rs[i], Current) == m;
      assert rs[i] == AnalyticsOf(EntriesOf(habits[i]), today);
    }
  }

  // ---------------------------------------------------------------- comparison tables

  datatype SuccessRateRow = SuccessRateRow(
    name: string, successRate: int, completedDays: nat, totalDays: nat, color: string)

  datatype StreakRow = StreakRow(name: string, currentStreak: nat, bestStreak: nat, color: string)

  /** The `getSuccessRateData` record for one habit. */
  function SuccessRateRowOf(h: Habit, today: int): (r: SuccessRateRow)
    ensures r.name == h.name && r.color == h.color
    ensures r.completedDays == SuccessfulCount(EntriesOf(h)) <= r.totalDays == |EntriesOf(h)|
    ensures r.successRate == SuccessRate(r.completedDays, r.totalDays)
    ensures 0 <= r.successRate <= 100
  {
    var a := AnalyticsOf(EntriesOf(h), today);
    AnalyticsCounts(EntriesOf(h), today);
    SuccessRateRow(h.name, a.successRate, a.successfulDays, a.totalTracked, h.color)
  }

  /** `getSuccessRateData(habits)`: one record per habit, in input order. */
  function SuccessRateData(habits: seq<Habit>, today: int): (r: seq<SuccessRateRow>)
    ensures |r| == |habits|
    ensures forall i :: 0 <= i < |r| ==> r[i] == SuccessRateRowOf(habits[i], today)
  {
    var r := seq(|habits|, i requires 0 <= i < |habits| => SuccessRateRowOf(habits[i], today));
    assert forall i :: 0 <= i < |habits| ==> r[i] == SuccessRateRowOf(habits[i], today);
    r
  }

  /** The `getStreakComparisonData` record for one habit. */
  function StreakRowOf(h: Habit, today: int): (r: StreakRow)
    ensures r.name == h.name && r.color == h.color
    ensures r.currentStreak == AnalyticsOf(EntriesOf(h), today).currentStreak
    ensures r.bestStreak == AnalyticsOf(EntriesOf(h), today).bestStreak
    ensures r.currentStreak <= SuccessfulCount(EntriesOf(h))
    ensures !SucceededOn(EntriesOf(h), today) ==> r.currentStreak == 0
    ensures r.bestStreak <= SuccessfulCount(EntriesOf(h))
    ensures r.bestStreak == 0 <==> SuccessfulCount(EntriesOf(h)) == 0
  {
    var a := AnalyticsOf(EntriesOf(h), today);
    AnalyticsCurrentStreak(EntriesOf(h), today);
    AnalyticsBestStreak(EntriesOf(h), today);
    StreakRow(h.name, a.currentStreak, a.bestStreak, h.color)
  }

  /** `getStreakComparisonData(habits)`: one record per habit, in input order. */
  function StreakComparisonData(habits: seq<Habit>, today: int): (r: seq<StreakRow>)
    ensures |r| == |habits|
    ensures forall i :: 0 <= i < |r| ==> r[i] == StreakRowOf(habits[i], today)
  {
    var r := seq(|habits|, i requires 0 <= i < |habits| => StreakRowOf(habits[i], today));
    assert forall i :: 0 <= i < |habits| ==> r[i] == StreakRowOf(habits[i], today);
    r
  }

  /** The streak table's largest current streak is the overall longest current streak. */
  lemma ComparisonMatchesOverall(habits: seq<Habit>, today: int)
    ensures forall i :: 0 <= i < |habits| ==>
      StreakComparisonData(habits, today)[i].currentStreak <= OverallStats(habits, today).longestCurrentStreak
    ensures habits != [] ==>
      exists i :: 0 <= i < |habits| && StreakComparisonData(habits, today)[i].currentStreak == OverallStats(habits, today).longestCurrentStreak
  {
    OverallStatsLongest(habits, today);
    var r := StreakComparisonData(habits, today);
    forall i | 0 <= i < |habits|
      ensures r[i].currentStreak == AnalyticsOf(EntriesOf(habits[i]), today).currentStreak
    {
    }
    if habits != [] {
      var i :| 0 <= i < |habits| && AnalyticsOf(EntriesOf(habits[i]), today).currentStreak == OverallStats(habits, today).longestCurrentStreak;
      assert r[i].currentStreak == OverallStats(habits, today).longestCurrentStreak;
    }
  }
}
