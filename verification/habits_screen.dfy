/**
 * The habit list's own, simplified statistics (src/screens/HabitsScreen.tsx): per habit, whether
 * today is done, a streak of at most one day, a "best streak" that is the count of successful
 * entries, the success rate and the successes of the last 7 and 30 days; over all habits, the
 * figures of the summary card; per card, the progress shown for the selected period.
 *
 * The clock is the parameter `nowMs` (milliseconds since the Unix epoch). An entry's instant is
 * the start (UTC) of its day, and today's date is the UTC day that contains `nowMs`.
 */
module HabitsScreen {
  import Js
  import opened Types
  import Streaks
  import Analytics

  const MsPerDay := 24 * 60 * 60 * 1000

  /** `new Date().toISOString().split('T')[0]`, as a day number. */
  function DayOf(nowMs: int): (d: int)
    ensures d * MsPerDay <= nowMs < (d + 1) * MsPerDay
  {
    nowMs / MsPerDay
  }

  /** `new Date(entry.date)`, in milliseconds: the instant that starts the entry's day. */
  function InstantOf(e: HabitEntry): (t: int)
    ensures DayOf(t) == e.date
  {
    e.date * MsPerDay
  }

  /** `entryDate >= since && entry.value > 0`. */
  function SuccessSince(since: int): HabitEntry -> bool {
    (e: HabitEntry) => InstantOf(e) >= since && e.value > 0
  }

  /** `HabitWithStats`: the habit together with the figures its card shows. */
  datatype HabitWithStats = HabitWithStats(
    habit: Habit,
    todayCompleted: bool,
    currentStreak: nat,
    bestStreak: nat,
    successRate: int,
    completionsThisWeek: nat,
    completionsThisMonth: nat)

  /** The successes dated no earlier than `days` days before `nowMs`. */
  function CompletionsWithin(s: seq<HabitEntry>, nowMs: int, days: nat): (n: nat)
    ensures n <= SuccessfulCount(s)
  {
    var n := |Js.Filter(s, SuccessSince(nowMs - days * MsPerDay))|;
    Js.FilterImplies(s, SuccessSince(nowMs - days * MsPerDay), Streaks.Positive());
    Streaks.SuccessfulCountIsFilter(s);
    n
  }

  /** A longer look-back window never counts fewer successes. */
  lemma CompletionsWithinMonotone(s: seq<HabitEntry>, nowMs: int, d1: nat, d2: nat)
    requires d1 <= d2
    ensures CompletionsWithin(s, nowMs, d1) <= CompletionsWithin(s, nowMs, d2)
  {
    var since1, since2 := nowMs - d1 * MsPerDay, nowMs - d2 * MsPerDay;
    assert since2 <= since1 by {
      Js.MulMonotone(MsPerDay, d1, d2);
    }
    Js.FilterImplies(s, SuccessSince(since1), SuccessSince(since2));
  }

  /** An entry dated today with a positive value gives at least one successful entry. */
  lemma SucceededTodayCounts(s: seq<HabitEntry>, day: int)
    ensures SucceededOn(s, day) ==> SuccessfulCount(s) >= 1
  {
    if SucceededOn(s, day) {
      var k := FirstIndexOn(s, day);
      assert Streaks.PositiveRun(s, k, k + 1);
      Streaks.RunIsCounted(s, k, k + 1);
    }
  }

  /**
   * `calculateHabitStats(habit)`. Today counts as done when the first entry dated today has a
   * positive value; the streak is 1 then and 0 otherwise; the best streak is simply the number
   * of successful entries (a done today is one of them); the rate is a percentage of the
   * entries; and the week's successes are among the month's, which are among all successes.
   */
  function CalculateHabitStats(habit: Habit, nowMs: int): (r: HabitWithStats)
    ensures r.habit == habit
    ensures r.todayCompleted <==> SucceededOn(EntriesOf(habit), DayOf(nowMs))
    ensures r.currentStreak <= 1
    ensures r.currentStreak == 1 <==> r.todayCompleted
    ensures r.currentStreak <= r.bestStreak
    ensures r.bestStreak == SuccessfulCount(EntriesOf(habit))
    ensures r.successRate == Analytics.SuccessRate(SuccessfulCount(EntriesOf(habit)), |EntriesOf(habit)|)
    ensures 0 <= r.successRate <= 100
    ensures EntriesOf(habit) == [] ==> r.successRate == 0
    ensures r.completionsThisWeek <= r.completionsThisMonth <= SuccessfulCount(EntriesOf(habit))
  {
    var entries := EntriesOf(habit);
    var todayCompleted := DayValue(entries, DayOf(nowMs)) > 0;
    var currentStreak := if todayCompleted then 1 else 0;
    var completed := SuccessfulCount(entries);
    var bestStreak := if currentStreak > completed then currentStreak else completed;
    SucceededTodayCounts(entries, DayOf(nowMs));
    Analytics.SuccessRateBounds(completed, |entries|);
    CompletionsWithinMonotone(entries, nowMs, 7, 30);
    HabitWithStats(
      habit,
      todayCompleted,
      currentStreak,
      bestStreak,
      Analytics.SuccessRate(completed, |entries|),
      CompletionsWithin(entries, nowMs, 7),
      CompletionsWithin(entries, nowMs, 30))
  }

  /** `todayCompleted` means the first entry dated today exists and has a positive value. */
  lemma TodayCompletedMeans(habit: Habit, nowMs: int)
    ensures var s, day := EntriesOf(habit), DayOf(nowMs);
      CalculateHabitStats(habit, nowMs).todayCompleted
      <==> exists k :: 0 <= k < |s| && s[k].date == day && s[k].value > 0
                       && forall j :: 0 <= j < k ==> s[j].date != day
  {
    SucceededOnMeans(EntriesOf(habit), DayOf(nowMs));
  }

  /**
   * The card's figures agree with the analytics screen's where both compute the same thing:
   * the success rates are equal, and a habit done today has an analytics streak of at least
   * the card's one day.
   */
  lemma AgreesWithAnalytics(habit: Habit, nowMs: int)
    ensures var stats, full := CalculateHabitStats(habit, nowMs), Analytics.AnalyticsOf(EntriesOf(habit), DayOf(nowMs));
      stats.successRate == full.successRate && stats.currentStreak <= full.currentStreak
  {
    var s, today := EntriesOf(habit), DayOf(nowMs);
    Analytics.AnalyticsCounts(s, today);
    Analytics.AnalyticsCurrentStreak(s, today);
    if SucceededOn(s, today) {
      var k := FirstIndexOn(s, today);
      assert Analytics.MinDate(s) <= s[k].date == today;
    }
  }

  // ---------------------------------------------------------------- summary card

  function IsCompletedToday(): HabitWithStats -> bool {
    (h: HabitWithStats) => h.todayCompleted
  }

  /** `habits.reduce((sum, h) => sum + h.successRate, 0)`. */
  function SumRates(habits: seq<HabitWithStats>): int {
    if habits == [] then 0 else SumRates(habits[..|habits| - 1]) + habits[|habits| - 1].successRate
  }

  /** The rounded figures the summary card shows. */
  datatype StatsCard = StatsCard(completedToday: nat, totalHabits: nat, todayProgress: int, avgSuccessRate: int)

  /**
   * `renderStatsCard`'s figures: the number of habits done today out of all habits, that ratio
   * as a rounded percentage, and the rounded mean of the success rates.
   */
  function StatsCardOf(habits: seq<HabitWithStats>): (r: StatsCard)
    ensures r.totalHabits == |habits|
    ensures r.completedToday == |Js.Filter(habits, IsCompletedToday())| <= r.totalHabits
    ensures habits != [] ==> var n := |habits|;
      2 * n * r.todayProgress - n <= 200 * r.completedToday < 2 * n * r.todayProgress + n
    ensures habits != [] ==> var n := |habits|;
      2 * n * r.avgSuccessRate - n <= 2 * SumRates(habits) < 2 * n * r.avgSuccessRate + n
    ensures habits == [] ==> r.todayProgress == 0 && r.avgSuccessRate == 0
    ensures 0 <= r.todayProgress <= 100
    ensures 0 < r.completedToday == r.totalHabits ==> r.todayProgress == 100
    ensures r.completedToday == 0 ==> r.todayProgress == 0
  {
    var completedToday := |Js.Filter(habits, IsCompletedToday())|;
    var totalHabits := |habits|;
    Analytics.SuccessRateBounds(completedToday, totalHabits);
    StatsCard(
      completedToday,
      totalHabits,
      Analytics.SuccessRate(completedToday, totalHabits),
      if totalHabits > 0 then Js.Round(SumRates(habits), totalHabits) else 0)
  }

  /**
   * Consequences of `completedToday` being the length of the filter: a habit done today is
   * counted, all done gives every habit and none done gives 0.
   */
  lemma CompletedTodayCounts(habits: seq<HabitWithStats>, h: HabitWithStats)
    requires h in habits
    ensures h.todayCompleted ==> 1 <= StatsCardOf(habits).completedToday
    ensures (forall i :: 0 <= i < |habits| ==> habits[i].todayCompleted)
            ==> StatsCardOf(habits).completedToday == |habits|
    ensures (forall i :: 0 <= i < |habits| ==> !habits[i].todayCompleted)
            ==> StatsCardOf(habits).completedToday == 0
  {
    if h.todayCompleted {
      Js.FilterComplete(habits, IsCompletedToday(), h);
    }
    if forall i :: 0 <= i < |habits| ==> habits[i].todayCompleted {
      Js.FilterPartition(habits, IsCompletedToday(), NotCompletedToday());
      Js.FilterNone(habits, NotCompletedToday());
    }
    if forall i :: 0 <= i < |habits| ==> !habits[i].todayCompleted {
      Js.FilterNone(habits, IsCompletedToday());
    }
  }

  function NotCompletedToday(): HabitWithStats -> bool {
    (h: HabitWithStats) => !h.todayCompleted
  }

  lemma {:induction false} SumRatesBounds(habits: seq<HabitWithStats>)
    requires forall i :: 0 <= i < |habits| ==> 0 <= habits[i].successRate <= 100
    ensures 0 <= SumRates(habits) <= 100 * |habits|
  {
    if habits != [] {
      SumRatesBounds(habits[..|habits| - 1]);
    }
  }

  /** For habits whose stats were calculated, the average success rate is a percentage. */
  lemma AverageSuccessRateBounds(raw: seq<Habit>, nowMs: int)
    ensures var habits := seq(|raw|, i requires 0 <= i < |raw| => CalculateHabitStats(raw[i], nowMs));
      0 <= StatsCardOf(habits).avgSuccessRate <= 100
  {
    var habits := seq(|raw|, i requires 0 <= i < |raw| => CalculateHabitStats(raw[i], nowMs));
    assert forall i :: 0 <= i < |habits| ==> habits[i] == CalculateHabitStats(raw[i], nowMs);
    SumRatesBounds(habits);
    if habits != [] {
      Js.RoundMeanBounds(SumRates(habits), |habits|);
    }
  }

  // ---------------------------------------------------------------- period selector

  datatype Period = Today | Week | Month

  /** `getProgressValue()`: successes in the selected period. */
  function ProgressValue(item: HabitWithStats, period: Period): nat {
    match period
    case Week => item.completionsThisWeek
    case Month => item.completionsThisMonth
    case Today => if item.todayCompleted then 1 else 0
  }

  /** `getTargetValue()`: the number of days in the selected period. */
  function TargetValue(period: Period): (n: nat)
    ensures n > 0
  {
    match period
    case Week => 7
    case Month => 30
    case Today => 1
  }

  /**
   * Today's progress is 1 of 1 exactly when today is done; the week's and the month's are
   * counts of successes inside the window, the month's at least the week's.
   */
  lemma PeriodProgress(habit: Habit, nowMs: int)
    ensures var item := CalculateHabitStats(habit, nowMs);
      && TargetValue(Today) == 1 && TargetValue(Week) == 7 && TargetValue(Month) == 30
      && (ProgressValue(item, Today) == 1 <==> SucceededOn(EntriesOf(habit), DayOf(nowMs)))
      && ProgressValue(item, Today) <= TargetValue(Today)
      && ProgressValue(item, Week) == |Js.Filter(EntriesOf(habit), SuccessSince(nowMs - 7 * MsPerDay))|
      && ProgressValue(item, Month) == |Js.Filter(EntriesOf(habit), SuccessSince(nowMs - 30 * MsPerDay))|
      && ProgressValue(item, Week) <= ProgressValue(item, Month) <= SuccessfulCount(EntriesOf(habit))
  {
  }
}
