# Habit tracker client: derived analytics, rank and form checks in Dafny

This project models the logic of a habit-tracking mobile client. That logic takes the
records the REST backend returns and derives figures from them. It covers:

- **Per-habit analytics** (`src/services/analytics.ts`). The service sorts a habit's entries
  by date in place. It then counts successful entries, computes the success rate, and walks
  back from today for the current streak. It also finds the longest run of successful
  entries (the best streak) and builds a 30-day window.
- **Whole-account figures.** Per-habit analytics are folded into overall statistics. There
  is also a day-by-day progress chart of percentages of each habit's target, plus two
  per-habit comparison tables.
- **Rank classification.** The profile and badges screens both compute a rank from a user's
  points. Fifteen ascending thresholds give five tiers (Bronze to Platinum) of three numerals
  each.
- **Habit list statistics.** The habit list computes its own, simpler per-card figures and
  a summary card.
- **Badges screen.** It looks up icons and shapes the badge list.
- **Form checks.** The create-habit form and the profile screen's name, password and
  account-deletion forms validate their input.
- **API normalisers.** Two functions turn HTTP responses and errors into the app's
  `ApiResponse` record.

Conventions used throughout the model:

- A calendar date is an integer day number.
- "Today" is a parameter. On the habit list, "now" is a millisecond timestamp, `nowMs`.
- Entry values and percentages are integers. `Math.round(a / b)` is modelled exactly as
  rounding half up.
- Code that updates state step by step is written as methods with loops, each proved equal
  to a specification function. This applies to the in-place insertion sort, the streak loops,
  the 30-day window, the chart's nested loops and the rank loop. What the source promises is
  proved about those functions as lemmas.

Modules:

- `Wrappers`: `Option` and `Result`.
- `Js`: the JavaScript built-ins the code relies on:
  - `Math.round`;
  - `trim`;
  - UTF-16 `length`;
  - `parseInt`;
  - `filter`.
- `Types`: the records, and `find` by day.
- `DateSort`: the stable sort by date, as a function and as an in-place array method.
- `Streaks`: the current and best streaks.
- `Analytics`: `getHabitAnalytics`, `calculateOverallStats` and the comparison tables.
- `ProgressChart`: `getProgressChartData`.
- `Rank`: the shared threshold loop.
- `ProfileScreen`, `BadgesScreen`, `HabitsScreen`, `CreateHabitScreen` and `Api`: one
  module per source file.

Three behaviours of the code are worth knowing:

- **Rank for negative points.** For negative points the loop never fires, so the indexes
  stay `(0, 0)`: Bronze with numeral "III" (`Rank.NegativePoints`).
- **Entry list is sorted in place.** `getHabitAnalytics` sorts the habit's own array in
  place, and `Analytics.GetHabitAnalytics` states that the array is left sorted.
- **Best streak ignores calendar gaps.** It counts consecutive successful entries of the
  sorted list, so a missing day does not break it. The current streak, in contrast, walks
  calendar days.

## Model

| member | source | states |
|---|---|---|
| Js.Round | src/services/analytics.ts:47 | `Math.round(n / d)` is the nearest integer to n/d, with a half rounded up |
| Js.RoundPercentBounds | src/services/analytics.ts:47 | rounding `a / b * 100` with `0 <= a <= b` gives a percentage in [0, 100] |
| Js.RoundMeanBounds | src/services/analytics.ts:126 | the rounded mean of percentages is a percentage |
| Js.Trim | src/screens/CreateHabitScreen.tsx:44 | `trim()` never lengthens the string |
| Js.TrimShape | src/screens/CreateHabitScreen.tsx:44 | `trim()` is a contiguous slice of the input with no white space at either end |
| Js.TrimStartDropsWhiteSpace | src/screens/CreateHabitScreen.tsx:44 | what `trimStart` drops is all white space |
| Js.TrimEndDropsWhiteSpace | src/screens/CreateHabitScreen.tsx:44 | what `trimEnd` drops is all white space |
| Js.TrimEmptyIff | src/screens/CreateHabitScreen.tsx:32 | a name trims to empty exactly when it is all white space |
| Js.TrimIdempotent | src/screens/CreateHabitScreen.tsx:44 | trimming twice is trimming once |
| Js.Utf16Length | src/screens/ProfileScreen.tsx:201 | `length` counts UTF-16 code units: between one and two per character |
| Js.ParseInt | src/screens/CreateHabitScreen.tsx:37 | `parseInt` gives NaN exactly when no digit follows the white space, sign and `0x` prefix |
| Js.ParseIntDecimal | src/screens/CreateHabitScreen.tsx:37 | `parseInt` reads back every decimal numeral |
| Js.Filter | src/services/analytics.ts:45 | `filter` never lengthens the list |
| Js.FilterSound | src/services/analytics.ts:45 | `filter` keeps only elements of the input that satisfy the predicate |
| Js.FilterPartition | src/screens/BadgesScreen.tsx:149-150 | filtering by a predicate and by its negation splits the list: lengths add up and the multisets join to the input |
| Types.FirstIndexOn | src/services/analytics.ts:63 | `find` by day returns the first entry dated that day, or none when no entry is |
| Types.EntriesOf | src/services/analytics.ts:44 | the habit's entry list, with a missing list read as empty; `Analytics.GetHabitAnalytics` states the missing case |
| Types.DayValue | src/services/analytics.ts:92-95 | the value of the entry `find` returns for a day: 0 when no entry is dated that day, and otherwise the value of the first entry dated that day, negative values included |
| Types.SucceededOn | src/services/analytics.ts:63-65 | a day succeeds when the entry `find` returns for it is positive; `Types.SucceededOnMeans` states it |
| Types.SucceededOnMeans | src/services/analytics.ts:63-65 | a day succeeded exactly when the first entry dated that day exists and has a positive value |
| Types.SuccessfulCount | src/services/analytics.ts:45 | the number of `value > 0` entries is at most the number of entries; `Streaks.SuccessfulCountIsFilter` equates it with the `filter` length |
| Types.SuccessfulCountAppend | src/services/analytics.ts:45 | the count of `value > 0` entries adds over concatenation |
| DateSort.InsertPos | src/services/analytics.ts:44 | an entry is inserted after every entry with a date no later than its own and before every later one |
| DateSort.InsertByDate | src/services/analytics.ts:44 | inserting one entry lengthens the list by one; `DateSort.InsertIsPermutation`, `DateSort.SortIsSorted` and `DateSort.SortStable` state the rest |
| DateSort.SortByDate | src/services/analytics.ts:44 | the sort keeps the number of entries |
| DateSort.InsertIsPermutation | src/services/analytics.ts:44 | one insertion adds exactly the inserted entry to the multiset |
| DateSort.SortIsPermutation | src/services/analytics.ts:44 | the sort is a permutation of the entries |
| DateSort.SortIsSorted | src/services/analytics.ts:44 | the sort leaves the entries in ascending date order |
| DateSort.SortOfSorted | src/services/analytics.ts:55 | sorting an already sorted list changes nothing |
| DateSort.SortIdempotent | src/services/analytics.ts:55 | the second sort of `getHabitAnalytics` changes nothing |
| DateSort.SortStable | src/services/analytics.ts:44 | the sort is stable: entries of one day keep their relative order |
| DateSort.FindIsFirstOfDay | src/services/analytics.ts:63 | `find` by day returns the first of that day's entries |
| DateSort.DayValueSortInvariant | src/services/analytics.ts:92-95 | the value `find` reports for a day is the same before and after the sort |
| DateSort.SortKeepsSuccessfulCount | src/services/analytics.ts:44-45 | the sort keeps the number of successful entries |
| DateSort.InsertIntoPrefix | src/services/analytics.ts:44 | one insertion step of the in-place sort inserts the next entry into the sorted prefix |
| DateSort.SortByDateInPlace | src/services/analytics.ts:44 | the in-place sort leaves the array equal to the stable sort of its old contents |
| Streaks.StreakFrom | src/services/analytics.ts:57-72 | the backward walk never passes the oldest date |
| Streaks.StreakFromMeans | src/services/analytics.ts:57-72 | the backward walk counts days that each succeeded and are not before the oldest date, and stops at the first day that did not succeed or is too old |
| Streaks.StreakFromUnique | src/services/analytics.ts:57-72 | those two conditions determine the streak |
| Streaks.CurrentStreak | src/services/analytics.ts:57-72 | the streak is 0 with no entries or when today did not succeed, and never spans more days than lie between the first entry and today |
| Streaks.CurrentStreakAtMostSuccessful | src/services/analytics.ts:57-72 | the current streak is at most the number of successful entries |
| Streaks.TrailingRun | src/services/analytics.ts:75-84 | `tempStreak` is the length of the maximal run of successful entries ending the list |
| Streaks.TrailingRunIsLongest | src/services/analytics.ts:75-84 | no run reaching the end of the list is longer than `tempStreak` |
| Streaks.BestStreak | src/services/analytics.ts:75-84 | the best streak is at most the number of entries |
| Streaks.BestStreakIsLongestRun | src/services/analytics.ts:74-84 | the best streak is the length of a run of successful entries, and no such run is longer |
| Streaks.BestStreakAndSuccessful | src/services/analytics.ts:74-84 | the best streak is at most the successful count, and 0 exactly when that count is 0 |
| Analytics.SuccessRateBounds | src/services/analytics.ts:47 | the success rate is in [0, 100]; 0 with nothing successful, 100 when every entry is |
| Analytics.SuccessRate | src/services/analytics.ts:47 | `Math.round(successful / total * 100)`, 0 for no entries; `Analytics.SuccessRateBounds` states its range |
| Analytics.DayRecordOn | src/services/analytics.ts:92-97 | a window row is dated its day, completed exactly when its value is positive, and 0 when no entry has that date |
| Analytics.Last30Days | src/services/analytics.ts:86-98 | 30 rows for the days ending today, oldest first; each is its day's record: that day's date, the value `find` reports for it, and completed exactly when that value is positive |
| Analytics.Last30SortInvariant | src/services/analytics.ts:92 | the window is the same whether read from the sorted or the unsorted entries |
| Analytics.AnalyticsOf | src/services/analytics.ts:43-108 | `totalTracked` is the number of entries, `successfulDays` the number with `value > 0`, and `last30Days` the window of the entries |
| Analytics.AnalyticsCounts | src/services/analytics.ts:45-47 | the rate is in [0, 100], is the rate of the successful count over the entry count, and is 0 for no entries |
| Analytics.AnalyticsCurrentStreak | src/services/analytics.ts:57-72 | the current streak is the backward walk over the unsorted entries down to the earliest date; it is 0 for no entries or when today did not succeed, and at most the successful count |
| Analytics.AnalyticsBestStreak | src/services/analytics.ts:74-84 | the best streak is the longest run of successful entries in date order, at most the successful count, and 0 exactly when that count is 0 |
| Analytics.AnalyticsIdempotent | src/services/analytics.ts:44 | analysing entries already sorted by an earlier call gives the same result |
| Analytics.ComputeCurrentStreak | src/services/analytics.ts:58-72 | the `while` loop computes the current streak of the array |
| Analytics.ComputeBestStreak | src/services/analytics.ts:75-84 | the `forEach` loop computes the best streak of the array |
| Analytics.BuildLast30Days | src/services/analytics.ts:87-98 | the `for` loop builds the 30-day window |
| Analytics.GetHabitAnalytics | src/services/analytics.ts:43-108 | the array is left sorted by date, and the result is `Analytics.AnalyticsOf` of the old entries (of no entries for a missing list) |
| Analytics.MaxOf | src/services/analytics.ts:127 | `Math.max(...)` is at least each element and equal to one of them |
| Analytics.AnalyticsOfAll | src/services/analytics.ts:123 | `habits.map(getHabitAnalytics)`: one record per habit, in order, each extending the previous list (`Analytics.AnalyticsOfAllSnoc`) |
| Analytics.AnalyticsOfAllSnoc | src/services/analytics.ts:123 | the records of all habits are those of all but the last, followed by the last one's |
| Analytics.SumOf | src/services/analytics.ts:125-128 | the `reduce` sum of a field; it adds over appending one record (`Analytics.SumOfSnoc`) and `Analytics.OverallStatsTotals` states its totals |
| Analytics.SumOfSnoc | src/services/analytics.ts:125-128 | appending a record adds its field to the sum |
| Analytics.OverallStats | src/services/analytics.ts:111-137 | no habits give all zeros; active and total habits are the number of habits |
| Analytics.OverallStatsTotals | src/services/analytics.ts:123-128 | total successful days and total entries are the sums over the habits' raw entry lists |
| Analytics.OverallStatsAverage | src/services/analytics.ts:126 | the average success rate is the sum of the habits' rates divided by their number, rounded to the nearest integer, and lies in [0, 100] |
| Analytics.OverallStatsLongest | src/services/analytics.ts:127 | the longest current streak is at least every habit's, and is some habit's |
| Analytics.SuccessRateRowOf | src/services/analytics.ts:172-180 | a row carries the habit's name and colour, its successful and total entry counts, and their rate in [0, 100] |
| Analytics.SuccessRateData | src/services/analytics.ts:171-182 | one row per habit, in input order |
| Analytics.StreakRowOf | src/services/analytics.ts:186-193 | a row carries name and colour and the habit's current and best streaks from `getHabitAnalytics`; both are at most the successful count, the current one is 0 unless today succeeded, and the best is 0 exactly when nothing succeeded |
| Analytics.StreakComparisonData | src/services/analytics.ts:185-195 | one row per habit, in input order |
| Analytics.ComparisonMatchesOverall | src/services/analytics.ts:185-195 | the largest current streak of the streak table is the overall longest current streak |
| ProgressChart.PercentageFacts | src/services/analytics.ts:158-161 | a cell is at most 100; 0 for a target of 0 or less and for no value; 100 once the value reaches a positive target; not negative for a value that is not |
| ProgressChart.Percentage | src/services/analytics.ts:160-161 | `Math.round(min(value / target * 100, 100))`, 0 for a target of 0 or less; `ProgressChart.PercentageFacts` and `ProgressChart.PercentageMonotone` state its range and order |
| ProgressChart.PercentageMonotone | src/services/analytics.ts:160-161 | a larger value never gives a smaller cell |
| ProgressChart.CellValueZero | src/services/analytics.ts:153-161 | a day without an entry, or a habit without a positive target, gets 0 |
| ProgressChart.CellValue | src/services/analytics.ts:153-161 | a habit's cell for a day is the percentage of the value `find` reports; `ProgressChart.CellValueZero` states the 0 cases |
| ProgressChart.Chart | src/services/analytics.ts:141-167 | one row per day (none for a count of 0 or less), oldest first, ending today |
| ProgressChart.RowKeys | src/services/analytics.ts:150-162 | a row's keys are "date" and the habit names |
| ProgressChart.RowUpTo | src/services/analytics.ts:150-162 | `dayData` after the first n habits were written; `ProgressChart.RowCells` and `ProgressChart.RowLastWriterWins` state its cells |
| ProgressChart.RowFor | src/services/analytics.ts:150-162 | the finished row of a day; `ProgressChart.RowKeys` and `ProgressChart.RowCells` state its keys and cells |
| ProgressChart.RowLastWriterWins | src/services/analytics.ts:161 | a habit's cell holds its percentage unless a later habit has the same name |
| ProgressChart.RowKeepsLabel | src/services/analytics.ts:150 | the day label survives unless a habit is named "date" |
| ProgressChart.RowCells | src/services/analytics.ts:150-162 | every cell is the label or the percentage of a habit of that name |
| ProgressChart.RowCellsBounded | src/services/analytics.ts:158-161 | every percentage cell is at most 100, and not negative when no entry value is |
| ProgressChart.GetProgressChartData | src/services/analytics.ts:141-167 | the nested loops build exactly the chart |
| Rank.LastMet | src/screens/ProfileScreen.tsx:120-125 | the index the loop keeps is the last threshold reached, or none |
| Rank.RankOf | src/screens/ProfileScreen.tsx:118-127 | the tier and numeral indexes always lie inside the tables, so the `||` fallbacks are never taken |
| Rank.Lookup | src/screens/ProfileScreen.tsx:126-127 | the `or` fallback lookup gives the entry when the index is in range, the fallback otherwise |
| Rank.ClassifyPoints | src/screens/ProfileScreen.tsx:118-125 | the `for` loop computes the rank indexes; it is also the loop at src/screens/BadgesScreen.tsx:86-91 |
| Rank.ThresholdsAscending | src/screens/ProfileScreen.tsx:110-116 | the thresholds ascend strictly |
| Rank.LastMetIsLargest | src/screens/ProfileScreen.tsx:120-125 | a threshold is reached exactly when its index is at most the loop's; none is reached for negative points |
| Rank.LastMetIs | src/screens/ProfileScreen.tsx:120-125 | a reached threshold whose successor is not reached is the loop's index |
| Rank.NegativePoints | src/screens/ProfileScreen.tsx:118-125 | negative points give Bronze "III" |
| Rank.RankMonotone | src/screens/ProfileScreen.tsx:110-125 | more points never give a lower rank |
| Rank.RankBoundaries | src/screens/ProfileScreen.tsx:110-116 | 0 points is Bronze III, 1999 is Silver I, 2000 is Gold III, and 10400 or more is Platinum I |
| ProfileScreen.RankLabelOf | src/screens/ProfileScreen.tsx:126-127 | the label shown is the tier and numeral at the loop's indexes |
| ProfileScreen.HandleSave | src/screens/ProfileScreen.tsx:166 | saving stops exactly when the trimmed name is empty or the token is missing or empty; otherwise the trimmed name is sent |
| ProfileScreen.SaveIgnoresSurroundingSpace | src/screens/ProfileScreen.tsx:166 | a name and its trimmed form save alike |
| ProfileScreen.HandlePasswordReset | src/screens/ProfileScreen.tsx:190-204 | the request, carrying the current and new password, is sent exactly when all fields are filled, the new passwords match and have at least 6 code units; a missing field is reported exactly when a field is empty, a mismatch exactly when all are filled and the new ones differ, too short exactly when they match but are under 6 code units |
| ProfileScreen.HandleDeleteAccount | src/screens/ProfileScreen.tsx:231-234 | deletion goes on exactly when the text is "DELETE" |
| ProfileScreen.DeleteNeedsExactText | src/screens/ProfileScreen.tsx:231 | lower case, padding and the empty text are refused |
| BadgesScreen.RankLabelOf | src/screens/BadgesScreen.tsx:86-93 | the label shown is the tier and numeral at the loop's indexes |
| BadgesScreen.SameRankAsProfile | src/screens/BadgesScreen.tsx:92-93 | the badges screen and the profile screen show the same rank for all points, despite their different fallbacks |
| BadgesScreen.IconFound | src/screens/BadgesScreen.tsx:122-142 | every icon is found under its own name |
| BadgesScreen.IconFallback | src/screens/BadgesScreen.tsx:141-142 | a name of no icon gives the trophy |
| BadgesScreen.IconFor | src/screens/BadgesScreen.tsx:122-142 | the mapped icon, or the trophy when the name is not mapped; `BadgesScreen.IconFound` and `BadgesScreen.IconFallback` state both cases |
| BadgesScreen.FilteredBadges | src/screens/BadgesScreen.tsx:145-147 | "all" keeps the list as is; any other category gives the `filter` of the list by category, so exactly the badges of that category, in their original order and multiplicity |
| BadgesScreen.EarnedPartition | src/screens/BadgesScreen.tsx:149-150 | earned and not-earned lists split the filtered list: sizes add up, multisets join, and each badge is on the side its flag says |
| BadgesScreen.EarnedBadges | src/screens/BadgesScreen.tsx:149 | the earned badges of the filtered list; `BadgesScreen.EarnedPartition` states what it holds |
| BadgesScreen.NotEarnedBadges | src/screens/BadgesScreen.tsx:150 | the not-earned badges of the filtered list; `BadgesScreen.EarnedPartition` states what it holds |
| BadgesScreen.Displayed | src/screens/BadgesScreen.tsx:152-153 | a collapsed section shows the first min(6, n) badges, an expanded one all of them |
| HabitsScreen.CompletionsWithin | src/screens/HabitsScreen.tsx:66-79 | the successes within a look-back window are at most all successes |
| HabitsScreen.DayOf | src/screens/HabitsScreen.tsx:41 | today's date is the UTC day whose span of milliseconds contains the present instant |
| HabitsScreen.InstantOf | src/screens/HabitsScreen.tsx:67 | an entry's instant lies in its own day: the day of that instant is the entry's date |
| HabitsScreen.CompletionsWithinMonotone | src/screens/HabitsScreen.tsx:66-79 | a longer window never counts fewer successes |
| HabitsScreen.SucceededTodayCounts | src/screens/HabitsScreen.tsx:48-58 | a habit done today has at least one successful entry |
| HabitsScreen.CalculateHabitStats | src/screens/HabitsScreen.tsx:40-90 | done today exactly when today's first entry is positive; the streak is 1 exactly then, else 0; the best streak equals the successful count and is at least the streak; the rate is in [0, 100] and 0 for no entries; week ≤ month ≤ successful count |
| HabitsScreen.TodayCompletedMeans | src/screens/HabitsScreen.tsx:41-48 | done today means the first entry dated today exists and is positive |
| HabitsScreen.AgreesWithAnalytics | src/screens/HabitsScreen.tsx:51-63 | the card's rate equals the analytics rate, and its streak is at most the analytics current streak |
| HabitsScreen.StatsCardOf | src/screens/HabitsScreen.tsx:129-156 | completed today is the number of habits the done-today filter keeps, out of all habits; for a non-empty list, progress is that ratio as a rounded percentage and the average is the rounded mean of the success rates; progress is in [0, 100], 100 when all are done and 0 when none are; everything is 0 with no habits |
| HabitsScreen.CompletedTodayCounts | src/screens/HabitsScreen.tsx:130 | a habit done today is counted; all done gives the number of habits, none done gives 0 |
| HabitsScreen.AverageSuccessRateBounds | src/screens/HabitsScreen.tsx:134-136 | the average success rate of calculated habits is in [0, 100] |
| HabitsScreen.SumRates | src/screens/HabitsScreen.tsx:134-135 | the `reduce` sum of the habits' rates; `HabitsScreen.SumRatesBounds` bounds it |
| HabitsScreen.SumRatesBounds | src/screens/HabitsScreen.tsx:134-135 | with every rate in [0, 100], the sum lies in [0, 100 × the number of habits] |
| HabitsScreen.TargetValue | src/screens/HabitsScreen.tsx:173-179 | a period's target is positive |
| HabitsScreen.ProgressValue | src/screens/HabitsScreen.tsx:165-171 | the progress of the selected period; `HabitsScreen.PeriodProgress` states each period's value |
| HabitsScreen.PeriodProgress | src/screens/HabitsScreen.tsx:165-179 | targets are 1, 7 and 30; today's progress is 1 exactly when today is done; the week's and month's are the windowed successes, week ≤ month ≤ all |
| CreateHabitScreen.HandleCreateHabit | src/screens/CreateHabitScreen.tsx:31-49 | the form is accepted exactly when the trimmed name is not blank and the target parses to at least 1; a blank name is refused first; a target that is NaN or below 1 is refused next; otherwise the payload has the trimmed name, the trimmed description or none when blank, the colour and frequency unchanged and the parsed target |
| CreateHabitScreen.ShortParseBound | src/screens/CreateHabitScreen.tsx:140 | `parseInt` of at most two characters is at most 99 |
| CreateHabitScreen.AcceptedTargetRange | src/screens/CreateHabitScreen.tsx:37-41 | with the two-character field, an accepted target is in [1, 99] |
| CreateHabitScreen.AcceptsEveryPositiveTarget | src/screens/CreateHabitScreen.tsx:37-48 | every positive target typed as a numeral is accepted and sent as that number |
| CreateHabitScreen.PayloadIsTrimmed | src/screens/CreateHabitScreen.tsx:44-45 | the payload's name and description are already trimmed |
| Api.Prop | src/services/api.ts:51 | reading a property throws exactly on null and undefined |
| Api.HandleApiResponse | src/services/api.ts:50-61 | success with `data` exactly when `response.data` is truthy, otherwise failure "No data received" without data |
| Api.HandleApiError | src/services/api.ts:64-85 | never a success and never data; the message is the truthy server message, else the truthy error message, else "An unexpected error occurred" |
| Api.OptionalProp | src/services/api.ts:67 | `v?.key`: undefined on null and undefined, the property otherwise; `Api.HandleApiError` states how the message chain uses it |
| Api.ResponseMessage | src/services/api.ts:67 | `error.response?.data?.message`; `Api.HandleApiError` states that its truthy value wins |
| Api.ServerMessageWins | src/services/api.ts:67-84 | the server message wins over the error's own |
| Api.EmptyServerMessageGivesWay | src/services/api.ts:67-84 | an empty server message gives way to the error's own |
| Api.NoMessageGivesFixedText | src/services/api.ts:67-84 | an empty or missing message gives the fixed text |
| Api.MissingDataIsFailure | src/services/api.ts:50-61 | a response without `data`, or with empty `data`, is a failure saying no data was received |

## Left out

- The network, secure token storage, navigation, rendering, alerts and the request that
  follows each successful form check. The form functions return what would be sent, or
  which alert is shown.
- Floating point. Entry values, targets and counts are integers, and every `Math.round` of
  a quotient is exact rounding half up. The float products `(a / b) * 100` can round
  differently at exact halves; this is not modelled. Progress-bar widths are floats and are
  left out too.
- Clocks, time zones and locales.
  - "Today" and "now" are parameters.
  - Dates are UTC day numbers: `toISOString().split('T')[0]` and `substring(0, 10)` both
    become "the entry's day".
  - The chart's `toLocaleDateString` label is kept only as the day it stands for
    (`Label(day)`).
  - The habit list's filters read a fresh `new Date()` for each entry; the model uses one
    `nowMs` for all of them.
  - A `Date`-typed entry date, whose `toString()` is not an ISO string, is not modelled.
- Time of day. Every stored entry date is taken to be midnight UTC of its day. With a time
  of day, the source differs in three ways, none of them modelled:
  - it orders the entries of one day by time when it sorts;
  - its current-streak loop compares the present instant with the first entry's full
    instant;
  - the habit list's week and month windows compare full instants.
- Entry ids and other record fields that no derivation reads.
- The `HabitEntry` value is a plain integer. Negative values are allowed and give negative
  chart cells, as in the source.
- Analytics.OverallStats: works on values. The in-place sort that `getHabitAnalytics`
  performs on each habit's array is stated only by `Analytics.GetHabitAnalytics`, not by the
  overall figures or the comparison tables.
- ProgressChart.Chart: a row is a map. JavaScript's key order within an object is not
  modelled. The special `__proto__` key is not modelled either.
- ProgressChart.Chart: `days` is a required parameter. The source's default of 30 is not
  modelled; the analytics screen always passes the selected range.
- BadgesScreen.IconFallback: keys inherited from `Object.prototype` (such as `toString`) are
  not modelled. In the source, such a name yields a function instead of the trophy.
- ProfileScreen: the screen never stores the fetched user statistics, so its rank always
  shows 0 points. The model classifies any number of points rather than this wiring.
- HabitsScreen.StatsCardOf: the average is bounded only for habits whose statistics come
  from `CalculateHabitStats` (`HabitsScreen.AverageSuccessRateBounds`). Arbitrary records
  carry no such bound.
- Api.HandleApiResponse: JavaScript values are limited to undefined, null, booleans,
  integers, NaN, strings and plain objects. Getters, prototypes and `-0` are not modelled.
  `console.error` is left out.
- `parseInt` follows ECMAScript without a radix, over integers. The float result for very
  long digit strings is not modelled.
