/**
 * The two streaks `getHabitAnalytics` reports (src/services/analytics.ts:49-84), as
 * specification functions over a habit's entry list, with what they mean proved about them.
 *
 * The current streak walks back day by day from today while the entry `find` returns for
 * that day has a positive value, and never walks past the date of the list's first entry.
 * The best streak is the longest run of consecutive successful ENTRIES of the list; calendar
 * gaps between entries do not break it.
 */
module Streaks {
  import opened Types
  import Js

  // ---------------------------------------------------------------- current streak

  /**
   * The number of days `day`, `day - 1`, ... not before `oldest`, counted until the first day
   * that did not succeed.
   */
  function StreakFrom(s: seq<HabitEntry>, day: int, oldest: int): (n: nat)
    ensures n == 0 || oldest <= day - n + 1
    decreases day - oldest + 1
  {
    if day < oldest || !SucceededOn(s, day) then 0
    else 1 + StreakFrom(s, day - 1, oldest)
  }

  /**
   * What the walk counts: every day of the streak succeeded and lies at or after `oldest`, and
   * the day just before it is either before `oldest` or did not succeed.
   */
  lemma {:induction false} StreakFromMeans(s: seq<HabitEntry>, day: int, oldest: int)
    ensures var n := StreakFrom(s, day, oldest);
      && (forall d :: day - n < d <= day ==> SucceededOn(s, d) && oldest <= d)
      && (day - n < oldest || !SucceededOn(s, day - n))
    decreases day - oldest + 1
  {
    if day >= oldest && SucceededOn(s, day) {
      StreakFromMeans(s, day - 1, oldest);
    }
  }

  /** The two conditions on `StreakFrom` determine it: nothing else satisfies them. */
  lemma {:induction false} StreakFromUnique(s: seq<HabitEntry>, day: int, oldest: int, n: nat)
    requires forall d :: day - n < d <= day ==> SucceededOn(s, d) && oldest <= d
    requires day - n < oldest || !SucceededOn(s, day - n)
    ensures n == StreakFrom(s, day, oldest)
    decreases n
  {
    if n > 0 {
      assert SucceededOn(s, day) && oldest <= day;
      forall d | day - 1 - (n - 1) < d <= day - 1
        ensures SucceededOn(s, d) && oldest <= d
      {
        assert day - n < d <= day;
      }
      assert day - 1 - (n - 1) == day - n;
      StreakFromUnique(s, day - 1, oldest, n - 1);
    }
  }

  /** The date the backward walk may not pass: the first entry's, or today's for no entries. */
  function Oldest(s: seq<HabitEntry>, today: int): int {
    if s == [] then today else s[0].date
  }

  /** The current streak of the (date-sorted) list `s` on day `today`. */
  function CurrentStreak(s: seq<HabitEntry>, today: int): (n: nat)
    ensures s == [] ==> n == 0
    ensures !SucceededOn(s, today) ==> n == 0
    ensures n == 0 || n <= today - Oldest(s, today) + 1
  {
    StreakFrom(s, today, Oldest(s, today))
  }

  /** Positive entries dated within `[lo, hi]`. */
  function PositiveBetween(lo: int, hi: int): HabitEntry -> bool {
    (e: HabitEntry) => e.value > 0 && lo <= e.date <= hi
  }

  function Positive(): HabitEntry -> bool {
    (e: HabitEntry) => e.value > 0
  }

  /** `SuccessfulCount` is the length of `filter(e => e.value > 0)`. */
  lemma {:induction false} SuccessfulCountIsFilter(s: seq<HabitEntry>)
    ensures SuccessfulCount(s) == |Js.Filter(s, Positive())|
  {
    if s != [] {
      SuccessfulCountIsFilter(s[1..]);
    }
  }

  /** Each day of a streak has its own successful entry, so there are at least as many of them. */
  lemma {:induction false} StreakHasDistinctEntries(s: seq<HabitEntry>, day: int, oldest: int)
    ensures StreakFrom(s, day, oldest)
         <= |Js.Filter(s, PositiveBetween(day - StreakFrom(s, day, oldest) + 1, day))|
    decreases day - oldest + 1
  {
    var n := StreakFrom(s, day, oldest);
    if n > 0 {
      var m := StreakFrom(s, day - 1, oldest);
      StreakHasDistinctEntries(s, day - 1, oldest);
      assert day - 1 - m + 1 == day - n + 1;
      OneMoreDay(s, day - n + 1, day, m);
    }
  }

  /** Extending a range of days by a day that succeeded adds at least one successful entry. */
  lemma OneMoreDay(s: seq<HabitEntry>, lo: int, day: int, m: int)
    requires lo <= day
    requires m <= |Js.Filter(s, PositiveBetween(lo, day - 1))|
    requires SucceededOn(s, day)
    ensures m + 1 <= |Js.Filter(s, PositiveBetween(lo, day))|
  {
    var earlier, onDay := PositiveBetween(lo, day - 1), PositiveBetween(day, day);
    var k := FirstIndexOn(s, day);
    assert onDay(s[k]);
    Js.FilterComplete(s, onDay, s[k]);
    var all := PositiveBetween(lo, day);
    forall e: HabitEntry
      ensures all(e) == (earlier(e) || onDay(e))
      ensures !(earlier(e) && onDay(e))
    {
    }
    Js.FilterDisjointUnion(s, earlier, onDay, all);
  }

  /** The current streak never exceeds the number of successful entries. */
  lemma CurrentStreakAtMostSuccessful(s: seq<HabitEntry>, today: int)
    ensures CurrentStreak(s, today) <= SuccessfulCount(s)
  {
    var oldest := Oldest(s, today);
    var n := StreakFrom(s, today, oldest);
    StreakHasDistinctEntries(s, today, oldest);
    Js.FilterImplies(s, PositiveBetween(today - n + 1, today), Positive());
    SuccessfulCountIsFilter(s);
  }

  // ---------------------------------------------------------------- best streak

  /** Entries `s[i..j]` all have a positive value. */
  predicate PositiveRun(s: seq<HabitEntry>, i: int, j: int) {
    0 <= i <= j <= |s| && forall k :: i <= k < j ==> s[k].value > 0
  }

  /** The `tempStreak` counter after the last entry: the length of the run of successes ending the list. */
  function TrailingRun(s: seq<HabitEntry>): (n: nat)
    ensures PositiveRun(s, |s| - n, |s|)
    ensures n == |s| || s[|s| - n - 1].value <= 0
  {
    if s == [] || s[|s| - 1].value <= 0 then 0
    else 1 + TrailingRun(s[..|s| - 1])
  }

  /** No run reaching the end of the list is longer than the trailing run. */
  lemma {:induction false} TrailingRunIsLongest(s: seq<HabitEntry>, i: int)
    requires PositiveRun(s, i, |s|)
    ensures |s| - i <= TrailingRun(s)
  {
    if i < |s| {
      var init := s[..|s| - 1];
      assert PositiveRun(init, i, |init|);
      TrailingRunIsLongest(init, i);
    }
  }

  /** The largest value the `tempStreak` counter reaches. */
  function BestStreak(s: seq<HabitEntry>): (n: nat)
    ensures n <= |s|
  {
    if s == [] then 0
    else
      var earlier := BestStreak(s[..|s| - 1]);
      var run := TrailingRun(s);
      if run > earlier then run else earlier
  }

  /** The best streak is the length of the longest run of successful entries. */
  lemma {:induction false} BestStreakIsLongestRun(s: seq<HabitEntry>)
    ensures exists i, j :: j - i == BestStreak(s) && PositiveRun(s, i, j)
    ensures forall i, j :: PositiveRun(s, i, j) ==> j - i <= BestStreak(s)
  {
    if s == [] {
      assert PositiveRun(s, 0, 0);
    } else {
      var init := s[..|s| - 1];
      BestStreakIsLongestRun(init);
      var run := TrailingRun(s);
      if run > BestStreak(init) {
        assert PositiveRun(s, |s| - run, |s|);
      } else {
        var i, j :| j - i == BestStreak(init) && PositiveRun(init, i, j);
        assert PositiveRun(s, i, j);
      }
      forall i, j | PositiveRun(s, i, j)
        ensures j - i <= BestStreak(s)
      {
        if j < |s| {
          assert PositiveRun(init, i, j);
        } else {
          TrailingRunIsLongest(s, i);
        }
      }
    }
  }

  /** A run of successful entries is counted in full by `SuccessfulCount`. */
  lemma {:induction false} RunIsCounted(s: seq<HabitEntry>, i: int, j: int)
    requires PositiveRun(s, i, j)
    ensures j - i <= SuccessfulCount(s)
  {
    assert s == s[..i] + s[i..j] + s[j..];
    SuccessfulCountAppend(s[..i] + s[i..j], s[j..]);
    SuccessfulCountAppend(s[..i], s[i..j]);
    AllSuccessfulCounted(s[i..j]);
  }

  lemma {:induction false} AllSuccessfulCounted(s: seq<HabitEntry>)
    requires PositiveRun(s, 0, |s|)
    ensures SuccessfulCount(s) == |s|
  {
    if s != [] {
      AllSuccessfulCounted(s[1..]);
    }
  }

  /** Some entry is successful whenever the count of successful entries is not zero. */
  lemma {:induction false} SomeSuccessful(s: seq<HabitEntry>)
    requires SuccessfulCount(s) > 0
    ensures exists k :: 0 <= k < |s| && s[k].value > 0
  {
    if s[0].value <= 0 {
      SomeSuccessful(s[1..]);
      var k :| 0 <= k < |s[1..]| && s[1..][k].value > 0;
      assert s[k + 1].value > 0;
    }
  }

  /** The best streak is at most the successful count, and zero exactly when that count is zero. */
  lemma BestStreakAndSuccessful(s: seq<HabitEntry>)
    ensures BestStreak(s) <= SuccessfulCount(s)
    ensures BestStreak(s) == 0 <==> SuccessfulCount(s) == 0
  {
    BestStreakIsLongestRun(s);
    var i, j :| j - i == BestStreak(s) && PositiveRun(s, i, j);
    RunIsCounted(s, i, j);
    if SuccessfulCount(s) > 0 {
      SomeSuccessful(s);
      var k :| 0 <= k < |s| && s[k].value > 0;
      assert PositiveRun(s, k, k + 1);
    }
  }
}
