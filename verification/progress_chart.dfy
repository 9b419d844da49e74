/**
 * `getProgressChartData(habits, days)` (src/services/analytics.ts:141-167): one row per day
 * for the last `days` days, oldest first. A row maps "date" to the day's label and each
 * habit's name to the day's entry value as a rounded percentage of the habit's target, capped
 * at 100. Rows are maps from key to cell; a later habit with the same name overwrites an
 * earlier one's cell, and a habit named "date" overwrites the label.
 */
module ProgressChart {
  import opened Types
  import Js

  /** A row's cell: the label of the row's day, or a habit's percentage. */
  datatype Cell = Label(day: int) | Percent(p: int)

  type Row = map<string, Cell>

  /** The key the day label is stored under. */
  const DateKey: string := "date"

  function Min(a: int, b: int): int {
    if a <= b then a else b
  }

  /** `Math.round(target > 0 ? Math.min((value / target) * 100, 100) : 0)`. */
  function Percentage(value: int, target: int): int {
    if target > 0 then Js.Round(Min(100 * value, 100 * target), target) else 0
  }

  /**
   * A cell is at most 100; it is 0 for a target of 0 or less and for no value, 100 once the
   * value reaches a positive target, and not negative for a value that is not negative.
   */
  lemma PercentageFacts(value: int, target: int)
    ensures Percentage(value, target) <= 100
    ensures target <= 0 ==> Percentage(value, target) == 0
    ensures value == 0 ==> Percentage(value, target) == 0
    ensures 0 < target <= value ==> Percentage(value, target) == 100
    ensures value >= 0 ==> Percentage(value, target) >= 0
  {
    if target > 0 {
      Js.RoundExact(100, target);
      Js.RoundExact(0, target);
      Js.RoundMonotone(Min(100 * value, 100 * target), 100 * target, target);
      if value >= 0 {
        Js.RoundMonotone(0, Min(100 * value, 100 * target), target);
      }
    }
  }

  /** A larger value never gives a smaller cell. */
  lemma PercentageMonotone(v1: int, v2: int, target: int)
    requires v1 <= v2
    ensures Percentage(v1, target) <= Percentage(v2, target)
  {
    if target > 0 {
      Js.RoundMonotone(Min(100 * v1, 100 * target), Min(100 * v2, 100 * target), target);
    }
  }

  /** The percentage written for habit `h` on `day`. */
  function CellValue(h: Habit, day: int): int {
    Percentage(DayValue(EntriesOf(h), day), h.target)
  }

  /** A habit with no entry on `day`, or with a target of 0 or less, gets 0 for that day. */
  lemma CellValueZero(h: Habit, day: int)
    requires h.target <= 0 || forall k :: 0 <= k < |EntriesOf(h)| ==> EntriesOf(h)[k].date != day
    ensures CellValue(h, day) == 0
  {
    PercentageFacts(DayValue(EntriesOf(h), day), h.target);
  }

  /** `dayData` once the first `n` habits have been written into it. */
  function RowUpTo(habits: seq<Habit>, n: nat, day: int): Row
    requires n <= |habits|
  {
    if n == 0 then map[DateKey := Label(day)]
    else RowUpTo(habits, n - 1, day)[habits[n - 1].name := Percent(CellValue(habits[n - 1], day))]
  }

  /** The finished row for `day`. */
  function RowFor(habits: seq<Habit>, day: int): Row {
    RowUpTo(habits, |habits|, day)
  }

  /** The number of rows: `days`, or none when it is 0 or less. */
  function RowCount(days: int): nat {
    if days > 0 then days else 0
  }

  /** The chart: row `k` is for the day `days - 1 - k` days before today. */
  function Chart(habits: seq<Habit>, days: int, today: int): (r: seq<Row>)
    ensures |r| == RowCount(days)
    ensures forall k :: 0 <= k < |r| ==> r[k] == RowFor(habits, today - (days - 1) + k)
  {
    var r := seq(RowCount(days), k => RowFor(habits, today - (days - 1) + k));
    assert forall k :: 0 <= k < RowCount(days) ==> r[k] == RowFor(habits, today - (days - 1) + k);
    r
  }

  /** The keys of a row are "date" and the names of the habits written so far. */
  lemma {:induction false} RowKeys(habits: seq<Habit>, n: nat, day: int)
    requires n <= |habits|
    ensures RowUpTo(habits, n, day).Keys == {DateKey} + set i | 0 <= i < n :: habits[i].name
  {
    if n > 0 {
      RowKeys(habits, n - 1, day);
      var before := set i | 0 <= i < n - 1 :: habits[i].name;
      var after := set i | 0 <= i < n :: habits[i].name;
      assert after == before + {habits[n - 1].name};
    }
  }

  /** A habit's cell holds its percentage unless a later habit has the same name. */
  lemma {:induction false} RowLastWriterWins(habits: seq<Habit>, n: nat, day: int, i: nat)
    requires i < n <= |habits|
    requires forall j :: i < j < n ==> habits[j].name != habits[i].name
    ensures habits[i].name in RowUpTo(habits, n, day)
    ensures RowUpTo(habits, n, day)[habits[i].name] == Percent(CellValue(habits[i], day))
  {
    if i < n - 1 {
      RowLastWriterWins(habits, n - 1, day, i);
    }
  }

  /** The label survives unless some habit is named "date". */
  lemma {:induction false} RowKeepsLabel(habits: seq<Habit>, n: nat, day: int)
    requires n <= |habits|
    requires forall j :: 0 <= j < n ==> habits[j].name != DateKey
    ensures DateKey in RowUpTo(habits, n, day)
    ensures RowUpTo(habits, n, day)[DateKey] == Label(day)
  {
    if n > 0 {
      RowKeepsLabel(habits, n - 1, day);
    }
  }

  /** Every cell of a row is the day's label or the percentage of a habit with that name. */
  lemma {:induction false} RowCells(habits: seq<Habit>, n: nat, day: int, key: string)
    requires n <= |habits|
    requires key in RowUpTo(habits, n, day)
    ensures RowUpTo(habits, n, day)[key] == Label(day)
         || exists i :: 0 <= i < n && habits[i].name == key
              && RowUpTo(habits, n, day)[key] == Percent(CellValue(habits[i], day))
  {
    if n > 0 && key != habits[n - 1].name {
      RowCells(habits, n - 1, day, key);
    }
  }

  /** Every percentage cell is at most 100, and not negative when no entry value is. */
  lemma RowCellsBounded(habits: seq<Habit>, day: int, key: string)
    requires key in RowFor(habits, day)
    ensures RowFor(habits, day)[key] == Label(day)
         || (RowFor(habits, day)[key].Percent? && RowFor(habits, day)[key].p <= 100)
    ensures (forall i, k :: 0 <= i < |habits| && 0 <= k < |EntriesOf(habits[i])| ==> EntriesOf(habits[i])[k].value >= 0)
         ==> RowFor(habits, day)[key] == Label(day) || RowFor(habits, day)[key].p >= 0
  {
    RowCells(habits, |habits|, day, key);
    if RowFor(habits, day)[key] != Label(day) {
      var i :| 0 <= i < |habits| && habits[i].name == key
        && RowFor(habits, day)[key] == Percent(CellValue(habits[i], day));
      var s := EntriesOf(habits[i]);
      PercentageFacts(DayValue(s, day), habits[i].target);
      var k := FirstIndexOn(s, day);
      if k < |s| {
        assert DayValue(s, day) == s[k].value;
      }
    }
  }

  /** The loop over the days, with the inner `forEach` over the habits (src/services/analytics.ts:144-165). */
  method GetProgressChartData(habits: seq<Habit>, days: int, today: int) returns (progressData: seq<Row>)
    ensures progressData == Chart(habits, days, today)
  {
    progressData := [];
    var i := days - 1;
    while i >= 0
      invariant (days <= 0 && i == days - 1) || -1 <= i < days
      invariant |progressData| == days - 1 - i
      invariant forall k :: 0 <= k < |progressData| ==> progressData[k] == RowFor(habits, today - (days - 1) + k)
    {
      var date := today - i;
      var dayData: Row := map[DateKey := Label(date)];
      var j := 0;
      while j < |habits|
        invariant 0 <= j <= |habits|
        invariant dayData == RowUpTo(habits, j, date)
      {
        var habit := habits[j];
        var rawValue := DayValue(EntriesOf(habit), date);
        dayData := dayData[habit.name := Percent(Percentage(rawValue, habit.target))];
        j := j + 1;
      }
      progressData := progressData + [dayData];
      i := i - 1;
    }
  }
}
