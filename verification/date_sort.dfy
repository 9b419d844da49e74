/**
 * `entries.sort((a, b) => time(a.date) - time(b.date))` (src/services/analytics.ts:44, :55).
 * `Array.prototype.sort` is stable, so its result is determined: entries ordered by date,
 * entries sharing a date kept in their original order. `SortByDate` is that result as a
 * function (an insertion sort); `SortByDateInPlace` is the in-place sort on the array.
 */
module DateSort {
  import opened Types
  import Js

  predicate SortedByDate(s: seq<HabitEntry>) {
    forall i, j :: 0 <= i < j < |s| ==> s[i].date <= s[j].date
  }

  /**
   * Where the insertion sort puts `x` into `sorted`: scanning from the end, just after the
   * last element whose date is not later than `x`'s.
   */
  function InsertPos(sorted: seq<HabitEntry>, x: HabitEntry): (p: nat)
    ensures p <= |sorted|
    ensures forall k :: p <= k < |sorted| ==> sorted[k].date > x.date
    ensures p == 0 || sorted[p - 1].date <= x.date
  {
    if sorted == [] || sorted[|sorted| - 1].date <= x.date then |sorted|
    else InsertPos(sorted[..|sorted| - 1], x)
  }

  /** `sorted` with `x` inserted at `InsertPos`. */
  function InsertByDate(sorted: seq<HabitEntry>, x: HabitEntry): (r: seq<HabitEntry>)
    ensures |r| == |sorted| + 1
  {
    var p := InsertPos(sorted, x);
    sorted[..p] + [x] + sorted[p..]
  }

  /** The stable sort of `s` by date. */
  function SortByDate(s: seq<HabitEntry>): (r: seq<HabitEntry>)
    ensures |r| == |s|
  {
    if s == [] then []
    else InsertByDate(SortByDate(s[..|s| - 1]), s[|s| - 1])
  }

  /** Inserting adds exactly the inserted entry. */
  lemma InsertIsPermutation(sorted: seq<HabitEntry>, x: HabitEntry)
    ensures multiset(InsertByDate(sorted, x)) == multiset(sorted) + multiset{x}
  {
    var p := InsertPos(sorted, x);
    assert sorted == sorted[..p] + sorted[p..];
  }

  /** The sort is a permutation: it keeps every entry, as often as it occurs. */
  lemma {:induction false} SortIsPermutation(s: seq<HabitEntry>)
    ensures multiset(SortByDate(s)) == multiset(s)
  {
    if s != [] {
      var init, last := s[..|s| - 1], s[|s| - 1];
      SortIsPermutation(init);
      InsertIsPermutation(SortByDate(init), last);
      assert s == init + [last];
    }
  }

  lemma InsertKeepsSorted(sorted: seq<HabitEntry>, x: HabitEntry)
    requires SortedByDate(sorted)
    ensures SortedByDate(InsertByDate(sorted, x))
  {
    var p := InsertPos(sorted, x);
    var r := InsertByDate(sorted, x);
    forall i, j | 0 <= i < j < |r|
      ensures r[i].date <= r[j].date
    {
      if j < p {
        assert r[i] == sorted[i] && r[j] == sorted[j];
      } else if j == p {
        assert r[i] == sorted[i] && r[j] == x;
      } else if i < p {
        assert r[i] == sorted[i] && r[j] == sorted[j - 1];
      } else if i == p {
        assert r[i] == x && r[j] == sorted[j - 1];
      } else {
        assert r[i] == sorted[i - 1] && r[j] == sorted[j - 1];
      }
    }
  }

  /** The result of the sort is ordered by date. */
  lemma {:induction false} SortIsSorted(s: seq<HabitEntry>)
    ensures SortedByDate(SortByDate(s))
  {
    if s != [] {
      SortIsSorted(s[..|s| - 1]);
      InsertKeepsSorted(SortByDate(s[..|s| - 1]), s[|s| - 1]);
    }
  }

  /** Sorting a list that is already ordered by date leaves it as it is. */
  lemma {:induction false} SortOfSorted(s: seq<HabitEntry>)
    requires SortedByDate(s)
    ensures SortByDate(s) == s
  {
    if s != [] {
      var init := s[..|s| - 1];
      SortOfSorted(init);
      assert init + [s[|s| - 1]] == s;
    }
  }

  /** Sorting twice is sorting once: a second `sort` of the sorted array changes nothing. */
  lemma SortIdempotent(s: seq<HabitEntry>)
    ensures SortByDate(SortByDate(s)) == SortByDate(s)
  {
    SortIsSorted(s);
    SortOfSorted(SortByDate(s));
  }

  // ---------------------------------------------------------------- stability

  function OnDay(day: int): HabitEntry -> bool {
    (e: HabitEntry) => e.date == day
  }

  lemma InsertStable(sorted: seq<HabitEntry>, x: HabitEntry, day: int)
    ensures Js.Filter(InsertByDate(sorted, x), OnDay(day))
         == Js.Filter(sorted, OnDay(day)) + Js.Filter([x], OnDay(day))
  {
    var p := InsertPos(sorted, x);
    assert sorted == sorted[..p] + sorted[p..];
    Js.FilterMoveToEnd(sorted[..p], x, sorted[p..], OnDay(day));
  }

  /** The sort is stable: the entries of any one day keep their original relative order. */
  lemma {:induction false} SortStable(s: seq<HabitEntry>, day: int)
    ensures Js.Filter(SortByDate(s), OnDay(day)) == Js.Filter(s, OnDay(day))
  {
    if s != [] {
      var init, last := s[..|s| - 1], s[|s| - 1];
      var sortedInit := SortByDate(init);
      assert SortByDate(s) == InsertByDate(sortedInit, last);
      SortStable(init, day);
      InsertStable(sortedInit, last, day);
      assert s == init + [last];
      Js.FilterAppend(init, [last], OnDay(day));
    }
  }

  /** `find` by day returns the first of that day's entries in list order. */
  lemma {:induction false} FindIsFirstOfDay(s: seq<HabitEntry>, day: int)
    ensures FirstIndexOn(s, day) < |s| <==> Js.Filter(s, OnDay(day)) != []
    ensures FirstIndexOn(s, day) < |s| ==> s[FirstIndexOn(s, day)] == Js.Filter(s, OnDay(day))[0]
  {
    if s != [] && s[0].date != day {
      FindIsFirstOfDay(s[1..], day);
    }
  }

  /** Because the sort is stable, the entry found for a day is the same before and after it. */
  lemma DayValueSortInvariant(s: seq<HabitEntry>, day: int)
    ensures DayValue(SortByDate(s), day) == DayValue(s, day)
  {
    SortStable(s, day);
    FindIsFirstOfDay(s, day);
    FindIsFirstOfDay(SortByDate(s), day);
  }

  /** Sorting does not change how many entries are successful. */
  lemma {:induction false} SortKeepsSuccessfulCount(s: seq<HabitEntry>)
    ensures SuccessfulCount(SortByDate(s)) == SuccessfulCount(s)
  {
    if s != [] {
      var init, last := s[..|s| - 1], s[|s| - 1];
      SortKeepsSuccessfulCount(init);
      InsertKeepsSuccessfulCount(SortByDate(init), last);
      SuccessfulCountAppend(init, [last]);
      assert s == init + [last];
    }
  }

  lemma InsertKeepsSuccessfulCount(sorted: seq<HabitEntry>, x: HabitEntry)
    ensures SuccessfulCount(InsertByDate(sorted, x)) == SuccessfulCount(sorted) + SuccessfulCount([x])
  {
    var p := InsertPos(sorted, x);
    var lo, hi := sorted[..p], sorted[p..];
    assert sorted == lo + hi;
    SuccessfulCountAppend(lo + [x], hi);
    SuccessfulCountAppend(lo, [x]);
    SuccessfulCountAppend(lo, hi);
  }

  // ---------------------------------------------------------------- the in-place sort

  /** The insertion position is the one index past the later-dated tail with no later-dated element before it. */
  lemma InsertPosUnique(sorted: seq<HabitEntry>, x: HabitEntry, j: int)
    requires 0 <= j <= |sorted|
    requires forall k :: j <= k < |sorted| ==> sorted[k].date > x.date
    requires j == 0 || sorted[j - 1].date <= x.date
    ensures j == InsertPos(sorted, x)
  {
  }

  /** Sorting one more element inserts it into the sorted prefix. */
  lemma SortSnoc(orig: seq<HabitEntry>, i: int)
    requires 0 <= i < |orig|
    ensures SortByDate(orig[..i + 1]) == InsertByDate(SortByDate(orig[..i]), orig[i])
  {
    var s := orig[..i + 1];
    assert s[..|s| - 1] == orig[..i];
    assert s[|s| - 1] == orig[i];
  }

  /** One pass of the outer loop of the insertion sort extends the sorted prefix by one. */
  lemma {:induction false} SortStep(orig: seq<HabitEntry>, i: int, before: seq<HabitEntry>, after: seq<HabitEntry>)
    requires 0 <= i < |orig|
    requires before == SortByDate(orig[..i]) + orig[i..]
    requires after == InsertByDate(before[..i], before[i]) + before[i + 1..]
    ensures after == SortByDate(orig[..i + 1]) + orig[i + 1..]
  {
    var sorted := SortByDate(orig[..i]);
    assert |sorted| == i;
    assert before[..i] == sorted;
    assert before[i] == orig[i];
    assert before[i + 1..] == orig[i + 1..];
    SortSnoc(orig, i);
  }

  /**
   * One pass of the insertion sort: shifts every element of `a[..i]` dated later than `a[i]`
   * one place right and puts `a[i]` into the gap.
   */
  method InsertIntoPrefix(a: array<HabitEntry>, i: int)
    requires 0 <= i < a.Length
    modifies a
    ensures a[..] == InsertByDate(old(a[..i]), old(a[i])) + old(a[i + 1..])
  {
    var x := a[i];
    ghost var prefix, rest := a[..i], a[i + 1..];
    var j := i;
    while j > 0 && a[j - 1].date > x.date
      invariant 0 <= j <= i
      invariant forall k :: 0 <= k < j ==> a[k] == prefix[k]
      invariant forall k :: j < k <= i ==> a[k] == prefix[k - 1]
      invariant forall k :: i < k < a.Length ==> a[k] == rest[k - i - 1]
      invariant forall k :: j <= k < i ==> prefix[k].date > x.date
    {
      a[j] := a[j - 1];
      j := j - 1;
    }
    a[j] := x;
    InsertPosUnique(prefix, x, j);
    ShiftedIsInserted(a[..], prefix, x, rest, j);
  }

  /** The array after the shifting loop and the final store holds `x` inserted at `j`. */
  lemma ShiftedIsInserted(b: seq<HabitEntry>, prefix: seq<HabitEntry>, x: HabitEntry, rest: seq<HabitEntry>, j: int)
    requires 0 <= j <= |prefix| && |b| == |prefix| + 1 + |rest|
    requires forall k :: 0 <= k < j ==> b[k] == prefix[k]
    requires b[j] == x
    requires forall k :: j < k <= |prefix| ==> b[k] == prefix[k - 1]
    requires forall k :: |prefix| < k < |b| ==> b[k] == rest[k - |prefix| - 1]
    ensures b == prefix[..j] + [x] + prefix[j..] + rest
  {
    var inserted := prefix[..j] + [x] + prefix[j..];
    forall k | 0 <= k < |b|
      ensures b[k] == (inserted + rest)[k]
    {
      if k < j {
        assert inserted[k] == prefix[k];
      } else if k == j {
        assert inserted[k] == x;
      } else if k <= |prefix| {
        assert inserted[k] == prefix[k - 1];
      }
    }
  }

  /** Sorts `a` in place by date, stably (an insertion sort). */
  method SortByDateInPlace(a: array<HabitEntry>)
    modifies a
    ensures a[..] == SortByDate(old(a[..]))
  {
    ghost var orig := a[..];
    var i := 0;
    while i < a.Length
      invariant 0 <= i <= a.Length
      invariant a[..] == SortByDate(orig[..i]) + orig[i..]
    {
      ghost var before := a[..];
      InsertIntoPrefix(a, i);
      SortStep(orig, i, before, a[..]);
      i := i + 1;
    }
    assert orig[..a.Length] == orig;
  }
}
