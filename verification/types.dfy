/**
 * The records the client receives from the habit tracker's REST backend, reduced to the
 * fields the derivations read. A calendar date is an integer day number (days since the
 * Unix epoch, UTC): every stored date is taken to be midnight UTC of its day.
 */
module Types {
  import opened Wrappers

  /** One logged amount for a habit on one day; `value > 0` makes the day a success. */
  datatype HabitEntry = HabitEntry(date: int, value: int)

  datatype Frequency = Daily | Weekly | Monthly

  /**
   * A habit as the habits endpoint returns it. `habitEntries` is optional in the record;
   * every derivation treats a missing list as an empty one.
   */
  datatype Habit = Habit(
    id: string,
    name: string,
    description: Option<string>,
    color: string,
    frequency: Frequency,
    target: int,
    isActive: bool,
    habitEntries: Option<seq<HabitEntry>>)

  /** `habit.habitEntries || []`. */
  function EntriesOf(h: Habit): seq<HabitEntry> {
    h.habitEntries.GetOr([])
  }

  /** The payload sent to create a habit. */
  datatype CreateHabitData = CreateHabitData(
    name: string,
    description: Option<string>,
    color: string,
    frequency: Frequency,
    target: int)

  /** A badge as the badges endpoint returns it. */
  datatype Badge = Badge(
    id: string,
    name: string,
    description: string,
    icon: string,
    category: string,
    earned: bool,
    rarity: string,
    color: string,
    points: int)

  // ---------------------------------------------------------------- entry queries

  /**
   * `entries.find(e => day(e.date) === day)`, as an index: the position of the first entry
   * dated `day`, or `|s|` when there is none.
   */
  function FirstIndexOn(s: seq<HabitEntry>, day: int): (k: nat)
    ensures k <= |s|
    ensures forall j :: 0 <= j < k ==> s[j].date != day
    ensures k < |s| ==> s[k].date == day
  {
    if s == [] then 0
    else if s[0].date == day then 0
    else 1 + FirstIndexOn(s[1..], day)
  }

  /**
   * `entry?.value || 0` for the entry `find` returns on `day`: 0 when no entry is dated `day`,
   * and otherwise the value of the first entry dated `day`, whatever its sign.
   */
  function DayValue(s: seq<HabitEntry>, day: int): (v: int)
    ensures (forall j :: 0 <= j < |s| ==> s[j].date != day) ==> v == 0
    ensures FirstIndexOn(s, day) < |s| ==> v == s[FirstIndexOn(s, day)].value
    ensures v != 0 ==> FirstIndexOn(s, day) < |s| && s[FirstIndexOn(s, day)].value == v
  {
    var k := FirstIndexOn(s, day);
    if k < |s| then s[k].value else 0
  }

  /** The first entry found for `day` exists and has a positive value. */
  predicate SucceededOn(s: seq<HabitEntry>, day: int) {
    DayValue(s, day) > 0
  }

  /** A day succeeded exactly when the first entry dated that day exists and is positive. */
  lemma SucceededOnMeans(s: seq<HabitEntry>, day: int)
    ensures SucceededOn(s, day)
        <==> exists k :: 0 <= k < |s| && s[k].date == day && s[k].value > 0
                         && forall j :: 0 <= j < k ==> s[j].date != day
  {
    var k := FirstIndexOn(s, day);
    forall k' | 0 <= k' < |s| && s[k'].date == day && forall j :: 0 <= j < k' ==> s[j].date != day
      ensures k' == k
    {
    }
  }

  /** `entries.filter(e => e.value > 0).length`. */
  function SuccessfulCount(s: seq<HabitEntry>): (n: nat)
    ensures n <= |s|
  {
    if s == [] then 0
    else (if s[0].value > 0 then 1 else 0) + SuccessfulCount(s[1..])
  }

  /** The count of successful entries splits over a concatenation. */
  lemma {:induction false} SuccessfulCountAppend(a: seq<HabitEntry>, b: seq<HabitEntry>)
    ensures SuccessfulCount(a + b) == SuccessfulCount(a) + SuccessfulCount(b)
  {
    if a == [] {
      assert a + b == b;
    } else {
      assert (a + b)[1..] == a[1..] + b;
      SuccessfulCountAppend(a[1..], b);
    }
  }
}
