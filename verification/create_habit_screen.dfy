/**
 * The checks the create-habit form makes before it sends anything
 * (src/screens/CreateHabitScreen.tsx:31-49), and the payload it builds when they pass.
 */
module CreateHabitScreen {
  import opened Wrappers
  import Js
  import opened Types

  /** The form's state: the text fields as typed, the chosen colour and frequency. */
  datatype HabitForm = HabitForm(
    name: string,
    description: string,
    color: string,
    frequency: Frequency,
    targetCount: string)

  const NameError: string := "Please enter a habit name"
  const TargetError: string := "Please enter a valid target count"

  /** The most characters the target field accepts (`maxLength={2}`). */
  const TargetMaxLength := 2

  /**
   * `handleCreateHabit` up to the request: the alert it shows, or the payload it sends. A blank
   * name is reported before the target is looked at; a target that does not parse or is below 1
   * is reported next; otherwise the payload carries the trimmed name, the trimmed description
   * (absent when blank), the colour and frequency unchanged and the parsed target.
   */
  function HandleCreateHabit(form: HabitForm): (r: Result<CreateHabitData, string>)
    ensures Js.Trim(form.name) == [] ==> r == Err(NameError)
    ensures Js.Trim(form.name) != [] ==>
      (r == Err(TargetError) <==> Js.ParseInt(form.targetCount).None? || Js.ParseInt(form.targetCount).value < 1)
    ensures Js.Trim(form.name) != [] ==> r != Err(NameError)
    ensures r.Ok? <==>
      Js.Trim(form.name) != [] && Js.ParseInt(form.targetCount).Some? && Js.ParseInt(form.targetCount).value >= 1
    ensures r.Err? ==> r.error == NameError || r.error == TargetError
    ensures r.Ok? ==>
      && r.value.name == Js.Trim(form.name) && r.value.name != []
      && (r.value.description.None? <==> Js.Trim(form.description) == [])
      && (r.value.description.Some? ==> r.value.description.value == Js.Trim(form.description))
      && r.value.color == form.color
      && r.value.frequency == form.frequency
      && Js.ParseInt(form.targetCount) == Some(r.value.target)
      && r.value.target >= 1
  {
    var name := Js.Trim(form.name);
    if name == [] then Err(NameError)
    else
      var target := Js.ParseInt(form.targetCount);
      if target.None? || target.value < 1 then Err(TargetError)
      else
        var description := Js.Trim(form.description);
        Ok(CreateHabitData(
          name,
          if description == [] then None else Some(description),
          form.color,
          form.frequency,
          target.value))
  }

  /** `parseInt` of at most two characters is at most 99. */
  lemma ShortParseBound(s: string)
    requires |s| <= TargetMaxLength
    ensures Js.ParseInt(s).Some? ==> Js.ParseInt(s).value <= 99
  {
    var u := Js.Unsigned(Js.TrimStart(s));
    if !Js.HexPrefixed(u) {
      var digits := Js.DigitPrefix(u, 10);
      Js.DigitsValueBound(digits, 10);
      assert Js.Pow(10, |digits|) <= 100 by {
        assert Js.Pow(10, 0) == 1;
        assert Js.Pow(10, 1) == 10;
        assert Js.Pow(10, 2) == 100;
      }
    }
  }

  /** With the field's two-character limit, an accepted target lies in [1, 99]. */
  lemma AcceptedTargetRange(form: HabitForm)
    requires Js.Utf16Length(form.targetCount) <= TargetMaxLength
    ensures HandleCreateHabit(form).Ok? ==> 1 <= HandleCreateHabit(form).value.target <= 99
  {
    ShortParseBound(form.targetCount);
  }

  /**
   * Every target from 1 up, typed as its decimal numeral, is accepted with a non-blank name,
   * and it is the number sent.
   */
  lemma AcceptsEveryPositiveTarget(form: HabitForm, n: nat)
    requires Js.Trim(form.name) != []
    requires n >= 1
    requires form.targetCount == Js.Decimal(n)
    ensures HandleCreateHabit(form).Ok?
    ensures HandleCreateHabit(form).value.target == n
  {
    Js.ParseIntDecimal(n);
  }

  /** The payload's name and description are already trimmed: trimming them again changes nothing. */
  lemma PayloadIsTrimmed(form: HabitForm)
    requires HandleCreateHabit(form).Ok?
    ensures var data := HandleCreateHabit(form).value;
      Js.Trim(data.name) == data.name
      && (data.description.Some? ==> Js.Trim(data.description.value) == data.description.value)
  {
    Js.TrimIdempotent(form.name);
    Js.TrimIdempotent(form.description);
  }
}
