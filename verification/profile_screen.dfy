/**
 * The profile screen's rank label and its three guards (src/screens/ProfileScreen.tsx):
 * saving the display name, resetting the password and deleting the account. Only the
 * decisions are modelled; the requests and alerts that follow them are not.
 */
module ProfileScreen {
  import opened Wrappers
  import Js
  import opened Rank

  /** The tier and numeral the screen shows. */
  datatype RankLabel = RankLabel(tier: Tier, numeral: string)

  /** `tiers[tierIndex] || tiers[tiers.length - 1]` and `numerals[numeralIndex] || numerals[2]`. */
  function RankLabelOf(points: int): (r: RankLabel)
    ensures r.tier == Tiers[RankOf(points).tierIndex]
    ensures r.numeral == Numerals[RankOf(points).numeralIndex]
  {
    var rank := RankOf(points);
    RankLabel(Lookup(Tiers, rank.tierIndex, Tiers[|Tiers| - 1]), Lookup(Numerals, rank.numeralIndex, Numerals[2]))
  }

  /**
   * `handleSave`: the name to send, or nothing when the trimmed name is empty or there is no
   * token (`!token` holds for a missing token and for the empty string).
   */
  function HandleSave(editName: string, token: Option<string>): (r: Option<string>)
    ensures r.None? <==> Js.Trim(editName) == [] || token.None? || token.value == []
    ensures r.Some? ==> r.value == Js.Trim(editName) && r.value != []
  {
    var name := Js.Trim(editName);
    if name == [] || token.None? || token.value == [] then None else Some(name)
  }

  /** Saving depends on the name only through its trimmed form: a pre-trimmed name saves the same. */
  lemma SaveIgnoresSurroundingSpace(editName: string, token: Option<string>)
    ensures HandleSave(Js.Trim(editName), token) == HandleSave(editName, token)
  {
    Js.TrimIdempotent(editName);
  }

  /** The three fields of the password form. */
  datatype PasswordData = PasswordData(currentPassword: string, newPassword: string, confirmPassword: string)

  /** What `handlePasswordReset` does: reports the first failed check, or sends the request. */
  datatype PasswordOutcome =
    | MissingField
    | Mismatch
    | TooShort
    | Submit(currentPassword: string, newPassword: string)

  /** The shortest new password accepted, in UTF-16 code units. */
  const MinPasswordLength := 6

  /**
   * `handlePasswordReset`: an empty field is reported first, then differing new passwords,
   * then a new password shorter than 6 code units; only a form passing all three is sent, and
   * what is sent is the current and the new password.
   */
  function HandlePasswordReset(form: PasswordData): (r: PasswordOutcome)
    ensures r.Submit? <==>
      && form.currentPassword != []
      && form.newPassword != []
      && form.confirmPassword != []
      && form.newPassword == form.confirmPassword
      && Js.Utf16Length(form.newPassword) >= MinPasswordLength
    ensures r.Submit? ==> r.currentPassword == form.currentPassword && r.newPassword == form.newPassword
    ensures r == MissingField <==> form.currentPassword == [] || form.newPassword == [] || form.confirmPassword == []
    ensures r == Mismatch <==>
      && form.currentPassword != [] && form.newPassword != [] && form.confirmPassword != []
      && form.newPassword != form.confirmPassword
    ensures r == TooShort <==>
      && form.currentPassword != [] && form.newPassword != [] && form.confirmPassword != []
      && form.newPassword == form.confirmPassword
      && Js.Utf16Length(form.newPassword) < MinPasswordLength
    ensures r == TooShort ==> |form.newPassword| < MinPasswordLength
  {
    if form.currentPassword == [] || form.newPassword == [] || form.confirmPassword == [] then MissingField
    else if form.newPassword != form.confirmPassword then Mismatch
    else if Js.Utf16Length(form.newPassword) < MinPasswordLength then TooShort
    else Submit(form.currentPassword, form.newPassword)
  }

  /** The confirmation text account deletion requires. */
  const DeleteConfirmation: string := "DELETE"

  /** `handleDeleteAccount`: whether it goes on to ask for a final confirmation. */
  function HandleDeleteAccount(confirmText: string): (proceeds: bool)
    ensures proceeds <==> confirmText == DeleteConfirmation
  {
    confirmText == DeleteConfirmation
  }

  /** The confirmation is neither trimmed nor case-folded: near misses are refused. */
  lemma DeleteNeedsExactText()
    ensures HandleDeleteAccount("DELETE")
    ensures !HandleDeleteAccount("delete") && !HandleDeleteAccount("Delete")
    ensures !HandleDeleteAccount(" DELETE") && !HandleDeleteAccount("DELETE ") && !HandleDeleteAccount("")
  {
  }
}
