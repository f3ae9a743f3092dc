/** The offline-account dialog: the typed name is trimmed, checked in a
  * fixed order, and an invalid name is used only after a second
  * confirmation. */
module LocalAccountDialog {
  import opened Wrappers
  import opened KotlinText

  /** The characters an offline name may hold: ASCII letters, digits and '_'. */
  predicate NameChar(c: char)
  {
    ('a' <= c <= 'z') || ('A' <= c <= 'Z') || ('0' <= c <= '9') || c == '_'
  }

  /** The supporting-text message, in the order the dialog tests. */
  datatype NameError = Empty | TooShort | TooLong | IllegalCharacters

  /** The first character outside the name set, if any: the position the
    * pattern `[^a-zA-Z0-9_]` finds. */
  function FirstIllegal(name: Str): (r: int)
    ensures -1 <= r < |name|
    ensures r == -1 <==> forall i :: 0 <= i < |name| ==> NameChar(name[i])
    ensures r >= 0 ==> !NameChar(name[r]) && forall i :: 0 <= i < r ==> NameChar(name[i])
    decreases |name|
  {
    if |name| == 0 then -1
    else if !NameChar(name[0]) then 0
    else
      var k := FirstIllegal(name[1..]);
      if k < 0 then -1 else k + 1
  }

  /** The supporting text's choice for the current name; None is no error. */
  function Check(name: Str): (r: Option<NameError>)
  {
    if |name| == 0 then Some(Empty)
    else if Utf16Length(name) <= 2 then Some(TooShort)
    else if Utf16Length(name) > 16 then Some(TooLong)
    else if FirstIllegal(name) >= 0 then Some(IllegalCharacters)
    else None
  }

  /** A name Minecraft accepts offline: 3 to 16 characters from the set. */
  predicate ValidName(name: Str)
  {
    3 <= |name| <= 16 && forall i :: 0 <= i < |name| ==> NameChar(name[i])
  }

  /** The dialog reports no error exactly for valid names, and reports each
    * error under its own condition, the earlier tests winning. The lengths
    * are Kotlin's, in UTF-16 units; a valid name is ASCII, so there the
    * two counts agree. */
  lemma CheckCases(name: Str)
    ensures Check(name).None? <==> ValidName(name)
    ensures Check(name) == Some(Empty) <==> |name| == 0
    ensures Check(name) == Some(TooShort) <==> 1 <= Utf16Length(name) <= 2
    ensures Check(name) == Some(TooLong) <==> Utf16Length(name) > 16
    ensures Check(name) == Some(IllegalCharacters) <==>
      3 <= Utf16Length(name) <= 16 && exists i :: 0 <= i < |name| && !NameChar(name[i])
  {
    if forall i :: 0 <= i < |name| ==> NameChar(name[i]) {
      assert forall i :: 0 <= i < |name| ==> InBmp(name[i]);
    }
  }

  /** Nine emoji are eighteen UTF-16 units: the name is too long, not
    * merely illegal. */
  lemma NineEmojiTooLong()
    ensures Check(seq(9, _ => '\U{1F600}')) == Some(TooLong)
  {
    var name := seq(9, _ => '\U{1F600}');
    assert forall i :: 0 <= i < |name| ==> !InBmp(name[i]);
  }

  /** The dialog's state: the trimmed text and whether the "use anyway"
    * alert is up. */
  datatype Dialog = Dialog(username: Str, showAlert: bool)

  const Opened: Dialog := Dialog("", false)

  /** What the user does. */
  datatype Action = Type(text: Str) | Confirm | AlertConfirm | AlertDismiss

  /** The dialog after an action and the name logged in by it, if any. The
    * dialog closes after a login. */
  datatype Outcome = Outcome(dialog: Dialog, login: Option<Str>)

  function Act(d: Dialog, a: Action): (r: Outcome)
    ensures a.Type? ==> r == Outcome(d.(username := Trim(a.text)), None)
    ensures a == Confirm ==> (r.login.Some? <==> ValidName(d.username))
    ensures a == Confirm && |d.username| > 0 && !ValidName(d.username) ==> r.dialog.showAlert
    ensures a == AlertConfirm ==> r.login == Some(d.username)
    ensures r.login.Some? ==> r.login.value == d.username
  {
    match a
    case Type(text) => Outcome(d.(username := Trim(text)), None)
    case Confirm =>
      if |d.username| == 0 then Outcome(d, None)
      else if Check(d.username).Some? then Outcome(d.(showAlert := true), None)
      else Outcome(d, Some(d.username))
    case AlertConfirm => Outcome(d.(showAlert := false), Some(d.username))
    case AlertDismiss => Outcome(d.(showAlert := false), None)
  }

  /** Confirming an empty name does nothing at all. */
  lemma EmptyConfirmDoesNothing(d: Dialog)
    requires d.username == ""
    ensures Act(d, Confirm) == Outcome(d, None)
  {
  }

  /** An invalid name is logged in only through the alert: confirming raises
    * the alert, and the alert's confirm logs the name in. */
  lemma InvalidNeedsSecondConfirm(d: Dialog)
    requires |d.username| > 0 && !ValidName(d.username)
    ensures Act(d, Confirm) == Outcome(d.(showAlert := true), None)
    ensures Act(Act(d, Confirm).dialog, AlertConfirm).login == Some(d.username)
  {
    CheckCases(d.username);
  }
}
