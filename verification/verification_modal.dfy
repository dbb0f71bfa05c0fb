/**
 * The PIN step of the verification dialog a child sees for an approval task:
 * a parent types the parent password to confirm the task on the spot.
 */
module VerificationModal {
  import opened Options
  import opened Model
  import KidsTaskView

  const IncorrectPin: string := "Incorrect PIN. Try again!"

  /** The PIN field and the error line under it. */
  datatype PinForm = PinForm(pin: string, error: string)

  datatype PinResult = PinResult(form: PinForm, verified: bool)

  /**
   * `handlePinSubmit`: with no (or an empty) parent password any PIN is
   * accepted; otherwise only the password itself. A rejected PIN sets the
   * error and empties the field.
   */
  function HandlePinSubmit(stored: Option<string>, form: PinForm): (r: PinResult)
    ensures r.verified <==> !Truthy(stored) || stored == Some(form.pin)
    ensures r.verified ==> r.form == form
    ensures !r.verified ==> r.form == PinForm("", IncorrectPin)
  {
    if !Truthy(stored) || stored == Some(form.pin) then PinResult(form, true)
    else PinResult(PinForm("", IncorrectPin), false)
  }

  /** Typing in the field replaces the PIN and clears the error. */
  function OnPinChange(form: PinForm, typed: string): (r: PinForm)
    ensures r.pin == typed && r.error == ""
  {
    PinForm(typed, "")
  }

  /** Once a parent password is set, the only PIN that passes is that password. */
  lemma OnlyThePasswordPasses(password: string, form: PinForm)
    requires password != ""
    ensures HandlePinSubmit(Some(password), form).verified <==> form.pin == password
  {
  }

  /** After a rejected PIN, typing the password and submitting again passes, with no error left. */
  lemma RetryAfterRejection(password: string, form: PinForm)
    requires password != "" && form.pin != password
    ensures var rejected := HandlePinSubmit(Some(password), form);
            var retried := HandlePinSubmit(Some(password), OnPinChange(rejected.form, password));
            !rejected.verified && rejected.form.error != "" &&
            retried.verified && retried.form.error == ""
  {
  }

  /**
   * The whole PIN path for one task: an accepted PIN runs `onInstantVerify`,
   * a rejected one leaves the store as it was.
   */
  function ConfirmWithPin(s: Store, childId: string, task: Task, form: PinForm, today: string): (r: Store)
    ensures HandlePinSubmit(s.parentPassword, form).verified ==> r == KidsTaskView.OnInstantVerify(s, childId, task, today)
    ensures Truthy(s.parentPassword) && s.parentPassword != Some(form.pin) ==> r == s
    ensures r.pendingApprovals == s.pendingApprovals
  {
    if HandlePinSubmit(s.parentPassword, form).verified then KidsTaskView.OnInstantVerify(s, childId, task, today)
    else s
  }
}
