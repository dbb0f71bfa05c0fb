/**
 * The parent login screen: first-time password setup, and login against the
 * stored parent password.
 */
module ParentLogin {
  import opened Options

  const MinPasswordLength: nat := 4
  const TooShort: string := "Password must be at least 4 characters"
  const NoMatch: string := "Passwords do not match"
  const WrongPassword: string := "Incorrect password"

  /** The screen's state; `setup` is fixed when the screen opens. */
  datatype LoginForm = LoginForm(password: string, confirm: string, error: string, setup: bool)

  /** The screen as it opens: in setup mode exactly when no (or an empty) password is stored. */
  function OpenLogin(stored: Option<string>): (f: LoginForm)
    ensures f.setup <==> !Truthy(stored)
    ensures f.password == "" && f.confirm == "" && f.error == ""
  {
    LoginForm("", "", "", !Truthy(stored))
  }

  /** The form after a submit, the stored password after it, and whether the parent is now logged in. */
  datatype LoginResult = LoginResult(form: LoginForm, stored: Option<string>, loggedIn: bool)

  /**
   * `handleSubmit`: in setup mode the length is checked before the
   * confirmation, and only a valid pair is saved and logs in; in login mode the
   * typed password must equal the stored one, and a wrong one is cleared.
   */
  function HandleSubmit(stored: Option<string>, form: LoginForm): (r: LoginResult)
    ensures r.loggedIn ==> r.stored == Some(form.password)
    ensures form.setup ==> (r.loggedIn <==> |form.password| >= MinPasswordLength && form.password == form.confirm)
    ensures form.setup && |form.password| < MinPasswordLength ==> r == LoginResult(form.(error := TooShort), stored, false)
    ensures form.setup && |form.password| >= MinPasswordLength && form.password != form.confirm ==>
              r == LoginResult(form.(error := NoMatch), stored, false)
    ensures !form.setup ==> (r.loggedIn <==> Truthy(stored) && stored.value == form.password) && r.stored == stored
    ensures !form.setup && !r.loggedIn ==> r.form == form.(password := "", error := WrongPassword)
    ensures r.stored != stored ==> form.setup && r.loggedIn
    ensures !r.loggedIn ==> r.form.error != ""
  {
    if form.setup then
      if |form.password| < MinPasswordLength then LoginResult(form.(error := TooShort), stored, false)
      else if form.password != form.confirm then LoginResult(form.(error := NoMatch), stored, false)
      else LoginResult(form, Some(form.password), true)
    else if Truthy(stored) && stored.value == form.password then LoginResult(form, stored, true)
    else LoginResult(form.(password := "", error := WrongPassword), stored, false)
  }

  /**
   * After a successful setup the screen reopens in login mode, and logging in
   * succeeds with the chosen password and with nothing else.
   */
  lemma SetupThenLogin(stored: Option<string>, form: LoginForm, attempt: string)
    requires form.setup && HandleSubmit(stored, form).loggedIn
    ensures var saved := HandleSubmit(stored, form).stored;
            var next := OpenLogin(saved).(password := attempt);
            !next.setup && (HandleSubmit(saved, next).loggedIn <==> attempt == form.password)
  {
  }
}
