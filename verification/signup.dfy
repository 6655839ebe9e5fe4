/**
 * The registration screen (`activities/SignupActivity.kt`): four checks in
 * a row, then registration of the account and of the session.
 */
module SignupScreen {
  import opened Wrappers
  import opened Text
  import opened Prefs
  import opened CredentialStore
  import opened Validators
  import opened AppState
  import LoginScreen

  const Mismatch: string := "Password mismatched"
  const AlreadyRegistered: string := "Account already registered with this email."
  const SignupFailed: string := "Failed to signup"

  /** The three text fields, their error flags, and whether `RESULT_OK` was set for the sign-in screen. */
  datatype SignupForm = SignupForm(email: string, password: string, confirmPassword: string,
                                   emailError: bool, passwordError: bool, confirmPasswordError: bool,
                                   resultOk: bool)

  /** The form as the screen first shows it. */
  const EmptyForm: SignupForm := SignupForm("", "", "", false, false, false, false)

  /** How far the checks got: the first that failed, or none. */
  datatype Reached = EmailFailed | PasswordFailed | ConfirmFailed | Mismatched | AllPassed

  /**
   * The check that stops validation: email, password, confirmation, then
   * equality of the confirmation and the password as typed, untrimmed.
   */
  function FirstFailure(p: Patterns, email: string, password: string, confirm: string): Reached {
    if !EmailAccepted(p, email) then EmailFailed
    else if !PasswordAccepted(password) then PasswordFailed
    else if !PasswordAccepted(confirm) then ConfirmFailed
    else if confirm != password then Mismatched
    else AllPassed
  }

  /** What the checks decided, and the toasts they showed. */
  datatype Outcome = Outcome(reached: Reached, toasts: seq<string>)

  /**
   * The four checks of `isEmailPasswordValid()` in order, each run only if
   * the ones before it passed, on the fields as typed. Exactly one toast is
   * shown when a check fails, and the mismatch toast only for a mismatch.
   */
  function RunChecks(p: Patterns, email: string, password: string, confirm: string): (r: Outcome)
    ensures r.reached == FirstFailure(p, email, password, confirm)
    ensures |r.toasts| == (if r.reached == AllPassed then 0 else 1)
    ensures r.toasts == [Mismatch] <==> r.reached == Mismatched
    ensures r.reached == EmailFailed ==> r.toasts == [if HasText(email) then EnterValidEmail else EnterEmail]
    ensures r.reached == PasswordFailed ==> r.toasts == [IsPasswordValid(NoFields, Given(Some(password))).message]
    ensures r.reached == ConfirmFailed ==> r.toasts == [IsPasswordValid(NoFields, Given(Some(confirm))).message]
  {
    MismatchIsNotAValidatorMessage();
    var e := IsEmailValid(p, NoFields, Given(Some(email)));
    if e.Fail? then Outcome(EmailFailed, [e.message])
    else
      var w := IsPasswordValid(NoFields, Given(Some(password)));
      if w.Fail? then Outcome(PasswordFailed, [w.message])
      else
        var c := IsPasswordValid(NoFields, Given(Some(confirm)));
        if c.Fail? then Outcome(ConfirmFailed, [c.message])
        else if confirm == password then Outcome(AllPassed, [])
        else Outcome(Mismatched, [Mismatch])
  }

  /**
   * The fields after the checks stopped at `reached`: each check reached
   * replaces its field by the trimmed text and sets its error flag to its
   * failure. The confirmation check sets its flag to `true` whatever its
   * result, and the equality check then overwrites it with the mismatch.
   */
  function FieldsAfter(f: SignupForm, reached: Reached): SignupForm {
    var f1 := f.(emailError := reached == EmailFailed, email := Trim(f.email));
    if reached == EmailFailed then f1
    else
      var f2 := f1.(passwordError := reached == PasswordFailed, password := Trim(f.password));
      if reached == PasswordFailed then f2
      else
        var f3 := f2.(confirmPasswordError := true, confirmPassword := Trim(f.confirmPassword));
        if reached == ConfirmFailed then f3
        else f3.(confirmPasswordError := reached == Mismatched)
  }

  /** `isEmailPasswordValid()`: the checks, and the fields as they leave them. */
  function IsEmailPasswordValid(p: Patterns, f: SignupForm): (r: Checked<SignupForm>)
    ensures r.ok <==> FirstFailure(p, f.email, f.password, f.confirmPassword) == AllPassed
    ensures |r.toasts| == (if r.ok then 0 else 1)
    ensures r.toasts == [Mismatch] <==> FirstFailure(p, f.email, f.password, f.confirmPassword) == Mismatched
    ensures r.form == FieldsAfter(f, FirstFailure(p, f.email, f.password, f.confirmPassword))
    ensures r.toasts == RunChecks(p, f.email, f.password, f.confirmPassword).toasts
  {
    var o := RunChecks(p, f.email, f.password, f.confirmPassword);
    Checked(o.reached == AllPassed, FieldsAfter(f, o.reached), o.toasts)
  }

  /**
   * The fields after validation: the email is always trimmed and flagged
   * exactly when its check failed; the password and the confirmation are
   * trimmed once their checks are reached and untouched otherwise; the
   * confirmation's flag ends up raised unless every check passed.
   */
  lemma ValidatedFields(f: SignupForm, reached: Reached)
    ensures var g := FieldsAfter(f, reached);
            && g.email == Trim(f.email) && g.emailError == (reached == EmailFailed)
            && (reached != EmailFailed ==>
                  g.password == Trim(f.password) && g.passwordError == (reached == PasswordFailed))
            && (reached == EmailFailed ==> g.password == f.password && g.passwordError == f.passwordError)
            && (reached in {ConfirmFailed, Mismatched, AllPassed} ==>
                  g.confirmPassword == Trim(f.confirmPassword) && g.confirmPasswordError == (reached != AllPassed))
            && (reached in {EmailFailed, PasswordFailed} ==>
                  g.confirmPassword == f.confirmPassword && g.confirmPasswordError == f.confirmPasswordError)
            && g.resultOk == f.resultOk
  {
  }

  /**
   * `checkCredentials()`: after validation, refuses an email already
   * registered; otherwise stores the account with `set()` and, if both of
   * its commits succeeded, records the session, sets `RESULT_OK` and opens
   * Main. The database is never touched.
   */
  function CheckCredentials(p: Patterns, a: App, f: SignupForm, emailCommitted: bool, passwordCommitted: bool)
    : (r: Step<SignupForm>)
    ensures r.app.files == a.files && r.app.registry == a.registry
    ensures r.form == IsEmailPasswordValid(p, f).form.(resultOk := r.form.resultOk)
    ensures var c := Credentials(Trim(f.email), Trim(f.password));
            var isNew := FirstFailure(p, f.email, f.password, f.confirmPassword) == AllPassed && !IsAccountExist(a.prefs, c);
            && (r.nav == Open(Main) <==> isNew && emailCommitted && passwordCommitted)
            && (r.nav == Open(Main) ==>
                  && r.app.prefs == SetLoginCredentials(Set(a.prefs, c, true, true).store, c)
                  && r.form.resultOk && r.toasts == [])
            && (r.nav != Open(Main) ==> r.nav == Stay && r.form.resultOk == f.resultOk && |r.toasts| == 1)
            && (!isNew ==> r.app == a)
            && (FirstFailure(p, f.email, f.password, f.confirmPassword) == AllPassed && IsAccountExist(a.prefs, c) ==> r.toasts == [AlreadyRegistered])
            && (isNew && !(emailCommitted && passwordCommitted) ==>
                  r.app.prefs == Set(a.prefs, c, emailCommitted, passwordCommitted).store
                  && r.toasts == [SignupFailed])
    ensures FirstFailure(p, f.email, f.password, f.confirmPassword) != AllPassed ==>
              r.toasts == IsEmailPasswordValid(p, f).toasts
  {
    var v := IsEmailPasswordValid(p, f);
    OkFields(p, f);
    Proceed(a, v, emailCommitted, passwordCommitted)
  }

  /**
   * Validation keeps the `RESULT_OK` flag; fields that passed are the
   * trimmed text, and the email is then not empty.
   */
  lemma OkFields(p: Patterns, f: SignupForm)
    ensures var v := IsEmailPasswordValid(p, f);
            && v.form.resultOk == f.resultOk
            && (v.ok ==> v.form.email == Trim(f.email) && v.form.password == Trim(f.password) && v.form.email != [])
  {
    ValidatedFields(f, FirstFailure(p, f.email, f.password, f.confirmPassword));
    LoginScreen.ValidEmailIsNotEmpty(f.email);
  }

  /** `checkCredentials()` given the validation's outcome: stays with its toast, or goes on to register. */
  function Proceed(a: App, v: Checked<SignupForm>, emailCommitted: bool, passwordCommitted: bool)
    : (r: Step<SignupForm>)
    requires v.ok ==> v.form.email != []
    ensures !v.ok ==> r == Step(a, v.form, v.toasts, Stay)
    ensures v.ok ==> r == Register(a, v.form, Credentials(v.form.email, v.form.password), emailCommitted, passwordCommitted)
  {
    if !v.ok then Step(a, v.form, v.toasts, Stay)
    else Register(a, v.form, New(a.prefs, v.form.email, v.form.password), emailCommitted, passwordCommitted)
  }

  /**
   * The part of `checkCredentials()` after validation, for the instance `c`
   * built from the validated fields `g`: refuses an existing account;
   * otherwise `set()`, and on its success `setLoginCredentials()`,
   * `RESULT_OK` and Main.
   */
  function Register(a: App, g: SignupForm, c: Credentials, emailCommitted: bool, passwordCommitted: bool)
    : (r: Step<SignupForm>)
    ensures r.app.files == a.files && r.app.registry == a.registry
    ensures r.nav == Open(Main) <==> !IsAccountExist(a.prefs, c) && emailCommitted && passwordCommitted
    ensures r.nav == Open(Main) ==>
              && r.app.prefs == SetLoginCredentials(Set(a.prefs, c, true, true).store, c)
              && r.form == g.(resultOk := true) && r.toasts == []
    ensures r.nav != Open(Main) ==> r.nav == Stay && r.form == g && |r.toasts| == 1
    ensures IsAccountExist(a.prefs, c) ==> r.app == a && r.toasts == [AlreadyRegistered]
    ensures !IsAccountExist(a.prefs, c) && !(emailCommitted && passwordCommitted) ==>
              r.app.prefs == Set(a.prefs, c, emailCommitted, passwordCommitted).store && r.toasts == [SignupFailed]
  {
    if IsAccountExist(a.prefs, c) then Step(a, g, [AlreadyRegistered], Stay)
    else
      var w := Set(a.prefs, c, emailCommitted, passwordCommitted);
      if w.ok then Step(a.(prefs := SetLoginCredentials(w.store, c)), g.(resultOk := true), [], Open(Main))
      else Step(a.(prefs := w.store), g, [SignupFailed], Stay)
  }

  /**
   * A completed registration makes the same fields log in: the sign-in
   * screen accepts them and records the same session.
   */
  lemma SignupThenLogin(p: Patterns, a: App, f: SignupForm)
    requires CheckCredentials(p, a, f, true, true).nav == Open(Main)
    ensures var b := CheckCredentials(p, a, f, true, true).app;
            var login := LoginScreen.CheckCredentials(p, b, LoginScreen.LoginForm(f.email, f.password, false, false));
            login.nav == Open(Main) && Session(login.app.prefs) == Credentials(Trim(f.email), Trim(f.password))
  {
    var c := Credentials(Trim(f.email), Trim(f.password));
    var b := CheckCredentials(p, a, f, true, true).app;
    assert FirstFailure(p, f.email, f.password, f.confirmPassword) == AllPassed;
    assert b.prefs == SetLoginCredentials(Set(a.prefs, c, true, true).store, c);
    RegisteredAccountLogsIn(a.prefs, c);
    SessionRoundTrip(b.prefs, c);
  }

  /** The mismatch toast differs from every toast the email and password validators show. */
  lemma MismatchIsNotAValidatorMessage()
    ensures Mismatch !in {EnterEmail, EnterValidEmail, EnterPassword, PasswordTooShort, PasswordHasSpace}
  {
    assert Mismatch[1] != EnterEmail[1];
    assert Mismatch[1] != EnterValidEmail[1];
    assert Mismatch[1] != EnterPassword[1];
    assert Mismatch[10] != PasswordTooShort[10];
    assert Mismatch[10] != PasswordHasSpace[10];
  }

  /**
   * A confirmation that differs from an accepted password only by trailing
   * whitespace passes the password check alone, and the checks stop at the
   * comparison: the check trims, the comparison does not.
   */
  lemma PaddedConfirmationReachesMismatch(p: Patterns, email: string, password: string, x: string)
    requires EmailAccepted(p, email) && PasswordAccepted(password)
    requires AllWhitespace(x) && x != []
    ensures PasswordAccepted(password + x)
    ensures FirstFailure(p, email, password, password + x) == Mismatched
  {
    PaddedPasswordAccepted(password, x);
    assert |password + x| != |password|;
  }

  /** Trailing whitespace never turns an accepted password into a rejected one. */
  lemma PaddedPasswordAccepted(password: string, x: string)
    requires PasswordAccepted(password) && AllWhitespace(x)
    ensures PasswordAccepted(password + x)
  {
    TrimIgnoresTrailing(password, x);
  }

  /** On the screen, such a confirmation shows the mismatch toast and raises its flag. */
  lemma TrailingSpaceMismatches(p: Patterns, email: string, password: string, x: string)
    requires EmailAccepted(p, email) && PasswordAccepted(password)
    requires AllWhitespace(x) && x != []
    ensures var r := IsEmailPasswordValid(p, SignupForm(email, password, password + x, false, false, false, false));
            !r.ok && r.toasts == [Mismatch] && r.form.confirmPasswordError
  {
    PaddedConfirmationReachesMismatch(p, email, password, x);
    ValidatedFields(SignupForm(email, password, password + x, false, false, false, false), Mismatched);
  }
}
