/**
 * The password retrieval screen (`activities/ForgotPasswordActivity.kt`):
 * validates the email, shows it trimmed, and for a valid email shows the
 * password stored under the email as typed.
 */
module ForgotPasswordScreen {
  import opened Wrappers
  import opened Text
  import opened Prefs
  import opened CredentialStore
  import opened Validators
  import opened AppState
  import LoginScreen
  import AddressBookDatabase

  /** The email field and its error flag. */
  datatype ForgotForm = ForgotForm(email: string, emailError: bool)

  /** The form as the screen first shows it. */
  const EmptyForm: ForgotForm := ForgotForm("", false)

  /** Typing into the email field: the field takes the text and its error flag drops. */
  function OnEmailChange(f: ForgotForm, text: string): ForgotForm {
    ForgotForm(text, false)
  }

  /**
   * `forgotPassword()`: the email check sets the flag to its failure and the
   * field to the trimmed text. A failing check shows its toast; a passing
   * one builds an instance for the email as typed, untrimmed, and shows its
   * stored password, or nothing when none is stored.
   */
  function OnForgotPassword(p: Patterns, s: Store, f: ForgotForm): (r: Checked<ForgotForm>)
    ensures r.ok <==> EmailAccepted(p, f.email)
    ensures r.form == ForgotForm(Trim(f.email), !r.ok)
    ensures !r.ok ==> r.toasts == [if HasText(f.email) then EnterValidEmail else EnterEmail]
    ensures r.ok && Contains(s, f.email, PasswordKey) ==> r.toasts == [Prefs.Open(s, f.email)[PasswordKey]]
    ensures r.ok && !Contains(s, f.email, PasswordKey) ==> r.toasts == []
  {
    var e := IsEmailValid(p, NoFields, Given(Some(f.email)));
    LoginScreen.ValidEmailIsNotEmpty(f.email);
    Answer(s, f, e)
  }

  /** `forgotPassword()` given the email check's verdict. */
  function Answer(s: Store, f: ForgotForm, e: Verdict): (r: Checked<ForgotForm>)
    requires e.Pass? ==> f.email != []
    ensures r.ok == e.Pass? && r.form == ForgotForm(Trim(f.email), e.Fail?)
    ensures e.Fail? ==> r.toasts == [e.message]
    ensures e.Pass? ==> r.toasts == (if Contains(s, f.email, PasswordKey) then [Prefs.Open(s, f.email)[PasswordKey]] else [])
  {
    var g := ForgotForm(Trim(f.email), e.Fail?);
    if e.Fail? then Checked(false, g, [e.message])
    else
      var stored := GetPassword(s, New(s, f.email, ""));
      Checked(true, g, if stored.Some? then [stored.value] else [])
  }

  /**
   * After registering an account and recording its session, asking for the
   * password with the registered email, typed exactly, shows that password.
   */
  lemma RetrievesRegisteredPassword(p: Patterns, s: Store, c: Credentials)
    requires EmailAccepted(p, c.email)
    ensures var t := SetLoginCredentials(Set(s, c, true, true).store, c);
            OnForgotPassword(p, t, ForgotForm(c.email, false)).toasts == [c.password]
  {
    RegisteredAccountLogsIn(s, c);
  }

  /** An email with leading whitespace passes the email check exactly when the email does. */
  lemma PaddingKeepsEmailVerdict(p: Patterns, x: string, e: string)
    requires AllWhitespace(x)
    ensures Trim(x + e) == Trim(e)
    ensures EmailAccepted(p, x + e) <==> EmailAccepted(p, e)
  {
    assert x + e + [] == x + e;
    TrimIgnoresPadding(x, e, []);
    TrimEmptyIffBlank(x + e);
    TrimEmptyIffBlank(e);
  }

  /**
   * The lookup uses the email as typed, while sign-in trims it: after an
   * account is registered, its email typed with leading whitespace passes
   * the check but retrieves nothing, unless something is stored under that
   * padded name.
   */
  lemma PaddedEmailRetrievesNothing(p: Patterns, s: Store, c: Credentials, x: string)
    requires EmailAccepted(p, c.email)
    requires AllWhitespace(x) && x != [] && x + c.email !in s
    ensures var r := OnForgotPassword(p, Set(s, c, true, true).store, ForgotForm(x + c.email, false));
            r.ok && r.toasts == []
  {
    PaddingKeepsEmailVerdict(p, x, c.email);
    assert |x + c.email| != |c.email|;
    NothingStoredElsewhere(s, c, x + c.email);
  }

  /** Registering an account stores nothing under a name that held nothing before. */
  lemma NothingStoredElsewhere(s: Store, c: Credentials, n: string)
    requires n != c.email && n !in s
    ensures !Contains(Set(s, c, true, true).store, n, PasswordKey)
  {
    assert SameNamespace(Set(s, c, true, true).store, s, n);
  }

  /**
   * The same padded email signs in with the account's password, when the
   * account was stored trimmed, as sign-up stores it.
   */
  lemma PaddedEmailSignsIn(p: Patterns, s: Store, c: Credentials, x: string)
    requires EmailAccepted(p, c.email) && PasswordAccepted(c.password)
    requires Trim(c.email) == c.email && Trim(c.password) == c.password
    requires AllWhitespace(x)
    ensures var t := Set(s, c, true, true).store;
            LoginScreen.CheckCredentials(p, App(t, map[], AddressBookDatabase.Start),
                                         LoginScreen.LoginForm(x + c.email, c.password, false, false)).nav == Open(Main)
  {
    PaddingKeepsEmailVerdict(p, x, c.email);
    SetRegisters(s, c, true, true);
  }
}
