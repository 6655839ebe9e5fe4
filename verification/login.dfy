/**
 * The sign-in screen (`activities/LoginActivity.kt`): the check on opening
 * the app, and the Login button's validation and credential check.
 */
module LoginScreen {
  import opened Wrappers
  import opened Text
  import opened Prefs
  import opened CredentialStore
  import opened Validators
  import opened AppState

  const InvalidPassword: string := "Invalid password"
  const NotRegistered: string := "Invalid credentials. Register account first."

  /** The screen's fields: the two text fields and their error flags. */
  datatype LoginForm = LoginForm(email: string, password: string, emailError: bool, passwordError: bool)

  /** The form as the screen first shows it. */
  const EmptyForm: LoginForm := LoginForm("", "", false, false)

  /** The toast a failing validator shows; nothing for a pass. */
  function Toasts(v: Verdict): seq<string> {
    if v.Fail? then [v.message] else []
  }

  /**
   * `navigateTo()`: the sign-in screen is skipped for Main exactly when the
   * session names an account that exists.
   */
  function OnOpen(s: Store): (nav: Nav)
    ensures nav == Open(Main) <==>
              var who := GetString(s, SessionName, EmailKey).GetOr("");
              Contains(s, who, EmailKey) && Contains(s, who, PasswordKey)
    ensures nav != Open(Main) ==> nav == Stay
  {
    if IsAccountExist(s, Session(s)) then Open(Main) else Stay
  }

  /**
   * `isEmailPasswordValid()`: checks the email, and the password only if
   * the email passed; each check reached sets its field's error flag to
   * its failure and replaces the field by its trimmed text.
   */
  function IsEmailPasswordValid(p: Patterns, f: LoginForm): (r: Checked<LoginForm>)
    ensures r.ok <==> EmailAccepted(p, f.email) && PasswordAccepted(f.password)
    ensures r.form.email == Trim(f.email) && r.form.emailError == !EmailAccepted(p, f.email)
    ensures EmailAccepted(p, f.email) ==>
              r.form.password == Trim(f.password) && r.form.passwordError == !PasswordAccepted(f.password)
    ensures !EmailAccepted(p, f.email) ==> r.form.password == f.password && r.form.passwordError == f.passwordError
    ensures |r.toasts| == (if r.ok then 0 else 1)
    ensures !EmailAccepted(p, f.email) ==> r.toasts == [if HasText(f.email) then EnterValidEmail else EnterEmail]
    ensures EmailAccepted(p, f.email) && !PasswordAccepted(f.password) ==>
              r.toasts == [IsPasswordValid(NoFields, Given(Some(f.password))).message]
  {
    var e := IsEmailValid(p, NoFields, Given(Some(f.email)));
    var f1 := f.(emailError := e.Fail?, email := Trim(f.email));
    if e.Fail? then Checked(false, f1, Toasts(e))
    else
      var w := IsPasswordValid(NoFields, Given(Some(f.password)));
      Checked(w.Pass?, f1.(passwordError := w.Fail?, password := Trim(f.password)), Toasts(w))
  }

  /**
   * `checkCredentials()`: after validation, looks the trimmed email up and
   * compares the trimmed password; on a match records the session and
   * opens Main. Nothing else ever changes the state.
   */
  function CheckCredentials(p: Patterns, a: App, f: LoginForm): (r: Step<LoginForm>)
    ensures r.nav == Open(Main) <==>
              && EmailAccepted(p, f.email) && PasswordAccepted(f.password)
              && Contains(a.prefs, Trim(f.email), EmailKey)
              && GetString(a.prefs, Trim(f.email), PasswordKey) == Some(Trim(f.password))
    ensures r.nav != Open(Main) ==> r.nav == Stay && r.app == a
    ensures r.nav == Open(Main) ==>
              && r.app == a.(prefs := SetLoginCredentials(a.prefs, Credentials(Trim(f.email), Trim(f.password))))
              && r.toasts == []
    ensures r.form == IsEmailPasswordValid(p, f).form
    ensures |r.toasts| == (if r.nav == Open(Main) then 0 else 1)
    ensures !IsEmailPasswordValid(p, f).ok ==> r.toasts == IsEmailPasswordValid(p, f).toasts
    ensures IsEmailPasswordValid(p, f).ok && r.nav == Stay ==>
              r.toasts == [if Contains(a.prefs, Trim(f.email), EmailKey) && Contains(a.prefs, Trim(f.email), PasswordKey)
                           then InvalidPassword else NotRegistered]
  {
    ValidEmailIsNotEmpty(f.email);
    Decide(a, IsEmailPasswordValid(p, f))
  }

  /** An email without a registered account never signs in. */
  lemma UnknownAccountStays(p: Patterns, a: App, f: LoginForm)
    requires !IsAccountExist(a.prefs, Credentials(Trim(f.email), Trim(f.password)))
    ensures CheckCredentials(p, a, f).nav == Stay
  {
  }

  /** The part of `checkCredentials()` after validation, given its outcome. */
  function Decide(a: App, v: Checked<LoginForm>): (r: Step<LoginForm>)
    requires v.ok ==> v.form.email != []
    ensures r.form == v.form
    ensures !v.ok ==> r == Step(a, v.form, v.toasts, Stay)
    ensures v.ok ==> (r.nav == Open(Main) <==>
                        && Contains(a.prefs, v.form.email, EmailKey)
                        && GetString(a.prefs, v.form.email, PasswordKey) == Some(v.form.password))
    ensures r.nav != Open(Main) ==> r.nav == Stay && r.app == a
    ensures r.nav == Open(Main) ==>
              && r.app == a.(prefs := SetLoginCredentials(a.prefs, Credentials(v.form.email, v.form.password)))
              && r.toasts == []
    ensures v.ok && r.nav == Stay ==>
              r.toasts == [if Contains(a.prefs, v.form.email, EmailKey) && Contains(a.prefs, v.form.email, PasswordKey)
                           then InvalidPassword else NotRegistered]
  {
    if !v.ok then Step(a, v.form, v.toasts, Stay)
    else
      var c := New(a.prefs, v.form.email, v.form.password);
      if !IsAccountExist(a.prefs, c) then Step(a, v.form, [NotRegistered], Stay)
      else if !IsPasswordMatched(a.prefs, c) then Step(a, v.form, [InvalidPassword], Stay)
      else Step(a.(prefs := SetLoginCredentials(a.prefs, c)), v.form, [], Open(Main))
  }

  /** An email with text trims to something non-empty, so the lookup never falls back to the session. */
  lemma ValidEmailIsNotEmpty(s: string)
    ensures HasText(s) ==> Trim(s) != []
  {
    TrimEmptyIffBlank(s);
  }

  /** After a successful login, reopening the app skips the sign-in screen. */
  lemma LoginThenOpenSkipsSignIn(p: Patterns, a: App, f: LoginForm)
    requires CheckCredentials(p, a, f).nav == Open(Main)
    ensures OnOpen(CheckCredentials(p, a, f).app.prefs) == Open(Main)
  {
    var c := Credentials(Trim(f.email), Trim(f.password));
    assert IsAccountExist(a.prefs, c);
    SessionAccountExists(a.prefs, c);
  }

  /** The validation step sees only the trimmed fields: padding changes neither its result nor its toasts. */
  lemma ValidationIgnoresPadding(p: Patterns, e: string, pw: string, x: string, y: string)
    requires AllWhitespace(x) && AllWhitespace(y)
    ensures var padded := IsEmailPasswordValid(p, LoginForm(x + e + y, x + pw + y, false, false));
            var plain := IsEmailPasswordValid(p, LoginForm(e, pw, false, false));
            padded.ok == plain.ok && padded.toasts == plain.toasts
  {
    EmailIgnoresPadding(p, x, e, y);
    PasswordIgnoresPadding(x, pw, y);
  }

  /**
   * Two forms whose validation agrees and whose fields trim alike lead the
   * Login button to the same state, screen and toasts.
   */
  lemma SameTrimSameOutcome(p: Patterns, a: App, f: LoginForm, g: LoginForm)
    requires IsEmailPasswordValid(p, f).ok == IsEmailPasswordValid(p, g).ok
    requires IsEmailPasswordValid(p, f).toasts == IsEmailPasswordValid(p, g).toasts
    requires Trim(f.email) == Trim(g.email) && Trim(f.password) == Trim(g.password)
    ensures CheckCredentials(p, a, f).app == CheckCredentials(p, a, g).app
    ensures CheckCredentials(p, a, f).nav == CheckCredentials(p, a, g).nav
    ensures CheckCredentials(p, a, f).toasts == CheckCredentials(p, a, g).toasts
  {
    var v := IsEmailPasswordValid(p, f);
    var w := IsEmailPasswordValid(p, g);
    ValidEmailIsNotEmpty(f.email);
    ValidEmailIsNotEmpty(g.email);
    assert CheckCredentials(p, a, f) == Decide(a, v);
    assert CheckCredentials(p, a, g) == Decide(a, w);
  }

  /** Whitespace around either field never changes where the Login button leads, the state it leaves, nor its toasts. */
  lemma LoginIgnoresPadding(p: Patterns, a: App, e: string, pw: string, x: string, y: string)
    requires AllWhitespace(x) && AllWhitespace(y)
    ensures var padded := CheckCredentials(p, a, LoginForm(x + e + y, x + pw + y, false, false));
            var plain := CheckCredentials(p, a, LoginForm(e, pw, false, false));
            padded.app == plain.app && padded.nav == plain.nav && padded.toasts == plain.toasts
  {
    ValidationIgnoresPadding(p, e, pw, x, y);
    TrimIgnoresPadding(x, e, y);
    TrimIgnoresPadding(x, pw, y);
    SameTrimSameOutcome(p, a, LoginForm(x + e + y, x + pw + y, false, false), LoginForm(e, pw, false, false));
  }
}
