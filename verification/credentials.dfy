/**
 * The credential store (`utils/Credentials.kt`): an account namespace named
 * by the email holds that account's `"email"` and `"password"`; the fixed
 * namespace `"activeLoginInfo"` holds the same two keys for whoever is
 * logged in. An instance is either a lookup for a given email or, built
 * with no arguments, a handle on the active session.
 *
 * Every write ending in `commit()` takes the commit's outcome as an input:
 * the edit reaches the in-memory namespace either way and the outcome only
 * steers the caller. Writes ending in `apply()` cannot fail.
 */
module CredentialStore {
  import opened Wrappers
  import opened Prefs

  const SessionName: string := "activeLoginInfo"
  const EmailKey: string := "email"
  const PasswordKey: string := "password"

  /** An instance: its email (which also names its account namespace) and its password. */
  datatype Credentials = Credentials(email: string, password: string)

  /** The store after an edit finished by `commit()`, and what the commit returned. */
  datatype Committed = Committed(store: Store, ok: bool)

  /**
   * The constructor: when both arguments are empty the instance takes the
   * active session's email and password (each defaulting to `""`);
   * otherwise it keeps its arguments as given.
   */
  function New(s: Store, email: string, password: string): (c: Credentials)
    ensures email != "" || password != "" ==> c == Credentials(email, password)
    ensures email == "" && password == "" ==>
              && c.email == GetString(s, SessionName, EmailKey).GetOr("")
              && c.password == GetString(s, SessionName, PasswordKey).GetOr("")
  {
    if email == "" && password == "" then
      Credentials(GetString(s, SessionName, EmailKey).GetOr(""),
                  GetString(s, SessionName, PasswordKey).GetOr(""))
    else
      Credentials(email, password)
  }

  /** The no-argument constructor: a handle on the active session. */
  function Session(s: Store): Credentials {
    New(s, "", "")
  }

  /** `getEmail()`: the email stored in the instance's account namespace, if any. */
  function GetEmail(s: Store, c: Credentials): Option<string> {
    GetString(s, c.email, EmailKey)
  }

  /** `getPassword()`: the password stored in the instance's account namespace, if any. */
  function GetPassword(s: Store, c: Credentials): Option<string> {
    GetString(s, c.email, PasswordKey)
  }

  /** `isAccountExist()`: the account namespace holds both keys. */
  predicate IsAccountExist(s: Store, c: Credentials) {
    Contains(s, c.email, EmailKey) && Contains(s, c.email, PasswordKey)
  }

  /** `isPasswordMatched()`: a password is stored and it is the instance's. */
  predicate IsPasswordMatched(s: Store, c: Credentials) {
    GetPassword(s, c) == Some(c.password)
  }

  /**
   * `set()`: writes the email, then (only if that commit succeeded) the
   * password, into the account namespace; succeeds only if both commits do.
   * Nothing outside the two keys of the account namespace changes.
   */
  function Set(s: Store, c: Credentials, emailCommitted: bool, passwordCommitted: bool): (r: Committed)
    ensures r.ok <==> emailCommitted && passwordCommitted
    ensures GetEmail(r.store, c) == Some(c.email)
    ensures GetPassword(r.store, c) == (if emailCommitted then Some(c.password) else GetPassword(s, c))
    ensures forall k :: k != EmailKey && k != PasswordKey ==>
              GetString(r.store, c.email, k) == GetString(s, c.email, k)
    ensures forall n :: n != c.email ==> SameNamespace(r.store, s, n)
  {
    var afterEmail := PutString(s, c.email, EmailKey, c.email);
    if !emailCommitted then Committed(afterEmail, false)
    else Committed(PutString(afterEmail, c.email, PasswordKey, c.password), passwordCommitted)
  }

  /**
   * `get()`: the stored email and password when the account exists, and
   * nothing otherwise.
   */
  function Get(s: Store, c: Credentials): (r: seq<string>)
    ensures r == [] <==> !IsAccountExist(s, c)
    ensures r != [] ==> |r| == 2 && GetEmail(s, c) == Some(r[0]) && GetPassword(s, c) == Some(r[1])
  {
    if IsAccountExist(s, c) then [GetEmail(s, c).value, GetPassword(s, c).value] else []
  }

  /**
   * `setLoginCredentials()`: records the instance as the active session
   * (an `apply()`, so it always happens); no other namespace changes.
   */
  function SetLoginCredentials(s: Store, c: Credentials): (r: Store)
    ensures GetString(r, SessionName, EmailKey) == Some(c.email)
    ensures GetString(r, SessionName, PasswordKey) == Some(c.password)
    ensures forall k :: k != EmailKey && k != PasswordKey ==>
              GetString(r, SessionName, k) == GetString(s, SessionName, k)
    ensures forall n :: n != SessionName ==> SameNamespace(r, s, n)
  {
    PutString(PutString(s, SessionName, EmailKey, c.email), SessionName, PasswordKey, c.password)
  }

  /**
   * `clearLoginCredentials()`: removes both keys of the active session and
   * reports the commit; no other namespace changes.
   */
  function ClearLoginCredentials(s: Store, committed: bool): (r: Committed)
    ensures r.ok == committed
    ensures !Contains(r.store, SessionName, EmailKey) && !Contains(r.store, SessionName, PasswordKey)
    ensures forall k :: k != EmailKey && k != PasswordKey ==>
              GetString(r.store, SessionName, k) == GetString(s, SessionName, k)
    ensures forall n :: n != SessionName ==> SameNamespace(r.store, s, n)
  {
    Committed(Remove(Remove(s, SessionName, EmailKey), SessionName, PasswordKey), committed)
  }

  /** `clearAccountPreferences()`: removes both keys of the account namespace. */
  function ClearAccountPreferences(s: Store, c: Credentials, committed: bool): (r: Committed)
    ensures r.ok == committed
    ensures !Contains(r.store, c.email, EmailKey) && !Contains(r.store, c.email, PasswordKey)
    ensures forall k :: k != EmailKey && k != PasswordKey ==>
              GetString(r.store, c.email, k) == GetString(s, c.email, k)
    ensures forall n :: n != c.email ==> SameNamespace(r.store, s, n)
  {
    Committed(Remove(Remove(s, c.email, EmailKey), c.email, PasswordKey), committed)
  }

  /**
   * `clearAccount()`: clears the active session first and the account
   * namespace only if that commit succeeded; succeeds only if both commits
   * do. Namespaces other than these two never change.
   */
  function ClearAccount(s: Store, c: Credentials, sessionCommitted: bool, accountCommitted: bool): (r: Committed)
    ensures r.ok <==> sessionCommitted && accountCommitted
    ensures !Contains(r.store, SessionName, EmailKey) && !Contains(r.store, SessionName, PasswordKey)
    ensures sessionCommitted ==>
              && !Contains(r.store, c.email, EmailKey) && !Contains(r.store, c.email, PasswordKey)
              && !IsAccountExist(r.store, c) && GetPassword(r.store, c) == None
    ensures forall k :: k != EmailKey && k != PasswordKey ==>
              GetString(r.store, SessionName, k) == GetString(s, SessionName, k)
    ensures forall k :: k != EmailKey && k != PasswordKey ==>
              GetString(r.store, c.email, k) == GetString(s, c.email, k)
    ensures !sessionCommitted && c.email != SessionName ==> SameNamespace(r.store, s, c.email)
    ensures forall n :: n != SessionName && n != c.email ==> SameNamespace(r.store, s, n)
  {
    var session := ClearLoginCredentials(s, sessionCommitted);
    if !session.ok then session
    else ClearAccountPreferences(session.store, c, accountCommitted)
  }

  /** A successful `set()` registers the account: it exists, its password matches, and `get()` returns it. */
  lemma SetRegisters(s: Store, c: Credentials, emailCommitted: bool, passwordCommitted: bool)
    requires Set(s, c, emailCommitted, passwordCommitted).ok
    ensures var t := Set(s, c, emailCommitted, passwordCommitted).store;
            IsAccountExist(t, c) && IsPasswordMatched(t, c) && Get(t, c) == [c.email, c.password]
  {
  }

  /** `set()` for one email never changes what an instance for another email sees. */
  lemma SetIsolated(s: Store, c: Credentials, d: Credentials, emailCommitted: bool, passwordCommitted: bool)
    requires c.email != d.email
    ensures var t := Set(s, c, emailCommitted, passwordCommitted).store;
            && (IsAccountExist(t, d) <==> IsAccountExist(s, d))
            && (IsPasswordMatched(t, d) <==> IsPasswordMatched(s, d))
            && Get(t, d) == Get(s, d)
  {
    var t := Set(s, c, emailCommitted, passwordCommitted).store;
    assert SameNamespace(t, s, d.email);
  }

  /** After `setLoginCredentials()`, the no-argument constructor recovers exactly that instance. */
  lemma SessionRoundTrip(s: Store, c: Credentials)
    ensures Session(SetLoginCredentials(s, c)) == c
  {
  }

  /**
   * After `clearLoginCredentials()` the no-argument constructor finds no
   * session, while every account namespace other than the session's own
   * name still answers `isAccountExist()` as before.
   */
  lemma ClearLoginKeepsAccounts(s: Store, committed: bool, d: Credentials)
    requires d.email != SessionName
    ensures var t := ClearLoginCredentials(s, committed).store;
            Session(t) == Credentials("", "") && (IsAccountExist(t, d) <==> IsAccountExist(s, d))
  {
    var t := ClearLoginCredentials(s, committed).store;
    assert SameNamespace(t, s, d.email);
  }

  /**
   * Recording a registered account as the session makes the no-argument
   * constructor find an existing account, which is what the sign-in screen
   * checks on opening.
   */
  lemma SessionAccountExists(s: Store, c: Credentials)
    requires IsAccountExist(s, c)
    ensures IsAccountExist(SetLoginCredentials(s, c), Session(SetLoginCredentials(s, c)))
  {
    var t := SetLoginCredentials(s, c);
    if c.email != SessionName {
      assert SameNamespace(t, s, c.email);
    }
  }

  /**
   * After a successful `set()` and `setLoginCredentials()` for `c`, a lookup
   * for `c`'s email finds the account and its password.
   */
  lemma RegisteredAccountLogsIn(s: Store, c: Credentials)
    ensures var t := SetLoginCredentials(Set(s, c, true, true).store, c);
            Contains(t, c.email, EmailKey) && GetString(t, c.email, PasswordKey) == Some(c.password)
            && Contains(t, c.email, PasswordKey)
  {
    var stored := Set(s, c, true, true).store;
    var t := SetLoginCredentials(stored, c);
    if c.email != SessionName {
      assert SameNamespace(t, stored, c.email);
    }
  }
}
