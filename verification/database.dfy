/**
 * The database handle (`roomdb/AddressBookDatabase.kt`): one cached
 * instance, built on first use under a file name taken from the active
 * session, and dropped by `close()`. The double-checked locking around the
 * cache is not modelled; calls are sequential here.
 *
 * A built handle is told apart from every earlier one by a serial number:
 * `built` counts the handles built so far.
 */
module AddressBookDatabase {
  import opened Wrappers
  import opened Prefs
  import CredentialStore

  /** The file name used when the session names no stored account. */
  const DbName: string := "addressbook.db"

  /** An open database: the file it was built on and which build produced it. */
  datatype Handle = Handle(name: string, serial: nat)

  /** The companion object's `instance` field, and how many handles were ever built. */
  datatype Registry = Registry(instance: Option<Handle>, built: nat)

  /** The process start: nothing cached, nothing built. */
  const Start: Registry := Registry(None, 0)

  /** The cached handle, if any, is the most recent build. */
  predicate Valid(g: Registry) {
    g.instance.Some? ==> g.instance.value.serial < g.built
  }

  /**
   * `buildDatabase()`'s file name: `Credentials(context).getEmail()`, that
   * is, the `"email"` stored in the account namespace named by the session's
   * email, or `"addressbook.db"` when there is none.
   */
  function BuildName(s: Store): (name: string)
    ensures var who := GetString(s, CredentialStore.SessionName, CredentialStore.EmailKey).GetOr("");
            (Contains(s, who, CredentialStore.EmailKey) ==> name == Open(s, who)[CredentialStore.EmailKey])
            && (!Contains(s, who, CredentialStore.EmailKey) ==> name == DbName)
  {
    CredentialStore.GetEmail(s, CredentialStore.Session(s)).GetOr(DbName)
  }

  /** The registry after a call to `invoke`, and the handle the call returned. */
  datatype Opened = Opened(registry: Registry, handle: Handle)

  /**
   * `invoke()`: the cached handle when there is one, with nothing built;
   * otherwise a new handle on the file `BuildName` picks, which is cached.
   */
  function Invoke(g: Registry, s: Store): (r: Opened)
    requires Valid(g)
    ensures Valid(r.registry)
    ensures r.registry.instance == Some(r.handle)
    ensures g.instance.Some? ==> r == Opened(g, g.instance.value)
    ensures g.instance.None? ==> r.handle.name == BuildName(s) && r.registry.built == g.built + 1
    ensures g.instance.None? ==> r.handle.serial == g.built
  {
    match g.instance
    case Some(h) => Opened(g, h)
    case None =>
      var h := Handle(BuildName(s), g.built);
      Opened(Registry(Some(h), g.built + 1), h)
  }

  /** `close()`: forgets the cached handle, if any; nothing is built. */
  function Close(g: Registry): (r: Registry)
    requires Valid(g)
    ensures Valid(r) && r.instance.None? && r.built == g.built
  {
    Registry(None, g.built)
  }

  /**
   * Once `invoke` has returned a handle, every later `invoke` returns that
   * same handle and builds nothing, whatever the session says by then.
   */
  lemma InvokeCaches(g: Registry, s: Store, s': Store)
    requires Valid(g)
    ensures var first := Invoke(g, s);
            Invoke(first.registry, s') == first
  {
  }

  /** `close()` then `invoke` builds a handle different from every handle built before. */
  lemma CloseThenInvokeBuildsAfresh(g: Registry, s: Store, h: Handle)
    requires Valid(g) && h.serial < g.built
    ensures var r := Invoke(Close(g), s);
            r.handle != h && r.handle.name == BuildName(s)
  {
  }

  /** `close()` with nothing cached changes nothing, so a second `close()` is harmless. */
  lemma CloseIdempotent(g: Registry)
    requires Valid(g)
    ensures Close(Close(g)) == Close(g)
    ensures g.instance.None? ==> Close(g) == g
  {
  }

  /**
   * After `setLoginCredentials()` for a registered account, the next build
   * is named by that account's stored email.
   */
  lemma NameFollowsLogin(s: Store, c: CredentialStore.Credentials)
    requires c.email != CredentialStore.SessionName
    requires CredentialStore.GetEmail(s, c).Some?
    ensures BuildName(CredentialStore.SetLoginCredentials(s, c)) == CredentialStore.GetEmail(s, c).value
  {
    var t := CredentialStore.SetLoginCredentials(s, c);
    assert SameNamespace(t, s, c.email);
  }

  /**
   * After `clearLoginCredentials()` the next build uses `"addressbook.db"`,
   * unless the namespace named by the empty string holds an email.
   */
  lemma NameAfterLogout(s: Store, committed: bool)
    requires !Contains(s, "", CredentialStore.EmailKey)
    ensures BuildName(CredentialStore.ClearLoginCredentials(s, committed).store) == DbName
  {
    var t := CredentialStore.ClearLoginCredentials(s, committed).store;
    assert SameNamespace(t, s, "");
  }
}
