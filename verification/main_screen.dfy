/**
 * The contact list (`activities/MainActivity.kt`) with its view model
 * (`viewmodel/AddressViewModel.kt`): the list as loaded from the table, the
 * delete dialog of a card, and the Logout and Delete Permanently menu items
 * with their dialogs.
 */
module MainScreen {
  import opened Wrappers
  import opened Prefs
  import opened CredentialStore
  import opened Contacts
  import AddressBookDao
  import opened AppState
  import Db = AddressBookDatabase
  import LoginScreen
  import Validators
  import Text

  const LogoutFailed: string := "Something went wrong"

  /**
   * The screen's state: the database handle its view model obtained when
   * it was built, whether the list has loaded and its rows (the view
   * model's `isAddressesLoaded` and `mutableAddress`), the contact whose
   * delete dialog is open, and whether each menu dialog is shown.
   */
  datatype MainView = MainView(database: Db.Handle, loaded: bool, items: seq<AddressBook>,
                               deleteAddress: Option<AddressBook>,
                               showLogoutDialog: bool, showDeletePermanentlyDialog: bool)

  /** The state after the screen opened, and the screen. */
  datatype Started = Started(app: App, view: MainView)

  /**
   * The screen opens: its first composition builds the view model, whose
   * `AddressBookDatabase(context)` call returns the cached handle or builds
   * one. Nothing is loaded yet and no dialog is shown.
   */
  function OnCreate(a: App): (r: Started)
    requires Valid(a)
    ensures Valid(r.app) && r.app.prefs == a.prefs && r.app.files == a.files
    ensures var got := Db.Invoke(a.registry, a.prefs);
            r.app.registry == got.registry && r.view.database == got.handle
    ensures !r.view.loaded && r.view.items == [] && r.view.deleteAddress.None?
    ensures !r.view.showLogoutDialog && !r.view.showDeletePermanentlyDialog
  {
    var got := Db.Invoke(a.registry, a.prefs);
    Started(a.(registry := got.registry), MainView(got.handle, false, [], None, false, false))
  }

  /** One card: the name (or `"Unknown"`), the email and the phone number (or `"-"`). */
  datatype Card = Card(title: string, email: string, phoneNumber: string)

  /** What `SetAddresses()` draws: a spinner, the empty-list animation, or one card per row. */
  datatype ListView = Progress | EmptyAnimation | Cards(cards: seq<Card>)

  function CardOf(c: AddressBook): (r: Card)
    ensures c.name.Some? ==> r.title == c.name.value
    ensures c.name.None? ==> r.title == "Unknown"
    ensures r.email == (if c.email.Some? then c.email.value else "-")
    ensures r.phoneNumber == (if c.phoneNumber.Some? then c.phoneNumber.value else "-")
  {
    Card(c.name.GetOr("Unknown"), c.email.GetOr("-"), c.phoneNumber.GetOr("-"))
  }

  /**
   * `SetAddresses()`: a spinner until the list has loaded, then the
   * animation for an empty list, and otherwise the cards in list order.
   */
  function Shown(v: MainView): (r: ListView)
    ensures r == Progress <==> !v.loaded
    ensures r == EmptyAnimation <==> v.loaded && v.items == []
    ensures r.Cards? ==> |r.cards| == |v.items| > 0
                         && forall i :: 0 <= i < |v.items| ==> r.cards[i] == CardOf(v.items[i])
  {
    if !v.loaded then Progress
    else if v.items == [] then EmptyAnimation
    else Cards(seq(|v.items|, i requires 0 <= i < |v.items| => CardOf(v.items[i])))
  }

  /**
   * `getAllAddresses()` and its observer: the list becomes the rows of the
   * view model's database file in `name` order and is marked loaded. The
   * observer fires again after every change of that table, so the list is
   * reloaded the same way.
   */
  method Load(a: App, v: MainView) returns (w: MainView)
    requires Valid(a)
    ensures w.loaded
    ensures AddressBookDao.Listing(FileOf(a, v.database.name), w.items)
    ensures w == v.(loaded := true, items := w.items)
  {
    var rows := Query(a, v.database);
    w := v.(loaded := true, items := rows);
  }

  /** A card's delete icon: opens the delete dialog for that contact. */
  function OnDeleteIcon(v: MainView, c: AddressBook): MainView {
    v.(deleteAddress := Some(c))
  }

  /**
   * The card delete dialog's answer: on confirmation the contact is deleted
   * with `@Delete`; either way the dialog closes.
   */
  function OnDeleteDialog(a: App, v: MainView, confirmed: bool): (r: Step<MainView>)
    requires Valid(a) && v.deleteAddress.Some?
    ensures Valid(r.app)
    ensures r.form == v.(deleteAddress := None) && r.toasts == [] && r.nav == Stay
    ensures confirmed ==> r.app == WriteTo(a, v.database, DeleteRow(v.deleteAddress.value))
    ensures !confirmed ==> r.app == a
  {
    var w := v.(deleteAddress := None);
    if confirmed then Step(WriteTo(a, v.database, DeleteRow(v.deleteAddress.value)), w, [], Stay)
    else Step(a, w, [], Stay)
  }

  /** The overflow menu's items. */
  datatype MenuItem = Add | Logout | DeletePermanently

  /** A menu item: Add opens the editor for a new contact; the other two raise their dialogs. */
  function OnMenu(v: MainView, m: MenuItem): (MainView, Nav) {
    match m
    case Add => (v, Open(Edit))
    case Logout => (v.(showLogoutDialog := true), Stay)
    case DeletePermanently => (v.(showDeletePermanentlyDialog := true), Stay)
  }

  /**
   * `logout()`: closes the database, then clears the session; if that
   * commit succeeded the sign-in screen opens, otherwise a toast shows and
   * the screen stays, the session cleared in memory all the same.
   */
  function LogOut(a: App, v: MainView, committed: bool): (r: Step<MainView>)
    requires Valid(a)
    ensures Valid(r.app) && r.app.files == a.files && r.form == v
    ensures r.app.registry == Db.Close(a.registry)
    ensures r.app.prefs == ClearLoginCredentials(a.prefs, committed).store
    ensures committed ==> r.nav == Open(Login) && r.toasts == []
    ensures !committed ==> r.nav == Stay && r.toasts == [LogoutFailed]
  {
    var b := CloseDatabase(a);
    var cleared := ClearLoginCredentials(b.prefs, committed);
    var c := b.(prefs := cleared.store);
    if cleared.ok then Step(c, v, [], Open(Login))
    else Step(c, v, [LogoutFailed], Stay)
  }

  /** The logout dialog's answer: it closes; on confirmation, `logout()`. */
  function OnLogoutDialog(a: App, v: MainView, confirmed: bool, committed: bool): (r: Step<MainView>)
    requires Valid(a) && v.showLogoutDialog
    ensures Valid(r.app)
    ensures confirmed ==> r == LogOut(a, v.(showLogoutDialog := false), committed)
    ensures !confirmed ==> r == Step(a, v.(showLogoutDialog := false), [], Stay)
  {
    var w := v.(showLogoutDialog := false);
    if confirmed then LogOut(a, w, committed) else Step(a, w, [], Stay)
  }

  /**
   * `deletePermanently()`: `clearAndCloseDatabase()` launches the clear of
   * the view model's table and closes the database at once; `clearLanded`
   * says whether the clear reached the table. Then `clearAccount()` for
   * the session's account and the sign-in screen, whatever the commits
   * returned.
   */
  function DeleteAccount(a: App, v: MainView, clearLanded: bool, sessionCommitted: bool, accountCommitted: bool)
    : (r: Step<MainView>)
    requires Valid(a)
    ensures Valid(r.app) && r.form == v && r.nav == Open(Login) && r.toasts == []
    ensures r.app.prefs == ClearAccount(a.prefs, Session(a.prefs), sessionCommitted, accountCommitted).store
    ensures r.app.registry.instance.None?
    ensures clearLanded ==> r.app.files == WriteTo(a, v.database, ClearRows).files
    ensures !clearLanded ==> r.app.files == a.files
  {
    var b := if clearLanded then WriteTo(a, v.database, ClearRows) else a;
    var c := CloseDatabase(b);
    var who := Session(c.prefs);
    Step(c.(prefs := ClearAccount(c.prefs, who, sessionCommitted, accountCommitted).store), v, [], Open(Login))
  }

  /** The Delete Permanently dialog's answer: it closes; on confirmation, `deletePermanently()`. */
  function OnDeletePermanentlyDialog(a: App, v: MainView, confirmed: bool,
                                     clearLanded: bool, sessionCommitted: bool, accountCommitted: bool)
    : (r: Step<MainView>)
    requires Valid(a) && v.showDeletePermanentlyDialog
    ensures Valid(r.app)
    ensures confirmed ==>
              r == DeleteAccount(a, v.(showDeletePermanentlyDialog := false), clearLanded, sessionCommitted, accountCommitted)
    ensures !confirmed ==> r == Step(a, v.(showDeletePermanentlyDialog := false), [], Stay)
  {
    var w := v.(showDeletePermanentlyDialog := false);
    if confirmed then DeleteAccount(a, w, clearLanded, sessionCommitted, accountCommitted)
    else Step(a, w, [], Stay)
  }

  /**
   * After a successful logout the sign-in screen no longer skips itself,
   * and the next database handle is built on `"addressbook.db"`, not on the
   * former user's file.
   */
  lemma LogoutEndsSession(a: App, v: MainView)
    requires Valid(a) && !Contains(a.prefs, "", EmailKey)
    ensures var b := LogOut(a, v, true).app;
            && LoginScreen.OnOpen(b.prefs) == Stay
            && Db.Invoke(b.registry, b.prefs).handle.name == Db.DbName
  {
    var b := LogOut(a, v, true).app;
    Db.NameAfterLogout(a.prefs, true);
    assert SameNamespace(b.prefs, a.prefs, "");
  }

  /**
   * When the logout's commit fails the screen stays, and a contact deleted
   * afterwards still leaves the file the view model was built on, although
   * the handle is no longer cached and the session is cleared.
   */
  lemma DeleteAfterFailedLogout(a: App, v: MainView)
    requires Valid(a) && v.deleteAddress.Some?
    ensures var out := LogOut(a, v, false);
            var r := OnDeleteDialog(out.app, out.form, true);
            && out.nav == Stay
            && r.app.registry.instance.None?
            && r.app.files[v.database.name] == ApplyOp(FileOf(a, v.database.name), DeleteRow(v.deleteAddress.value))
  {
  }

  /**
   * After Delete Permanently whose session commit succeeded, the account
   * that was logged in no longer exists, so signing in with it fails.
   */
  lemma DeleteAccountForgets(p: Validators.Patterns, a: App, v: MainView, clearLanded: bool,
                             accountCommitted: bool, f: LoginScreen.LoginForm)
    requires Valid(a)
    requires Text.Trim(f.email) == Session(a.prefs).email
    ensures var b := DeleteAccount(a, v, clearLanded, true, accountCommitted).app;
            LoginScreen.CheckCredentials(p, b, f).nav == Stay
  {
    var b := DeleteAccount(a, v, clearLanded, true, accountCommitted).app;
    var c := Session(a.prefs);
    assert !IsAccountExist(b.prefs, c);
    LoginScreen.UnknownAccountStays(p, b, f);
  }

  /** When the clear landed, the file the view model was built on holds no contacts. */
  lemma DeleteAccountEmptiesFile(a: App, v: MainView, sessionCommitted: bool, accountCommitted: bool)
    requires Valid(a)
    ensures DeleteAccount(a, v, true, sessionCommitted, accountCommitted).app.files[v.database.name].rows == map[]
  {
  }
}
