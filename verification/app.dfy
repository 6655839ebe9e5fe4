/**
 * The state the screens share: the preference files, one contacts table
 * per database file, and the database handle cache. A view model obtains
 * its handle once, when it is built, and its repository keeps it; a
 * `viewModelScope.launch { … }` write is taken to reach that handle's
 * table before anything else happens.
 */
module AppState {
  import opened Wrappers
  import opened Prefs
  import opened Contacts
  import opened AddressBookDao
  import Db = AddressBookDatabase

  datatype App = App(prefs: Store, files: map<string, Table>, registry: Db.Registry)

  /** The screens (activities) of the application. */
  datatype Screen = Login | Signup | ForgotPassword | Main | Edit

  /**
   * Where a handler leaves the user: on the same screen, on another screen
   * (the current one finishing), or back on the previous screen.
   */
  datatype Nav = Stay | Open(screen: Screen) | Finish

  /** A screen handler's outcome: the new state, its form, the toasts it showed in order, and where it leads. */
  datatype Step<F> = Step(app: App, form: F, toasts: seq<string>, nav: Nav)

  /** A validation helper's outcome: its result, the form it updated, and the toasts it showed. */
  datatype Checked<F> = Checked(ok: bool, form: F, toasts: seq<string>)

  /** Every table is well formed and the handle cache is consistent. */
  predicate Valid(a: App) {
    && Db.Valid(a.registry)
    && forall n :: n in a.files ==> AddressBookDao.Valid(a.files[n])
  }

  /** The table in database file `name`; a file never written is an empty table. */
  function FileOf(a: App, name: string): (t: Table)
    requires Valid(a)
    ensures AddressBookDao.Valid(t)
    ensures name !in a.files ==> t == Empty
  {
    if name in a.files then a.files[name] else Empty
  }

  /** One DAO call, as the view model issues it. */
  datatype TableOp =
    | InsertRow(row: AddressBook)
    | UpdateRow(row: AddressBook)
    | DeleteRow(row: AddressBook)
    | DeleteRowById(id: int)
    | ClearRows

  /** The DAO call's effect; no call ever lowers the AUTOINCREMENT counter. */
  function ApplyOp(t: Table, op: TableOp): (u: Table)
    requires AddressBookDao.Valid(t)
    ensures AddressBookDao.Valid(u)
    ensures u.sequence >= t.sequence
  {
    match op
    case InsertRow(r) => Insert(t, r)
    case UpdateRow(r) => Update(t, r)
    case DeleteRow(r) => Delete(t, r)
    case DeleteRowById(id) => DeleteById(t, id)
    case ClearRows => Clear(t)
  }

  /** The table after the calls of `ops`, in order. */
  function ApplyAll(t: Table, ops: seq<TableOp>): (u: Table)
    requires AddressBookDao.Valid(t)
    ensures AddressBookDao.Valid(u)
    ensures u.sequence >= t.sequence
    decreases |ops|
  {
    if ops == [] then t else ApplyAll(ApplyOp(t, ops[0]), ops[1..])
  }

  /**
   * AUTOINCREMENT never hands an id out twice: after any run of inserts,
   * updates, deletes and clears, the id generated for a row without one is
   * above every id the table held before the run.
   */
  lemma IdNeverReused(t: Table, ops: seq<TableOp>, y: AddressBook)
    requires AddressBookDao.Valid(t) && y.id.None?
    ensures forall k :: k in t.rows ==> k < KeyFor(ApplyAll(t, ops), y)
  {
    var u := ApplyAll(t, ops);
    assert forall k :: k in t.rows ==> k <= t.sequence <= u.sequence;
  }

  /**
   * A write through a view model's repository, which holds the handle `h`
   * the view model obtained when it was built: the call lands on `h`'s
   * file, whether or not `close()` has dropped `h` from the cache since.
   * Preferences, the cache and every other file are unchanged.
   */
  function WriteTo(a: App, h: Db.Handle, op: TableOp): (b: App)
    requires Valid(a)
    ensures Valid(b)
    ensures b.prefs == a.prefs && b.registry == a.registry
    ensures b.files.Keys == a.files.Keys + {h.name}
    ensures b.files[h.name] == ApplyOp(FileOf(a, h.name), op)
    ensures forall n :: n in a.files && n != h.name ==> b.files[n] == a.files[n]
  {
    a.(files := a.files[h.name := ApplyOp(FileOf(a, h.name), op)])
  }

  /**
   * A write through a view model built just before it: `invoke` gives the
   * handle (building one if none is cached) and the call lands on its file.
   */
  function Write(a: App, op: TableOp): (b: App)
    requires Valid(a)
    ensures Valid(b)
    ensures b.prefs == a.prefs
    ensures var h := Db.Invoke(a.registry, a.prefs).handle;
            && b.registry == Db.Invoke(a.registry, a.prefs).registry
            && b.files.Keys == a.files.Keys + {h.name}
            && b.files[h.name] == ApplyOp(FileOf(a, h.name), op)
            && (forall n :: n in a.files && n != h.name ==> b.files[n] == a.files[n])
  {
    var got := Db.Invoke(a.registry, a.prefs);
    WriteTo(a.(registry := got.registry), got.handle, op)
  }

  /** `getAllAddressBook()` through a repository holding `h`: the rows of `h`'s file, in `name` order. */
  method Query(a: App, h: Db.Handle) returns (rows: seq<AddressBook>)
    requires Valid(a)
    ensures Listing(FileOf(a, h.name), rows)
  {
    rows := GetAll(FileOf(a, h.name));
  }

  /** `AddressBookDatabase.close()`: the files keep their rows. */
  function CloseDatabase(a: App): (b: App)
    requires Valid(a)
    ensures Valid(b) && b.prefs == a.prefs && b.files == a.files
    ensures b.registry.instance.None?
  {
    a.(registry := Db.Close(a.registry))
  }

  /**
   * While a handle is cached, writes keep going to its file even if the
   * session changes meanwhile: the name is fixed when the handle is built.
   */
  lemma WritesStayOnCachedFile(a: App, s: Store, op: TableOp)
    requires Valid(a) && a.registry.instance.Some?
    ensures var b := Write(a.(prefs := s), op);
            var n := a.registry.instance.value.name;
            b.files[n] == ApplyOp(FileOf(a, n), op)
            && (forall m :: m in a.files && m != n ==> b.files[m] == a.files[m])
  {
  }
}
