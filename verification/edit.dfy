/**
 * The contact editor (`activities/EditActivity.kt`). Opened with a contact
 * it offers Delete and Update, each behind a confirmation dialog; opened
 * without one it offers Save. The fields are validated as typed, without
 * trimming, and saved as typed.
 */
module EditScreen {
  import opened Wrappers
  import opened Text
  import opened Validators
  import opened Contacts
  import AddressBookDao
  import opened AppState
  import Db = AddressBookDatabase

  const NothingToUpdate: string := "There is a no change for update"

  /**
   * The contact the screen was opened with, if any; the three text fields
   * and their error flags; and whether each confirmation dialog is shown.
   */
  datatype EditForm = EditForm(original: Option<AddressBook>,
                               name: string, email: string, phoneNumber: string,
                               nameError: bool, emailError: bool, phoneNumberError: bool,
                               showUpdateDialog: bool, showDeleteDialog: bool)

  /** The screen as it opens: each field shows the contact's value, or `""` when it has none. */
  function Init(original: Option<AddressBook>): (f: EditForm)
    ensures f.original == original
    ensures original.None? ==> f.name == "" && f.email == "" && f.phoneNumber == ""
    ensures original.Some? && original.value.name.Some? ==> f.name == original.value.name.value
    ensures original.Some? && original.value.email.Some? ==> f.email == original.value.email.value
    ensures original.Some? && original.value.phoneNumber.Some? ==> f.phoneNumber == original.value.phoneNumber.value
    ensures original.Some? && original.value.name.None? ==> f.name == ""
    ensures original.Some? && original.value.email.None? ==> f.email == ""
    ensures original.Some? && original.value.phoneNumber.None? ==> f.phoneNumber == ""
    ensures !f.nameError && !f.emailError && !f.phoneNumberError
    ensures !f.showUpdateDialog && !f.showDeleteDialog
  {
    var o := if original.Some? then original.value else Unset;
    EditForm(original, o.name.GetOr(""), o.email.GetOr(""), o.phoneNumber.GetOr(""),
             false, false, false, false, false)
  }

  /** The three text fields. */
  datatype Field = NameField | EmailField | PhoneField

  /** Typing into a field: the field takes the new text and its error flag drops; nothing else changes. */
  function Type(f: EditForm, field: Field, text: string): EditForm {
    match field
    case NameField => f.(name := text, nameError := false)
    case EmailField => f.(email := text, emailError := false)
    case PhoneField => f.(phoneNumber := text, phoneNumberError := false)
  }

  /**
   * The three fields equal, as typed, the contact the screen was opened
   * with; never so for a new contact, whose fields are compared with `null`.
   */
  predicate SameAsOriginal(original: Option<AddressBook>, name: string, email: string, phoneNumber: string) {
    && original.Some?
    && original.value.name == Some(name)
    && original.value.email == Some(email)
    && original.value.phoneNumber == Some(phoneNumber)
  }

  /** How far the checks got: the first that failed, or none. */
  datatype Reached = NameFailed | EmailFailed | PhoneFailed | Unchanged | AllPassed

  /**
   * The check that stops `isEntriesValid()`: name, email, phone number,
   * then whether anything changed.
   */
  function FirstFailure(p: Patterns, original: Option<AddressBook>, name: string, email: string, phoneNumber: string)
    : Reached
  {
    if !HasText(name) then NameFailed
    else if !EmailAccepted(p, email) then EmailFailed
    else if !PhoneAccepted(p, phoneNumber) then PhoneFailed
    else if SameAsOriginal(original, name, email, phoneNumber) then Unchanged
    else AllPassed
  }

  /** What the checks decided, and the toasts they showed. */
  datatype Outcome = Outcome(reached: Reached, toasts: seq<string>)

  /**
   * The checks of `isEntriesValid()` in order, each run only if the ones
   * before passed: the three validators on a `Validation` built from the
   * fields, then `isAnyChangeAvailable()`. A failing check shows one toast:
   * its validator's, or the no-change toast.
   */
  function RunChecks(p: Patterns, original: Option<AddressBook>, name: string, email: string, phoneNumber: string)
    : (r: Outcome)
    ensures r.reached == FirstFailure(p, original, name, email, phoneNumber)
    ensures |r.toasts| == (if r.reached == AllPassed then 0 else 1)
    ensures r.reached == NameFailed ==> r.toasts == [EnterName]
    ensures r.reached == EmailFailed ==> r.toasts == [if HasText(email) then EnterValidEmail else EnterEmail]
    ensures r.reached == PhoneFailed ==> r.toasts == [if HasText(phoneNumber) then EnterValidPhone else EnterPhone]
    ensures r.reached == Unchanged ==> r.toasts == [NothingToUpdate]
  {
    var v := Validation(Some(name), Some(email), None, Some(phoneNumber));
    var n := IsNameValid(v, Default);
    if n.Fail? then Outcome(NameFailed, [n.message])
    else
      var e := IsEmailValid(p, v, Default);
      if e.Fail? then Outcome(EmailFailed, [e.message])
      else
        var ph := IsPhoneNumberValid(p, v, Default);
        if ph.Fail? then Outcome(PhoneFailed, [ph.message])
        else if SameAsOriginal(original, name, email, phoneNumber) then Outcome(Unchanged, [NothingToUpdate])
        else Outcome(AllPassed, [])
  }

  /** The fields after the checks stopped at `reached`: each validator reached sets its flag to its failure. */
  function FlagsAfter(f: EditForm, reached: Reached): EditForm {
    var f1 := f.(nameError := reached == NameFailed);
    if reached == NameFailed then f1
    else
      var f2 := f1.(emailError := reached == EmailFailed);
      if reached == EmailFailed then f2
      else f2.(phoneNumberError := reached == PhoneFailed)
  }

  /**
   * The flags after validation: the name's always tells whether it failed;
   * the email's and the phone number's do once their checks are reached and
   * keep their old value otherwise. Text and dialogs are untouched.
   */
  lemma ValidatedFlags(f: EditForm, reached: Reached)
    ensures var g := FlagsAfter(f, reached);
            && g.nameError == (reached == NameFailed)
            && (reached != NameFailed ==> g.emailError == (reached == EmailFailed))
            && (reached == NameFailed ==> g.emailError == f.emailError)
            && (reached !in {NameFailed, EmailFailed} ==> g.phoneNumberError == (reached == PhoneFailed))
            && (reached in {NameFailed, EmailFailed} ==> g.phoneNumberError == f.phoneNumberError)
            && g == f.(nameError := g.nameError, emailError := g.emailError, phoneNumberError := g.phoneNumberError)
  {
  }

  /** `isEntriesValid()`: the checks, and the flags as they leave them. */
  function IsEntriesValid(p: Patterns, f: EditForm): (r: Checked<EditForm>)
    ensures var reached := FirstFailure(p, f.original, f.name, f.email, f.phoneNumber);
            && (r.ok <==> reached == AllPassed)
            && r.form == FlagsAfter(f, reached)
            && |r.toasts| == (if r.ok then 0 else 1)
            && (reached == NameFailed ==> r.toasts == [EnterName])
            && (reached == EmailFailed ==> r.toasts == [if HasText(f.email) then EnterValidEmail else EnterEmail])
            && (reached == PhoneFailed ==> r.toasts == [if HasText(f.phoneNumber) then EnterValidPhone else EnterPhone])
            && (reached == Unchanged ==> r.toasts == [NothingToUpdate])
  {
    var o := RunChecks(p, f.original, f.name, f.email, f.phoneNumber);
    Checked(o.reached == AllPassed, FlagsAfter(f, o.reached), o.toasts)
  }

  /**
   * The record the dialogs write: the fields as typed, with the id and the
   * `isActive` flag of the contact the screen was opened with.
   */
  function Record(f: EditForm): (r: AddressBook)
    ensures r.name == Some(f.name) && r.email == Some(f.email) && r.phoneNumber == Some(f.phoneNumber)
    ensures f.original.Some? ==> r.id == f.original.value.id && r.isActive == f.original.value.isActive
    ensures f.original.None? ==> r.id.None? && r.isActive.None?
  {
    var o := if f.original.Some? then f.original.value else Unset;
    AddressBook(o.id, Some(f.name), Some(f.email), Some(f.phoneNumber), o.isActive)
  }

  /**
   * The Save button, shown for a new contact: if the entries are valid,
   * inserts a new active contact with the fields as typed and closes the
   * screen; otherwise stays with the toast and nothing written.
   */
  function OnSave(p: Patterns, a: App, f: EditForm): (r: Step<EditForm>)
    requires Valid(a) && f.original.None?
    ensures Valid(r.app)
    ensures r.form == IsEntriesValid(p, f).form && r.toasts == IsEntriesValid(p, f).toasts
    ensures r.nav == Finish <==> FirstFailure(p, f.original, f.name, f.email, f.phoneNumber) == AllPassed
    ensures r.nav != Finish ==> r.nav == Stay && r.app == a
    ensures r.nav == Finish ==> r.app == Write(a, InsertRow(NewContact(f.name, f.email, f.phoneNumber)))
  {
    var v := IsEntriesValid(p, f);
    if !v.ok then Step(a, v.form, v.toasts, Stay)
    else Step(Write(a, InsertRow(NewContact(f.name, f.email, f.phoneNumber))), v.form, v.toasts, Finish)
  }

  /** The Delete button, shown for an existing contact: raises the delete dialog. */
  function OnDeleteClick(f: EditForm): EditForm
    requires f.original.Some?
  {
    f.(showDeleteDialog := true)
  }

  /**
   * The Update button, shown for an existing contact: raises the update
   * dialog exactly when the entries are valid and something changed, and
   * lowers it otherwise.
   */
  function OnUpdateClick(p: Patterns, f: EditForm): (r: Checked<EditForm>)
    requires f.original.Some?
    ensures r.form.showUpdateDialog <==> FirstFailure(p, f.original, f.name, f.email, f.phoneNumber) == AllPassed
    ensures r.form == IsEntriesValid(p, f).form.(showUpdateDialog := r.form.showUpdateDialog)
    ensures r.toasts == IsEntriesValid(p, f).toasts
  {
    var v := IsEntriesValid(p, f);
    Checked(v.ok, v.form.(showUpdateDialog := v.ok), v.toasts)
  }

  /**
   * The update dialog's answer: the dialog closes; on confirmation the
   * record is written with `@Update` and the screen closes; a cancel
   * changes nothing else.
   */
  function OnUpdateDialog(a: App, f: EditForm, confirmed: bool): (r: Step<EditForm>)
    requires Valid(a) && f.showUpdateDialog
    ensures Valid(r.app)
    ensures r.form == f.(showUpdateDialog := false) && r.toasts == []
    ensures confirmed ==> r.app == Write(a, UpdateRow(Record(f))) && r.nav == Finish
    ensures !confirmed ==> r.app == a && r.nav == Stay
  {
    var g := f.(showUpdateDialog := false);
    if confirmed then Step(Write(a, UpdateRow(Record(f))), g, [], Finish)
    else Step(a, g, [], Stay)
  }

  /**
   * The delete dialog's answer: the dialog closes; on confirmation the
   * record is deleted with `@Delete` (by its id) and the screen closes.
   */
  function OnDeleteDialog(a: App, f: EditForm, confirmed: bool): (r: Step<EditForm>)
    requires Valid(a) && f.showDeleteDialog
    ensures Valid(r.app)
    ensures r.form == f.(showDeleteDialog := false) && r.toasts == []
    ensures confirmed ==> r.app == Write(a, DeleteRow(Record(f))) && r.nav == Finish
    ensures !confirmed ==> r.app == a && r.nav == Stay
  {
    var g := f.(showDeleteDialog := false);
    if confirmed then Step(Write(a, DeleteRow(Record(f))), g, [], Finish)
    else Step(a, g, [], Stay)
  }

  /**
   * Opening a contact whose three fields are set and pressing Update
   * without typing never raises the dialog: the last check finds no change
   * if the validators let the fields through.
   */
  lemma UntouchedNeverUpdates(p: Patterns, c: AddressBook)
    requires c.name.Some? && c.email.Some? && c.phoneNumber.Some?
    ensures var r := OnUpdateClick(p, Init(Some(c)));
            !r.form.showUpdateDialog && |r.toasts| == 1
  {
    var f := Init(Some(c));
    assert SameAsOriginal(f.original, f.name, f.email, f.phoneNumber);
  }

  /**
   * Opening a contact whose email and phone number pass their validators
   * and typing a different, non-blank name makes Update raise its dialog
   * with no toast.
   */
  lemma EditingANameAllowsUpdate(p: Patterns, c: AddressBook, text: string)
    requires c.email.Some? && EmailAccepted(p, c.email.value)
    requires c.phoneNumber.Some? && PhoneAccepted(p, c.phoneNumber.value)
    requires HasText(text) && c.name != Some(text)
    ensures var r := OnUpdateClick(p, Type(Init(Some(c)), NameField, text));
            r.form.showUpdateDialog && r.toasts == []
  {
  }

  /** The handle a write from state `a` lands on. */
  function Target(a: App): (h: Db.Handle)
    requires Valid(a)
    ensures a.registry.instance.Some? ==> h == a.registry.instance.value
  {
    Db.Invoke(a.registry, a.prefs).handle
  }

  /**
   * After a successful Save, the main list read from the same database
   * shows the new contact, under the id its table gave it.
   */
  lemma SavedContactListed(p: Patterns, a: App, f: EditForm, rows: seq<AddressBook>)
    requires Valid(a) && f.original.None?
    requires OnSave(p, a, f).nav == Finish
    requires AddressBookDao.Listing(FileOf(OnSave(p, a, f).app, Target(a).name), rows)
    ensures exists k :: NewContact(f.name, f.email, f.phoneNumber).(id := Some(k)) in rows
  {
    var x := NewContact(f.name, f.email, f.phoneNumber);
    var t := FileOf(a, Target(a).name);
    AddressBookDao.InsertListed(t, x, rows);
  }

  /**
   * After a confirmed update of a contact still in the table, the list
   * shows the edited fields under the contact's id and no older version.
   */
  lemma UpdatedContactListed(a: App, f: EditForm, rows: seq<AddressBook>)
    requires Valid(a) && f.showUpdateDialog && f.original.Some?
    requires f.original.value.id.Some? && f.original.value.id.value in FileOf(a, Target(a).name).rows
    requires AddressBookDao.Listing(FileOf(OnUpdateDialog(a, f, true).app, Target(a).name), rows)
    ensures Record(f) in rows
    ensures forall i :: 0 <= i < |rows| && rows[i].id == f.original.value.id ==> rows[i] == Record(f)
  {
    AddressBookDao.UpdateListed(FileOf(a, Target(a).name), Record(f), rows);
  }

  /** After a confirmed delete, the list holds no row with the contact's id, and every other row. */
  lemma DeletedContactGone(a: App, f: EditForm, rows: seq<AddressBook>)
    requires Valid(a) && f.showDeleteDialog && f.original.Some? && f.original.value.id.Some?
    requires AddressBookDao.Listing(FileOf(OnDeleteDialog(a, f, true).app, Target(a).name), rows)
    ensures forall i :: 0 <= i < |rows| ==> rows[i].id != f.original.value.id
    ensures var t := FileOf(a, Target(a).name);
            forall k :: k in t.rows && Some(k) != f.original.value.id ==> t.rows[k] in rows
  {
    AddressBookDao.DeleteListed(FileOf(a, Target(a).name), Record(f), rows);
  }
}
