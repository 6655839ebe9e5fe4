# Address book (Android, Jetpack Compose): a Dafny model of its core

The application keeps user accounts in Android shared preferences and the
contacts of each user in a Room (SQLite) database. The core modelled here
covers the following parts:

- **`Credentials`** (`CredentialStore`): the account store. There is one
  preference file per account, named by its email, plus the session file
  `"activeLoginInfo"`. A commit can fail, so each commit outcome is an
  input.
- **`Validation`** (`Validators`): the four validators and the toast each
  one shows. Kotlin's `trim()` and UTF-16 `length` are spelled out in
  `Text`.
- **`AddressBook` and `AddressBookDao`** (`Contacts`, `AddressBookDao`,
  `NameOrder`): a table keyed by an AUTOINCREMENT id, with REPLACE inserts,
  update and delete by primary key, clear, and the `ORDER BY name` listing.
- **`AddressBookDatabase`** (`AddressBookDatabase`, `AppState`): the
  handle cache, and the file name taken from the session's account. Each
  view model keeps the handle it obtained when it was built. The editor's
  view model is built lazily at its first write, so its writes go through
  `AppState.Write`, which obtains the handle at that moment.
- **The screens**: sign-in (`LoginScreen`), sign-up (`SignupScreen`),
  password retrieval (`ForgotPasswordScreen`), the contact editor
  (`EditScreen`) and the contact list with its menu (`MainScreen`). Each
  handler is a function from the shared state and the screen's form to a
  `Step`: the new state, the new form, the toasts in order, and where the
  user ends up.

Edge cases that the code has, and the model proves as stated:

- Sign-in looks the account up by the trimmed email.
- Sign-up compares the confirmation with the password untrimmed.
- Password retrieval looks the account up by the email as typed.
- The short-password toast says "Password must be greater than 6 digits"
  (Validation.kt:49), but the check is `password.trim().length < 6`
  (Validation.kt:48). So six characters pass, and the length counted is
  in UTF-16 units: a character outside the basic plane counts twice.

Source paths below are relative to the repository root.

## Model

| member | source | states |
|---|---|---|
| Text.Trim | app/src/main/java/com/jetpackcompose/addressbook/utils/Validation.kt:20 | the trimmed text starts and ends with a non-whitespace character (or is empty) and is no longer than the input |
| Text.TrimSplit | app/src/main/java/com/jetpackcompose/addressbook/utils/Validation.kt:20 | every string is its trimmed text with whitespace only before and after it |
| Text.TrimIdempotent | app/src/main/java/com/jetpackcompose/addressbook/activities/LoginActivity.kt:273-283 | trimming twice gives what trimming once gives, so a field the screen has already trimmed is checked the same way again |
| Text.TrimUnique | app/src/main/java/com/jetpackcompose/addressbook/utils/Validation.kt:31-34 | a tight string surrounded by any whitespace trims to exactly that string, so the trimmed text is the one tight core of the input |
| Text.TrimIgnoresPadding | app/src/main/java/com/jetpackcompose/addressbook/utils/Validation.kt:45-51 | adding whitespace on either side never changes what `trim()` returns |
| Text.TrimEmptyIffBlank | app/src/main/java/com/jetpackcompose/addressbook/utils/Validation.kt:20 | `trim().isEmpty()` holds exactly for whitespace-only text, in both directions |
| Text.TrimContainsWhitespace | app/src/main/java/com/jetpackcompose/addressbook/utils/Validation.kt:51 | a whitespace character occurs in the trimmed text exactly when it occurs in the input between two non-whitespace characters |
| Text.Utf16Length | app/src/main/java/com/jetpackcompose/addressbook/utils/Validation.kt:48 | the UTF-16 length lies between the number of characters and twice that, and equals it when no character is supplementary |
| Text.Utf16Supplementary | app/src/main/java/com/jetpackcompose/addressbook/utils/Validation.kt:48 | a string of supplementary characters has a UTF-16 length of twice its number of characters |
| CredentialStore.Session | app/src/main/java/com/jetpackcompose/addressbook/utils/Credentials.kt:32-35 | the instance the no-argument constructor builds: the session's recorded email and password |
| CredentialStore.GetEmail | app/src/main/java/com/jetpackcompose/addressbook/utils/Credentials.kt:60-62 | the `"email"` value in the instance's account namespace, if any |
| CredentialStore.GetPassword | app/src/main/java/com/jetpackcompose/addressbook/utils/Credentials.kt:64-66 | the `"password"` value in the instance's account namespace, if any |
| CredentialStore.IsAccountExist | app/src/main/java/com/jetpackcompose/addressbook/utils/Credentials.kt:68-72 | the account namespace holds both an `"email"` and a `"password"` key |
| CredentialStore.IsPasswordMatched | app/src/main/java/com/jetpackcompose/addressbook/utils/Credentials.kt:74-76 | a password is stored in the account namespace and equals the instance's; false when none is stored |
| CredentialStore.New | app/src/main/java/com/jetpackcompose/addressbook/utils/Credentials.kt:12-39 | with both arguments empty the instance takes the session's email and password (each defaulting to empty), otherwise its arguments unchanged |
| CredentialStore.Set | app/src/main/java/com/jetpackcompose/addressbook/utils/Credentials.kt:41-58 | succeeds exactly when both commits succeed; the email is always written, the password only when the email's commit succeeded (short-circuit), and no other namespace or key changes |
| CredentialStore.Get | app/src/main/java/com/jetpackcompose/addressbook/utils/Credentials.kt:45-50 | empty exactly when the account does not exist, otherwise the stored email and password in that order |
| CredentialStore.SetLoginCredentials | app/src/main/java/com/jetpackcompose/addressbook/utils/Credentials.kt:82-87 | the session file holds the instance's email and password afterwards and nothing else in any file changes |
| CredentialStore.ClearLoginCredentials | app/src/main/java/com/jetpackcompose/addressbook/utils/Credentials.kt:89-94 | the result is the commit's; the session's two keys are gone and every other namespace is untouched |
| CredentialStore.ClearAccountPreferences | app/src/main/java/com/jetpackcompose/addressbook/utils/Credentials.kt:96-101 | the account's `"email"` and `"password"` keys are gone; its other keys and every other namespace are untouched |
| CredentialStore.ClearAccount | app/src/main/java/com/jetpackcompose/addressbook/utils/Credentials.kt:78-80 | succeeds exactly when both commits succeed; the session's two keys are always removed; when the session commit fails the account is left as it was (short-circuit), otherwise its `"email"` and `"password"` keys are removed and it no longer exists; no other key of either namespace and no other namespace changes |
| CredentialStore.SetRegisters | app/src/main/java/com/jetpackcompose/addressbook/utils/Credentials.kt:41-76 | after a successful `set()` the account exists, its password matches and `get()` returns it |
| CredentialStore.SetIsolated | app/src/main/java/com/jetpackcompose/addressbook/utils/Credentials.kt:38-43 | `set()` for one email changes nothing that an instance for another email can see |
| CredentialStore.SessionRoundTrip | app/src/main/java/com/jetpackcompose/addressbook/utils/Credentials.kt:26-36 | after `setLoginCredentials()` the no-argument constructor yields exactly the recorded instance |
| CredentialStore.ClearLoginKeepsAccounts | app/src/main/java/com/jetpackcompose/addressbook/utils/Credentials.kt:89-94 | after a logout the no-argument constructor finds no session, while every other account still exists or not as before |
| CredentialStore.SessionAccountExists | app/src/main/java/com/jetpackcompose/addressbook/utils/Credentials.kt:68-87 | recording an existing account as the session makes the session's account exist |
| CredentialStore.RegisteredAccountLogsIn | app/src/main/java/com/jetpackcompose/addressbook/utils/Credentials.kt:82-87 | after a successful `set()` and `setLoginCredentials()` the account's namespace holds its email and its password |
| Validators.BlankIffNoText | app/src/main/java/com/jetpackcompose/addressbook/utils/Validation.kt:20 | the `null or trim().isEmpty()` test holds exactly when there is no non-whitespace character |
| Validators.IsNameValid | app/src/main/java/com/jetpackcompose/addressbook/utils/Validation.kt:19-25 | passes exactly when the chosen value is non-null with a non-whitespace character; otherwise the name toast |
| Validators.IsEmailValid | app/src/main/java/com/jetpackcompose/addressbook/utils/Validation.kt:30-39 | passes exactly when the value has text and the email pattern accepts its trimmed text; the toast asks for an email when there is no text and for a valid one otherwise |
| Validators.IsPasswordValid | app/src/main/java/com/jetpackcompose/addressbook/utils/Validation.kt:44-56 | each of the three toasts exactly in its case (blank; trimmed UTF-16 length under 6; a space in the trimmed text) and a pass exactly otherwise |
| Validators.IsPhoneNumberValid | app/src/main/java/com/jetpackcompose/addressbook/utils/Validation.kt:61-70 | passes exactly when the value has text and the phone pattern accepts its trimmed text; the toast asks for a number when there is no text and for a valid one otherwise |
| Validators.InteriorSpaceRule | app/src/main/java/com/jetpackcompose/addressbook/utils/Validation.kt:48-53 | a password passes exactly when it is long enough and has no space between two non-whitespace characters: leading and trailing spaces are harmless |
| Validators.PasswordIgnoresPadding | app/src/main/java/com/jetpackcompose/addressbook/utils/Validation.kt:45-53 | whitespace around a password never changes its verdict |
| Validators.EmailIgnoresPadding | app/src/main/java/com/jetpackcompose/addressbook/utils/Validation.kt:31-37 | whitespace around an email never changes its verdict |
| Validators.TightPasswordVerdict | app/src/main/java/com/jetpackcompose/addressbook/utils/Validation.kt:44-56 | for a non-empty tight password of basic-plane characters the verdict is decided by its length, then by a space |
| Validators.SixCharacterPasswordPasses | app/src/main/java/com/jetpackcompose/addressbook/utils/Validation.kt:48-50 | `"abc123"` passes although the toast for short passwords says "greater than 6" |
| Validators.FiveCharacterPasswordFails | app/src/main/java/com/jetpackcompose/addressbook/utils/Validation.kt:48-50 | `"abc12"` fails as too short |
| Validators.InteriorSpaceFails | app/src/main/java/com/jetpackcompose/addressbook/utils/Validation.kt:51-53 | `"ab c12"` fails with the space toast |
| Validators.InteriorTabPasses | app/src/main/java/com/jetpackcompose/addressbook/utils/Validation.kt:51-53 | a tab inside the password is not a space and passes |
| Validators.PaddedPasswordPasses | app/src/main/java/com/jetpackcompose/addressbook/utils/Validation.kt:45-51 | `" abc123\t"` passes: the padding is trimmed before the checks |
| Validators.SupplementaryCharactersCountTwice | app/src/main/java/com/jetpackcompose/addressbook/utils/Validation.kt:48 | three or more supplementary characters pass the length check, because each counts as two UTF-16 units |
| Validators.MissingPasswordFails | app/src/main/java/com/jetpackcompose/addressbook/utils/Validation.kt:45-47 | null and whitespace-only passwords ask for a password |
| Contacts.NewContact | app/src/main/java/com/jetpackcompose/addressbook/roomdb/AddressBook.kt:27-29 | the three-argument constructor gives a contact with no id, marked active, holding the three values |
| NameOrder.InsertByName | app/src/main/java/com/jetpackcompose/addressbook/roomdb/AddressBookDao.kt:23 | inserting into a name-sorted list keeps it sorted and adds exactly that row |
| NameOrder.SortByName | app/src/main/java/com/jetpackcompose/addressbook/roomdb/AddressBookDao.kt:23 | the result is in `name` order (nulls first) and is a permutation of the input |
| AddressBookDao.Insert | app/src/main/java/com/jetpackcompose/addressbook/roomdb/AddressBookDao.kt:14-15 | the row is stored under its own id, replacing any row there, or under a fresh id that no row holds; every other row is unchanged; the AUTOINCREMENT counter rises to the id written if that is larger, so a generated id moves it up by one |
| AddressBookDao.Update | app/src/main/java/com/jetpackcompose/addressbook/roomdb/AddressBookDao.kt:17-18 | only the row whose id is the record's becomes the record; the ids and the counter are unchanged |
| AddressBookDao.Delete | app/src/main/java/com/jetpackcompose/addressbook/roomdb/AddressBookDao.kt:20-21 | removes the row with the record's id, if any, whatever the other fields say; a null id removes nothing; the AUTOINCREMENT counter is kept |
| AddressBookDao.DeleteById | app/src/main/java/com/jetpackcompose/addressbook/roomdb/AddressBookDao.kt:29-30 | removes the row with that id, if any; other rows are unchanged |
| AddressBookDao.Clear | app/src/main/java/com/jetpackcompose/addressbook/roomdb/AddressBookDao.kt:26-27 | no rows remain and the AUTOINCREMENT counter survives |
| AddressBookDao.CollectRows | app/src/main/java/com/jetpackcompose/addressbook/roomdb/AddressBookDao.kt:23-24 | the list holds every row of the table exactly once and nothing else |
| AddressBookDao.GetAll | app/src/main/java/com/jetpackcompose/addressbook/roomdb/AddressBookDao.kt:23-24 | the listing holds every row once, nothing else, in `name` order |
| AddressBookDao.InsertListed | app/src/main/java/com/jetpackcompose/addressbook/roomdb/AddressBookDao.kt:14-24 | after an insert the listing shows the inserted row under the id it was given |
| AddressBookDao.UpdateListed | app/src/main/java/com/jetpackcompose/addressbook/roomdb/AddressBookDao.kt:17-24 | after an update of an existing id the listing shows the record, and it is the only row with that id |
| AddressBookDao.DeleteListed | app/src/main/java/com/jetpackcompose/addressbook/roomdb/AddressBookDao.kt:20-24 | after a delete no listed row has that id and every other row is still listed |
| AddressBookDatabase.BuildName | app/src/main/java/com/jetpackcompose/addressbook/roomdb/AddressBookDatabase.kt:36-40 | the file name is the email stored in the session account's namespace, or `"addressbook.db"` when none is stored |
| AddressBookDatabase.Invoke | app/src/main/java/com/jetpackcompose/addressbook/roomdb/AddressBookDatabase.kt:27-31 | returns the cached handle and builds nothing; with nothing cached it builds and caches a new handle on the file `BuildName` picks |
| AddressBookDatabase.Close | app/src/main/java/com/jetpackcompose/addressbook/roomdb/AddressBookDatabase.kt:45-48 | nothing is cached afterwards and nothing is built |
| AddressBookDatabase.InvokeCaches | app/src/main/java/com/jetpackcompose/addressbook/roomdb/AddressBookDatabase.kt:27-31 | once a handle is returned, every later `invoke` returns it and builds nothing, whatever the session says by then |
| AddressBookDatabase.CloseThenInvokeBuildsAfresh | app/src/main/java/com/jetpackcompose/addressbook/roomdb/AddressBookDatabase.kt:27-48 | `close()` then `invoke` gives a handle different from every earlier one, on the file the current session picks |
| AddressBookDatabase.CloseIdempotent | app/src/main/java/com/jetpackcompose/addressbook/roomdb/AddressBookDatabase.kt:45-48 | a second `close()` changes nothing |
| AddressBookDatabase.NameFollowsLogin | app/src/main/java/com/jetpackcompose/addressbook/roomdb/AddressBookDatabase.kt:36-40 | after `setLoginCredentials()` for a registered account, the next build uses that account's stored email |
| AddressBookDatabase.NameAfterLogout | app/src/main/java/com/jetpackcompose/addressbook/roomdb/AddressBookDatabase.kt:36-40 | after `clearLoginCredentials()` the next build uses `"addressbook.db"` |
| AppState.IdNeverReused | app/src/main/java/com/jetpackcompose/addressbook/roomdb/AddressBook.kt:16 | after any run of inserts, updates, deletes and clears, an id generated for a row without one is above every id the table held before, so no id is handed out twice |
| AppState.WriteTo | app/src/main/java/com/jetpackcompose/addressbook/repositories/AddressBookRepository.kt:12-22 | a write through a repository holding a handle changes only that handle's file, by the DAO operation; the preferences and the cache are unchanged |
| AppState.Write | app/src/main/java/com/jetpackcompose/addressbook/viewmodel/AddressViewModel.kt:30-64 | a write through a view model built just before it lands on the file of the handle `invoke` gives; every other file is unchanged |
| AppState.Query | app/src/main/java/com/jetpackcompose/addressbook/repositories/AddressBookRepository.kt:14-26 | the list is the listing of the handle's file |
| AppState.CloseDatabase | app/src/main/java/com/jetpackcompose/addressbook/viewmodel/AddressViewModel.kt:108-110 | the files and the preferences are kept and nothing stays cached |
| AppState.WritesStayOnCachedFile | app/src/main/java/com/jetpackcompose/addressbook/roomdb/AddressBookDatabase.kt:27-31 | while a handle is cached, writes go to its file even after the session changed |
| LoginScreen.OnOpen | app/src/main/java/com/jetpackcompose/addressbook/activities/LoginActivity.kt:70-75 | Main opens instead of the sign-in form exactly when the session names an existing account |
| LoginScreen.IsEmailPasswordValid | app/src/main/java/com/jetpackcompose/addressbook/activities/LoginActivity.kt:273-283 | valid exactly when both validators pass; the email field becomes its trimmed text and its flag its failure; the password is checked, trimmed and flagged only after a valid email; the one toast is the first failing validator's |
| LoginScreen.CheckCredentials | app/src/main/java/com/jetpackcompose/addressbook/activities/LoginActivity.kt:220-236 | Main opens exactly when both fields are valid and the account of the trimmed email exists with the trimmed password, and then the session is recorded; otherwise nothing changes and exactly one toast names the reason |
| LoginScreen.Decide | app/src/main/java/com/jetpackcompose/addressbook/activities/LoginActivity.kt:224-235 | given a valid form, Main opens exactly on a stored account with that password; the not-registered and the invalid-password toasts are distinguished |
| LoginScreen.UnknownAccountStays | app/src/main/java/com/jetpackcompose/addressbook/activities/LoginActivity.kt:224-234 | an email without an existing account never signs in |
| LoginScreen.LoginThenOpenSkipsSignIn | app/src/main/java/com/jetpackcompose/addressbook/activities/LoginActivity.kt:220-236 | after a successful sign-in the next launch skips the sign-in screen |
| LoginScreen.ValidationIgnoresPadding | app/src/main/java/com/jetpackcompose/addressbook/activities/LoginActivity.kt:273-283 | whitespace around both fields leaves the validity and the toasts unchanged |
| LoginScreen.SameTrimSameOutcome | app/src/main/java/com/jetpackcompose/addressbook/activities/LoginActivity.kt:220-236 | two forms with the same validation outcome and the same trimmed fields lead to the same state, screen and toasts |
| LoginScreen.LoginIgnoresPadding | app/src/main/java/com/jetpackcompose/addressbook/activities/LoginActivity.kt:220-236 | signing in with padded fields gives the same state, screen and toasts as without the padding |
| SignupScreen.RunChecks | app/src/main/java/com/jetpackcompose/addressbook/activities/SignupActivity.kt:268-289 | the checks stop at the first failure among email, password, confirmation and equality, with exactly one toast: the email validator's toast for the email, the password validator's toast for the password or the confirmation, and the mismatch toast exactly for a mismatch |
| SignupScreen.IsEmailPasswordValid | app/src/main/java/com/jetpackcompose/addressbook/activities/SignupActivity.kt:268-289 | valid exactly when every check passes; on failure one toast, the failing validator's own (or the mismatch toast); the fields are left as the checks reached them |
| SignupScreen.ValidatedFields | app/src/main/java/com/jetpackcompose/addressbook/activities/SignupActivity.kt:272-287 | each field reached is trimmed and flagged by its own check; the confirmation's flag stays raised unless every check passed; fields not reached are untouched |
| SignupScreen.OkFields | app/src/main/java/com/jetpackcompose/addressbook/activities/SignupActivity.kt:272-281 | validation keeps `RESULT_OK`, and a valid form's email and password are the trimmed text, the email non-empty |
| SignupScreen.CheckCredentials | app/src/main/java/com/jetpackcompose/addressbook/activities/SignupActivity.kt:227-246 | Main opens exactly for a valid form whose trimmed email has no account and whose two commits succeed, and then the account and the session are stored; a validation failure shows that validation's toast, and an existing account or a failed commit gives its own; the database is never touched |
| SignupScreen.Register | app/src/main/java/com/jetpackcompose/addressbook/activities/SignupActivity.kt:231-245 | refuses an existing account without change; otherwise stores it, and on success records the session, sets `RESULT_OK` and opens Main |
| SignupScreen.SignupThenLogin | app/src/main/java/com/jetpackcompose/addressbook/activities/SignupActivity.kt:227-246 | the fields of a completed registration sign in, and record the same session |
| SignupScreen.MismatchIsNotAValidatorMessage | app/src/main/java/com/jetpackcompose/addressbook/activities/SignupActivity.kt:282-286 | the mismatch toast differs from every toast of the email and password validators |
| SignupScreen.PaddedConfirmationReachesMismatch | app/src/main/java/com/jetpackcompose/addressbook/activities/SignupActivity.kt:278-287 | a confirmation equal to an accepted password plus trailing whitespace passes the password check but is a mismatch |
| SignupScreen.TrailingSpaceMismatches | app/src/main/java/com/jetpackcompose/addressbook/activities/SignupActivity.kt:278-287 | on the screen such a confirmation shows the mismatch toast and raises its flag |
| EditScreen.Init | app/src/main/java/com/jetpackcompose/addressbook/activities/EditActivity.kt:87-91 | each field shows the contact's value, and `""` for a new contact or a null value; no flag and no dialog is raised |
| EditScreen.SameAsOriginal | app/src/main/java/com/jetpackcompose/addressbook/activities/EditActivity.kt:292-301 | the three fields as typed equal the opened contact's; never for a new contact, whose fields compare with `null` |
| EditScreen.RunChecks | app/src/main/java/com/jetpackcompose/addressbook/activities/EditActivity.kt:275-301 | the checks stop at the first failure among name, email, phone number and change, with the failing validator's toast or the no-change toast |
| EditScreen.ValidatedFlags | app/src/main/java/com/jetpackcompose/addressbook/activities/EditActivity.kt:279-285 | each validator reached sets its flag to its failure; flags of checks not reached keep their value |
| EditScreen.IsEntriesValid | app/src/main/java/com/jetpackcompose/addressbook/activities/EditActivity.kt:275-287 | valid exactly when all three validators pass and a field differs from the contact; the one toast names the first failure |
| EditScreen.Record | app/src/main/java/com/jetpackcompose/addressbook/activities/EditActivity.kt:172-178 | the written record holds the fields as typed with the original contact's id and `isActive` |
| EditScreen.OnSave | app/src/main/java/com/jetpackcompose/addressbook/activities/EditActivity.kt:147-157 | the screen closes exactly when the entries are valid, after inserting a new active contact with the fields as typed; otherwise nothing is written |
| EditScreen.OnUpdateClick | app/src/main/java/com/jetpackcompose/addressbook/activities/EditActivity.kt:143-145 | the update dialog is raised exactly when the entries are valid and changed, and lowered otherwise |
| EditScreen.OnUpdateDialog | app/src/main/java/com/jetpackcompose/addressbook/activities/EditActivity.kt:162-184 | the dialog closes; a confirmation writes the record with `@Update` and closes the screen; a cancel changes nothing |
| EditScreen.OnDeleteDialog | app/src/main/java/com/jetpackcompose/addressbook/activities/EditActivity.kt:186-208 | the dialog closes; a confirmation deletes the record by its id and closes the screen; a cancel changes nothing |
| EditScreen.UntouchedNeverUpdates | app/src/main/java/com/jetpackcompose/addressbook/activities/EditActivity.kt:292-299 | pressing Update without typing never raises the dialog and shows one toast |
| EditScreen.EditingANameAllowsUpdate | app/src/main/java/com/jetpackcompose/addressbook/activities/EditActivity.kt:143-145 | with a valid email and phone number, typing a different non-blank name makes Update raise its dialog without a toast |
| EditScreen.SavedContactListed | app/src/main/java/com/jetpackcompose/addressbook/activities/EditActivity.kt:147-157 | after a successful Save the list read from the same file shows the new contact under some id |
| EditScreen.UpdatedContactListed | app/src/main/java/com/jetpackcompose/addressbook/activities/EditActivity.kt:162-184 | after a confirmed update the list shows the record and no other row with its id |
| EditScreen.DeletedContactGone | app/src/main/java/com/jetpackcompose/addressbook/activities/EditActivity.kt:186-208 | after a confirmed delete no listed row has the contact's id and every other row is still listed |
| MainScreen.OnCreate | app/src/main/java/com/jetpackcompose/addressbook/activities/MainActivity.kt:37-39 | the view model takes the handle `invoke` gives once; the list is not loaded and no dialog is shown |
| MainScreen.CardOf | app/src/main/java/com/jetpackcompose/addressbook/activities/MainActivity.kt:189-194 | a card shows the name or `"Unknown"`, and the email and phone number or `"-"` |
| MainScreen.Shown | app/src/main/java/com/jetpackcompose/addressbook/activities/MainActivity.kt:162-230 | a spinner exactly until loaded, the empty animation exactly for a loaded empty list, otherwise one card per row in list order |
| MainScreen.Load | app/src/main/java/com/jetpackcompose/addressbook/viewmodel/AddressViewModel.kt:89-95 | the list becomes the listing of the view model's own file and is marked loaded; nothing else in the screen changes |
| MainScreen.OnDeleteDialog | app/src/main/java/com/jetpackcompose/addressbook/activities/MainActivity.kt:70-82 | the dialog closes; a confirmation deletes the contact from the view model's file |
| MainScreen.LogOut | app/src/main/java/com/jetpackcompose/addressbook/activities/MainActivity.kt:263-270 | closes the database and clears the session; the sign-in screen opens exactly when the commit succeeded, otherwise one toast |
| MainScreen.OnLogoutDialog | app/src/main/java/com/jetpackcompose/addressbook/activities/MainActivity.kt:84-96 | the dialog closes and a confirmation logs out |
| MainScreen.DeleteAccount | app/src/main/java/com/jetpackcompose/addressbook/activities/MainActivity.kt:277-281 | the view model's file is cleared when the clear lands; the cache is emptied, the session's account is cleared, and the sign-in screen opens whatever the commits returned |
| MainScreen.OnDeletePermanentlyDialog | app/src/main/java/com/jetpackcompose/addressbook/activities/MainActivity.kt:98-110 | the dialog closes and a confirmation deletes the account |
| MainScreen.LogoutEndsSession | app/src/main/java/com/jetpackcompose/addressbook/activities/MainActivity.kt:263-270 | after a successful logout the sign-in screen no longer skips itself, and the next handle is built on `"addressbook.db"` |
| MainScreen.DeleteAfterFailedLogout | app/src/main/java/com/jetpackcompose/addressbook/activities/MainActivity.kt:263-270 | after a failed logout the screen stays, and a confirmed delete still lands on the file the view model was built on |
| MainScreen.DeleteAccountForgets | app/src/main/java/com/jetpackcompose/addressbook/activities/MainActivity.kt:277-281 | after Delete Permanently with a successful session commit, the deleted account no longer signs in |
| MainScreen.DeleteAccountEmptiesFile | app/src/main/java/com/jetpackcompose/addressbook/viewmodel/AddressViewModel.kt:100-103 | when the clear lands, the view model's file holds no contacts |
| ForgotPasswordScreen.OnForgotPassword | app/src/main/java/com/jetpackcompose/addressbook/activities/ForgotPasswordActivity.kt:175-188 | the field becomes its trimmed text, flagged when the email check fails; a failure shows its toast; a pass shows the password stored under the email as typed, or nothing |
| ForgotPasswordScreen.Answer | app/src/main/java/com/jetpackcompose/addressbook/activities/ForgotPasswordActivity.kt:181-185 | for a passing email the toast is the stored password, if the namespace of the untrimmed email holds one |
| ForgotPasswordScreen.RetrievesRegisteredPassword | app/src/main/java/com/jetpackcompose/addressbook/activities/ForgotPasswordActivity.kt:175-188 | a registered email, typed exactly, retrieves its password |
| ForgotPasswordScreen.PaddingKeepsEmailVerdict | app/src/main/java/com/jetpackcompose/addressbook/utils/Validation.kt:30-39 | leading whitespace changes neither the trimmed email nor its verdict |
| ForgotPasswordScreen.PaddedEmailRetrievesNothing | app/src/main/java/com/jetpackcompose/addressbook/activities/ForgotPasswordActivity.kt:182 | a registered email typed with leading whitespace is accepted but retrieves nothing |
| ForgotPasswordScreen.PaddedEmailSignsIn | app/src/main/java/com/jetpackcompose/addressbook/activities/LoginActivity.kt:220-236 | the same padded email signs in with the account's password |

## Left out

- The Compose UI: layout, theme, animations and previews. The Launcher screen is left out too, along with intents (reduced to the `Nav` outcome) and toast timing.
- `SignInActivity`, which `navigateToSignIn()` names (MainActivity.kt:287), is not part of this model. It is taken to be the sign-in screen, so it appears as `Open(Login)`.
- Coroutines and concurrency: each `viewModelScope.launch` write is taken to land before the next event. The `@Volatile` instance and the `synchronized` lock are not modelled.
- MainScreen.DeleteAccount: `clearAndCloseDatabase()` launches the clear and closes the database without ordering the two. The boolean `clearLanded` stands in for whether the clear reached the file.
- A write through a handle that `close()` has dropped is taken to reopen and change that handle's file.
- LiveData: the observer fires again after every change of the table. The model has one `Load`, to be repeated after each change, rather than a subscription.
- SharedPreferences `commit()`: the edit reaches the in-memory file even when the commit reports failure, so a failed commit's edit is kept in the store. Only the boolean result steers control flow, and whether the disk write happened is not modelled.
- An account whose email is `"activeLoginInfo"` shares its preference file with the session. The operations model that aliasing, but the lemmas about other accounts exclude that name.
- `Patterns.EMAIL_ADDRESS` and `Patterns.PHONE` are Android regular expressions. They are parameters of the model (`Validators.Patterns`), so no property depends on what they accept.
- Ids are unbounded integers. The 64-bit `Long` width, AUTOINCREMENT exhaustion, and the `Int` to `Long` conversion in `deleteAddressBookById` are not modelled.
- Characters are Unicode scalar values, so unpaired surrogates cannot occur. `length` counts each supplementary character as two units.
- `ORDER BY name` leaves the order of equal names open. The listing promises only `name` order and a permutation of the rows.
- `AddressViewModel.deleteAddressBookById` and `clearAddresses` are modelled as table operations (`DeleteRowById`, `ClearRows`). No screen calls the first one.
- The preview-mode branch of the view model's `init` (`isInspectionMode`) is not modelled.
- The pure form updates have no contract beyond their bodies, so they get no row: `Type`, `OnEmailChange`, `OnDeleteClick`, `OnDeleteIcon` and `OnMenu`.
