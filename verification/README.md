# QuickNote account and note store in Dafny

QuickNote is a small Flask application. Users register, log in, and keep
private notes: they list, add and edit them. This project models its core
as an abstract state machine. The state holds:

- the `User` table, a map from user id to email, first name, last name and
  stored password credential;
- the `Note` table, a map from note id to title, content, date and owning
  user id;
- the next primary key each table will hand out;
- the user id the login session is bound to, if any.

Each view becomes a pure transition. It returns `Ok(state')` or `Err(error)`.
An error carries no state, so a rejected request never writes anything.

Modules, following the program's structure:

- `Wrappers` (`wrappers.dfy`): `Option` and `Result`.
- `Models` (`models.dfy`): the two tables as `quicknote/models.py` declares
  them. This covers column widths, unique email, the non-null foreign key,
  the cascade from a user to its notes, and the password credential. The
  predicate `Valid` collects the schema's constraints.
- `LoginManager` (`login_manager.dfy`): `CurrentUser`, the user loader that
  turns the session into a user.
- `Listing` (`listing.dfy`): the newest-first ordering of the notes page.
- `Routes` (`routes.dfy`): `register`, `login`, `logout`, `notes`,
  `add_note` and `edit_note`.
- `Invariants` (`invariants.dfy`): facts that span several requests. These
  include the fact that every reachable state satisfies the schema, and the
  two findings below.

Modelling choices:

- **Column widths.** The database is modelled as refusing every value
  longer than its declared column width. The request then fails with
  `ValueTooLong` and nothing is written. The views check lower bounds
  only, so without this the width constraints would not be an invariant.
- **Passwords.** A `Credential` is an injective constructor. It keeps the
  salt and the password itself. Only `Hash` and `Verify` look inside it,
  and a credential verifies exactly the password it was made from. The
  salt is a parameter of `Register`, because it stands for randomness.
- **Email lookup.** `filter_by(email=...).first()` is a choice among the
  users with that email. The uniqueness constraint makes it exact. `Login`
  is therefore a ghost function.
- **Date of a new note.** The date the add form submits is an optional
  timestamp. When the form leaves out `note_date`, the model stores `now`,
  the column's default. The current time is always a parameter.
- **Notes page.** `ListNotes` is a method. It picks the current user's notes
  one by one and inserts each into a newest-first sequence. The query does
  not order notes with equal dates, and neither does the model.

- **No trimming.** The views do not trim titles, contents or names before
  checking their lengths, and neither does the model.
- **Logout.** Logout with no logged-in user is refused by
  `@login_required` (`Unauthenticated`) and changes nothing. Logging out
  twice therefore leaves the same state as logging out once
  (`Invariants.LogoutTwice`).
- **Deletion.** The views delete neither notes nor accounts. Deleting a
  user exists only as the schema's cascade (`Models.DeleteUser`), without
  any session check.
- **Editing.** `edit_note` does not compare the note's owner with the
  logged-in user. `Routes.EditNote` models it as written, and
  `Routes.EditNoteChecked` is the guarded variant.
- **Email comparison.** Emails are compared exactly, so the comparison is
  case-sensitive.

## Model

| member | source | states |
|---|---|---|
| Models.VerifyExactlyHashedPassword | quicknote/routes.py:132 | a credential made from a password verifies that password and rejects every other one |
| Models.EmptyIsValid | quicknote/models.py:46-52 | the empty database satisfies every schema constraint: fresh keys, unique email, owners that exist, column widths |
| Models.DeleteUser | quicknote/models.py:51-52 | deleting a user removes exactly the notes it owns; every other user and note, the session and both key counters are unchanged; no other user's listing changes; the schema constraints still hold afterwards |
| LoginManager.CurrentUser | quicknote/__init__.py:58 | the session resolves to its user exactly when that id is still a row of the user table, and to nobody otherwise |
| LoginManager.DeletedUserIsLoggedOut | quicknote/__init__.py:58 | after its user is deleted, a session that logged that user in resolves to nobody |
| Listing.InsertByDate | quicknote/routes.py:180-181 | inserting an entry into a newest-first listing keeps it newest-first; the result has exactly one more entry, and its head is either the inserted entry or the old head |
| Listing.InsertByDatePermutes | quicknote/routes.py:180-181 | inserting into a listing is a permutation: the result holds the old entries and the new one, each as often as before |
| Listing.ListingStep | quicknote/routes.py:180-181 | adding one of the still-pending notes keeps the listing newest-first, duplicate-free and made of the table's rows, and the listed ids grow by exactly that note |
| Listing.InsertByDateMembers | quicknote/routes.py:180-181 | after an insertion, the listed entries and ids are exactly the old ones plus the inserted one; inserting a note that is not yet listed keeps every note listed at most once |
| Routes.FirstFailureIsEarliest | quicknote/routes.py:77-92 | a chain of checks reports nothing exactly when every check passes; otherwise it reports the error of a failing check that all earlier checks passed |
| Routes.RegisterReportsFirstFailure | quicknote/routes.py:76-92 | registration checks existing email, email length, first name, last name, password match, then password length, and reports only the first that fails; if all pass, only an over-long value can still refuse the row |
| Routes.Register | quicknote/routes.py:93-101 | a successful registration had an unused email; it adds exactly one user under a fresh id with the given email and names; it stores a salted hash that verifies the password; it leaves the other users and the notes unchanged; it advances the user-key counter by one and leaves the note-key counter alone; it logs the new user in; it keeps the schema constraints |
| Routes.FindByEmail | quicknote/routes.py:130 | the email lookup finds a user exactly when one has that email, and the user it finds has that email |
| Routes.Login | quicknote/routes.py:130-139 | an unknown email gives EmailNotFound, and that is its only cause; a known email whose password fails gives WrongPassword; a password that verifies logs that user in and changes nothing else |
| Routes.Logout | quicknote/routes.py:143-159 | logout without a logged-in user is refused; otherwise it clears the session and leaves both tables alone |
| Routes.ListNotes | quicknote/routes.py:163-181 | the notes page is refused without a logged-in user; otherwise it lists exactly the current user's notes, each once, as stored, ordered by date with the newest first |
| Routes.AddNote | quicknote/routes.py:204-220 | no session gives Unauthenticated; an empty title gives TitleTooShort; otherwise an empty content gives NoteTooShort; a logged-in request with a non-empty title and content succeeds exactly when both fit their columns; success adds exactly one note under a fresh id with the given title and content; the new note's date is the given one, or now when none is given; its owner is the session's user; every other note, the users and the session are unchanged; the note-key counter advances by one and the user-key counter is unchanged |
| Routes.AddNoteAsWritten | quicknote/routes.py:209-218 | as written, a request with no logged-in user is refused with Unauthenticated; a failed title or content check ends in a server error; a logged-in request with a non-empty title and content has exactly the intended view's outcome |
| Routes.Revise | quicknote/routes.py:248-258 | an edit with an empty title or content is refused; an edit with a non-empty title and content is saved exactly when both fit their columns; a successful edit replaces only that note's title and content, sets its date to now, and keeps its owner, every other note, the users, the session and both key counters |
| Routes.EditNote | quicknote/routes.py:246-260 | no session gives Unauthenticated; an unknown id gives NotFound; for a known id the outcome is that of the shared validated write, so a valid edit that fits its columns is saved; success changes only that note's title, content and date; its owner, every other note, the users and the session are unchanged |
| Routes.EditNoteChecked | quicknote/routes.py:246-260 | like the edit view, but a note owned by someone else is refused with Unauthorized, and that is the only cause of Unauthorized; an edit of the caller's own note has the outcome of the shared validated write; a successful edit changes no note the caller does not own |
| Invariants.RegisterThenLogin | quicknote/routes.py:93-135 | after registering, logging in with the same email and password succeeds; any other password gives WrongPassword |
| Invariants.RegisterEmailTwice | quicknote/routes.py:76-78 | once an email has been registered, registering it again gives EmailExists |
| Invariants.LogoutTwice | quicknote/routes.py:143-159 | after a logout nobody is logged in; a second logout is refused and leaves the same state |
| Invariants.AddNoteThenList | quicknote/routes.py:214-218 | a note that was added appears in its author's listing as one new id; no other user's listing changes |
| Invariants.EditNoteKeepsListings | quicknote/routes.py:246-258 | an edit never moves a note to another owner, so every user's listing keeps the same notes |
| Invariants.AddNoteAsWrittenSameState | quicknote/routes.py:209-218 | the view as written and the corrected one leave the same state on every request; they differ only in the error a rejected request reports |
| Invariants.StepKeepsValid | quicknote/models.py:46-86 | no register, login, logout, add, edit or user-delete request breaks a schema constraint: fresh keys, unique email, owners that exist, column widths |
| Invariants.RunKeepsValid | quicknote/models.py:46-86 | any sequence of such requests served from a state satisfying the schema ends in a state satisfying it |
| Invariants.ReachableIsValid | quicknote/models.py:46-86 | every state reachable from the empty database satisfies the schema |
| Invariants.EditNoteIgnoresOwner | quicknote/routes.py:246 | as written, a logged-in user can rewrite a note another user owns; the guarded edit refuses the same request |
| Invariants.EditNoteCheckedIsolates | quicknote/routes.py:246-258 | the guarded edit never changes a note that the caller does not own |
| Invariants.AddNoteAsWrittenCrashes | quicknote/routes.py:209-218 | for a logged-in user, an empty title, or a non-empty title with an empty content, whatever the other fields: the view as written ends in a server error and the intended view reports the failed check; neither stores anything |

## Findings

| source | as written | input that shows it | evidently intended | confidence | as-written member | corrected member |
|---|---|---|---|---|---|---|
| quicknote/routes.py:209-218 | `db.session.add(new_note)` and `commit` run after a failed check, when `new_note` was never bound, so the view raises | a logged-in user submits an empty title (`Invariants.AddNoteAsWrittenCrashes`) | report `TitleTooShort` / `NoteTooShort` and store nothing | high; not executed | Routes.AddNoteAsWritten | Routes.AddNote |
| quicknote/routes.py:246 | the note is fetched by id without comparing its owner with the logged-in user | user 2 edits note 1, which user 1 owns (`Invariants.EditNoteIgnoresOwner`) | refuse with `Unauthorized` and leave the note unchanged | medium; not executed | Routes.EditNote | Routes.EditNoteChecked |

The rest of the model, including `Invariants.Step`, uses the corrected
`Routes.AddNote`. For editing, `Invariants.Step` serves the view as written,
`Routes.EditNote`. Both edit views keep the schema constraints.
`Routes.EditNoteChecked` is the one that also keeps users' notes apart
(`Invariants.EditNoteCheckedIsolates`).

## Left out

- Flask plumbing is not modelled: templates, redirects, flash text, the GET
  branches that only render a form, and the `home` view. Each flashed error
  is an `Error` value.
- Form parsing is not modelled. Every field is a string. A missing field,
  where `request.form.get` returns `None` and `len` raises, is not modelled.
- Date parsing is not modelled. The datepicker's string becomes an optional
  timestamp. A blank datepicker sends an empty string, not a missing
  field, so the column default does not apply to it. That case lies
  outside the optional-timestamp abstraction.
- The real SHA-256 hashing of `werkzeug.security` is not modelled. The hash
  is idealised: a credential verifies exactly its own password.
- One-wayness of the hash is not modelled. The credential keeps the
  password, and nothing in the model stops a reader from recovering it.
  Within the model, only `Hash` and `Verify` read it.
- Truncation by PostgreSQL is not modelled. PostgreSQL stores a value
  whose characters beyond the column width are all spaces, cutting it to
  the width; the model refuses that value with `ValueTooLong`, as it
  refuses every over-long value.
- The password column's width of 150 is not checked. The credential is
  abstract, and werkzeug's encoded hash has a fixed length below 150.
- Database backends that do not enforce `VARCHAR` widths are not modelled.
  SQLite is one: it would store an over-long value.
- Transactions, concurrency, `func.now()` and the integer width of primary
  keys are not modelled. Keys are unbounded natural numbers from a counter
  that never reuses a key.
- The `remember=True` cookie of `login_user` is not modelled. The session is
  only the bound user id.
- Deleting a note is not modelled. No such view exists: the browser script
  requests `/delete_note`, which has no route.
- `__repr__` methods, app and login-manager configuration, `run.py` and the
  browser script are not modelled. They are debugging output, environment
  setup and user-interface code.
- The non-null constraint on `User.email` holds by typing: every email is
  a string. `Valid` states the unique-email constraint.
