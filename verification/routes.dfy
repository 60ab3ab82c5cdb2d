/**
 * The views of the application as transitions on the store.  A view either
 * commits a new state or reports one error; an error carries no state, so a
 * rejected request writes nothing.  Rendering, redirects and flash text are
 * not modelled: each flashed error becomes an `Error` value.
 */
module Routes {
  import opened Wrappers
  import opened Models
  import opened LoginManager
  import opened Listing

  datatype Error =
    // register
    | EmailExists | EmailTooShort | FirstNameTooShort | LastNameTooShort
    | PasswordsDiffer | PasswordTooShort
    // login
    | EmailNotFound | WrongPassword
    // `@login_required` turned the request away
    | Unauthenticated
    // notes
    | TitleTooShort | NoteTooShort | NotFound | Unauthorized
    // the database refused a value longer than its column
    | ValueTooLong
    // the view raised before reaching its response
    | ServerError

  /** The state a request leaves behind: the committed one, or the old one on error. */
  function StateAfter(s: State, r: Result<State, Error>): State {
    if r.Ok? then r.value else s
  }

  // ---------------------------------------------------------------- register

  /** One check of a validator: whether it passed, and what is reported when not. */
  datatype Rule = Rule(passes: bool, error: Error)

  /** The error of the first rule that fails, if any does. */
  function FirstFailure(rules: seq<Rule>): Option<Error> {
    if rules == [] then None
    else if !rules[0].passes then Some(rules[0].error)
    else FirstFailure(rules[1..])
  }

  /** `FirstFailure` reports the earliest failing rule and only that one. */
  lemma {:induction false} FirstFailureIsEarliest(rules: seq<Rule>)
    ensures FirstFailure(rules).None? <==> forall i :: 0 <= i < |rules| ==> rules[i].passes
    ensures FirstFailure(rules).Some? ==>
      exists i :: 0 <= i < |rules| && !rules[i].passes && rules[i].error == FirstFailure(rules).value
        && forall j :: 0 <= j < i ==> rules[j].passes
  {
    if rules != [] && rules[0].passes {
      FirstFailureIsEarliest(rules[1..]);
      assert forall i :: 0 < i < |rules| ==> rules[i] == rules[1..][i - 1];
      if FirstFailure(rules).Some? {
        var i :| 0 <= i < |rules[1..]| && !rules[1..][i].passes && rules[1..][i].error == FirstFailure(rules).value
          && forall j :: 0 <= j < i ==> rules[1..][j].passes;
        assert rules[i + 1] == rules[1..][i];
        assert forall j :: 0 < j < i + 1 ==> rules[j] == rules[1..][j - 1];
      }
    }
  }

  /** The registration checks, in the order the view makes them. */
  function RegisterRules(s: State, email: string, firstName: string, lastName: string,
                         password1: string, password2: string): seq<Rule>
  {
    [ Rule(!EmailTaken(s.users, email), EmailExists),
      Rule(|email| >= 4, EmailTooShort),
      Rule(|firstName| >= 2, FirstNameTooShort),
      Rule(|lastName| >= 2, LastNameTooShort),
      Rule(password1 == password2, PasswordsDiffer),
      Rule(|password1| >= 7, PasswordTooShort) ]
  }

  /**
   * `POST /register`.  On success the new user row stores a salted hash of
   * the password, never the password, and the session logs that user in.
   */
  function Register(s: State, email: string, firstName: string, lastName: string,
                    password1: string, password2: string, salt: Salt): (r: Result<State, Error>)
    ensures r.Ok? ==> !EmailTaken(s.users, email)
    ensures r.Ok? ==>
      && r.value.users.Keys == s.users.Keys + {s.nextUserId}
      && r.value.users[s.nextUserId].email == email
      && r.value.users[s.nextUserId].firstName == firstName
      && r.value.users[s.nextUserId].lastName == lastName
      && r.value.users[s.nextUserId].password == Hash(salt, password1)
      && Verify(r.value.users[s.nextUserId].password, password1)
      && (forall id :: id in s.users && id != s.nextUserId ==> r.value.users[id] == s.users[id])
      && r.value.notes == s.notes
      && r.value.nextUserId == s.nextUserId + 1 && r.value.nextNoteId == s.nextNoteId
      && CurrentUser(r.value) == Some(s.nextUserId)
    ensures Valid(s) && r.Ok? ==> s.nextUserId !in s.users && Valid(r.value)
  {
    if EmailTaken(s.users, email) then Err(EmailExists)
    else if |email| < 4 then Err(EmailTooShort)
    else if |firstName| < 2 then Err(FirstNameTooShort)
    else if |lastName| < 2 then Err(LastNameTooShort)
    else if password1 != password2 then Err(PasswordsDiffer)
    else if |password1| < 7 then Err(PasswordTooShort)
    else
      var user := User(email, firstName, lastName, Hash(salt, password1));
      if !UserFits(user) then Err(ValueTooLong)
      else
        Ok(s.(users := s.users[s.nextUserId := user],
              nextUserId := s.nextUserId + 1,
              session := Some(s.nextUserId)))
  }

  /**
   * Registration reports the first failing check and nothing else; when all
   * pass, only the database's column widths can still refuse the row.
   */
  lemma RegisterReportsFirstFailure(s: State, email: string, firstName: string, lastName: string,
                                    password1: string, password2: string, salt: Salt)
    ensures var r := Register(s, email, firstName, lastName, password1, password2, salt);
      var first := FirstFailure(RegisterRules(s, email, firstName, lastName, password1, password2));
      && (first.Some? ==> r == Err(first.value))
      && (first.None? ==>
            (r.Ok? <==> UserFits(User(email, firstName, lastName, Hash(salt, password1))))
            && (r.Err? ==> r.error == ValueTooLong))
  {
    var rules := RegisterRules(s, email, firstName, lastName, password1, password2);
    FirstFailureIsEarliest(rules);
    if FirstFailure(rules).Some? {
      var i :| 0 <= i < |rules| && !rules[i].passes && rules[i].error == FirstFailure(rules).value
        && forall j :: 0 <= j < i ==> rules[j].passes;
      assert forall j :: 0 <= j < i ==> rules[j].passes;
      if i == 0 {
      } else if i == 1 {
        assert rules[0].passes;
      } else if i == 2 {
        assert rules[0].passes && rules[1].passes;
      } else if i == 3 {
        assert rules[0].passes && rules[1].passes && rules[2].passes;
      } else if i == 4 {
        assert rules[0].passes && rules[1].passes && rules[2].passes && rules[3].passes;
      } else {
        assert rules[0].passes && rules[1].passes && rules[2].passes && rules[3].passes && rules[4].passes;
      }
    } else {
      assert forall i :: 0 <= i < |rules| ==> rules[i].passes;
      assert rules[0].passes && rules[1].passes && rules[2].passes && rules[3].passes && rules[4].passes && rules[5].passes;
    }
  }

  // ------------------------------------------------------------ login/logout

  /** The user registered under `email`, if any (`filter_by(email=...).first()`). */
  ghost function FindByEmail(users: map<UserId, User>, email: string): (r: Option<UserId>)
    ensures r.Some? <==> EmailTaken(users, email)
    ensures r.Some? ==> r.value in users && users[r.value].email == email
  {
    if EmailTaken(users, email) then
      Some(var id :| id in users && users[id].email == email; id)
    else None
  }

  /** `POST /login`: an unknown email, a wrong password, or a session for that user. */
  ghost function Login(s: State, email: string, password: string): (r: Result<State, Error>)
    ensures !EmailTaken(s.users, email) <==> r == Err(EmailNotFound)
    ensures r.Err? ==> r.error == EmailNotFound || r.error == WrongPassword
    ensures r.Ok? ==>
      && r.value.users == s.users && r.value.notes == s.notes
      && r.value.nextUserId == s.nextUserId && r.value.nextNoteId == s.nextNoteId
      && CurrentUser(r.value).Some?
      && s.users[CurrentUser(r.value).value].email == email
      && Verify(s.users[CurrentUser(r.value).value].password, password)
    ensures UniqueEmails(s.users) ==>
      forall id :: id in s.users && s.users[id].email == email ==>
        (r.Ok? <==> Verify(s.users[id].password, password))
        && (r.Ok? ==> r.value.session == Some(id))
  {
    match FindByEmail(s.users, email)
    case None => Err(EmailNotFound)
    case Some(id) =>
      if Verify(s.users[id].password, password) then Ok(s.(session := Some(id)))
      else Err(WrongPassword)
  }

  /** `GET /logout`: ends the session of a logged-in user. */
  function Logout(s: State): (r: Result<State, Error>)
    ensures r.Err? <==> CurrentUser(s).None?
    ensures r.Err? ==> r.error == Unauthenticated
    ensures r.Ok? ==>
      && r.value.users == s.users && r.value.notes == s.notes
      && r.value.nextUserId == s.nextUserId && r.value.nextNoteId == s.nextNoteId
      && r.value.session.None?
  {
    if CurrentUser(s).None? then Err(Unauthenticated) else Ok(s.(session := None))
  }

  // ------------------------------------------------------------------- notes

  /** `GET /notes`: the current user's notes, newest first. */
  method ListNotes(s: State) returns (r: Result<seq<Entry>, Error>)
    ensures r.Err? <==> CurrentUser(s).None?
    ensures r.Err? ==> r.error == Unauthenticated
    ensures r.Ok? ==> Ids(r.value) == OwnedIds(s.notes, CurrentUser(s).value)
    ensures r.Ok? ==> RowsOf(r.value, s.notes)
    ensures r.Ok? ==> DistinctIds(r.value)
    ensures r.Ok? ==> NewestFirst(r.value)
  {
    var user := CurrentUser(s);
    if user.None? {
      return Err(Unauthenticated);
    }
    var owned := OwnedIds(s.notes, user.value);
    var pending := owned;
    var listed: seq<Entry> := [];
    while pending != {}
      invariant pending <= owned
      invariant Ids(listed) == owned - pending
      invariant RowsOf(listed, s.notes)
      invariant DistinctIds(listed)
      invariant NewestFirst(listed)
      decreases pending
    {
      var id :| id in pending;
      ListingStep(s.notes, owned, pending, listed, id);
      listed, pending := InsertByDate(listed, Entry(id, s.notes[id])), pending - {id};
    }
    assert owned - pending == owned;
    return Ok(listed);
  }

  /** The row `add_note` builds: a missing date defaults to the current time. */
  function NewNote(title: string, content: string, date: Option<Timestamp>, owner: UserId,
                   now: Timestamp): Note
  {
    Note(title, content, date.GetOr(now), owner)
  }

  /**
   * `POST /add_note`, with the write made only when both checks pass.  A
   * note with an empty title or content is reported and nothing is stored.
   */
  function AddNote(s: State, title: string, content: string, date: Option<Timestamp>,
                   now: Timestamp): (r: Result<State, Error>)
    ensures CurrentUser(s).None? ==> r == Err(Unauthenticated)
    ensures CurrentUser(s).Some? && |title| == 0 ==> r == Err(TitleTooShort)
    ensures CurrentUser(s).Some? && |title| > 0 && |content| == 0 ==> r == Err(NoteTooShort)
    ensures CurrentUser(s).Some? && |title| > 0 && |content| > 0 ==>
      (r.Ok? <==> NoteFits(NewNote(title, content, date, CurrentUser(s).value, now)))
    ensures r.Err? && r.error == ValueTooLong ==> |title| > TitleWidth || |content| > ContentWidth
    ensures r.Ok? ==>
      && r.value.notes.Keys == s.notes.Keys + {s.nextNoteId}
      && r.value.notes[s.nextNoteId].title == title
      && r.value.notes[s.nextNoteId].content == content
      && r.value.notes[s.nextNoteId].owner == CurrentUser(s).value
      && (date.None? ==> r.value.notes[s.nextNoteId].date == now)
      && (date.Some? ==> r.value.notes[s.nextNoteId].date == date.value)
      && (forall id :: id in s.notes && id != s.nextNoteId ==> r.value.notes[id] == s.notes[id])
      && r.value.users == s.users && r.value.session == s.session
      && r.value.nextNoteId == s.nextNoteId + 1 && r.value.nextUserId == s.nextUserId
    ensures Valid(s) && r.Ok? ==> s.nextNoteId !in s.notes && Valid(r.value)
  {
    match CurrentUser(s)
    case None => Err(Unauthenticated)
    case Some(uid) =>
      if |title| < 1 then Err(TitleTooShort)
      else if |content| < 1 then Err(NoteTooShort)
      else
        var note := NewNote(title, content, date, uid, now);
        if !NoteFits(note) then Err(ValueTooLong)
        else Ok(s.(notes := s.notes[s.nextNoteId := note], nextNoteId := s.nextNoteId + 1))
  }

  /**
   * `POST /add_note` as the view is written: when a check fails, `new_note`
   * is never bound, so `db.session.add(new_note)` raises and the request
   * ends in a server error instead of the flashed message.
   */
  function AddNoteAsWritten(s: State, title: string, content: string, date: Option<Timestamp>,
                            now: Timestamp): (r: Result<State, Error>)
    ensures CurrentUser(s).None? ==> r == Err(Unauthenticated)
    ensures CurrentUser(s).Some? && (|title| == 0 || |content| == 0) ==> r == Err(ServerError)
    ensures CurrentUser(s).Some? && |title| > 0 && |content| > 0 ==> r == AddNote(s, title, content, date, now)
  {
    match CurrentUser(s)
    case None => Err(Unauthenticated)
    case Some(uid) =>
      if |title| < 1 || |content| < 1 then Err(ServerError)
      else
        var note := NewNote(title, content, date, uid, now);
        if !NoteFits(note) then Err(ValueTooLong)
        else Ok(s.(notes := s.notes[s.nextNoteId := note], nextNoteId := s.nextNoteId + 1))
  }

  /** The write shared by both edit views: validate, then replace title and content. */
  function Revise(s: State, id: NoteId, title: string, content: string, now: Timestamp): (r: Result<State, Error>)
    requires id in s.notes
    ensures |title| == 0 ==> r == Err(TitleTooShort)
    ensures |title| > 0 && |content| == 0 ==> r == Err(NoteTooShort)
    ensures |title| > 0 && |content| > 0 ==>
      (r.Ok? <==> NoteFits(s.notes[id].(title := title, content := content, date := now)))
    ensures r.Ok? ==>
      && r.value.notes.Keys == s.notes.Keys
      && r.value.notes[id] == Note(title, content, now, s.notes[id].owner)
      && (forall k :: k in s.notes && k != id ==> r.value.notes[k] == s.notes[k])
      && r.value.users == s.users && r.value.session == s.session
      && r.value.nextUserId == s.nextUserId && r.value.nextNoteId == s.nextNoteId
    ensures Valid(s) && r.Ok? ==> Valid(r.value)
  {
    if |title| < 1 then Err(TitleTooShort)
    else if |content| < 1 then Err(NoteTooShort)
    else
      var note := s.notes[id].(title := title, content := content, date := now);
      if !NoteFits(note) then Err(ValueTooLong)
      else Ok(s.(notes := s.notes[id := note]))
  }

  /**
   * `POST /edit_note/<id>` as written: any logged-in user may edit any
   * note; the note's owner is not compared with the session's user.
   */
  function EditNote(s: State, id: NoteId, title: string, content: string, now: Timestamp): (r: Result<State, Error>)
    ensures CurrentUser(s).None? ==> r == Err(Unauthenticated)
    ensures CurrentUser(s).Some? && id !in s.notes ==> r == Err(NotFound)
    ensures CurrentUser(s).Some? && id in s.notes ==> r == Revise(s, id, title, content, now)
    ensures r.Ok? ==>
      && r.value.notes.Keys == s.notes.Keys
      && r.value.notes[id].title == title && r.value.notes[id].content == content
      && r.value.notes[id].date == now && r.value.notes[id].owner == s.notes[id].owner
      && (forall k :: k in s.notes && k != id ==> r.value.notes[k] == s.notes[k])
      && r.value.users == s.users && r.value.session == s.session
    ensures Valid(s) && r.Ok? ==> Valid(r.value)
  {
    match CurrentUser(s)
    case None => Err(Unauthenticated)
    case Some(_) =>
      if id !in s.notes then Err(NotFound)
      else Revise(s, id, title, content, now)
  }

  /**
   * `POST /edit_note/<id>` with the ownership check the view lacks: a note
   * owned by another user is refused with `Unauthorized`.
   */
  function EditNoteChecked(s: State, id: NoteId, title: string, content: string, now: Timestamp): (r: Result<State, Error>)
    ensures CurrentUser(s).None? ==> r == Err(Unauthenticated)
    ensures CurrentUser(s).Some? && id !in s.notes ==> r == Err(NotFound)
    ensures CurrentUser(s).Some? && id in s.notes ==>
      (r == Err(Unauthorized) <==> s.notes[id].owner != CurrentUser(s).value)
    ensures CurrentUser(s).Some? && id in s.notes && s.notes[id].owner == CurrentUser(s).value ==>
      r == Revise(s, id, title, content, now)
    ensures r.Ok? ==> s.notes[id].owner == CurrentUser(s).value
    ensures r.Ok? ==> forall k :: k in s.notes && s.notes[k].owner != CurrentUser(s).value ==>
      k in r.value.notes && r.value.notes[k] == s.notes[k]
    ensures r.Ok? ==> r == EditNote(s, id, title, content, now)
    ensures Valid(s) && r.Ok? ==> Valid(r.value)
  {
    match CurrentUser(s)
    case None => Err(Unauthenticated)
    case Some(uid) =>
      if id !in s.notes then Err(NotFound)
      else if s.notes[id].owner != uid then Err(Unauthorized)
      else Revise(s, id, title, content, now)
  }
}
