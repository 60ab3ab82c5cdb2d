/**
 * Facts that relate several requests: the register/login round trip, the
 * effect of writes on what the notes page lists, and the two places where
 * the views as written differ from what they evidently intend.
 */
module Invariants {
  import opened Wrappers
  import opened Models
  import opened LoginManager
  import opened Listing
  import opened Routes

  /** Whoever has just registered can log in with the same email and password. */
  lemma RegisterThenLogin(s: State, email: string, firstName: string, lastName: string,
                          password: string, salt: Salt, attempt: string)
    requires Valid(s)
    requires Register(s, email, firstName, lastName, password, password, salt).Ok?
    ensures var s1 := Register(s, email, firstName, lastName, password, password, salt).value;
      && Login(s1, email, password) == Ok(s1)
      && (attempt != password ==> Login(s1, email, attempt) == Err(WrongPassword))
  {
  }

  /** A second registration with the same email is refused and stores nothing. */
  lemma RegisterEmailTwice(s: State, email: string, firstName: string, lastName: string,
                           password1: string, password2: string, salt: Salt,
                           firstName': string, lastName': string,
                           password1': string, password2': string, salt': Salt)
    requires Register(s, email, firstName, lastName, password1, password2, salt).Ok?
    ensures var s1 := Register(s, email, firstName, lastName, password1, password2, salt).value;
      Register(s1, email, firstName', lastName', password1', password2', salt') == Err(EmailExists)
  {
  }

  /**
   * Logging out twice leaves the same state as logging out once; the second
   * request is turned away by `@login_required` and changes nothing.
   */
  lemma LogoutTwice(s: State)
    ensures var s1 := StateAfter(s, Logout(s));
      && CurrentUser(s1).None?
      && Logout(s1) == Err(Unauthenticated)
      && StateAfter(s1, Logout(s1)) == s1
  {
  }

  /** A note added by the current user is listed for that user and nobody else. */
  lemma AddNoteThenList(s: State, title: string, content: string, date: Option<Timestamp>, now: Timestamp)
    requires Valid(s)
    requires AddNote(s, title, content, date, now).Ok?
    ensures var s1 := AddNote(s, title, content, date, now).value;
      var uid := CurrentUser(s).value;
      && CurrentUser(s1) == Some(uid)
      && OwnedIds(s1.notes, uid) == OwnedIds(s.notes, uid) + {s.nextNoteId}
      && s.nextNoteId !in OwnedIds(s.notes, uid)
      && forall other :: other != uid ==> OwnedIds(s1.notes, other) == OwnedIds(s.notes, other)
  {
    var s1 := AddNote(s, title, content, date, now).value;
    var uid := CurrentUser(s).value;
    var note := NewNote(title, content, date, uid, now);
    assert s1.notes == s.notes[s.nextNoteId := note];
    forall other
      ensures OwnedIds(s1.notes, other) == OwnedIds(s.notes, other) + (if other == uid then {s.nextNoteId} else {})
    {
      OwnedIdsAfterInsert(s.notes, s.nextNoteId, note, other);
    }
  }

  /** Editing never moves a note to another owner, so no listing gains or loses a note. */
  lemma EditNoteKeepsListings(s: State, id: NoteId, title: string, content: string, now: Timestamp, who: UserId)
    requires EditNote(s, id, title, content, now).Ok?
    ensures OwnedIds(EditNote(s, id, title, content, now).value.notes, who) == OwnedIds(s.notes, who)
  {
  }

  // -------------------------------------------------------------- reachability

  /**
   * A request that may change the store, with the time it arrives at and
   * the salt a registration would draw.  The notes page only reads.
   */
  datatype Request =
    | RegisterRequest(email: string, firstName: string, lastName: string,
                      password1: string, password2: string, salt: Salt)
    | LoginRequest(email: string, password: string)
    | LogoutRequest
    | AddNoteRequest(title: string, content: string, date: Option<Timestamp>, now: Timestamp)
    | EditNoteRequest(id: NoteId, title: string, content: string, now: Timestamp)
    | DeleteUserRequest(uid: UserId)

  /**
   * The state a request leaves behind.  Edits go through the view as
   * written; a note is added by the corrected `AddNote`, which on every
   * request leaves the same state as the view as written, because the two
   * differ only in which error a rejected request reports.
   */
  ghost function Step(s: State, req: Request): State {
    match req
    case RegisterRequest(email, firstName, lastName, password1, password2, salt) =>
      StateAfter(s, Register(s, email, firstName, lastName, password1, password2, salt))
    case LoginRequest(email, password) => StateAfter(s, Login(s, email, password))
    case LogoutRequest => StateAfter(s, Logout(s))
    case AddNoteRequest(title, content, date, now) => StateAfter(s, AddNote(s, title, content, date, now))
    case EditNoteRequest(id, title, content, now) => StateAfter(s, EditNote(s, id, title, content, now))
    case DeleteUserRequest(uid) => if uid in s.users then DeleteUser(s, uid) else s
  }

  /** Adding a note leaves the same state whether or not the view's defect is corrected. */
  lemma AddNoteAsWrittenSameState(s: State, title: string, content: string,
                                  date: Option<Timestamp>, now: Timestamp)
    ensures StateAfter(s, AddNoteAsWritten(s, title, content, date, now))
         == StateAfter(s, AddNote(s, title, content, date, now))
  {
  }

  /** The state after serving the requests in order. */
  ghost function Run(s: State, reqs: seq<Request>): State
    decreases |reqs|
  {
    if reqs == [] then s else Run(Step(s, reqs[0]), reqs[1..])
  }

  /** No request breaks a schema constraint. */
  lemma StepKeepsValid(s: State, req: Request)
    requires Valid(s)
    ensures Valid(Step(s, req))
  {
  }

  /** Every state reachable from the empty database satisfies the schema. */
  lemma {:induction false} RunKeepsValid(s: State, reqs: seq<Request>)
    requires Valid(s)
    ensures Valid(Run(s, reqs))
    decreases |reqs|
  {
    if reqs != [] {
      StepKeepsValid(s, reqs[0]);
      RunKeepsValid(Step(s, reqs[0]), reqs[1..]);
    }
  }

  lemma ReachableIsValid(reqs: seq<Request>)
    ensures Valid(Run(Empty, reqs))
  {
    EmptyIsValid();
    RunKeepsValid(Empty, reqs);
  }

  // ---------------------------------------------------------------- findings

  /** Two users, the first owning note 1, with the second logged in. */
  function TwoUsers(): State {
    var alice := User("alice@example.com", "Alice", "Smith", Hash(7, "password-a"));
    var bob := User("bob@example.com", "Bob", "Jones", Hash(8, "password-b"));
    State(map[1 := alice, 2 := bob], map[1 := Note("Groceries", "milk", 100, 1)], 3, 2, Some(2))
  }

  /**
   * As written, `edit_note` lets a logged-in user rewrite a note someone
   * else owns; the guarded view refuses the same request.
   */
  lemma EditNoteIgnoresOwner()
    ensures Valid(TwoUsers())
    ensures CurrentUser(TwoUsers()) == Some(2) && TwoUsers().notes[1].owner == 1
    ensures EditNote(TwoUsers(), 1, "Mine now", "gone", 200).Ok?
    ensures EditNote(TwoUsers(), 1, "Mine now", "gone", 200).value.notes[1] == Note("Mine now", "gone", 200, 1)
    ensures EditNoteChecked(TwoUsers(), 1, "Mine now", "gone", 200) == Err(Unauthorized)
  {
  }

  /**
   * The guarded edit never changes a note its caller does not own, whatever
   * the request.
   */
  lemma EditNoteCheckedIsolates(s: State, id: NoteId, title: string, content: string, now: Timestamp, k: NoteId)
    requires k in s.notes
    requires CurrentUser(s).None? || s.notes[k].owner != CurrentUser(s).value
    ensures k in StateAfter(s, EditNoteChecked(s, id, title, content, now)).notes
    ensures StateAfter(s, EditNoteChecked(s, id, title, content, now)).notes[k] == s.notes[k]
  {
  }

  /**
   * As written, `add_note` with an empty title or content fails with a
   * server error; the intended view reports the failed check.  Neither
   * stores anything.
   */
  lemma AddNoteAsWrittenCrashes(s: State, title: string, content: string, date: Option<Timestamp>, now: Timestamp)
    requires CurrentUser(s).Some?
    ensures AddNoteAsWritten(s, "", content, date, now) == Err(ServerError)
    ensures AddNote(s, "", content, date, now) == Err(TitleTooShort)
    ensures |title| > 0 ==> AddNoteAsWritten(s, title, "", date, now) == Err(ServerError)
    ensures |title| > 0 ==> AddNote(s, title, "", date, now) == Err(NoteTooShort)
  {
  }
}
