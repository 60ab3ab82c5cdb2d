/**
 * The persisted store of QuickNote: the `User` and `Note` tables, the
 * constraints their schema declares, and the cascade from a user to the
 * notes it owns.  Tables are maps from primary key to row; the database's
 * auto-increment counters are explicit.
 */
module Models {
  import opened Wrappers

  type UserId = nat
  type NoteId = nat
  /** A point in time; the model only compares timestamps. */
  type Timestamp = int
  /** The random salt a password hash is drawn with. */
  type Salt = nat

  // Declared widths of the text columns.
  const FirstNameWidth := 30
  const LastNameWidth := 30
  const EmailWidth := 150
  const TitleWidth := 30
  const ContentWidth := 5000

  /**
   * A salted password credential.  It is an injective constructor that keeps
   * the password; only `Hash` and `Verify` look inside it, and a credential
   * verifies exactly the password it was made from.
   */
  datatype Credential = Salted(salt: Salt, secret: string)

  function Hash(salt: Salt, password: string): (c: Credential)
    ensures c.salt == salt
  {
    Salted(salt, password)
  }

  predicate Verify(c: Credential, password: string) {
    c == Hash(c.salt, password)
  }

  /** A credential accepts the password it was made from and no other. */
  lemma VerifyExactlyHashedPassword(salt: Salt, password: string, attempt: string)
    ensures Verify(Hash(salt, password), attempt) <==> attempt == password
  {
  }

  datatype User = User(email: string, firstName: string, lastName: string, password: Credential)

  datatype Note = Note(title: string, content: string, date: Timestamp, owner: UserId)

  /**
   * Everything a request can see: both tables, the next primary key each
   * table hands out, and the user id the login session is bound to.
   */
  datatype State = State(
    users: map<UserId, User>,
    notes: map<NoteId, Note>,
    nextUserId: UserId,
    nextNoteId: NoteId,
    session: Option<UserId>)

  const Empty := State(map[], map[], 1, 1, None)

  /** The row fits the declared widths of the `User` text columns. */
  predicate UserFits(u: User) {
    |u.firstName| <= FirstNameWidth && |u.lastName| <= LastNameWidth && |u.email| <= EmailWidth
  }

  /** The row fits the declared widths of the `Note` text columns. */
  predicate NoteFits(n: Note) {
    |n.title| <= TitleWidth && |n.content| <= ContentWidth
  }

  predicate EmailTaken(users: map<UserId, User>, email: string) {
    exists id :: id in users && users[id].email == email
  }

  /** The `unique=True` constraint on `User.email`. */
  predicate UniqueEmails(users: map<UserId, User>) {
    forall a, b :: a in users && b in users && users[a].email == users[b].email ==> a == b
  }

  /** The ids of the notes whose foreign key points at `owner`. */
  function OwnedIds(notes: map<NoteId, Note>, owner: UserId): set<NoteId> {
    set id | id in notes && notes[id].owner == owner
  }

  /** A new row adds its key to its owner's notes and to nobody else's. */
  lemma OwnedIdsAfterInsert(notes: map<NoteId, Note>, id: NoteId, note: Note, who: UserId)
    requires id !in notes
    ensures OwnedIds(notes[id := note], who) == OwnedIds(notes, who) + (if note.owner == who then {id} else {})
    ensures id !in OwnedIds(notes, who)
  {
  }

  /** The schema's constraints, which every committed state satisfies. */
  predicate Valid(s: State) {
    // primary keys are handed out by the counters and never reused
    && (forall id :: id in s.users ==> id < s.nextUserId)
    && (forall id :: id in s.notes ==> id < s.nextNoteId)
    && UniqueEmails(s.users)
    // `user_id` is a non-null foreign key into `User`
    && (forall id :: id in s.notes ==> s.notes[id].owner in s.users)
    && (forall id :: id in s.users ==> UserFits(s.users[id]))
    && (forall id :: id in s.notes ==> NoteFits(s.notes[id]))
  }

  lemma EmptyIsValid()
    ensures Valid(Empty)
    ensures Empty.users == map[] && Empty.notes == map[]
  {
  }

  /**
   * Deleting a user row.  The relationship's `cascade="all, delete"` and the
   * foreign key's `ondelete="CASCADE"` take every note it owns with it.  The
   * login session is left as it is; it stops resolving to a user.
   */
  function DeleteUser(s: State, uid: UserId): (s': State)
    requires uid in s.users
    ensures s'.users.Keys == s.users.Keys - {uid}
    ensures forall id :: id in s'.users ==> s'.users[id] == s.users[id]
    ensures forall id :: id in s'.notes <==> id in s.notes && s.notes[id].owner != uid
    ensures forall id :: id in s'.notes ==> s'.notes[id] == s.notes[id]
    ensures OwnedIds(s'.notes, uid) == {}
    ensures forall other :: other != uid ==> OwnedIds(s'.notes, other) == OwnedIds(s.notes, other)
    ensures s'.session == s.session
    ensures s'.nextUserId == s.nextUserId && s'.nextNoteId == s.nextNoteId
    ensures Valid(s) ==> Valid(s')
  {
    s.(users := s.users - {uid},
       notes := map id | id in s.notes && s.notes[id].owner != uid :: s.notes[id])
  }
}
