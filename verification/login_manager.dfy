/** The user loader Flask-Login calls to resolve the session to a user. */
module LoginManager {
  import opened Wrappers
  import opened Models

  /**
   * The logged-in user: the session's id when that id is still a row of the
   * `User` table, and nobody otherwise (no session, or its user is gone).
   */
  function CurrentUser(s: State): (r: Option<UserId>)
    ensures r.Some? <==> s.session.Some? && s.session.value in s.users
    ensures r.Some? ==> r.value == s.session.value && r.value in s.users
  {
    match s.session
    case Some(id) => if id in s.users then Some(id) else None
    case None => None
  }

  /** Once its user has been deleted, a session no longer logs anyone in. */
  lemma DeletedUserIsLoggedOut(s: State, uid: UserId)
    requires uid in s.users
    requires s.session == Some(uid)
    ensures CurrentUser(s).Some?
    ensures CurrentUser(DeleteUser(s, uid)).None?
  {
  }
}
