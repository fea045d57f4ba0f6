/**
 * `logout` of `lib/actions/auth.ts`: look up the current session, and if
 * there is one, delete exactly that row, clear the session cookie and
 * redirect to the configured page. With no current session it returns
 * without doing anything more (the lookup itself may still have renewed or
 * deleted an expired row, as `getCurrentSession` does).
 */
module Auth {
  import opened Wrappers
  import opened Schema
  import opened Sessions

  datatype LogoutResult = NotLoggedIn | Redirect(location: string)

  /** What `logout` answers and what the session table becomes. */
  function LogoutSpec(
    cookies: map<string, Cookie>, sessions: map<string, Session>, users: map<int, User>,
    now: int, hash: Hasher, logoutRedirect: string)
    : (r: (LogoutResult, map<string, Session>))
    requires SessionsValid(sessions, users)
    // no session cookie: nothing is read, written or cleared
    ensures SessionToken(cookies).None? ==> r == (NotLoggedIn, sessions)
    ensures r.0.Redirect? ==> r.0.location == logoutRedirect
    // a logout removes the current session ...
    ensures r.0.Redirect? ==> SessionToken(cookies).Some? && hash(SessionToken(cookies).value) !in r.1
    // ... and only it: every other session, of the same user or not, is still there unchanged
    ensures SessionToken(cookies).Some? ==>
              forall sid :: sid != hash(SessionToken(cookies).value) ==>
                (sid in r.1 <==> sid in sessions) && (sid in r.1 ==> r.1[sid] == sessions[sid])
    ensures SessionsValid(r.1, users)
    // it logs out exactly when the presented token has a live session
    ensures r.0.Redirect? <==> CurrentSession(cookies, sessions, users, now, hash).0.Authenticated?
  {
    var current := CurrentSession(cookies, sessions, users, now, hash);
    match current.0
    case NoSession => (NotLoggedIn, current.1)
    case Authenticated(_, session) => (Redirect(logoutRedirect), RemoveSession(current.1, session.id))
  }

  method Logout(db: Database, jar: CookieJar, now: int, hash: Hasher, logoutRedirect: string)
    returns (r: LogoutResult)
    requires db.Valid()
    modifies db, jar
    ensures db.Valid()
    ensures (r, db.sessions) == LogoutSpec(old(jar.cookies), old(db.sessions), old(db.users), now, hash, logoutRedirect)
    ensures r.NotLoggedIn? ==> jar.cookies == old(jar.cookies)
    ensures r.Redirect? ==> jar.cookies == old(jar.cookies)[SessionCookie := Cookie("", None, Some(0))]
    ensures db.users == old(db.users) && db.episodes == old(db.episodes)
    ensures db.nextUserId == old(db.nextUserId) && db.nextEpisodeId == old(db.nextEpisodeId)
  {
    var current := GetCurrentSession(db, jar, now, hash);
    if current.NoSession? {
      return NotLoggedIn;
    }
    InvalidateSession(db, current.session.id);
    DeleteSessionTokenCookie(jar);
    return Redirect(logoutRedirect);
  }
}
