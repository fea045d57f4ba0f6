/**
 * `GET` of `app/api/auth/github/callback/route.ts`: the end of the GitHub
 * OAuth sign-in. It checks the `code` and `state` query parameters against
 * the stored state cookie, exchanges the code, reads the GitHub user, finds
 * or creates the local user by GitHub id, creates one session for it, sets
 * the session cookie and redirects to the admin dashboard.
 *
 * The code exchange and the GitHub user request are functions the caller
 * supplies (`OAuth`); the fresh session token (`generateSessionToken`) and
 * the clock are parameters. Only the exchange sits inside a `try`: a throw
 * anywhere after it crashes the handler (`Crashed`).
 */
module Callback {
  import opened Wrappers
  import opened Schema
  import opened Sessions
  import Utils

  const StateCookie: string := "github_oauth_state"

  /** `githubUser.id` and `githubUser.login` from `GET https://api.github.com/user`; the login may be absent. */
  datatype GithubUser = GithubUser(id: int, login: Option<string>)

  /**
   * `validateAuthorizationCode` (an access token, or `None` when it throws)
   * and the user request: `None` when the request or `.json()` throws, or
   * when the body carries no `id` (the lookup or the `NOT NULL` insert then throws).
   */
  datatype OAuth = OAuth(exchange: string -> Option<string>, fetchUser: string -> Option<GithubUser>)

  datatype CallbackResponse = Error(status: int, message: string) | RedirectTo(location: string) | Crashed

  /** A query parameter or cookie that JavaScript treats as true: present and not empty. */
  predicate Truthy(v: Option<string>) {
    v.Some? && v.value != ""
  }

  /** The two checks before the code exchange. */
  function CheckRequest(code: Option<string>, state: Option<string>, stored: Option<string>)
    : (r: Option<CallbackResponse>)
    ensures r.None? <==> Truthy(code) && Truthy(state) && Truthy(stored) && state == stored
    ensures r == Some(Error(400, "Invalid request")) <==> !Truthy(code) || !Truthy(state) || !Truthy(stored)
    ensures r == Some(Error(400, "Invalid state")) <==> Truthy(code) && Truthy(state) && Truthy(stored) && state != stored
  {
    if !Truthy(code) || !Truthy(state) || !Truthy(stored) then Some(Error(400, "Invalid request"))
    else if state != stored then Some(Error(400, "Invalid state"))
    else None
  }

  /**
   * The user, the users table and its counter after find-or-create, and the
   * sessions table (`None` when `createSession` throws); or `InsertFailed`
   * when a new user has no login, which the `username NOT NULL` column refuses.
   */
  datatype SignInResult =
    | SignedIn(userId: int, users: map<int, User>, nextUserId: int, sessions: Option<map<string, Session>>)
    | InsertFailed

  /** The local user with this GitHub id, if any (ids are unique, so there is at most one). */
  function FindByGithubId(users: map<int, User>, nextUserId: int, githubId: int): (r: Option<int>)
    requires UsersValid(users, nextUserId)
    ensures r.Some? <==> GithubIdTaken(users, githubId)
    ensures r.Some? ==> r.value in users && users[r.value].githubId == githubId
  {
    if GithubIdTaken(users, githubId) then
      var id :| id in users && users[id].githubId == githubId;
      Some(id)
    else None
  }

  /** Find-or-create the user by GitHub id, then create one session keyed `sessionId` for it. */
  function SignIn(
    users: map<int, User>, sessions: map<string, Session>, nextUserId: int,
    gh: GithubUser, sessionId: string, now: int)
    : (r: SignInResult)
    requires UsersValid(users, nextUserId) && SessionsValid(sessions, users)
    // only a new user without a login cannot be stored
    ensures r.InsertFailed? <==> !GithubIdTaken(users, gh.id) && gh.login.None?
    ensures r.SignedIn? ==> UsersValid(r.users, r.nextUserId)
    ensures r.SignedIn? ==> r.userId in r.users && r.users[r.userId].githubId == gh.id
    // an existing user is reused and no user is inserted
    ensures GithubIdTaken(users, gh.id) ==> r.SignedIn? && r.users == users && r.nextUserId == nextUserId
    // otherwise exactly one user, with the GitHub id and login, is inserted
    ensures !GithubIdTaken(users, gh.id) && gh.login.Some? ==>
              && r.SignedIn? && r.userId == nextUserId && r.nextUserId == nextUserId + 1
              && r.users == users[nextUserId := User(nextUserId, gh.id, gh.login.value)]
    // exactly one session is added, expiring 30 days from now; the insert only fails on a duplicate id
    ensures r.SignedIn? ==> (r.sessions.None? <==> sessionId in sessions)
    ensures r.SignedIn? && r.sessions.Some? ==>
              && r.sessions.value == sessions[sessionId := Session(sessionId, r.userId, now + SessionLifetime)]
              && SessionsValid(r.sessions.value, r.users)
  {
    var existing := FindByGithubId(users, nextUserId, gh.id);
    if existing.None? && gh.login.None? then InsertFailed
    else
      var (userId, users', next') :=
        if existing.Some? then (existing.value, users, nextUserId)
        else (nextUserId, InsertUser(users, nextUserId, gh.id, gh.login.value).value, nextUserId + 1);
      var inserted := InsertSession(sessions, users', Session(sessionId, userId, now + SessionLifetime));
      SignedIn(userId, users', next', inserted)
  }

  /** Signing in twice with the same GitHub account creates its user once. */
  lemma SignInTwiceCreatesOneUser(
    users: map<int, User>, sessions: map<string, Session>, nextUserId: int,
    gh: GithubUser, firstId: string, secondId: string, now: int, later: int)
    requires UsersValid(users, nextUserId) && SessionsValid(sessions, users)
    requires firstId !in sessions
    requires GithubIdTaken(users, gh.id) || gh.login.Some?
    ensures var first := SignIn(users, sessions, nextUserId, gh, firstId, now);
            var second := SignIn(first.users, first.sessions.value, first.nextUserId, gh, secondId, later);
            && second.users == first.users
            && second.userId == first.userId
  {
    var first := SignIn(users, sessions, nextUserId, gh, firstId, now);
    assert GithubIdTaken(first.users, gh.id) by {
      assert first.userId in first.users;
    }
  }

  method HandleCallback(
    db: Database, jar: CookieJar, code: Option<string>, state: Option<string>,
    oauth: OAuth, newToken: string, hash: Hasher, now: int)
    returns (resp: CallbackResponse)
    requires db.Valid()
    modifies db, jar
    ensures db.Valid()
    ensures db.episodes == old(db.episodes) && db.nextEpisodeId == old(db.nextEpisodeId)
    // a bad request or state, or a failed exchange: 400 and nothing written
    ensures CheckRequest(code, state, old(jar.Get(StateCookie))).Some? ==>
              resp == CheckRequest(code, state, old(jar.Get(StateCookie))).value
    ensures CheckRequest(code, state, old(jar.Get(StateCookie))).None? && oauth.exchange(code.value).None? ==>
              resp == Error(400, "Failed to validate authorization code")
    ensures resp.Error? ==>
              && db.users == old(db.users) && db.sessions == old(db.sessions)
              && jar.cookies == old(jar.cookies)
    // the GitHub user request throws (or yields no id): the handler crashes before any write
    ensures CheckRequest(code, state, old(jar.Get(StateCookie))).None? && oauth.exchange(code.value).Some?
            && oauth.fetchUser(oauth.exchange(code.value).value).None? ==>
              && resp == Crashed
              && db.users == old(db.users) && db.nextUserId == old(db.nextUserId) && db.sessions == old(db.sessions)
              && jar.cookies == old(jar.cookies)
    // otherwise the tables are what find-or-create and session creation make them
    ensures CheckRequest(code, state, old(jar.Get(StateCookie))).None? && oauth.exchange(code.value).Some?
            && oauth.fetchUser(oauth.exchange(code.value).value).Some? ==>
              var r := SignIn(old(db.users), old(db.sessions), old(db.nextUserId),
                              oauth.fetchUser(oauth.exchange(code.value).value).value, hash(newToken), now);
              && (r.InsertFailed? ==>
                    && resp == Crashed && db.users == old(db.users) && db.nextUserId == old(db.nextUserId)
                    && db.sessions == old(db.sessions) && jar.cookies == old(jar.cookies))
              && (r.SignedIn? ==> db.users == r.users && db.nextUserId == r.nextUserId)
              && (r.SignedIn? && r.sessions.None? ==>
                    resp == Crashed && db.sessions == old(db.sessions) && jar.cookies == old(jar.cookies))
              && (r.SignedIn? && r.sessions.Some? ==>
                    && resp == RedirectTo(Utils.AdminDashboard)
                    && db.sessions == r.sessions.value)
    // and a success sets the session cookie with the session's expiry and redirects to the dashboard
    ensures resp.RedirectTo? ==>
              && resp.location == Utils.AdminDashboard
              && jar.cookies == old(jar.cookies)[SessionCookie := Cookie(newToken, Some(now + SessionLifetime), None)]
  {
    var stored := jar.Get(StateCookie);
    var rejected := CheckRequest(code, state, stored);
    if rejected.Some? {
      return rejected.value;
    }
    var accessToken := oauth.exchange(code.value);
    if accessToken.None? {
      return Error(400, "Failed to validate authorization code");
    }
    var fetched := oauth.fetchUser(accessToken.value);
    if fetched.None? {
      return Crashed;
    }
    var gh := fetched.value;
    ghost var expected := SignIn(db.users, db.sessions, db.nextUserId, gh, hash(newToken), now);
    var existing := FindByGithubId(db.users, db.nextUserId, gh.id);
    var userId: int;
    if existing.Some? {
      userId := existing.value;
    } else {
      if gh.login.None? {
        return Crashed;
      }
      db.users := InsertUser(db.users, db.nextUserId, gh.id, gh.login.value).value;
      userId := db.nextUserId;
      db.nextUserId := db.nextUserId + 1;
    }
    assert expected.SignedIn? && db.users == expected.users && userId == expected.userId;
    var session := CreateSession(db, newToken, userId, now, hash);
    if session.None? {
      return Crashed;
    }
    SetSessionTokenCookie(jar, newToken, session.value.expiresAt);
    return RedirectTo(Utils.AdminDashboard);
  }
}
