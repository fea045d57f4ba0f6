/**
 * `lib/db/session.ts`: the session table as a map from session id to
 * `(userId, expiresAt)`, with time in milliseconds.
 *
 * A session id is the lower-case hex SHA-256 of the token the browser holds;
 * that hash is a function the caller supplies (`Hasher`). The table
 * operations are methods over `Schema.Database`; each is proved against a
 * function on the table values (`Validate`, `RemoveSession`,
 * `RemoveUserSessions`), and the lemmas at the end relate creation,
 * validation and renewal.
 */
module Sessions {
  import opened Wrappers
  import opened Schema

  const DayMs: int := 1000 * 60 * 60 * 24
  /** A new or renewed session lives 30 days. */
  const SessionLifetime: int := 30 * DayMs
  /** A session with less than 7 days left is renewed on use. */
  const RenewWindow: int := 7 * DayMs

  /** `encodeHexLowerCase(sha256(utf8(token)))`, left uninterpreted. */
  type Hasher = string -> string

  /** `SessionValidationResult`: both null, or a user and its session. */
  datatype ValidationResult = NoSession | Authenticated(user: User, session: Session)

  /**
   * What `validateSessionToken` returns and what the table becomes, for the
   * session id of the presented token at time `now`.
   */
  function Validate(sessions: map<string, Session>, users: map<int, User>, sessionId: string, now: int)
    : (r: (ValidationResult, map<string, Session>))
    // no row, or no user to join it with: nothing is read back and nothing changes
    ensures sessionId !in sessions || sessions[sessionId].userId !in users ==> r == (NoSession, sessions)
    // expired (strictly past its expiry): the row is deleted
    ensures sessionId in sessions && sessions[sessionId].userId in users && now > sessions[sessionId].expiresAt
            ==> r == (NoSession, sessions - {sessionId})
    // otherwise the caller gets the joined user and a session that has at least 7 days left
    ensures sessionId in sessions && sessions[sessionId].userId in users && now <= sessions[sessionId].expiresAt
            ==> r.0.Authenticated?
    ensures r.0.Authenticated? ==>
              && sessionId in sessions
              && r.0.session.id == sessions[sessionId].id
              && r.0.session.userId == sessions[sessionId].userId
              && r.0.user == users[r.0.session.userId]
              && r.0.session.expiresAt >= now + RenewWindow
              && r.1 == sessions[sessionId := r.0.session]
    // renewal: less than 7 days left moves the expiry to 30 days from now, otherwise it is kept
    ensures r.0.Authenticated? ==>
              r.0.session.expiresAt ==
                (if now + RenewWindow > sessions[sessionId].expiresAt then now + SessionLifetime
                 else sessions[sessionId].expiresAt)
    // no other row is touched
    ensures forall sid :: sid != sessionId ==> (sid in r.1 <==> sid in sessions)
    ensures forall sid :: sid != sessionId && sid in r.1 ==> r.1[sid] == sessions[sid]
    ensures SessionsValid(sessions, users) ==> SessionsValid(r.1, users)
  {
    if sessionId !in sessions || sessions[sessionId].userId !in users then (NoSession, sessions)
    else
      var s := sessions[sessionId];
      if now > s.expiresAt then (NoSession, sessions - {sessionId})
      else if now + RenewWindow > s.expiresAt then
        var renewed := s.(expiresAt := now + SessionLifetime);
        (Authenticated(users[s.userId], renewed), sessions[sessionId := renewed])
      else (Authenticated(users[s.userId], s), sessions)
  }

  /** `invalidateSession`: the table without that one id. */
  function RemoveSession(sessions: map<string, Session>, sessionId: string): (r: map<string, Session>)
    ensures r.Keys == sessions.Keys - {sessionId}
    ensures forall sid :: sid in r ==> r[sid] == sessions[sid]
  {
    sessions - {sessionId}
  }

  /** `invalidateAllSessions`: the table without any session of that user. */
  function RemoveUserSessions(sessions: map<string, Session>, userId: int): (r: map<string, Session>)
    ensures forall sid :: sid in r <==> sid in sessions && sessions[sid].userId != userId
    ensures forall sid :: sid in r ==> r[sid] == sessions[sid]
  {
    map sid | sid in sessions && sessions[sid].userId != userId :: sessions[sid]
  }

  /** Removing rows never breaks the reference from sessions to users. */
  lemma RemovalKeepsSessionsValid(sessions: map<string, Session>, users: map<int, User>, sessionId: string, userId: int)
    requires SessionsValid(sessions, users)
    ensures SessionsValid(RemoveSession(sessions, sessionId), users)
    ensures SessionsValid(RemoveUserSessions(sessions, userId), users)
  {
  }

  method CreateSession(db: Database, token: string, userId: int, now: int, hash: Hasher)
    returns (r: Option<Session>)
    requires db.Valid()
    modifies db
    ensures db.Valid()
    ensures db.users == old(db.users) && db.episodes == old(db.episodes)
    ensures db.nextUserId == old(db.nextUserId) && db.nextEpisodeId == old(db.nextEpisodeId)
    // the row stored is keyed by the token's hash and expires 30 days from now
    ensures r.Some? ==> r.value == Session(hash(token), userId, now + SessionLifetime)
    ensures r.Some? ==> db.sessions == old(db.sessions)[hash(token) := r.value]
    // the insert fails (and throws to the caller) on a duplicate id or an unknown user
    ensures r.None? <==> hash(token) in old(db.sessions) || userId !in old(db.users)
    ensures r.None? ==> db.sessions == old(db.sessions)
  {
    var session := Session(hash(token), userId, now + SessionLifetime);
    var inserted := InsertSession(db.sessions, db.users, session);
    if inserted.None? {
      return None;
    }
    db.sessions := inserted.value;
    return Some(session);
  }

  method ValidateSessionToken(db: Database, token: string, now: int, hash: Hasher)
    returns (r: ValidationResult)
    requires db.Valid()
    modifies db
    ensures db.Valid()
    ensures db.users == old(db.users) && db.episodes == old(db.episodes)
    ensures db.nextUserId == old(db.nextUserId) && db.nextEpisodeId == old(db.nextEpisodeId)
    ensures (r, db.sessions) == Validate(old(db.sessions), old(db.users), hash(token), now)
  {
    var sessionId := hash(token);
    if sessionId !in db.sessions || db.sessions[sessionId].userId !in db.users {
      return NoSession;
    }
    var session := db.sessions[sessionId];
    var user := db.users[session.userId];
    if now > session.expiresAt {
      db.sessions := db.sessions - {sessionId};
      return NoSession;
    }
    if now + RenewWindow > session.expiresAt {
      session := session.(expiresAt := now + SessionLifetime);
      db.sessions := db.sessions[sessionId := session];
    }
    return Authenticated(user, session);
  }

  method InvalidateSession(db: Database, sessionId: string)
    requires db.Valid()
    modifies db
    ensures db.Valid()
    ensures db.sessions == RemoveSession(old(db.sessions), sessionId)
    ensures db.users == old(db.users) && db.episodes == old(db.episodes)
    ensures db.nextUserId == old(db.nextUserId) && db.nextEpisodeId == old(db.nextEpisodeId)
  {
    RemovalKeepsSessionsValid(db.sessions, db.users, sessionId, 0);
    db.sessions := RemoveSession(db.sessions, sessionId);
  }

  method InvalidateAllSessions(db: Database, userId: int)
    requires db.Valid()
    modifies db
    ensures db.Valid()
    ensures db.sessions == RemoveUserSessions(old(db.sessions), userId)
    ensures db.users == old(db.users) && db.episodes == old(db.episodes)
    ensures db.nextUserId == old(db.nextUserId) && db.nextEpisodeId == old(db.nextEpisodeId)
  {
    RemovalKeepsSessionsValid(db.sessions, db.users, "", userId);
    db.sessions := RemoveUserSessions(db.sessions, userId);
  }

  /** A cookie as the response sets it: value, absolute expiry, or `maxAge` (0 clears it). */
  datatype Cookie = Cookie(value: string, expires: Option<int>, maxAge: Option<int>)

  /** The request's cookie store. */
  class CookieJar {
    var cookies: map<string, Cookie>

    constructor (initial: map<string, Cookie>)
      ensures cookies == initial
    {
      cookies := initial;
    }

    /** `cookieStore.get(name)?.value ?? null`. */
    function Get(name: string): (v: Option<string>)
      reads this
      ensures v.Some? <==> name in cookies
      ensures v.Some? ==> v.value == cookies[name].value
    {
      if name in cookies then Some(cookies[name].value) else None
    }
  }

  const SessionCookie: string := "session"

  method SetSessionTokenCookie(jar: CookieJar, token: string, expiresAt: int)
    modifies jar
    ensures jar.cookies == old(jar.cookies)[SessionCookie := Cookie(token, Some(expiresAt), None)]
  {
    jar.cookies := jar.cookies[SessionCookie := Cookie(token, Some(expiresAt), None)];
  }

  method DeleteSessionTokenCookie(jar: CookieJar)
    modifies jar
    ensures jar.cookies == old(jar.cookies)[SessionCookie := Cookie("", None, Some(0))]
  {
    jar.cookies := jar.cookies[SessionCookie := Cookie("", None, Some(0))];
  }

  /** The token `getCurrentSession` validates: the session cookie's value unless absent or empty. */
  function SessionToken(cookies: map<string, Cookie>): (t: Option<string>)
    ensures t.Some? <==> SessionCookie in cookies && cookies[SessionCookie].value != ""
    ensures t.Some? ==> t.value == cookies[SessionCookie].value
  {
    if SessionCookie in cookies && cookies[SessionCookie].value != "" then Some(cookies[SessionCookie].value)
    else None
  }

  /** What `getCurrentSession` returns and what the session table becomes. */
  function CurrentSession(
    cookies: map<string, Cookie>, sessions: map<string, Session>, users: map<int, User>, now: int, hash: Hasher)
    : (r: (ValidationResult, map<string, Session>))
    // without a usable cookie the table is neither read nor written
    ensures SessionToken(cookies).None? ==> r == (NoSession, sessions)
    ensures SessionToken(cookies).Some? ==> r == Validate(sessions, users, hash(SessionToken(cookies).value), now)
  {
    match SessionToken(cookies)
    case None => (NoSession, sessions)
    case Some(token) => Validate(sessions, users, hash(token), now)
  }

  method GetCurrentSession(db: Database, jar: CookieJar, now: int, hash: Hasher)
    returns (r: ValidationResult)
    requires db.Valid()
    modifies db
    ensures db.Valid()
    ensures db.users == old(db.users) && db.episodes == old(db.episodes)
    ensures db.nextUserId == old(db.nextUserId) && db.nextEpisodeId == old(db.nextEpisodeId)
    ensures (r, db.sessions) == CurrentSession(jar.cookies, old(db.sessions), old(db.users), now, hash)
  {
    var token := jar.Get(SessionCookie);
    if token.None? || token.value == "" {
      return NoSession;
    }
    r := ValidateSessionToken(db, token.value, now, hash);
  }

  /**
   * A freshly created session validates, without renewal, at any time up to
   * 23 days after creation, and still validates (renewed) up to its expiry.
   */
  lemma CreatedSessionValidates(
    sessions: map<string, Session>, users: map<int, User>, token: string, userId: int,
    created: int, now: int, hash: Hasher)
    requires userId in users
    requires created <= now <= created + SessionLifetime
    ensures var s := Session(hash(token), userId, created + SessionLifetime);
            var r := Validate(sessions[s.id := s], users, s.id, now);
            && r.0 == Authenticated(users[userId],
                 if now + RenewWindow > created + SessionLifetime then s.(expiresAt := now + SessionLifetime) else s)
  {
  }

  /** A session left untouched past its expiry is gone after the next validation. */
  lemma ExpiredSessionIsDeleted(sessions: map<string, Session>, users: map<int, User>, sessionId: string, now: int)
    requires sessionId in sessions && now > sessions[sessionId].expiresAt
    ensures Validate(sessions, users, sessionId, now).0 == NoSession
    ensures sessionId !in Validate(sessions, users, sessionId, now).1 || sessions[sessionId].userId !in users
  {
  }

  /** Validating again at the same instant changes nothing more: renewal is idempotent. */
  lemma {:induction false} ValidateIdempotent(
    sessions: map<string, Session>, users: map<int, User>, sessionId: string, now: int)
    ensures var first := Validate(sessions, users, sessionId, now);
            Validate(first.1, users, sessionId, now) == first
  {
    var first := Validate(sessions, users, sessionId, now);
    if first.0.Authenticated? {
      var s := first.0.session;
      assert first.1[sessionId] == s;
      assert first.1[sessionId := s] == first.1;
    } else if sessionId in sessions && sessions[sessionId].userId in users {
      assert sessionId !in first.1;
    }
  }
}
