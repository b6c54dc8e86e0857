/**
 * Sessions and the authorisation guard: `login`, `logout`, `resolveUser` and
 * `requireAdmin` as transitions of the store. The token hash (`hashToken`, a
 * SHA-256 hex digest) and the key-derivation function are parameters; the
 * random token is an input.
 */
module Sessions {

  import opened Wrappers
  import opened Schema
  import Text
  import Credentials
  import Cookies

  const SessionCookie: string := "utstyr_session"

  /** One day in milliseconds: 24 * 60 * 60 * 1000. */
  const DayMs: int := 86400000

  /** `hashToken`, left abstract. */
  type TokenHash = string -> string

  datatype Role = AdminRole | UserRole

  /** The identity `resolveUser` returns. */
  datatype AuthUser = AuthUser(
    id: string,
    role: Role,
    userTagId: string,
    username: string,
    name: string,
    isActive: bool)

  const NotAuthenticated: string := "Not authenticated"
  const InvalidSession: string := "Session is invalid or expired"
  const InactiveUser: string := "User is inactive"
  const AdminRequired: string := "Admin role is required for this endpoint"
  const CredentialsRequired: string := "username and password are required"
  const InvalidCredentials: string := "Invalid credentials"

  /** The role mapping of `resolveUser`: ADMIN exactly when the stored text is "ADMIN". */
  function RoleOf(stored: string): (r: Role)
    ensures r == AdminRole <==> stored == "ADMIN"
  {
    if stored == "ADMIN" then AdminRole else UserRole
  }

  function AuthUserOf(id: string, u: User): AuthUser
  {
    AuthUser(id, RoleOf(u.role), u.userTagId, u.username, u.name, u.isActive)
  }

  /** The token the request carries in the session cookie, if any. */
  function SessionToken(cookie: Option<string>): Option<string>
  {
    Cookies.CookieValue(cookie, SessionCookie)
  }

  /**
   * `resolveUser`, given the token `readCookie` found under the session cookie
   * (see `SessionToken`): no token, or no session for its hash, is Unauthorized; an
   * expired session is deleted and Unauthorized; an inactive owner is Forbidden;
   * otherwise the session's `lastSeenAt` becomes `now` and the owner is returned.
   */
  ghost function ResolveUser(db: Db, hash: TokenHash, token: Option<string>, now: int): (s: Step<AuthUser>)
    requires WellFormed(db)
    ensures WellFormed(s.db)
    ensures s.db.users == db.users && s.db.assets == db.assets
    ensures s.db.assignments == db.assignments && s.db.events == db.events
    ensures s.result.Success? ==> s.result.value.id in db.users && s.result.value == AuthUserOf(s.result.value.id, db.users[s.result.value.id])
  {
    if token.None? || token.value == "" then Step(Failure(Unauthorized(NotAuthenticated)), db)
    else
      var h := hash(token.value);
      if h !in db.sessions then Step(Failure(Unauthorized(InvalidSession)), db)
      else if db.sessions[h].expiresAt <= now then
        Step(Failure(Unauthorized(InvalidSession)), db.(sessions := db.sessions - {h}))
      else
        var session := db.sessions[h];
        var u := db.users[session.userId];
        if !u.isActive then Step(Failure(Forbidden(InactiveUser)), db)
        else Step(Success(AuthUserOf(session.userId, u)),
                  db.(sessions := db.sessions[h := session.(lastSeenAt := now)]))
  }

  /** `requireAdmin`: `resolveUser`, then Forbidden unless the role is ADMIN. */
  ghost function RequireAdmin(db: Db, hash: TokenHash, token: Option<string>, now: int): (s: Step<AuthUser>)
    requires WellFormed(db)
    ensures WellFormed(s.db)
    ensures s.db.users == db.users && s.db.assets == db.assets
    ensures s.db.assignments == db.assignments && s.db.events == db.events
    ensures s.result.Success? ==> s.result.value.role == AdminRole
  {
    var r := ResolveUser(db, hash, token, now);
    if r.result.Success? && r.result.value.role != AdminRole then Step(Failure(Forbidden(AdminRequired)), r.db)
    else r
  }

  /** `Math.max(1, maxAgeDays)` days after `now`. */
  function SessionExpiry(now: int, maxAgeDays: int): (expiresAt: int)
    ensures expiresAt - now >= DayMs && (expiresAt - now) % DayMs == 0
    ensures maxAgeDays >= 1 ==> expiresAt - now == maxAgeDays * DayMs
    ensures maxAgeDays < 1 ==> expiresAt - now == DayMs
  {
    now + (if maxAgeDays > 1 then maxAgeDays else 1) * DayMs
  }

  /** `body.username?.trim().toLowerCase()`, with an absent username read as "". */
  function NormalizeUsername(raw: Option<string>): string
  {
    if raw.None? then "" else Text.AsciiLower(Text.Trim(raw.value))
  }

  /** A normalised username has no upper-case ASCII letter and no whitespace at either end. */
  lemma NormalizedUsername(raw: Option<string>)
    ensures var username := NormalizeUsername(raw);
            && (raw.None? ==> username == "")
            && (forall k :: 0 <= k < |username| ==> !('A' <= username[k] <= 'Z'))
            && (username == [] || (!Text.IsWhitespace(username[0]) && !Text.IsWhitespace(username[|username| - 1])))
  {
    if raw.Some? {
      Text.LowerKeepsEnds(Text.Trim(raw.value));
    }
  }

  /** `findUnique({ where: { username } })`. */
  ghost function FindByUsername(users: map<string, User>, username: string): (id: Option<string>)
    ensures id.Some? ==> id.value in users && users[id.value].username == username
    ensures id.None? ==> forall k | k in users :: users[k].username != username
  {
    if exists k :: k in users && users[k].username == username then
      var k :| k in users && users[k].username == username; Some(k)
    else None
  }

  datatype LoginInfo = LoginInfo(id: string, username: string, name: string, role: string)

  /**
   * The checks of `login`: both fields required; an unknown user, an inactive
   * user and a wrong password are the same Unauthorized. On success, the id of
   * the user the credentials belong to.
   */
  ghost function CheckCredentials(users: map<string, User>, kdf: Credentials.Kdf, rawUsername: Option<string>,
                                  rawPassword: Option<string>): (r: Result<string, ApiError>)
    ensures r.Success? ==> r.value in users && users[r.value].isActive && users[r.value].username == NormalizeUsername(rawUsername)
    ensures r.Success? ==> NormalizeUsername(rawUsername) != "" && rawPassword.Some? && rawPassword.value != ""
                           && Credentials.VerifyPassword(kdf, rawPassword.value, users[r.value].passwordHash)
  {
    var username := NormalizeUsername(rawUsername);
    var password := if rawPassword.Some? then rawPassword.value else "";
    if username == "" || password == "" then Failure(BadRequest(CredentialsRequired))
    else
      var found := FindByUsername(users, username);
      if found.None? || !users[found.value].isActive then Failure(Unauthorized(InvalidCredentials))
      else if !Credentials.VerifyPassword(kdf, password, users[found.value].passwordHash) then
        Failure(Unauthorized(InvalidCredentials))
      else Success(found.value)
  }

  /**
   * `login`: the credential checks, then a session stored under the new token's
   * hash. A hash already in the table is a unique-constraint failure.
   */
  ghost function Login(db: Db, hash: TokenHash, kdf: Credentials.Kdf, rawUsername: Option<string>,
                       rawPassword: Option<string>, token: string, now: int, maxAgeDays: int): (s: Step<LoginInfo>)
    requires WellFormed(db)
    ensures WellFormed(s.db)
  {
    var checked := CheckCredentials(db.users, kdf, rawUsername, rawPassword);
    if checked.Failure? then Step(Failure(checked.error), db)
    else
      var u := db.users[checked.value];
      var h := hash(token);
      if h in db.sessions then Step(Failure(StoreFailure("P2002")), db)
      else
        var session := Session(checked.value, now, SessionExpiry(now, maxAgeDays), now);
        Step(Success(LoginInfo(checked.value, u.username, u.name, u.role)),
             db.(sessions := db.sessions[h := session]))
  }

  /** `logout`: every session stored under the token's hash is deleted; it never fails. */
  function Logout(db: Db, hash: TokenHash, token: Option<string>): (db': Db)
    ensures WellFormed(db) ==> WellFormed(db')
    ensures db'.users == db.users && db'.assets == db.assets
    ensures db'.assignments == db.assignments && db'.events == db.events
    ensures token.None? || token.value == "" ==> db'.sessions == db.sessions
    ensures token.Some? && token.value != "" ==> db'.sessions.Keys == db.sessions.Keys - {hash(token.value)}
    ensures forall h | h in db'.sessions :: h in db.sessions && db'.sessions[h] == db.sessions[h]
  {
    if token.None? || token.value == "" then db
    else db.(sessions := db.sessions - {hash(token.value)})
  }

  // ----- Properties of resolveUser and requireAdmin -----

  /** Without a token, or with a token no session is stored for, the request is Unauthorized and nothing changes. */
  lemma ResolveUnknownToken(db: Db, hash: TokenHash, token: Option<string>, now: int)
    requires WellFormed(db)
    requires var t := token; t.None? || t.value == "" || hash(t.value) !in db.sessions
    ensures ResolveUser(db, hash, token, now).result.Failure?
    ensures ResolveUser(db, hash, token, now).result.error.Unauthorized?
    ensures ResolveUser(db, hash, token, now).db == db
  {
  }

  /** An expired session is Unauthorized and is removed; nothing else changes. */
  lemma ResolveExpired(db: Db, hash: TokenHash, token: Option<string>, now: int)
    requires WellFormed(db)
    requires var t := token;
             t.Some? && t.value != "" && hash(t.value) in db.sessions && db.sessions[hash(t.value)].expiresAt <= now
    ensures var s := ResolveUser(db, hash, token, now);
            && s.result == Failure(Unauthorized(InvalidSession))
            && s.db == db.(sessions := db.sessions - {hash(token.value)})
            && hash(token.value) !in s.db.sessions
  {
  }

  /** A live session of an inactive user is Forbidden, and the session is kept. */
  lemma ResolveInactive(db: Db, hash: TokenHash, token: Option<string>, now: int)
    requires WellFormed(db)
    requires var t := token;
             && t.Some? && t.value != "" && hash(t.value) in db.sessions
             && db.sessions[hash(t.value)].expiresAt > now
             && !db.users[db.sessions[hash(t.value)].userId].isActive
    ensures ResolveUser(db, hash, token, now) == Step(Failure(Forbidden(InactiveUser)), db)
  {
  }

  /**
   * A live session of an active user resolves to its owner, with the role mapped
   * from the stored text; only that session's `lastSeenAt` changes.
   */
  lemma ResolveLive(db: Db, hash: TokenHash, token: Option<string>, now: int)
    requires WellFormed(db)
    requires var t := token;
             && t.Some? && t.value != "" && hash(t.value) in db.sessions
             && db.sessions[hash(t.value)].expiresAt > now
             && db.users[db.sessions[hash(t.value)].userId].isActive
    ensures var h := hash(token.value);
            var s := ResolveUser(db, hash, token, now);
            && s.result.Success?
            && s.result.value.id == db.sessions[h].userId
            && (s.result.value.role == AdminRole <==> db.users[db.sessions[h].userId].role == "ADMIN")
            && s.db.users == db.users && s.db.assets == db.assets
            && s.db.assignments == db.assignments && s.db.events == db.events
            && s.db.sessions.Keys == db.sessions.Keys
            && s.db.sessions[h] == db.sessions[h].(lastSeenAt := now)
            && (forall k | k in db.sessions && k != h :: s.db.sessions[k] == db.sessions[k])
  {
  }

  /** Resolution succeeds exactly for a present token naming a live session of an active user. */
  lemma ResolveSucceedsIff(db: Db, hash: TokenHash, token: Option<string>, now: int)
    requires WellFormed(db)
    ensures ResolveUser(db, hash, token, now).result.Success? <==>
              var t := token;
              && t.Some? && t.value != "" && hash(t.value) in db.sessions
              && db.sessions[hash(t.value)].expiresAt > now
              && db.users[db.sessions[hash(t.value)].userId].isActive
  {
  }

  /** `requireAdmin` refuses a resolved USER with Forbidden, after `lastSeenAt` was already touched. */
  lemma RequireAdminRefusesUsers(db: Db, hash: TokenHash, token: Option<string>, now: int)
    requires WellFormed(db)
    requires ResolveUser(db, hash, token, now).result.Success?
    requires ResolveUser(db, hash, token, now).result.value.role == UserRole
    ensures RequireAdmin(db, hash, token, now) == Step(Failure(Forbidden(AdminRequired)), ResolveUser(db, hash, token, now).db)
  {
  }

  /** `requireAdmin` succeeds exactly when `resolveUser` does and the role is ADMIN, with the same effect. */
  lemma RequireAdminAdmits(db: Db, hash: TokenHash, token: Option<string>, now: int)
    requires WellFormed(db)
    ensures var r := ResolveUser(db, hash, token, now);
            var a := RequireAdmin(db, hash, token, now);
            && (a.result.Success? <==> r.result.Success? && r.result.value.role == AdminRole)
            && a.db == r.db
  {
  }

  // ----- Properties of login and logout -----

  /** A missing username or password is a BadRequest and stores nothing. */
  lemma LoginRequiresFields(db: Db, hash: TokenHash, kdf: Credentials.Kdf, rawUsername: Option<string>,
                            rawPassword: Option<string>, token: string, now: int, maxAgeDays: int)
    requires WellFormed(db)
    requires NormalizeUsername(rawUsername) == "" || rawPassword.None? || rawPassword.value == ""
    ensures Login(db, hash, kdf, rawUsername, rawPassword, token, now, maxAgeDays)
            == Step(Failure(BadRequest(CredentialsRequired)), db)
  {
  }

  /** An unknown user, an inactive user and a wrong password get the same Unauthorized, and no session. */
  lemma LoginRefusesBadCredentials(db: Db, hash: TokenHash, kdf: Credentials.Kdf, rawUsername: Option<string>,
                                   rawPassword: Option<string>, token: string, now: int, maxAgeDays: int)
    requires WellFormed(db)
    requires NormalizeUsername(rawUsername) != "" && rawPassword.Some? && rawPassword.value != ""
    requires forall k | k in db.users && db.users[k].username == NormalizeUsername(rawUsername) ::
               !db.users[k].isActive || !Credentials.VerifyPassword(kdf, rawPassword.value, db.users[k].passwordHash)
    ensures Login(db, hash, kdf, rawUsername, rawPassword, token, now, maxAgeDays)
            == Step(Failure(Unauthorized(InvalidCredentials)), db)
  {
  }

  /**
   * An active user with that username, whose stored record verifies the password,
   * logs in, provided the new token's hash is not already stored.
   */
  lemma LoginSucceeds(db: Db, hash: TokenHash, kdf: Credentials.Kdf, rawUsername: Option<string>,
                      rawPassword: Option<string>, token: string, now: int, maxAgeDays: int, id: string)
    requires WellFormed(db)
    requires NormalizeUsername(rawUsername) != "" && rawPassword.Some? && rawPassword.value != ""
    requires id in db.users && db.users[id].isActive && db.users[id].username == NormalizeUsername(rawUsername)
    requires Credentials.VerifyPassword(kdf, rawPassword.value, db.users[id].passwordHash)
    requires hash(token) !in db.sessions
    ensures var s := Login(db, hash, kdf, rawUsername, rawPassword, token, now, maxAgeDays);
            s.result.Success? && s.result.value.id == id
  {
    var found := FindByUsername(db.users, NormalizeUsername(rawUsername));
    assert found.Some?;
    assert found.value == id;
  }

  /**
   * A successful login adds exactly one session, under the token's hash, owned by
   * the user with that username, expiring `max(1, days)` days later; nothing else changes.
   */
  lemma LoginCreatesOneSession(db: Db, hash: TokenHash, kdf: Credentials.Kdf, rawUsername: Option<string>,
                               rawPassword: Option<string>, token: string, now: int, maxAgeDays: int)
    requires WellFormed(db)
    requires Login(db, hash, kdf, rawUsername, rawPassword, token, now, maxAgeDays).result.Success?
    ensures var s := Login(db, hash, kdf, rawUsername, rawPassword, token, now, maxAgeDays);
            var id := s.result.value.id;
            && id in db.users && db.users[id].isActive
            && db.users[id].username == NormalizeUsername(rawUsername)
            && hash(token) !in db.sessions
            && s.db == db.(sessions := db.sessions[hash(token) := Session(id, now, SessionExpiry(now, maxAgeDays), now)])
            && |s.db.sessions| == |db.sessions| + 1
  {
  }

  /**
   * The token of a successful login, sent back in the session cookie before the
   * session expires and while the user is still active, resolves to that user.
   */
  lemma LoginThenResolve(db: Db, hash: TokenHash, kdf: Credentials.Kdf, rawUsername: Option<string>,
                         rawPassword: Option<string>, token: string, now: int, maxAgeDays: int, later: int)
    requires WellFormed(db)
    requires Login(db, hash, kdf, rawUsername, rawPassword, token, now, maxAgeDays).result.Success?
    requires token != "" && ';' !in token && !Text.IsWhitespace(token[|token| - 1])
    requires later < SessionExpiry(now, maxAgeDays)
    ensures var s := Login(db, hash, kdf, rawUsername, rawPassword, token, now, maxAgeDays);
            var r := ResolveUser(s.db, hash, SessionToken(Some(SessionCookie + "=" + token)), later);
            r.result.Success? && r.result.value.id == s.result.value.id
  {
    var s := Login(db, hash, kdf, rawUsername, rawPassword, token, now, maxAgeDays);
    LoginCreatesOneSession(db, hash, kdf, rawUsername, rawPassword, token, now, maxAgeDays);
    SessionCookieCarries(token);
    var h := hash(token);
    assert h in s.db.sessions && s.db.sessions[h].expiresAt > later;
    assert s.db.sessions[h].userId == s.result.value.id;
    assert s.db.users[s.result.value.id].isActive;
  }

  /** A Cookie header holding only the session cookie carries its token. */
  lemma SessionCookieCarries(token: string)
    requires ';' !in token && (token == "" || !Text.IsWhitespace(token[|token| - 1]))
    ensures SessionToken(Some(SessionCookie + "=" + token)) == Some(token)
  {
    Cookies.SingleCookie(SessionCookie, token);
  }

  /** After logout, the same token no longer resolves. */
  lemma LogoutRevokes(db: Db, hash: TokenHash, token: Option<string>, now: int)
    requires WellFormed(db)
    ensures ResolveUser(Logout(db, hash, token), hash, token, now).result.Failure?
    ensures ResolveUser(Logout(db, hash, token), hash, token, now).result.error.Unauthorized?
  {
  }

  /** Logging out twice is logging out once; with no token it changes nothing. */
  lemma LogoutIdempotent(db: Db, hash: TokenHash, token: Option<string>)
    ensures Logout(Logout(db, hash, token), hash, token) == Logout(db, hash, token)
    ensures token.None? || token.value == "" ==> Logout(db, hash, token) == db
  {
  }
}
