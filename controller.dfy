/**
 * `AppController` as an object over the store's tables. Each endpoint method
 * updates the tables step by step, as the controller's Prisma calls do, and
 * promises that its result and the tables it leaves are exactly what the
 * corresponding function of `Sessions`, `Custody`, `Queries` or `Endpoints`
 * describes; the properties proved about those functions therefore hold of
 * the object. Token hashing and the key-derivation function are fixed when
 * the controller is built.
 */
module Controller {

  import opened Wrappers
  import opened Schema
  import Sessions
  import Credentials
  import Cookies
  import Custody
  import Queries
  import Endpoints

  class AppController {

    var users: map<string, User>
    var sessions: map<string, Session>
    var assets: map<string, Asset>
    var assignments: seq<Assignment>
    var events: seq<Event>

    const hashToken: Sessions.TokenHash
    const kdf: Credentials.Kdf

    /** The tables as one store value. */
    function Snapshot(): Db
      reads this
    {
      Db(users, sessions, assets, assignments, events)
    }

    ghost predicate Valid()
      reads this
    {
      WellFormed(Snapshot())
    }

    constructor (hashToken: Sessions.TokenHash, kdf: Credentials.Kdf, initial: Db)
      requires WellFormed(initial)
      ensures Valid() && Snapshot() == initial
      ensures this.hashToken == hashToken && this.kdf == kdf
    {
      this.hashToken := hashToken;
      this.kdf := kdf;
      users := initial.users;
      sessions := initial.sessions;
      assets := initial.assets;
      assignments := initial.assignments;
      events := initial.events;
    }

    /** `readCookie(req, sessionCookie)`. */
    method ReadSessionToken(cookie: Option<string>) returns (token: Option<string>)
      ensures token == Sessions.SessionToken(cookie)
    {
      token := Cookies.ReadCookie(cookie, Sessions.SessionCookie);
    }

    /** The body of `resolveUser` once the token has been read. */
    method Authenticate(token: Option<string>, now: int) returns (r: Result<Sessions.AuthUser, ApiError>)
      requires Valid()
      modifies this
      ensures Valid()
      ensures Step(r, Snapshot()) == Sessions.ResolveUser(old(Snapshot()), hashToken, token, now)
    {
      if token.None? || token.value == "" {
        return Failure(Unauthorized(Sessions.NotAuthenticated));
      }
      var h := hashToken(token.value);
      if h !in sessions || sessions[h].expiresAt <= now {
        if h in sessions {
          sessions := sessions - {h};
        }
        return Failure(Unauthorized(Sessions.InvalidSession));
      }
      var session := sessions[h];
      var owner := users[session.userId];
      if !owner.isActive {
        return Failure(Forbidden(Sessions.InactiveUser));
      }
      sessions := sessions[h := session.(lastSeenAt := now)];
      r := Success(Sessions.AuthUserOf(session.userId, owner));
    }

    /** The body of `requireAdmin` once the token has been read. */
    method Authorize(token: Option<string>, now: int) returns (r: Result<Sessions.AuthUser, ApiError>)
      requires Valid()
      modifies this
      ensures Valid()
      ensures Step(r, Snapshot()) == Sessions.RequireAdmin(old(Snapshot()), hashToken, token, now)
    {
      r := Authenticate(token, now);
      if r.Success? && r.value.role != Sessions.AdminRole {
        r := Failure(Forbidden(Sessions.AdminRequired));
      }
    }

    /** `resolveUser`. */
    method ResolveUser(cookie: Option<string>, now: int) returns (r: Result<Sessions.AuthUser, ApiError>)
      requires Valid()
      modifies this
      ensures Valid()
      ensures Step(r, Snapshot()) == Sessions.ResolveUser(old(Snapshot()), hashToken, Sessions.SessionToken(cookie), now)
    {
      var token := ReadSessionToken(cookie);
      r := Authenticate(token, now);
    }

    /** `requireAdmin`. */
    method RequireAdmin(cookie: Option<string>, now: int) returns (r: Result<Sessions.AuthUser, ApiError>)
      requires Valid()
      modifies this
      ensures Valid()
      ensures Step(r, Snapshot()) == Sessions.RequireAdmin(old(Snapshot()), hashToken, Sessions.SessionToken(cookie), now)
    {
      var token := ReadSessionToken(cookie);
      r := Authorize(token, now);
    }

    /** `user.findUnique({ where: { username } })`: a scan of the users table. */
    method FindUser(username: string) returns (id: Option<string>)
      requires Valid()
      ensures id == Sessions.FindByUsername(users, username)
    {
      var unseen := users.Keys;
      while unseen != {}
        invariant unseen <= users.Keys
        invariant forall k | k in users && k !in unseen :: users[k].username != username
        decreases unseen
      {
        var k :| k in unseen;
        if users[k].username == username {
          return Some(k);
        }
        unseen := unseen - {k};
      }
      return None;
    }

    /** The checks of `login`. */
    method CheckCredentials(rawUsername: Option<string>, rawPassword: Option<string>) returns (r: Result<string, ApiError>)
      requires Valid()
      ensures r == Sessions.CheckCredentials(users, kdf, rawUsername, rawPassword)
    {
      var username := Sessions.NormalizeUsername(rawUsername);
      var password := if rawPassword.Some? then rawPassword.value else "";
      if username == "" || password == "" {
        return Failure(BadRequest(Sessions.CredentialsRequired));
      }
      var found := FindUser(username);
      if found.None? || !users[found.value].isActive {
        return Failure(Unauthorized(Sessions.InvalidCredentials));
      }
      if !Credentials.VerifyPassword(kdf, password, users[found.value].passwordHash) {
        return Failure(Unauthorized(Sessions.InvalidCredentials));
      }
      r := Success(found.value);
    }

    /** `login`, with the fresh token supplied by the caller. */
    method Login(rawUsername: Option<string>, rawPassword: Option<string>, token: string, now: int, maxAgeDays: int)
      returns (r: Result<Sessions.LoginInfo, ApiError>)
      requires Valid()
      modifies this
      ensures Valid()
      ensures Step(r, Snapshot()) ==
              Sessions.Login(old(Snapshot()), hashToken, kdf, rawUsername, rawPassword, token, now, maxAgeDays)
    {
      var checked := CheckCredentials(rawUsername, rawPassword);
      if checked.Failure? {
        return Failure(checked.error);
      }
      var u := users[checked.value];
      var h := hashToken(token);
      if h in sessions {
        return Failure(StoreFailure("P2002"));
      }
      sessions := sessions[h := Session(checked.value, now, Sessions.SessionExpiry(now, maxAgeDays), now)];
      r := Success(Sessions.LoginInfo(checked.value, u.username, u.name, u.role));
    }

    /** `logout`. */
    method Logout(cookie: Option<string>)
      requires Valid()
      modifies this
      ensures Valid()
      ensures Snapshot() == Sessions.Logout(old(Snapshot()), hashToken, Sessions.SessionToken(cookie))
    {
      var token := ReadSessionToken(cookie);
      if token.Some? && token.value != "" {
        sessions := sessions - {hashToken(token.value)};
      }
    }

    /** `assignment.findFirst({ where: { assetId, returnedAt: null } })`. */
    method FindOpen(assetId: string) returns (found: bool)
      ensures found <==> Custody.HasOpen(assignments, assetId)
    {
      for i := 0 to |assignments|
        invariant forall j | 0 <= j < i :: !Custody.IsOpenFor(assignments[j], assetId)
      {
        if Custody.IsOpenFor(assignments[i], assetId) {
          return true;
        }
      }
      return false;
    }

    /** The same query ordered by `checkedOutAt` descending: the index of the latest open assignment. */
    method FindLatestOpen(assetId: string) returns (k: Option<nat>)
      ensures k == Custody.LatestOpen(assignments, assetId)
    {
      k := None;
      for i := 0 to |assignments|
        invariant k == Custody.LatestOpen(assignments[..i], assetId)
      {
        assert assignments[..i + 1][..i] == assignments[..i];
        if Custody.IsOpenFor(assignments[i], assetId) && (k.None? || assignments[k.value].checkedOutAt < assignments[i].checkedOutAt) {
          k := Some(i);
        }
      }
      assert assignments[..|assignments|] == assignments;
    }

    /** The `$transaction` of `checkout`: the checks, then the three writes. */
    method CheckoutTransaction(now: int, assetId: string, userId: string, dueAt: Option<int>)
      returns (r: Result<Assignment, ApiError>)
      modifies this
      ensures Step(r, Snapshot()) == Custody.Checkout(old(Snapshot()), assetId, userId, dueAt, now)
    {
      if assetId == "" || userId == "" {
        return Failure(BadRequest(Custody.IdsRequired));
      }
      if assetId !in assets || assets[assetId].deletedAt.Some? {
        return Failure(BadRequest(Custody.AssetNotFound));
      }
      if userId !in users || !users[userId].isActive {
        return Failure(BadRequest(Custody.UserNotFound));
      }
      var active := FindOpen(assetId);
      if active {
        return Failure(BadRequest(Custody.AlreadyCheckedOut));
      }
      var assignment := Assignment(assetId, userId, now, dueAt, None);
      var asset := assets[assetId];
      var event := Event(now, CheckoutKind, Some(asset.assetTagId), Some(users[userId].userTagId), 1.0,
                         CheckoutDetails(dueAt));
      assignments := assignments + [assignment];
      assets := assets[assetId := asset.(status := CheckedOut, holderUserId := Some(userId))];
      events := events + [event];
      r := Success(assignment);
    }

    /** `checkout`: `requireAdmin`, then the transaction. */
    method Checkout(cookie: Option<string>, now: int, assetId: string, userId: string, dueAt: Option<int>)
      returns (r: Result<Assignment, ApiError>)
      requires Valid()
      modifies this
      ensures Valid()
      ensures Step(r, Snapshot()) ==
              Endpoints.CheckoutEndpoint(old(Snapshot()), hashToken, Sessions.SessionToken(cookie), now, assetId, userId, dueAt)
      ensures old(Custody.Consistent(Snapshot())) ==> Custody.Consistent(Snapshot())
    {
      ghost var before := Snapshot();
      var token := ReadSessionToken(cookie);
      if Custody.Consistent(before) {
        Endpoints.EndpointsPreserveConsistency(before, hashToken, token, now, assetId, userId, dueAt);
      }
      var auth := Authorize(token, now);
      if auth.Failure? {
        return Failure(auth.error);
      }
      r := CheckoutTransaction(now, assetId, userId, dueAt);
    }

    /** The `$transaction` of `returnAsset`: the checks, then the three writes. */
    method ReturnTransaction(now: int, assetId: string) returns (r: Result<Assignment, ApiError>)
      requires Valid()
      modifies this
      ensures Step(r, Snapshot()) == Custody.Return(old(Snapshot()), assetId, now)
    {
      if assetId == "" {
        return Failure(BadRequest(Custody.AssetIdRequired));
      }
      if assetId !in assets {
        return Failure(BadRequest(Custody.AssetNotFound));
      }
      var k := FindLatestOpen(assetId);
      if k.None? {
        return Failure(BadRequest(Custody.NoActiveAssignment));
      }
      var active := assignments[k.value];
      var closed := active.(returnedAt := Some(now));
      var asset := assets[assetId];
      var event := Event(now, ReturnKind, Some(asset.assetTagId), Some(users[active.userId].userTagId), 1.0,
                         ReturnDetails(k.value, now));
      assignments := assignments[k.value := closed];
      assets := assets[assetId := asset.(status := Available, holderUserId := None)];
      events := events + [event];
      r := Success(closed);
    }

    /** `returnAsset`: `requireAdmin`, then the transaction. */
    method ReturnAsset(cookie: Option<string>, now: int, assetId: string) returns (r: Result<Assignment, ApiError>)
      requires Valid()
      modifies this
      ensures Valid()
      ensures Step(r, Snapshot()) == Endpoints.ReturnEndpoint(old(Snapshot()), hashToken, Sessions.SessionToken(cookie), now, assetId)
      ensures old(Custody.Consistent(Snapshot())) ==> Custody.Consistent(Snapshot())
    {
      ghost var before := Snapshot();
      var token := ReadSessionToken(cookie);
      if Custody.Consistent(before) {
        Endpoints.EndpointsPreserveConsistency(before, hashToken, token, now, assetId, "", None);
      }
      var auth := Authorize(token, now);
      if auth.Failure? {
        return Failure(auth.error);
      }
      r := ReturnTransaction(now, assetId);
    }

    /** `assignment.findMany({ where: { returnedAt: null, userId? } })`: a scan in insertion order. */
    method OpenAssignments(scoped: Option<string>) returns (kept: seq<Assignment>)
      ensures kept == Queries.Filter(assignments, Queries.OpenFor(scoped))
    {
      var keep := Queries.OpenFor(scoped);
      kept := [];
      for i := 0 to |assignments|
        invariant kept == Queries.Filter(assignments[..i], keep)
      {
        assert assignments[..i + 1][..i] == assignments[..i];
        if keep(assignments[i]) {
          kept := kept + [assignments[i]];
        }
      }
      assert assignments[..|assignments|] == assignments;
    }

    /** `activeAssignments`: `resolveUser`, then the scoped scan, newest first. */
    method ActiveAssignments(cookie: Option<string>, now: int, userId: Option<string>)
      returns (r: Result<seq<Assignment>, ApiError>)
      requires Valid()
      modifies this
      ensures Valid()
      ensures Step(r, Snapshot()) == Endpoints.ActiveAssignmentsEndpoint(old(Snapshot()), hashToken, Sessions.SessionToken(cookie), now, userId)
    {
      var token := ReadSessionToken(cookie);
      var auth := Authenticate(token, now);
      if auth.Failure? {
        return Failure(auth.error);
      }
      var kept := OpenAssignments(Queries.ScopedUserId(auth.value, userId));
      r := Success(Queries.Reverse(kept));
    }

    /** `event.findMany({ where: { assetTagId?, userTagId? } })`: a scan in insertion order. */
    method MatchingEvents(tags: (Option<string>, Option<string>)) returns (kept: seq<Event>)
      ensures kept == Queries.Filter(events, Queries.MatchesTags(tags))
    {
      var keep := Queries.MatchesTags(tags);
      kept := [];
      for i := 0 to |events|
        invariant kept == Queries.Filter(events[..i], keep)
      {
        assert events[..i + 1][..i] == events[..i];
        if keep(events[i]) {
          kept := kept + [events[i]];
        }
      }
      assert events[..|events|] == events;
    }

    /** `events`: `resolveUser`, the tag filter, the 300 newest matches, then `enrichEvents`. */
    method Events(cookie: Option<string>, now: int, assetId: Option<string>, userId: Option<string>)
      returns (r: Result<seq<Queries.EnrichedEvent>, ApiError>)
      requires Valid()
      modifies this
      ensures Valid()
      ensures Step(r, Snapshot()) == Endpoints.EventsEndpoint(old(Snapshot()), hashToken, Sessions.SessionToken(cookie), now, assetId, userId)
    {
      var token := ReadSessionToken(cookie);
      var auth := Authenticate(token, now);
      if auth.Failure? {
        return Failure(auth.error);
      }
      var kept := MatchingEvents(Queries.TagFilter(Snapshot(), assetId, Queries.ScopedUserId(auth.value, userId)));
      var rows := Queries.Newest(kept, Queries.EventLimit);
      r := Success(Queries.EnrichEvents(Snapshot(), rows));
    }
  }
}
