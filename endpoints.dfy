/**
 * The endpoints as the controller exposes them: each first authenticates the
 * caller (`requireAdmin` for the ledger writes, `resolveUser` for the reads)
 * and only then runs its own step on the store that authentication left
 * behind. `token` is what `readCookie` found under the session cookie.
 */
module Endpoints {

  import opened Wrappers
  import opened Schema
  import Sessions
  import Custody
  import Queries

  /** `POST /assignments/checkout`. */
  ghost function CheckoutEndpoint(db: Db, hash: Sessions.TokenHash, token: Option<string>, now: int,
                                  assetId: string, userId: string, dueAt: Option<int>): (s: Step<Assignment>)
    requires WellFormed(db)
    ensures WellFormed(s.db)
  {
    var auth := Sessions.RequireAdmin(db, hash, token, now);
    if auth.result.Failure? then Step(Failure(auth.result.error), auth.db)
    else Custody.Checkout(auth.db, assetId, userId, dueAt, now)
  }

  /** `POST /assignments/return`. */
  ghost function ReturnEndpoint(db: Db, hash: Sessions.TokenHash, token: Option<string>, now: int,
                                assetId: string): (s: Step<Assignment>)
    requires WellFormed(db)
    ensures WellFormed(s.db)
  {
    var auth := Sessions.RequireAdmin(db, hash, token, now);
    if auth.result.Failure? then Step(Failure(auth.result.error), auth.db)
    else Custody.Return(auth.db, assetId, now)
  }

  /** `GET /assignments/active`. */
  ghost function ActiveAssignmentsEndpoint(db: Db, hash: Sessions.TokenHash, token: Option<string>, now: int,
                                           userId: Option<string>): (s: Step<seq<Assignment>>)
    requires WellFormed(db)
    ensures WellFormed(s.db)
  {
    var auth := Sessions.ResolveUser(db, hash, token, now);
    if auth.result.Failure? then Step(Failure(auth.result.error), auth.db)
    else Step(Success(Queries.ActiveAssignments(auth.db, auth.result.value, userId)), auth.db)
  }

  /** `GET /events`. */
  ghost function EventsEndpoint(db: Db, hash: Sessions.TokenHash, token: Option<string>, now: int,
                                assetId: Option<string>, userId: Option<string>): (s: Step<seq<Queries.EnrichedEvent>>)
    requires WellFormed(db)
    ensures WellFormed(s.db)
  {
    var auth := Sessions.ResolveUser(db, hash, token, now);
    if auth.result.Failure? then Step(Failure(auth.result.error), auth.db)
    else
      var rows := Queries.ListEvents(auth.db, auth.result.value, assetId, userId);
      Step(Success(Queries.EnrichEvents(auth.db, rows)), auth.db)
  }

  /** The ledger tables: everything but the sessions. */
  predicate SameLedger(a: Db, b: Db)
  {
    a.users == b.users && a.assets == b.assets && a.assignments == b.assignments && a.events == b.events
  }

  /**
   * A caller who is signed in with the USER role cannot check an asset out: the
   * request is Forbidden and the ledger is untouched, whatever the body says.
   */
  lemma UserCannotCheckout(db: Db, hash: Sessions.TokenHash, token: Option<string>, now: int,
                           assetId: string, userId: string, dueAt: Option<int>)
    requires WellFormed(db)
    requires var r := Sessions.ResolveUser(db, hash, token, now);
             r.result.Success? && r.result.value.role == Sessions.UserRole
    ensures var s := CheckoutEndpoint(db, hash, token, now, assetId, userId, dueAt);
            s.result == Failure(Forbidden(Sessions.AdminRequired)) && SameLedger(s.db, db)
  {
    Sessions.RequireAdminRefusesUsers(db, hash, token, now);
  }

  /** The same holds for returns. */
  lemma UserCannotReturn(db: Db, hash: Sessions.TokenHash, token: Option<string>, now: int, assetId: string)
    requires WellFormed(db)
    requires var r := Sessions.ResolveUser(db, hash, token, now);
             r.result.Success? && r.result.value.role == Sessions.UserRole
    ensures var s := ReturnEndpoint(db, hash, token, now, assetId);
            s.result == Failure(Forbidden(Sessions.AdminRequired)) && SameLedger(s.db, db)
  {
    Sessions.RequireAdminRefusesUsers(db, hash, token, now);
  }

  /**
   * An admin's checkout of an existing, undeleted, free asset for an active user
   * succeeds and appends exactly one CHECKOUT event carrying the asset's and the
   * user's tags.
   */
  lemma AdminCheckoutRecordsOneEvent(db: Db, hash: Sessions.TokenHash, token: Option<string>, now: int,
                                     assetId: string, userId: string, dueAt: Option<int>)
    requires WellFormed(db)
    requires var r := Sessions.ResolveUser(db, hash, token, now);
             r.result.Success? && r.result.value.role == Sessions.AdminRole
    requires assetId != "" && assetId in db.assets && db.assets[assetId].deletedAt.None?
    requires userId != "" && userId in db.users && db.users[userId].isActive
    requires !Custody.HasOpen(db.assignments, assetId)
    ensures var s := CheckoutEndpoint(db, hash, token, now, assetId, userId, dueAt);
            && s.result == Success(Assignment(assetId, userId, now, dueAt, None))
            && s.db.events == db.events + [Event(now, CheckoutKind, Some(db.assets[assetId].assetTagId),
                                                 Some(db.users[userId].userTagId), 1.0, CheckoutDetails(dueAt))]
            && s.db.assignments == db.assignments + [s.result.value]
  {
    Sessions.RequireAdminAdmits(db, hash, token, now);
  }

  /** The custody invariant survives every ledger endpoint, authorised or not. */
  lemma EndpointsPreserveConsistency(db: Db, hash: Sessions.TokenHash, token: Option<string>, now: int,
                                     assetId: string, userId: string, dueAt: Option<int>)
    requires WellFormed(db) && Custody.Consistent(db)
    ensures Custody.Consistent(CheckoutEndpoint(db, hash, token, now, assetId, userId, dueAt).db)
    ensures Custody.Consistent(ReturnEndpoint(db, hash, token, now, assetId).db)
  {
    var auth := Sessions.RequireAdmin(db, hash, token, now);
    LedgerConsistency(db, auth.db);
    if auth.result.Success? {
      Custody.CheckoutPreservesConsistency(auth.db, assetId, userId, dueAt, now);
      Custody.ReturnPreservesConsistency(auth.db, assetId, now);
    }
  }

  /** The custody invariant does not look at sessions. */
  lemma LedgerConsistency(a: Db, b: Db)
    requires SameLedger(a, b) && Custody.Consistent(a)
    ensures Custody.Consistent(b)
  {
    forall id | id in b.assets
      ensures Custody.AssetConsistent(b, id)
    {
      assert Custody.AssetConsistent(a, id);
    }
  }

  /**
   * A USER-role caller listing events gets the newest (at most 300) of the events
   * carrying their own user tag that match the asset filter, whatever user id the
   * request names, each entry holding its event.
   */
  lemma UserSeesOwnEvents(db: Db, hash: Sessions.TokenHash, token: Option<string>, now: int,
                          assetId: Option<string>, userId: Option<string>)
    requires WellFormed(db)
    requires var r := Sessions.ResolveUser(db, hash, token, now);
             r.result.Success? && r.result.value.role == Sessions.UserRole
    ensures var s := EventsEndpoint(db, hash, token, now, assetId, userId);
            var me := Sessions.ResolveUser(db, hash, token, now).result.value;
            var own := Queries.Newest(Queries.Filter(db.events, Queries.MatchesTags(Queries.TagFilter(db, assetId, Some(me.id)))),
                                      Queries.EventLimit);
            && s.result.Success?
            && |s.result.value| == |own| <= Queries.EventLimit
            && (forall k :: 0 <= k < |own| ==> s.result.value[k].event == own[k])
            && forall k :: 0 <= k < |s.result.value| ==>
                 s.result.value[k].event.userTagId == Some(me.userTagId) && s.result.value[k].event in db.events
  {
    var r := Sessions.ResolveUser(db, hash, token, now);
    var me := r.result.value;
    assert me.id in db.users && db.users[me.id].userTagId == me.userTagId && me.id != "";
    Queries.ListEventsOfUser(r.db, me, assetId, userId);
    var rows := Queries.ListEvents(r.db, me, assetId, userId);
    var enriched := Queries.EnrichEvents(r.db, rows);
    assert Queries.TagFilter(r.db, assetId, Some(me.id)) == Queries.TagFilter(db, assetId, Some(me.id));
    assert EventsEndpoint(db, hash, token, now, assetId, userId) == Step(Success(enriched), r.db);
    forall k | 0 <= k < |enriched|
      ensures enriched[k].event.userTagId == Some(me.userTagId) && enriched[k].event in db.events
    {
      assert enriched[k].event == rows[k];
    }
  }

  /** A USER-role caller listing active assignments sees exactly their own open ones. */
  lemma UserSeesOwnAssignments(db: Db, hash: Sessions.TokenHash, token: Option<string>, now: int,
                               userId: Option<string>)
    requires WellFormed(db)
    requires var r := Sessions.ResolveUser(db, hash, token, now);
             r.result.Success? && r.result.value.role == Sessions.UserRole
    ensures var s := ActiveAssignmentsEndpoint(db, hash, token, now, userId);
            var me := Sessions.ResolveUser(db, hash, token, now).result.value;
            && s.result.Success?
            && forall a :: a in s.result.value <==> a in db.assignments && a.returnedAt.None? && a.userId == me.id
  {
    var r := Sessions.ResolveUser(db, hash, token, now);
    Queries.ActiveAssignmentsOfUser(r.db, r.result.value, userId);
  }
}
