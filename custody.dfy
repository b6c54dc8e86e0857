/**
 * The custody ledger: the checkout and return transactions as all-or-nothing
 * transitions of the store, and the invariant they keep between assets and
 * their open assignments.
 */
module Custody {

  import opened Wrappers
  import opened Schema

  const IdsRequired: string := "assetId and userId are required"
  const AssetIdRequired: string := "assetId is required"
  const AssetNotFound: string := "Asset not found"
  const UserNotFound: string := "User not found or inactive"
  const AlreadyCheckedOut: string := "Asset is already checked out"
  const NoActiveAssignment: string := "No active assignment for this asset"

  /** An assignment is open (active) while it has no `returnedAt`. */
  predicate IsOpenFor(a: Assignment, assetId: string)
  {
    a.assetId == assetId && a.returnedAt.None?
  }

  /** `findFirst({ where: { assetId, returnedAt: null } })` finds something. */
  predicate HasOpen(s: seq<Assignment>, assetId: string)
  {
    exists i :: 0 <= i < |s| && IsOpenFor(s[i], assetId)
  }

  /**
   * `findFirst({ where: { assetId, returnedAt: null }, orderBy: { checkedOutAt: "desc" } })`:
   * the open assignment of the asset with the latest checkout time (among equal
   * times, the earliest written).
   */
  function LatestOpen(s: seq<Assignment>, assetId: string): (k: Option<nat>)
    ensures k.None? <==> !HasOpen(s, assetId)
    ensures k.Some? ==> k.value < |s| && IsOpenFor(s[k.value], assetId)
    ensures k.Some? ==> forall j | 0 <= j < |s| && IsOpenFor(s[j], assetId) :: s[j].checkedOutAt <= s[k.value].checkedOutAt
  {
    if s == [] then None
    else
      var last := |s| - 1;
      var prev := LatestOpen(s[..last], assetId);
      assert forall j | 0 <= j < last :: s[..last][j] == s[j];
      if IsOpenFor(s[last], assetId) && (prev.None? || s[prev.value].checkedOutAt < s[last].checkedOutAt) then Some(last)
      else prev
  }

  /** No asset has two open assignments. */
  ghost predicate AtMostOneOpen(s: seq<Assignment>, assetId: string)
  {
    forall i, j | 0 <= i < |s| && 0 <= j < |s| && IsOpenFor(s[i], assetId) && IsOpenFor(s[j], assetId) :: i == j
  }

  /**
   * An asset agrees with the ledger: it has a holder iff it is CHECKED_OUT iff it
   * has an open assignment, and the holder is that assignment's user.
   */
  ghost predicate AssetAgrees(asset: Asset, s: seq<Assignment>, assetId: string)
  {
    && (asset.holderUserId.Some? <==> asset.status == CheckedOut)
    && (asset.status == CheckedOut <==> HasOpen(s, assetId))
    && (forall i | 0 <= i < |s| && IsOpenFor(s[i], assetId) :: asset.holderUserId == Some(s[i].userId))
  }

  ghost predicate AssetConsistent(db: Db, assetId: string)
    requires assetId in db.assets
  {
    AtMostOneOpen(db.assignments, assetId) && AssetAgrees(db.assets[assetId], db.assignments, assetId)
  }

  /** The custody invariant, for every asset. */
  ghost predicate Consistent(db: Db)
  {
    forall id | id in db.assets :: AssetConsistent(db, id)
  }

  /**
   * `checkout`: both ids required; the asset must exist and not be deleted, the
   * user must exist and be active, and the asset must have no open assignment
   * (its status is not consulted). On success one assignment is written, the
   * asset becomes CHECKED_OUT with the user as holder, and one CHECKOUT event
   * is appended; on failure nothing is written.
   */
  function Checkout(db: Db, assetId: string, userId: string, dueAt: Option<int>, now: int): (s: Step<Assignment>)
    ensures WellFormed(db) ==> WellFormed(s.db)
  {
    if assetId == "" || userId == "" then Step(Failure(BadRequest(IdsRequired)), db)
    else if assetId !in db.assets || db.assets[assetId].deletedAt.Some? then Step(Failure(BadRequest(AssetNotFound)), db)
    else if userId !in db.users || !db.users[userId].isActive then Step(Failure(BadRequest(UserNotFound)), db)
    else if HasOpen(db.assignments, assetId) then Step(Failure(BadRequest(AlreadyCheckedOut)), db)
    else
      var assignment := Assignment(assetId, userId, now, dueAt, None);
      var asset := db.assets[assetId];
      var event := Event(now, CheckoutKind, Some(asset.assetTagId), Some(db.users[userId].userTagId), 1.0,
                         CheckoutDetails(dueAt));
      Step(Success(assignment),
           db.(assignments := db.assignments + [assignment],
               assets := db.assets[assetId := asset.(status := CheckedOut, holderUserId := Some(userId))],
               events := db.events + [event]))
  }

  /**
   * `returnAsset`: the id is required; the asset must exist (deleted or not) and
   * have an open assignment. The latest open assignment gets `returnedAt = now`,
   * the asset becomes AVAILABLE with no holder, and one RETURN event tagged with
   * the assignment's user is appended; on failure nothing is written.
   */
  function Return(db: Db, assetId: string, now: int): (s: Step<Assignment>)
    requires WellFormed(db)
    ensures WellFormed(s.db)
  {
    if assetId == "" then Step(Failure(BadRequest(AssetIdRequired)), db)
    else if assetId !in db.assets then Step(Failure(BadRequest(AssetNotFound)), db)
    else
      var k := LatestOpen(db.assignments, assetId);
      if k.None? then Step(Failure(BadRequest(NoActiveAssignment)), db)
      else
        var active := db.assignments[k.value];
        var closed := active.(returnedAt := Some(now));
        var asset := db.assets[assetId];
        var event := Event(now, ReturnKind, Some(asset.assetTagId), Some(db.users[active.userId].userTagId), 1.0,
                           ReturnDetails(k.value, now));
        Step(Success(closed),
             db.(assignments := db.assignments[k.value := closed],
                 assets := db.assets[assetId := asset.(status := Available, holderUserId := None)],
                 events := db.events + [event]))
  }

  // ----- Checkout -----

  /** Checkout succeeds exactly when its preconditions hold; otherwise it is a BadRequest that writes nothing. */
  lemma CheckoutSucceedsIff(db: Db, assetId: string, userId: string, dueAt: Option<int>, now: int)
    ensures var s := Checkout(db, assetId, userId, dueAt, now);
            && (s.result.Success? <==>
                  && assetId != "" && userId != ""
                  && assetId in db.assets && db.assets[assetId].deletedAt.None?
                  && userId in db.users && db.users[userId].isActive
                  && !HasOpen(db.assignments, assetId))
            && (s.result.Failure? ==> s.result.error.BadRequest? && s.db == db)
  {
  }

  /**
   * A successful checkout appends one open assignment, marks the asset CHECKED_OUT
   * with the user as holder, appends one CHECKOUT event with the asset's and the
   * user's tags, and changes nothing else.
   */
  lemma CheckoutWrites(db: Db, assetId: string, userId: string, dueAt: Option<int>, now: int)
    requires Checkout(db, assetId, userId, dueAt, now).result.Success?
    ensures var s := Checkout(db, assetId, userId, dueAt, now);
            var a := s.result.value;
            && a == Assignment(assetId, userId, now, dueAt, None)
            && s.db.assignments == db.assignments + [a]
            && s.db.assets == db.assets[assetId := db.assets[assetId].(status := CheckedOut, holderUserId := Some(userId))]
            && s.db.events == db.events + [Event(now, CheckoutKind, Some(db.assets[assetId].assetTagId),
                                                 Some(db.users[userId].userTagId), 1.0, CheckoutDetails(dueAt))]
            && s.db.users == db.users && s.db.sessions == db.sessions
  {
  }

  /** Checking out an asset that was just checked out fails, whoever it is for, and writes nothing. */
  lemma SecondCheckoutFails(db: Db, assetId: string, userId: string, dueAt: Option<int>, now: int,
                            otherUser: string, otherDue: Option<int>, later: int)
    requires Checkout(db, assetId, userId, dueAt, now).result.Success?
    ensures var db1 := Checkout(db, assetId, userId, dueAt, now).db;
            var again := Checkout(db1, assetId, otherUser, otherDue, later);
            && again.result.Failure? && again.db == db1
            && (otherUser != "" && otherUser in db1.users && db1.users[otherUser].isActive ==>
                  again.result.error == BadRequest(AlreadyCheckedOut))
  {
    var db1 := Checkout(db, assetId, userId, dueAt, now).db;
    var last := |db1.assignments| - 1;
    assert IsOpenFor(db1.assignments[last], assetId);
  }

  /** Checkout keeps the custody invariant. */
  lemma CheckoutPreservesConsistency(db: Db, assetId: string, userId: string, dueAt: Option<int>, now: int)
    requires Consistent(db)
    ensures Consistent(Checkout(db, assetId, userId, dueAt, now).db)
  {
    var s := Checkout(db, assetId, userId, dueAt, now);
    if s.result.Success? {
      var a := s.result.value;
      var s0 := db.assignments;
      var s1 := s.db.assignments;
      var n := |s0|;
      assert s1 == s0 + [a];
      forall id | id in s.db.assets
        ensures AssetConsistent(s.db, id)
      {
        assert id in db.assets;
        assert AssetConsistent(db, id);
        if id == assetId {
          assert !HasOpen(s0, id);
          assert forall i | 0 <= i < n :: s1[i] == s0[i] && !IsOpenFor(s1[i], id);
          assert HasOpen(s1, id) by { assert IsOpenFor(s1[n], id); }
        } else {
          assert !IsOpenFor(s1[n], id);
          assert forall i | 0 <= i < n :: s1[i] == s0[i];
          assert HasOpen(s1, id) == HasOpen(s0, id) by {
            if HasOpen(s1, id) {
              var i :| 0 <= i < |s1| && IsOpenFor(s1[i], id);
              assert i < n && IsOpenFor(s0[i], id);
            }
            if HasOpen(s0, id) {
              var i :| 0 <= i < |s0| && IsOpenFor(s0[i], id);
              assert IsOpenFor(s1[i], id);
            }
          }
          assert s.db.assets[id] == db.assets[id];
        }
      }
    }
  }

  // ----- Return -----

  /** Return succeeds exactly when the asset exists and has an open assignment; otherwise it is a BadRequest that writes nothing. */
  lemma ReturnSucceedsIff(db: Db, assetId: string, now: int)
    requires WellFormed(db)
    ensures var s := Return(db, assetId, now);
            && (s.result.Success? <==> assetId != "" && assetId in db.assets && HasOpen(db.assignments, assetId))
            && (s.result.Failure? ==> s.result.error.BadRequest? && s.db == db)
  {
  }

  /**
   * A successful return closes the asset's latest open assignment at `now`, makes
   * the asset AVAILABLE with no holder, appends one RETURN event tagged with the
   * assignment's user, and changes nothing else.
   */
  lemma ReturnWrites(db: Db, assetId: string, now: int)
    requires WellFormed(db)
    requires Return(db, assetId, now).result.Success?
    ensures var s := Return(db, assetId, now);
            var k := LatestOpen(db.assignments, assetId).value;
            var active := db.assignments[k];
            && s.result.value == active.(returnedAt := Some(now))
            && |s.db.assignments| == |db.assignments|
            && s.db.assignments[k] == active.(returnedAt := Some(now))
            && (forall j | 0 <= j < |db.assignments| && j != k :: s.db.assignments[j] == db.assignments[j])
            && s.db.assets == db.assets[assetId := db.assets[assetId].(status := Available, holderUserId := None)]
            && s.db.events == db.events + [Event(now, ReturnKind, Some(db.assets[assetId].assetTagId),
                                                 Some(db.users[active.userId].userTagId), 1.0, ReturnDetails(k, now))]
            && s.db.users == db.users && s.db.sessions == db.sessions
  {
  }

  /** Return keeps the custody invariant. */
  lemma ReturnPreservesConsistency(db: Db, assetId: string, now: int)
    requires WellFormed(db) && Consistent(db)
    ensures Consistent(Return(db, assetId, now).db)
  {
    var s := Return(db, assetId, now);
    if s.result.Success? {
      forall id | id in s.db.assets
        ensures AssetConsistent(s.db, id)
      {
        if id == assetId {
          ReturnSettlesAsset(db, assetId, now);
        } else {
          ReturnLeavesOtherAsset(db, assetId, now, id);
        }
      }
    }
  }

  /** After a return the returned asset has no open assignment left and is AVAILABLE with no holder. */
  lemma ReturnSettlesAsset(db: Db, assetId: string, now: int)
    requires WellFormed(db) && Consistent(db)
    requires Return(db, assetId, now).result.Success?
    ensures assetId in Return(db, assetId, now).db.assets
    ensures AssetConsistent(Return(db, assetId, now).db, assetId)
  {
    var s := Return(db, assetId, now);
    var k := LatestOpen(db.assignments, assetId).value;
    var s0 := db.assignments;
    var s1 := s.db.assignments;
    assert AssetConsistent(db, assetId);
    forall i | 0 <= i < |s1|
      ensures !IsOpenFor(s1[i], assetId)
    {
      if i != k {
        assert s1[i] == s0[i];
      }
    }
  }

  /** A return leaves every other asset's assignments and row as they were. */
  lemma ReturnLeavesOtherAsset(db: Db, assetId: string, now: int, id: string)
    requires WellFormed(db) && Consistent(db)
    requires Return(db, assetId, now).result.Success?
    requires id in db.assets && id != assetId
    ensures id in Return(db, assetId, now).db.assets
    ensures AssetConsistent(Return(db, assetId, now).db, id)
  {
    var s := Return(db, assetId, now);
    var k := LatestOpen(db.assignments, assetId).value;
    var s0 := db.assignments;
    var s1 := s.db.assignments;
    assert AssetConsistent(db, id);
    assert forall i | 0 <= i < |s1| :: IsOpenFor(s1[i], id) == IsOpenFor(s0[i], id);
    assert HasOpen(s1, id) == HasOpen(s0, id);
    assert s.db.assets[id] == db.assets[id];
  }

  /** Under the invariant, returning an asset twice succeeds once and then fails, writing nothing. */
  lemma ReturnTwiceFails(db: Db, assetId: string, now: int, later: int)
    requires WellFormed(db) && Consistent(db)
    requires Return(db, assetId, now).result.Success?
    ensures var db1 := Return(db, assetId, now).db;
            Return(db1, assetId, later) == Step(Failure(BadRequest(NoActiveAssignment)), db1)
  {
    ReturnPreservesConsistency(db, assetId, now);
    var db1 := Return(db, assetId, now).db;
    assert AssetConsistent(db1, assetId);
  }

  /**
   * Checking an asset out and then returning it closes the new assignment, leaves the
   * asset AVAILABLE with no holder, and logs CHECKOUT then RETURN for the same user tag.
   */
  lemma CheckoutThenReturn(db: Db, assetId: string, userId: string, dueAt: Option<int>, now: int, later: int)
    requires WellFormed(db)
    requires Checkout(db, assetId, userId, dueAt, now).result.Success?
    ensures var c := Checkout(db, assetId, userId, dueAt, now);
            var r := Return(c.db, assetId, later);
            && r.result == Success(Assignment(assetId, userId, now, dueAt, Some(later)))
            && r.db.assignments == db.assignments + [Assignment(assetId, userId, now, dueAt, Some(later))]
            && r.db.assets[assetId].status == Available && r.db.assets[assetId].holderUserId.None?
            && |r.db.events| == |db.events| + 2
            && r.db.events[|db.events|].kind == CheckoutKind && r.db.events[|db.events| + 1].kind == ReturnKind
            && r.db.events[|db.events|].userTagId == r.db.events[|db.events| + 1].userTagId
  {
    var c := Checkout(db, assetId, userId, dueAt, now);
    var n := |db.assignments|;
    assert IsOpenFor(c.db.assignments[n], assetId);
    forall j | 0 <= j < n
      ensures !IsOpenFor(c.db.assignments[j], assetId)
    {
      assert c.db.assignments[j] == db.assignments[j];
    }
    assert LatestOpen(c.db.assignments, assetId) == Some(n);
  }

  // ----- Counting open assignments -----

  /** The number of open assignments of an asset. */
  function OpenCount(s: seq<Assignment>, assetId: string): nat
  {
    if s == [] then 0
    else OpenCount(s[..|s| - 1], assetId) + (if IsOpenFor(s[|s| - 1], assetId) then 1 else 0)
  }

  lemma {:induction false} NoOpenCountsZero(s: seq<Assignment>, assetId: string)
    requires !HasOpen(s, assetId)
    ensures OpenCount(s, assetId) == 0
  {
    if s != [] {
      var p := s[..|s| - 1];
      assert forall i | 0 <= i < |p| :: p[i] == s[i];
      NoOpenCountsZero(p, assetId);
    }
  }

  /** Where no asset has two open assignments, each asset has 0 or 1 of them. */
  lemma {:induction false} AtMostOneOpenCount(s: seq<Assignment>, assetId: string)
    requires AtMostOneOpen(s, assetId)
    ensures OpenCount(s, assetId) <= 1
  {
    if s != [] {
      var last := |s| - 1;
      var p := s[..last];
      assert forall i | 0 <= i < last :: p[i] == s[i];
      if IsOpenFor(s[last], assetId) {
        assert forall i | 0 <= i < last :: !IsOpenFor(s[i], assetId);
        NoOpenCountsZero(p, assetId);
      } else {
        AtMostOneOpenCount(p, assetId);
      }
    }
  }
}
