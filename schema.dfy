/**
 * The rows the controller reads and writes, and the store as one value.
 * Times are integers in milliseconds since the epoch. Users, sessions and
 * assets are tables keyed by their unique key (the user id, the session's
 * token hash, the asset id); assignments and events are append-only lists
 * in insertion order, and an assignment's id is its position.
 */
module Schema {

  import opened Wrappers

  datatype User = User(
    username: string,
    passwordHash: string,
    name: string,
    role: string,        // stored role text; only "ADMIN" grants admin rights
    isActive: bool,
    userTagId: string)

  datatype Session = Session(userId: string, createdAt: int, expiresAt: int, lastSeenAt: int)

  datatype AssetStatus = Available | CheckedOut | Missing | Maintenance | Retired

  datatype Asset = Asset(
    assetTagId: string,
    name: string,
    status: AssetStatus,
    holderUserId: Option<string>,
    deletedAt: Option<int>)

  datatype Assignment = Assignment(
    assetId: string,
    userId: string,
    checkedOutAt: int,
    dueAt: Option<int>,
    returnedAt: Option<int>)

  /** The structured `details` payload of the two event kinds this core writes. */
  datatype Details =
    | CheckoutDetails(dueAt: Option<int>)
    | ReturnDetails(assignmentId: nat, returnedAt: int)
    | OtherDetails

  datatype Event = Event(
    ts: int,
    kind: string,
    assetTagId: Option<string>,
    userTagId: Option<string>,
    confidence: real,
    details: Details)

  const CheckoutKind: string := "CHECKOUT"
  const ReturnKind: string := "RETURN"

  datatype Db = Db(
    users: map<string, User>,
    sessions: map<string, Session>,
    assets: map<string, Asset>,
    assignments: seq<Assignment>,
    events: seq<Event>)

  /** The failures the controller raises, by their HTTP exception class. */
  datatype ApiError =
    | BadRequest(message: string)
    | Unauthorized(message: string)
    | Forbidden(message: string)
    | StoreFailure(code: string)   // a store error the controller does not translate

  /** One operation's outcome: what it returns and the store it leaves behind. */
  datatype Step<T> = Step(result: Result<T, ApiError>, db: Db)

  /** User ids are non-empty; usernames and user tags are unique. */
  ghost predicate UsersWellFormed(users: map<string, User>)
  {
    && "" !in users
    && (forall a, b | a in users && b in users && users[a].username == users[b].username :: a == b)
    && (forall a, b | a in users && b in users && users[a].userTagId == users[b].userTagId :: a == b)
  }

  /** Every session belongs to an existing user. */
  ghost predicate SessionsReferToUsers(sessions: map<string, Session>, users: map<string, User>)
  {
    forall h | h in sessions :: sessions[h].userId in users
  }

  /** Holders are existing users; asset tags are unique. */
  ghost predicate AssetsWellFormed(assets: map<string, Asset>, users: map<string, User>)
  {
    && (forall id | id in assets :: assets[id].holderUserId.Some? ==> assets[id].holderUserId.value in users)
    && (forall a, b | a in assets && b in assets && assets[a].assetTagId == assets[b].assetTagId :: a == b)
  }

  /** Every assignment names an existing asset and an existing user. */
  ghost predicate AssignmentsReferToRows(assignments: seq<Assignment>, assets: map<string, Asset>, users: map<string, User>)
  {
    forall i | 0 <= i < |assignments| :: assignments[i].assetId in assets && assignments[i].userId in users
  }

  /**
   * What the store's schema guarantees: ids are non-empty, every reference
   * names an existing row, and usernames, user tags and asset tags are unique.
   */
  ghost predicate WellFormed(db: Db)
  {
    && UsersWellFormed(db.users)
    && SessionsReferToUsers(db.sessions, db.users)
    && AssetsWellFormed(db.assets, db.users)
    && AssignmentsReferToRows(db.assignments, db.assets, db.users)
  }
}
