/**
 * The read paths: which rows `activeAssignments` and `events` return for a
 * caller, and how `enrichEvents` attaches the current asset and user to each
 * event by tag. Rows come back newest first, append order standing for the
 * store's `checkedOutAt`/`createdAt` order.
 */
module Queries {

  import opened Wrappers
  import opened Schema
  import Sessions

  /** JavaScript truthiness of an optional string: present and non-empty. */
  predicate Truthy(v: Option<string>)
  {
    v.Some? && v.value != ""
  }

  /** `me.role === "ADMIN" ? userId : me.id`. */
  function ScopedUserId(me: Sessions.AuthUser, requested: Option<string>): (scoped: Option<string>)
    ensures me.role == Sessions.UserRole ==> scoped == Some(me.id)
    ensures me.role == Sessions.AdminRole ==> scoped == requested
  {
    if me.role == Sessions.AdminRole then requested else Some(me.id)
  }

  /** The elements of `s` that `keep` accepts, in order. */
  function Filter<T(!new)>(s: seq<T>, keep: T -> bool): (r: seq<T>)
    ensures |r| <= |s|
    ensures forall x :: x in r <==> x in s && keep(x)
  {
    if s == [] then []
    else
      var prefix := Filter(s[..|s| - 1], keep);
      assert forall x :: x in s <==> x in s[..|s| - 1] || x == s[|s| - 1];
      if keep(s[|s| - 1]) then prefix + [s[|s| - 1]] else prefix
  }

  /** Filtering distributes over concatenation: kept rows stay in their order. */
  lemma {:induction false} FilterConcat<T(!new)>(a: seq<T>, b: seq<T>, keep: T -> bool)
    ensures Filter(a + b, keep) == Filter(a, keep) + Filter(b, keep)
  {
    if b == [] {
      assert a + b == a;
    } else {
      var c, x := b[..|b| - 1], b[|b| - 1];
      FilterConcat(a, c, keep);
      assert (a + b)[..|a + b| - 1] == a + c;
      assert (a + b)[|a + b| - 1] == x;
      var tail := if keep(x) then [x] else [];
      assert Filter(a + b, keep) == Filter(a + c, keep) + tail;
      assert Filter(b, keep) == Filter(c, keep) + tail;
    }
  }

  /** Each kept row occurs in the result exactly as often as in the input. */
  lemma {:induction false} FilterCounts<T(!new)>(s: seq<T>, keep: T -> bool, x: T)
    ensures multiset(Filter(s, keep))[x] == if keep(x) then multiset(s)[x] else 0
  {
    if s != [] {
      var p := s[..|s| - 1];
      FilterCounts(p, keep, x);
      assert s == p + [s[|s| - 1]];
      assert multiset(s) == multiset(p) + multiset{s[|s| - 1]};
    }
  }

  function Reverse<T>(s: seq<T>): (r: seq<T>)
    ensures |r| == |s|
    ensures forall k :: 0 <= k < |s| ==> r[k] == s[|s| - 1 - k]
  {
    if s == [] then [] else [s[|s| - 1]] + Reverse(s[..|s| - 1])
  }

  /** `orderBy: desc, take: limit` over rows kept in insertion order. */
  function Newest<T>(s: seq<T>, limit: nat): (r: seq<T>)
    ensures |r| == if |s| < limit then |s| else limit
    ensures forall k :: 0 <= k < |r| ==> r[k] == s[|s| - 1 - k]
  {
    var n := if |s| < limit then |s| else limit;
    Reverse(s)[..n]
  }

  // ----- Active assignments -----

  function OpenFor(scoped: Option<string>): Assignment -> bool
  {
    (a: Assignment) => a.returnedAt.None? && (Truthy(scoped) ==> a.userId == scoped.value)
  }

  /**
   * `activeAssignments`: the open assignments, restricted to the scoped user when
   * that id is non-empty, newest first.
   */
  function ActiveAssignments(db: Db, me: Sessions.AuthUser, requested: Option<string>): (r: seq<Assignment>)
    ensures |r| <= |db.assignments|
    ensures forall k :: 0 <= k < |r| ==> r[k] in db.assignments && r[k].returnedAt.None?
  {
    Reverse(Filter(db.assignments, OpenFor(ScopedUserId(me, requested))))
  }

  /**
   * A caller who is not an admin sees exactly their own open assignments,
   * whatever user id they ask for.
   */
  lemma ActiveAssignmentsOfUser(db: Db, me: Sessions.AuthUser, requested: Option<string>)
    requires me.role == Sessions.UserRole && me.id != ""
    ensures forall a :: a in ActiveAssignments(db, me, requested) <==>
                          a in db.assignments && a.returnedAt.None? && a.userId == me.id
  {
    var f := Filter(db.assignments, OpenFor(ScopedUserId(me, requested)));
    var r := Reverse(f);
    forall a
      ensures a in r <==> a in f
    {
      if a in f {
        var k :| 0 <= k < |f| && f[k] == a;
        assert r[|f| - 1 - k] == a;
      }
    }
  }

  /** An admin who names a user sees that user's open assignments; one who names nobody sees them all. */
  lemma ActiveAssignmentsOfAdmin(db: Db, me: Sessions.AuthUser, requested: Option<string>)
    requires me.role == Sessions.AdminRole
    ensures forall a :: a in ActiveAssignments(db, me, requested) <==>
                          a in db.assignments && a.returnedAt.None? && (Truthy(requested) ==> a.userId == requested.value)
  {
    var f := Filter(db.assignments, OpenFor(ScopedUserId(me, requested)));
    var r := Reverse(f);
    forall a
      ensures a in r <==> a in f
    {
      if a in f {
        var k :| 0 <= k < |f| && f[k] == a;
        assert r[|f| - 1 - k] == a;
      }
    }
  }

  // ----- Events -----

  const EventLimit: nat := 300

  /** The tag filter of `events`: an asset or user that is named but not found adds no condition. */
  function TagFilter(db: Db, assetId: Option<string>, scoped: Option<string>): (tags: (Option<string>, Option<string>))
    ensures tags.0.Some? <==> Truthy(assetId) && assetId.value in db.assets
    ensures tags.0.Some? ==> tags.0.value == db.assets[assetId.value].assetTagId
    ensures tags.1.Some? <==> Truthy(scoped) && scoped.value in db.users
    ensures tags.1.Some? ==> tags.1.value == db.users[scoped.value].userTagId
  {
    var assetTag := if Truthy(assetId) && assetId.value in db.assets then Some(db.assets[assetId.value].assetTagId) else None;
    var userTag := if Truthy(scoped) && scoped.value in db.users then Some(db.users[scoped.value].userTagId) else None;
    (assetTag, userTag)
  }

  function MatchesTags(tags: (Option<string>, Option<string>)): Event -> bool
  {
    (e: Event) => (tags.0.Some? ==> e.assetTagId == tags.0) && (tags.1.Some? ==> e.userTagId == tags.1)
  }

  /** `events`: the 300 newest events matching the asset and the scoped user. */
  function ListEvents(db: Db, me: Sessions.AuthUser, assetId: Option<string>, requested: Option<string>): (r: seq<Event>)
    ensures |r| <= EventLimit
    ensures forall k :: 0 <= k < |r| ==>
              r[k] in db.events && MatchesTags(TagFilter(db, assetId, ScopedUserId(me, requested)))(r[k])
  {
    Newest(Filter(db.events, MatchesTags(TagFilter(db, assetId, ScopedUserId(me, requested)))), EventLimit)
  }

  /**
   * A caller who is not an admin gets the newest (at most 300) of the events that
   * carry their own user tag and match the asset filter, whatever user id they
   * ask for; when there are at most 300 such events, all of them.
   */
  lemma ListEventsOfUser(db: Db, me: Sessions.AuthUser, assetId: Option<string>, requested: Option<string>)
    requires me.role == Sessions.UserRole && me.id != ""
    requires me.id in db.users && db.users[me.id].userTagId == me.userTagId
    ensures var r := ListEvents(db, me, assetId, requested);
            var tags := TagFilter(db, assetId, Some(me.id));
            var f := Filter(db.events, MatchesTags(tags));
            && r == Newest(f, EventLimit)
            && tags.1 == Some(me.userTagId)
            && |r| <= EventLimit
            && (forall k :: 0 <= k < |r| ==> r[k].userTagId == Some(me.userTagId) && r[k] in db.events)
            && (|f| <= EventLimit ==>
                  forall e :: e in r <==> e in db.events && e.userTagId == Some(me.userTagId)
                                          && (tags.0.Some? ==> e.assetTagId == tags.0))
  {
    var tags := TagFilter(db, assetId, Some(me.id));
    var f := Filter(db.events, MatchesTags(tags));
    var r := ListEvents(db, me, assetId, requested);
    assert r == Newest(f, EventLimit);
    forall k | 0 <= k < |r|
      ensures r[k].userTagId == Some(me.userTagId) && r[k] in db.events
    {
      assert r[k] in f;
    }
    if |f| <= EventLimit {
      forall e
        ensures e in r <==> e in f
      {
        if e in f {
          var k :| 0 <= k < |f| && f[k] == e;
          assert r[|f| - 1 - k] == e;
        }
      }
    }
  }

  /**
   * An admin naming a user id that does not exist, and no asset, gets the newest
   * events of everyone: the unknown user adds no condition.
   */
  lemma ListEventsUnknownUser(db: Db, me: Sessions.AuthUser, requested: Option<string>)
    requires me.role == Sessions.AdminRole
    requires requested.Some? && requested.value !in db.users
    ensures ListEvents(db, me, None, requested) == Newest(db.events, EventLimit)
  {
    var f := Filter(db.events, MatchesTags(TagFilter(db, None, requested)));
    FilterAll(db.events, MatchesTags(TagFilter(db, None, requested)));
  }

  lemma {:induction false} FilterAll<T(!new)>(s: seq<T>, keep: T -> bool)
    requires forall x :: keep(x)
    ensures Filter(s, keep) == s
  {
    if s != [] {
      FilterAll(s[..|s| - 1], keep);
      assert s == s[..|s| - 1] + [s[|s| - 1]];
    }
  }

  // ----- enrichEvents -----

  datatype EnrichedEvent = EnrichedEvent(event: Event, asset: Option<Asset>, user: Option<User>)

  /** `[...new Set(tags.filter(Boolean))]`: the non-empty tags, each once, in order of first appearance. */
  function DistinctTags(tags: seq<Option<string>>): (r: seq<string>)
    ensures forall t :: t in r <==> Truthy(Some(t)) && Some(t) in tags
    ensures forall i, j | 0 <= i < j < |r| :: r[i] != r[j]
  {
    if tags == [] then []
    else
      var last := tags[|tags| - 1];
      var prefix := DistinctTags(tags[..|tags| - 1]);
      assert forall t :: t in tags <==> t in tags[..|tags| - 1] || t == last;
      if Truthy(last) && last.value !in prefix then prefix + [last.value] else prefix
  }

  function AssetTags(events: seq<Event>): seq<Option<string>>
  {
    seq(|events|, k requires 0 <= k < |events| => events[k].assetTagId)
  }

  function UserTags(events: seq<Event>): seq<Option<string>>
  {
    seq(|events|, k requires 0 <= k < |events| => events[k].userTagId)
  }

  /** `findMany({ where: { assetTagId: { in: tags } } })` turned into `new Map(tag => asset)`. */
  function AssetsByTag(assets: map<string, Asset>, tags: seq<string>): (m: map<string, Asset>)
    requires forall a, b | a in assets && b in assets && assets[a].assetTagId == assets[b].assetTagId :: a == b
    ensures forall t :: t in m <==> t in tags && exists id :: id in assets && assets[id].assetTagId == t
    ensures forall t | t in m :: m[t].assetTagId == t && exists id :: id in assets && assets[id] == m[t]
  {
    map id | id in assets && assets[id].assetTagId in tags :: assets[id].assetTagId := assets[id]
  }

  /** `findMany({ where: { userTagId: { in: tags } } })` turned into `new Map(tag => user)`. */
  function UsersByTag(users: map<string, User>, tags: seq<string>): (m: map<string, User>)
    requires forall a, b | a in users && b in users && users[a].userTagId == users[b].userTagId :: a == b
    ensures forall t :: t in m <==> t in tags && exists id :: id in users && users[id].userTagId == t
    ensures forall t | t in m :: m[t].userTagId == t && exists id :: id in users && users[id] == m[t]
  {
    map id | id in users && users[id].userTagId in tags :: users[id].userTagId := users[id]
  }

  function Lookup<V>(m: map<string, V>, tag: Option<string>): Option<V>
  {
    if Truthy(tag) && tag.value in m then Some(m[tag.value]) else None
  }

  /**
   * `enrichEvents`: one batched lookup per table over the distinct tags, then
   * each event gets the asset and the user its tags name, or null.
   */
  function EnrichEvents(db: Db, events: seq<Event>): (r: seq<EnrichedEvent>)
    requires UsersWellFormed(db.users) && AssetsWellFormed(db.assets, db.users)
    ensures |r| == |events|
    ensures forall k :: 0 <= k < |r| ==> r[k].event == events[k]
    ensures forall k :: 0 <= k < |r| ==> r[k].asset == Lookup(AssetIndex(db, events), events[k].assetTagId)
    ensures forall k :: 0 <= k < |r| ==> r[k].user == Lookup(UserIndex(db, events), events[k].userTagId)
  {
    var assetMap := AssetIndex(db, events);
    var userMap := UserIndex(db, events);
    EnrichAll(assetMap, userMap, events)
  }

  function EnrichAll(assetMap: map<string, Asset>, userMap: map<string, User>, events: seq<Event>): (r: seq<EnrichedEvent>)
    ensures |r| == |events|
    ensures forall k :: 0 <= k < |r| ==> r[k] == Enrich(assetMap, userMap, events[k])
  {
    if events == [] then []
    else EnrichAll(assetMap, userMap, events[..|events| - 1]) + [Enrich(assetMap, userMap, events[|events| - 1])]
  }

  function Enrich(assetMap: map<string, Asset>, userMap: map<string, User>, e: Event): EnrichedEvent
  {
    EnrichedEvent(e, Lookup(assetMap, e.assetTagId), Lookup(userMap, e.userTagId))
  }

  function AssetIndex(db: Db, events: seq<Event>): map<string, Asset>
    requires AssetsWellFormed(db.assets, db.users)
  {
    AssetsByTag(db.assets, DistinctTags(AssetTags(events)))
  }

  function UserIndex(db: Db, events: seq<Event>): map<string, User>
    requires forall a, b | a in db.users && b in db.users && db.users[a].userTagId == db.users[b].userTagId :: a == b
  {
    UsersByTag(db.users, DistinctTags(UserTags(events)))
  }

  /** A direct lookup of the asset carrying `tag`, the reference the batched index is held to. */
  ghost function AssetWithTag(assets: map<string, Asset>, tag: string): Option<Asset>
  {
    if exists id :: id in assets && assets[id].assetTagId == tag then
      var id :| id in assets && assets[id].assetTagId == tag;
      Some(assets[id])
    else None
  }

  /** A direct lookup of the user carrying `tag`. */
  ghost function UserWithTag(users: map<string, User>, tag: string): Option<User>
  {
    if exists id :: id in users && users[id].userTagId == tag then
      var id :| id in users && users[id].userTagId == tag;
      Some(users[id])
    else None
  }

  lemma AssetIndexIsDirect(db: Db, events: seq<Event>, k: nat)
    requires AssetsWellFormed(db.assets, db.users)
    requires k < |events|
    ensures Lookup(AssetIndex(db, events), events[k].assetTagId)
            == if Truthy(events[k].assetTagId) then AssetWithTag(db.assets, events[k].assetTagId.value) else None
  {
    var tag := events[k].assetTagId;
    if Truthy(tag) {
      var t := tag.value;
      assert AssetTags(events)[k] == tag;
      assert t in DistinctTags(AssetTags(events));
      var m := AssetIndex(db, events);
      if exists id :: id in db.assets && db.assets[id].assetTagId == t {
        assert t in m;
        var id :| id in db.assets && db.assets[id] == m[t];
        assert AssetWithTag(db.assets, t) == Some(db.assets[id]);
      }
    }
  }

  lemma UserIndexIsDirect(db: Db, events: seq<Event>, k: nat)
    requires forall a, b | a in db.users && b in db.users && db.users[a].userTagId == db.users[b].userTagId :: a == b
    requires k < |events|
    ensures Lookup(UserIndex(db, events), events[k].userTagId)
            == if Truthy(events[k].userTagId) then UserWithTag(db.users, events[k].userTagId.value) else None
  {
    var tag := events[k].userTagId;
    if Truthy(tag) {
      var t := tag.value;
      assert UserTags(events)[k] == tag;
      assert t in DistinctTags(UserTags(events));
      var m := UserIndex(db, events);
      if exists id :: id in db.users && db.users[id].userTagId == t {
        assert t in m;
        var id :| id in db.users && db.users[id] == m[t];
        assert UserWithTag(db.users, t) == Some(db.users[id]);
      }
    }
  }

  /**
   * The batched enrichment gives each event what a direct lookup of its tags
   * would: the asset (deleted or not) and the user carrying the tag, or nothing
   * when the tag is empty or names no row.
   */
  lemma EnrichIsDirectLookup(db: Db, events: seq<Event>, k: nat)
    requires WellFormed(db)
    requires k < |events|
    ensures var r := EnrichEvents(db, events)[k];
            var e := events[k];
            && r.event == e
            && r.asset == (if Truthy(e.assetTagId) then AssetWithTag(db.assets, e.assetTagId.value) else None)
            && r.user == (if Truthy(e.userTagId) then UserWithTag(db.users, e.userTagId.value) else None)
  {
    AssetIndexIsDirect(db, events, k);
    UserIndexIsDirect(db, events, k);
  }
}
