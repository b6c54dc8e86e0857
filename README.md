# Asset custody API: a verified model of the controller

This project models the API controller of an asset-custody service
(`apps/api/src/app.controller.ts`). The service tracks physical assets and
which user holds each one. It has three parts, and the model covers all three
over one in-memory store. The store holds users, sessions keyed by token hash,
assets, assignments and an append-only event list.

- **Custody ledger.** `checkout` and `returnAsset` each run as one all-or-nothing step. A step either fails with a BadRequest and writes nothing, or it writes an assignment, updates the asset's status and holder, and appends exactly one event.
  - The invariant proved for both is the custody invariant. No asset has two open assignments. An asset has a holder iff it is CHECKED_OUT iff it has an open assignment. The holder is that assignment's user.
- **Sessions and authorisation.** `login`, `logout`, `resolveUser` and `requireAdmin` are modelled as transitions of the store.
  - The caller scoping of `activeAssignments` and `events` is modelled too.
  - `enrichEvents`, the batched tag lookup, is proved equal to a direct lookup per event.
- **Pure helpers.** These are:
  - the `scrypt$salt$digest` password record and its check;
  - Node's hex codec;
  - `readCookie`, a simplified reading of the Cookie header of section 4.2.1 of RFC 6265;
  - `mapPrismaError`.

Layout, one module per file:

| file | module | what it holds |
|---|---|---|
| `wrappers.dfy` | `Wrappers` | `Option`, `Result` |
| `text.dfy` | `Text` | `split`/`join`, `trim`, ASCII `toLowerCase` |
| `hex.dfy` | `Hex` | `toString("hex")` and `Buffer.from(s, "hex")` |
| `credentials.dfy` | `Credentials` | `hashPassword`, `verifyPassword` |
| `cookies.dfy` | `Cookies` | `readCookie` |
| `store_errors.dfy` | `StoreErrors` | `mapPrismaError` |
| `schema.dfy` | `Schema` | rows, the store `Db`, errors, the schema's guarantees (`WellFormed`) |
| `sessions.dfy` | `Sessions` | `resolveUser`, `requireAdmin`, `login`, `logout` |
| `custody.dfy` | `Custody` | `checkout`, `returnAsset`, the custody invariant |
| `queries.dfy` | `Queries` | `activeAssignments`, `events`, `enrichEvents` |
| `endpoints.dfy` | `Endpoints` | authentication composed with each endpoint |
| `controller.dfy` | `Controller` | `AppController`, the class whose fields are the tables |

The operations are first stated as functions on a store value `Db`. Each
returns a `Step`: the endpoint's result and the store it leaves behind.

`Controller.AppController` performs the same operations step by step on its
fields. Every method's postcondition says that its result and new fields are
exactly the `Step` of the matching function. So every lemma proved about the
functions also holds of the object. The scans (`findFirst`, `findMany` and the
username lookup) are loops with invariants. `readCookie` is its loop with an
early return.

Time is an integer count of milliseconds. The clock, the fresh session token,
`dueAt` and the configured session lifetime in days are parameters.
`hashToken` (SHA-256 as hex) and `scryptSync(…, 64)` are function-valued
parameters with no further assumptions.

`returnAsset` does not check `deletedAt` (line 541), and `enrichEvents`
attaches soft-deleted assets (lines 137-141). The model does the same.

## Model

| member | source | states |
|---|---|---|
| Text.Split | apps/api/src/app.controller.ts:53 | `split` gives at least one field and no field contains the separator |
| Text.SplitNoSep | apps/api/src/app.controller.ts:69 | a string without the separator splits into itself alone |
| Text.SplitJoin | apps/api/src/app.controller.ts:49-53 | splitting the separator-joined list of separator-free fields gives the list back |
| Text.TrimUnchanged | apps/api/src/app.controller.ts:67 | `trim` leaves a string that neither starts nor ends with whitespace unchanged |
| Text.Join | apps/api/src/app.controller.ts:39 | joining no fields gives ""; a join starts with its first field |
| Text.Trim | apps/api/src/app.controller.ts:67 | `trim` returns a slice of its input with only whitespace removed at both ends; the result neither starts nor ends with whitespace |
| Text.AsciiLower | apps/api/src/app.controller.ts:164 | lower-casing keeps the length, leaves no A-Z, and changes only A-Z letters, each to its lower-case letter |
| Text.JoinSplit | apps/api/src/app.controller.ts:69-70 | joining the `=`-split fields of a string with `=` gives the string back, so `rest.join("=")` keeps every later `=` |
| Text.SplitAfterField | apps/api/src/app.controller.ts:69 | splitting `a + sep + b`, where `a` has no separator, gives `a` followed by the split of `b` |
| Hex.DigitRoundTrip | apps/api/src/app.controller.ts:48-57 | reading back the hex digit written for 0..15 gives the number |
| Hex.Encode | apps/api/src/app.controller.ts:48 | hex encoding gives two lower-case hex digits per byte |
| Hex.Decode | apps/api/src/app.controller.ts:56-57 | hex decoding yields at most one byte per two characters |
| Hex.DecodeEncode | apps/api/src/app.controller.ts:48-57 | decoding the encoding of any byte string gives it back |
| Hex.DecodeStopsAtJunk | apps/api/src/app.controller.ts:56 | decoding stops at the first pair that is not two hex digits, whichever of its two characters is the junk, and ignores the rest, as Node's `Buffer.from(s, "hex")` does |
| Credentials.HashPassword | apps/api/src/app.controller.ts:47-50 | the record starts with `scrypt$`, has the length of algorithm, salt, two separators and two hex digits per key byte, and ends in lower-case hex |
| Credentials.ParseRecord | apps/api/src/app.controller.ts:53 | the three fields read by `split("$")` contain no `$` |
| Credentials.VerifyPassword | apps/api/src/app.controller.ts:52-59 | true iff the record's first field is `scrypt`, salt and stored digest are non-empty, and the decoded stored digest equals the derived key of password and salt (equal lengths and equal bytes) |
| Credentials.ParseWrittenRecord | apps/api/src/app.controller.ts:49-53 | for a `$`-free salt and digest, parsing `scrypt$salt$digest` recovers exactly `scrypt`, the salt and the digest |
| Credentials.ParseHashPassword | apps/api/src/app.controller.ts:47-53 | parsing a record written by `hashPassword` recovers its salt and the hex of the derived key |
| Credentials.VerifyOwnRecord | apps/api/src/app.controller.ts:47-59 | a password verifies against the record `hashPassword` wrote for it (non-empty `$`-free salt, non-empty key) |
| Credentials.VerifyRefusesOtherDigest | apps/api/src/app.controller.ts:47-59 | a password whose derived key differs does not verify against another password's record |
| Cookies.Pairs | apps/api/src/app.controller.ts:67 | the header gives as many trimmed pairs as it has `;`-separated parts |
| Cookies.FirstMatch | apps/api/src/app.controller.ts:68-73 | none iff no pair's name equals the key; otherwise the value of the first pair whose name equals the key |
| Cookies.CookieValue | apps/api/src/app.controller.ts:65-74 | nothing for an absent or empty header; a value found belongs to a pair whose name is the key |
| Cookies.ReadCookie | apps/api/src/app.controller.ts:65-74 | the loop with early return computes `CookieValue`: nothing for an absent or empty header, else the first match |
| Cookies.PairOf | apps/api/src/app.controller.ts:69-70 | a pair `k=v` with no `=` in `k` has name `k` and value `v`, `=` inside `v` kept |
| Cookies.SinglePair | apps/api/src/app.controller.ts:67 | a header with no `;` and no surrounding whitespace is one pair |
| Cookies.SingleCookie | apps/api/src/app.controller.ts:65-74 | a header holding only `key=v` yields `v` for `key` |
| StoreErrors.MapPrismaError | apps/api/src/app.controller.ts:35-45 | P2002 and P2003, and only they, become a BadRequest, with the field list or the relation message; every other error is rethrown unchanged |
| StoreErrors.DuplicateMessageNamesFields | apps/api/src/app.controller.ts:38-39 | the duplicate message lists the target fields in order, separated by `, ` |
| StoreErrors.JoinCommaSpace | apps/api/src/app.controller.ts:39 | the `, `-joined field list splits at `,` into the first field and the others each preceded by a space |
| Sessions.RoleOf | apps/api/src/app.controller.ts:98 | the role is ADMIN iff the stored text is exactly "ADMIN", else USER |
| Sessions.SessionExpiry | apps/api/src/app.controller.ts:174-175 | a session lives exactly `max(1, days)` days: `days` days when `days >= 1`, one day otherwise |
| Sessions.FindByUsername | apps/api/src/app.controller.ts:168 | finds a user with that username, or reports that none has it |
| Sessions.NormalizedUsername | apps/api/src/app.controller.ts:164 | the normalised username has no upper-case ASCII letter and no surrounding whitespace; an absent username is "" |
| Sessions.CheckCredentials | apps/api/src/app.controller.ts:164-171 | a success needs a non-empty username and password, and names an active user with the normalised username whose stored record verifies the password |
| Sessions.ResolveUser | apps/api/src/app.controller.ts:76-104 | keeps the schema's guarantees, changes only the sessions table, and a resolved identity is its owner's row with the role mapped |
| Sessions.RequireAdmin | apps/api/src/app.controller.ts:106-110 | as `ResolveUser`, and a success is always an ADMIN |
| Sessions.Login | apps/api/src/app.controller.ts:159-187 | keeps the schema's guarantees |
| Sessions.Logout | apps/api/src/app.controller.ts:189-198 | keeps the schema's guarantees; removes exactly the session under the token's hash (none without a token), keeps every other session as it was, and leaves users, assets, assignments and events unchanged |
| Sessions.ResolveUnknownToken | apps/api/src/app.controller.ts:77-87 | no token, or no session for its hash: Unauthorized and nothing changes |
| Sessions.ResolveExpired | apps/api/src/app.controller.ts:84-87 | an expired session: Unauthorized, and exactly that session is deleted |
| Sessions.ResolveInactive | apps/api/src/app.controller.ts:88 | a live session of an inactive user: Forbidden, and the session is kept |
| Sessions.ResolveLive | apps/api/src/app.controller.ts:90-103 | a live session of an active user resolves to its owner with the role mapped; only that session's `lastSeenAt` changes |
| Sessions.ResolveSucceedsIff | apps/api/src/app.controller.ts:76-104 | resolution succeeds iff the token names a live session of an active user |
| Sessions.RequireAdminRefusesUsers | apps/api/src/app.controller.ts:106-110 | a resolved USER is Forbidden, after `lastSeenAt` was touched |
| Sessions.RequireAdminAdmits | apps/api/src/app.controller.ts:106-110 | succeeds iff resolution succeeds with ADMIN, with the same effect on the store |
| Sessions.LoginRequiresFields | apps/api/src/app.controller.ts:164-166 | an empty normalised username or an empty password is a BadRequest that stores nothing |
| Sessions.LoginRefusesBadCredentials | apps/api/src/app.controller.ts:168-170 | an unknown user, an inactive user and a wrong password give the same Unauthorized, and no session |
| Sessions.LoginSucceeds | apps/api/src/app.controller.ts:164-187 | an active user with the normalised username whose record verifies the non-empty password logs in as that user, when the token's hash is not yet stored |
| Sessions.LoginCreatesOneSession | apps/api/src/app.controller.ts:172-183 | a successful login adds exactly one session, under the token's hash, owned by the matching active user, expiring `max(1, days)` days later; nothing else changes |
| Sessions.LoginThenResolve | apps/api/src/app.controller.ts:159-187 | the token of a successful login, sent back in the session cookie before expiry, resolves to the user who logged in |
| Sessions.SessionCookieCarries | apps/api/src/app.controller.ts:65-74 | a header holding only `utstyr_session=token` carries the token |
| Sessions.LogoutRevokes | apps/api/src/app.controller.ts:189-198 | after logout, the same token no longer resolves (Unauthorized) |
| Sessions.LogoutIdempotent | apps/api/src/app.controller.ts:189-198 | logging out twice equals logging out once; with no token nothing changes |
| Custody.LatestOpen | apps/api/src/app.controller.ts:533-538 | none iff the asset has no open assignment; otherwise an open assignment of the asset whose `checkedOutAt` is the latest |
| Custody.Checkout | apps/api/src/app.controller.ts:478-521 | keeps the schema's guarantees |
| Custody.Return | apps/api/src/app.controller.ts:523-568 | keeps the schema's guarantees |
| Custody.CheckoutSucceedsIff | apps/api/src/app.controller.ts:484-497 | succeeds iff both ids are given, the asset exists undeleted, the user exists and is active, and no assignment is open; otherwise a BadRequest that writes nothing (status is not consulted) |
| Custody.CheckoutWrites | apps/api/src/app.controller.ts:499-519 | appends the open assignment `{assetId, userId, now, dueAt}`; the assets table differs only in that asset's status (CHECKED_OUT) and holder (the user); appends exactly the CHECKOUT event with both tags, confidence 1 and `dueAt`; users and sessions unchanged |
| Custody.SecondCheckoutFails | apps/api/src/app.controller.ts:497 | a second checkout of the same asset fails and writes nothing; for a valid user the error is "already checked out" |
| Custody.CheckoutPreservesConsistency | apps/api/src/app.controller.ts:492-506 | checkout keeps the custody invariant |
| Custody.ReturnSucceedsIff | apps/api/src/app.controller.ts:529-542 | succeeds iff the id is given, the asset exists (deleted or not) and has an open assignment; otherwise a BadRequest that writes nothing |
| Custody.ReturnWrites | apps/api/src/app.controller.ts:544-567 | closes the latest open assignment at `now` and no other; the assets table differs only in that asset's status (AVAILABLE) and holder (none); appends exactly the RETURN event tagged with the asset and the assignment's user, naming the assignment and `now`; users and sessions unchanged |
| Custody.ReturnPreservesConsistency | apps/api/src/app.controller.ts:534-553 | return keeps the custody invariant |
| Custody.ReturnSettlesAsset | apps/api/src/app.controller.ts:544-553 | after a return the asset has no open assignment and agrees with the ledger |
| Custody.ReturnLeavesOtherAsset | apps/api/src/app.controller.ts:544-553 | a return leaves every other asset consistent |
| Custody.ReturnTwiceFails | apps/api/src/app.controller.ts:542 | under the invariant, a second return of the same asset fails with "No active assignment" and writes nothing |
| Custody.CheckoutThenReturn | apps/api/src/app.controller.ts:478-568 | checkout then return closes the new assignment, leaves the asset AVAILABLE without holder, and logs CHECKOUT then RETURN for the same user tag |
| Custody.NoOpenCountsZero | apps/api/src/app.controller.ts:492 | with no open assignment the count of open assignments is 0 |
| Custody.AtMostOneOpenCount | apps/api/src/app.controller.ts:492-506 | where no two open assignments share the asset, the asset's open-assignment count is at most 1 |
| Queries.Filter | apps/api/src/app.controller.ts:574-575 | the kept rows are exactly the rows the condition accepts |
| Queries.FilterConcat | apps/api/src/app.controller.ts:575-577 | filtering distributes over concatenation, so kept rows keep their relative order |
| Queries.FilterCounts | apps/api/src/app.controller.ts:574-575 | each accepted row occurs in the result as often as in the input, each rejected row not at all |
| Queries.ScopedUserId | apps/api/src/app.controller.ts:573 | a USER is scoped to their own id whatever the request names; an ADMIN to the requested id |
| Queries.ActiveAssignments | apps/api/src/app.controller.ts:570-579 | at most as many rows as the table, each an open assignment from it |
| Queries.TagFilter | apps/api/src/app.controller.ts:585-593 | an asset (user) tag condition exists iff a non-empty id names an existing asset (user), and is that row's tag |
| Queries.ListEvents | apps/api/src/app.controller.ts:581-597 | at most 300 events, each an existing event matching the tag filter |
| Queries.Reverse | apps/api/src/app.controller.ts:577 | newest-first order is insertion order reversed |
| Queries.Newest | apps/api/src/app.controller.ts:593-594 | the `take: 300` newest rows, newest first |
| Queries.FilterAll | apps/api/src/app.controller.ts:590-592 | a condition every row meets keeps every row in order |
| Queries.ActiveAssignmentsOfUser | apps/api/src/app.controller.ts:570-579 | a non-admin sees exactly their own open assignments, whatever user id they ask for |
| Queries.ActiveAssignmentsOfAdmin | apps/api/src/app.controller.ts:570-579 | an admin sees the named user's open assignments, or all of them when no id is given |
| Queries.ListEventsOfUser | apps/api/src/app.controller.ts:581-597 | a non-admin gets the newest (at most 300) of the events carrying their own user tag and matching the asset filter, whatever user id they ask for; all of them when there are at most 300 |
| Queries.ListEventsUnknownUser | apps/api/src/app.controller.ts:585-592 | an admin naming a user that does not exist, and no asset, gets everyone's newest events |
| Queries.DistinctTags | apps/api/src/app.controller.ts:135-136 | the tag list holds each non-empty tag of the events exactly once |
| Queries.AssetsByTag | apps/api/src/app.controller.ts:137-141 | the asset index has exactly the requested tags that some asset carries, each mapped to that asset |
| Queries.UsersByTag | apps/api/src/app.controller.ts:137-142 | the user index has exactly the requested tags that some user carries, each mapped to that user |
| Queries.EnrichEvents | apps/api/src/app.controller.ts:134-149 | one enriched entry per event, in order, each with its event and the index lookups of its two tags |
| Queries.EnrichAll | apps/api/src/app.controller.ts:144-148 | maps every event to its entry |
| Queries.AssetIndexIsDirect | apps/api/src/app.controller.ts:135-146 | the batched asset lookup of an event equals a direct lookup of its tag |
| Queries.UserIndexIsDirect | apps/api/src/app.controller.ts:136-147 | the batched user lookup of an event equals a direct lookup of its tag |
| Queries.EnrichIsDirectLookup | apps/api/src/app.controller.ts:134-149 | each enriched event carries the asset and the user its tags name, or null when the tag is empty or names no row |
| Endpoints.CheckoutEndpoint | apps/api/src/app.controller.ts:478-521 | `requireAdmin` then checkout keeps the schema's guarantees |
| Endpoints.ReturnEndpoint | apps/api/src/app.controller.ts:523-568 | `requireAdmin` then return keeps the schema's guarantees |
| Endpoints.ActiveAssignmentsEndpoint | apps/api/src/app.controller.ts:570-579 | `resolveUser` then the scoped query keeps the schema's guarantees |
| Endpoints.EventsEndpoint | apps/api/src/app.controller.ts:581-600 | `resolveUser` then the scoped, enriched query keeps the schema's guarantees |
| Endpoints.UserCannotCheckout | apps/api/src/app.controller.ts:483 | a USER-role caller's checkout is Forbidden and leaves users, assets, assignments and events unchanged |
| Endpoints.UserCannotReturn | apps/api/src/app.controller.ts:528 | the same for returns |
| Endpoints.AdminCheckoutRecordsOneEvent | apps/api/src/app.controller.ts:478-521 | an admin's valid checkout succeeds, appends the assignment and exactly one CHECKOUT event with the asset's and user's tags |
| Endpoints.EndpointsPreserveConsistency | apps/api/src/app.controller.ts:478-568 | both ledger endpoints keep the custody invariant, authorised or not |
| Endpoints.LedgerConsistency | apps/api/src/app.controller.ts:76-104 | the custody invariant does not depend on the sessions table |
| Endpoints.UserSeesOwnEvents | apps/api/src/app.controller.ts:581-600 | a USER-role caller gets, one entry each and in order, the newest (at most 300) of the events carrying their own user tag and matching the asset filter |
| Endpoints.UserSeesOwnAssignments | apps/api/src/app.controller.ts:570-579 | a USER-role caller gets exactly their own open assignments |
| Controller.AppController.constructor | apps/api/src/app.controller.ts:32 | the controller starts on a store satisfying the schema's guarantees |
| Controller.AppController.ReadSessionToken | apps/api/src/app.controller.ts:77 | reads the session cookie's token |
| Controller.AppController.Authenticate | apps/api/src/app.controller.ts:78-103 | its result and new tables are those of `Sessions.ResolveUser` |
| Controller.AppController.Authorize | apps/api/src/app.controller.ts:106-110 | its result and new tables are those of `Sessions.RequireAdmin` |
| Controller.AppController.ResolveUser | apps/api/src/app.controller.ts:76-104 | `resolveUser` on the request's cookie, as `Sessions.ResolveUser` |
| Controller.AppController.RequireAdmin | apps/api/src/app.controller.ts:106-110 | `requireAdmin` on the request's cookie, as `Sessions.RequireAdmin` |
| Controller.AppController.FindUser | apps/api/src/app.controller.ts:168 | the scan of the users table finds the user `Sessions.FindByUsername` names |
| Controller.AppController.CheckCredentials | apps/api/src/app.controller.ts:164-171 | the checks give the result of `Sessions.CheckCredentials` |
| Controller.AppController.Login | apps/api/src/app.controller.ts:159-187 | its result and new tables are those of `Sessions.Login` |
| Controller.AppController.Logout | apps/api/src/app.controller.ts:189-198 | its new tables are those of `Sessions.Logout` |
| Controller.AppController.FindOpen | apps/api/src/app.controller.ts:492 | the scan finds an open assignment of the asset iff one exists |
| Controller.AppController.FindLatestOpen | apps/api/src/app.controller.ts:533-538 | the scan finds the assignment `Custody.LatestOpen` names |
| Controller.AppController.CheckoutTransaction | apps/api/src/app.controller.ts:488-520 | the transaction's result and writes are those of `Custody.Checkout` |
| Controller.AppController.Checkout | apps/api/src/app.controller.ts:478-521 | result and tables as `Endpoints.CheckoutEndpoint`; the custody invariant is kept |
| Controller.AppController.ReturnTransaction | apps/api/src/app.controller.ts:531-567 | the transaction's result and writes are those of `Custody.Return` |
| Controller.AppController.ReturnAsset | apps/api/src/app.controller.ts:523-568 | result and tables as `Endpoints.ReturnEndpoint`; the custody invariant is kept |
| Controller.AppController.OpenAssignments | apps/api/src/app.controller.ts:574-575 | the scan keeps exactly the open assignments of the scoped user |
| Controller.AppController.ActiveAssignments | apps/api/src/app.controller.ts:570-579 | result and tables as `Endpoints.ActiveAssignmentsEndpoint` |
| Controller.AppController.MatchingEvents | apps/api/src/app.controller.ts:590-593 | the scan keeps exactly the events matching the tag filter |
| Controller.AppController.Events | apps/api/src/app.controller.ts:581-600 | result and tables as `Endpoints.EventsEndpoint` |

## Left out

- Cryptography. `scryptSync`, `createHash("sha256")` and `randomBytes` are not modelled. The key derivation and the token hash are abstract functions, and the fresh token and salt are inputs.
- `timingSafeEqual` is plain byte-sequence equality. Constant-time comparison is a timing property and is not stated.
- `hashToken` is not assumed injective. Two tokens with the same hash address the same session. At login, a hash already in the table fails as the store's unique-constraint error P2002.
- `decodeURIComponent` in `readCookie` is the identity. Its percent-decoding and its URIError on malformed input are not modelled.
- `toLowerCase` in `login` lower-cases ASCII letters only. Other Unicode case mappings are not modelled.
- Dates. `new Date(body.dueDate)` and `Number(process.env.SESSION_MAX_AGE_DAYS ?? 7)` can give NaN or fractions, which is not modelled. `dueAt` is an optional integer and the lifetime is an integer number of days.
- Ordering. `orderBy: checkedOutAt desc` in `activeAssignments` and `orderBy: createdAt desc` in `events` are modelled as reversed insertion order. This assumes the clock never goes backwards, and that among equal `createdAt`/`checkedOutAt` values the later-written row comes first. The database leaves that order open, so at the `take: 300` boundary it may return a different event than `Queries.ListEvents`, `Queries.ListEventsOfUser` and `Endpoints.UserSeesOwnEvents` name, and equal-time rows may come back in another order.
- Custody.LatestOpen: `returnAsset` picks the open assignment with the latest `checkedOutAt`, but among equal `checkedOutAt` values the database decides which one comes first; the model picks the earliest written one. Under the custody invariant an asset has only one open assignment, so the tie cannot arise there.
- Store defaults. Prisma's `createdAt`, `checkedOutAt` and `lastSeenAt` defaults are taken to be the same `now` as the request. `updatedAt` columns and cuid ids are not modelled. An assignment's id is its position in the list.
- Concurrency. Each transaction and each endpoint is one atomic step. Serialisability, `Promise.all` interleavings and transaction conflicts are not modelled.
- Cookie transport. `setSessionCookie` and `clearSessionCookie` are framework I/O and are not modelled.
- Other endpoints are not part of this model: the root and `auth/me` endpoints, `me`, `users`, `createUser`, `updateUser`, `assets`, `assetById`, `assetHistory`, `createAsset`, `updateAsset`, `deleteAsset`, `scanLookup` and `seed`. Each is either a pass-through query or a write with no invariant. `updateAsset` and `deleteAsset` can break the custody invariant, so no invariant is claimed for them.
- Included relations (`include: { user, asset, categoryRel, locationRel }`) are not modelled. Active assignments come back as bare rows.
- The Prisma client is not part of this model. The tables are maps and sequences, and the store's schema guarantees (unique keys, existing references) are the predicate `Schema.WellFormed`.
- Controller.AppController.constructor: the controller starts from a given store instead of a database connection, because seeding and connecting are outside the model.
