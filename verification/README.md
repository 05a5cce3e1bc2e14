# Volunteer sign-up: reservation engine and client reducer, in Dafny

This project models the core of a small volunteer sign-up system for church services ("cultos").
A service has a date, a capacity and an optional description. Volunteers sign up for one
service each. The model has two halves.

- **The server** (`server.ts`). Its Express handlers read and write two SQLite tables,
  `services` and `volunteers`, synchronously through better-sqlite3. Nothing is awaited between
  the read and the write, so each request runs to completion as one atomic step on Node's single
  thread. `Server.Step` models one request as a pure transition. It takes a database (`Server.Db`:
  both tables plus the two AUTOINCREMENT counters) and a request. It returns the new database, the
  response, and at most one broadcast event (`Records.Event`).
- **The client** (`src/App.tsx`). The `socket.onmessage` handler is a reducer over the local
  `services` and `volunteers` lists (`Client.Apply`). The model also covers the snapshot that
  `fetchData` installs, the per-service count `getVolunteerCount`, and the guard in
  `handleVolunteerSubmit`.

## Modules

- `Wrappers` (wrappers.dfy): `Option`. An absent JSON field or a missed lookup is `None`.
- `Seqs` (seqs.dfy): `Filter`, `Map` and `Find` over sequences. These are `Array.filter`, `Array.map`
  and `Array.find`, and also `DELETE … WHERE`, `UPDATE … WHERE` and `.get()`. The module has their
  lemmas: filtering keeps order, keeps distinct keys distinct and has a multiset characterisation.
- `Strings` (strings.dfy): code-point order on text (`StrLe`) and JavaScript's `String.prototype.trim`.
- `Records` (records.dfy): the table rows, the listing row with `volunteer_count`, the five event kinds,
  the volunteer count, and a sort by date.
- `Server` (server.dfy): one function per route handler, and `Step`. The status code of each
  response is given by `StatusCode`: 201 for a creation, 204 for a deletion, 404 for an unknown
  service on sign-up, and 400 for every other rejection.
- `Invariants`: the schema guarantees (`Valid`) and the capacity invariant (`WithinCapacity`),
  with preservation lemmas for each request.
- `Signups`: a burst of sign-ups for one service, served one after another.
- `Client`: the reducer, the snapshot, the submit guard, and their lemmas.
- `Sync`: how a client view that mirrors the database stays in agreement with it under the
  broadcasts.

Conventions used in the model:

- Body fields follow JavaScript truthiness. A missing text field or `""` is falsy. A missing
  number or `0` is falsy (`TruthyText`, `TruthyNumber`, `Client.Selected`).
- Dates are compared by code point. This is SQLite's BINARY collation. For ISO `YYYY-MM-DD` dates
  it is also the order `localeCompare` gives.

Behaviour of the handlers worth noting:

- Service creation rejects a missing date, a falsy capacity, or a date already in use. It has no
  lower bound on capacity, so a negative capacity is accepted.
- Sign-up has no duplicate-name check.
- Updating or deleting a service does not check that it exists. Deleting a volunteer that does not
  exist answers 204 and broadcasts nothing.
- The submit guard compares against the row's `volunteer_count`. That field is set only by a
  snapshot or by SERVICE_ADDED; no event refreshes it. It is not the live `getVolunteerCount`.

## Model

| member | source | states |
|---|---|---|
| Server.ListServiceRows | server.ts:48-54 | The listing is in ascending date order and has one row per service. Each row's `volunteer_count` equals the number of volunteers with that `service_id`. |
| Server.ListingOrderDetermined | server.ts:52 | With unique dates, `ORDER BY s.date ASC` fixes the order completely: every date-ordered arrangement of the rows equals the listing. |
| Server.CreateServiceStep | server.ts:57-72 | A missing date or a falsy capacity gives 400, and a date already in use gives 400; either way nothing changes and nothing is broadcast. Otherwise exactly one service is appended, with a fresh id (counter + 1) and the given fields. The 201 row and the SERVICE_ADDED payload are the same row, with `volunteer_count` 0. |
| Server.DeleteServiceStep | server.ts:79-87 | Always answers 204 and broadcasts SERVICE_REMOVED with the id. Removes the service, and by the ON DELETE CASCADE every volunteer with that `service_id`. The remaining rows keep their order. An absent id leaves the database unchanged. |
| Server.UpdateCapacityStep | server.ts:94-102 | Rejected (400) only when the capacity is absent. Otherwise only the capacity of the matching service changes: ids, dates, descriptions, order, the other services and all volunteers are untouched. An absent id changes nothing but still answers 200 and broadcasts. |
| Server.AddVolunteerStep | server.ts:115-143 | A missing name or `service_id` gives 400. An unknown service gives 404. A count at or above capacity gives 400 with the count and capacity. In each of these cases nothing changes. Otherwise one volunteer is appended with a fresh id, its service's count grows by exactly 1 and stays within capacity, and VOLUNTEER_ADDED carries the new row. |
| Server.DeleteVolunteerStep | server.ts:150-158 | Always answers 204. An absent id changes nothing and broadcasts nothing. Otherwise only rows with that id are removed, and VOLUNTEER_REMOVED carries the id and the volunteer's `service_id`. |
| Server.Step | server.ts:48-162 | A rejected request leaves the database unchanged and broadcasts nothing. A broadcast never goes with a rejection. DELETE and PATCH of an absent service id still broadcast, with the database unchanged. The two listings change nothing. |
| Server.StepStatus | server.ts:57-162 | A status of 400 or above is sent exactly for a rejection, and then nothing changes. 404 is sent only for a sign-up naming an unknown service. 201 is sent exactly for a creation or sign-up that took effect. 204 is sent exactly for the two deletions. 200 is sent for the listings and for a capacity update that names a capacity. |
| Invariants.CreateServiceKeepsValid | server.ts:64-69 | Creation keeps service ids and dates unique: a duplicate date is never inserted. |
| Invariants.DeleteServiceKeepsValid | server.ts:28 | Deleting a service with its cascade leaves no volunteer pointing at a missing service. |
| Invariants.UpdateCapacityKeepsValid | server.ts:100 | A capacity update keeps ids and dates unique and orphans absent. |
| Invariants.AddVolunteerKeepsValid | server.ts:127-139 | A sign-up inserts only for an existing service, with a fresh volunteer id. |
| Invariants.DeleteVolunteerKeepsValid | server.ts:153-155 | Deleting a volunteer keeps volunteer ids unique. |
| Invariants.StepKeepsValid | server.ts:14-30 | Every request keeps service ids, service dates and volunteer ids unique, keeps ids within the counters, and leaves no orphan volunteer. |
| Invariants.RunKeepsValid | server.ts:14-30 | Every sequence of requests from a valid database ends in a valid database. |
| Invariants.StepKeepsWithinCapacity | server.ts:125-139 | Every request except a capacity update keeps each service's volunteer count within its seats. |
| Invariants.UpdateCapacityKeepsWithinCapacity | server.ts:98-100 | A capacity update keeps every service within its seats when the new capacity still covers that service's current count. |
| Invariants.CapacityReductionOverbooks | server.ts:100 | Lowering a capacity below the current count is accepted and evicts nobody, so the service ends over capacity. |
| Invariants.OverbookedServiceRefusesSignups | server.ts:135-137 | A service whose count is at or above its capacity refuses every further sign-up, and the database is unchanged. |
| Signups.SignupStep | server.ts:126-143 | A sign-up for an existing service succeeds and adds exactly one volunteer exactly when a seat is free. Otherwise nothing changes. |
| Signups.SignupsFillFreeSeats | server.ts:125-139 | Of N sign-ups for a service with F free seats, exactly min(N, F) succeed, and the count grows by exactly that many. |
| Signups.TwoSeatsThreeSignups | server.ts:135-139 | With two seats and three sign-ups, two succeed and the final count is 2. |
| Signups.NegativeCapacityRefusesSignups | server.ts:59-69 | A negative capacity passes creation. The new service then refuses every sign-up. |
| Signups.RunKeepsWithinCapacity | server.ts:115-162 | Any sequence of requests with no capacity update keeps every service within its seats. |
| Records.SortByDate | src/App.tsx:86 | The result is a permutation of the input, in ascending date order. |
| Records.SortedByDateUnique | src/App.tsx:86 | Two date-ordered lists holding the same rows are equal when rows that share a date are the same row. |
| Records.VolunteerCount | src/App.tsx:256-258 | The count is zero exactly when no volunteer has that `service_id`, and never exceeds the list length. |
| Records.VolunteerCountIsPositions | server.ts:50 | The count equals the number of positions holding a volunteer of the service. |
| Records.VolunteerCountRemoveUnique | server.ts:155 | With distinct ids, removing one volunteer lowers its service's count by one and leaves every other count alone. |
| Client.AddVolunteerLocally | src/App.tsx:75-79 | VOLUNTEER_ADDED with an id already present leaves the list unchanged. Otherwise the payload is prepended and the rest keep their order. Either way the id is present afterwards. |
| Client.RemoveVolunteerLocally | src/App.tsx:81-82 | VOLUNTEER_REMOVED leaves no record with the id and keeps every other record. It is a no-op when the id is absent. |
| Client.AddServiceLocally | src/App.tsx:83-87 | SERVICE_ADDED with a known id is a no-op. Otherwise the result is the old list plus the payload, in ascending date order. |
| Client.UpdateServiceLocally | src/App.tsx:88-93 | SERVICE_UPDATED keeps length, ids, dates, descriptions, counts and order. Only the matching capacity changes, and an absent id is a no-op. |
| Client.RemoveServiceLocally | src/App.tsx:94-95 | SERVICE_REMOVED leaves no service with the id and keeps all the others. It is a no-op when the id is absent. |
| Client.Apply | src/App.tsx:73-98 | Volunteer events touch only the volunteers and service events only the services. With the selection passed in, SERVICE_REMOVED clears it exactly when it is the removed id, and leaves the local volunteers untouched. |
| Client.Snapshot | src/App.tsx:116-121 | A snapshot replaces both lists wholesale. When nothing is selected and the list is non-empty, the first service becomes selected; otherwise the selection is kept. |
| Client.FindRowShowsFull | src/App.tsx:134-135 | `services.find` by id reports a full service exactly when the first listed row with that id shows `volunteer_count >= capacity`. |
| Client.SubmitGuard | src/App.tsx:132-138 | Nothing is sent for a blank name, without a selection, or when the first listed service with the selected id shows `volunteer_count >= capacity`. Otherwise the untrimmed name is sent with the selected id. |
| Client.ApplyIdempotent | src/App.tsx:73-98 | Applying any event a second time changes nothing, so duplicate delivery is harmless. |
| Client.DuplicateDeliveryKeepsOneCopy | src/App.tsx:75-79 | A VOLUNTEER_ADDED delivered twice leaves exactly one copy of the volunteer. |
| Client.RemoveVolunteerKeepsOrder | src/App.tsx:82 | Removing a volunteer from a concatenation removes it from each part, so relative order is kept. |
| Client.RemoveServiceKeepsOrder | src/App.tsx:95 | Removing a service from a concatenation removes it from each part, so relative order is kept. |
| Client.ApplyKeepsServicesSorted | src/App.tsx:83-95 | A date-ordered local service list stays date-ordered under every event. |
| Client.ApplyKeepsVolunteerIdsUnique | src/App.tsx:75-82 | The local volunteers never come to hold two records with the same id. |
| Client.LocalCountFollowsEvents | src/App.tsx:75-82 | `getVolunteerCount` rises by one for a new volunteer's service. It falls by one for the service of a removed volunteer. Every other event leaves it unchanged. |
| Client.VolunteerEventsCommute | src/App.tsx:75-82 | Two volunteer events about different ids leave the same volunteers whichever order they arrive in. |
| Client.RemoveAfterAdd | src/App.tsx:76-82 | Adding one volunteer and removing another gives the same list in either order. |
| Strings.Trim | src/App.tsx:132 | `trim()` is empty exactly when every character is whitespace. A non-empty result starts and ends with non-whitespace. It is the part of the input between the leading whitespace and the trailing whitespace, and everything after it is whitespace. |
| Strings.TrimIdempotent | src/App.tsx:132 | Trimming a trimmed name changes nothing. |
| Sync.MirrorCountsAgree | src/App.tsx:256-258 | A client holding the database's volunteers computes the same count as the server's COUNT. |
| Sync.SnapshotMirrors | src/App.tsx:116-118 | After a snapshot whose listing and volunteers both come from the same database state, the view agrees with that database and is date-ordered. Each row's `volunteer_count` equals `getVolunteerCount`. |
| Sync.SignupBetweenReadsLeavesStaleCount | src/App.tsx:108-117 | When a sign-up is served between `fetchData`'s two reads, the snapshot holds a row whose `volunteer_count` differs from `getVolunteerCount`. |
| Sync.CreationBetweenReadsIsLost | src/App.tsx:108-116 | When a service is created between `fetchData`'s two reads, the older listing overwrites the SERVICE_ADDED already applied, and the view misses a live service. |
| Sync.VolunteerViewConverges | server.ts:139-156 | Delivering each step's broadcast keeps the client's volunteers equal (as a multiset) to the database's. This holds for every request except deleting a service that still has volunteers. |
| Sync.CascadeNotMirrored | src/App.tsx:94-96 | Deleting a service that has volunteers makes a mirroring client diverge. The database cascades, but the client keeps those volunteers. |
| Sync.ServiceViewConverges | server.ts:69-101 | Delivering each step's broadcast keeps the client holding the same services as the database (as a set, ignoring order), apart from the stale `volunteer_count`, under every request. |
| Sync.GuardedSubmissionHasFields | src/App.tsx:132-144 | A submission the guard lets through always passes the server's missing-field check. |

## Left out

- HTTP and Express plumbing, JSON parsing and status-code transport are left out. Request bodies
  are typed: date and description are text, capacity and `service_id` are integers. Bodies with
  other JSON types are not modelled: a string capacity, a `null` capacity, a fractional capacity
  (the PATCH echoes `parseInt`). Route parameters arrive already parsed to integers, so the NaN
  case of `parseInt` is not modelled.
- The 500 answers from the `catch` blocks are left out. They would come from storage failures
  outside the model. The handlers' own checks keep the schema's constraints from firing on typed
  input.
- WebSocket fan-out, `readyState` checks and delivery are left out. A broadcast is only the event
  value of a step, and `Sync.Deliver` hands it to one client.
- `created_at`, and the `ORDER BY created_at DESC` of the volunteer listing, are left out: they
  depend on the clock. The volunteer listing is returned in table order, and only its contents
  are claimed.
- React state, hooks, rendering, toasts, `window.confirm` and `prompt` are left out. So are the
  admin password check, date formatting and the percentage bar.
- The reconnect timer is left out: it is a timer. The polling fallback and the client-side
  "my registrations" set are not in this code.
- Client.Apply: takes the selection as an explicit part of the view and clears it when
  SERVICE_REMOVED names it. In the program the handler is only ever installed by the mount effect and
  by its own reconnect (src/App.tsx:59, :101), so the `selectedServiceId` it reads is always the
  initial `null` and the program never clears the selection; the model describes the handler as if
  the current selection were passed in.
- Ids, capacities and counts are unbounded integers. JavaScript numbers are doubles, so beyond
  2^53 they lose precision, and `parseInt` on a large capacity (1e21 echoes as 1) is not modelled.
- Records.SortByDate: states order and permutation only. That rows with equal dates keep their
  input order, as `Array.prototype.sort` guarantees, is not stated. Dates are unique in the
  database, so equal dates arise only in a client list.
- `localeCompare` is modelled as code-point order, not locale collation.
- Invariants.WithinCapacity: states count <= max(capacity, 0) rather than count <= capacity. The
  handler accepts negative capacities, and such a service holds 0 volunteers while 0 > capacity
  (see Signups.NegativeCapacityRefusesSignups).
- Sync.SnapshotMirrors: assumes the listing and the volunteers come from one database state.
  `fetchData` makes two awaited requests (src/App.tsx:108, :112). Other requests can be served in
  between, and a SERVICE_* event applied in the meantime is overwritten by the older listing
  (see Sync.SignupBetweenReadsLeavesStaleCount and Sync.CreationBetweenReadsIsLost). The reconnect
  at src/App.tsx:101 never calls `fetchData`. Events broadcast while a client's socket is not open
  (server.ts:41) stay lost until a manual refresh. So every Sync convergence lemma covers only a
  client that stayed connected.
- Sync.VolunteerViewConverges: requires that a deleted service had no volunteers, because the
  client does not drop the removed service's volunteers (see Sync.CascadeNotMirrored).
