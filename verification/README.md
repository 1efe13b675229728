# Note synchronisation protocol — a Dafny model

This project models the core of a notes application whose clients edit the
same notes while disconnected. The server and the clients reconcile those
edits with one integer version per note.

- **Server sync processor** (`POST /notes/sync`, module `SyncServer`). A
  sequential fold over the client's changes against a store keyed by
  (owner, note id). Each change has one of five outcomes:
  - created at version 1;
  - updated, with the version bumped by one;
  - "Missing required fields";
  - "Version conflict", carrying the server's title and content;
  - "Client version ahead of server".

  The `PUT /notes/:id` merge is modelled next to it for contrast.
- **Client sync orchestrator** (`useSyncNotes`, module `SyncClient`). It does
  the following:
  - snapshots the cached list into a change batch;
  - drops a trigger while a sync is in flight;
  - merges the `applied` notes back by id and replaces the conflict queue;
  - resolves conflicts with the `server`, `local` or `merge` policy;
  - keeps at most one auto-sync interval.
- **Optimistic writes** (module `NoteCache`). Create, update and delete with
  snapshot and rollback, plus the batch delete and the local search filter.
- **End-to-end properties** (module `SyncProtocol`). The client's snapshot is
  fed to the server and the answer is merged back:
  - a client in step with the server stays in step after a sync;
  - `server` and `merge` resolutions converge on the next sync;
  - `local` re-sends the stale base version and meets the same conflict again.
- **Helpers**:
  - the page's selection, create-form and relative-date helpers (`NotesPage`);
  - the bearer-token middleware, with token verification as a parameter
    (`AuthMiddleware`);
  - the axios client's error-message classifier and its 401 refresh queue
    (`ApiClient`);
  - JavaScript string operations (`Strings`) and `Option` (`Wrappers`).

Every operation is a pure function on immutable data. Clocks, timer handles
and the current time are passed in as parameters. Token verification and the
downstream route are also parameters.

The server sends `serverVersion: null` on a missing-fields conflict, although
web/types/note.ts types the field as a number. The model follows the code:
`Conflict.ServerVersion()` is `None` there. `Conflict` is a tagged datatype,
so `serverData` exists exactly on a version conflict.

Two behaviours of the client are worth stating on their own:
- A successful sync replaces the whole conflict queue with the response's
  conflicts. It does not insert or replace them by id.
- The `local` policy re-sends the cached base version unchanged, so an
  unchanged server reports the same conflict again. `LocalRetryRepeatsConflict`
  states this.

## Model

| member | source | states |
|---|---|---|
| SyncServer.Step | backend/src/routes/notes.ts:139-209 | Classifies each change. A falsy id or undefined base version gives a missing-fields conflict with a null server version. An unknown note is created at version 1 with '' defaults. A matching base version bumps the version by exactly one and replaces only defined fields. A lower base version gives a version conflict carrying the stored title and content. A higher one gives "ahead". Rejections leave the store unchanged. An applied note is exactly what is now stored, and nothing else changes |
| SyncServer.HandleSync | backend/src/routes/notes.ts:126-216 | A missing or non-array `changes` is rejected with 400 'Changes array is required' before any change is looked at, and the store is unchanged. Otherwise, the sizes of `applied` and `conflicts` add up to the number of changes |
| SyncServer.ProcessChanges | backend/src/routes/notes.ts:135-210 | The imperative loop that appends to the two lists ends with the store and lists of the fold, and every change is reported once |
| SyncServer.AppliedConflictsPartition | backend/src/routes/notes.ts:135-210 | Every outcome lands in exactly one of `applied` and `conflicts` |
| SyncServer.Run | backend/src/routes/notes.ts:138-210 | The loop reports exactly one outcome per change |
| SyncServer.RunAt | backend/src/routes/notes.ts:138-210 | The outcome of change j is the step of that change against the store the changes before it left |
| SyncServer.RunAppend | backend/src/routes/notes.ts:138-210 | Running two batches in turn is running their concatenation: the second sees the store the first left, and the outcomes are concatenated |
| SyncServer.Applied | backend/src/routes/notes.ts:165-189 | `applied` holds exactly the notes of the applied outcomes, and is no longer than the outcomes |
| SyncServer.Conflicts | backend/src/routes/notes.ts:140-208 | `conflicts` holds exactly the conflicts of the rejected outcomes, and is no longer than the outcomes |
| SyncServer.AppliedAppend | backend/src/routes/notes.ts:138-210 | Both lists of a concatenation of outcomes are the concatenations of the parts' lists, so each keeps input order |
| SyncServer.OutcomesFollowChanges | backend/src/routes/notes.ts:138-210 | Outcome i reports the id of change i, so both response lists keep input order |
| SyncServer.VersionAccounting | backend/src/routes/notes.ts:158-190 | After a batch, each of the owner's notes has its old version (0 if absent) plus one per applied change to it. No note is removed, and a note exists afterwards iff it existed or a change to it was applied |
| SyncServer.RunKeepsOtherOwners | backend/src/routes/notes.ts:151-156 | A batch never adds, removes or changes a note of another owner, since every lookup is scoped to the sender |
| SyncServer.VersionMonotone | backend/src/routes/notes.ts:174-190 | A batch never lowers a version and never removes a note, for any owner |
| SyncServer.ReplayAfterUpdate | backend/src/routes/notes.ts:157-201 | Re-sending a change just applied as an update, or as a create from a base version of at most 0, gives a version conflict against the version just stored (base+1 for an update). It is not applied twice |
| SyncServer.ReplayAfterCreate | backend/src/routes/notes.ts:157-201 | A create is stored at version 1 whatever its base version. Re-sending it gives a version conflict from base ≤ 0, is applied again as an update to version 2 from base 1, and is reported as client ahead (server version 1) from base ≥ 2 |
| SyncServer.CreateReplayAppliedTwice | backend/src/routes/notes.ts:158-191 | A change for note "n" at base version 1 against an empty store is created at version 1, and the same change sent again is applied as an update to version 2 |
| SyncServer.StepFixed | backend/src/routes/notes.ts:158-173 | The corrected create: every change that is not a create is handled exactly as `Step` does; a create keeps its text and is stored at the base version plus one (at least 1); anything applied ends above its base version |
| SyncServer.ReplayFixed | backend/src/routes/notes.ts:158-201 | With the corrected create, any applied change sent again meets a version conflict against the version it stored, with the stored text |
| SyncServer.ReplayWithinBatch | backend/src/routes/notes.ts:138-201 | A later repeat, in the same batch, of a change applied as an update, or as a create from a base version of at most 0, meets a version conflict, whatever came between |
| SyncServer.HandlePut | backend/src/routes/notes.ts:69-98 | PUT: an unknown note gives 404. A falsy title or content keeps the stored one, the version is never touched, and only that note changes |
| SyncServer.EmptyTitleSyncVsPut | backend/src/routes/notes.ts:86-92 | An empty title is stored by a sync update but ignored by PUT |
| SyncClient.Snapshot | web/hooks/use-notes.ts:305-313 | One change per cached note, in cache order, with id, title and content copied and baseVersion = version. An unloaded cache sends an empty batch |
| SyncClient.LastApplied | web/hooks/use-notes.ts:329 | The Map built from `applied` holds, for an id, the last applied entry with it, and nothing iff no entry has that id |
| SyncClient.MergeApplied | web/hooks/use-notes.ts:323-331 | An empty `applied` list leaves the cache alone, and an unloaded cache becomes exactly `applied`. Otherwise length, order and ids are kept: an entry named in `applied` becomes that applied note, the others are unchanged, and absent ids are not added |
| SyncClient.Trigger | web/hooks/use-notes.ts:356-360 | While a sync is in flight a trigger changes nothing and sends nothing. Otherwise it sets the flag, clears the error and sends the cache snapshot |
| SyncClient.Tick | web/hooks/use-notes.ts:365-367 | An interval tick is a guarded trigger: in flight it changes nothing and sends nothing; otherwise it sends the cache snapshot and sets the flag. Cache, conflict queue and timer are kept |
| SyncClient.OneRequestInFlight | web/hooks/use-notes.ts:356-360 | Two triggers with no answer between them send exactly one request |
| SyncClient.ApplySuccess | web/hooks/use-notes.ts:321-346 | The cache is merged with `applied`, the conflict queue becomes exactly the response's conflicts, and the in-flight flag is cleared |
| SyncClient.ApplyError | web/hooks/use-notes.ts:347-352 | On failure the cache and the conflict queue are untouched, the classified message is recorded and the flag is cleared |
| SyncClient.StopAutoSync | web/hooks/use-notes.ts:370-375 | The held interval is cleared and the handle dropped. Without a handle nothing changes |
| SyncClient.StartAutoSync | web/hooks/use-notes.ts:363-368 | The previous interval is stopped before the new one is held, so a consistent state ends with exactly the new interval running |
| SyncClient.AtMostOneInterval | web/hooks/use-notes.ts:363-375 | Any sequence of starts and stops leaves at most one interval running, the one the hook holds |
| SyncClient.FindConflict | web/hooks/use-notes.ts:387-388 | Nothing iff no queued conflict has the id. Otherwise a queued conflict with the id, and no conflict before it has the id |
| SyncClient.FindNote | web/hooks/use-notes.ts:413-414 | Nothing iff no cached note has the id. Otherwise a cached note with the id, and no note before it has the id |
| SyncClient.RemoveConflicts | web/hooks/use-notes.ts:436 | The queue filtered by "other id", in order: exactly the conflicts with that id are gone, and every other conflict keeps its number of occurrences |
| SyncClient.RemoveConflictsKeepsOrder | web/hooks/use-notes.ts:436 | Removing from a concatenated queue removes from each part and keeps the parts in order |
| SyncClient.Resolve | web/hooks/use-notes.ts:385-442 | An unknown id changes nothing. A known id drops exactly its conflicts. `server` with server data sets title, content and version of the matching entries (an unloaded cache becomes empty). `merge` with server data and a local note appends the server content after the separator, adopts the server version and keeps the title. Without server data both only dequeue. Only `local` sends a request, through the guarded trigger |
| NoteCache.BeginCreate | web/hooks/use-notes.ts:104-124 | A loaded list gets a `temp-` note at version 0 in front, with the rest unchanged. The snapshot is the list before |
| NoteCache.CreateSucceeded | web/hooks/use-notes.ts:134-140 | The server's note comes first, followed by the list filtered to its non-`temp-` notes, in order. An unloaded list becomes just that note |
| NoteCache.CreateRollback | web/hooks/use-notes.ts:104-129 | A failed create restores exactly the pre-mutation list |
| NoteCache.BeginUpdate | web/hooks/use-notes.ts:169-195 | Only when the single-note query is cached, the edited note replaces it and every list entry with its id |
| NoteCache.UpdateFailed | web/hooks/use-notes.ts:196-203 | Each snapshot that exists is put back |
| NoteCache.UpdateSucceeded | web/hooks/use-notes.ts:208-216 | The server's note replaces the single-note query and every list entry with its id. An unloaded list becomes just that note |
| NoteCache.UpdateRollback | web/hooks/use-notes.ts:169-203 | A failed update restores exactly the pre-mutation cache |
| NoteCache.BeginDelete | web/hooks/use-notes.ts:245-261 | A loaded list becomes the list filtered to entries with other ids, in order |
| NoteCache.DeleteSucceeded | web/hooks/use-notes.ts:271-275 | Only that note's single-note query is dropped |
| NoteCache.DeleteRollback | web/hooks/use-notes.ts:245-266 | A failed delete restores exactly the pre-mutation list |
| NoteCache.DeleteAbsentIsIdentity | web/hooks/use-notes.ts:253-258 | Deleting an id the list does not hold leaves the list as it was |
| NoteCache.DeleteMultiple | web/hooks/use-notes.ts:467-491 | If any delete fails, the cache is untouched, the message is recorded and the failure is thrown on to the caller. Otherwise nothing is thrown, the error already shown is kept, the list becomes the list filtered to ids not deleted, in order (an unloaded list becomes empty), and exactly the deleted ids' detail queries are dropped while the others keep their values |
| NoteCache.StaleBatchError | web/hooks/use-notes.ts:467-491 | After a failed batch, a later successful batch still shows the first batch's message |
| NoteCache.BatchIsDeletesInTurn | web/hooks/use-notes.ts:467-491 | A successful batch leaves the same list as the single-note optimistic delete applied to each id in turn |
| NoteCache.Visible | web/hooks/use-notes.ts:67-79 | The loaded list filtered, in order, to the notes where the query is empty or occurs, case-insensitively, in title or content. Before loading nothing is shown |
| NoteCache.EmptyQueryShowsAll | web/hooks/use-notes.ts:68-69 | An empty query shows the whole list in order |
| NoteCache.IsEmpty | web/hooks/use-notes.ts:82 | Empty iff not loading and no loaded note matches |
| SyncProtocol.ServerTextShown | web/hooks/use-notes.ts:347-352 | When a failed request's body carries a truthy `message` (or else a truthy `error`), the sync error shows exactly that text, and so does the batch-delete error set by the same classifier |
| SyncProtocol.LostResponseResendsBatch | web/hooks/use-notes.ts:302-360 | When a sync's answer is lost, the cache is unchanged, so the next trigger sends exactly the same batch again |
| SyncProtocol.SnapshotIsWellFormed | web/hooks/use-notes.ts:305-313 | A snapshot of notes with non-empty ids never draws a missing-fields conflict |
| SyncProtocol.InStepSnapshotApplies | backend/src/routes/notes.ts:174-190 | When every cached note matches the server's version (distinct ids), the sync has no conflicts and applies every note one version up with the cached text |
| SyncProtocol.InStepSnapshotStores | backend/src/routes/notes.ts:174-190 | After such a sync each note is stored one version up with the cached text, and every other note is untouched |
| SyncProtocol.MergeBumped | web/hooks/use-notes.ts:325-331 | Merging that answer replaces each entry by its copy one version up, without timestamps |
| SyncProtocol.InStepCycle | web/hooks/use-notes.ts:302-346 | A full cycle from an in-step client sends one request and gets no conflicts. The cache comes back one version up, and the client is in step with the new server store |
| SyncProtocol.ServerWinsConverges | web/hooks/use-notes.ts:391-407 | After `server` resolution the entry holds the server's text, and the next sync of it is accepted as an update |
| SyncProtocol.MergeConverges | web/hooks/use-notes.ts:411-431 | After `merge` resolution the next sync stores local content, separator and server content, one version up |
| SyncProtocol.LocalRetryRepeatsConflict | web/hooks/use-notes.ts:408-410 | `local` re-sends the stale base version, so an unchanged server reports the same version conflict again |
| NotesPage.ToggleSelection | web/app/notes/page.tsx:56-64 | Flips the toggled id's membership and leaves every other id as it was |
| NotesPage.ToggleTwice | web/app/notes/page.tsx:56-64 | Toggling twice restores the selection |
| NotesPage.SelectAll | web/app/notes/page.tsx:66-72 | A selection as large as the visible list is emptied. Otherwise it becomes exactly the visible ids |
| NotesPage.SelectAllTwice | web/app/notes/page.tsx:66-72 | With distinct ids, select-all from nothing selects every note, and a second press clears it |
| NotesPage.HandleCreate | web/app/notes/page.tsx:75-83 | Nothing is submitted iff both fields are white space only. Otherwise content is trimmed, and the title is trimmed or, when blank, 'Untitled Note'; it is never empty |
| NotesPage.FloorDiv | web/app/notes/page.tsx:107 | The quotient is the floor of diff/unit |
| NotesPage.FormatDate | web/app/notes/page.tsx:103-123 | With 0 days and 0 hours: 'Just now' iff minutes ≤ 1, else minutes. With 0 days and some hours: '1 hour ago' or hours. 1 day is 'Yesterday', other days below 7 give days ago, and 7 or more give the locale date |
| NotesPage.Render | web/app/notes/page.tsx:113-121 | Each label's text: 'Just now', 'n minutes ago', '1 hour ago', 'n hours ago', 'Yesterday', 'n days ago', and the locale date as given |
| NotesPage.LabelRanges | web/app/notes/page.tsx:106-121 | For past dates the shown numbers stay in 2-59 minutes, 2-23 hours and 2-6 days. 'Just now' iff under two minutes, locale date iff at least seven days |
| NotesPage.FutureDateLabel | web/app/notes/page.tsx:106-119 | A future date gets a negative "days ago" label |
| Seqs.Filter | web/hooks/use-notes.ts:68-79 | `filter` keeps exactly the accepted elements and never lengthens |
| Seqs.FilterCounts | web/hooks/use-notes.ts:68-79 | Each accepted element occurs in the result as often as before, the others not at all |
| Seqs.FilterAppend | web/hooks/use-notes.ts:68-79 | Filtering a concatenation is concatenating the filtered parts, so order is kept |
| Strings.TrimEmptyIff | web/app/notes/page.tsx:76 | `trim()` is empty iff the string is all white space |
| Strings.JoinSplit | backend/src/middleware/auth.ts:11 | `split(' ')` loses nothing: joining the pieces gives the header back |
| Strings.SplitPiecesHaveNoSeparator | backend/src/middleware/auth.ts:11 | No piece of a split contains the separator |
| Strings.SecondPiece | backend/src/middleware/auth.ts:11 | Piece 1 of a split is the text after the first separator, up to the next one |
| AuthMiddleware.TokenOf | backend/src/middleware/auth.ts:11 | The token checked is the header after "Bearer ", up to the next space |
| AuthMiddleware.TokenExamples | backend/src/middleware/auth.ts:11 | "Bearer a b" checks "a", and "Bearer  a" checks "" |
| AuthMiddleware.Authenticate | backend/src/middleware/auth.ts:4-20 | 401 'Unauthorized' iff the header is missing, empty or not Bearer, whatever the verifier does. With a Bearer header, 401 'Invalid token' iff the verifier rejects the token. Otherwise the route runs with the verified user id and its answer is passed on |
| ApiClient.ExtractErrorMessage | web/lib/api/axios-client.ts:179-202 | A truthy `data.message` wins, then a truthy `data.error`, then the ERR_NETWORK and ECONNABORTED texts, then the error's message. A non-Error gives 'An unexpected error occurred' |
| ApiClient.BlankMessageOnlyFromBlankError | web/lib/api/axios-client.ts:179-202 | The message is empty iff the body has neither text, the error's own message is empty, and it is not a network or timeout error |
| ApiClient.Subscribe | web/lib/api/axios-client.ts:83-85 | Subscribing only appends to the queue |
| ApiClient.OnTokenRefreshed | web/lib/api/axios-client.ts:87-90 | Every queued request is re-sent exactly once, in subscription order, with the new token, and the queue is left empty |
| ApiClient.OnResponseError | web/lib/api/axios-client.ts:108-163 | Only a 401 on a request not yet retried takes the refresh path. Behind a running refresh it is queued. Otherwise `isRefreshing` is set; with a refresh token the request is marked `_retry` and a refresh starts, without one it is rejected and no refresh runs. Anything else is rejected with the state unchanged |
| ApiClient.RefreshAtMostOnce | web/lib/api/axios-client.ts:109-121 | A request sent through the refresh path is marked, and a later 401 on it is rejected, never refreshed or queued again |
| ApiClient.RefreshSucceeded | web/lib/api/axios-client.ts:139-144 | A successful refresh clears the flag and empties the queue; request i released is queued request i carrying the new token |
| ApiClient.RefreshFailed | web/lib/api/axios-client.ts:145-155 | A failed refresh clears the flag and leaves the queue as it was, so requests queued behind it are never released |
| ApiClient.StuckRefreshFlag | web/lib/api/axios-client.ts:120-162 | As written, a 401 with no stored refresh token leaves `isRefreshing` set with no refresh running, so the next eligible 401 is queued behind nothing |
| ApiClient.OnResponseErrorFixed | web/lib/api/axios-client.ts:120-162 | On every path but the no-refresh-token one it equals the original. On that one it rejects with the same action but also clears `isRefreshing` |
| ApiClient.FixedKeepsConsistent | web/lib/api/axios-client.ts:120-162 | With the fix, every transition keeps `isRefreshing` true exactly while a refresh is outstanding |
| ApiClient.FixedQueuesOnlyBehindRefresh | web/lib/api/axios-client.ts:110-118 | With the fix, a request is queued only while a refresh is actually running |

## Left out

- Database engine: the Prisma store is a pure map. The model does not cover the non-atomic find-then-update at backend/src/routes/notes.ts:151-184 or concurrent requests; changes are processed one after another.
- Sync failures: the 500 catch-all at backend/src/routes/notes.ts:213-215 is not modelled, including that it does not roll back earlier items.
- Cross-owner id collision: creating a note whose id another owner already uses fails in the database. The store schema is not part of this model.
- Other note routes: plain GET, POST and DELETE (backend/src/routes/notes.ts:9-67, 100-124) are simple CRUD and not part of the sync protocol.
- Request parsing: Hono routing, CORS, logging and JSON parsing are left out. A `changes` field that is missing, falsy or not an array becomes `None`.
- JavaScript coercion: a `null` base version passing the `=== undefined` check, or non-string ids and titles, are not modelled.
- Timestamps: `updatedAt`/`createdAt` are opaque values passed in. The server's timestamps are not stored.
- TanStack Query: `useQuery` loading, `cancelQueries` and the `invalidateQueries` refetches are left out. Each callback is modelled as the cache state right after it runs.
- React closures: `syncNotes` reads `isSyncing` from the render that created it. The model reads the current flag.
- Timers: `setInterval`/`clearInterval` become a held handle plus the set of running intervals. The interval length and real time are not modelled.
- Token refresh I/O: localStorage, `window.location` redirects, the refresh POST and the request interceptor that attaches the header are left out. The refresh POST appears only as its success or failure event.
- Auth internals: `verifyToken`, password hashing, token issuance and web/hooks/use-auth.ts are thin wrappers over libraries that are not shown.
- Locale dates: `toLocaleDateString` and date parsing. `formatDate` works on the millisecond difference, and the locale text is a parameter of `Render`.
- Case mapping: `toLowerCase` is modelled on ASCII only. `trim` removes ECMAScript's white space and line terminators, taking the Unicode space separators as of Unicode 15.
- `handleDeleteSelected` (web/app/notes/page.tsx:90-100): UI orchestration of single deletes behind a confirm dialog.
- SyncServer.ReplayAfterUpdate: a replayed create is caught only from a base version of at most 0, because the server stores every create at version 1. The client reaches the other cases: it sends every cached note at its cached version, and a note cached at version 1 or more can be missing on the server (deleted from another device, or by part of a failed batch delete). If the answer to that sync is lost, the same change is sent again (`LostResponseResendsBatch`). From base version 1 it is applied a second time, as an update to version 2. From base version 2 or more it is reported as client ahead on every later sync (`ReplayAfterCreate`). The finding on backend/src/routes/notes.ts:158-173 records this.
- SyncServer.ReplayWithinBatch: the same gap inside one batch. A repeated create from base version 1 or more is not promised to meet a version conflict.
- AuthMiddleware.Authenticate: the route's answer is an opaque value passed through. A route that throws is answered by the framework's error handler (500 by default) inside `next()`, before the middleware's `catch` is reached. That handler is not modelled.
- NoteCache.DeleteMultiple: the delete requests themselves are not modelled. Server-side deletes that succeeded before the first failure stay deleted on the server while the cache keeps the notes.
- Resolve: the `try`/`catch` around resolution at web/hooks/use-notes.ts:390-439 is not modelled; the cache updates it guards cannot throw in the model.

## Findings

| source | as written | input that shows it | evidently intended | confidence | as-written member | corrected member |
|---|---|---|---|---|---|---|
| backend/src/routes/notes.ts:158-173 | A change for a note the server does not hold is stored at version 1 whatever base version it carries | A note cached at version 1 but deleted on the server is synced, the answer is lost, and the same batch is sent again: the second copy is applied as an update to version 2. From base version 2 the replay is "Client version ahead of server" on every later sync, with no server data to resolve it | Store the re-created note above the base version the client sent, so a replay is a version conflict like any other stale change | not executed; medium | SyncServer.CreateReplayAppliedTwice | SyncServer.StepFixed |
| web/lib/api/axios-client.ts:120-162 | On an eligible 401 with no stored refresh token, `isRefreshing` is set to true and never cleared; the refresh-failure branch does clear it | A 401 on a request not yet retried, with no refresh token stored, on a page under `/auth` (so no redirect reloads the module). Then a second 401 | Clear `isRefreshing` on the no-refresh-token path, as the failure path does, so later 401s are not queued behind a refresh that never runs | not executed; medium | ApiClient.StuckRefreshFlag | ApiClient.OnResponseErrorFixed |
