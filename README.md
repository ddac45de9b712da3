# Task-list reconciliation and user provisioning, in Dafny

This project models two sequential cores of a full-stack task-list application.

**Client: the task cache** (`client/features/tasks/TaskList.tsx`). The component holds the task list in
an SWR cache that is `undefined` until loaded and then an ordered list, newest first. The cache changes
only through updater functions handed to `mutateTasks`. Those updaters come from the replies to the
component's own create, toggle and delete requests, and from three push messages (`taskCreated`,
`taskUpdated`, `taskDeleted`). Every updater is a pure function over `Option<seq<Task>>` in module
`TaskUpdaters` (`task_updaters.dfy`). Lemmas there state the reconciliation guarantees:
- the toggle, delete and push merges keep ids unique; the create reply keeps them unique only when its
  id is new;
- an echo merged after the create reply leaves one copy of the id; one merged before it leaves two;
- a late update does not bring back a deleted task;
- order is preserved;
- "not loaded" is handled.

The component itself is the class `TaskListView.TaskList` (`task_list.dfy`). It holds:
- the cache;
- the form's `label` and `image` state;
- the `revalidate` option of every `mutateTasks` call;
- the requests it has sent.

Its methods call the pure updaters. Each awaited request is split into the request the component sends
and the server's reply, which the caller passes in as a `Result`.

**Server: find-or-create of a user** (`server/domain/user`). The user table is a map from id to row:
- `userQuery.findById` is the function `UserQuery.FindById`.
- `userCommand.save` is the method `UserCommand.UserTable.Save`. It is specified by the pure upsert
  `UserCommand.Upserted`.
- `userUseCase.findOrCreateUser` is the method `UserUseCase.FindOrCreateUser`. It is specified by
  `UserUseCase.FindOrCreate`.

The read and the write-back are separate functions (`FindById`, `Provision`). So two calls racing for
the same identity are written as an explicit sequence of steps: read, read, save, save.

Functions whose bodies are not part of this model are parameters:
- `labelValidator.safeParse` is `validate: string -> Option<string>`;
- `brandedId.user.entity.parse` is a validity predicate `isUserId`;
- `userMethod.create` is `create: JwtUser -> UserEntity`;
- `toUserDto` is `toDto: UserEntity -> D`.

Dates are integer milliseconds since the epoch.

### Behaviour of the code worth knowing

- The create reply prepends without deduplicating (TaskList.tsx:36). Only the `taskCreated` merge
  dedupes (line 66). When the echo arrives before the reply, the list holds the id twice
  (`EchoBeforeResponse`). When the reply comes first, the echo leaves one copy (`EchoAfterResponse`).
  The reply's default revalidation also refetches the list, but that refetch is not modelled.
- Merging `taskUpdated(x)` then `taskDeleted(x)`, or the other way round, gives the same list,
  `Removed(c, x)`: the old list without `x` (`DeleteThenUpdate`, `UpdateThenDelete`).
- Under the read, read, save, save race, the second caller returns the user it built itself
  (userUseCase.ts:28), not the stored row. Its `createdTime` equals the stored `createdAt` only when both
  new users carry the same time (`RacingFirstAccess`).
- A stored row whose id fails `brandedId` parsing makes `findById` reject. The `.catch(() => null)`
  (userUseCase.ts:17) treats that rejection as "not found", so the use case upserts over the existing row
  (`AnyReadFailureCreates`).

## Model

| member | source | states |
|---|---|---|
| TaskUpdaters.WithoutId | client/features/tasks/TaskList.tsx:56 | the filter keeps exactly the elements whose id differs from the given one |
| TaskUpdaters.ReplaceId | client/features/tasks/TaskList.tsx:48 | the list `map` replacing by id; its ensures gives the length; positions in `ReplaceIdAt` |
| TaskUpdaters.Prepended | client/features/tasks/TaskList.tsx:36 | the create-reply updater `[task, ...(tasks ?? [])]`; always loaded, one longer, headed by the reply; full shape and uniqueness in `PrependedShape` |
| TaskUpdaters.Replaced | client/features/tasks/TaskList.tsx:71 | the `tasks?.map` updater of the toggle reply (line 48) and `taskUpdated`; unloaded exactly when the input is, length kept; see `ReplacedShape` |
| TaskUpdaters.Removed | client/features/tasks/TaskList.tsx:56 | the `tasks?.filter` updater of the delete reply and `taskDeleted` (line 76); unloaded exactly when the input is, the id is gone, never longer; see `RemovedShape` |
| TaskUpdaters.MergedCreated | client/features/tasks/TaskList.tsx:66 | the `taskCreated` updater; always loaded, headed by the event task, with no other element carrying its id; see `MergedCreatedShape` |
| TaskUpdaters.Merged | client/features/tasks/TaskList.tsx:63-83 | the event switch over the closed union; the result is unloaded exactly when the cache was and the event is not `taskCreated`; see `MergedKeepsUnique` |
| TaskUpdaters.MergedAll | client/features/tasks/TaskList.tsx:60-84 | events merged one by one in delivery order; a loaded cache stays loaded, and an unloaded result means no `taskCreated` was delivered; see `MergedAllKeepsUnique` |
| TaskUpdaters.WithoutIdKeepsOrder | client/features/tasks/TaskList.tsx:56 | the filtered list is a subsequence of the original: survivors keep their relative order |
| TaskUpdaters.WithoutIdCounts | client/features/tasks/TaskList.tsx:76 | after the filter no element has the removed id, and every other id keeps its number of occurrences |
| TaskUpdaters.WithoutAbsentId | client/features/tasks/TaskList.tsx:76 | filtering out an id that is not present returns the list unchanged |
| TaskUpdaters.WithoutIdKeepsUnique | client/features/tasks/TaskList.tsx:56 | filtering a list with unique ids leaves unique ids |
| TaskUpdaters.UniqueCons | client/features/tasks/TaskList.tsx:36 | a prepended list has unique ids if and only if the tail has unique ids and does not contain the head's id |
| TaskUpdaters.ReplaceIdAt | client/features/tasks/TaskList.tsx:48 | the map replaces exactly the positions whose id matches the reply's id and keeps every other position |
| TaskUpdaters.ReplaceIdKeepsIds | client/features/tasks/TaskList.tsx:71 | the map keeps the id at every position, the set of ids, and uniqueness |
| TaskUpdaters.ReplaceAbsentId | client/features/tasks/TaskList.tsx:71 | replacing an id that is not present changes nothing, so nothing is resurrected |
| TaskUpdaters.ReplaceThenWithout | client/features/tasks/TaskList.tsx:71-78 | removing an id after replacing it gives the same list as removing it alone |
| TaskUpdaters.PrependedShape | client/features/tasks/TaskList.tsx:36 | the create reply becomes the head of `tasks ?? []`, the old list follows unchanged, the length grows by one, and ids stay unique exactly when the reply's id was new |
| TaskUpdaters.MergedCreatedShape | client/features/tasks/TaskList.tsx:66 | after `taskCreated` the event task is the head and the only element with its id; the rest is the old list without that id, in its old order, and every other id occurs as often as before; an unloaded cache becomes `[task]`; uniqueness is kept |
| TaskUpdaters.ReplacedShape | client/features/tasks/TaskList.tsx:71-73 | `taskUpdated` and the toggle reply: an unloaded cache stays unloaded; length, positions and ids are kept; only matching elements change; an absent id leaves the list as it was; uniqueness is kept |
| TaskUpdaters.RemovedShape | client/features/tasks/TaskList.tsx:76-78 | `taskDeleted` and the delete reply: an unloaded cache stays unloaded; no element with the id remains; the others keep their order and multiplicity; applying it twice equals applying it once; uniqueness is kept |
| TaskUpdaters.MergedKeepsUnique | client/features/tasks/TaskList.tsx:63-79 | each of the three push merges keeps ids unique |
| TaskUpdaters.MergedAllKeepsUnique | client/features/tasks/TaskList.tsx:60-84 | any sequence of push events, merged in delivery order, keeps ids unique |
| TaskUpdaters.MergedAllAppend | client/features/tasks/TaskList.tsx:60-84 | merging the events `a + b` equals merging `a` and then merging `b` into the result, for every cache and every pair of event sequences |
| TaskUpdaters.DeleteThenUpdate | client/features/tasks/TaskList.tsx:71-78 | `taskDeleted(x)` then `taskUpdated(x)` equals deleting `x`, and `x` is absent afterwards |
| TaskUpdaters.UpdateThenDelete | client/features/tasks/TaskList.tsx:71-78 | `taskUpdated(x)` then `taskDeleted(x)` equals deleting `x`, and `x` is absent afterwards |
| TaskUpdaters.EchoAfterResponse | client/features/tasks/TaskList.tsx:36-68 | a create reply followed by its `taskCreated` echo equals the echo alone, with exactly one element carrying the id |
| TaskUpdaters.EchoBeforeResponse | client/features/tasks/TaskList.tsx:36-68 | an echo merged before the create reply leaves two elements with the id, because the reply's prepend does not dedupe |
| TaskListView.TaskList.constructor | client/features/tasks/TaskList.tsx:16-20 | a mounted list sees whatever SWR already caches for the request (unloaded on first mount), with no requests sent, no merges yet, and an empty form |
| TaskListView.TaskList.MutateTasks | client/features/tasks/TaskList.tsx:16 | the cache becomes exactly the updater's result, and the revalidate option is recorded |
| TaskListView.TaskList.CreateTask | client/features/tasks/TaskList.tsx:23-42 | an invalid label returns before any request and changes nothing; otherwise the parsed label and image are posted, a successful reply is prepended with default revalidation, a failed reply leaves the cache alone, and the form is cleared in both cases |
| TaskListView.TaskList.ToggleDone | client/features/tasks/TaskList.tsx:44-50 | patches the negated `done`; a successful reply replaces by the reply's id with default revalidation; a failure changes nothing but the request log |
| TaskListView.TaskList.DeleteTask | client/features/tasks/TaskList.tsx:52-58 | sends the delete; a successful reply filters out the reply's id with default revalidation; a failure changes nothing but the request log |
| TaskListView.TaskList.OnMessage | client/features/tasks/TaskList.tsx:60-84 | no message changes nothing; each of the three tags merges its event with revalidate = false and sends no request |
| UserQuery.ToUserEntity | server/domain/user/repository/userQuery.ts:9-15 | the field mapping; it succeeds exactly when the stored id parses and otherwise fails with invalid-id; the fields in `FindById` and `NewRowRoundTrip` |
| UserQuery.FindById | server/domain/user/repository/userQuery.ts:9-19 | rejects with not-found exactly when the id is absent, and with invalid-id exactly when the stored id fails to parse; otherwise returns the row's id, email, sign-in name and `createdAt` as `createdTime` |
| UserCommand.NewRow | server/domain/user/repository/userCommand.ts:13-18 | the row the create branch inserts (no ensures); see `NewRowRoundTrip` and `UpsertedShape` |
| UserCommand.Upserted | server/domain/user/repository/userCommand.ts:8-19 | the table after the upsert; it adds only `user.id` and never changes an existing `createdAt`; the rest in `UpsertedShape`, `UpsertIdempotent` and `CreatedAtIsWrittenOnce` |
| UserCommand.NewRowRoundTrip | server/domain/user/repository/userQuery.ts:9-15 | mapping a new entity to the row the upsert creates and back through `toUserEntity` gives the entity back |
| UserCommand.UserTable.Save | server/domain/user/repository/userCommand.ts:5-20 | afterwards a row with `user.id` exists; an existing row gets only the new email and sign-in name; a missing row is created from all four fields; no other row changes; the primary key holds |
| UserCommand.UpsertedShape | server/domain/user/repository/userCommand.ts:8-19 | the upsert adds only `user.id`; an existing row keeps its id and `createdAt`; a new row carries the entity's fields; other rows are unchanged; the primary-key invariant is preserved |
| UserCommand.UpsertIdempotent | server/domain/user/repository/userCommand.ts:8-19 | saving the same user twice yields the same table as saving once |
| UserCommand.CreatedAtIsWrittenOnce | server/domain/user/repository/userCommand.ts:12-18 | after two saves for a new id, the row has the first save's `createdAt` and the second save's email and sign-in name |
| UserCommand.SaveThenFind | server/domain/user/repository/userCommand.ts:8-19 | after a save, `findById` of that id returns the saved email and sign-in name with the stored (or, for a new row, the entity's) creation time, or rejects if the id does not parse |
| UserUseCase.Provision | server/domain/user/useCase/userUseCase.ts:20-28 | the steps after the read: keep a found user, otherwise upsert and return the new one (no ensures); see `AnyReadFailureCreates` and `RacingFirstAccess` |
| UserUseCase.FindOrCreate | server/domain/user/useCase/userUseCase.ts:17-28 | one uninterrupted call, read then decide (no ensures); see `ExistingUserIsReturned`, `OneRowPerIdentity` and `FirstAccessReturnsSavedUser` |
| UserUseCase.FindOrCreateUser | server/domain/user/useCase/userUseCase.ts:10-29 | if the read succeeds, the table is unchanged and the found user is returned; if it rejects for any reason, the created user is upserted and returned |
| UserUseCase.ExistingUserIsReturned | server/domain/user/useCase/userUseCase.ts:17-20 | an existing row with a parseable id is returned as its entity, and nothing is written |
| UserUseCase.AnyReadFailureCreates | server/domain/user/useCase/userUseCase.ts:17-25 | any read failure leads to create-and-save; over an existing row with a bad id, `createdAt` is kept and email and sign-in name are overwritten |
| UserUseCase.OneRowPerIdentity | server/domain/user/useCase/userUseCase.ts:17-28 | with the new user keyed by `sub`, one call leaves exactly one row for `sub`, adds no other key, changes no other row, and keeps any existing `createdAt` |
| UserUseCase.FirstAccessReturnsSavedUser | server/domain/user/useCase/userUseCase.ts:23-28 | on first access the returned user is the one saved, and reading the new row gives that same user back |
| UserUseCase.RacingFirstAccess | server/domain/user/useCase/userUseCase.ts:13-28 | read, read, save, save for a new identity leaves one row, with the first save's `createdAt` and the second's email and sign-in name, and no other row changed; each caller returns its own new user |
| UserUseCase.SequentialAccessFindsFirstUser | server/domain/user/useCase/userUseCase.ts:17-28 | a second call after the first has saved finds the first user and writes nothing |

## Left out

- JSX rendering, styles, `setAlert` and `catchApiErr`, resetting the file input (line 41), and the object-URL preview lifecycle (lines 21, 86-90). These are browser plumbing with no effect on the cache.
- The network: `apiClient` calls, aspida and SWR internals, and the WebSocket connection. A reply is a `Result` parameter. The revalidation fetch is recorded only as the `revalidate` flag.
- The initial `GET /tasks` load. It happens inside SWR, so the model's cache leaves "not loaded" only through an updater.
- Interleaving while a request is in flight. Each reply is applied to the cache as it stands when the method is called. Orderings against push events are stated as lemmas over the pure updaters.
- The `default` arm of the event switch (lines 81-82). Events are a closed datatype, so the match is exhaustive and no unknown tag can reach the model. The subscription to the three tags (line 17) is what keeps the source's own union closed.
- The form's `onChange` handlers (lines 104, 111). They only set `label` and `image`, which are public fields of the class.
- Transaction isolation (`'RepeatableRead'`, userUseCase.ts:13), real concurrency, serialization failures and retries. Races are modelled as sequential interleavings of read and save steps.
- The read uses `prismaClient` rather than the transaction `tx` (userUseCase.ts:17). The model does not distinguish the two.
- The bodies of `labelValidator`, `brandedId.user.entity.parse`, `userMethod.create` and `toUserDto`. They appear as function parameters. `brandedId` parsing is a predicate that returns the id unchanged when it holds. `common/types/task`, `common/types/user` and `server/domain/user/model` are not part of this model.
- `JavaScript Date` behaviour: `new Date(ms)` of a non-integer or out-of-range value. Times are integers and `getTime()` gives back the stored value.
- `Layout.tsx`'s login gating and redirect, and the health controller's database and storage probes.
- UserUseCase.OneRowPerIdentity: assumes that `userMethod.create` keys the new user by the token's `sub`, because that function's body is not part of this model. The same assumption is a requires of UserUseCase.FirstAccessReturnsSavedUser and UserUseCase.SequentialAccessFindsFirstUser, appears as `first.id == sub && second.id == sub` in UserUseCase.RacingFirstAccess, and is the premise of the second ensures of UserUseCase.AnyReadFailureCreates.
- TaskUpdaters.MergedAll: assumes every delivered push message reaches the effect at TaskList.tsx:60-84, which handles one `lastMsg` per run. Whether `usePickedLastMsg` (`features/ws/AuthedWebSocket`) can drop a message between renders is not part of this model.
