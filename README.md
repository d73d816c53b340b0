# MindBox note store, modelled in Dafny

The MindBox backend keeps short text notes ("minds") in one shared, in-memory
`Vec<Mind>`. Three HTTP handlers work on it: list copies the whole collection;
create gives the new note the largest present id plus one (1 when the
collection is empty), cuts the clock reading to whole seconds and appends the
note; delete removes every note with the given id and keeps the others in
order. At start-up the collection holds three seed notes with ids 1, 2 and 3.

This project models that store:

- `minds.dfy`, module `Minds`: the `Mind` record (id as a `u32`, a UTC
  timestamp as seconds and nanoseconds, the text), the pure functions
  `MaxId`, `NewMind`, `AfterCreate` and `Without` that say what create and
  delete do to a collection, and lemmas about them: id assignment, append
  order, uniqueness of ids, what delete keeps and in which order, the no-op
  and idempotence of delete.
- `store.dfy`, module `Store`: the seed collection, the class `AppState`
  whose field `minds` the methods `List`, `Create` and `Delete` read and
  reassign, and the seeded scenarios (create after start-up, delete then
  create, delete of an absent id).

The clock (`Utc::now()`) is a parameter `now` of `Create`. The seed dates are
written as Unix second counts, with the calendar date beside each one.

Two consequences of the code are worth stating:

- Ids are unique among the notes present at one time, not over the store's
  lifetime. The next id is derived from the largest id present, so deleting
  the highest note and creating again hands out the same id
  (`Store.DeleteHighestThenCreateReusesId`).
- After a create, the returned note occurs exactly once and no older note
  carries its id (`Minds.CreatedOccursOnce`); older notes may carry the same
  text.

The class invariant `Store.AppState.Valid` holds two facts that every
operation keeps: ids are unique, and every publish time is a whole second.

## Model

| member | source | states |
|---|---|---|
| `Minds.MaxId` | backend/src/main.rs:43-46 | The result is at least every id in the collection, is one of those ids when the collection is non-empty, and is 0 when it is empty. |
| `Minds.NewMind` | backend/src/main.rs:43-51 | Create succeeds exactly when the largest id is below the largest `u32`; the new id is the largest id plus one, so 1 for an empty collection and above every present id; the text is the request's; the publish time is the clock's second with a zero sub-second part (`Minds.WithNanosecondZero`, line 49). |
| `Minds.CreateAppendsReturned` | backend/src/main.rs:53-55 | A successful create (`Minds.AfterCreate`, the `push` at line 53) grows the collection by one, leaves every earlier note unchanged in its position, and stores at the end the very note it returns; a failed create leaves the collection unchanged. |
| `Minds.CreatePreservesUniqueIds` | backend/src/main.rs:43-53 | If ids were unique before a create, they are unique after it. |
| `Minds.CreatePreservesWholeSeconds` | backend/src/main.rs:49-53 | If every publish time was a whole second before a create, every one is after it. |
| `Minds.CreatedOccursOnce` | backend/src/main.rs:47-55 | After a successful create the returned note occurs exactly once in the collection and no earlier note has its id. |
| `Minds.WithoutCounts` | backend/src/main.rs:65 | Delete (`Minds.Without`, the `retain` at line 65) keeps each note whose id differs as many times as it occurred and drops every note with the given id. |
| `Minds.WithoutMembers` | backend/src/main.rs:65 | A note is in the collection after delete exactly when it was there before and its id differs from the argument. |
| `Minds.WithoutIsSubsequence` | backend/src/main.rs:65 | The notes left by delete are a subsequence of the old collection: their relative order is kept. |
| `Minds.SubsequenceMembers` | backend/src/main.rs:65 | Every note of a subsequence is a note of the whole collection. |
| `Minds.SubsequencePreservesUniqueIds` | backend/src/main.rs:65 | Dropping notes while keeping order cannot make two ids equal. |
| `Minds.WithoutPreservesUniqueIds` | backend/src/main.rs:65 | If ids were unique before a delete, they are unique after it. |
| `Minds.WithoutPreservesWholeSeconds` | backend/src/main.rs:65 | If every publish time was a whole second before a delete, every remaining one is after it. |
| `Minds.WithoutAbsent` | backend/src/main.rs:65-67 | Deleting an id that no note carries leaves the collection unchanged. |
| `Minds.WithoutRemovesId` | backend/src/main.rs:65 | After a delete no note carries the deleted id. |
| `Minds.WithoutIdempotent` | backend/src/main.rs:65-67 | Deleting the same id twice gives the same collection as deleting it once. |
| `Minds.WithoutLength` | backend/src/main.rs:65 | With unique ids, delete shrinks the collection by one when the id is present and by zero otherwise. |
| `Store.Seed` | backend/src/main.rs:72-90 | The start-up collection holds three notes with ids 1, 2 and 3, in that order, so its ids are unique, and all three publish times are whole seconds. |
| `Store.AppState.constructor` | backend/src/main.rs:72-90 | The shared state starts with the seed collection and satisfies the invariant: unique ids and whole-second publish times. |
| `Store.AppState.List` | backend/src/main.rs:27-30 | List returns the current collection, in order, and changes nothing. |
| `Store.AppState.Create` | backend/src/main.rs:38-56 | Create keeps ids unique and publish times whole seconds, returns the note `NewMind` describes, and the new collection is the old one with that note appended, or the old one when the id would overflow. |
| `Store.AppState.Delete` | backend/src/main.rs:58-68 | Delete keeps ids unique and publish times whole seconds, and never fails; the new collection is the old one without the notes carrying the id, in order, element for element as they were; it is unchanged when the id is absent and one shorter when present. |
| `Store.SeededDeleteThenCreate` | backend/src/main.rs:72-90 | From start-up, deleting id 2 leaves ids 1 and 3, the next create still yields id 4, and listing then shows that note at the end. |
| `Store.SeededDeleteAbsent` | backend/src/main.rs:65-67 | From start-up, deleting id 999 leaves the listed collection equal to the seed. |
| `Store.SeedThenCreate` | backend/src/main.rs:43-48 | The first create after start-up yields id 4 with the request's text and a whole-second publish time. |
| `Store.DeleteHighestThenCreateReusesId` | backend/src/main.rs:43-48 | After deleting the seed's highest id 3, the next create yields id 3 again. |

## Left out

- `Store.AppState.Create`: `max_id + 1` on a `u32` is modelled as a checked addition, so at the largest `u32` the request fails before anything is stored (result `IdOverflow`). A build without overflow checks would wrap the id to 0 instead; that variant is not modelled.
- Concurrency and the `Mutex`: each request is one sequential step. Create locks once to read the maximum (backend/src/main.rs:43) and again to push (backend/src/main.rs:53), so two creates that interleave between those points could read the same maximum. The server runs one worker and the handler has no suspension point between the two locks, but the model does not reason about threads and claims no uniqueness under concurrency. Lock poisoning is not modelled.
- The clock: `Utc::now()` is the parameter `now`. chrono's calendar construction of the seed dates (`with_ymd_and_hms`) is replaced by Unix second counts.
- HTTP routing, the `Data`, `Json` and `Path` extractors, `HttpResponse` and the server set-up (binding, worker count, shutdown timeout): transport plumbing with no logic of the store.
- serde serialization of `Mind`, `GetMindsResponse` and `CreateMindHandlerRequest`, and the `GetMindsResponse` wrapper around the list result: a foreign library and packaging.
- A persistent, database-backed store: no such code exists in backend/src/main.rs.
