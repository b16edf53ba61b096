# DIARDE backend: the revisioned geometry store, modelled in Dafny

This project models the write side of the DIARDE backend, an Express/Mongoose
server that stores rooms of building projects, the photos attached to them,
and geometry edits of those rooms. Geometry edits form a revision history.

- A **revision** (`GeometryRevisions`) is one immutable snapshot: author, payload,
  date, room and optional 3-D model.
- A **version** (`GeometryVersions`) is a named line of edits in one room. It
  lists its revisions newest first.
- A **room** lists its versions. A **project** lists its rooms.

`saveRevision` inserts the revision. It then either pushes it to the front of
the version with the same (room, name) or creates that version and links it to
the room. An optional session (a MongoDB transaction) is threaded through the
chain: the handler commits it on success and aborts it on failure.

Modules:

- `Documents`: the records, `Option`, promise outcomes, sessions, `$set`
  patches and the natural-order `findOne` scan.
- `Functional`: the helpers of `lib/utility/functional.ts`.
- `RoomLists`: the list edits on a room (photos, supplements).
- `GeometrySpec`: the store invariant, the specification `SaveOutcome` of one
  `saveRevision` call, and lemmas about single saves and runs of saves.
- `Store`: the class `DocumentStore`, which holds the collections as map fields.
- `SessionManager`, `Model3DController`, `ProjectController`, `RoomController`
  and `GeometryController`: the controllers, as methods on a `DocumentStore`.

Modelling choices:

- Object ids are naturals from a counter (`nextId`). An ObjectId is minted by
  `new Model(...)` even when the save then fails, and ids are never reused.
- `findOne` scans in id order, which is insertion order.
- A store call that fails is named in a parameter `faults: set<Call>`.
- Whether the detached room-link repair of `saveRevision` has run is the
  parameter `repairRan`.
- Whether the deployment supports transactions (`hasTransaction()`) is a
  parameter.
- Timestamps (`Date.now()`) are parameters.
- A promise that never settles is `Pending`.
- An active session remembers the collections as they were when it began.
  An abort restores that snapshot.
- Every write takes the session it is given. The source passes it as an
  options object (`{ _session }`, with `new: true` on `findOneAndUpdate` so
  that the updated document comes back), and the model binds the write to the
  session. A resolved `findOneAndUpdate` yields the updated document.
- Starting a session (`startSession`) and committing (`commitTransaction`)
  can fail; these are the calls `StartSession` and `CommitTransaction` in
  `faults`. The handlers never wait for the commit, so a commit that fails
  still lets the reply go out, and the writes of the session are lost.
- `openSessions` counts sessions that were started and not yet ended, so that
  "every exit path ends the session" can be stated.

Store invariant (`GeometrySpec.Inv`), preserved by every write and by
`SaveOutcome`:

- every key is below `nextId`;
- a version's revisions exist, belong to the version's room, are distinct and
  are newest first;
- no two versions share a (room, name);
- no revision is listed by two versions.

## Model

| member | source | states |
|---|---|---|
| Documents.ApplyRoomPatch | lib/controller/roomcontroller.ts:439-456 | A `$set` on a room changes exactly the supplied fields. Versions, date and creator are never touched. |
| Documents.ApplyProjectPatch | lib/controller/projectcontroller.ts:173-189 | A `$set` on a project writes every supplied field (name, description, date, creator, rooms) and keeps the value of every absent one. |
| Documents.FindOne | lib/controller/geometrycontroller.ts:152 | The query result is the first matching document in natural order. `None` means nothing in range matches. |
| Functional.IfBlock | lib/utility/functional.ts:4-10 | `ifblock(c).let(d, e)` runs `d` exactly when `c === true`, and runs `e` for any other value, including null and undefined. |
| Functional.Block | lib/utility/functional.ts:12-23 | A defined value goes to `func`; otherwise the `_else` thunk runs; a null `_else` gives null. It throws a TypeError exactly when the value is missing and `_else` is undefined. |
| Functional.MapSeq | lib/utility/functional.ts:27 | `array.map` keeps the length and applies the function at every index. |
| Functional.KeepDefined | lib/utility/functional.ts:27 | The filter keeps only defined options and never grows the array. |
| Functional.Unwrap | lib/utility/functional.ts:27 | `getOrElse(null)` on an all-defined array yields each option's value, index by index. |
| Functional.MapNotNone | lib/utility/functional.ts:25-29 | `mapNotNone` never returns more elements than it is given. |
| Functional.CountDefined | lib/utility/functional.ts:25-29 | The number of elements the function maps to a defined option is at most the input length. |
| Functional.MapNotNoneIsCollect | lib/utility/functional.ts:25-29 | The map/filter/unwrap pipeline equals a one-pass collection of the defined results, in input order. |
| Functional.CollectLength | lib/utility/functional.ts:25-29 | The one-pass collection has exactly one element per defined result. |
| Functional.CollectMembers | lib/utility/functional.ts:25-29 | `w` is collected iff some input element maps to `Some(w)`. |
| Functional.MapNotNoneSpec | lib/utility/functional.ts:25-29 | `mapNotNone` returns as many elements as there are defined results, never more than the input. It contains `w` iff some input maps to `Some(w)`. |
| RoomLists.IndexOf | lib/controller/roomcontroller.ts:265 | `indexOf` is -1 iff the id is absent; otherwise it is the first index holding the id. |
| RoomLists.Splice | lib/controller/roomcontroller.ts:266-268 | `splice(i, 1)` removes exactly the element at `i`, shifting the rest, and changes nothing past the end. |
| RoomLists.RemoveFirst | lib/controller/roomcontroller.ts:263-268 | The `fotos` edit leaves the list unchanged when the id is absent and removes one element when it is present. |
| RoomLists.RemoveFirstSpec | lib/controller/roomcontroller.ts:275-279 | The removed element is the first occurrence of the id, and the rest is kept in order (as a multiset, the list loses exactly one copy of the id). |
| RoomLists.RemoveFirstUndoesAppend | lib/controller/roomcontroller.ts:183-184 | Removing an id that was just pushed onto a list without it restores the list. |
| RoomLists.VisibleEntries | lib/controller/roomcontroller.ts:226 | Each added photo id becomes a visible `photos` entry, in order. |
| RoomLists.PushEach | lib/controller/roomcontroller.ts:314-317 | The `forEach` push loop appends the ids in order. |
| RoomLists.PushEachPhoto | lib/controller/roomcontroller.ts:222-227 | The loop appends the ids to `fotos` and a visible entry for each id to `photos`, in order. |
| RoomLists.SpliceMatchingPhotos | lib/controller/roomcontroller.ts:264-273 | The loop, as written, splices the copy at indices of the original list. Its result is `SplicedAsWritten`. |
| RoomLists.SpliceFrom | lib/controller/roomcontroller.ts:264-273 | The rest of the loop from index `k` drops at most one entry per remaining index and adds none. When no remaining index of the original matches, the copy is returned unchanged. |
| RoomLists.SplicedAsWritten | lib/controller/roomcontroller.ts:264-273 | The `photos` list the code as written stores: never longer than the original, holding only original entries, and equal to it when the photo has no entry. |
| RoomLists.WithoutPhoto | lib/controller/roomcontroller.ts:269-273 | The intended edit drops every entry of the photo and never grows the list. |
| RoomLists.WithoutPhotoMembers | lib/controller/roomcontroller.ts:269-273 | An entry survives iff it was present and is not for the removed photo. |
| RoomLists.WithoutPhotoAppend | lib/controller/roomcontroller.ts:269-273 | Removal distributes over concatenation. |
| RoomLists.WithoutPhotoNoMatch | lib/controller/roomcontroller.ts:269-273 | Removing a photo that has no entry changes nothing. |
| RoomLists.AsWrittenSingleMatch | lib/controller/roomcontroller.ts:264-273 | With exactly one matching entry, the as-written loop removes exactly that entry. |
| RoomLists.WithoutPhotoSingleMatch | lib/controller/roomcontroller.ts:269-273 | With exactly one matching entry, the intended edit removes exactly that entry. |
| RoomLists.AsWrittenAgreesOnSingleMatch | lib/controller/roomcontroller.ts:264-273 | With at most one matching entry, the code as written and the intended edit agree. |
| RoomLists.AsWrittenDropsWrongEntry | lib/controller/roomcontroller.ts:264-273 | Two adjacent entries of the same photo make the code as written keep one of them and drop an unrelated entry. |
| RoomLists.AddPhoto | lib/controller/roomcontroller.ts:183-190 | Adding a photo appends its id to `fotos` and a visible entry to `photos` (starting from `[]` when absent). Everything else is unchanged. |
| RoomLists.AddPhotos | lib/controller/roomcontroller.ts:222-231 | Adding several photos appends them all in order. It fails exactly when the room has no `photos` field, where the `map` call throws. |
| RoomLists.RemovePhoto | lib/controller/roomcontroller.ts:263-283 | Removal takes the first occurrence out of `fotos` and `supplements`. Out of `photos` it takes every entry of the photo, by the corrected edit `WithoutPhoto`. The code as written splices at stale indices; it agrees with this whenever the photo has at most one entry (see Findings). It fails exactly when `photos` is absent. |
| RoomLists.AddSupplements | lib/controller/roomcontroller.ts:314-321 | Adding supplements appends them and touches nothing else. |
| RoomLists.AddPhotosOneByOne | lib/controller/roomcontroller.ts:211-231 | Adding a batch equals adding its first photo, then the rest. |
| RoomLists.RemoveUndoesAdd | lib/controller/roomcontroller.ts:176-302 | Removing a photo that was just added to a room that did not hold it restores the room. |
| GeometrySpec.FindVersion | lib/controller/geometrycontroller.ts:152 | The `findOneAndUpdate({ name, room })` query returns a version with that room and name, or `None` when no version below the bound matches. |
| GeometrySpec.FindVersionExact | lib/controller/geometrycontroller.ts:152-154 | Under the invariant, the query finds the one version with that (room, name) whenever it exists. |
| GeometrySpec.InsertRevisionDoc | lib/controller/geometrycontroller.ts:143-151 | `new GeometryRevisionModel(...).save()`: the revision document is stored under its id. Its frame is `InsertRevisionDocFrame`. |
| GeometrySpec.InsertRevisionDocFrame | lib/controller/geometrycontroller.ts:143-151 | Inserting the revision changes only `revisions`, adding exactly the key `rid`, which holds the revision. |
| GeometrySpec.PushRevisionFront | lib/controller/geometrycontroller.ts:152 | `$push` with `$position: 0`: the revision id becomes the head of the version's list. Its frame is `PushRevisionFrontFrame`. |
| GeometrySpec.PushRevisionFrontFrame | lib/controller/geometrycontroller.ts:152 | The push changes only the one version's list, which gains the id at its head; the version keeps its room and name, and no version is added. |
| GeometrySpec.InsertVersionDoc | lib/controller/geometrycontroller.ts:154-160 | `new GeometryVersionModel(...).save()`: the version document is stored under its id. Its frame is `InsertVersionDocFrame`. |
| GeometrySpec.InsertVersionDocFrame | lib/controller/geometrycontroller.ts:154-160 | Inserting the version changes only `versions`, adding exactly the key `vid`, which holds the version. |
| GeometrySpec.AppendVersionLink | lib/controller/roomcontroller.ts:418-437 | `addVersion`: the version id is appended to an existing room's `versions`; a missing room is left alone. Its frame is `RoomLinkFrame`. |
| GeometrySpec.LinkIfAbsent | lib/controller/geometrycontroller.ts:166-172 | The repair: afterwards an existing room lists the version, and a room that already listed it is unchanged. Its frame is `RoomLinkFrame`. |
| GeometrySpec.RoomLinkFrame | lib/controller/roomcontroller.ts:418-437 | `addVersion` and the repair change only the rooms and add none. `addVersion` appends the id to an existing room's `versions`. After the repair an existing room lists the version, and a room that already did is untouched. |
| GeometrySpec.SaveOutcome | lib/controller/geometrycontroller.ts:138-180 | One `saveRevision` call: the collections afterwards, the id counter and how the promise settles, path by path. Its properties are `SaveOutcomeFrame` and the `Save…` lemmas below. |
| GeometrySpec.SaveOutcomeFrame | lib/controller/geometrycontroller.ts:138-180 | A save mints one or two ids, resolves only with the revision's id, and never touches projects, models or geometries. |
| GeometrySpec.InsertRevisionKeepsInv | lib/controller/geometrycontroller.ts:143-151 | Inserting a revision under a fresh id keeps the invariant. |
| GeometrySpec.PushFrontKeepsInv | lib/controller/geometrycontroller.ts:152 | Pushing a fresh revision of the same room at position 0 keeps the invariant, including newest-first order. |
| GeometrySpec.CreateVersionKeepsInv | lib/controller/geometrycontroller.ts:154-160 | Creating the version `[rid]` for an unused (room, name) keeps the invariant. |
| GeometrySpec.InsertVersionKeepsInv | lib/controller/geometrycontroller.ts:154-160 | Storing a well-formed version under an unused id keeps the invariant, given unique keys and unshared revisions afterwards. |
| GeometrySpec.LinkKeepsInv | lib/controller/roomcontroller.ts:418-437 | Pushing an existing version id onto a room keeps the invariant. |
| GeometrySpec.SaveKeepsInv | lib/controller/geometrycontroller.ts:138-180 | Every outcome of `saveRevision`, on success and on every failure, keeps the invariant and mints at least one id. |
| GeometrySpec.ExistingSaveKeepsInv | lib/controller/geometrycontroller.ts:165-175 | The existing-version path keeps the invariant. |
| GeometrySpec.NewSaveKeepsInv | lib/controller/geometrycontroller.ts:154-164 | The new-version path keeps the invariant. |
| GeometrySpec.SaveInsertsOneRevision | lib/controller/geometrycontroller.ts:143-151 | Every save inserts exactly one revision with the edit's room, payload, author, date and model under a fresh id, unless that insert fails. |
| GeometrySpec.SaveResolvesWithRevisionId | lib/controller/geometrycontroller.ts:151-175 | The promise always settles, and on success it resolves with the revision's id, never the version's. |
| GeometrySpec.SaveExtendsExisting | lib/controller/geometrycontroller.ts:152-175 | With a matching version, the revision becomes its head and older entries keep their order. No version is created, and the room changes only by the link-if-absent repair. |
| GeometrySpec.SaveCreatesVersion | lib/controller/geometrycontroller.ts:154-164 | Without a match, a version `[rid]` is created under a fresh id. On success the room lists it exactly once, at the end. A failed link still leaves the revision and version stored while the promise rejects. |
| GeometrySpec.LinkIfAbsentNeverDuplicates | lib/controller/geometrycontroller.ts:166-172 | The repair adds the version only when the room lacks it, so it never duplicates it, and running it twice equals running it once. |
| GeometrySpec.AppendVersionLinkCounts | lib/controller/roomcontroller.ts:418-437 | `addVersion` checks nothing: every call adds one more occurrence at the end and keeps the rest. |
| GeometrySpec.ExtendStep | lib/controller/geometrycontroller.ts:152-175 | A fault-free save onto a version already linked to its room only pushes the revision. |
| GeometrySpec.CreateStep | lib/controller/geometrycontroller.ts:154-164 | A fault-free save without a match creates one version and links it to an existing room exactly once. |
| GeometrySpec.SaveAllExtends | lib/controller/geometrycontroller.ts:138-180 | Sequential fault-free saves to an existing (room, name) all resolve, create no version and leave the rooms as they were. |
| GeometrySpec.SaveAllExtendsHistory | lib/controller/geometrycontroller.ts:152 | After those saves the version lists the new revision ids newest first, in front of its old history. |
| GeometrySpec.SaveAllKeepsInv | lib/controller/geometrycontroller.ts:138-180 | Any run of saves keeps the invariant. |
| GeometrySpec.SaveAllFromScratch | lib/controller/geometrycontroller.ts:138-180 | Sequential fault-free saves to a new (room, name) all resolve and create exactly one version. |
| GeometrySpec.SaveAllFromScratchHistory | lib/controller/geometrycontroller.ts:152-160 | That version lists exactly the run's revision ids, newest first. |
| GeometrySpec.SaveAllFromScratchLinked | lib/controller/geometrycontroller.ts:161-172 | The room lists that version exactly once. |
| GeometrySpec.SaveAllFromScratchUnique | lib/controller/geometrycontroller.ts:138-180 | The invariant holds afterwards, and that version is the only one with its (room, name). |
| Store.DocumentStore.NewObjectId | lib/controller/geometrycontroller.ts:143 | `new Model(...)` mints an id unused in every collection and keeps the invariant. |
| Store.DocumentStore.Restore | lib/controller/geometrycontroller.ts:93 | Aborting a transaction puts every collection back to the given snapshot. |
| SessionManager.StartSessionAndTransaction | lib/utility/sessionManager.ts:6-15 | Without transactions, it resolves with no session and opens none. With them, `startSession` may reject, and then nothing is opened; otherwise it resolves with an active session holding the current collections and opens one session. |
| SessionManager.SessionStarts | lib/utility/sessionManager.ts:8-12 | The session promise resolves unless transactions are on and `startSession` fails. |
| SessionManager.CommitLost | lib/controller/geometrycontroller.ts:85-88 | A commit loses the session's writes exactly when there is a transaction and `commitTransaction` fails. |
| SessionManager.CommitAndEnd | lib/controller/geometrycontroller.ts:85-88 | The commit is started and the session ended, if there is one. A failed commit, which nobody waits for, rolls the collections back to the session's snapshot; otherwise the writes stay. |
| SessionManager.AbortAndEnd | lib/controller/geometrycontroller.ts:92-95 | Abort restores the session's snapshot and ends the session, if any. Without a session, nothing is undone. |
| Model3DController.SaveModel3D | lib/controller/model3dcontroller.ts:28-45 | A new model document with the payload and date is inserted under a fresh id, and the promise resolves with that id. A failed insert leaves the store as it was and the promise pending forever. |
| ProjectController.FindAndUpdateProject | lib/controller/projectcontroller.ts:173-189 | A `$set` on an existing project resolves with the updated document. A missing project resolves with null and nothing changes. |
| ProjectController.AddRoom | lib/controller/projectcontroller.ts:150-171 | A missing project or a failed read or write rejects with no reason and changes nothing. Otherwise the room id is appended and the updated project returned. Resolves iff neither fails and the project exists. |
| ProjectController.StripProtected | lib/controller/projectcontroller.ts:136-139 | The request body loses `date`, `creator` and `rooms` and keeps `name` and `description`. |
| ProjectController.PutProject | lib/controller/projectcontroller.ts:131-147 | No project's date, creator or room list ever changes; only the addressed project changes at all, its name and description following the body where given. A known id resolves with the updated document, an unknown one with null and nothing changed, and a failed write rejects with nothing changed. |
| RoomController.FindAndUpdateRoom | lib/controller/roomcontroller.ts:439-456 | A `$set` on an existing room resolves with the updated document. A missing room resolves with null and nothing changes. |
| RoomController.AddVersion | lib/controller/roomcontroller.ts:418-437 | A `$push` of the version id onto the room, without any check, resolving with the updated room (null for a missing room). A failure changes nothing. |
| RoomController.AddGeometry | lib/controller/roomcontroller.ts:395-416 | A failed read rejects. A missing room or absent `geometries` throws inside the callback, so the promise never settles. A failed write rejects and leaves the rooms unchanged. Otherwise the id is appended. Resolves iff reads and writes succeed on a room with `geometries`. |
| RoomController.PostAddPhoto | lib/controller/roomcontroller.ts:176-209 | The room gets the photo in `fotos` and a visible entry in `photos` iff it was read and written. Otherwise the room is unchanged. |
| RoomController.PostAddPhotos | lib/controller/roomcontroller.ts:211-250 | Every photo of the batch is appended, in order, iff the room was read, has `photos` and was written. Otherwise the room is unchanged. |
| RoomController.PostRemovePhoto | lib/controller/roomcontroller.ts:252-302 | The first occurrence of the photo leaves `fotos` and `supplements`, and all its entries leave `photos` (the corrected edit). Otherwise the room is unchanged. |
| RoomController.PostAddSupplements | lib/controller/roomcontroller.ts:304-325 | Supplements are appended in order iff the room was read and written. |
| RoomController.PostUpdateImageSequence | lib/controller/roomcontroller.ts:369-380 | `fotos` is replaced by the given sequence when the write succeeds. |
| RoomController.PostUpdateSupplementSequence | lib/controller/roomcontroller.ts:382-393 | `supplements` is replaced by the given sequence when the write succeeds. |
| RoomController.NewRoom | lib/controller/roomcontroller.ts:135-140 | A new room carries the name, description, date and creator, with empty lists and no `photos` or `geometries`. |
| RoomController.PostSaveRoom | lib/controller/roomcontroller.ts:133-174 | When the session cannot be started nothing happens and nothing is sent. Otherwise the new room's id is sent iff the room insert, project read and project write succeed on an existing project, and a server error is sent in every other case. A failed commit after the reply undoes the writes. Under a transaction a failure leaves the store as it was; without one the orphan room stays. The session is always ended. |
| GeometryController.SaveRevision | lib/controller/geometrycontroller.ts:138-180 | The chain of writes has exactly the effect, id use and result of `SaveOutcome`, and keeps the invariant. |
| GeometryController.SaveIntoExisting | lib/controller/geometrycontroller.ts:152-175 | The existing-version path: push at position 0, then the detached repair, then resolve with the revision id, as `SaveOutcome` says. |
| GeometryController.SaveIntoNew | lib/controller/geometrycontroller.ts:154-164 | The new-version path: insert `[rid]`, then `addVersion`, then resolve with the revision id, as `SaveOutcome` says. |
| GeometryController.ExtendRoomLink | lib/controller/geometrycontroller.ts:166-173 | When it has run and its write succeeds, the repair is `LinkIfAbsent`. Otherwise nothing changes. |
| GeometryController.PostSaveGeometry | lib/controller/geometrycontroller.ts:30-36 | Without a model or a session, the store ends as `SaveOutcome` says. The revision id is sent iff the save resolves; nothing is sent otherwise. |
| GeometryController.PostSaveGeometryAndModel | lib/controller/geometrycontroller.ts:74-101 | When the session cannot be started nothing happens. Otherwise the model is saved first, with its own clock reading, and its id recorded on the revision; one id goes to the model and the id counter then moves exactly as `SaveOutcome` says; success commits and sends the revision id, and a failed commit undoes the writes after the reply. A rejected save aborts, so under a transaction the model is undone too, and sends nothing. A failed model save sends nothing and leaves the session open. |
| GeometryController.FindGeometry | lib/controller/geometrycontroller.ts:107 | The query returns a geometry with that name and room, or `None` when none below the bound matches. |
| GeometryController.FindGeometryExact | lib/controller/geometrycontroller.ts:107 | With at most one geometry per (name, room), the query finds that geometry whenever it exists. |
| GeometryController.SetGeometry | lib/controller/geometrycontroller.ts:108-113 | The `$set` replaces the payload always and the model only when one is given; name, room and date stay. |
| GeometryController.GeometryKeysUnique | lib/controller/geometrycontroller.ts:107-136 | At most one geometry document per (name, room): the property the find-or-create is meant to keep. |
| GeometryController.GeometryOutcome | lib/controller/geometrycontroller.ts:103-136 | One `saveGeometry` call: it mints at most one id and never touches revisions, versions, projects or models. Its paths are stated by the lemmas below. |
| GeometryController.LinkedOutcome | lib/controller/geometrycontroller.ts:123-130 | After the insert, `addGeometry` changes only the rooms, and only when it resolves, with the new geometry's id. |
| GeometryController.GeometryOutcomeUpdatesExisting | lib/controller/geometrycontroller.ts:107-133 | An existing geometry of that (name, room) gets the new payload (and model, when given) in place and its id is returned. No id is minted and no room changes. |
| GeometryController.GeometryOutcomeCreates | lib/controller/geometrycontroller.ts:114-130 | Without a match, a geometry with the payload, model, name, room and date is stored under a fresh id, whatever follows. The promise resolves with that id iff the room read and write succeed on a room with `geometries`, and the room then lists it at the end; otherwise the rooms are unchanged. |
| GeometryController.InsertKeepsUnique | lib/controller/geometrycontroller.ts:115-123 | Storing a geometry under a new id keeps the keys unique when no stored geometry has its (name, room). |
| GeometryController.UpdateKeepsUnique | lib/controller/geometrycontroller.ts:107-113 | The `$set` leaves name and room alone, so it keeps the keys unique. |
| GeometryController.GeometryOutcomeKeepsUnique | lib/controller/geometrycontroller.ts:103-136 | Every outcome, failures included, keeps at most one geometry per (name, room) and every id below the counter. |
| GeometryController.SaveStoresKey | lib/controller/geometrycontroller.ts:103-136 | A save with no failing call leaves a geometry of that (name, room) in the store, and resolves, if it does, with its id. |
| GeometryController.SaveGeometryTwice | lib/controller/geometrycontroller.ts:103-136 | Saving the same (name, room) twice creates no second document: the second save resolves, mints nothing, updates the first one's document with its payload, and returns the same id. |
| GeometryController.SaveGeometry | lib/controller/geometrycontroller.ts:103-136 | The store, the id counter and the promise end exactly as `GeometryOutcome` says, on every path, and the invariant holds. |
| GeometryController.CreateGeometry | lib/controller/geometrycontroller.ts:114-130 | The path with no match ends exactly as `GeometryOutcome` says: the insert, then `addGeometry`, with each failure settling the promise as the source does. |

## Left out

- HTTP routing, authentication, request parsing and the read-only handlers (loading rooms, revisions, models and projects) are not modelled; they write nothing.
- Mongoose `populate` of returned documents is not modelled: a resolved document is the stored one, not the one with references expanded.
- The `{ _session }` option key is taken to bind the write to the session; whether the driver honours that key is not visible in this code.
- Mongoose strict mode is not modelled: the room schema declares neither `photos` nor `geometries`, and the model treats both as optional stored fields that are absent on a newly saved room.
- Concurrency is not modelled: two overlapping `saveRevision` calls with a new (room, name) can each create a version, and two overlapping list edits can lose an update; the model runs calls one at a time.
- The detached repair of the existing-version path runs at an unknown time; the model lets the parameter `repairRan` say whether it has run, and a failure of its room read is covered by `repairRan` being false.
- The list-edit handlers (`postAddPhoto`, `postAddPhotos`, `postRemovePhoto`) open a session but write without it; the unused session, and the fact that it is never ended when the room read fails, are not modelled. They read the room only once the session has started (lib/controller/roomcontroller.ts:177, 217, 257), so a failing `startSession` means no edit at all; their members (`PostAddPhoto`, `PostAddPhotos`, `PostRemovePhoto`) take no `StartSession` fault and state only what happens once the session exists.
- The room name and description handlers and the project name handlers are plain `$set` calls that `FindAndUpdateRoom`/`FindAndUpdateProject` cover; they have no member of their own.
- `postSaveProject` (lib/controller/projectcontroller.ts:72-90) is not modelled. It inserts a new project with `.save()` and sends its id, and its `.catch` swallows every error without a reply.
- The `processing`, `skps` and `dxfs` room fields and the `visible` flags of rooms and projects are not part of this model.
- ObjectId equality (`equals`, `indexOf` on ObjectIds against strings) is modelled as equality of ids.
- `Date.now()` and `hasTransaction()` are parameters; logging (`console.log`) is left out.
- RoomLists.RemovePhoto: `photos` is edited by the corrected `WithoutPhoto`, not by the as-written splice loop (`SpliceMatchingPhotos`). The two differ only when the photo has two or more entries in `photos` (`AsWrittenAgreesOnSingleMatch`); see Findings.
- RoomController.PostRemovePhoto: stores the result of `RoomLists.RemovePhoto`, so it carries the same correction.
- ProjectController.PutProject: the body's `$set` is modelled as a patch of named fields. A dotted path in the body such as `rooms.0` or `creator.x` is not one of the deleted keys and would still reach the room list or the creator; the model does not capture that, and its promise that date, creator and rooms never change holds only for bodies without such paths.
- RoomController.AddGeometry: the `TypeError` thrown inside the read callback for a missing room is modelled as a promise that never settles, not as a process-level exception.

## Findings

| source | as written | input that shows it | evidently intended | confidence | as-written member | corrected member |
|---|---|---|---|---|---|---|
| lib/controller/roomcontroller.ts:264-273 | Entries are spliced out of the copy `photos` at indices of the original `project.photos`, so after the first removal every later index is off by one. | Removing photo 1 from `photos = [Photo(1, visible), Photo(1, visible), Photo(2, visible)]` yields `[Photo(1, visible)]`. | Every entry for the photo is removed, yielding `[Photo(2, visible)]`. | not executed | RoomLists.AsWrittenDropsWrongEntry | RoomLists.WithoutPhoto |
