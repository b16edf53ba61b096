/** lib/controller/roomcontroller.ts: the room writes of the geometry and
    room-creation chains, and the handlers that edit a room's photo and
    supplement lists by reading the room, changing the lists and writing
    them back. */
module RoomController {
  import opened Documents
  import opened GeometrySpec
  import opened Store
  import opened RoomLists
  import opened SessionManager
  import ProjectController

  /** How a list-editing handler ends: the updated room is sent back (or
      `null` when the room is gone by the time of the write); the read
      failed and the error went to `next`; reading a field of a missing
      room or list threw; or the write failed and nothing was sent. */
  datatype EditOutcome = Updated(doc: Option<Room>) | ReadError | Threw | NotWritten

  /** `findAndUpdateRoom(id, data, session)`: a `$set` of the supplied
      fields, resolving with the room as it is after the update
      (`new: true`), or with `null` when there is no such room. */
  method FindAndUpdateRoom(s: DocumentStore, id: Id, patch: RoomPatch, session: Session, faults: set<Call>)
    returns (p: Promise<Option<Room>>)
    requires s.Valid()
    modifies s`rooms
    ensures s.Valid()
    ensures UpdateRoom in faults ==> p == Rejected(StoreError(UpdateRoom)) && s.rooms == old(s.rooms)
    ensures UpdateRoom !in faults && id !in old(s.rooms) ==> p == Resolved(None) && s.rooms == old(s.rooms)
    ensures UpdateRoom !in faults && id in old(s.rooms) ==>
      && s.rooms == old(s.rooms)[id := ApplyRoomPatch(old(s.rooms)[id], patch)]
      && p == Resolved(Some(s.rooms[id]))
  {
    if UpdateRoom in faults {
      p := Rejected(StoreError(UpdateRoom));
    } else if id !in s.rooms {
      p := Resolved(None);
    } else {
      var before := s.rooms[id];
      var after := ApplyRoomPatch(before, patch);
      s.rooms := s.rooms[id := after];
      p := Resolved(Some(after));
    }
  }

  /** `addVersion(room_id, version_id, session)`: `$push` the version id onto
      the end of the room's `versions`, with no check for a duplicate,
      resolving with the updated room (`null` when there is none). */
  method AddVersion(s: DocumentStore, roomId: Id, vid: Id, session: Session, faults: set<Call>)
    returns (p: Promise<Option<Room>>)
    requires s.Valid() && vid < s.nextId
    modifies s`rooms
    ensures s.Valid()
    ensures PushVersion in faults ==> p == Rejected(StoreError(PushVersion)) && s.rooms == old(s.rooms)
    ensures PushVersion !in faults ==> s.Docs() == AppendVersionLink(old(s.Docs()), roomId, vid)
    ensures PushVersion !in faults && roomId in old(s.rooms) ==> p == Resolved(Some(s.rooms[roomId]))
    ensures PushVersion !in faults && roomId !in old(s.rooms) ==> p == Resolved(None)
  {
    if PushVersion in faults {
      p := Rejected(StoreError(PushVersion));
      return;
    }
    LinkKeepsInv(s.Docs(), s.nextId, roomId, vid);
    if roomId in s.rooms {
      var before := s.rooms[roomId];
      var after := before.(versions := before.versions + [vid]);
      s.rooms := s.rooms[roomId := after];
      p := Resolved(Some(after));
    } else {
      p := Resolved(None);
    }
  }

  /** `addGeometry(room_id, geometry_id, session)`: read the room, push the
      geometry id onto its `geometries` and write the list back. A failed
      read rejects; a missing room or a room without a `geometries` list
      makes the callback throw, so the promise never settles; the write's
      outcome is passed on. */
  method AddGeometry(s: DocumentStore, roomId: Id, gid: Id, session: Session, faults: set<Call>)
    returns (p: Promise<Option<Room>>)
    requires s.Valid()
    modifies s`rooms
    ensures s.Valid()
    ensures ReadRoom in faults ==> p == Rejected(StoreError(ReadRoom)) && s.rooms == old(s.rooms)
    ensures ReadRoom !in faults && (roomId !in old(s.rooms) || old(s.rooms)[roomId].geometries.None?) ==>
      p == Pending && s.rooms == old(s.rooms)
    ensures UpdateRoom in faults && ReadRoom !in faults && roomId in old(s.rooms) && old(s.rooms)[roomId].geometries.Some? ==>
      p == Rejected(StoreError(UpdateRoom)) && s.rooms == old(s.rooms)
    ensures p.Resolved? ==>
      && roomId in old(s.rooms) && old(s.rooms)[roomId].geometries.Some?
      && s.rooms == old(s.rooms)[roomId := old(s.rooms)[roomId].(geometries := Some(old(s.rooms)[roomId].geometries.value + [gid]))]
      && p == Resolved(Some(s.rooms[roomId]))
    ensures p.Resolved? <==>
      ReadRoom !in faults && roomId in old(s.rooms) && old(s.rooms)[roomId].geometries.Some? && UpdateRoom !in faults
  {
    if ReadRoom in faults {
      p := Rejected(StoreError(ReadRoom));
      return;
    }
    if roomId !in s.rooms || s.rooms[roomId].geometries.None? {
      p := Pending;
      return;
    }
    var geometries := s.rooms[roomId].geometries.value;
    geometries := geometries + [gid];
    p := FindAndUpdateRoom(s, roomId, RoomPatch(None, None, None, None, None, Some(geometries)), session, faults);
  }

  /** postAddPhoto */
  method PostAddPhoto(s: DocumentStore, roomId: Id, photoId: Id, faults: set<Call>) returns (out: EditOutcome)
    requires s.Valid()
    modifies s`rooms
    ensures s.Valid()
    ensures out.Updated? <==> ReadRoom !in faults && roomId in old(s.rooms) && UpdateRoom !in faults
    ensures out.Updated? ==>
      && s.rooms == old(s.rooms)[roomId := AddPhoto(old(s.rooms)[roomId], photoId)]
      && out == Updated(Some(s.rooms[roomId]))
    ensures !out.Updated? ==> s.rooms == old(s.rooms)
  {
    if ReadRoom in faults {
      return ReadError;
    }
    if roomId !in s.rooms {
      return Threw;
    }
    var room := s.rooms[roomId];
    var fotos := room.fotos + [photoId];
    var photos := if room.photos.Some? then room.photos.value else [];
    photos := photos + [Photo(photoId, true)];
    var written := FindAndUpdateRoom(s, roomId, RoomPatch(None, None, Some(fotos), Some(photos), None, None), NoSession, faults);
    out := if written.Resolved? then Updated(written.value) else NotWritten;
  }

  /** postAddPhotos */
  method PostAddPhotos(s: DocumentStore, roomId: Id, ids: seq<Id>, faults: set<Call>) returns (out: EditOutcome)
    requires s.Valid()
    modifies s`rooms
    ensures s.Valid()
    ensures out.Updated? <==>
      ReadRoom !in faults && roomId in old(s.rooms) && old(s.rooms)[roomId].photos.Some? && UpdateRoom !in faults
    ensures out.Updated? ==>
      && s.rooms == old(s.rooms)[roomId := AddPhotos(old(s.rooms)[roomId], ids).value]
      && out == Updated(Some(s.rooms[roomId]))
    ensures !out.Updated? ==> s.rooms == old(s.rooms)
  {
    if ReadRoom in faults {
      return ReadError;
    }
    if roomId !in s.rooms || s.rooms[roomId].photos.None? {
      return Threw;
    }
    var room := s.rooms[roomId];
    var fotos, photos := PushEachPhoto(room.fotos, room.photos.value, ids);
    var written := FindAndUpdateRoom(s, roomId, RoomPatch(None, None, Some(fotos), Some(photos), None, None), NoSession, faults);
    out := if written.Resolved? then Updated(written.value) else NotWritten;
  }

  /** postRemovePhoto, with the `photos` list filtered rather than spliced
      at the original array's indices (see `SpliceMatchingPhotos`). */
  method PostRemovePhoto(s: DocumentStore, roomId: Id, photoId: Id, faults: set<Call>) returns (out: EditOutcome)
    requires s.Valid()
    modifies s`rooms
    ensures s.Valid()
    ensures out.Updated? <==>
      ReadRoom !in faults && roomId in old(s.rooms) && old(s.rooms)[roomId].photos.Some? && UpdateRoom !in faults
    ensures out.Updated? ==>
      && s.rooms == old(s.rooms)[roomId := RemovePhoto(old(s.rooms)[roomId], photoId).value]
      && out == Updated(Some(s.rooms[roomId]))
    ensures !out.Updated? ==> s.rooms == old(s.rooms)
  {
    if ReadRoom in faults {
      return ReadError;
    }
    if roomId !in s.rooms || s.rooms[roomId].photos.None? {
      return Threw;
    }
    var room := s.rooms[roomId];
    var fotos := room.fotos;
    var index := IndexOf(fotos, photoId);
    if index > -1 {
      fotos := Splice(fotos, index);
    }
    var photos := WithoutPhoto(room.photos.value, photoId);
    var supplements := room.supplements;
    index := IndexOf(supplements, photoId);
    if index > -1 {
      supplements := Splice(supplements, index);
    }
    var written := FindAndUpdateRoom(s, roomId, RoomPatch(None, None, Some(fotos), Some(photos), Some(supplements), None),
                                     NoSession, faults);
    out := if written.Resolved? then Updated(written.value) else NotWritten;
  }

  /** postAddSupplements */
  method PostAddSupplements(s: DocumentStore, roomId: Id, ids: seq<Id>, faults: set<Call>) returns (out: EditOutcome)
    requires s.Valid()
    modifies s`rooms
    ensures s.Valid()
    ensures out.Updated? <==> ReadRoom !in faults && roomId in old(s.rooms) && UpdateRoom !in faults
    ensures out.Updated? ==>
      && s.rooms == old(s.rooms)[roomId := AddSupplements(old(s.rooms)[roomId], ids)]
      && out == Updated(Some(s.rooms[roomId]))
    ensures !out.Updated? ==> s.rooms == old(s.rooms)
  {
    if ReadRoom in faults {
      return ReadError;
    }
    if roomId !in s.rooms {
      return Threw;
    }
    var supplements := PushEach(s.rooms[roomId].supplements, ids);
    var written := FindAndUpdateRoom(s, roomId, RoomPatch(None, None, None, None, Some(supplements), None), NoSession, faults);
    out := if written.Resolved? then Updated(written.value) else NotWritten;
  }

  /** postUpdateImageSequence: `fotos` is replaced by the given ids as they
      are; nothing else in the room changes. */
  method PostUpdateImageSequence(s: DocumentStore, roomId: Id, ids: seq<Id>, faults: set<Call>) returns (out: EditOutcome)
    requires s.Valid()
    modifies s`rooms
    ensures s.Valid()
    ensures out.Updated? <==> UpdateRoom !in faults
    ensures out.Updated? && roomId in old(s.rooms) ==>
      && s.rooms == old(s.rooms)[roomId := old(s.rooms)[roomId].(fotos := ids)]
      && out == Updated(Some(s.rooms[roomId]))
    ensures out.Updated? && roomId !in old(s.rooms) ==> out == Updated(None)
    ensures !out.Updated? || roomId !in old(s.rooms) ==> s.rooms == old(s.rooms)
  {
    var written := FindAndUpdateRoom(s, roomId, RoomPatch(None, None, Some(ids), None, None, None), NoSession, faults);
    out := if written.Resolved? then Updated(written.value) else NotWritten;
  }

  /** postUpdateSupplementSequence: `supplements` is replaced by the given
      ids as they are; nothing else in the room changes. */
  method PostUpdateSupplementSequence(s: DocumentStore, roomId: Id, ids: seq<Id>, faults: set<Call>)
    returns (out: EditOutcome)
    requires s.Valid()
    modifies s`rooms
    ensures s.Valid()
    ensures out.Updated? <==> UpdateRoom !in faults
    ensures out.Updated? && roomId in old(s.rooms) ==>
      && s.rooms == old(s.rooms)[roomId := old(s.rooms)[roomId].(supplements := ids)]
      && out == Updated(Some(s.rooms[roomId]))
    ensures out.Updated? && roomId !in old(s.rooms) ==> out == Updated(None)
    ensures !out.Updated? || roomId !in old(s.rooms) ==> s.rooms == old(s.rooms)
  {
    var written := FindAndUpdateRoom(s, roomId, RoomPatch(None, None, None, None, Some(ids), None), NoSession, faults);
    out := if written.Resolved? then Updated(written.value) else NotWritten;
  }

  /** The room `postSaveRoom` creates: its lists empty, with neither a
      `photos` nor a `geometries` list. */
  function NewRoom(name: string, description: string, date: Timestamp, creator: Id): (r: Room)
    ensures r.fotos == [] && r.supplements == [] && r.versions == []
    ensures r.photos.None? && r.geometries.None?
    ensures r.name == name && r.description == description && r.date == date && r.creator == creator
  {
    Room(name, description, date, creator, [], None, [], [], None)
  }

  /** postSaveRoom: save a new room, then link it to the project; commit
      and reply with the room's id when both succeed, otherwise abort and
      reply with a server error. Either way the session is ended. Under a
      transaction a failure leaves every collection as it was; without one
      a room saved before the link failed stays, listed by no project. The
      reply does not wait for the commit, so a failed commit drops the
      writes of a request already answered with the id. When the session
      cannot be started nothing happens and nothing is sent. */
  method PostSaveRoom(s: DocumentStore, projectId: Id, name: string, description: string, date: Timestamp,
                      creator: Id, hasTransaction: bool, faults: set<Call>)
    returns (reply: Reply)
    requires s.Valid()
    modifies s
    ensures s.Valid()
    ensures s.openSessions == old(s.openSessions)
    ensures !SessionStarts(hasTransaction, faults) ==>
      reply == NoReply && s.Docs() == old(s.Docs()) && s.nextId == old(s.nextId)
    ensures SessionStarts(hasTransaction, faults) ==>
      s.nextId == old(s.nextId) + 1 && (reply == Sent(old(s.nextId)) || reply == ServerError)
    ensures reply.Sent? <==>
      && SessionStarts(hasTransaction, faults)
      && InsertRoom !in faults && ReadProject !in faults && projectId in old(s.projects) && UpdateProject !in faults
    ensures reply.Sent? && !CommitLost(hasTransaction, faults) ==>
      && s.Docs() == old(s.Docs()).(
           rooms := old(s.rooms)[reply.id := NewRoom(name, description, date, creator)],
           projects := old(s.projects)[projectId := old(s.projects)[projectId].(rooms := old(s.projects)[projectId].rooms + [reply.id])])
    ensures reply.Sent? && CommitLost(hasTransaction, faults) ==> s.Docs() == old(s.Docs())
    ensures reply == ServerError && hasTransaction ==> s.Docs() == old(s.Docs())
    ensures reply == ServerError && !hasTransaction ==>
      && s.Docs() == old(s.Docs()).(
           rooms := if InsertRoom in faults then old(s.rooms)
                    else old(s.rooms)[old(s.nextId) := NewRoom(name, description, date, creator)])
  {
    ghost var before, next0 := s.Docs(), s.nextId;
    var started := StartSessionAndTransaction(s, hasTransaction, faults);
    if !started.Resolved? {
      return NoReply;
    }
    var session := started.value;
    var roomId := s.NewObjectId();
    InvMonotone(before, next0, s.nextId);
    if InsertRoom in faults {
      AbortAndEnd(s, session);
      return ServerError;
    }
    s.rooms := s.rooms[roomId := NewRoom(name, description, date, creator)];
    assert s.Valid() by {
      forall r | r in s.rooms ensures Below(s.rooms[r].versions, s.nextId) {
        if r != roomId {
          assert Below(before.rooms[r].versions, s.nextId);
        }
      }
    }
    var linked := ProjectController.AddRoom(s, projectId, roomId, session, faults);
    if linked.Resolved? {
      CommitAndEnd(s, session, faults);
      reply := Sent(roomId);
    } else {
      AbortAndEnd(s, session);
      reply := ServerError;
    }
  }
}
