/** lib/controller/geometrycontroller.ts: saving geometry edits as
    revisions of a named version, with or without a 3-D model saved first,
    and the older find-or-create of unversioned geometry documents. */
module GeometryController {
  import opened Documents
  import opened GeometrySpec
  import opened Store
  import opened SessionManager
  import RoomController
  import Model3DController

  /** `saveRevision(name, room_id, author_id, data, model_id, session)`:
      the chain of store writes whose effect `SaveOutcome` describes.
      Every write carries the session. On the existing-version path the
      room-link repair is detached: `repairRan` says whether it has run by
      the time the caller sees the promise settle. */
  method SaveRevision(s: DocumentStore, e: Edit, session: Session, faults: set<Call>, repairRan: bool)
    returns (p: Promise<Id>)
    requires s.Valid()
    modifies s
    ensures s.Valid()
    ensures Saved(s.Docs(), s.nextId, p) == SaveOutcome(old(s.Docs()), old(s.nextId), e, faults, repairRan)
    ensures s.openSessions == old(s.openSessions)
  {
    ghost var db0, n0 := s.Docs(), s.nextId;
    var rev := RevisionOf(e);
    var rid := s.NewObjectId();
    if InsertRevision in faults {
      return Rejected(StoreError(InsertRevision));
    }
    InsertRevisionKeepsInv(db0, n0, rev);
    s.revisions := s.revisions[rid := rev];
    if PushRevision in faults {
      return Rejected(StoreError(PushRevision));
    }
    var found := FindVersion(s.versions, e.room, e.name, s.nextId);
    match found {
      case Some(vid) =>
        p := SaveIntoExisting(s, db0, n0, e, rid, vid, session, faults, repairRan);
      case None =>
        p := SaveIntoNew(s, db0, n0, e, rid, session, faults);
    }
  }

  /** The path of `saveRevision` where the version already exists: the
      revision id goes to the front of its list (`$position: 0`), then the
      detached room-link repair. */
  method SaveIntoExisting(s: DocumentStore, ghost db0: Db, ghost n0: nat, e: Edit, rid: Id, vid: Id,
                          session: Session, faults: set<Call>, repairRan: bool)
    returns (p: Promise<Id>)
    requires Inv(db0, n0) && InsertRevision !in faults && PushRevision !in faults && rid == n0
    requires FindVersion(db0.versions, e.room, e.name, n0 + 1) == Some(vid)
    requires s.Docs() == InsertRevisionDoc(db0, n0, RevisionOf(e)) && s.nextId == n0 + 1 && s.Valid()
    modifies s
    ensures s.Valid()
    ensures Saved(s.Docs(), s.nextId, p) == SaveOutcome(db0, n0, e, faults, repairRan)
    ensures s.openSessions == old(s.openSessions)
  {
    ExistingSaveKeepsInv(db0, n0, e, faults, repairRan, vid);
    PushFrontKeepsInv(db0, n0, vid, RevisionOf(e));
    s.versions := s.versions[vid := s.versions[vid].(revisions := [rid] + s.versions[vid].revisions)];
    ExtendRoomLink(s, e, vid, session, faults, repairRan);
    p := Resolved(rid);
  }

  /** The path of `saveRevision` where no version matches: a new version
      holding just the revision is inserted and pushed onto the room. */
  method SaveIntoNew(s: DocumentStore, ghost db0: Db, ghost n0: nat, e: Edit, rid: Id,
                     session: Session, faults: set<Call>)
    returns (p: Promise<Id>)
    requires Inv(db0, n0) && InsertRevision !in faults && PushRevision !in faults && rid == n0
    requires FindVersion(db0.versions, e.room, e.name, n0 + 1).None?
    requires s.Docs() == InsertRevisionDoc(db0, n0, RevisionOf(e)) && s.nextId == n0 + 1 && s.Valid()
    modifies s
    ensures s.Valid()
    ensures Saved(s.Docs(), s.nextId, p) == SaveOutcome(db0, n0, e, faults, false)
    ensures s.openSessions == old(s.openSessions)
  {
    NewSaveSteps(db0, n0, e, faults, false);
    ghost var db1 := s.Docs();
    var vid := s.NewObjectId();
    if InsertVersion in faults {
      return Rejected(StoreError(InsertVersion));
    }
    CreateVersionKeepsInv(db0, n0, RevisionOf(e), e.name);
    s.versions := s.versions[vid := Version(e.room, e.name, [rid])];
    assert s.Docs() == InsertVersionDoc(db1, n0 + 1, Version(e.room, e.name, [n0]));
    ghost var db2 := s.Docs();
    var linked := RoomController.AddVersion(s, e.room, vid, session, faults);
    if linked.Resolved? {
      assert s.Docs() == AppendVersionLink(db2, e.room, n0 + 1);
      p := Resolved(rid);
    } else {
      assert s.Docs() == db2;
      p := Rejected(StoreError(PushVersion));
    }
  }

  /** The detached repair of the existing-version path: re-read the room and
      push the version onto it when the room exists and does not list it. */
  method ExtendRoomLink(s: DocumentStore, e: Edit, vid: Id, session: Session, faults: set<Call>, repairRan: bool)
    requires s.Valid() && vid < s.nextId
    modifies s`rooms
    ensures s.Valid()
    ensures s.Docs() == (if repairRan && PushVersion !in faults then LinkIfAbsent(old(s.Docs()), e.room, vid)
                         else old(s.Docs()))
  {
    if repairRan && e.room in s.rooms && vid !in s.rooms[e.room].versions {
      var _ := RoomController.AddVersion(s, e.room, vid, session, faults);
    }
  }

  /** postSaveGeometry: a revision without a model and without a session;
      the revision id is sent back on success, and nothing is sent when the
      save rejects. */
  method PostSaveGeometry(s: DocumentStore, name: string, roomId: Id, author: Id, geometry: Payload,
                          date: Timestamp, faults: set<Call>, repairRan: bool)
    returns (reply: Reply)
    requires s.Valid()
    modifies s
    ensures s.Valid()
    ensures var o := SaveOutcome(old(s.Docs()), old(s.nextId), Edit(name, roomId, author, geometry, date, None),
                                 faults, repairRan);
      && s.Docs() == o.db && s.nextId == o.next
      && (reply.Sent? <==> o.result.Resolved?)
      && (reply.Sent? ==> reply.id == old(s.nextId))
      && (!reply.Sent? ==> reply == NoReply)
    ensures s.openSessions == old(s.openSessions)
  {
    ghost var db0, n0 := s.Docs(), s.nextId;
    var p := SaveRevision(s, Edit(name, roomId, author, geometry, date, None), NoSession, faults, repairRan);
    SaveResolvesWithRevisionId(db0, n0, Edit(name, roomId, author, geometry, date, None), faults, repairRan);
    reply := if p.Resolved? then Sent(p.value) else NoReply;
  }

  /** postSaveGeometryAndModel: start the session, save the model, then
      save the revision with the model's id under the same session. On
      success commit, end the session and send the revision id without
      waiting for the commit; when the revision save rejects, abort
      (undoing the model too, under a transaction), end the session and
      send nothing. When the model save fails its promise never settles:
      nothing follows, nothing is sent and the session stays open. When the
      session cannot be started nothing happens at all. The model and the
      revision each read the clock: `modelDate` and `date`. */
  method PostSaveGeometryAndModel(s: DocumentStore, name: string, roomId: Id, author: Id, geometry: Payload,
                                  model: Payload, modelDate: Timestamp, date: Timestamp, hasTransaction: bool,
                                  faults: set<Call>, repairRan: bool)
    returns (reply: Reply)
    requires s.Valid()
    modifies s
    ensures s.Valid()
    ensures !SessionStarts(hasTransaction, faults) ==>
      && reply == NoReply && s.Docs() == old(s.Docs()) && s.nextId == old(s.nextId)
      && s.openSessions == old(s.openSessions)
    ensures SessionStarts(hasTransaction, faults) && InsertModel in faults ==>
      && reply == NoReply && s.Docs() == old(s.Docs()) && s.nextId == old(s.nextId) + 1
      && s.openSessions == old(s.openSessions) + (if hasTransaction then 1 else 0)
    ensures SessionStarts(hasTransaction, faults) && InsertModel !in faults ==>
      s.openSessions == old(s.openSessions)
    ensures SessionStarts(hasTransaction, faults) && InsertModel !in faults ==>
      var mid := old(s.nextId);
      var o := SaveOutcome(old(s.Docs()).(models := old(s.models)[mid := Model3D(model, modelDate)]), mid + 1,
                           Edit(name, roomId, author, geometry, date, Some(mid)), faults, repairRan);
      && s.nextId == o.next
      && (reply.Sent? <==> o.result.Resolved?)
      && (reply.Sent? ==> reply.id == mid + 1)
      && (reply.Sent? && !CommitLost(hasTransaction, faults) ==> s.Docs() == o.db)
      && (reply.Sent? && CommitLost(hasTransaction, faults) ==> s.Docs() == old(s.Docs()))
      && (!reply.Sent? ==> reply == NoReply)
      && (!reply.Sent? && hasTransaction ==> s.Docs() == old(s.Docs()))
      && (!reply.Sent? && !hasTransaction ==> s.Docs() == o.db)
  {
    ghost var db0, n0 := s.Docs(), s.nextId;
    var started := StartSessionAndTransaction(s, hasTransaction, faults);
    if !started.Resolved? {
      return NoReply;
    }
    var session := started.value;
    var saved := Model3DController.SaveModel3D(s, model, modelDate, session, faults);
    if saved.Pending? {
      return NoReply;
    }
    var e := Edit(name, roomId, author, geometry, date, Some(saved.value));
    ghost var db1, n1 := s.Docs(), s.nextId;
    var p := SaveRevision(s, e, session, faults, repairRan);
    SaveResolvesWithRevisionId(db1, n1, e, faults, repairRan);
    InvMonotone(db0, n0, s.nextId);
    if p.Resolved? {
      CommitAndEnd(s, session, faults);
      reply := Sent(p.value);
    } else {
      AbortAndEnd(s, session);
      reply := NoReply;
    }
  }

  // ---------------------------------------------------------------------
  // saveGeometry: the unversioned find-or-create (not reachable from any
  // route, kept because the versioned store replaced it).

  predicate SameGeometryKey(g: Geometry, name: string, roomId: Id)
  {
    g.name == name && g.project == roomId
  }

  /** At most one geometry document per (name, room). */
  predicate GeometryKeysUnique(gs: map<Id, Geometry>)
  {
    forall a, b :: a in gs && b in gs && SameGeometryKey(gs[b], gs[a].name, gs[a].project) ==> a == b
  }

  /** The `findOneAndUpdate({ name, project: room_id })` query. */
  function FindGeometry(gs: map<Id, Geometry>, name: string, roomId: Id, bound: nat): (r: Option<Id>)
    ensures r.Some? ==> r.value in gs && SameGeometryKey(gs[r.value], name, roomId)
    ensures r.None? ==> forall k :: k in gs && k < bound ==> !SameGeometryKey(gs[k], name, roomId)
  {
    FindOne(gs, (g: Geometry) => SameGeometryKey(g, name, roomId), 0, bound)
  }

  /** With at most one geometry per key, the query finds that one. */
  lemma FindGeometryExact(gs: map<Id, Geometry>, name: string, roomId: Id, bound: nat, gid: Id)
    requires GeometryKeysUnique(gs) && gid in gs && gid < bound && SameGeometryKey(gs[gid], name, roomId)
    ensures FindGeometry(gs, name, roomId, bound) == Some(gid)
  {
    var r := FindGeometry(gs, name, roomId, bound);
    assert r.Some?;
    assert SameGeometryKey(gs[r.value], gs[gid].name, gs[gid].project);
  }

  /** The `$set` of saveGeometry: the payload always, the model only when
      one is given. */
  function SetGeometry(g: Geometry, geometry: Payload, model: Option<Id>): (r: Geometry)
    ensures r.geometry == geometry
    ensures r.model == (if model.Some? then model else g.model)
    ensures r.name == g.name && r.project == g.project && r.date == g.date
  {
    g.(geometry := geometry, model := if model.Some? then model else g.model)
  }

  /** One `saveGeometry` call: the collections afterwards, the id counter
      and how the promise settles. A new geometry takes id `next`; a failed
      `addGeometry` still leaves it stored. */
  function GeometryOutcome(db: Db, next: nat, name: string, roomId: Id, geometry: Payload, model: Option<Id>,
                           date: Timestamp, faults: set<Call>): (o: Saved)
    ensures o.db.revisions == db.revisions && o.db.versions == db.versions
    ensures o.db.projects == db.projects && o.db.models == db.models
    ensures o.next == next || o.next == next + 1
  {
    if UpdateGeometry in faults then Saved(db, next, Rejected(StoreError(UpdateGeometry)))
    else
      match FindGeometry(db.geometries, name, roomId, next)
      case Some(gid) =>
        Saved(db.(geometries := db.geometries[gid := SetGeometry(db.geometries[gid], geometry, model)]), next, Resolved(gid))
      case None =>
        if InsertGeometry in faults then Saved(db, next + 1, Rejected(StoreError(InsertGeometry)))
        else LinkedOutcome(db.(geometries := db.geometries[next := Geometry(roomId, geometry, model, name, date)]),
                           next, roomId, faults)
  }

  /** After the new geometry `gid` is stored: `addGeometry` appends it to
      the room's `geometries`, and the promise settles as that call does. */
  function LinkedOutcome(db: Db, gid: Id, roomId: Id, faults: set<Call>): (o: Saved)
    ensures o.db == db || o.db == db.(rooms := o.db.rooms)
    ensures o.next == gid + 1
    ensures o.result.Resolved? ==> o.result.value == gid
    ensures o.db.rooms != db.rooms ==> o.result.Resolved?
  {
    if ReadRoom in faults then Saved(db, gid + 1, Rejected(StoreError(ReadRoom)))
    else if roomId !in db.rooms || db.rooms[roomId].geometries.None? then Saved(db, gid + 1, Pending)
    else if UpdateRoom in faults then Saved(db, gid + 1, Rejected(StoreError(UpdateRoom)))
    else
      var room := db.rooms[roomId];
      Saved(db.(rooms := db.rooms[roomId := room.(geometries := Some(room.geometries.value + [gid]))]),
            gid + 1, Resolved(gid))
  }

  /** An existing geometry of that (name, room) is updated in place and its
      id returned; no document is created and no room changes. */
  lemma GeometryOutcomeUpdatesExisting(db: Db, next: nat, name: string, roomId: Id, geometry: Payload,
                                       model: Option<Id>, date: Timestamp, faults: set<Call>, gid: Id)
    requires GeometryKeysUnique(db.geometries) && gid in db.geometries && gid < next
    requires SameGeometryKey(db.geometries[gid], name, roomId) && UpdateGeometry !in faults
    ensures var o := GeometryOutcome(db, next, name, roomId, geometry, model, date, faults);
      && o.result == Resolved(gid) && o.next == next
      && o.db == db.(geometries := db.geometries[gid := SetGeometry(db.geometries[gid], geometry, model)])
  {
    FindGeometryExact(db.geometries, name, roomId, next, gid);
  }

  /** Without a match a geometry holding the payload, the model, the name,
      the room and the date is stored under the fresh id, whatever happens
      next; the promise resolves with that id exactly when the room is read
      and written and has a `geometries` list, which then ends with it. */
  lemma GeometryOutcomeCreates(db: Db, next: nat, name: string, roomId: Id, geometry: Payload,
                               model: Option<Id>, date: Timestamp, faults: set<Call>)
    requires KeysBelow(db.geometries, next)
    requires forall k :: k in db.geometries ==> !SameGeometryKey(db.geometries[k], name, roomId)
    requires UpdateGeometry !in faults && InsertGeometry !in faults
    ensures var o := GeometryOutcome(db, next, name, roomId, geometry, model, date, faults);
      && next !in db.geometries && o.next == next + 1
      && o.db.geometries == db.geometries[next := Geometry(roomId, geometry, model, name, date)]
      && (o.result.Resolved? <==>
            ReadRoom !in faults && roomId in db.rooms && db.rooms[roomId].geometries.Some? && UpdateRoom !in faults)
      && (o.result.Resolved? ==>
            && o.result.value == next && roomId in o.db.rooms
            && o.db.rooms[roomId].geometries == Some(db.rooms[roomId].geometries.value + [next]))
      && (!o.result.Resolved? ==> o.db.rooms == db.rooms)
  {
  }

  /** Storing a geometry whose key no other geometry has keeps keys unique. */
  lemma InsertKeepsUnique(gs: map<Id, Geometry>, gid: Id, g: Geometry)
    requires GeometryKeysUnique(gs) && gid !in gs
    requires forall k :: k in gs ==> !SameGeometryKey(gs[k], g.name, g.project)
    ensures GeometryKeysUnique(gs[gid := g])
  {
    var gs' := gs[gid := g];
    forall a, b | a in gs' && b in gs' && SameGeometryKey(gs'[b], gs'[a].name, gs'[a].project) ensures a == b {
      if a != gid && b != gid {
        assert SameGeometryKey(gs[b], gs[a].name, gs[a].project);
      }
    }
  }

  /** Rewriting a geometry without touching its key keeps keys unique. */
  lemma UpdateKeepsUnique(gs: map<Id, Geometry>, gid: Id, g: Geometry)
    requires GeometryKeysUnique(gs) && gid in gs
    requires g.name == gs[gid].name && g.project == gs[gid].project
    ensures GeometryKeysUnique(gs[gid := g])
  {
    var gs' := gs[gid := g];
    forall a, b | a in gs' && b in gs' && SameGeometryKey(gs'[b], gs'[a].name, gs'[a].project) ensures a == b {
      assert SameGeometryKey(gs[b], gs[a].name, gs[a].project);
    }
  }

  /** Every outcome keeps at most one geometry per (name, room). */
  lemma GeometryOutcomeKeepsUnique(db: Db, next: nat, name: string, roomId: Id, geometry: Payload,
                                   model: Option<Id>, date: Timestamp, faults: set<Call>)
    requires GeometryKeysUnique(db.geometries) && KeysBelow(db.geometries, next)
    ensures var o := GeometryOutcome(db, next, name, roomId, geometry, model, date, faults);
      GeometryKeysUnique(o.db.geometries) && KeysBelow(o.db.geometries, o.next)
  {
    var o := GeometryOutcome(db, next, name, roomId, geometry, model, date, faults);
    var found := FindGeometry(db.geometries, name, roomId, next);
    if UpdateGeometry in faults {
    } else if found.Some? {
      var gid := found.value;
      UpdateKeepsUnique(db.geometries, gid, SetGeometry(db.geometries[gid], geometry, model));
      assert o.db.geometries == db.geometries[gid := SetGeometry(db.geometries[gid], geometry, model)];
    } else if InsertGeometry in faults {
    } else {
      var g := Geometry(roomId, geometry, model, name, date);
      InsertKeepsUnique(db.geometries, next, g);
      assert o.db.geometries == db.geometries[next := g];
    }
  }

  /** A save with no failing call leaves a geometry of that (name, room)
      below the new counter, and resolves, if it does, with its id. */
  lemma SaveStoresKey(db: Db, next: nat, name: string, roomId: Id, geometry: Payload, model: Option<Id>,
                      date: Timestamp)
    returns (gid: Id)
    requires KeysBelow(db.geometries, next)
    ensures var o := GeometryOutcome(db, next, name, roomId, geometry, model, date, {});
      && gid in o.db.geometries && gid < o.next && SameGeometryKey(o.db.geometries[gid], name, roomId)
      && (o.result.Resolved? ==> o.result == Resolved(gid))
  {
    var found := FindGeometry(db.geometries, name, roomId, next);
    if found.Some? {
      gid := found.value;
    } else {
      gid := next;
      var db1 := db.(geometries := db.geometries[next := Geometry(roomId, geometry, model, name, date)]);
      assert GeometryOutcome(db, next, name, roomId, geometry, model, date, {}) == LinkedOutcome(db1, next, roomId, {});
    }
  }

  /** Saving the same (name, room) twice creates at most one document: the
      second save finds what the first stored and updates it in place. */
  lemma SaveGeometryTwice(db: Db, next: nat, name: string, roomId: Id, g1: Payload, m1: Option<Id>, d1: Timestamp,
                          g2: Payload, m2: Option<Id>, d2: Timestamp)
    requires GeometryKeysUnique(db.geometries) && KeysBelow(db.geometries, next)
    ensures var o1 := GeometryOutcome(db, next, name, roomId, g1, m1, d1, {});
            var o2 := GeometryOutcome(o1.db, o1.next, name, roomId, g2, m2, d2, {});
      && o2.result.Resolved? && o2.next == o1.next
      && o2.db.geometries.Keys == o1.db.geometries.Keys
      && o2.db.geometries[o2.result.value].geometry == g2
      && (o1.result.Resolved? ==> o2.result == o1.result)
  {
    var o1 := GeometryOutcome(db, next, name, roomId, g1, m1, d1, {});
    GeometryOutcomeKeepsUnique(db, next, name, roomId, g1, m1, d1, {});
    var gid := SaveStoresKey(db, next, name, roomId, g1, m1, d1);
    GeometryOutcomeUpdatesExisting(o1.db, o1.next, name, roomId, g2, m2, d2, {}, gid);
  }

  /** `saveGeometry(name, room_id, geometry, model_id, session)`: update the
      geometry of that name in that room and resolve with its id; when there
      is none, insert one and add it to the room's `geometries`. */
  method SaveGeometry(s: DocumentStore, name: string, roomId: Id, geometry: Payload, model: Option<Id>,
                      date: Timestamp, session: Session, faults: set<Call>)
    returns (p: Promise<Id>)
    requires s.Valid()
    modifies s
    ensures s.Valid()
    ensures s.openSessions == old(s.openSessions)
    ensures Saved(s.Docs(), s.nextId, p) ==
            GeometryOutcome(old(s.Docs()), old(s.nextId), name, roomId, geometry, model, date, faults)
  {
    if UpdateGeometry in faults {
      return Rejected(StoreError(UpdateGeometry));
    }
    var found := FindGeometry(s.geometries, name, roomId, s.nextId);
    match found {
      case Some(gid) =>
        s.geometries := s.geometries[gid := SetGeometry(s.geometries[gid], geometry, model)];
        p := Resolved(gid);
      case None =>
        p := CreateGeometry(s, name, roomId, geometry, model, date, session, faults);
    }
  }

  /** The path of `saveGeometry` where no geometry matches: a new document
      is inserted, then `addGeometry` adds it to the room. */
  method CreateGeometry(s: DocumentStore, name: string, roomId: Id, geometry: Payload, model: Option<Id>,
                        date: Timestamp, session: Session, faults: set<Call>)
    returns (p: Promise<Id>)
    requires s.Valid() && UpdateGeometry !in faults && FindGeometry(s.geometries, name, roomId, s.nextId).None?
    modifies s
    ensures s.Valid()
    ensures s.openSessions == old(s.openSessions)
    ensures Saved(s.Docs(), s.nextId, p) ==
            GeometryOutcome(old(s.Docs()), old(s.nextId), name, roomId, geometry, model, date, faults)
  {
    var gid := s.NewObjectId();
    if InsertGeometry in faults {
      return Rejected(StoreError(InsertGeometry));
    }
    s.geometries := s.geometries[gid := Geometry(roomId, geometry, model, name, date)];
    var linked := RoomController.AddGeometry(s, roomId, gid, session, faults);
    match linked {
      case Resolved(_) => p := Resolved(gid);
      case Rejected(f) => p := Rejected(f);
      case Pending => p := Pending;
    }
  }
}
