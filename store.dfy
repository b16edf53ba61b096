/** The document store the controllers write to: one map per collection,
    the id generator, and the number of client sessions not yet ended. */
module Store {
  import opened Documents
  import opened GeometrySpec

  class DocumentStore {
    var revisions: map<Id, Revision>
    var versions: map<Id, Version>
    var rooms: map<Id, Room>
    var projects: map<Id, Project>
    var models: map<Id, Model3D>
    var geometries: map<Id, Geometry>
    /** The next ObjectId to hand out; ids are never reused. */
    var nextId: nat
    /** Sessions started and not yet ended. */
    var openSessions: nat

    /** The collections as one value. */
    function Docs(): Db
      reads this
    {
      Db(revisions, versions, rooms, projects, models, geometries)
    }

    predicate Valid()
      reads this
    {
      Inv(Docs(), nextId)
    }

    constructor ()
      ensures Docs() == EmptyDb && nextId == 0 && openSessions == 0
      ensures Valid()
    {
      revisions, versions, rooms := map[], map[], map[];
      projects, models, geometries := map[], map[], map[];
      nextId, openSessions := 0, 0;
      EmptyDbInv(0);
    }

    /** `new Model(...)` assigns a fresh ObjectId before anything is saved. */
    method NewObjectId() returns (id: Id)
      requires Valid()
      modifies this`nextId
      ensures id == old(nextId) && nextId == id + 1
      ensures id !in revisions && id !in versions && id !in rooms
      ensures id !in projects && id !in models && id !in geometries
      ensures Valid()
    {
      id := nextId;
      nextId := nextId + 1;
      InvMonotone(Docs(), id, nextId);
    }

    /** Replace every collection at once: what an aborted transaction does. */
    method Restore(db: Db)
      modifies this`revisions, this`versions, this`rooms, this`projects, this`models, this`geometries
      ensures Docs() == db
    {
      revisions, versions, rooms := db.revisions, db.versions, db.rooms;
      projects, models, geometries := db.projects, db.models, db.geometries;
    }
  }
}
