/** The documents the backend keeps in its document store, the collections
    that hold them, and the outcomes of the asynchronous store calls.

    Object ids are modelled as naturals handed out in increasing order (an
    ObjectId is created client-side and is never reused); timestamps and
    geometry or model payloads are opaque values. */
module Documents {

  type Id = nat
  type Timestamp = nat

  /** A geometry or 3-D model payload: stored and returned, never inspected. */
  type Payload = string

  /** The `Option` of ts-option. */
  datatype Option<+T> = None | Some(value: T)

  /** GeometryRevision: one immutable snapshot of a geometry edit. */
  datatype Revision = Revision(author: Id, data: Payload, date: Timestamp, comment: Option<string>,
                               room: Id, model: Option<Id>)

  /** GeometryVersion: a named line of edits in one room, its revisions newest first. */
  datatype Version = Version(room: Id, name: string, revisions: seq<Id>)

  /** An entry of a room's `photos` list. */
  datatype Photo = Photo(photo: Id, visible: bool)

  /** Room. `photos` and `geometries` are absent until first written. */
  datatype Room = Room(name: string, description: string, date: Timestamp, creator: Id,
                       fotos: seq<Id>, photos: Option<seq<Photo>>, supplements: seq<Id>,
                       versions: seq<Id>, geometries: Option<seq<Id>>)

  datatype Project = Project(name: string, description: string, date: Timestamp, creator: Id,
                             rooms: seq<Id>)

  datatype Model3D = Model3D(data: Payload, date: Timestamp)

  /** Geometry: the older, unversioned geometry document, keyed by (name, project). */
  datatype Geometry = Geometry(project: Id, geometry: Payload, model: Option<Id>, name: string,
                               date: Timestamp)

  /** The content of every collection the core touches. */
  datatype Db = Db(revisions: map<Id, Revision>, versions: map<Id, Version>,
                   rooms: map<Id, Room>, projects: map<Id, Project>,
                   models: map<Id, Model3D>, geometries: map<Id, Geometry>)

  /** The store calls that can fail (a network error, a refused write),
      including starting a session and committing its transaction. */
  datatype Call =
    | InsertModel | InsertRevision | PushRevision | InsertVersion | PushVersion
    | InsertRoom | ReadRoom | UpdateRoom | ReadProject | UpdateProject
    | UpdateGeometry | InsertGeometry | StartSession | CommitTransaction

  /** Why a promise was rejected: a failed store call, or a bare `reject()`. */
  datatype Failure = StoreError(call: Call) | NoReason

  /** A promise as its caller eventually sees it; `Pending` never settles. */
  datatype Promise<+T> = Resolved(value: T) | Rejected(failure: Failure) | Pending

  /** The optional transaction threaded through a chain of writes. An
      `Active` session remembers the collections as they were when its
      transaction started, which is what an abort restores. */
  datatype Session = NoSession | Active(snapshot: Db)

  /** What a request handler sends back. */
  datatype Reply = Sent(id: Id) | ServerError | NoReply

  /** The argument of a `$set` on a room; `None` fields are left alone. */
  datatype RoomPatch = RoomPatch(name: Option<string>, description: Option<string>,
                                 fotos: Option<seq<Id>>, photos: Option<seq<Photo>>,
                                 supplements: Option<seq<Id>>, geometries: Option<seq<Id>>)

  /** The argument of a `$set` on a project; `None` fields are left alone. */
  datatype ProjectPatch = ProjectPatch(name: Option<string>, description: Option<string>,
                                       date: Option<Timestamp>, creator: Option<Id>,
                                       rooms: Option<seq<Id>>)

  function Pick<T>(supplied: Option<T>, current: T): T
  {
    if supplied.Some? then supplied.value else current
  }

  /** `$set` on a room: exactly the supplied fields change. */
  function ApplyRoomPatch(room: Room, p: RoomPatch): (r: Room)
    ensures r.versions == room.versions && r.date == room.date && r.creator == room.creator
    ensures p.fotos.Some? ==> r.fotos == p.fotos.value
    ensures p.fotos.None? ==> r.fotos == room.fotos
    ensures p.supplements.Some? ==> r.supplements == p.supplements.value
    ensures p.supplements.None? ==> r.supplements == room.supplements
    ensures p.photos.Some? ==> r.photos == p.photos
    ensures p.photos.None? ==> r.photos == room.photos
    ensures p.geometries.Some? ==> r.geometries == p.geometries
    ensures p.geometries.None? ==> r.geometries == room.geometries
    ensures r.name == Pick(p.name, room.name) && r.description == Pick(p.description, room.description)
  {
    room.(name := Pick(p.name, room.name),
          description := Pick(p.description, room.description),
          fotos := Pick(p.fotos, room.fotos),
          photos := if p.photos.Some? then p.photos else room.photos,
          supplements := Pick(p.supplements, room.supplements),
          geometries := if p.geometries.Some? then p.geometries else room.geometries)
  }

  /** `$set` on a project: exactly the supplied fields change. */
  function ApplyProjectPatch(project: Project, p: ProjectPatch): (r: Project)
    ensures p.rooms.Some? ==> r.rooms == p.rooms.value
    ensures p.rooms.None? ==> r.rooms == project.rooms
    ensures p.date.Some? ==> r.date == p.date.value
    ensures p.date.None? ==> r.date == project.date
    ensures p.creator.Some? ==> r.creator == p.creator.value
    ensures p.creator.None? ==> r.creator == project.creator
    ensures p.name.Some? ==> r.name == p.name.value
    ensures p.name.None? ==> r.name == project.name
    ensures p.description.Some? ==> r.description == p.description.value
    ensures p.description.None? ==> r.description == project.description
  {
    Project(Pick(p.name, project.name), Pick(p.description, project.description),
            Pick(p.date, project.date), Pick(p.creator, project.creator),
            Pick(p.rooms, project.rooms))
  }

  /** The first document, in id order from `from` up to `bound`, that
      satisfies `p`: a `findOne` over a collection in natural order. */
  function FindOne<T>(m: map<Id, T>, p: T -> bool, from: nat, bound: nat): (r: Option<Id>)
    decreases bound - from
    ensures r.Some? ==> from <= r.value < bound && r.value in m && p(m[r.value])
    ensures r.Some? ==> forall k :: from <= k < r.value && k in m ==> !p(m[k])
    ensures r.None? ==> forall k :: from <= k < bound && k in m ==> !p(m[k])
  {
    if from >= bound then None
    else if from in m && p(m[from]) then Some(from)
    else FindOne(m, p, from + 1, bound)
  }

  /** How often `x` occurs in `s`. */
  function Count<T(==)>(s: seq<T>, x: T): (n: nat)
    ensures n == 0 <==> x !in s
    ensures n <= |s|
  {
    if s == [] then 0 else (if s[0] == x then 1 else 0) + Count(s[1..], x)
  }

  lemma {:induction false} CountAppend<T>(s: seq<T>, t: seq<T>, x: T)
    ensures Count(s + t, x) == Count(s, x) + Count(t, x)
  {
    if s == [] {
      assert s + t == t;
    } else {
      assert (s + t)[1..] == s[1..] + t;
      CountAppend(s[1..], t, x);
    }
  }
}
