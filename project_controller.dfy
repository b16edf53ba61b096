/** lib/controller/projectcontroller.ts: the writes on a project that the
    room-creation chain and the project update make. */
module ProjectController {
  import opened Documents
  import opened GeometrySpec
  import opened Store

  /** `findAndUpdateProject(id, data, session)`: a `$set` of the supplied
      fields, resolving with the document as it is after the update
      (`new: true`), or with `null` when there is no such project. */
  method FindAndUpdateProject(s: DocumentStore, id: Id, patch: ProjectPatch, session: Session, faults: set<Call>)
    returns (p: Promise<Option<Project>>)
    requires s.Valid()
    modifies s`projects
    ensures s.Valid()
    ensures UpdateProject in faults ==> p == Rejected(StoreError(UpdateProject)) && s.projects == old(s.projects)
    ensures UpdateProject !in faults && id !in old(s.projects) ==> p == Resolved(None) && s.projects == old(s.projects)
    ensures UpdateProject !in faults && id in old(s.projects) ==>
      && s.projects == old(s.projects)[id := ApplyProjectPatch(old(s.projects)[id], patch)]
      && p == Resolved(Some(s.projects[id]))
  {
    if UpdateProject in faults {
      p := Rejected(StoreError(UpdateProject));
    } else if id !in s.projects {
      p := Resolved(None);
    } else {
      var before := s.projects[id];
      var after := ApplyProjectPatch(before, patch);
      s.projects := s.projects[id := after];
      p := Resolved(Some(after));
    }
  }

  /** `addRoom(project_id, room_id, session)`: read the project, push the
      room id onto its `rooms` and write the whole list back. A failed read
      or a missing project rejects with no reason, and so does a failed
      write; on success the promise resolves with the updated project. */
  method AddRoom(s: DocumentStore, projectId: Id, roomId: Id, session: Session, faults: set<Call>)
    returns (p: Promise<Option<Project>>)
    requires s.Valid()
    modifies s`projects
    ensures s.Valid()
    ensures ReadProject in faults || projectId !in old(s.projects) ==>
      p == Rejected(NoReason) && s.projects == old(s.projects)
    ensures ReadProject !in faults && projectId in old(s.projects) && UpdateProject in faults ==>
      p == Rejected(NoReason) && s.projects == old(s.projects)
    ensures ReadProject !in faults && projectId in old(s.projects) && UpdateProject !in faults ==>
      && s.projects == old(s.projects)[projectId := old(s.projects)[projectId].(rooms := old(s.projects)[projectId].rooms + [roomId])]
      && p == Resolved(Some(s.projects[projectId]))
    ensures p.Resolved? <==> ReadProject !in faults && projectId in old(s.projects) && UpdateProject !in faults
  {
    if ReadProject in faults || projectId !in s.projects {
      p := Rejected(NoReason);
      return;
    }
    var rooms := s.projects[projectId].rooms;
    rooms := rooms + [roomId];
    var written := FindAndUpdateProject(s, projectId, ProjectPatch(None, None, None, None, Some(rooms)), session, faults);
    if written.Resolved? {
      p := Resolved(written.value);
    } else {
      p := Rejected(NoReason);
    }
  }

  /** The request body of `putProject` after `date`, `creator` and `rooms`
      are deleted from it. */
  function StripProtected(body: ProjectPatch): (r: ProjectPatch)
    ensures r.date.None? && r.creator.None? && r.rooms.None?
    ensures r.name == body.name && r.description == body.description
  {
    body.(date := None, creator := None, rooms := None)
  }

  /** `putProject`: whatever the request body holds, the update never
      changes a project's date, creator or room list; the name and the
      description are set when supplied, on that project only. The promise
      is that of `findAndUpdateProject`: the updated document, or null for
      an unknown id. */
  method PutProject(s: DocumentStore, id: Id, body: ProjectPatch, faults: set<Call>)
    returns (p: Promise<Option<Project>>)
    requires s.Valid()
    modifies s`projects
    ensures s.Valid()
    ensures s.projects.Keys == old(s.projects).Keys
    ensures forall k :: k in s.projects ==>
      && s.projects[k].date == old(s.projects)[k].date
      && s.projects[k].creator == old(s.projects)[k].creator
      && s.projects[k].rooms == old(s.projects)[k].rooms
    ensures p.Resolved? && id in old(s.projects) ==>
      && s.projects[id].name == Pick(body.name, old(s.projects)[id].name)
      && s.projects[id].description == Pick(body.description, old(s.projects)[id].description)
    ensures forall k :: k in s.projects && k != id ==> s.projects[k] == old(s.projects)[k]
    ensures UpdateProject in faults ==> p == Rejected(StoreError(UpdateProject)) && s.projects == old(s.projects)
    ensures UpdateProject !in faults && id !in old(s.projects) ==> p == Resolved(None) && s.projects == old(s.projects)
    ensures UpdateProject !in faults && id in old(s.projects) ==>
      && s.projects == old(s.projects)[id := ApplyProjectPatch(old(s.projects)[id], StripProtected(body))]
      && p == Resolved(Some(s.projects[id]))
  {
    p := FindAndUpdateProject(s, id, StripProtected(body), NoSession, faults);
  }
}
