/** lib/controller/model3dcontroller.ts: storing a 3-D model document. */
module Model3DController {
  import opened Documents
  import opened GeometrySpec
  import opened Store

  /** `saveModel3D(model, session)`: a new model document holding the payload
      and the clock reading is inserted (never an existing one updated) and
      the promise resolves with its id. When the insert fails, the error is
      thrown inside a detached `.catch`, so the promise never settles. A
      write made under the session is undone by an abort like every other. */
  method SaveModel3D(s: DocumentStore, model: Payload, date: Timestamp, session: Session, faults: set<Call>)
    returns (p: Promise<Id>)
    requires s.Valid()
    modifies s
    ensures s.Valid()
    ensures s.nextId == old(s.nextId) + 1 && s.openSessions == old(s.openSessions)
    ensures InsertModel in faults ==> p == Pending && s.Docs() == old(s.Docs())
    ensures InsertModel !in faults ==>
      && p == Resolved(old(s.nextId))
      && old(s.nextId) !in old(s.models)
      && s.Docs() == old(s.Docs()).(models := old(s.models)[old(s.nextId) := Model3D(model, date)])
  {
    var id := s.NewObjectId();
    if InsertModel in faults {
      p := Pending;
      return;
    }
    s.models := s.models[id := Model3D(model, date)];
    p := Resolved(id);
  }
}
