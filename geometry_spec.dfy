/** The revisioned geometry store as values: the invariant the collections
    keep, the effect of one `saveRevision` call on them, and what that
    effect guarantees over one call and over a run of calls. */
module GeometrySpec {
  import opened Documents

  predicate KeysBelow<T>(m: map<Id, T>, bound: nat)
  {
    forall k :: k in m ==> k < bound
  }

  predicate Below(s: seq<Id>, bound: nat)
  {
    forall i :: 0 <= i < |s| ==> s[i] < bound
  }

  /** Newest first: ids are handed out in increasing order, so a list with
      the most recent revision at its head is strictly decreasing. */
  predicate NewestFirst(s: seq<Id>)
  {
    forall i, j :: 0 <= i < j < |s| ==> s[i] > s[j]
  }

  predicate Disjoint(a: seq<Id>, b: seq<Id>)
  {
    forall x :: x in a ==> x !in b
  }

  predicate SameKey(v: Version, room: Id, name: string)
  {
    v.room == room && v.name == name
  }

  /** Every revision a version lists exists, was saved for the version's
      room, and the list is newest first. */
  predicate WellFormed(db: Db, v: Version)
  {
    && NewestFirst(v.revisions)
    && forall i :: 0 <= i < |v.revisions| ==>
         v.revisions[i] in db.revisions && db.revisions[v.revisions[i]].room == v.room
  }

  /** At most one version per (room, name). */
  predicate UniqueKeys(vs: map<Id, Version>)
  {
    forall v, w :: v in vs && w in vs && SameKey(vs[w], vs[v].room, vs[v].name) ==> v == w
  }

  /** No revision is listed by two versions. */
  predicate RevisionsUnshared(vs: map<Id, Version>)
  {
    forall v, w :: v in vs && w in vs && v != w ==> Disjoint(vs[v].revisions, vs[w].revisions)
  }

  /** What the store keeps true between calls, given that `next` is the
      next id to hand out. */
  predicate Inv(db: Db, next: nat)
  {
    && KeysBelow(db.revisions, next) && KeysBelow(db.versions, next) && KeysBelow(db.rooms, next)
    && KeysBelow(db.projects, next) && KeysBelow(db.models, next) && KeysBelow(db.geometries, next)
    && (forall r :: r in db.rooms ==> Below(db.rooms[r].versions, next))
    && (forall v :: v in db.versions ==> WellFormed(db, db.versions[v]))
    && UniqueKeys(db.versions)
    && RevisionsUnshared(db.versions)
  }

  const EmptyDb := Db(map[], map[], map[], map[], map[], map[])

  lemma EmptyDbInv(next: nat)
    ensures Inv(EmptyDb, next)
  {
  }

  lemma InvMonotone(db: Db, next: nat, next': nat)
    requires Inv(db, next) && next <= next'
    ensures Inv(db, next')
  {
    forall r | r in db.rooms ensures Below(db.rooms[r].versions, next') {
      assert Below(db.rooms[r].versions, next);
    }
  }

  /** The `findOneAndUpdate({ name, room })` query over the versions. */
  function FindVersion(vs: map<Id, Version>, room: Id, name: string, bound: nat): (r: Option<Id>)
    ensures r.Some? ==> r.value in vs && SameKey(vs[r.value], room, name)
    ensures r.None? ==> forall k :: k in vs && k < bound ==> !SameKey(vs[k], room, name)
  {
    FindOne(vs, (v: Version) => SameKey(v, room, name), 0, bound)
  }

  /** Under the invariant the query finds the one matching version, if any. */
  lemma FindVersionExact(db: Db, next: nat, room: Id, name: string)
    requires Inv(db, next)
    ensures forall vid :: vid in db.versions && SameKey(db.versions[vid], room, name) ==>
              FindVersion(db.versions, room, name, next) == Some(vid)
    ensures FindVersion(db.versions, room, name, next).None? ==>
              forall vid :: vid in db.versions ==> !SameKey(db.versions[vid], room, name)
  {
  }

  // ---------------------------------------------------------------------
  // The store writes of one save, as changes to the collections.

  /** Inserting a revision document: only `revisions` changes, and only at `rid`. */
  function InsertRevisionDoc(db: Db, rid: Id, rev: Revision): (r: Db)
  {
    db.(revisions := db.revisions[rid := rev])
  }

  /** `$push: { revisions: { $each: [rid], $position: 0 } }` on one version. */
  function PushRevisionFront(db: Db, vid: Id, rid: Id): (r: Db)
    requires vid in db.versions
  {
    db.(versions := db.versions[vid := db.versions[vid].(revisions := [rid] + db.versions[vid].revisions)])
  }

  /** Inserting a version document: only `versions` changes, and only at `vid`. */
  function InsertVersionDoc(db: Db, vid: Id, v: Version): (r: Db)
  {
    db.(versions := db.versions[vid := v])
  }

  /** `addVersion`: `$push: { versions: vid }` on the room, when it exists. */
  function AppendVersionLink(db: Db, roomId: Id, vid: Id): (r: Db)
  {
    if roomId in db.rooms
    then db.(rooms := db.rooms[roomId := db.rooms[roomId].(versions := db.rooms[roomId].versions + [vid])])
    else db
  }

  /** The repair on the existing-version path: push the version onto the
      room only when the room exists and does not list it yet. */
  function LinkIfAbsent(db: Db, roomId: Id, vid: Id): (r: Db)
  {
    if roomId in db.rooms && vid !in db.rooms[roomId].versions then AppendVersionLink(db, roomId, vid) else db
  }

  /** Inserting a revision document changes `revisions`, at `rid` only. */
  lemma InsertRevisionDocFrame(db: Db, rid: Id, rev: Revision)
    ensures var r := InsertRevisionDoc(db, rid, rev);
      && r.versions == db.versions && r.rooms == db.rooms && r.projects == db.projects
      && r.models == db.models && r.geometries == db.geometries
      && r.revisions.Keys == db.revisions.Keys + {rid} && r.revisions[rid] == rev
  {
  }

  /** The push changes one version's list, and nothing but that list. */
  lemma PushRevisionFrontFrame(db: Db, vid: Id, rid: Id)
    requires vid in db.versions
    ensures var r := PushRevisionFront(db, vid, rid);
      && r.revisions == db.revisions && r.rooms == db.rooms && r.versions.Keys == db.versions.Keys
      && r.versions[vid].revisions == [rid] + db.versions[vid].revisions
      && r.versions[vid].room == db.versions[vid].room && r.versions[vid].name == db.versions[vid].name
  {
  }

  /** Inserting a version document changes `versions`, at `vid` only. */
  lemma InsertVersionDocFrame(db: Db, vid: Id, v: Version)
    ensures var r := InsertVersionDoc(db, vid, v);
      && r.revisions == db.revisions && r.rooms == db.rooms
      && r.versions.Keys == db.versions.Keys + {vid} && r.versions[vid] == v
  {
  }

  /** `addVersion` and the repair change only the rooms: an existing room
      gains the version at the end, or (for the repair) lists it afterwards
      and is left alone when it already did. */
  lemma RoomLinkFrame(db: Db, roomId: Id, vid: Id)
    ensures var r := AppendVersionLink(db, roomId, vid);
      && r.revisions == db.revisions && r.versions == db.versions && r.rooms.Keys == db.rooms.Keys
      && (roomId in db.rooms ==> r.rooms[roomId].versions == db.rooms[roomId].versions + [vid])
    ensures var r := LinkIfAbsent(db, roomId, vid);
      && r.revisions == db.revisions && r.versions == db.versions && r.rooms.Keys == db.rooms.Keys
      && (roomId in db.rooms ==> vid in r.rooms[roomId].versions)
      && (roomId !in db.rooms || vid in db.rooms[roomId].versions ==> r == db)
  {
  }

  // ---------------------------------------------------------------------
  // saveRevision

  /** The arguments of one save: version name, room, author, payload,
      clock reading and the optional source model. */
  datatype Edit = Edit(name: string, room: Id, author: Id, data: Payload, date: Timestamp,
                       model: Option<Id>)

  function RevisionOf(e: Edit): Revision
  {
    Revision(e.author, e.data, e.date, None, e.room, e.model)
  }

  /** The collections, the next free id, and what the returned promise settles to. */
  datatype Saved = Saved(db: Db, next: nat, result: Promise<Id>)

  /** One `saveRevision` call. The revision takes id `next`; a new version
      takes `next + 1`. `faults` names the store calls that fail;
      `repairRan` says whether the detached room-link repair of the
      existing-version path had run by the time the caller looks. */
  function SaveOutcome(db: Db, next: nat, e: Edit, faults: set<Call>, repairRan: bool): Saved
  {
    var rid := next;
    if InsertRevision in faults then Saved(db, next + 1, Rejected(StoreError(InsertRevision)))
    else
      var db1 := InsertRevisionDoc(db, rid, RevisionOf(e));
      if PushRevision in faults then Saved(db1, next + 1, Rejected(StoreError(PushRevision)))
      else
        match FindVersion(db1.versions, e.room, e.name, next + 1)
        case Some(vid) =>
          var db2 := PushRevisionFront(db1, vid, rid);
          var db3 := if repairRan && PushVersion !in faults then LinkIfAbsent(db2, e.room, vid) else db2;
          Saved(db3, next + 1, Resolved(rid))
        case None =>
          var vid := next + 1;
          if InsertVersion in faults then Saved(db1, next + 2, Rejected(StoreError(InsertVersion)))
          else
            var db2 := InsertVersionDoc(db1, vid, Version(e.room, e.name, [rid]));
            if PushVersion in faults then Saved(db2, next + 2, Rejected(StoreError(PushVersion)))
            else Saved(AppendVersionLink(db2, e.room, vid), next + 2, Resolved(rid))
  }

  /** A save mints one or two ids, resolves only with the revision's id,
      and never touches projects, models or geometries. */
  lemma SaveOutcomeFrame(db: Db, next: nat, e: Edit, faults: set<Call>, repairRan: bool)
    ensures var o := SaveOutcome(db, next, e, faults, repairRan);
      && o.db.projects == db.projects && o.db.models == db.models && o.db.geometries == db.geometries
      && (o.next == next + 1 || o.next == next + 2)
      && (o.result.Resolved? ==> o.result.value == next)
  {
    if InsertRevision !in faults && PushRevision !in faults {
      var db1 := InsertRevisionDoc(db, next, RevisionOf(e));
      assert db1.projects == db.projects && db1.models == db.models && db1.geometries == db.geometries;
      match FindVersion(db1.versions, e.room, e.name, next + 1)
      case Some(vid) =>
      case None => NewSaveSteps(db, next, e, faults, repairRan);
    }
  }

  // ---------------------------------------------------------------------
  // The invariant across the individual writes.

  lemma InsertRevisionKeepsInv(db: Db, next: nat, rev: Revision)
    requires Inv(db, next)
    ensures Inv(InsertRevisionDoc(db, next, rev), next + 1)
  {
    InvMonotone(db, next, next + 1);
    var db1 := InsertRevisionDoc(db, next, rev);
    forall v | v in db1.versions ensures WellFormed(db1, db1.versions[v]) {
      assert WellFormed(db, db.versions[v]);
    }
  }

  lemma PushFrontKeepsInv(db: Db, next: nat, vid: Id, rev: Revision)
    requires Inv(db, next)
    requires vid in db.versions && db.versions[vid].room == rev.room
    ensures Inv(PushRevisionFront(InsertRevisionDoc(db, next, rev), vid, next), next + 1)
  {
    InsertRevisionKeepsInv(db, next, rev);
    var db1 := InsertRevisionDoc(db, next, rev);
    var db2 := PushRevisionFront(db1, vid, next);
    var old_ := db.versions[vid].revisions;
    assert WellFormed(db, db.versions[vid]);
    forall i | 0 <= i < |old_| ensures old_[i] < next {
      assert old_[i] in db.revisions;
    }
    NewestFirstPush(old_, next);
    assert WellFormed(db2, db2.versions[vid]);
    forall v | v in db2.versions ensures WellFormed(db2, db2.versions[v]) {
      if v != vid {
        assert WellFormed(db1, db1.versions[v]);
      }
    }
    forall u | u in db.versions ensures next !in db.versions[u].revisions {
      assert WellFormed(db, db.versions[u]);
    }
    PushFrontUnshared(db.versions, vid, next);
  }

  /** A new id above every listed id keeps a list newest first. */
  lemma NewestFirstPush(s: seq<Id>, x: Id)
    requires NewestFirst(s) && forall i :: 0 <= i < |s| ==> s[i] < x
    ensures NewestFirst([x] + s)
  {
    var t := [x] + s;
    forall i, j | 0 <= i < j < |t| ensures t[i] > t[j] {
      assert t[j] == s[j - 1];
      if i > 0 {
        assert t[i] == s[i - 1];
      }
    }
  }

  /** Pushing an id no version lists keeps the lists disjoint. */
  lemma PushFrontUnshared(vs: map<Id, Version>, vid: Id, x: Id)
    requires RevisionsUnshared(vs) && vid in vs
    requires forall u :: u in vs ==> x !in vs[u].revisions
    ensures RevisionsUnshared(vs[vid := vs[vid].(revisions := [x] + vs[vid].revisions)])
  {
    var vs' := vs[vid := vs[vid].(revisions := [x] + vs[vid].revisions)];
    forall a, b | a in vs' && b in vs' && a != b
      ensures Disjoint(vs'[a].revisions, vs'[b].revisions)
    {
      assert Disjoint(vs[a].revisions, vs[b].revisions);
    }
  }

  lemma CreateVersionKeepsInv(db: Db, next: nat, rev: Revision, name: string)
    requires Inv(db, next)
    requires forall k :: k in db.versions ==> !SameKey(db.versions[k], rev.room, name)
    ensures Inv(InsertVersionDoc(InsertRevisionDoc(db, next, rev), next + 1, Version(rev.room, name, [next])),
                next + 2)
  {
    InsertRevisionKeepsInv(db, next, rev);
    var db1 := InsertRevisionDoc(db, next, rev);
    InvMonotone(db1, next + 1, next + 2);
    forall u | u in db.versions ensures next !in db.versions[u].revisions {
      assert WellFormed(db, db.versions[u]);
    }
    var v := Version(rev.room, name, [next]);
    assert db1.versions == db.versions && db1.revisions[next] == rev;
    FreshVersionUnshared(db1.versions, next + 1, v);
    FreshVersionUnique(db1.versions, next + 1, v);
    assert WellFormed(db1, v);
    InsertVersionKeepsInv(db1, next + 2, next + 1, v);
  }

  /** Storing a well-formed version under an unused id below the counter
      keeps the invariant, given that keys stay unique and unshared. */
  lemma InsertVersionKeepsInv(db: Db, next: nat, vid: Id, v: Version)
    requires Inv(db, next) && vid < next && vid !in db.versions && WellFormed(db, v)
    requires UniqueKeys(db.versions[vid := v]) && RevisionsUnshared(db.versions[vid := v])
    ensures Inv(InsertVersionDoc(db, vid, v), next)
  {
    var db2 := InsertVersionDoc(db, vid, v);
    assert db2.revisions == db.revisions && db2.rooms == db.rooms && db2.versions == db.versions[vid := v];
    forall u | u in db2.versions ensures WellFormed(db2, db2.versions[u]) {
      if u != vid {
        assert WellFormed(db, db.versions[u]);
      }
    }
  }

  lemma FreshVersionUnique(vs: map<Id, Version>, vid: Id, v: Version)
    requires UniqueKeys(vs) && vid !in vs
    requires forall k :: k in vs ==> !SameKey(vs[k], v.room, v.name)
    ensures UniqueKeys(vs[vid := v])
  {
  }

  /** A new version whose one revision no other version lists shares nothing. */
  lemma FreshVersionUnshared(vs: map<Id, Version>, vid: Id, v: Version)
    requires RevisionsUnshared(vs) && vid !in vs && |v.revisions| == 1
    requires forall u :: u in vs ==> v.revisions[0] !in vs[u].revisions
    ensures RevisionsUnshared(vs[vid := v])
  {
    var vs' := vs[vid := v];
    forall a, b | a in vs' && b in vs' && a != b
      ensures Disjoint(vs'[a].revisions, vs'[b].revisions)
    {
      if a == vid || b == vid {
        var u := if a == vid then b else a;
        assert v.revisions == [v.revisions[0]];
        assert v.revisions[0] !in vs[u].revisions;
      } else {
        assert Disjoint(vs[a].revisions, vs[b].revisions);
      }
    }
  }

  lemma LinkKeepsInv(db: Db, next: nat, roomId: Id, vid: Id)
    requires Inv(db, next) && vid < next
    ensures Inv(AppendVersionLink(db, roomId, vid), next)
  {
    if roomId in db.rooms {
      assert Below(db.rooms[roomId].versions, next);
    }
  }

  /** saveRevision keeps the invariant on every path, failed or not, and
      only ever consumes fresh ids. */
  lemma SaveKeepsInv(db: Db, next: nat, e: Edit, faults: set<Call>, repairRan: bool)
    requires Inv(db, next)
    ensures var o := SaveOutcome(db, next, e, faults, repairRan); Inv(o.db, o.next) && o.next > next
  {
    var rev := RevisionOf(e);
    if InsertRevision in faults {
      InvMonotone(db, next, next + 1);
    } else if PushRevision in faults {
      InsertRevisionKeepsInv(db, next, rev);
    } else {
      var db1 := InsertRevisionDoc(db, next, rev);
      match FindVersion(db1.versions, e.room, e.name, next + 1)
      case Some(vid) => ExistingSaveKeepsInv(db, next, e, faults, repairRan, vid);
      case None => NewSaveKeepsInv(db, next, e, faults, repairRan);
    }
  }

  lemma ExistingSaveKeepsInv(db: Db, next: nat, e: Edit, faults: set<Call>, repairRan: bool, vid: Id)
    requires Inv(db, next) && InsertRevision !in faults && PushRevision !in faults
    requires FindVersion(db.versions, e.room, e.name, next + 1) == Some(vid)
    ensures var o := SaveOutcome(db, next, e, faults, repairRan); Inv(o.db, o.next) && o.next > next
  {
    var rev := RevisionOf(e);
    var db1 := InsertRevisionDoc(db, next, rev);
    assert db1.versions == db.versions;
    PushFrontKeepsInv(db, next, vid, rev);
    var db2 := PushRevisionFront(db1, vid, next);
    if repairRan && PushVersion !in faults {
      LinkKeepsInv(db2, next + 1, e.room, vid);
    }
  }

  /** The steps of a save that creates a version, one by one. */
  lemma NewSaveSteps(db: Db, next: nat, e: Edit, faults: set<Call>, repairRan: bool)
    requires InsertRevision !in faults && PushRevision !in faults
    requires FindVersion(db.versions, e.room, e.name, next + 1).None?
    ensures var db1 := InsertRevisionDoc(db, next, RevisionOf(e));
            var db2 := InsertVersionDoc(db1, next + 1, Version(e.room, e.name, [next]));
      SaveOutcome(db, next, e, faults, repairRan) ==
        if InsertVersion in faults then Saved(db1, next + 2, Rejected(StoreError(InsertVersion)))
        else if PushVersion in faults then Saved(db2, next + 2, Rejected(StoreError(PushVersion)))
        else Saved(AppendVersionLink(db2, e.room, next + 1), next + 2, Resolved(next))
  {
    assert InsertRevisionDoc(db, next, RevisionOf(e)).versions == db.versions;
  }

  lemma NewSaveKeepsInv(db: Db, next: nat, e: Edit, faults: set<Call>, repairRan: bool)
    requires Inv(db, next) && InsertRevision !in faults && PushRevision !in faults
    requires FindVersion(db.versions, e.room, e.name, next + 1).None?
    ensures var o := SaveOutcome(db, next, e, faults, repairRan); Inv(o.db, o.next) && o.next > next
  {
    var rev := RevisionOf(e);
    var db1 := InsertRevisionDoc(db, next, rev);
    assert db1.versions == db.versions;
    InsertRevisionKeepsInv(db, next, rev);
    if InsertVersion in faults {
      InvMonotone(db1, next + 1, next + 2);
    } else {
      CreateVersionKeepsInv(db, next, rev, e.name);
      var db2 := InsertVersionDoc(db1, next + 1, Version(e.room, e.name, [next]));
      if PushVersion !in faults {
        LinkKeepsInv(db2, next + 2, e.room, next + 1);
      }
    }
  }

  // ---------------------------------------------------------------------
  // What one save guarantees.

  /** Every call inserts exactly one new revision, carrying the given room,
      payload, author, date and model, unless that very insert fails; the
      revision stays stored whatever happens to the later steps. */
  lemma SaveInsertsOneRevision(db: Db, next: nat, e: Edit, faults: set<Call>, repairRan: bool)
    requires KeysBelow(db.revisions, next)
    ensures var o := SaveOutcome(db, next, e, faults, repairRan);
      && next !in db.revisions
      && o.db.revisions == (if InsertRevision in faults then db.revisions else db.revisions[next := RevisionOf(e)])
  {
  }

  /** saveRevision always settles, and on success with the revision's id,
      never the version's. */
  lemma SaveResolvesWithRevisionId(db: Db, next: nat, e: Edit, faults: set<Call>, repairRan: bool)
    ensures var o := SaveOutcome(db, next, e, faults, repairRan);
      && !o.result.Pending?
      && (o.result.Resolved? ==> o.result.value == next)
  {
    if InsertRevision !in faults && PushRevision !in faults {
      var db1 := InsertRevisionDoc(db, next, RevisionOf(e));
      assert db1.projects == db.projects && db1.models == db.models && db1.geometries == db.geometries;
      match FindVersion(db1.versions, e.room, e.name, next + 1)
      case Some(vid) =>
      case None => NewSaveSteps(db, next, e, faults, repairRan);
    }
  }

  /** When a version with this (room, name) exists, the new revision becomes
      its head, the older entries keep their order, no version is created,
      and the room's list changes only through the link-if-absent repair. */
  lemma SaveExtendsExisting(db: Db, next: nat, e: Edit, faults: set<Call>, repairRan: bool, vid: Id)
    requires UniqueKeys(db.versions) && vid in db.versions && vid < next
    requires SameKey(db.versions[vid], e.room, e.name)
    requires InsertRevision !in faults && PushRevision !in faults
    ensures var o := SaveOutcome(db, next, e, faults, repairRan);
      && o.result == Resolved(next)
      && o.next == next + 1
      && o.db.versions == db.versions[vid := db.versions[vid].(revisions := [next] + db.versions[vid].revisions)]
      && o.db.rooms == (if repairRan && PushVersion !in faults then LinkIfAbsent(db, e.room, vid).rooms else db.rooms)
  {
    var found := FindVersion(db.versions, e.room, e.name, next + 1);
    assert found == Some(vid);
  }

  /** When no version matches (room, name), a version `[rid]` with that room
      and name is created under the fresh id `next + 1`; if linking it
      succeeds, the room (when it exists) lists it exactly once, at the
      end; if linking fails, the revision and the version stay stored while
      the promise rejects. */
  lemma SaveCreatesVersion(db: Db, next: nat, e: Edit, faults: set<Call>, repairRan: bool)
    requires Inv(db, next)
    requires forall k :: k in db.versions ==> !SameKey(db.versions[k], e.room, e.name)
    requires InsertRevision !in faults && PushRevision !in faults && InsertVersion !in faults
    ensures var o := SaveOutcome(db, next, e, faults, repairRan);
      && next + 1 !in db.versions
      && o.next == next + 2
      && o.db.versions == db.versions[next + 1 := Version(e.room, e.name, [next])]
      && o.db.revisions == db.revisions[next := RevisionOf(e)]
      && (PushVersion in faults ==> o.result == Rejected(StoreError(PushVersion)) && o.db.rooms == db.rooms)
      && (PushVersion !in faults ==> o.result == Resolved(next))
      && (PushVersion !in faults && e.room in db.rooms ==>
            && o.db.rooms[e.room].versions == db.rooms[e.room].versions + [next + 1]
            && Count(o.db.rooms[e.room].versions, next + 1) == 1)
      && (e.room !in db.rooms ==> o.db.rooms == db.rooms)
  {
    var o := SaveOutcome(db, next, e, faults, repairRan);
    if PushVersion !in faults && e.room in db.rooms {
      var old_ := db.rooms[e.room].versions;
      assert Below(old_, next);
      assert next + 1 !in old_;
      CountAppend(old_, [next + 1], next + 1);
      assert Count([next + 1], next + 1) == 1 by {
        assert [next + 1][1..] == [];
      }
    }
  }

  /** The repair never creates a duplicate: afterwards the room lists the
      version once if it did not before, and as often as before otherwise;
      running it twice is running it once. */
  lemma LinkIfAbsentNeverDuplicates(db: Db, roomId: Id, vid: Id)
    requires roomId in db.rooms
    ensures var after := LinkIfAbsent(db, roomId, vid);
      && roomId in after.rooms
      && Count(after.rooms[roomId].versions, vid) ==
           (if vid in db.rooms[roomId].versions then Count(db.rooms[roomId].versions, vid) else 1)
      && LinkIfAbsent(after, roomId, vid) == after
  {
    var s := db.rooms[roomId].versions;
    if vid !in s {
      CountAppend(s, [vid], vid);
      assert Count([vid], vid) == 1 by {
        assert [vid][1..] == [];
      }
      assert vid in s + [vid];
    }
  }

  /** `addVersion` itself checks nothing: every call adds one more
      occurrence of the version id at the end of the room's list. */
  lemma AppendVersionLinkCounts(db: Db, roomId: Id, vid: Id)
    requires roomId in db.rooms
    ensures var after := AppendVersionLink(db, roomId, vid);
      && roomId in after.rooms
      && after.rooms[roomId].versions[..|db.rooms[roomId].versions|] == db.rooms[roomId].versions
      && Count(after.rooms[roomId].versions, vid) == Count(db.rooms[roomId].versions, vid) + 1
  {
    var s := db.rooms[roomId].versions;
    CountAppend(s, [vid], vid);
    assert Count([vid], vid) == 1 by {
      assert [vid][1..] == [];
    }
    assert (s + [vid])[..|s|] == s;
  }

  // ---------------------------------------------------------------------
  // A run of sequential saves with the same (room, name).

  datatype Run = Run(db: Db, next: nat, results: seq<Promise<Id>>)

  /** Save each edit in turn, nothing failing, collecting the promises. */
  function SaveAll(db: Db, next: nat, edits: seq<Edit>, repairRan: bool): Run
    decreases |edits|
  {
    if edits == [] then Run(db, next, [])
    else
      var o := SaveOutcome(db, next, edits[0], {}, repairRan);
      var rest := SaveAll(o.db, o.next, edits[1..], repairRan);
      Run(rest.db, rest.next, [o.result] + rest.results)
  }

  predicate AllResolved(rs: seq<Promise<Id>>)
  {
    forall i :: 0 <= i < |rs| ==> rs[i].Resolved?
  }

  /** The ids a run of resolved promises settled to, in call order. */
  function Values(rs: seq<Promise<Id>>): seq<Id>
    requires AllResolved(rs)
  {
    if rs == [] then [] else [rs[0].value] + Values(rs[1..])
  }

  function Reverse(s: seq<Id>): (r: seq<Id>)
    ensures |r| == |s|
  {
    if s == [] then [] else Reverse(s[1..]) + [s[0]]
  }

  predicate SameTarget(edits: seq<Edit>, room: Id, name: string)
  {
    forall i :: 0 <= i < |edits| ==> edits[i].room == room && edits[i].name == name
  }

  /** One fault-free save onto an existing version that the room already
      lists, under only what that save needs to know. */
  lemma ExtendStep(db: Db, next: nat, e: Edit, repairRan: bool, vid: Id)
    requires UniqueKeys(db.versions) && vid in db.versions && vid < next
    requires SameKey(db.versions[vid], e.room, e.name)
    requires e.room in db.rooms ==> vid in db.rooms[e.room].versions
    ensures var o := SaveOutcome(db, next, e, {}, repairRan);
      && o.result == Resolved(next) && o.next == next + 1 && o.db.rooms == db.rooms
      && o.db.versions == db.versions[vid := db.versions[vid].(revisions := [next] + db.versions[vid].revisions)]
  {
    SaveExtendsExisting(db, next, e, {}, repairRan, vid);
    assert LinkIfAbsent(db, e.room, vid) == db;
  }

  /** The first fault-free save of a (room, name) pair that has no version,
      under only what that save needs to know. */
  lemma CreateStep(db: Db, next: nat, e: Edit, repairRan: bool)
    requires UniqueKeys(db.versions) && KeysBelow(db.versions, next)
    requires e.room in db.rooms ==> Below(db.rooms[e.room].versions, next)
    requires forall k :: k in db.versions ==> !SameKey(db.versions[k], e.room, e.name)
    ensures var o := SaveOutcome(db, next, e, {}, repairRan);
      && o.result == Resolved(next) && o.next == next + 2
      && o.db.versions == db.versions[next + 1 := Version(e.room, e.name, [next])]
      && UniqueKeys(o.db.versions)
      && (e.room in db.rooms ==>
            e.room in o.db.rooms && Count(o.db.rooms[e.room].versions, next + 1) == 1)
  {
    FreshVersionUnique(db.versions, next + 1, Version(e.room, e.name, [next]));
    if e.room in db.rooms {
      var old_ := db.rooms[e.room].versions;
      assert next + 1 !in old_;
      CountAppend(old_, [next + 1], next + 1);
      assert Count([next + 1], next + 1) == 1 by {
        assert [next + 1][1..] == [];
      }
    }
  }

  lemma UniqueKeysKeptByUpdate(vs: map<Id, Version>, vid: Id, v: Version)
    requires UniqueKeys(vs) && vid in vs && SameKey(v, vs[vid].room, vs[vid].name)
    ensures UniqueKeys(vs[vid := v])
  {
  }

  /** N sequential saves onto an existing version: every promise resolves,
      no version is created or retargeted, and a room that already lists
      the version keeps its list. */
  lemma {:induction false} SaveAllExtends(db: Db, next: nat, edits: seq<Edit>, repairRan: bool,
                                          room: Id, name: string, vid: Id)
    requires UniqueKeys(db.versions) && vid in db.versions && vid < next
    requires SameKey(db.versions[vid], room, name)
    requires SameTarget(edits, room, name)
    requires room in db.rooms ==> vid in db.rooms[room].versions
    decreases |edits|
    ensures var o := SaveAll(db, next, edits, repairRan);
      && |o.results| == |edits|
      && AllResolved(o.results)
      && o.db.versions.Keys == db.versions.Keys
      && vid in o.db.versions && SameKey(o.db.versions[vid], room, name)
      && o.db.rooms == db.rooms
  {
    if edits != [] {
      var e := edits[0];
      var o1 := SaveOutcome(db, next, e, {}, repairRan);
      ExtendStep(db, next, e, repairRan, vid);
      UniqueKeysKeptByUpdate(db.versions, vid, o1.db.versions[vid]);
      assert SameTarget(edits[1..], room, name);
      SaveAllExtends(o1.db, o1.next, edits[1..], repairRan, room, name, vid);
      SaveAllCons(db, next, edits, repairRan);
    }
  }

  /** ... and the version lists the N returned ids, newest first, ahead of
      the revisions it held. */
  lemma {:induction false} SaveAllExtendsHistory(db: Db, next: nat, edits: seq<Edit>, repairRan: bool,
                                                 room: Id, name: string, vid: Id)
    requires UniqueKeys(db.versions) && vid in db.versions && vid < next
    requires SameKey(db.versions[vid], room, name)
    requires SameTarget(edits, room, name)
    requires room in db.rooms ==> vid in db.rooms[room].versions
    decreases |edits|
    ensures var o := SaveAll(db, next, edits, repairRan);
      && AllResolved(o.results) && vid in o.db.versions
      && o.db.versions[vid].revisions == Reverse(Values(o.results)) + db.versions[vid].revisions
  {
    SaveAllExtends(db, next, edits, repairRan, room, name, vid);
    if edits != [] {
      var e := edits[0];
      var o1 := SaveOutcome(db, next, e, {}, repairRan);
      var r0 := db.versions[vid].revisions;
      ExtendStep(db, next, e, repairRan, vid);
      UniqueKeysKeptByUpdate(db.versions, vid, o1.db.versions[vid]);
      assert SameTarget(edits[1..], room, name);
      SaveAllExtendsHistory(o1.db, o1.next, edits[1..], repairRan, room, name, vid);
      var rest := SaveAll(o1.db, o1.next, edits[1..], repairRan);
      SaveAllCons(db, next, edits, repairRan);
      HistoryPrepend(rest.results, rest.db.versions[vid].revisions, next, r0);
    }
  }

  lemma HistoryPrepend(rs: seq<Promise<Id>>, revs: seq<Id>, id: Id, r0: seq<Id>)
    requires AllResolved(rs) && revs == Reverse(Values(rs)) + ([id] + r0)
    ensures AllResolved([Resolved(id)] + rs)
    ensures revs == Reverse(Values([Resolved(id)] + rs)) + r0
  {
    RunPrepend(id, rs);
    assert Reverse(Values(rs)) + ([id] + r0) == (Reverse(Values(rs)) + [id]) + r0;
  }

  lemma RunPrepend(id: Id, rs: seq<Promise<Id>>)
    requires AllResolved(rs)
    ensures AllResolved([Resolved(id)] + rs)
    ensures Values([Resolved(id)] + rs) == [id] + Values(rs)
    ensures Reverse(Values([Resolved(id)] + rs)) == Reverse(Values(rs)) + [id]
  {
    var rs' := [Resolved(id)] + rs;
    assert rs'[1..] == rs;
    assert ([id] + Values(rs))[1..] == Values(rs);
  }

  /** A run of saves keeps the invariant. */
  lemma {:induction false} SaveAllKeepsInv(db: Db, next: nat, edits: seq<Edit>, repairRan: bool)
    requires Inv(db, next)
    decreases |edits|
    ensures Inv(SaveAll(db, next, edits, repairRan).db, SaveAll(db, next, edits, repairRan).next)
  {
    if edits != [] {
      var o1 := SaveOutcome(db, next, edits[0], {}, repairRan);
      SaveKeepsInv(db, next, edits[0], {}, repairRan);
      SaveAllKeepsInv(o1.db, o1.next, edits[1..], repairRan);
    }
  }

  lemma SaveAllCons(db: Db, next: nat, edits: seq<Edit>, repairRan: bool)
    requires edits != []
    ensures var o := SaveOutcome(db, next, edits[0], {}, repairRan);
      var rest := SaveAll(o.db, o.next, edits[1..], repairRan);
      SaveAll(db, next, edits, repairRan) == Run(rest.db, rest.next, [o.result] + rest.results)
  {
  }

    /** N sequential saves of a (room, name) pair that has no version yet:
      every promise resolves and exactly one version is created, under the
      id after the first revision's. */
  lemma SaveAllFromScratch(db: Db, next: nat, edits: seq<Edit>, repairRan: bool, room: Id, name: string)
    requires UniqueKeys(db.versions) && KeysBelow(db.versions, next)
    requires room in db.rooms ==> Below(db.rooms[room].versions, next)
    requires forall k :: k in db.versions ==> !SameKey(db.versions[k], room, name)
    requires |edits| > 0 && SameTarget(edits, room, name)
    ensures var o := SaveAll(db, next, edits, repairRan);
      && AllResolved(o.results) && |o.results| == |edits|
      && o.db.versions.Keys == db.versions.Keys + {next + 1}
      && SameKey(o.db.versions[next + 1], room, name)
  {
    var e := edits[0];
    var o1 := SaveOutcome(db, next, e, {}, repairRan);
    CreateStep(db, next, e, repairRan);
    assert SameTarget(edits[1..], room, name);
    assert o1.db.versions.Keys == db.versions.Keys + {next + 1};
    SaveAllExtends(o1.db, o1.next, edits[1..], repairRan, room, name, next + 1);
    var rest := SaveAll(o1.db, o1.next, edits[1..], repairRan);
    SaveAllCons(db, next, edits, repairRan);
    RunPrepend(next, rest.results);
  }

  /** ... the new version lists all N revision ids, newest first ... */
  lemma SaveAllFromScratchHistory(db: Db, next: nat, edits: seq<Edit>, repairRan: bool, room: Id, name: string)
    requires UniqueKeys(db.versions) && KeysBelow(db.versions, next)
    requires room in db.rooms ==> Below(db.rooms[room].versions, next)
    requires forall k :: k in db.versions ==> !SameKey(db.versions[k], room, name)
    requires |edits| > 0 && SameTarget(edits, room, name)
    ensures var o := SaveAll(db, next, edits, repairRan);
      && AllResolved(o.results) && next + 1 in o.db.versions
      && o.db.versions[next + 1].revisions == Reverse(Values(o.results))
  {
    var e := edits[0];
    var o1 := SaveOutcome(db, next, e, {}, repairRan);
    CreateStep(db, next, e, repairRan);
    assert SameTarget(edits[1..], room, name);
    SaveAllExtendsHistory(o1.db, o1.next, edits[1..], repairRan, room, name, next + 1);
    var rest := SaveAll(o1.db, o1.next, edits[1..], repairRan);
    SaveAllCons(db, next, edits, repairRan);
    HistoryPrepend(rest.results, rest.db.versions[next + 1].revisions, next, []);
  }

  /** ... and an existing room links it exactly once, whether or not the
      repairs ran. */
  lemma SaveAllFromScratchLinked(db: Db, next: nat, edits: seq<Edit>, repairRan: bool, room: Id, name: string)
    requires UniqueKeys(db.versions) && KeysBelow(db.versions, next)
    requires room in db.rooms && Below(db.rooms[room].versions, next)
    requires forall k :: k in db.versions ==> !SameKey(db.versions[k], room, name)
    requires |edits| > 0 && SameTarget(edits, room, name)
    ensures var o := SaveAll(db, next, edits, repairRan);
      room in o.db.rooms && Count(o.db.rooms[room].versions, next + 1) == 1
  {
    var e := edits[0];
    var o1 := SaveOutcome(db, next, e, {}, repairRan);
    CreateStep(db, next, e, repairRan);
    assert SameTarget(edits[1..], room, name);
    SaveAllExtends(o1.db, o1.next, edits[1..], repairRan, room, name, next + 1);
    SaveAllCons(db, next, edits, repairRan);
  }

  /** ... and afterwards that version is the only one for (room, name). */
  lemma SaveAllFromScratchUnique(db: Db, next: nat, edits: seq<Edit>, repairRan: bool, room: Id, name: string)
    requires Inv(db, next)
    requires forall k :: k in db.versions ==> !SameKey(db.versions[k], room, name)
    requires |edits| > 0 && SameTarget(edits, room, name)
    ensures var o := SaveAll(db, next, edits, repairRan);
      && Inv(o.db, o.next)
      && forall k :: k in o.db.versions && SameKey(o.db.versions[k], room, name) ==> k == next + 1
  {
    SaveAllFromScratch(db, next, edits, repairRan, room, name);
    SaveAllKeepsInv(db, next, edits, repairRan);
    var o := SaveAll(db, next, edits, repairRan);
    assert next + 1 in o.db.versions && SameKey(o.db.versions[next + 1], room, name);
  }
}
