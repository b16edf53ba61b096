/** The list edits the room handlers make on a room's `fotos`, `photos` and
    `supplements` between reading the room and writing the lists back:
    pushes in request order, removal of a first occurrence, and the
    index-based splicing of the `photos` copy. */
module RoomLists {
  import opened Documents

  /** `Array.prototype.indexOf`: the first index holding `x`, or -1. */
  function IndexOf(s: seq<Id>, x: Id): (i: int)
    ensures -1 <= i < |s|
    ensures i == -1 <==> x !in s
    ensures i >= 0 ==> s[i] == x && x !in s[..i]
  {
    if s == [] then -1
    else if s[0] == x then 0
    else
      var j := IndexOf(s[1..], x);
      assert s[1..][..j + 1] == s[1..j + 2] by {
        if j >= 0 {
          assert s[1..][..j + 1] == s[1..][..j] + [s[j + 1]];
        }
      }
      if j == -1 then -1 else j + 1
  }

  /** `splice(i, 1)`: drop the element at `i`; past the end nothing changes. */
  function Splice<T>(s: seq<T>, i: nat): (r: seq<T>)
    ensures i < |s| ==> |r| == |s| - 1
    ensures i < |s| ==> forall k :: 0 <= k < |r| ==> r[k] == (if k < i then s[k] else s[k + 1])
    ensures i >= |s| ==> r == s
    ensures forall x :: x in r ==> x in s
  {
    if i < |s| then s[..i] + s[i + 1..] else s
  }

  /** `index = list.indexOf(id); if (index > -1) list.splice(index, 1)`. */
  function RemoveFirst(s: seq<Id>, x: Id): (r: seq<Id>)
    ensures x !in s ==> r == s
    ensures x in s ==> |r| == |s| - 1
  {
    var i := IndexOf(s, x);
    if i > -1 then Splice(s, i) else s
  }

  /** Only the first occurrence goes: what precedes it and what follows it
      stay, in order, and one copy of `x` leaves the multiset. */
  lemma RemoveFirstSpec(s: seq<Id>, x: Id)
    requires x in s
    ensures exists k :: 0 <= k < |s| && s[k] == x && x !in s[..k] && RemoveFirst(s, x) == s[..k] + s[k + 1..]
    ensures multiset(RemoveFirst(s, x)) + multiset{x} == multiset(s)
  {
    var i := IndexOf(s, x);
    assert s == s[..i] + [x] + s[i + 1..];
    assert RemoveFirst(s, x) == s[..i] + s[i + 1..];
  }

  /** Removing the id just appended gives back the list it was appended to. */
  lemma RemoveFirstUndoesAppend(s: seq<Id>, x: Id)
    requires x !in s
    ensures RemoveFirst(s + [x], x) == s
  {
    var t := s + [x];
    assert t[..|s|] == s;
  }

  /** A photo entry for each id, visible, in the given order. */
  function VisibleEntries(ids: seq<Id>): (r: seq<Photo>)
    ensures |r| == |ids|
    ensures forall i :: 0 <= i < |ids| ==> r[i] == Photo(ids[i], true)
  {
    if ids == [] then [] else [Photo(ids[0], true)] + VisibleEntries(ids[1..])
  }

  /** `ids.forEach(id => list.push(id))` */
  method PushEach(list: seq<Id>, ids: seq<Id>) returns (r: seq<Id>)
    ensures r == list + ids
  {
    r := list;
    var k := 0;
    while k < |ids|
      invariant 0 <= k <= |ids|
      invariant r == list + ids[..k]
    {
      r := r + [ids[k]];
      k := k + 1;
      assert ids[..k] == ids[..k - 1] + [ids[k - 1]];
    }
    assert ids[..k] == ids;
  }

  /** The `forEach` of postAddPhotos: each id goes to the end of `fotos` and,
      as a visible entry, to the end of `photos`. */
  method PushEachPhoto(fotos: seq<Id>, photos: seq<Photo>, ids: seq<Id>)
    returns (fotos': seq<Id>, photos': seq<Photo>)
    ensures fotos' == fotos + ids
    ensures photos' == photos + VisibleEntries(ids)
  {
    fotos', photos' := fotos, photos;
    var k := 0;
    while k < |ids|
      invariant 0 <= k <= |ids|
      invariant fotos' == fotos + ids[..k]
      invariant photos' == photos + VisibleEntries(ids[..k])
    {
      fotos' := fotos' + [ids[k]];
      photos' := photos' + [Photo(ids[k], true)];
      k := k + 1;
      assert ids[..k] == ids[..k - 1] + [ids[k - 1]];
      assert VisibleEntries(ids[..k]) == VisibleEntries(ids[..k - 1]) + [Photo(ids[k - 1], true)];
    }
    assert ids[..k] == ids;
  }

  // ---------------------------------------------------------------------
  // Removing a photo from `photos`.

  /** What the `forEach` of postRemovePhoto leaves in the copy after the
      entries from index `k` on have been looked at: the copy is spliced at
      each matching index of the ORIGINAL array. */
  function SpliceFrom(orig: seq<Photo>, id: Id, k: nat, copy: seq<Photo>): (r: seq<Photo>)
    requires k <= |orig|
    ensures |r| <= |copy| && |copy| - |r| <= |orig| - k
    ensures forall x :: x in r ==> x in copy
    ensures (forall j :: k <= j < |orig| ==> orig[j].photo != id) ==> r == copy
    decreases |orig| - k
  {
    if k == |orig| then copy
    else SpliceFrom(orig, id, k + 1, if orig[k].photo == id then Splice(copy, k) else copy)
  }

  /** postRemovePhoto's `photos` list, as written. */
  function SplicedAsWritten(orig: seq<Photo>, id: Id): (r: seq<Photo>)
    ensures |r| <= |orig|
    ensures forall x :: x in r ==> x in orig
    ensures (forall j :: 0 <= j < |orig| ==> orig[j].photo != id) ==> r == orig
  {
    SpliceFrom(orig, id, 0, orig)
  }

  /** The `forEach` over the original `photos` that splices the copy. */
  method SpliceMatchingPhotos(photos: seq<Photo>, id: Id) returns (copy: seq<Photo>)
    ensures copy == SplicedAsWritten(photos, id)
  {
    copy := photos;
    var k := 0;
    while k < |photos|
      invariant 0 <= k <= |photos|
      invariant SpliceFrom(photos, id, k, copy) == SplicedAsWritten(photos, id)
    {
      if photos[k].photo == id {
        copy := Splice(copy, k);
      }
      k := k + 1;
    }
  }

  /** The entries of `photos` that do not show `id`, in order: what
      removing a photo from the room is meant to leave. */
  function WithoutPhoto(photos: seq<Photo>, id: Id): (r: seq<Photo>)
    ensures |r| <= |photos|
  {
    if photos == [] then []
    else if photos[0].photo == id then WithoutPhoto(photos[1..], id)
    else [photos[0]] + WithoutPhoto(photos[1..], id)
  }

  /** An entry is kept exactly when it does not show the photo. */
  lemma {:induction false} WithoutPhotoMembers(photos: seq<Photo>, id: Id, p: Photo)
    ensures p in WithoutPhoto(photos, id) <==> p in photos && p.photo != id
  {
    if photos != [] {
      WithoutPhotoMembers(photos[1..], id, p);
      assert photos == [photos[0]] + photos[1..];
    }
  }

  lemma {:induction false} WithoutPhotoAppend(a: seq<Photo>, b: seq<Photo>, id: Id)
    ensures WithoutPhoto(a + b, id) == WithoutPhoto(a, id) + WithoutPhoto(b, id)
  {
    if a != [] {
      assert (a + b)[1..] == a[1..] + b;
      WithoutPhotoAppend(a[1..], b, id);
    } else {
      assert a + b == b;
    }
  }

  lemma {:induction false} WithoutPhotoNoMatch(photos: seq<Photo>, id: Id)
    requires forall i :: 0 <= i < |photos| ==> photos[i].photo != id
    ensures WithoutPhoto(photos, id) == photos
  {
    if photos != [] {
      WithoutPhotoNoMatch(photos[1..], id);
    }
  }

  /** Indices that do not match leave the copy alone. */
  lemma {:induction false} SpliceFromSkips(orig: seq<Photo>, id: Id, k: nat, m: nat, copy: seq<Photo>)
    requires k <= m <= |orig|
    requires forall i :: k <= i < m ==> orig[i].photo != id
    decreases m - k
    ensures SpliceFrom(orig, id, k, copy) == SpliceFrom(orig, id, m, copy)
  {
    if k < m {
      SpliceFromSkips(orig, id, k + 1, m, copy);
    }
  }

  /** With exactly one entry showing the photo, the splicing as written
      drops that entry. */
  lemma AsWrittenSingleMatch(photos: seq<Photo>, id: Id, j: nat)
    requires j < |photos| && photos[j].photo == id
    requires forall i :: 0 <= i < |photos| && i != j ==> photos[i].photo != id
    ensures SplicedAsWritten(photos, id) == Splice(photos, j)
  {
    SpliceFromSkips(photos, id, 0, j, photos);
    SpliceFromSkips(photos, id, j + 1, |photos|, Splice(photos, j));
  }

  /** With exactly one entry showing the photo, the corrected removal drops
      that entry. */
  lemma WithoutPhotoSingleMatch(photos: seq<Photo>, id: Id, j: nat)
    requires j < |photos| && photos[j].photo == id
    requires forall i :: 0 <= i < |photos| && i != j ==> photos[i].photo != id
    ensures WithoutPhoto(photos, id) == Splice(photos, j)
  {
    assert photos == photos[..j] + [photos[j]] + photos[j + 1..];
    WithoutPhotoAppend(photos[..j] + [photos[j]], photos[j + 1..], id);
    WithoutPhotoAppend(photos[..j], [photos[j]], id);
    WithoutPhotoNoMatch(photos[..j], id);
    WithoutPhotoNoMatch(photos[j + 1..], id);
    assert WithoutPhoto([photos[j]], id) == [];
  }

  /** When at most one entry shows the photo, the splicing as written removes
      exactly the entries that show it. */
  lemma AsWrittenAgreesOnSingleMatch(photos: seq<Photo>, id: Id)
    requires forall i, j :: 0 <= i < j < |photos| && photos[i].photo == id ==> photos[j].photo != id
    ensures SplicedAsWritten(photos, id) == WithoutPhoto(photos, id)
  {
    if j :| 0 <= j < |photos| && photos[j].photo == id {
      AsWrittenSingleMatch(photos, id, j);
      WithoutPhotoSingleMatch(photos, id, j);
    } else {
      SpliceFromSkips(photos, id, 0, |photos|, photos);
      WithoutPhotoNoMatch(photos, id);
    }
  }

  /** With the same photo listed twice, the splicing as written keeps one of
      them and drops the unrelated entry after them. */
  lemma AsWrittenDropsWrongEntry()
    ensures var photos := [Photo(1, true), Photo(1, true), Photo(2, true)];
      && SplicedAsWritten(photos, 1) == [Photo(1, true)]
      && WithoutPhoto(photos, 1) == [Photo(2, true)]
  {
    var photos := [Photo(1, true), Photo(1, true), Photo(2, true)];
    assert Splice(photos, 0) == [Photo(1, true), Photo(2, true)];
    assert Splice([Photo(1, true), Photo(2, true)], 1) == [Photo(1, true)];
    assert SpliceFrom(photos, 1, 3, [Photo(1, true)]) == [Photo(1, true)];
    assert WithoutPhoto(photos[2..], 1) == [Photo(2, true)];
    assert WithoutPhoto(photos[1..], 1) == [Photo(2, true)] by {
      assert photos[1..][1..] == photos[2..];
    }
  }

  // ---------------------------------------------------------------------
  // The edits on a whole room.

  /** postAddPhoto: the id goes to the end of `fotos` and a visible entry to
      the end of `photos`, a missing `photos` list counting as empty. */
  function AddPhoto(room: Room, id: Id): (r: Room)
    ensures r.fotos == room.fotos + [id]
    ensures r.photos == Some((if room.photos.Some? then room.photos.value else []) + [Photo(id, true)])
    ensures r.supplements == room.supplements && r.versions == room.versions
    ensures r.name == room.name && r.description == room.description && r.date == room.date
      && r.creator == room.creator && r.geometries == room.geometries
  {
    var photos := if room.photos.Some? then room.photos.value else [];
    room.(fotos := room.fotos + [id], photos := Some(photos + [Photo(id, true)]))
  }

  /** postAddPhotos: `photos.map` throws on a room without a `photos` list;
      otherwise the ids go, in request order, to the end of both lists. */
  function AddPhotos(room: Room, ids: seq<Id>): (r: Option<Room>)
    ensures r.None? <==> room.photos.None?
    ensures r.Some? ==> r.value.fotos == room.fotos + ids
    ensures r.Some? ==> r.value.photos == Some(room.photos.value + VisibleEntries(ids))
    ensures r.Some? ==> r.value.supplements == room.supplements && r.value.versions == room.versions
  {
    if room.photos.None? then None
    else Some(room.(fotos := room.fotos + ids, photos := Some(room.photos.value + VisibleEntries(ids))))
  }

  /** postRemovePhoto, corrected: `Array.from` throws on a room without a
      `photos` list; otherwise the first occurrence of the id leaves `fotos`
      and `supplements`, and every entry showing it leaves `photos`. */
  function RemovePhoto(room: Room, id: Id): (r: Option<Room>)
    ensures r.None? <==> room.photos.None?
    ensures r.Some? ==> r.value.fotos == RemoveFirst(room.fotos, id)
    ensures r.Some? ==> r.value.supplements == RemoveFirst(room.supplements, id)
    ensures r.Some? ==> r.value.photos.Some?
    ensures r.Some? ==> r.value.photos == Some(WithoutPhoto(room.photos.value, id))
    ensures r.Some? ==> r.value.versions == room.versions && r.value.name == room.name
  {
    if room.photos.None? then None
    else Some(room.(fotos := RemoveFirst(room.fotos, id),
                    photos := Some(WithoutPhoto(room.photos.value, id)),
                    supplements := RemoveFirst(room.supplements, id)))
  }

  /** postAddSupplements: the ids go, in request order, to the end of
      `supplements`. */
  function AddSupplements(room: Room, ids: seq<Id>): (r: Room)
    ensures r.supplements == room.supplements + ids
    ensures r.fotos == room.fotos && r.photos == room.photos && r.versions == room.versions
    ensures r.name == room.name && r.description == room.description && r.date == room.date
      && r.creator == room.creator && r.geometries == room.geometries
  {
    room.(supplements := room.supplements + ids)
  }

  /** Adding several photos at once is adding them one by one. */
  lemma AddPhotosOneByOne(room: Room, ids: seq<Id>)
    requires room.photos.Some? && ids != []
    ensures AddPhotos(room, ids) == AddPhotos(AddPhoto(room, ids[0]), ids[1..])
  {
    var x, rest := ids[0], ids[1..];
    assert ids == [x] + rest;
    assert VisibleEntries(ids) == [Photo(x, true)] + VisibleEntries(rest);
    AppendCons(room.fotos, x, rest);
    AppendCons(room.photos.value, Photo(x, true), VisibleEntries(rest));
  }

  lemma AppendCons<T>(a: seq<T>, x: T, rest: seq<T>)
    ensures a + ([x] + rest) == (a + [x]) + rest
  {
  }

  /** Removing a photo just added to a room that did not list it gives the
      room back. */
  lemma RemoveUndoesAdd(room: Room, id: Id)
    requires room.photos.Some?
    requires id !in room.fotos && id !in room.supplements
    requires forall i :: 0 <= i < |room.photos.value| ==> room.photos.value[i].photo != id
    ensures RemovePhoto(AddPhoto(room, id), id) == Some(room)
  {
    var ps := room.photos.value;
    RemoveFirstUndoesAppend(room.fotos, id);
    WithoutPhotoAppend(ps, [Photo(id, true)], id);
    WithoutPhotoNoMatch(ps, id);
    assert WithoutPhoto([Photo(id, true)], id) == [];
    assert WithoutPhoto(ps + [Photo(id, true)], id) == ps;
    var added := AddPhoto(room, id);
    assert added.photos == Some(ps + [Photo(id, true)]);
    assert RemoveFirst(added.supplements, id) == room.supplements;
  }
}
