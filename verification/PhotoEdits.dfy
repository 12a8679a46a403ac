/**
 Editing a visit's photos: the memory store rebuilds the list, the Postgres store checks ownership,
 deletes, renumbers and inserts rows. Read back by sort order, the rows are the rebuilt list.
 */
module PhotoEdits {
  import opened Wrappers
  import opened Ledger

  const MAX_VISIT_PHOTOS := 4

  datatype EditError = PhotoNotFound

  /** What Prepare guarantees about an edit, and uuid.New about the identifiers of its new photos. */
  predicate ValidEdit(keep: seq<Id>, added: seq<Photo>, ids: seq<Id>) {
    && |keep| + |added| <= MAX_VISIT_PHOTOS
    && |ids| == |added|
    && (forall i, j :: 0 <= i < j < |keep| ==> keep[i] != keep[j])
    && (forall i, j :: 0 <= i < j < |ids| ==> ids[i] != ids[j])
  }

  predicate Fresh(used: set<Id>, ids: seq<Id>) {
    forall i :: 0 <= i < |ids| ==> ids[i] !in used
  }

  predicate AllIn(keep: seq<Id>, existing: map<Id, Photo>) {
    forall i :: 0 <= i < |keep| ==> keep[i] in existing
  }

  function Placed(photo: Photo, id: Id, visitId: Id, order: nat, now: Time): Photo {
    photo.(id := id, visitId := visitId, sortOrder := order, createdAt := now)
  }

  /** The photo at each place of the edited list: the kept ones as asked, then the new ones. */
  function PlaceAt(
    existing: map<Id, Photo>, visitId: Id, keep: seq<Id>, added: seq<Photo>, ids: seq<Id>, now: Time, i: nat): Photo
    requires AllIn(keep, existing) && |ids| == |added| && i < |keep| + |added|
  {
    if i < |keep| then existing[keep[i]].(sortOrder := i)
    else Placed(added[i - |keep|], ids[i - |keep|], visitId, i, now)
  }

  function Edited(
    existing: map<Id, Photo>, visitId: Id, keep: seq<Id>, added: seq<Photo>, ids: seq<Id>, now: Time): (r: seq<Photo>)
    requires AllIn(keep, existing) && |ids| == |added|
    ensures |r| == |keep| + |added|
    ensures forall i :: 0 <= i < |r| ==> r[i] == PlaceAt(existing, visitId, keep, added, ids, now, i)
  {
    seq(|keep| + |added|, i requires 0 <= i < |keep| + |added| => PlaceAt(existing, visitId, keep, added, ids, now, i))
  }

  predicate DistinctPhotos(photos: seq<Photo>) {
    forall i, j :: 0 <= i < j < |photos| ==> photos[i].id != photos[j].id
  }

  function ById(photos: seq<Photo>): (m: map<Id, Photo>)
    requires DistinctPhotos(photos)
    ensures forall i :: 0 <= i < |photos| ==> photos[i].id in m && m[photos[i].id] == photos[i]
    ensures forall id :: id in m ==> exists i :: 0 <= i < |photos| && photos[i].id == id && m[id] == photos[i]
  {
    map i | 0 <= i < |photos| :: photos[i].id := photos[i]
  }

  /** photosFromPrepared: new photos numbered from startOrder. */
  method PhotosFromPrepared(visitId: Id, inputs: seq<Photo>, startOrder: nat, ids: seq<Id>, now: Time)
    returns (photos: seq<Photo>)
    requires |ids| == |inputs|
    ensures |photos| == |inputs|
    ensures forall i :: 0 <= i < |inputs| ==> photos[i] == Placed(inputs[i], ids[i], visitId, startOrder + i, now)
  {
    photos := [];
    for i := 0 to |inputs|
      invariant |photos| == i
      invariant forall k :: 0 <= k < i ==> photos[k] == Placed(inputs[k], ids[k], visitId, startOrder + k, now)
    {
      photos := photos + [Placed(inputs[i], ids[i], visitId, startOrder + i, now)];
    }
  }

  method PhotosById(photos: seq<Photo>) returns (existing: map<Id, Photo>)
    requires DistinctPhotos(photos)
    ensures existing == ById(photos)
  {
    existing := map[];
    for i := 0 to |photos|
      invariant forall k :: 0 <= k < i ==> photos[k].id in existing && existing[photos[k].id] == photos[k]
      invariant forall id :: id in existing ==> exists k :: 0 <= k < i && photos[k].id == id
    {
      existing := existing[photos[i].id := photos[i]];
    }
    assert existing.Keys == ById(photos).Keys;
  }

  /** MemoryStore.reconciledVisitPhotos */
  method ReconciledVisitPhotos(
    current: seq<Photo>, visitId: Id, keep: seq<Id>, added: seq<Photo>, ids: seq<Id>, now: Time)
    returns (r: Result<seq<Photo>, EditError>)
    requires |ids| == |added| && DistinctPhotos(current)
    ensures r.Ok? <==> AllIn(keep, ById(current))
    ensures r.Ok? ==> r.value == Edited(ById(current), visitId, keep, added, ids, now)
  {
    var existing := PhotosById(current);
    var photos: seq<Photo> := [];
    for order := 0 to |keep|
      invariant |photos| == order
      invariant forall k :: 0 <= k < order ==> keep[k] in existing && photos[k] == existing[keep[k]].(sortOrder := k)
    {
      if keep[order] !in existing {
        return Err(PhotoNotFound);
      }
      photos := photos + [existing[keep[order]].(sortOrder := order)];
    }
    var inserted := PhotosFromPrepared(visitId, added, |photos|, ids, now);
    photos := photos + inserted;
    assert photos == Edited(existing, visitId, keep, added, ids, now);
    r := Ok(photos);
  }

  // ---- The rows ----

  type Table = map<Id, Photo>

  predicate KeyedById(rows: Table) {
    forall id :: id in rows ==> rows[id].id == id
  }

  function OwnedBy(rows: Table, visitId: Id): Table {
    map id | id in rows && rows[id].visitId == visitId :: rows[id]
  }

  /** Rows of other visits, and the kept rows of this one. */
  function Retained(rows: Table, visitId: Id, keep: seq<Id>): Table {
    map id | id in rows && (rows[id].visitId != visitId || id in keep) :: rows[id]
  }

  /** UPDATE ... SET sort_order for each kept photo. */
  method RenumberKept(rows: Table, keep: seq<Id>) returns (table: Table)
    requires forall i :: 0 <= i < |keep| ==> keep[i] in rows
    requires forall i, j :: 0 <= i < j < |keep| ==> keep[i] != keep[j]
    ensures table.Keys == rows.Keys
    ensures forall k :: 0 <= k < |keep| ==> table[keep[k]] == rows[keep[k]].(sortOrder := k)
    ensures forall id :: id in rows && id !in keep ==> table[id] == rows[id]
  {
    table := rows;
    for order := 0 to |keep|
      invariant table.Keys == rows.Keys
      invariant forall k :: 0 <= k < order ==> table[keep[k]] == rows[keep[k]].(sortOrder := k)
      invariant forall k :: order <= k < |keep| ==> table[keep[k]] == rows[keep[k]]
      invariant forall id :: id in rows && id !in keep ==> table[id] == rows[id]
    {
      table := table[keep[order] := table[keep[order]].(sortOrder := order)];
    }
  }

  /** insertVisitPhotos */
  method InsertVisitPhotos(rows: Table, visitId: Id, photos: seq<Photo>, startOrder: nat, ids: seq<Id>, now: Time)
    returns (table: Table)
    requires |ids| == |photos| && Fresh(rows.Keys, ids)
    requires forall i, j :: 0 <= i < j < |ids| ==> ids[i] != ids[j]
    ensures forall id :: id in table <==> id in rows || id in ids
    ensures forall id :: id in rows ==> table[id] == rows[id]
    ensures forall k :: 0 <= k < |ids| ==> table[ids[k]] == Placed(photos[k], ids[k], visitId, startOrder + k, now)
  {
    table := rows;
    for i := 0 to |photos|
      invariant forall id :: id in table <==> id in rows || id in ids[..i]
      invariant forall id :: id in rows ==> table[id] == rows[id]
      invariant forall k :: 0 <= k < i ==>
        ids[k] in table && table[ids[k]] == Placed(photos[k], ids[k], visitId, startOrder + k, now)
    {
      assert ids[..i + 1] == ids[..i] + [ids[i]];
      table := table[ids[i] := Placed(photos[i], ids[i], visitId, startOrder + i, now)];
    }
    assert ids[..|ids|] == ids;
  }

  /** Store.reconcileVisitPhotos: check ownership, delete what is not kept, renumber, insert. */
  method ReconcileRows(rows: Table, visitId: Id, keep: seq<Id>, added: seq<Photo>, ids: seq<Id>, now: Time)
    returns (r: Result<Table, EditError>)
    requires KeyedById(rows) && ValidEdit(keep, added, ids) && Fresh(rows.Keys, ids)
    ensures r.Ok? <==> AllIn(keep, OwnedBy(rows, visitId))
    ensures r.Ok? ==> KeyedById(r.value)
    ensures r.Ok? ==> ReadsAs(OwnedBy(r.value, visitId), Edited(OwnedBy(rows, visitId), visitId, keep, added, ids, now))
    ensures r.Ok? ==> forall other :: other != visitId ==> OwnedBy(r.value, other) == OwnedBy(rows, other)
  {
    for i := 0 to |keep|
      invariant forall k :: 0 <= k < i ==> keep[k] in OwnedBy(rows, visitId)
    {
      if !(keep[i] in rows && rows[keep[i]].visitId == visitId) {
        return Err(PhotoNotFound);
      }
    }
    var retained := Retained(rows, visitId, keep);
    var renumbered := RenumberKept(retained, keep);
    var table := InsertVisitPhotos(renumbered, visitId, added, |keep|, ids, now);
    RowsReadAs(rows, table, visitId, keep, added, ids, now);
    r := Ok(table);
  }

  // ---- Reading rows back ----

  /** ORDER BY sort_order, created_at, id */
  predicate Precedes(a: Photo, b: Photo) {
    if a.sortOrder != b.sortOrder then a.sortOrder < b.sortOrder
    else if a.createdAt != b.createdAt then a.createdAt < b.createdAt
    else a.id < b.id
  }

  /** The list the rows are read back as: each row once, in order. */
  ghost predicate ReadsAs(rows: Table, list: seq<Photo>) {
    && (forall i, j :: 0 <= i < j < |list| ==> Precedes(list[i], list[j]))
    && (forall i :: 0 <= i < |list| ==> list[i].id in rows && rows[list[i].id] == list[i])
    && (forall id :: id in rows ==> exists i :: 0 <= i < |list| && list[i].id == id)
  }

  /** What the statements leave in the table. */
  ghost predicate Reconciled(
    rows: Table, table: Table, visitId: Id, keep: seq<Id>, added: seq<Photo>, ids: seq<Id>, now: Time)
    requires |ids| == |added|
  {
    && (forall id :: id in table <==> (id in rows && (rows[id].visitId != visitId || id in keep)) || id in ids)
    && (forall k :: 0 <= k < |keep| ==> keep[k] in rows && table[keep[k]] == rows[keep[k]].(sortOrder := k))
    && (forall k :: 0 <= k < |ids| ==> table[ids[k]] == Placed(added[k], ids[k], visitId, |keep| + k, now))
    && (forall id :: id in rows && rows[id].visitId != visitId ==> table[id] == rows[id])
  }

  lemma ReconciledOwnership(
    rows: Table, table: Table, visitId: Id, keep: seq<Id>, added: seq<Photo>, ids: seq<Id>, now: Time)
    requires KeyedById(rows) && ValidEdit(keep, added, ids) && Fresh(rows.Keys, ids)
    requires AllIn(keep, OwnedBy(rows, visitId)) && Reconciled(rows, table, visitId, keep, added, ids, now)
    ensures KeyedById(table)
    ensures forall id :: id in OwnedBy(table, visitId) <==> id in keep || id in ids
    ensures forall other :: other != visitId ==> OwnedBy(table, other) == OwnedBy(rows, other)
  {
    forall id | id in table
      ensures table[id].id == id
      ensures table[id].visitId == visitId <==> id in keep || id in ids
      ensures table[id].visitId != visitId ==> id in rows && table[id] == rows[id]
    {
      if id in ids {
        var k :| 0 <= k < |ids| && ids[k] == id;
      } else if id in keep {
        var k :| 0 <= k < |keep| && keep[k] == id;
      }
    }
  }

  lemma EditedAreRows(
    rows: Table, table: Table, visitId: Id, keep: seq<Id>, added: seq<Photo>, ids: seq<Id>, now: Time)
    requires KeyedById(rows) && ValidEdit(keep, added, ids) && AllIn(keep, OwnedBy(rows, visitId))
    requires Reconciled(rows, table, visitId, keep, added, ids, now)
    requires forall id :: id in OwnedBy(table, visitId) <==> id in keep || id in ids
    ensures var edited := Edited(OwnedBy(rows, visitId), visitId, keep, added, ids, now);
            forall i :: 0 <= i < |edited| ==>
              && edited[i].id == (if i < |keep| then keep[i] else ids[i - |keep|])
              && edited[i].id in OwnedBy(table, visitId) && OwnedBy(table, visitId)[edited[i].id] == edited[i]
  {
    var edited := Edited(OwnedBy(rows, visitId), visitId, keep, added, ids, now);
    forall i | 0 <= i < |edited|
      ensures edited[i].id == if i < |keep| then keep[i] else ids[i - |keep|]
      ensures edited[i].id in OwnedBy(table, visitId) && table[edited[i].id] == edited[i]
    {
      if i < |keep| {
        assert keep[i] in keep && keep[i] in OwnedBy(rows, visitId);
      } else {
        assert ids[i - |keep|] in ids;
      }
    }
  }

  lemma RowsReadAs(
    rows: Table, table: Table, visitId: Id, keep: seq<Id>, added: seq<Photo>, ids: seq<Id>, now: Time)
    requires KeyedById(rows) && ValidEdit(keep, added, ids) && Fresh(rows.Keys, ids)
    requires AllIn(keep, OwnedBy(rows, visitId)) && Reconciled(rows, table, visitId, keep, added, ids, now)
    ensures KeyedById(table)
    ensures ReadsAs(OwnedBy(table, visitId), Edited(OwnedBy(rows, visitId), visitId, keep, added, ids, now))
    ensures forall other :: other != visitId ==> OwnedBy(table, other) == OwnedBy(rows, other)
  {
    ReconciledOwnership(rows, table, visitId, keep, added, ids, now);
    EditedAreRows(rows, table, visitId, keep, added, ids, now);
    var edited := Edited(OwnedBy(rows, visitId), visitId, keep, added, ids, now);
    var owned := OwnedBy(table, visitId);
    forall id | id in owned ensures exists i :: 0 <= i < |edited| && edited[i].id == id {
      if id in keep {
        var k :| 0 <= k < |keep| && keep[k] == id;
        assert edited[k].id == id;
      } else {
        var k :| 0 <= k < |ids| && ids[k] == id;
        assert edited[|keep| + k].id == id;
      }
    }
  }

  lemma SameFirst(rows: Table, a: seq<Photo>, b: seq<Photo>)
    requires ReadsAs(rows, a) && ReadsAs(rows, b) && a != []
    ensures b != [] && a[0] == b[0]
  {
    assert a[0].id in rows;
    var j :| 0 <= j < |b| && b[j].id == a[0].id;
    assert b[0].id in rows;
    var k :| 0 <= k < |a| && a[k].id == b[0].id;
    assert a[0] == b[j] && a[k] == b[0];
    if j != 0 {
      assert Precedes(b[0], b[j]);
    }
  }

  /** Rows have one reading. */
  lemma {:induction false} ReadingIsUnique(rows: Table, a: seq<Photo>, b: seq<Photo>)
    requires ReadsAs(rows, a) && ReadsAs(rows, b)
    ensures a == b
    decreases |a|
  {
    if a != [] {
      SameFirst(rows, a, b);
      ReadsTail(rows, a);
      ReadsTail(rows, b);
      ReadingIsUnique(rows - {a[0].id}, a[1..], b[1..]);
    } else if b != [] {
      SameFirst(rows, b, a);
    }
  }

  lemma ReadsTail(rows: Table, list: seq<Photo>)
    requires ReadsAs(rows, list) && list != []
    ensures ReadsAs(rows - {list[0].id}, list[1..])
  {
    var rest := rows - {list[0].id};
    forall id | id in rest ensures exists i :: 0 <= i < |list[1..]| && list[1..][i].id == id {
      var i :| 0 <= i < |list| && list[i].id == id;
      assert list[1..][i - 1].id == id;
    }
    forall i | 0 <= i < |list[1..]| ensures list[1..][i].id in rest {
      assert rows[list[i + 1].id] == list[i + 1] && rows[list[0].id] == list[0];
      assert Precedes(list[0], list[i + 1]);
    }
  }

  // ---- The two stores agree ----

  lemma ByIdOfReading(rows: Table, list: seq<Photo>)
    requires ReadsAs(rows, list)
    ensures DistinctPhotos(list) && ById(list) == rows
  {
    forall i, j | 0 <= i < j < |list| ensures list[i].id != list[j].id {
      assert rows[list[i].id] == list[i] && rows[list[j].id] == list[j];
      assert Precedes(list[i], list[j]);
    }
    forall id | id in rows ensures id in ById(list) && ById(list)[id] == rows[id] {
      var i :| 0 <= i < |list| && list[i].id == id;
    }
  }

  /**
   Where the memory list is what the rows read as, the same edit succeeds in both stores or fails in
   both, and afterwards the rebuilt list is what the rows read as.
   */
  method EditBoth(rows: Table, list: seq<Photo>, visitId: Id, keep: seq<Id>, added: seq<Photo>, ids: seq<Id>, now: Time)
    returns (inRows: Result<Table, EditError>, inMemory: Result<seq<Photo>, EditError>)
    requires KeyedById(rows) && ValidEdit(keep, added, ids) && Fresh(rows.Keys, ids)
    requires ReadsAs(OwnedBy(rows, visitId), list)
    ensures inRows.Ok? <==> inMemory.Ok?
    ensures inRows.Ok? ==> ReadsAs(OwnedBy(inRows.value, visitId), inMemory.value)
  {
    ByIdOfReading(OwnedBy(rows, visitId), list);
    inRows := ReconcileRows(rows, visitId, keep, added, ids, now);
    inMemory := ReconciledVisitPhotos(list, visitId, keep, added, ids, now);
  }

  /** The photos of a visit: few, all its own, numbered from 0 without a gap, none repeated. */
  predicate ValidPhotos(visitId: Id, photos: seq<Photo>) {
    && |photos| <= MAX_VISIT_PHOTOS
    && (forall i :: 0 <= i < |photos| ==> photos[i].visitId == visitId && photos[i].sortOrder == i)
    && DistinctPhotos(photos)
  }

  /** The photo is the current one with this identifier, at most at another place. */
  ghost predicate MovedOnly(current: seq<Photo>, id: Id, photo: Photo) {
    exists k :: 0 <= k < |current| && current[k].id == id && current[k] == photo.(sortOrder := current[k].sortOrder)
  }

  /** An edit keeps a visit's photos valid; kept photos change in nothing but their place. */
  lemma EditKeepsPhotosValid(
    current: seq<Photo>, visitId: Id, keep: seq<Id>, added: seq<Photo>, ids: seq<Id>, now: Time)
    requires ValidPhotos(visitId, current) && ValidEdit(keep, added, ids)
    requires Fresh(ById(current).Keys, ids) && AllIn(keep, ById(current))
    ensures ValidPhotos(visitId, Edited(ById(current), visitId, keep, added, ids, now))
    ensures forall i :: 0 <= i < |keep| ==>
      MovedOnly(current, keep[i], Edited(ById(current), visitId, keep, added, ids, now)[i])
  {
    var edited := Edited(ById(current), visitId, keep, added, ids, now);
    forall i | 0 <= i < |edited|
      ensures edited[i].visitId == visitId && edited[i].id == if i < |keep| then keep[i] else ids[i - |keep|]
    {
      if i < |keep| {
        assert keep[i] in ById(current);
      }
    }
    forall i | 0 <= i < |keep|
      ensures MovedOnly(current, keep[i], edited[i])
    {
      assert keep[i] in ById(current);
      var k :| 0 <= k < |current| && current[k].id == keep[i] && ById(current)[keep[i]] == current[k];
      assert current[k] == edited[i].(sortOrder := current[k].sortOrder);
    }
    forall i, j | 0 <= i < j < |edited| ensures edited[i].id != edited[j].id {
      if i < |keep| <= j {
        assert keep[i] in ById(current) && ids[j - |keep|] !in ById(current).Keys;
      }
    }
  }
}
