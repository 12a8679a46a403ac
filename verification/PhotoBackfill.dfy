/**
 The bounded, resumable backfill of visit_photos. Other sessions commit between its statements; what
 they commit is an arbitrary schedule.
 */
module PhotoBackfill {
  import opened Wrappers
  import opened Ledger
  import opened PhotoTable

  datatype Failure = BadLimits | BadRow(id: Id) | LockTimeout(id: Id)

  // ---- Identifiers in order ----

  ghost predicate IsLeast(m: Id, ids: set<Id>) {
    m in ids && forall id :: id in ids ==> m <= id
  }

  lemma {:induction false} LeastExists(ids: set<Id>) returns (m: Id)
    requires ids != {}
    ensures IsLeast(m, ids)
  {
    var id :| id in ids;
    if ids == {id} {
      return id;
    }
    var rest := LeastExists(ids - {id});
    assert forall k :: k in ids ==> k == id || k in ids - {id};
    m := if id <= rest then id else rest;
  }

  function Least(ids: set<Id>): (m: Id)
    requires ids != {}
    ensures IsLeast(m, ids)
  {
    assert exists m :: IsLeast(m, ids) by {
      var m := LeastExists(ids);
    }
    var m :| m in ids && forall id :: id in ids ==> m <= id;
    m
  }

  /** ORDER BY id */
  function Ascending(ids: set<Id>): (s: seq<Id>)
    ensures |s| == |ids|
    ensures forall id :: id in s <==> id in ids
  {
    if ids == {} then []
    else
      var m := Least(ids);
      [m] + Ascending(ids - {m})
  }

  function Members(ids: seq<Id>): set<Id> {
    set id | id in ids
  }

  ghost predicate Increasing(ids: seq<Id>) {
    forall i, j :: 0 <= i < j < |ids| ==> ids[i] < ids[j]
  }

  lemma {:induction false} AscendingIncreases(ids: set<Id>)
    ensures Increasing(Ascending(ids))
  {
    if ids != {} {
      var m := Least(ids);
      var rest := Ascending(ids - {m});
      AscendingIncreases(ids - {m});
      forall i | 0 <= i < |rest| ensures m < rest[i] {
        assert rest[i] in ids - {m};
      }
    }
  }

  /** A set has one increasing listing. */
  lemma {:induction false} IncreasingListingIsUnique(s: seq<Id>, t: seq<Id>)
    requires Increasing(s) && Increasing(t) && Members(s) == Members(t)
    ensures s == t
  {
    assert forall id :: id in s <==> id in Members(s);
    assert forall id :: id in t <==> id in Members(t);
    if s != [] || t != [] {
      assert |s| > 0 ==> s[0] in Members(s);
      assert |t| > 0 ==> t[0] in Members(t);
      assert s[0] in t && t[0] in s;
      assert Members(s[1..]) == Members(s) - {s[0]};
      assert Members(t[1..]) == Members(t) - {t[0]};
      IncreasingListingIsUnique(s[1..], t[1..]);
    }
  }

  lemma PrefixAndRest(ids: seq<Id>, n: nat)
    requires Increasing(ids) && n <= |ids|
    ensures Members(ids[n..]) == Members(ids) - Members(ids[..n])
    ensures n < |ids| ==> ids[n] !in Members(ids[..n])
    ensures n < |ids| ==> Members(ids[..n + 1]) == Members(ids[..n]) + {ids[n]}
  {
    forall id | id in ids[n..] ensures id in ids && id !in ids[..n] {
      var j :| n <= j < |ids| && ids[j] == id;
    }
    forall id | id in ids && id !in ids[..n] ensures id in ids[n..] {
      var j :| 0 <= j < |ids| && ids[j] == id;
      if n <= j {
        assert ids[n..][j - n] == id;
      }
    }
    if n < |ids| {
      assert ids[..n + 1] == ids[..n] + [ids[n]];
    }
  }

  lemma TheListing(ids: set<Id>, s: seq<Id>)
    requires Increasing(s) && Members(s) == ids
    ensures s == Ascending(ids)
  {
    AscendingIncreases(ids);
    assert Members(Ascending(ids)) == ids;
    IncreasingListingIsUnique(s, Ascending(ids));
  }

  /** Taking away the smallest identifiers leaves the others in the same order. */
  lemma AscendingRest(ids: set<Id>, all: seq<Id>, n: nat)
    requires all == Ascending(ids) && n <= |all|
    ensures Ascending(ids - Members(all[..n])) == all[n..]
  {
    AscendingIncreases(ids);
    assert Members(all) == ids;
    PrefixAndRest(all, n);
    TheListing(ids - Members(all[..n]), all[n..]);
  }

  // ---- What a quiet run does ----

  function MissingIds(rows: Rows): set<Id> {
    set id | id in rows && Missing(rows[id])
  }

  function MissingInOrder(rows: Rows): seq<Id> {
    Ascending(MissingIds(rows))
  }

  predicate Fillable(codec: Codec, rows: Rows, id: Id) {
    id in rows && Validate(codec, rows[id]).Some?
  }

  function Completed(codec: Codec, row: Row): Row {
    match Validate(codec, row)
    case None => row
    case Some(images) => Fill(row, images)
  }

  /** The table with the given rows filled, as far as they validate. */
  function Filled(codec: Codec, rows: Rows, ids: set<Id>): Rows {
    map id | id in rows :: if id in ids then Completed(codec, rows[id]) else rows[id]
  }

  function FillRow(codec: Codec, rows: Rows, id: Id): Rows {
    if id in rows then rows[id := Completed(codec, rows[id])] else rows
  }

  /** How many identifiers at the front of the list name fillable rows. */
  function FillablePrefix(codec: Codec, rows: Rows, ids: seq<Id>): (n: nat)
    ensures n <= |ids|
  {
    if ids == [] || !Fillable(codec, rows, ids[0]) then 0 else 1 + FillablePrefix(codec, rows, ids[1..])
  }

  lemma {:induction false} PrefixIsFillable(codec: Codec, rows: Rows, ids: seq<Id>, n: nat)
    requires n == FillablePrefix(codec, rows, ids)
    ensures forall i :: 0 <= i < n ==> Fillable(codec, rows, ids[i])
    ensures n < |ids| ==> !Fillable(codec, rows, ids[n])
  {
    if ids != [] && Fillable(codec, rows, ids[0]) {
      PrefixIsFillable(codec, rows, ids[1..], n - 1);
      forall i | 0 <= i < n ensures Fillable(codec, rows, ids[i]) {
        if i > 0 {
          assert ids[1..][i - 1] == ids[i];
        }
      }
    }
  }

  /** The table after the first n listed rows have been filled one after another. */
  function FilledInTurn(codec: Codec, start: Rows, ids: seq<Id>, n: nat): Rows
    requires n <= |ids|
  {
    if n == 0 then start else FillRow(codec, FilledInTurn(codec, start, ids, n - 1), ids[n - 1])
  }

  lemma FilledOneMore(codec: Codec, start: Rows, ids: set<Id>, id: Id)
    requires id in start && id !in ids
    ensures FillRow(codec, Filled(codec, start, ids), id) == Filled(codec, start, ids + {id})
  {
  }

  /** One after another or all at once: each row depends only on itself. */
  lemma {:induction false} FilledInTurnIsFilled(codec: Codec, start: Rows, ids: seq<Id>, n: nat)
    requires n <= |ids| && Increasing(ids) && Members(ids) <= start.Keys
    ensures FilledInTurn(codec, start, ids, n) == Filled(codec, start, Members(ids[..n]))
  {
    if n > 0 {
      FilledInTurnIsFilled(codec, start, ids, n - 1);
      PrefixAndRest(ids, n - 1);
      assert ids[n - 1] in Members(ids);
      FilledOneMore(codec, start, Members(ids[..n - 1]), ids[n - 1]);
    }
  }

  lemma MissingInOrderIncreases(rows: Rows)
    ensures Increasing(MissingInOrder(rows)) && Members(MissingInOrder(rows)) == MissingIds(rows) <= rows.Keys
  {
    AscendingIncreases(MissingIds(rows));
  }

  lemma FilledLeavesMissing(codec: Codec, start: Rows, ids: set<Id>)
    requires forall id :: id in ids ==> Fillable(codec, start, id)
    ensures MissingIds(Filled(codec, start, ids)) == MissingIds(start) - ids
  {
  }

  /** The rows still missing are the others, in the same order. */
  lemma StillMissing(codec: Codec, start: Rows, ids: seq<Id>, n: nat)
    requires ids == MissingInOrder(start) && n <= FillablePrefix(codec, start, ids)
    ensures MissingInOrder(FilledInTurn(codec, start, ids, n)) == ids[n..]
  {
    MissingInOrderIncreases(start);
    FilledInTurnIsFilled(codec, start, ids, n);
    PrefixIsFillable(codec, start, ids, FillablePrefix(codec, start, ids));
    assert forall id :: id in Members(ids[..n]) ==> Fillable(codec, start, id);
    FilledLeavesMissing(codec, start, Members(ids[..n]));
    AscendingRest(MissingIds(start), ids, n);
  }

  /** The batch lists the identifiers from position n on. */
  ghost predicate NextOf(ids: seq<Id>, n: nat, batch: seq<Id>) {
    n + |batch| <= |ids| && forall k :: 0 <= k < |batch| ==> batch[k] == ids[n + k]
  }

  function FirstMissing(rows: Rows, limit: nat): (batch: seq<Id>)
    ensures |batch| <= limit
  {
    var missing := MissingInOrder(rows);
    missing[..if limit < |missing| then limit else |missing|]
  }

  lemma NextBatch(codec: Codec, start: Rows, ids: seq<Id>, n: nat, limit: nat)
    requires ids == MissingInOrder(start) && n <= FillablePrefix(codec, start, ids)
    ensures var batch := FirstMissing(FilledInTurn(codec, start, ids, n), limit);
            && NextOf(ids, n, batch)
            && (|batch| == limit || n + |batch| == |ids|)
  {
    StillMissing(codec, start, ids, n);
  }

  /** The next row to fill is as it was at the start. */
  lemma NextMissing(codec: Codec, start: Rows, ids: seq<Id>, n: nat)
    requires ids == MissingInOrder(start) && n <= FillablePrefix(codec, start, ids) && n < |ids|
    ensures var now := FilledInTurn(codec, start, ids, n);
            && ids[n] in now && Missing(now[ids[n]])
            && (Fillable(codec, now, ids[n]) <==> n < FillablePrefix(codec, start, ids))
            && FillRow(codec, now, ids[n]) == FilledInTurn(codec, start, ids, n + 1)
  {
    MissingInOrderIncreases(start);
    FilledInTurnIsFilled(codec, start, ids, n);
    PrefixAndRest(ids, n);
    assert ids[n] in MissingIds(start);
    assert FilledInTurn(codec, start, ids, n)[ids[n]] == start[ids[n]];
    PrefixIsFillable(codec, start, ids, FillablePrefix(codec, start, ids));
  }

  /** What a run that nothing disturbed has done when it stops. */
  ghost predicate QuietOutcome(
    codec: Codec, start: Rows, maxRows: nat, now: Rows, updated: int, remaining: int, err: Option<Failure>)
  {
    var ids := MissingInOrder(start);
    var wanted := ids[..if maxRows < |ids| then maxRows else |ids|];
    var done := FillablePrefix(codec, start, wanted);
    && now == Filled(codec, start, Members(wanted[..done]))
    && updated == done
    && (if done == |wanted| then err.None? && remaining == |ids| - done else err == Some(BadRow(wanted[done])))
  }

  lemma PrefixOfPrefix(codec: Codec, rows: Rows, ids: seq<Id>, n: nat)
    requires n <= |ids|
    ensures FillablePrefix(codec, rows, ids[..n])
         == var k := FillablePrefix(codec, rows, ids); if k < n then k else n
  {
    var k, m := FillablePrefix(codec, rows, ids), FillablePrefix(codec, rows, ids[..n]);
    PrefixIsFillable(codec, rows, ids, k);
    PrefixIsFillable(codec, rows, ids[..n], m);
    assert m < n ==> !Fillable(codec, rows, ids[m]);
  }

  lemma FillingInTurnIsTheOutcome(
    codec: Codec, start: Rows, ids: seq<Id>, maxRows: nat, n: nat, remaining: int, err: Option<Failure>)
    requires ids == MissingInOrder(start) && n <= FillablePrefix(codec, start, ids) && n <= maxRows
    requires if n == maxRows || n == |ids| then err.None? && remaining == |ids| - n
             else n == FillablePrefix(codec, start, ids) && err == Some(BadRow(ids[n]))
    ensures QuietOutcome(codec, start, maxRows, FilledInTurn(codec, start, ids, n), n, remaining, err)
  {
    var bound := if maxRows < |ids| then maxRows else |ids|;
    assert FillablePrefix(codec, start, ids[..bound]) == n by {
      PrefixOfPrefix(codec, start, ids, bound);
    }
    assert ids[..bound][..n] == ids[..n];
    assert FilledInTurn(codec, start, ids, n) == Filled(codec, start, Members(ids[..n])) by {
      MissingInOrderIncreases(start);
      FilledInTurnIsFilled(codec, start, ids, n);
    }
  }

  // ---- What a quiet run does, of the rows themselves ----

  /** Both binaries are there, the thumbnail of the current kind. */
  predicate Complete(row: Row) {
    row.original.Some? && row.thumbnail.Some? && row.version == Some("thumb-v1")
  }

  /** The URI is short enough and decodes to as many bytes as the row counts, and no stored binary says otherwise. */
  predicate Repairable(codec: Codec, row: Row) {
    && row.contentType == "image/jpeg" && |row.dataUri| <= 700000
    && codec(row.dataUri).Some? && |codec(row.dataUri).value.original| == row.byteCount
    && (row.original.Some? ==>
          row.original.value == codec(row.dataUri).value.original && |row.original.value| <= 512000)
    && (row.thumbnail.Some? ==> |row.thumbnail.value| <= 512000)
    && (row.thumbnail.Some? && row.version == Some("thumb-v1") ==>
          row.thumbnail.value == codec(row.dataUri).value.thumbnail)
  }

  /** The row with what its URI decodes to. */
  function Repaired(codec: Codec, row: Row): Row
    requires codec(row.dataUri).Some?
  {
    row.(original := Some(codec(row.dataUri).value.original), thumbnail := Some(codec(row.dataUri).value.thumbnail),
         version := Some("thumb-v1"))
  }

  /** Validation accepts a row exactly when it can be repaired, and yields what its URI decodes to. */
  lemma ValidatesIff(codec: Codec, row: Row)
    requires codec("").None?
    ensures Validate(codec, row).Some? <==> Repairable(codec, row)
    ensures Validate(codec, row).Some? ==> Validate(codec, row) == codec(row.dataUri)
  {
  }

  function Incomplete(rows: Rows): set<Id> {
    set id | id in rows && !Complete(rows[id])
  }

  /** The incomplete rows before this one. */
  function IncompleteBelow(rows: Rows, bound: Id): set<Id> {
    set id | id in rows && !Complete(rows[id]) && id < bound
  }

  /** n incomplete rows, and those the smallest, have been repaired; nothing else has changed. */
  ghost predicate RepairsSmallest(codec: Codec, before: Rows, after: Rows, n: nat) {
    && after.Keys == before.Keys
    && exists done: set<Id> :: |done| == n && RepairsExactly(codec, before, after, done)
  }

  ghost predicate RepairsExactly(codec: Codec, before: Rows, after: Rows, done: set<Id>)
    requires after.Keys == before.Keys
  {
    && done <= Incomplete(before)
    && (forall id, other :: id in done && other in Incomplete(before) - done ==> id < other)
    && (forall id :: id in before ==>
          if id in done then Repairable(codec, before[id]) && after[id] == Repaired(codec, before[id])
          else after[id] == before[id])
  }

  /** The first row a run of at most maxRows comes to that cannot be repaired. */
  ghost predicate StopsAt(codec: Codec, rows: Rows, maxRows: nat, bad: Id) {
    && bad in Incomplete(rows) && !Repairable(codec, rows[bad]) && |IncompleteBelow(rows, bad)| < maxRows
    && forall id :: id in IncompleteBelow(rows, bad) ==> Repairable(codec, rows[id])
  }

  /**
   The smallest incomplete rows are repaired from their URIs, as many as are allowed, up to the first that
   cannot be; that one is reported, and only it.
   */
  ghost predicate RepairsInOrder(
    codec: Codec, before: Rows, maxRows: nat, after: Rows, updated: int, remaining: int, err: Option<Failure>)
  {
    var missing := |Incomplete(before)|;
    && 0 <= updated && RepairsSmallest(codec, before, after, updated)
    && (err.Some? <==> exists bad: Id :: StopsAt(codec, before, maxRows, bad))
    && (err.None? ==> updated == (if maxRows < missing then maxRows else missing) && remaining == missing - updated)
    && (err.Some? ==>
          exists bad: Id :: StopsAt(codec, before, maxRows, bad) && err == Some(BadRow(bad))
                        && updated == |IncompleteBelow(before, bad)|)
  }

  lemma IncompleteIsMissing(rows: Rows)
    ensures Incomplete(rows) == MissingIds(rows)
  {
  }

  /** What comes before position k of the listing is what is smaller, k identifiers. */
  lemma SmallerOnes(rows: Rows, ids: seq<Id>, k: nat)
    requires ids == MissingInOrder(rows) && k < |ids|
    ensures Members(ids[..k]) == IncompleteBelow(rows, ids[k]) && |IncompleteBelow(rows, ids[k])| == k
  {
    MissingInOrderIncreases(rows);
    IncompleteIsMissing(rows);
    forall id ensures id in ids[..k] <==> id in IncompleteBelow(rows, ids[k]) {
      if id in IncompleteBelow(rows, ids[k]) {
        assert id in Members(ids);
        var j :| 0 <= j < |ids| && ids[j] == id;
        assert j < k;
      }
      if id in ids[..k] {
        assert id in Members(ids);
      }
    }
    IncreasingCount(ids[..k]);
  }

  lemma {:induction false} IncreasingCount(ids: seq<Id>)
    requires Increasing(ids)
    ensures |Members(ids)| == |ids|
  {
    if ids != [] {
      var n := |ids| - 1;
      IncreasingCount(ids[..n]);
      PrefixAndRest(ids, n);
      assert ids[..n + 1] == ids;
    }
  }

  lemma FirstAreSmallest(rows: Rows, ids: seq<Id>, n: nat)
    requires ids == MissingInOrder(rows) && n <= |ids|
    ensures Members(ids[..n]) <= Incomplete(rows) && |Members(ids[..n])| == n
    ensures forall id, other :: id in Members(ids[..n]) && other in Incomplete(rows) - Members(ids[..n]) ==> id < other
  {
    MissingInOrderIncreases(rows);
    IncompleteIsMissing(rows);
    IncreasingCount(ids[..n]);
    assert Members(ids[..n]) <= Members(ids);
    assert forall k :: 0 <= k < n ==> ids[..n][k] == ids[k] && ids[k] in Members(ids[..n]);
    forall id, other | id in Members(ids[..n]) && other in Incomplete(rows) - Members(ids[..n]) ensures id < other {
      assert other in Members(ids);
      var i :| 0 <= i < n && ids[..n][i] == id;
      var j :| 0 <= j < |ids| && ids[j] == other;
    }
  }

  lemma FilledAreRepaired(codec: Codec, before: Rows, ids: seq<Id>, n: nat)
    requires codec("").None? && ids == MissingInOrder(before) && n <= FillablePrefix(codec, before, ids)
    ensures RepairsSmallest(codec, before, Filled(codec, before, Members(ids[..n])), n)
  {
    var done := Members(ids[..n]);
    FirstAreSmallest(before, ids, n);
    PrefixIsFillable(codec, before, ids, FillablePrefix(codec, before, ids));
    forall id | id in done
      ensures Repairable(codec, before[id]) && Completed(codec, before[id]) == Repaired(codec, before[id])
    {
      ValidatesIff(codec, before[id]);
    }
    assert RepairsExactly(codec, before, Filled(codec, before, done), done);
  }

  /** All before position k can be repaired exactly when the fillable prefix reaches it. */
  lemma RepairableBelow(codec: Codec, before: Rows, ids: seq<Id>, k: nat)
    requires codec("").None? && ids == MissingInOrder(before) && k < |ids|
    ensures (forall id :: id in IncompleteBelow(before, ids[k]) ==> Repairable(codec, before[id]))
       <==> k <= FillablePrefix(codec, before, ids)
  {
    var done := FillablePrefix(codec, before, ids);
    SmallerOnes(before, ids, k);
    PrefixIsFillable(codec, before, ids, done);
    forall id | id in IncompleteBelow(before, ids[k])
      ensures Repairable(codec, before[id]) <==> Fillable(codec, before, id)
    {
      ValidatesIff(codec, before[id]);
    }
    if done < k {
      assert ids[..k][done] in Members(ids[..k]);
    } else {
      forall id | id in Members(ids[..k]) ensures Fillable(codec, before, id) {
        var j :| 0 <= j < k && ids[..k][j] == id;
      }
    }
  }

  lemma StopsAtPosition(codec: Codec, before: Rows, ids: seq<Id>, maxRows: nat, k: nat)
    requires codec("").None? && ids == MissingInOrder(before) && k < |ids|
    ensures StopsAt(codec, before, maxRows, ids[k]) <==> k == FillablePrefix(codec, before, ids) && k < maxRows
  {
    IncompleteIsMissing(before);
    assert ids[k] in Members(ids);
    SmallerOnes(before, ids, k);
    RepairableBelow(codec, before, ids, k);
    ValidatesIff(codec, before[ids[k]]);
    PrefixIsFillable(codec, before, ids, FillablePrefix(codec, before, ids));
  }

  /** The run stops at the row after those it could fill, if it comes to one. */
  lemma StopsAfterThePrefix(codec: Codec, before: Rows, ids: seq<Id>, maxRows: nat, bad: Id)
    requires codec("").None? && ids == MissingInOrder(before)
    ensures var done := FillablePrefix(codec, before, ids);
            StopsAt(codec, before, maxRows, bad) <==> done < |ids| && done < maxRows && bad == ids[done]
  {
    IncompleteIsMissing(before);
    var done := FillablePrefix(codec, before, ids);
    if done < |ids| {
      StopsAtPosition(codec, before, ids, maxRows, done);
    }
    if bad in Members(ids) {
      var k :| 0 <= k < |ids| && ids[k] == bad;
      StopsAtPosition(codec, before, ids, maxRows, k);
    }
  }

  lemma QuietRunsRepairInOrder(
    codec: Codec, before: Rows, maxRows: nat, after: Rows, updated: int, remaining: int, err: Option<Failure>)
    requires codec("").None? && QuietOutcome(codec, before, maxRows, after, updated, remaining, err)
    ensures RepairsInOrder(codec, before, maxRows, after, updated, remaining, err)
  {
    var ids := MissingInOrder(before);
    var bound := if maxRows < |ids| then maxRows else |ids|;
    var done, all := FillablePrefix(codec, before, ids[..bound]), FillablePrefix(codec, before, ids);
    IncompleteIsMissing(before);
    PrefixOfPrefix(codec, before, ids, bound);
    assert ids[..bound][..done] == ids[..done];
    FilledAreRepaired(codec, before, ids, done);
    forall bad ensures StopsAt(codec, before, maxRows, bad) <==> all < bound && bad == ids[all] {
      StopsAfterThePrefix(codec, before, ids, maxRows, bad);
    }
    if all < bound {
      SmallerOnes(before, ids, all);
      assert StopsAt(codec, before, maxRows, ids[all]);
    }
  }

  lemma SmallerSet(a: set<Id>, b: set<Id>)
    requires a <= b
    ensures |a| <= |b|
  {
    assert |b - a| == |b| - |a|;
  }

  lemma {:induction false} FirstBadRow(codec: Codec, rows: Rows, maxRows: nat, id: Id) returns (bad: Id)
    requires id in Incomplete(rows) && !Repairable(codec, rows[id]) && |IncompleteBelow(rows, id)| < maxRows
    ensures StopsAt(codec, rows, maxRows, bad)
    decreases id
  {
    bad := id;
    if other :| other in IncompleteBelow(rows, id) && !Repairable(codec, rows[other]) {
      SmallerSet(IncompleteBelow(rows, other), IncompleteBelow(rows, id));
      bad := FirstBadRow(codec, rows, maxRows, other);
    }
  }

  /**
   A run succeeds exactly when each of the first maxRows incomplete rows can be repaired. It has then repaired
   those, and leaves only what it was not allowed to do.
   */
  lemma SucceedsIff(
    codec: Codec, before: Rows, maxRows: nat, after: Rows, updated: int, remaining: int, err: Option<Failure>)
    requires RepairsInOrder(codec, before, maxRows, after, updated, remaining, err)
    ensures err.None?
       <==> forall id :: id in before && !Complete(before[id]) && |IncompleteBelow(before, id)| < maxRows ==>
              Repairable(codec, before[id])
    ensures err.None? ==>
      && updated == (if maxRows < |Incomplete(before)| then maxRows else |Incomplete(before)|)
      && remaining == |Incomplete(before)| - updated && RepairsSmallest(codec, before, after, updated)
  {
    if id :| && id in before && !Complete(before[id]) && |IncompleteBelow(before, id)| < maxRows
             && !Repairable(codec, before[id])
    {
      var bad := FirstBadRow(codec, before, maxRows, id);
    }
  }

  lemma OneRowStops(codec: Codec, rows: Rows, maxRows: nat, bad: Id, other: Id)
    requires StopsAt(codec, rows, maxRows, bad) && StopsAt(codec, rows, maxRows, other)
    ensures bad == other
  {
    assert other < bad ==> other in IncompleteBelow(rows, bad);
    assert bad < other ==> bad in IncompleteBelow(rows, other);
  }

  /** An old release's row whose URI decodes to another number of bytes than it counts is never repaired. */
  lemma WrongByteCountIsReported(
    codec: Codec, before: Rows, maxRows: nat, after: Rows, updated: int, remaining: int, err: Option<Failure>, bad: Id)
    requires RepairsInOrder(codec, before, maxRows, after, updated, remaining, err)
    requires bad in before && !Complete(before[bad]) && codec(before[bad].dataUri).Some?
    requires |codec(before[bad].dataUri).value.original| != before[bad].byteCount
    requires |IncompleteBelow(before, bad)| < maxRows
    requires forall id :: id in IncompleteBelow(before, bad) ==> Repairable(codec, before[id])
    ensures err == Some(BadRow(bad))
  {
    assert StopsAt(codec, before, maxRows, bad);
    var other: Id :| StopsAt(codec, before, maxRows, other) && err == Some(BadRow(other));
    OneRowStops(codec, before, maxRows, bad, other);
  }

  /** A run with nothing left to fill leaves the table as it is. */
  lemma RerunChangesNothing(
    codec: Codec, rows: Rows, maxRows: nat, now: Rows, updated: int, remaining: int, err: Option<Failure>)
    requires MissingIds(rows) == {}
    requires QuietOutcome(codec, rows, maxRows, now, updated, remaining, err)
    ensures now == rows && updated == 0 && remaining == 0 && err.None?
  {
  }

  // ---- The backfill ----

  /** The backfill worker a step belongs to, if any. */
  function Worker(a: Action): Option<nat> {
    match a
    case BackfillLock(worker, _) => Some(worker)
    case BackfillCommit(worker) => Some(worker)
    case BackfillAbort(worker) => Some(worker)
    case _ => None
  }

  predicate ByOthers(me: nat, actions: seq<Action>) {
    forall i :: 0 <= i < |actions| ==> Worker(actions[i]) != Some(me)
  }

  lemma StepKeepsOthersLocks(codec: Codec, w: World, a: Action, me: nat)
    requires Worker(a) != Some(me)
    ensures me in w.held <==> me in Step(codec, w, a).held
    ensures me in w.held ==> Step(codec, w, a).held[me] == w.held[me]
    ensures Fills(codec, w, a, me) == 0
  {
  }

  lemma {:induction false} OthersKeepMyLock(codec: Codec, w: World, actions: seq<Action>, me: nat)
    requires ByOthers(me, actions)
    ensures me in w.held <==> me in Run(codec, w, actions).held
    ensures me in w.held ==> Run(codec, w, actions).held[me] == w.held[me]
    ensures FillCount(codec, w, actions, me) == 0
    decreases |actions|
  {
    if actions != [] {
      StepKeepsOthersLocks(codec, w, actions[0], me);
      OthersKeepMyLock(codec, Step(codec, w, actions[0]), actions[1..], me);
    }
  }

  /** 1 for a commit of this worker that writes a validated copy. */
  function Fills(codec: Codec, w: World, a: Action, me: nat): nat {
    if a == BackfillCommit(me) && me in w.held && Validate(codec, w.held[me].1).Some? then 1 else 0
  }

  /** How many rows a worker fills in a run. */
  function FillCount(codec: Codec, w: World, actions: seq<Action>, me: nat): nat
    decreases |actions|
  {
    if actions == [] then 0
    else Fills(codec, w, actions[0], me) + FillCount(codec, Step(codec, w, actions[0]), actions[1..], me)
  }

  lemma {:induction false} RunsCompose(codec: Codec, w: World, first: seq<Action>, then': seq<Action>, me: nat)
    ensures Run(codec, w, first + then') == Run(codec, Run(codec, w, first), then')
    ensures FillCount(codec, w, first + then', me)
         == FillCount(codec, w, first, me) + FillCount(codec, Run(codec, w, first), then', me)
    decreases |first|
  {
    if first == [] {
      assert first + then' == then';
    } else {
      assert (first + then')[1..] == first[1..] + then';
      RunsCompose(codec, Step(codec, w, first[0]), first[1..], then', me);
    }
  }

  /** Each counted commit turns a row that was missing into a complete one. */
  lemma CountedCommitCompletesARow(codec: Codec, w: World, me: nat)
    requires Inv(codec, w) && Fills(codec, w, BackfillCommit(me), me) == 1
    ensures var id := w.held[me].0;
            var w' := Step(codec, w, BackfillCommit(me));
            && id in w.rows && Missing(w.rows[id])
            && w'.rows == FillRow(codec, w.rows, id) && !Missing(w'.rows[id])
            && |MissingIds(w'.rows)| == |MissingIds(w.rows)| - 1
  {
    var id := w.held[me].0;
    assert MissingIds(Step(codec, w, BackfillCommit(me)).rows) == MissingIds(w.rows) - {id};
  }

  class Backfill {
    const codec: Codec
    const me: nat
    /** What other sessions commit between one of our statements and the next. */
    const schedule: nat -> seq<Action>
    /** How many times others commit before a statement gives up waiting for a lock. */
    const patience: nat -> nat
    var world: World
    var tick: nat
    /** Every step taken so far, by anyone, and the database it started from. */
    ghost var origin: World
    ghost var trace: seq<Action>

    ghost predicate Valid()
      reads this
    {
      && world == Run(codec, origin, trace)
      && forall k :: ByOthers(me, schedule(k))
    }

    ghost predicate Idle()
      reads this
    {
      Valid() && me !in world.held
    }

    /** Rows this worker has filled so far. */
    ghost function Filled(): nat
      reads this
    {
      FillCount(codec, origin, trace, me)
    }

    ghost predicate Quiet() {
      forall k :: schedule(k) == []
    }

    constructor (codec: Codec, me: nat, schedule: nat -> seq<Action>, patience: nat -> nat, world: World)
      requires me !in world.held && forall k :: ByOthers(me, schedule(k))
      ensures Idle()
      ensures this.codec == codec && this.me == me && this.schedule == schedule && this.patience == patience
      ensures this.world == this.origin == world && trace == []
    {
      this.codec, this.me, this.schedule, this.patience := codec, me, schedule, patience;
      this.world, this.tick := world, 0;
      this.origin, this.trace := world, [];
    }

    method Interfere()
      requires Valid()
      modifies this
      ensures Valid() && origin == old(origin)
      ensures me in world.held <==> me in old(world.held)
      ensures me in world.held ==> world.held[me] == old(world.held)[me]
      ensures Filled() == old(Filled())
      ensures Quiet() ==> world == old(world)
    {
      var others := schedule(tick);
      OthersKeepMyLock(codec, world, others, me);
      RunsCompose(codec, origin, trace, others, me);
      world, tick := Run(codec, world, others), tick + 1;
      trace := trace + others;
    }

    method Take(a: Action)
      requires Valid()
      modifies this
      ensures Valid() && origin == old(origin)
      ensures world == Step(codec, old(world), a)
      ensures Filled() == old(Filled()) + Fills(codec, old(world), a, me)
    {
      RunsCompose(codec, origin, trace, [a], me);
      assert Run(codec, world, [a]) == Step(codec, world, a);
      assert FillCount(codec, world, [a], me) == Fills(codec, world, a, me);
      world := Step(codec, world, a);
      trace := trace + [a];
    }

    /** Others go on while the statement waits for the row's lock, which it may get or not. */
    method AwaitLock(id: Id) returns (acquired: bool)
      requires Idle()
      modifies this
      ensures Idle() && origin == old(origin) && Filled() == old(Filled())
      ensures acquired ==> !Locked(world, id)
      ensures Quiet() ==> world == old(world) && (acquired <==> !Locked(world, id))
    {
      Interfere();
      var waits := patience(tick);
      while waits > 0 && Locked(world, id)
        invariant Idle() && origin == old(origin) && Filled() == old(Filled())
        invariant Quiet() ==> world == old(world)
      {
        Interfere();
        waits := waits - 1;
      }
      acquired := !Locked(world, id);
    }

    /** One row in its own transaction: lock and read it if it is still missing, validate, fill, commit. */
    method BackfillPhoto(id: Id) returns (r: Result<bool, Failure>)
      requires Idle()
      modifies this
      ensures Idle() && origin == old(origin)
      ensures r.Err? ==> r.error in {LockTimeout(id), BadRow(id)}
      ensures Filled() == old(Filled()) + if r == Ok(true) then 1 else 0
      ensures Quiet() && old(world.held) == map[] && id in old(world.rows) && Missing(old(world.rows)[id]) ==>
        && r == (if Fillable(codec, old(world.rows), id) then Ok(true) else Err(BadRow(id)))
        && world.rows == FillRow(codec, old(world.rows), id) && world.held == map[]
      ensures Quiet() && old(world.held) == map[] && codec("").None? && id in old(world.rows)
              && !Complete(old(world.rows)[id]) ==>
        if Repairable(codec, old(world.rows)[id])
        then r == Ok(true) && world.rows == old(world.rows)[id := Repaired(codec, old(world.rows)[id])]
        else r == Err(BadRow(id)) && world.rows == old(world.rows)
    {
      if codec("").None? && id in world.rows {
        ValidatesIff(codec, world.rows[id]);
      }
      var acquired := AwaitLock(id);
      if !acquired {
        return Err(LockTimeout(id));
      }
      Take(BackfillLock(me, id));
      if me !in world.held {
        return Ok(false);
      }
      var images := Validate(codec, world.held[me].1);
      Interfere();
      Take(BackfillCommit(me));
      r := if images.Some? then Ok(true) else Err(BadRow(id));
    }

    /** The first n of the rows missing at the start have been filled, and nothing else has happened. */
    ghost predicate Progress(start: Rows, ids: seq<Id>, n: nat)
      reads this
    {
      && world.held == map[]
      && n <= FillablePrefix(codec, start, ids)
      && world.rows == FilledInTurn(codec, start, ids, n)
    }

    /** SELECT id of missing rows ORDER BY id LIMIT limit */
    method SelectMissing(limit: nat, ghost start: Rows, ghost ids: seq<Id>, ghost n: nat) returns (batch: seq<Id>)
      requires Idle() && ids == MissingInOrder(start)
      modifies this
      ensures Idle() && origin == old(origin) && Filled() == old(Filled()) && |batch| <= limit
      ensures Quiet() && old(Progress(start, ids, n)) ==>
        && Progress(start, ids, n) && NextOf(ids, n, batch)
        && (|batch| == limit || n + |batch| == |ids|)
    {
      Interfere();
      batch := FirstMissing(world.rows, limit);
      if Progress(start, ids, n) {
        NextBatch(codec, start, ids, n, limit);
      }
    }

    /** SELECT count(*) of missing rows */
    method CountMissing(ghost start: Rows, ghost ids: seq<Id>, ghost n: nat) returns (remaining: int)
      requires Idle() && ids == MissingInOrder(start)
      modifies this
      ensures Idle() && origin == old(origin) && Filled() == old(Filled()) && remaining == |MissingIds(world.rows)|
      ensures Quiet() && old(Progress(start, ids, n)) ==> Progress(start, ids, n) && remaining == |ids| - n
    {
      Interfere();
      if Progress(start, ids, n) {
        StillMissing(codec, start, ids, n);
      }
      remaining := |MissingIds(world.rows)|;
    }

    /** The next row of a batch. */
    method BackfillNext(id: Id, ghost start: Rows, ghost ids: seq<Id>, ghost n: nat, ghost quiet: bool)
      returns (r: Result<bool, Failure>)
      requires Idle() && ids == MissingInOrder(start)
      requires quiet ==> Quiet() && Progress(start, ids, n) && n < |ids| && id == ids[n]
      modifies this
      ensures Idle() && origin == old(origin)
      ensures r.Err? ==> r.error != BadLimits
      ensures Filled() == old(Filled()) + if r == Ok(true) then 1 else 0
      ensures quiet && r.Ok? ==> r == Ok(true) && Progress(start, ids, n + 1)
      ensures quiet && r.Err? ==>
        Progress(start, ids, n) && n == FillablePrefix(codec, start, ids) && r.error == BadRow(id)
    {
      if quiet {
        NextMissing(codec, start, ids, n);
      }
      r := BackfillPhoto(id);
    }

    /** The rows of one batch, in order; a failure ends the run. */
    method BackfillBatch(batch: seq<Id>, ghost start: Rows, ghost ids: seq<Id>, ghost first: nat, ghost quiet: bool)
      returns (processed: nat, updated: nat, err: Option<Failure>)
      requires Idle() && ids == MissingInOrder(start)
      requires quiet ==> Quiet() && Progress(start, ids, first) && NextOf(ids, first, batch)
      modifies this
      ensures Idle() && origin == old(origin)
      ensures updated <= processed <= |batch| && (err.None? ==> processed == |batch|)
      ensures err != Some(BadLimits) && Filled() == old(Filled()) + updated
      ensures quiet ==>
        && processed == updated && Progress(start, ids, first + processed)
        && (err.Some? ==>
              && processed < |batch| && first + processed == FillablePrefix(codec, start, ids)
              && err == Some(BadRow(ids[first + processed])))
    {
      processed, updated, err := 0, 0, None;
      while processed < |batch|
        invariant Idle() && origin == old(origin)
        invariant updated <= processed <= |batch| && Filled() == old(Filled()) + updated && err.None?
        invariant quiet ==> processed == updated && Progress(start, ids, first + processed)
      {
        assert quiet ==> first + processed < |ids| && batch[processed] == ids[first + processed];
        var r := BackfillNext(batch[processed], start, ids, first + processed, quiet);
        if r.Err? {
          err := Some(r.error);
          return;
        }
        processed := processed + 1;
        if r.value {
          updated := updated + 1;
        }
      }
    }

    /** Selects a batch within the limits and fills its rows. */
    method BackfillSome(batchSize: nat, left: nat, ghost start: Rows, ghost ids: seq<Id>, ghost n: nat)
      returns (empty: bool, processed: nat, updated: nat, err: Option<Failure>)
      requires Idle() && ids == MissingInOrder(start) && 0 < batchSize && 0 < left
      modifies this
      ensures Idle() && origin == old(origin)
      ensures updated <= processed <= left && err != Some(BadLimits) && Filled() == old(Filled()) + updated
      ensures empty ==> processed == 0 && err.None?
      ensures !empty && err.None? ==> processed > 0
      ensures Quiet() && old(Progress(start, ids, n)) ==>
        && processed == updated && Progress(start, ids, n + processed) && (empty ==> n == |ids|)
        && (err.Some? ==>
              && processed < left && n + processed < |ids| && n + processed == FillablePrefix(codec, start, ids)
              && err == Some(BadRow(ids[n + processed])))
    {
      var batch := SelectMissing(if batchSize < left then batchSize else left, start, ids, n);
      empty, processed, updated, err := batch == [], 0, 0, None;
      if !empty {
        ghost var quiet := Quiet() && Progress(start, ids, n) && NextOf(ids, n, batch);
        processed, updated, err := BackfillBatch(batch, start, ids, n, quiet);
      }
    }

    /** The loop over batches: until a batch is empty, enough rows were processed, or a row fails. */
    method BackfillBatches(batchSize: nat, maxRows: nat, ghost start: Rows, ghost ids: seq<Id>)
      returns (processed: nat, updated: nat, err: Option<Failure>)
      requires Idle() && ids == MissingInOrder(start) && 0 < batchSize
      modifies this
      ensures Idle() && origin == old(origin)
      ensures updated <= processed <= maxRows && err != Some(BadLimits)
      ensures Filled() == old(Filled()) + updated
      ensures Quiet() && old(Progress(start, ids, 0)) ==>
        && processed == updated && Progress(start, ids, processed)
        && (if err.None? then processed == maxRows || processed == |ids|
            else && processed < maxRows && processed < |ids| && processed == FillablePrefix(codec, start, ids)
                 && err == Some(BadRow(ids[processed])))
    {
      ghost var quiet := Quiet() && Progress(start, ids, 0);
      processed, updated, err := 0, 0, None;
      while processed < maxRows
        invariant Idle() && origin == old(origin)
        invariant updated <= processed <= maxRows && Filled() == old(Filled()) + updated
        invariant quiet ==> processed == updated && Progress(start, ids, processed)
        invariant err.None?
      {
        var empty, filled, changed, failure := BackfillSome(batchSize, maxRows - processed, start, ids, processed);
        processed, updated, err := processed + filled, updated + changed, failure;
        if empty || err.Some? {
          return;
        }
      }
    }

    /** Fills missing rows in batches from the smallest identifier on, at most maxRows of them. */
    method BackfillPhotos(batchSize: int, maxRows: int) returns (updated: int, remaining: int, err: Option<Failure>)
      requires Idle()
      modifies this
      ensures Idle() && origin == old(origin)
      ensures err == Some(BadLimits) <==> !(1 <= batchSize <= 100 && 1 <= maxRows <= 10000)
      ensures err == Some(BadLimits) ==> updated == 0 && world == old(world)
      ensures err != Some(BadLimits) ==> 0 <= updated <= maxRows
      ensures Filled() == old(Filled()) + updated
      ensures err.None? ==> remaining == |MissingIds(world.rows)|
      ensures Quiet() && old(world.held) == map[] && err != Some(BadLimits) ==>
        QuietOutcome(codec, old(world.rows), maxRows, world.rows, updated, remaining, err)
      ensures Quiet() && old(world.held) == map[] && err != Some(BadLimits) && codec("").None? ==>
        RepairsInOrder(codec, old(world.rows), maxRows, world.rows, updated, remaining, err)
    {
      if batchSize < 1 || batchSize > 100 || maxRows < 1 || maxRows > 10000 {
        return 0, 0, Some(BadLimits);
      }
      ghost var start, ids, quiet := world.rows, MissingInOrder(world.rows), Quiet() && world.held == map[];
      var processed;
      processed, updated, err := BackfillBatches(batchSize, maxRows, start, ids);
      remaining := 0;
      if err.None? {
        remaining := CountMissing(start, ids, processed);
      }
      if quiet {
        FillingInTurnIsTheOutcome(codec, start, ids, maxRows, processed, remaining, err);
        if codec("").None? {
          QuietRunsRepairInOrder(codec, start, maxRows, world.rows, updated, remaining, err);
        }
      }
    }
  }
}
