/**
 Newest-first visit lists: the order, a visit's position in it, and the pages of the dines list, in
 the memory store and as the queries the Postgres store runs.
 */
module VisitPages {
  import opened Wrappers
  import opened Ledger
  import opened FilterSql
  import Calendar
  import Folds
  import Text

  // ---- The order ----

  /** a is listed before b: later visit first, then later entry, then smaller identifier. */
  predicate Newer(a: Visit, b: Visit) {
    if a.visitedAt != b.visitedAt then a.visitedAt > b.visitedAt
    else if a.createdAt != b.createdAt then a.createdAt > b.createdAt
    else a.id < b.id
  }

  predicate DistinctIds(visits: seq<Visit>) {
    forall i, j :: 0 <= i < j < |visits| ==> visits[i].id != visits[j].id
  }

  lemma NewerIsAStrictTotalOrder(a: Visit, b: Visit, c: Visit)
    ensures !Newer(a, a)
    ensures !(Newer(a, b) && Newer(b, a))
    ensures Newer(a, b) && Newer(b, c) ==> Newer(a, c)
    ensures a.id != b.id ==> Newer(a, b) || Newer(b, a)
  {
  }

  predicate Sorted(visits: seq<Visit>) {
    forall i, j :: 0 <= i < j < |visits| ==> Newer(visits[i], visits[j])
  }

  function Inserted(v: Visit, sorted: seq<Visit>): (r: seq<Visit>)
    ensures multiset(r) == multiset(sorted) + multiset{v}
  {
    if sorted == [] || Newer(v, sorted[0]) then [v] + sorted
    else
      assert sorted == [sorted[0]] + sorted[1..];
      [sorted[0]] + Inserted(v, sorted[1..])
  }

  /** sortVisitsNewestFirst, whose library sort may use any algorithm: see SortedListIsUnique. */
  function NewestFirst(visits: seq<Visit>): (r: seq<Visit>)
    ensures multiset(r) == multiset(visits)
  {
    if visits == [] then []
    else
      assert visits == [visits[0]] + visits[1..];
      Inserted(visits[0], NewestFirst(visits[1..]))
  }

  lemma {:induction false} InsertedIsSorted(v: Visit, sorted: seq<Visit>)
    requires Sorted(sorted) && forall i :: 0 <= i < |sorted| ==> sorted[i].id != v.id
    ensures Sorted(Inserted(v, sorted))
  {
    if sorted != [] && !Newer(v, sorted[0]) {
      var rest := Inserted(v, sorted[1..]);
      InsertedIsSorted(v, sorted[1..]);
      forall i | 0 <= i < |rest| ensures Newer(sorted[0], rest[i]) {
        assert rest[i] in multiset(rest);
        assert rest[i] == v || rest[i] in sorted[1..];
      }
    }
  }

  lemma {:induction false} NewestFirstIsSorted(visits: seq<Visit>)
    requires DistinctIds(visits)
    ensures Sorted(NewestFirst(visits))
  {
    if visits != [] {
      var rest := NewestFirst(visits[1..]);
      NewestFirstIsSorted(visits[1..]);
      forall i | 0 <= i < |rest| ensures rest[i].id != visits[0].id {
        assert rest[i] in multiset(rest);
        assert rest[i] in visits[1..];
      }
      InsertedIsSorted(visits[0], rest);
    }
  }

  /**
   Read from the top, dates never ascend; on equal dates times of entry never do; where both are equal,
   identifiers never descend.
   */
  ghost predicate ReadsNewestFirst(visits: seq<Visit>) {
    forall i, j :: 0 <= i < j < |visits| ==> NotOlder(visits[i], visits[j])
  }

  predicate NotOlder(a: Visit, b: Visit) {
    && a.visitedAt >= b.visitedAt
    && (a.visitedAt == b.visitedAt ==> a.createdAt >= b.createdAt)
    && (a.visitedAt == b.visitedAt && a.createdAt == b.createdAt ==> a.id <= b.id)
  }

  lemma {:induction false} InsertedReadsNewestFirst(v: Visit, sorted: seq<Visit>)
    requires ReadsNewestFirst(sorted)
    ensures ReadsNewestFirst(Inserted(v, sorted))
  {
    if sorted != [] && !Newer(v, sorted[0]) {
      var rest := Inserted(v, sorted[1..]);
      InsertedReadsNewestFirst(v, sorted[1..]);
      forall i | 0 <= i < |rest| ensures NotOlder(sorted[0], rest[i]) {
        assert rest[i] in multiset(rest);
        assert rest[i] == v || rest[i] in sorted[1..];
      }
    }
  }

  lemma {:induction false} NewestFirstReadsSo(visits: seq<Visit>)
    ensures ReadsNewestFirst(NewestFirst(visits))
  {
    if visits != [] {
      NewestFirstReadsSo(visits[1..]);
      InsertedReadsNewestFirst(visits[0], NewestFirst(visits[1..]));
    }
  }

  /** Any two sorted arrangements of the same visits are the same list. */
  lemma {:induction false} SortedListIsUnique(a: seq<Visit>, b: seq<Visit>)
    requires Sorted(a) && Sorted(b) && multiset(a) == multiset(b)
    ensures a == b
  {
    assert |a| == |multiset(a)| == |multiset(b)| == |b|;
    if a != [] {
      SameFirst(a, b);
      WithoutFirst(a);
      WithoutFirst(b);
      SortedListIsUnique(a[1..], b[1..]);
    }
  }

  lemma SameFirst(a: seq<Visit>, b: seq<Visit>)
    requires Sorted(a) && Sorted(b) && multiset(a) == multiset(b) && a != [] && b != []
    ensures a[0] == b[0]
  {
    SameMembers(a, b, a[0]);
    SameMembers(a, b, b[0]);
  }

  lemma WithoutFirst(a: seq<Visit>)
    requires a != []
    ensures a == [a[0]] + a[1..] && multiset(a[1..]) == multiset(a) - multiset{a[0]}
  {
    assert a == [a[0]] + a[1..];
  }

  lemma SameMembers(a: seq<Visit>, b: seq<Visit>, v: Visit)
    requires multiset(a) == multiset(b)
    ensures v in a <==> v in b
  {
    assert v in multiset(a) <==> v in multiset(b);
  }

  // ---- Position ----

  /** The counting query: how many rows are strictly newer than the visit. */
  function NewerRows(table: seq<Visit>, t: Visit): set<Visit> {
    set v | v in table && Newer(v, t)
  }

  lemma {:induction false} MembersOfDistinct(visits: seq<Visit>)
    requires DistinctIds(visits)
    ensures |set v | v in visits| == |visits|
  {
    if visits != [] {
      MembersOfDistinct(visits[1..]);
      assert (set v | v in visits) == {visits[0]} + (set v | v in visits[1..]);
    }
  }

  lemma SortedHasDistinctIds(visits: seq<Visit>, table: seq<Visit>)
    requires DistinctIds(table) && multiset(visits) == multiset(table) && Sorted(visits)
    ensures DistinctIds(visits)
  {
    forall i, j | 0 <= i < j < |visits| ensures visits[i].id != visits[j].id {
      SameMembers(visits, table, visits[i]);
      SameMembers(visits, table, visits[j]);
    }
  }

  /** The count of newer rows is the visit's index in the sorted list. */
  lemma CountOfNewerRowsIsTheIndex(table: seq<Visit>, i: nat)
    requires DistinctIds(table) && i < |table|
    ensures |NewestFirst(table)| == |table|
    ensures |NewerRows(table, NewestFirst(table)[i])| == i
  {
    var list := NewestFirst(table);
    assert |list| == |multiset(list)| == |multiset(table)|;
    NewestFirstIsSorted(table);
    SortedHasDistinctIds(list, table);
    forall v ensures v in NewerRows(table, list[i]) <==> v in list[..i] {
      SameMembers(list, table, v);
      if v in list && Newer(v, list[i]) {
        var k :| 0 <= k < |list| && list[k] == v;
        assert k < i;
      }
    }
    assert NewerRows(table, list[i]) == set v | v in list[..i];
    MembersOfDistinct(list[..i]);
  }

  /** VisitPosition as the query answers it: no row for an unknown identifier. */
  function SqlVisitPosition(table: seq<Visit>, id: Id): Option<nat> {
    if exists i :: 0 <= i < |table| && table[i].id == id then
      var i := IndexOfId(table, id);
      Some(|NewerRows(table, table[i])|)
    else None
  }

  function IndexOfId(table: seq<Visit>, id: Id): (i: nat)
    requires exists i :: 0 <= i < |table| && table[i].id == id
    ensures i < |table| && table[i].id == id
  {
    if table[0].id == id then 0
    else
      assert exists i :: 0 <= i < |table[1..]| && table[1..][i].id == id by {
        var i :| 0 <= i < |table| && table[i].id == id;
        assert table[1..][i - 1].id == id;
      }
      IndexOfId(table[1..], id) + 1
  }

  /** MemoryStore.VisitPosition: sort a copy and search it. */
  method VisitPosition(visits: seq<Visit>, id: Id) returns (position: nat, found: bool)
    requires DistinctIds(visits)
    ensures found <==> SqlVisitPosition(visits, id).Some?
    ensures found ==> SqlVisitPosition(visits, id) == Some(position)
    ensures found ==> position < |NewestFirst(visits)| && NewestFirst(visits)[position].id == id
    ensures found ==> exists t :: t in visits && t.id == id
    ensures found ==> forall t :: t in visits && t.id == id ==>
      position == |set v | v in visits
                      && (v.visitedAt > t.visitedAt
                          || (v.visitedAt == t.visitedAt && v.createdAt > t.createdAt)
                          || (v.visitedAt == t.visitedAt && v.createdAt == t.createdAt && v.id < t.id))|
  {
    var sorted := NewestFirst(visits);
    position, found := FindId(sorted, id);
    if found {
      FoundAt(visits, sorted, position, id);
      forall t | t in visits && t.id == id
        ensures NewerRows(visits, t) == NewerRows(visits, sorted[position])
        ensures NewerRows(visits, t)
                == set v | v in visits
                     && (v.visitedAt > t.visitedAt
                         || (v.visitedAt == t.visitedAt && v.createdAt > t.createdAt)
                         || (v.visitedAt == t.visitedAt && v.createdAt == t.createdAt && v.id < t.id))
      {
        SameMembers(sorted, visits, sorted[position]);
        assert t == sorted[position];
      }
      SameMembers(sorted, visits, sorted[position]);
    } else {
      FoundNowhere(visits, sorted, id);
      position := 0;
    }
  }

  method FindId(visits: seq<Visit>, id: Id) returns (position: nat, found: bool)
    ensures found ==> position < |visits| && visits[position].id == id
    ensures !found ==> forall k :: 0 <= k < |visits| ==> visits[k].id != id
  {
    position := 0;
    while position < |visits|
      invariant position <= |visits|
      invariant forall k :: 0 <= k < position ==> visits[k].id != id
    {
      if visits[position].id == id {
        return position, true;
      }
      position := position + 1;
    }
    found := false;
  }

  lemma FoundAt(visits: seq<Visit>, sorted: seq<Visit>, position: nat, id: Id)
    requires DistinctIds(visits) && sorted == NewestFirst(visits) && position < |sorted| && sorted[position].id == id
    ensures SqlVisitPosition(visits, id) == Some(position)
  {
    assert |sorted| == |multiset(sorted)| == |multiset(visits)| == |visits|;
    SameMembers(sorted, visits, sorted[position]);
    assert sorted[position] == visits[IndexOfId(visits, id)];
    CountOfNewerRowsIsTheIndex(visits, position);
  }

  lemma FoundNowhere(visits: seq<Visit>, sorted: seq<Visit>, id: Id)
    requires sorted == NewestFirst(visits) && forall k :: 0 <= k < |sorted| ==> sorted[k].id != id
    ensures SqlVisitPosition(visits, id).None?
  {
    forall i | 0 <= i < |visits| ensures visits[i].id != id {
      SameMembers(sorted, visits, visits[i]);
    }
  }

  // ---- Pages ----

  function WithoutImages(photo: Photo): Photo {
    photo.(dataUri := "", original := [], thumbnail := [])
  }

  /** A visit as lists carry it: photo metadata without image data. */
  function Listed(visit: Visit): Visit {
    visit.(photos := seq(|visit.photos|, i requires 0 <= i < |visit.photos| => WithoutImages(visit.photos[i])))
  }

  function ListedAll(visits: seq<Visit>): (r: seq<Visit>)
    ensures |r| == |visits|
    ensures forall i :: 0 <= i < |visits| ==> r[i] == Listed(visits[i])
  {
    seq(|visits|, i requires 0 <= i < |visits| => Listed(visits[i]))
  }

  function Matching(visits: seq<Visit>, keep: Visit -> bool): (r: seq<Visit>)
    ensures forall v :: v in r <==> v in visits && keep(v)
  {
    if visits == [] then []
    else
      var rest := Matching(visits[1..], keep);
      assert visits == [visits[0]] + visits[1..];
      if keep(visits[0]) then [visits[0]] + rest else rest
  }

  lemma {:induction false} MatchingAppends(visits: seq<Visit>, v: Visit, keep: Visit -> bool)
    ensures Matching(visits + [v], keep) == Matching(visits, keep) + if keep(v) then [v] else []
  {
    if visits != [] {
      assert (visits + [v])[1..] == visits[1..] + [v];
      MatchingAppends(visits[1..], v, keep);
    } else {
      assert (visits + [v])[1..] == [];
    }
  }

  function OnlyIf(keep: Visit -> bool): Visit -> Option<Visit> {
    (v: Visit) => if keep(v) then Some(v) else None
  }

  /** The matching visits, each as often as it is listed, in the order of the list. */
  lemma {:induction false} MatchingInOrder(visits: seq<Visit>, keep: Visit -> bool) returns (places: seq<nat>)
    ensures Folds.Follows(Matching(visits, keep), visits, OnlyIf(keep), places)
  {
    places := [];
    if visits != [] {
      var n := |visits| - 1;
      assert visits == visits[..n] + [visits[n]];
      MatchingAppends(visits[..n], visits[n], keep);
      places := MatchingInOrder(visits[..n], keep);
      places := Folds.FollowsOneMore(Matching(visits[..n], keep), visits, OnlyIf(keep), places);
    }
  }

  /** The visits from offset on, at most limit of them; a limit of zero or less takes them all. */
  function Slice(visits: seq<Visit>, limit: int, offset: int): seq<Visit> {
    var start := if offset < 0 then 0 else if offset > |visits| then |visits| else offset;
    var rest := visits[start..];
    if 0 < limit < |rest| then rest[..limit] else rest
  }

  function PageOf(zone: Calendar.Zone, visits: seq<Visit>, filter: VisitFilter, limit: int, offset: int): seq<Visit> {
    ListedAll(Slice(NewestFirst(Matching(visits, v => VisitMatches(zone, v, filter))), limit, offset))
  }

  method MatchingVisits(zone: Calendar.Zone, visits: seq<Visit>, filter: VisitFilter) returns (matching: seq<Visit>)
    ensures matching == Matching(visits, v => VisitMatches(zone, v, filter))
  {
    ghost var keep := v => VisitMatches(zone, v, filter);
    matching := [];
    for i := 0 to |visits|
      invariant matching == Matching(visits[..i], keep)
    {
      MatchingAppends(visits[..i], visits[i], keep);
      assert visits[..i] + [visits[i]] == visits[..i + 1];
      if VisitMatches(zone, visits[i], filter) {
        matching := matching + [visits[i]];
      }
    }
    assert visits[..|visits|] == visits;
  }

  /** The visit as it is, its photos without image data. */
  predicate IsWithoutImages(listed: Visit, v: Visit) {
    && listed.(photos := v.photos) == v && |listed.photos| == |v.photos|
    && forall i :: 0 <= i < |v.photos| ==>
         var photo := listed.photos[i];
         && photo.dataUri == "" && photo.original == [] && photo.thumbnail == []
         && photo.id == v.photos[i].id && photo.visitId == v.photos[i].visitId
         && photo.byteCount == v.photos[i].byteCount && photo.sortOrder == v.photos[i].sortOrder
         && photo.createdAt == v.photos[i].createdAt
  }

  /** Every visit on the page is one that matches, without images. */
  ghost predicate ShowsMatches(visits: seq<Visit>, matches: Visit -> bool, page: seq<Visit>) {
    forall i :: 0 <= i < |page| ==> ShowsSomeMatch(visits, matches, page[i])
  }

  ghost predicate ShowsSomeMatch(visits: seq<Visit>, matches: Visit -> bool, listed: Visit) {
    exists v :: ShowsMatch(visits, matches, listed, v)
  }

  predicate ShowsMatch(visits: seq<Visit>, matches: Visit -> bool, listed: Visit, v: Visit) {
    v in visits && matches(v) && IsWithoutImages(listed, v)
  }

  lemma ListedShows(visits: seq<Visit>, matches: Visit -> bool, v: Visit)
    requires v in visits && matches(v)
    ensures ShowsMatch(visits, matches, Listed(v), v)
  {
  }

  lemma AllListedShow(visits: seq<Visit>, matches: Visit -> bool, some: seq<Visit>)
    requires forall v :: v in some ==> v in visits && matches(v)
    ensures ShowsMatches(visits, matches, ListedAll(some))
  {
    var page := ListedAll(some);
    forall i | 0 <= i < |page| ensures ShowsSomeMatch(visits, matches, page[i]) {
      assert some[i] in some;
      ListedShows(visits, matches, some[i]);
    }
  }

  /** How many of n elements there are from an offset on, at most limit of them. */
  function WindowSize(n: nat, limit: int, offset: int): int {
    var left := if offset <= 0 then n else if offset >= n then 0 else n - offset;
    if limit <= 0 || left <= limit then left else limit
  }

  lemma SliceIsAWindow(visits: seq<Visit>, limit: int, offset: int)
    ensures |Slice(visits, limit, offset)| == WindowSize(|visits|, limit, offset)
    ensures forall v :: v in Slice(visits, limit, offset) ==> v in visits
  {
  }

  lemma WindowReadsNewestFirst(visits: seq<Visit>, limit: int, offset: int)
    ensures ReadsNewestFirst(ListedAll(Slice(NewestFirst(visits), limit, offset)))
  {
    NewestFirstReadsSo(visits);
  }

  lemma WindowShowsMatches(visits: seq<Visit>, matches: Visit -> bool, limit: int, offset: int)
    ensures var page := ListedAll(Slice(NewestFirst(Matching(visits, matches)), limit, offset));
            && ShowsMatches(visits, matches, page)
            && |page| == WindowSize(|Matching(visits, matches)|, limit, offset)
  {
    var matching := Matching(visits, matches);
    var sorted := NewestFirst(matching);
    var slice := Slice(sorted, limit, offset);
    assert |sorted| == |multiset(sorted)| == |multiset(matching)| == |matching|;
    SliceIsAWindow(sorted, limit, offset);
    forall v | v in slice ensures v in visits && matches(v) {
      SameMembers(sorted, matching, v);
    }
    AllListedShow(visits, matches, slice);
  }

  /** Drops the image data from the visits of a list, one after another. */
  method StripImages(visits: seq<Visit>) returns (listed: seq<Visit>)
    ensures listed == ListedAll(visits)
  {
    listed := visits;
    for i := 0 to |listed|
      invariant |listed| == |visits|
      invariant forall k :: 0 <= k < i ==> listed[k] == Listed(visits[k])
      invariant forall k :: i <= k < |listed| ==> listed[k] == visits[k]
    {
      listed := listed[i := Listed(listed[i])];
    }
    assert listed == ListedAll(visits);
  }

  /** MemoryStore.VisitsPage */
  method VisitsPage(zone: Calendar.Zone, visits: seq<Visit>, filter: VisitFilter, limit: int, offset: int)
    returns (page: seq<Visit>)
    ensures page == PageOf(zone, visits, filter, limit, offset)
    ensures ReadsNewestFirst(page) && ShowsMatches(visits, v => VisitMatches(zone, v, filter), page)
    ensures |page| == WindowSize(|Matching(visits, v => VisitMatches(zone, v, filter))|, limit, offset)
  {
    WindowShowsMatches(visits, v => VisitMatches(zone, v, filter), limit, offset);
    WindowReadsNewestFirst(Matching(visits, v => VisitMatches(zone, v, filter)), limit, offset);
    var matching := MatchingVisits(zone, visits, filter);
    page := NewestFirst(matching);
    var start := if offset < 0 then 0 else offset;
    page := page[if start > |page| then |page| else start..];
    if limit > 0 && |page| > limit {
      page := page[..limit];
    }
    page := StripImages(page);
  }

  /** VisitsPage as a query: the clause's arguments, then OFFSET $n, then LIMIT $n when there is one. */
  datatype PageQuery = PageQuery(conditions: seq<Clause>, args: seq<Value>, offsetParam: nat, limitParam: Option<nat>)

  method SqlVisitsPage(zone: Calendar.Zone, filter: VisitFilter, limit: int, offset: int) returns (q: PageQuery)
    ensures q == PageQueryOf(zone, filter, limit, offset)
  {
    var where, args := VisitFilterSql(zone, filter);
    args := args + [CountValue(if offset < 0 then 0 else offset)];
    q := PageQuery(where, args, |args|, None);
    if limit > 0 {
      args := args + [CountValue(limit)];
      q := q.(args := args, limitParam := Some(|args|));
    }
  }

  function PageQueryOf(zone: Calendar.Zone, filter: VisitFilter, limit: int, offset: int): PageQuery {
    var compiled := Compile(zone, filter);
    var args := compiled.args + [CountValue(if offset < 0 then 0 else offset)];
    if limit > 0 then PageQuery(compiled.conditions, args + [CountValue(limit)], |args|, Some(|args| + 1))
    else PageQuery(compiled.conditions, args, |args|, None)
  }

  function RowOf(visit: Visit): VisitRow {
    VisitRow(visit.id, visit.visitedAt, if visit.picker.Some? then Some(visit.picker.value.id) else None,
             visit.restaurant.category, visit.restaurant.city)
  }

  /** An integer parameter; a LIMIT that names none would be LIMIT NULL, which keeps every row. */
  function IntParam(args: seq<Value>, n: nat): int {
    match Eval(Param(n), VisitRow(0, 0, None, None, None), args)
    case CountValue(k) => k
    case _ => 0
  }

  function Run(q: PageQuery, table: seq<Visit>, tables: Tables): seq<Visit> {
    var rows := NewestFirst(Matching(table, v => Selects(Query(q.conditions, q.args), RowOf(v), tables)));
    var start := IntParam(q.args, q.offsetParam);
    var rest := rows[if start < 0 then 0 else if start > |rows| then |rows| else start..];
    match q.limitParam
    case None => ListedAll(rest)
    case Some(n) =>
      var limit := IntParam(q.args, n);
      ListedAll(if 0 <= limit < |rest| then rest[..limit] else rest)
  }

  ghost predicate StoredIn(table: seq<Visit>, tables: Tables) {
    forall v :: v in table ==>
      Stores(tables, RowOf(v), v) && TrimsAlike(v.restaurant.category) && TrimsAlike(v.restaurant.city)
  }

  lemma {:induction false} MatchingSame(visits: seq<Visit>, keep: Visit -> bool, keep': Visit -> bool)
    requires forall v :: v in visits ==> keep(v) == keep'(v)
    ensures Matching(visits, keep) == Matching(visits, keep')
  {
    if visits != [] {
      MatchingSame(visits[1..], keep, keep');
    }
  }

  lemma PageQuerySelects(zone: Calendar.Zone, tables: Tables, filter: VisitFilter, more: seq<Value>, v: Visit)
    requires Calendar.SteadyNewYears(zone)
    requires Stores(tables, RowOf(v), v) && TrimsAlike(v.restaurant.category) && TrimsAlike(v.restaurant.city)
    ensures var compiled := Compile(zone, filter);
            Selects(Query(compiled.conditions, compiled.args + more), RowOf(v), tables)
            <==> VisitMatches(zone, v, filter)
  {
    var compiled := Compile(zone, filter);
    CompiledClauseIsTheFilter(zone, filter, RowOf(v), tables, v);
    WhereIgnoresLaterArgs(compiled.conditions, RowOf(v), tables, compiled.args, more);
  }

  lemma PageParams(zone: Calendar.Zone, filter: VisitFilter, limit: int, offset: int) returns (more: seq<Value>)
    ensures var q := PageQueryOf(zone, filter, limit, offset);
            && q.conditions == Compile(zone, filter).conditions
            && q.args == Compile(zone, filter).args + more
            && IntParam(q.args, q.offsetParam) == (if offset < 0 then 0 else offset)
            && (if limit > 0 then q.limitParam.Some? && IntParam(q.args, q.limitParam.value) == limit
                else q.limitParam.None?)
  {
    var from := CountValue(if offset < 0 then 0 else offset);
    more := if limit > 0 then [from, CountValue(limit)] else [from];
    var args := Compile(zone, filter).args;
    assert args + [from] + [CountValue(limit)] == args + [from, CountValue(limit)];
  }

  /** Running the page query over the stored rows lists the page the memory store lists. */
  lemma PageQueryListsThePage(
    zone: Calendar.Zone, table: seq<Visit>, tables: Tables, filter: VisitFilter, limit: int, offset: int)
    requires Calendar.SteadyNewYears(zone) && StoredIn(table, tables)
    ensures Run(PageQueryOf(zone, filter, limit, offset), table, tables) == PageOf(zone, table, filter, limit, offset)
  {
    var more := PageParams(zone, filter, limit, offset);
    var q := PageQueryOf(zone, filter, limit, offset);
    var selects := v => Selects(Query(q.conditions, q.args), RowOf(v), tables);
    var matches := v => VisitMatches(zone, v, filter);
    forall v | v in table ensures selects(v) == matches(v) {
      PageQuerySelects(zone, tables, filter, more, v);
    }
    MatchingSame(table, selects, matches);
    SameRowsSamePage(q, table, tables, matches, limit, offset);
  }

  lemma SameRowsSamePage(
    q: PageQuery, table: seq<Visit>, tables: Tables, matches: Visit -> bool, limit: int, offset: int)
    requires Matching(table, v => Selects(Query(q.conditions, q.args), RowOf(v), tables)) == Matching(table, matches)
    requires IntParam(q.args, q.offsetParam) == if offset < 0 then 0 else offset
    requires if limit > 0 then q.limitParam.Some? && IntParam(q.args, q.limitParam.value) == limit
             else q.limitParam.None?
    ensures Run(q, table, tables) == ListedAll(Slice(NewestFirst(Matching(table, matches)), limit, offset))
  {
  }

  const PAGE_SIZE := 20
  const MAX_PAGE := 100000

  function PageCount(matched: nat): nat {
    var n := (matched + PAGE_SIZE - 1) / PAGE_SIZE;
    if n > 1 then n else 1
  }

  /** Dines: the visits on a page, or nothing for a page number that is invalid or past the last page. */
  function Dines(zone: Calendar.Zone, visits: seq<Visit>, filter: VisitFilter, page: int): Option<seq<Visit>> {
    var matched := |Matching(visits, v => VisitMatches(zone, v, filter))|;
    if page < 1 || page > MAX_PAGE || page > PageCount(matched) then None
    else if matched == 0 then Some([])
    else Some(PageOf(zone, visits, filter, PAGE_SIZE, (page - 1) * PAGE_SIZE))
  }

  /** The first n of numbered pages, one after another. */
  function Joined(pages: nat -> seq<Visit>, n: nat): seq<Visit> {
    if n == 0 then [] else Joined(pages, n - 1) + pages(n - 1)
  }

  lemma {:induction false} JoinedAgree(pages: nat -> seq<Visit>, pages': nat -> seq<Visit>, n: nat)
    requires forall k :: 0 <= k < n ==> pages(k) == pages'(k)
    ensures Joined(pages, n) == Joined(pages', n)
  {
    if n > 0 {
      JoinedAgree(pages, pages', n - 1);
    }
  }

  lemma {:induction false} EmptyPagesAddNothing(pages: nat -> seq<Visit>, served: nat, n: nat)
    requires served <= n && forall k :: served <= k < n ==> pages(k) == []
    ensures Joined(pages, n) == Joined(pages, served)
  {
    if served < n {
      EmptyPagesAddNothing(pages, served, n - 1);
    }
  }

  /** What each page number serves, from page 1 on. */
  function Pages(zone: Calendar.Zone, visits: seq<Visit>, filter: VisitFilter): nat -> seq<Visit> {
    (k: nat) => Dines(zone, visits, filter, k + 1).GetOr([])
  }

  /** Pages 1 to n, one after another. */
  function FirstPages(zone: Calendar.Zone, visits: seq<Visit>, filter: VisitFilter, n: nat): seq<Visit> {
    Joined(Pages(zone, visits, filter), n)
  }

  function WholeList(zone: Calendar.Zone, visits: seq<Visit>, filter: VisitFilter): seq<Visit> {
    ListedAll(NewestFirst(Matching(visits, v => VisitMatches(zone, v, filter))))
  }

  lemma WholeListLength(zone: Calendar.Zone, visits: seq<Visit>, filter: VisitFilter)
    ensures |WholeList(zone, visits, filter)| == |Matching(visits, v => VisitMatches(zone, v, filter))|
  {
    var m := Matching(visits, v => VisitMatches(zone, v, filter));
    assert |NewestFirst(m)| == |multiset(NewestFirst(m))| == |multiset(m)|;
  }

  /** The part of a list that ends before element n. */
  function Upto(list: seq<Visit>, n: nat): seq<Visit> {
    list[..if n < |list| then n else |list|]
  }

  function PageSlice(list: seq<Visit>, page: int): seq<Visit>
    requires 1 <= page
  {
    Upto(list[|Upto(list, (page - 1) * PAGE_SIZE)|..], PAGE_SIZE)
  }

  lemma PageIsASlice(zone: Calendar.Zone, visits: seq<Visit>, filter: VisitFilter, page: int)
    requires Dines(zone, visits, filter, page).Some?
    ensures Dines(zone, visits, filter, page).value == PageSlice(WholeList(zone, visits, filter), page)
  {
    WholeListLength(zone, visits, filter);
    ListedSlice(NewestFirst(Matching(visits, v => VisitMatches(zone, v, filter))), page);
  }

  lemma ListedSlice(sorted: seq<Visit>, page: int)
    requires 1 <= page
    ensures ListedAll(Slice(sorted, PAGE_SIZE, (page - 1) * PAGE_SIZE)) == PageSlice(ListedAll(sorted), page)
  {
    var from := |Upto(sorted, (page - 1) * PAGE_SIZE)|;
    assert Slice(sorted, PAGE_SIZE, (page - 1) * PAGE_SIZE) == Upto(sorted[from..], PAGE_SIZE);
  }

  lemma NextSlice(list: seq<Visit>, n: nat)
    requires n > 0
    ensures Upto(list, (n - 1) * PAGE_SIZE) + PageSlice(list, n) == Upto(list, n * PAGE_SIZE)
  {
  }

  function Slices(list: seq<Visit>): nat -> seq<Visit> {
    (k: nat) => PageSlice(list, k + 1)
  }

  lemma {:induction false} SlicesArePrefix(list: seq<Visit>, n: nat)
    ensures Joined(Slices(list), n) == Upto(list, n * PAGE_SIZE)
  {
    if n > 0 {
      SlicesArePrefix(list, n - 1);
      NextSlice(list, n);
    }
  }

  lemma PageIsThere(zone: Calendar.Zone, visits: seq<Visit>, filter: VisitFilter, page: int)
    requires 1 <= page <= PageCount(|WholeList(zone, visits, filter)|) && page <= MAX_PAGE
    ensures Dines(zone, visits, filter, page) == Some(PageSlice(WholeList(zone, visits, filter), page))
  {
    WholeListLength(zone, visits, filter);
    PageIsASlice(zone, visits, filter, page);
  }

  lemma ServedPagesAreAPrefix(zone: Calendar.Zone, visits: seq<Visit>, filter: VisitFilter, n: nat)
    requires n <= PageCount(|WholeList(zone, visits, filter)|) && n <= MAX_PAGE
    ensures FirstPages(zone, visits, filter, n) == Upto(WholeList(zone, visits, filter), n * PAGE_SIZE)
  {
    var list := WholeList(zone, visits, filter);
    var pages, slices := Pages(zone, visits, filter), Slices(list);
    forall k | 0 <= k < n ensures pages(k) == slices(k) {
      PageIsThere(zone, visits, filter, k + 1);
    }
    JoinedAgree(pages, slices, n);
    SlicesArePrefix(list, n);
  }

  /** How many of the first n page numbers are served. */
  function ServedOf(n: nat, matched: nat): nat {
    if n <= PageCount(matched) && n <= MAX_PAGE then n
    else if PageCount(matched) < MAX_PAGE then PageCount(matched) else MAX_PAGE
  }

  lemma OtherPagesAreEmpty(zone: Calendar.Zone, visits: seq<Visit>, filter: VisitFilter, k: nat)
    requires k >= PageCount(|WholeList(zone, visits, filter)|) || k >= MAX_PAGE
    ensures Pages(zone, visits, filter)(k) == []
  {
    WholeListLength(zone, visits, filter);
  }

  lemma FirstPagesAre(zone: Calendar.Zone, visits: seq<Visit>, filter: VisitFilter, n: nat)
    ensures FirstPages(zone, visits, filter, n)
            == Upto(WholeList(zone, visits, filter), ServedOf(n, |WholeList(zone, visits, filter)|) * PAGE_SIZE)
  {
    var pages, served := Pages(zone, visits, filter), ServedOf(n, |WholeList(zone, visits, filter)|);
    ServedPagesAreAPrefix(zone, visits, filter, served);
    forall k | served <= k < n ensures pages(k) == [] {
      OtherPagesAreEmpty(zone, visits, filter, k);
    }
    EmptyPagesAddNothing(pages, served, n);
  }

  /** The pages, read in order, list every matching visit once, newest first, exactly when all of them are served. */
  lemma PagesListEverything(zone: Calendar.Zone, visits: seq<Visit>, filter: VisitFilter)
    ensures FirstPages(zone, visits, filter, PageCount(|WholeList(zone, visits, filter)|))
            == WholeList(zone, visits, filter)
       <==> PageCount(|WholeList(zone, visits, filter)|) <= MAX_PAGE
  {
    var list := WholeList(zone, visits, filter);
    FirstPagesAre(zone, visits, filter, PageCount(|list|));
    if PageCount(|list|) > MAX_PAGE {
      assert |Upto(list, MAX_PAGE * PAGE_SIZE)| < |list|;
    }
  }

  /** Page numbers run from 1 to at most 100000, with 20 visits on each but the last, which has what is left. */
  lemma PagesHaveTwenty(zone: Calendar.Zone, visits: seq<Visit>, filter: VisitFilter, page: int)
    ensures var n := |WholeList(zone, visits, filter)|;
            && (Dines(zone, visits, filter, page).Some?
                <==> 1 <= page <= 100000 && (page == 1 || (page - 1) * 20 < n))
            && (Dines(zone, visits, filter, page).Some? ==>
                  |Dines(zone, visits, filter, page).value| == if page * 20 <= n then 20 else n - (page - 1) * 20)
  {
    WholeListLength(zone, visits, filter);
    if Dines(zone, visits, filter, page).Some? {
      PageIsASlice(zone, visits, filter, page);
    }
  }

  /** However many pages are read in sequence, they read newest first. */
  lemma PagesReadNewestFirst(zone: Calendar.Zone, visits: seq<Visit>, filter: VisitFilter, n: nat)
    ensures ReadsNewestFirst(FirstPages(zone, visits, filter, n))
  {
    FirstPagesAre(zone, visits, filter, n);
    WholeListReadsNewestFirst(zone, visits, filter);
  }

  lemma WholeListReadsNewestFirst(zone: Calendar.Zone, visits: seq<Visit>, filter: VisitFilter)
    ensures ReadsNewestFirst(WholeList(zone, visits, filter))
  {
    NewestFirstReadsSo(Matching(visits, v => VisitMatches(zone, v, filter)));
  }

  /** dinesVisitURL: the page a saved visit links to; the first page needs no number. */
  function LinkedPage(visits: seq<Visit>, id: Id): Option<int> {
    match SqlVisitPosition(visits, id)
    case None => None
    case Some(position) => if position / PAGE_SIZE + 1 > 1 then Some(position / PAGE_SIZE + 1) else None
  }

  lemma NoFilterMatchesAll(zone: Calendar.Zone, visits: seq<Visit>)
    ensures Matching(visits, v => VisitMatches(zone, v, NO_FILTER)) == visits
  {
    forall v ensures VisitMatches(zone, v, NO_FILTER) {
      assert Text.Trim("") == "";
    }
    MatchingAll(visits, v => VisitMatches(zone, v, NO_FILTER));
  }

  lemma {:induction false} MatchingAll(visits: seq<Visit>, keep: Visit -> bool)
    requires forall v :: keep(v)
    ensures Matching(visits, keep) == visits
  {
    if visits != [] {
      MatchingAll(visits[1..], keep);
    }
  }

  lemma LinkedPageOfPosition(visits: seq<Visit>, position: nat)
    requires DistinctIds(visits) && position < |visits|
    ensures |NewestFirst(visits)| == |visits|
    ensures SqlVisitPosition(visits, NewestFirst(visits)[position].id) == Some(position)
    ensures LinkedPage(visits, NewestFirst(visits)[position].id).GetOr(1) == position / PAGE_SIZE + 1
  {
    CountOfNewerRowsIsTheIndex(visits, position);
    var visit := NewestFirst(visits)[position];
    SameMembers(NewestFirst(visits), visits, visit);
    assert visit == visits[IndexOfId(visits, visit.id)];
  }

  lemma SliceAt(list: seq<Visit>, position: nat)
    requires position < |list|
    ensures var slice := PageSlice(list, position / PAGE_SIZE + 1);
            position % PAGE_SIZE < |slice| && slice[position % PAGE_SIZE] == list[position]
  {
    assert position == position / PAGE_SIZE * PAGE_SIZE + position % PAGE_SIZE;
  }

  ghost predicate Shows(page: Option<seq<Visit>>, index: nat, visit: Visit) {
    page.Some? && index < |page.value| && page.value[index] == visit
  }

  /** The linked page shows the visit at its position, exactly when that page is one the list serves. */
  lemma LinkedPageShowsTheVisit(zone: Calendar.Zone, visits: seq<Visit>, position: nat)
    requires DistinctIds(visits) && position < |visits|
    ensures |NewestFirst(visits)| == |visits|
    ensures var visit := NewestFirst(visits)[position];
            Shows(Dines(zone, visits, NO_FILTER, LinkedPage(visits, visit.id).GetOr(1)),
                  position % PAGE_SIZE, Listed(visit))
            <==> position / PAGE_SIZE < MAX_PAGE
  {
    LinkedPageOfPosition(visits, position);
    NoFilterMatchesAll(zone, visits);
    var page := position / PAGE_SIZE + 1;
    assert page <= PageCount(|visits|);
    if page <= MAX_PAGE {
      PageIsASlice(zone, visits, NO_FILTER, page);
      SliceAt(WholeList(zone, visits, NO_FILTER), position);
    }
  }

  function Copies(visit: Visit, n: nat): (visits: seq<Visit>)
    ensures |visits| == n && DistinctIds(visits)
  {
    seq(n, k requires 0 <= k < n => visit.(id := k))
  }

  /** The oldest of 2,000,001 dines is linked to page 100,001, which is not served. */
  lemma OldestDineIsNotShown(zone: Calendar.Zone, visit: Visit)
    ensures var visits := Copies(visit, 2000001);
            && |NewestFirst(visits)| == 2000001
            && LinkedPage(visits, NewestFirst(visits)[2000000].id) == Some(100001)
            && Dines(zone, visits, NO_FILTER, 100001).None?
  {
    LinkedPageOfPosition(Copies(visit, 2000001), 2000000);
  }
}
