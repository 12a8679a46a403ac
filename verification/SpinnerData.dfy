/** What the spinner reads from the memory store: the open list items, the rested favorites and the pick counts. */
module SpinnerData {
  import opened Wrappers
  import opened Ledger
  import opened Folds
  import opened StoreSpec
  import opened StoreInvariants
  import Records
  import Spellings
  import Text

  // ---- The Want to Try list ----

  datatype Item = Item(
    id: Id, restaurant: Restaurant, suggestedBy: Option<Person>, note: Option<string>, createdAt: Time)

  /** A stored item with its restaurant and suggester, unless the restaurant is gone. */
  function Joined(s: State, w: Want): Option<Item> {
    var i := RestaurantIndex(s.restaurants, w.restaurantId);
    if i == |s.restaurants| then None
    else
      Some(Item(w.id, s.restaurants[i],
                if w.suggestedById.Some? then Some(PersonById(s.people, w.suggestedById.value)) else None,
                w.note, w.createdAt))
  }

  function OpenItems(s: State, wants: seq<Want>): seq<Item> {
    if wants == [] then []
    else
      var w := wants[|wants| - 1];
      var item := Joined(s, w);
      OpenItems(s, wants[..|wants| - 1]) + if w.doneAt.None? && item.Some? then [item.value] else []
  }

  predicate NewerItem(a: Item, b: Item) {
    a.createdAt > b.createdAt || (a.createdAt == b.createdAt && a.id < b.id)
  }

  /** The item is the open one stored, with its restaurant and the person who suggested it, if they are still known. */
  predicate ShowsWant(s: State, item: Item, w: Want) {
    && w.doneAt.None? && item.id == w.id && item.note == w.note && item.createdAt == w.createdAt
    && item.restaurant in s.restaurants && item.restaurant.id == w.restaurantId
    && (item.suggestedBy.Some? <==> w.suggestedById.Some?)
    && (w.suggestedById.Some? && (exists p :: p in s.people && p.id == w.suggestedById.value) ==>
          item.suggestedBy.value in s.people && item.suggestedBy.value.id == w.suggestedById.value)
  }

  predicate ShowsSomeWant(s: State, item: Item, wants: seq<Want>) {
    exists k :: 0 <= k < |wants| && ShowsWant(s, item, wants[k])
  }

  lemma JoinedShowsWant(s: State, w: Want)
    requires w.doneAt.None? && Joined(s, w).Some?
    ensures ShowsWant(s, Joined(s, w).value, w)
  {
    var item := Joined(s, w).value;
    assert item.restaurant == s.restaurants[RestaurantIndex(s.restaurants, w.restaurantId)];
  }

  lemma {:induction false} ItemsShowWants(s: State, wants: seq<Want>)
    ensures forall item :: item in OpenItems(s, wants) ==> ShowsSomeWant(s, item, wants)
  {
    if wants != [] {
      var n := |wants| - 1;
      ItemsShowWants(s, wants[..n]);
      forall item | item in OpenItems(s, wants) ensures ShowsSomeWant(s, item, wants) {
        if item in OpenItems(s, wants[..n]) {
          var k :| 0 <= k < n && ShowsWant(s, item, wants[..n][k]);
          assert ShowsWant(s, item, wants[k]);
        } else {
          JoinedShowsWant(s, wants[n]);
        }
      }
    }
  }

  /** The latest saved come first, and of those saved together the smaller identifiers. */
  predicate ListsNewestFirst(items: seq<Item>) {
    forall i, j :: 0 <= i < j < |items| ==>
      && items[i].createdAt >= items[j].createdAt
      && (items[i].createdAt == items[j].createdAt ==> items[i].id <= items[j].id)
  }

  method WantToTry(s: State) returns (items: seq<Item>)
    ensures multiset(items) == multiset(OpenItems(s, s.wants))
    ensures SortedBy(items, NewerItem) && ListsNewestFirst(items)
    ensures forall i :: 0 <= i < |items| ==> ShowsSomeWant(s, items[i], s.wants)
  {
    var unsorted: seq<Item> := [];
    for k := 0 to |s.wants|
      invariant unsorted == OpenItems(s, s.wants[..k])
    {
      assert s.wants[..k + 1][..k] == s.wants[..k];
      var item := Joined(s, s.wants[k]);
      if s.wants[k].doneAt.None? && item.Some? {
        unsorted := unsorted + [item.value];
      }
    }
    assert s.wants[..|s.wants|] == s.wants;
    items := SortSlice(unsorted, NewerItem);
    ItemsShowWants(s, s.wants);
    forall i | 0 <= i < |items| ensures ShowsSomeWant(s, items[i], s.wants) {
      SameElements(unsorted, items, items[i]);
    }
    assert forall i, j :: 0 <= i < j < |items| ==> !NewerItem(items[j], items[i]);
  }

  function PlaceOfItem(item: Item): Id {
    item.restaurant.id
  }

  predicate HasItem(items: seq<Item>, restaurantId: Id) {
    exists i :: 0 <= i < |items| && items[i].restaurant.id == restaurantId
  }

  predicate HasOpenWant(wants: seq<Want>, restaurantId: Id) {
    exists k :: 0 <= k < |wants| && wants[k].restaurantId == restaurantId && wants[k].doneAt.None?
  }

  /** In a reachable store the list shows each open item, and no restaurant twice. */
  lemma {:induction false} OpenItemsAre(s: State, wants: seq<Want>)
    requires DistinctWants(wants)
    requires forall k :: 0 <= k < |wants| ==> Listed(s.restaurants, wants[k].restaurantId)
    ensures DistinctBy(OpenItems(s, wants), PlaceOfItem)
    ensures forall id :: HasItem(OpenItems(s, wants), id) <==> HasOpenWant(wants, id)
  {
    if wants != [] {
      var n := |wants| - 1;
      OpenItemsAre(s, wants[..n]);
      JoinedItem(s, wants[n]);
      assert wants == wants[..n] + [wants[n]];
      OpenItemsOneMore(s, wants[..n], wants[n]);
    }
  }

  /** The step of OpenItemsAre. */
  lemma OpenItemsOneMore(s: State, earlier: seq<Want>, w: Want)
    requires DistinctWants(earlier + [w])
    requires Joined(s, w).Some? && Joined(s, w).value.restaurant.id == w.restaurantId
    requires DistinctBy(OpenItems(s, earlier), PlaceOfItem)
    requires forall id :: HasItem(OpenItems(s, earlier), id) <==> HasOpenWant(earlier, id)
    ensures DistinctBy(OpenItems(s, earlier + [w]), PlaceOfItem)
    ensures forall id :: HasItem(OpenItems(s, earlier + [w]), id) <==> HasOpenWant(earlier + [w], id)
  {
    var wants := earlier + [w];
    assert wants[..|earlier|] == earlier;
    var before, items := OpenItems(s, earlier), OpenItems(s, wants);
    forall i | 0 <= i < |before| ensures before[i].restaurant.id != w.restaurantId {
      assert HasItem(before, before[i].restaurant.id);
      var k :| 0 <= k < |earlier| && earlier[k].restaurantId == before[i].restaurant.id;
      assert wants[k] == earlier[k] && wants[|earlier|] == w;
    }
    forall id ensures HasItem(items, id) <==> HasItem(before, id) || (w.doneAt.None? && id == w.restaurantId) {
      if i :| 0 <= i < |before| && before[i].restaurant.id == id {
        assert items[i].restaurant.id == id;
      }
      if w.doneAt.None? && id == w.restaurantId {
        assert items[|before|].restaurant.id == id;
      }
      if i :| 0 <= i < |items| && items[i].restaurant.id == id {
        assert i < |before| ==> before[i].restaurant.id == id;
      }
    }
    forall id ensures HasOpenWant(wants, id) <==> HasOpenWant(earlier, id) || (w.doneAt.None? && id == w.restaurantId) {
      if k :| 0 <= k < |earlier| && earlier[k].restaurantId == id && earlier[k].doneAt.None? {
        assert wants[k].restaurantId == id;
      }
      if w.doneAt.None? && id == w.restaurantId {
        assert wants[|earlier|].restaurantId == id;
      }
      if k :| 0 <= k < |wants| && wants[k].restaurantId == id && wants[k].doneAt.None? {
        assert k < |earlier| ==> earlier[k].restaurantId == id;
      }
    }
  }

  lemma JoinedItem(s: State, w: Want)
    requires Listed(s.restaurants, w.restaurantId)
    ensures Joined(s, w).Some? && Joined(s, w).value.restaurant.id == w.restaurantId
  {
  }

  // ---- Rested favorites ----

  datatype Favorite = Favorite(restaurant: Restaurant, averageRating: real, lastVisitedAt: Time)

  function RatingScores(ratings: seq<Rating>): seq<real> {
    seq(|ratings|, i requires 0 <= i < |ratings| => ratings[i].score)
  }

  /** The ratings a restaurant's average is over: those of its visits that enough people rated. */
  function ScoresOf(visits: seq<Visit>, id: Id): seq<real> {
    if visits == [] then []
    else
      var v := visits[|visits| - 1];
      ScoresOf(visits[..|visits| - 1], id)
      + if v.restaurant.id == id && v.CountsInAggregates() then RatingScores(v.ratings) else []
  }

  /** The latest visit to the restaurant. */
  function LastVisit(visits: seq<Visit>, id: Id): Time {
    Records.RecordOf(visits, id).lastVisitedAt
  }

  predicate IsRested(visits: seq<Visit>, id: Id, minAverage: real, cutoff: Time) {
    ScoresOf(visits, id) != [] && Average(ScoresOf(visits, id)) >= minAverage && LastVisit(visits, id) < cutoff
  }

  function FavoriteAt(
    rs: seq<Restaurant>, visits: seq<Visit>, id: Id, minAverage: real, cutoff: Time): Option<Favorite>
  {
    var i := RestaurantIndex(rs, id);
    if IsRested(visits, id, minAverage, cutoff) && i < |rs|
    then Some(Favorite(rs[i], Average(ScoresOf(visits, id)), LastVisit(visits, id)))
    else None
  }

  predicate ByName(a: Favorite, b: Favorite) {
    if a.restaurant.name == b.restaurant.name then a.restaurant.id < b.restaurant.id
    else Text.Less(a.restaurant.name, b.restaurant.name)
  }

  lemma ByNameIsAnOrder()
    ensures IsOrder(ByName)
  {
    forall a: Favorite, b: Favorite | ByName(a, b) ensures !ByName(b, a) {
      Text.LessIsATotalOrder(a.restaurant.name, b.restaurant.name);
    }
    forall a: Favorite, b: Favorite, c: Favorite | ByName(a, b) ensures ByName(a, c) || ByName(c, b) {
      Text.LessIsATotalOrder(a.restaurant.name, c.restaurant.name);
      Text.LessIsATotalOrder(c.restaurant.name, b.restaurant.name);
      if Text.Less(c.restaurant.name, a.restaurant.name) && Text.Less(a.restaurant.name, b.restaurant.name) {
        Text.LessIsTransitive(c.restaurant.name, a.restaurant.name, b.restaurant.name);
      }
    }
  }

  function FavoritePlace(f: Favorite): Id {
    f.restaurant.id
  }

  /** Every rested favorite once, and nothing else. */
  ghost predicate AreFavorites(
    rs: seq<Restaurant>, visits: seq<Visit>, favorites: seq<Favorite>, minAverage: real, cutoff: Time)
  {
    && DistinctBy(favorites, FavoritePlace)
    && (forall i :: 0 <= i < |favorites| ==>
          FavoriteAt(rs, visits, favorites[i].restaurant.id, minAverage, cutoff) == Some(favorites[i]))
    && (forall id :: FavoriteAt(rs, visits, id, minAverage, cutoff).Some? ==> HasFavorite(favorites, id))
  }

  predicate HasFavorite(favorites: seq<Favorite>, id: Id) {
    exists i :: 0 <= i < |favorites| && favorites[i].restaurant.id == id
  }

  // ---- Favorites, of the visits themselves ----

  /** Two people or more rated the visit to the restaurant. */
  predicate IsRatedVisit(v: Visit, id: Id) {
    v.restaurant.id == id && |v.ratings| >= 2
  }

  function ScoreOfRating(): Rating -> real {
    (r: Rating) => r.score
  }

  function ScoreAt(id: Id): Visit -> real {
    (v: Visit) => if IsRatedVisit(v, id) then Total(v.ratings, ScoreOfRating()) else 0.0
  }

  function RatingsAt(id: Id): Visit -> real {
    (v: Visit) => if IsRatedVisit(v, id) then |v.ratings| as real else 0.0
  }

  lemma {:induction false} RatingsTotal(ratings: seq<Rating>)
    ensures Sum(RatingScores(ratings)) == Total(ratings, ScoreOfRating())
  {
    if ratings != [] {
      RatingsTotal(ratings[..|ratings| - 1]);
      assert RatingScores(ratings)[..|ratings| - 1] == RatingScores(ratings[..|ratings| - 1]);
    }
  }

  lemma {:induction false} ScoresTotal(visits: seq<Visit>, id: Id)
    ensures Sum(ScoresOf(visits, id)) == Total(visits, ScoreAt(id))
    ensures |ScoresOf(visits, id)| as real == Total(visits, RatingsAt(id))
  {
    if visits != [] {
      var n := |visits| - 1;
      var before, v := ScoresOf(visits[..n], id), visits[n];
      ScoresTotal(visits[..n], id);
      if IsRatedVisit(v, id) {
        SumOfBoth(before, RatingScores(v.ratings));
        RatingsTotal(v.ratings);
      } else {
        assert before + [] == before;
      }
    }
  }

  predicate IsRatedWell(visits: seq<Visit>, id: Id, minAverage: real) {
    ReachesOnAverage(Total(visits, ScoreAt(id)), Total(visits, RatingsAt(id)), minAverage)
  }

  /** Listed, rated well enough on average, and not visited since the cutoff. */
  predicate IsGoodAndRested(rs: seq<Restaurant>, visits: seq<Visit>, id: Id, minAverage: real, cutoff: Time) {
    && Listed(rs, id) && IsRatedWell(visits, id, minAverage)
    && ZERO_TIME < cutoff && forall k :: 0 <= k < |visits| && visits[k].restaurant.id == id ==>
                               visits[k].visitedAt < cutoff
  }

  predicate IsAverageOf(average: real, visits: seq<Visit>, id: Id) {
    Averages(average, Total(visits, ScoreAt(id)), Total(visits, RatingsAt(id)))
  }

  /** The favorite is the listed restaurant, with the average of its ratings and the date of its latest visit. */
  predicate ShowsFavorite(rs: seq<Restaurant>, visits: seq<Visit>, f: Favorite) {
    && f.restaurant in rs && IsAverageOf(f.averageRating, visits, f.restaurant.id)
    && (forall k :: 0 <= k < |visits| && visits[k].restaurant.id == f.restaurant.id ==>
          visits[k].visitedAt <= f.lastVisitedAt)
    && (f.lastVisitedAt == ZERO_TIME
        || exists k :: 0 <= k < |visits| && visits[k].restaurant.id == f.restaurant.id
                       && visits[k].visitedAt == f.lastVisitedAt)
  }

  lemma LastVisitIs(visits: seq<Visit>, id: Id, cutoff: Time)
    ensures LastVisit(visits, id) < cutoff
       <==> ZERO_TIME < cutoff && forall k :: 0 <= k < |visits| && visits[k].restaurant.id == id ==>
                                    visits[k].visitedAt < cutoff
  {
    Records.RecordIs(visits, id);
    var last := LastVisit(visits, id);
    if last != ZERO_TIME {
      assert Records.DatedBy(visits, id, last);
      var k :| 0 <= k < |visits| && visits[k].restaurant.id == id && visits[k].visitedAt == last;
    }
  }

  lemma RatedWellIff(visits: seq<Visit>, id: Id, minAverage: real)
    ensures IsRatedWell(visits, id, minAverage)
       <==> ScoresOf(visits, id) != [] && Average(ScoresOf(visits, id)) >= minAverage
    ensures ScoresOf(visits, id) != [] ==> IsAverageOf(Average(ScoresOf(visits, id)), visits, id)
  {
    ScoresTotal(visits, id);
    AverageTimesCount(ScoresOf(visits, id), minAverage);
  }

  lemma LatestDate(visits: seq<Visit>, id: Id)
    ensures forall k :: 0 <= k < |visits| && visits[k].restaurant.id == id ==>
      visits[k].visitedAt <= LastVisit(visits, id)
    ensures LastVisit(visits, id) == ZERO_TIME
         || exists k :: 0 <= k < |visits| && visits[k].restaurant.id == id
                        && visits[k].visitedAt == LastVisit(visits, id)
  {
    Records.RecordIs(visits, id);
    assert LastVisit(visits, id) != ZERO_TIME ==> Records.DatedBy(visits, id, LastVisit(visits, id));
  }

  lemma FavoriteIff(rs: seq<Restaurant>, visits: seq<Visit>, id: Id, minAverage: real, cutoff: Time)
    ensures FavoriteAt(rs, visits, id, minAverage, cutoff).Some?
       <==> IsGoodAndRested(rs, visits, id, minAverage, cutoff)
    ensures FavoriteAt(rs, visits, id, minAverage, cutoff).Some? ==>
      var f := FavoriteAt(rs, visits, id, minAverage, cutoff).value;
      f.restaurant.id == id && ShowsFavorite(rs, visits, f)
  {
    RatedWellIff(visits, id, minAverage);
    LastVisitIs(visits, id, cutoff);
    LatestDate(visits, id);
    var i := RestaurantIndex(rs, id);
    assert Listed(rs, id) <==> i < |rs|;
  }

  /** The lesser names come first, and of restaurants with one name the smaller identifiers. */
  ghost predicate ListsByName(favorites: seq<Favorite>) {
    forall i, j :: 0 <= i < j < |favorites| ==>
      && !Text.Less(favorites[j].restaurant.name, favorites[i].restaurant.name)
      && (favorites[i].restaurant.name == favorites[j].restaurant.name ==>
            favorites[i].restaurant.id <= favorites[j].restaurant.id)
  }

  lemma SortedListsByName(favorites: seq<Favorite>)
    requires SortedBy(favorites, ByName)
    ensures ListsByName(favorites)
  {
    forall i, j | 0 <= i < j < |favorites|
      ensures !Text.Less(favorites[j].restaurant.name, favorites[i].restaurant.name)
      ensures favorites[i].restaurant.name == favorites[j].restaurant.name ==>
        favorites[i].restaurant.id <= favorites[j].restaurant.id
    {
      assert !ByName(favorites[j], favorites[i]);
      Text.LessIsATotalOrder(favorites[j].restaurant.name, favorites[i].restaurant.name);
    }
  }

  lemma OneMoreVisit(visits: seq<Visit>, i: nat, id: Id)
    requires i < |visits|
    ensures ScoresOf(visits[..i + 1], id)
            == ScoresOf(visits[..i], id)
               + if visits[i].restaurant.id == id && visits[i].CountsInAggregates()
                 then RatingScores(visits[i].ratings) else []
    ensures LastVisit(visits[..i + 1], id)
            == if visits[i].restaurant.id == id then Records.Later(visits[i].visitedAt, LastVisit(visits[..i], id))
               else LastVisit(visits[..i], id)
  {
    assert visits[..i + 1][..i] == visits[..i];
  }

  function AtOrZero(dates: map<Id, Time>, id: Id): Time {
    if id in dates then dates[id] else ZERO_TIME
  }

  function AtOrNone(scores: map<Id, seq<real>>, id: Id): seq<real> {
    if id in scores then scores[id] else []
  }

  ghost predicate Gathered(visits: seq<Visit>, scores: map<Id, seq<real>>, lastVisits: map<Id, Time>) {
    && (forall id :: id in scores <==> ScoresOf(visits, id) != [])
    && (forall id :: AtOrNone(scores, id) == ScoresOf(visits, id))
    && (forall id :: AtOrZero(lastVisits, id) == LastVisit(visits, id))
  }

  method GatherScores(visits: seq<Visit>) returns (scores: map<Id, seq<real>>, lastVisits: map<Id, Time>)
    ensures Gathered(visits, scores, lastVisits)
  {
    scores, lastVisits := map[], map[];
    for i := 0 to |visits|
      invariant Gathered(visits[..i], scores, lastVisits)
    {
      var visit := visits[i];
      var id := visit.restaurant.id;
      ghost var scores0, lastVisits0 := scores, lastVisits;
      if visit.visitedAt > AtOrZero(lastVisits, id) {
        lastVisits := lastVisits[id := visit.visitedAt];
      }
      if visit.CountsInAggregates() {
        scores := AppendScores(scores, id, visit.ratings);
      }
      forall other
        ensures AtOrNone(scores, other) == ScoresOf(visits[..i + 1], other)
        ensures AtOrZero(lastVisits, other) == LastVisit(visits[..i + 1], other)
        ensures other in scores <==> ScoresOf(visits[..i + 1], other) != []
      {
        OneMoreVisit(visits, i, other);
        assert AtOrNone(scores0, other) == ScoresOf(visits[..i], other);
        assert AtOrZero(lastVisits0, other) == LastVisit(visits[..i], other);
      }
    }
    assert visits[..|visits|] == visits;
  }

  method AppendScores(scores: map<Id, seq<real>>, id: Id, ratings: seq<Rating>) returns (scores': map<Id, seq<real>>)
    requires ratings != []
    ensures scores' == scores[id := AtOrNone(scores, id) + RatingScores(ratings)]
  {
    scores' := scores;
    for k := 0 to |ratings|
      invariant k == 0 ==> scores' == scores
      invariant k > 0 ==> scores' == scores[id := AtOrNone(scores, id) + RatingScores(ratings)[..k]]
    {
      var kept := AtOrNone(scores', id);
      assert RatingScores(ratings)[..k + 1] == RatingScores(ratings)[..k] + [ratings[k].score];
      assert kept + [ratings[k].score] == AtOrNone(scores, id) + RatingScores(ratings)[..k + 1];
      scores' := scores'[id := kept + [ratings[k].score]];
    }
    assert RatingScores(ratings)[..|ratings|] == RatingScores(ratings);
  }

  /** The favorites among the restaurants ranged over so far. */
  ghost predicate FavoritesAmong(
    rs: seq<Restaurant>, visits: seq<Visit>, ids: seq<Id>, favorites: seq<Favorite>, minAverage: real, cutoff: Time)
  {
    && DistinctBy(favorites, FavoritePlace)
    && (forall i :: 0 <= i < |favorites| ==>
          favorites[i].restaurant.id in ids
          && FavoriteAt(rs, visits, favorites[i].restaurant.id, minAverage, cutoff) == Some(favorites[i]))
    && (forall id :: id in ids && FavoriteAt(rs, visits, id, minAverage, cutoff).Some? ==> HasFavorite(favorites, id))
  }

  lemma OneMoreFavorite(
    rs: seq<Restaurant>, visits: seq<Visit>, ids: seq<Id>, id: Id, before: seq<Favorite>, after: seq<Favorite>,
    minAverage: real, cutoff: Time)
    requires FavoritesAmong(rs, visits, ids, before, minAverage, cutoff) && id !in ids
    requires var f := FavoriteAt(rs, visits, id, minAverage, cutoff);
             after == if f.Some? then before + [f.value] else before
    ensures FavoritesAmong(rs, visits, ids + [id], after, minAverage, cutoff)
  {
    var f := FavoriteAt(rs, visits, id, minAverage, cutoff);
    if f.Some? {
      assert after[|before|].restaurant.id == id;
    }
    forall other | other in ids + [id] && FavoriteAt(rs, visits, other, minAverage, cutoff).Some?
      ensures HasFavorite(after, other)
    {
      if other in ids {
        var i :| 0 <= i < |before| && before[i].restaurant.id == other;
        assert after[i].restaurant.id == other;
      }
    }
  }

  /** One restaurant of the range, skipped unless it is rated well enough, rested and still listed. */
  method FavoriteFor(
    rs: seq<Restaurant>, id: Id, scores: map<Id, seq<real>>, lastVisits: map<Id, Time>,
    ghost visits: seq<Visit>, minAverage: real, cutoff: Time) returns (favorite: Option<Favorite>)
    requires Gathered(visits, scores, lastVisits) && id in scores
    ensures favorite == FavoriteAt(rs, visits, id, minAverage, cutoff)
  {
    var averageRating, last := Average(scores[id]), AtOrZero(lastVisits, id);
    assert scores[id] == AtOrNone(scores, id);
    if averageRating < minAverage || last >= cutoff {
      return None;
    }
    var i := RestaurantIndex(rs, id);
    favorite := if i == |rs| then None else Some(Favorite(rs[i], averageRating, last));
  }

  function FavoritesIn(
    rs: seq<Restaurant>, visits: seq<Visit>, ids: seq<Id>, minAverage: real, cutoff: Time): seq<Favorite>
  {
    if ids == [] then []
    else
      var f := FavoriteAt(rs, visits, ids[|ids| - 1], minAverage, cutoff);
      FavoritesIn(rs, visits, ids[..|ids| - 1], minAverage, cutoff) + if f.Some? then [f.value] else []
  }

  lemma {:induction false} FavoritesInAre(
    rs: seq<Restaurant>, visits: seq<Visit>, ids: seq<Id>, minAverage: real, cutoff: Time)
    requires Distinct(ids)
    ensures FavoritesAmong(rs, visits, ids, FavoritesIn(rs, visits, ids, minAverage, cutoff), minAverage, cutoff)
  {
    if ids != [] {
      var n := |ids| - 1;
      FavoritesInAre(rs, visits, ids[..n], minAverage, cutoff);
      OneMoreFavorite(rs, visits, ids[..n], ids[n], FavoritesIn(rs, visits, ids[..n], minAverage, cutoff),
                      FavoritesIn(rs, visits, ids, minAverage, cutoff), minAverage, cutoff);
      assert ids == ids[..n] + [ids[n]];
    }
  }

  method GatherFavorites(
    rs: seq<Restaurant>, ids: seq<Id>, scores: map<Id, seq<real>>, lastVisits: map<Id, Time>,
    ghost visits: seq<Visit>, minAverage: real, cutoff: Time) returns (favorites: seq<Favorite>)
    requires Gathered(visits, scores, lastVisits) && forall id :: id in ids ==> id in scores
    ensures favorites == FavoritesIn(rs, visits, ids, minAverage, cutoff)
  {
    favorites := [];
    for k := 0 to |ids|
      invariant favorites == FavoritesIn(rs, visits, ids[..k], minAverage, cutoff)
    {
      assert ids[..k + 1][..k] == ids[..k];
      assert ids[k] in ids;
      var favorite := FavoriteFor(rs, ids[k], scores, lastVisits, visits, minAverage, cutoff);
      if favorite.Some? {
        favorites := favorites + [favorite.value];
      }
    }
    assert ids[..|ids|] == ids;
  }

  method RestedFavorites(rs: seq<Restaurant>, visits: seq<Visit>, minAverage: real, cutoff: Time)
    returns (favorites: seq<Favorite>)
    ensures AreFavorites(rs, visits, favorites, minAverage, cutoff)
    ensures SortedBy(favorites, ByName) && ListsByName(favorites)
    ensures DistinctBy(favorites, FavoritePlace)
    ensures forall id: Id :: HasFavorite(favorites, id) <==> IsGoodAndRested(rs, visits, id, minAverage, cutoff)
    ensures forall i :: 0 <= i < |favorites| ==> ShowsFavorite(rs, visits, favorites[i])
  {
    var scores, lastVisits := GatherScores(visits);
    var ids := Spellings.KeysOf(scores);
    var unsorted := GatherFavorites(rs, ids, scores, lastVisits, visits, minAverage, cutoff);
    FavoritesInAre(rs, visits, ids, minAverage, cutoff);
    forall id | FavoriteAt(rs, visits, id, minAverage, cutoff).Some? ensures HasFavorite(unsorted, id) {
      assert id in ids;
    }
    ByNameIsAnOrder();
    favorites := SortSlice(unsorted, ByName);
    SortedFavorites(rs, visits, unsorted, favorites, minAverage, cutoff);
    SortedListsByName(favorites);
    FavoritesShow(rs, visits, favorites, minAverage, cutoff);
  }

  lemma FavoritesShow(
    rs: seq<Restaurant>, visits: seq<Visit>, favorites: seq<Favorite>, minAverage: real, cutoff: Time)
    requires AreFavorites(rs, visits, favorites, minAverage, cutoff)
    ensures forall id: Id :: HasFavorite(favorites, id) <==> IsGoodAndRested(rs, visits, id, minAverage, cutoff)
    ensures forall i :: 0 <= i < |favorites| ==> ShowsFavorite(rs, visits, favorites[i])
  {
    forall id: Id ensures HasFavorite(favorites, id) <==> IsGoodAndRested(rs, visits, id, minAverage, cutoff) {
      FavoriteIff(rs, visits, id, minAverage, cutoff);
    }
    forall i | 0 <= i < |favorites| ensures ShowsFavorite(rs, visits, favorites[i]) {
      FavoriteIff(rs, visits, favorites[i].restaurant.id, minAverage, cutoff);
    }
  }

  lemma SortedFavorites(
    rs: seq<Restaurant>, visits: seq<Visit>, unsorted: seq<Favorite>, favorites: seq<Favorite>, minAverage: real,
      cutoff: Time)
    requires AreFavorites(rs, visits, unsorted, minAverage, cutoff) && multiset(favorites) == multiset(unsorted)
    ensures AreFavorites(rs, visits, favorites, minAverage, cutoff)
  {
    StaysDistinct(unsorted, favorites, FavoritePlace);
    forall i | 0 <= i < |favorites|
      ensures FavoriteAt(rs, visits, favorites[i].restaurant.id, minAverage, cutoff) == Some(favorites[i])
    {
      SameElements(unsorted, favorites, favorites[i]);
    }
    forall id | FavoriteAt(rs, visits, id, minAverage, cutoff).Some? ensures HasFavorite(favorites, id) {
      var i :| 0 <= i < |unsorted| && unsorted[i].restaurant.id == id;
      SameElements(unsorted, favorites, unsorted[i]);
    }
  }

  // ---- Pick counts ----

  datatype PickCount = PickCount(person: Person, picks: nat, lastPickedAt: Option<Time>)

  /** Who picked a visit since the cutoff; None for Everybody and for older visits. */
  function RecentPicker(since: Time): Visit -> Option<Id> {
    (v: Visit) => if v.picker.Some? && v.visitedAt >= since then Some(v.picker.value.id) else None
  }

  function LastPick(visits: seq<Visit>, id: Id): Option<Time> {
    if visits == [] then None
    else
      var v := visits[|visits| - 1];
      var before := LastPick(visits[..|visits| - 1], id);
      if v.picker.Some? && v.picker.value.id == id && (before.None? || v.visitedAt > before.value)
      then Some(v.visitedAt)
      else before
  }

  lemma {:induction false} LastPickIs(visits: seq<Visit>, id: Id)
    ensures LastPick(visits, id).None? <==> forall k :: 0 <= k < |visits| ==> !PickedBy(visits[k], id)
    ensures LastPick(visits, id).Some? ==>
      && (exists k :: 0 <= k < |visits| && PickedBy(visits[k], id) && visits[k].visitedAt == LastPick(visits, id).value)
      && (forall k :: 0 <= k < |visits| && PickedBy(visits[k], id) ==>
            visits[k].visitedAt <= LastPick(visits, id).value)
  {
    if visits != [] {
      var n := |visits| - 1;
      LastPickIs(visits[..n], id);
      assert forall k :: 0 <= k < n ==> visits[..n][k] == visits[k];
    }
  }

  predicate PickedBy(v: Visit, id: Id) {
    v.picker.Some? && v.picker.value.id == id
  }

  /** Each person's picks since the cutoff and latest pick ever, in people order. */
  ghost predicate ArePickCounts(people: seq<Person>, visits: seq<Visit>, since: Time, counts: seq<PickCount>) {
    && |counts| == |people|
    && forall i :: 0 <= i < |people| ==>
         && counts[i].person == people[i]
         && counts[i].picks == CountKey(visits, RecentPicker(since), people[i].id)
         && counts[i].lastPickedAt == LastPick(visits, people[i].id)
  }

  /** The visits the person picked at that time or later. */
  function PicksSince(visits: seq<Visit>, id: Id, since: Time): set<int> {
    set k | 0 <= k < |visits| && PickedBy(visits[k], id) && visits[k].visitedAt >= since
  }

  /** As many picks as such visits; and the date of the latest pick of all, if there is one. */
  predicate CountsPicks(visits: seq<Visit>, since: Time, count: PickCount) {
    && count.picks == |PicksSince(visits, count.person.id, since)|
    && (count.lastPickedAt.None? <==> forall k :: 0 <= k < |visits| ==> !PickedBy(visits[k], count.person.id))
    && (count.lastPickedAt.Some? ==>
          && (exists k :: 0 <= k < |visits| && PickedBy(visits[k], count.person.id)
                          && visits[k].visitedAt == count.lastPickedAt.value)
          && (forall k :: 0 <= k < |visits| && PickedBy(visits[k], count.person.id) ==>
                visits[k].visitedAt <= count.lastPickedAt.value))
  }

  lemma PicksAreCounted(people: seq<Person>, visits: seq<Visit>, since: Time, counts: seq<PickCount>)
    requires ArePickCounts(people, visits, since, counts)
    ensures forall i :: 0 <= i < |counts| ==> counts[i].person == people[i] && CountsPicks(visits, since, counts[i])
  {
    forall i | 0 <= i < |counts| ensures counts[i].person == people[i] && CountsPicks(visits, since, counts[i]) {
      LastPickIs(visits, people[i].id);
      CountIsTheSize(visits, RecentPicker(since), people[i].id);
      assert Positions(visits, RecentPicker(since), people[i].id) == PicksSince(visits, people[i].id, since);
    }
  }

  /** byPerson keeps the position of a person's count, where the source keeps a pointer to it. */
  method PickCounts(people: seq<Person>, visits: seq<Visit>, since: Time) returns (counts: seq<PickCount>)
    requires DistinctPeople(people)
    ensures ArePickCounts(people, visits, since, counts)
    ensures |counts| == |people|
    ensures forall i :: 0 <= i < |counts| ==> counts[i].person == people[i] && CountsPicks(visits, since, counts[i])
  {
    counts := [];
    var byPerson: map<Id, nat> := map[];
    for i := 0 to |people|
      invariant |counts| == i && forall j :: 0 <= j < i ==> counts[j] == PickCount(people[j], 0, None)
      invariant forall id :: id in byPerson ==> byPerson[id] < i && people[byPerson[id]].id == id
      invariant forall j :: 0 <= j < i ==> people[j].id in byPerson && byPerson[people[j].id] == j
    {
      counts := counts + [PickCount(people[i], 0, None)];
      byPerson := byPerson[people[i].id := i];
    }
    for k := 0 to |visits|
      invariant ArePickCounts(people, visits[..k], since, counts)
    {
      var visit := visits[k];
      assert visits[..k + 1][..k] == visits[..k];
      if visit.picker.None? || visit.picker.value.id !in byPerson {
        continue;
      }
      var i := byPerson[visit.picker.value.id];
      var count := counts[i];
      if visit.visitedAt >= since {
        count := count.(picks := count.picks + 1);
      }
      if count.lastPickedAt.None? || visit.visitedAt > count.lastPickedAt.value {
        count := count.(lastPickedAt := Some(visit.visitedAt));
      }
      counts := counts[i := count];
    }
    assert visits[..|visits|] == visits;
    PicksAreCounted(people, visits, since, counts);
  }

  function TotalPicks(counts: seq<PickCount>): nat {
    if counts == [] then 0 else TotalPicks(counts[..|counts| - 1]) + counts[|counts| - 1].picks
  }

  function IdsOf(people: seq<Person>): (ids: seq<Id>)
    ensures |ids| == |people|
    ensures forall i :: 0 <= i < |people| ==> ids[i] == people[i].id
  {
    seq(|people|, i requires 0 <= i < |people| => people[i].id)
  }

  lemma {:induction false} TotalIsTheSum(people: seq<Person>, visits: seq<Visit>, since: Time, counts: seq<PickCount>)
    requires ArePickCounts(people, visits, since, counts)
    ensures TotalPicks(counts) == SumOfCounts(visits, RecentPicker(since), IdsOf(people))
    decreases |people|
  {
    if people != [] {
      var n := |people| - 1;
      assert IdsOf(people)[..n] == IdsOf(people[..n]);
      TotalIsTheSum(people[..n], visits, since, counts[..n]);
    }
  }

  /** The visits' pickers are people of the store. */
  ghost predicate PickersKnown(s: State) {
    forall k :: 0 <= k < |s.visits| && s.visits[k].picker.Some? ==> s.visits[k].picker.value in s.people
  }

  /** The picks add up to the visits since the cutoff that somebody picked. */
  lemma PicksAddUp(s: State, since: Time, counts: seq<PickCount>)
    requires DistinctPeople(s.people) && PickersKnown(s) && ArePickCounts(s.people, s.visits, since, counts)
    ensures TotalPicks(counts) == CountKeyed(s.visits, RecentPicker(since))
  {
    TotalIsTheSum(s.people, s.visits, since, counts);
    var ids := IdsOf(s.people);
    forall k | 0 <= k < |s.visits| && RecentPicker(since)(s.visits[k]).Some?
      ensures RecentPicker(since)(s.visits[k]).value in ids
    {
      var i :| 0 <= i < |s.people| && s.people[i] == s.visits[k].picker.value;
      assert ids[i] == s.visits[k].picker.value.id;
    }
    CountsAddUp(s.visits, RecentPicker(since), ids);
  }

  // ---- Pickers are known in every reachable store ----

  lemma ResolveKeepsPickers(s: State, d: Details, stamp: Stamp)
    requires PickersKnown(s) && Resolve(s, d, stamp).Ok?
    ensures PickersKnown(Resolve(s, d, stamp).value.0)
  {
  }

  lemma CreateKeepsPickers(s: State, dine: Dine, cancelled: bool, stamp: Stamp)
    requires PickersKnown(s) && |stamp.photoIds| == |dine.photos|
    ensures PickersKnown(CreateVisit(s, dine, cancelled, stamp).state)
  {
    if Resolve(s, dine.details, stamp).Ok? {
      ResolveKeepsPickers(s, dine.details, stamp);
    }
  }

  lemma EditKeepsPickers(s: State, id: Id, dine: Dine, cancelled: bool, stamp: Stamp)
    requires PickersKnown(s) && |stamp.photoIds| == |dine.photos| && PhotosDistinct(s.visits)
    ensures PickersKnown(UpdateVisit(s, id, dine, cancelled, stamp).state)
  {
  }

  lemma RestaurantEditKeepsPickers(s: State, op: Op)
    requires PickersKnown(s) && PhotosDistinct(s.visits) && (op.Reprofile? || op.Refresh? || op.Toggle?)
    ensures PickersKnown(Step(s, op)) && Step(s, op).people == s.people
  {
  }

  lemma StepKeepsPickers(s: State, op: Op)
    requires Inv(s) && Allowed(s, op) && PickersKnown(s)
    ensures PickersKnown(Step(s, op)) && Step(s, op).people == s.people
  {
    if op.Reprofile? || op.Refresh? || op.Toggle? {
      RestaurantEditKeepsPickers(s, op);
    } else if op.Create? {
      CreateKeepsPickers(s, op.dine, op.cancelled, op.stamp);
    } else if op.Edit? {
      EditKeepsPickers(s, op.id, op.dine, op.cancelled, op.stamp);
    } else if op.Save? && Resolve(s, op.details, op.stamp).Ok? {
      ResolveKeepsPickers(s, op.details, op.stamp);
    } else if op.RemoveVisit? && VisitIndex(s.visits, op.id) < |s.visits| {
      WithoutShifts(s.visits, VisitIndex(s.visits, op.id));
    }
  }

  lemma {:induction false} RunKeepsPickers(s: State, ops: seq<Op>)
    requires Inv(s) && IsRun(s, ops) && PickersKnown(s)
    ensures PickersKnown(After(s, ops)) && After(s, ops).people == s.people
    decreases |ops|
  {
    if ops != [] {
      StepKeepsInv(s, ops[0]);
      StepKeepsPickers(s, ops[0]);
      RunKeepsPickers(Step(s, ops[0]), ops[1..]);
    }
  }
}
