/** The visited-restaurant map: one point a restaurant with coordinates, counting its visits. */
module MapPoints {
  import opened Wrappers
  import opened Ledger
  import opened Folds
  import opened StoreInvariants
  import StoreSpec
  import Text

  datatype MapPoint = MapPoint(
    restaurantId: Id, name: string, latitude: real, longitude: real, visitCount: nat, latestVisitedAt: Time)

  function Place(visit: Visit): Option<Id> {
    if visit.restaurant.latitude.None? || visit.restaurant.longitude.None? then None else Some(visit.restaurant.id)
  }

  /** The latest visit with the key, or the zero time when none is later. */
  function Latest(visits: seq<Visit>, id: Id): Time {
    if visits == [] then ZERO_TIME
    else
      var v := visits[|visits| - 1];
      var before := Latest(visits[..|visits| - 1], id);
      if Place(v) == Some(id) && v.visitedAt > before then v.visitedAt else before
  }

  predicate NewerPoint(a: MapPoint, b: MapPoint) {
    a.latestVisitedAt > b.latestVisitedAt || (a.latestVisitedAt == b.latestVisitedAt && Text.Less(a.name, b.name))
  }

  lemma NewerPointIsAnOrder()
    ensures IsOrder(NewerPoint)
  {
    Text.LessIsAnOrder();
  }

  /** The point shows what one of its visits says of the restaurant. */
  predicate Shows(p: MapPoint, v: Visit) {
    && Place(v) == Some(p.restaurantId)
    && p.name == v.restaurant.name
    && p.latitude == v.restaurant.latitude.value && p.longitude == v.restaurant.longitude.value
  }

  predicate IsPoint(visits: seq<Visit>, p: MapPoint) {
    && p.visitCount == CountKey(visits, Place, p.restaurantId)
    && p.latestVisitedAt == Latest(visits, p.restaurantId)
    && exists k :: 0 <= k < |visits| && Shows(p, visits[k])
  }

  function Counted(points: seq<MapPoint>): nat {
    if points == [] then 0 else Counted(points[..|points| - 1]) + points[|points| - 1].visitCount
  }

  ghost predicate OnePointEach(visits: seq<Visit>, points: seq<MapPoint>) {
    && (forall i, j :: 0 <= i < j < |points| ==> points[i].restaurantId != points[j].restaurantId)
    && (forall i :: 0 <= i < |points| ==> IsPoint(visits, points[i]))
    && (forall k :: 0 <= k < |visits| && Place(visits[k]).Some? ==> HasPoint(points, Place(visits[k]).value))
  }

  predicate HasPoint(points: seq<MapPoint>, id: Id) {
    exists i :: 0 <= i < |points| && points[i].restaurantId == id
  }

  /** A map entry for each place seen, whatever order the entries are then read in. */
  ghost predicate Gathered(visits: seq<Visit>, points: map<Id, MapPoint>) {
    && (forall id :: id in points ==> points[id].restaurantId == id && IsPoint(visits, points[id]))
    && (forall k :: 0 <= k < |visits| && Place(visits[k]).Some? ==> Place(visits[k]).value in points)
  }

  method VisitedRestaurantMapPoints(visits: seq<Visit>) returns (points: seq<MapPoint>)
    requires forall k :: 0 <= k < |visits| ==> visits[k].restaurant.id != NIL_ID
    ensures OnePointEach(visits, points)
    ensures SortedBy(points, NewerPoint) && LatestFirst(points)
    ensures forall i :: 0 <= i < |points| ==> Summarises(visits, points[i])
    ensures forall i, j :: 0 <= i < j < |points| ==> points[i].restaurantId != points[j].restaurantId
    ensures forall id: Id :: MappedVisits(visits, id) != {} ==> HasPoint(points, id)
  {
    var byRestaurant: map<Id, MapPoint> := map[];
    for i := 0 to |visits|
      invariant Gathered(visits[..i], byRestaurant)
    {
      var v := visits[i];
      ghost var before := byRestaurant;
      if v.restaurant.latitude.Some? && v.restaurant.longitude.Some? {
        var id := v.restaurant.id;
        var point := if id in byRestaurant then byRestaurant[id] else MapPoint(NIL_ID, "", 0.0, 0.0, 0, ZERO_TIME);
        if point.restaurantId == NIL_ID {
          point := MapPoint(
            id, v.restaurant.name, v.restaurant.latitude.value, v.restaurant.longitude.value, 0, ZERO_TIME);
        }
        point := point.(visitCount := point.visitCount + 1);
        if v.visitedAt > point.latestVisitedAt {
          point := point.(latestVisitedAt := v.visitedAt);
        }
        byRestaurant := byRestaurant[id := point];
      }
      OneMoreVisit(visits[..i], v, before, byRestaurant);
      assert visits[..i + 1] == visits[..i] + [v];
    }
    assert visits[..|visits|] == visits;
    var unsorted := PointsOf(byRestaurant);
    NewerPointIsAnOrder();
    points := SortSlice(unsorted, NewerPoint);
    SortedPoints(visits, unsorted, points);
    SortedIsLatestFirst(points);
    PointsSummarise(visits, points);
  }

  lemma {:induction false} NoneSeen(visits: seq<Visit>, id: Id)
    requires forall k :: 0 <= k < |visits| ==> Place(visits[k]) != Some(id)
    ensures CountKey(visits, Place, id) == 0 && Latest(visits, id) == ZERO_TIME
  {
    if visits != [] {
      NoneSeen(visits[..|visits| - 1], id);
    }
  }

  /** What the loop body does to the entries, for one more visit. */
  lemma OneMoreVisit(visits: seq<Visit>, v: Visit, before: map<Id, MapPoint>, after: map<Id, MapPoint>)
    requires Gathered(visits, before)
    requires Place(v).None? ==> after == before
    requires Place(v).Some? ==>
      var id := Place(v).value;
      var point := if id in before then before[id]
                   else MapPoint(id, v.restaurant.name, v.restaurant.latitude.value, v.restaurant.longitude.value,
                                 0, ZERO_TIME);
      after == before[id := point.(visitCount := point.visitCount + 1,
                                   latestVisitedAt := if v.visitedAt > point.latestVisitedAt then v.visitedAt
                                                      else point.latestVisitedAt)]
    ensures Gathered(visits + [v], after)
  {
    var more := visits + [v];
    assert more[..|more| - 1] == visits;
    forall id | id in after ensures IsPoint(more, after[id]) {
      if id in before {
        var k :| 0 <= k < |visits| && Shows(before[id], visits[k]);
        assert Shows(after[id], more[k]);
      } else {
        NoneSeen(visits, id);
        assert Shows(after[id], more[|visits|]);
      }
    }
  }

  predicate Entry(byRestaurant: map<Id, MapPoint>, p: MapPoint) {
    p.restaurantId in byRestaurant && byRestaurant[p.restaurantId] == p
  }

  method PointsOf(byRestaurant: map<Id, MapPoint>) returns (points: seq<MapPoint>)
    requires forall id :: id in byRestaurant ==> byRestaurant[id].restaurantId == id
    ensures forall i, j :: 0 <= i < j < |points| ==> points[i].restaurantId != points[j].restaurantId
    ensures forall i :: 0 <= i < |points| ==> Entry(byRestaurant, points[i])
    ensures forall id :: id in byRestaurant ==> HasPoint(points, id)
  {
    points := [];
    var left := byRestaurant.Keys;
    while left != {}
      invariant left <= byRestaurant.Keys
      invariant forall i, j :: 0 <= i < j < |points| ==> points[i].restaurantId != points[j].restaurantId
      invariant forall i :: 0 <= i < |points| ==> Entry(byRestaurant, points[i]) && points[i].restaurantId !in left
      invariant forall id :: id in byRestaurant.Keys - left ==> HasPoint(points, id)
      decreases |left|
    {
      var id :| id in left;
      ghost var before := points;
      points := points + [byRestaurant[id]];
      forall other | other in byRestaurant.Keys - (left - {id}) ensures HasPoint(points, other) {
        if other == id {
          assert points[|before|].restaurantId == id;
        } else {
          assert HasPoint(before, other);
          var i :| 0 <= i < |before| && before[i].restaurantId == other;
          assert points[i].restaurantId == other;
        }
      }
      left := left - {id};
    }
  }

  lemma SortedPoints(visits: seq<Visit>, unsorted: seq<MapPoint>, points: seq<MapPoint>)
    requires OnePointEach(visits, unsorted) && multiset(points) == multiset(unsorted)
    ensures OnePointEach(visits, points)
  {
    StaysDistinct(unsorted, points, (p: MapPoint) => p.restaurantId);
    forall i | 0 <= i < |points| ensures IsPoint(visits, points[i]) {
      SameElements(unsorted, points, points[i]);
    }
    forall k | 0 <= k < |visits| && Place(visits[k]).Some? ensures HasPoint(points, Place(visits[k]).value) {
      var i :| 0 <= i < |unsorted| && unsorted[i].restaurantId == Place(visits[k]).value;
      SameElements(unsorted, points, unsorted[i]);
    }
  }

  // ---- The points, of the visits themselves ----

  /** The visits at the restaurant, as far as they have coordinates for it. */
  function MappedVisits(visits: seq<Visit>, id: Id): set<int> {
    set k | 0 <= k < |visits| && visits[k].restaurant.id == id
            && visits[k].restaurant.latitude.Some? && visits[k].restaurant.longitude.Some?
  }

  /** The point counts those visits and has the date of the latest, and what one of them says of the restaurant. */
  ghost predicate Summarises(visits: seq<Visit>, p: MapPoint) {
    && p.visitCount == |MappedVisits(visits, p.restaurantId)| > 0
    && (forall k :: k in MappedVisits(visits, p.restaurantId) ==> visits[k].visitedAt <= p.latestVisitedAt)
    && (p.latestVisitedAt == ZERO_TIME
        || exists k :: k in MappedVisits(visits, p.restaurantId) && visits[k].visitedAt == p.latestVisitedAt)
    && exists k :: k in MappedVisits(visits, p.restaurantId) && visits[k].restaurant.name == p.name
                   && visits[k].restaurant.latitude == Some(p.latitude)
                   && visits[k].restaurant.longitude == Some(p.longitude)
  }

  lemma {:induction false} LatestIs(visits: seq<Visit>, id: Id)
    ensures Latest(visits, id) >= ZERO_TIME
    ensures forall k :: k in MappedVisits(visits, id) ==> visits[k].visitedAt <= Latest(visits, id)
    ensures Latest(visits, id) == ZERO_TIME
         || exists k :: k in MappedVisits(visits, id) && visits[k].visitedAt == Latest(visits, id)
  {
    if visits != [] {
      var n := |visits| - 1;
      LatestIs(visits[..n], id);
      assert forall k :: 0 <= k < n ==> visits[..n][k] == visits[k];
      assert forall k :: k in MappedVisits(visits, id) && k < n ==> k in MappedVisits(visits[..n], id);
      if k :| k in MappedVisits(visits[..n], id) && visits[..n][k].visitedAt == Latest(visits[..n], id) {
        assert k in MappedVisits(visits, id);
      }
      assert Place(visits[n]) == Some(id) ==> n in MappedVisits(visits, id);
    }
  }

  lemma PointSummarises(visits: seq<Visit>, p: MapPoint)
    requires IsPoint(visits, p)
    ensures Summarises(visits, p)
  {
    LatestIs(visits, p.restaurantId);
    CountIsTheSize(visits, Place, p.restaurantId);
    assert MappedVisits(visits, p.restaurantId) == Positions(visits, Place, p.restaurantId);
    var k :| 0 <= k < |visits| && Shows(p, visits[k]);
    assert k in MappedVisits(visits, p.restaurantId);
  }

  lemma PointsSummarise(visits: seq<Visit>, points: seq<MapPoint>)
    requires OnePointEach(visits, points)
    ensures forall i :: 0 <= i < |points| ==> Summarises(visits, points[i])
    ensures forall id: Id :: MappedVisits(visits, id) != {} ==> HasPoint(points, id)
  {
    forall i | 0 <= i < |points| ensures Summarises(visits, points[i]) {
      PointSummarises(visits, points[i]);
    }
    forall id: Id | MappedVisits(visits, id) != {} ensures HasPoint(points, id) {
      var k :| k in MappedVisits(visits, id);
      assert Place(visits[k]) == Some(id);
    }
  }

  /** The latest visited come first, and of those visited then the lesser names. */
  ghost predicate LatestFirst(points: seq<MapPoint>) {
    forall i, j :: 0 <= i < j < |points| ==>
      && points[i].latestVisitedAt >= points[j].latestVisitedAt
      && (points[i].latestVisitedAt == points[j].latestVisitedAt ==> !Text.Less(points[j].name, points[i].name))
  }

  lemma SortedIsLatestFirst(points: seq<MapPoint>)
    requires SortedBy(points, NewerPoint)
    ensures LatestFirst(points)
  {
    forall i, j | 0 <= i < j < |points| ensures !NewerPoint(points[j], points[i]) {
    }
  }

  // ---- In every reachable store ----

  function Ids(points: seq<MapPoint>): (ids: seq<Id>)
    ensures |ids| == |points|
    ensures forall i :: 0 <= i < |points| ==> ids[i] == points[i].restaurantId
  {
    seq(|points|, i requires 0 <= i < |points| => points[i].restaurantId)
  }

  lemma {:induction false} CountedIsTheSum(visits: seq<Visit>, points: seq<MapPoint>)
    requires forall i :: 0 <= i < |points| ==> points[i].visitCount == CountKey(visits, Place, points[i].restaurantId)
    ensures Counted(points) == SumOfCounts(visits, Place, Ids(points))
  {
    if points != [] {
      var n := |points| - 1;
      CountedIsTheSum(visits, points[..n]);
      assert Ids(points)[..n] == Ids(points[..n]);
    }
  }

  /** The counts of the points add up to the visits at restaurants with coordinates. */
  lemma PointsCountTheVisits(visits: seq<Visit>, points: seq<MapPoint>)
    requires OnePointEach(visits, points)
    ensures Counted(points) == CountKeyed(visits, Place)
  {
    var ids := Ids(points);
    CountedIsTheSum(visits, points);
    forall k | 0 <= k < |visits| && Place(visits[k]).Some? ensures Place(visits[k]).value in ids {
      var i :| 0 <= i < |points| && points[i].restaurantId == Place(visits[k]).value;
      assert ids[i] == Place(visits[k]).value;
    }
    CountsAddUp(visits, Place, ids);
  }

  predicate HasCoordinates(r: Restaurant) {
    r.latitude.Some? && r.longitude.Some?
  }

  /** The listed restaurant a visit is at, if it has coordinates. */
  function ListedPlace(rs: seq<Restaurant>, v: Visit): Option<Id> {
    var i := StoreSpec.RestaurantIndex(rs, v.restaurant.id);
    if i < |rs| && HasCoordinates(rs[i]) then Some(rs[i].id) else None
  }

  lemma PlaceIsListedPlace(s: StoreSpec.State, k: nat)
    requires Inv(s) && k < |s.visits|
    ensures ListedPlace(s.restaurants, s.visits[k]) == Place(s.visits[k])
  {
    assert HasFacts(s.restaurants, s.visits[k].restaurant);
    var j :| 0 <= j < |s.restaurants| && SameFacts(s.restaurants[j], s.visits[k].restaurant);
    var i := StoreSpec.RestaurantIndex(s.restaurants, s.visits[k].restaurant.id);
    assert i == j;
  }

  function CountListed(rs: seq<Restaurant>, visits: seq<Visit>): nat {
    if visits == [] then 0
    else CountListed(rs, visits[..|visits| - 1]) + if ListedPlace(rs, visits[|visits| - 1]).Some? then 1 else 0
  }

  lemma {:induction false} CountsAgree(rs: seq<Restaurant>, visits: seq<Visit>)
    requires forall k :: 0 <= k < |visits| ==> ListedPlace(rs, visits[k]) == Place(visits[k])
    ensures CountListed(rs, visits) == CountKeyed(visits, Place)
  {
    if visits != [] {
      CountsAgree(rs, visits[..|visits| - 1]);
    }
  }

  /** The point shows the listed restaurant as it is. */
  predicate ShowsListed(rs: seq<Restaurant>, p: MapPoint) {
    exists j :: 0 <= j < |rs| && rs[j].id == p.restaurantId && rs[j].name == p.name
      && rs[j].latitude == Some(p.latitude) && rs[j].longitude == Some(p.longitude)
  }

  lemma PointShowsListed(s: StoreSpec.State, p: MapPoint)
    requires Inv(s) && IsPoint(s.visits, p)
    ensures ShowsListed(s.restaurants, p)
  {
    var k :| 0 <= k < |s.visits| && Shows(p, s.visits[k]);
    var j :| 0 <= j < |s.restaurants| && SameFacts(s.restaurants[j], s.visits[k].restaurant);
    assert s.restaurants[j].name == p.name;
  }

  /** Since copies agree, the points describe the listed restaurants and count all the visits there. */
  lemma {:induction false} PointsShowTheStore(s: StoreSpec.State, points: seq<MapPoint>)
    requires Inv(s) && OnePointEach(s.visits, points)
    ensures Counted(points) == CountListed(s.restaurants, s.visits)
    ensures forall i :: 0 <= i < |points| ==> ShowsListed(s.restaurants, points[i])
  {
    forall k | 0 <= k < |s.visits| ensures ListedPlace(s.restaurants, s.visits[k]) == Place(s.visits[k]) {
      PlaceIsListedPlace(s, k);
    }
    CountsAgree(s.restaurants, s.visits);
    PointsCountTheVisits(s.visits, points);
    forall i | 0 <= i < |points| ensures ShowsListed(s.restaurants, points[i]) {
      PointShowsListed(s, points[i]);
    }
  }
}
