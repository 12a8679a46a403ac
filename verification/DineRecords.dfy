/** What is on record of a dine after it is created, edited or deleted, and that nothing else of other dines changed. */
module DineRecords {
  import opened Wrappers
  import opened Ledger
  import opened Folds
  import opened PhotoEdits
  import opened StoreSpec
  import opened StoreInvariants

  // ---- Ratings ----

  predicate IsPerson(people: seq<Person>, id: Id) {
    exists i :: 0 <= i < |people| && people[i].id == id
  }

  /** An order in which the submitted ratings may be ranged over. */
  ghost predicate IsRaterOrder(ratings: map<Id, real>, order: seq<Id>) {
    Distinct(order) && forall id :: id in order <==> id in ratings
  }

  /** Whose ratings are recorded, one identifier a rating. */
  function PeopleIds(people: seq<Person>, ratings: map<Id, real>): seq<Id> {
    if people == [] then []
    else
      var last := people[|people| - 1];
      PeopleIds(people[..|people| - 1], ratings) + if last.id in ratings then [last.id] else []
  }

  function OtherIds(people: seq<Person>, ratings: map<Id, real>, order: seq<Id>): seq<Id> {
    if order == [] then []
    else
      var last := order[|order| - 1];
      OtherIds(people, ratings, order[..|order| - 1])
      + if last in ratings && PersonIndex(people, last) == |people| then [last] else []
  }

  lemma {:induction false} PeopleIdsAre(people: seq<Person>, ratings: map<Id, real>)
    requires DistinctPeople(people)
    ensures |PeopleIds(people, ratings)| == |PeopleRatings(people, ratings)|
    ensures Distinct(PeopleIds(people, ratings))
    ensures forall id :: id in PeopleIds(people, ratings) <==> id in ratings && IsPerson(people, id)
    ensures forall k :: 0 <= k < |PeopleIds(people, ratings)| ==>
      var r := PeopleRatings(people, ratings)[k];
      r.person in people && r.person.id == PeopleIds(people, ratings)[k] && r.score == ratings[r.person.id]
  {
    if people != [] {
      var n := |people| - 1;
      PeopleIdsAre(people[..n], ratings);
      assert people == people[..n] + [people[n]];
      forall id ensures IsPerson(people, id) <==> IsPerson(people[..n], id) || id == people[n].id {
        if i :| 0 <= i < n && people[..n][i].id == id {
          assert people[i].id == id;
        }
      }
      assert !IsPerson(people[..n], people[n].id);
    }
  }

  lemma UnknownHasNoIndex(people: seq<Person>, id: Id)
    ensures PersonIndex(people, id) == |people| <==> !IsPerson(people, id)
  {
    if PersonIndex(people, id) < |people| {
      assert people[PersonIndex(people, id)].id == id;
    }
  }

  lemma {:induction false} OtherIdsAre(people: seq<Person>, ratings: map<Id, real>, order: seq<Id>)
    requires Distinct(order)
    ensures |OtherIds(people, ratings, order)| == |OtherRatings(people, ratings, order)|
    ensures Distinct(OtherIds(people, ratings, order))
    ensures forall id ::
      id in OtherIds(people, ratings, order) <==> id in order && id in ratings && !IsPerson(people, id)
    ensures forall k :: 0 <= k < |OtherIds(people, ratings, order)| ==>
      OtherRatings(people, ratings, order)[k] == Rating(NOBODY, ratings[OtherIds(people, ratings, order)[k]])
  {
    if order != [] {
      var n := |order| - 1;
      OtherIdsAre(people, ratings, order[..n]);
      assert order == order[..n] + [order[n]];
      UnknownHasNoIndex(people, order[n]);
    }
  }

  lemma {:induction false} DistinctListsASet<T>(xs: seq<T>, s: set<T>)
    requires Distinct(xs) && forall x :: x in xs <==> x in s
    ensures |xs| == |s|
  {
    if xs == [] {
      assert s == {};
    } else {
      var n := |xs| - 1;
      assert xs == xs[..n] + [xs[n]];
      DistinctListsASet(xs[..n], s - {xs[n]});
    }
  }

  lemma AsManyAsSubmitted(people: seq<Person>, ratings: map<Id, real>, order: seq<Id>)
    requires DistinctPeople(people) && IsRaterOrder(ratings, order)
    ensures |RatingsOf(people, ratings, order)| == |ratings|
  {
    PeopleIdsAre(people, ratings);
    OtherIdsAre(people, ratings, order);
    var mine, others := PeopleIds(people, ratings), OtherIds(people, ratings, order);
    var both := mine + others;
    forall i, j | 0 <= i < j < |both| ensures both[i] != both[j] {
      assert i < |mine| <= j ==> mine[i] in mine && others[j - |mine|] in others;
    }
    DistinctListsASet(both, ratings.Keys);
  }

  lemma PersonsRatingIsRecorded(people: seq<Person>, ratings: map<Id, real>, i: nat)
    requires DistinctPeople(people) && i < |people| && people[i].id in ratings
    ensures Rating(people[i], ratings[people[i].id]) in PeopleRatings(people, ratings)
  {
    PeopleIdsAre(people, ratings);
    var k :| 0 <= k < |PeopleIds(people, ratings)| && PeopleIds(people, ratings)[k] == people[i].id;
    var r := PeopleRatings(people, ratings)[k];
    var j :| 0 <= j < |people| && people[j] == r.person;
    assert j == i && r in PeopleRatings(people, ratings);
  }

  /** The rating is one submitted: by the person it is under, or under nobody by someone unknown. */
  ghost predicate WasSubmitted(people: seq<Person>, ratings: map<Id, real>, r: Rating) {
    || (r.person in people && r.person.id in ratings && r.score == ratings[r.person.id])
    || (r.person == NOBODY && exists id :: id in ratings && !IsPerson(people, id) && r.score == ratings[id])
  }

  lemma RecordedWasSubmitted(people: seq<Person>, ratings: map<Id, real>, order: seq<Id>, k: nat)
    requires DistinctPeople(people) && IsRaterOrder(ratings, order) && k < |RatingsOf(people, ratings, order)|
    ensures WasSubmitted(people, ratings, RatingsOf(people, ratings, order)[k])
  {
    PeopleIdsAre(people, ratings);
    OtherIdsAre(people, ratings, order);
    var mine, others := PeopleIds(people, ratings), OtherIds(people, ratings, order);
    if k < |mine| {
      assert mine[k] in mine;
    } else {
      assert others[k - |mine|] in others;
    }
  }

  /** Every submitted rating is recorded once: under the person it is by, or under nobody for an unknown one. */
  lemma RatingsAreRecordedOnce(people: seq<Person>, ratings: map<Id, real>, order: seq<Id>)
    requires DistinctPeople(people) && IsRaterOrder(ratings, order)
    ensures |RatingsOf(people, ratings, order)| == |ratings|
    ensures forall i :: 0 <= i < |people| && people[i].id in ratings ==>
      Rating(people[i], ratings[people[i].id]) in RatingsOf(people, ratings, order)
    ensures forall r :: r in RatingsOf(people, ratings, order) ==> WasSubmitted(people, ratings, r)
  {
    AsManyAsSubmitted(people, ratings, order);
    forall i | 0 <= i < |people| && people[i].id in ratings
      ensures Rating(people[i], ratings[people[i].id]) in RatingsOf(people, ratings, order)
    {
      PersonsRatingIsRecorded(people, ratings, i);
    }
    forall r | r in RatingsOf(people, ratings, order) ensures WasSubmitted(people, ratings, r) {
      var k :| 0 <= k < |RatingsOf(people, ratings, order)| && RatingsOf(people, ratings, order)[k] == r;
      RecordedWasSubmitted(people, ratings, order, k);
    }
  }

  function RatingBy(ratings: map<Id, real>): Person -> Option<Rating> {
    (p: Person) => if p.id in ratings then Some(Rating(p, ratings[p.id])) else None
  }

  /** Each person's rating is under that person, and the ratings come in the order of the people. */
  lemma {:induction false} RatingsFollowPeople(people: seq<Person>, ratings: map<Id, real>) returns (places: seq<nat>)
    ensures Follows(PeopleRatings(people, ratings), people, RatingBy(ratings), places)
  {
    places := [];
    if people != [] {
      places := RatingsFollowPeople(people[..|people| - 1], ratings);
      places := FollowsOneMore(
        PeopleRatings(people[..|people| - 1], ratings), people, RatingBy(ratings), places);
    }
  }

  ghost function RatingByNobody(people: seq<Person>, ratings: map<Id, real>): Id -> Option<Rating> {
    (id: Id) => if id in ratings && !IsPerson(people, id) then Some(Rating(Person(0, "", ""), ratings[id])) else None
  }

  /** Then come the others', under nobody, in the order they are ranged over in. */
  lemma {:induction false} OthersFollowTheOrder(people: seq<Person>, ratings: map<Id, real>, order: seq<Id>)
    returns (places: seq<nat>)
    ensures Follows(OtherRatings(people, ratings, order), order, RatingByNobody(people, ratings), places)
  {
    places := [];
    if order != [] {
      var n := |order| - 1;
      UnknownHasNoIndex(people, order[n]);
      places := OthersFollowTheOrder(people, ratings, order[..n]);
      places := FollowsOneMore(
        OtherRatings(people, ratings, order[..n]), order, RatingByNobody(people, ratings), places);
    }
  }

  // ---- Tags ----

  function TagIds(tags: seq<Tag>): (ids: seq<Id>)
    ensures |ids| == |tags| && forall k :: 0 <= k < |tags| ==> ids[k] == tags[k].id
  {
    seq(|tags|, k requires 0 <= k < |tags| => tags[k].id)
  }

  predicate IsTag(tags: seq<Tag>, id: Id) {
    exists i :: 0 <= i < |tags| && tags[i].id == id
  }

  /** The identifiers that are some tag's, in their order. */
  function KnownIds(tags: seq<Tag>, ids: seq<Id>): seq<Id> {
    if ids == [] then []
    else
      var last := ids[|ids| - 1];
      KnownIds(tags, ids[..|ids| - 1]) + if IsTag(tags, last) then [last] else []
  }

  /** These are the store's tags with the chosen identifiers, in the order chosen; unknown ones are skipped. */
  ghost predicate AreTheChosen(chosen: seq<Tag>, tags: seq<Tag>, ids: seq<Id>) {
    && TagIds(chosen) == KnownIds(tags, ids)
    && forall tag :: tag in chosen <==> tag in tags && tag.id in ids
  }

  lemma {:induction false} TagsAreTheChosen(tags: seq<Tag>, ids: seq<Id>)
    requires DistinctTags(tags)
    ensures AreTheChosen(TagsOf(tags, ids), tags, ids)
  {
    if ids != [] {
      var n := |ids| - 1;
      TagsAreTheChosen(tags, ids[..n]);
      assert ids == ids[..n] + [ids[n]];
      TagFound(tags, ids[n]);
    }
  }

  lemma TagFound(tags: seq<Tag>, id: Id)
    requires DistinctTags(tags)
    ensures TagIndex(tags, id) < |tags| <==> IsTag(tags, id)
    ensures forall tag ::
      tag in tags && tag.id == id <==> TagIndex(tags, id) < |tags| && tag == tags[TagIndex(tags, id)]
  {
    var i := TagIndex(tags, id);
    assert i < |tags| ==> tags[i].id == id && tags[i] in tags;
    forall tag | tag in tags && tag.id == id ensures i < |tags| && tag == tags[i] {
      var j :| 0 <= j < |tags| && tags[j] == tag;
      assert i == j;
    }
  }

  lemma {:induction false} NewTagIsNoOther(tags: seq<Tag>, ids: seq<Id>, newTag: Option<string>, tagId: Id)
    requires tagId !in ids
    ensures TagsOf(tags + NewTags(newTag, tagId), ids) == TagsOf(tags, ids)
  {
    if ids != [] {
      var n := |ids| - 1;
      NewTagIsNoOther(tags, ids[..n], newTag, tagId);
      TagIndexStays(tags, newTag, tagId, ids[n]);
    }
  }

  /** A tag that is new and not chosen yet comes last, whether it is added before or after the others are found. */
  lemma NewTagComesLast(tags: seq<Tag>, ids: seq<Id>, newTag: Option<string>, tagId: Id)
    requires !IsTag(tags, tagId) && tagId !in ids
    ensures TagsOf(tags + NewTags(newTag, tagId), ids + if newTag.Some? then [tagId] else [])
            == TagsOf(tags, ids) + NewTags(newTag, tagId)
  {
    NewTagIsNoOther(tags, ids, newTag, tagId);
    if newTag.Some? {
      NewTagIsFound(tags, Tag(tagId, newTag.value));
      assert (ids + [tagId])[..|ids|] == ids;
    } else {
      assert ids + [] == ids;
    }
  }

  lemma NewTagIsFound(tags: seq<Tag>, tag: Tag)
    requires !IsTag(tags, tag.id)
    ensures TagIndex(tags + [tag], tag.id) == |tags|
  {
    var more := tags + [tag];
    assert more[|tags|].id == tag.id && forall i :: 0 <= i < |tags| ==> more[i] == tags[i];
  }

  lemma TagIndexStays(tags: seq<Tag>, newTag: Option<string>, tagId: Id, id: Id)
    requires id != tagId
    ensures var more := tags + NewTags(newTag, tagId);
            if TagIndex(tags, id) < |tags| then TagIndex(more, id) == TagIndex(tags, id)
            else TagIndex(more, id) == |more|
  {
    var more := tags + NewTags(newTag, tagId);
    assert forall i :: 0 <= i < |tags| ==> more[i] == tags[i];
    assert forall i :: |tags| <= i < |more| ==> more[i].id == tagId;
  }

  // ---- Photos ----

  /** The kept photos as asked, each moved to its place and otherwise as it was, then the new ones in order. */
  ghost predicate HasPhotos(v: Visit, before: seq<Photo>, dine: Dine, keep: seq<Id>, stamp: Stamp)
    requires |stamp.photoIds| == |dine.photos|
  {
    && |v.photos| == |keep| + |dine.photos|
    && (forall i :: 0 <= i < |keep| ==> WasKept(v.photos[i], before, keep[i], i))
    && (forall i :: 0 <= i < |dine.photos| ==>
          v.photos[|keep| + i]
          == dine.photos[i].(id := stamp.photoIds[i], visitId := v.id, sortOrder := |keep| + i, createdAt := stamp.now))
  }

  predicate WasKept(photo: Photo, before: seq<Photo>, id: Id, order: nat) {
    exists j :: 0 <= j < |before| && before[j].id == id && photo == before[j].(sortOrder := order)
  }

  // ---- Dines ----

  /** The visit is the input's, at the restaurant. */
  predicate Records(v: Visit, dine: Dine, restaurantId: Id, people: seq<Person>, stamp: Stamp) {
    && v.restaurant.id == restaurantId && v.visitedAt == dine.visitedAt && v.priceLevel == dine.priceLevel
    && v.notes == dine.notes
    && v.ratings == RatingsOf(people, dine.ratings, stamp.raterOrder)
    && (dine.pickerId.None? <==> v.picker.None?)
    && (dine.pickerId.Some? ==> v.picker.value in people && v.picker.value.id == dine.pickerId.value)
    && v.updatedAt == stamp.now
  }

  /** Tags have distinct identifiers, as in every reachable store, and the new tag's is neither in use nor named yet. */
  ghost predicate NewTagIsNew(tags: seq<Tag>, dine: Dine, stamp: Stamp) {
    DistinctTags(tags) && !IsTag(tags, stamp.tagId) && stamp.tagId !in dine.tagIds
  }

  /** The visit has the chosen tags of the store before, then the new one, which the store has from then on. */
  ghost predicate RecordsTags(v: Visit, dine: Dine, tags: seq<Tag>, tags': seq<Tag>, stamp: Stamp) {
    var added := if dine.newTag.Some? then [Tag(stamp.tagId, dine.newTag.value)] else [];
    && tags' == tags + added
    && exists chosen :: AreTheChosen(chosen, tags, dine.tagIds) && v.tags == chosen + added
  }

  /** A dine apart from its copy of the restaurant. */
  predicate SameDine(a: Visit, b: Visit) {
    a.restaurant.id == b.restaurant.id && a.(restaurant := b.restaurant) == b
  }

  lemma NewVisitIsTheInput(s: State, dine: Dine, r: Restaurant, stamp: Stamp)
    requires DistinctTags(s.tags) && |stamp.photoIds| == |dine.photos| && PickerOf(s.people, dine.pickerId).Ok?
    ensures var v := NewVisit(s, dine, r, PickerOf(s.people, dine.pickerId).value, stamp);
            && Records(v, dine, r.id, s.people, stamp)
            && RecordsTags(v, dine, s.tags, s.tags + NewTags(dine.newTag, stamp.tagId), stamp)
            && HasPhotos(v, [], dine, [], stamp)
  {
    TagsAreTheChosen(s.tags, dine.tagIds);
  }

  /** The visit is the input's, at a listed restaurant, with the chosen tags and the submitted photos. */
  ghost predicate IsOnRecord(v: Visit, dine: Dine, before: State, after: State, stamp: Stamp)
    requires |stamp.photoIds| == |dine.photos|
  {
    && v.id == stamp.visitId && v.createdAt == stamp.now && v.restaurant in after.restaurants
    && Records(v, dine, v.restaurant.id, before.people, stamp)
    && RecordsTags(v, dine, before.tags, after.tags, stamp)
    && HasPhotos(v, [], dine, [], stamp)
  }

  /** A new dine is the last of the list; the others change in nothing but their copies of the restaurant. */
  lemma CreatedDineIsRecorded(s: State, dine: Dine, cancelled: bool, stamp: Stamp)
    requires Inv(s) && Allowed(s, Create(dine, cancelled, stamp))
    requires CreateVisit(s, dine, cancelled, stamp).result.Ok?
    ensures CreateVisit(s, dine, cancelled, stamp).result == Ok(stamp.visitId)
    ensures var after := CreateVisit(s, dine, cancelled, stamp).state;
            && |after.visits| == |s.visits| + 1
            && VisitIndex(after.visits, stamp.visitId) == |s.visits|
            && IsOnRecord(after.visits[|s.visits|], dine, s, after, stamp)
            && (forall k :: 0 <= k < |s.visits| ==> SameDine(s.visits[k], after.visits[k]))
  {
    var after := CreateVisit(s, dine, cancelled, stamp).state;
    ResolveKeepsInv(s, dine.details, stamp);
    ResolveKeepsDines(s, dine.details, stamp);
    var (s1, r) := Resolve(s, dine.details, stamp).value;
    assert r in s1.restaurants;
    var v := after.visits[|s.visits|];
    assert v == NewVisit(s1, dine, r, PickerOf(s1.people, dine.pickerId).value, stamp);
    NewVisitIsTheInput(s1, dine, r, stamp);
    forall k | 0 <= k < |s.visits| ensures after.visits[k] == s1.visits[k] && after.visits[k].id != stamp.visitId {
    }
  }

  lemma ResolveKeepsDines(s: State, d: Details, stamp: Stamp)
    requires Resolve(s, d, stamp).Ok?
    ensures |Resolve(s, d, stamp).value.0.visits| == |s.visits| && Resolve(s, d, stamp).value.0.people == s.people
    ensures forall k :: 0 <= k < |s.visits| ==> SameDine(s.visits[k], Resolve(s, d, stamp).value.0.visits[k])
  {
  }

  /**
   An edit records the input in the dine's place, keeping its identifier and creation; no other dine or
   restaurant changes.
   */
  lemma EditedDineIsRecorded(s: State, id: Id, dine: Dine, cancelled: bool, stamp: Stamp)
    requires PhotosDistinct(s.visits) && |stamp.photoIds| == |dine.photos|
    requires UpdateVisit(s, id, dine, cancelled, stamp).result.Ok?
    ensures var after := UpdateVisit(s, id, dine, cancelled, stamp).state;
            var k := VisitIndex(s.visits, id);
            && k < |s.visits| == |after.visits| && after.restaurants == s.restaurants && after.people == s.people
            && after.visits[k].id == id && after.visits[k].createdAt == s.visits[k].createdAt
            && dine.details.restaurantId.Some?
            && Records(after.visits[k], dine, dine.details.restaurantId.value, s.people, stamp)
            && (NewTagIsNew(s.tags, dine, stamp) ==> RecordsTags(after.visits[k], dine, s.tags, after.tags, stamp))
            && HasPhotos(after.visits[k], s.visits[k].photos, dine, dine.keepPhotoIds, stamp)
            && (forall j :: 0 <= j < |s.visits| && j != k ==> after.visits[j] == s.visits[j])
  {
    var (r, picker, k) := EditTarget(s, id, dine, cancelled).value;
    assert r == s.restaurants[RestaurantIndex(s.restaurants, dine.details.restaurantId.value)];
    assert s.visits[VisitIndex(s.visits, id)].id == id;
    if NewTagIsNew(s.tags, dine, stamp) {
      TagsAreTheChosen(s.tags, dine.tagIds);
      NewTagComesLast(s.tags, dine.tagIds, dine.newTag, stamp.tagId);
    }
  }

  /** A deleted dine is gone; the others stay, in their order. */
  lemma DeletedDineIsGone(s: State, id: Id)
    requires Inv(s)
    ensures VisitIndex(DeleteVisit(s, id).visits, id) == |DeleteVisit(s, id).visits|
    ensures forall k :: 0 <= k < |s.visits| && s.visits[k].id != id ==> s.visits[k] in DeleteVisit(s, id).visits
    ensures DeleteVisit(s, id).(visits := s.visits) == s
  {
    var k := VisitIndex(s.visits, id);
    if k < |s.visits| {
      var left := Without(s.visits, k);
      WithoutShifts(s.visits, k);
      forall j | 0 <= j < |s.visits| && s.visits[j].id != id ensures s.visits[j] in left {
        assert left[if j < k then j else j - 1] == s.visits[j];
      }
    }
  }
}
