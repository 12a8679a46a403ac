/** What holds in every reachable memory store, whatever operations led there. */
module StoreInvariants {
  import opened Wrappers
  import opened Ledger
  import opened PhotoEdits
  import opened StoreSpec

  // ---- Operations and runs ----

  datatype Op =
    | Create(dine: Dine, cancelled: bool, stamp: Stamp)
    | Edit(id: Id, dine: Dine, cancelled: bool, stamp: Stamp)
    | RemoveVisit(id: Id)
    | RemoveRestaurant(id: Id)
    | Reprofile(id: Id, profile: Profile, stamp: Stamp)
    | Refresh(id: Id, metadata: Metadata, category: Option<string>, stamp: Stamp)
    | Toggle(id: Id, isChain: bool, stamp: Stamp)
    | Save(details: Details, suggester: Option<Id>, note: Option<string>, stamp: Stamp)
    | RemoveWant(id: Id)

  predicate Listed(rs: seq<Restaurant>, id: Id) {
    exists i :: 0 <= i < |rs| && rs[i].id == id
  }

  /** uuid.New never repeats an identifier in use, nor yields the nil one. */
  ghost predicate FreshStamp(s: State, stamp: Stamp) {
    && stamp.restaurantId != NIL_ID && !Listed(s.restaurants, stamp.restaurantId)
    && (forall k :: 0 <= k < |s.tags| ==> s.tags[k].id != stamp.tagId)
    && (forall k :: 0 <= k < |s.visits| ==> s.visits[k].id != stamp.visitId)
    && (forall k :: 0 <= k < |s.wants| ==> s.wants[k].id != stamp.wantId)
    && (forall k, j :: 0 <= k < |s.visits| && 0 <= j < |s.visits[k].photos| ==>
          s.visits[k].photos[j].id !in stamp.photoIds)
  }

  /** What the callers guarantee: fresh identifiers, and photo edits within the limits Prepare checks. */
  ghost predicate Allowed(s: State, op: Op) {
    match op
    case Create(dine, _, stamp) => FreshStamp(s, stamp) && ValidEdit([], dine.photos, stamp.photoIds)
    case Edit(_, dine, _, stamp) => FreshStamp(s, stamp) && ValidEdit(dine.keepPhotoIds, dine.photos, stamp.photoIds)
    case Save(_, _, _, stamp) => FreshStamp(s, stamp)
    case _ => true
  }

  function Step(s: State, op: Op): State
    requires PhotosDistinct(s.visits)
    requires op.Create? || op.Edit? ==> |op.stamp.photoIds| == |op.dine.photos|
  {
    match op
    case Create(dine, cancelled, stamp) => CreateVisit(s, dine, cancelled, stamp).state
    case Edit(id, dine, cancelled, stamp) => UpdateVisit(s, id, dine, cancelled, stamp).state
    case RemoveVisit(id) => DeleteVisit(s, id)
    case RemoveRestaurant(id) => DeleteRestaurantIfUnvisited(s, id).state
    case Reprofile(id, profile, stamp) => UpdateRestaurant(s, id, profile, stamp).state
    case Refresh(id, metadata, category, stamp) => UpdateGoogleMetadata(s, id, metadata, category, stamp)
    case Toggle(id, isChain, stamp) => ToggleChain(s, id, isChain, stamp)
    case Save(details, suggester, note, stamp) => SaveWantToTry(s, details, suggester, note, stamp).state
    case RemoveWant(id) => DeleteWantToTry(s, id)
  }

  // ---- The invariant ----

  ghost predicate RestaurantsOk(rs: seq<Restaurant>) {
    && (forall i :: 0 <= i < |rs| ==> rs[i].id != NIL_ID)
    && (forall i, j :: 0 <= i < j < |rs| ==> rs[i].id != rs[j].id)
    && (forall i, j :: 0 <= i < j < |rs| && rs[i].googlePlaceId.Some? ==> rs[i].googlePlaceId != rs[j].googlePlaceId)
  }

  /** Equal in everything but UpdatedAt. */
  predicate SameFacts(a: Restaurant, b: Restaurant) {
    a.(updatedAt := b.updatedAt) == b
  }

  ghost predicate HasFacts(rs: seq<Restaurant>, copy: Restaurant) {
    exists i :: 0 <= i < |rs| && SameFacts(rs[i], copy)
  }

  /** Every visit's restaurant exists, and the visit's copy of it is current. */
  ghost predicate CopiesAgree(rs: seq<Restaurant>, visits: seq<Visit>) {
    forall k :: 0 <= k < |visits| ==> HasFacts(rs, visits[k].restaurant)
  }

  ghost predicate VisitsOk(visits: seq<Visit>) {
    && (forall i, j :: 0 <= i < j < |visits| ==> visits[i].id != visits[j].id)
    && (forall k :: 0 <= k < |visits| ==> ValidPhotos(visits[k].id, visits[k].photos))
  }

  /** A restaurant has at most one item, and every item's restaurant exists. */
  ghost predicate WantsOk(rs: seq<Restaurant>, wants: seq<Want>) {
    && (forall i, j :: 0 <= i < j < |wants| ==>
          wants[i].id != wants[j].id && wants[i].restaurantId != wants[j].restaurantId)
    && (forall k :: 0 <= k < |wants| ==> Listed(rs, wants[k].restaurantId))
  }

  ghost predicate DistinctTags(tags: seq<Tag>) {
    forall i, j :: 0 <= i < j < |tags| ==> tags[i].id != tags[j].id
  }

  ghost predicate Inv(s: State)
    ensures Inv(s) ==> PhotosDistinct(s.visits)
  {
    && RestaurantsOk(s.restaurants)
    && CopiesAgree(s.restaurants, s.visits)
    && VisitsOk(s.visits)
    && WantsOk(s.restaurants, s.wants)
    && DistinctTags(s.tags)
  }

  /** A store as NewMemoryStore seeds it: distinct restaurants, and dines there without photos. */
  ghost predicate IsSeed(s: State) {
    && RestaurantsOk(s.restaurants) && s.wants == [] && DistinctTags(s.tags)
    && (forall i, j :: 0 <= i < j < |s.visits| ==> s.visits[i].id != s.visits[j].id)
    && (forall k :: 0 <= k < |s.visits| ==> s.visits[k].restaurant in s.restaurants && s.visits[k].photos == [])
  }

  /** Where runs start. */
  lemma SeedIsOk(s: State)
    requires IsSeed(s)
    ensures Inv(s)
  {
    forall k | 0 <= k < |s.visits| ensures HasFacts(s.restaurants, s.visits[k].restaurant) {
      assert s.visits[k].restaurant in s.restaurants;
      var i :| 0 <= i < |s.restaurants| && s.restaurants[i] == s.visits[k].restaurant;
      assert SameFacts(s.restaurants[i], s.visits[k].restaurant);
    }
  }

  // ---- Restaurants change ----

  /** r may stand in for restaurant i: same identifier, and no place ID another restaurant has. */
  ghost predicate Replaces(rs: seq<Restaurant>, i: nat, r: Restaurant) {
    && i < |rs| && r.id == rs[i].id
    && (r.googlePlaceId.Some? ==> forall k :: 0 <= k < |rs| && k != i ==> rs[k].googlePlaceId != r.googlePlaceId)
  }

  lemma ReplacementKeepsRestaurants(rs: seq<Restaurant>, i: nat, r: Restaurant)
    requires RestaurantsOk(rs) && Replaces(rs, i, r)
    ensures RestaurantsOk(rs[i := r])
  {
  }

  lemma ReplacementKeepsListed(rs: seq<Restaurant>, i: nat, r: Restaurant, id: Id)
    requires Replaces(rs, i, r)
    ensures Listed(rs[i := r], id) <==> Listed(rs, id)
  {
    if k :| 0 <= k < |rs| && rs[k].id == id {
      assert rs[i := r][k].id == id;
    }
    var changed := rs[i := r];
    if k :| 0 <= k < |changed| && changed[k].id == id {
      assert rs[k].id == id;
    }
  }

  lemma SyncKeepsCopies(rs: seq<Restaurant>, visits: seq<Visit>, i: nat, r: Restaurant)
    requires RestaurantsOk(rs) && CopiesAgree(rs, visits) && Replaces(rs, i, r)
    ensures CopiesAgree(rs[i := r], Synced(visits, r))
  {
    forall k | 0 <= k < |visits| ensures HasFacts(rs[i := r], Synced(visits, r)[k].restaurant) {
      if visits[k].restaurant.id == r.id {
        assert SameFacts(rs[i := r][i], r);
      } else {
        var j :| 0 <= j < |rs| && SameFacts(rs[j], visits[k].restaurant);
        assert j != i;
        assert SameFacts(rs[i := r][j], visits[k].restaurant);
      }
    }
  }

  lemma WithRestaurantKeepsInv(s: State, i: nat, r: Restaurant)
    requires Inv(s) && Replaces(s.restaurants, i, r)
    ensures Inv(WithRestaurant(s, i, r))
  {
    ReplacementKeepsRestaurants(s.restaurants, i, r);
    SyncKeepsCopies(s.restaurants, s.visits, i, r);
    forall k | 0 <= k < |s.wants| ensures Listed(s.restaurants[i := r], s.wants[k].restaurantId) {
      ReplacementKeepsListed(s.restaurants, i, r, s.wants[k].restaurantId);
    }
  }

  lemma AddedRestaurantKeepsInv(s: State, r: Restaurant)
    requires Inv(s) && r.id != NIL_ID && !Listed(s.restaurants, r.id)
    requires r.googlePlaceId.Some? ==> forall k :: 0 <= k < |s.restaurants| ==>
      s.restaurants[k].googlePlaceId != r.googlePlaceId
    ensures Inv(s.(restaurants := s.restaurants + [r]))
  {
    var rs := s.restaurants + [r];
    forall k | 0 <= k < |s.visits| ensures HasFacts(rs, s.visits[k].restaurant) {
      assert HasFacts(s.restaurants, s.visits[k].restaurant);
      var j :| 0 <= j < |s.restaurants| && SameFacts(s.restaurants[j], s.visits[k].restaurant);
      assert SameFacts(rs[j], s.visits[k].restaurant);
    }
    forall k | 0 <= k < |s.wants| ensures Listed(rs, s.wants[k].restaurantId) {
      assert Listed(s.restaurants, s.wants[k].restaurantId);
      var j :| 0 <= j < |s.restaurants| && s.restaurants[j].id == s.wants[k].restaurantId;
      assert rs[j].id == s.wants[k].restaurantId;
    }
  }

  lemma NoConflictMeansUnowned(rs: seq<Restaurant>, i: nat, placeId: Option<string>)
    requires RestaurantsOk(rs) && i < |rs| && placeId.Some? && Conflict(rs, rs[i], placeId).None?
    ensures rs[i].googlePlaceId == placeId
         || (rs[i].googlePlaceId.None? && forall k :: 0 <= k < |rs| ==> rs[k].googlePlaceId != placeId)
  {
    if rs[i].googlePlaceId != placeId {
      forall k | 0 <= k < |rs| ensures rs[k].googlePlaceId != placeId {
        assert k != i ==> rs[k].id != rs[i].id;
      }
    }
  }

  /** A place ID that no restaurant has, unless the first restaurant with it is the target. */
  lemma MatchedReplaces(rs: seq<Restaurant>, d: Details, now: Time)
    requires RestaurantsOk(rs) && TargetOf(rs, d).Matched?
    ensures Replaces(rs, TargetOf(rs, d).i, Filled(rs[TargetOf(rs, d).i], d, now))
  {
    var i := TargetOf(rs, d).i;
    if d.placeId.Some? && PlaceIndex(rs, d.placeId.value) == |rs| {
      assert forall k :: 0 <= k < |rs| ==> rs[k].googlePlaceId != d.placeId;
    }
    assert forall k :: 0 <= k < |rs| && k != i && rs[i].googlePlaceId.Some? ==>
      rs[k].googlePlaceId != rs[i].googlePlaceId;
  }

  lemma ChosenReplaces(rs: seq<Restaurant>, d: Details, now: Time)
    requires RestaurantsOk(rs) && TargetOf(rs, d).Chosen?
    ensures Replaces(rs, TargetOf(rs, d).i, Filled(rs[TargetOf(rs, d).i], WithoutPlaceDetails(d), now))
  {
    var i := TargetOf(rs, d).i;
    if d.placeId.Some? {
      NoConflictMeansUnowned(rs, i, d.placeId);
    }
    assert forall k :: 0 <= k < |rs| && k != i && rs[i].googlePlaceId.Some? ==>
      rs[k].googlePlaceId != rs[i].googlePlaceId;
  }

  /**
   Resolving keeps the invariant and yields a restaurant of the resulting list, touching nothing but
   restaurants and copies.
   */
  lemma ResolveKeepsInv(s: State, d: Details, stamp: Stamp)
    requires Inv(s) && stamp.restaurantId != NIL_ID && !Listed(s.restaurants, stamp.restaurantId)
    requires Resolve(s, d, stamp).Ok?
    ensures var (s1, r) := Resolve(s, d, stamp).value;
            && Inv(s1)
            && s1.people == s.people && s1.tags == s.tags && s1.wants == s.wants
            && |s1.visits| == |s.visits|
            && (forall k :: 0 <= k < |s.visits| ==>
                  s1.visits[k].id == s.visits[k].id && s1.visits[k].photos == s.visits[k].photos)
            && (exists i :: 0 <= i < |s1.restaurants| && s1.restaurants[i] == r)
  {
    var (s1, r) := Resolve(s, d, stamp).value;
    match TargetOf(s.restaurants, d)
    case Chosen(i) =>
      ChosenReplaces(s.restaurants, d, stamp.now);
      WithRestaurantKeepsInv(s, i, r);
      assert s1.restaurants[i] == r;
    case Matched(i) =>
      MatchedReplaces(s.restaurants, d, stamp.now);
      WithRestaurantKeepsInv(s, i, r);
      assert s1.restaurants[i] == r;
    case Unseen =>
      AddedRestaurantKeepsInv(s, r);
      assert s1.restaurants[|s.restaurants|] == r;
    case Refused(_) =>
  }

  // ---- Visits and list items change ----

  lemma AddedVisitKeepsInv(s: State, v: Visit)
    requires Inv(s) && (forall k :: 0 <= k < |s.visits| ==> s.visits[k].id != v.id)
    requires HasFacts(s.restaurants, v.restaurant) && ValidPhotos(v.id, v.photos)
    ensures Inv(s.(visits := s.visits + [v]))
  {
  }

  lemma NewTagKeepsDistinct(s: State, newTag: Option<string>, stamp: Stamp)
    requires DistinctTags(s.tags) && FreshStamp(s, stamp)
    ensures DistinctTags(s.tags + NewTags(newTag, stamp.tagId))
  {
  }

  lemma ReplacedVisitKeepsInv(s: State, k: nat, v: Visit)
    requires Inv(s) && k < |s.visits| && v.id == s.visits[k].id
    requires HasFacts(s.restaurants, v.restaurant) && ValidPhotos(v.id, v.photos)
    ensures Inv(s.(visits := s.visits[k := v]))
  {
  }

  lemma MarkingKeepsWants(rs: seq<Restaurant>, wants: seq<Want>, restaurantId: Id, now: Time)
    requires WantsOk(rs, wants)
    ensures WantsOk(rs, MarkedDone(wants, restaurantId, now))
  {
  }

  lemma SavingKeepsWants(
    rs: seq<Restaurant>, wants: seq<Want>, restaurantId: Id, suggester: Option<Id>, note: Option<string>,
    stamp: Stamp)
    requires WantsOk(rs, wants) && Listed(rs, restaurantId)
    requires forall k :: 0 <= k < |wants| ==> wants[k].id != stamp.wantId
    ensures WantsOk(rs, Saved(wants, restaurantId, suggester, note, stamp))
  {
  }

  lemma {:induction false} UnlistedMembers(wants: seq<Want>, restaurantId: Id)
    ensures forall w :: w in Unlisted(wants, restaurantId) <==> w in wants && w.restaurantId != restaurantId
  {
    if wants != [] {
      var n := |wants| - 1;
      UnlistedMembers(wants[..n], restaurantId);
      assert wants == wants[..n] + [wants[n]];
    }
  }

  ghost predicate DistinctWants(wants: seq<Want>) {
    forall i, j :: 0 <= i < j < |wants| ==>
      wants[i].id != wants[j].id && wants[i].restaurantId != wants[j].restaurantId
  }

  lemma {:induction false} UnlistedDistinct(wants: seq<Want>, restaurantId: Id)
    requires DistinctWants(wants)
    ensures DistinctWants(Unlisted(wants, restaurantId))
  {
    if wants != [] {
      var n := |wants| - 1;
      UnlistedDistinct(wants[..n], restaurantId);
      UnlistedMembers(wants[..n], restaurantId);
      var rest := Unlisted(wants[..n], restaurantId);
      forall i | 0 <= i < |rest| ensures rest[i].id != wants[n].id && rest[i].restaurantId != wants[n].restaurantId {
        assert rest[i] in wants[..n];
      }
    }
  }

  // ---- Each operation keeps the invariant ----

  lemma PhotosOfNewVisit(visitId: Id, photos: seq<Photo>, ids: seq<Id>, now: Time)
    requires ValidEdit([], photos, ids)
    ensures ValidPhotos(visitId, NewPhotos(visitId, photos, ids, now))
  {
  }

  lemma CreateKeepsInv(s: State, dine: Dine, cancelled: bool, stamp: Stamp)
    requires Inv(s) && Allowed(s, Create(dine, cancelled, stamp))
    ensures Inv(CreateVisit(s, dine, cancelled, stamp).state)
  {
    if CreateVisit(s, dine, cancelled, stamp).result.Ok? {
      ResolveKeepsInv(s, dine.details, stamp);
      var (s1, r) := Resolve(s, dine.details, stamp).value;
      var v := NewVisit(s1, dine, r, PickerOf(s.people, dine.pickerId).value, stamp);
      PhotosOfNewVisit(stamp.visitId, dine.photos, stamp.photoIds, stamp.now);
      assert HasFacts(s1.restaurants, r) by {
        var i :| 0 <= i < |s1.restaurants| && s1.restaurants[i] == r;
        assert SameFacts(s1.restaurants[i], r);
      }
      AddedVisitKeepsInv(s1, v);
      NewTagKeepsDistinct(s, dine.newTag, stamp);
      MarkingKeepsWants(s1.restaurants, s1.wants, r.id, stamp.now);
    }
  }

  lemma EditKeepsInv(s: State, id: Id, dine: Dine, cancelled: bool, stamp: Stamp)
    requires Inv(s) && Allowed(s, Edit(id, dine, cancelled, stamp))
    ensures Inv(UpdateVisit(s, id, dine, cancelled, stamp).state)
  {
    var outcome := UpdateVisit(s, id, dine, cancelled, stamp);
    if outcome.result.Ok? {
      var i := RestaurantIndex(s.restaurants, dine.details.restaurantId.value);
      var k := VisitIndex(s.visits, id);
      var r, v := s.restaurants[i], s.visits[k];
      var edited := EditedVisit(s, v, dine, r, PickerOf(s.people, dine.pickerId).value, stamp);
      forall j | 0 <= j < |stamp.photoIds| ensures stamp.photoIds[j] !in ById(v.photos).Keys {
      }
      EditKeepsPhotosValid(v.photos, v.id, dine.keepPhotoIds, dine.photos, stamp.photoIds, stamp.now);
      assert HasFacts(s.restaurants, r) by {
        assert SameFacts(s.restaurants[i], r);
      }
      ReplacedVisitKeepsInv(s, k, edited);
      NewTagKeepsDistinct(s, dine.newTag, stamp);
      MarkingKeepsWants(s.restaurants, s.wants, r.id, stamp.now);
    }
  }

  lemma RemoveVisitKeepsInv(s: State, id: Id)
    requires Inv(s)
    ensures Inv(DeleteVisit(s, id))
  {
  }

  /** Where the elements of a list are once one is gone. */
  lemma WithoutShifts<T>(xs: seq<T>, i: nat)
    requires i < |xs|
    ensures |Without(xs, i)| == |xs| - 1
    ensures forall k :: 0 <= k < i ==> Without(xs, i)[k] == xs[k]
    ensures forall k :: i <= k < |xs| - 1 ==> Without(xs, i)[k] == xs[k + 1]
  {
  }

  lemma RemainingRestaurant(rs: seq<Restaurant>, i: nat, j: nat)
    requires i < |rs| && j < |rs| && i != j
    ensures exists k :: 0 <= k < |Without(rs, i)| && Without(rs, i)[k] == rs[j]
  {
    WithoutShifts(rs, i);
    assert Without(rs, i)[if j < i then j else j - 1] == rs[j];
  }

  lemma UnvisitedKeepsCopies(rs: seq<Restaurant>, visits: seq<Visit>, i: nat)
    requires CopiesAgree(rs, visits) && i < |rs|
    requires forall k :: 0 <= k < |visits| ==> visits[k].restaurant.id != rs[i].id
    ensures CopiesAgree(Without(rs, i), visits)
  {
    forall k | 0 <= k < |visits| ensures HasFacts(Without(rs, i), visits[k].restaurant) {
      var j :| 0 <= j < |rs| && SameFacts(rs[j], visits[k].restaurant);
      RemainingRestaurant(rs, i, j);
    }
  }

  lemma UnlistedKeepsWants(rs: seq<Restaurant>, wants: seq<Want>, i: nat)
    requires WantsOk(rs, wants) && i < |rs|
    ensures WantsOk(Without(rs, i), Unlisted(wants, rs[i].id))
  {
    var left := Unlisted(wants, rs[i].id);
    UnlistedMembers(wants, rs[i].id);
    UnlistedDistinct(wants, rs[i].id);
    forall k | 0 <= k < |left| ensures Listed(Without(rs, i), left[k].restaurantId) {
      assert left[k] in wants;
      var j :| 0 <= j < |rs| && rs[j].id == left[k].restaurantId;
      RemainingRestaurant(rs, i, j);
    }
  }

  lemma WithoutKeepsRestaurants(rs: seq<Restaurant>, i: nat)
    requires RestaurantsOk(rs) && i < |rs|
    ensures RestaurantsOk(Without(rs, i))
  {
    WithoutShifts(rs, i);
  }

  lemma RemoveRestaurantKeepsInv(s: State, id: Id)
    requires Inv(s)
    ensures Inv(DeleteRestaurantIfUnvisited(s, id).state)
  {
    if DeleteRestaurantIfUnvisited(s, id).result == Ok(true) {
      var i := RestaurantIndex(s.restaurants, id);
      WithoutKeepsRestaurants(s.restaurants, i);
      UnvisitedKeepsCopies(s.restaurants, s.visits, i);
      UnlistedKeepsWants(s.restaurants, s.wants, i);
    }
  }

  lemma ToggleKeepsInv(s: State, id: Id, isChain: bool, stamp: Stamp)
    requires Inv(s)
    ensures Inv(ToggleChain(s, id, isChain, stamp))
  {
    var s' := ToggleChain(s, id, isChain, stamp);
    forall i | 0 <= i < |s.restaurants|
      ensures s'.restaurants[i].id == s.restaurants[i].id
      ensures s'.restaurants[i].googlePlaceId == s.restaurants[i].googlePlaceId
    {
    }
    forall k | 0 <= k < |s'.visits| ensures HasFacts(s'.restaurants, s'.visits[k].restaurant) {
      var j :| 0 <= j < |s.restaurants| && SameFacts(s.restaurants[j], s.visits[k].restaurant);
      assert SameFacts(s'.restaurants[j], s'.visits[k].restaurant);
    }
    forall k | 0 <= k < |s.wants| ensures Listed(s'.restaurants, s.wants[k].restaurantId) {
      var j :| 0 <= j < |s.restaurants| && s.restaurants[j].id == s.wants[k].restaurantId;
      assert s'.restaurants[j].id == s.wants[k].restaurantId;
    }
  }

  lemma SaveKeepsInv(s: State, d: Details, suggester: Option<Id>, note: Option<string>, stamp: Stamp)
    requires Inv(s) && Allowed(s, Save(d, suggester, note, stamp))
    ensures Inv(SaveWantToTry(s, d, suggester, note, stamp).state)
  {
    if SaveWantToTry(s, d, suggester, note, stamp).result.Ok? {
      ResolveKeepsInv(s, d, stamp);
      var (s1, r) := Resolve(s, d, stamp).value;
      SavingKeepsWants(s1.restaurants, s1.wants, r.id, suggester, note, stamp);
    }
  }

  lemma SameIdentityReplaces(rs: seq<Restaurant>, i: nat, r: Restaurant)
    requires RestaurantsOk(rs) && i < |rs| && r.id == rs[i].id && r.googlePlaceId == rs[i].googlePlaceId
    ensures Replaces(rs, i, r)
  {
    assert forall k :: 0 <= k < |rs| && k != i && rs[i].googlePlaceId.Some? ==>
      rs[k].googlePlaceId != rs[i].googlePlaceId;
  }

  lemma StepKeepsInv(s: State, op: Op)
    requires Inv(s) && Allowed(s, op)
    ensures Inv(Step(s, op))
  {
    match op
    case Create(dine, cancelled, stamp) => CreateKeepsInv(s, dine, cancelled, stamp);
    case Edit(id, dine, cancelled, stamp) => EditKeepsInv(s, id, dine, cancelled, stamp);
    case RemoveVisit(id) => RemoveVisitKeepsInv(s, id);
    case RemoveRestaurant(id) => RemoveRestaurantKeepsInv(s, id);
    case Reprofile(id, profile, stamp) =>
      var i := RestaurantIndex(s.restaurants, id);
      if i < |s.restaurants| {
        SameIdentityReplaces(s.restaurants, i, Profiled(s.restaurants[i], profile, stamp.now));
        WithRestaurantKeepsInv(s, i, Profiled(s.restaurants[i], profile, stamp.now));
      }
    case Refresh(id, metadata, category, stamp) =>
      var i := RestaurantIndex(s.restaurants, id);
      if i < |s.restaurants| {
        SameIdentityReplaces(s.restaurants, i, Overwritten(s.restaurants[i], metadata, category, stamp.now));
        WithRestaurantKeepsInv(s, i, Overwritten(s.restaurants[i], metadata, category, stamp.now));
      }
    case Toggle(id, isChain, stamp) => ToggleKeepsInv(s, id, isChain, stamp);
    case Save(details, suggester, note, stamp) => SaveKeepsInv(s, details, suggester, note, stamp);
    case RemoveWant(id) =>
  }

  // ---- Runs ----

  /** A run: every operation is allowed where it happens. */
  ghost predicate IsRun(s: State, ops: seq<Op>)
    requires Inv(s)
    decreases |ops|
  {
    ops == [] || (Allowed(s, ops[0]) && (StepKeepsInv(s, ops[0]); IsRun(Step(s, ops[0]), ops[1..])))
  }

  /** Where a run leads. Places and identifiers stay unique, copies current, and no restaurant has two list items. */
  ghost function After(s: State, ops: seq<Op>): (s': State)
    requires Inv(s) && IsRun(s, ops)
    ensures Inv(s')
    decreases |ops|
  {
    if ops == [] then s
    else
      StepKeepsInv(s, ops[0]);
      After(Step(s, ops[0]), ops[1..])
  }
}
