/** What a caller of the memory store can rely on: when calls fail, what they leave alone, and what never changes. */
module StoreGuarantees {
  import opened Wrappers
  import opened Ledger
  import opened PhotoEdits
  import opened StoreSpec
  import opened StoreInvariants
  import Validation

  // ---- When calls fail ----

  predicate KnownPerson(people: seq<Person>, id: Option<Id>) {
    id.Some? ==> exists i :: 0 <= i < |people| && people[i].id == id.value
  }

  predicate OwnedPlace(rs: seq<Restaurant>, placeId: string) {
    exists i :: 0 <= i < |rs| && rs[i].googlePlaceId == Some(placeId)
  }

  /** The chosen restaurant has a place already, or lacks one that another has. */
  predicate PlaceRefused(rs: seq<Restaurant>, d: Details) {
    && d.restaurantId.Some? && d.placeId.Some?
    && exists i :: 0 <= i < |rs| && rs[i].id == d.restaurantId.value
                && rs[i].googlePlaceId != d.placeId
                && (rs[i].googlePlaceId.Some? || OwnedPlace(rs, d.placeId.value))
  }

  predicate HasVisit(visits: seq<Visit>, id: Id) {
    exists k :: 0 <= k < |visits| && visits[k].id == id
  }

  predicate HasPhoto(photos: seq<Photo>, id: Id) {
    exists j :: 0 <= j < |photos| && photos[j].id == id
  }

  predicate KeepsItsPhotos(visits: seq<Visit>, id: Id, keep: seq<Id>) {
    forall k, n :: 0 <= k < |visits| && visits[k].id == id && 0 <= n < |keep| ==> HasPhoto(visits[k].photos, keep[n])
  }

  lemma PickerKnown(people: seq<Person>, id: Option<Id>)
    ensures PickerOf(people, id).Ok? <==> KnownPerson(people, id)
    ensures PickerOf(people, id).Err? ==> PickerOf(people, id).error == UnknownPicker
  {
    if id.Some? && PersonIndex(people, id.value) < |people| {
      assert people[PersonIndex(people, id.value)].id == id.value;
    }
  }

  lemma ListedHasIndex(rs: seq<Restaurant>, id: Id)
    ensures Listed(rs, id) <==> RestaurantIndex(rs, id) < |rs|
  {
    if RestaurantIndex(rs, id) < |rs| {
      assert rs[RestaurantIndex(rs, id)].id == id;
    }
  }

  lemma VisitHasIndex(visits: seq<Visit>, id: Id)
    ensures HasVisit(visits, id) <==> VisitIndex(visits, id) < |visits|
  {
    if VisitIndex(visits, id) < |visits| {
      assert visits[VisitIndex(visits, id)].id == id;
    }
  }

  lemma OnlyAt(rs: seq<Restaurant>, i: nat, id: Id)
    requires RestaurantsOk(rs) && i < |rs| && rs[i].id == id
    ensures RestaurantIndex(rs, id) == i
  {
  }

  lemma ConflictMeansRefused(rs: seq<Restaurant>, d: Details)
    requires RestaurantsOk(rs) && d.restaurantId.Some? && RestaurantIndex(rs, d.restaurantId.value) < |rs|
    ensures Conflict(rs, rs[RestaurantIndex(rs, d.restaurantId.value)], d.placeId).Some? <==> PlaceRefused(rs, d)
  {
    var i := RestaurantIndex(rs, d.restaurantId.value);
    if d.placeId.Some? && Conflict(rs, rs[i], d.placeId).Some? {
      var owner := First(rs, (r: Restaurant) => r.id != rs[i].id && r.googlePlaceId == d.placeId);
      assert owner < |rs| ==> rs[owner].googlePlaceId == Some(d.placeId.value);
    }
    if PlaceRefused(rs, d) {
      var j :| 0 <= j < |rs| && rs[j].id == d.restaurantId.value && rs[j].googlePlaceId != d.placeId
            && (rs[j].googlePlaceId.Some? || OwnedPlace(rs, d.placeId.value));
      OnlyAt(rs, j, d.restaurantId.value);
      if rs[i].googlePlaceId.None? {
        var k :| 0 <= k < |rs| && rs[k].googlePlaceId == Some(d.placeId.value);
        assert rs[k].id != rs[i].id;
      }
    }
  }

  /** Resolving a restaurant fails exactly when a listed chosen one is refused the place. */
  lemma ResolveFailsIff(s: State, d: Details, stamp: Stamp)
    requires RestaurantsOk(s.restaurants)
    ensures Resolve(s, d, stamp).Err? <==> PlaceRefused(s.restaurants, d)
  {
    if d.restaurantId.Some? {
      if RestaurantIndex(s.restaurants, d.restaurantId.value) < |s.restaurants| {
        ConflictMeansRefused(s.restaurants, d);
      } else {
        ListedHasIndex(s.restaurants, d.restaurantId.value);
      }
    }
  }

  /** The error names the chosen restaurant, and the other one that has the place, if one has. */
  predicate ExplainsRefusal(rs: seq<Restaurant>, d: Details, error: Error) {
    && error.PlaceConflict? && d.restaurantId.Some? && d.placeId.Some?
    && (exists i :: 0 <= i < |rs| && rs[i].id == d.restaurantId.value && rs[i].name == error.restaurant)
    && (error.owner.Some? <==>
          exists j :: 0 <= j < |rs| && rs[j].id != d.restaurantId.value && rs[j].googlePlaceId == d.placeId)
    && (error.owner.Some? ==>
          exists j :: 0 <= j < |rs| && rs[j].id != d.restaurantId.value && rs[j].googlePlaceId == d.placeId
                      && rs[j].name == error.owner.value)
  }

  lemma RefusalIsExplained(s: State, d: Details, stamp: Stamp)
    requires Resolve(s, d, stamp).Err?
    ensures ExplainsRefusal(s.restaurants, d, Resolve(s, d, stamp).error)
  {
    var rs := s.restaurants;
    var i := RestaurantIndex(rs, d.restaurantId.value);
    var owner := First(rs, (r: Restaurant) => r.id != rs[i].id && r.googlePlaceId == d.placeId);
    assert rs[i].id == d.restaurantId.value;
    assert owner < |rs| ==> rs[owner].id != d.restaurantId.value && rs[owner].googlePlaceId == d.placeId;
  }

  /** A new dine fails exactly for these reasons, and then changes nothing. */
  lemma CreateFailsIff(s: State, dine: Dine, cancelled: bool, stamp: Stamp)
    requires Inv(s) && |stamp.photoIds| == |dine.photos|
    ensures CreateVisit(s, dine, cancelled, stamp).result.Err?
       <==> (cancelled || !KnownPerson(s.people, dine.pickerId) || PlaceRefused(s.restaurants, dine.details))
    ensures CreateVisit(s, dine, cancelled, stamp).result.Err? ==> CreateVisit(s, dine, cancelled, stamp).state == s
    ensures CreateVisit(s, dine, cancelled, stamp).result.Err? ==>
      var error := CreateVisit(s, dine, cancelled, stamp).result.error;
      if cancelled then error == Cancelled
      else if !KnownPerson(s.people, dine.pickerId) then error == UnknownPicker
      else ExplainsRefusal(s.restaurants, dine.details, error)
  {
    if Resolve(s, dine.details, stamp).Err? {
      RefusalIsExplained(s, dine.details, stamp);
    }
    PickerKnown(s.people, dine.pickerId);
    ResolveFailsIff(s, dine.details, stamp);
  }

  lemma KeptPhotosAreThere(photos: seq<Photo>, keep: seq<Id>)
    requires DistinctPhotos(photos)
    ensures AllIn(keep, ById(photos)) <==> forall n :: 0 <= n < |keep| ==> HasPhoto(photos, keep[n])
  {
    forall n | 0 <= n < |keep| ensures keep[n] in ById(photos) <==> HasPhoto(photos, keep[n]) {
    }
  }

  /** An edit fails exactly for these reasons, and then changes nothing. */
  lemma EditFailsIff(s: State, id: Id, dine: Dine, cancelled: bool, stamp: Stamp)
    requires Inv(s) && |stamp.photoIds| == |dine.photos|
    ensures UpdateVisit(s, id, dine, cancelled, stamp).result.Err?
       <==> (cancelled || dine.details.restaurantId.None? || !Listed(s.restaurants, dine.details.restaurantId.value)
             || !KnownPerson(s.people, dine.pickerId) || !HasVisit(s.visits, id)
             || !KeepsItsPhotos(s.visits, id, dine.keepPhotoIds))
    ensures UpdateVisit(s, id, dine, cancelled, stamp).result.Err? ==>
      UpdateVisit(s, id, dine, cancelled, stamp).state == s
    ensures UpdateVisit(s, id, dine, cancelled, stamp).result.Err? ==>
      UpdateVisit(s, id, dine, cancelled, stamp).result.error
      == if dine.details.restaurantId.None? then RestaurantRequired
         else if cancelled then Cancelled
         else if !Listed(s.restaurants, dine.details.restaurantId.value) then RestaurantNotFound
         else if !KnownPerson(s.people, dine.pickerId) then UnknownPicker
         else if !HasVisit(s.visits, id) then VisitNotFound else NoSuchPhoto
  {
    PickerKnown(s.people, dine.pickerId);
    VisitHasIndex(s.visits, id);
    if dine.details.restaurantId.Some? {
      ListedHasIndex(s.restaurants, dine.details.restaurantId.value);
    }
    var k := VisitIndex(s.visits, id);
    if k < |s.visits| {
      KeptPhotosAreThere(s.visits[k].photos, dine.keepPhotoIds);
      assert forall j :: 0 <= j < |s.visits| && s.visits[j].id == id ==> j == k;
    }
  }

  /** validateFields and WantToTryInput.Validate ask for a restaurant ID or a name. */
  predicate NamesARestaurant(d: Details) {
    d.restaurantId.Some? || d.name != ""
  }

  /** The checks of a save's input: a restaurant, a short enough note, and metadata within Google's ranges. */
  predicate SaveInputOk(d: Details, note: Option<string>) {
    && NamesARestaurant(d) && (note.Some? ==> |note.value| <= MAX_NOTE_LENGTH)
    && Validation.GoogleOk(d.metadata.googleRating, d.metadata.googlePriceLevel)
  }

  /** A save fails exactly for these reasons, and then changes nothing. */
  lemma SaveFailsIff(s: State, d: Details, suggester: Option<Id>, note: Option<string>, stamp: Stamp)
    requires Inv(s)
    ensures SaveWantToTry(s, d, suggester, note, stamp).result.Err?
       <==> (!SaveInputOk(d, note) || !KnownPerson(s.people, suggester) || PlaceRefused(s.restaurants, d)
             || (d.restaurantId.Some? && !Listed(s.restaurants, d.restaurantId.value)))
    ensures SaveWantToTry(s, d, suggester, note, stamp).result.Err? ==>
      SaveWantToTry(s, d, suggester, note, stamp).state == s
    ensures SaveWantToTry(s, d, suggester, note, stamp).result.Err? ==>
      var error := SaveWantToTry(s, d, suggester, note, stamp).result.error;
      if !NamesARestaurant(d) then error == RestaurantRequired
      else if note.Some? && |note.value| > 500 then error == NoteTooLong
      else if !Validation.GoogleOk(d.metadata.googleRating, d.metadata.googlePriceLevel) then error == BadMetadata
      else if !KnownPerson(s.people, suggester) then error == UnknownPicker
      else if d.restaurantId.Some? && !Listed(s.restaurants, d.restaurantId.value) then error == RestaurantNotFound
      else ExplainsRefusal(s.restaurants, d, error)
  {
    if Resolve(s, d, stamp).Err? {
      RefusalIsExplained(s, d, stamp);
    }
    PickerKnown(s.people, suggester);
    ResolveFailsIff(s, d, stamp);
    if d.restaurantId.Some? {
      ListedHasIndex(s.restaurants, d.restaurantId.value);
    }
  }

  // ---- What resolving may change ----

  predicate FieldFilled<T(==)>(field: Option<T>, field': Option<T>) {
    field.Some? ==> field' == field
  }

  /** r' is r with empty fields filled, the time of the last update aside. */
  predicate OnlyFilled(r: Restaurant, r': Restaurant) {
    && r'.id == r.id && r'.name == r.name && r'.address == r.address && r'.isChain == r.isChain
    && r'.createdAt == r.createdAt
    && FieldFilled(r.city, r'.city) && FieldFilled(r.latitude, r'.latitude) && FieldFilled(r.longitude, r'.longitude)
    && FieldFilled(r.phone, r'.phone) && FieldFilled(r.website, r'.website)
    && FieldFilled(r.googlePlaceId, r'.googlePlaceId) && FieldFilled(r.googleRating, r'.googleRating)
    && FieldFilled(r.googlePriceLevel, r'.googlePriceLevel) && FieldFilled(r.category, r'.category)
  }

  /** One restaurant at most has changed, and only by filling; or one was added and none changed. */
  predicate FillsOneOrAddsOne(rs: seq<Restaurant>, rs': seq<Restaurant>) {
    || (|rs'| == |rs| + 1 && rs'[..|rs|] == rs)
    || (|rs'| == |rs| && exists i :: 0 <= i <= |rs| && ChangedOnlyAt(rs, rs', i))
  }

  predicate ChangedOnlyAt(rs: seq<Restaurant>, rs': seq<Restaurant>, i: nat)
    requires |rs'| == |rs|
  {
    forall k :: 0 <= k < |rs| ==> if k == i then OnlyFilled(rs[k], rs'[k]) else rs'[k] == rs[k]
  }

  lemma ResolveFills(s: State, d: Details, stamp: Stamp)
    requires Resolve(s, d, stamp).Ok?
    ensures FillsOneOrAddsOne(s.restaurants, Resolve(s, d, stamp).value.0.restaurants)
  {
    var rs' := Resolve(s, d, stamp).value.0.restaurants;
    match TargetOf(s.restaurants, d)
    case Chosen(i) => assert ChangedOnlyAt(s.restaurants, rs', i);
    case Matched(i) => assert ChangedOnlyAt(s.restaurants, rs', i);
    case Unseen =>
    case Refused(_) =>
  }

  /** Dines and saves never overwrite what is known of a restaurant. */
  lemma DinesAndSavesOnlyFill(s: State, op: Op)
    requires PhotosDistinct(s.visits)
    requires op.Save? || (op.Create? && |op.stamp.photoIds| == |op.dine.photos|)
    ensures FillsOneOrAddsOne(s.restaurants, Step(s, op).restaurants)
  {
    assert ChangedOnlyAt(s.restaurants, s.restaurants, 0);
    match op
    case Create(dine, cancelled, stamp) =>
      if Resolve(s, dine.details, stamp).Ok? {
        ResolveFills(s, dine.details, stamp);
      }
    case Save(details, suggester, note, stamp) =>
      if Resolve(s, details, stamp).Ok? {
        ResolveFills(s, details, stamp);
      }
  }

  // ---- Names ----

  ghost predicate AllNamed(rs: seq<Restaurant>) {
    forall i :: 0 <= i < |rs| ==> rs[i].name != ""
  }

  /** No restaurant has the input's place ID, nor its name and address. */
  predicate NothingMatches(rs: seq<Restaurant>, d: Details) {
    && (d.placeId.Some? ==> !OwnedPlace(rs, d.placeId.value))
    && (d.address.Some? ==> forall i :: 0 <= i < |rs| ==> !SameNameAndAddress(rs[i], d.name, d.address.value))
  }

  lemma FirstIff<T>(xs: seq<T>, fits: T -> bool)
    ensures First(xs, fits) < |xs| <==> exists i :: 0 <= i < |xs| && fits(xs[i])
  {
    if First(xs, fits) < |xs| {
      assert fits(xs[First(xs, fits)]);
    }
  }

  lemma UnseenIff(rs: seq<Restaurant>, d: Details)
    ensures TargetOf(rs, d).Unseen?
       <==> (d.restaurantId.Some? ==> !Listed(rs, d.restaurantId.value)) && NothingMatches(rs, d)
  {
    if d.restaurantId.Some? {
      ListedHasIndex(rs, d.restaurantId.value);
    }
    if d.placeId.Some? {
      FirstIff(rs, (r: Restaurant) => r.googlePlaceId == Some(d.placeId.value));
    }
    if d.address.Some? {
      var fits := (r: Restaurant) => SameNameAndAddress(r, d.name, d.address.value);
      FirstIff(rs, fits);
      assert forall i :: 0 <= i < |rs| ==> (fits(rs[i]) <==> SameNameAndAddress(rs[i], d.name, d.address.value));
    }
  }

  /** The dine is accepted, has no name to give, and falls through to the creation of a restaurant. */
  predicate AddsNameless(s: State, dine: Dine, cancelled: bool) {
    && !cancelled && KnownPerson(s.people, dine.pickerId)
    && dine.details.name == "" && NothingMatches(s.restaurants, dine.details)
    && (dine.details.restaurantId.Some? ==> !Listed(s.restaurants, dine.details.restaurantId.value))
  }

  /**
   A dine adds a nameless restaurant exactly when it gives no name, its chosen ID, if any, is unknown, and
   nothing else matches. The checks of its input rule that out only if no ID is chosen.
   */
  lemma DineKeepsNamesIff(s: State, dine: Dine, cancelled: bool, stamp: Stamp)
    requires AllNamed(s.restaurants) && |stamp.photoIds| == |dine.photos|
    ensures AllNamed(CreateVisit(s, dine, cancelled, stamp).state.restaurants) <==> !AddsNameless(s, dine, cancelled)
  {
    PickerKnown(s.people, dine.pickerId);
    UnseenIff(s.restaurants, dine.details);
    if !cancelled && KnownPerson(s.people, dine.pickerId) && TargetOf(s.restaurants, dine.details).Unseen? {
      var after := CreateVisit(s, dine, cancelled, stamp).state;
      assert after.restaurants == s.restaurants + [NewRestaurant(dine.details, stamp.restaurantId, stamp.now)];
      assert after.restaurants[|s.restaurants|].name == dine.details.name;
    }
  }

  /** A save checks the chosen ID first, so it never does. */
  lemma SaveKeepsNames(s: State, d: Details, suggester: Option<Id>, note: Option<string>, stamp: Stamp)
    requires AllNamed(s.restaurants)
    ensures AllNamed(SaveWantToTry(s, d, suggester, note, stamp).state.restaurants)
  {
  }

  /** Such a dine is the only way a nameless restaurant comes about. */
  lemma StepKeepsNamesIff(s: State, op: Op)
    requires Inv(s) && Allowed(s, op) && AllNamed(s.restaurants)
    ensures AllNamed(Step(s, op).restaurants) <==> !(op.Create? && AddsNameless(s, op.dine, op.cancelled))
  {
    if op.Create? {
      DineKeepsNamesIff(s, op.dine, op.cancelled, op.stamp);
    } else if op.Save? {
      SaveKeepsNames(s, op.details, op.suggester, op.note, op.stamp);
    } else if op.RemoveRestaurant? && Step(s, op).restaurants != s.restaurants {
      WithoutShifts(s.restaurants, RestaurantIndex(s.restaurants, op.id));
    }
  }

  /** A dine whose input is valid, at a restaurant deleted meanwhile, is recorded at a new one without a name. */
  lemma StaleChoiceAddsNameless(diner: Restaurant, dine: Dine, stamp: Stamp)
    requires diner.id == 1 && diner.name == "Diner" && |stamp.photoIds| == |dine.photos|
    ensures var s := State([], [], [diner], [], []);
            var stale := dine.(
              pickerId := None, details := Details(Some(2), "", None, None, None, NO_METADATA, None, false));
            && Inv(s) && AllNamed(s.restaurants) && NamesARestaurant(stale.details)
            && CreateVisit(s, stale, false, stamp).result.Ok?
            && !AllNamed(CreateVisit(s, stale, false, stamp).state.restaurants)
  {
    var s := State([], [], [diner], [], []);
    var stale := dine.(pickerId := None, details := Details(Some(2), "", None, None, None, NO_METADATA, None, false));
    assert s.restaurants[0].name == "Diner";
    DineKeepsNamesIff(s, stale, false, stamp);
  }

  // ---- A place ID stays ----

  ghost predicate PlacesStay(rs: seq<Restaurant>, rs': seq<Restaurant>) {
    forall i, j :: 0 <= i < |rs| && 0 <= j < |rs'| && rs[i].id == rs'[j].id && rs[i].googlePlaceId.Some? ==>
      rs'[j].googlePlaceId == rs[i].googlePlaceId
  }

  /** Same restaurants in the same places of the list, each with its place ID or a newly filled one. */
  lemma InPlacePlacesStay(rs: seq<Restaurant>, rs': seq<Restaurant>)
    requires RestaurantsOk(rs) && |rs| <= |rs'|
    requires forall k :: 0 <= k < |rs| ==>
      rs'[k].id == rs[k].id && FieldFilled(rs[k].googlePlaceId, rs'[k].googlePlaceId)
    requires forall k :: |rs| <= k < |rs'| ==> !Listed(rs, rs'[k].id)
    ensures PlacesStay(rs, rs')
  {
    forall i, j | 0 <= i < |rs| && 0 <= j < |rs'| && rs[i].id == rs'[j].id && rs[i].googlePlaceId.Some?
      ensures rs'[j].googlePlaceId == rs[i].googlePlaceId
    {
      if j < |rs| {
        assert rs[j].id == rs[i].id;
      }
    }
  }

  lemma ResolvePlacesStay(s: State, d: Details, stamp: Stamp)
    requires Inv(s) && FreshStamp(s, stamp) && Resolve(s, d, stamp).Ok?
    ensures PlacesStay(s.restaurants, Resolve(s, d, stamp).value.0.restaurants)
  {
    InPlacePlacesStay(s.restaurants, Resolve(s, d, stamp).value.0.restaurants);
  }

  lemma RemovalPlacesStay(rs: seq<Restaurant>, i: nat)
    requires RestaurantsOk(rs) && i < |rs|
    ensures PlacesStay(rs, Without(rs, i))
  {
    WithoutShifts(rs, i);
    InPlacePlacesStay(rs, rs);
  }

  lemma RestaurantEditPlacesStay(s: State, op: Op)
    requires Inv(s) && (op.Reprofile? || op.Refresh? || op.Toggle?)
    ensures PlacesStay(s.restaurants, Step(s, op).restaurants)
  {
    InPlacePlacesStay(s.restaurants, Step(s, op).restaurants);
  }

  lemma StepPlacesStay(s: State, op: Op)
    requires Inv(s) && Allowed(s, op)
    ensures PlacesStay(s.restaurants, Step(s, op).restaurants)
  {
    if op.Reprofile? || op.Refresh? || op.Toggle? {
      RestaurantEditPlacesStay(s, op);
    } else if op.RemoveRestaurant? && Step(s, op).restaurants != s.restaurants {
      RemovalPlacesStay(s.restaurants, RestaurantIndex(s.restaurants, op.id));
    } else if op.Create? && Resolve(s, op.dine.details, op.stamp).Ok? {
      ResolvePlacesStay(s, op.dine.details, op.stamp);
    } else if op.Save? && Resolve(s, op.details, op.stamp).Ok? {
      ResolvePlacesStay(s, op.details, op.stamp);
    }
    InPlacePlacesStay(s.restaurants, s.restaurants);
  }

  /** The restaurant is there before, throughout and after the run. */
  ghost predicate StaysListed(s: State, ops: seq<Op>, id: Id)
    requires Inv(s) && IsRun(s, ops)
    decreases |ops|
  {
    && Listed(s.restaurants, id)
    && (ops != [] ==> (StepKeepsInv(s, ops[0]); StaysListed(Step(s, ops[0]), ops[1..], id)))
  }

  predicate HasPlace(rs: seq<Restaurant>, id: Id, placeId: string) {
    exists i :: 0 <= i < |rs| && rs[i].id == id && rs[i].googlePlaceId == Some(placeId)
  }

  /** A place ID once set never changes while its restaurant exists, over any run. */
  lemma {:induction false} PlaceIsForGood(s: State, ops: seq<Op>, id: Id, placeId: string)
    requires Inv(s) && IsRun(s, ops) && StaysListed(s, ops, id) && HasPlace(s.restaurants, id, placeId)
    ensures HasPlace(After(s, ops).restaurants, id, placeId)
    decreases |ops|
  {
    if ops != [] {
      var s' := Step(s, ops[0]);
      StepKeepsInv(s, ops[0]);
      StepPlacesStay(s, ops[0]);
      assert HasPlace(s'.restaurants, id, placeId) by {
        assert Listed(s'.restaurants, id);
        var j :| 0 <= j < |s'.restaurants| && s'.restaurants[j].id == id;
        var i :| 0 <= i < |s.restaurants| && s.restaurants[i].id == id
          && s.restaurants[i].googlePlaceId == Some(placeId);
        assert s'.restaurants[j].googlePlaceId == Some(placeId);
      }
      PlaceIsForGood(s', ops[1..], id, placeId);
    }
  }
}
