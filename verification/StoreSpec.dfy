/**
 What each operation of the memory store does to its lists, as functions of the state before. The
 identifiers uuid.New yields, the clock and the iteration order of the ratings map come in a Stamp.
 Text arrives cleaned: trimmed, with None for blank.
 */
module StoreSpec {
  import opened Wrappers
  import opened Ledger
  import opened PhotoEdits
  import Text
  import Validation

  // ---- Inputs ----

  datatype Metadata = Metadata(
    latitude: Option<real>, longitude: Option<real>, phone: Option<string>, website: Option<string>,
    googleRating: Option<real>, googlePriceLevel: Option<int>)

  const NO_METADATA := Metadata(None, None, None, None, None, None)

  /** The restaurant an input chooses or describes. */
  datatype Details = Details(
    restaurantId: Option<Id>, name: string, address: Option<string>, city: Option<string>,
    placeId: Option<string>, metadata: Metadata, category: Option<string>, isChain: bool)

  datatype Dine = Dine(
    details: Details, visitedAt: Time, pickerId: Option<Id>, priceLevel: int, notes: Option<string>,
    ratings: map<Id, real>, tagIds: seq<Id>, newTag: Option<string>, keepPhotoIds: seq<Id>, photos: seq<Photo>)

  /** The fields of the restaurant edit form. */
  datatype Profile = Profile(
    name: string, address: Option<string>, city: Option<string>, phone: Option<string>, website: Option<string>,
    googleRating: Option<real>, googlePriceLevel: Option<int>, category: Option<string>, isChain: bool)

  datatype Stamp = Stamp(
    now: Time, restaurantId: Id, visitId: Id, tagId: Id, wantId: Id, photoIds: seq<Id>, raterOrder: seq<Id>)

  /** strPtrOrNil */
  function Clean(value: string): Option<string> {
    var trimmed := Text.Trim(value);
    if trimmed == "" then None else Some(trimmed)
  }

  predicate IsClean(value: Option<string>) {
    value.Some? ==> value.value != "" && Text.Trim(value.value) == value.value
  }

  lemma CleanedTextIsClean(value: string)
    ensures IsClean(Clean(value))
  {
    Text.TrimIdempotent(value);
  }

  // ---- Checks of inputs ----

  const MAX_NOTE_LENGTH := 500

  /** RestaurantInput.Validate */
  function ProfileError(p: Profile): Option<Error> {
    if p.name == "" then Some(NameRequired)
    else if !Validation.GoogleOk(p.googleRating, p.googlePriceLevel) then Some(BadMetadata)
    else None
  }

  /** WantToTryInput.Validate */
  function SaveError(d: Details, note: Option<string>): Option<Error> {
    if d.restaurantId.None? && d.name == "" then Some(RestaurantRequired)
    else if note.Some? && |note.value| > MAX_NOTE_LENGTH then Some(NoteTooLong)
    else if !Validation.GoogleOk(d.metadata.googleRating, d.metadata.googlePriceLevel) then Some(BadMetadata)
    else None
  }

  // ---- State ----

  datatype Want = Want(
    id: Id, restaurantId: Id, suggestedById: Option<Id>, note: Option<string>, createdAt: Time, doneAt: Option<Time>)

  datatype State = State(
    people: seq<Person>, tags: seq<Tag>, restaurants: seq<Restaurant>, visits: seq<Visit>, wants: seq<Want>)

  datatype Error =
    | Cancelled
    | UnknownPicker
    | PlaceConflict(restaurant: string, owner: Option<string>)
    | RestaurantRequired
    | RestaurantNotFound
    | VisitNotFound
    | NoSuchPhoto
    | NameRequired
    | NoteTooLong
    | BadMetadata

  datatype Outcome<T> = Outcome(state: State, result: Result<T, Error>)

  // ---- Searching ----

  /** The position of the first element that fits, or the length. */
  function First<T>(xs: seq<T>, fits: T -> bool): (i: nat)
    ensures i <= |xs|
    ensures forall k :: 0 <= k < i ==> !fits(xs[k])
    ensures i < |xs| ==> fits(xs[i])
  {
    if xs == [] || fits(xs[0]) then 0 else 1 + First(xs[1..], fits)
  }

  function RestaurantIndex(rs: seq<Restaurant>, id: Id): nat {
    First(rs, (r: Restaurant) => r.id == id)
  }

  function PlaceIndex(rs: seq<Restaurant>, placeId: string): nat {
    First(rs, (r: Restaurant) => r.googlePlaceId == Some(placeId))
  }

  predicate SameNameAndAddress(r: Restaurant, name: string, address: string) {
    && r.address.Some?
    && Text.EqualFold(Text.Trim(r.name), name)
    && Text.EqualFold(Text.Trim(r.address.value), address)
  }

  function NameIndex(rs: seq<Restaurant>, name: string, address: string): nat {
    First(rs, (r: Restaurant) => SameNameAndAddress(r, name, address))
  }

  function VisitIndex(visits: seq<Visit>, id: Id): nat {
    First(visits, (v: Visit) => v.id == id)
  }

  function WantIndex(wants: seq<Want>, id: Id): nat {
    First(wants, (w: Want) => w.id == id)
  }

  function ListedIndex(wants: seq<Want>, restaurantId: Id): nat {
    First(wants, (w: Want) => w.restaurantId == restaurantId)
  }

  function PersonIndex(people: seq<Person>, id: Id): nat {
    First(people, (p: Person) => p.id == id)
  }

  function TagIndex(tags: seq<Tag>, id: Id): nat {
    First(tags, (t: Tag) => t.id == id)
  }

  function Without<T>(xs: seq<T>, i: nat): seq<T>
    requires i < |xs|
  {
    xs[..i] + xs[i + 1..]
  }

  // ---- Restaurants ----

  function Keep<T>(old': Option<T>, given: Option<T>): Option<T> {
    if old'.Some? then old' else given
  }

  predicate Fills<T>(old': Option<T>, given: Option<T>) {
    old'.None? && given.Some?
  }

  function Replace<T>(old': Option<T>, given: Option<T>): Option<T> {
    if given.Some? then given else old'
  }

  /** updateRestaurantMetadata: fills what the restaurant lacks. */
  function Filled(r: Restaurant, d: Details, now: Time): Restaurant {
    r.(googlePlaceId := Keep(r.googlePlaceId, d.placeId),
       city := Keep(r.city, d.city),
       latitude := Keep(r.latitude, d.metadata.latitude),
       longitude := Keep(r.longitude, d.metadata.longitude),
       phone := Keep(r.phone, d.metadata.phone),
       website := Keep(r.website, d.metadata.website),
       googleRating := Keep(r.googleRating, d.metadata.googleRating),
       googlePriceLevel := Keep(r.googlePriceLevel, d.metadata.googlePriceLevel),
       category := Keep(r.category, d.category),
       updatedAt := if FillsSomething(r, d) then now else r.updatedAt)
  }

  predicate FillsSomething(r: Restaurant, d: Details) {
    || Fills(r.googlePlaceId, d.placeId) || Fills(r.city, d.city)
    || Fills(r.latitude, d.metadata.latitude) || Fills(r.longitude, d.metadata.longitude)
    || Fills(r.phone, d.metadata.phone) || Fills(r.website, d.metadata.website)
    || Fills(r.googleRating, d.metadata.googleRating) || Fills(r.googlePriceLevel, d.metadata.googlePriceLevel)
    || Fills(r.category, d.category)
  }

  /** applyGoogleMetadata with overwrite: replaces what the metadata has. */
  function Overwritten(r: Restaurant, m: Metadata, category: Option<string>, now: Time): Restaurant {
    r.(latitude := Replace(r.latitude, m.latitude),
       longitude := Replace(r.longitude, m.longitude),
       phone := Replace(r.phone, m.phone),
       website := Replace(r.website, m.website),
       googleRating := Replace(r.googleRating, m.googleRating),
       googlePriceLevel := Replace(r.googlePriceLevel, m.googlePriceLevel),
       category := Replace(r.category, category),
       updatedAt := if m != NO_METADATA || category.Some? then now else r.updatedAt)
  }

  function Profiled(r: Restaurant, p: Profile, now: Time): Restaurant {
    r.(name := p.name, address := p.address, city := p.city, phone := p.phone, website := p.website,
       googleRating := p.googleRating, googlePriceLevel := p.googlePriceLevel, category := p.category,
       isChain := p.isChain, updatedAt := now)
  }

  function NewRestaurant(d: Details, id: Id, now: Time): Restaurant {
    Restaurant(id, d.name, d.address, d.city, d.metadata.latitude, d.metadata.longitude, d.metadata.phone,
               d.metadata.website, d.placeId, d.metadata.googleRating, d.metadata.googlePriceLevel, d.category,
               d.isChain, now, now)
  }

  /** withoutPlaceDetails */
  function WithoutPlaceDetails(d: Details): Details {
    if d.placeId.None? then d.(metadata := NO_METADATA, city := None) else d
  }

  /** syncRestaurant: the visits there carry this copy. */
  function Synced(visits: seq<Visit>, r: Restaurant): (synced: seq<Visit>)
    ensures |synced| == |visits|
    ensures forall k :: 0 <= k < |visits| ==>
      synced[k] == if visits[k].restaurant.id == r.id then visits[k].(restaurant := r) else visits[k]
  {
    seq(|visits|, k requires 0 <= k < |visits| =>
      if visits[k].restaurant.id == r.id then visits[k].(restaurant := r) else visits[k])
  }

  function WithRestaurant(s: State, i: nat, r: Restaurant): State
    requires i < |s.restaurants|
  {
    s.(restaurants := s.restaurants[i := r], visits := Synced(s.visits, r))
  }

  /** The restaurant an input leads to. */
  datatype Target = Chosen(i: nat) | Matched(i: nat) | Unseen | Refused(error: Error)

  function Conflict(rs: seq<Restaurant>, chosen: Restaurant, placeId: Option<string>): Option<Error> {
    if placeId.None? || chosen.googlePlaceId == placeId then None
    else
      var owner := First(rs, (r: Restaurant) => r.id != chosen.id && r.googlePlaceId == placeId);
      if owner < |rs| then Some(PlaceConflict(chosen.name, Some(rs[owner].name)))
      else if chosen.googlePlaceId.Some? then Some(PlaceConflict(chosen.name, None))
      else None
  }

  function TargetOf(rs: seq<Restaurant>, d: Details): (t: Target)
    ensures t.Chosen? || t.Matched? ==> t.i < |rs|
  {
    if d.restaurantId.Some? && RestaurantIndex(rs, d.restaurantId.value) < |rs| then
      var i := RestaurantIndex(rs, d.restaurantId.value);
      match Conflict(rs, rs[i], d.placeId)
      case Some(error) => Refused(error)
      case None => Chosen(i)
    else if d.placeId.Some? && PlaceIndex(rs, d.placeId.value) < |rs| then Matched(PlaceIndex(rs, d.placeId.value))
    else if d.address.Some? && NameIndex(rs, d.name, d.address.value) < |rs| then
      Matched(NameIndex(rs, d.name, d.address.value))
    else Unseen
  }

  /** resolveRestaurant: the state with the restaurant found or added, and that restaurant. */
  function Resolve(s: State, d: Details, stamp: Stamp): Result<(State, Restaurant), Error> {
    match TargetOf(s.restaurants, d)
    case Refused(error) => Err(error)
    case Chosen(i) =>
      var r := Filled(s.restaurants[i], WithoutPlaceDetails(d), stamp.now);
      Ok((WithRestaurant(s, i, r), r))
    case Matched(i) =>
      var r := Filled(s.restaurants[i], d, stamp.now);
      Ok((WithRestaurant(s, i, r), r))
    case Unseen =>
      var r := NewRestaurant(d, stamp.restaurantId, stamp.now);
      Ok((s.(restaurants := s.restaurants + [r]), r))
  }

  // ---- Visits ----

  const NOBODY := Person(NIL_ID, "", "")

  ghost predicate DistinctPeople(people: seq<Person>) {
    forall i, j :: 0 <= i < j < |people| ==> people[i].id != people[j].id
  }

  function PickerOf(people: seq<Person>, id: Option<Id>): Result<Option<Person>, Error> {
    if id.None? then Ok(None)
    else
      var i := PersonIndex(people, id.value);
      if i < |people| then Ok(Some(people[i])) else Err(UnknownPicker)
  }

  function PeopleRatings(people: seq<Person>, ratings: map<Id, real>): seq<Rating> {
    if people == [] then []
    else
      var last := people[|people| - 1];
      PeopleRatings(people[..|people| - 1], ratings)
      + if last.id in ratings then [Rating(last, ratings[last.id])] else []
  }

  function PersonById(people: seq<Person>, id: Id): Person {
    var i := PersonIndex(people, id);
    if i < |people| then people[i] else NOBODY
  }

  function OtherRatings(people: seq<Person>, ratings: map<Id, real>, order: seq<Id>): seq<Rating> {
    if order == [] then []
    else
      var last := order[|order| - 1];
      OtherRatings(people, ratings, order[..|order| - 1])
      + if last in ratings && PersonIndex(people, last) == |people|
        then [Rating(PersonById(people, last), ratings[last])] else []
  }

  /** ratingsFromInput: the people's ratings in people order, then any others in map order. */
  function RatingsOf(people: seq<Person>, ratings: map<Id, real>, order: seq<Id>): seq<Rating> {
    PeopleRatings(people, ratings) + OtherRatings(people, ratings, order)
  }

  function TagsOf(tags: seq<Tag>, ids: seq<Id>): seq<Tag> {
    if ids == [] then []
    else
      var i := TagIndex(tags, ids[|ids| - 1]);
      TagsOf(tags, ids[..|ids| - 1]) + if i < |tags| then [tags[i]] else []
  }

  function NewTags(newTag: Option<string>, id: Id): seq<Tag> {
    if newTag.Some? then [Tag(id, newTag.value)] else []
  }

  function NewPhotos(visitId: Id, photos: seq<Photo>, ids: seq<Id>, now: Time): seq<Photo>
    requires |ids| == |photos|
  {
    Edited(map[], visitId, [], photos, ids, now)
  }

  function NewVisit(s: State, dine: Dine, restaurant: Restaurant, picker: Option<Person>, stamp: Stamp): Visit
    requires |stamp.photoIds| == |dine.photos|
  {
    Visit(stamp.visitId, restaurant, dine.visitedAt, picker, dine.priceLevel, dine.notes,
          RatingsOf(s.people, dine.ratings, stamp.raterOrder),
          TagsOf(s.tags, dine.tagIds) + NewTags(dine.newTag, stamp.tagId),
          NewPhotos(stamp.visitId, dine.photos, stamp.photoIds, stamp.now), stamp.now, stamp.now)
  }

  /** markWantToTryDone */
  function MarkedDone(wants: seq<Want>, restaurantId: Id, now: Time): (r: seq<Want>)
    ensures |r| == |wants|
    ensures forall k :: 0 <= k < |wants| ==>
      r[k] == if wants[k].restaurantId == restaurantId && wants[k].doneAt.None?
              then wants[k].(doneAt := Some(now)) else wants[k]
  {
    seq(|wants|, k requires 0 <= k < |wants| =>
      if wants[k].restaurantId == restaurantId && wants[k].doneAt.None?
      then wants[k].(doneAt := Some(now)) else wants[k])
  }

  function CreatedState(s: State, dine: Dine, restaurant: Restaurant, picker: Option<Person>, stamp: Stamp): State
    requires |stamp.photoIds| == |dine.photos|
  {
    s.(tags := s.tags + NewTags(dine.newTag, stamp.tagId),
       visits := s.visits + [NewVisit(s, dine, restaurant, picker, stamp)],
       wants := MarkedDone(s.wants, restaurant.id, stamp.now))
  }

  function CreateVisit(s: State, dine: Dine, cancelled: bool, stamp: Stamp): Outcome<Id>
    requires |stamp.photoIds| == |dine.photos|
  {
    if cancelled then Outcome(s, Err(Cancelled))
    else
      match PickerOf(s.people, dine.pickerId)
      case Err(error) => Outcome(s, Err(error))
      case Ok(picker) =>
        match Resolve(s, dine.details, stamp)
        case Err(error) => Outcome(s, Err(error))
        case Ok((s1, restaurant)) =>
          Outcome(CreatedState(s1, dine, restaurant, picker, stamp), Ok(stamp.visitId))
  }

  function EditedVisit(
    s: State, v: Visit, dine: Dine, restaurant: Restaurant, picker: Option<Person>, stamp: Stamp): Visit
    requires DistinctPhotos(v.photos) && AllIn(dine.keepPhotoIds, ById(v.photos)) && |stamp.photoIds| == |dine.photos|
  {
    var tags := s.tags + NewTags(dine.newTag, stamp.tagId);
    var tagIds := dine.tagIds + if dine.newTag.Some? then [stamp.tagId] else [];
    v.(restaurant := restaurant, visitedAt := dine.visitedAt, picker := picker, priceLevel := dine.priceLevel,
       notes := dine.notes, ratings := RatingsOf(s.people, dine.ratings, stamp.raterOrder),
       tags := TagsOf(tags, tagIds),
       photos := Edited(ById(v.photos), v.id, dine.keepPhotoIds, dine.photos, stamp.photoIds, stamp.now),
       updatedAt := stamp.now)
  }

  predicate PhotosDistinct(visits: seq<Visit>) {
    forall k :: 0 <= k < |visits| ==> DistinctPhotos(visits[k].photos)
  }

  /** What an edit is of: the restaurant and picker it names, and the position of the visit. */
  function EditTarget(
    s: State, id: Id, dine: Dine, cancelled: bool): (t: Result<(Restaurant, Option<Person>, nat), Error>)
    ensures t.Ok? ==> t.value.2 < |s.visits|
  {
    if dine.details.restaurantId.None? then Err(RestaurantRequired)
    else if cancelled then Err(Cancelled)
    else
      var i := RestaurantIndex(s.restaurants, dine.details.restaurantId.value);
      if i == |s.restaurants| then Err(RestaurantNotFound)
      else
        match PickerOf(s.people, dine.pickerId)
        case Err(error) => Err(error)
        case Ok(picker) =>
          var k := VisitIndex(s.visits, id);
          if k == |s.visits| then Err(VisitNotFound) else Ok((s.restaurants[i], picker, k))
  }

  function EditedState(s: State, k: nat, dine: Dine, r: Restaurant, picker: Option<Person>, stamp: Stamp): State
    requires |stamp.photoIds| == |dine.photos| && PhotosDistinct(s.visits)
    requires k < |s.visits| && AllIn(dine.keepPhotoIds, ById(s.visits[k].photos))
  {
    s.(tags := s.tags + NewTags(dine.newTag, stamp.tagId),
       visits := s.visits[k := EditedVisit(s, s.visits[k], dine, r, picker, stamp)],
       wants := if s.visits[k].restaurant.id != r.id then MarkedDone(s.wants, r.id, stamp.now) else s.wants)
  }

  function UpdateVisit(s: State, id: Id, dine: Dine, cancelled: bool, stamp: Stamp): Outcome<()>
    requires |stamp.photoIds| == |dine.photos| && PhotosDistinct(s.visits)
  {
    match EditTarget(s, id, dine, cancelled)
    case Err(error) => Outcome(s, Err(error))
    case Ok((r, picker, k)) =>
      if !AllIn(dine.keepPhotoIds, ById(s.visits[k].photos)) then Outcome(s, Err(NoSuchPhoto))
      else Outcome(EditedState(s, k, dine, r, picker, stamp), Ok(()))
  }

  function DeleteVisit(s: State, id: Id): State {
    var k := VisitIndex(s.visits, id);
    if k < |s.visits| then s.(visits := Without(s.visits, k)) else s
  }

  function Unlisted(wants: seq<Want>, restaurantId: Id): seq<Want> {
    if wants == [] then []
    else
      var last := wants[|wants| - 1];
      Unlisted(wants[..|wants| - 1], restaurantId) + if last.restaurantId != restaurantId then [last] else []
  }

  function DeleteRestaurantIfUnvisited(s: State, id: Id): Outcome<bool> {
    var i := RestaurantIndex(s.restaurants, id);
    if First(s.visits, (v: Visit) => v.restaurant.id == id) < |s.visits| || i == |s.restaurants|
    then Outcome(s, Ok(false))
    else Outcome(s.(restaurants := Without(s.restaurants, i), wants := Unlisted(s.wants, id)), Ok(true))
  }

  function UpdateRestaurant(s: State, id: Id, profile: Profile, stamp: Stamp): Outcome<()> {
    var i := RestaurantIndex(s.restaurants, id);
    if ProfileError(profile).Some? then Outcome(s, Err(ProfileError(profile).value))
    else if i == |s.restaurants| then Outcome(s, Err(RestaurantNotFound))
    else Outcome(WithRestaurant(s, i, Profiled(s.restaurants[i], profile, stamp.now)), Ok(()))
  }

  function UpdateGoogleMetadata(s: State, id: Id, m: Metadata, category: Option<string>, stamp: Stamp): State {
    var i := RestaurantIndex(s.restaurants, id);
    if i == |s.restaurants| then s
    else WithRestaurant(s, i, Overwritten(s.restaurants[i], m, category, stamp.now))
  }

  /** ToggleChain flags every restaurant and visit copy with the identifier; the copies keep their UpdatedAt. */
  function ToggleChain(s: State, id: Id, isChain: bool, stamp: Stamp): State {
    s.(restaurants := seq(|s.restaurants|, i requires 0 <= i < |s.restaurants| =>
         if s.restaurants[i].id == id then s.restaurants[i].(isChain := isChain, updatedAt := stamp.now)
         else s.restaurants[i]),
       visits := seq(|s.visits|, k requires 0 <= k < |s.visits| =>
         if s.visits[k].restaurant.id == id then s.visits[k].(restaurant := s.visits[k].restaurant.(isChain := isChain))
         else s.visits[k]))
  }

  // ---- Want to Try ----

  /** A save on a listed restaurant replaces suggester and note, and reopens an item a dine took off. */
  function Saved(
    wants: seq<Want>, restaurantId: Id, suggestedById: Option<Id>, note: Option<string>, stamp: Stamp): seq<Want>
  {
    var k := ListedIndex(wants, restaurantId);
    if k < |wants| then
      var w := wants[k];
      wants[k := w.(suggestedById := suggestedById, note := note,
                    createdAt := if w.doneAt.Some? then stamp.now else w.createdAt, doneAt := None)]
    else wants + [Want(stamp.wantId, restaurantId, suggestedById, note, stamp.now, None)]
  }

  function SavedId(wants: seq<Want>, restaurantId: Id, stamp: Stamp): Id {
    var k := ListedIndex(wants, restaurantId);
    if k < |wants| then wants[k].id else stamp.wantId
  }

  function SaveWantToTry(s: State, d: Details, suggestedById: Option<Id>, note: Option<string>, stamp: Stamp)
    : Outcome<Id>
  {
    match SaveError(d, note)
    case Some(error) => Outcome(s, Err(error))
    case None => SaveChecked(s, d, suggestedById, note, stamp)
  }

  /** SaveWantToTry past the checks of its input. */
  function SaveChecked(s: State, d: Details, suggestedById: Option<Id>, note: Option<string>, stamp: Stamp)
    : Outcome<Id>
  {
    match PickerOf(s.people, suggestedById)
    case Err(error) => Outcome(s, Err(error))
    case Ok(_) =>
      if d.restaurantId.Some? && RestaurantIndex(s.restaurants, d.restaurantId.value) == |s.restaurants| then
        Outcome(s, Err(RestaurantNotFound))
      else
        match Resolve(s, d, stamp)
        case Err(error) => Outcome(s, Err(error))
        case Ok((s1, restaurant)) =>
          Outcome(s1.(wants := Saved(s1.wants, restaurant.id, suggestedById, note, stamp)),
                  Ok(SavedId(s1.wants, restaurant.id, stamp)))
  }

  function DeleteWantToTry(s: State, id: Id): State {
    var k := WantIndex(s.wants, id);
    if k < |s.wants| then s.(wants := Without(s.wants, k)) else s
  }
}
