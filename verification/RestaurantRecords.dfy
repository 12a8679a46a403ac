/**
 What the store knows of restaurants after each operation, field by field: what a dine or a save adds or fills
 in, and what editing, refreshing, flagging and deleting a restaurant do.
 */
module RestaurantRecords {
  import opened Wrappers
  import opened Ledger
  import opened StoreSpec
  import opened StoreInvariants
  import opened StoreGuarantees
  import Folds
  import Text
  import Validation

  // ---- Dines and saves ----

  /** A field that was set stays; an empty one takes what is given. */
  predicate Takes<T(==)>(before: Option<T>, given: Option<T>, after: Option<T>) {
    if before.Some? then after == before else after == given
  }

  /** What no dine or save changes of a listed restaurant. */
  predicate SameOtherwise(before: Restaurant, after: Restaurant) {
    && after.id == before.id && after.name == before.name && after.address == before.address
    && after.isChain == before.isChain && after.createdAt == before.createdAt
  }

  predicate TakesCategory(before: Restaurant, d: Details, after: Restaurant) {
    Takes(before.category, d.category, after.category)
  }

  predicate TakesPlaceAndMetadata(before: Restaurant, d: Details, after: Restaurant) {
    && Takes(before.googlePlaceId, d.placeId, after.googlePlaceId) && Takes(before.city, d.city, after.city)
    && Takes(before.latitude, d.metadata.latitude, after.latitude)
    && Takes(before.longitude, d.metadata.longitude, after.longitude)
    && Takes(before.phone, d.metadata.phone, after.phone) && Takes(before.website, d.metadata.website, after.website)
    && Takes(before.googleRating, d.metadata.googleRating, after.googleRating)
    && Takes(before.googlePriceLevel, d.metadata.googlePriceLevel, after.googlePriceLevel)
  }

  predicate KeepsPlaceAndMetadata(before: Restaurant, after: Restaurant) {
    && after.googlePlaceId == before.googlePlaceId && after.city == before.city
    && after.latitude == before.latitude && after.longitude == before.longitude
    && after.phone == before.phone && after.website == before.website
    && after.googleRating == before.googleRating && after.googlePriceLevel == before.googlePriceLevel
  }

  /** It is dated now if anything was filled in. */
  predicate DatedIfChanged(before: Restaurant, after: Restaurant, now: Time) {
    after.updatedAt == if after.(updatedAt := before.updatedAt) == before then before.updatedAt else now
  }

  /** A new restaurant as the input describes it. */
  predicate IsAsDescribed(r: Restaurant, d: Details, id: Id, now: Time) {
    && r.id == id && r.name == d.name && r.address == d.address && r.city == d.city && r.category == d.category
    && r.googlePlaceId == d.placeId && r.isChain == d.isChain
    && r.latitude == d.metadata.latitude && r.longitude == d.metadata.longitude
    && r.phone == d.metadata.phone && r.website == d.metadata.website
    && r.googleRating == d.metadata.googleRating && r.googlePriceLevel == d.metadata.googlePriceLevel
    && r.createdAt == now && r.updatedAt == now
  }

  predicate IsChosen(rs: seq<Restaurant>, d: Details) {
    d.restaurantId.Some? && Listed(rs, d.restaurantId.value)
  }

  /** Name and address are the input's, white space at the ends and case aside. */
  predicate IsNamedSo(r: Restaurant, d: Details) {
    && r.address.Some? && d.address.Some?
    && Text.Lower(Text.Trim(r.name)) == Text.Lower(d.name)
    && Text.Lower(Text.Trim(r.address.value)) == Text.Lower(d.address.value)
  }

  predicate HasNamesake(rs: seq<Restaurant>, d: Details) {
    exists k :: 0 <= k < |rs| && IsNamedSo(rs[k], d)
  }

  /** The chosen restaurant; else the one with the place; else the first with the name and address; else a new one. */
  predicate IsDestination(rs: seq<Restaurant>, d: Details, i: nat) {
    if IsChosen(rs, d) then i < |rs| && rs[i].id == d.restaurantId.value
    else if d.placeId.Some? && OwnedPlace(rs, d.placeId.value) then i < |rs| && rs[i].googlePlaceId == d.placeId
    else if HasNamesake(rs, d) then
      i < |rs| && IsNamedSo(rs[i], d) && forall k :: 0 <= k < i ==> !IsNamedSo(rs[k], d)
    else i == |rs|
  }

  /** What becomes of the destination: a chosen one takes place and metadata only along with a place ID. */
  predicate BecomesKnown(rs: seq<Restaurant>, d: Details, i: nat, rs': seq<Restaurant>, r: Restaurant, stamp: Stamp)
  {
    if i < |rs| then
      && rs' == rs[i := r] && SameOtherwise(rs[i], r) && TakesCategory(rs[i], d, r)
      && (if IsChosen(rs, d) && d.placeId.None? then KeepsPlaceAndMetadata(rs[i], r)
          else TakesPlaceAndMetadata(rs[i], d, r))
      && DatedIfChanged(rs[i], r, stamp.now)
    else rs' == rs + [r] && IsAsDescribed(r, d, stamp.restaurantId, stamp.now)
  }

  lemma NamedSoIff(r: Restaurant, d: Details)
    requires d.address.Some?
    ensures SameNameAndAddress(r, d.name, d.address.value) <==> IsNamedSo(r, d)
  {
    Text.EqualFoldIsEqualLower(Text.Trim(r.name), d.name);
    if r.address.Some? {
      Text.EqualFoldIsEqualLower(Text.Trim(r.address.value), d.address.value);
    }
  }

  /** Where TargetOf leads. */
  function TargetIndex(rs: seq<Restaurant>, d: Details): nat {
    match TargetOf(rs, d)
    case Chosen(i) => i
    case Matched(i) => i
    case Unseen => |rs|
    case Refused(_) => |rs|
  }

  lemma PlaceFound(rs: seq<Restaurant>, placeId: string)
    ensures OwnedPlace(rs, placeId) <==> PlaceIndex(rs, placeId) < |rs|
  {
    FirstIff(rs, (r: Restaurant) => r.googlePlaceId == Some(placeId));
  }

  lemma NamesakeFound(rs: seq<Restaurant>, d: Details)
    ensures d.address.Some? ==> (HasNamesake(rs, d) <==> NameIndex(rs, d.name, d.address.value) < |rs|)
    ensures d.address.Some? && HasNamesake(rs, d) ==>
      var i := NameIndex(rs, d.name, d.address.value);
      IsNamedSo(rs[i], d) && forall k :: 0 <= k < i ==> !IsNamedSo(rs[k], d)
    ensures d.address.None? ==> !HasNamesake(rs, d)
  {
    if d.address.Some? {
      var fits := (r: Restaurant) => SameNameAndAddress(r, d.name, d.address.value);
      FirstIff(rs, fits);
      forall k | 0 <= k < |rs| ensures fits(rs[k]) <==> IsNamedSo(rs[k], d) {
        NamedSoIff(rs[k], d);
      }
    }
  }

  lemma TargetIsTheDestination(rs: seq<Restaurant>, d: Details)
    requires !TargetOf(rs, d).Refused?
    ensures IsDestination(rs, d, TargetIndex(rs, d))
    ensures TargetOf(rs, d).Chosen? <==> IsChosen(rs, d)
  {
    if d.restaurantId.Some? {
      ListedHasIndex(rs, d.restaurantId.value);
    }
    if d.placeId.Some? {
      PlaceFound(rs, d.placeId.value);
    }
    NamesakeFound(rs, d);
  }

  lemma FilledTakes(r: Restaurant, d: Details, now: Time)
    ensures var r' := Filled(r, d, now);
            SameOtherwise(r, r') && TakesCategory(r, d, r') && TakesPlaceAndMetadata(r, d, r')
  {
  }

  lemma FilledIsDated(r: Restaurant, d: Details, now: Time)
    ensures DatedIfChanged(r, Filled(r, d, now), now)
  {
    var r' := Filled(r, d, now);
    if !FillsSomething(r, d) {
      assert r' == r;
    } else if Fills(r.googlePlaceId, d.placeId) {
      assert r'.googlePlaceId != r.googlePlaceId;
    } else if Fills(r.city, d.city) {
      assert r'.city != r.city;
    } else if Fills(r.latitude, d.metadata.latitude) {
      assert r'.latitude != r.latitude;
    } else if Fills(r.longitude, d.metadata.longitude) {
      assert r'.longitude != r.longitude;
    } else if Fills(r.phone, d.metadata.phone) {
      assert r'.phone != r.phone;
    } else if Fills(r.website, d.metadata.website) {
      assert r'.website != r.website;
    } else if Fills(r.googleRating, d.metadata.googleRating) {
      assert r'.googleRating != r.googleRating;
    } else if Fills(r.googlePriceLevel, d.metadata.googlePriceLevel) {
      assert r'.googlePriceLevel != r.googlePriceLevel;
    }
  }

  lemma BarelyFilledIsKnown(r: Restaurant, d: Details, now: Time)
    requires d.placeId.None?
    ensures var r' := Filled(r, WithoutPlaceDetails(d), now);
            SameOtherwise(r, r') && TakesCategory(r, d, r') && KeepsPlaceAndMetadata(r, r')
            && DatedIfChanged(r, r', now)
  {
  }

  lemma ResolvedIsKnown(s: State, d: Details, stamp: Stamp)
    requires Resolve(s, d, stamp).Ok?
    ensures var (s1, r) := Resolve(s, d, stamp).value;
            var i := TargetIndex(s.restaurants, d);
            IsDestination(s.restaurants, d, i) && BecomesKnown(s.restaurants, d, i, s1.restaurants, r, stamp)
  {
    TargetIsTheDestination(s.restaurants, d);
    var i := TargetIndex(s.restaurants, d);
    if i < |s.restaurants| {
      FilledTakes(s.restaurants[i], d, stamp.now);
      FilledIsDated(s.restaurants[i], d, stamp.now);
      if d.placeId.None? {
        BarelyFilledIsKnown(s.restaurants[i], d, stamp.now);
      }
    }
  }

  /** The restaurant of a new dine is the one its input leads to, with all that the input says of it. */
  lemma DineIsAtAKnownRestaurant(s: State, dine: Dine, cancelled: bool, stamp: Stamp)
    requires |stamp.photoIds| == |dine.photos| && CreateVisit(s, dine, cancelled, stamp).result.Ok?
    ensures var after := CreateVisit(s, dine, cancelled, stamp).state;
            && |after.visits| == |s.visits| + 1
            && exists i: nat :: IsDestination(s.restaurants, dine.details, i)
                                && BecomesKnown(s.restaurants, dine.details, i, after.restaurants,
                                                after.visits[|s.visits|].restaurant, stamp)
  {
    ResolvedIsKnown(s, dine.details, stamp);
  }

  /** So is the restaurant of a saved item, which is open, with the suggester and note of the save. */
  lemma SaveIsOfAKnownRestaurant(s: State, d: Details, suggester: Option<Id>, note: Option<string>, stamp: Stamp)
    requires SaveWantToTry(s, d, suggester, note, stamp).result.Ok?
    ensures var outcome := SaveWantToTry(s, d, suggester, note, stamp);
            exists i: nat, r: Restaurant, k: nat ::
              && IsDestination(s.restaurants, d, i)
              && BecomesKnown(s.restaurants, d, i, outcome.state.restaurants, r, stamp)
              && k < |outcome.state.wants| && IsSaved(outcome.state.wants[k], r.id, suggester, note)
              && outcome.result == Ok(outcome.state.wants[k].id)
  {
    ResolvedIsKnown(s, d, stamp);
    var (s1, r) := Resolve(s, d, stamp).value;
    var wants := SaveWantToTry(s, d, suggester, note, stamp).state.wants;
    var k := ListedIndex(s1.wants, r.id);
    assert IsSaved(wants[k], r.id, suggester, note);
  }

  predicate IsSaved(w: Want, restaurantId: Id, suggester: Option<Id>, note: Option<string>) {
    w.restaurantId == restaurantId && w.suggestedById == suggester && w.note == note && w.doneAt.None?
  }

  // ---- Restaurants edited ----

  /** Restaurant i has become r, in the list and in its visits, and nothing else has changed. */
  ghost predicate OnlyRestaurantBecomes(s: State, s': State, i: nat, r: Restaurant) {
    && i < |s.restaurants| && s'.restaurants == s.restaurants[i := r]
    && s'.people == s.people && s'.tags == s.tags && s'.wants == s.wants && |s'.visits| == |s.visits|
    && forall k :: 0 <= k < |s.visits| ==>
         s'.visits[k] == if s.visits[k].restaurant.id == s.restaurants[i].id then s.visits[k].(restaurant := r)
                         else s.visits[k]
  }

  /** The form's fields, and what the form does not have. */
  predicate IsAsEdited(before: Restaurant, p: Profile, after: Restaurant, now: Time) {
    && after.name == p.name && after.address == p.address && after.city == p.city && after.phone == p.phone
    && after.website == p.website && after.googleRating == p.googleRating
    && after.googlePriceLevel == p.googlePriceLevel && after.category == p.category && after.isChain == p.isChain
    && after.updatedAt == now
    && after.id == before.id && after.latitude == before.latitude && after.longitude == before.longitude
    && after.googlePlaceId == before.googlePlaceId && after.createdAt == before.createdAt
  }

  /** An edit is refused without a name, with metadata out of range or of an unknown restaurant; else it is made. */
  lemma RestaurantEditIsRecorded(s: State, id: Id, p: Profile, stamp: Stamp)
    ensures var outcome := UpdateRestaurant(s, id, p, stamp);
            && (outcome.result.Err?
                <==> (p.name == "" || !Validation.GoogleOk(p.googleRating, p.googlePriceLevel)
                      || !Listed(s.restaurants, id)))
            && (outcome.result.Err? ==>
                  && outcome.state == s
                  && outcome.result.error
                     == if p.name == "" then NameRequired
                        else if !Validation.GoogleOk(p.googleRating, p.googlePriceLevel) then BadMetadata
                        else RestaurantNotFound)
            && (outcome.result.Ok? ==>
                  exists i: nat, r: Restaurant ::
                    && OnlyRestaurantBecomes(s, outcome.state, i, r) && s.restaurants[i].id == id
                    && IsAsEdited(s.restaurants[i], p, r, stamp.now))
  {
    ListedHasIndex(s.restaurants, id);
    var outcome := UpdateRestaurant(s, id, p, stamp);
    if outcome.result.Ok? {
      var i := RestaurantIndex(s.restaurants, id);
      assert OnlyRestaurantBecomes(s, outcome.state, i, outcome.state.restaurants[i]);
    }
  }

  /** A given field replaces; one that is not given stays. */
  predicate IsReplaced<T(==)>(before: Option<T>, given: Option<T>, after: Option<T>) {
    if given.Some? then after == given else after == before
  }

  predicate IsAsRefreshed(before: Restaurant, m: Metadata, category: Option<string>, after: Restaurant, now: Time) {
    && IsReplaced(before.latitude, m.latitude, after.latitude)
    && IsReplaced(before.longitude, m.longitude, after.longitude)
    && IsReplaced(before.phone, m.phone, after.phone) && IsReplaced(before.website, m.website, after.website)
    && IsReplaced(before.googleRating, m.googleRating, after.googleRating)
    && IsReplaced(before.googlePriceLevel, m.googlePriceLevel, after.googlePriceLevel)
    && IsReplaced(before.category, category, after.category)
    && SameOtherwise(before, after) && after.city == before.city && after.googlePlaceId == before.googlePlaceId
    && after.updatedAt
       == if m.latitude.Some? || m.longitude.Some? || m.phone.Some? || m.website.Some? || m.googleRating.Some?
             || m.googlePriceLevel.Some? || category.Some?
          then now else before.updatedAt
  }

  /** Fresh metadata replaces what it has, of a listed restaurant. */
  lemma RefreshIsRecorded(s: State, id: Id, m: Metadata, category: Option<string>, stamp: Stamp)
    ensures var after := UpdateGoogleMetadata(s, id, m, category, stamp);
            if Listed(s.restaurants, id)
            then exists i: nat, r: Restaurant ::
                   && OnlyRestaurantBecomes(s, after, i, r) && s.restaurants[i].id == id
                   && IsAsRefreshed(s.restaurants[i], m, category, r, stamp.now)
            else after == s
  {
    ListedHasIndex(s.restaurants, id);
    var i := RestaurantIndex(s.restaurants, id);
    if i < |s.restaurants| {
      var after := UpdateGoogleMetadata(s, id, m, category, stamp);
      assert OnlyRestaurantBecomes(s, after, i, after.restaurants[i]);
    }
  }

  /**
   The restaurant and the copies in its visits have the flag given; only the restaurant is dated; nothing else
   changes.
   */
  lemma FlagIsRecorded(s: State, id: Id, isChain: bool, stamp: Stamp)
    ensures var after := ToggleChain(s, id, isChain, stamp);
            && after.people == s.people && after.tags == s.tags && after.wants == s.wants
            && |after.restaurants| == |s.restaurants| && |after.visits| == |s.visits|
            && (forall i :: 0 <= i < |s.restaurants| ==>
                  if s.restaurants[i].id == id
                  then && after.restaurants[i].isChain == isChain && after.restaurants[i].updatedAt == stamp.now
                       && after.restaurants[i].(isChain := s.restaurants[i].isChain,
                                                updatedAt := s.restaurants[i].updatedAt) == s.restaurants[i]
                  else after.restaurants[i] == s.restaurants[i])
            && (forall k :: 0 <= k < |s.visits| ==>
                  if s.visits[k].restaurant.id == id
                  then && after.visits[k].restaurant.isChain == isChain
                       && after.visits[k].(restaurant := s.visits[k].restaurant) == s.visits[k]
                       && after.visits[k].restaurant.(isChain := s.visits[k].restaurant.isChain)
                          == s.visits[k].restaurant
                  else after.visits[k] == s.visits[k])
  {
  }

  // ---- Restaurants deleted ----

  predicate IsVisited(visits: seq<Visit>, id: Id) {
    exists k :: 0 <= k < |visits| && visits[k].restaurant.id == id
  }

  /** A listed restaurant without a visit is deleted with its list item, and the call says so; else nothing happens. */
  lemma UnvisitedIsDeleted(s: State, id: Id)
    requires Inv(s)
    ensures var outcome := DeleteRestaurantIfUnvisited(s, id);
            && outcome.result == Ok(Listed(s.restaurants, id) && !IsVisited(s.visits, id))
            && (outcome.result == Ok(false) ==> outcome.state == s)
            && (outcome.result == Ok(true) ==>
                  && !Listed(outcome.state.restaurants, id)
                  && (forall r :: r in outcome.state.restaurants <==> r in s.restaurants && r.id != id)
                  && (forall w :: w in outcome.state.wants <==> w in s.wants && w.restaurantId != id)
                  && outcome.state.visits == s.visits && outcome.state.people == s.people
                  && outcome.state.tags == s.tags)
  {
    ListedHasIndex(s.restaurants, id);
    FirstIff(s.visits, (v: Visit) => v.restaurant.id == id);
    var outcome := DeleteRestaurantIfUnvisited(s, id);
    if outcome.result == Ok(true) {
      RestaurantLeft(s.restaurants, RestaurantIndex(s.restaurants, id));
      UnlistedMembers(s.wants, id);
    }
  }

  function OnlyElsewhere(restaurantId: Id): Want -> Option<Want> {
    (w: Want) => if w.restaurantId == restaurantId then None else Some(w)
  }

  /** The list items that stay are in the order they were in. */
  lemma {:induction false} UnlistedInOrder(wants: seq<Want>, restaurantId: Id) returns (places: seq<nat>)
    ensures Folds.Follows(Unlisted(wants, restaurantId), wants, OnlyElsewhere(restaurantId), places)
  {
    places := [];
    if wants != [] {
      var n := |wants| - 1;
      places := UnlistedInOrder(wants[..n], restaurantId);
      places := Folds.FollowsOneMore(Unlisted(wants[..n], restaurantId), wants, OnlyElsewhere(restaurantId), places);
    }
  }

  lemma RestaurantLeft(rs: seq<Restaurant>, i: nat)
    requires RestaurantsOk(rs) && i < |rs|
    ensures forall r :: r in Without(rs, i) <==> r in rs && r.id != rs[i].id
    ensures !Listed(Without(rs, i), rs[i].id)
  {
    var left := Without(rs, i);
    WithoutShifts(rs, i);
    forall r ensures r in left <==> r in rs && r.id != rs[i].id {
      if r in rs && r.id != rs[i].id {
        var j :| 0 <= j < |rs| && rs[j] == r;
        assert left[if j < i then j else j - 1] == r;
      }
      if r in left {
        var j :| 0 <= j < |left| && left[j] == r;
        assert r == rs[if j < i then j else j + 1];
      }
    }
    assert forall j :: 0 <= j < |left| ==> left[j] in left;
  }
}
