/**
 The in-memory store: five lists edited in place under one lock, so every method is one atomic step.
 Each method leaves the lists as StoreSpec says.
 */
module MemoryStore {
  import opened Wrappers
  import opened Ledger
  import opened PhotoEdits
  import opened StoreSpec

  /** The linear searches the store is made of. */
  method Search<T>(xs: seq<T>, fits: T -> bool) returns (i: nat)
    ensures i == First(xs, fits)
  {
    i := 0;
    while i < |xs| && !fits(xs[i])
      invariant i <= |xs|
      invariant forall k :: 0 <= k < i ==> !fits(xs[k])
    {
      i := i + 1;
    }
    FirstIs(xs, fits, i);
  }

  lemma FirstIs<T>(xs: seq<T>, fits: T -> bool, i: nat)
    requires i <= |xs| && (forall k :: 0 <= k < i ==> !fits(xs[k])) && (i < |xs| ==> fits(xs[i]))
    ensures First(xs, fits) == i
  {
  }

  function OnlyMetadata(m: Metadata, category: Option<string>): Details {
    Details(None, "", None, None, None, m, category, false)
  }

  /** Filling in the place and city first comes to the same. */
  lemma FilledInTurn(r: Restaurant, placed: Restaurant, d: Details, now: Time)
    requires placed == r.(googlePlaceId := Keep(r.googlePlaceId, d.placeId), city := Keep(r.city, d.city),
                          updatedAt := if Fills(r.googlePlaceId, d.placeId) || Fills(r.city, d.city) then now
                                       else r.updatedAt)
    ensures Filled(placed, OnlyMetadata(d.metadata, d.category), now) == Filled(r, d, now)
  {
  }

  class Store {
    var people: seq<Person>
    var tags: seq<Tag>
    var restaurants: seq<Restaurant>
    var visits: seq<Visit>
    var wants: seq<Want>

    ghost function Snapshot(): State
      reads this
    {
      State(people, tags, restaurants, visits, wants)
    }

    constructor (people: seq<Person>, tags: seq<Tag>, restaurants: seq<Restaurant>, visits: seq<Visit>)
      ensures Snapshot() == State(people, tags, restaurants, visits, [])
    {
      this.people, this.tags, this.restaurants, this.visits, this.wants := people, tags, restaurants, visits, [];
    }

    method FindRestaurant(id: Option<Id>) returns (r: Option<Restaurant>)
      ensures r.Some? <==> id.Some? && RestaurantIndex(restaurants, id.value) < |restaurants|
      ensures r.Some? ==> r.value == restaurants[RestaurantIndex(restaurants, id.value)]
    {
      if id.None? {
        return None;
      }
      var i := Search(restaurants, (r: Restaurant) => r.id == id.value);
      r := if i < |restaurants| then Some(restaurants[i]) else None;
    }

    /** A chosen restaurant only accepts its own place ID, or an unowned one when it has none. */
    method CheckChosenRestaurantPlace(chosen: Restaurant, placeId: Option<string>) returns (error: Option<Error>)
      ensures error == Conflict(restaurants, chosen, placeId)
    {
      if placeId.None? || chosen.googlePlaceId == placeId {
        return None;
      }
      var owner := Search(restaurants, (r: Restaurant) => r.id != chosen.id && r.googlePlaceId == placeId);
      if owner < |restaurants| {
        return Some(PlaceConflict(chosen.name, Some(restaurants[owner].name)));
      }
      if chosen.googlePlaceId.Some? {
        return Some(PlaceConflict(chosen.name, None));
      }
      error := None;
    }

    method SyncRestaurant(r: Restaurant)
      modifies this`visits
      ensures visits == Synced(old(visits), r)
    {
      for i := 0 to |visits|
        invariant |visits| == |old(visits)|
        invariant forall k :: 0 <= k < i ==> visits[k] == Synced(old(visits), r)[k]
        invariant forall k :: i <= k < |visits| ==> visits[k] == old(visits)[k]
      {
        if visits[i].restaurant.id == r.id {
          visits := visits[i := visits[i].(restaurant := r)];
        }
      }
    }

    /** Fills what the restaurant lacks, field by field, and copies it to its visits. */
    method UpdateRestaurantMetadata(i: nat, d: Details, now: Time)
      requires i < |restaurants|
      modifies this`restaurants, this`visits
      ensures Snapshot() == WithRestaurant(old(Snapshot()), i, Filled(old(restaurants)[i], d, now))
    {
      var r := restaurants[i];
      if d.placeId.Some? && r.googlePlaceId.None? {
        r := r.(googlePlaceId := d.placeId, updatedAt := now);
      }
      if d.city.Some? && r.city.None? {
        r := r.(city := d.city, updatedAt := now);
      }
      FilledInTurn(restaurants[i], r, d, now);
      ghost var filled := Filled(restaurants[i], d, now);
      restaurants := restaurants[i := r];
      ApplyGoogleMetadata(i, d.metadata, d.category, false, now);
      assert restaurants == old(restaurants)[i := filled];
    }

    /** Sets a field that is given and either overwritten or still empty; setting it dates the restaurant. */
    static method SetField<T>(field: Option<T>, value: Option<T>, overwrite: bool, updatedAt: Time, now: Time)
      returns (field': Option<T>, updatedAt': Time)
      ensures field' == if overwrite then Replace(field, value) else Keep(field, value)
      ensures updatedAt' == if value.Some? && (overwrite || field.None?) then now else updatedAt
    {
      field', updatedAt' := field, updatedAt;
      if value.Some? && (overwrite || field.None?) {
        field', updatedAt' := value, now;
      }
    }

    /** The fields one by one. */
    static method SetFields(before: Restaurant, m: Metadata, category: Option<string>, overwrite: bool, now: Time)
      returns (r: Restaurant)
      ensures overwrite ==> r == Overwritten(before, m, category, now)
      ensures !overwrite ==> r == Filled(before, OnlyMetadata(m, category), now)
    {
      var at := before.updatedAt;
      var latitude, longitude, phone, website, googleRating, googlePriceLevel, category' :=
        before.latitude, before.longitude, before.phone, before.website, before.googleRating, before.googlePriceLevel,
        before.category;
      latitude, at := SetField(latitude, m.latitude, overwrite, at, now);
      longitude, at := SetField(longitude, m.longitude, overwrite, at, now);
      phone, at := SetField(phone, m.phone, overwrite, at, now);
      website, at := SetField(website, m.website, overwrite, at, now);
      googleRating, at := SetField(googleRating, m.googleRating, overwrite, at, now);
      googlePriceLevel, at := SetField(googlePriceLevel, m.googlePriceLevel, overwrite, at, now);
      category', at := SetField(category', category, overwrite, at, now);
      r := before.(latitude := latitude, longitude := longitude, phone := phone, website := website,
                   googleRating := googleRating, googlePriceLevel := googlePriceLevel, category := category',
                   updatedAt := at);
    }

    /** Sets a restaurant's fields and copies it to its visits. */
    method ApplyGoogleMetadata(i: nat, m: Metadata, category: Option<string>, overwrite: bool, now: Time)
      requires i < |restaurants|
      modifies this`restaurants, this`visits
      ensures overwrite ==>
        Snapshot() == WithRestaurant(old(Snapshot()), i, Overwritten(old(restaurants)[i], m, category, now))
      ensures !overwrite ==>
        Snapshot() == WithRestaurant(old(Snapshot()), i, Filled(old(restaurants)[i], OnlyMetadata(m, category), now))
    {
      var r := SetFields(restaurants[i], m, category, overwrite, now);
      restaurants := restaurants[i := r];
      SyncRestaurant(r);
    }

    /** The chosen restaurant, else one matched by place ID, else by name and address, else a new one. */
    method ResolveRestaurant(d: Details, stamp: Stamp) returns (r: Result<Restaurant, Error>)
      modifies this`restaurants, this`visits
      ensures r.Err? ==> Resolve(old(Snapshot()), d, stamp) == Err(r.error) && Snapshot() == old(Snapshot())
      ensures r.Ok? ==> Resolve(old(Snapshot()), d, stamp) == Ok((Snapshot(), r.value))
    {
      var chosen := FindRestaurant(d.restaurantId);
      if chosen.Some? {
        var error := CheckChosenRestaurantPlace(chosen.value, d.placeId);
        if error.Some? {
          return Err(error.value);
        }
        var i := Search(restaurants, (r: Restaurant) => r.id == d.restaurantId.value);
        UpdateRestaurantMetadata(i, WithoutPlaceDetails(d), stamp.now);
        return Ok(restaurants[i]);
      }
      var found := FindRestaurantByInput(d, stamp.now);
      if found.Some? {
        return Ok(found.value);
      }
      var added := NewRestaurant(d, stamp.restaurantId, stamp.now);
      restaurants := restaurants + [added];
      r := Ok(added);
    }

    method FindRestaurantByInput(d: Details, now: Time) returns (r: Option<Restaurant>)
      requires d.restaurantId.None? || RestaurantIndex(restaurants, d.restaurantId.value) == |restaurants|
      modifies this`restaurants, this`visits
      ensures r.None? <==> TargetOf(old(restaurants), d).Unseen?
      ensures r.None? ==> Snapshot() == old(Snapshot())
      ensures r.Some? ==>
        && TargetOf(old(restaurants), d).Matched?
        && r.value == Filled(old(restaurants)[TargetOf(old(restaurants), d).i], d, now)
        && Snapshot() == WithRestaurant(old(Snapshot()), TargetOf(old(restaurants), d).i, r.value)
    {
      if d.placeId.Some? {
        var i := Search(restaurants, (r: Restaurant) => r.googlePlaceId == Some(d.placeId.value));
        if i < |restaurants| {
          UpdateRestaurantMetadata(i, d, now);
          return Some(restaurants[i]);
        }
      }
      if d.address.Some? {
        var i := Search(restaurants, (r: Restaurant) => SameNameAndAddress(r, d.name, d.address.value));
        if i < |restaurants| {
          UpdateRestaurantMetadata(i, d, now);
          return Some(restaurants[i]);
        }
      }
      r := None;
    }

    method PickerFromInput(id: Option<Id>) returns (r: Result<Option<Person>, Error>)
      ensures r == PickerOf(people, id)
    {
      if id.None? {
        return Ok(None);
      }
      var i := Search(people, (p: Person) => p.id == id.value);
      r := if i < |people| then Ok(Some(people[i])) else Err(UnknownPicker);
    }

    method RatingsFromInput(input: map<Id, real>, order: seq<Id>) returns (ratings: seq<Rating>)
      ensures ratings == RatingsOf(people, input, order)
    {
      ratings := [];
      for i := 0 to |people|
        invariant ratings == PeopleRatings(people[..i], input)
      {
        assert people[..i + 1][..i] == people[..i];
        if people[i].id in input {
          ratings := ratings + [Rating(people[i], input[people[i].id])];
        }
      }
      assert people[..|people|] == people;
      for i := 0 to |order|
        invariant ratings == PeopleRatings(people, input) + OtherRatings(people, input, order[..i])
      {
        assert order[..i + 1][..i] == order[..i];
        var k := Search(people, (p: Person) => p.id == order[i]);
        if order[i] in input && k == |people| {
          ratings := ratings + [Rating(NOBODY, input[order[i]])];
        }
      }
      assert order[..|order|] == order;
    }

    method TagsById(ids: seq<Id>) returns (found: seq<Tag>)
      ensures found == TagsOf(tags, ids)
    {
      found := [];
      for i := 0 to |ids|
        invariant found == TagsOf(tags, ids[..i])
      {
        assert ids[..i + 1][..i] == ids[..i];
        var k := Search(tags, (t: Tag) => t.id == ids[i]);
        if k < |tags| {
          found := found + [tags[k]];
        }
      }
      assert ids[..|ids|] == ids;
    }

    method MarkWantToTryDone(restaurantId: Id, now: Time)
      modifies this`wants
      ensures wants == MarkedDone(old(wants), restaurantId, now)
    {
      for i := 0 to |wants|
        invariant |wants| == |old(wants)|
        invariant forall k :: 0 <= k < i ==> wants[k] == MarkedDone(old(wants), restaurantId, now)[k]
        invariant forall k :: i <= k < |wants| ==> wants[k] == old(wants)[k]
      {
        if wants[i].restaurantId == restaurantId && wants[i].doneAt.None? {
          wants := wants[i := wants[i].(doneAt := Some(now))];
        }
      }
    }

    /** The changes of a new dine, once its picker and restaurant are known. */
    method AddVisit(dine: Dine, restaurant: Restaurant, picker: Option<Person>, stamp: Stamp)
      requires |stamp.photoIds| == |dine.photos|
      modifies this`tags, this`visits, this`wants
      ensures Snapshot() == CreatedState(old(Snapshot()), dine, restaurant, picker, stamp)
    {
      var ratings := RatingsFromInput(dine.ratings, stamp.raterOrder);
      var photos := PhotosFromPrepared(stamp.visitId, dine.photos, 0, stamp.photoIds, stamp.now);
      assert photos == NewPhotos(stamp.visitId, dine.photos, stamp.photoIds, stamp.now);
      var visitTags := TagsById(dine.tagIds);
      ghost var tags0 := tags;
      if dine.newTag.Some? {
        var tag := Tag(stamp.tagId, dine.newTag.value);
        tags := tags + [tag];
        visitTags := visitTags + [tag];
      }
      assert tags == tags0 + NewTags(dine.newTag, stamp.tagId);
      assert visitTags == TagsOf(tags0, dine.tagIds) + NewTags(dine.newTag, stamp.tagId);
      visits := visits + [Visit(stamp.visitId, restaurant, dine.visitedAt, picker, dine.priceLevel, dine.notes,
                                ratings, visitTags, photos, stamp.now, stamp.now)];
      MarkWantToTryDone(restaurant.id, stamp.now);
    }

    method CreateVisit(dine: Dine, cancelled: bool, stamp: Stamp) returns (r: Result<Id, Error>)
      requires |stamp.photoIds| == |dine.photos|
      modifies this
      ensures Outcome(Snapshot(), r) == StoreSpec.CreateVisit(old(Snapshot()), dine, cancelled, stamp)
      ensures r.Err? ==> Snapshot() == old(Snapshot())
    {
      if cancelled {
        return Err(Cancelled);
      }
      var picker := PickerFromInput(dine.pickerId);
      if picker.Err? {
        return Err(picker.error);
      }
      var resolved := ResolveRestaurant(dine.details, stamp);
      if resolved.Err? {
        return Err(resolved.error);
      }
      AddVisit(dine, resolved.value, picker.value, stamp);
      r := Ok(stamp.visitId);
    }

    /** The checks of an edit, before anything changes. */
    method FindEdit(id: Id, dine: Dine, cancelled: bool) returns (t: Result<(Restaurant, Option<Person>, nat), Error>)
      ensures t == EditTarget(Snapshot(), id, dine, cancelled)
    {
      if dine.details.restaurantId.None? {
        return Err(RestaurantRequired);
      }
      if cancelled {
        return Err(Cancelled);
      }
      var restaurant := FindRestaurant(dine.details.restaurantId);
      if restaurant.None? {
        return Err(RestaurantNotFound);
      }
      var picker := PickerFromInput(dine.pickerId);
      if picker.Err? {
        return Err(picker.error);
      }
      var k := Search(visits, (v: Visit) => v.id == id);
      t := if k == |visits| then Err(VisitNotFound) else Ok((restaurant.value, picker.value, k));
    }

    /** Adds the new tag, if one is named, to the store and to the identifiers. */
    method AddNewTag(tagIds: seq<Id>, newTag: Option<string>, tagId: Id) returns (tagIds': seq<Id>)
      modifies this`tags
      ensures tags == old(tags) + NewTags(newTag, tagId)
      ensures tagIds' == tagIds + if newTag.Some? then [tagId] else []
    {
      tagIds' := tagIds;
      if newTag.Some? {
        tags := tags + [Tag(tagId, newTag.value)];
        tagIds' := tagIds' + [tagId];
      }
    }

    /** The changes of an edit, once its photos are known to be the visit's. */
    method ApplyEdit(
      k: nat, dine: Dine, restaurant: Restaurant, picker: Option<Person>, photos: seq<Photo>, stamp: Stamp)
      requires |stamp.photoIds| == |dine.photos| && PhotosDistinct(visits)
      requires k < |visits| && AllIn(dine.keepPhotoIds, ById(visits[k].photos))
      requires photos
        == Edited(ById(visits[k].photos), visits[k].id, dine.keepPhotoIds, dine.photos, stamp.photoIds, stamp.now)
      modifies this`tags, this`visits, this`wants
      ensures Snapshot() == EditedState(old(Snapshot()), k, dine, restaurant, picker, stamp)
    {
      var ratings := RatingsFromInput(dine.ratings, stamp.raterOrder);
      var tagIds := AddNewTag(dine.tagIds, dine.newTag, stamp.tagId);
      var visitTags := TagsById(tagIds);
      if visits[k].restaurant.id != restaurant.id {
        MarkWantToTryDone(restaurant.id, stamp.now);
      }
      visits := visits[k := visits[k].(
        restaurant := restaurant, visitedAt := dine.visitedAt, picker := picker, priceLevel := dine.priceLevel,
        notes := dine.notes, ratings := ratings, tags := visitTags, photos := photos, updatedAt := stamp.now)];
    }

    method UpdateVisit(id: Id, dine: Dine, cancelled: bool, stamp: Stamp) returns (r: Result<(), Error>)
      requires |stamp.photoIds| == |dine.photos| && PhotosDistinct(visits)
      modifies this
      ensures Outcome(Snapshot(), r) == StoreSpec.UpdateVisit(old(Snapshot()), id, dine, cancelled, stamp)
      ensures r.Err? ==> Snapshot() == old(Snapshot())
    {
      var target := FindEdit(id, dine, cancelled);
      if target.Err? {
        return Err(target.error);
      }
      var (restaurant, picker, k) := target.value;
      var photos := ReconciledVisitPhotos(
        visits[k].photos, visits[k].id, dine.keepPhotoIds, dine.photos, stamp.photoIds, stamp.now);
      if photos.Err? {
        return Err(NoSuchPhoto);
      }
      ApplyEdit(k, dine, restaurant, picker, photos.value, stamp);
      r := Ok(());
    }

    method DeleteVisit(id: Id)
      modifies this`visits
      ensures Snapshot() == StoreSpec.DeleteVisit(old(Snapshot()), id)
    {
      var k := Search(visits, (v: Visit) => v.id == id);
      if k < |visits| {
        visits := visits[..k] + visits[k + 1..];
      }
    }

    method DeleteRestaurantIfUnvisited(id: Id) returns (deleted: bool)
      modifies this`restaurants, this`wants
      ensures Outcome(Snapshot(), Ok(deleted)) == StoreSpec.DeleteRestaurantIfUnvisited(old(Snapshot()), id)
    {
      var k := Search(visits, (v: Visit) => v.restaurant.id == id);
      if k < |visits| {
        return false;
      }
      var i := Search(restaurants, (r: Restaurant) => r.id == id);
      if i == |restaurants| {
        return false;
      }
      restaurants := restaurants[..i] + restaurants[i + 1..];
      DeleteRestaurantWantToTry(id);
      deleted := true;
    }

    method DeleteRestaurantWantToTry(restaurantId: Id)
      modifies this`wants
      ensures wants == Unlisted(old(wants), restaurantId)
    {
      var stored := new Want[|wants|](i requires 0 <= i < |wants| reads this => wants[i]);
      assert stored[..] == wants;
      var kept := CompactInPlace(stored, restaurantId);
      wants := stored[..kept];
    }

    method UpdateRestaurant(id: Id, profile: Profile, stamp: Stamp) returns (r: Result<(), Error>)
      modifies this`restaurants, this`visits
      ensures Outcome(Snapshot(), r) == StoreSpec.UpdateRestaurant(old(Snapshot()), id, profile, stamp)
    {
      if ProfileError(profile).Some? {
        return Err(ProfileError(profile).value);
      }
      var i := Search(restaurants, (r: Restaurant) => r.id == id);
      if i == |restaurants| {
        return Err(RestaurantNotFound);
      }
      restaurants := restaurants[i := restaurants[i].(
        name := profile.name, address := profile.address, city := profile.city, phone := profile.phone,
        website := profile.website, googleRating := profile.googleRating,
        googlePriceLevel := profile.googlePriceLevel, category := profile.category, isChain := profile.isChain,
        updatedAt := stamp.now)];
      SyncRestaurant(restaurants[i]);
      r := Ok(());
    }

    method UpdateRestaurantGoogleMetadata(id: Id, m: Metadata, category: Option<string>, stamp: Stamp)
      modifies this`restaurants, this`visits
      ensures Snapshot() == UpdateGoogleMetadata(old(Snapshot()), id, m, category, stamp)
    {
      var i := Search(restaurants, (r: Restaurant) => r.id == id);
      if i < |restaurants| {
        ApplyGoogleMetadata(i, m, category, true, stamp.now);
      }
    }

    method ToggleChain(id: Id, isChain: bool, stamp: Stamp)
      modifies this`restaurants, this`visits
      ensures Snapshot() == StoreSpec.ToggleChain(old(Snapshot()), id, isChain, stamp)
    {
      ghost var after := StoreSpec.ToggleChain(old(Snapshot()), id, isChain, stamp);
      for i := 0 to |restaurants|
        invariant |restaurants| == |old(restaurants)|
        invariant visits == old(visits)
        invariant forall k :: 0 <= k < i ==> restaurants[k] == after.restaurants[k]
        invariant forall k :: i <= k < |restaurants| ==> restaurants[k] == old(restaurants)[k]
      {
        if restaurants[i].id == id {
          restaurants := restaurants[i := restaurants[i].(isChain := isChain, updatedAt := stamp.now)];
        }
      }
      assert restaurants == after.restaurants;
      for i := 0 to |visits|
        invariant restaurants == after.restaurants
        invariant |visits| == |old(visits)|
        invariant forall k :: 0 <= k < i ==> visits[k] == after.visits[k]
        invariant forall k :: i <= k < |visits| ==> visits[k] == old(visits)[k]
      {
        if visits[i].restaurant.id == id {
          visits := visits[i := visits[i].(restaurant := visits[i].restaurant.(isChain := isChain))];
        }
      }
      assert visits == after.visits;
    }

    method SaveWantToTry(d: Details, suggestedById: Option<Id>, note: Option<string>, stamp: Stamp)
      returns (r: Result<Id, Error>)
      modifies this
      ensures Outcome(Snapshot(), r) == StoreSpec.SaveWantToTry(old(Snapshot()), d, suggestedById, note, stamp)
      ensures r.Err? ==> Snapshot() == old(Snapshot())
    {
      if SaveError(d, note).Some? {
        return Err(SaveError(d, note).value);
      }
      var suggester := PickerFromInput(suggestedById);
      if suggester.Err? {
        return Err(suggester.error);
      }
      var chosen := FindRestaurant(d.restaurantId);
      if d.restaurantId.Some? && chosen.None? {
        return Err(RestaurantNotFound);
      }
      var resolved := ResolveRestaurant(d, stamp);
      if resolved.Err? {
        return Err(resolved.error);
      }
      var k := Search(wants, (w: Want) => w.restaurantId == resolved.value.id);
      if k < |wants| {
        var stored := wants[k].(suggestedById := suggestedById, note := note);
        if stored.doneAt.Some? {
          stored := stored.(createdAt := stamp.now, doneAt := None);
        }
        wants := wants[k := stored];
        return Ok(stored.id);
      }
      wants := wants + [Want(stamp.wantId, resolved.value.id, suggestedById, note, stamp.now, None)];
      r := Ok(stamp.wantId);
    }

    method DeleteWantToTry(id: Id)
      modifies this`wants
      ensures Snapshot() == StoreSpec.DeleteWantToTry(old(Snapshot()), id)
    {
      var k := Search(wants, (w: Want) => w.id == id);
      if k < |wants| {
        wants := wants[..k] + wants[k + 1..];
      }
    }
  }

  /** Keeps the other restaurants' items by overwriting the array it reads: writes never pass the reading position. */
  method CompactInPlace(a: array<Want>, restaurantId: Id) returns (kept: nat)
    modifies a
    ensures kept <= a.Length && a[..kept] == Unlisted(old(a[..]), restaurantId)
  {
    kept := 0;
    for i := 0 to a.Length
      invariant kept <= i
      invariant a[..kept] == Unlisted(old(a[..])[..i], restaurantId)
      invariant a[i..] == old(a[..])[i..]
    {
      assert old(a[..])[..i + 1][..i] == old(a[..])[..i];
      assert a[i] == old(a[..])[i];
      if a[i].restaurantId != restaurantId {
        a[kept] := a[i];
        kept := kept + 1;
      }
    }
    assert old(a[..])[..a.Length] == old(a[..]);
  }
}
