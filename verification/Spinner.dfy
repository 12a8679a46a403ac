/**
 "Where should we eat?": one choice a restaurant, the filter dropdown, the spin and whose turn it is.
 Trimming, case folding and the random number are parameters.
 */
module Spinner {
  import opened Wrappers
  import opened Ledger
  import opened Folds
  import opened SpinnerData
  import opened Spellings
  import FilterSql
  import StoreInvariants
  import StoreSpec
  import Text

  // ---- Choices ----

  datatype Choice = Choice(restaurant: Restaurant, wantToTry: Option<Item>, favorite: Option<Favorite>)

  function ChoicePlace(c: Choice): Id {
    c.restaurant.id
  }

  /** The favorite for a restaurant, if there is one. */
  function FavoriteFor(favorites: seq<Favorite>, id: Id): Option<Favorite> {
    if favorites == [] then None
    else
      var last := favorites[|favorites| - 1];
      if last.restaurant.id == id then Some(last) else FavoriteFor(favorites[..|favorites| - 1], id)
  }

  lemma {:induction false} FavoriteForIs(favorites: seq<Favorite>, id: Id)
    ensures FavoriteFor(favorites, id).Some? <==> HasFavorite(favorites, id)
    ensures FavoriteFor(favorites, id).Some? ==>
      FavoriteFor(favorites, id).value in favorites && FavoriteFor(favorites, id).value.restaurant.id == id
  {
    if favorites != [] {
      var n := |favorites| - 1;
      FavoriteForIs(favorites[..n], id);
      assert forall i :: 0 <= i < n ==> favorites[..n][i] == favorites[i];
      if HasFavorite(favorites[..n], id) {
        var i :| 0 <= i < n && favorites[..n][i].restaurant.id == id;
        assert favorites[i].restaurant.id == id;
      }
    }
  }

  /** The list's choices, each with its favorite. */
  function ListChoices(items: seq<Item>, favorites: seq<Favorite>): (choices: seq<Choice>)
    ensures |choices| == |items|
    ensures forall i :: 0 <= i < |items| ==>
      choices[i] == Choice(items[i].restaurant, Some(items[i]), FavoriteFor(favorites, items[i].restaurant.id))
  {
    seq(|items|, i requires 0 <= i < |items| =>
      Choice(items[i].restaurant, Some(items[i]), FavoriteFor(favorites, items[i].restaurant.id)))
  }

  /** The favorites that are not on the list. */
  function OtherChoices(items: seq<Item>, favorites: seq<Favorite>): seq<Choice> {
    if favorites == [] then []
    else
      var f := favorites[|favorites| - 1];
      OtherChoices(items, favorites[..|favorites| - 1])
      + if HasItem(items, f.restaurant.id) then [] else [Choice(f.restaurant, None, Some(f))]
  }

  /** Where each restaurant's choice is. */
  ghost predicate Indexes(byRestaurant: map<Id, nat>, choices: seq<Choice>) {
    && (forall id :: id in byRestaurant ==>
          byRestaurant[id] < |choices| && choices[byRestaurant[id]].restaurant.id == id)
    && (forall i :: 0 <= i < |choices| ==>
          choices[i].restaurant.id in byRestaurant && byRestaurant[choices[i].restaurant.id] == i)
  }

  method ItemChoices(items: seq<Item>) returns (choices: seq<Choice>, byRestaurant: map<Id, nat>)
    requires DistinctBy(items, PlaceOfItem)
    ensures choices == ListChoices(items, []) && Indexes(byRestaurant, choices)
  {
    choices, byRestaurant := [], map[];
    for i := 0 to |items|
      invariant choices == ListChoices(items[..i], [])
      invariant Indexes(byRestaurant, choices)
    {
      assert forall j :: 0 <= j < i ==> PlaceOfItem(items[j]) != PlaceOfItem(items[i]);
      byRestaurant := byRestaurant[items[i].restaurant.id := |choices|];
      choices := choices + [Choice(items[i].restaurant, Some(items[i]), None)];
    }
    assert items[..|items|] == items;
  }

  function ChoicesOf(items: seq<Item>, favorites: seq<Favorite>): seq<Choice> {
    ListChoices(items, favorites) + OtherChoices(items, favorites)
  }

  lemma Attached(items: seq<Item>, favorites: seq<Favorite>, i: nat, index: nat, choices: seq<Choice>)
    requires i < |favorites| && index < |items| && items[index].restaurant.id == favorites[i].restaurant.id
    requires forall k :: 0 <= k < |items| && items[k].restaurant.id == favorites[i].restaurant.id ==> k == index
    requires var before := ChoicesOf(items, favorites[..i]);
             choices == before[index := before[index].(favorite := Some(favorites[i]))]
    ensures choices == ChoicesOf(items, favorites[..i + 1])
  {
    OneMoreFavorite(items, favorites, i);
    assert HasItem(items, favorites[i].restaurant.id);
    assert choices[..|items|] == ListChoices(items, favorites[..i + 1]);
    assert OtherChoices(items, favorites[..i + 1]) == OtherChoices(items, favorites[..i]);
  }

  /** One favorite: attached to its restaurant's choice, or a choice of its own. */
  method AddFavorite(
    choices: seq<Choice>, byRestaurant: map<Id, nat>, f: Favorite, ghost items: seq<Item>,
    ghost favorites: seq<Favorite>, ghost i: nat)
    returns (choices': seq<Choice>, byRestaurant': map<Id, nat>)
    requires DistinctBy(items, PlaceOfItem) && DistinctBy(favorites, FavoritePlace) && i < |favorites|
      && f == favorites[i]
    requires choices == ChoicesOf(items, favorites[..i]) && Indexes(byRestaurant, choices)
    ensures choices' == ChoicesOf(items, favorites[..i + 1]) && Indexes(byRestaurant', choices')
  {
    OneMoreFavorite(items, favorites, i);
    if f.restaurant.id in byRestaurant {
      var index := byRestaurant[f.restaurant.id];
      ListedChoice(items, favorites, i, index);
      choices' := choices[index := choices[index].(favorite := Some(f))];
      byRestaurant' := byRestaurant;
      Attached(items, favorites, i, index, choices');
    } else {
      UnlistedChoice(items, favorites, i, choices);
      byRestaurant' := byRestaurant[f.restaurant.id := |choices|];
      choices' := choices + [Choice(f.restaurant, None, Some(f))];
      assert ListChoices(items, favorites[..i + 1]) == ListChoices(items, favorites[..i]);
    }
  }

  /** The list's items first, in their order, then the other favorites in theirs. */
  method SpinChoices(items: seq<Item>, favorites: seq<Favorite>) returns (choices: seq<Choice>)
    requires DistinctBy(items, PlaceOfItem) && DistinctBy(favorites, FavoritePlace)
    ensures choices == ChoicesOf(items, favorites)
  {
    var byRestaurant: map<Id, nat>;
    choices, byRestaurant := ItemChoices(items);
    for i := 0 to |favorites|
      invariant choices == ChoicesOf(items, favorites[..i])
      invariant Indexes(byRestaurant, choices)
    {
      choices, byRestaurant := AddFavorite(choices, byRestaurant, favorites[i], items, favorites, i);
    }
    assert favorites[..|favorites|] == favorites;
  }

  /** What one more favorite does to the two parts. */
  lemma OneMoreFavorite(items: seq<Item>, favorites: seq<Favorite>, i: nat)
    requires i < |favorites|
    ensures OtherChoices(items, favorites[..i + 1])
            == OtherChoices(items, favorites[..i])
               + if HasItem(items, favorites[i].restaurant.id) then []
                 else [Choice(favorites[i].restaurant, None, Some(favorites[i]))]
    ensures forall k :: 0 <= k < |items| ==>
      ListChoices(items, favorites[..i + 1])[k]
      == if items[k].restaurant.id == favorites[i].restaurant.id
         then ListChoices(items, favorites[..i])[k].(favorite := Some(favorites[i]))
         else ListChoices(items, favorites[..i])[k]
  {
    assert favorites[..i + 1][..i] == favorites[..i];
  }

  lemma {:induction false} OthersAreFavorites(items: seq<Item>, favorites: seq<Favorite>)
    ensures forall k :: 0 <= k < |OtherChoices(items, favorites)| ==>
      var c := OtherChoices(items, favorites)[k];
      c.favorite.Some? && c.favorite.value in favorites && c.restaurant == c.favorite.value.restaurant
        && c.wantToTry.None?
      && !HasItem(items, c.restaurant.id)
    ensures forall f :: f in favorites && !HasItem(items, f.restaurant.id) ==>
      Choice(f.restaurant, None, Some(f)) in OtherChoices(items, favorites)
    ensures DistinctBy(favorites, FavoritePlace) ==> DistinctBy(OtherChoices(items, favorites), ChoicePlace)
  {
    if favorites != [] {
      var n := |favorites| - 1;
      var before := favorites[..n];
      assert favorites == before + [favorites[n]];
      OthersAreFavorites(items, before);
      assert forall f :: f in before ==> f in favorites;
      if DistinctBy(favorites, FavoritePlace) {
        assert DistinctBy(before, FavoritePlace);
        forall f | f in before ensures f.restaurant.id != favorites[n].restaurant.id {
          var i :| 0 <= i < n && before[i] == f;
          assert FavoritePlace(favorites[i]) != FavoritePlace(favorites[n]);
        }
      }
    }
  }

  lemma OthersAreElsewhere(items: seq<Item>, favorites: seq<Favorite>, i: nat, k: nat)
    requires DistinctBy(favorites, FavoritePlace) && i < |favorites| && k < |OtherChoices(items, favorites[..i])|
    ensures OtherChoices(items, favorites[..i])[k].restaurant.id != favorites[i].restaurant.id
  {
    OthersAreFavorites(items, favorites[..i]);
    var c := OtherChoices(items, favorites[..i])[k];
    var j :| 0 <= j < i && favorites[..i][j] == c.favorite.value;
    assert FavoritePlace(favorites[j]) != FavoritePlace(favorites[i]);
  }

  /** The position found for a favorite on the list is its item's. */
  lemma ListedChoice(items: seq<Item>, favorites: seq<Favorite>, i: nat, index: nat)
    requires DistinctBy(items, PlaceOfItem) && DistinctBy(favorites, FavoritePlace) && i < |favorites|
    requires var choices := ChoicesOf(items, favorites[..i]);
             index < |choices| && choices[index].restaurant.id == favorites[i].restaurant.id
    ensures index < |items| && items[index].restaurant.id == favorites[i].restaurant.id
    ensures HasItem(items, favorites[i].restaurant.id)
    ensures forall k :: 0 <= k < |items| && items[k].restaurant.id == favorites[i].restaurant.id ==> k == index
  {
    if index >= |items| {
      OthersAreElsewhere(items, favorites, i, index - |items|);
    }
    forall k | 0 <= k < |items| && items[k].restaurant.id == favorites[i].restaurant.id ensures k == index {
      assert k != index ==> PlaceOfItem(items[k]) != PlaceOfItem(items[index]);
    }
  }

  /** A favorite with no position yet has no item. */
  lemma UnlistedChoice(items: seq<Item>, favorites: seq<Favorite>, i: nat, choices: seq<Choice>)
    requires i < |favorites| && choices == ChoicesOf(items, favorites[..i])
    requires forall k :: 0 <= k < |choices| ==> choices[k].restaurant.id != favorites[i].restaurant.id
    ensures !HasItem(items, favorites[i].restaurant.id)
  {
    forall k | 0 <= k < |items| ensures items[k].restaurant.id != favorites[i].restaurant.id {
      assert choices[k].restaurant.id == items[k].restaurant.id;
    }
  }

  /** Exactly one choice a restaurant, covering every item and every favorite. */
  lemma OneChoiceEach(items: seq<Item>, favorites: seq<Favorite>)
    requires DistinctBy(items, PlaceOfItem) && DistinctBy(favorites, FavoritePlace)
    ensures var choices := ChoicesOf(items, favorites);
            && DistinctBy(choices, ChoicePlace)
            && (forall i :: 0 <= i < |items| ==>
                  choices[i].wantToTry == Some(items[i]) && choices[i].restaurant == items[i].restaurant)
            && (forall f :: f in favorites ==>
                  exists c :: c in choices && c.restaurant.id == f.restaurant.id && c.favorite == Some(f))
            && (forall c :: c in choices ==> c.favorite == FavoriteFor(favorites, c.restaurant.id))
  {
    var choices := ChoicesOf(items, favorites);
    OthersAreFavorites(items, favorites);
    forall i, j | 0 <= i < j < |choices| ensures ChoicePlace(choices[i]) != ChoicePlace(choices[j]) {
      ChoicesDiffer(items, favorites, i, j);
    }
    forall c | c in choices ensures c.favorite == FavoriteFor(favorites, c.restaurant.id) {
      var i :| 0 <= i < |choices| && choices[i] == c;
      if i >= |items| {
        OnlyFavoriteFor(favorites, c.favorite.value);
      }
    }
    forall f | f in favorites
      ensures exists c :: c in choices && c.restaurant.id == f.restaurant.id && c.favorite == Some(f)
    {
      OnlyFavoriteFor(favorites, f);
      if HasItem(items, f.restaurant.id) {
        var i :| 0 <= i < |items| && items[i].restaurant.id == f.restaurant.id;
        assert choices[i] in choices;
      } else {
        assert Choice(f.restaurant, None, Some(f)) in choices;
      }
    }
  }

  function ChoiceWithout(items: seq<Item>): Favorite -> Option<Choice> {
    (f: Favorite) => if HasItem(items, f.restaurant.id) then None else Some(Choice(f.restaurant, None, Some(f)))
  }

  /** After the items come the favorites off the list, in the order of the favorites. */
  lemma {:induction false} OthersFollowFavorites(items: seq<Item>, favorites: seq<Favorite>)
    returns (places: seq<nat>)
    ensures Follows(OtherChoices(items, favorites), favorites, ChoiceWithout(items), places)
  {
    places := [];
    if favorites != [] {
      var n := |favorites| - 1;
      places := OthersFollowFavorites(items, favorites[..n]);
      places := FollowsOneMore(OtherChoices(items, favorites[..n]), favorites, ChoiceWithout(items), places);
    }
  }

  lemma ChoicesDiffer(items: seq<Item>, favorites: seq<Favorite>, i: nat, j: nat)
    requires DistinctBy(items, PlaceOfItem) && DistinctBy(favorites, FavoritePlace)
    requires i < j < |ListChoices(items, favorites)| + |OtherChoices(items, favorites)|
    ensures var choices := ChoicesOf(items, favorites);
            choices[i].restaurant.id != choices[j].restaurant.id
  {
    OthersAreFavorites(items, favorites);
    var others := OtherChoices(items, favorites);
    if j < |items| {
      assert PlaceOfItem(items[i]) != PlaceOfItem(items[j]);
    } else if i < |items| {
      assert !HasItem(items, others[j - |items|].restaurant.id);
      assert HasItem(items, items[i].restaurant.id);
    } else {
      assert ChoicePlace(others[i - |items|]) != ChoicePlace(others[j - |items|]);
    }
  }

  lemma OnlyFavoriteFor(favorites: seq<Favorite>, f: Favorite)
    requires DistinctBy(favorites, FavoritePlace) && f in favorites
    ensures FavoriteFor(favorites, f.restaurant.id) == Some(f)
  {
    var i :| 0 <= i < |favorites| && favorites[i] == f;
    FavoriteForIs(favorites, f.restaurant.id);
    assert favorites[i].restaurant.id == f.restaurant.id;
    var g := FavoriteFor(favorites, f.restaurant.id).value;
    var j :| 0 <= j < |favorites| && favorites[j] == g;
    assert i != j ==> FavoritePlace(favorites[i]) != FavoritePlace(favorites[j]);
  }

  /** In a reachable store what the spinner reads always meets its demands. */
  lemma StoreFeedsTheSpinner(s: StoreSpec.State, items: seq<Item>)
    requires StoreInvariants.Inv(s) && multiset(items) == multiset(OpenItems(s, s.wants))
    ensures DistinctBy(items, PlaceOfItem)
    ensures forall id :: HasItem(items, id) <==> HasOpenWant(s.wants, id)
  {
    OpenItemsAre(s, s.wants);
    var listed := OpenItems(s, s.wants);
    StaysDistinct(listed, items, PlaceOfItem);
    forall id ensures HasItem(items, id) <==> HasItem(listed, id) {
      if i :| 0 <= i < |items| && items[i].restaurant.id == id {
        SameElements(items, listed, items[i]);
      }
      if i :| 0 <= i < |listed| && listed[i].restaurant.id == id {
        SameElements(items, listed, listed[i]);
      }
    }
  }

  // ---- The filter ----

  /** The trimmed cuisine and city of a restaurant, how texts are trimmed and how they compare ignoring case. */
  datatype Words = Words(
    cuisine: Restaurant -> string, city: Restaurant -> string, trim: string -> string, fold: Fold,
    same: (string, string) -> bool)

  /** One canonical fold. */
  ghost predicate Canonical(w: Words) {
    forall a, b :: w.same(a, b) <==> w.fold(a) == w.fold(b)
  }

  function CategoryOf(r: Restaurant): string {
    Text.Trim(FilterSql.ValueOrEmpty(r.category))
  }

  function CityOf(r: Restaurant): string {
    Text.Trim(FilterSql.ValueOrEmpty(r.city))
  }

  const GO_WORDS := Words(CategoryOf, CityOf, Text.Trim, Text.Lower, Text.EqualFold)

  /** strings.ToLower and strings.EqualFold are one fold, on the letters modelled. */
  lemma GoWordsAreCanonical()
    ensures Canonical(GO_WORDS)
    ensures forall r: Restaurant :: GO_WORDS.cuisine(r) == Text.Trim(r.category.GetOr(""))
    ensures forall r: Restaurant :: GO_WORDS.city(r) == Text.Trim(r.city.GetOr(""))
  {
    forall a, b ensures Text.EqualFold(a, b) <==> Text.Lower(a) == Text.Lower(b) {
      Text.EqualFoldIsEqualLower(a, b);
    }
  }

  const CUISINE := "cuisine:"
  const CITY := "city:"

  function CutPrefix(s: string, prefix: string): Option<string> {
    if |prefix| <= |s| && s[..|prefix|] == prefix then Some(s[|prefix|..]) else None
  }

  function Kept(
    choices: seq<Choice>, text: Restaurant -> string, wanted: string, same: (string, string) -> bool): seq<Choice>
  {
    if choices == [] then []
    else
      var last := choices[|choices| - 1];
      Kept(choices[..|choices| - 1], text, wanted, same) + if same(text(last.restaurant), wanted) then [last] else []
  }

  lemma {:induction false} KeptAre(
    choices: seq<Choice>, text: Restaurant -> string, wanted: string, same: (string, string) -> bool)
    ensures forall c :: c in Kept(choices, text, wanted, same) <==> c in choices && same(text(c.restaurant), wanted)
    ensures DistinctBy(choices, ChoicePlace) ==> DistinctBy(Kept(choices, text, wanted, same), ChoicePlace)
  {
    if choices != [] {
      var n := |choices| - 1;
      var before := choices[..n];
      assert choices == before + [choices[n]];
      KeptAre(before, text, wanted, same);
      if DistinctBy(choices, ChoicePlace) {
        assert DistinctBy(before, ChoicePlace);
        forall c | c in before ensures ChoicePlace(c) != ChoicePlace(choices[n]) {
          var i :| 0 <= i < n && before[i] == c;
          assert ChoicePlace(choices[i]) != ChoicePlace(choices[n]);
        }
      }
    }
  }

  function OnlyIf(fits: Choice -> bool): Choice -> Option<Choice> {
    (c: Choice) => if fits(c) then Some(c) else None
  }

  /** The choices whose text is the wanted one are kept in their order. */
  lemma {:induction false} KeptInOrder(
    choices: seq<Choice>, text: Restaurant -> string, wanted: string, same: (string, string) -> bool)
    returns (places: seq<nat>)
    ensures Follows(Kept(choices, text, wanted, same), choices,
                    OnlyIf((c: Choice) => same(text(c.restaurant), wanted)), places)
  {
    var fits := (c: Choice) => same(text(c.restaurant), wanted);
    places := [];
    if choices != [] {
      var n := |choices| - 1;
      places := KeptInOrder(choices[..n], text, wanted, same);
      places := FollowsOneMore(Kept(choices[..n], text, wanted, same), choices, OnlyIf(fits), places);
    }
  }

  function Filtered(choices: seq<Choice>, filter: string, w: Words): seq<Choice> {
    match CutPrefix(filter, CUISINE)
    case Some(value) => Kept(choices, w.cuisine, value, w.same)
    case None =>
      match CutPrefix(filter, CITY)
      case Some(value) => Kept(choices, w.city, value, w.same)
      case None => choices
  }

  /** The choice has the cuisine or city the filter asks for; another filter asks for nothing. */
  ghost predicate Fits(c: Choice, filter: string, w: Words) {
    && (forall word :: filter == "cuisine:" + word ==> w.same(w.cuisine(c.restaurant), word))
    && (forall word :: filter == "city:" + word ==> w.same(w.city(c.restaurant), word))
  }

  lemma PrefixIsCut(s: string, prefix: string)
    ensures forall word :: s == prefix + word <==> CutPrefix(s, prefix) == Some(word)
  {
    forall word | s == prefix + word ensures CutPrefix(s, prefix) == Some(word) {
      assert s[..|prefix|] == prefix && s[|prefix|..] == word;
    }
  }

  lemma FilterKeeps(choices: seq<Choice>, filter: string, w: Words)
    ensures forall c :: c in Filtered(choices, filter, w) <==> c in choices && Fits(c, filter, w)
  {
    PrefixIsCut(filter, "cuisine:");
    PrefixIsCut(filter, "city:");
    match CutPrefix(filter, CUISINE)
    case Some(word) =>
      assert filter[1] == 'u';
      KeptAre(choices, w.cuisine, word, w.same);
    case None =>
      match CutPrefix(filter, CITY) {
        case Some(word) => KeptAre(choices, w.city, word, w.same);
        case None =>
      }
  }

  method FilterSpinChoices(choices: seq<Choice>, filter: string, w: Words) returns (matching: seq<Choice>)
    ensures matching == Filtered(choices, filter, w)
    ensures forall c :: c in matching <==> c in choices && Fits(c, filter, w)
  {
    FilterKeeps(choices, filter, w);
    var text := w.cuisine;
    var value := CutPrefix(filter, CUISINE);
    if value.None? {
      value := CutPrefix(filter, CITY);
      text := w.city;
    }
    if value.None? {
      return choices;
    }
    matching := [];
    for i := 0 to |choices|
      invariant matching == Kept(choices[..i], text, value.value, w.same)
    {
      assert choices[..i + 1][..i] == choices[..i];
      if w.same(text(choices[i].restaurant), value.value) {
        matching := matching + [choices[i]];
      }
    }
    assert choices[..|choices|] == choices;
  }

  /** A dropdown option's value names its own field and label. */
  lemma OptionValue(choices: seq<Choice>, word: string, w: Words)
    ensures Filtered(choices, "cuisine:" + word, w) == Kept(choices, w.cuisine, word, w.same)
    ensures Filtered(choices, "city:" + word, w) == Kept(choices, w.city, word, w.same)
  {
    assert (CUISINE + word)[|CUISINE|..] == word && (CITY + word)[|CITY|..] == word;
    assert CutPrefix(CUISINE + word, CUISINE) == Some(word);
    assert (CITY + word)[1] == 'i' && CUISINE[1] == 'u';
    if |CUISINE| <= |CITY + word| {
      assert (CITY + word)[..|CUISINE|][1] == 'i';
    }
    assert CutPrefix(CITY + word, CUISINE).None?;
  }

  datatype Selection = Anywhere | InCuisine(i: nat) | InCity(i: nat)

  function TextsOf(choices: seq<Choice>, text: Restaurant -> string): seq<string> {
    seq(|choices|, i requires 0 <= i < |choices| => text(choices[i].restaurant))
  }

  /** The first option whose value equals the filter ignoring case, cuisines before cities. */
  predicate IsSelection(selected: Selection, cuisines: seq<string>, cities: seq<string>, filter: string, w: Words) {
    match selected
    case InCuisine(i) =>
      && i < |cuisines| && w.same(CUISINE + cuisines[i], filter)
      && forall j :: 0 <= j < i ==> !w.same(CUISINE + cuisines[j], filter)
    case InCity(i) =>
      && i < |cities| && w.same(CITY + cities[i], filter)
      && (forall j :: 0 <= j < |cuisines| ==> !w.same(CUISINE + cuisines[j], filter))
      && forall j :: 0 <= j < i ==> !w.same(CITY + cities[j], filter)
    case Anywhere =>
      && (forall j :: 0 <= j < |cuisines| ==> !w.same(CUISINE + cuisines[j], filter))
      && forall j :: 0 <= j < |cities| ==> !w.same(CITY + cities[j], filter)
  }

  /** The choices a selection leaves. */
  function Matching(
    choices: seq<Choice>, selected: Selection, cuisines: seq<string>, cities: seq<string>, w: Words): seq<Choice>
    requires selected.InCuisine? ==> selected.i < |cuisines|
    requires selected.InCity? ==> selected.i < |cities|
  {
    match selected
    case Anywhere => choices
    case InCuisine(i) => Kept(choices, w.cuisine, cuisines[i], w.same)
    case InCity(i) => Kept(choices, w.city, cities[i], w.same)
  }

  /** One dropdown's spellings, in the order of their keys. */
  method Dropdown(choices: seq<Choice>, text: Restaurant -> string, fold: Fold) returns (labels: seq<string>)
    ensures IsOffer(TextsOf(choices, text), labels, fold)
  {
    var values: map<string, string> := map[];
    for i := 0 to |choices|
      invariant Spelled(TextsOf(choices[..i], text), values, fold)
    {
      assert TextsOf(choices[..i + 1], text) == TextsOf(choices[..i], text) + [text(choices[i].restaurant)];
      values := Keep(values, text(choices[i].restaurant), fold, TextsOf(choices[..i], text));
    }
    assert choices[..|choices|] == choices;
    labels := SortedValues(values, fold, TextsOf(choices, text));
  }

  /** The page's dropdowns, the option the filter selects, the choices it leaves, and the number of all choices. */
  method SpinPage(choices: seq<Choice>, given: string, w: Words)
    returns (cuisines: seq<string>, cities: seq<string>, selected: Selection, matching: seq<Choice>, total: nat)
    ensures total == |choices|
    ensures IsOffer(TextsOf(choices, w.cuisine), cuisines, w.fold)
    ensures IsOffer(TextsOf(choices, w.city), cities, w.fold)
    ensures IsSelection(selected, cuisines, cities, w.trim(given), w)
    ensures matching == Matching(choices, selected, cuisines, cities, w)
  {
    cuisines := Dropdown(choices, w.cuisine, w.fold);
    cities := Dropdown(choices, w.city, w.fold);
    total := |choices|;
    var filter := w.trim(given);
    for i := 0 to |cuisines|
      invariant forall j :: 0 <= j < i ==> !w.same(CUISINE + cuisines[j], filter)
    {
      if w.same(CUISINE + cuisines[i], filter) {
        selected := InCuisine(i);
        OptionValue(choices, cuisines[i], w);
        matching := FilterSpinChoices(choices, CUISINE + cuisines[i], w);
        return;
      }
    }
    for i := 0 to |cities|
      invariant forall j :: 0 <= j < i ==> !w.same(CITY + cities[j], filter)
    {
      if w.same(CITY + cities[i], filter) {
        selected := InCity(i);
        OptionValue(choices, cities[i], w);
        matching := FilterSpinChoices(choices, CITY + cities[i], w);
        return;
      }
    }
    selected, matching := Anywhere, choices;
  }

  /** A selected option always leaves something to spin; the rest of the choices are left by no other spelling. */
  lemma SelectionLeavesChoices(
    choices: seq<Choice>, selected: Selection, cuisines: seq<string>, cities: seq<string>, filter: string, w: Words)
    requires Canonical(w) && IsSelection(selected, cuisines, cities, filter, w)
    requires IsOffer(TextsOf(choices, w.cuisine), cuisines, w.fold) && IsOffer(TextsOf(choices, w.city), cities, w.fold)
    ensures !selected.Anywhere? ==> Matching(choices, selected, cuisines, cities, w) != []
    ensures forall c :: c in Matching(choices, selected, cuisines, cities, w) ==> c in choices
    ensures DistinctBy(choices, ChoicePlace) ==>
      DistinctBy(Matching(choices, selected, cuisines, cities, w), ChoicePlace)
  {
    match selected
    case Anywhere =>
    case InCuisine(i) =>
      KeptAre(choices, w.cuisine, cuisines[i], w.same);
      LabelHasAChoice(choices, w.cuisine, cuisines, i, w);
    case InCity(i) =>
      KeptAre(choices, w.city, cities[i], w.same);
      LabelHasAChoice(choices, w.city, cities, i, w);
  }

  lemma LabelHasAChoice(choices: seq<Choice>, text: Restaurant -> string, labels: seq<string>, i: nat, w: Words)
    requires Canonical(w) && i < |labels| && IsOffer(TextsOf(choices, text), labels, w.fold)
    ensures Kept(choices, text, labels[i], w.same) != []
  {
    KeptAre(choices, text, labels[i], w.same);
    var k :| 0 <= k < |choices| && TextsOf(choices, text)[k] == labels[i];
    assert text(choices[k].restaurant) == labels[i];
    assert choices[k] in Kept(choices, text, labels[i], w.same);
  }

  // ---- The spin ----

  function Elsewhere(choices: seq<Choice>, last: Id): seq<Choice> {
    if choices == [] then []
    else
      var c := choices[|choices| - 1];
      Elsewhere(choices[..|choices| - 1], last) + if c.restaurant.id != last then [c] else []
  }

  /** They come in the order of the choices. */
  lemma {:induction false} ElsewhereInOrder(choices: seq<Choice>, last: Id) returns (places: seq<nat>)
    ensures Follows(Elsewhere(choices, last), choices, OnlyIf((c: Choice) => c.restaurant.id != last), places)
  {
    var fits := (c: Choice) => c.restaurant.id != last;
    places := [];
    if choices != [] {
      var n := |choices| - 1;
      places := ElsewhereInOrder(choices[..n], last);
      places := FollowsOneMore(Elsewhere(choices[..n], last), choices, OnlyIf(fits), places);
    }
  }

  lemma {:induction false} ElsewhereAre(choices: seq<Choice>, last: Id)
    ensures forall c :: c in Elsewhere(choices, last) <==> c in choices && c.restaurant.id != last
  {
    if choices != [] {
      var n := |choices| - 1;
      ElsewhereAre(choices[..n], last);
      assert choices == choices[..n] + [choices[n]];
    }
  }

  function Candidates(choices: seq<Choice>, last: Id): seq<Choice> {
    if |choices| > 1 && Elsewhere(choices, last) != [] then Elsewhere(choices, last) else choices
  }

  method PickSpinChoice(choices: seq<Choice>, last: Id, intn: nat -> nat) returns (pick: Choice)
    requires choices != [] && forall n :: n > 0 ==> intn(n) < n
    ensures intn(|Candidates(choices, last)|) < |Candidates(choices, last)|
    ensures pick == Candidates(choices, last)[intn(|Candidates(choices, last)|)]
    ensures pick in choices
    ensures (exists c :: c in choices && c.restaurant.id != last) ==> pick.restaurant.id != last
  {
    SpinAvoidsTheLast(choices, last);
    var candidates := choices;
    if |choices| > 1 {
      candidates := [];
      for i := 0 to |choices|
        invariant candidates == Elsewhere(choices[..i], last)
      {
        assert choices[..i + 1][..i] == choices[..i];
        if choices[i].restaurant.id != last {
          candidates := candidates + [choices[i]];
        }
      }
      assert choices[..|choices|] == choices;
      if |candidates| == 0 {
        candidates := choices;
      }
    }
    pick := candidates[intn(|candidates|)];
  }

  /**
   A spin lands on one of the choices, never where the last one did while there is anywhere else; and every
   choice it may land on, some random number lands on.
   */
  lemma SpinAvoidsTheLast(choices: seq<Choice>, last: Id)
    requires choices != []
    ensures Candidates(choices, last) != []
    ensures forall c :: c in Candidates(choices, last) ==> c in choices
    ensures (exists c :: c in choices && c.restaurant.id != last) ==>
      forall c :: c in Candidates(choices, last) <==> c in choices && c.restaurant.id != last
    ensures |choices| >= 2 && DistinctBy(choices, ChoicePlace) ==>
      forall c :: c in Candidates(choices, last) ==> c.restaurant.id != last
  {
    ElsewhereAre(choices, last);
    if c :| c in choices && c.restaurant.id != last {
      assert c in Elsewhere(choices, last);
      assert |choices| == 1 ==> choices == [c];
    }
    if |choices| >= 2 && DistinctBy(choices, ChoicePlace) {
      assert ChoicePlace(choices[0]) != ChoicePlace(choices[1]);
      assert choices[0] in choices && choices[1] in choices;
    }
  }

  // ---- Whose turn ----

  predicate PickedEarlier(a: Option<Time>, b: Option<Time>) {
    if a.None? then b.Some? else b.Some? && a.value < b.value
  }

  /** a is before b in turn: fewer picks, then longer ago. */
  predicate SoonerTurn(a: PickCount, b: PickCount) {
    a.picks < b.picks || (a.picks == b.picks && PickedEarlier(a.lastPickedAt, b.lastPickedAt))
  }

  /** The first of the people nobody is before. */
  ghost predicate IsTurn(counts: seq<PickCount>, i: nat) {
    && i < |counts|
    && (forall j :: 0 <= j < |counts| ==> !SoonerTurn(counts[j], counts[i]))
    && (forall j :: 0 <= j < i ==> SoonerTurn(counts[i], counts[j]))
  }

  lemma BeatsTheEarlier(counts: seq<PickCount>, earlier: nat, i: nat)
    requires IsTurn(counts, i) && earlier < i
    ensures SoonerTurn(counts[i], counts[earlier])
  {
  }

  /** There is only one such person. */
  lemma TurnIsUnique(counts: seq<PickCount>, i: nat, j: nat)
    requires IsTurn(counts, i) && IsTurn(counts, j)
    ensures i == j
  {
    if i < j {
      BeatsTheEarlier(counts, i, j);
    } else if j < i {
      BeatsTheEarlier(counts, j, i);
    }
  }

  /**
   Nobody has fewer picks; of those with as few, nobody was picked longer ago, where never is longest; and of
   those in the same position, this is the first.
   */
  predicate IsOwedATurn(counts: seq<PickCount>, i: nat) {
    && i < |counts|
    && (forall j :: 0 <= j < |counts| ==> counts[i].picks <= counts[j].picks)
    && (forall j :: 0 <= j < |counts| && counts[j].picks == counts[i].picks && counts[i].lastPickedAt.Some? ==>
          counts[j].lastPickedAt.Some? && counts[i].lastPickedAt.value <= counts[j].lastPickedAt.value)
    && (forall j :: 0 <= j < i && counts[j].picks == counts[i].picks ==>
          counts[j].lastPickedAt != counts[i].lastPickedAt)
  }

  lemma TurnIsOwed(counts: seq<PickCount>, i: nat)
    requires IsTurn(counts, i)
    ensures IsOwedATurn(counts, i)
  {
    forall j | 0 <= j < |counts|
      ensures counts[i].picks <= counts[j].picks
      ensures counts[j].picks == counts[i].picks && counts[i].lastPickedAt.Some? ==>
        counts[j].lastPickedAt.Some? && counts[i].lastPickedAt.value <= counts[j].lastPickedAt.value
    {
      assert !SoonerTurn(counts[j], counts[i]);
    }
  }

  /** The one whose turn it is; nobody only if there are no people. */
  method WhoseTurn(counts: seq<PickCount>) returns (person: Option<Person>)
    ensures person.None? <==> counts == []
    ensures person.Some? ==> exists i: nat :: IsTurn(counts, i)
    ensures forall i: nat :: IsTurn(counts, i) ==> person == Some(counts[i].person)
    ensures person.Some? ==> exists i: nat :: IsOwedATurn(counts, i) && person.value == counts[i].person
  {
    var best: Option<nat> := None;
    for i := 0 to |counts|
      invariant best.None? <==> i == 0
      invariant best.Some? ==> IsTurn(counts[..i], best.value)
    {
      if best.None? || SoonerTurn(counts[i], counts[best.value]) {
        best := Some(i);
      }
    }
    assert counts[..|counts|] == counts;
    person := if best.None? then None else Some(counts[best.value].person);
    assert best.Some? ==> IsTurn(counts, best.value);
    if best.Some? {
      TurnIsOwed(counts, best.value);
    }
    forall i: nat | IsTurn(counts, i) ensures person == Some(counts[i].person) {
      TurnIsUnique(counts, i, best.value);
    }
  }
}
