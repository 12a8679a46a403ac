/** The choices the visit filters offer, and that they partition the visits. */
module FilterOptions {
  import opened Wrappers
  import opened Ledger
  import opened FilterSql
  import opened Folds
  import opened Spellings
  import opened VisitPages
  import Calendar
  import Text

  // ---- What is offered ----

  function CuisineText(v: Visit): string {
    Text.Trim(ValueOrEmpty(v.restaurant.category))
  }

  function CityText(v: Visit): string {
    Text.Trim(ValueOrEmpty(v.restaurant.city))
  }

  function TextsOf(visits: seq<Visit>, text: Visit -> string): seq<string> {
    seq(|visits|, i requires 0 <= i < |visits| => text(visits[i]))
  }

  /** Each year some visit is in, once, latest first. */
  ghost predicate IsYearOffer(visits: seq<Visit>, years: seq<int>, year: Visit -> int) {
    && (forall i, j :: 0 <= i < j < |years| ==> years[i] > years[j])
    && (forall i :: 0 <= i < |years| ==> InYear(visits, years[i], year))
    && (forall k :: 0 <= k < |visits| ==> year(visits[k]) in years)
  }

  predicate InYear(visits: seq<Visit>, y: int, year: Visit -> int) {
    exists k :: 0 <= k < |visits| && year(visits[k]) == y
  }

  datatype Words = Words(cuisine: Visit -> string, city: Visit -> string, year: Visit -> int, fold: Fold)

  datatype Values = Values(cuisines: map<string, string>, cities: map<string, string>, years: map<int, bool>)

  ghost predicate Collected(visits: seq<Visit>, values: Values, w: Words) {
    && Spelled(TextsOf(visits, w.cuisine), values.cuisines, w.fold)
    && Spelled(TextsOf(visits, w.city), values.cities, w.fold)
    && forall y :: y in values.years <==> InYear(visits, y, w.year)
  }

  /** One visit of the loop. */
  method Collect(values: Values, visit: Visit, ghost visits: seq<Visit>, w: Words) returns (values': Values)
    requires Collected(visits, values, w)
    ensures Collected(visits + [visit], values', w)
  {
    var cuisines := Keep(values.cuisines, w.cuisine(visit), w.fold, TextsOf(visits, w.cuisine));
    var cities := Keep(values.cities, w.city(visit), w.fold, TextsOf(visits, w.city));
    values' := Values(cuisines, cities, values.years[w.year(visit) := true]);
    assert TextsOf(visits + [visit], w.cuisine) == TextsOf(visits, w.cuisine) + [w.cuisine(visit)];
    assert TextsOf(visits + [visit], w.city) == TextsOf(visits, w.city) + [w.city(visit)];
    forall y ensures InYear(visits + [visit], y, w.year) <==> InYear(visits, y, w.year) || y == w.year(visit) {
      InYearOneMore(visits, visit, y, w.year);
    }
  }

  /** VisitFilterOptions, over the trimmed texts, the calendar year and the lower-casing of its visits. */
  method VisitFilterOptions(visits: seq<Visit>, w: Words)
    returns (cuisines: seq<string>, cities: seq<string>, years: seq<int>)
    ensures IsOffer(TextsOf(visits, w.cuisine), cuisines, w.fold)
    ensures IsOffer(TextsOf(visits, w.city), cities, w.fold)
    ensures IsYearOffer(visits, years, w.year)
    ensures forall i, j :: 0 <= i < j < |cuisines| ==> Text.Less(w.fold(cuisines[i]), w.fold(cuisines[j]))
    ensures forall i, j :: 0 <= i < j < |cities| ==> Text.Less(w.fold(cities[i]), w.fold(cities[j]))
    ensures forall i, j :: 0 <= i < j < |years| ==> years[i] > years[j]
  {
    var values := Values(map[], map[], map[]);
    for i := 0 to |visits|
      invariant Collected(visits[..i], values, w)
    {
      values := Collect(values, visits[i], visits[..i], w);
      assert visits[..i + 1] == visits[..i] + [visits[i]];
    }
    assert visits[..|visits|] == visits;
    cuisines := SortedValues(values.cuisines, w.fold, TextsOf(visits, w.cuisine));
    cities := SortedValues(values.cities, w.fold, TextsOf(visits, w.city));
    years := SortedYears(values.years);
    forall k | 0 <= k < |visits| ensures w.year(visits[k]) in years {
      assert InYear(visits, w.year(visits[k]), w.year);
    }
  }

  lemma InYearOneMore(visits: seq<Visit>, visit: Visit, y: int, year: Visit -> int)
    ensures InYear(visits + [visit], y, year) <==> InYear(visits, y, year) || y == year(visit)
  {
    var more := visits + [visit];
    if k :| 0 <= k < |visits| && year(visits[k]) == y {
      assert year(more[k]) == y;
    }
    if y == year(visit) {
      assert year(more[|visits|]) == y;
    }
    if k :| 0 <= k < |more| && year(more[k]) == y {
      assert k < |visits| ==> year(visits[k]) == y;
    }
  }

  predicate LaterYear(a: int, b: int) {
    a > b
  }

  method SortedYears(yearSet: map<int, bool>) returns (years: seq<int>)
    ensures forall y :: y in years <==> y in yearSet
    ensures forall i, j :: 0 <= i < j < |years| ==> years[i] > years[j]
  {
    var unsorted := KeysOf(yearSet);
    years := SortSlice(unsorted, LaterYear);
    StaysDistinct(unsorted, years, (y: int) => y);
    forall y ensures y in years <==> y in yearSet {
      SameElements(unsorted, years, y);
    }
    assert forall i, j :: 0 <= i < j < |years| ==> years[i] != years[j] && !LaterYear(years[j], years[i]);
  }

  // ---- What a choice selects ----

  type Matcher = (Visit, VisitFilter) -> bool

  function MatcherIn(zone: Calendar.Zone): Matcher {
    (v: Visit, filter: VisitFilter) => VisitMatches(zone, v, filter)
  }

  function CountVisits(matches: Matcher, visits: seq<Visit>, filter: VisitFilter): nat {
    |Matching(visits, v => matches(v, filter))|
  }

  function KeyOf(text: string): Option<string> {
    if text == "" then None else Some(Text.Lower(text))
  }

  function CuisineKey(v: Visit): Option<string> {
    KeyOf(CuisineText(v))
  }

  function CityKey(v: Visit): Option<string> {
    KeyOf(CityText(v))
  }

  function ForCuisine(choice: string): VisitFilter {
    NO_FILTER.(cuisine := choice)
  }

  function ForCity(choice: string): VisitFilter {
    NO_FILTER.(city := choice)
  }

  function ForYear(y: int): VisitFilter {
    NO_FILTER.(year := y)
  }

  predicate IsTrimmed(choice: string) {
    choice != "" && Text.Trim(choice) == choice
  }

  lemma FoldedAlike(choice: string, value: Option<string>)
    requires IsTrimmed(choice)
    ensures TextMatches(choice, value) <==> KeyOf(Text.Trim(ValueOrEmpty(value))) == Some(Text.Lower(choice))
  {
    Text.EqualFoldIsEqualLower(Text.Trim(ValueOrEmpty(value)), choice);
  }

  /** The visits a choice filters for are those with its key. */
  lemma ChoiceSelectsItsKey(zone: Calendar.Zone, v: Visit, choice: string)
    requires IsTrimmed(choice)
    ensures VisitMatches(zone, v, ForCuisine(choice)) <==> CuisineKey(v) == Some(Text.Lower(choice))
    ensures VisitMatches(zone, v, ForCity(choice)) <==> CityKey(v) == Some(Text.Lower(choice))
  {
    OneTextMatches(zone, v, choice);
    FoldedAlike(choice, v.restaurant.category);
    FoldedAlike(choice, v.restaurant.city);
  }

  lemma {:induction false} MatchingIsCounting<K>(
    visits: seq<Visit>, keep: Visit -> bool, keyOf: Visit -> Option<K>, key: K)
    requires forall k :: 0 <= k < |visits| ==> (keep(visits[k]) <==> keyOf(visits[k]) == Some(key))
    ensures |Matching(visits, keep)| == CountKey(visits, keyOf, key)
  {
    if visits != [] {
      var n := |visits| - 1;
      MatchingIsCounting(visits[..n], keep, keyOf, key);
      MatchingAppends(visits[..n], visits[n], keep);
      assert visits == visits[..n] + [visits[n]];
    }
  }

  function ChoiceCounts(
    matches: Matcher, visits: seq<Visit>, filterFor: string -> VisitFilter, choices: seq<string>): nat
  {
    if choices == [] then 0
    else ChoiceCounts(matches, visits, filterFor, choices[..|choices| - 1])
         + CountVisits(matches, visits, filterFor(choices[|choices| - 1]))
  }

  function Keys(choices: seq<string>): (keys: seq<string>)
    ensures |keys| == |choices|
    ensures forall i :: 0 <= i < |choices| ==> keys[i] == Text.Lower(choices[i])
  {
    seq(|choices|, i requires 0 <= i < |choices| => Text.Lower(choices[i]))
  }

  // ---- The choices partition the visits ----

  /** Filtering for a choice selects the visits with its key. */
  ghost predicate SelectByKey(
    matches: Matcher, filterFor: string -> VisitFilter, keyOf: Visit -> Option<string>, choices: seq<string>)
  {
    forall v, i :: 0 <= i < |choices| ==> (matches(v, filterFor(choices[i])) <==> keyOf(v) == Some(Keys(choices)[i]))
  }

  /** Distinct keys, all of them some visit's, that cover every key. */
  ghost predicate Covers(visits: seq<Visit>, keyOf: Visit -> Option<string>, keys: seq<string>) {
    && (forall i :: 0 <= i < |keys| ==> SomeVisitHas(visits, keyOf, keys[i]))
    && Distinct(keys)
    && (forall k :: 0 <= k < |visits| && keyOf(visits[k]).Some? ==> keyOf(visits[k]).value in keys)
  }

  predicate SomeVisitHas(visits: seq<Visit>, keyOf: Visit -> Option<string>, key: string) {
    exists k :: 0 <= k < |visits| && keyOf(visits[k]) == Some(key)
  }

  /** Each choice matches a visit, no visit matches two, and together they count the visits that have a key. */
  ghost predicate Partition(
    matches: Matcher, visits: seq<Visit>, filterFor: string -> VisitFilter, keyOf: Visit -> Option<string>,
      choices: seq<string>)
  {
    && (forall i :: 0 <= i < |choices| ==> CountVisits(matches, visits, filterFor(choices[i])) > 0)
    && (forall i, j, v :: 0 <= i < j < |choices| ==>
          !(matches(v, filterFor(choices[i])) && matches(v, filterFor(choices[j]))))
    && ChoiceCounts(matches, visits, filterFor, choices) == CountKeyed(visits, keyOf)
  }

  lemma OneChoiceCounts(
    matches: Matcher, visits: seq<Visit>, filterFor: string -> VisitFilter, keyOf: Visit -> Option<string>,
    choices: seq<string>, i: nat)
    requires SelectByKey(matches, filterFor, keyOf, choices) && i < |choices|
    ensures CountVisits(matches, visits, filterFor(choices[i])) == CountKey(visits, keyOf, Keys(choices)[i])
  {
    MatchingIsCounting(visits, v => matches(v, filterFor(choices[i])), keyOf, Keys(choices)[i]);
  }

  lemma {:induction false} ChoiceCountsAreKeyCounts(
    matches: Matcher, visits: seq<Visit>, filterFor: string -> VisitFilter, keyOf: Visit -> Option<string>,
      choices: seq<string>)
    requires SelectByKey(matches, filterFor, keyOf, choices)
    ensures ChoiceCounts(matches, visits, filterFor, choices) == SumOfCounts(visits, keyOf, Keys(choices))
  {
    if choices != [] {
      var n := |choices| - 1;
      assert Keys(choices)[..n] == Keys(choices[..n]);
      assert SelectByKey(matches, filterFor, keyOf, choices[..n]);
      ChoiceCountsAreKeyCounts(matches, visits, filterFor, keyOf, choices[..n]);
      OneChoiceCounts(matches, visits, filterFor, keyOf, choices, n);
    }
  }

  lemma ChoicesPartition(
    matches: Matcher, visits: seq<Visit>, filterFor: string -> VisitFilter, keyOf: Visit -> Option<string>,
      choices: seq<string>)
    requires SelectByKey(matches, filterFor, keyOf, choices) && Covers(visits, keyOf, Keys(choices))
    ensures Partition(matches, visits, filterFor, keyOf, choices)
  {
    forall i | 0 <= i < |choices| ensures CountVisits(matches, visits, filterFor(choices[i])) > 0 {
      OneChoiceCounts(matches, visits, filterFor, keyOf, choices, i);
      assert SomeVisitHas(visits, keyOf, Keys(choices)[i]);
      CountedMeansPresent(visits, keyOf, Keys(choices)[i]);
    }
    forall i, j, v | 0 <= i < j < |choices|
      ensures !(matches(v, filterFor(choices[i])) && matches(v, filterFor(choices[j])))
    {
      assert matches(v, filterFor(choices[i])) ==> keyOf(v) == Some(Keys(choices)[i]);
      assert matches(v, filterFor(choices[j])) ==> keyOf(v) == Some(Keys(choices)[j]);
    }
    ChoiceCountsAreKeyCounts(matches, visits, filterFor, keyOf, choices);
    CountsAddUp(visits, keyOf, Keys(choices));
  }

  lemma OfferCovers(visits: seq<Visit>, text: Visit -> string, keyOf: Visit -> Option<string>, choices: seq<string>)
    requires IsOffer(TextsOf(visits, text), choices, Text.Lower)
    requires forall v :: keyOf(v) == KeyOf(text(v))
    ensures Covers(visits, keyOf, Keys(choices))
    ensures forall i :: 0 <= i < |choices| ==>
      choices[i] != "" && exists k :: 0 <= k < |visits| && text(visits[k]) == choices[i]
  {
    var texts, keys := TextsOf(visits, text), Keys(choices);
    forall i | 0 <= i < |choices|
      ensures SomeVisitHas(visits, keyOf, keys[i])
      ensures choices[i] != "" && exists k :: 0 <= k < |visits| && text(visits[k]) == choices[i]
    {
      var k :| 0 <= k < |texts| && texts[k] == choices[i];
      assert text(visits[k]) == choices[i];
      assert keyOf(visits[k]) == Some(keys[i]);
    }
    forall i, j | 0 <= i < j < |keys| ensures keys[i] != keys[j] {
      Text.LessIsATotalOrder(keys[i], keys[j]);
    }
    forall k | 0 <= k < |visits| && keyOf(visits[k]).Some? ensures keyOf(visits[k]).value in keys {
      assert texts[k] == text(visits[k]);
      var j :| 0 <= j < |choices| && Text.Lower(choices[j]) == Text.Lower(texts[k]);
      assert keys[j] == keyOf(visits[k]).value;
    }
  }

  lemma CuisineChoiceIsTrimmed(visits: seq<Visit>, choice: string)
    requires choice != "" && exists k :: 0 <= k < |visits| && CuisineText(visits[k]) == choice
    ensures IsTrimmed(choice)
  {
    var k :| 0 <= k < |visits| && CuisineText(visits[k]) == choice;
    Text.TrimIdempotent(ValueOrEmpty(visits[k].restaurant.category));
  }

  lemma CityChoiceIsTrimmed(visits: seq<Visit>, choice: string)
    requires choice != "" && exists k :: 0 <= k < |visits| && CityText(visits[k]) == choice
    ensures IsTrimmed(choice)
  {
    var k :| 0 <= k < |visits| && CityText(visits[k]) == choice;
    Text.TrimIdempotent(ValueOrEmpty(visits[k].restaurant.city));
  }

  /** The offered cuisines partition the visits with a cuisine. */
  lemma CuisinesPartition(zone: Calendar.Zone, visits: seq<Visit>, choices: seq<string>)
    requires IsOffer(TextsOf(visits, CuisineText), choices, Text.Lower)
    ensures Partition(MatcherIn(zone), visits, ForCuisine, CuisineKey, choices)
  {
    OfferCovers(visits, CuisineText, CuisineKey, choices);
    forall v, i | 0 <= i < |choices|
      ensures MatcherIn(zone)(v, ForCuisine(choices[i])) <==> CuisineKey(v) == Some(Keys(choices)[i])
    {
      CuisineChoiceIsTrimmed(visits, choices[i]);
      ChoiceSelectsItsKey(zone, v, choices[i]);
    }
    ChoicesPartition(MatcherIn(zone), visits, ForCuisine, CuisineKey, choices);
  }

  /** The offered cities partition the visits with a city. */
  lemma CitiesPartition(zone: Calendar.Zone, visits: seq<Visit>, choices: seq<string>)
    requires IsOffer(TextsOf(visits, CityText), choices, Text.Lower)
    ensures Partition(MatcherIn(zone), visits, ForCity, CityKey, choices)
  {
    OfferCovers(visits, CityText, CityKey, choices);
    forall v, i | 0 <= i < |choices|
      ensures MatcherIn(zone)(v, ForCity(choices[i])) <==> CityKey(v) == Some(Keys(choices)[i])
    {
      CityChoiceIsTrimmed(visits, choices[i]);
      ChoiceSelectsItsKey(zone, v, choices[i]);
    }
    ChoicesPartition(MatcherIn(zone), visits, ForCity, CityKey, choices);
  }

  // ---- Years ----

  function YearKey(zone: Calendar.Zone): Visit -> Option<int> {
    (v: Visit) => Some(Calendar.YearOf(zone, v.visitedAt))
  }

  function YearOfVisit(zone: Calendar.Zone): Visit -> int {
    (v: Visit) => Calendar.YearOf(zone, v.visitedAt)
  }

  function YearCounts(zone: Calendar.Zone, visits: seq<Visit>, years: seq<int>): nat {
    if years == [] then 0
    else YearCounts(zone, visits, years[..|years| - 1])
         + CountVisits(MatcherIn(zone), visits, ForYear(years[|years| - 1]))
  }

  lemma YearSelects(zone: Calendar.Zone, v: Visit, y: int)
    ensures VisitMatches(zone, v, ForYear(y)) <==> y == 0 || YearKey(zone)(v) == Some(y)
  {
    assert Text.Trim("") == "";
  }

  lemma OneYearCounts(zone: Calendar.Zone, visits: seq<Visit>, y: int)
    ensures y != 0 ==> CountVisits(MatcherIn(zone), visits, ForYear(y)) == CountKey(visits, YearKey(zone), y)
    ensures y == 0 ==> CountVisits(MatcherIn(zone), visits, ForYear(y)) == |visits|
  {
    var matches := MatcherIn(zone);
    forall v ensures matches(v, ForYear(y)) <==> y == 0 || YearKey(zone)(v) == Some(y) {
      YearSelects(zone, v, y);
    }
    if y != 0 {
      MatchingIsCounting(visits, v => matches(v, ForYear(y)), YearKey(zone), y);
    } else {
      MatchingAll(visits, v => matches(v, ForYear(y)));
    }
  }

  /** The choices' counts, with the year 0 counting every visit since it is no filter. */
  lemma {:induction false} YearCountsAre(zone: Calendar.Zone, visits: seq<Visit>, years: seq<int>)
    requires Distinct(years)
    ensures YearCounts(zone, visits, years)
            == SumOfCounts(visits, YearKey(zone), years)
               + if 0 in years then |visits| - CountKey(visits, YearKey(zone), 0) else 0
  {
    if years != [] {
      var n := |years| - 1;
      assert years == years[..n] + [years[n]];
      YearCountsAre(zone, visits, years[..n]);
      OneYearCounts(zone, visits, years[n]);
    }
  }

  lemma {:induction false} EveryVisitHasAYear(zone: Calendar.Zone, visits: seq<Visit>)
    ensures CountKeyed(visits, YearKey(zone)) == |visits|
    ensures CountKey(visits, YearKey(zone), 0) <= |visits|
  {
    if visits != [] {
      EveryVisitHasAYear(zone, visits[..|visits| - 1]);
    }
  }

  /** Each year matches a visit, no visit is in two of them, and their counts add up to all visits. */
  ghost predicate YearsPartition(zone: Calendar.Zone, visits: seq<Visit>, years: seq<int>) {
    && (forall i :: 0 <= i < |years| ==> CountVisits(MatcherIn(zone), visits, ForYear(years[i])) > 0)
    && (forall i, j, v :: 0 <= i < j < |years| && VisitMatches(zone, v, ForYear(years[i])) ==>
          !VisitMatches(zone, v, ForYear(years[j])))
    && YearCounts(zone, visits, years) == |visits|
  }

  lemma YearsCountOnceIff(zone: Calendar.Zone, visits: seq<Visit>, years: seq<int>)
    requires IsYearOffer(visits, years, YearOfVisit(zone))
    ensures YearCounts(zone, visits, years) == |visits|
       <==> CountKey(visits, YearKey(zone), 0) == 0 || CountKey(visits, YearKey(zone), 0) == |visits|
    ensures 0 in years <==> CountKey(visits, YearKey(zone), 0) > 0
  {
    forall k | 0 <= k < |visits| ensures YearKey(zone)(visits[k]).value in years {
      assert YearOfVisit(zone)(visits[k]) in years;
    }
    CountsAddUp(visits, YearKey(zone), years);
    EveryVisitHasAYear(zone, visits);
    YearCountsAre(zone, visits, years);
    CountedMeansPresent(visits, YearKey(zone), 0);
    if 0 in years {
      assert InYear(visits, 0, YearOfVisit(zone));
      var k :| 0 <= k < |visits| && YearOfVisit(zone)(visits[k]) == 0;
      assert YearKey(zone)(visits[k]) == Some(0);
    }
  }

  lemma YearIsMatched(zone: Calendar.Zone, visits: seq<Visit>, y: int)
    requires InYear(visits, y, YearOfVisit(zone))
    ensures CountVisits(MatcherIn(zone), visits, ForYear(y)) > 0
  {
    OneYearCounts(zone, visits, y);
    CountedMeansPresent(visits, YearKey(zone), y);
    var k :| 0 <= k < |visits| && YearOfVisit(zone)(visits[k]) == y;
    assert YearKey(zone)(visits[k]) == Some(y);
  }

  lemma {:induction false} AllHaveTheKey<T, K>(xs: seq<T>, keyOf: T -> Option<K>, key: K, k: nat)
    requires k < |xs|
    ensures CountKey(xs, keyOf, key) <= |xs|
    ensures CountKey(xs, keyOf, key) == |xs| ==> keyOf(xs[k]) == Some(key)
  {
    var n := |xs| - 1;
    if n > 0 {
      AllHaveTheKey(xs[..n], keyOf, key, if k < n then k else 0);
    }
  }

  /** An offer of the year 0 among visits that are all in it offers no other. */
  lemma ZeroStandsAlone(zone: Calendar.Zone, visits: seq<Visit>, years: seq<int>)
    requires IsYearOffer(visits, years, YearOfVisit(zone)) && CountKey(visits, YearKey(zone), 0) == |visits|
    ensures |years| <= 1
  {
    if |years| > 1 {
      var i := if years[0] == 0 then 1 else 0;
      assert years[0] > years[1] && InYear(visits, years[i], YearOfVisit(zone));
      var k :| 0 <= k < |visits| && YearOfVisit(zone)(visits[k]) == years[i];
      AllHaveTheKey(visits, YearKey(zone), 0, k);
      assert false;
    }
  }

  lemma OtherYearsAreDisjoint(zone: Calendar.Zone, visits: seq<Visit>, years: seq<int>)
    requires IsYearOffer(visits, years, YearOfVisit(zone)) && 0 !in years
    ensures forall i, j, v :: 0 <= i < j < |years| && VisitMatches(zone, v, ForYear(years[i])) ==>
      !VisitMatches(zone, v, ForYear(years[j]))
  {
    forall i, j, v | 0 <= i < j < |years| && VisitMatches(zone, v, ForYear(years[i]))
      ensures !VisitMatches(zone, v, ForYear(years[j]))
    {
      assert years[i] in years && years[j] in years;
      YearSelects(zone, v, years[i]);
      YearSelects(zone, v, years[j]);
    }
  }

  lemma YearsAreDisjoint(zone: Calendar.Zone, visits: seq<Visit>, years: seq<int>)
    requires IsYearOffer(visits, years, YearOfVisit(zone))
    requires CountKey(visits, YearKey(zone), 0) == 0 || CountKey(visits, YearKey(zone), 0) == |visits|
    ensures forall i, j, v :: 0 <= i < j < |years| && VisitMatches(zone, v, ForYear(years[i])) ==>
      !VisitMatches(zone, v, ForYear(years[j]))
  {
    if CountKey(visits, YearKey(zone), 0) == |visits| {
      ZeroStandsAlone(zone, visits, years);
    } else {
      YearsCountOnceIff(zone, visits, years);
      OtherYearsAreDisjoint(zone, visits, years);
    }
  }

  /** The offered years partition the visits, exactly when the year 0 holds no visit or all of them. */
  lemma YearsPartitionIff(zone: Calendar.Zone, visits: seq<Visit>, years: seq<int>)
    requires IsYearOffer(visits, years, YearOfVisit(zone))
    ensures YearsPartition(zone, visits, years)
       <==> CountKey(visits, YearKey(zone), 0) == 0 || CountKey(visits, YearKey(zone), 0) == |visits|
  {
    YearsCountOnceIff(zone, visits, years);
    forall i | 0 <= i < |years| ensures CountVisits(MatcherIn(zone), visits, ForYear(years[i])) > 0 {
      YearIsMatched(zone, visits, years[i]);
    }
    if CountKey(visits, YearKey(zone), 0) == 0 || CountKey(visits, YearKey(zone), 0) == |visits| {
      YearsAreDisjoint(zone, visits, years);
    }
  }

  lemma CountOfTwo<T, K>(x: T, y: T, keyOf: T -> Option<K>, key: K)
    ensures CountKey([x, y], keyOf, key)
            == (if keyOf(x) == Some(key) then 1 else 0) + if keyOf(y) == Some(key) then 1 else 0
  {
    assert [x, y][..1] == [x] && [x][..0] == [];
    assert CountKey([x], keyOf, key) == CountKey([], keyOf, key) + if keyOf(x) == Some(key) then 1 else 0;
  }

  lemma EarlyAndLater(early: Visit, later: Visit)
    requires early.visitedAt == 1 && later.visitedAt == 400 * Calendar.DAY
    ensures YearOfVisit(Calendar.FixedEst)(early) == 0 && YearOfVisit(Calendar.FixedEst)(later) == 2
    ensures IsYearOffer([early, later], [2, 0], YearOfVisit(Calendar.FixedEst))
  {
    var visits, year := [early, later], YearOfVisit(Calendar.FixedEst);
    Calendar.EasternYears();
    assert year(visits[0]) == 0 && year(visits[1]) == 2;
    assert InYear(visits, 0, year) && InYear(visits, 2, year);
  }

  lemma YearCountsOfTwo(zone: Calendar.Zone, visits: seq<Visit>, y: int, z: int)
    ensures YearCounts(zone, visits, [y, z])
            == CountVisits(MatcherIn(zone), visits, ForYear(y)) + CountVisits(MatcherIn(zone), visits, ForYear(z))
  {
    assert [y, z][..1] == [y] && [y][..0] == [];
    assert YearCounts(zone, visits, [y])
      == YearCounts(zone, visits, []) + CountVisits(MatcherIn(zone), visits, ForYear(y));
  }

  /** A second into the year 1 it is still the year 0 in the East; with a later visit, both choices show it. */
  lemma YearZeroShowsAll(early: Visit, later: Visit)
    requires early.visitedAt == 1 && later.visitedAt == 400 * Calendar.DAY
    ensures IsYearOffer([early, later], [2, 0], YearOfVisit(Calendar.FixedEst))
    ensures YearCounts(Calendar.FixedEst, [early, later], [2, 0]) == 3
    ensures !YearsPartition(Calendar.FixedEst, [early, later], [2, 0])
  {
    var zone, visits := Calendar.FixedEst, [early, later];
    EarlyAndLater(early, later);
    CountOfTwo(early, later, YearKey(zone), 2);
    OneYearCounts(zone, visits, 2);
    OneYearCounts(zone, visits, 0);
    YearCountsOfTwo(zone, visits, 2, 0);
  }
}
