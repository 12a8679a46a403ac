/**
 Each person's favourite cuisine. A visit's trimmed category and the lower-casing that groups spellings are
 parameters: the proofs hold for any.
 */
module TasteProfiles {
  import opened Wrappers
  import opened Ledger
  import opened Champion
  import opened Folds
  import Text

  type CuisineOf = Visit -> string
  type Fold = string -> string

  /** One rating of one cuisine by one person. */
  datatype Vote = Vote(person: Id, cuisine: string, score: real)

  /** The ratings of a visit that count: enough raters, and a category. */
  function VotesOf(v: Visit, cuisine: CuisineOf): seq<Vote> {
    if cuisine(v) == "" || !v.CountsInAggregates() then []
    else
      seq(|v.ratings|, i requires 0 <= i < |v.ratings| =>
        Vote(v.ratings[i].person.id, cuisine(v), v.ratings[i].score))
  }

  function AllVotes(visits: seq<Visit>, cuisine: CuisineOf): seq<Vote> {
    if visits == [] then [] else AllVotes(visits[..|visits| - 1], cuisine) + VotesOf(visits[|visits| - 1], cuisine)
  }

  /** A person's ratings of one cuisine, under its least spelling. */
  datatype Entry = Entry(category: string, scores: seq<real>)

  predicate IsFor(vote: Vote, person: Id, key: string, fold: Fold) {
    vote.person == person && fold(vote.cuisine) == key
  }

  predicate Voted(votes: seq<Vote>, person: Id, key: string, fold: Fold) {
    exists i :: 0 <= i < |votes| && IsFor(votes[i], person, key, fold)
  }

  function EntryOf(votes: seq<Vote>, person: Id, key: string, fold: Fold): Entry {
    if votes == [] then Entry("", [])
    else WithVote(EntryOf(votes[..|votes| - 1], person, key, fold), votes[|votes| - 1], person, key, fold)
  }

  function WithVote(entry: Entry, vote: Vote, person: Id, key: string, fold: Fold): Entry {
    if !IsFor(vote, person, key, fold) then entry
    else Entry(if entry.scores == [] || Text.Less(vote.cuisine, entry.category) then vote.cuisine else entry.category,
               entry.scores + [vote.score])
  }

  function Scores(votes: seq<Vote>, person: Id, key: string, fold: Fold): seq<real> {
    if votes == [] then []
    else Scores(votes[..|votes| - 1], person, key, fold)
         + if IsFor(votes[|votes| - 1], person, key, fold) then [votes[|votes| - 1].score] else []
  }

  /** An entry holds the person's scores for the cuisine, under one of its spellings. */
  lemma {:induction false} EntryIs(votes: seq<Vote>, person: Id, key: string, fold: Fold)
    ensures EntryOf(votes, person, key, fold).scores == Scores(votes, person, key, fold)
    ensures Voted(votes, person, key, fold) <==> EntryOf(votes, person, key, fold).scores != []
    ensures Voted(votes, person, key, fold) ==>
      exists i :: 0 <= i < |votes| && IsFor(votes[i], person, key, fold)
                  && votes[i].cuisine == EntryOf(votes, person, key, fold).category
  {
    if votes != [] {
      var n := |votes| - 1;
      EntryIs(votes[..n], person, key, fold);
      assert forall i :: 0 <= i < n ==> votes[..n][i] == votes[i];
    }
  }

  lemma StillLeast(spelling: string, newer: string, least: string)
    requires !Text.Less(spelling, least)
    ensures !Text.Less(spelling, if Text.Less(newer, least) then newer else least)
  {
    if Text.Less(spelling, newer) && Text.Less(newer, least) {
      Text.LessIsTransitive(spelling, newer, least);
    }
  }

  /** No other spelling of the cuisine is less. */
  lemma {:induction false} EntryHasTheLeastSpelling(votes: seq<Vote>, person: Id, key: string, fold: Fold, i: nat)
    requires i < |votes| && IsFor(votes[i], person, key, fold)
    ensures !Text.Less(votes[i].cuisine, EntryOf(votes, person, key, fold).category)
    decreases |votes|
  {
    var n := |votes| - 1;
    Text.LessIsATotalOrder(votes[n].cuisine, votes[n].cuisine);
    if i < n {
      assert IsFor(votes[..n][i], person, key, fold);
      EntryIs(votes[..n], person, key, fold);
      EntryHasTheLeastSpelling(votes[..n], person, key, fold, i);
      StillLeast(votes[i].cuisine, votes[n].cuisine, EntryOf(votes[..n], person, key, fold).category);
    }
  }

  // ---- The favourite ----

  datatype Taste = Taste(category: string, average: real, count: nat)

  function TasteOf(entry: Entry): Taste {
    Taste(entry.category, Average(entry.scores), |entry.scores|)
  }

  predicate Stronger(a: Option<Taste>, b: Option<Taste>) {
    a.Some? && (b.None? || a.value.average > b.value.average
                || (a.value.average == b.value.average
                    && (a.value.count > b.value.count
                        || (a.value.count == b.value.count && Text.Less(a.value.category, b.value.category)))))
  }

  predicate NoneYet(best: Option<Taste>) {
    best.None?
  }

  lemma StrongerIsTotal()
    ensures IsTotalOrder(Stronger)
  {
    Text.LessIsAnOrder();
    forall a: Option<Taste>, b: Option<Taste> | a != b ensures Stronger(a, b) || Stronger(b, a) {
      if a.Some? && b.Some? {
        Text.LessIsATotalOrder(a.value.category, b.value.category);
      }
    }
  }

  function Tastes(votes: seq<Vote>, person: Id, order: seq<string>, fold: Fold): seq<Option<Taste>> {
    seq(|order|, i requires 0 <= i < |order| => Some(TasteOf(EntryOf(votes, person, order[i], fold))))
  }

  function TasteRun(votes: seq<Vote>, person: Id, order: seq<string>, fold: Fold): Option<Taste> {
    Run(Tastes(votes, person, order, fold), Stronger, NoneYet, None)
  }

  /** Every cuisine the person rated, once: an order in which their map may be ranged over. */
  ghost predicate IsMapOrder(votes: seq<Vote>, person: Id, order: seq<string>, fold: Fold) {
    && (forall i, j :: 0 <= i < j < |order| ==> order[i] != order[j])
    && (forall key :: key in order <==> Voted(votes, person, key, fold))
  }

  /** The best average, then the most ratings, then the least spelling, among the cuisines the person rated. */
  ghost predicate IsFavourite(votes: seq<Vote>, person: Id, taste: Taste, fold: Fold) {
    && (exists key :: Voted(votes, person, key, fold) && TasteOf(EntryOf(votes, person, key, fold)) == taste)
    && (forall key :: Voted(votes, person, key, fold) ==>
          var other := TasteOf(EntryOf(votes, person, key, fold));
          other == taste || Stronger(Some(taste), Some(other)))
  }

  /**
   Whatever order the map is ranged over in, a person's profile is their favourite; without ratings they have
   none.
   */
  lemma ProfileIsTheFavourite(votes: seq<Vote>, person: Id, order: seq<string>, fold: Fold)
    requires IsMapOrder(votes, person, order, fold)
    ensures TasteRun(votes, person, order, fold).None? <==> forall key :: !Voted(votes, person, key, fold)
    ensures TasteRun(votes, person, order, fold).Some? ==>
      IsFavourite(votes, person, TasteRun(votes, person, order, fold).value, fold)
  {
    var tastes := Tastes(votes, person, order, fold);
    if order != [] {
      StrongerIsTotal();
      var best := SomeBest(tastes, Stronger);
      RunIsBestIff(tastes, Stronger, NoneYet, None, best);
      var i :| 0 <= i < |order| && best == Some(TasteOf(EntryOf(votes, person, order[i], fold)));
      assert order[i] in order;
      forall key | Voted(votes, person, key, fold)
        ensures Some(TasteOf(EntryOf(votes, person, key, fold))) == best
             || Stronger(best, Some(TasteOf(EntryOf(votes, person, key, fold))))
      {
        assert key in order;
        var j :| 0 <= j < |order| && order[j] == key;
        assert tastes[j] in tastes;
      }
    }
  }

  // ---- The favourite, of the visits themselves ----

  /** A visit whose ratings count for the cuisine: with a category, and two raters or more. */
  predicate CountsFor(v: Visit, key: string, cuisine: CuisineOf, fold: Fold) {
    cuisine(v) != "" && |v.ratings| >= 2 && fold(cuisine(v)) == key
  }

  predicate IsRating(visits: seq<Visit>, k: int, i: int, person: Id, key: string, cuisine: CuisineOf, fold: Fold) {
    && 0 <= k < |visits| && CountsFor(visits[k], key, cuisine, fold)
    && 0 <= i < |visits[k].ratings| && visits[k].ratings[i].person.id == person
  }

  function ScoreBy(person: Id): Rating -> real {
    (r: Rating) => if r.person.id == person then r.score else 0.0
  }

  function OneBy(person: Id): Rating -> real {
    (r: Rating) => if r.person.id == person then 1.0 else 0.0
  }

  function ScoresIn(person: Id, key: string, cuisine: CuisineOf, fold: Fold): Visit -> real {
    (v: Visit) => if CountsFor(v, key, cuisine, fold) then Total(v.ratings, ScoreBy(person)) else 0.0
  }

  function RatingsIn(person: Id, key: string, cuisine: CuisineOf, fold: Fold): Visit -> real {
    (v: Visit) => if CountsFor(v, key, cuisine, fold) then Total(v.ratings, OneBy(person)) else 0.0
  }

  /**
   The average and number of the person's ratings of one cuisine, under its least spelling. No cuisine they rated
   has a better average; none with that average has more ratings; none with as many has a lesser spelling.
   */
  ghost predicate IsRatedBest(visits: seq<Visit>, person: Id, key: string, t: Taste, cuisine: CuisineOf, fold: Fold) {
    && Total(visits, RatingsIn(person, key, cuisine, fold)) == t.count as real > 0.0
    && Averages(t.average, Total(visits, ScoresIn(person, key, cuisine, fold)), t.count as real)
    && (exists k, i :: IsRating(visits, k, i, person, key, cuisine, fold) && cuisine(visits[k]) == t.category)
    && (forall k, i :: IsRating(visits, k, i, person, key, cuisine, fold) ==>
          !Text.Less(cuisine(visits[k]), t.category))
    && forall other: string, average: real ::
         IsAverageIn(visits, person, other, average, cuisine, fold) ==>
           NoBetter(visits, person, other, average, t, cuisine, fold)
  }

  predicate IsAverageIn(
    visits: seq<Visit>, person: Id, key: string, average: real, cuisine: CuisineOf, fold: Fold)
  {
    && Total(visits, RatingsIn(person, key, cuisine, fold)) > 0.0
    && Averages(average, Total(visits, ScoresIn(person, key, cuisine, fold)),
                Total(visits, RatingsIn(person, key, cuisine, fold)))
  }

  ghost predicate NoBetter(
    visits: seq<Visit>, person: Id, key: string, average: real, t: Taste, cuisine: CuisineOf, fold: Fold)
  {
    var count := Total(visits, RatingsIn(person, key, cuisine, fold));
    && average <= t.average
    && (average == t.average ==> count <= t.count as real)
    && (average == t.average && count == t.count as real ==>
          forall k, i :: IsRating(visits, k, i, person, key, cuisine, fold) ==>
            !Text.Less(cuisine(visits[k]), t.category))
  }

  function ScoreIf(person: Id, key: string, fold: Fold): Vote -> real {
    (v: Vote) => if IsFor(v, person, key, fold) then v.score else 0.0
  }

  function OneIf(person: Id, key: string, fold: Fold): Vote -> real {
    (v: Vote) => if IsFor(v, person, key, fold) then 1.0 else 0.0
  }

  lemma {:induction false} VotesOfRatings(
    ratings: seq<Rating>, votes: seq<Vote>, word: string, person: Id, key: string, fold: Fold)
    requires |votes| == |ratings|
    requires forall i :: 0 <= i < |ratings| ==> votes[i] == Vote(ratings[i].person.id, word, ratings[i].score)
    ensures Total(votes, ScoreIf(person, key, fold))
         == if fold(word) == key then Total(ratings, ScoreBy(person)) else 0.0
    ensures Total(votes, OneIf(person, key, fold))
         == if fold(word) == key then Total(ratings, OneBy(person)) else 0.0
  {
    if ratings != [] {
      var n := |ratings| - 1;
      VotesOfRatings(ratings[..n], votes[..n], word, person, key, fold);
    }
  }

  lemma VotesOfVisit(v: Visit, person: Id, key: string, cuisine: CuisineOf, fold: Fold)
    ensures Total(VotesOf(v, cuisine), ScoreIf(person, key, fold)) == ScoresIn(person, key, cuisine, fold)(v)
    ensures Total(VotesOf(v, cuisine), OneIf(person, key, fold)) == RatingsIn(person, key, cuisine, fold)(v)
  {
    if VotesOf(v, cuisine) != [] {
      VotesOfRatings(v.ratings, VotesOf(v, cuisine), cuisine(v), person, key, fold);
    }
  }

  lemma {:induction false} VotesTotal(visits: seq<Visit>, person: Id, key: string, cuisine: CuisineOf, fold: Fold)
    ensures Total(AllVotes(visits, cuisine), ScoreIf(person, key, fold))
         == Total(visits, ScoresIn(person, key, cuisine, fold))
    ensures Total(AllVotes(visits, cuisine), OneIf(person, key, fold))
         == Total(visits, RatingsIn(person, key, cuisine, fold))
  {
    if visits != [] {
      var n := |visits| - 1;
      VotesTotal(visits[..n], person, key, cuisine, fold);
      VotesOfVisit(visits[n], person, key, cuisine, fold);
      TotalOfBoth(AllVotes(visits[..n], cuisine), VotesOf(visits[n], cuisine), ScoreIf(person, key, fold));
      TotalOfBoth(AllVotes(visits[..n], cuisine), VotesOf(visits[n], cuisine), OneIf(person, key, fold));
    }
  }

  lemma {:induction false} VoteIsARating(visits: seq<Visit>, vote: Vote, cuisine: CuisineOf)
    returns (k: nat, i: nat)
    requires vote in AllVotes(visits, cuisine)
    ensures k < |visits| && i < |visits[k].ratings| && cuisine(visits[k]) != "" && |visits[k].ratings| >= 2
    ensures vote == Vote(visits[k].ratings[i].person.id, cuisine(visits[k]), visits[k].ratings[i].score)
  {
    var n := |visits| - 1;
    if vote in AllVotes(visits[..n], cuisine) {
      k, i := VoteIsARating(visits[..n], vote, cuisine);
    } else {
      k := n;
      i :| 0 <= i < |VotesOf(visits[n], cuisine)| && VotesOf(visits[n], cuisine)[i] == vote;
    }
  }

  lemma {:induction false} RatingIsAVote(visits: seq<Visit>, k: nat, i: nat, cuisine: CuisineOf)
    requires k < |visits| && i < |visits[k].ratings| && cuisine(visits[k]) != "" && |visits[k].ratings| >= 2
    ensures Vote(visits[k].ratings[i].person.id, cuisine(visits[k]), visits[k].ratings[i].score)
         in AllVotes(visits, cuisine)
  {
    var n := |visits| - 1;
    if k < n {
      RatingIsAVote(visits[..n], k, i, cuisine);
    } else {
      assert VotesOf(visits[n], cuisine)[i]
          == Vote(visits[k].ratings[i].person.id, cuisine(visits[k]), visits[k].ratings[i].score);
    }
  }

  /** What the entry of a cuisine says of the visits. */
  lemma EntryOfVisits(visits: seq<Visit>, person: Id, key: string, cuisine: CuisineOf, fold: Fold)
    ensures var votes := AllVotes(visits, cuisine);
            var entry := EntryOf(votes, person, key, fold);
            && |entry.scores| as real == Total(visits, RatingsIn(person, key, cuisine, fold))
            && Sum(entry.scores) == Total(visits, ScoresIn(person, key, cuisine, fold))
            && (Voted(votes, person, key, fold) <==> entry.scores != [])
            && (Voted(votes, person, key, fold) ==>
                  exists k, i :: IsRating(visits, k, i, person, key, cuisine, fold)
                                 && cuisine(visits[k]) == entry.category)
            && (forall k, i :: IsRating(visits, k, i, person, key, cuisine, fold) ==>
                  Voted(votes, person, key, fold) && !Text.Less(cuisine(visits[k]), entry.category))
  {
    var votes := AllVotes(visits, cuisine);
    EntryIs(votes, person, key, fold);
    SumIsATotal(votes, person, key, fold, ScoreIf(person, key, fold), OneIf(person, key, fold));
    VotesTotal(visits, person, key, cuisine, fold);
    if Voted(votes, person, key, fold) {
      var n :| 0 <= n < |votes| && IsFor(votes[n], person, key, fold)
            && votes[n].cuisine == EntryOf(votes, person, key, fold).category;
      var k, i := VoteIsARating(visits, votes[n], cuisine);
      assert IsRating(visits, k, i, person, key, cuisine, fold);
    }
    forall k, i | IsRating(visits, k, i, person, key, cuisine, fold)
      ensures Voted(votes, person, key, fold)
      ensures !Text.Less(cuisine(visits[k]), EntryOf(votes, person, key, fold).category)
    {
      RatingIsAVote(visits, k, i, cuisine);
      var vote := Vote(visits[k].ratings[i].person.id, cuisine(visits[k]), visits[k].ratings[i].score);
      var n :| 0 <= n < |votes| && votes[n] == vote;
      EntryHasTheLeastSpelling(votes, person, key, fold, n);
    }
  }

  lemma OneAverage(a: real, b: real, total: real, count: real)
    requires count > 0.0 && Averages(a, total, count) && Averages(b, total, count)
    ensures a == b
  {
    if a < b {
      ScaledStrictly(a, b, count);
    } else if b < a {
      ScaledStrictly(b, a, count);
    }
  }

  lemma OthersAreNoBetter(
    visits: seq<Visit>, person: Id, t: Taste, other: string, average: real, cuisine: CuisineOf, fold: Fold)
    requires IsFavourite(AllVotes(visits, cuisine), person, t, fold)
    requires IsAverageIn(visits, person, other, average, cuisine, fold)
    ensures NoBetter(visits, person, other, average, t, cuisine, fold)
  {
    var votes := AllVotes(visits, cuisine);
    var entry := EntryOf(votes, person, other, fold);
    EntryOfVisits(visits, person, other, cuisine, fold);
    AverageTimesCount(entry.scores, 0.0);
    OneAverage(average, Average(entry.scores), Sum(entry.scores), |entry.scores| as real);
    assert TasteOf(entry) == t || Stronger(Some(t), Some(TasteOf(entry)));
    forall k, i | IsRating(visits, k, i, person, other, cuisine, fold) && Text.Less(cuisine(visits[k]), t.category)
      ensures average != t.average || |entry.scores| != t.count
    {
      if Text.Less(t.category, entry.category) {
        Text.LessIsTransitive(cuisine(visits[k]), t.category, entry.category);
      }
    }
  }

  /** A person's profile, whatever order their map is ranged over in, is what they rated best. */
  lemma ProfileIsRatedBest(visits: seq<Visit>, person: Id, order: seq<string>, cuisine: CuisineOf, fold: Fold)
    requires IsMapOrder(AllVotes(visits, cuisine), person, order, fold)
    ensures var run := TasteRun(AllVotes(visits, cuisine), person, order, fold);
            && (run.None? <==> forall key, k, i :: !IsRating(visits, k, i, person, key, cuisine, fold))
            && (run.Some? ==> exists key :: IsRatedBest(visits, person, key, run.value, cuisine, fold))
  {
    var votes := AllVotes(visits, cuisine);
    var run := TasteRun(votes, person, order, fold);
    ProfileIsTheFavourite(votes, person, order, fold);
    if run.Some? {
      var key :| Voted(votes, person, key, fold) && TasteOf(EntryOf(votes, person, key, fold)) == run.value;
      EntryOfVisits(visits, person, key, cuisine, fold);
      AverageTimesCount(EntryOf(votes, person, key, fold).scores, 0.0);
      forall other: string, average: real | IsAverageIn(visits, person, other, average, cuisine, fold)
        ensures NoBetter(visits, person, other, average, run.value, cuisine, fold)
      {
        OthersAreNoBetter(visits, person, run.value, other, average, cuisine, fold);
      }
      assert IsRatedBest(visits, person, key, run.value, cuisine, fold);
    } else {
      forall key, k, i ensures !IsRating(visits, k, i, person, key, cuisine, fold) {
        EntryOfVisits(visits, person, key, cuisine, fold);
      }
    }
  }

  // ---- Order does not matter ----

  lemma SumOneMore(scores: seq<real>, score: real)
    ensures Sum(scores + [score]) == Sum(scores) + score
  {
    assert (scores + [score])[..|scores|] == scores;
  }

  lemma {:induction false} SumIsATotal(
    votes: seq<Vote>, person: Id, key: string, fold: Fold, score: Vote -> real, one: Vote -> real)
    requires forall v :: score(v) == if IsFor(v, person, key, fold) then v.score else 0.0
    requires forall v :: one(v) == if IsFor(v, person, key, fold) then 1.0 else 0.0
    ensures Sum(Scores(votes, person, key, fold)) == Total(votes, score)
    ensures |Scores(votes, person, key, fold)| as real == Total(votes, one)
  {
    if votes != [] {
      var n := |votes| - 1;
      var before := Scores(votes[..n], person, key, fold);
      SumIsATotal(votes[..n], person, key, fold, score, one);
      assert before + [] == before;
      SumOneMore(before, votes[n].score);
    }
  }

  lemma SpellingIgnoresOrder(votes: seq<Vote>, reordered: seq<Vote>, person: Id, key: string, fold: Fold)
    requires (forall v: Vote :: v in votes ==> v in reordered) && Voted(votes, person, key, fold)
    ensures !Text.Less(EntryOf(votes, person, key, fold).category, EntryOf(reordered, person, key, fold).category)
  {
    EntryIs(votes, person, key, fold);
    var i :| 0 <= i < |votes| && IsFor(votes[i], person, key, fold)
          && votes[i].cuisine == EntryOf(votes, person, key, fold).category;
    assert votes[i] in reordered;
    var j :| 0 <= j < |reordered| && reordered[j] == votes[i];
    EntryHasTheLeastSpelling(reordered, person, key, fold, j);
  }

  lemma TasteIgnoresOrder(votes: seq<Vote>, reordered: seq<Vote>, person: Id, key: string, fold: Fold)
    requires multiset(votes) == multiset(reordered)
    ensures Voted(votes, person, key, fold) <==> Voted(reordered, person, key, fold)
    ensures Voted(votes, person, key, fold) ==>
      TasteOf(EntryOf(votes, person, key, fold)) == TasteOf(EntryOf(reordered, person, key, fold))
  {
    forall v: Vote ensures v in votes <==> v in reordered {
      SameElements(votes, reordered, v);
    }
    var score: Vote -> real := v => if IsFor(v, person, key, fold) then v.score else 0.0;
    var one: Vote -> real := v => if IsFor(v, person, key, fold) then 1.0 else 0.0;
    SumIsATotal(votes, person, key, fold, score, one);
    SumIsATotal(reordered, person, key, fold, score, one);
    TotalIgnoresOrder(votes, reordered, score);
    TotalIgnoresOrder(votes, reordered, one);
    EntryIs(votes, person, key, fold);
    EntryIs(reordered, person, key, fold);
    if Voted(votes, person, key, fold) {
      SpellingIgnoresOrder(votes, reordered, person, key, fold);
      SpellingIgnoresOrder(reordered, votes, person, key, fold);
      Text.LessIsATotalOrder(
        EntryOf(votes, person, key, fold).category, EntryOf(reordered, person, key, fold).category);
    }
  }

  lemma AllVotesWithLast(visits: seq<Visit>, v: Visit, cuisine: CuisineOf)
    ensures multiset(AllVotes(visits + [v], cuisine))
      == multiset(AllVotes(visits, cuisine)) + multiset(VotesOf(v, cuisine))
  {
    assert (visits + [v])[..|visits|] == visits;
  }

  function WithoutVisit(visits: seq<Visit>, i: nat): seq<Visit>
    requires i < |visits|
  {
    visits[..i] + visits[i + 1..]
  }

  lemma WithoutEarlier(visits: seq<Visit>, v: Visit, i: nat)
    requires i < |visits|
    ensures WithoutVisit(visits + [v], i) == WithoutVisit(visits, i) + [v]
    ensures WithoutVisit(visits + [v], |visits|) == visits
  {
  }

  lemma {:induction false} AllVotesSplit(visits: seq<Visit>, cuisine: CuisineOf, i: nat)
    requires i < |visits|
    ensures multiset(AllVotes(visits, cuisine))
            == multiset(AllVotes(WithoutVisit(visits, i), cuisine)) + multiset(VotesOf(visits[i], cuisine))
  {
    var before, last := visits[..|visits| - 1], visits[|visits| - 1];
    assert visits == before + [last];
    AllVotesWithLast(before, last, cuisine);
    if i < |before| {
      WithoutEarlier(before, last, i);
      AllVotesSplit(before, cuisine, i);
      AllVotesWithLast(WithoutVisit(before, i), last, cuisine);
    } else {
      assert WithoutVisit(visits, i) == before;
    }
  }

  lemma {:induction false} VotesIgnoreOrder(visits: seq<Visit>, reordered: seq<Visit>, cuisine: CuisineOf)
    requires multiset(visits) == multiset(reordered)
    ensures multiset(AllVotes(visits, cuisine)) == multiset(AllVotes(reordered, cuisine))
    decreases |visits|
  {
    if visits == [] {
      assert |multiset(reordered)| == 0;
    } else {
      var i := LastIsSomewhere(visits, reordered);
      AllVotesSplit(reordered, cuisine, i);
      VotesIgnoreOrder(visits[..|visits| - 1], reordered[..i] + reordered[i + 1..], cuisine);
    }
  }

  /** A person's profile depends neither on the order of the visits nor on how the map is ranged over. */
  lemma ProfileIgnoresOrder(
    visits: seq<Visit>, order: seq<string>, reordered: seq<Visit>, order': seq<string>, person: Id,
    cuisine: CuisineOf, fold: Fold)
    requires multiset(visits) == multiset(reordered)
    requires IsMapOrder(AllVotes(visits, cuisine), person, order, fold)
    requires IsMapOrder(AllVotes(reordered, cuisine), person, order', fold)
    ensures TasteRun(AllVotes(visits, cuisine), person, order, fold)
      == TasteRun(AllVotes(reordered, cuisine), person, order', fold)
  {
    var votes, votes' := AllVotes(visits, cuisine), AllVotes(reordered, cuisine);
    VotesIgnoreOrder(visits, reordered, cuisine);
    forall key
      ensures Voted(votes, person, key, fold) <==> Voted(votes', person, key, fold)
      ensures Voted(votes, person, key, fold) ==>
        TasteOf(EntryOf(votes, person, key, fold)) == TasteOf(EntryOf(votes', person, key, fold))
    {
      TasteIgnoresOrder(votes, votes', person, key, fold);
    }
    ProfileIsTheFavourite(votes, person, order, fold);
    ProfileIsTheFavourite(votes', person, order', fold);
    OneFavourite(votes, votes', person, fold, TasteRun(votes, person, order, fold),
      TasteRun(votes', person, order', fold));
  }

  lemma OneFavourite(votes: seq<Vote>, votes': seq<Vote>, person: Id, fold: Fold, a: Option<Taste>, b: Option<Taste>)
    requires a.Some? <==> b.Some?
    requires a.Some? ==> IsFavourite(votes, person, a.value, fold) && IsFavourite(votes', person, b.value, fold)
    requires forall key :: Voted(votes, person, key, fold) <==> Voted(votes', person, key, fold)
    requires forall key :: Voted(votes, person, key, fold) ==>
      TasteOf(EntryOf(votes, person, key, fold)) == TasteOf(EntryOf(votes', person, key, fold))
    ensures a == b
  {
    if a.Some? {
      StrongerIsTotal();
      var key :| Voted(votes, person, key, fold) && TasteOf(EntryOf(votes, person, key, fold)) == a.value;
      var key' :| Voted(votes', person, key', fold) && TasteOf(EntryOf(votes', person, key', fold)) == b.value;
      assert a == b || !Stronger(a, b);
    }
  }

  // ---- The loops ----

  type Book = map<Id, map<string, Entry>>

  predicate Has(book: Book, person: Id, key: string) {
    person in book && key in book[person]
  }

  ghost predicate Kept(book: Book, votes: seq<Vote>, fold: Fold) {
    && (forall person, key :: Has(book, person, key) <==> Voted(votes, person, key, fold))
    && (forall person, key :: Has(book, person, key) ==> book[person][key] == EntryOf(votes, person, key, fold))
  }

  lemma VotedOneMore(votes: seq<Vote>, vote: Vote, person: Id, key: string, fold: Fold)
    ensures Voted(votes + [vote], person, key, fold)
      <==> Voted(votes, person, key, fold) || IsFor(vote, person, key, fold)
    ensures EntryOf(votes + [vote], person, key, fold)
      == WithVote(EntryOf(votes, person, key, fold), vote, person, key, fold)
  {
    var more := votes + [vote];
    assert more[..|votes|] == votes;
    if IsFor(vote, person, key, fold) {
      assert IsFor(more[|votes|], person, key, fold);
    }
    if i :| 0 <= i < |votes| && IsFor(votes[i], person, key, fold) {
      assert IsFor(more[i], person, key, fold);
    }
  }

  method AddVote(book: Book, vote: Vote, ghost votes: seq<Vote>, fold: Fold) returns (book': Book)
    requires Kept(book, votes, fold)
    ensures Kept(book', votes + [vote], fold)
  {
    var key := fold(vote.cuisine);
    var categories := if vote.person in book then book[vote.person] else map[];
    var entry := if key in categories then categories[key] else Entry(vote.cuisine, []);
    if Text.Less(vote.cuisine, entry.category) {
      entry := entry.(category := vote.cuisine);
    }
    entry := entry.(scores := entry.scores + [vote.score]);
    book' := book[vote.person := categories[key := entry]];
    EntryIs(votes, vote.person, key, fold);
    assert key in categories <==> Has(book, vote.person, key);
    assert entry == WithVote(EntryOf(votes, vote.person, key, fold), vote, vote.person, key, fold);
    forall p, k
      ensures Has(book', p, k) <==> Voted(votes + [vote], p, k, fold)
      ensures Has(book', p, k) ==> book'[p][k] == EntryOf(votes + [vote], p, k, fold)
    {
      VotedOneMore(votes, vote, p, k, fold);
      assert Has(book', p, k) <==> Has(book, p, k) || (p == vote.person && k == key);
    }
  }

  /** The ratings of one visit. */
  method AddVotes(book: Book, visit: Visit, ghost before: seq<Vote>, cuisine: CuisineOf, fold: Fold)
    returns (book': Book)
    requires Kept(book, before, fold)
    ensures Kept(book', before + VotesOf(visit, cuisine), fold)
  {
    book' := book;
    if cuisine(visit) == "" || !visit.CountsInAggregates() {
      assert before + [] == before;
      return;
    }
    ghost var votes := VotesOf(visit, cuisine);
    assert before + votes[..0] == before;
    for k := 0 to |visit.ratings|
      invariant Kept(book', before + votes[..k], fold)
    {
      var rating := visit.ratings[k];
      book' := AddVote(book', Vote(rating.person.id, cuisine(visit), rating.score), before + votes[..k], fold);
      assert before + votes[..k] + [votes[k]] == before + votes[..k + 1];
    }
    assert votes[..|visit.ratings|] == votes;
  }

  method GatherVotes(visits: seq<Visit>, cuisine: CuisineOf, fold: Fold) returns (book: Book)
    ensures Kept(book, AllVotes(visits, cuisine), fold)
  {
    book := map[];
    for i := 0 to |visits|
      invariant Kept(book, AllVotes(visits[..i], cuisine), fold)
    {
      assert visits[..i + 1][..i] == visits[..i];
      book := AddVotes(book, visits[i], AllVotes(visits[..i], cuisine), cuisine, fold);
    }
    assert visits[..|visits|] == visits;
  }

  datatype Profile = Profile(person: string, taste: Taste)

  function Profiles(people: seq<Person>, votes: seq<Vote>, orders: Id -> seq<string>, fold: Fold): seq<Profile> {
    if people == [] then []
    else
      var last := people[|people| - 1];
      var taste := TasteRun(votes, last.id, orders(last.id), fold);
      Profiles(people[..|people| - 1], votes, orders, fold)
      + if taste.Some? then [Profile(last.name, taste.value)] else []
  }

  function ProfileBy(votes: seq<Vote>, orders: Id -> seq<string>, fold: Fold): Person -> Option<Profile> {
    (p: Person) =>
      match TasteRun(votes, p.id, orders(p.id), fold)
      case Some(taste) => Some(Profile(p.name, taste))
      case None => None
  }

  /** The people with a taste have a profile each, in their order, under their names. */
  lemma {:induction false} ProfilesFollowPeople(
    people: seq<Person>, votes: seq<Vote>, orders: Id -> seq<string>, fold: Fold) returns (places: seq<nat>)
    ensures Follows(Profiles(people, votes, orders, fold), people, ProfileBy(votes, orders, fold), places)
  {
    places := [];
    if people != [] {
      var n := |people| - 1;
      places := ProfilesFollowPeople(people[..n], votes, orders, fold);
      places := FollowsOneMore(
        Profiles(people[..n], votes, orders, fold), people, ProfileBy(votes, orders, fold), places);
    }
  }

  lemma TasteRunOneMore(votes: seq<Vote>, person: Id, order: seq<string>, k: nat, fold: Fold)
    requires k < |order|
    ensures TasteRun(votes, person, order[..k + 1], fold)
            == Challenged(TasteRun(votes, person, order[..k], fold),
                          Some(TasteOf(EntryOf(votes, person, order[k], fold))),
                          Stronger, NoneYet)
  {
    var candidate := Some(TasteOf(EntryOf(votes, person, order[k], fold)));
    assert Tastes(votes, person, order[..k + 1], fold) == Tastes(votes, person, order[..k], fold) + [candidate];
    RunOneMore(Tastes(votes, person, order[..k], fold), candidate, Stronger, NoneYet, None);
  }

  method FindFavourite(book: Book, person: Id, order: seq<string>, ghost votes: seq<Vote>, fold: Fold)
    returns (best: Option<Taste>)
    requires Kept(book, votes, fold) && IsMapOrder(votes, person, order, fold)
    ensures best == TasteRun(votes, person, order, fold)
  {
    best := None;
    for k := 0 to |order|
      invariant best == TasteRun(votes, person, order[..k], fold)
    {
      TasteRunOneMore(votes, person, order, k, fold);
      assert order[k] in order;
      assert Has(book, person, order[k]);
      var candidate := TasteOf(book[person][order[k]]);
      if best.None? || Stronger(Some(candidate), best) {
        best := Some(candidate);
      }
    }
    assert order[..|order|] == order;
  }

  /** The profiles in people order; orders gives the order each person's map is ranged over in. */
  method FindTasteProfiles(
    people: seq<Person>, visits: seq<Visit>, orders: Id -> seq<string>, cuisine: CuisineOf, fold: Fold)
    returns (profiles: seq<Profile>)
    requires forall person: Id :: IsMapOrder(AllVotes(visits, cuisine), person, orders(person), fold)
    ensures profiles == Profiles(people, AllVotes(visits, cuisine), orders, fold)
  {
    var book := GatherVotes(visits, cuisine, fold);
    ghost var votes := AllVotes(visits, cuisine);
    profiles := [];
    for i := 0 to |people|
      invariant profiles == Profiles(people[..i], votes, orders, fold)
    {
      assert people[..i + 1][..i] == people[..i];
      var best := FindFavourite(book, people[i].id, orders(people[i].id), votes, fold);
      if best.Some? {
        profiles := profiles + [Profile(people[i].name, best.value)];
      }
    }
    assert people[..|people|] == people;
  }
}
