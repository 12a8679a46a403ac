/** The single-record trophies: biggest split, most loyal and nostalgia restaurants. */
module Records {
  import opened Wrappers
  import opened Ledger
  import opened Champion
  import opened Folds
  import Text

  // ---- Biggest split ----

  /** A visit in the running: whose restaurant, how far apart the ratings, and when. */
  datatype Split = Split(name: string, gap: real, visitedAt: Time)

  const NO_SPLIT := Split("", 0.0, ZERO_TIME)

  predicate WiderSplit(a: Split, b: Split) {
    || a.gap > b.gap
    || (a.gap == b.gap && (a.visitedAt > b.visitedAt || (a.visitedAt == b.visitedAt && Text.Less(a.name, b.name))))
  }

  predicate NamelessSplit(s: Split) {
    s.name == ""
  }

  lemma WiderSplitIsTotal()
    ensures IsTotalOrder(WiderSplit)
  {
    Text.LessIsAnOrder();
    forall a: Split, b: Split | a != b ensures WiderSplit(a, b) || WiderSplit(b, a) {
      Text.LessIsATotalOrder(a.name, b.name);
    }
  }

  function Highest(ratings: seq<Rating>): real
    requires ratings != []
  {
    if |ratings| == 1 then ratings[0].score
    else
      var before := Highest(ratings[..|ratings| - 1]);
      if ratings[|ratings| - 1].score > before then ratings[|ratings| - 1].score else before
  }

  function Lowest(ratings: seq<Rating>): real
    requires ratings != []
  {
    if |ratings| == 1 then ratings[0].score
    else
      var before := Lowest(ratings[..|ratings| - 1]);
      if ratings[|ratings| - 1].score < before then ratings[|ratings| - 1].score else before
  }

  function Gap(ratings: seq<Rating>): real
    requires ratings != []
  {
    Highest(ratings) - Lowest(ratings)
  }

  lemma {:induction false} ExtremesAreReached(ratings: seq<Rating>) returns (i: nat, j: nat)
    requires ratings != []
    ensures i < |ratings| && j < |ratings|
    ensures Highest(ratings) == ratings[i].score && Lowest(ratings) == ratings[j].score
    ensures forall k :: 0 <= k < |ratings| ==> Lowest(ratings) <= ratings[k].score <= Highest(ratings)
  {
    var n := |ratings| - 1;
    if n == 0 {
      i, j := 0, 0;
    } else {
      i, j := ExtremesAreReached(ratings[..n]);
      assert forall k :: 0 <= k < n ==> ratings[..n][k] == ratings[k];
      i := if ratings[n].score > Highest(ratings[..n]) then n else i;
      j := if ratings[n].score < Lowest(ratings[..n]) then n else j;
    }
  }

  /** A visit's gap is the furthest any two of its ratings are apart. */
  lemma GapIsTheFurthest(ratings: seq<Rating>)
    requires ratings != []
    ensures forall i, j :: 0 <= i < |ratings| && 0 <= j < |ratings| ==>
      ratings[i].score - ratings[j].score <= Gap(ratings)
    ensures exists i, j ::
      0 <= i < |ratings| && 0 <= j < |ratings| && ratings[i].score - ratings[j].score == Gap(ratings)
  {
    var i, j := ExtremesAreReached(ratings);
    assert ratings[i].score - ratings[j].score == Gap(ratings);
  }

  /** Visits with fewer than two ratings, or no gap, are not in the running. */
  function SplitOf(v: Visit): Option<Split> {
    if |v.ratings| < 2 || Gap(v.ratings) <= 0.0 then None
    else Some(Split(v.restaurant.name, Gap(v.ratings), v.visitedAt))
  }

  function Splits(visits: seq<Visit>): seq<Split> {
    if visits == [] then []
    else
      var last := SplitOf(visits[|visits| - 1]);
      Splits(visits[..|visits| - 1]) + if last.Some? then [last.value] else []
  }

  lemma {:induction false} SplitsAre(visits: seq<Visit>, s: Split)
    ensures s in Splits(visits) <==> exists k :: 0 <= k < |visits| && SplitOf(visits[k]) == Some(s)
  {
    if visits != [] {
      var n := |visits| - 1;
      SplitsAre(visits[..n], s);
      if k :| 0 <= k < |visits| && SplitOf(visits[k]) == Some(s) {
        assert k < n ==> visits[..n][k] == visits[k];
      }
      if s in Splits(visits[..n]) {
        var k :| 0 <= k < n && SplitOf(visits[..n][k]) == Some(s);
        assert SplitOf(visits[k]) == Some(s);
      }
    }
  }

  function SplitRun(visits: seq<Visit>): Split {
    Run(Splits(visits), WiderSplit, NamelessSplit, NO_SPLIT)
  }

  lemma SplitRunOneMore(visits: seq<Visit>, i: nat)
    requires i < |visits|
    ensures SplitRun(visits[..i + 1])
            == match SplitOf(visits[i])
               case None => SplitRun(visits[..i])
               case Some(s) => Challenged(SplitRun(visits[..i]), s, WiderSplit, NamelessSplit)
  {
    assert visits[..i + 1][..i] == visits[..i];
    if SplitOf(visits[i]).Some? {
      RunOneMore(Splits(visits[..i]), SplitOf(visits[i]).value, WiderSplit, NamelessSplit, NO_SPLIT);
    } else {
      assert Splits(visits[..i]) + [] == Splits(visits[..i]);
    }
  }

  method BiggestRatingSplit(visits: seq<Visit>) returns (name: string, split: real)
    ensures (name, split) == (SplitRun(visits).name, SplitRun(visits).gap)
  {
    name, split := "", 0.0;
    var visitedAt := ZERO_TIME;
    for i := 0 to |visits|
      invariant Split(name, split, visitedAt) == SplitRun(visits[..i])
    {
      var visit := visits[i];
      SplitRunOneMore(visits, i);
      if |visit.ratings| < 2 {
        continue;
      }
      var low, high := visit.ratings[0].score, visit.ratings[0].score;
      assert visit.ratings[..1] == [visit.ratings[0]];
      for k := 1 to |visit.ratings|
        invariant low == Lowest(visit.ratings[..k]) && high == Highest(visit.ratings[..k])
      {
        assert visit.ratings[..k + 1][..k] == visit.ratings[..k];
        var score := visit.ratings[k].score;
        low := if score < low then score else low;
        high := if score > high then score else high;
      }
      assert visit.ratings[..|visit.ratings|] == visit.ratings;
      var gap := high - low;
      if gap <= 0.0 {
        continue;
      }
      if name == "" || WiderSplit(Split(visit.restaurant.name, gap, visit.visitedAt), Split(name, split, visitedAt)) {
        name, split, visitedAt := visit.restaurant.name, gap, visit.visitedAt;
      }
    }
    assert visits[..|visits|] == visits;
  }

  /** What is returned of a split. */
  function ShownSplit(s: Split): (string, real) {
    (s.name, s.gap)
  }

  /**
   The name and gap returned are those of the widest gap, the latest visit and the least name among ties,
   exactly when that winner has a name, or the last in the running has the same and no named one outlasts it.
   */
  lemma BiggestSplitIsBestIff(visits: seq<Visit>, best: Split)
    requires IsBest(Splits(visits), WiderSplit, best)
    ensures best.name != "" ==> SplitRun(visits) == best
    ensures ShownSplit(SplitRun(visits)) == ShownSplit(best)
       <==> (best.name != ""
             || (ShownSplit(Splits(visits)[|Splits(visits)| - 1]) == ShownSplit(best)
                 && forall p :: 0 <= p < |Splits(visits)| ==> !Outlasts(Splits(visits), WiderSplit, NamelessSplit, p)))
  {
    WiderSplitIsTotal();
    RunIsBestIff(Splits(visits), WiderSplit, NamelessSplit, NO_SPLIT, best);
    RunShowsBestIff(Splits(visits), WiderSplit, NamelessSplit, NO_SPLIT, best, ShownSplit);
  }

  lemma NoSplitsInAnyOrder(visits: seq<Visit>, reordered: seq<Visit>)
    requires multiset(visits) == multiset(reordered) && Splits(visits) == []
    ensures Splits(reordered) == []
  {
    if Splits(reordered) != [] {
      var s := Splits(reordered)[0];
      SplitsAre(reordered, s);
      var k :| 0 <= k < |reordered| && SplitOf(reordered[k]) == Some(s);
      SameElements(visits, reordered, reordered[k]);
      SplitsAre(visits, s);
    }
  }

  /** With named restaurants the trophy is the declared optimum, whatever the order of the visits. */
  lemma BiggestSplitIgnoresOrder(visits: seq<Visit>, reordered: seq<Visit>)
    requires multiset(visits) == multiset(reordered) && Splits(visits) != []
    requires forall k :: 0 <= k < |visits| ==> visits[k].restaurant.name != ""
    ensures IsBest(Splits(visits), WiderSplit, SplitRun(visits))
    ensures SplitRun(reordered) == SplitRun(visits)
  {
    WiderSplitIsTotal();
    forall s: Split ensures s in Splits(visits) <==> s in Splits(reordered) {
      SplitsAre(visits, s);
      SplitsAre(reordered, s);
      if k :| 0 <= k < |visits| && SplitOf(visits[k]) == Some(s) {
        SameElements(visits, reordered, visits[k]);
      }
      if k :| 0 <= k < |reordered| && SplitOf(reordered[k]) == Some(s) {
        SameElements(visits, reordered, reordered[k]);
      }
    }
    var best := SomeBest(Splits(visits), WiderSplit);
    SplitsAre(visits, best);
    OrderDoesNotMatter(Splits(visits), Splits(reordered), WiderSplit, NamelessSplit, NO_SPLIT, best);
  }

  lemma TwoRatings(person: Person, high: real, low: real)
    requires high > low
    ensures Gap([Rating(person, high), Rating(person, low)]) == high - low
  {
    var ratings := [Rating(person, high), Rating(person, low)];
    assert ratings[..|ratings| - 1] == [Rating(person, high)];
    assert Highest([Rating(person, high)]) == Lowest([Rating(person, high)]) == high;
  }

  function ExampleVisit(restaurant: Restaurant, name: string, at: nat, person: Person, high: real, low: real): Visit {
    Visit(at, restaurant.(name := name), at, None, 1, None, [Rating(person, high), Rating(person, low)], [], [], at, at)
  }

  predicate HasRatings(visits: seq<Visit>, k: int, i: int, j: int) {
    0 <= k < |visits| && 0 <= i < |visits[k].ratings| && 0 <= j < |visits[k].ratings|
  }

  function Apart(visits: seq<Visit>, k: int, i: int, j: int): real
    requires HasRatings(visits, k, i, j)
  {
    visits[k].ratings[i].score - visits[k].ratings[j].score
  }

  /**
   The split is of two ratings of one visit, and no two ratings of one visit are further apart; of the visits with
   ratings as far apart, none is later; and of those of its date, none has a lesser name.
   */
  ghost predicate IsWidest(visits: seq<Visit>, s: Split) {
    && (exists k, i, j ::
          HasRatings(visits, k, i, j) && Apart(visits, k, i, j) == s.gap > 0.0
          && visits[k].restaurant.name == s.name && visits[k].visitedAt == s.visitedAt)
    && (forall k, i, j :: HasRatings(visits, k, i, j) ==>
          && Apart(visits, k, i, j) <= s.gap
          && (Apart(visits, k, i, j) == s.gap ==>
                && visits[k].visitedAt <= s.visitedAt
                && (visits[k].visitedAt == s.visitedAt ==> !Text.Less(visits[k].restaurant.name, s.name))))
  }

  lemma VisitSplit(visits: seq<Visit>, k: nat) returns (i: nat, j: nat)
    requires k < |visits| && SplitOf(visits[k]).Some?
    ensures HasRatings(visits, k, i, j) && Apart(visits, k, i, j) == SplitOf(visits[k]).value.gap > 0.0
  {
    i, j := ExtremesAreReached(visits[k].ratings);
  }

  lemma NoFurtherThanItsSplit(visits: seq<Visit>, k: int, i: int, j: int)
    requires HasRatings(visits, k, i, j) && Apart(visits, k, i, j) > 0.0
    ensures SplitOf(visits[k]).Some? && Apart(visits, k, i, j) <= SplitOf(visits[k]).value.gap
  {
    GapIsTheFurthest(visits[k].ratings);
  }

  lemma BestSplitIsWidest(visits: seq<Visit>, best: Split)
    requires IsBest(Splits(visits), WiderSplit, best)
    ensures IsWidest(visits, best)
  {
    SplitsAre(visits, best);
    var k :| 0 <= k < |visits| && SplitOf(visits[k]) == Some(best);
    var i, j := VisitSplit(visits, k);
    forall k, i, j | HasRatings(visits, k, i, j) && Apart(visits, k, i, j) > 0.0
      ensures var s := SplitOf(visits[k]);
              && s.Some? && Apart(visits, k, i, j) <= s.value.gap
              && (s.value == best || WiderSplit(best, s.value))
    {
      NoFurtherThanItsSplit(visits, k, i, j);
      SplitsAre(visits, SplitOf(visits[k]).value);
    }
    Text.LessIsATotalOrder(best.name, best.name);
    WiderSplitIsTotal();
  }

  /** With named restaurants the name and gap returned are of the widest split, and nothing's only if there is none. */
  lemma BiggestSplitIsWidest(visits: seq<Visit>)
    requires forall k :: 0 <= k < |visits| ==> visits[k].restaurant.name != ""
    ensures if exists k, i, j :: HasRatings(visits, k, i, j) && Apart(visits, k, i, j) > 0.0
            then IsWidest(visits, SplitRun(visits))
            else ShownSplit(SplitRun(visits)) == ("", 0.0)
  {
    if Splits(visits) == [] {
      forall k, i, j | HasRatings(visits, k, i, j) ensures Apart(visits, k, i, j) <= 0.0 {
        if Apart(visits, k, i, j) > 0.0 {
          NoFurtherThanItsSplit(visits, k, i, j);
          SplitsAre(visits, SplitOf(visits[k]).value);
        }
      }
    } else {
      BiggestSplitIgnoresOrder(visits, visits);
      BestSplitIsWidest(visits, SplitRun(visits));
    }
  }

  lemma SplitsOneMore(visits: seq<Visit>, visit: Visit, split: Split)
    requires SplitOf(visit) == Some(split)
    ensures Splits(visits + [visit]) == Splits(visits) + [split]
  {
    assert (visits + [visit])[..|visits|] == visits;
  }

  /** A nameless split is replaced by the next. */
  lemma NextSplitWins(a: Visit, b: Visit, first: Split, second: Split)
    requires SplitOf(a) == Some(first) && SplitOf(b) == Some(second) && first.name == ""
    ensures Splits([a, b]) == [first, second] && SplitRun([a, b]) == second
  {
    assert Splits([a]) == [first] by {
      SplitsOneMore([], a, first);
      assert [] + [a] == [a] && [] + [first] == [first];
    }
    assert Splits([a, b]) == [first, second] by {
      SplitsOneMore([a], b, second);
      assert [a] + [b] == [a, b] && [first] + [second] == [first, second];
    }
    NextReplaces(first, second, WiderSplit, NamelessSplit, NO_SPLIT);
  }

  /** A visit of a nameless restaurant can lose the trophy it should have to the visit after it. */
  lemma NamelessSplitIsLost(r: Restaurant, person: Person)
    ensures var visits := [ExampleVisit(r, "", 10, person, 9.0, 1.0), ExampleVisit(r, "Diner", 5, person, 5.0, 4.0)];
            && IsBest(Splits(visits), WiderSplit, Split("", 8.0, 10))
            && SplitRun(visits) == Split("Diner", 1.0, 5)
  {
    var wide, narrow := ExampleVisit(r, "", 10, person, 9.0, 1.0), ExampleVisit(r, "Diner", 5, person, 5.0, 4.0);
    TwoRatings(person, 9.0, 1.0);
    TwoRatings(person, 5.0, 4.0);
    assert SplitOf(wide) == Some(Split("", 8.0, 10)) && SplitOf(narrow) == Some(Split("Diner", 1.0, 5));
    NextSplitWins(wide, narrow, Split("", 8.0, 10), Split("Diner", 1.0, 5));
  }

  // ---- Most loyal and nostalgia ----

  datatype Record = Record(name: string, visitCount: nat, lastVisitedAt: Time)

  const NO_RECORD := Record("", 0, ZERO_TIME)

  function AtRestaurant(v: Visit): Option<Id> {
    Some(v.restaurant.id)
  }

  function RecordOf(visits: seq<Visit>, id: Id): Record {
    if visits == [] then NO_RECORD
    else
      var v := visits[|visits| - 1];
      var r := RecordOf(visits[..|visits| - 1], id);
      if v.restaurant.id != id then r
      else Record(if r.visitCount == 0 then v.restaurant.name else r.name, r.visitCount + 1,
                  Later(v.visitedAt, r.lastVisitedAt))
  }

  function Later(a: Time, b: Time): Time {
    if a > b then a else b
  }

  ghost predicate NamesAgree(visits: seq<Visit>) {
    forall i, j :: 0 <= i < |visits| && 0 <= j < |visits| && visits[i].restaurant.id == visits[j].restaurant.id ==>
      visits[i].restaurant.name == visits[j].restaurant.name
  }

  predicate IsVisited(visits: seq<Visit>, id: Id) {
    exists k :: 0 <= k < |visits| && visits[k].restaurant.id == id
  }

  /** A record counts the restaurant's visits, and dates the latest of them. */
  lemma {:induction false} RecordIs(visits: seq<Visit>, id: Id)
    ensures RecordOf(visits, id).visitCount == CountKey(visits, AtRestaurant, id)
    ensures RecordOf(visits, id).visitCount > 0 <==> IsVisited(visits, id)
    ensures forall k :: 0 <= k < |visits| && visits[k].restaurant.id == id ==>
      visits[k].visitedAt <= RecordOf(visits, id).lastVisitedAt
    ensures IsVisited(visits, id) ==>
      exists k :: 0 <= k < |visits| && visits[k].restaurant.id == id
        && visits[k].restaurant.name == RecordOf(visits, id).name
    ensures RecordOf(visits, id).lastVisitedAt == ZERO_TIME || DatedBy(visits, id, RecordOf(visits, id).lastVisitedAt)
    ensures RecordOf(visits, id).lastVisitedAt >= ZERO_TIME
    ensures !IsVisited(visits, id) ==> RecordOf(visits, id) == NO_RECORD
  {
    if visits != [] {
      var n := |visits| - 1;
      RecordIs(visits[..n], id);
      assert forall k :: 0 <= k < n ==> visits[..n][k] == visits[k];
      if DatedBy(visits[..n], id, RecordOf(visits[..n], id).lastVisitedAt) {
        var k :| 0 <= k < n && visits[..n][k].restaurant.id == id
          && visits[..n][k].visitedAt == RecordOf(visits[..n], id).lastVisitedAt;
        assert visits[k].visitedAt == RecordOf(visits[..n], id).lastVisitedAt;
      }
    }
  }

  /** It has the name of the first visit there. */
  lemma {:induction false} RecordHasTheFirstName(visits: seq<Visit>, id: Id) returns (k: nat)
    requires IsVisited(visits, id)
    ensures k < |visits| && visits[k].restaurant.id == id && visits[k].restaurant.name == RecordOf(visits, id).name
    ensures forall j :: 0 <= j < k ==> visits[j].restaurant.id != id
  {
    var n := |visits| - 1;
    RecordIs(visits[..n], id);
    if IsVisited(visits[..n], id) {
      k := RecordHasTheFirstName(visits[..n], id);
    } else {
      k := n;
      assert forall j :: 0 <= j < n ==> visits[..n][j] == visits[j];
    }
  }

  predicate DatedBy(visits: seq<Visit>, id: Id, at: Time) {
    exists k :: 0 <= k < |visits| && visits[k].restaurant.id == id && visits[k].visitedAt == at
  }

  /** When a restaurant's visits agree on its name, its record does not depend on their order. */
  lemma RecordIgnoresOrder(visits: seq<Visit>, reordered: seq<Visit>, id: Id)
    requires multiset(visits) == multiset(reordered) && NamesAgree(visits)
    ensures RecordOf(visits, id) == RecordOf(reordered, id)
  {
    RecordIs(visits, id);
    RecordIs(reordered, id);
    CountIgnoresOrder(visits, reordered, AtRestaurant, id);
    forall v: Visit ensures v in visits <==> v in reordered {
      SameElements(visits, reordered, v);
    }
    RecordsAgree(visits, reordered, id);
  }

  lemma RecordsAgree(visits: seq<Visit>, reordered: seq<Visit>, id: Id)
    requires NamesAgree(visits) && forall v: Visit :: v in visits <==> v in reordered
    requires RecordOf(visits, id).visitCount == RecordOf(reordered, id).visitCount
    ensures RecordOf(visits, id) == RecordOf(reordered, id)
  {
    RecordIs(visits, id);
    RecordIs(reordered, id);
    var r, r' := RecordOf(visits, id), RecordOf(reordered, id);
    if IsVisited(visits, id) {
      var i :| 0 <= i < |visits| && visits[i].restaurant.id == id && visits[i].restaurant.name == r.name;
      var j :| 0 <= j < |reordered| && reordered[j].restaurant.id == id && reordered[j].restaurant.name == r'.name;
      assert reordered[j] in visits;
      assert r.name == r'.name;
    }
    LaterDate(visits, reordered, id);
    LaterDate(reordered, visits, id);
  }

  lemma LaterDate(visits: seq<Visit>, reordered: seq<Visit>, id: Id)
    requires forall v: Visit :: v in visits ==> v in reordered
    ensures RecordOf(visits, id).lastVisitedAt <= RecordOf(reordered, id).lastVisitedAt
  {
    RecordIs(visits, id);
    RecordIs(reordered, id);
    var at := RecordOf(visits, id).lastVisitedAt;
    if DatedBy(visits, id, at) {
      var k :| 0 <= k < |visits| && visits[k].restaurant.id == id && visits[k].visitedAt == at;
      assert visits[k] in reordered;
    }
  }

  lemma LatestIgnoresOrder(visits: seq<Visit>, reordered: seq<Visit>)
    requires forall v: Visit :: v in visits ==> v in reordered
    ensures LatestVisit(visits) <= LatestVisit(reordered)
  {
    LatestVisitIs(visits);
    LatestVisitIs(reordered);
    if k :| 0 <= k < |visits| && visits[k].visitedAt == LatestVisit(visits) {
      assert visits[k] in reordered;
    }
  }

  function LatestVisit(visits: seq<Visit>): Time {
    if visits == [] then ZERO_TIME
    else Later(visits[|visits| - 1].visitedAt, LatestVisit(visits[..|visits| - 1]))
  }

  lemma {:induction false} LatestVisitIs(visits: seq<Visit>)
    ensures forall k :: 0 <= k < |visits| ==> visits[k].visitedAt <= LatestVisit(visits)
    ensures LatestVisit(visits) >= ZERO_TIME
    ensures LatestVisit(visits) == ZERO_TIME
         || exists k :: 0 <= k < |visits| && visits[k].visitedAt == LatestVisit(visits)
  {
    if visits != [] {
      var n := |visits| - 1;
      LatestVisitIs(visits[..n]);
      assert forall k :: 0 <= k < n ==> visits[..n][k] == visits[k];
      if k :| 0 <= k < n && visits[..n][k].visitedAt == LatestVisit(visits[..n]) {
        assert visits[k].visitedAt == LatestVisit(visits[..n]);
      }
      assert visits[n].visitedAt <= LatestVisit(visits);
    }
  }

  predicate MoreLoyal(a: Record, b: Record) {
    || a.visitCount > b.visitCount
    || (a.visitCount == b.visitCount
        && (a.lastVisitedAt > b.lastVisitedAt || (a.lastVisitedAt == b.lastVisitedAt && Text.Less(a.name, b.name))))
  }

  /** Nostalgia goes by date and name; the count of visits only tells records apart. */
  datatype Memory = Memory(name: string, lastVisitedAt: Time)

  const NO_MEMORY := Memory("", ZERO_TIME)

  predicate MoreDistant(a: Memory, b: Memory) {
    a.lastVisitedAt < b.lastVisitedAt || (a.lastVisitedAt == b.lastVisitedAt && Text.Less(a.name, b.name))
  }

  predicate NamelessRecord(r: Record) {
    r.name == ""
  }

  predicate NamelessMemory(m: Memory) {
    m.name == ""
  }

  lemma MoreLoyalIsTotal()
    ensures IsTotalOrder(MoreLoyal)
  {
    Text.LessIsAnOrder();
    forall a: Record, b: Record | a != b ensures MoreLoyal(a, b) || MoreLoyal(b, a) {
      Text.LessIsATotalOrder(a.name, b.name);
    }
  }

  lemma MoreDistantIsTotal()
    ensures IsTotalOrder(MoreDistant)
  {
    Text.LessIsAnOrder();
    forall a: Memory, b: Memory | a != b ensures MoreDistant(a, b) || MoreDistant(b, a) {
      Text.LessIsATotalOrder(a.name, b.name);
    }
  }

  /** The records of at least two visits, in the order the map yields them. */
  function Loyals(visits: seq<Visit>, order: seq<Id>): seq<Record> {
    if order == [] then []
    else
      var r := RecordOf(visits, order[|order| - 1]);
      Loyals(visits, order[..|order| - 1]) + if r.visitCount >= 2 then [r] else []
  }

  /** The records last visited before the latest visit of all. */
  function Memories(visits: seq<Visit>, order: seq<Id>): seq<Memory> {
    if order == [] then []
    else
      var r := RecordOf(visits, order[|order| - 1]);
      Memories(visits, order[..|order| - 1])
      + if r.lastVisitedAt < LatestVisit(visits) then [Memory(r.name, r.lastVisitedAt)] else []
  }

  function LoyalRun(visits: seq<Visit>, order: seq<Id>): Record {
    Run(Loyals(visits, order), MoreLoyal, NamelessRecord, NO_RECORD)
  }

  function NostalgiaRun(visits: seq<Visit>, order: seq<Id>): Memory {
    Run(Memories(visits, order), MoreDistant, NamelessMemory, NO_MEMORY)
  }

  /** Every visited restaurant once: an order in which a map may be ranged over. */
  ghost predicate IsMapOrder(visits: seq<Visit>, order: seq<Id>) {
    && (forall i, j :: 0 <= i < j < |order| ==> order[i] != order[j])
    && (forall id :: id in order <==> IsVisited(visits, id))
  }

  ghost predicate Recorded(visits: seq<Visit>, byRestaurant: map<Id, Record>) {
    && (forall id :: id in byRestaurant <==> IsVisited(visits, id))
    && (forall id :: id in byRestaurant ==> byRestaurant[id] == RecordOf(visits, id))
  }

  /** One visit of the first loop. */
  method RecordVisit(byRestaurant: map<Id, Record>, visit: Visit, ghost visits: seq<Visit>)
    returns (recorded: map<Id, Record>)
    requires Recorded(visits, byRestaurant)
    ensures Recorded(visits + [visit], recorded)
  {
    var id := visit.restaurant.id;
    var record := if id in byRestaurant then byRestaurant[id] else Record(visit.restaurant.name, 0, ZERO_TIME);
    record := record.(visitCount := record.visitCount + 1);
    if visit.visitedAt > record.lastVisitedAt {
      record := record.(lastVisitedAt := visit.visitedAt);
    }
    recorded := byRestaurant[id := record];
    RecordIs(visits, id);
    forall other
      ensures IsVisited(visits + [visit], other) <==> IsVisited(visits, other) || other == id
      ensures other != id ==> RecordOf(visits + [visit], other) == RecordOf(visits, other)
    {
      VisitedOneMore(visits, visit, other);
      RecordOneMore(visits, visit, other);
    }
    RecordOneMore(visits, visit, id);
  }

  /** The first loop: a record a restaurant, and the latest visit of all. */
  method GatherRecords(visits: seq<Visit>) returns (byRestaurant: map<Id, Record>, latest: Time)
    ensures latest == LatestVisit(visits) && Recorded(visits, byRestaurant)
  {
    byRestaurant, latest := map[], ZERO_TIME;
    for i := 0 to |visits|
      invariant latest == LatestVisit(visits[..i])
      invariant Recorded(visits[..i], byRestaurant)
    {
      assert visits[..i + 1] == visits[..i] + [visits[i]];
      assert visits[..i + 1][..i] == visits[..i];
      byRestaurant := RecordVisit(byRestaurant, visits[i], visits[..i]);
      if visits[i].visitedAt > latest {
        latest := visits[i].visitedAt;
      }
    }
    assert visits[..|visits|] == visits;
  }

  lemma LoyalsOneMore(visits: seq<Visit>, order: seq<Id>, id: Id)
    ensures Loyals(visits, order + [id])
            == Loyals(visits, order) + if RecordOf(visits, id).visitCount >= 2 then [RecordOf(visits, id)] else []
  {
    assert (order + [id])[..|order|] == order;
  }

  lemma MemoriesOneMore(visits: seq<Visit>, order: seq<Id>, id: Id)
    ensures Memories(visits, order + [id])
            == Memories(visits, order)
               + if Remembered(visits, id).lastVisitedAt < LatestVisit(visits) then [Remembered(visits, id)] else []
  {
    assert (order + [id])[..|order|] == order;
  }

  function LoyalAfter(r: Record, next: Record): Record {
    if r.name == "" || MoreLoyal(next, r) then next else r
  }

  function NostalgiaAfter(m: Memory, next: Memory): Memory {
    if m.name == "" || MoreDistant(next, m) then next else m
  }

  lemma LoyalRunOneMore(visits: seq<Visit>, order: seq<Id>, id: Id)
    ensures LoyalRun(visits, order + [id])
            == if RecordOf(visits, id).visitCount >= 2
               then LoyalAfter(LoyalRun(visits, order), RecordOf(visits, id))
               else LoyalRun(visits, order)
  {
    LoyalsOneMore(visits, order, id);
    RunOneMore(Loyals(visits, order), RecordOf(visits, id), MoreLoyal, NamelessRecord, NO_RECORD);
    assert Loyals(visits, order) + [] == Loyals(visits, order);
  }

  lemma NostalgiaRunOneMore(visits: seq<Visit>, order: seq<Id>, id: Id)
    ensures NostalgiaRun(visits, order + [id])
            == if Remembered(visits, id).lastVisitedAt < LatestVisit(visits)
               then NostalgiaAfter(NostalgiaRun(visits, order), Remembered(visits, id))
               else NostalgiaRun(visits, order)
  {
    MemoriesOneMore(visits, order, id);
    RunOneMore(Memories(visits, order), Remembered(visits, id), MoreDistant, NamelessMemory, NO_MEMORY);
    assert Memories(visits, order) + [] == Memories(visits, order);
  }

  method RestaurantVisitRecords(visits: seq<Visit>, order: seq<Id>)
    returns (loyal: string, loyalVisits: nat, nostalgia: string, nostalgiaLastVisitedAt: Time)
    requires IsMapOrder(visits, order)
    ensures (loyal, loyalVisits) == (LoyalRun(visits, order).name, LoyalRun(visits, order).visitCount)
    ensures Memory(nostalgia, nostalgiaLastVisitedAt) == NostalgiaRun(visits, order)
  {
    var byRestaurant, latest := GatherRecords(visits);
    loyal, loyalVisits, nostalgia, nostalgiaLastVisitedAt := "", 0, "", ZERO_TIME;
    var loyalAt := ZERO_TIME;
    for i := 0 to |order|
      invariant Record(loyal, loyalVisits, loyalAt) == LoyalRun(visits, order[..i])
      invariant Memory(nostalgia, nostalgiaLastVisitedAt) == NostalgiaRun(visits, order[..i])
    {
      assert order[..i + 1] == order[..i] + [order[i]];
      LoyalRunOneMore(visits, order[..i], order[i]);
      NostalgiaRunOneMore(visits, order[..i], order[i]);
      assert order[i] in order;
      var record := byRestaurant[order[i]];
      assert record == RecordOf(visits, order[i]);
      if record.visitCount >= 2 && (loyal == "" || MoreLoyal(record, Record(loyal, loyalVisits, loyalAt))) {
        loyal, loyalVisits, loyalAt := record.name, record.visitCount, record.lastVisitedAt;
      }
      var remembered := Memory(record.name, record.lastVisitedAt);
      if record.lastVisitedAt < latest
         && (nostalgia == "" || MoreDistant(remembered, Memory(nostalgia, nostalgiaLastVisitedAt))) {
        nostalgia, nostalgiaLastVisitedAt := record.name, record.lastVisitedAt;
      }
    }
    assert order[..|order|] == order;
  }

  lemma VisitedOneMore(visits: seq<Visit>, visit: Visit, id: Id)
    ensures IsVisited(visits + [visit], id) <==> IsVisited(visits, id) || visit.restaurant.id == id
  {
    var more := visits + [visit];
    if visit.restaurant.id == id {
      assert more[|visits|].restaurant.id == id;
    }
    if k :| 0 <= k < |visits| && visits[k].restaurant.id == id {
      assert more[k].restaurant.id == id;
    }
    if k :| 0 <= k < |more| && more[k].restaurant.id == id {
      assert k < |visits| ==> visits[k].restaurant.id == id;
    }
  }

  lemma {:induction false} LoyalIsOf(visits: seq<Visit>, order: seq<Id>, r: Record) returns (i: nat)
    requires r in Loyals(visits, order)
    ensures i < |order| && RecordOf(visits, order[i]) == r && r.visitCount >= 2
  {
    var n := |order| - 1;
    if r in Loyals(visits, order[..n]) {
      i := LoyalIsOf(visits, order[..n], r);
    } else {
      i := n;
    }
  }

  lemma {:induction false} LoyalIsIn(visits: seq<Visit>, order: seq<Id>, i: nat)
    requires i < |order| && RecordOf(visits, order[i]).visitCount >= 2
    ensures RecordOf(visits, order[i]) in Loyals(visits, order)
  {
    if i < |order| - 1 {
      LoyalIsIn(visits, order[..|order| - 1], i);
    }
  }

  lemma LoyalsAre(visits: seq<Visit>, order: seq<Id>, r: Record)
    ensures r in Loyals(visits, order)
      <==> exists i :: 0 <= i < |order| && RecordOf(visits, order[i]) == r && r.visitCount >= 2
  {
    if r in Loyals(visits, order) {
      var i := LoyalIsOf(visits, order, r);
    }
    if i :| 0 <= i < |order| && RecordOf(visits, order[i]) == r && r.visitCount >= 2 {
      LoyalIsIn(visits, order, i);
    }
  }

  lemma {:induction false} MemoryIsOf(visits: seq<Visit>, order: seq<Id>, m: Memory) returns (i: nat)
    requires m in Memories(visits, order)
    ensures i < |order| && Remembered(visits, order[i]) == m && m.lastVisitedAt < LatestVisit(visits)
  {
    var n := |order| - 1;
    if m in Memories(visits, order[..n]) {
      i := MemoryIsOf(visits, order[..n], m);
    } else {
      i := n;
    }
  }

  lemma {:induction false} MemoryIsIn(visits: seq<Visit>, order: seq<Id>, i: nat)
    requires i < |order| && Remembered(visits, order[i]).lastVisitedAt < LatestVisit(visits)
    ensures Remembered(visits, order[i]) in Memories(visits, order)
  {
    if i < |order| - 1 {
      MemoryIsIn(visits, order[..|order| - 1], i);
    }
  }

  lemma MemoriesAre(visits: seq<Visit>, order: seq<Id>, m: Memory)
    ensures m in Memories(visits, order)
       <==> exists i :: 0 <= i < |order| && Remembered(visits, order[i]) == m && m.lastVisitedAt < LatestVisit(visits)
  {
    if m in Memories(visits, order) {
      var i := MemoryIsOf(visits, order, m);
    }
    if i :| 0 <= i < |order| && Remembered(visits, order[i]) == m && m.lastVisitedAt < LatestVisit(visits) {
      MemoryIsIn(visits, order, i);
    }
  }

  /** The most visits, the latest last visit and the least name: no restaurant visited twice has a better record. */
  ghost predicate IsLoyalest(visits: seq<Visit>, best: Record) {
    && (exists id :: IsVisited(visits, id) && RecordOf(visits, id) == best && best.visitCount >= 2)
    && (forall id :: IsVisited(visits, id) && RecordOf(visits, id).visitCount >= 2 ==>
          RecordOf(visits, id) == best || MoreLoyal(best, RecordOf(visits, id)))
  }

  /** The oldest last visit and the least name among the restaurants not visited last of all. */
  ghost predicate IsMostDistant(visits: seq<Visit>, best: Memory) {
    && (exists id ::
          IsVisited(visits, id) && Remembered(visits, id) == best && best.lastVisitedAt < LatestVisit(visits))
    && (forall id :: IsVisited(visits, id) && Remembered(visits, id).lastVisitedAt < LatestVisit(visits) ==>
          Remembered(visits, id) == best || MoreDistant(best, Remembered(visits, id)))
  }

  function Remembered(visits: seq<Visit>, id: Id): Memory {
    Memory(RecordOf(visits, id).name, RecordOf(visits, id).lastVisitedAt)
  }

  lemma LoyalestIsBest(visits: seq<Visit>, order: seq<Id>, best: Record)
    requires IsMapOrder(visits, order)
    ensures IsLoyalest(visits, best) <==> IsBest(Loyals(visits, order), MoreLoyal, best)
  {
    forall r
      ensures r in Loyals(visits, order)
        <==> exists id :: IsVisited(visits, id) && RecordOf(visits, id) == r && r.visitCount >= 2
    {
      LoyalsAre(visits, order, r);
      if id :| IsVisited(visits, id) && RecordOf(visits, id) == r {
        assert id in order;
      }
      if r in Loyals(visits, order) {
        var i :| 0 <= i < |order| && RecordOf(visits, order[i]) == r;
        assert order[i] in order;
      }
    }
  }

  lemma MostDistantIsBest(visits: seq<Visit>, order: seq<Id>, best: Memory)
    requires IsMapOrder(visits, order)
    ensures IsMostDistant(visits, best) <==> IsBest(Memories(visits, order), MoreDistant, best)
  {
    forall m
      ensures m in Memories(visits, order)
         <==> exists id :: IsVisited(visits, id) && Remembered(visits, id) == m && m.lastVisitedAt < LatestVisit(visits)
    {
      MemoriesAre(visits, order, m);
      if id :| IsVisited(visits, id) && Remembered(visits, id) == m {
        assert id in order;
      }
      if m in Memories(visits, order) {
        var i :| 0 <= i < |order| && Remembered(visits, order[i]) == m;
        assert order[i] in order;
      }
    }
  }

  /** What is returned of the most loyal restaurant. */
  function ShownLoyal(r: Record): (string, nat) {
    (r.name, r.visitCount)
  }

  /**
   Ranging over the map in the given order, the name and count returned are the most loyal restaurant's, exactly
   when it has a name, or the last in the running shows the same and no named one outlasts it.
   */
  lemma LoyalIsBestIff(visits: seq<Visit>, order: seq<Id>, best: Record)
    requires IsMapOrder(visits, order) && IsLoyalest(visits, best)
    ensures Loyals(visits, order) != []
    ensures best.name != "" ==> LoyalRun(visits, order) == best
    ensures ShownLoyal(LoyalRun(visits, order)) == ShownLoyal(best)
       <==> (best.name != ""
             || (ShownLoyal(Loyals(visits, order)[|Loyals(visits, order)| - 1]) == ShownLoyal(best)
                 && forall p :: 0 <= p < |Loyals(visits, order)| ==>
                      !Outlasts(Loyals(visits, order), MoreLoyal, NamelessRecord, p)))
  {
    LoyalestIsBest(visits, order, best);
    MoreLoyalIsTotal();
    RunIsBestIff(Loyals(visits, order), MoreLoyal, NamelessRecord, NO_RECORD, best);
    RunShowsBestIff(Loyals(visits, order), MoreLoyal, NamelessRecord, NO_RECORD, best, ShownLoyal);
  }

  lemma {:induction false} OrderOfOthers(visits: seq<Visit>, id: Id) returns (order: seq<Id>)
    ensures forall i, j :: 0 <= i < j < |order| ==> order[i] != order[j]
    ensures forall other :: other in order <==> IsVisited(visits, other) && other != id
  {
    order := [];
    if visits != [] {
      var n := |visits| - 1;
      order := OrderOfOthers(visits[..n], id);
      assert visits == visits[..n] + [visits[n]];
      forall other
        ensures IsVisited(visits, other) <==> IsVisited(visits[..n], other) || visits[n].restaurant.id == other
      {
        VisitedOneMore(visits[..n], visits[n], other);
      }
      if visits[n].restaurant.id != id && visits[n].restaurant.id !in order {
        order := order + [visits[n].restaurant.id];
      }
    }
  }

  /** Any visited restaurant may be the last a map yields. */
  lemma OrderEndingWith(visits: seq<Visit>, id: Id) returns (order: seq<Id>)
    requires IsVisited(visits, id)
    ensures IsMapOrder(visits, order) && order != [] && order[|order| - 1] == id
  {
    var others := OrderOfOthers(visits, id);
    order := others + [id];
    forall i | 0 <= i < |others| ensures others[i] != id {
      assert others[i] in others;
    }
  }

  /**
   Whatever order the map is ranged over in, the name and count returned are the most loyal restaurant's,
   exactly when it has a name or all in the running show the same.
   */
  lemma LoyalIsAlwaysBestIff(visits: seq<Visit>, best: Record)
    requires IsLoyalest(visits, best)
    ensures (forall order :: IsMapOrder(visits, order) ==> ShownLoyal(LoyalRun(visits, order)) == ShownLoyal(best))
       <==> (best.name != ""
             || forall id :: IsVisited(visits, id) && RecordOf(visits, id).visitCount >= 2 ==>
                  ShownLoyal(RecordOf(visits, id)) == ShownLoyal(best))
  {
    forall order | IsMapOrder(visits, order)
      ensures LoyalRun(visits, order) in Loyals(visits, order)
      ensures best.name != "" ==> LoyalRun(visits, order) == best
    {
      LoyalIsBestIff(visits, order, best);
      RunIsAnElement(Loyals(visits, order), MoreLoyal, NamelessRecord, NO_RECORD);
    }
    if best.name == "" {
      forall order | IsMapOrder(visits, order)
        ensures exists id :: IsVisited(visits, id) && RecordOf(visits, id) == LoyalRun(visits, order)
                             && RecordOf(visits, id).visitCount >= 2
      {
        LoyalsAre(visits, order, LoyalRun(visits, order));
        var i :| 0 <= i < |order| && RecordOf(visits, order[i]) == LoyalRun(visits, order);
        assert order[i] in order;
      }
      forall id | IsVisited(visits, id) && RecordOf(visits, id).visitCount >= 2
                  && ShownLoyal(RecordOf(visits, id)) != ShownLoyal(best)
        ensures exists order :: IsMapOrder(visits, order) && ShownLoyal(LoyalRun(visits, order)) != ShownLoyal(best)
      {
        var order := OrderEndingWith(visits, id);
        LoyalIsBestIff(visits, order, best);
      }
    }
  }

  /** Ranging over the map in the given order: exactly when the winner has a name, or comes last. */
  lemma NostalgiaIsBestIff(visits: seq<Visit>, order: seq<Id>, best: Memory)
    requires IsMapOrder(visits, order) && IsMostDistant(visits, best)
    ensures Memories(visits, order) != []
    ensures NostalgiaRun(visits, order) == best
       <==> best.name != "" || Memories(visits, order)[|Memories(visits, order)| - 1] == best
  {
    MostDistantIsBest(visits, order, best);
    MoreDistantIsTotal();
    RunIsBestIff(Memories(visits, order), MoreDistant, NamelessMemory, NO_MEMORY, best);
  }

  function VisitTo(v: Visit, id: Id, name: string, at: Time): Visit {
    v.(restaurant := v.restaurant.(id := id, name := name), visitedAt := at)
  }

  lemma RecordOneMore(visits: seq<Visit>, v: Visit, id: Id)
    ensures RecordOf(visits + [v], id)
            == var r := RecordOf(visits, id);
               if v.restaurant.id != id then r
               else Record(if r.visitCount == 0 then v.restaurant.name else r.name, r.visitCount + 1,
                           Later(v.visitedAt, r.lastVisitedAt))
  {
    assert (visits + [v])[..|visits|] == visits;
  }

  lemma RecordOfTwo(a: Visit, b: Visit, id: Id)
    requires a.restaurant.id == b.restaurant.id && ZERO_TIME <= a.visitedAt <= b.visitedAt
    ensures RecordOf([a, b], id)
            == if a.restaurant.id == id then Record(a.restaurant.name, 2, b.visitedAt) else NO_RECORD
  {
    RecordOneMore([], a, id);
    RecordOneMore([a], b, id);
    assert [] + [a] == [a] && [a] + [b] == [a, b];
  }

  lemma RecordOfFour(a: Visit, b: Visit, c: Visit, d: Visit, id: Id)
    requires a.restaurant.id == b.restaurant.id != c.restaurant.id == d.restaurant.id
    requires ZERO_TIME <= a.visitedAt <= b.visitedAt && ZERO_TIME <= c.visitedAt <= d.visitedAt
    ensures RecordOf([a, b, c, d], id)
            == if a.restaurant.id == id then Record(a.restaurant.name, 2, b.visitedAt)
               else if c.restaurant.id == id then Record(c.restaurant.name, 2, d.visitedAt) else NO_RECORD
  {
    RecordOfTwo(a, b, id);
    RecordOneMore([a, b], c, id);
    RecordOneMore([a, b, c], d, id);
    assert [a, b] + [c] == [a, b, c] && [a, b, c] + [d] == [a, b, c, d];
  }

  /** Two visits of a nameless restaurant, after two of another. */
  function NamelessLater(v: Visit): seq<Visit> {
    [VisitTo(v, 1, "", 9), VisitTo(v, 1, "", 10), VisitTo(v, 2, "Diner", 3), VisitTo(v, 2, "Diner", 4)]
  }

  lemma RecordsOfNamelessLater(v: Visit, id: Id)
    ensures RecordOf(NamelessLater(v), id)
            == if id == 1 then Record("", 2, 10) else if id == 2 then Record("Diner", 2, 4) else NO_RECORD
    ensures IsVisited(NamelessLater(v), id) <==> 1 <= id <= 2
  {
    var visits := NamelessLater(v);
    RecordOfFour(visits[0], visits[1], visits[2], visits[3], id);
    RecordIs(visits, id);
  }

  lemma NextLoyalWins(visits: seq<Visit>, order: seq<Id>)
    requires |order| == 2
    requires RecordOf(visits, order[0]).visitCount >= 2 && RecordOf(visits, order[1]).visitCount >= 2
    requires RecordOf(visits, order[0]).name == ""
    ensures LoyalRun(visits, order) == RecordOf(visits, order[1])
  {
    var r0, r1 := RecordOf(visits, order[0]), RecordOf(visits, order[1]);
    LoyalsOneMore(visits, [], order[0]);
    LoyalsOneMore(visits, [order[0]], order[1]);
    assert [] + [order[0]] == [order[0]] && [order[0]] + [order[1]] == order && [] + [r0] == [r0];
    assert Loyals(visits, order) == [r0, r1];
    NextReplaces(r0, r1, MoreLoyal, NamelessRecord, NO_RECORD);
  }

  lemma NamelessIsLoyalest(visits: seq<Visit>, best: Record, other: Record)
    requires best.visitCount >= 2 && IsVisited(visits, 1) && RecordOf(visits, 1) == best && MoreLoyal(best, other)
    requires forall id :: RecordOf(visits, id) in [best, other, NO_RECORD]
    ensures IsLoyalest(visits, best)
  {
  }

  /** The most loyal restaurant, without a name, loses to one visited as often but longer ago. */
  lemma NamelessLoyalIsLost(v: Visit)
    ensures IsMapOrder(NamelessLater(v), [1, 2]) && IsLoyalest(NamelessLater(v), Record("", 2, 10))
    ensures ShownLoyal(LoyalRun(NamelessLater(v), [1, 2])) == ("Diner", 2)
  {
    var visits := NamelessLater(v);
    forall id ensures RecordOf(visits, id) in [Record("", 2, 10), Record("Diner", 2, 4), NO_RECORD]
              ensures IsVisited(visits, id) <==> id in [1, 2]
    {
      RecordsOfNamelessLater(v, id);
    }
    RecordsOfNamelessLater(v, 1);
    RecordsOfNamelessLater(v, 2);
    NextLoyalWins(visits, [1, 2]);
    NamelessIsLoyalest(visits, Record("", 2, 10), Record("Diner", 2, 4));
  }

  /** Two visits of a nameless restaurant, then one of each of two others. */
  function NamelessFirst(v: Visit): seq<Visit> {
    [VisitTo(v, 1, "", 3), VisitTo(v, 1, "", 4), VisitTo(v, 2, "Diner", 9), VisitTo(v, 3, "Cafe", 10)]
  }

  lemma RecordsOfNamelessFirst(v: Visit, id: Id)
    ensures RecordOf(NamelessFirst(v), id)
            == if id == 1 then Record("", 2, 4) else if id == 2 then Record("Diner", 1, 9)
               else if id == 3 then Record("Cafe", 1, 10) else NO_RECORD
    ensures IsVisited(NamelessFirst(v), id) <==> 1 <= id <= 3
  {
    var pair := [VisitTo(v, 1, "", 3), VisitTo(v, 1, "", 4)];
    var diner, cafe := VisitTo(v, 2, "Diner", 9), VisitTo(v, 3, "Cafe", 10);
    RecordOfTwo(pair[0], pair[1], id);
    RecordOneMore(pair, diner, id);
    RecordOneMore(pair + [diner], cafe, id);
    assert pair + [diner] + [cafe] == NamelessFirst(v);
    RecordIs(NamelessFirst(v), id);
  }

  lemma LatestOfNamelessFirst(v: Visit)
    ensures LatestVisit(NamelessFirst(v)) == 10
  {
    LatestVisitIs(NamelessFirst(v));
    assert NamelessFirst(v)[3].visitedAt == 10;
  }

  lemma NextMemoryWins(visits: seq<Visit>, order: seq<Id>)
    requires |order| == 3
    requires Remembered(visits, order[0]).lastVisitedAt < LatestVisit(visits) && Remembered(visits, order[0]).name == ""
    requires Remembered(visits, order[1]).lastVisitedAt < LatestVisit(visits)
    requires Remembered(visits, order[2]).lastVisitedAt >= LatestVisit(visits)
    ensures NostalgiaRun(visits, order) == Remembered(visits, order[1])
  {
    var m0, m1 := Remembered(visits, order[0]), Remembered(visits, order[1]);
    MemoriesOneMore(visits, [], order[0]);
    MemoriesOneMore(visits, [order[0]], order[1]);
    MemoriesOneMore(visits, [order[0], order[1]], order[2]);
    assert [] + [order[0]] == [order[0]] && [order[0]] + [order[1]] == [order[0], order[1]];
    assert [order[0], order[1]] + [order[2]] == order;
    assert Memories(visits, order) == [m0, m1];
    NextReplaces(m0, m1, MoreDistant, NamelessMemory, NO_MEMORY);
  }

  lemma NamelessIsMostDistant(visits: seq<Visit>, best: Memory, other: Memory)
    requires best.lastVisitedAt < LatestVisit(visits) && IsVisited(visits, 1) && Remembered(visits, 1) == best
    requires MoreDistant(best, other)
    requires forall id :: IsVisited(visits, id) && Remembered(visits, id).lastVisitedAt < LatestVisit(visits) ==>
               Remembered(visits, id) in [best, other]
    ensures IsMostDistant(visits, best)
  {
  }

  /** The restaurant not visited for longest, without a name, loses to one visited after it. */
  lemma NamelessNostalgiaIsLost(v: Visit)
    ensures IsMapOrder(NamelessFirst(v), [1, 2, 3]) && IsMostDistant(NamelessFirst(v), Memory("", 4))
    ensures NostalgiaRun(NamelessFirst(v), [1, 2, 3]) == Memory("Diner", 9)
  {
    var visits := NamelessFirst(v);
    LatestOfNamelessFirst(v);
    forall id
      ensures IsVisited(visits, id) <==> id in [1, 2, 3]
      ensures IsVisited(visits, id) && Remembered(visits, id).lastVisitedAt < 10 ==>
        Remembered(visits, id) in [Memory("", 4), Memory("Diner", 9)]
    {
      RecordsOfNamelessFirst(v, id);
    }
    RecordsOfNamelessFirst(v, 1);
    RecordsOfNamelessFirst(v, 2);
    RecordsOfNamelessFirst(v, 3);
    NextMemoryWins(visits, [1, 2, 3]);
    NamelessIsMostDistant(visits, Memory("", 4), Memory("Diner", 9));
  }

  /** Whatever the order: exactly when the winner has a name or no other restaurant is in the running. */
  lemma NostalgiaIsAlwaysBestIff(visits: seq<Visit>, best: Memory)
    requires IsMostDistant(visits, best)
    ensures (forall order :: IsMapOrder(visits, order) ==> NostalgiaRun(visits, order) == best)
       <==> (best.name != ""
             || forall id :: IsVisited(visits, id) && Remembered(visits, id).lastVisitedAt < LatestVisit(visits) ==>
                  Remembered(visits, id) == best)
  {
    forall order | IsMapOrder(visits, order)
      ensures NostalgiaRun(visits, order) in Memories(visits, order)
      ensures best.name != "" ==> NostalgiaRun(visits, order) == best
    {
      NostalgiaIsBestIff(visits, order, best);
      RunIsAnElement(Memories(visits, order), MoreDistant, NamelessMemory, NO_MEMORY);
    }
    if best.name == "" {
      forall order | IsMapOrder(visits, order)
        ensures exists id :: IsVisited(visits, id) && Remembered(visits, id) == NostalgiaRun(visits, order)
                             && Remembered(visits, id).lastVisitedAt < LatestVisit(visits)
      {
        MemoriesAre(visits, order, NostalgiaRun(visits, order));
        var i :| 0 <= i < |order| && Remembered(visits, order[i]) == NostalgiaRun(visits, order);
        assert order[i] in order;
      }
      forall id | IsVisited(visits, id) && Remembered(visits, id).lastVisitedAt < LatestVisit(visits)
                  && Remembered(visits, id) != best
        ensures exists order :: IsMapOrder(visits, order) && NostalgiaRun(visits, order) != best
      {
        var order := OrderEndingWith(visits, id);
        NostalgiaIsBestIff(visits, order, best);
      }
    }
  }

  /** With named restaurants both trophies are the declared optima, whatever order the map is ranged over in. */
  lemma NamedTrophiesAreOptimal(visits: seq<Visit>, order: seq<Id>, id: Id)
    requires IsMapOrder(visits, order) && IsVisited(visits, id)
    requires forall k :: 0 <= k < |visits| ==> visits[k].restaurant.name != ""
    ensures RecordOf(visits, id).visitCount >= 2 ==> IsLoyalest(visits, LoyalRun(visits, order))
    ensures RecordOf(visits, id).lastVisitedAt < LatestVisit(visits) ==>
      IsMostDistant(visits, NostalgiaRun(visits, order))
  {
    var i :| 0 <= i < |order| && order[i] == id;
    if RecordOf(visits, id).visitCount >= 2 {
      LoyalsAre(visits, order, RecordOf(visits, order[i]));
      MoreLoyalIsTotal();
      var best := SomeBest(Loyals(visits, order), MoreLoyal);
      LoyalestIsBest(visits, order, best);
      var other :| IsVisited(visits, other) && RecordOf(visits, other) == best;
      RecordIs(visits, other);
      LoyalIsBestIff(visits, order, best);
    }
    if RecordOf(visits, id).lastVisitedAt < LatestVisit(visits) {
      MemoriesAre(visits, order, Remembered(visits, order[i]));
      MoreDistantIsTotal();
      var best := SomeBest(Memories(visits, order), MoreDistant);
      MostDistantIsBest(visits, order, best);
      var other :| IsVisited(visits, other) && Remembered(visits, other) == best;
      RecordIs(visits, other);
      NostalgiaIsBestIff(visits, order, best);
    }
  }

  /** The trophies depend neither on the order of the visits nor on the orders the map is ranged over in. */
  lemma TrophiesIgnoreOrder(visits: seq<Visit>, order: seq<Id>, reordered: seq<Visit>, order': seq<Id>)
    requires multiset(visits) == multiset(reordered) && NamesAgree(visits)
    requires IsMapOrder(visits, order) && IsMapOrder(reordered, order')
    requires forall k :: 0 <= k < |visits| ==> visits[k].restaurant.name != ""
    ensures LoyalRun(visits, order) == LoyalRun(reordered, order')
    ensures NostalgiaRun(visits, order) == NostalgiaRun(reordered, order')
  {
    forall v: Visit ensures v in visits <==> v in reordered {
      SameElements(visits, reordered, v);
    }
    LatestIgnoresOrder(visits, reordered);
    LatestIgnoresOrder(reordered, visits);
    forall id ensures RecordOf(visits, id) == RecordOf(reordered, id) {
      RecordIgnoresOrder(visits, reordered, id);
    }
    forall id ensures IsVisited(visits, id) <==> IsVisited(reordered, id) {
      RecordIs(visits, id);
      RecordIs(reordered, id);
    }
    LoyalIgnoresOrder(visits, order, reordered, order');
    NostalgiaIgnoresOrder(visits, order, reordered, order');
  }

  lemma LoyalIgnoresOrder(visits: seq<Visit>, order: seq<Id>, reordered: seq<Visit>, order': seq<Id>)
    requires IsMapOrder(visits, order) && IsMapOrder(reordered, order')
    requires forall k :: 0 <= k < |visits| ==> visits[k].restaurant.name != ""
    requires forall id ::
      RecordOf(visits, id) == RecordOf(reordered, id) && (IsVisited(visits, id) <==> IsVisited(reordered, id))
    ensures LoyalRun(visits, order) == LoyalRun(reordered, order')
  {
    if id :| IsVisited(visits, id) && RecordOf(visits, id).visitCount >= 2 {
      NamedTrophiesAreOptimal(visits, order, id);
      var best := LoyalRun(visits, order);
      assert IsLoyalest(reordered, best);
      var other :| IsVisited(visits, other) && RecordOf(visits, other) == best;
      RecordIs(visits, other);
      LoyalIsBestIff(reordered, order', best);
    } else {
      NoTrophies(visits, order);
      NoTrophies(reordered, order');
    }
  }

  lemma NostalgiaIgnoresOrder(visits: seq<Visit>, order: seq<Id>, reordered: seq<Visit>, order': seq<Id>)
    requires IsMapOrder(visits, order) && IsMapOrder(reordered, order') && LatestVisit(visits) == LatestVisit(reordered)
    requires forall k :: 0 <= k < |visits| ==> visits[k].restaurant.name != ""
    requires forall id ::
      RecordOf(visits, id) == RecordOf(reordered, id) && (IsVisited(visits, id) <==> IsVisited(reordered, id))
    ensures NostalgiaRun(visits, order) == NostalgiaRun(reordered, order')
  {
    if id :| IsVisited(visits, id) && RecordOf(visits, id).lastVisitedAt < LatestVisit(visits) {
      NamedTrophiesAreOptimal(visits, order, id);
      var best := NostalgiaRun(visits, order);
      assert IsMostDistant(reordered, best);
      var other :| IsVisited(visits, other) && Remembered(visits, other) == best;
      RecordIs(visits, other);
      NostalgiaIsBestIff(reordered, order', best);
    } else {
      NoTrophies(visits, order);
      NoTrophies(reordered, order');
    }
  }

  // ---- The optima, of the visits themselves ----

  function VisitsTo(visits: seq<Visit>, id: Id): set<int> {
    set k | 0 <= k < |visits| && visits[k].restaurant.id == id
  }

  lemma RecordCountsVisits(visits: seq<Visit>, id: Id)
    ensures RecordOf(visits, id).visitCount == |VisitsTo(visits, id)|
  {
    RecordIs(visits, id);
    CountIsTheSize(visits, AtRestaurant, id);
    assert VisitsTo(visits, id) == Positions(visits, AtRestaurant, id);
  }

  /**
   Two visits or more, and nowhere more; of the restaurants visited as often, none was visited later; and none of
   those last visited then has a lesser name.
   */
  ghost predicate IsVisitedMost(visits: seq<Visit>, id: Id, name: string, count: nat, last: Time) {
    && count == |VisitsTo(visits, id)| >= 2
    && (exists k :: k in VisitsTo(visits, id) && visits[k].restaurant.name == name)
    && (forall k :: k in VisitsTo(visits, id) ==> visits[k].visitedAt <= last)
    && (forall other :: |VisitsTo(visits, other)| <= count)
    && (forall k :: 0 <= k < |visits| && |VisitsTo(visits, visits[k].restaurant.id)| == count ==>
          && visits[k].visitedAt <= last
          && (visits[k].visitedAt == last ==> !Text.Less(visits[k].restaurant.name, name)))
  }

  lemma LoyalestIsVisitedMost(visits: seq<Visit>, best: Record)
    requires IsLoyalest(visits, best) && NamesAgree(visits)
    ensures exists id :: IsVisitedMost(visits, id, best.name, best.visitCount, best.lastVisitedAt)
  {
    var id :| IsVisited(visits, id) && RecordOf(visits, id) == best && best.visitCount >= 2;
    RecordIs(visits, id);
    RecordCountsVisits(visits, id);
    forall other ensures |VisitsTo(visits, other)| <= best.visitCount {
      RecordIs(visits, other);
      RecordCountsVisits(visits, other);
    }
    forall k | 0 <= k < |visits| && |VisitsTo(visits, visits[k].restaurant.id)| == best.visitCount
      ensures visits[k].visitedAt <= best.lastVisitedAt
      ensures visits[k].visitedAt == best.lastVisitedAt ==> !Text.Less(visits[k].restaurant.name, best.name)
    {
      VisitIsOfItsRecord(visits, k);
      RecordCountsVisits(visits, visits[k].restaurant.id);
      Text.LessIsATotalOrder(visits[k].restaurant.name, best.name);
    }
    assert exists k :: k in VisitsTo(visits, id) && visits[k].restaurant.name == best.name;
    assert IsVisitedMost(visits, id, best.name, best.visitCount, best.lastVisitedAt);
  }

  lemma VisitIsOfItsRecord(visits: seq<Visit>, k: nat)
    requires NamesAgree(visits) && k < |visits|
    ensures var r := RecordOf(visits, visits[k].restaurant.id);
            && IsVisited(visits, visits[k].restaurant.id)
            && r.name == visits[k].restaurant.name && visits[k].visitedAt <= r.lastVisitedAt
  {
    RecordIs(visits, visits[k].restaurant.id);
  }

  /** Some visit is at that date or later. */
  predicate VisitedSince(visits: seq<Visit>, id: Id, at: Time) {
    exists k :: 0 <= k < |visits| && visits[k].restaurant.id == id && visits[k].visitedAt >= at
  }

  /** Every visit is before the latest of all. */
  predicate NotLatest(visits: seq<Visit>, id: Id) {
    forall k :: 0 <= k < |visits| && visits[k].restaurant.id == id ==>
      exists j :: 0 <= j < |visits| && visits[j].visitedAt > visits[k].visitedAt
  }

  predicate LeftBy(visits: seq<Visit>, id: Id, at: Time) {
    forall k :: 0 <= k < |visits| && visits[k].restaurant.id == id ==> visits[k].visitedAt <= at
  }

  /**
   Last visited then, before the latest visit of all; no other restaurant not visited latest was left longer ago;
   and none left at the same time has a lesser name.
   */
  ghost predicate IsLeftLongest(visits: seq<Visit>, id: Id, m: Memory) {
    && IsVisited(visits, id) && NotLatest(visits, id)
    && (exists k :: 0 <= k < |visits| && visits[k].restaurant.id == id && visits[k].visitedAt == m.lastVisitedAt)
    && (exists k :: 0 <= k < |visits| && visits[k].restaurant.id == id && visits[k].restaurant.name == m.name)
    && LeftBy(visits, id, m.lastVisitedAt)
    && (forall other :: IsVisited(visits, other) && NotLatest(visits, other) ==>
          VisitedSince(visits, other, m.lastVisitedAt))
    && (forall k :: 0 <= k < |visits| && NotLatest(visits, visits[k].restaurant.id)
                    && LeftBy(visits, visits[k].restaurant.id, m.lastVisitedAt) ==>
          !Text.Less(visits[k].restaurant.name, m.name))
  }

  lemma RecordDatesLatest(visits: seq<Visit>, id: Id)
    requires forall k :: 0 <= k < |visits| ==> visits[k].visitedAt >= ZERO_TIME
    requires IsVisited(visits, id)
    ensures DatedBy(visits, id, RecordOf(visits, id).lastVisitedAt)
    ensures NotLatest(visits, id) <==> RecordOf(visits, id).lastVisitedAt < LatestVisit(visits)
  {
    RecordIs(visits, id);
    LatestVisitIs(visits);
    var k :| 0 <= k < |visits| && visits[k].restaurant.id == id;
    assert visits[k].visitedAt <= RecordOf(visits, id).lastVisitedAt;
    var last := RecordOf(visits, id).lastVisitedAt;
    assert DatedBy(visits, id, last);
    var n :| 0 <= n < |visits| && visits[n].restaurant.id == id && visits[n].visitedAt == last;
    if last < LatestVisit(visits) {
      var j :| 0 <= j < |visits| && visits[j].visitedAt == LatestVisit(visits);
      assert forall k :: 0 <= k < |visits| && visits[k].restaurant.id == id ==>
        visits[j].visitedAt > visits[k].visitedAt;
    }
    if NotLatest(visits, id) {
      var j :| 0 <= j < |visits| && visits[j].visitedAt > visits[n].visitedAt;
    }
  }

  lemma NoLesserName(visits: seq<Visit>, k: nat, best: Memory)
    requires forall k :: 0 <= k < |visits| ==> visits[k].visitedAt >= ZERO_TIME
    requires IsMostDistant(visits, best) && NamesAgree(visits) && k < |visits|
    requires NotLatest(visits, visits[k].restaurant.id)
    requires LeftBy(visits, visits[k].restaurant.id, best.lastVisitedAt)
    ensures !Text.Less(visits[k].restaurant.name, best.name)
  {
    var id := visits[k].restaurant.id;
    VisitIsOfItsRecord(visits, k);
    RecordDatesLatest(visits, id);
    Text.LessIsATotalOrder(visits[k].restaurant.name, best.name);
    assert Remembered(visits, id) == best || MoreDistant(best, Remembered(visits, id));
  }

  lemma OtherVisitedSince(visits: seq<Visit>, other: Id, best: Memory)
    requires forall k :: 0 <= k < |visits| ==> visits[k].visitedAt >= ZERO_TIME
    requires IsMostDistant(visits, best) && IsVisited(visits, other) && NotLatest(visits, other)
    ensures VisitedSince(visits, other, best.lastVisitedAt)
  {
    RecordDatesLatest(visits, other);
    assert Remembered(visits, other) == best || MoreDistant(best, Remembered(visits, other));
    var k :| 0 <= k < |visits| && visits[k].restaurant.id == other
          && visits[k].visitedAt == RecordOf(visits, other).lastVisitedAt;
    assert visits[k].visitedAt >= best.lastVisitedAt;
  }

  lemma MostDistantIsLeftLongest(visits: seq<Visit>, best: Memory)
    requires forall k :: 0 <= k < |visits| ==> visits[k].visitedAt >= ZERO_TIME
    requires IsMostDistant(visits, best) && NamesAgree(visits)
    ensures exists id :: IsLeftLongest(visits, id, best)
  {
    var id :| IsVisited(visits, id) && Remembered(visits, id) == best && best.lastVisitedAt < LatestVisit(visits);
    RecordIs(visits, id);
    RecordDatesLatest(visits, id);
    forall other | IsVisited(visits, other) && NotLatest(visits, other)
      ensures VisitedSince(visits, other, best.lastVisitedAt)
    {
      OtherVisitedSince(visits, other, best);
    }
    forall k | 0 <= k < |visits| && NotLatest(visits, visits[k].restaurant.id)
               && LeftBy(visits, visits[k].restaurant.id, best.lastVisitedAt)
      ensures !Text.Less(visits[k].restaurant.name, best.name)
    {
      NoLesserName(visits, k, best);
    }
    assert IsLeftLongest(visits, id, best);
  }

  /** Without a restaurant visited twice, or with only one last-visit date, there is no such trophy. */
  lemma NoTrophies(visits: seq<Visit>, order: seq<Id>)
    requires IsMapOrder(visits, order)
    ensures (forall id :: IsVisited(visits, id) ==> RecordOf(visits, id).visitCount < 2) ==>
      LoyalRun(visits, order) == NO_RECORD
    ensures (forall id :: IsVisited(visits, id) ==> RecordOf(visits, id).lastVisitedAt >= LatestVisit(visits)) ==>
      NostalgiaRun(visits, order) == NO_MEMORY
  {
    if Loyals(visits, order) != [] {
      var r := Loyals(visits, order)[0];
      LoyalsAre(visits, order, r);
      var i :| 0 <= i < |order| && RecordOf(visits, order[i]) == r;
      assert order[i] in order;
    }
    if Memories(visits, order) != [] {
      var m := Memories(visits, order)[0];
      MemoriesAre(visits, order, m);
      var i :| 0 <= i < |order| && Remembered(visits, order[i]) == m;
      assert order[i] in order;
    }
  }
}
