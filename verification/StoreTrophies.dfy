/** The trophies of a memory store: over its visits they depend on no order. */
module StoreTrophies {
  import opened Ledger
  import opened StoreSpec
  import opened StoreInvariants
  import opened StoreGuarantees
  import opened Records

  /** Copies of one restaurant agree on its name, since they agree with the restaurant. */
  lemma NamesAgreeInEveryStore(s: State)
    requires Inv(s)
    ensures NamesAgree(s.visits)
  {
    forall i, j | 0 <= i < |s.visits| && 0 <= j < |s.visits| && s.visits[i].restaurant.id == s.visits[j].restaurant.id
      ensures s.visits[i].restaurant.name == s.visits[j].restaurant.name
    {
      assert HasFacts(s.restaurants, s.visits[i].restaurant) && HasFacts(s.restaurants, s.visits[j].restaurant);
      var k :| 0 <= k < |s.restaurants| && SameFacts(s.restaurants[k], s.visits[i].restaurant);
      var n :| 0 <= n < |s.restaurants| && SameFacts(s.restaurants[n], s.visits[j].restaurant);
      assert k == n;
    }
  }

  lemma NamedRestaurantsNameVisits(s: State, k: nat)
    requires Inv(s) && AllNamed(s.restaurants) && k < |s.visits|
    ensures s.visits[k].restaurant.name != ""
  {
    assert HasFacts(s.restaurants, s.visits[k].restaurant);
    var i :| 0 <= i < |s.restaurants| && SameFacts(s.restaurants[i], s.visits[k].restaurant);
    assert s.restaurants[i].name != "";
  }

  /** No dine of the run adds a nameless restaurant. */
  ghost predicate NeverNameless(s: State, ops: seq<Op>)
    requires Inv(s) && IsRun(s, ops)
    decreases |ops|
  {
    ops == []
    || (!(ops[0].Create? && AddsNameless(s, ops[0].dine, ops[0].cancelled))
        && (StepKeepsInv(s, ops[0]); NeverNameless(Step(s, ops[0]), ops[1..])))
  }

  lemma {:induction false} RunKeepsNames(s: State, ops: seq<Op>)
    requires Inv(s) && IsRun(s, ops) && AllNamed(s.restaurants) && NeverNameless(s, ops)
    ensures AllNamed(After(s, ops).restaurants)
    decreases |ops|
  {
    if ops != [] {
      StepKeepsInv(s, ops[0]);
      StepKeepsNamesIff(s, ops[0]);
      RunKeepsNames(Step(s, ops[0]), ops[1..]);
    }
  }

  /**
   After any run that adds no nameless restaurant, the trophies are the same in whatever order the visits are
   listed and the map is ranged over.
   */
  lemma TrophiesOfARunIgnoreOrder(
    s: State, ops: seq<Op>, order: seq<Id>, reordered: seq<Visit>, order': seq<Id>)
    requires Inv(s) && IsRun(s, ops) && AllNamed(s.restaurants) && NeverNameless(s, ops)
    requires multiset(After(s, ops).visits) == multiset(reordered)
    requires IsMapOrder(After(s, ops).visits, order) && IsMapOrder(reordered, order')
    ensures SplitRun(After(s, ops).visits) == SplitRun(reordered)
    ensures LoyalRun(After(s, ops).visits, order) == LoyalRun(reordered, order')
    ensures NostalgiaRun(After(s, ops).visits, order) == NostalgiaRun(reordered, order')
  {
    var after := After(s, ops);
    RunKeepsNames(s, ops);
    NamesAgreeInEveryStore(after);
    forall k | 0 <= k < |after.visits| ensures after.visits[k].restaurant.name != "" {
      NamedRestaurantsNameVisits(after, k);
    }
    TrophiesIgnoreOrder(after.visits, order, reordered, order');
    if Splits(after.visits) != [] {
      BiggestSplitIgnoresOrder(after.visits, reordered);
    } else {
      NoSplitsInAnyOrder(after.visits, reordered);
    }
  }
}
