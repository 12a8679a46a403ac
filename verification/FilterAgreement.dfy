/**
 Cleaned text goes in, so cleaned text stays in; hence over every run the compiled filter of the Postgres
 store and the memory store's predicate select the same visits.
 */
module FilterAgreement {
  import opened Wrappers
  import opened Ledger
  import opened StoreSpec
  import opened StoreInvariants
  import opened FilterSql
  import Calendar
  import Text

  // ---- A property of text that operations carry along ----

  /** The two columns a text filter reads. */
  predicate Fine(r: Restaurant, good: Option<string> -> bool) {
    good(r.category) && good(r.city)
  }

  ghost predicate AllFine(rs: seq<Restaurant>, good: Option<string> -> bool) {
    forall i :: 0 <= i < |rs| ==> Fine(rs[i], good)
  }

  predicate FineInput(op: Op, good: Option<string> -> bool) {
    match op
    case Create(dine, _, _) => good(dine.details.category) && good(dine.details.city)
    case Save(details, _, _, _) => good(details.category) && good(details.city)
    case Reprofile(_, profile, _) => good(profile.category) && good(profile.city)
    case Refresh(_, _, category, _) => good(category)
    case _ => true
  }

  lemma ResolveStaysFine(s: State, d: Details, stamp: Stamp, good: Option<string> -> bool)
    requires AllFine(s.restaurants, good) && good(d.category) && good(d.city) && good(None)
    requires Resolve(s, d, stamp).Ok?
    ensures AllFine(Resolve(s, d, stamp).value.0.restaurants, good)
  {
  }

  lemma RestaurantEditStaysFine(s: State, op: Op, good: Option<string> -> bool)
    requires AllFine(s.restaurants, good) && FineInput(op, good) && PhotosDistinct(s.visits)
    requires op.Reprofile? || op.Refresh? || op.Toggle?
    ensures AllFine(Step(s, op).restaurants, good)
  {
  }

  lemma StepStaysFine(s: State, op: Op, good: Option<string> -> bool)
    requires Inv(s) && Allowed(s, op) && AllFine(s.restaurants, good) && FineInput(op, good) && good(None)
    ensures AllFine(Step(s, op).restaurants, good)
  {
    if op.Reprofile? || op.Refresh? || op.Toggle? {
      RestaurantEditStaysFine(s, op, good);
    } else if op.RemoveRestaurant? && RestaurantIndex(s.restaurants, op.id) < |s.restaurants| {
      WithoutShifts(s.restaurants, RestaurantIndex(s.restaurants, op.id));
    } else if op.Create? && Resolve(s, op.dine.details, op.stamp).Ok? {
      ResolveStaysFine(s, op.dine.details, op.stamp, good);
    } else if op.Save? && Resolve(s, op.details, op.stamp).Ok? {
      ResolveStaysFine(s, op.details, op.stamp, good);
    }
  }

  ghost predicate FineInputs(ops: seq<Op>, good: Option<string> -> bool) {
    forall i :: 0 <= i < |ops| ==> FineInput(ops[i], good)
  }

  lemma {:induction false} RunStaysFine(s: State, ops: seq<Op>, good: Option<string> -> bool)
    requires Inv(s) && IsRun(s, ops) && AllFine(s.restaurants, good) && FineInputs(ops, good) && good(None)
    ensures AllFine(After(s, ops).restaurants, good)
    decreases |ops|
  {
    if ops != [] {
      StepKeepsInv(s, ops[0]);
      StepStaysFine(s, ops[0], good);
      RunStaysFine(Step(s, ops[0]), ops[1..], good);
    }
  }

  lemma FineCopies(s: State, k: nat, good: Option<string> -> bool)
    requires Inv(s) && AllFine(s.restaurants, good) && k < |s.visits|
    ensures good(s.visits[k].restaurant.category) && good(s.visits[k].restaurant.city)
  {
    assert HasFacts(s.restaurants, s.visits[k].restaurant);
    var i :| 0 <= i < |s.restaurants| && SameFacts(s.restaurants[i], s.visits[k].restaurant);
    assert Fine(s.restaurants[i], good);
  }

  // ---- Trimmed text ----

  lemma CleanTrimsAlike(value: Option<string>)
    requires IsClean(value)
    ensures TrimsAlike(value)
  {
    if value.Some? {
      Text.TrimmedTrimsAgree(value.value);
    }
  }

  // ---- Inputs as they come, and cleaned ----

  function CleanText(value: Option<string>): (cleaned: Option<string>)
    ensures IsClean(cleaned)
  {
    if value.None? then None else CleanedTextIsClean(value.value); Clean(value.value)
  }

  function CleanMetadata(m: Metadata): Metadata {
    m.(phone := CleanText(m.phone), website := CleanText(m.website))
  }

  function CleanDetails(d: Details): Details {
    d.(name := Text.Trim(d.name), address := CleanText(d.address), city := CleanText(d.city),
       placeId := CleanText(d.placeId), metadata := CleanMetadata(d.metadata), category := CleanText(d.category))
  }

  function CleanDine(dine: Dine): Dine {
    dine.(details := CleanDetails(dine.details), notes := CleanText(dine.notes), newTag := CleanText(dine.newTag))
  }

  function CleanProfile(p: Profile): Profile {
    p.(name := Text.Trim(p.name), address := CleanText(p.address), city := CleanText(p.city),
       phone := CleanText(p.phone), website := CleanText(p.website), category := CleanText(p.category))
  }

  /** The operation with the texts the store works with. */
  function Cleaned(op: Op): (cleaned: Op)
    ensures FineInput(cleaned, IsClean)
  {
    match op
    case Create(dine, cancelled, stamp) => Create(CleanDine(dine), cancelled, stamp)
    case Edit(id, dine, cancelled, stamp) => Edit(id, CleanDine(dine), cancelled, stamp)
    case Reprofile(id, profile, stamp) => Reprofile(id, CleanProfile(profile), stamp)
    case Refresh(id, m, category, stamp) => Refresh(id, CleanMetadata(m), CleanText(category), stamp)
    case Save(details, suggester, note, stamp) => Save(CleanDetails(details), suggester, CleanText(note), stamp)
    case _ => op
  }

  function AllCleaned(ops: seq<Op>): (cleaned: seq<Op>)
    ensures |cleaned| == |ops| && forall i :: 0 <= i < |ops| ==> cleaned[i] == Cleaned(ops[i])
  {
    seq(|ops|, i requires 0 <= i < |ops| => Cleaned(ops[i]))
  }

  /**
   Whatever texts come in, over any run from a store with cleaned text every filter selects a visit's row in
   Postgres exactly when it matches the visit in memory: the operations clean what they store.
   */
  lemma FiltersAgreeInEveryStore(
    zone: Calendar.Zone, s: State, ops: seq<Op>, k: nat, row: VisitRow, tables: Tables, filter: VisitFilter)
    requires Calendar.SteadyNewYears(zone)
    requires Inv(s) && IsRun(s, AllCleaned(ops)) && AllFine(s.restaurants, IsClean)
    requires k < |After(s, AllCleaned(ops)).visits| && Stores(tables, row, After(s, AllCleaned(ops)).visits[k])
    ensures Selects(Compile(zone, filter), row, tables)
       <==> VisitMatches(zone, After(s, AllCleaned(ops)).visits[k], filter)
  {
    FiltersAgreeOnCleanText(zone, s, AllCleaned(ops), k, row, tables, filter);
  }

  /** The same of any operations whose cuisines and cities are clean. */
  lemma {:induction false} FiltersAgreeOnCleanText(
    zone: Calendar.Zone, s: State, ops: seq<Op>, k: nat, row: VisitRow, tables: Tables, filter: VisitFilter)
    requires Calendar.SteadyNewYears(zone)
    requires Inv(s) && IsRun(s, ops) && AllFine(s.restaurants, IsClean) && FineInputs(ops, IsClean)
    requires k < |After(s, ops).visits| && Stores(tables, row, After(s, ops).visits[k])
    ensures Selects(Compile(zone, filter), row, tables) <==> VisitMatches(zone, After(s, ops).visits[k], filter)
  {
    var visit := After(s, ops).visits[k];
    RunStaysFine(s, ops, IsClean);
    FineCopies(After(s, ops), k, IsClean);
    RowIsCleanToo(tables, row, visit);
    CompiledClauseIsTheFilter(zone, filter, row, tables, visit);
  }

  lemma RowIsCleanToo(tables: Tables, row: VisitRow, visit: Visit)
    requires Stores(tables, row, visit) && IsClean(visit.restaurant.category) && IsClean(visit.restaurant.city)
    ensures TrimsAlike(row.category) && TrimsAlike(row.city)
  {
    CleanTrimsAlike(visit.restaurant.category);
    CleanTrimsAlike(visit.restaurant.city);
  }
}
