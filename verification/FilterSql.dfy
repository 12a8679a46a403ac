/**
 The visit filter, twice: the direct predicate of the memory store, and the parameterised WHERE clause
 the Postgres store compiles it to, with SQL's NULLs and three truth values.
 */
module FilterSql {
  import opened Wrappers
  import opened Ledger
  import Text
  import Calendar

  function ValueOrEmpty(value: Option<string>): string {
    value.GetOr("")
  }

  // ---- The direct predicate ----

  predicate TextMatches(wanted: string, value: Option<string>) {
    Text.Trim(wanted) != "" ==> Text.EqualFold(Text.Trim(ValueOrEmpty(value)), Text.Trim(wanted))
  }

  predicate PickerMatches(filter: VisitFilter, picker: Option<Person>) {
    if filter.everybodyPicked then picker.None?
    else filter.pickerId.Some? ==> picker.Some? && picker.value.id == filter.pickerId.value
  }

  predicate RatedBy(visit: Visit, personId: Id) {
    exists i :: 0 <= i < |visit.ratings| && visit.ratings[i].person.id == personId
  }

  predicate Tagged(visit: Visit, tagId: Id) {
    exists i :: 0 <= i < |visit.tags| && visit.tags[i].id == tagId
  }

  predicate YearMatches(zone: Calendar.Zone, year: int, visitedAt: Time) {
    year == 0 || Calendar.YearOf(zone, visitedAt) == year
  }

  /** visitMatches */
  predicate VisitMatches(zone: Calendar.Zone, visit: Visit, filter: VisitFilter) {
    && TextMatches(filter.cuisine, visit.restaurant.category)
    && PickerMatches(filter, visit.picker)
    && (filter.raterId.Some? ==> RatedBy(visit, filter.raterId.value))
    && (filter.tagId.Some? ==> Tagged(visit, filter.tagId.value))
    && TextMatches(filter.city, visit.restaurant.city)
    && YearMatches(zone, filter.year, visit.visitedAt)
  }

  // ---- SQL ----

  datatype Value = Null | TextValue(text: string) | UuidValue(id: Id) | InstantValue(at: Time) | CountValue(n: int)

  datatype Truth = True | False | Unknown

  datatype Column = VisitPicker | VisitedAt | RestaurantCategory | RestaurantCity

  /** Param(n) is `$n`, numbered from 1. */
  datatype Expr = Col(column: Column) | Param(n: nat) | LowerOf(e: Expr) | BTrimOf(e: Expr)

  datatype Clause =
    | Equal(left: Expr, right: Expr)
    | IsNull(e: Expr)
    | AtOrAfter(left: Expr, right: Expr)
    | Before(left: Expr, right: Expr)
    | RatingExists(person: Expr)
    | TagExists(tag: Expr)

  /** A row of dining_visits joined with its restaurant; pickedBy of None is NULL. */
  datatype VisitRow = VisitRow(
    id: Id, visitedAt: Time, pickedBy: Option<Id>, category: Option<string>, city: Option<string>)

  /** visit_participant_ratings and visit_tags as (visit, person) and (visit, tag) pairs. */
  datatype Tables = Tables(ratings: set<(Id, Id)>, tags: set<(Id, Id)>)

  datatype Query = Query(conditions: seq<Clause>, args: seq<Value>)

  function Nullable(value: Option<string>): Value {
    if value.Some? then TextValue(value.value) else Null
  }

  function ColumnValue(column: Column, row: VisitRow): Value {
    match column
    case VisitPicker => if row.pickedBy.Some? then UuidValue(row.pickedBy.value) else Null
    case VisitedAt => InstantValue(row.visitedAt)
    case RestaurantCategory => Nullable(row.category)
    case RestaurantCity => Nullable(row.city)
  }

  /** An expression's value; a parameter outside the arguments, like a NULL, has none. */
  function Eval(e: Expr, row: VisitRow, args: seq<Value>): Value {
    match e
    case Col(column) => ColumnValue(column, row)
    case Param(n) => if 1 <= n <= |args| then args[n - 1] else Null
    case LowerOf(inner) =>
      (match Eval(inner, row, args) case TextValue(text) => TextValue(Text.Lower(text)) case _ => Null)
    case BTrimOf(inner) =>
      (match Eval(inner, row, args) case TextValue(text) => TextValue(Text.BTrim(text)) case _ => Null)
  }

  function ToTruth(b: bool): Truth {
    if b then True else False
  }

  /** Comparisons with a NULL are Unknown; IS NULL and EXISTS never are. */
  function Holds(c: Clause, row: VisitRow, tables: Tables, args: seq<Value>): Truth {
    match c
    case Equal(left, right) =>
      var l, r := Eval(left, row, args), Eval(right, row, args);
      if l.Null? || r.Null? then Unknown else ToTruth(l == r)
    case IsNull(e) => ToTruth(Eval(e, row, args).Null?)
    case AtOrAfter(left, right) =>
      var l, r := Eval(left, row, args), Eval(right, row, args);
      if l.InstantValue? && r.InstantValue? then ToTruth(l.at >= r.at) else Unknown
    case Before(left, right) =>
      var l, r := Eval(left, row, args), Eval(right, row, args);
      if l.InstantValue? && r.InstantValue? then ToTruth(l.at < r.at) else Unknown
    case RatingExists(person) =>
      var p := Eval(person, row, args);
      ToTruth(p.UuidValue? && (row.id, p.id) in tables.ratings)
    case TagExists(tag) =>
      var t := Eval(tag, row, args);
      ToTruth(t.UuidValue? && (row.id, t.id) in tables.tags)
  }

  function And(a: Truth, b: Truth): Truth {
    if a.False? || b.False? then False else if a.True? && b.True? then True else Unknown
  }

  /** The conditions joined with AND; no conditions means no WHERE clause, which keeps every row. */
  function Where(conditions: seq<Clause>, row: VisitRow, tables: Tables, args: seq<Value>): Truth {
    if conditions == [] then True
    else And(Where(conditions[..|conditions| - 1], row, tables, args),
             Holds(conditions[|conditions| - 1], row, tables, args))
  }

  /** A WHERE clause keeps the rows on which it is True. */
  predicate Selects(q: Query, row: VisitRow, tables: Tables) {
    Where(q.conditions, row, tables, q.args).True?
  }

  // ---- Compiling a filter ----

  function Added(q: Query, c: Clause, more: seq<Value>): Query {
    Query(q.conditions + [c], q.args + more)
  }

  /** The parameter for the argument pushed next. */
  function Next(q: Query): Expr {
    Param(|q.args| + 1)
  }

  function TextClause(column: Column, param: Expr): Clause {
    Equal(LowerOf(BTrimOf(Col(column))), LowerOf(param))
  }

  function WithText(q: Query, wanted: string, column: Column): Query {
    var text := Text.Trim(wanted);
    if text == "" then q else Added(q, TextClause(column, Next(q)), [TextValue(text)])
  }

  function WithPicker(q: Query, filter: VisitFilter): Query {
    if filter.everybodyPicked then Added(q, IsNull(Col(VisitPicker)), [])
    else if filter.pickerId.Some? then Added(q, Equal(Col(VisitPicker), Next(q)), [UuidValue(filter.pickerId.value)])
    else q
  }

  function WithRater(q: Query, raterId: Option<Id>): Query {
    if raterId.None? then q else Added(q, RatingExists(Next(q)), [UuidValue(raterId.value)])
  }

  function WithTag(q: Query, tagId: Option<Id>): Query {
    if tagId.None? then q else Added(q, TagExists(Next(q)), [UuidValue(tagId.value)])
  }

  function WithYear(q: Query, zone: Calendar.Zone, year: int): Query {
    if year == 0 then q
    else
      var bounds := Calendar.YearBounds(zone, year);
      var from := Added(q, AtOrAfter(Col(VisitedAt), Next(q)), [InstantValue(bounds.0)]);
      Added(from, Before(Col(VisitedAt), Next(from)), [InstantValue(bounds.1)])
  }

  function Compile(zone: Calendar.Zone, filter: VisitFilter): Query {
    var q := WithText(Query([], []), filter.cuisine, RestaurantCategory);
    var q := WithTag(WithRater(WithPicker(q, filter), filter.raterId), filter.tagId);
    WithYear(WithText(q, filter.city, RestaurantCity), zone, filter.year)
  }

  /** visitFilterSQL: conditions and arguments grow side by side, and each condition names the argument just pushed. */
  method VisitFilterSql(zone: Calendar.Zone, filter: VisitFilter) returns (conditions: seq<Clause>, args: seq<Value>)
    ensures Query(conditions, args) == Compile(zone, filter)
  {
    conditions, args := [], [];
    conditions, args := PushText(conditions, args, filter.cuisine, RestaurantCategory);
    ghost var q1 := Query(conditions, args);
    if filter.everybodyPicked {
      conditions := conditions + [IsNull(Col(VisitPicker))];
    } else if filter.pickerId.Some? {
      args := args + [UuidValue(filter.pickerId.value)];
      conditions := conditions + [Equal(Col(VisitPicker), Param(|args|))];
    }
    ghost var q2 := Query(conditions, args);
    assert q2 == WithPicker(q1, filter);
    if filter.raterId.Some? {
      args := args + [UuidValue(filter.raterId.value)];
      conditions := conditions + [RatingExists(Param(|args|))];
    }
    if filter.tagId.Some? {
      args := args + [UuidValue(filter.tagId.value)];
      conditions := conditions + [TagExists(Param(|args|))];
    }
    ghost var q4 := Query(conditions, args);
    assert q4 == WithTag(WithRater(q2, filter.raterId), filter.tagId);
    conditions, args := PushText(conditions, args, filter.city, RestaurantCity);
    ghost var q5 := Query(conditions, args);
    conditions, args := PushYear(conditions, args, zone, filter.year);
  }

  method PushYear(conditions: seq<Clause>, args: seq<Value>, zone: Calendar.Zone, year: int)
    returns (conditions': seq<Clause>, args': seq<Value>)
    ensures Query(conditions', args') == WithYear(Query(conditions, args), zone, year)
  {
    conditions', args' := conditions, args;
    if year != 0 {
      var bounds := Calendar.YearBounds(zone, year);
      args' := args' + [InstantValue(bounds.0)];
      conditions' := conditions' + [AtOrAfter(Col(VisitedAt), Param(|args'|))];
      args' := args' + [InstantValue(bounds.1)];
      conditions' := conditions' + [Before(Col(VisitedAt), Param(|args'|))];
    }
  }

  method PushText(conditions: seq<Clause>, args: seq<Value>, wanted: string, column: Column)
    returns (conditions': seq<Clause>, args': seq<Value>)
    ensures Query(conditions', args') == WithText(Query(conditions, args), wanted, column)
  {
    conditions', args' := conditions, args;
    var text := Text.Trim(wanted);
    if text != "" {
      args' := args' + [TextValue(text)];
      conditions' := conditions' + [TextClause(column, Param(|args'|))];
    }
  }

  // ---- Parameter numbering ----

  predicate ExprNumbered(e: Expr, n: nat) {
    match e
    case Col(_) => true
    case Param(k) => 1 <= k <= n
    case LowerOf(inner) => ExprNumbered(inner, n)
    case BTrimOf(inner) => ExprNumbered(inner, n)
  }

  predicate Numbered(c: Clause, n: nat) {
    match c
    case Equal(left, right) => ExprNumbered(left, n) && ExprNumbered(right, n)
    case IsNull(e) => ExprNumbered(e, n)
    case AtOrAfter(left, right) => ExprNumbered(left, n) && ExprNumbered(right, n)
    case Before(left, right) => ExprNumbered(left, n) && ExprNumbered(right, n)
    case RatingExists(person) => ExprNumbered(person, n)
    case TagExists(tag) => ExprNumbered(tag, n)
  }

  /** Every parameter in the clause names one of the arguments. */
  predicate WellNumbered(q: Query) {
    forall i :: 0 <= i < |q.conditions| ==> Numbered(q.conditions[i], |q.args|)
  }

  lemma {:induction false} ExprStaysNumbered(e: Expr, n: nat, m: nat)
    requires ExprNumbered(e, n) && n <= m
    ensures ExprNumbered(e, m)
  {
    match e
    case Col(_) =>
    case Param(_) =>
    case LowerOf(inner) => ExprStaysNumbered(inner, n, m);
    case BTrimOf(inner) => ExprStaysNumbered(inner, n, m);
  }

  lemma StaysNumbered(c: Clause, n: nat, m: nat)
    requires Numbered(c, n) && n <= m
    ensures Numbered(c, m)
  {
    match c
    case Equal(left, right) => ExprStaysNumbered(left, n, m); ExprStaysNumbered(right, n, m);
    case IsNull(e) => ExprStaysNumbered(e, n, m);
    case AtOrAfter(left, right) => ExprStaysNumbered(left, n, m); ExprStaysNumbered(right, n, m);
    case Before(left, right) => ExprStaysNumbered(left, n, m); ExprStaysNumbered(right, n, m);
    case RatingExists(person) => ExprStaysNumbered(person, n, m);
    case TagExists(tag) => ExprStaysNumbered(tag, n, m);
  }

  lemma {:induction false} EvalIgnoresLaterArgs(e: Expr, row: VisitRow, args: seq<Value>, more: seq<Value>)
    requires ExprNumbered(e, |args|)
    ensures Eval(e, row, args + more) == Eval(e, row, args)
  {
    match e
    case Col(_) =>
    case Param(n) =>
    case LowerOf(inner) => EvalIgnoresLaterArgs(inner, row, args, more);
    case BTrimOf(inner) => EvalIgnoresLaterArgs(inner, row, args, more);
  }

  lemma HoldsIgnoresLaterArgs(c: Clause, row: VisitRow, tables: Tables, args: seq<Value>, more: seq<Value>)
    requires Numbered(c, |args|)
    ensures Holds(c, row, tables, args + more) == Holds(c, row, tables, args)
  {
    match c
    case Equal(left, right) =>
      EvalIgnoresLaterArgs(left, row, args, more);
      EvalIgnoresLaterArgs(right, row, args, more);
    case IsNull(e) => EvalIgnoresLaterArgs(e, row, args, more);
    case AtOrAfter(left, right) =>
      EvalIgnoresLaterArgs(left, row, args, more);
      EvalIgnoresLaterArgs(right, row, args, more);
    case Before(left, right) =>
      EvalIgnoresLaterArgs(left, row, args, more);
      EvalIgnoresLaterArgs(right, row, args, more);
    case RatingExists(person) => EvalIgnoresLaterArgs(person, row, args, more);
    case TagExists(tag) => EvalIgnoresLaterArgs(tag, row, args, more);
  }

  /** Arguments pushed after a clause was compiled, such as OFFSET and LIMIT, leave its meaning alone. */
  lemma {:induction false} WhereIgnoresLaterArgs(
    conditions: seq<Clause>, row: VisitRow, tables: Tables, args: seq<Value>, more: seq<Value>)
    requires WellNumbered(Query(conditions, args))
    ensures Where(conditions, row, tables, args + more) == Where(conditions, row, tables, args)
  {
    if conditions != [] {
      var n := |conditions| - 1;
      WhereIgnoresLaterArgs(conditions[..n], row, tables, args, more);
      HoldsIgnoresLaterArgs(conditions[n], row, tables, args, more);
    }
  }

  /** One more condition, with the arguments it brought, narrows what the clause selects by exactly that condition. */
  lemma AddedCondition(q: Query, c: Clause, more: seq<Value>, row: VisitRow, tables: Tables)
    requires WellNumbered(q) && Numbered(c, |q.args| + |more|)
    ensures WellNumbered(Added(q, c, more))
    ensures Selects(Added(q, c, more), row, tables)
       <==> Selects(q, row, tables) && Holds(c, row, tables, q.args + more).True?
  {
    var q' := Added(q, c, more);
    forall i | 0 <= i < |q'.conditions| ensures Numbered(q'.conditions[i], |q'.args|) {
      if i < |q.conditions| {
        StaysNumbered(q.conditions[i], |q.args|, |q'.args|);
      }
    }
    assert q'.conditions[..|q.conditions|] == q.conditions;
    WhereIgnoresLaterArgs(q.conditions, row, tables, q.args, more);
  }

  // ---- The two agree ----

  /** The rows of the database that hold a visit of the ledger. */
  ghost predicate Stores(tables: Tables, row: VisitRow, visit: Visit) {
    && row.id == visit.id
    && row.visitedAt == visit.visitedAt
    && row.pickedBy == (if visit.picker.Some? then Some(visit.picker.value.id) else None)
    && row.category == visit.restaurant.category
    && row.city == visit.restaurant.city
    && (forall p: Id :: (visit.id, p) in tables.ratings <==> RatedBy(visit, p))
    && (forall t: Id :: (visit.id, t) in tables.tags <==> Tagged(visit, t))
  }

  /** btrim and TrimSpace leave the same text, or TrimSpace leaves nothing a filter could name. */
  predicate TrimsAlike(value: Option<string>) {
    value.Some? ==> Text.BTrim(value.value) == Text.Trim(value.value) || Text.Trim(value.value) == ""
  }

  lemma LowerOfTrimmed(value: string, wanted: string)
    requires Text.Trim(wanted) == wanted != ""
    requires Text.Trim(value) == "" && Text.BTrim(value) != ""
    ensures Text.Lower(Text.BTrim(value)) != Text.Lower(wanted)
  {
    Text.TrimAfterBTrim(value);
    Text.WhiteSpaceTrimsAway(Text.BTrim(value));
    assert Text.IsSpace(Text.LowerChar(Text.BTrim(value)[0]));
    assert !Text.IsSpace(Text.LowerChar(wanted[0]));
  }

  lemma TextClauseMeans(value: Option<string>, wanted: string)
    requires TrimsAlike(value) && Text.Trim(wanted) != ""
    ensures TextMatches(wanted, value)
       <==> value.Some? && Text.Lower(Text.BTrim(value.value)) == Text.Lower(Text.Trim(wanted))
  {
    var text := Text.Trim(wanted);
    Text.TrimIdempotent(wanted);
    Text.EqualFoldIsEqualLower(Text.Trim(ValueOrEmpty(value)), text);
    if value.Some? && Text.BTrim(value.value) != Text.Trim(value.value) {
      LowerOfTrimmed(value.value, text);
    }
  }

  lemma TextClauseHolds(column: Column, n: nat, row: VisitRow, tables: Tables, args: seq<Value>, text: string)
    requires 1 <= n <= |args| && args[n - 1] == TextValue(text)
    ensures Holds(TextClause(column, Param(n)), row, tables, args).True?
       <==> var v := ColumnValue(column, row); v.TextValue? && Text.Lower(Text.BTrim(v.text)) == Text.Lower(text)
  {
    assert Eval(LowerOf(Param(n)), row, args) == TextValue(Text.Lower(text));
    var v := ColumnValue(column, row);
    assert Eval(BTrimOf(Col(column)), row, args) == if v.TextValue? then TextValue(Text.BTrim(v.text)) else Null;
  }

  lemma WithTextSelects(q: Query, wanted: string, column: Column, row: VisitRow, tables: Tables)
    requires WellNumbered(q) && Text.Trim(wanted) != ""
    ensures WellNumbered(WithText(q, wanted, column))
    ensures Selects(WithText(q, wanted, column), row, tables)
       <==> && Selects(q, row, tables)
            && ColumnValue(column, row).TextValue?
            && Text.Lower(Text.BTrim(ColumnValue(column, row).text)) == Text.Lower(Text.Trim(wanted))
  {
    var text := Text.Trim(wanted);
    AddedCondition(q, TextClause(column, Next(q)), [TextValue(text)], row, tables);
    TextClauseHolds(column, |q.args| + 1, row, tables, q.args + [TextValue(text)], text);
  }

  lemma WithTextMeans(q: Query, wanted: string, column: Column, row: VisitRow, tables: Tables, value: Option<string>)
    requires WellNumbered(q) && TrimsAlike(value)
    requires ColumnValue(column, row) == Nullable(value)
    ensures WellNumbered(WithText(q, wanted, column))
    ensures Selects(WithText(q, wanted, column), row, tables) <==> Selects(q, row, tables) && TextMatches(wanted, value)
  {
    if Text.Trim(wanted) != "" {
      WithTextSelects(q, wanted, column, row, tables);
      TextClauseMeans(value, wanted);
    }
  }

  lemma WithPickerMeans(q: Query, filter: VisitFilter, row: VisitRow, tables: Tables, visit: Visit)
    requires WellNumbered(q) && Stores(tables, row, visit)
    ensures WellNumbered(WithPicker(q, filter))
    ensures Selects(WithPicker(q, filter), row, tables)
      <==> Selects(q, row, tables) && PickerMatches(filter, visit.picker)
  {
    if filter.everybodyPicked {
      AddedCondition(q, IsNull(Col(VisitPicker)), [], row, tables);
    } else if filter.pickerId.Some? {
      AddedCondition(q, Equal(Col(VisitPicker), Next(q)), [UuidValue(filter.pickerId.value)], row, tables);
    }
  }

  lemma WithRaterMeans(q: Query, raterId: Option<Id>, row: VisitRow, tables: Tables, visit: Visit)
    requires WellNumbered(q) && Stores(tables, row, visit)
    ensures WellNumbered(WithRater(q, raterId))
    ensures Selects(WithRater(q, raterId), row, tables)
       <==> Selects(q, row, tables) && (raterId.Some? ==> RatedBy(visit, raterId.value))
  {
    if raterId.Some? {
      AddedCondition(q, RatingExists(Next(q)), [UuidValue(raterId.value)], row, tables);
    }
  }

  lemma WithTagMeans(q: Query, tagId: Option<Id>, row: VisitRow, tables: Tables, visit: Visit)
    requires WellNumbered(q) && Stores(tables, row, visit)
    ensures WellNumbered(WithTag(q, tagId))
    ensures Selects(WithTag(q, tagId), row, tables)
       <==> Selects(q, row, tables) && (tagId.Some? ==> Tagged(visit, tagId.value))
  {
    if tagId.Some? {
      AddedCondition(q, TagExists(Next(q)), [UuidValue(tagId.value)], row, tables);
    }
  }

  lemma WithYearMeans(q: Query, zone: Calendar.Zone, year: int, row: VisitRow, tables: Tables)
    requires WellNumbered(q) && Calendar.SteadyNewYears(zone)
    ensures WellNumbered(WithYear(q, zone, year))
    ensures Selects(WithYear(q, zone, year), row, tables)
       <==> Selects(q, row, tables) && YearMatches(zone, year, row.visitedAt)
  {
    if year != 0 {
      var bounds := Calendar.YearBounds(zone, year);
      var from := AtOrAfter(Col(VisitedAt), Next(q));
      AddedCondition(q, from, [InstantValue(bounds.0)], row, tables);
      var started := Added(q, from, [InstantValue(bounds.0)]);
      AddedCondition(started, Before(Col(VisitedAt), Next(started)), [InstantValue(bounds.1)], row, tables);
      Calendar.YearBoundsHoldTheYear(zone, year, row.visitedAt);
    }
  }

  /** The compiled clause selects a row exactly when the direct predicate matches the visit it stores. */
  lemma CompiledClauseIsTheFilter(zone: Calendar.Zone, filter: VisitFilter, row: VisitRow, tables: Tables, visit: Visit)
    requires Calendar.SteadyNewYears(zone)
    requires Stores(tables, row, visit)
    requires TrimsAlike(row.category) && TrimsAlike(row.city)
    ensures WellNumbered(Compile(zone, filter))
    ensures Selects(Compile(zone, filter), row, tables) <==> VisitMatches(zone, visit, filter)
  {
    var q0 := Query([], []);
    var q1 := WithText(q0, filter.cuisine, RestaurantCategory);
    WithTextMeans(q0, filter.cuisine, RestaurantCategory, row, tables, row.category);
    var q2 := WithPicker(q1, filter);
    WithPickerMeans(q1, filter, row, tables, visit);
    var q3 := WithRater(q2, filter.raterId);
    WithRaterMeans(q2, filter.raterId, row, tables, visit);
    var q4 := WithTag(q3, filter.tagId);
    WithTagMeans(q3, filter.tagId, row, tables, visit);
    var q5 := WithText(q4, filter.city, RestaurantCity);
    WithTextMeans(q4, filter.city, RestaurantCity, row, tables, row.city);
    WithYearMeans(q5, zone, filter.year, row, tables);
  }

  const NO_FILTER := VisitFilter("", false, None, None, None, "", 0)

  lemma OneTextFilter(zone: Calendar.Zone, wanted: string)
    ensures Compile(zone, NO_FILTER.(cuisine := wanted)) == WithText(Query([], []), wanted, RestaurantCategory)
    ensures Compile(zone, NO_FILTER.(city := wanted)) == WithText(Query([], []), wanted, RestaurantCity)
  {
    assert Text.Trim("") == "";
  }

  lemma OneTextMatches(zone: Calendar.Zone, visit: Visit, wanted: string)
    ensures VisitMatches(zone, visit, NO_FILTER.(cuisine := wanted)) <==> TextMatches(wanted, visit.restaurant.category)
    ensures VisitMatches(zone, visit, NO_FILTER.(city := wanted)) <==> TextMatches(wanted, visit.restaurant.city)
  {
    assert Text.Trim("") == "";
  }

  /** Equal without regard to case, and to white space at the ends. */
  predicate SameText(a: string, b: string) {
    Text.Lower(Text.Trim(a)) == Text.Lower(Text.Trim(b))
  }

  predicate IsBlank(text: string) {
    forall i :: 0 <= i < |text| ==> Text.IsSpace(text[i])
  }

  lemma TextMatchesIff(wanted: string, value: Option<string>)
    ensures TextMatches(wanted, value) <==> IsBlank(wanted) || SameText(wanted, value.GetOr(""))
  {
    Text.WhiteSpaceTrimsAway(wanted);
    Text.EqualFoldIsEqualLower(Text.Trim(value.GetOr("")), Text.Trim(wanted));
  }

  /**
   What each filter asks for, and that all of them must hold: a cuisine, somebody's pick or nobody's, a rater, a
   tag, a city, a year. Nobody's pick overrides somebody's; blank texts and the year 0 ask for nothing.
   */
  lemma VisitMatchesIff(zone: Calendar.Zone, visit: Visit, filter: VisitFilter)
    ensures VisitMatches(zone, visit, filter)
       <==> && (IsBlank(filter.cuisine) || SameText(filter.cuisine, visit.restaurant.category.GetOr("")))
            && (filter.everybodyPicked ==> visit.picker == None)
            && (!filter.everybodyPicked && filter.pickerId.Some? ==>
                  visit.picker.Some? && Some(visit.picker.value.id) == filter.pickerId)
            && (filter.raterId.Some? ==> exists r :: r in visit.ratings && r.person.id == filter.raterId.value)
            && (filter.tagId.Some? ==> exists t :: t in visit.tags && t.id == filter.tagId.value)
            && (IsBlank(filter.city) || SameText(filter.city, visit.restaurant.city.GetOr("")))
            && (filter.year != 0 ==> Calendar.YearOf(zone, visit.visitedAt) == filter.year)
  {
    TextMatchesIff(filter.cuisine, visit.restaurant.category);
    TextMatchesIff(filter.city, visit.restaurant.city);
    if filter.raterId.Some? {
      RatedByIff(visit, filter.raterId.value);
    }
    if filter.tagId.Some? {
      TaggedIff(visit, filter.tagId.value);
    }
  }

  lemma RatedByIff(visit: Visit, personId: Id)
    ensures RatedBy(visit, personId) <==> exists r :: r in visit.ratings && r.person.id == personId
  {
    if r :| r in visit.ratings && r.person.id == personId {
      var i :| 0 <= i < |visit.ratings| && visit.ratings[i] == r;
    }
  }

  lemma TaggedIff(visit: Visit, tagId: Id)
    ensures Tagged(visit, tagId) <==> exists t :: t in visit.tags && t.id == tagId
  {
    if t :| t in visit.tags && t.id == tagId {
      var i :| 0 <= i < |visit.tags| && visit.tags[i] == t;
    }
  }

  lemma MatchesItself(value: string)
    ensures TextMatches(Text.Trim(value), Some(value))
  {
    Text.TrimIdempotent(value);
  }

  lemma FilterForTheTrimmedCuisine(zone: Calendar.Zone, row: VisitRow, tables: Tables, visit: Visit)
    requires Stores(tables, row, visit) && !TrimsAlike(row.category)
    ensures var filter := NO_FILTER.(cuisine := Text.Trim(row.category.value));
            VisitMatches(zone, visit, filter) && !Selects(Compile(zone, filter), row, tables)
  {
    var value := row.category.value;
    OneTextFilter(zone, Text.Trim(value));
    OneTextMatches(zone, visit, Text.Trim(value));
    MatchesItself(value);
    DifferentTrimsDiffer(zone, value, RestaurantCategory, row, tables);
  }

  lemma FilterForTheTrimmedCity(zone: Calendar.Zone, row: VisitRow, tables: Tables, visit: Visit)
    requires Stores(tables, row, visit) && !TrimsAlike(row.city)
    ensures var filter := NO_FILTER.(city := Text.Trim(row.city.value));
            VisitMatches(zone, visit, filter) && !Selects(Compile(zone, filter), row, tables)
  {
    var value := row.city.value;
    OneTextFilter(zone, Text.Trim(value));
    OneTextMatches(zone, visit, Text.Trim(value));
    MatchesItself(value);
    DifferentTrimsDiffer(zone, value, RestaurantCity, row, tables);
  }

  lemma DifferentTrimsDiffer(zone: Calendar.Zone, value: string, column: Column, row: VisitRow, tables: Tables)
    requires !TrimsAlike(Some(value)) && ColumnValue(column, row) == TextValue(value)
    ensures Text.Trim(Text.Trim(value)) == Text.Trim(value)
    ensures !Selects(WithText(Query([], []), Text.Trim(value), column), row, tables)
  {
    var wanted := Text.Trim(value);
    Text.TrimIdempotent(value);
    assert Text.Lower(Text.BTrim(value)) != Text.Lower(wanted) by {
      Text.TrimAfterBTrim(value);
      Text.TrimIsNoLonger(Text.BTrim(value));
    }
    WithTextSelects(Query([], []), wanted, column, row, tables);
  }

  /** The trims read a trailing tab differently, so a filter for Thai finds the visit in memory only. */
  lemma TabIsToldApart(zone: Calendar.Zone, row: VisitRow, tables: Tables, visit: Visit)
    requires Stores(tables, row, visit) && visit.restaurant.category == Some("Thai\t")
    ensures !TrimsAlike(row.category)
    ensures var filter := NO_FILTER.(cuisine := "Thai");
            VisitMatches(zone, visit, filter) && !Selects(Compile(zone, filter), row, tables)
  {
    TabIsTrimmed("Thai", "Thai\t");
    FilterForTheTrimmedCuisine(zone, row, tables, visit);
  }

  lemma TabIsTrimmed(word: string, value: string)
    requires value == word + ['\t'] && word != "" && !Text.IsSpace(word[0]) && !Text.IsSpace(word[|word| - 1])
    ensures Text.Trim(value) == word && !TrimsAlike(Some(value))
  {
    Text.TrimIs(value, 0, |word|, Text.IsSpace);
    Text.TrimIs(value, 0, |value|, Text.IsBlank);
    assert value[..|word|] == word && value[..|value|] == value;
  }

  /** Exactly when a stored row's filters mean the same in both stores. */
  lemma FiltersAgreeIffTrimsDo(zone: Calendar.Zone, row: VisitRow, tables: Tables, visit: Visit)
    requires Calendar.SteadyNewYears(zone)
    requires Stores(tables, row, visit)
    ensures (forall filter :: Selects(Compile(zone, filter), row, tables) <==> VisitMatches(zone, visit, filter))
       <==> TrimsAlike(row.category) && TrimsAlike(row.city)
  {
    if !TrimsAlike(row.category) {
      FilterForTheTrimmedCuisine(zone, row, tables, visit);
    }
    if !TrimsAlike(row.city) {
      FilterForTheTrimmedCity(zone, row, tables, visit);
    }
    if TrimsAlike(row.category) && TrimsAlike(row.city) {
      forall filter ensures Selects(Compile(zone, filter), row, tables) <==> VisitMatches(zone, visit, filter) {
        CompiledClauseIsTheFilter(zone, filter, row, tables, visit);
      }
    }
  }
}
