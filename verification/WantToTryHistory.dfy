/**
 The Want to Try list seen from one restaurant: over any run of the store, its item is what a small
 automaton makes of the events at that restaurant, and is open just when the last of them was a save.
 */
module WantToTryHistory {
  import opened Wrappers
  import opened Ledger
  import opened StoreSpec
  import opened StoreInvariants

  /** What one operation means for one restaurant's place on the list. */
  datatype Event =
    | Silent
    | Saved(suggester: Option<Id>, note: Option<string>, at: Time, newId: Id)
    | Dined(at: Time)
    | Dropped

  function ItemOf(wants: seq<Want>, restaurantId: Id): Option<Want> {
    var k := ListedIndex(wants, restaurantId);
    if k < |wants| then Some(wants[k]) else None
  }

  predicate IsOpen(item: Option<Want>) {
    item.Some? && item.value.doneAt.None?
  }

  /** The restaurant an accepted input goes to. */
  function Destination(s: State, d: Details, stamp: Stamp): Option<Id> {
    match Resolve(s, d, stamp)
    case Err(_) => None
    case Ok((_, r)) => Some(r.id)
  }

  /** A dine edited in place is no event: only one moved there from elsewhere is. */
  function EventOf(s: State, op: Op, restaurantId: Id): Event
    requires PhotosDistinct(s.visits)
    requires op.Create? || op.Edit? ==> |op.stamp.photoIds| == |op.dine.photos|
  {
    match op
    case Create(dine, cancelled, stamp) =>
      if CreateVisit(s, dine, cancelled, stamp).result.Ok? && Destination(s, dine.details, stamp) == Some(restaurantId)
      then Dined(stamp.now) else Silent
    case Edit(id, dine, cancelled, stamp) =>
      if UpdateVisit(s, id, dine, cancelled, stamp).result.Ok? && dine.details.restaurantId == Some(restaurantId)
         && s.visits[VisitIndex(s.visits, id)].restaurant.id != restaurantId
      then Dined(stamp.now) else Silent
    case RemoveRestaurant(id) =>
      if id == restaurantId && DeleteRestaurantIfUnvisited(s, id).result == Ok(true) then Dropped else Silent
    case Save(details, suggester, note, stamp) =>
      if SaveWantToTry(s, details, suggester, note, stamp).result.Ok?
        && Destination(s, details, stamp) == Some(restaurantId)
      then Saved(suggester, note, stamp.now, stamp.wantId) else Silent
    case RemoveWant(id) =>
      var item := ItemOf(s.wants, restaurantId);
      if item.Some? && item.value.id == id then Dropped else Silent
    case RemoveVisit(_) => Silent
    case Reprofile(_, _, _) => Silent
    case Refresh(_, _, _, _) => Silent
    case Toggle(_, _, _) => Silent
  }

  /** What an event makes of the restaurant's item. */
  function Next(item: Option<Want>, restaurantId: Id, event: Event): Option<Want> {
    match event
    case Silent => item
    case Dropped => None
    case Dined(at) => if IsOpen(item) then Some(item.value.(doneAt := Some(at))) else item
    case Saved(suggester, note, at, newId) =>
      if item.None? then Some(Want(newId, restaurantId, suggester, note, at, None))
      else
        var w := item.value;
        Some(w.(suggestedById := suggester, note := note, doneAt := None,
                createdAt := if w.doneAt.Some? then at else w.createdAt))
  }

  // ---- One operation ----

  lemma ItemIs(wants: seq<Want>, w: Want)
    requires DistinctWants(wants) && w in wants
    ensures ItemOf(wants, w.restaurantId) == Some(w)
  {
    var k := ListedIndex(wants, w.restaurantId);
    var j :| 0 <= j < |wants| && wants[j] == w;
    assert j >= k;
  }

  lemma NoItemMeansNone(wants: seq<Want>, restaurantId: Id)
    ensures ItemOf(wants, restaurantId).None? <==> forall w: Want :: w in wants ==> w.restaurantId != restaurantId
  {
  }

  /** Two lists with the same items of the restaurant agree on its item. */
  lemma SameItem(wants: seq<Want>, wants': seq<Want>, restaurantId: Id)
    requires DistinctWants(wants) && DistinctWants(wants')
    requires forall w: Want :: w.restaurantId == restaurantId ==> (w in wants <==> w in wants')
    ensures ItemOf(wants', restaurantId) == ItemOf(wants, restaurantId)
  {
    NoItemMeansNone(wants, restaurantId);
    NoItemMeansNone(wants', restaurantId);
    if ItemOf(wants, restaurantId).Some? {
      ItemIs(wants', ItemOf(wants, restaurantId).value);
    }
  }

  lemma RemainingItem(wants: seq<Want>, k: nat, w: Want)
    requires DistinctWants(wants) && k < |wants|
    ensures w in Without(wants, k) <==> w in wants && w.id != wants[k].id
  {
    var left := Without(wants, k);
    WithoutShifts(wants, k);
    if w in wants && w.id != wants[k].id {
      var j :| 0 <= j < |wants| && wants[j] == w;
      assert left[if j < k then j else j - 1] == w;
    }
    if w in left {
      var j :| 0 <= j < |left| && left[j] == w;
      assert w == wants[if j < k then j else j + 1];
    }
  }

  lemma RemovingAnItem(wants: seq<Want>, id: Id, restaurantId: Id)
    requires DistinctWants(wants) && WantIndex(wants, id) < |wants|
    ensures var item := ItemOf(wants, restaurantId);
            ItemOf(Without(wants, WantIndex(wants, id)), restaurantId)
            == if item.Some? && item.value.id == id then None else item
  {
    var k := WantIndex(wants, id);
    var left := Without(wants, k);
    WithoutShifts(wants, k);
    forall w: Want ensures w in left <==> w in wants && w.id != id {
      RemainingItem(wants, k, w);
    }
    if wants[k].restaurantId != restaurantId {
      SameItem(wants, left, restaurantId);
    }
  }

  lemma UnlistingARestaurant(wants: seq<Want>, id: Id, restaurantId: Id)
    requires DistinctWants(wants)
    ensures ItemOf(Unlisted(wants, id), restaurantId)
            == if id == restaurantId then None else ItemOf(wants, restaurantId)
  {
    UnlistedMembers(wants, id);
    UnlistedDistinct(wants, id);
    if id != restaurantId {
      SameItem(wants, Unlisted(wants, id), restaurantId);
    } else {
      NoItemMeansNone(Unlisted(wants, id), restaurantId);
    }
  }

  lemma Marking(wants: seq<Want>, id: Id, restaurantId: Id, now: Time)
    requires DistinctWants(wants)
    ensures ItemOf(MarkedDone(wants, id, now), restaurantId)
            == Next(ItemOf(wants, restaurantId), restaurantId, if id == restaurantId then Dined(now) else Silent)
  {
    FirstAgrees(wants, MarkedDone(wants, id, now), (w: Want) => w.restaurantId == restaurantId);
  }

  lemma FirstAgrees<T>(xs: seq<T>, ys: seq<T>, fits: T -> bool)
    requires |xs| <= |ys| && forall k :: 0 <= k < |xs| ==> fits(xs[k]) == fits(ys[k])
    requires forall k :: |xs| < k < |ys| ==> !fits(ys[k])
    ensures |xs| == |ys| || First(xs, fits) < |xs| ==> First(ys, fits) == First(xs, fits)
    ensures First(xs, fits) == |xs| < |ys| && fits(ys[|xs|]) ==> First(ys, fits) == |xs|
    ensures First(xs, fits) == |xs| < |ys| && !fits(ys[|xs|]) ==> First(ys, fits) == |ys|
  {
  }

  lemma Saving(wants: seq<Want>, id: Id, restaurantId: Id, suggester: Option<Id>, note: Option<string>, stamp: Stamp)
    requires DistinctWants(wants)
    ensures ItemOf(StoreSpec.Saved(wants, id, suggester, note, stamp), restaurantId)
            == Next(ItemOf(wants, restaurantId), restaurantId,
                    if id == restaurantId then Saved(suggester, note, stamp.now, stamp.wantId) else Silent)
  {
    FirstAgrees(wants, StoreSpec.Saved(wants, id, suggester, note, stamp), (w: Want) => w.restaurantId == restaurantId);
  }

  lemma CreateIsAnEvent(s: State, op: Op, restaurantId: Id)
    requires Inv(s) && Allowed(s, op) && op.Create?
    ensures ItemOf(Step(s, op).wants, restaurantId)
            == Next(ItemOf(s.wants, restaurantId), restaurantId, EventOf(s, op, restaurantId))
  {
    var destination := Destination(s, op.dine.details, op.stamp);
    if destination.Some? {
      Marking(s.wants, destination.value, restaurantId, op.stamp.now);
    }
  }

  /** An accepted edit marks the new restaurant's item only when it moved the dine. */
  lemma EditMarks(s: State, id: Id, dine: Dine, cancelled: bool, stamp: Stamp)
    requires |stamp.photoIds| == |dine.photos| && PhotosDistinct(s.visits)
    requires UpdateVisit(s, id, dine, cancelled, stamp).result.Ok?
    ensures dine.details.restaurantId.Some? && VisitIndex(s.visits, id) < |s.visits|
    ensures UpdateVisit(s, id, dine, cancelled, stamp).state.wants
            == if s.visits[VisitIndex(s.visits, id)].restaurant.id != dine.details.restaurantId.value
               then MarkedDone(s.wants, dine.details.restaurantId.value, stamp.now) else s.wants
  {
  }

  lemma EditIsAnEvent(s: State, op: Op, restaurantId: Id)
    requires Inv(s) && Allowed(s, op) && op.Edit?
    ensures ItemOf(Step(s, op).wants, restaurantId)
            == Next(ItemOf(s.wants, restaurantId), restaurantId, EventOf(s, op, restaurantId))
  {
    var outcome := UpdateVisit(s, op.id, op.dine, op.cancelled, op.stamp);
    if outcome.result.Ok? {
      EditMarks(s, op.id, op.dine, op.cancelled, op.stamp);
      Marking(s.wants, op.dine.details.restaurantId.value, restaurantId, op.stamp.now);
    } else {
      assert outcome.state == s;
    }
  }

  /** An accepted save is one on the list of before, since resolving leaves the list alone. */
  lemma SaveIsSaved(s: State, d: Details, suggester: Option<Id>, note: Option<string>, stamp: Stamp)
    requires SaveWantToTry(s, d, suggester, note, stamp).result.Ok?
    ensures Destination(s, d, stamp).Some?
    ensures SaveWantToTry(s, d, suggester, note, stamp).state.wants
            == StoreSpec.Saved(s.wants, Destination(s, d, stamp).value, suggester, note, stamp)
  {
  }

  lemma SaveIsAnEvent(s: State, op: Op, restaurantId: Id)
    requires Inv(s) && Allowed(s, op) && op.Save?
    ensures ItemOf(Step(s, op).wants, restaurantId)
            == Next(ItemOf(s.wants, restaurantId), restaurantId, EventOf(s, op, restaurantId))
  {
    var outcome := SaveWantToTry(s, op.details, op.suggester, op.note, op.stamp);
    if outcome.result.Ok? {
      SaveIsSaved(s, op.details, op.suggester, op.note, op.stamp);
      Saving(s.wants, Destination(s, op.details, op.stamp).value, restaurantId, op.suggester, op.note, op.stamp);
    } else {
      assert outcome.state == s;
    }
  }

  lemma RestaurantRemovalIsAnEvent(s: State, op: Op, restaurantId: Id)
    requires Inv(s) && op.RemoveRestaurant?
    ensures ItemOf(Step(s, op).wants, restaurantId)
            == Next(ItemOf(s.wants, restaurantId), restaurantId, EventOf(s, op, restaurantId))
  {
    UnlistingARestaurant(s.wants, op.id, restaurantId);
  }

  lemma WantRemovalIsAnEvent(s: State, op: Op, restaurantId: Id)
    requires Inv(s) && op.RemoveWant?
    ensures ItemOf(Step(s, op).wants, restaurantId)
            == Next(ItemOf(s.wants, restaurantId), restaurantId, EventOf(s, op, restaurantId))
  {
    if WantIndex(s.wants, op.id) < |s.wants| {
      RemovingAnItem(s.wants, op.id, restaurantId);
    } else {
      var k := ListedIndex(s.wants, restaurantId);
      assert k < |s.wants| ==> s.wants[k].id != op.id;
    }
  }

  /** One operation on the whole store is one event, or none, at each restaurant. */
  lemma StepIsAnEvent(s: State, op: Op, restaurantId: Id)
    requires Inv(s) && Allowed(s, op)
    ensures ItemOf(Step(s, op).wants, restaurantId)
            == Next(ItemOf(s.wants, restaurantId), restaurantId, EventOf(s, op, restaurantId))
  {
    if op.Create? {
      CreateIsAnEvent(s, op, restaurantId);
    } else if op.Edit? {
      EditIsAnEvent(s, op, restaurantId);
    } else if op.Save? {
      SaveIsAnEvent(s, op, restaurantId);
    } else if op.RemoveWant? {
      WantRemovalIsAnEvent(s, op, restaurantId);
    } else if op.RemoveRestaurant? {
      RestaurantRemovalIsAnEvent(s, op, restaurantId);
    }
  }

  /** A dine, created or moved there, marks an open item done at its time, and leaves a done one as it is. */
  lemma DineMarksNow(s: State, op: Op, restaurantId: Id)
    requires Inv(s) && Allowed(s, op) && EventOf(s, op, restaurantId).Dined? && ItemOf(s.wants, restaurantId).Some?
    ensures var before := ItemOf(s.wants, restaurantId).value;
            ItemOf(Step(s, op).wants, restaurantId)
            == Some(if before.doneAt.None? then before.(doneAt := Some(op.stamp.now)) else before)
  {
    StepIsAnEvent(s, op, restaurantId);
  }

  /** A save makes an open item, new or reopened, with its suggester and note; one that was open keeps its time. */
  lemma SaveMakesAnOpenItem(s: State, op: Op, restaurantId: Id)
    requires Inv(s) && Allowed(s, op) && EventOf(s, op, restaurantId).Saved?
    ensures op.Save?
    ensures var before, after := ItemOf(s.wants, restaurantId), ItemOf(Step(s, op).wants, restaurantId);
            && after.Some? && after.value.restaurantId == restaurantId && after.value.doneAt.None?
            && after.value.suggestedById == op.suggester && after.value.note == op.note
            && after.value.id == (if before.Some? then before.value.id else op.stamp.wantId)
            && after.value.createdAt == if IsOpen(before) then before.value.createdAt else op.stamp.now
  {
    StepIsAnEvent(s, op, restaurantId);
    var k := ListedIndex(s.wants, restaurantId);
    assert k < |s.wants| ==> s.wants[k].restaurantId == restaurantId;
  }

  predicate IsOnTheList(wants: seq<Want>, restaurantId: Id) {
    exists k :: 0 <= k < |wants| && wants[k].restaurantId == restaurantId && wants[k].doneAt.None?
  }

  /** An accepted dine leaves its restaurant off the list, and every other one as it was. */
  lemma DineTakesItOff(s: State, dine: Dine, cancelled: bool, stamp: Stamp, other: Id)
    requires |stamp.photoIds| == |dine.photos| && CreateVisit(s, dine, cancelled, stamp).result.Ok?
    ensures var after := CreateVisit(s, dine, cancelled, stamp).state;
            && |after.visits| == |s.visits| + 1
            && !IsOnTheList(after.wants, after.visits[|s.visits|].restaurant.id)
            && (other != after.visits[|s.visits|].restaurant.id ==>
                  (IsOnTheList(after.wants, other) <==> IsOnTheList(s.wants, other)))
  {
    var after := CreateVisit(s, dine, cancelled, stamp).state;
    if other != after.visits[|s.visits|].restaurant.id {
      MarkedElsewhere(s.wants, after.visits[|s.visits|].restaurant.id, other, stamp.now);
    }
  }

  lemma MarkedElsewhere(wants: seq<Want>, id: Id, other: Id, now: Time)
    requires other != id
    ensures IsOnTheList(MarkedDone(wants, id, now), other) <==> IsOnTheList(wants, other)
  {
    var marked := MarkedDone(wants, id, now);
    if k :| 0 <= k < |wants| && wants[k].restaurantId == other && wants[k].doneAt.None? {
      assert marked[k].restaurantId == other;
    }
    if k :| 0 <= k < |marked| && marked[k].restaurantId == other && marked[k].doneAt.None? {
      assert wants[k].restaurantId == other;
    }
  }

  /** An edit takes a restaurant off the list exactly when it moves the dine there. */
  lemma MovedDineTakesItOff(s: State, id: Id, dine: Dine, cancelled: bool, stamp: Stamp)
    requires |stamp.photoIds| == |dine.photos| && PhotosDistinct(s.visits)
    requires UpdateVisit(s, id, dine, cancelled, stamp).result.Ok?
    ensures var after, k := UpdateVisit(s, id, dine, cancelled, stamp).state, VisitIndex(s.visits, id);
            && k < |s.visits| == |after.visits|
            && (if after.visits[k].restaurant.id == s.visits[k].restaurant.id then after.wants == s.wants
                else !IsOnTheList(after.wants, after.visits[k].restaurant.id))
  {
    EditMarks(s, id, dine, cancelled, stamp);
  }

  // ---- Runs ----

  ghost function Events(s: State, ops: seq<Op>, restaurantId: Id): seq<Event>
    requires Inv(s) && IsRun(s, ops)
    decreases |ops|
  {
    if ops == [] then []
    else
      StepKeepsInv(s, ops[0]);
      [EventOf(s, ops[0], restaurantId)] + Events(Step(s, ops[0]), ops[1..], restaurantId)
  }

  function Played(item: Option<Want>, restaurantId: Id, events: seq<Event>): Option<Want>
    decreases |events|
  {
    if events == [] then item else Played(Next(item, restaurantId, events[0]), restaurantId, events[1..])
  }

  /** The store is, for each restaurant at once, the automaton run over its events. */
  lemma {:induction false} RunPlaysTheEvents(s: State, ops: seq<Op>, restaurantId: Id)
    requires Inv(s) && IsRun(s, ops)
    ensures ItemOf(After(s, ops).wants, restaurantId)
            == Played(ItemOf(s.wants, restaurantId), restaurantId, Events(s, ops, restaurantId))
    decreases |ops|
  {
    if ops != [] {
      StepKeepsInv(s, ops[0]);
      StepIsAnEvent(s, ops[0], restaurantId);
      RunPlaysTheEvents(Step(s, ops[0]), ops[1..], restaurantId);
    }
  }

  /** The last event that is not silent, or Silent. */
  function LastHeard(events: seq<Event>): Event {
    if events == [] then Silent
    else if !events[|events| - 1].Silent? then events[|events| - 1]
    else LastHeard(events[..|events| - 1])
  }

  lemma {:induction false} PlayedLast(item: Option<Want>, restaurantId: Id, events: seq<Event>)
    requires events != []
    ensures Played(item, restaurantId, events)
            == Next(Played(item, restaurantId, events[..|events| - 1]), restaurantId, events[|events| - 1])
    decreases |events|
  {
    var n := |events| - 1;
    if n > 0 {
      assert events[1..][..n - 1] == events[..n][1..];
      PlayedLast(Next(item, restaurantId, events[0]), restaurantId, events[1..]);
    }
  }

  lemma {:induction false} PlayedIsOpen(item: Option<Want>, restaurantId: Id, events: seq<Event>)
    ensures IsOpen(Played(item, restaurantId, events))
       <==> (LastHeard(events).Saved? || (LastHeard(events).Silent? && IsOpen(item)))
    decreases |events|
  {
    if events != [] {
      PlayedLast(item, restaurantId, events);
      PlayedIsOpen(item, restaurantId, events[..|events| - 1]);
    }
  }

  /**
   A restaurant is on the list exactly when the last thing to happen to it there was a successful save,
   and not a dine created there or moved there, a removal, or the restaurant's deletion.
   */
  lemma OpenIffLastHeardIsASave(s: State, ops: seq<Op>, restaurantId: Id)
    requires Inv(s) && IsRun(s, ops) && ItemOf(s.wants, restaurantId).None?
    ensures IsOpen(ItemOf(After(s, ops).wants, restaurantId)) <==> LastHeard(Events(s, ops, restaurantId)).Saved?
  {
    RunPlaysTheEvents(s, ops, restaurantId);
    PlayedIsOpen(None, restaurantId, Events(s, ops, restaurantId));
  }

  /** An item keeps its identifier until it is dropped, and its creation time unless it is reopened. */
  lemma {:induction false} ItemLasts(w: Want, restaurantId: Id, events: seq<Event>)
    requires Dropped !in events
    ensures Played(Some(w), restaurantId, events).Some?
    ensures Played(Some(w), restaurantId, events).value.id == w.id
    ensures w.doneAt.None? && (forall e :: e in events ==> !e.Dined?) ==>
      Played(Some(w), restaurantId, events).value.createdAt == w.createdAt
    decreases |events|
  {
    if events != [] {
      assert events[0] in events && forall e :: e in events[1..] ==> e in events;
      ItemLasts(Next(Some(w), restaurantId, events[0]).value, restaurantId, events[1..]);
    }
  }

  /** The same over runs of the store: while nothing drops the item, its identifier never changes. */
  lemma ItemKeepsItsId(s: State, ops: seq<Op>, restaurantId: Id)
    requires Inv(s) && IsRun(s, ops) && ItemOf(s.wants, restaurantId).Some?
    requires Dropped !in Events(s, ops, restaurantId)
    ensures ItemOf(After(s, ops).wants, restaurantId).Some?
    ensures ItemOf(After(s, ops).wants, restaurantId).value.id == ItemOf(s.wants, restaurantId).value.id
  {
    RunPlaysTheEvents(s, ops, restaurantId);
    ItemLasts(ItemOf(s.wants, restaurantId).value, restaurantId, Events(s, ops, restaurantId));
  }

  /** An item's creation time changes only when a save reopens it, and is then the time of that save. */
  lemma CreationTimeMovesOnReopening(s: State, op: Op, restaurantId: Id)
    requires Inv(s) && Allowed(s, op)
    requires ItemOf(s.wants, restaurantId).Some? && ItemOf(Step(s, op).wants, restaurantId).Some?
    ensures ItemOf(Step(s, op).wants, restaurantId).value.createdAt
            == if op.Save? && EventOf(s, op, restaurantId).Saved? && !IsOpen(ItemOf(s.wants, restaurantId))
               then op.stamp.now else ItemOf(s.wants, restaurantId).value.createdAt
  {
    StepIsAnEvent(s, op, restaurantId);
  }
}
