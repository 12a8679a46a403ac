/**
 The visit_photos table while replicas of two releases and the backfill share it. Old replicas know
 only the data URI and rewrite a visit's photos by deleting and reinserting its rows under the same
 identifiers, which empties the binary columns. Every committed statement is one atomic step; row
 locks taken with FOR UPDATE make other writers wait.
 */
module PhotoTable {
  import opened Wrappers
  import opened Ledger
  import Text

  const THUMB_V1 := "thumb-v1"
  const JPEG := "image/jpeg"
  // SQL bounds on what a scan transfers, and the size limit of a photo.
  const MAX_SCANNED_URI := 700000
  const MAX_PHOTO_BYTES := 512000

  datatype Images = Images(original: Bytes, thumbnail: Bytes)

  /** PrepareVisitPhoto: the images a URI yields, or None for an error. */
  type Codec = string -> Option<Images>

  /** PrepareVisitPhoto trims the URI, refuses an empty one and hands the rest to the JPEG library. */
  function PrepareWith(jpeg: string -> Option<Images>): Codec {
    raw => if Text.Trim(raw) == "" then None else jpeg(Text.Trim(raw))
  }

  /** An encoded JPEG is never empty. */
  ghost predicate NeverEmpty(jpeg: string -> Option<Images>) {
    forall uri :: jpeg(uri).Some? ==> jpeg(uri).value.original != [] && jpeg(uri).value.thumbnail != []
  }

  ghost predicate ValidCodec(codec: Codec) {
    && codec("").None?
    && (forall raw :: codec(Text.Trim(raw)) == codec(raw))
    && NeverEmpty(codec)
  }

  lemma PrepareIsAValidCodec(jpeg: string -> Option<Images>)
    requires NeverEmpty(jpeg)
    ensures ValidCodec(PrepareWith(jpeg))
  {
    assert Text.Trim("") == "";
    forall raw ensures PrepareWith(jpeg)(Text.Trim(raw)) == PrepareWith(jpeg)(raw) {
      Text.TrimIdempotent(raw);
    }
  }

  datatype Row = Row(
    visitId: Id, dataUri: string, contentType: string, byteCount: nat, sortOrder: nat, createdAt: Time,
    original: Option<Bytes>, thumbnail: Option<Bytes>, version: Option<string>)

  type Rows = map<Id, Row>

  /** The part of a row no release ever changes. */
  datatype Identity = Identity(visitId: Id, dataUri: string, contentType: string, byteCount: nat, createdAt: Time)

  function IdentityOf(row: Row): Identity {
    Identity(row.visitId, row.dataUri, row.contentType, row.byteCount, row.createdAt)
  }

  /** A row as an old replica writes it. */
  function LegacyRow(identity: Identity, sortOrder: nat): Row {
    Row(identity.visitId, identity.dataUri, identity.contentType, identity.byteCount, sortOrder, identity.createdAt,
        None, None, None)
  }

  /** A row as a new replica writes it. */
  function NewRow(visitId: Id, raw: string, images: Images, sortOrder: nat, at: Time): Row {
    Row(visitId, Text.Trim(raw), JPEG, |images.original|, sortOrder, at,
        Some(images.original), Some(images.thumbnail), Some(THUMB_V1))
  }

  // ---- Reading a photo ----

  /** VisitPhoto: the bytes of the wanted representation, and the URI only where those are missing. */
  function VisitPhoto(row: Row, variant: string): (Option<Bytes>, string) {
    (if variant == THUMB_V1 then (if row.version == Some(THUMB_V1) then row.thumbnail else None) else row.original,
     if (variant == THUMB_V1 && (row.thumbnail.None? || row.version != Some(THUMB_V1)))
        || (variant != THUMB_V1 && row.original.None?)
     then row.dataUri else "")
  }

  /** The photo endpoint: None is a failed response. */
  function Served(codec: Codec, row: Row, variant: string): Option<Bytes> {
    var (bytes, uri) := VisitPhoto(row, variant);
    if bytes.GetOr([]) != [] then bytes
    else Rendered(codec, uri, variant)
  }

  /** What the data URI alone says the endpoint should send. */
  function Rendered(codec: Codec, uri: string, variant: string): Option<Bytes> {
    match codec(uri)
    case None => None
    case Some(images) => Some(if variant == THUMB_V1 then images.thumbnail else images.original)
  }

  // ---- Filling a row ----

  predicate Missing(row: Row) {
    row.original.None? || row.thumbnail.None? || row.version != Some(THUMB_V1)
  }

  /** scanStoredPhoto refuses oversized binaries and reads an oversized URI as empty. */
  predicate Oversized(row: Row) {
    || (row.original.Some? && |row.original.value| > MAX_PHOTO_BYTES)
    || (row.thumbnail.Some? && |row.thumbnail.value| > MAX_PHOTO_BYTES)
  }

  /** validateStoredPhoto: the images the row's URI yields, if the row agrees with them. */
  function Validate(codec: Codec, row: Row): Option<Images> {
    if Oversized(row) || row.contentType != JPEG then None
    else
      match codec(if |row.dataUri| <= MAX_SCANNED_URI then row.dataUri else "")
      case None => None
      case Some(images) =>
        if |images.original| != row.byteCount then None
        else if row.original.Some? && row.original.value != images.original then None
        else if row.version == Some(THUMB_V1) && row.thumbnail.Some? && row.thumbnail.value != images.thumbnail
        then None
        else Some(images)
  }

  function Fill(row: Row, images: Images): Row {
    row.(original := Some(images.original), thumbnail := Some(images.thumbnail), version := Some(THUMB_V1))
  }

  // ---- The protocol ----

  /** What an old replica read before its rewrite. */
  datatype Draft = Draft(visitId: Id, photos: map<Id, Identity>)

  /**
   held: the row each backfill worker has locked, as it read it. drafts: what each old writer read.
   born: the identity under which an identifier was first inserted, kept after the row is deleted.
   */
  datatype World = World(rows: Rows, held: map<nat, (Id, Row)>, drafts: map<nat, Draft>, born: map<Id, Identity>)

  datatype Action =
    | InsertNew(id: Id, visitId: Id, raw: string, order: nat, at: Time)
    | Renumber(visitId: Id, id: Id, order: nat)
    | DeleteUnlisted(visitId: Id, keep: set<Id>)
    | OldRead(writer: nat, visitId: Id)
    | OldRewrite(writer: nat, orders: map<Id, nat>, added: map<Id, (Identity, nat)>)
    | BackfillLock(worker: nat, id: Id)
    | BackfillCommit(worker: nat)
    | BackfillAbort(worker: nat)

  predicate Locked(w: World, id: Id) {
    exists worker :: worker in w.held && w.held[worker].0 == id
  }

  function Unlisted(rows: Rows, visitId: Id, keep: set<Id>): set<Id> {
    set id | id in rows && rows[id].visitId == visitId && id !in keep
  }

  /** Not waiting for a lock, and using fresh identifiers for new rows. */
  predicate Enabled(codec: Codec, w: World, a: Action) {
    match a
    case InsertNew(id, _, raw, _, _) => id !in w.born && codec(raw).Some?
    case Renumber(_, id, _) => !Locked(w, id)
    case DeleteUnlisted(visitId, keep) => forall id :: id in Unlisted(w.rows, visitId, keep) ==> !Locked(w, id)
    case OldRead(_, _) => true
    case OldRewrite(writer, orders, added) =>
      && writer in w.drafts
      && orders.Keys <= w.drafts[writer].photos.Keys
      && added.Keys !! w.born.Keys
      && (forall id :: id in Unlisted(w.rows, w.drafts[writer].visitId, {}) ==> !Locked(w, id))
      && (forall id :: id in added ==> added[id].0.visitId == w.drafts[writer].visitId)
    case BackfillLock(worker, id) => worker !in w.held && !Locked(w, id)
    case BackfillCommit(worker) => worker in w.held
    case BackfillAbort(worker) => worker in w.held
  }

  function OldRows(draft: Draft, orders: map<Id, nat>, added: map<Id, (Identity, nat)>): Rows
    requires orders.Keys <= draft.photos.Keys
  {
    (map id | id in orders :: LegacyRow(draft.photos[id], orders[id]))
    + (map id | id in added :: LegacyRow(added[id].0, added[id].1))
  }

  function Apply(codec: Codec, w: World, a: Action): World
    requires Enabled(codec, w, a)
  {
    match a
    case InsertNew(id, visitId, raw, order, at) =>
      var row := NewRow(visitId, raw, codec(raw).value, order, at);
      w.(rows := w.rows[id := row], born := w.born[id := IdentityOf(row)])
    case Renumber(visitId, id, order) =>
      if id in w.rows && w.rows[id].visitId == visitId
      then w.(rows := w.rows[id := w.rows[id].(sortOrder := order)]) else w
    case DeleteUnlisted(visitId, keep) => w.(rows := w.rows - Unlisted(w.rows, visitId, keep))
    case OldRead(writer, visitId) =>
      var photos := map id | id in w.rows && w.rows[id].visitId == visitId :: IdentityOf(w.rows[id]);
      w.(drafts := w.drafts[writer := Draft(visitId, photos)])
    case OldRewrite(writer, orders, added) =>
      var draft := w.drafts[writer];
      w.(rows := (w.rows - Unlisted(w.rows, draft.visitId, {})) + OldRows(draft, orders, added),
         born := w.born + (map id | id in added :: added[id].0))
    case BackfillLock(worker, id) =>
      if id in w.rows && Missing(w.rows[id]) then w.(held := w.held[worker := (id, w.rows[id])]) else w
    case BackfillCommit(worker) =>
      var (id, copy) := w.held[worker];
      var images := Validate(codec, copy);
      w.(rows := if images.Some? && id in w.rows then w.rows[id := Fill(w.rows[id], images.value)] else w.rows,
         held := w.held - {worker})
    case BackfillAbort(worker) => w.(held := w.held - {worker})
  }

  /** A blocked or impossible statement changes nothing. */
  function Step(codec: Codec, w: World, a: Action): World {
    if Enabled(codec, w, a) then Apply(codec, w, a) else w
  }

  function Run(codec: Codec, w: World, actions: seq<Action>): World
    decreases |actions|
  {
    if actions == [] then w else Run(codec, Step(codec, w, actions[0]), actions[1..])
  }

  // ---- What each step does ----

  /** The rows of the visit. */
  function RowsOf(rows: Rows, visitId: Id): set<Id> {
    set id | id in rows && rows[id].visitId == visitId
  }

  ghost predicate SameElsewhere(rows: Rows, rows': Rows, visitId: Id) {
    forall id :: id in rows && rows[id].visitId != visitId ==> id in rows' && rows'[id] == rows[id]
  }

  /** A new row has the trimmed URI and what it decodes to. */
  lemma InsertedRowIs(codec: Codec, w: World, a: Action)
    requires a.InsertNew? && Enabled(codec, w, a)
    ensures var w' := Apply(codec, w, a);
            && w'.rows.Keys == w.rows.Keys + {a.id}
            && (forall id :: id in w.rows && id != a.id ==> w'.rows[id] == w.rows[id])
            && var row := w'.rows[a.id];
               && row.visitId == a.visitId && row.dataUri == Text.Trim(a.raw) && row.contentType == "image/jpeg"
               && row.sortOrder == a.order && row.createdAt == a.at && row.byteCount == |codec(a.raw).value.original|
               && row.original == Some(codec(a.raw).value.original)
               && row.thumbnail == Some(codec(a.raw).value.thumbnail) && row.version == Some("thumb-v1")
  {
  }

  lemma RenumberedRowIs(codec: Codec, w: World, a: Action)
    requires a.Renumber? && Enabled(codec, w, a)
    ensures var w' := Apply(codec, w, a);
            && w'.rows.Keys == w.rows.Keys && (forall id :: id in w.rows && id != a.id ==> w'.rows[id] == w.rows[id])
            && (a.id in w.rows ==>
                  w'.rows[a.id] == if w.rows[a.id].visitId == a.visitId then w.rows[a.id].(sortOrder := a.order)
                                   else w.rows[a.id])
  {
  }

  lemma UnlistedRowsGo(codec: Codec, w: World, a: Action)
    requires a.DeleteUnlisted? && Enabled(codec, w, a)
    ensures var w' := Apply(codec, w, a);
            && SameElsewhere(w.rows, w'.rows, a.visitId)
            && RowsOf(w'.rows, a.visitId) == RowsOf(w.rows, a.visitId) * a.keep
            && forall id :: id in w'.rows ==> id in w.rows && w'.rows[id] == w.rows[id]
  {
  }

  predicate IsBare(rows: Rows, id: Id, identity: Identity, order: nat) {
    && id in rows && IdentityOf(rows[id]) == identity && rows[id].sortOrder == order
    && rows[id].original.None? && rows[id].thumbnail.None? && rows[id].version.None?
  }

  /** An old replica's rewrite leaves the visit just the rows it writes, and those without binaries. */
  lemma OldRewriteEmptiesBinaries(codec: Codec, w: World, a: Action)
    requires a.OldRewrite? && Enabled(codec, w, a) && DraftsKnown(w)
    ensures var w', draft := Apply(codec, w, a), w.drafts[a.writer];
            && (forall id :: id in w'.rows && w'.rows[id].visitId == draft.visitId ==> id in a.orders || id in a.added)
            && (forall id :: id in a.orders ==> IsBare(w'.rows, id, draft.photos[id], a.orders[id]))
            && (forall id :: id in a.added ==> IsBare(w'.rows, id, a.added[id].0, a.added[id].1))
  {
    var w', draft := Apply(codec, w, a), w.drafts[a.writer];
    forall id | id in a.orders ensures IsBare(w'.rows, id, draft.photos[id], a.orders[id]) {
      assert id in w.born;
      assert w'.rows[id] == LegacyRow(draft.photos[id], a.orders[id]);
    }
    forall id | id in a.added ensures IsBare(w'.rows, id, a.added[id].0, a.added[id].1) {
      assert w'.rows[id] == LegacyRow(a.added[id].0, a.added[id].1);
    }
  }

  /** What an old replica reads are the visit's rows as they are, binaries aside. */
  lemma OldReadSees(codec: Codec, w: World, a: Action)
    requires a.OldRead?
    ensures var w' := Apply(codec, w, a);
            && w'.rows == w.rows && a.writer in w'.drafts && w'.drafts[a.writer].visitId == a.visitId
            && w'.drafts[a.writer].photos.Keys == RowsOf(w.rows, a.visitId)
            && forall id :: id in RowsOf(w.rows, a.visitId) ==>
                 w'.drafts[a.writer].photos[id] == IdentityOf(w.rows[id])
  {
  }

  // ---- What every step keeps ----

  /** Whatever is stored in binary is what the URI yields. */
  predicate Sound(codec: Codec, row: Row) {
    && (row.original.Some? ==>
          codec(row.dataUri).Some? && row.original.value == codec(row.dataUri).value.original)
    && (row.thumbnail.Some? && row.version == Some(THUMB_V1) ==>
          codec(row.dataUri).Some? && row.thumbnail.value == codec(row.dataUri).value.thumbnail)
  }

  ghost predicate Known(born: map<Id, Identity>, id: Id, identity: Identity) {
    id in born && born[id] == identity
  }

  ghost predicate RowsSound(codec: Codec, w: World) {
    forall id :: id in w.rows ==> Sound(codec, w.rows[id]) && Known(w.born, id, IdentityOf(w.rows[id]))
  }

  ghost predicate LocksHold(w: World) {
    && (forall worker :: worker in w.held ==>
          var (id, copy) := w.held[worker]; id in w.rows && w.rows[id] == copy && Missing(copy))
    && (forall a, b :: a in w.held && b in w.held && w.held[a].0 == w.held[b].0 ==> a == b)
  }

  ghost predicate DraftsKnown(w: World) {
    forall writer, id :: writer in w.drafts && id in w.drafts[writer].photos ==>
      && Known(w.born, id, w.drafts[writer].photos[id])
      && w.drafts[writer].photos[id].visitId == w.drafts[writer].visitId
  }

  ghost predicate Inv(codec: Codec, w: World) {
    RowsSound(codec, w) && LocksHold(w) && DraftsKnown(w)
  }

  ghost predicate Extends(born: map<Id, Identity>, born': map<Id, Identity>) {
    forall id :: id in born ==> Known(born', id, born[id])
  }

  /** Where runs start: rows the old release wrote, or the new one wrote soundly, with nobody at work on them. */
  lemma QuietTableIsOk(codec: Codec, rows: Rows)
    requires forall id :: id in rows ==> Sound(codec, rows[id])
    ensures Inv(codec, World(rows, map[], map[], map id | id in rows :: IdentityOf(rows[id])))
  {
  }

  lemma ValidatedImagesAreTheUris(codec: Codec, row: Row)
    requires Validate(codec, row).Some? && codec("").None?
    ensures codec(row.dataUri) == Validate(codec, row)
  {
  }

  lemma OldRewriteKeepsRowsSound(codec: Codec, w: World, a: Action)
    requires RowsSound(codec, w) && DraftsKnown(w) && a.OldRewrite? && Enabled(codec, w, a)
    ensures RowsSound(codec, Apply(codec, w, a)) && Extends(w.born, Apply(codec, w, a).born)
  {
    var w' := Apply(codec, w, a);
    var draft := w.drafts[a.writer];
    forall id | id in w'.rows ensures Sound(codec, w'.rows[id]) && Known(w'.born, id, IdentityOf(w'.rows[id])) {
      if id in a.added {
        assert w'.rows[id] == LegacyRow(a.added[id].0, a.added[id].1);
      } else if id in a.orders {
        assert w'.rows[id] == LegacyRow(draft.photos[id], a.orders[id]);
      } else {
        assert w'.rows[id] == w.rows[id];
      }
    }
  }

  lemma InsertKeepsRowsSound(codec: Codec, w: World, a: Action)
    requires ValidCodec(codec) && RowsSound(codec, w) && a.InsertNew? && Enabled(codec, w, a)
    ensures RowsSound(codec, Apply(codec, w, a)) && Extends(w.born, Apply(codec, w, a).born)
  {
    assert codec(Text.Trim(a.raw)) == codec(a.raw);
  }

  lemma CommitKeepsRowsSound(codec: Codec, w: World, a: Action)
    requires ValidCodec(codec) && RowsSound(codec, w) && LocksHold(w) && a.BackfillCommit? && Enabled(codec, w, a)
    ensures RowsSound(codec, Apply(codec, w, a)) && Apply(codec, w, a).born == w.born
  {
    var (id, copy) := w.held[a.worker];
    if Validate(codec, copy).Some? {
      ValidatedImagesAreTheUris(codec, copy);
    }
  }

  lemma StepKeepsRowsSound(codec: Codec, w: World, a: Action)
    requires ValidCodec(codec) && Inv(codec, w) && Enabled(codec, w, a)
    ensures RowsSound(codec, Apply(codec, w, a)) && Extends(w.born, Apply(codec, w, a).born)
  {
    match a
    case InsertNew(_, _, _, _, _) => InsertKeepsRowsSound(codec, w, a);
    case OldRewrite(_, _, _) => OldRewriteKeepsRowsSound(codec, w, a);
    case BackfillCommit(_) => CommitKeepsRowsSound(codec, w, a);
    case _ =>
  }

  lemma WritersKeepLocks(codec: Codec, w: World, a: Action)
    requires Inv(codec, w) && Enabled(codec, w, a)
    requires a.InsertNew? || a.Renumber? || a.DeleteUnlisted? || a.OldRead? || a.OldRewrite?
    ensures LocksHold(Apply(codec, w, a))
  {
  }

  lemma BackfillKeepsLocks(codec: Codec, w: World, a: Action)
    requires LocksHold(w) && Enabled(codec, w, a)
    requires a.BackfillLock? || a.BackfillCommit? || a.BackfillAbort?
    ensures LocksHold(Apply(codec, w, a))
  {
  }

  lemma StepKeepsLocks(codec: Codec, w: World, a: Action)
    requires Inv(codec, w) && Enabled(codec, w, a)
    ensures LocksHold(Apply(codec, w, a))
  {
    if a.BackfillLock? || a.BackfillCommit? || a.BackfillAbort? {
      BackfillKeepsLocks(codec, w, a);
    } else {
      WritersKeepLocks(codec, w, a);
    }
  }

  lemma StepKeepsDrafts(codec: Codec, w: World, a: Action)
    requires Inv(codec, w) && Enabled(codec, w, a)
    ensures DraftsKnown(Apply(codec, w, a))
  {
  }

  lemma StepKeepsInv(codec: Codec, w: World, a: Action)
    requires ValidCodec(codec) && Inv(codec, w)
    ensures Inv(codec, Step(codec, w, a)) && Extends(w.born, Step(codec, w, a).born)
  {
    if Enabled(codec, w, a) {
      StepKeepsRowsSound(codec, w, a);
      StepKeepsLocks(codec, w, a);
      StepKeepsDrafts(codec, w, a);
    }
  }

  /** Every interleaving keeps the table sound and every identifier's identity. */
  lemma {:induction false} RunKeepsInv(codec: Codec, w: World, actions: seq<Action>)
    requires ValidCodec(codec) && Inv(codec, w)
    ensures Inv(codec, Run(codec, w, actions)) && Extends(w.born, Run(codec, w, actions).born)
    decreases |actions|
  {
    if actions != [] {
      StepKeepsInv(codec, w, actions[0]);
      RunKeepsInv(codec, Step(codec, w, actions[0]), actions[1..]);
    }
  }

  lemma SoundRowServesItsUri(codec: Codec, row: Row, variant: string)
    requires ValidCodec(codec) && Sound(codec, row)
    ensures Served(codec, row, variant) == Rendered(codec, row.dataUri, variant)
  {
  }

  /** Binary or fallback, before or after any interleaving, even across deletion and reinsertion: the same bytes. */
  lemma ServedBytesNeverChange(codec: Codec, w: World, actions: seq<Action>, id: Id, variant: string)
    requires ValidCodec(codec) && Inv(codec, w)
    requires id in w.rows && id in Run(codec, w, actions).rows
    ensures Served(codec, Run(codec, w, actions).rows[id], variant) == Served(codec, w.rows[id], variant)
    ensures IdentityOf(Run(codec, w, actions).rows[id]) == IdentityOf(w.rows[id])
    ensures Served(codec, w.rows[id], variant)
            == match codec(w.rows[id].dataUri)
               case None => None
               case Some(images) => Some(if variant == "thumb-v1" then images.thumbnail else images.original)
  {
    RunKeepsInv(codec, w, actions);
    SoundRowServesItsUri(codec, w.rows[id], variant);
    SoundRowServesItsUri(codec, Run(codec, w, actions).rows[id], variant);
  }

  /** A backfill step fills one missing row or nothing; it alters no other column and never adds or restores a row. */
  lemma BackfillOnlyFills(codec: Codec, w: World, a: Action)
    requires Inv(codec, w) && Enabled(codec, w, a)
    requires a.BackfillLock? || a.BackfillCommit? || a.BackfillAbort?
    ensures var w' := Apply(codec, w, a);
            && w'.rows.Keys == w.rows.Keys && w'.born == w.born
            && (forall id :: id in w.rows ==>
                  IdentityOf(w'.rows[id]) == IdentityOf(w.rows[id]) && w'.rows[id].sortOrder == w.rows[id].sortOrder)
            && (a.BackfillCommit? && w'.rows != w.rows ==>
                  var id := w.held[a.worker].0;
                  Missing(w.rows[id]) && !Missing(w'.rows[id]) && w'.rows == w.rows[id := w'.rows[id]])
  {
  }
}
