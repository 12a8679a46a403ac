/**
 The decode cache of submitted photos. A prepared photo remembers the URI it was decoded from, so editing
 the URI makes it stale; stores get copies, so nothing they do reaches the cache.
 */
module PreparedPhotos {
  import opened Wrappers
  import opened Ledger
  import opened PhotoTable
  import Text
  import opened Validation

  /** Made only by Prepare, and never changed. */
  class PreparedPhoto {
    const dataUri: string
    const original: array<bv8>
    const thumbnail: array<bv8>

    constructor (dataUri: string, original: array<bv8>, thumbnail: array<bv8>)
      ensures this.dataUri == dataUri && this.original == original && this.thumbnail == thumbnail
    {
      this.dataUri, this.original, this.thumbnail := dataUri, original, thumbnail;
    }

    /** The cache holds the decode of the URI it was made from. */
    ghost predicate Decoded(codec: Codec)
      reads original, thumbnail
    {
      codec(dataUri) == Some(Images(original[..], thumbnail[..]))
    }
  }

  /**
   A context as Prepare sees it: done or not at each of Prepare's own checks, and whether the decode of a
   photo notices that it will be done by the next of them. A context once done stays so.
   */
  datatype Context = Context(doneAt: nat -> bool, noticedIn: nat -> bool)

  predicate Interrupted(context: Context, i: nat) {
    context.doneAt(i + 2) && context.noticedIn(i)
  }

  /** A submitted photo; its cache, if any, may be of an older URI. */
  datatype PhotoInput = PhotoInput(dataUri: string, prepared: PreparedPhoto?)

  /** The cache is there and of the current URI. */
  predicate Current(photo: PhotoInput) {
    photo.prepared != null && photo.prepared.dataUri == photo.dataUri
  }

  /** The byte arrays of the caches. */
  ghost function Arrays(photos: seq<PhotoInput>): set<object> {
    (set i | 0 <= i < |photos| && photos[i].prepared != null :: photos[i].prepared.original)
    + (set i | 0 <= i < |photos| && photos[i].prepared != null :: photos[i].prepared.thumbnail)
  }

  ghost predicate CachesDecoded(photos: seq<PhotoInput>, codec: Codec)
    reads Arrays(photos)
  {
    forall i :: 0 <= i < |photos| && photos[i].prepared != null ==> photos[i].prepared.Decoded(codec)
  }

  method NewBytes(bytes: Bytes) returns (a: array<bv8>)
    ensures fresh(a) && a[..] == bytes
  {
    a := new bv8[|bytes|](i requires 0 <= i < |bytes| => bytes[i]);
  }

  /** PrepareVisitPhoto, into arrays of its own, unless the context interrupts it. */
  method DecodeOne(uri: string, codec: Codec, interrupted: bool) returns (prepared: PreparedPhoto?)
    ensures prepared == null <==> interrupted || codec(uri).None?
    ensures prepared != null ==>
      && fresh(prepared) && fresh(prepared.original) && fresh(prepared.thumbnail)
      && prepared.dataUri == uri && prepared.Decoded(codec)
  {
    var images := codec(uri);
    if interrupted || images.None? {
      return null;
    }
    var original := NewBytes(images.value.original);
    var thumbnail := NewBytes(images.value.thumbnail);
    prepared := new PreparedPhoto(uri, original, thumbnail);
  }

  /** Every photo can be decoded, or has been. */
  ghost predicate Decodable(photos: seq<PhotoInput>, codec: Codec) {
    forall i :: 0 <= i < |photos| ==> Current(photos[i]) || codec(photos[i].dataUri).Some?
  }

  /** The photo after Prepare: as it was if its cache is current, else with a cache of its own. */
  ghost predicate IsPrepared(before: PhotoInput, after: PhotoInput) {
    && after.dataUri == before.dataUri && Current(after)
    && (Current(before) ==> after == before)
  }

  /** The slice is none of its caches' byte arrays, which in Go their types rule out. */
  ghost predicate Apart(photos: array<PhotoInput>)
    reads photos
  {
    photos !in Arrays(photos[..])
  }

  /** Decodes one photo of the slice, unless its cache is current. */
  method PrepareAt(copies: array<PhotoInput>, i: nat, codec: Codec, interrupted: bool) returns (ok: bool)
    requires i < copies.Length && CachesDecoded(copies[..], codec) && Apart(copies)
    modifies copies
    ensures ok <==> Current(old(copies[i])) || (codec(old(copies[i]).dataUri).Some? && !interrupted)
    ensures ok ==> IsPrepared(old(copies[i]), copies[i])
    ensures forall k :: 0 <= k < copies.Length && k != i ==> copies[k] == old(copies[k])
    ensures CachesDecoded(copies[..], codec) && Apart(copies)
  {
    var photo := copies[i];
    ok := true;
    if !Current(photo) {
      var decoded := DecodeOne(photo.dataUri, codec, interrupted);
      if decoded == null {
        return false;
      }
      ghost var before := copies[..];
      label decoding:
      copies[i] := photo.(prepared := decoded);
      forall k | 0 <= k < copies.Length && copies[..][k].prepared != null
        ensures copies[..][k].prepared.Decoded(codec)
      {
        if k != i {
          assert copies[..][k] == before[k];
          assert before[k].prepared.original in Arrays(before) && before[k].prepared.thumbnail in Arrays(before);
          assert old@decoding(before[k].prepared.Decoded(codec));
        }
      }
    }
  }

  /** Decodes the slice in place, checking the context before each photo. */
  method PrepareAll(copies: array<PhotoInput>, codec: Codec, context: Context) returns (ok: bool)
    requires CachesDecoded(copies[..], codec) && Apart(copies)
    modifies copies
    ensures ok ==> Decodable(old(copies[..]), codec) && forall k :: 0 < k <= copies.Length ==> !context.doneAt(k)
    ensures Decodable(old(copies[..]), codec) && (forall k :: 0 < k <= copies.Length + 1 ==> !context.doneAt(k)) ==> ok
    ensures ok ==> forall i :: 0 <= i < copies.Length ==> IsPrepared(old(copies[i]), copies[i])
    ensures CachesDecoded(copies[..], codec) && Apart(copies)
  {
    ghost var given := copies[..];
    for i := 0 to copies.Length
      invariant forall k :: 0 < k <= i ==> !context.doneAt(k)
      invariant forall k :: 0 <= k < i ==> Current(given[k]) || codec(given[k].dataUri).Some?
      invariant forall k :: 0 <= k < i ==> IsPrepared(given[k], copies[k])
      invariant forall k :: i <= k < copies.Length ==> copies[k] == given[k]
      invariant CachesDecoded(copies[..], codec) && Apart(copies)
    {
      if context.doneAt(i + 1) {
        return false;
      }
      ok := PrepareAt(copies, i, codec, Interrupted(context, i));
      if !ok {
        return;
      }
    }
    ok := true;
  }

  method CopySlice(photos: array<PhotoInput>, ghost codec: Codec) returns (copies: array<PhotoInput>)
    requires CachesDecoded(photos[..], codec)
    ensures fresh(copies) && copies[..] == photos[..] && CachesDecoded(copies[..], codec) && Apart(copies)
  {
    copies := new PhotoInput[photos.Length](i requires 0 <= i < photos.Length reads photos => photos[i]);
    assert copies[..] == photos[..];
  }

  predicate NeverDone(context: Context, photoCount: nat) {
    forall k :: 0 <= k <= photoCount + 1 ==> !context.doneAt(k)
  }

  /**
   Prepare: a new slice, with every photo decoded once. It changes neither the caller's slice nor any cache.
   The context is checked at the start, before and within each photo and at the end.
   */
  method Prepare(fields: Fields, photos: array<PhotoInput>, codec: Codec, now: Time, context: Context)
    returns (prepared: Option<array<PhotoInput>>)
    requires fields.photoCount == photos.Length && CachesDecoded(photos[..], codec)
    ensures prepared.Some?
       <==> (FieldsOk(fields, now) && Decodable(photos[..], codec) && NeverDone(context, photos.Length))
    ensures prepared.Some? ==>
      && fresh(prepared.value) && prepared.value.Length == photos.Length
      && CachesDecoded(prepared.value[..], codec) && Apart(prepared.value)
      && forall i :: 0 <= i < photos.Length ==> IsPrepared(photos[i], prepared.value[i])
  {
    if context.doneAt(0) {
      return None;
    }
    var ok := ValidateFields(fields, now);
    if !ok {
      return None;
    }
    var copies := CopySlice(photos, codec);
    assert copies.Length == |copies[..]| == |photos[..]|;
    assert forall i :: 0 <= i < photos.Length ==> copies[i] == copies[..][i] == photos[..][i] == photos[i];
    ok := PrepareAll(copies, codec, context);
    if !ok || context.doneAt(photos.Length + 1) {
      return None;
    }
    prepared := Some(copies);
  }

  /** A photo as a store writes it, with bytes of its own. */
  datatype StoredPhoto = StoredPhoto(
    dataUri: string, contentType: string, byteCount: nat, bytes: array<bv8>, thumbnail: array<bv8>)

  /** The stored photo is the decode of the submitted one's current URI. */
  ghost predicate IsDecodeOf(stored: StoredPhoto, photo: PhotoInput, codec: Codec)
    reads stored.bytes, stored.thumbnail
  {
    && codec(photo.dataUri) == Some(Images(stored.bytes[..], stored.thumbnail[..]))
    && stored.byteCount == stored.bytes.Length && stored.contentType == JPEG
    && stored.dataUri == Text.Trim(photo.dataUri)
  }

  /** PreparedPhotos: copies for a store; refused unless every photo's cache is current. */
  method CopyPrepared(photos: array<PhotoInput>, ghost codec: Codec) returns (stored: Option<seq<StoredPhoto>>)
    requires CachesDecoded(photos[..], codec)
    ensures stored.Some? <==> forall i :: 0 <= i < photos.Length ==> Current(photos[i])
    ensures stored.Some? ==>
      && |stored.value| == photos.Length
      && forall i :: 0 <= i < photos.Length ==>
           && IsDecodeOf(stored.value[i], photos[i], codec)
           && fresh(stored.value[i].bytes) && fresh(stored.value[i].thumbnail)
  {
    var copies: seq<StoredPhoto> := [];
    for i := 0 to photos.Length
      invariant |copies| == i && forall k :: 0 <= k < i ==> Current(photos[k])
      invariant forall k :: 0 <= k < i ==>
        && IsDecodeOf(copies[k], photos[k], codec) && fresh(copies[k].bytes) && fresh(copies[k].thumbnail)
    {
      var photo := photos[i];
      if !Current(photo) {
        return None;
      }
      assert photo == photos[..][i];
      var bytes := NewBytes(photo.prepared.original[..]);
      var thumbnail := NewBytes(photo.prepared.thumbnail[..]);
      copies := copies
        + [StoredPhoto(Text.Trim(photo.dataUri), JPEG, photo.prepared.original.Length, bytes, thumbnail)];
    }
    stored := Some(copies);
  }

  // ---- Any use of the cache ----

  datatype Use = Submit(fields: Fields, now: Time, context: Context) | ChangeUri(i: nat, uri: string)

  /** Prepare accepts these URIs, whatever the caches hold. */
  ghost predicate Accepts(use: Use, uris: seq<string>, codec: Codec)
    requires use.Submit?
  {
    && FieldsOk(use.fields.(photoCount := |uris|), use.now)
    && (forall i :: 0 <= i < |uris| ==> codec(uris[i]).Some?)
    && NeverDone(use.context, |uris|)
  }

  /** The URIs after the edits among the uses. */
  function UrisAfter(submitted: seq<string>, uses: seq<Use>): (uris: seq<string>)
    ensures |uris| == |submitted|
  {
    if uses == [] then submitted
    else
      var uris := UrisAfter(submitted, uses[..|uses| - 1]);
      match uses[|uses| - 1]
      case ChangeUri(i, uri) => if i < |uris| then uris[i := uri] else uris
      case Submit(_, _, _) => uris
  }

  /** The URIs as they were at the last submission accepted. */
  ghost function LastAccepted(submitted: seq<string>, uses: seq<Use>, codec: Codec): (uris: Option<seq<string>>)
    ensures uris.Some? ==> |uris.value| == |submitted|
  {
    if uses == [] then None
    else
      var before, use := uses[..|uses| - 1], uses[|uses| - 1];
      var uris := UrisAfter(submitted, before);
      if use.Submit? && Accepts(use, uris, codec) then Some(uris) else LastAccepted(submitted, before, codec)
  }

  /** The photo has the URI, and its cache, if any, is of the URI decoded. */
  predicate Tracks(photo: PhotoInput, uri: string, decoded: Option<string>) {
    photo.dataUri == uri && if photo.prepared == null then decoded.None? else decoded == Some(photo.prepared.dataUri)
  }

  function At<T>(xs: Option<seq<T>>, i: nat): Option<T>
    requires xs.Some? ==> i < |xs.value|
  {
    if xs.Some? then Some(xs.value[i]) else None
  }

  /** The slice holds what the uses so far made of the submitted URIs. */
  ghost predicate Follows(photos: seq<PhotoInput>, submitted: seq<string>, uses: seq<Use>, codec: Codec) {
    && |photos| == |submitted|
    && forall i :: 0 <= i < |photos| ==>
         Tracks(photos[i], UrisAfter(submitted, uses)[i], At(LastAccepted(submitted, uses, codec), i))
  }

  /** A cached photo's URI could be decoded, so caches never change what Prepare accepts. */
  lemma CachesChangeNoVerdict(photos: seq<PhotoInput>, uris: seq<string>, codec: Codec)
    requires CachesDecoded(photos, codec)
    requires |photos| == |uris| && forall i :: 0 <= i < |photos| ==> photos[i].dataUri == uris[i]
    ensures Decodable(photos, codec) <==> forall i :: 0 <= i < |uris| ==> codec(uris[i]).Some?
  {
  }

  /** A caller's edit of a photo's URI. */
  method EditUri(photos: array<PhotoInput>, i: nat, uri: string, ghost codec: Codec)
    requires i < photos.Length && CachesDecoded(photos[..], codec) && Apart(photos)
    modifies photos
    ensures photos[..] == old(photos[..])[i := old(photos[i]).(dataUri := uri)]
    ensures CachesDecoded(photos[..], codec) && Apart(photos)
  {
    ghost var before := photos[..];
    label editing:
    photos[i] := photos[i].(dataUri := uri);
    forall k | 0 <= k < photos.Length && photos[..][k].prepared != null
      ensures photos[..][k].prepared.Decoded(codec)
    {
      assert photos[..][k].prepared == before[k].prepared;
      assert before[k].prepared.original in Arrays(before) && before[k].prepared.thumbnail in Arrays(before);
      assert old@editing(before[k].prepared.Decoded(codec));
    }
  }

  /** One use: a submission replaces the slice if it is accepted, an edit works in place. */
  method UseOnce(photos: array<PhotoInput>, submitted: seq<string>, uses: seq<Use>, n: nat, codec: Codec)
    returns (photos': array<PhotoInput>)
    requires n < |uses| && CachesDecoded(photos[..], codec) && Apart(photos)
    requires Follows(photos[..], submitted, uses[..n], codec)
    modifies photos
    ensures photos' == photos || fresh(photos')
    ensures CachesDecoded(photos'[..], codec) && Apart(photos')
    ensures Follows(photos'[..], submitted, uses[..n + 1], codec)
  {
    assert uses[..n + 1][..n] == uses[..n];
    ghost var given := photos[..];
    photos' := photos;
    match uses[n] {
      case Submit(fields, now, context) =>
        CachesChangeNoVerdict(given, UrisAfter(submitted, uses[..n]), codec);
        var prepared := Prepare(fields.(photoCount := photos.Length), photos, codec, now, context);
        assert prepared.Some? <==> Accepts(uses[n], UrisAfter(submitted, uses[..n]), codec);
        assert photos[..] == given;
        if prepared.Some? {
          photos' := prepared.value;
          assert forall i :: 0 <= i < photos.Length ==> photos[i] == given[i] && photos'[..][i] == photos'[i];
        }
      case ChangeUri(i, uri) =>
        if i < photos.Length {
          EditUri(photos, i, uri, codec);
        }
    }
  }

  lemma AllCurrentIff(photos: seq<PhotoInput>, submitted: seq<string>, uses: seq<Use>, codec: Codec)
    requires Follows(photos, submitted, uses, codec)
    ensures (forall i :: 0 <= i < |photos| ==> Current(photos[i]))
       <==> (submitted == [] || LastAccepted(submitted, uses, codec) == Some(UrisAfter(submitted, uses)))
  {
    var uris, last := UrisAfter(submitted, uses), LastAccepted(submitted, uses, codec);
    if submitted != [] && forall i :: 0 <= i < |photos| ==> Current(photos[i]) {
      assert Current(photos[0]) && last.Some?;
      assert forall i :: 0 <= i < |uris| ==> Current(photos[i]) && last.value[i] == uris[i];
      assert last.value == uris;
    }
  }

  /**
   However a caller prepares photos and edits their URIs: the store gets copies exactly when the last
   submission accepted had the URIs as they are at the end, and the copies are the decodes of those.
   */
  method AnyUse(submitted: seq<string>, uses: seq<Use>, codec: Codec)
    returns (photos: array<PhotoInput>, stored: Option<seq<StoredPhoto>>)
    ensures photos.Length == |submitted|
    ensures forall i :: 0 <= i < photos.Length ==> photos[i].dataUri == UrisAfter(submitted, uses)[i]
    ensures forall i :: 0 <= i < photos.Length ==>
      (Current(photos[i]) <==> At(LastAccepted(submitted, uses, codec), i) == Some(UrisAfter(submitted, uses)[i]))
    ensures stored.Some? <==>
      (submitted == [] || LastAccepted(submitted, uses, codec) == Some(UrisAfter(submitted, uses)))
    ensures stored.Some? ==>
      && |stored.value| == photos.Length
      && forall i :: 0 <= i < photos.Length ==> IsDecodeOf(stored.value[i], photos[i], codec)
  {
    photos := new PhotoInput[|submitted|](i requires 0 <= i < |submitted| => PhotoInput(submitted[i], null));
    assert forall i :: 0 <= i < photos.Length ==> photos[..][i] == photos[i];
    for n := 0 to |uses|
      invariant fresh(photos) && CachesDecoded(photos[..], codec) && Apart(photos)
      invariant Follows(photos[..], submitted, uses[..n], codec)
    {
      photos := UseOnce(photos, submitted, uses, n, codec);
    }
    assert uses[..|uses|] == uses;
    assert forall i :: 0 <= i < photos.Length ==> photos[i] == photos[..][i];
    AllCurrentIff(photos[..], submitted, uses, codec);
    stored := CopyPrepared(photos, codec);
  }

  /** The byte arrays of a store's copies. */
  ghost function CopiedArrays(stored: seq<StoredPhoto>): set<object> {
    (set i | 0 <= i < |stored| :: stored[i].bytes) + (set i | 0 <= i < |stored| :: stored[i].thumbnail)
  }

  method Overwrite(a: array<bv8>, junk: bv8)
    modifies a
    ensures forall k :: 0 <= k < a.Length ==> a[k] == junk
  {
    forall k | 0 <= k < a.Length {
      a[k] := junk;
    }
  }

  /** A store overwrites every byte it was given. */
  method Scribble(stored: seq<StoredPhoto>, junk: bv8)
    modifies CopiedArrays(stored)
    ensures forall i :: 0 <= i < |stored| ==>
      && (forall k :: 0 <= k < stored[i].bytes.Length ==> stored[i].bytes[k] == junk)
      && (forall k :: 0 <= k < stored[i].thumbnail.Length ==> stored[i].thumbnail[k] == junk)
  {
    for i := 0 to |stored|
      invariant forall n :: 0 <= n < i ==>
        && (forall k :: 0 <= k < stored[n].bytes.Length ==> stored[n].bytes[k] == junk)
        && (forall k :: 0 <= k < stored[n].thumbnail.Length ==> stored[n].thumbnail[k] == junk)
    {
      Overwrite(stored[i].bytes, junk);
      Overwrite(stored[i].thumbnail, junk);
    }
  }

  /** Overwriting all that a store was given changes no cache: the next copies are the same decodes. */
  method ScribbleOnCopies(photos: array<PhotoInput>, codec: Codec, junk: bv8)
    returns (stored: Option<seq<StoredPhoto>>, again: Option<seq<StoredPhoto>>)
    requires CachesDecoded(photos[..], codec)
    ensures stored.Some? <==> forall i :: 0 <= i < photos.Length ==> Current(photos[i])
    ensures again.Some? <==> stored.Some?
    ensures stored.Some? ==> forall i :: 0 <= i < |stored.value| ==>
      && (forall k :: 0 <= k < stored.value[i].bytes.Length ==> stored.value[i].bytes[k] == junk)
      && (forall k :: 0 <= k < stored.value[i].thumbnail.Length ==> stored.value[i].thumbnail[k] == junk)
    ensures again.Some? ==>
      && |again.value| == |stored.value| == photos.Length
      && forall i :: 0 <= i < photos.Length ==> IsDecodeOf(again.value[i], photos[i], codec)
    ensures CachesDecoded(photos[..], codec)
    ensures forall i :: 0 <= i < photos.Length && photos[i].prepared != null ==>
      && photos[i].prepared.original[..] == old(photos[i].prepared.original[..])
      && photos[i].prepared.thumbnail[..] == old(photos[i].prepared.thumbnail[..])
  {
    stored := CopyPrepared(photos, codec);
    if stored.Some? {
      Scribble(stored.value, junk);
    }
    again := CopyPrepared(photos, codec);
  }
}
