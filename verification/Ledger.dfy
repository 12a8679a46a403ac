/** The ledger's records. Identifiers are the 128-bit UUIDs read as numbers, so byte order is `<`. */
module Ledger {
  import opened Wrappers

  type Id = nat
  const NIL_ID: Id := 0

  /** Instants count from Go's zero time. */
  type Time = int
  const ZERO_TIME: Time := 0

  datatype Person = Person(id: Id, name: string, avatarColor: string)

  datatype Restaurant = Restaurant(
    id: Id,
    name: string,
    address: Option<string>,
    city: Option<string>,
    latitude: Option<real>,
    longitude: Option<real>,
    phone: Option<string>,
    website: Option<string>,
    googlePlaceId: Option<string>,
    googleRating: Option<real>,
    googlePriceLevel: Option<int>,
    category: Option<string>,
    isChain: bool,
    createdAt: Time,
    updatedAt: Time)

  datatype Rating = Rating(person: Person, score: real)

  datatype Tag = Tag(id: Id, name: string)

  type Bytes = seq<bv8>

  datatype Photo = Photo(
    id: Id,
    visitId: Id,
    dataUri: string,
    byteCount: nat,
    sortOrder: nat,
    createdAt: Time,
    original: Bytes,
    thumbnail: Bytes)

  /** A picker of None means Everybody picked. */
  datatype Visit = Visit(
    id: Id,
    restaurant: Restaurant,
    visitedAt: Time,
    picker: Option<Person>,
    priceLevel: int,
    notes: Option<string>,
    ratings: seq<Rating>,
    tags: seq<Tag>,
    photos: seq<Photo>,
    createdAt: Time,
    updatedAt: Time)
  {
    /** Enough people rated the visit for its ratings to count across visits. */
    predicate CountsInAggregates() {
      |ratings| >= MIN_AGGREGATE_RATERS
    }
  }

  const MIN_AGGREGATE_RATERS := 2

  /** The zero value matches every visit; set filters combine with AND. */
  datatype VisitFilter = VisitFilter(
    cuisine: string,
    everybodyPicked: bool,
    pickerId: Option<Id>,
    raterId: Option<Id>,
    tagId: Option<Id>,
    city: string,
    year: int)
}
