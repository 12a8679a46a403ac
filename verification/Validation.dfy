/** What every visit input must satisfy before its photos are decoded. */
module Validation {
  import opened Wrappers
  import opened Ledger
  import Folds
  import PhotoEdits
  import Text

  const DAY := 24 * 3600

  /** The checked fields of a visit input; times count seconds and ratings are exact. */
  datatype Fields = Fields(
    restaurantId: Option<Id>, restaurantName: string, visitedAt: Time, priceLevel: int, ratings: map<Id, real>,
    googleRating: Option<real>, googlePriceLevel: Option<int>, keepPhotoIds: seq<Id>, photoCount: nat)

  predicate IsHalfStep(score: real) {
    0.0 <= score <= 10.0 && (score * 2.0).Floor as real == score * 2.0
  }

  predicate GoogleOk(rating: Option<real>, priceLevel: Option<int>) {
    (rating.Some? ==> 0.0 <= rating.value <= 5.0) && (priceLevel.Some? ==> 1 <= priceLevel.value <= 4)
  }

  ghost predicate RatingsOk(ratings: map<Id, real>) {
    ratings != map[] && forall id :: id in ratings ==> IsHalfStep(ratings[id])
  }

  ghost predicate PhotosOk(keep: seq<Id>, photoCount: nat) {
    && |keep| + photoCount <= PhotoEdits.MAX_VISIT_PHOTOS
    && NIL_ID !in keep
    && forall i, j :: 0 <= i < j < |keep| ==> keep[i] != keep[j]
  }

  ghost predicate FieldsOk(f: Fields, now: Time) {
    && (f.restaurantId.Some? || Text.Trim(f.restaurantName) != "")
    && f.visitedAt != ZERO_TIME && f.visitedAt <= now + DAY
    && 1 <= f.priceLevel <= 4
    && RatingsOk(f.ratings) && GoogleOk(f.googleRating, f.googlePriceLevel) && PhotosOk(f.keepPhotoIds, f.photoCount)
  }

  function Halves(n: int): real {
    n as real / 2.0
  }

  /** A half step is a whole number of halves, so scores may be doubled and counted in integers. */
  lemma HalfStepsAreWhole(score: real)
    ensures IsHalfStep(score) <==> exists n: int :: 0 <= n <= 20 && score == Halves(n)
  {
    if IsHalfStep(score) {
      var n := (score * 2.0).Floor;
      assert score == Halves(n);
    }
    if n: int :| 0 <= n <= 20 && score == Halves(n) {
      assert score * 2.0 == n as real;
    }
  }

  /** The numbers a rating may be: 0, a half, and so on up to 10. */
  predicate IsScore(score: real) {
    exists n: int :: 0 <= n <= 20 && score == Halves(n)
  }

  /**
   A chosen restaurant or a name that is more than white space; a date, at most a day ahead; a price from 1 to 4;
   ratings in halves from 0 to 10, at least one; Google's values in their ranges; four photos at most, none of
   the kept ones nil or twice.
   */
  ghost predicate IsAcceptable(f: Fields, now: Time) {
    && (f.restaurantId.Some? || exists i :: 0 <= i < |f.restaurantName| && !Text.IsSpace(f.restaurantName[i]))
    && f.visitedAt != 0 && f.visitedAt - now <= 86400
    && f.priceLevel in {1, 2, 3, 4}
    && (exists id :: id in f.ratings) && (forall id :: id in f.ratings ==> IsScore(f.ratings[id]))
    && (f.googleRating.None? || 0.0 <= f.googleRating.value <= 5.0)
    && (f.googlePriceLevel.None? || f.googlePriceLevel.value in {1, 2, 3, 4})
    && |f.keepPhotoIds| + f.photoCount <= 4
    && 0 !in f.keepPhotoIds && forall id :: id in f.keepPhotoIds ==> multiset(f.keepPhotoIds)[id] == 1
  }

  lemma DistinctIff(ids: seq<Id>)
    ensures (forall i, j :: 0 <= i < j < |ids| ==> ids[i] != ids[j])
       <==> forall id :: id in ids ==> multiset(ids)[id] == 1
  {
    if forall i, j :: 0 <= i < j < |ids| ==> ids[i] != ids[j] {
      forall id | id in ids ensures multiset(ids)[id] == 1 {
        Folds.OnceInADistinctList(ids, id);
      }
    } else {
      var i, j :| 0 <= i < j < |ids| && ids[i] == ids[j];
      Folds.TwiceInAList(ids, i, j);
      assert ids[i] in ids;
    }
  }

  /** The checks accept exactly the acceptable inputs. */
  lemma FieldsOkIff(f: Fields, now: Time)
    ensures FieldsOk(f, now) <==> IsAcceptable(f, now)
  {
    Text.WhiteSpaceTrimsAway(f.restaurantName);
    DistinctIff(f.keepPhotoIds);
    forall id | id in f.ratings ensures IsHalfStep(f.ratings[id]) <==> IsScore(f.ratings[id]) {
      HalfStepsAreWhole(f.ratings[id]);
    }
    assert f.ratings != map[] <==> exists id :: id in f.ratings;
  }

  /** The ratings of a map, in whatever order it is ranged over. */
  method RatingsAreOk(ratings: map<Id, real>) returns (ok: bool)
    ensures ok <==> RatingsOk(ratings)
  {
    var valid := 0;
    var left := ratings.Keys;
    while left != {}
      invariant left <= ratings.Keys
      invariant forall id :: id in ratings && id !in left ==> IsHalfStep(ratings[id])
      invariant valid == 0 <==> left == ratings.Keys
      invariant valid >= 0
      decreases |left|
    {
      var id :| id in left;
      if !IsHalfStep(ratings[id]) {
        return false;
      }
      valid := valid + 1;
      left := left - {id};
      assert id in ratings.Keys && id !in left;
    }
    assert ratings == map[] <==> ratings.Keys == {};
    ok := valid != 0;
  }

  method PhotoIdsAreOk(keep: seq<Id>) returns (ok: bool)
    ensures ok <==> NIL_ID !in keep && forall i, j :: 0 <= i < j < |keep| ==> keep[i] != keep[j]
  {
    var seen: map<Id, bool> := map[];
    for i := 0 to |keep|
      invariant forall id :: id in seen <==> id in keep[..i]
      invariant NIL_ID !in keep[..i] && forall j, k :: 0 <= j < k < i ==> keep[j] != keep[k]
    {
      if keep[i] == NIL_ID {
        return false;
      }
      if keep[i] in seen {
        var j :| 0 <= j < i && keep[..i][j] == keep[i];
        assert keep[j] == keep[i];
        return false;
      }
      seen := seen[keep[i] := true];
      assert keep[..i + 1] == keep[..i] + [keep[i]];
    }
    assert keep[..|keep|] == keep;
    ok := true;
  }

  method ValidateFields(f: Fields, now: Time) returns (ok: bool)
    ensures ok <==> FieldsOk(f, now)
    ensures ok <==> IsAcceptable(f, now)
  {
    FieldsOkIff(f, now);
    if f.restaurantId.None? && Text.Trim(f.restaurantName) == "" {
      return false;
    }
    if f.visitedAt == ZERO_TIME || f.visitedAt > now + DAY || f.priceLevel < 1 || f.priceLevel > 4 {
      return false;
    }
    var ratingsOk := RatingsAreOk(f.ratings);
    if !ratingsOk || !GoogleOk(f.googleRating, f.googlePriceLevel) {
      return false;
    }
    if |f.keepPhotoIds| + f.photoCount > PhotoEdits.MAX_VISIT_PHOTOS {
      return false;
    }
    ok := PhotoIdsAreOk(f.keepPhotoIds);
  }
}
