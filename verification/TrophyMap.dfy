/**
 The trophy map's viewport: the bounds of the visited points, the search for the zoom, and where the points
 land. Over exact reals, with the Mercator pair for latitudes a parameter.
 */
module TrophyMap {
  import opened Wrappers

  const WIDTH := 640.0
  const HEIGHT := 360.0
  const PADDING_X := 58.0
  const PADDING_Y := 74.0
  const MAX_ZOOM := 13

  datatype Point = Point(latitude: real, longitude: real)

  datatype Viewport = Viewport(latitude: real, longitude: real, zoom: int)

  /** unitY takes a latitude to the unit square, between lo and hi; latitude takes it back. */
  datatype Mercator = Mercator(unitY: real -> real, latitude: real -> real, lo: real, hi: real)

  /** The pair is mutually inverse on its clamped range. */
  ghost predicate IsProjection(m: Mercator) {
    && (forall latitude :: m.lo <= m.unitY(latitude) <= m.hi)
    && (forall y :: m.lo <= y <= m.hi ==> m.unitY(m.latitude(y)) == y)
  }

  function UnitX(longitude: real): real {
    (longitude + 180.0) / 360.0
  }

  function Longitude(x: real): real {
    x * 360.0 - 180.0
  }

  function WorldSize(zoom: nat): real {
    if zoom == 0 then 256.0 else 2.0 * WorldSize(zoom - 1)
  }

  // ---- Bounds ----

  function Min(a: real, b: real): real {
    if a < b then a else b
  }

  function Max(a: real, b: real): real {
    if a > b then a else b
  }

  datatype Bounds = Bounds(minX: real, maxX: real, minY: real, maxY: real)

  function At(p: Point, m: Mercator): Bounds {
    Bounds(UnitX(p.longitude), UnitX(p.longitude), m.unitY(p.latitude), m.unitY(p.latitude))
  }

  function Around(b: Bounds, p: Point, m: Mercator): Bounds {
    var x, y := UnitX(p.longitude), m.unitY(p.latitude);
    Bounds(Min(b.minX, x), Max(b.maxX, x), Min(b.minY, y), Max(b.maxY, y))
  }

  predicate Inside(b: Bounds, p: Point, m: Mercator) {
    b.minX <= UnitX(p.longitude) <= b.maxX && b.minY <= m.unitY(p.latitude) <= b.maxY
  }

  /** The least rectangle around the points: it holds them all, and a point is on each side. */
  ghost predicate AreBounds(points: seq<Point>, m: Mercator, b: Bounds) {
    && (forall i :: 0 <= i < |points| ==> Inside(b, points[i], m))
    && (exists i :: 0 <= i < |points| && UnitX(points[i].longitude) == b.minX)
    && (exists i :: 0 <= i < |points| && UnitX(points[i].longitude) == b.maxX)
    && (exists i :: 0 <= i < |points| && m.unitY(points[i].latitude) == b.minY)
    && (exists i :: 0 <= i < |points| && m.unitY(points[i].latitude) == b.maxY)
  }

  lemma BoundsGrow(points: seq<Point>, p: Point, m: Mercator, b: Bounds)
    requires AreBounds(points, m, b)
    ensures AreBounds(points + [p], m, Around(b, p, m))
  {
    var more, b' := points + [p], Around(b, p, m);
    assert more[|points|] == p;
    forall i | 0 <= i < |more| ensures Inside(b', more[i], m) {
      assert i < |points| ==> Inside(b, points[i], m);
    }
    var i :| 0 <= i < |points| && UnitX(points[i].longitude) == b.minX;
    assert more[i] == points[i];
    var j :| 0 <= j < |points| && UnitX(points[j].longitude) == b.maxX;
    assert more[j] == points[j];
    var k :| 0 <= k < |points| && m.unitY(points[k].latitude) == b.minY;
    assert more[k] == points[k];
    var l :| 0 <= l < |points| && m.unitY(points[l].latitude) == b.maxY;
    assert more[l] == points[l];
  }

  method FindBounds(points: seq<Point>, m: Mercator) returns (b: Bounds)
    requires points != []
    ensures AreBounds(points, m, b)
  {
    b := At(points[0], m);
    assert points[..1] == [points[0]];
    for i := 1 to |points|
      invariant AreBounds(points[..i], m, b)
    {
      BoundsGrow(points[..i], points[i], m, b);
      assert points[..i + 1] == points[..i] + [points[i]];
      b := Around(b, points[i], m);
    }
    assert points[..|points|] == points;
  }

  // ---- Zoom ----

  /** The padded map holds the rectangle at this zoom. */
  predicate Fits(b: Bounds, zoom: nat) {
    && SideFits(b.minX, b.maxX, WorldSize(zoom), WIDTH, PADDING_X)
    && SideFits(b.minY, b.maxY, WorldSize(zoom), HEIGHT, PADDING_Y)
  }

  predicate SideFits(low: real, high: real, world: real, size: real, padding: real) {
    (high - low) * world <= size - 2.0 * padding
  }

  lemma {:induction false} WorldsGrow(zoom: nat, closer: nat)
    requires zoom <= closer
    ensures 0.0 < WorldSize(zoom) <= WorldSize(closer)
    decreases closer
  {
    if zoom < closer {
      WorldsGrow(zoom, closer - 1);
    } else if zoom > 0 {
      WorldsGrow(zoom - 1, closer - 1);
    }
  }

  lemma Smaller(spread: real, world: real, world': real)
    requires spread >= 0.0 && world <= world'
    ensures spread * world <= spread * world'
  {
  }

  lemma SideFitsFurtherOut(low: real, high: real, world: real, closer: real, size: real, padding: real)
    requires low <= high && world <= closer && SideFits(low, high, closer, size, padding)
    ensures SideFits(low, high, world, size, padding)
  {
    Smaller(high - low, world, closer);
  }

  /** What fits at a zoom fits at every zoom further out. */
  lemma FitsFurtherOut(b: Bounds, zoom: nat, closer: nat)
    requires b.minX <= b.maxX && b.minY <= b.maxY && zoom <= closer && Fits(b, closer)
    ensures Fits(b, zoom)
  {
    WorldsGrow(zoom, closer);
    SideFitsFurtherOut(b.minX, b.maxX, WorldSize(zoom), WorldSize(closer), WIDTH, PADDING_X);
    SideFitsFurtherOut(b.minY, b.maxY, WorldSize(zoom), WorldSize(closer), HEIGHT, PADDING_Y);
  }

  /** The largest zoom that fits, or 0 when none does. */
  predicate IsZoom(b: Bounds, zoom: int) {
    && 0 <= zoom <= MAX_ZOOM
    && (Fits(b, zoom) || zoom == 0)
    && forall z :: zoom < z <= MAX_ZOOM ==> !Fits(b, z)
  }

  method FindZoom(b: Bounds) returns (zoom: int)
    ensures IsZoom(b, zoom)
  {
    zoom := 0;
    var candidate := MAX_ZOOM;
    while candidate >= 0
      invariant -1 <= candidate <= MAX_ZOOM
      invariant forall z :: candidate < z <= MAX_ZOOM ==> !Fits(b, z)
      decreases candidate
    {
      if Fits(b, candidate) {
        return candidate;
      }
      candidate := candidate - 1;
    }
  }

  /** Some zoom fits exactly when the widest one does. */
  lemma SomeZoomFitsIff(b: Bounds, zoom: int)
    requires b.minX <= b.maxX && b.minY <= b.maxY && IsZoom(b, zoom)
    ensures Fits(b, zoom) <==> Fits(b, 0)
  {
    if Fits(b, zoom) {
      FitsFurtherOut(b, 0, zoom);
    }
  }

  method TrophyMapViewport(points: seq<Point>, m: Mercator) returns (viewport: Option<Viewport>)
    ensures viewport.None? <==> points == []
    ensures |points| == 1 ==>
      && viewport == Some(Viewport(points[0].latitude, points[0].longitude, 13))
      && PointPercent(points[0], viewport.value, m) == (50.0, 50.0)
    ensures |points| > 1 ==> viewport.Some? && exists b :: AreBounds(points, m, b) && IsViewport(b, m, viewport.value)
  {
    if |points| == 0 {
      return None;
    }
    if |points| == 1 {
      LonePointIsCentred(points[0], m);
      return Some(Viewport(points[0].latitude, points[0].longitude, MAX_ZOOM));
    }
    var b := FindBounds(points, m);
    var zoom := FindZoom(b);
    viewport := Some(Viewport(m.latitude((b.minY + b.maxY) / 2.0), Longitude((b.minX + b.maxX) / 2.0), zoom));
    assert IsViewport(b, m, viewport.value);
  }

  /** The centre of the bounds, at the zoom for them. */
  predicate IsViewport(b: Bounds, m: Mercator, v: Viewport) {
    && v.latitude == m.latitude((b.minY + b.maxY) / 2.0) && v.longitude == Longitude((b.minX + b.maxX) / 2.0)
    && IsZoom(b, v.zoom)
  }

  // ---- Where points land ----

  /** A coordinate's pixel along a side of the map, before it is clamped. */
  function SidePixel(at: real, centre: real, world: real, size: real): real {
    at * world - centre * world + size / 2.0
  }

  function Left(p: Point, v: Viewport): real
    requires v.zoom >= 0
  {
    SidePixel(UnitX(p.longitude), UnitX(v.longitude), WorldSize(v.zoom), WIDTH)
  }

  function Top(p: Point, v: Viewport, m: Mercator): real
    requires v.zoom >= 0
  {
    SidePixel(m.unitY(p.latitude), m.unitY(v.latitude), WorldSize(v.zoom), HEIGHT)
  }

  /** trophyMapPointPercent */
  function PointPercent(p: Point, v: Viewport, m: Mercator): (real, real)
    requires v.zoom >= 0
  {
    (Max(0.0, Min(100.0, Left(p, v) / WIDTH * 100.0)), Max(0.0, Min(100.0, Top(p, v, m) / HEIGHT * 100.0)))
  }

  predicate SidePadded(pixel: real, size: real, padding: real) {
    padding <= pixel <= size - padding
  }

  predicate Padded(p: Point, v: Viewport, m: Mercator)
    requires v.zoom >= 0
  {
    SidePadded(Left(p, v), WIDTH, PADDING_X) && SidePadded(Top(p, v, m), HEIGHT, PADDING_Y)
  }

  lemma CentreProjects(points: seq<Point>, m: Mercator, b: Bounds, v: Viewport)
    requires IsProjection(m) && AreBounds(points, m, b) && IsViewport(b, m, v)
    ensures b.minX <= b.maxX && b.minY <= b.maxY
    ensures UnitX(v.longitude) == (b.minX + b.maxX) / 2.0 && m.unitY(v.latitude) == (b.minY + b.maxY) / 2.0
  {
    var i :| 0 <= i < |points| && m.unitY(points[i].latitude) == b.minY;
    var j :| 0 <= j < |points| && m.unitY(points[j].latitude) == b.maxY;
    assert Inside(b, points[i], m) && Inside(b, points[j], m);
  }

  /** A coordinate between the ends of a side that fits is inside the padding. */
  lemma FittingSideIsPadded(at: real, low: real, high: real, world: real, size: real, padding: real)
    requires low <= at <= high && world > 0.0 && SideFits(low, high, world, size, padding)
    ensures SidePadded(SidePixel(at, (low + high) / 2.0, world, size), size, padding)
  {
    var lowest, highest, here, middle := low * world, high * world, at * world, (low + high) / 2.0 * world;
    Ordered(low, at, world);
    Ordered(at, high, world);
    Spread(low, high, world);
    assert lowest <= here <= highest && middle == (lowest + highest) / 2.0 && highest - lowest <= size - 2.0 * padding;
  }

  lemma Ordered(a: real, b: real, world: real)
    requires a <= b && world > 0.0
    ensures a * world <= b * world
  {
  }

  lemma Spread(low: real, high: real, world: real)
    ensures (high - low) * world == high * world - low * world
    ensures (low + high) / 2.0 * world == (low * world + high * world) / 2.0
  {
  }

  /** The far end of a side inside the padding means the side fits. */
  lemma PaddedSideFits(low: real, high: real, world: real, size: real, padding: real)
    requires SidePadded(SidePixel(high, (low + high) / 2.0, world, size), size, padding)
    ensures SideFits(low, high, world, size, padding)
  {
    Spread(low, high, world);
  }

  /** The point lands inside the padding when the bounds around it fit. */
  lemma InsideIsPadded(p: Point, m: Mercator, b: Bounds, v: Viewport)
    requires v.zoom >= 0 && Inside(b, p, m) && Fits(b, v.zoom)
    requires UnitX(v.longitude) == (b.minX + b.maxX) / 2.0 && m.unitY(v.latitude) == (b.minY + b.maxY) / 2.0
    ensures Padded(p, v, m)
  {
    WorldsGrow(v.zoom, v.zoom);
    FittingSideIsPadded(UnitX(p.longitude), b.minX, b.maxX, WorldSize(v.zoom), WIDTH, PADDING_X);
    FittingSideIsPadded(m.unitY(p.latitude), b.minY, b.maxY, WorldSize(v.zoom), HEIGHT, PADDING_Y);
  }

  /** The bounds fit when the points on their far sides land inside the padding. */
  lemma PaddedMeansFits(p: Point, q: Point, m: Mercator, b: Bounds, v: Viewport)
    requires v.zoom >= 0 && UnitX(p.longitude) == b.maxX && m.unitY(q.latitude) == b.maxY
    requires UnitX(v.longitude) == (b.minX + b.maxX) / 2.0 && m.unitY(v.latitude) == (b.minY + b.maxY) / 2.0
    requires Padded(p, v, m) && Padded(q, v, m)
    ensures Fits(b, v.zoom)
  {
    PaddedSideFits(b.minX, b.maxX, WorldSize(v.zoom), WIDTH, PADDING_X);
    PaddedSideFits(b.minY, b.maxY, WorldSize(v.zoom), HEIGHT, PADDING_Y);
  }

  ghost predicate AllPadded(points: seq<Point>, v: Viewport, m: Mercator)
    requires v.zoom >= 0
  {
    forall i :: 0 <= i < |points| ==> Padded(points[i], v, m)
  }

  lemma FittingPointsArePadded(points: seq<Point>, m: Mercator, b: Bounds, v: Viewport)
    requires IsProjection(m) && AreBounds(points, m, b) && IsViewport(b, m, v) && Fits(b, v.zoom)
    ensures AllPadded(points, v, m)
  {
    CentreProjects(points, m, b, v);
    forall i | 0 <= i < |points| ensures Padded(points[i], v, m) {
      InsideIsPadded(points[i], m, b, v);
    }
  }

  lemma PaddedPointsFit(points: seq<Point>, m: Mercator, b: Bounds, v: Viewport)
    requires IsProjection(m) && AreBounds(points, m, b) && IsViewport(b, m, v) && AllPadded(points, v, m)
    ensures Fits(b, v.zoom)
  {
    CentreProjects(points, m, b, v);
    var i :| 0 <= i < |points| && UnitX(points[i].longitude) == b.maxX;
    var j :| 0 <= j < |points| && m.unitY(points[j].latitude) == b.maxY;
    PaddedMeansFits(points[i], points[j], m, b, v);
  }

  /** Every visited point is inside the padded map exactly when some zoom fits. */
  lemma PointsArePaddedIff(points: seq<Point>, m: Mercator, b: Bounds, v: Viewport)
    requires IsProjection(m) && AreBounds(points, m, b) && IsViewport(b, m, v)
    ensures AllPadded(points, v, m) <==> Fits(b, 0)
  {
    CentreProjects(points, m, b, v);
    SomeZoomFitsIff(b, v.zoom);
    if Fits(b, v.zoom) {
      FittingPointsArePadded(points, m, b, v);
    }
    if AllPadded(points, v, m) {
      PaddedPointsFit(points, m, b, v);
    }
  }

  /** The world reaches from 180 degrees west to 180 east, is 256 pixels wide at zoom 0 and 2097152 at zoom 13. */
  lemma WorldIs()
    ensures UnitX(-180.0) == 0.0 && UnitX(0.0) == 0.5 && UnitX(180.0) == 1.0
    ensures forall x :: UnitX(Longitude(x)) == x
    ensures WorldSize(0) == 256.0 && WorldSize(1) == 512.0 && WorldSize(13) == 2097152.0
  {
    assert WorldSize(4) == 4096.0;
    assert WorldSize(8) == 65536.0;
    assert WorldSize(12) == 1048576.0;
  }

  lemma SidePaddedIff(at: real, centre: real, world: real, size: real, padding: real)
    ensures SidePadded(SidePixel(at, centre, world, size), size, padding)
       <==> padding <= size / 2.0 + (at - centre) * world <= size - padding
  {
    Spread(centre, at, world);
  }

  /**
   On a map of 640 by 360 a point is inside the padding when it is 58 pixels or more from the left and right and
   74 or more from the top and bottom, the viewport's own point being in the middle.
   */
  lemma PaddedIff(p: Point, v: Viewport, m: Mercator)
    requires v.zoom >= 0
    ensures Padded(p, v, m)
       <==> && 58.0 <= 320.0 + (UnitX(p.longitude) - UnitX(v.longitude)) * WorldSize(v.zoom) <= 582.0
            && 74.0 <= 180.0 + (m.unitY(p.latitude) - m.unitY(v.latitude)) * WorldSize(v.zoom) <= 286.0
  {
    SidePaddedIff(UnitX(p.longitude), UnitX(v.longitude), WorldSize(v.zoom), 640.0, 58.0);
    SidePaddedIff(m.unitY(p.latitude), m.unitY(v.latitude), WorldSize(v.zoom), 360.0, 74.0);
  }

  /** Inside the padding the clamps to 0..100 never act. */
  lemma PaddedIsNotClamped(p: Point, v: Viewport, m: Mercator)
    requires v.zoom >= 0 && Padded(p, v, m)
    ensures PointPercent(p, v, m) == (Left(p, v) / WIDTH * 100.0, Top(p, v, m) / HEIGHT * 100.0)
    ensures 0.0 < PointPercent(p, v, m).0 < 100.0 && 0.0 < PointPercent(p, v, m).1 < 100.0
  {
  }

  /** A lone point, at the zoom it is shown at, is in the middle. */
  lemma LonePointIsCentred(p: Point, m: Mercator)
    ensures PointPercent(p, Viewport(p.latitude, p.longitude, MAX_ZOOM), m) == (50.0, 50.0)
  {
  }
}
