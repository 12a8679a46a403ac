/**
 Thumbnails by integer area averaging: which images are accepted, how the source is cut into boxes, and
 what each thumbnail pixel is.
 */
module Thumbnail {
  import opened Wrappers

  const MAX_PHOTO_DIMENSION := 8192
  const MAX_PHOTO_PIXELS := 16_000_000
  const THUMBNAIL_SIZE := 320

  newtype uint64 = x: int | 0 <= x < 0x1_0000_0000_0000_0000
  newtype byte = x: int | 0 <= x < 0x100

  /** One 16-bit colour channel of a pixel, as RGBA yields it. */
  newtype Channel = x: int | 0 <= x < 0x1_0000

  type Plane = (int, int) -> Channel

  datatype Image = Image(width: int, height: int, red: Plane, green: Plane, blue: Plane)

  datatype Rgb = Rgb(red: byte, green: byte, blue: byte)

  // ---- Which images are accepted ----

  /** The check decodePhoto makes on the header, which multiplies nothing. */
  predicate Accepts(width: int, height: int) {
    !(width <= 0 || height <= 0 || width > MAX_PHOTO_DIMENSION || height > MAX_PHOTO_DIMENSION
      || width > MAX_PHOTO_PIXELS / height)
  }

  /** The division decides the number of pixels exactly. */
  lemma AcceptsIff(width: int, height: int)
    ensures Accepts(width, height)
       <==> 1 <= width <= 8192 && 1 <= height <= 8192 && width * height <= 16_000_000
  {
    if height > 0 {
      DivisionLimits(width, height, MAX_PHOTO_PIXELS);
    }
  }

  lemma DivisionLimits(a: int, b: int, limit: nat)
    requires b > 0
    ensures a > limit / b <==> a * b > limit
  {
    Quotient(limit, b);
    Multiples(a - limit / b, b);
  }

  // ---- Quotients ----

  lemma Multiples(d: int, b: int)
    requires b > 0
    ensures d >= 1 ==> d * b >= b
    ensures d <= 0 ==> d * b <= 0
    ensures d <= -1 ==> d * b <= -b
  {
  }

  lemma Quotient(a: int, b: int)
    requires b > 0
    ensures (a / b) * b <= a < (a / b) * b + b
  {
  }

  lemma QuotientAtMost(a: int, b: int, q: int)
    requires b > 0 && a <= q * b
    ensures a / b <= q
  {
    Quotient(a, b);
    Multiples(a / b - q, b);
  }

  lemma QuotientAtLeast(a: int, b: int, q: int)
    requires b > 0 && q * b <= a
    ensures q <= a / b
  {
    Quotient(a, b);
    Multiples(q - a / b, b);
  }

  lemma ExactQuotient(k: int, b: int)
    requires b > 0
    ensures k * b / b == k
  {
    QuotientAtMost(k * b, b, k);
    QuotientAtLeast(k * b, b, k);
  }

  // ---- The size of the thumbnail ----

  function Max(a: int, b: int): int {
    if a >= b then a else b
  }

  function ThumbnailSize(width: int, height: int): (int, int)
    requires width > 0 && height > 0
  {
    if width > THUMBNAIL_SIZE || height > THUMBNAIL_SIZE then
      if width >= height then (THUMBNAIL_SIZE, Max(1, height * THUMBNAIL_SIZE / width))
      else (Max(1, width * THUMBNAIL_SIZE / height), THUMBNAIL_SIZE)
    else (width, height)
  }

  lemma ShorterSideFits(short: int, long: int)
    requires 0 < short <= long && long > THUMBNAIL_SIZE
    ensures 1 <= Max(1, short * THUMBNAIL_SIZE / long) <= THUMBNAIL_SIZE
    ensures Max(1, short * THUMBNAIL_SIZE / long) <= short
  {
    assert short * THUMBNAIL_SIZE <= long * THUMBNAIL_SIZE && short * THUMBNAIL_SIZE <= short * long;
    QuotientAtMost(short * THUMBNAIL_SIZE, long, THUMBNAIL_SIZE);
    QuotientAtMost(short * THUMBNAIL_SIZE, long, short);
  }

  /** Sides in 1..320 and never larger than the source's; a source that fits keeps its size. */
  lemma ThumbnailFits(width: int, height: int)
    requires width > 0 && height > 0
    ensures var (tw, th) := ThumbnailSize(width, height);
            && 1 <= tw <= THUMBNAIL_SIZE && 1 <= th <= THUMBNAIL_SIZE && tw <= width && th <= height
            && (width <= THUMBNAIL_SIZE && height <= THUMBNAIL_SIZE <==> (tw, th) == (width, height))
            && (width > THUMBNAIL_SIZE || height > THUMBNAIL_SIZE ==> tw == THUMBNAIL_SIZE || th == THUMBNAIL_SIZE)
  {
    if width > THUMBNAIL_SIZE || height > THUMBNAIL_SIZE {
      if width >= height {
        ShorterSideFits(height, width);
      } else {
        ShorterSideFits(width, height);
      }
    }
  }

  /**
   The thumbnail's shape is the source's: one within 320x320 keeps its size; of a larger one the longer side
   becomes 320, and the shorter the largest whole number in proportion, but at least 1.
   */
  predicate KeepsShape(width: int, height: int, tw: int, th: int) {
    if width <= 320 && height <= 320 then tw == width && th == height
    else if width >= height then
      tw == 320 && th >= 1 && 320 * height < (th + 1) * width && (th * width <= 320 * height || th == 1)
    else
      th == 320 && tw >= 1 && 320 * width < (tw + 1) * height && (tw * height <= 320 * width || tw == 1)
  }

  lemma ProportionalSide(short: int, long: int)
    requires 0 < short <= long
    ensures var side := Max(1, short * 320 / long);
            && side >= 1 && 320 * short < (side + 1) * long && (side * long <= 320 * short || side == 1)
  {
    var q := short * 320 / long;
    Quotient(short * 320, long);
    assert (q + 1) * long == q * long + long;
    if q < 1 {
      Multiples(q, long);
      assert 320 * short < long && (1 + 1) * long == long + long;
    }
  }

  lemma ThumbnailKeepsShape(width: int, height: int)
    requires width > 0 && height > 0
    ensures KeepsShape(width, height, ThumbnailSize(width, height).0, ThumbnailSize(width, height).1)
  {
    if width >= height {
      ProportionalSide(height, width);
    } else {
      ProportionalSide(width, height);
    }
  }

  // ---- Boxes ----

  /** Where box k of t begins on a side of n pixels. */
  function Edge(k: int, n: int, t: int): int
    requires t > 0
  {
    k * n / t
  }

  lemma EdgesAscend(k: int, n: int, t: int)
    requires 0 < t <= n
    ensures Edge(k, n, t) < Edge(k + 1, n, t)
  {
    assert (k + 1) * n == k * n + n;
    QuotientGrows(k * n, n, t);
  }

  lemma QuotientGrows(a: int, n: int, t: int)
    requires 0 < t <= n
    ensures a / t < (a + n) / t
  {
    Quotient(a, t);
    assert (a / t + 1) * t == (a / t) * t + t;
    QuotientAtLeast(a + n, t, a / t + 1);
  }

  lemma EdgesMeetTheEnds(n: int, t: int)
    requires t > 0
    ensures Edge(0, n, t) == 0 && Edge(t, n, t) == n
  {
    ExactQuotient(n, t);
    assert t * n == n * t;
    assert 0 * n == 0 * t;
    ExactQuotient(0, t);
  }

  lemma {:induction false} EdgesSpread(j: int, k: int, n: int, t: int)
    requires 0 < t <= n && j <= k
    ensures Edge(k, n, t) - Edge(j, n, t) >= k - j
    decreases k - j
  {
    if j < k {
      EdgesSpread(j, k - 1, n, t);
      EdgesAscend(k - 1, n, t);
    }
  }

  predicate InBox(p: int, k: int, n: int, t: int)
    requires t > 0
  {
    Edge(k, n, t) <= p < Edge(k + 1, n, t)
  }

  /** Not empty, and inside the side. */
  predicate ProperBox(k: int, n: int, t: int)
    requires t > 0
  {
    0 <= Edge(k, n, t) < Edge(k + 1, n, t) <= n
  }

  lemma {:induction false} SomeBox(p: int, k: nat, n: int, t: int) returns (box: nat)
    requires 0 < t <= n && k <= t && 0 <= p < Edge(k, n, t)
    ensures box < k && InBox(p, box, n, t)
  {
    EdgesMeetTheEnds(n, t);
    if Edge(k - 1, n, t) <= p {
      box := k - 1;
    } else {
      box := SomeBox(p, k - 1, n, t);
    }
  }

  /** Along a side, boxes are not empty and every pixel is in exactly one of them. */
  lemma BoxesTile(p: int, n: int, t: int) returns (box: nat)
    requires 0 < t <= n && 0 <= p < n
    ensures box < t && InBox(p, box, n, t)
    ensures forall k :: 0 <= k < t && InBox(p, k, n, t) ==> k == box
    ensures forall k :: 0 <= k < t ==> ProperBox(k, n, t)
  {
    EdgesMeetTheEnds(n, t);
    box := SomeBox(p, t, n, t);
    forall k | 0 <= k < t && InBox(p, k, n, t) ensures k == box {
      if k < box {
        EdgesSpread(k + 1, box, n, t);
      } else if box < k {
        EdgesSpread(box + 1, k, n, t);
      }
    }
    forall k | 0 <= k < t ensures ProperBox(k, n, t) {
      BoxBounds(k, n, t);
    }
  }

  lemma BoxBounds(k: int, n: int, t: int)
    requires 0 < t <= n && 0 <= k < t
    ensures 0 <= Edge(k, n, t) < Edge(k + 1, n, t) <= n
  {
    EdgesMeetTheEnds(n, t);
    EdgesSpread(0, k, n, t);
    EdgesAscend(k, n, t);
    EdgesSpread(k + 1, t, n, t);
  }

  /** A side that is not shrunk has one-pixel boxes. */
  lemma OnePixelBoxes(k: int, n: int)
    requires n > 0
    ensures Edge(k, n, n) == k
  {
    ExactQuotient(k, n);
  }

  /** p is the last pixel at or before the k-th of t equal parts of a side of n. */
  predicate StartsPart(p: int, k: int, n: int, t: int) {
    p * t <= k * n < (p + 1) * t
  }

  lemma EdgeStartsPart(k: int, n: int, t: int)
    requires t > 0
    ensures StartsPart(Edge(k, n, t), k, n, t)
  {
    Quotient(k * n, t);
    assert (Edge(k, n, t) + 1) * t == Edge(k, n, t) * t + t;
  }

  // ---- Sums ----

  function RowSum(p: Plane, y: int, x0: int, x1: int): nat
    decreases x1 - x0
  {
    if x1 <= x0 then 0 else RowSum(p, y, x0, x1 - 1) + p(x1 - 1, y) as int
  }

  function AreaSum(p: Plane, x0: int, x1: int, y0: int, y1: int): nat
    decreases y1 - y0
  {
    if y1 <= y0 then 0 else AreaSum(p, x0, x1, y0, y1 - 1) + RowSum(p, y1 - 1, x0, x1)
  }

  lemma {:induction false} RowSumSplits(p: Plane, y: int, x0: int, x1: int, x2: int)
    requires x0 <= x1 <= x2
    ensures RowSum(p, y, x0, x2) == RowSum(p, y, x0, x1) + RowSum(p, y, x1, x2)
    decreases x2 - x1
  {
    if x1 < x2 {
      RowSumSplits(p, y, x0, x1, x2 - 1);
    }
  }

  lemma {:induction false} AreaSumSplitsAcross(p: Plane, x0: int, x1: int, x2: int, y0: int, y1: int)
    requires x0 <= x1 <= x2
    ensures AreaSum(p, x0, x2, y0, y1) == AreaSum(p, x0, x1, y0, y1) + AreaSum(p, x1, x2, y0, y1)
    decreases y1 - y0
  {
    if y0 < y1 {
      AreaSumSplitsAcross(p, x0, x1, x2, y0, y1 - 1);
      RowSumSplits(p, y1 - 1, x0, x1, x2);
    }
  }

  lemma {:induction false} AreaSumSplitsDown(p: Plane, x0: int, x1: int, y0: int, y1: int, y2: int)
    requires y0 <= y1 <= y2
    ensures AreaSum(p, x0, x1, y0, y2) == AreaSum(p, x0, x1, y0, y1) + AreaSum(p, x0, x1, y1, y2)
    decreases y2 - y1
  {
    if y1 < y2 {
      AreaSumSplitsDown(p, x0, x1, y0, y1, y2 - 1);
    }
  }

  /** The sum of the first k boxes of a row of boxes between y0 and y1. */
  function BoxRowSum(p: Plane, width: int, tw: int, k: nat, y0: int, y1: int): nat
    requires tw > 0
  {
    if k == 0 then 0
    else BoxRowSum(p, width, tw, k - 1, y0, y1) + AreaSum(p, Edge(k - 1, width, tw), Edge(k, width, tw), y0, y1)
  }

  function BoxSums(p: Plane, width: int, height: int, tw: int, th: int, k: nat): nat
    requires tw > 0 && th > 0
  {
    if k == 0 then 0
    else BoxSums(p, width, height, tw, th, k - 1)
         + BoxRowSum(p, width, tw, tw, Edge(k - 1, height, th), Edge(k, height, th))
  }

  lemma {:induction false} BoxRowAddsUp(p: Plane, width: int, tw: int, k: nat, y0: int, y1: int)
    requires 0 < tw <= width && k <= tw
    ensures BoxRowSum(p, width, tw, k, y0, y1) == AreaSum(p, 0, Edge(k, width, tw), y0, y1)
  {
    EdgesMeetTheEnds(width, tw);
    if k == 0 {
      NoColumnsNoSum(p, y0, y1);
    } else {
      BoxRowAddsUp(p, width, tw, k - 1, y0, y1);
      BoxBounds(k - 1, width, tw);
      AreaSumSplitsAcross(p, 0, Edge(k - 1, width, tw), Edge(k, width, tw), y0, y1);
    }
  }

  lemma {:induction false} NoColumnsNoSum(p: Plane, y0: int, y1: int)
    ensures AreaSum(p, 0, 0, y0, y1) == 0
    decreases y1 - y0
  {
    if y0 < y1 {
      NoColumnsNoSum(p, y0, y1 - 1);
    }
  }

  lemma {:induction false} BoxRowsAddUp(p: Plane, width: int, height: int, tw: int, th: int, k: nat)
    requires 0 < tw <= width && 0 < th <= height && k <= th
    ensures BoxSums(p, width, height, tw, th, k) == AreaSum(p, 0, width, 0, Edge(k, height, th))
  {
    EdgesMeetTheEnds(width, tw);
    EdgesMeetTheEnds(height, th);
    if k > 0 {
      BoxRowsAddUp(p, width, height, tw, th, k - 1);
      BoxBounds(k - 1, height, th);
      BoxRowAddsUp(p, width, tw, tw, Edge(k - 1, height, th), Edge(k, height, th));
      AreaSumSplitsDown(p, 0, width, 0, Edge(k - 1, height, th), Edge(k, height, th));
    }
  }

  /** No pixel is lost or counted twice: the boxes' sums add up to the image's. */
  lemma BoxSumsAreTheImageSum(p: Plane, width: int, height: int)
    requires width > 0 && height > 0
    ensures var (tw, th) := ThumbnailSize(width, height);
            && 0 < tw && 0 < th
            && BoxSums(p, width, height, tw, th, th) == AreaSum(p, 0, width, 0, height)
  {
    ThumbnailFits(width, height);
    var (tw, th) := ThumbnailSize(width, height);
    BoxRowsAddUp(p, width, height, tw, th, th);
    EdgesMeetTheEnds(height, th);
  }

  // ---- Averages ----

  ghost predicate Within(p: Plane, x0: int, x1: int, y0: int, y1: int, lo: int, hi: int) {
    forall x, y :: x0 <= x < x1 && y0 <= y < y1 ==> lo <= p(x, y) as int <= hi
  }

  lemma {:induction false} RowSumBounds(p: Plane, y: int, x0: int, x1: int, w: nat, lo: int, hi: int)
    requires w == x1 - x0 && forall x :: x0 <= x < x1 ==> lo <= p(x, y) as int <= hi
    ensures lo * w <= RowSum(p, y, x0, x1) <= hi * w
    decreases w
  {
    if w > 0 {
      RowSumBounds(p, y, x0, x1 - 1, w - 1, lo, hi);
      assert lo * w == lo * (w - 1) + lo && hi * w == hi * (w - 1) + hi;
    }
  }

  lemma {:induction false} AreaSumBounds(p: Plane, x0: int, x1: int, y0: int, y1: int, w: nat, h: nat, lo: int, hi: int)
    requires w == x1 - x0 && h == y1 - y0 && Within(p, x0, x1, y0, y1, lo, hi)
    ensures lo * (w * h) <= AreaSum(p, x0, x1, y0, y1) <= hi * (w * h)
    decreases h
  {
    if h > 0 {
      AreaSumBounds(p, x0, x1, y0, y1 - 1, w, h - 1, lo, hi);
      RowSumBounds(p, y1 - 1, x0, x1, w, lo, hi);
      OneMoreRow(w, h, lo);
      OneMoreRow(w, h, hi);
    } else {
      assert w * h == 0;
    }
  }

  lemma OneMoreRow(w: int, h: int, v: int)
    ensures v * (w * h) == v * (w * (h - 1)) + v * w
  {
    assert w * h == w * (h - 1) + w;
  }

  /** red / count >> 8, with the box's exact sum. */
  function Average(p: Plane, x0: int, x1: int, y0: int, y1: int): int
    requires x0 < x1 && y0 < y1
  {
    CountIsPositive(x1 - x0, y1 - y0);
    AreaSum(p, x0, x1, y0, y1) / ((x1 - x0) * (y1 - y0)) / 256
  }

  lemma CountIsPositive(w: int, h: int)
    requires w > 0 && h > 0
    ensures w * h > 0
  {
  }

  /** A thumbnail byte lies between the box's least and greatest channel, shifted right by 8. */
  lemma AverageWithinBox(p: Plane, x0: int, x1: int, y0: int, y1: int, lo: int, hi: int)
    requires x0 < x1 && y0 < y1 && Within(p, x0, x1, y0, y1, lo, hi)
    ensures lo / 256 <= Average(p, x0, x1, y0, y1) <= hi / 256
  {
    var count := (x1 - x0) * (y1 - y0);
    CountIsPositive(x1 - x0, y1 - y0);
    AreaSumBounds(p, x0, x1, y0, y1, x1 - x0, y1 - y0, lo, hi);
    QuotientBetween(AreaSum(p, x0, x1, y0, y1), count, lo, hi);
  }

  /** The sum over the pixels, divided by their number and by 256, and rounded down. */
  predicate IsByteOf(b: int, sum: int, count: int) {
    b * (256 * count) <= sum < (b + 1) * (256 * count)
  }

  lemma AverageIsTheByte(p: Plane, x0: int, x1: int, y0: int, y1: int)
    requires x0 < x1 && y0 < y1
    ensures IsByteOf(Average(p, x0, x1, y0, y1), AreaSum(p, x0, x1, y0, y1), (x1 - x0) * (y1 - y0))
  {
    CountIsPositive(x1 - x0, y1 - y0);
    QuotientsNest(AreaSum(p, x0, x1, y0, y1), (x1 - x0) * (y1 - y0));
  }

  lemma QuotientsNest(a: int, count: int)
    requires count > 0
    ensures IsByteOf(a / count / 256, a, count)
  {
    var q, b := a / count, a / count / 256;
    Quotient(a, count);
    Quotient(q, 256);
    Ordered(b * 256, q, count);
    Ordered(q + 1, (b + 1) * 256, count);
    assert (q + 1) * count == q * count + count;
    assert b * 256 * count == b * (256 * count) && (b + 1) * 256 * count == (b + 1) * (256 * count);
  }

  lemma QuotientBetween(a: int, b: int, lo: int, hi: int)
    requires b > 0 && lo * b <= a <= hi * b
    ensures lo <= a / b <= hi
  {
    QuotientAtMost(a, b, hi);
    QuotientAtLeast(a, b, lo);
  }

  lemma AverageIsAByte(p: Plane, x0: int, x1: int, y0: int, y1: int)
    requires x0 < x1 && y0 < y1
    ensures 0 <= Average(p, x0, x1, y0, y1) < 0x100
  {
    AverageWithinBox(p, x0, x1, y0, y1, 0, 0xFFFF);
  }

  /** Box (x, y) of the thumbnail. */
  function BoxAverage(p: Plane, width: int, height: int, x: int, y: int): (b: byte)
    requires width > 0 && height > 0
    requires 0 <= x < ThumbnailSize(width, height).0 && 0 <= y < ThumbnailSize(width, height).1
  {
    var (tw, th) := ThumbnailSize(width, height);
    ThumbnailFits(width, height);
    BoxBounds(x, width, tw);
    BoxBounds(y, height, th);
    AverageIsAByte(p, Edge(x, width, tw), Edge(x + 1, width, tw), Edge(y, height, th), Edge(y + 1, height, th));
    Average(p, Edge(x, width, tw), Edge(x + 1, width, tw), Edge(y, height, th), Edge(y + 1, height, th)) as byte
  }

  function ThumbnailPixel(img: Image, x: int, y: int): Rgb
    requires img.width > 0 && img.height > 0
    requires 0 <= x < ThumbnailSize(img.width, img.height).0 && 0 <= y < ThumbnailSize(img.width, img.height).1
  {
    Rgb(BoxAverage(img.red, img.width, img.height, x, y), BoxAverage(img.green, img.width, img.height, x, y),
        BoxAverage(img.blue, img.width, img.height, x, y))
  }

  /** The pixel has the mean of its part of the image, in each channel, shifted right by 8. */
  ghost predicate ShowsItsPart(img: Image, pixel: Rgb, x: int, y: int, tw: int, th: int) {
    exists x0, x1, y0, y1 :: IsMeanOf(img, pixel, x0, x1, y0, y1)
      && StartsPart(x0, x, img.width, tw) && StartsPart(x1, x + 1, img.width, tw)
      && StartsPart(y0, y, img.height, th) && StartsPart(y1, y + 1, img.height, th)
  }

  predicate IsMeanOf(img: Image, pixel: Rgb, x0: int, x1: int, y0: int, y1: int) {
    && x0 < x1 && y0 < y1
    && IsByteOf(pixel.red as int, AreaSum(img.red, x0, x1, y0, y1), (x1 - x0) * (y1 - y0))
    && IsByteOf(pixel.green as int, AreaSum(img.green, x0, x1, y0, y1), (x1 - x0) * (y1 - y0))
    && IsByteOf(pixel.blue as int, AreaSum(img.blue, x0, x1, y0, y1), (x1 - x0) * (y1 - y0))
  }

  lemma PixelShowsItsPart(img: Image, x: int, y: int)
    requires img.width > 0 && img.height > 0
    requires 0 <= x < ThumbnailSize(img.width, img.height).0 && 0 <= y < ThumbnailSize(img.width, img.height).1
    ensures var (tw, th) := ThumbnailSize(img.width, img.height);
            ShowsItsPart(img, ThumbnailPixel(img, x, y), x, y, tw, th)
  {
    var (tw, th) := ThumbnailSize(img.width, img.height);
    ThumbnailFits(img.width, img.height);
    var x0, x1 := Edge(x, img.width, tw), Edge(x + 1, img.width, tw);
    var y0, y1 := Edge(y, img.height, th), Edge(y + 1, img.height, th);
    BoxBounds(x, img.width, tw);
    BoxBounds(y, img.height, th);
    AverageIsTheByte(img.red, x0, x1, y0, y1);
    AverageIsTheByte(img.green, x0, x1, y0, y1);
    AverageIsTheByte(img.blue, x0, x1, y0, y1);
    EdgeStartsPart(x, img.width, tw);
    EdgeStartsPart(x + 1, img.width, tw);
    EdgeStartsPart(y, img.height, th);
    EdgeStartsPart(y + 1, img.height, th);
    assert IsMeanOf(img, ThumbnailPixel(img, x, y), x0, x1, y0, y1);
  }

  /** A source within 320x320 is copied, each channel shifted right by 8. */
  lemma SmallImagesAreCopied(img: Image, x: int, y: int)
    requires 0 < img.width <= THUMBNAIL_SIZE && 0 < img.height <= THUMBNAIL_SIZE
    requires 0 <= x < img.width && 0 <= y < img.height
    ensures ThumbnailPixel(img, x, y).red as int == img.red(x, y) as int / 256
    ensures ThumbnailPixel(img, x, y).green as int == img.green(x, y) as int / 256
    ensures ThumbnailPixel(img, x, y).blue as int == img.blue(x, y) as int / 256
  {
    forall k ensures Edge(k, img.width, img.width) == k {
      OnePixelBoxes(k, img.width);
    }
    forall k ensures Edge(k, img.height, img.height) == k {
      OnePixelBoxes(k, img.height);
    }
    OnePixelAverage(img.red, x, y);
    OnePixelAverage(img.green, x, y);
    OnePixelAverage(img.blue, x, y);
  }

  lemma OnePixelAverage(p: Plane, x: int, y: int)
    ensures Average(p, x, x + 1, y, y + 1) == p(x, y) as int / 256
  {
    var v := p(x, y) as int;
    AverageWithinBox(p, x, x + 1, y, y + 1, v, v);
  }

  // ---- The loops ----

  /** A box's sums never overflow 64 bits. */
  lemma SumFits(p: Plane, x0: int, x1: int, y0: int, y1: int)
    requires 0 <= x0 <= x1 <= MAX_PHOTO_DIMENSION && 0 <= y0 <= y1 <= MAX_PHOTO_DIMENSION
    ensures AreaSum(p, x0, x1, y0, y1) <= 0xFFFF * (MAX_PHOTO_DIMENSION * MAX_PHOTO_DIMENSION)
  {
    AreaSumBounds(p, x0, x1, y0, y1, x1 - x0, y1 - y0, 0, 0xFFFF);
    AtMostSquare(x1 - x0, y1 - y0, MAX_PHOTO_DIMENSION);
  }

  lemma AtMostSquare(w: int, h: int, n: int)
    requires 0 <= w <= n && 0 <= h <= n
    ensures w * h <= n * n
  {
    Ordered(w, n, h);
    Ordered(h, n, n);
  }

  lemma Ordered(a: int, b: int, factor: int)
    requires a <= b && factor >= 0
    ensures a * factor <= b * factor
  {
  }

  lemma PartialSumFits(p: Plane, x0: int, x1: int, y0: int, y: int, x: int)
    requires 0 <= x0 <= x <= x1 <= MAX_PHOTO_DIMENSION && 0 <= y0 <= y < MAX_PHOTO_DIMENSION
    ensures AreaSum(p, x0, x1, y0, y) + RowSum(p, y, x0, x) <= 0xFFFF * (MAX_PHOTO_DIMENSION * MAX_PHOTO_DIMENSION)
  {
    RowSumSplits(p, y, x0, x, x1);
    SumFits(p, x0, x1, y0, y + 1);
  }

  /** The sums of one box. */
  method SumBox(img: Image, x0: int, x1: int, y0: int, y1: int) returns (red: uint64, green: uint64, blue: uint64)
    requires 0 <= x0 < x1 <= MAX_PHOTO_DIMENSION && 0 <= y0 < y1 <= MAX_PHOTO_DIMENSION
    ensures red as int == AreaSum(img.red, x0, x1, y0, y1)
    ensures green as int == AreaSum(img.green, x0, x1, y0, y1)
    ensures blue as int == AreaSum(img.blue, x0, x1, y0, y1)
  {
    red, green, blue := 0, 0, 0;
    for sy := y0 to y1
      invariant red as int == AreaSum(img.red, x0, x1, y0, sy)
      invariant green as int == AreaSum(img.green, x0, x1, y0, sy)
      invariant blue as int == AreaSum(img.blue, x0, x1, y0, sy)
    {
      for sx := x0 to x1
        invariant red as int == AreaSum(img.red, x0, x1, y0, sy) + RowSum(img.red, sy, x0, sx)
        invariant green as int == AreaSum(img.green, x0, x1, y0, sy) + RowSum(img.green, sy, x0, sx)
        invariant blue as int == AreaSum(img.blue, x0, x1, y0, sy) + RowSum(img.blue, sy, x0, sx)
      {
        PartialSumFits(img.red, x0, x1, y0, sy, sx + 1);
        PartialSumFits(img.green, x0, x1, y0, sy, sx + 1);
        PartialSumFits(img.blue, x0, x1, y0, sy, sx + 1);
        red := red + img.red(sx, sy) as uint64;
        green := green + img.green(sx, sy) as uint64;
        blue := blue + img.blue(sx, sy) as uint64;
      }
    }
  }

  /** uint8(sum / count >> 8) */
  function AverageByte(sum: uint64, count: uint64): (b: byte)
    requires count > 0 && sum as int / count as int / 256 < 0x100
    ensures b as int == sum as int / count as int / 256
  {
    (sum / count / 256) as byte
  }

  lemma SumGivesTheAverage(p: Plane, sum: uint64, count: uint64, x0: int, x1: int, y0: int, y1: int)
    requires x0 < x1 && y0 < y1
    requires sum as int == AreaSum(p, x0, x1, y0, y1) && count as int == (x1 - x0) * (y1 - y0)
    ensures count > 0 && sum as int / count as int / 256 == Average(p, x0, x1, y0, y1) < 0x100
  {
    CountIsPositive(x1 - x0, y1 - y0);
    AverageIsAByte(p, x0, x1, y0, y1);
  }

  lemma CountFits(w: int, h: int)
    requires 0 < w <= MAX_PHOTO_DIMENSION && 0 < h <= MAX_PHOTO_DIMENSION
    ensures 0 < w * h <= MAX_PHOTO_DIMENSION * MAX_PHOTO_DIMENSION
  {
    CountIsPositive(w, h);
    AtMostSquare(w, h, MAX_PHOTO_DIMENSION);
  }

  method AverageBox(img: Image, x0: int, x1: int, y0: int, y1: int) returns (pixel: Rgb)
    requires 0 <= x0 < x1 <= MAX_PHOTO_DIMENSION && 0 <= y0 < y1 <= MAX_PHOTO_DIMENSION
    ensures pixel.red as int == Average(img.red, x0, x1, y0, y1)
    ensures pixel.green as int == Average(img.green, x0, x1, y0, y1)
    ensures pixel.blue as int == Average(img.blue, x0, x1, y0, y1)
  {
    var red, green, blue := SumBox(img, x0, x1, y0, y1);
    CountFits(x1 - x0, y1 - y0);
    var pixels := (x1 - x0) * (y1 - y0);
    var count := pixels as uint64;
    SumGivesTheAverage(img.red, red, count, x0, x1, y0, y1);
    SumGivesTheAverage(img.green, green, count, x0, x1, y0, y1);
    SumGivesTheAverage(img.blue, blue, count, x0, x1, y0, y1);
    pixel := Rgb(AverageByte(red, count), AverageByte(green, count), AverageByte(blue, count));
  }

  method ChooseSize(width: int, height: int) returns (tw: int, th: int)
    requires width > 0 && height > 0
    ensures (tw, th) == ThumbnailSize(width, height)
  {
    tw, th := width, height;
    if width > THUMBNAIL_SIZE || height > THUMBNAIL_SIZE {
      if width >= height {
        tw := THUMBNAIL_SIZE;
        th := Max(1, height * tw / width);
      } else {
        th := THUMBNAIL_SIZE;
        tw := Max(1, width * th / height);
      }
    }
  }

  lemma PixelsShowTheirParts(img: Image, tw: int, th: int)
    requires img.width > 0 && img.height > 0 && (tw, th) == ThumbnailSize(img.width, img.height)
    ensures forall y, x :: 0 <= y < th && 0 <= x < tw ==>
      ShowsItsPart(img, ThumbnailPixel(img, x, y), x, y, tw, th)
  {
    forall y, x | 0 <= y < th && 0 <= x < tw ensures ShowsItsPart(img, ThumbnailPixel(img, x, y), x, y, tw, th) {
      PixelShowsItsPart(img, x, y);
    }
  }

  /** Every accepted image gets its thumbnail, unless the request is cancelled before some row. */
  method Shrink(img: Image, cancelledAt: int -> bool) returns (thumb: Option<array2<Rgb>>)
    requires Accepts(img.width, img.height)
    ensures thumb.None? <==> exists y :: 0 <= y < ThumbnailSize(img.width, img.height).1 && cancelledAt(y)
    ensures thumb.Some? ==>
      && thumb.value.Length0 == ThumbnailSize(img.width, img.height).1
      && thumb.value.Length1 == ThumbnailSize(img.width, img.height).0
      && forall y, x :: 0 <= y < thumb.value.Length0 && 0 <= x < thumb.value.Length1 ==>
           thumb.value[y, x] == ThumbnailPixel(img, x, y)
    ensures thumb.Some? ==> KeepsShape(img.width, img.height, thumb.value.Length1, thumb.value.Length0)
    ensures thumb.Some? ==>
      forall y, x :: 0 <= y < thumb.value.Length0 && 0 <= x < thumb.value.Length1 ==>
        ShowsItsPart(img, thumb.value[y, x], x, y, thumb.value.Length1, thumb.value.Length0)
  {
    AcceptsIff(img.width, img.height);
    ThumbnailKeepsShape(img.width, img.height);
    ThumbnailFits(img.width, img.height);
    var width, height := img.width, img.height;
    var tw, th := ChooseSize(width, height);
    var pixels := new Rgb[th, tw]((_, _) => Rgb(0, 0, 0));
    for y := 0 to th
      invariant forall j :: 0 <= j < y ==> !cancelledAt(j)
      invariant forall j, i :: 0 <= j < y && 0 <= i < tw ==> pixels[j, i] == ThumbnailPixel(img, i, j)
    {
      if cancelledAt(y) {
        return None;
      }
      var y0, y1 := y * height / th, (y + 1) * height / th;
      BoxBounds(y, height, th);
      for x := 0 to tw
        invariant forall j, i :: 0 <= j < y && 0 <= i < tw ==> pixels[j, i] == ThumbnailPixel(img, i, j)
        invariant forall i :: 0 <= i < x ==> pixels[y, i] == ThumbnailPixel(img, i, y)
      {
        var x0, x1 := x * width / tw, (x + 1) * width / tw;
        BoxBounds(x, width, tw);
        var pixel := AverageBox(img, x0, x1, y0, y1);
        assert pixel == ThumbnailPixel(img, x, y);
        pixels[y, x] := pixel;
      }
    }
    PixelsShowTheirParts(img, tw, th);
    thumb := Some(pixels);
  }
}
