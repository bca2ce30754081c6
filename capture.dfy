/**
 * The capture session's region rule and start/stop switch, shared by all
 * three translators: two drag corners become an (x, y, width, height)
 * rectangle, accepted only when both extents exceed ten pixels.
 */
module Capture {
  import opened Wrappers

  /** Both extents must be strictly greater than this many pixels. */
  const MIN_EXTENT: int := 10

  datatype Point = Point(x: int, y: int)

  /** `(x, y, w, h)` as stored in `capture_region`. */
  datatype Region = Region(x: int, y: int, width: int, height: int)

  function Min(a: int, b: int): int { if a <= b then a else b }
  function Max(a: int, b: int): int { if a <= b then b else a }

  /** The rectangle spanned by two drag corners, whichever way the drag went. */
  function Normalize(start: Point, end: Point): Region {
    var x1, x2 := Min(start.x, end.x), Max(start.x, end.x);
    var y1, y2 := Min(start.y, end.y), Max(start.y, end.y);
    Region(x1, y1, x2 - x1, y2 - y1)
  }

  /** The region a drag selects, or `None` when it is too small. */
  function Select(start: Point, end: Point): (r: Option<Region>)
    ensures r.Some? <==> Abs(end.x - start.x) > MIN_EXTENT && Abs(end.y - start.y) > MIN_EXTENT
    ensures r.Some? ==> r.value == Region(Min(start.x, end.x), Min(start.y, end.y),
                                          Abs(end.x - start.x), Abs(end.y - start.y))
  {
    var n := Normalize(start, end);
    if n.width > MIN_EXTENT && n.height > MIN_EXTENT then Some(n) else None
  }

  function Abs(a: int): int { if a < 0 then -a else a }

  /**
   * The normalised region has its origin at the top-left corner, its
   * extents are the absolute drag distances, and both corners lie on it.
   */
  lemma NormalizeSpansCorners(start: Point, end: Point)
    ensures var r := Normalize(start, end);
      && r.width == Abs(end.x - start.x) && r.height == Abs(end.y - start.y)
      && r.x <= start.x <= r.x + r.width && r.x <= end.x <= r.x + r.width
      && r.y <= start.y <= r.y + r.height && r.y <= end.y <= r.y + r.height
      && (r.x == start.x || r.x == end.x) && (r.y == start.y || r.y == end.y)
  {
  }

  /** Dragging from either corner selects the same region. */
  lemma SelectSymmetric(start: Point, end: Point)
    ensures Select(start, end) == Select(end, start)
  {
  }

  /** A drag of exactly ten pixels is rejected; eleven in both directions is accepted. */
  lemma BoundaryDrags(x: int, y: int)
    ensures Select(Point(x, y), Point(x + 10, y + 10)).None?
    ensures Select(Point(x, y), Point(x + 11, y + 11)) == Some(Region(x, y, 11, 11))
    ensures Select(Point(x + 11, y + 11), Point(x, y)) == Some(Region(x, y, 11, 11))
  {
  }

  /**
   * `capture_region` after the mouse button is released: a drag that never
   * started (`start` is `None`) or that is too small leaves it unchanged.
   */
  function AfterRelease(current: Option<Region>, start: Option<Point>, release: Point): (r: Option<Region>)
    ensures start.None? ==> r == current
    ensures start.Some? && Select(start.value, release).Some? ==> r == Select(start.value, release)
    ensures start.Some? && Select(start.value, release).None? ==> r == current
  {
    if start.Some? && Select(start.value, release).Some? then Select(start.value, release) else current
  }

  /**
   * `is_capturing` after `toggle_capture`: without a region it is a no-op
   * (only a warning is shown), otherwise the flag flips.
   */
  function Toggled(isCapturing: bool, region: Option<Region>): (r: bool)
    ensures region.None? ==> r == isCapturing
    ensures region.Some? ==> r != isCapturing
  {
    if region.None? then isCapturing else !isCapturing
  }
}
