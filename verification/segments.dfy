/** The per-segment map of path_surroundings (lines 168-202): each segment of a
    bite gets the tile mosaic of its own corridor box, pasted into the bite's
    canvas at an offset measured from the bite box's corner. */
module Segments {
  import opened Numeric
  import opened Corridor
  import opened Tiles

  /** Least and greatest of four values: the first and last element of Python's
      sorted() on them. */
  function Least4(a: real, b: real, c: real, d: real): (r: real)
    ensures r <= a && r <= b && r <= c && r <= d
    ensures r == a || r == b || r == c || r == d
  {
    Min(Min(a, b), Min(c, d))
  }

  function Greatest4(a: real, b: real, c: real, d: real): (r: real)
    ensures r >= a && r >= b && r >= c && r >= d
    ensures r == a || r == b || r == c || r == d
  {
    Max(Max(a, b), Max(c, d))
  }

  /** The corridor box of the segment last--p on one axis: first and last of the
      four sorted end coordinates (lines 174-175). It is the two ends' coordinate
      range widened by the radius (its magnitude, whatever the sign of radius_pix). */
  function SegmentBox(c: Config, last: Point, p: Point, a: Axis): (r: Range)
    requires c.xres > 0
    ensures r == Range(Min(Coord(last, a), Coord(p, a)) - Abs(Radius(c)),
                       Max(Coord(last, a), Coord(p, a)) + Abs(Radius(c)))
  {
    var l := Coord(last, a);
    var q := Coord(p, a);
    var rad := Radius(c);
    var lo := Least4(l - rad, l + rad, q - rad, q + rad);
    var hi := Greatest4(l - rad, l + rad, q - rad, q + rad);
    assert lo == Min(l, q) - Abs(rad);
    assert hi == Max(l, q) + Abs(rad);
    Range(lo, hi)
  }

  /** Where the segment's mosaic lands in the bite canvas (line 202): its corner
      relative to the bite box's corner, in pixels. */
  function PasteOffset(c: Config, xr: Range, yr: Range, sx: Range, sy: Range): (r: Pixels)
    ensures sx.lo == xr.lo ==> r.h == 0
    ensures sy.lo == yr.lo ==> r.v == 0
    ensures xr.lo <= sx.lo && c.xres >= 0 ==> r.h >= 0
    ensures yr.lo <= sy.lo && c.yres >= 0 ==> r.v >= 0
  {
    var h := sx.lo - xr.lo;
    var v := sy.lo - yr.lo;
    ToPixelsIs(h, c.xres as real);
    ToPixelsIs(v, c.yres as real);
    assert h >= 0.0 && c.xres >= 0 ==> h * c.xres as real >= 0.0;
    assert v >= 0.0 && c.yres >= 0 ==> v * c.yres as real >= 0.0;
    Pixels(ToPixels(h, c.xres as real), ToPixels(v, c.yres as real))
  }

  /** Size of the bite canvas (line 166): both sides scaled by xres. It is the
      size the limit test of line 153 bounded, and never negative for an
      ordered box. */
  function CanvasSize(c: Config, xr: Range, yr: Range): (r: Pixels)
    ensures FitsLimits(c, xr, yr) <==> r.h <= c.maxWidthPix && r.v <= c.maxHeightPix
    ensures c.xres >= 0 && xr.lo <= xr.hi && yr.lo <= yr.hi ==> r.h >= 0 && r.v >= 0
  {
    var k := c.xres as real;
    ToPixelsIs(xr.hi - xr.lo, k);
    ToPixelsIs(yr.hi - yr.lo, k);
    assert c.xres >= 0 && xr.lo <= xr.hi ==> (xr.hi - xr.lo) * k >= 0.0;
    assert c.xres >= 0 && yr.lo <= yr.hi ==> (yr.hi - yr.lo) * k >= 0.0;
    Pixels(LenPix(c, xr), LenPix(c, yr))
  }

  /** Scaled by k pixels per tile and truncated, the range `seg` starts at a
      non-negative offset from `box`'s start and ends within `box`'s width. */
  predicate PixelsInside(box: Range, seg: Range, k: real)
  {
    && 0 <= ToPixels(seg.lo - box.lo, k)
    && ToPixels(seg.lo - box.lo, k) + ToPixels(seg.hi - seg.lo, k) <= ToPixels(box.hi - box.lo, k)
  }

  /** A range inside another stays inside after scaling and truncation. */
  lemma ScaledInside(box: Range, seg: Range, k: real)
    requires box.lo <= seg.lo <= seg.hi <= box.hi && k > 0.0
    ensures PixelsInside(box, seg, k)
  {
    var x := (seg.lo - box.lo) * k;
    var y := (seg.hi - seg.lo) * k;
    var z := (box.hi - box.lo) * k;
    assert x >= 0.0 && y >= 0.0;
    var gap := box.hi - seg.hi;
    assert gap * k >= 0.0 by {
      assert gap >= 0.0;
    }
    assert z - (x + y) == gap * k;
    assert x + y <= z;
    TruncSuperadditive(x, y);
    TruncMono(x + y, z);
    ToPixelsIs(seg.lo - box.lo, k);
    ToPixelsIs(seg.hi - seg.lo, k);
    ToPixelsIs(box.hi - box.lo, k);
  }

  /** On one axis a segment's box lies inside its bite's box. */
  lemma SegmentInsideBox(c: Config, pts: seq<Point>, i: int, a: Axis)
    requires c.xres > 0 && c.radiusPix >= 0
    requires 0 <= i < |pts| - 1
    ensures BoxRange(c, pts, a).lo <= SegmentBox(c, pts[i], pts[i + 1], a).lo
    ensures SegmentBox(c, pts[i], pts[i + 1], a).lo <= SegmentBox(c, pts[i], pts[i + 1], a).hi
    ensures SegmentBox(c, pts[i], pts[i + 1], a).hi <= BoxRange(c, pts, a).hi
  {
    assert Radius(c) >= 0.0;
    assert MinOf(pts, a) <= Coord(pts[i], a) && MinOf(pts, a) <= Coord(pts[i + 1], a);
    assert Coord(pts[i], a) <= MaxOf(pts, a) && Coord(pts[i + 1], a) <= MaxOf(pts, a);
  }

  /** The source's paste arithmetic for a segment box (sx, sy) inside the bite
      box (xr, yr): the paste offset is non-negative and the mosaic ends inside
      the canvas (horizontally always; vertically when tiles are square, since
      the canvas height is scaled by xres). */
  lemma PasteOffsetInCanvas(c: Config, xr: Range, yr: Range, sx: Range, sy: Range)
    requires c.xres > 0 && c.yres > 0
    requires xr.lo <= sx.lo <= sx.hi <= xr.hi
    requires yr.lo <= sy.lo <= sy.hi <= yr.hi
    ensures PasteOffset(c, xr, yr, sx, sy).h >= 0
    ensures PasteOffset(c, xr, yr, sx, sy).v >= 0
    ensures PasteOffset(c, xr, yr, sx, sy).h + MosaicSize(c.xres, c.yres, sx.lo, sy.lo, sx.hi, sy.hi).h <= CanvasSize(c, xr, yr).h
    ensures c.yres == c.xres ==> PasteOffset(c, xr, yr, sx, sy).v + MosaicSize(c.xres, c.yres, sx.lo, sy.lo, sx.hi, sy.hi).v <= CanvasSize(c, xr, yr).v
  {
    ScaledInside(xr, sx, c.xres as real);
    ScaledInside(yr, sy, c.yres as real);
  }

  /** Every segment of every well-formed bite is pasted at a non-negative offset
      and its mosaic ends inside the bite canvas (vertically when tiles are square). */
  lemma BitePasteInCanvas(c: Config, b: Bite, i: int)
    requires c.xres > 0 && c.yres > 0 && c.radiusPix >= 0
    requires |b.points| > 0 && b.xRange == BoxRange(c, b.points, X) && b.yRange == BoxRange(c, b.points, Y)
    requires 0 <= i < |b.points| - 1
    ensures var sx := SegmentBox(c, b.points[i], b.points[i + 1], X);
            var sy := SegmentBox(c, b.points[i], b.points[i + 1], Y);
            var off := PasteOffset(c, b.xRange, b.yRange, sx, sy);
            && off.h >= 0 && off.v >= 0
            && off.h + MosaicSize(c.xres, c.yres, sx.lo, sy.lo, sx.hi, sy.hi).h <= CanvasSize(c, b.xRange, b.yRange).h
            && (c.yres == c.xres ==> off.v + MosaicSize(c.xres, c.yres, sx.lo, sy.lo, sx.hi, sy.hi).v <= CanvasSize(c, b.xRange, b.yRange).v)
  {
    SegmentInsideBox(c, b.points, i, X);
    SegmentInsideBox(c, b.points, i, Y);
    PasteOffsetInCanvas(c, b.xRange, b.yRange,
                        SegmentBox(c, b.points[i], b.points[i + 1], X),
                        SegmentBox(c, b.points[i], b.points[i + 1], Y));
  }
}
