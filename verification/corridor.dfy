/** The corridor chunker of path_surroundings: it splits a tile-space path into
    "bites" whose radius-expanded bounding box stays within the pixel limits,
    inserting midpoints into segments longer than the distance limit.

    The source reverses the path and pops points from the end of that list,
    pushing a point back when it cannot be consumed. Here the same stack is a
    sequence whose FRONT is the top: popping takes `rest[0]`, pushing back
    prepends. `StackTopIsPathHead` relates the two views. */
module Corridor {
  import opened Numeric

  /** A tile-space point: integer parts name a tile, fractions a position in it. */
  datatype Point = Point(x: real, y: real)

  /** A closed interval [lo, hi] of tile coordinates (the source's x_range / y_range). */
  datatype Range = Range(lo: real, hi: real)

  datatype Axis = X | Y

  /** Pixel parameters of one run: tile size in pixels and the corridor limits. */
  datatype Config = Config(xres: int, yres: int, radiusPix: int,
                           maxWidthPix: int, maxHeightPix: int, maxDistPix: int)

  /** A closed bite with its running bounding box. */
  datatype Bite = Bite(points: seq<Point>, xRange: Range, yRange: Range)

  /** State of the inner loop when it stops: the bite, its box and the stack. */
  datatype LoopState = LoopState(bite: seq<Point>, xRange: Range, yRange: Range, rest: seq<Point>)

  /** What the chunking loop needs to make progress: a positive tile size and
      distance limit, and a limit box that always holds a short segment with its
      corridor (otherwise a one-point bite would push its next point back forever). */
  predicate Progresses(c: Config)
  {
    && c.xres > 0
    && c.maxDistPix > 0
    && c.maxDistPix + 2 * c.radiusPix <= c.maxWidthPix
    && c.maxDistPix + 2 * c.radiusPix <= c.maxHeightPix
  }

  /** The corridor radius in tile units. */
  function Radius(c: Config): real
    requires c.xres > 0
  {
    c.radiusPix as real / c.xres as real
  }

  function Coord(p: Point, a: Axis): real
  {
    match a
    case X => p.x
    case Y => p.y
  }

  /** Pixel length of a range; both axes are scaled by xres, as in the source. */
  function LenPix(c: Config, ran: Range): int
  {
    ToPixels(ran.hi - ran.lo, c.xres as real)
  }

  /** Squared pixel distance (both axes scaled by xres); comparing it with the
      squared limit replaces the source's square root. */
  function DistSq(c: Config, p: Point, q: Point): real
  {
    Sq((p.x - q.x) * c.xres as real) + Sq((p.y - q.y) * c.xres as real)
  }

  predicate TooFar(c: Config, p: Point, q: Point)
  {
    DistSq(c, p, q) > Sq(c.maxDistPix as real)
  }

  function Mid(p: Point, q: Point): Point
  {
    Point((p.x + q.x) / 2.0, (p.y + q.y) / 2.0)
  }

  lemma MidQuarters(c: Config, p: Point, q: Point)
    ensures DistSq(c, p, Mid(p, q)) == DistSq(c, p, q) / 4.0
    ensures DistSq(c, Mid(p, q), q) == DistSq(c, p, q) / 4.0
  {
    var r := c.xres as real;
    var m := Mid(p, q);
    var dx := (p.x - q.x) * r;
    var dy := (p.y - q.y) * r;
    assert (p.x - m.x) * r == dx / 2.0 && (m.x - q.x) * r == dx / 2.0;
    assert (p.y - m.y) * r == dy / 2.0 && (m.y - q.y) * r == dy / 2.0;
    assert Sq(dx / 2.0) == Sq(dx) / 4.0;
    assert Sq(dy / 2.0) == Sq(dy) / 4.0;
  }

  /** How many times the limit fits into the squared distance: the termination
      measure of the midpoint insertion. */
  function Steps(c: Config, p: Point, q: Point): nat
    requires c.maxDistPix > 0
  {
    assert Sq(c.maxDistPix as real) > 0.0;
    (DistSq(c, p, q) / Sq(c.maxDistPix as real)).Floor
  }

  lemma QuarterFloor(v: real)
    requires v > 1.0
    ensures (v / 4.0).Floor < v.Floor
  {
    var n := v.Floor;
    assert n >= 1;
    assert v < n as real + 1.0;
    assert (v / 4.0).Floor as real <= v / 4.0 < (n as real + 1.0) / 4.0 <= n as real;
  }

  lemma StepsShrink(c: Config, p: Point, q: Point)
    requires c.maxDistPix > 0
    requires TooFar(c, p, q)
    ensures Steps(c, p, Mid(p, q)) < Steps(c, p, q)
    ensures Steps(c, Mid(p, q), q) < Steps(c, p, q)
  {
    var m2 := Sq(c.maxDistPix as real);
    var d := DistSq(c, p, q);
    MidQuarters(c, p, q);
    assert d / m2 > 1.0;
    assert (d / 4.0) / m2 == (d / m2) / 4.0;
    QuarterFloor(d / m2);
  }

  /** Reference for the midpoint insertion: the points placed strictly between
      a and b by repeated halving until every gap is within the limit. */
  function Bisect(c: Config, a: Point, b: Point): seq<Point>
    requires c.maxDistPix > 0
    decreases Steps(c, a, b)
  {
    if !TooFar(c, a, b) then []
    else
      var m := Mid(a, b);
      StepsShrink(c, a, b);
      Bisect(c, a, m) + [m] + Bisect(c, m, b)
  }

  /** The points still to be consumed when the last consumed point is b and the
      stack is rest, with every gap refined by Bisect. */
  function ChainRefine(c: Config, b: Point, rest: seq<Point>): seq<Point>
    requires c.maxDistPix > 0
    decreases |rest|
  {
    if |rest| == 0 then []
    else Bisect(c, b, rest[0]) + [rest[0]] + ChainRefine(c, rest[0], rest[1..])
  }

  /** The whole path with every overlong segment refined. */
  function Refine(c: Config, path: seq<Point>): seq<Point>
    requires c.maxDistPix > 0
  {
    if |path| == 0 then [] else [path[0]] + ChainRefine(c, path[0], path[1..])
  }

  /** The midpoint loop (lines 141-142): push the midpoint of the last bite point
      and the stack top while the two are too far apart. It only pushes, and it
      stops with a stack top within the distance limit of `last`. */
  function Subdivide(c: Config, last: Point, rest: seq<Point>): (r: seq<Point>)
    requires c.maxDistPix > 0
    requires |rest| > 0
    decreases Steps(c, last, rest[0])
    ensures |r| >= |rest| && !TooFar(c, last, r[0])
  {
    if TooFar(c, last, rest[0]) then
      StepsShrink(c, last, rest[0]);
      Subdivide(c, last, [Mid(last, rest[0])] + rest)
    else
      rest
  }

  /** The loop only pushes: the stack it started from lies untouched below the
      points it pushed. */
  lemma {:induction false} SubdivideOnlyPushes(c: Config, last: Point, rest: seq<Point>)
    requires c.maxDistPix > 0
    requires |rest| > 0
    decreases Steps(c, last, rest[0])
    ensures var r := Subdivide(c, last, rest);
            r[|r| - |rest|..] == rest
  {
    if TooFar(c, last, rest[0]) {
      var m := Mid(last, rest[0]);
      StepsShrink(c, last, rest[0]);
      SubdivideOnlyPushes(c, last, [m] + rest);
      var r := Subdivide(c, last, [m] + rest);
      assert r[|r| - |rest|..] == r[|r| - |rest| - 1..][1..];
    }
  }

  /** Each pushed point is the midpoint of `last` and the point beneath it. */
  lemma {:induction false} SubdividePushesMidpoints(c: Config, last: Point, rest: seq<Point>)
    requires c.maxDistPix > 0
    requires |rest| > 0
    decreases Steps(c, last, rest[0])
    ensures var r := Subdivide(c, last, rest);
            && |r| >= |rest|
            && forall j, k :: 0 <= j < |r| - |rest| && k == j + 1 ==> r[j] == Mid(last, r[k])
  {
    if TooFar(c, last, rest[0]) {
      var m := Mid(last, rest[0]);
      StepsShrink(c, last, rest[0]);
      SubdividePushesMidpoints(c, last, [m] + rest);
      SubdivideOnlyPushes(c, last, [m] + rest);
      var r := Subdivide(c, last, [m] + rest);
      assert r[|r| - |rest| - 1] == m && r[|r| - |rest|] == rest[0] by {
        assert r[|r| - |rest| - 1..] == [m] + rest;
      }
    }
  }

  /** Pushing midpoints does not change what remains to be consumed. */
  lemma {:induction false} SubdivideRefines(c: Config, last: Point, rest: seq<Point>)
    requires c.maxDistPix > 0
    requires |rest| > 0
    decreases Steps(c, last, rest[0])
    ensures ChainRefine(c, last, Subdivide(c, last, rest)) == ChainRefine(c, last, rest)
  {
    if TooFar(c, last, rest[0]) {
      var m := Mid(last, rest[0]);
      StepsShrink(c, last, rest[0]);
      SubdivideRefines(c, last, [m] + rest);
      assert ChainRefine(c, last, [m] + rest)
          == Bisect(c, last, m) + [m] + (Bisect(c, m, rest[0]) + [rest[0]] + ChainRefine(c, rest[0], rest[1..]));
    }
  }

  function Last(s: seq<Point>): Point
    requires |s| > 0
  {
    s[|s| - 1]
  }

  function Tail(s: seq<Point>): seq<Point>
  {
    if |s| == 0 then [] else s[1..]
  }

  /** Smallest coordinate on an axis. */
  function MinOf(pts: seq<Point>, a: Axis): (r: real)
    requires |pts| > 0
    ensures forall i :: 0 <= i < |pts| ==> r <= Coord(pts[i], a)
    ensures exists i :: 0 <= i < |pts| && r == Coord(pts[i], a)
  {
    if |pts| == 1 then Coord(pts[0], a)
    else
      var m := MinOf(pts[..|pts| - 1], a);
      assert forall i :: 0 <= i < |pts| - 1 ==> pts[..|pts| - 1][i] == pts[i];
      Min(m, Coord(pts[|pts| - 1], a))
  }

  /** Largest coordinate on an axis. */
  function MaxOf(pts: seq<Point>, a: Axis): (r: real)
    requires |pts| > 0
    ensures forall i :: 0 <= i < |pts| ==> Coord(pts[i], a) <= r
    ensures exists i :: 0 <= i < |pts| && r == Coord(pts[i], a)
  {
    if |pts| == 1 then Coord(pts[0], a)
    else
      var m := MaxOf(pts[..|pts| - 1], a);
      assert forall i :: 0 <= i < |pts| - 1 ==> pts[..|pts| - 1][i] == pts[i];
      Max(m, Coord(pts[|pts| - 1], a))
  }

  /** The box the source keeps for a bite: its coordinate range widened by the radius. */
  function BoxRange(c: Config, pts: seq<Point>, a: Axis): Range
    requires c.xres > 0
    requires |pts| > 0
  {
    Range(MinOf(pts, a) - Radius(c), MaxOf(pts, a) + Radius(c))
  }

  /** The trial range after taking in a point at coordinate v (lines 147-150). */
  function Extend(ran: Range, v: real, radius: real): Range
  {
    Range(Min(ran.lo, v - radius), Max(ran.hi, v + radius))
  }

  predicate FitsLimits(c: Config, xr: Range, yr: Range)
  {
    LenPix(c, xr) <= c.maxWidthPix && LenPix(c, yr) <= c.maxHeightPix
  }

  /** Every two neighbours are within the distance limit. */
  predicate Close(c: Config, pts: seq<Point>)
  {
    forall i :: 0 <= i < |pts| - 1 ==> !TooFar(c, pts[i], pts[i + 1])
  }

  lemma ExtendBox(c: Config, pts: seq<Point>, p: Point, a: Axis)
    requires c.xres > 0
    requires |pts| > 0
    ensures Extend(BoxRange(c, pts, a), Coord(p, a), Radius(c)) == BoxRange(c, pts + [p], a)
  {
    assert (pts + [p])[..|pts|] == pts;
  }

  /** Pixel span of the box of two coordinates u and v widened by the radius. */
  lemma TwoPointSpan(c: Config, u: real, v: real)
    requires c.xres > 0
    ensures (Max(u + Radius(c), v + Radius(c)) - Min(u - Radius(c), v - Radius(c))) * c.xres as real
            == Abs((u - v) * c.xres as real) + 2.0 * c.radiusPix as real
  {
    var xres := c.xres as real;
    var rad := Radius(c);
    assert rad * xres == c.radiusPix as real;
    if u <= v {
      assert (Max(u + rad, v + rad) - Min(u - rad, v - rad)) * xres == (v - u) * xres + 2.0 * (rad * xres);
      assert Abs((u - v) * xres) == (v - u) * xres;
    } else {
      assert (Max(u + rad, v + rad) - Min(u - rad, v - rad)) * xres == (u - v) * xres + 2.0 * (rad * xres);
    }
  }

  /** One axis of OnePointBiteAccepts: a gap of at most max_dist_pix on this
      axis keeps the two-point box within `limit`. */
  lemma TwoPointFits(c: Config, box: Range, u: real, v: real, limit: int)
    requires Progresses(c)
    requires box == Range(u - Radius(c), u + Radius(c))
    requires Abs((u - v) * c.xres as real) <= c.maxDistPix as real
    requires c.maxDistPix + 2 * c.radiusPix <= limit
    ensures LenPix(c, Extend(box, v, Radius(c))) <= limit
  {
    var rad := Radius(c);
    var ran := Extend(box, v, rad);
    assert ran == Range(Min(u - rad, v - rad), Max(u + rad, v + rad));
    var w := (ran.hi - ran.lo) * c.xres as real;
    assert w == Abs((u - v) * c.xres as real) + 2.0 * c.radiusPix as real by {
      TwoPointSpan(c, u, v);
    }
    assert w <= limit as real;
    ToPixelsBelowBound(ran.hi - ran.lo, c.xres as real, limit);
  }

  /** A point within the distance limit is within it on each axis. */
  lemma AxisGaps(c: Config, b: Point, p: Point)
    requires c.maxDistPix > 0
    requires !TooFar(c, b, p)
    ensures Abs((b.x - p.x) * c.xres as real) <= c.maxDistPix as real
    ensures Abs((b.y - p.y) * c.xres as real) <= c.maxDistPix as real
  {
    var dx := (b.x - p.x) * c.xres as real;
    var dy := (b.y - p.y) * c.xres as real;
    var m := c.maxDistPix as real;
    assert Sq(dx) + Sq(dy) <= Sq(m);
    SqSumBound(dx, dy, m);
    SqSumBound(dy, dx, m);
  }

  lemma OnePointBox(c: Config, b: Point, a: Axis)
    requires c.xres > 0
    ensures BoxRange(c, [b], a) == Range(Coord(b, a) - Radius(c), Coord(b, a) + Radius(c))
  {
  }

  /** Horizontally, a one-point bite widened to a point within the distance
      limit stays within maxwidth_pix. */
  lemma OnePointFitsX(c: Config, b: Point, p: Point)
    requires Progresses(c)
    requires !TooFar(c, b, p)
    ensures LenPix(c, Extend(BoxRange(c, [b], X), p.x, Radius(c))) <= c.maxWidthPix
  {
    OnePointBox(c, b, X);
    AxisGaps(c, b, p);
    TwoPointFits(c, BoxRange(c, [b], X), b.x, p.x, c.maxWidthPix);
  }

  /** Vertically, likewise within maxheight_pix. */
  lemma OnePointFitsY(c: Config, b: Point, p: Point)
    requires Progresses(c)
    requires !TooFar(c, b, p)
    ensures LenPix(c, Extend(BoxRange(c, [b], Y), p.y, Radius(c))) <= c.maxHeightPix
  {
    OnePointBox(c, b, Y);
    AxisGaps(c, b, p);
    TwoPointFits(c, BoxRange(c, [b], Y), b.y, p.y, c.maxHeightPix);
  }

  /** Under Progresses, a one-point bite always accepts a point within the distance limit. */
  lemma OnePointBiteAccepts(c: Config, b: Point, p: Point)
    requires Progresses(c)
    requires !TooFar(c, b, p)
    ensures FitsLimits(c, Extend(BoxRange(c, [b], X), p.x, Radius(c)),
                          Extend(BoxRange(c, [b], Y), p.y, Radius(c)))
  {
    OnePointFitsX(c, b, p);
    OnePointFitsY(c, b, p);
  }

  lemma ExtendedPrefix(bite: seq<Point>, p: Point, longer: seq<Point>)
    requires |longer| >= |bite| + 1 && longer[..|bite| + 1] == bite + [p]
    ensures longer[..|bite|] == bite
    ensures longer[|bite|..] == [p] + longer[|bite| + 1..]
  {
    assert longer[..|bite|] == longer[..|bite| + 1][..|bite|];
    assert longer[|bite|] == longer[..|bite| + 1][|bite|];
  }

  /** After the midpoint loop the stack top is the next point to consume, and
      consuming it leaves strictly less to do. */
  lemma SubdivideHead(c: Config, last: Point, rest: seq<Point>)
    requires c.maxDistPix > 0
    requires |rest| > 0
    ensures var s := Subdivide(c, last, rest);
            && |s| > 0
            && ChainRefine(c, last, rest) == [s[0]] + ChainRefine(c, s[0], s[1..])
            && |ChainRefine(c, s[0], s[1..])| < |ChainRefine(c, last, rest)|
  {
    var s := Subdivide(c, last, rest);
    SubdivideRefines(c, last, rest);
    assert Bisect(c, last, s[0]) == [];
    assert ChainRefine(c, last, s) == [s[0]] + ChainRefine(c, s[0], s[1..]);
  }

  /** The inner loop of lines 139-163: consume stack points into the bite until the
      stack is empty or the next point would overflow the limits, in which case the
      bite's last point is pushed back to start the next bite. The loop only
      appends to the bite; the Grow* lemmas state the rest of what it guarantees. */
  function Grow(c: Config, bite: seq<Point>, xr: Range, yr: Range, rest: seq<Point>): (r: LoopState)
    requires c.xres > 0 && c.maxDistPix > 0
    requires |bite| > 0
    decreases |ChainRefine(c, Last(bite), rest)|
    ensures |r.bite| >= |bite| && r.bite[..|bite|] == bite
  {
    if |rest| == 0 then LoopState(bite, xr, yr, [])
    else
      var s := Subdivide(c, Last(bite), rest);
      SubdivideHead(c, Last(bite), rest);
      var p := s[0];
      var xr2 := Extend(xr, p.x, Radius(c));
      var yr2 := Extend(yr, p.y, Radius(c));
      if !FitsLimits(c, xr2, yr2) then
        LoopState(bite, xr, yr, [Last(bite)] + s)
      else
        assert Last(bite + [p]) == p;
        var r := Grow(c, bite + [p], xr2, yr2, s[1..]);
        ExtendedPrefix(bite, p, r.bite);
        r
  }

  /** One step of the loop: the three ways a call of Grow resolves. */
  lemma GrowStep(c: Config, bite: seq<Point>, xr: Range, yr: Range, rest: seq<Point>)
    requires c.xres > 0 && c.maxDistPix > 0
    requires |bite| > 0
    ensures |rest| == 0 ==> Grow(c, bite, xr, yr, rest) == LoopState(bite, xr, yr, [])
    ensures |rest| > 0 ==>
              var s := Subdivide(c, Last(bite), rest);
              |s| > 0 &&
              var xr2 := Extend(xr, s[0].x, Radius(c));
              var yr2 := Extend(yr, s[0].y, Radius(c));
              && (!FitsLimits(c, xr2, yr2) ==>
                    Grow(c, bite, xr, yr, rest) == LoopState(bite, xr, yr, [Last(bite)] + s))
              && (FitsLimits(c, xr2, yr2) ==>
                    && |ChainRefine(c, s[0], s[1..])| < |ChainRefine(c, Last(bite), rest)|
                    && Last(bite + [s[0]]) == s[0]
                    && Grow(c, bite, xr, yr, rest) == Grow(c, bite + [s[0]], xr2, yr2, s[1..]))
  {
    if |rest| == 0 {
      assert Grow(c, bite, xr, yr, rest) == LoopState(bite, xr, yr, []);
    } else {
      var s := Subdivide(c, Last(bite), rest);
      SubdivideHead(c, Last(bite), rest);
      var p := s[0];
      var xr2 := Extend(xr, p.x, Radius(c));
      var yr2 := Extend(yr, p.y, Radius(c));
      if FitsLimits(c, xr2, yr2) {
        assert Last(bite + [p]) == p;
        assert Grow(c, bite, xr, yr, rest) == Grow(c, bite + [p], xr2, yr2, s[1..]);
      } else {
        assert Grow(c, bite, xr, yr, rest) == LoopState(bite, xr, yr, [Last(bite)] + s);
      }
    }
  }

  /** Shape of the stack when the loop stops: empty, or the bite's last point
      pushed back on top of at least one point the bite could not take. An empty
      stack to begin with leaves the bite as it was. */
  lemma {:induction false} GrowStackShape(c: Config, bite: seq<Point>, xr: Range, yr: Range, rest: seq<Point>)
    requires c.xres > 0 && c.maxDistPix > 0
    requires |bite| > 0
    decreases |ChainRefine(c, Last(bite), rest)|
    ensures var r := Grow(c, bite, xr, yr, rest);
            && |r.bite| > 0
            && (|rest| == 0 ==> r.bite == bite && |r.rest| == 0)
            && (|r.rest| == 0 || (|r.rest| >= 2 && r.rest[0] == Last(r.bite)))
  {
    GrowStep(c, bite, xr, yr, rest);
    if |rest| > 0 {
      var s := Subdivide(c, Last(bite), rest);
      var p := s[0];
      var xr2 := Extend(xr, p.x, Radius(c));
      var yr2 := Extend(yr, p.y, Radius(c));
      if FitsLimits(c, xr2, yr2) {
        GrowStackShape(c, bite + [p], xr2, yr2, s[1..]);
      }
    }
  }

  /** What the loop consumes: the bite followed by everything still to be consumed
      (every overlong gap bisected) is the same sequence before and after the loop.
      The pushed-back boundary point is counted once, as the bite's last point. */
  lemma {:induction false} GrowConsumes(c: Config, bite: seq<Point>, xr: Range, yr: Range, rest: seq<Point>)
    requires c.xres > 0 && c.maxDistPix > 0
    requires |bite| > 0
    decreases |ChainRefine(c, Last(bite), rest)|
    ensures var r := Grow(c, bite, xr, yr, rest);
            |r.bite| > 0 && r.bite + ChainRefine(c, Last(r.bite), Tail(r.rest)) == bite + ChainRefine(c, Last(bite), rest)
  {
    GrowStep(c, bite, xr, yr, rest);
    if |rest| > 0 {
      var s := Subdivide(c, Last(bite), rest);
      var p := s[0];
      var xr2 := Extend(xr, p.x, Radius(c));
      var yr2 := Extend(yr, p.y, Radius(c));
      SubdivideHead(c, Last(bite), rest);
      if FitsLimits(c, xr2, yr2) {
        var next := bite + [p];
        GrowConsumes(c, next, xr2, yr2, s[1..]);
        calc {
          bite + ChainRefine(c, Last(bite), rest);
          bite + ([p] + ChainRefine(c, p, s[1..]));
          next + ChainRefine(c, Last(next), s[1..]);
        }
      } else {
        SubdivideRefines(c, Last(bite), rest);
        assert Tail([Last(bite)] + s) == s;
      }
    }
  }

  /** Under Progresses a one-point bite with points left always takes one more. */
  lemma GrowProgress(c: Config, b: Point, rest: seq<Point>)
    requires Progresses(c)
    requires |rest| > 0
    ensures |Grow(c, [b], BoxRange(c, [b], X), BoxRange(c, [b], Y), rest).bite| >= 2
  {
    var s := Subdivide(c, b, rest);
    var p := s[0];
    var xr2 := Extend(BoxRange(c, [b], X), p.x, Radius(c));
    var yr2 := Extend(BoxRange(c, [b], Y), p.y, Radius(c));
    assert Last([b]) == b;
    OnePointBiteAccepts(c, b, p);
    GrowStep(c, [b], BoxRange(c, [b], X), BoxRange(c, [b], Y), rest);
  }

  /** The first bite of a path: the loop started from the path's first point. */
  function FirstGrow(c: Config, path: seq<Point>): LoopState
    requires Progresses(c)
    requires |path| > 0
  {
    var p := path[0];
    var rad := Radius(c);
    Grow(c, [p], Range(p.x - rad, p.x + rad), Range(p.y - rad, p.y + rad), path[1..])
  }

  /** The outer loop of lines 129-163: pop the first point of a bite, grow it, emit
      it. It ends because each bite consumes work (ChunkShrinks); a path yields
      bites exactly when it has a point, and no bite is empty. */
  function Chunk(c: Config, path: seq<Point>): (r: seq<Bite>)
    requires Progresses(c)
    decreases |Refine(c, path)|
    ensures |r| == 0 <==> |path| == 0
    ensures forall i :: 0 <= i < |r| ==> |r[i].points| > 0
  {
    if |path| == 0 then []
    else
      var r := FirstGrow(c, path);
      var b := Bite(r.bite, r.xRange, r.yRange);
      if |r.rest| == 0 then [b]
      else
        ChunkShrinks(c, path);
        [b] + Chunk(c, r.rest)
  }

  /** The source's starting box of a fresh bite is the box of its one point. */
  lemma FirstGrowBox(c: Config, path: seq<Point>)
    requires Progresses(c)
    requires |path| > 0
    ensures FirstGrow(c, path)
         == Grow(c, [path[0]], BoxRange(c, [path[0]], X), BoxRange(c, [path[0]], Y), path[1..])
  {
    var p := path[0];
    assert BoxRange(c, [p], X) == Range(p.x - Radius(c), p.x + Radius(c));
    assert BoxRange(c, [p], Y) == Range(p.y - Radius(c), p.y + Radius(c));
  }

  /** What remains after the first bite is strictly less work than the path. */
  lemma ChunkShrinks(c: Config, path: seq<Point>)
    requires Progresses(c)
    requires |path| > 0
    ensures var r := FirstGrow(c, path);
            |r.rest| > 0 ==> |Refine(c, r.rest)| < |Refine(c, path)|
  {
    var p := path[0];
    var xr := BoxRange(c, [p], X);
    var yr := BoxRange(c, [p], Y);
    FirstGrowBox(c, path);
    var r := Grow(c, [p], xr, yr, path[1..]);
    if |r.rest| > 0 {
      GrowConsumes(c, [p], xr, yr, path[1..]);
      GrowStackShape(c, [p], xr, yr, path[1..]);
      GrowProgress(c, p, path[1..]);
      assert |r.bite| + |ChainRefine(c, Last(r.bite), Tail(r.rest))| == 1 + |ChainRefine(c, p, path[1..])|;
      assert Refine(c, r.rest) == [r.rest[0]] + ChainRefine(c, Last(r.bite), Tail(r.rest));
    }
  }
}
