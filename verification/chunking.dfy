/** What the corridor chunker guarantees: the invariants the inner loop keeps
    (Grow*), and the shape of the whole chunking (Chunk*). */
module Chunking {
  import opened Numeric
  import opened Corridor

  /** The inner loop keeps each range equal to the bite's box (lines 147-150 and 162-163). */
  lemma {:induction false} GrowKeepsBox(c: Config, bite: seq<Point>, xr: Range, yr: Range, rest: seq<Point>)
    requires c.xres > 0 && c.maxDistPix > 0
    requires |bite| > 0
    requires xr == BoxRange(c, bite, X) && yr == BoxRange(c, bite, Y)
    decreases |ChainRefine(c, Last(bite), rest)|
    ensures var r := Grow(c, bite, xr, yr, rest);
            |r.bite| > 0 && r.xRange == BoxRange(c, r.bite, X) && r.yRange == BoxRange(c, r.bite, Y)
  {
    GrowStep(c, bite, xr, yr, rest);
    if |rest| > 0 {
      var s := Subdivide(c, Last(bite), rest);
      var p := s[0];
      var xr2 := Extend(xr, p.x, Radius(c));
      var yr2 := Extend(yr, p.y, Radius(c));
      if FitsLimits(c, xr2, yr2) {
        ExtendBox(c, bite, p, X);
        ExtendBox(c, bite, p, Y);
        GrowKeepsBox(c, bite + [p], xr2, yr2, s[1..]);
      }
    }
  }

  /** A bite of two or more points always fits the limits: a point is only taken
      when the trial box fits (lines 151-153). */
  lemma {:induction false} GrowKeepsLimits(c: Config, bite: seq<Point>, xr: Range, yr: Range, rest: seq<Point>)
    requires c.xres > 0 && c.maxDistPix > 0
    requires |bite| > 0
    requires |bite| >= 2 ==> FitsLimits(c, xr, yr)
    decreases |ChainRefine(c, Last(bite), rest)|
    ensures var r := Grow(c, bite, xr, yr, rest);
            |r.bite| >= 2 ==> FitsLimits(c, r.xRange, r.yRange)
  {
    GrowStep(c, bite, xr, yr, rest);
    if |rest| > 0 {
      var s := Subdivide(c, Last(bite), rest);
      var p := s[0];
      var xr2 := Extend(xr, p.x, Radius(c));
      var yr2 := Extend(yr, p.y, Radius(c));
      if FitsLimits(c, xr2, yr2) {
        GrowKeepsLimits(c, bite + [p], xr2, yr2, s[1..]);
      }
    }
  }

  /** Neighbours in a bite are within the distance limit: a point is only taken
      after the midpoint loop has brought it close enough (lines 141-142). */
  lemma {:induction false} GrowKeepsClose(c: Config, bite: seq<Point>, xr: Range, yr: Range, rest: seq<Point>)
    requires c.xres > 0 && c.maxDistPix > 0
    requires |bite| > 0
    requires Close(c, bite)
    decreases |ChainRefine(c, Last(bite), rest)|
    ensures Close(c, Grow(c, bite, xr, yr, rest).bite)
  {
    GrowStep(c, bite, xr, yr, rest);
    if |rest| > 0 {
      var s := Subdivide(c, Last(bite), rest);
      var p := s[0];
      var xr2 := Extend(xr, p.x, Radius(c));
      var yr2 := Extend(yr, p.y, Radius(c));
      if FitsLimits(c, xr2, yr2) {
        var next := bite + [p];
        assert Close(c, next) by {
          forall i | 0 <= i < |next| - 1
            ensures !TooFar(c, next[i], next[i + 1])
          {
            if i < |bite| - 1 {
              assert next[i] == bite[i] && next[i + 1] == bite[i + 1];
            } else {
              assert next[i] == Last(bite) && next[i + 1] == p;
            }
          }
        }
        GrowKeepsClose(c, next, xr2, yr2, s[1..]);
      }
    }
  }

  /** The loop stops early only when the next point (already within the distance
      limit of the bite's last point) would push the box over a limit (lines 151-159). */
  lemma {:induction false} GrowStopsOnOverflow(c: Config, bite: seq<Point>, xr: Range, yr: Range, rest: seq<Point>)
    requires c.xres > 0 && c.maxDistPix > 0
    requires |bite| > 0
    decreases |ChainRefine(c, Last(bite), rest)|
    ensures var r := Grow(c, bite, xr, yr, rest);
            |r.rest| > 0 ==>
              && |r.rest| >= 2
              && !TooFar(c, r.rest[0], r.rest[1])
              && !FitsLimits(c, Extend(r.xRange, r.rest[1].x, Radius(c)), Extend(r.yRange, r.rest[1].y, Radius(c)))
  {
    GrowStep(c, bite, xr, yr, rest);
    if |rest| > 0 {
      var s := Subdivide(c, Last(bite), rest);
      var p := s[0];
      var xr2 := Extend(xr, p.x, Radius(c));
      var yr2 := Extend(yr, p.y, Radius(c));
      if FitsLimits(c, xr2, yr2) {
        GrowStopsOnOverflow(c, bite + [p], xr2, yr2, s[1..]);
      } else {
        var out := [Last(bite)] + s;
        assert out[0] == Last(bite) && out[1] == p;
      }
    }
  }

  /** The first point a bite takes is the stack top left by the midpoint loop. */
  lemma GrowTakesHead(c: Config, bite: seq<Point>, xr: Range, yr: Range, rest: seq<Point>)
    requires c.xres > 0 && c.maxDistPix > 0
    requires |bite| > 0 && |rest| > 0
    ensures var r := Grow(c, bite, xr, yr, rest);
            var s := Subdivide(c, Last(bite), rest);
            |s| > 0 && (|r.bite| > |bite| ==> r.bite[|bite|] == s[0])
  {
    GrowStep(c, bite, xr, yr, rest);
    var s := Subdivide(c, Last(bite), rest);
    var p := s[0];
    var xr2 := Extend(xr, p.x, Radius(c));
    var yr2 := Extend(yr, p.y, Radius(c));
    if FitsLimits(c, xr2, yr2) {
      var r := Grow(c, bite + [p], xr2, yr2, s[1..]);
      assert r.bite[|bite|] == r.bite[..|bite| + 1][|bite|];
    }
  }

  /** No midpoint is pushed when the stack top is already close enough. */
  lemma SubdivideIdle(c: Config, last: Point, rest: seq<Point>)
    requires c.maxDistPix > 0
    requires |rest| > 0 && !TooFar(c, last, rest[0])
    ensures Subdivide(c, last, rest) == rest
  {
  }

  /** As written, outside Progresses: a one-point bite whose next point (within
      the distance limit after the midpoint loop) overflows a limit pushes its own
      point back (line 158) and stops; the outer loop pops that point again
      (line 133) into the same one-point bite over the same stack, so the state
      repeats and the same bite is emitted for ever. */
  lemma OverflowRepeats(c: Config, b: Point, rest: seq<Point>)
    requires c.xres > 0 && c.maxDistPix > 0
    requires |rest| > 0
    requires var p := Subdivide(c, b, rest)[0];
             !FitsLimits(c, Extend(BoxRange(c, [b], X), p.x, Radius(c)), Extend(BoxRange(c, [b], Y), p.y, Radius(c)))
    ensures var r := Grow(c, [b], BoxRange(c, [b], X), BoxRange(c, [b], Y), rest);
            && r.bite == [b]
            && r.rest == [b] + Subdivide(c, b, rest)
            && Grow(c, [r.rest[0]], BoxRange(c, [r.rest[0]], X), BoxRange(c, [r.rest[0]], Y), r.rest[1..]) == r
  {
    var xr := BoxRange(c, [b], X);
    var yr := BoxRange(c, [b], Y);
    var s := Subdivide(c, b, rest);
    assert Last([b]) == b;
    GrowStep(c, [b], xr, yr, rest);
    var r := Grow(c, [b], xr, yr, rest);
    assert r == LoopState([b], xr, yr, [b] + s);
    assert r.rest[0] == b && r.rest[1..] == s;
    SubdivideIdle(c, b, s);
    GrowStep(c, [b], xr, yr, s);
  }

  /** A concrete case: 256-pixel tiles, the default width limit, height limit
      and distance limit, and radius_pix = 200. A gap of 448 pixels needs no
      midpoint, but 448 + 2 * 200 exceeds the 800-pixel height limit. */
  lemma WideRadiusRepeats()
    ensures var c := Config(256, 256, 200, 1000, 800, 500);
            var b := Point(0.0, 0.0);
            var r := Grow(c, [b], BoxRange(c, [b], X), BoxRange(c, [b], Y), [Point(0.0, 1.75)]);
            && !Progresses(c)
            && r.bite == [b]
            && Grow(c, [r.rest[0]], BoxRange(c, [r.rest[0]], X), BoxRange(c, [r.rest[0]], Y), r.rest[1..]) == r
  {
    var c := Config(256, 256, 200, 1000, 800, 500);
    var b := Point(0.0, 0.0);
    var p := Point(0.0, 1.75);
    assert !TooFar(c, b, p) by {
      assert DistSq(c, b, p) == 200704.0;
    }
    SubdivideIdle(c, b, [p]);
    var yr := Extend(BoxRange(c, [b], Y), p.y, Radius(c));
    assert LenPix(c, yr) == 848 by {
      assert Radius(c) == 200.0 / 256.0;
      assert yr == Range(-200.0 / 256.0, 1.75 + 200.0 / 256.0);
      ToPixelsIs(yr.hi - yr.lo, 256.0);
      assert (yr.hi - yr.lo) * 256.0 == 848.0;
    }
    OverflowRepeats(c, b, [p]);
  }

  /** A bite as the source emits it: non-empty, its ranges equal to its box, within
      the pixel limits when it has two or more points, and neighbours within the
      distance limit. */
  predicate BiteOk(c: Config, b: Bite)
    requires c.xres > 0
  {
    && |b.points| > 0
    && b.xRange == BoxRange(c, b.points, X)
    && b.yRange == BoxRange(c, b.points, Y)
    && (|b.points| >= 2 ==> FitsLimits(c, b.xRange, b.yRange))
    && Close(c, b.points)
  }

  /** The bites joined back together, each shared boundary point kept once. */
  function Joined(bites: seq<Bite>): seq<Point>
  {
    if |bites| == 0 then []
    else if |bites| == 1 then bites[0].points
    else bites[0].points + Tail(Joined(bites[1..]))
  }

  /** One step of the outer loop. */
  lemma ChunkStep(c: Config, path: seq<Point>)
    requires Progresses(c)
    requires |path| > 0
    ensures var r := FirstGrow(c, path);
            var b := Bite(r.bite, r.xRange, r.yRange);
            && (|r.rest| == 0 ==> Chunk(c, path) == [b])
            && (|r.rest| > 0 ==>
                  && |Refine(c, r.rest)| < |Refine(c, path)|
                  && Chunk(c, path) == [b] + Chunk(c, r.rest))
  {
    ChunkShrinks(c, path);
  }

  /** The first bite is well formed. */
  lemma FirstBiteOk(c: Config, path: seq<Point>)
    requires Progresses(c)
    requires |path| > 0
    ensures var r := FirstGrow(c, path);
            BiteOk(c, Bite(r.bite, r.xRange, r.yRange))
  {
    var p := path[0];
    var xr := BoxRange(c, [p], X);
    var yr := BoxRange(c, [p], Y);
    FirstGrowBox(c, path);
    GrowKeepsBox(c, [p], xr, yr, path[1..]);
    GrowKeepsLimits(c, [p], xr, yr, path[1..]);
    GrowKeepsClose(c, [p], xr, yr, path[1..]);
  }

  /** Every bite the chunker emits is well formed. */
  lemma {:induction false} ChunkBitesOk(c: Config, path: seq<Point>)
    requires Progresses(c)
    decreases |Refine(c, path)|
    ensures var bites := Chunk(c, path);
            forall i :: 0 <= i < |bites| ==> BiteOk(c, bites[i])
  {
    if |path| > 0 {
      ChunkStep(c, path);
      FirstBiteOk(c, path);
      var r := FirstGrow(c, path);
      if |r.rest| > 0 {
        ChunkBitesOk(c, r.rest);
      }
    }
  }

  /** The chunking starts at the path's first point, emits nothing only for the
      empty path, and each bite closed early hands its last point on as the first
      point of the next (lines 128-133 and 155-159). */
  lemma {:induction false} ChunkLinks(c: Config, path: seq<Point>)
    requires Progresses(c)
    decreases |Refine(c, path)|
    ensures var bites := Chunk(c, path);
            && (|bites| == 0 <==> |path| == 0)
            && (forall i :: 0 <= i < |bites| ==> |bites[i].points| > 0)
            && (|path| > 0 ==> bites[0].points[0] == path[0])
            && (forall i :: 0 <= i < |bites| - 1 ==> Last(bites[i].points) == bites[i + 1].points[0])
  {
    if |path| > 0 {
      var p := path[0];
      ChunkStep(c, path);
      FirstGrowBox(c, path);
      GrowStackShape(c, [p], BoxRange(c, [p], X), BoxRange(c, [p], Y), path[1..]);
      var r := FirstGrow(c, path);
      assert r.bite[0] == r.bite[..1][0];
      if |r.rest| > 0 {
        ChunkLinks(c, r.rest);
      }
    }
  }

  /** `b` could not take `next`'s second point: that point is within the
      distance limit of b's last point, but would push b's box over a limit. */
  predicate ClosedEarly(c: Config, b: Bite, next: Bite)
    requires c.xres > 0
  {
    && |b.points| > 0
    && |next.points| >= 2
    && !TooFar(c, Last(b.points), next.points[1])
    && !FitsLimits(c, Extend(b.xRange, next.points[1].x, Radius(c)),
                      Extend(b.yRange, next.points[1].y, Radius(c)))
  }

  /** A bite is closed only when it could not take the next bite's second point:
      that point is within the distance limit of the boundary point, but adding it
      would overflow the box (lines 151-159). */
  lemma {:induction false} ChunkMaximal(c: Config, path: seq<Point>)
    requires Progresses(c)
    decreases |Refine(c, path)|
    ensures var bites := Chunk(c, path);
            forall i :: 0 <= i < |bites| - 1 ==> ClosedEarly(c, bites[i], bites[i + 1])
  {
    if |path| > 0 {
      var p := path[0];
      var xr := BoxRange(c, [p], X);
      var yr := BoxRange(c, [p], Y);
      ChunkStep(c, path);
      FirstGrowBox(c, path);
      var r := FirstGrow(c, path);
      if |r.rest| > 0 {
        GrowStackShape(c, [p], xr, yr, path[1..]);
        GrowStopsOnOverflow(c, [p], xr, yr, path[1..]);
        NextBiteSecond(c, r.rest);
        ChunkMaximal(c, r.rest);
      }
    }
  }

  /** When the path's first two points are close, the first bite's second point
      (if it has one) is the path's second point. */
  lemma NextBiteSecond(c: Config, path: seq<Point>)
    requires Progresses(c)
    requires |path| >= 2 && !TooFar(c, path[0], path[1])
    ensures var bites := Chunk(c, path);
            |bites| > 0 && |bites[0].points| >= 2 && bites[0].points[1] == path[1]
  {
    var p := path[0];
    var xr := BoxRange(c, [p], X);
    var yr := BoxRange(c, [p], Y);
    ChunkStep(c, path);
    FirstGrowBox(c, path);
    GrowProgress(c, p, path[1..]);
    GrowTakesHead(c, [p], xr, yr, path[1..]);
    assert Last([p]) == p;
    SubdivideIdle(c, p, path[1..]);
  }

  /** Joining the bites gives back the path with every overlong gap bisected:
      the original points in order, with only midpoints inserted. */
  lemma {:induction false} ChunkReassembles(c: Config, path: seq<Point>)
    requires Progresses(c)
    decreases |Refine(c, path)|
    ensures Joined(Chunk(c, path)) == Refine(c, path)
  {
    if |path| > 0 {
      var p := path[0];
      var xr := BoxRange(c, [p], X);
      var yr := BoxRange(c, [p], Y);
      ChunkStep(c, path);
      FirstGrowBox(c, path);
      GrowConsumes(c, [p], xr, yr, path[1..]);
      GrowStackShape(c, [p], xr, yr, path[1..]);
      var r := FirstGrow(c, path);
      assert Last([p]) == p;
      if |r.rest| > 0 {
        ChunkReassembles(c, r.rest);
        ChunkLinks(c, r.rest);
        var b := Bite(r.bite, r.xRange, r.yRange);
        var tail := Chunk(c, r.rest);
        assert ([b] + tail)[1..] == tail;
        calc {
          Joined([b] + tail);
          r.bite + Tail(Joined(tail));
          r.bite + Tail(Refine(c, r.rest));
          r.bite + ChainRefine(c, Last(r.bite), Tail(r.rest));
        }
      }
    }
  }

  /** The source's stack: the path reversed, so that its last element is the top. */
  function Reversed(s: seq<Point>): (r: seq<Point>)
    ensures |r| == |s|
  {
    if |s| == 0 then [] else Reversed(s[1..]) + [s[0]]
  }

  /** The front of `rest` is the top of the source's reversed list: popping the
      list's last element takes `rest[0]` and leaves the reversal of `rest[1..]`,
      and appending `p` to the list is prepending it to `rest` (lines 128, 133,
      141-142 and 158). */
  lemma StackTopIsPathHead(rest: seq<Point>, p: Point)
    ensures |rest| > 0 ==>
              && Reversed(rest)[|rest| - 1] == rest[0]
              && Reversed(rest)[..|rest| - 1] == Reversed(rest[1..])
    ensures Reversed(rest) + [p] == Reversed([p] + rest)
  {
    assert ([p] + rest)[1..] == rest;
    if |rest| > 0 {
      assert Reversed(rest) == Reversed(rest[1..]) + [rest[0]];
    }
  }
}
