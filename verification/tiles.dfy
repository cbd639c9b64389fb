/** MapDownloader.get_rect_tiles (pathmap/getmap.py lines 58-83): the mosaic of a
    rectangle given in tile coordinates. Which tiles it requests, in what order,
    and where each one is pasted; the tile images themselves are not modelled. */
module Tiles {
  import opened Numeric

  /** A tile index: column x, row y. */
  datatype Tile = Tile(x: int, y: int)

  /** A pixel pair: an offset or a size, horizontal then vertical. */
  datatype Pixels = Pixels(h: int, v: int)

  /** One paste of the mosaic loop: which tile, and where its upper left corner lands. */
  datatype Paste = Paste(tile: Tile, at: Pixels)

  /** Python's range(lo, hi + 1). */
  function Span(lo: int, hi: int): seq<int>
    decreases hi - lo
  {
    if lo > hi then [] else [lo] + Span(lo + 1, hi)
  }

  /** range(lo, hi + 1) holds hi - lo + 1 consecutive integers (none when hi < lo). */
  lemma {:induction false} SpanIs(lo: int, hi: int)
    ensures |Span(lo, hi)| == if lo <= hi then hi - lo + 1 else 0
    ensures forall i :: 0 <= i < |Span(lo, hi)| ==> Span(lo, hi)[i] == lo + i
    decreases hi - lo
  {
    if lo <= hi {
      SpanIs(lo + 1, hi);
    }
  }

  predicate Increasing(s: seq<int>)
  {
    forall i, j :: 0 <= i < j < |s| ==> s[i] < s[j]
  }

  lemma SpanIncreasing(lo: int, hi: int)
    ensures Increasing(Span(lo, hi))
    ensures forall v :: v in Span(lo, hi) <==> lo <= v <= hi
  {
    SpanIs(lo, hi);
    forall v | lo <= v <= hi
      ensures v in Span(lo, hi)
    {
      assert Span(lo, hi)[v - lo] == v;
    }
  }

  /** The tiles of one row y, left to right over the columns xs. */
  function Row(y: int, xs: seq<int>): seq<Tile>
  {
    seq(|xs|, i requires 0 <= i < |xs| => Tile(xs[i], y))
  }

  /** The nested comprehension `for y in ys for x in xs`: rows outer, columns inner. */
  function Grid(ys: seq<int>, xs: seq<int>): seq<Tile>
  {
    if |ys| == 0 then [] else Row(ys[0], xs) + Grid(ys[1..], xs)
  }

  lemma {:induction false} GridMembers(ys: seq<int>, xs: seq<int>, t: Tile)
    ensures t in Grid(ys, xs) <==> t.y in ys && t.x in xs
  {
    if |ys| > 0 {
      GridMembers(ys[1..], xs, t);
      assert t in Row(ys[0], xs) <==> t.y == ys[0] && t.x in xs by {
        if t.y == ys[0] && t.x in xs {
          var i :| 0 <= i < |xs| && xs[i] == t.x;
          assert Row(ys[0], xs)[i] == t;
        }
      }
      assert ys == [ys[0]] + ys[1..];
    }
  }

  lemma {:induction false} GridLength(ys: seq<int>, xs: seq<int>)
    ensures |Grid(ys, xs)| == |ys| * |xs|
  {
    if |ys| > 0 {
      GridLength(ys[1..], xs);
    }
  }

  lemma {:induction false} GridAppend(a: seq<int>, b: seq<int>, xs: seq<int>)
    ensures Grid(a + b, xs) == Grid(a, xs) + Grid(b, xs)
  {
    if |a| > 0 {
      assert (a + b)[1..] == a[1..] + b;
      GridAppend(a[1..], b, xs);
    } else {
      assert a + b == b;
    }
  }

  /** Row-major order: by row, then by column. */
  predicate Before(a: Tile, b: Tile)
  {
    a.y < b.y || (a.y == b.y && a.x < b.x)
  }

  predicate RowMajor(ts: seq<Tile>)
  {
    forall i, j :: 0 <= i < j < |ts| ==> Before(ts[i], ts[j])
  }

  lemma {:induction false} GridRowMajor(ys: seq<int>, xs: seq<int>)
    requires Increasing(ys) && Increasing(xs)
    ensures RowMajor(Grid(ys, xs))
  {
    if |ys| > 0 {
      var row := Row(ys[0], xs);
      var tail := Grid(ys[1..], xs);
      GridRowMajor(ys[1..], xs);
      forall k | 0 <= k < |tail|
        ensures tail[k].y > ys[0]
      {
        GridMembers(ys[1..], xs, tail[k]);
        var m :| 0 <= m < |ys[1..]| && ys[1..][m] == tail[k].y;
        assert ys[m + 1] == tail[k].y;
      }
      var g := row + tail;
      forall i, j | 0 <= i < j < |g|
        ensures Before(g[i], g[j])
      {
        if j < |row| {
          assert g[i] == row[i] && g[j] == row[j];
        } else if i < |row| {
          assert g[i] == row[i] && g[j] == tail[j - |row|];
        } else {
          assert g[i] == tail[i - |row|] && g[j] == tail[j - |row|];
        }
      }
    }
  }

  /** tiles_needed (line 71): every tile from the column and row of (x1, y1) to
      those of (x2, y2), rows outer. A tile is requested exactly when it lies
      between the tiles of the two corners. */
  function TilesNeeded(x1: real, y1: real, x2: real, y2: real): (r: seq<Tile>)
    ensures forall t :: t in r <==> x1.Floor <= t.x <= x2.Floor && y1.Floor <= t.y <= y2.Floor
  {
    var xs := Span(x1.Floor, x2.Floor);
    var ys := Span(y1.Floor, y2.Floor);
    SpanIncreasing(x1.Floor, x2.Floor);
    SpanIncreasing(y1.Floor, y2.Floor);
    assert forall t :: t in Grid(ys, xs) <==> t.y in ys && t.x in xs by {
      forall t: Tile
        ensures t in Grid(ys, xs) <==> t.y in ys && t.x in xs
      {
        GridMembers(ys, xs, t);
      }
    }
    Grid(ys, xs)
  }

  /** Tiles are requested in row-major order, each one once, one per column and row. */
  lemma TilesNeededOrder(x1: real, y1: real, x2: real, y2: real)
    ensures RowMajor(TilesNeeded(x1, y1, x2, y2))
    ensures forall i, j :: 0 <= i < j < |TilesNeeded(x1, y1, x2, y2)|
              ==> TilesNeeded(x1, y1, x2, y2)[i] != TilesNeeded(x1, y1, x2, y2)[j]
    ensures |TilesNeeded(x1, y1, x2, y2)| == |Span(x1.Floor, x2.Floor)| * |Span(y1.Floor, y2.Floor)|
  {
    var xs := Span(x1.Floor, x2.Floor);
    var ys := Span(y1.Floor, y2.Floor);
    SpanIncreasing(x1.Floor, x2.Floor);
    SpanIncreasing(y1.Floor, y2.Floor);
    GridRowMajor(ys, xs);
    GridLength(ys, xs);
  }

  /** xdiff_pix / ydiff_pix (lines 66-67): how far, in pixels, the corner lies
      inside its tile. */
  function Offset(res: int, a: real): (r: int)
    ensures res > 0 ==> 0 <= r < res
  {
    var d := a - a.Floor as real;
    ToPixelsIs(d, res as real);
    assert res > 0 ==> 0 <= Trunc(d * res as real) < res by {
      if res > 0 {
        ScaledFraction(d, res);
      }
    }
    ToPixels(d, res as real)
  }

  /** A fraction of a tile, scaled and truncated, is less than a whole tile. */
  lemma ScaledFraction(d: real, res: int)
    requires 0.0 <= d < 1.0 && res > 0
    ensures 0 <= Trunc(d * res as real) < res
  {
    assert d * res as real < res as real by {
      assert (1.0 - d) * res as real > 0.0;
    }
  }

  /** Where tile t is pasted (lines 77 and 83). */
  function PastePos(xres: int, yres: int, x1: real, y1: real, t: Tile): (r: Pixels)
    ensures xres > 0 ==> (r.h <= 0 < r.h + xres <==> t.x == x1.Floor)
    ensures yres > 0 ==> (r.v <= 0 < r.v + yres <==> t.y == y1.Floor)
  {
    var h := (t.x - x1.Floor) * xres - Offset(xres, x1);
    var v := (t.y - y1.Floor) * yres - Offset(yres, y1);
    assert xres > 0 ==> (h <= 0 < h + xres <==> t.x == x1.Floor) by {
      if xres > 0 {
        EdgeColumn(t.x - x1.Floor, xres, Offset(xres, x1));
      }
    }
    assert yres > 0 ==> (v <= 0 < v + yres <==> t.y == y1.Floor) by {
      if yres > 0 {
        EdgeColumn(t.y - y1.Floor, yres, Offset(yres, y1));
      }
    }
    Pixels(h, v)
  }

  /** Tiles res pixels wide, shifted left by off < res: tile k covers pixel 0
      exactly when it is tile 0. */
  lemma EdgeColumn(k: int, res: int, off: int)
    requires res > 0 && 0 <= off < res
    ensures k * res - off <= 0 < k * res - off + res <==> k == 0
  {
    if k >= 1 {
      assert k * res >= res;
    } else if k <= -1 {
      assert k * res <= -res;
    }
  }

  /** Size of the mosaic (line 58): never negative for ordered corners, and
      empty on an axis where the corners coincide. */
  function MosaicSize(xres: int, yres: int, x1: real, y1: real, x2: real, y2: real): (r: Pixels)
    ensures x1 <= x2 && xres >= 0 ==> r.h >= 0
    ensures y1 <= y2 && yres >= 0 ==> r.v >= 0
    ensures x1 == x2 ==> r.h == 0
    ensures y1 == y2 ==> r.v == 0
  {
    ToPixelsIs(x2 - x1, xres as real);
    ToPixelsIs(y2 - y1, yres as real);
    assert x1 <= x2 && xres >= 0 ==> (x2 - x1) * xres as real >= 0.0;
    assert y1 <= y2 && yres >= 0 ==> (y2 - y1) * yres as real >= 0.0;
    Pixels(ToPixels(x2 - x1, xres as real), ToPixels(y2 - y1, yres as real))
  }

  function Pastes(xres: int, yres: int, x1: real, y1: real, ts: seq<Tile>): seq<Paste>
  {
    seq(|ts|, i requires 0 <= i < |ts| => Paste(ts[i], PastePos(xres, yres, x1, y1, ts[i])))
  }

  lemma PastesAppend(xres: int, yres: int, x1: real, y1: real, a: seq<Tile>, b: seq<Tile>)
    ensures Pastes(xres, yres, x1, y1, a + b) == Pastes(xres, yres, x1, y1, a) + Pastes(xres, yres, x1, y1, b)
  {
  }

  lemma RowSnoc(y: int, xs: seq<int>, j: int)
    requires 0 <= j < |xs|
    ensures Row(y, xs[..j + 1]) == Row(y, xs[..j]) + [Tile(xs[j], y)]
  {
  }

  lemma GridSnoc(ys: seq<int>, k: int, xs: seq<int>)
    requires 0 <= k < |ys|
    ensures Grid(ys[..k + 1], xs) == Grid(ys[..k], xs) + Row(ys[k], xs)
  {
    assert ys[..k + 1] == ys[..k] + [ys[k]];
    GridAppend(ys[..k], [ys[k]], xs);
    assert Grid([ys[k]], xs) == Row(ys[k], xs) + Grid([], xs);
  }

  /** The parallel branch (lines 70-77): the fetched images come back in the order
      of tiles_needed and are pasted in that order. */
  function ParallelPastes(xres: int, yres: int, x1: real, y1: real, x2: real, y2: real): seq<Paste>
  {
    Pastes(xres, yres, x1, y1, TilesNeeded(x1, y1, x2, y2))
  }

  /** The sequential branch (lines 79-83) pastes the same tiles at the same
      places in the same order as the parallel one. */
  method SequentialPastes(xres: int, yres: int, x1: real, y1: real, x2: real, y2: real)
    returns (pastes: seq<Paste>)
    ensures pastes == ParallelPastes(xres, yres, x1, y1, x2, y2)
  {
    var xs := Span(x1.Floor, x2.Floor);
    var ys := Span(y1.Floor, y2.Floor);
    pastes := [];
    var k := 0;
    while k < |ys|
      invariant 0 <= k <= |ys|
      invariant pastes == Pastes(xres, yres, x1, y1, Grid(ys[..k], xs))
    {
      var y := ys[k];
      var j := 0;
      ghost var done := pastes;
      while j < |xs|
        invariant 0 <= j <= |xs|
        invariant pastes == done + Pastes(xres, yres, x1, y1, Row(y, xs[..j]))
      {
        var t := Tile(xs[j], y);
        RowSnoc(y, xs, j);
        PastesAppend(xres, yres, x1, y1, Row(y, xs[..j]), [t]);
        pastes := pastes + [Paste(t, PastePos(xres, yres, x1, y1, t))];
        j := j + 1;
      }
      assert xs[..j] == xs;
      GridSnoc(ys, k, xs);
      PastesAppend(xres, yres, x1, y1, Grid(ys[..k], xs), Row(y, xs));
      k := k + 1;
    }
    assert ys[..k] == ys;
  }

  /** On one axis: the tile column (or row) whose pasted image covers canvas pixel p. */
  function CoveringIndex(res: int, a1: real, p: int): int
    requires res > 0
  {
    a1.Floor + (p + Offset(res, a1)) / res
  }

  /** Truncated scaled lengths add up to at most the truncated scaled total. */
  lemma ScaledSum(u: real, v: real, r: real)
    requires u >= 0.0 && v >= 0.0 && r > 0.0
    ensures Trunc(u * r) + Trunc(v * r) <= Trunc((u + v) * r)
  {
    assert u * r >= 0.0 && v * r >= 0.0;
    TruncSuperadditive(u * r, v * r);
    assert u * r + v * r == (u + v) * r;
  }

  lemma PositiveFactor(u: real, r: real)
    requires r > 0.0 && u * r > 0.0
    ensures u > 0.0
  {
  }

  /** Cancelling a positive factor in a strict inequality. */
  lemma BelowScaled(q: int, res: int, s: real)
    requires res > 0 && (q * res) as real < s * res as real
    ensures (q as real) < s
  {
    assert (q * res) as real == (q as real) * (res as real);
  }

  lemma DivBounds(n: int, res: int)
    requires res > 0
    ensures (n / res) * res <= n < (n / res) * res + res
    ensures n >= 0 ==> n / res >= 0
  {
  }

  /** A pixel inside the mosaic, shifted by the corner's offset, lies before the
      scaled distance from the corner tile's edge to the far corner. */
  lemma ShiftedBelowFar(res: int, a1: real, a2: real, p: int)
    requires res > 0
    requires 0 <= p < ToPixels(a2 - a1, res as real)
    ensures p + Offset(res, a1) < Trunc((a2 - a1.Floor as real) * res as real)
    ensures ((p + Offset(res, a1)) as real) < (a2 - a1.Floor as real) * res as real
  {
    var f := a1.Floor as real;
    var r := res as real;
    ToPixelsIs(a2 - a1, r);
    ToPixelsIs(a1 - f, r);
    SumBelow(p, Offset(res, a1), a2 - a1, a1 - f, r);
    assert (a2 - a1) + (a1 - f) == a2 - f;
  }

  /** A count below one truncated product, plus another truncated product,
      stays below the truncated product of the summed lengths. */
  lemma SumBelow(p: int, off: int, u: real, v: real, r: real)
    requires r > 0.0 && v >= 0.0
    requires 0 <= p < Trunc(u * r) && off == Trunc(v * r)
    ensures p + off < Trunc((u + v) * r)
    ensures ((p + off) as real) < (u + v) * r
  {
    assert u > 0.0 by {
      PositiveFactor(u, r);
    }
    ScaledSum(u, v, r);
    assert Trunc((u + v) * r) as real <= (u + v) * r;
  }

  /** A non-negative integer below w scaled by res has its quotient by res below w. */
  lemma QuotientBelow(n: int, res: int, w: real)
    requires res > 0 && n >= 0 && (n as real) < w * res as real
    ensures ((n / res) as real) < w
  {
    DivBounds(n, res);
    assert ((n / res) * res) as real <= n as real;
    BelowScaled(n / res, res, w);
  }

  /** The covering index does not pass the far corner's tile. */
  lemma IndexBelowFar(res: int, a1: real, a2: real, p: int)
    requires res > 0
    requires 0 <= p < ToPixels(a2 - a1, res as real)
    ensures CoveringIndex(res, a1, p) <= a2.Floor
  {
    var f := a1.Floor;
    var n := p + Offset(res, a1);
    var w := a2 - f as real;
    ShiftedBelowFar(res, a1, a2, p);
    QuotientBelow(n, res, w);
    assert ((f + n / res) as real) < a2;
  }

  /** The covering index is at or after the corner tile, and its tile's pasted
      image spans pixel p. */
  lemma IndexSpansPixel(res: int, a1: real, p: int)
    requires res > 0 && p >= 0
    ensures a1.Floor <= CoveringIndex(res, a1, p)
    ensures (CoveringIndex(res, a1, p) - a1.Floor) * res - Offset(res, a1) <= p
    ensures p < (CoveringIndex(res, a1, p) - a1.Floor) * res - Offset(res, a1) + res
  {
    var off := Offset(res, a1);
    DivBounds(p + off, res);
    assert CoveringIndex(res, a1, p) - a1.Floor == (p + off) / res;
  }

  /** Every pixel column (or row) of the canvas is covered by a requested tile:
      the covering index lies between the corner tiles, and the tile's pasted
      image spans that pixel. */
  lemma AxisCovered(res: int, a1: real, a2: real, p: int)
    requires res > 0
    requires 0 <= p < ToPixels(a2 - a1, res as real)
    ensures a1.Floor <= CoveringIndex(res, a1, p) <= a2.Floor
    ensures (CoveringIndex(res, a1, p) - a1.Floor) * res - Offset(res, a1) <= p
    ensures p < (CoveringIndex(res, a1, p) - a1.Floor) * res - Offset(res, a1) + res
  {
    IndexSpansPixel(res, a1, p);
    IndexBelowFar(res, a1, a2, p);
  }

  /** Every pixel of the mosaic is covered by the image of a requested tile. */
  lemma MosaicCovered(xres: int, yres: int, x1: real, y1: real, x2: real, y2: real, px: int, py: int)
    requires xres > 0 && yres > 0
    requires 0 <= px < MosaicSize(xres, yres, x1, y1, x2, y2).h
    requires 0 <= py < MosaicSize(xres, yres, x1, y1, x2, y2).v
    ensures Tile(CoveringIndex(xres, x1, px), CoveringIndex(yres, y1, py)) in TilesNeeded(x1, y1, x2, y2)
    ensures var at := PastePos(xres, yres, x1, y1, Tile(CoveringIndex(xres, x1, px), CoveringIndex(yres, y1, py)));
            at.h <= px < at.h + xres && at.v <= py < at.v + yres
  {
    var t := Tile(CoveringIndex(xres, x1, px), CoveringIndex(yres, y1, py));
    AxisCovered(xres, x1, x2, px);
    AxisCovered(yres, y1, y2, py);
  }
}
