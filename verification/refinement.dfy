/** Properties of the reference refinement: the path with every overlong gap
    bisected (what the chunker's midpoint loop produces, lines 141-142). */
module Refinement {
  import opened Numeric
  import opened Corridor

  /** `a` occurs in `b` in order, possibly with other elements in between. */
  predicate IsSubsequence(a: seq<Point>, b: seq<Point>)
    decreases |b|
  {
    if |a| == 0 then true
    else if |b| == 0 then false
    else (a[0] == b[0] && IsSubsequence(a[1..], b[1..])) || IsSubsequence(a, b[1..])
  }

  lemma {:induction false} SubsequenceSkip(a: seq<Point>, u: seq<Point>, t: seq<Point>)
    requires IsSubsequence(a, t)
    decreases |u|
    ensures IsSubsequence(a, u + t)
  {
    if |u| > 0 {
      SubsequenceSkip(a, u[1..], t);
      assert (u + t)[1..] == u[1..] + t;
    } else {
      assert u + t == t;
    }
  }

  /** A point on the segment from a to b at parameter t. */
  function Lerp(a: Point, b: Point, t: real): Point
  {
    Point(a.x + t * (b.x - a.x), a.y + t * (b.y - a.y))
  }

  /** q lies strictly between a and b on the segment joining them. */
  ghost predicate OnSegment(a: Point, b: Point, q: Point)
  {
    exists t :: 0.0 < t < 1.0 && q == Lerp(a, b, t)
  }

  /** On one axis: the point at t on the first half is the point at t/2. */
  lemma LeftHalfCoord(u: real, v: real, t: real)
    ensures u + t * ((u + v) / 2.0 - u) == u + (t / 2.0) * (v - u)
  {
  }

  /** On one axis: the point at t on the second half is the point at 1/2 + t/2. */
  lemma RightHalfCoord(u: real, v: real, t: real)
    ensures (u + v) / 2.0 + t * (v - (u + v) / 2.0) == u + (0.5 + t / 2.0) * (v - u)
  {
  }

  /** The point at t on the first half of a segment is its point at t/2. */
  lemma LeftHalfLerp(a: Point, b: Point, t: real)
    ensures Lerp(a, Mid(a, b), t) == Lerp(a, b, t / 2.0)
  {
    LeftHalfCoord(a.x, b.x, t);
    LeftHalfCoord(a.y, b.y, t);
    assert Lerp(a, Mid(a, b), t).x == Lerp(a, b, t / 2.0).x;
    assert Lerp(a, Mid(a, b), t).y == Lerp(a, b, t / 2.0).y;
  }

  /** The point at t on the second half of a segment is its point at 1/2 + t/2. */
  lemma RightHalfLerp(a: Point, b: Point, t: real)
    ensures Lerp(Mid(a, b), b, t) == Lerp(a, b, 0.5 + t / 2.0)
  {
    RightHalfCoord(a.x, b.x, t);
    RightHalfCoord(a.y, b.y, t);
    assert Lerp(Mid(a, b), b, t).x == Lerp(a, b, 0.5 + t / 2.0).x;
    assert Lerp(Mid(a, b), b, t).y == Lerp(a, b, 0.5 + t / 2.0).y;
  }

  lemma OnLeftHalf(a: Point, b: Point, q: Point)
    requires OnSegment(a, Mid(a, b), q)
    ensures OnSegment(a, b, q)
  {
    var t :| 0.0 < t < 1.0 && q == Lerp(a, Mid(a, b), t);
    LeftHalfLerp(a, b, t);
    var u := t / 2.0;
    assert 0.0 < u < 1.0 && q == Lerp(a, b, u);
  }

  lemma OnRightHalf(a: Point, b: Point, q: Point)
    requires OnSegment(Mid(a, b), b, q)
    ensures OnSegment(a, b, q)
  {
    var t :| 0.0 < t < 1.0 && q == Lerp(Mid(a, b), b, t);
    RightHalfLerp(a, b, t);
    var u := 0.5 + t / 2.0;
    assert 0.0 < u < 1.0 && q == Lerp(a, b, u);
  }

  lemma MidOnSegment(a: Point, b: Point)
    ensures OnSegment(a, b, Mid(a, b))
  {
    assert Mid(a, b) == Lerp(a, b, 0.5);
  }

  /** Every inserted point lies strictly inside the segment it refines. */
  lemma {:induction false} BisectOnSegment(c: Config, a: Point, b: Point)
    requires c.maxDistPix > 0
    decreases Steps(c, a, b)
    ensures forall q <- Bisect(c, a, b) :: OnSegment(a, b, q)
  {
    if TooFar(c, a, b) {
      var m := Mid(a, b);
      StepsShrink(c, a, b);
      BisectOnSegment(c, a, m);
      BisectOnSegment(c, m, b);
      var left := Bisect(c, a, m);
      var right := Bisect(c, m, b);
      var ms := left + [m] + right;
      assert ms == Bisect(c, a, b);
      forall q | q in ms
        ensures OnSegment(a, b, q)
      {
        if q in left {
          OnLeftHalf(a, b, q);
        } else if q == m {
          MidOnSegment(a, b);
        } else {
          assert q in right;
          OnRightHalf(a, b, q);
        }
      }
    }
  }

  /** Joining two close sequences at a shared point keeps them close. */
  lemma CloseJoin(c: Config, s: seq<Point>, t: seq<Point>)
    requires |s| > 0 && |t| > 0 && Last(s) == t[0]
    requires Close(c, s) && Close(c, t)
    ensures Close(c, s + t[1..])
  {
    var u := s + t[1..];
    forall i | 0 <= i < |u| - 1
      ensures !TooFar(c, u[i], u[i + 1])
    {
      if i < |s| - 1 {
        assert u[i] == s[i] && u[i + 1] == s[i + 1];
      } else {
        var j := i - |s| + 1;
        assert u[i] == t[j] && u[i + 1] == t[j + 1];
      }
    }
  }

  /** Bisection leaves every gap within the distance limit. */
  lemma {:induction false} BisectClose(c: Config, a: Point, b: Point)
    requires c.maxDistPix > 0
    decreases Steps(c, a, b)
    ensures Close(c, [a] + Bisect(c, a, b) + [b])
  {
    if TooFar(c, a, b) {
      var m := Mid(a, b);
      StepsShrink(c, a, b);
      BisectClose(c, a, m);
      BisectClose(c, m, b);
      var s := [a] + Bisect(c, a, m) + [m];
      var t := [m] + Bisect(c, m, b) + [b];
      CloseJoin(c, s, t);
      assert s + t[1..] == [a] + Bisect(c, a, b) + [b];
    } else {
      assert [a] + Bisect(c, a, b) + [b] == [a, b];
    }
  }

  lemma {:induction false} ChainRefineClose(c: Config, b: Point, rest: seq<Point>)
    requires c.maxDistPix > 0
    decreases |rest|
    ensures Close(c, [b] + ChainRefine(c, b, rest))
  {
    if |rest| > 0 {
      var s := [b] + Bisect(c, b, rest[0]) + [rest[0]];
      var t := [rest[0]] + ChainRefine(c, rest[0], rest[1..]);
      BisectClose(c, b, rest[0]);
      ChainRefineClose(c, rest[0], rest[1..]);
      CloseJoin(c, s, t);
      assert s + t[1..] == [b] + ChainRefine(c, b, rest);
    }
  }

  /** After refinement every gap is within the distance limit. */
  lemma RefineClose(c: Config, path: seq<Point>)
    requires c.maxDistPix > 0
    ensures Close(c, Refine(c, path))
  {
    if |path| > 0 {
      ChainRefineClose(c, path[0], path[1..]);
    }
  }

  lemma {:induction false} ChainRefineIdentity(c: Config, b: Point, rest: seq<Point>)
    requires c.maxDistPix > 0
    requires Close(c, [b] + rest)
    decreases |rest|
    ensures ChainRefine(c, b, rest) == rest
  {
    if |rest| > 0 {
      assert ([b] + rest)[0] == b && ([b] + rest)[1] == rest[0];
      assert Close(c, rest) by {
        forall i | 0 <= i < |rest| - 1
          ensures !TooFar(c, rest[i], rest[i + 1])
        {
          assert ([b] + rest)[i + 1] == rest[i] && ([b] + rest)[i + 2] == rest[i + 1];
        }
      }
      assert [rest[0]] + rest[1..] == rest;
      ChainRefineIdentity(c, rest[0], rest[1..]);
    }
  }

  /** A path whose gaps are all within the limit is left as it is: the midpoint
      loop only acts on overlong gaps. */
  lemma RefineIdentity(c: Config, path: seq<Point>)
    requires c.maxDistPix > 0
    requires Close(c, path)
    ensures Refine(c, path) == path
  {
    if |path| > 0 {
      assert [path[0]] + path[1..] == path;
      ChainRefineIdentity(c, path[0], path[1..]);
    }
  }

  lemma {:induction false} ChainRefineKeepsOrder(c: Config, b: Point, rest: seq<Point>)
    requires c.maxDistPix > 0
    decreases |rest|
    ensures IsSubsequence(rest, ChainRefine(c, b, rest))
    ensures |rest| > 0 ==> |ChainRefine(c, b, rest)| > 0 && Last(ChainRefine(c, b, rest)) == Last(rest)
  {
    if |rest| > 0 {
      var tail := ChainRefine(c, rest[0], rest[1..]);
      ChainRefineKeepsOrder(c, rest[0], rest[1..]);
      var t := [rest[0]] + tail;
      assert t[1..] == tail;
      assert IsSubsequence(rest, t);
      SubsequenceSkip(rest, Bisect(c, b, rest[0]), t);
      assert Bisect(c, b, rest[0]) + t == ChainRefine(c, b, rest);
      if |rest| == 1 {
        assert tail == [];
      } else {
        assert Last(rest[1..]) == Last(rest);
      }
    }
  }

  /** The refined path keeps the original points in their order, starting and
      ending where the path does. */
  lemma RefineKeepsPath(c: Config, path: seq<Point>)
    requires c.maxDistPix > 0
    ensures IsSubsequence(path, Refine(c, path))
    ensures |Refine(c, path)| >= |path|
    ensures |path| > 0 ==> Refine(c, path)[0] == path[0] && Last(Refine(c, path)) == Last(path)
  {
    if |path| > 0 {
      var r := Refine(c, path);
      ChainRefineKeepsOrder(c, path[0], path[1..]);
      assert r[1..] == ChainRefine(c, path[0], path[1..]);
      assert path[1..] == path[1..];
      SubsequenceLength(path[1..], r[1..]);
      if |path| > 1 {
        assert Last(path[1..]) == Last(path);
      }
    }
  }

  lemma {:induction false} SubsequenceLength(a: seq<Point>, b: seq<Point>)
    requires IsSubsequence(a, b)
    decreases |b|
    ensures |a| <= |b|
  {
    if |a| > 0 {
      if a[0] == b[0] && IsSubsequence(a[1..], b[1..]) {
        SubsequenceLength(a[1..], b[1..]);
      } else {
        SubsequenceLength(a, b[1..]);
      }
    }
  }
}
