/** Rotating a finished bite to lower its height: the angle search of
    _best_angle (pathmap/getmap.py lines 241-273) and the corner choice of
    _crop_after_rotation (lines 276-330). Shapely's polygon rotation is not
    modelled: the rotated width and height enter as functions of the angle, and
    the rotation of a point by its cosine and sine. */
module Orientation {
  import opened Numeric

  /** Python's range(start, stop, step) for a positive step. */
  function Stepped(start: int, stop: int, step: int): seq<int>
    requires step > 0
    decreases stop - start
  {
    if start >= stop then [] else [start] + Stepped(start + step, stop, step)
  }

  /** range(start, start + step * n, step) is the arithmetic progression of n
      terms from start. */
  lemma {:induction false} SteppedIs(start: int, step: int, n: nat)
    requires step > 0
    ensures Stepped(start, start + step * n, step) == seq(n, i => start + step * i)
    decreases n
  {
    if n > 0 {
      var stop := start + step * n;
      assert stop == (start + step) + step * (n - 1);
      SteppedIs(start + step, step, n - 1);
      var tail := seq(n - 1, i => start + step + step * i);
      assert Stepped(start + step, stop, step) == tail;
      assert Stepped(start, stop, step) == [start] + tail;
      forall i | 0 <= i < n
        ensures ([start] + tail)[i] == start + step * i
      {
        if i > 0 {
          assert ([start] + tail)[i] == tail[i - 1];
        }
      }
    }
  }

  /** The angles tried: thirty-six angles, five degrees apart, from -90 to 85. */
  function Candidates(): seq<int>
  {
    seq(36, i => -90 + 5 * i)
  }

  /** The candidates are exactly range(-90, 90, 5). */
  lemma CandidatesAreRange()
    ensures Candidates() == Stepped(-90, 90, 5)
  {
    SteppedIs(-90, 5, 36);
  }

  /** The bounding box of the surroundings after rotation by an angle (degrees,
      as passed to shapely): its width and height. */
  datatype Rotated = Rotated(width: int -> real, height: int -> real)

  /** The running state of the loop: minheight, best and lowest_penalty. */
  datatype Search = Search(minHeight: real, best: int, lowest: real)

  /** The height plus a hundredth of a degree per degree of rotation. */
  function Penalty(g: Rotated, angle: int): real
  {
    g.height(angle) + IntAbs(angle) as real / 100.0
  }

  /** The width test is strict. */
  predicate Feasible(g: Rotated, maxWidth: real, angle: int)
  {
    g.width(angle) < maxWidth
  }

  /** A candidate that would replace the current best under penalty bound `bound`. */
  predicate Improves(g: Rotated, maxWidth: real, angle: int, bound: real)
  {
    Feasible(g, maxWidth, angle) && Penalty(g, angle) < bound
  }

  /** One iteration of the loop body. */
  function Consider(g: Rotated, maxWidth: real, s: Search, angle: int): Search
  {
    if Improves(g, maxWidth, angle, s.lowest) then Search(g.height(angle), angle, Penalty(g, angle)) else s
  }

  /** The loop over the angles, from state s. */
  function Scan(g: Rotated, maxWidth: real, angles: seq<int>, s: Search): Search
  {
    if |angles| == 0 then s else Scan(g, maxWidth, angles[1..], Consider(g, maxWidth, s, angles[0]))
  }

  /** The state after choosing `angle`. */
  function Chosen(g: Rotated, angle: int): Search
  {
    Search(g.height(angle), angle, Penalty(g, angle))
  }

  /** Index i is the first strict minimum of the penalty among feasible angles,
      and beats the bound. */
  predicate FirstMin(g: Rotated, maxWidth: real, angles: seq<int>, i: int, bound: real)
  {
    && 0 <= i < |angles|
    && Improves(g, maxWidth, angles[i], bound)
    && (forall j :: 0 <= j < i && Feasible(g, maxWidth, angles[j]) ==> Penalty(g, angles[j]) > Penalty(g, angles[i]))
    && (forall j :: i < j < |angles| && Feasible(g, maxWidth, angles[j]) ==> Penalty(g, angles[j]) >= Penalty(g, angles[i]))
  }

  predicate NoneImproves(g: Rotated, maxWidth: real, angles: seq<int>, bound: real)
  {
    forall k :: 0 <= k < |angles| ==> !Improves(g, maxWidth, angles[k], bound)
  }

  /** The loop keeps its state when no angle beats the starting penalty, and
      otherwise ends on the first angle of least penalty. */
  lemma {:induction false} ScanSelects(g: Rotated, maxWidth: real, angles: seq<int>, s: Search)
    ensures NoneImproves(g, maxWidth, angles, s.lowest) ==> Scan(g, maxWidth, angles, s) == s
    ensures !NoneImproves(g, maxWidth, angles, s.lowest)
            ==> exists i :: FirstMin(g, maxWidth, angles, i, s.lowest) && Scan(g, maxWidth, angles, s) == Chosen(g, angles[i])
  {
    if |angles| > 0 {
      var a := angles[0];
      var tail := angles[1..];
      var s1 := Consider(g, maxWidth, s, a);
      ScanSelects(g, maxWidth, tail, s1);
      assert Scan(g, maxWidth, angles, s) == Scan(g, maxWidth, tail, s1);
      if Improves(g, maxWidth, a, s.lowest) {
        assert s1 == Chosen(g, a);
        if NoneImproves(g, maxWidth, tail, s1.lowest) {
          assert FirstMin(g, maxWidth, angles, 0, s.lowest) by {
            forall j | 0 < j < |angles| && Feasible(g, maxWidth, angles[j])
              ensures Penalty(g, angles[j]) >= Penalty(g, a)
            {
              assert !Improves(g, maxWidth, tail[j - 1], s1.lowest);
            }
          }
        } else {
          var i :| FirstMin(g, maxWidth, tail, i, s1.lowest) && Scan(g, maxWidth, tail, s1) == Chosen(g, tail[i]);
          assert FirstMin(g, maxWidth, angles, i + 1, s.lowest) by {
            forall j | 0 <= j < i + 1 && Feasible(g, maxWidth, angles[j])
              ensures Penalty(g, angles[j]) > Penalty(g, angles[i + 1])
            {
              if j > 0 {
                assert angles[j] == tail[j - 1];
              }
            }
            forall j | i + 1 < j < |angles| && Feasible(g, maxWidth, angles[j])
              ensures Penalty(g, angles[j]) >= Penalty(g, angles[i + 1])
            {
              assert angles[j] == tail[j - 1];
            }
          }
        }
      } else {
        assert s1 == s;
        if NoneImproves(g, maxWidth, tail, s.lowest) {
          forall k | 0 <= k < |angles|
            ensures !Improves(g, maxWidth, angles[k], s.lowest)
          {
            if k > 0 {
              assert angles[k] == tail[k - 1];
            }
          }
        } else {
          var i :| FirstMin(g, maxWidth, tail, i, s.lowest) && Scan(g, maxWidth, tail, s1) == Chosen(g, tail[i]);
          assert FirstMin(g, maxWidth, angles, i + 1, s.lowest) by {
            forall j | 0 <= j < i + 1 && Feasible(g, maxWidth, angles[j])
              ensures Penalty(g, angles[j]) > Penalty(g, angles[i + 1])
            {
              if j > 0 {
                assert angles[j] == tail[j - 1];
              }
            }
            forall j | i + 1 < j < |angles| && Feasible(g, maxWidth, angles[j])
              ensures Penalty(g, angles[j]) >= Penalty(g, angles[i + 1])
            {
              assert angles[j] == tail[j - 1];
            }
          }
        }
      }
    }
  }

  /** The best and the lowest penalty never depend on the starting minheight. */
  lemma {:induction false} ScanIgnoresMinHeight(g: Rotated, maxWidth: real, angles: seq<int>, s: Search, t: Search)
    requires s.best == t.best && s.lowest == t.lowest
    ensures Scan(g, maxWidth, angles, s).best == Scan(g, maxWidth, angles, t).best
    ensures Scan(g, maxWidth, angles, s).lowest == Scan(g, maxWidth, angles, t).lowest
  {
    if |angles| > 0 {
      ScanIgnoresMinHeight(g, maxWidth, angles[1..], Consider(g, maxWidth, s, angles[0]), Consider(g, maxWidth, t, angles[0]));
    }
  }

  function Start(maxHeight: real): Search
  {
    Search(maxHeight, 0, 1000.0)
  }

  /** The loop's best angle is the starting one or one of the angles scanned. */
  lemma {:induction false} ScanKeepsOrPicks(g: Rotated, maxWidth: real, angles: seq<int>, s: Search)
    ensures Scan(g, maxWidth, angles, s).best == s.best || Scan(g, maxWidth, angles, s).best in angles
  {
    if |angles| > 0 {
      var t := Consider(g, maxWidth, s, angles[0]);
      ScanKeepsOrPicks(g, maxWidth, angles[1..], t);
      var b := Scan(g, maxWidth, angles[1..], t).best;
      assert b in angles[1..] ==> b in angles;
    }
  }

  /** Every candidate is a multiple of five between -90 and 85. */
  lemma CandidateBounds(a: int)
    requires a in Candidates()
    ensures -90 <= a <= 85 && a % 5 == 0
  {
    var i :| 0 <= i < 36 && Candidates()[i] == a;
  }

  /** _best_angle: the angle the image is rotated by, the negation of the
      angle chosen for shapely, whose y axis points the other way. */
  function BestAngle(g: Rotated, maxWidth: real, maxHeight: real): (r: int)
    ensures r == 0 || -r in Candidates()
    ensures -85 <= r <= 90 && r % 5 == 0
  {
    var best := Scan(g, maxWidth, Candidates(), Start(maxHeight)).best;
    ScanKeepsOrPicks(g, maxWidth, Candidates(), Start(maxHeight));
    assert best != 0 ==> -90 <= best <= 85 && best % 5 == 0 by {
      if best != 0 {
        CandidateBounds(best);
      }
    }
    -best
  }

  /** Without a feasible candidate of penalty below 1000 the result is 0;
      otherwise it is the negation of the first candidate of least penalty
      among the feasible ones (ties go to the most negative angle). */
  lemma BestAngleSelects(g: Rotated, maxWidth: real, maxHeight: real)
    ensures NoneImproves(g, maxWidth, Candidates(), 1000.0) ==> BestAngle(g, maxWidth, maxHeight) == 0
    ensures !NoneImproves(g, maxWidth, Candidates(), 1000.0)
            ==> exists i :: FirstMin(g, maxWidth, Candidates(), i, 1000.0)
                         && BestAngle(g, maxWidth, maxHeight) == -Candidates()[i]
  {
    ScanSelects(g, maxWidth, Candidates(), Start(maxHeight));
  }

  /** A chosen angle passed the strict width test. */
  lemma BestAngleFeasible(g: Rotated, maxWidth: real, maxHeight: real)
    requires !NoneImproves(g, maxWidth, Candidates(), 1000.0)
    ensures g.width(-BestAngle(g, maxWidth, maxHeight)) < maxWidth
  {
    BestAngleSelects(g, maxWidth, maxHeight);
  }

  /** maxheight only seeds minheight, which is never read: it cannot change the result. */
  lemma BestAngleIgnoresMaxHeight(g: Rotated, maxWidth: real, h1: real, h2: real)
    ensures BestAngle(g, maxWidth, h1) == BestAngle(g, maxWidth, h2)
  {
    ScanIgnoresMinHeight(g, maxWidth, Candidates(), Start(h1), Start(h2));
  }

  /** A point in shapely coordinates. */
  datatype Pt = Pt(x: real, y: real)

  /** Shapely's rotation about `center` by an angle with cosine `cos` and sine `sin`. */
  datatype Rotation = Rotation(cos: real, sin: real, center: Pt)

  function Rotate(rot: Rotation, p: Pt): Pt
  {
    var dx := p.x - rot.center.x;
    var dy := p.y - rot.center.y;
    Pt(rot.center.x + dx * rot.cos - dy * rot.sin, rot.center.y + dx * rot.sin + dy * rot.cos)
  }

  /** The old bounding box x1, y1, x2, y2 of the surroundings. */
  datatype Box = Box(x1: real, y1: real, x2: real, y2: real)

  /** new_bb_upper_left (lines 306-316): for a positive angle the left side
      of the rotated box is touched by the rotated upper left corner and its top
      by the rotated upper right one; otherwise by the bottom left and upper left.
      For a rotation by -angle (RotationFor) no rotated point of the old box lies
      left of or above the result. */
  function NewUpperLeft(angle: int, rot: Rotation, b: Box): (r: Pt)
    ensures RotationFor(angle, rot) ==>
              forall p :: InBox(b, p) ==> r.x <= Rotate(rot, p).x && r.y <= Rotate(rot, p).y
  {
    var r := if angle > 0 then
               Pt(Rotate(rot, Pt(b.x1, b.y1)).x, Rotate(rot, Pt(b.x2, b.y1)).y)
             else
               Pt(Rotate(rot, Pt(b.x1, b.y2)).x, Rotate(rot, Pt(b.x1, b.y1)).y);
    assert RotationFor(angle, rot) ==>
             forall p :: InBox(b, p) ==> r.x <= Rotate(rot, p).x && r.y <= Rotate(rot, p).y by {
      if RotationFor(angle, rot) {
        forall p | InBox(b, p)
          ensures r.x <= Rotate(rot, p).x && r.y <= Rotate(rot, p).y
        {
          if angle > 0 {
            TouchesPositive(rot, b, p);
          } else {
            TouchesOtherwise(rot, b, p);
          }
        }
      }
    }
    r
  }

  /** The rotation used is by -angle with |angle| <= 90: a non-negative cosine and
      a sine of the opposite sign to the angle. */
  predicate RotationFor(angle: int, rot: Rotation)
  {
    && rot.cos >= 0.0
    && (angle > 0 ==> rot.sin <= 0.0)
    && (angle <= 0 ==> rot.sin >= 0.0)
  }

  /** How a rotation moves the difference of two points. */
  lemma RotateDiff(rot: Rotation, p: Pt, q: Pt)
    ensures Rotate(rot, p).x - Rotate(rot, q).x == (p.x - q.x) * rot.cos - (p.y - q.y) * rot.sin
    ensures Rotate(rot, p).y - Rotate(rot, q).y == (p.x - q.x) * rot.sin + (p.y - q.y) * rot.cos
  {
  }

  /** a c - b s is non-negative when a and c are and b, s have opposite signs. */
  lemma DiffNonNeg(a: real, c: real, b: real, s: real)
    requires a >= 0.0 && c >= 0.0
    requires (b >= 0.0 && s <= 0.0) || (b <= 0.0 && s >= 0.0)
    ensures a * c - b * s >= 0.0
  {
    assert a * c >= 0.0;
    assert b * s <= 0.0;
  }

  /** a s + b c is non-negative when b and c are and a, s have the same sign. */
  lemma SumNonNeg(a: real, s: real, b: real, c: real)
    requires (a >= 0.0 && s >= 0.0) || (a <= 0.0 && s <= 0.0)
    requires b >= 0.0 && c >= 0.0
    ensures a * s + b * c >= 0.0
  {
    assert a * s >= 0.0;
    assert b * c >= 0.0;
  }

  /** Rotated, q lies left of p when p is right of q, cos >= 0, and sin has
      the sign opposite to p's offset below q. */
  lemma LeftOf(rot: Rotation, q: Pt, p: Pt)
    requires p.x - q.x >= 0.0 && rot.cos >= 0.0
    requires (p.y - q.y >= 0.0 && rot.sin <= 0.0) || (p.y - q.y <= 0.0 && rot.sin >= 0.0)
    ensures Rotate(rot, q).x <= Rotate(rot, p).x
  {
    RotateDiff(rot, p, q);
    DiffNonNeg(p.x - q.x, rot.cos, p.y - q.y, rot.sin);
  }

  /** Rotated, q lies above p when p is below q, cos >= 0, and sin has the
      sign of p's offset right of q. */
  lemma Above(rot: Rotation, q: Pt, p: Pt)
    requires p.y - q.y >= 0.0 && rot.cos >= 0.0
    requires (p.x - q.x >= 0.0 && rot.sin >= 0.0) || (p.x - q.x <= 0.0 && rot.sin <= 0.0)
    ensures Rotate(rot, q).y <= Rotate(rot, p).y
  {
    RotateDiff(rot, p, q);
    SumNonNeg(p.x - q.x, rot.sin, p.y - q.y, rot.cos);
  }

  /** A point of the old box. */
  predicate InBox(b: Box, p: Pt)
  {
    b.x1 <= p.x <= b.x2 && b.y1 <= p.y <= b.y2
  }

  /** For a positive angle the rotated upper left corner is leftmost and the
      rotated upper right corner topmost. */
  lemma TouchesPositive(rot: Rotation, b: Box, p: Pt)
    requires rot.cos >= 0.0 && rot.sin <= 0.0
    requires InBox(b, p)
    ensures Rotate(rot, Pt(b.x1, b.y1)).x <= Rotate(rot, p).x
    ensures Rotate(rot, Pt(b.x2, b.y1)).y <= Rotate(rot, p).y
  {
    LeftOf(rot, Pt(b.x1, b.y1), p);
    Above(rot, Pt(b.x2, b.y1), p);
  }

  /** Otherwise the rotated bottom left corner is leftmost and the rotated
      upper left corner topmost. */
  lemma TouchesOtherwise(rot: Rotation, b: Box, p: Pt)
    requires rot.cos >= 0.0 && rot.sin >= 0.0
    requires InBox(b, p)
    ensures Rotate(rot, Pt(b.x1, b.y2)).x <= Rotate(rot, p).x
    ensures Rotate(rot, Pt(b.x1, b.y1)).y <= Rotate(rot, p).y
  {
    LeftOf(rot, Pt(b.x1, b.y2), p);
    Above(rot, Pt(b.x1, b.y1), p);
  }

  /** A crop rectangle in whole pixels, in PIL's order. */
  datatype PixelBox = PixelBox(left: int, upper: int, right: int, lower: int)

  /** crop_box (lines 318-327): the rotated surroundings' bounds `crop`, taken
      relative to the new upper left corner `ul`, in whole pixels. When the
      bounds lie right of and below `ul`, the box starts inside the rotated image
      and is not inverted. */
  function CropBox(ul: Pt, crop: Box, xres: real, yres: real): (r: PixelBox)
    ensures && xres > 0.0 && yres > 0.0
            && crop.x1 <= crop.x2 && crop.y1 <= crop.y2
            && ul.x <= crop.x1 && ul.y <= crop.y1
            ==> 0 <= r.left <= r.right && 0 <= r.upper <= r.lower
  {
    var offX := crop.x1 - ul.x;
    var offY := crop.y1 - ul.y;
    var w := crop.x2 - crop.x1;
    var h := crop.y2 - crop.y1;
    assert offX >= 0.0 && w >= 0.0 && xres > 0.0 ==> 0 <= ToPixels(offX, xres) <= ToPixels(offX + w, xres) by {
      if offX >= 0.0 && w >= 0.0 && xres > 0.0 {
        ScaledOrder(offX, w, xres);
      }
    }
    assert offY >= 0.0 && h >= 0.0 && yres > 0.0 ==> 0 <= ToPixels(offY, yres) <= ToPixels(offY + h, yres) by {
      if offY >= 0.0 && h >= 0.0 && yres > 0.0 {
        ScaledOrder(offY, h, yres);
      }
    }
    PixelBox(ToPixels(offX, xres), ToPixels(offY, yres), ToPixels(offX + w, xres), ToPixels(offY + h, yres))
  }

  /** A non-negative start and a non-negative length stay ordered in pixels. */
  lemma ScaledOrder(u: real, w: real, k: real)
    requires u >= 0.0 && w >= 0.0 && k > 0.0
    ensures 0 <= ToPixels(u, k) <= ToPixels(u + w, k)
  {
    ToPixelsIs(u, k);
    ToPixelsIs(u + w, k);
    assert u * k >= 0.0;
    assert (u + w) * k == u * k + w * k;
    assert w * k >= 0.0;
    TruncMono(u * k, (u + w) * k);
  }
}
