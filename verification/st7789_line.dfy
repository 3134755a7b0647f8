/** `ST7789.line`: integer Bresenham line drawing, one single-pixel window
    and one encoded colour per plotted point. */
module St7789Line {
  import opened Bytes
  import opened St7789Bus
  import opened St7789Draw
  import Arith

  datatype Point = Point(x: int, y: int)

  function Abs(v: int): nat
  {
    if v < 0 then -v else v
  }

  function Max(a: int, b: int): int
  {
    if a < b then b else a
  }

  /** The walk `line` sets up: `steep` when the y extent is the larger one
      (then x and y change roles), and the endpoints ordered so that the
      major coordinate increases from `(a0, b0)` to `(a1, b1)`. */
  datatype Walk = Walk(steep: bool, a0: int, b0: int, a1: int, b1: int)

  function Normalize(x0: int, y0: int, x1: int, y1: int): (w: Walk)
    ensures w.a0 <= w.a1
    ensures Abs(w.b1 - w.b0) <= w.a1 - w.a0
    ensures w.a1 - w.a0 == Max(Abs(x1 - x0), Abs(y1 - y0))
  {
    var steep := Abs(y1 - y0) > Abs(x1 - x0);
    var w := if steep then Walk(true, y0, x0, y1, x1) else Walk(false, x0, y0, x1, y1);
    if w.a0 > w.a1 then Walk(steep, w.a1, w.b1, w.a0, w.b0) else w
  }

  /** The point plotted for major coordinate `a` and minor coordinate `b`. */
  function Plot(steep: bool, a: int, b: int): Point
  {
    if steep then Point(b, a) else Point(a, b)
  }

  function Major(steep: bool, p: Point): int
  {
    if steep then p.y else p.x
  }

  function Minor(steep: bool, p: Point): int
  {
    if steep then p.x else p.y
  }

  /** The `while x0 <= x1` loop of `line` from major coordinate `a` on, with
      minor coordinate `b` and error term `err`. */
  function Steps(steep: bool, a: int, aEnd: int, b: int, err: int, dx: int, dy: int, ystep: int): seq<Point>
    decreases aEnd - a + 1
  {
    if a > aEnd then []
    else
      var e := err - dy;
      [Plot(steep, a, b)]
      + (if e < 0 then Steps(steep, a + 1, aEnd, b + ystep, e + dx, dx, dy, ystep)
         else Steps(steep, a + 1, aEnd, b, e, dx, dy, ystep))
  }

  /** How far the minor coordinate of `p` has moved from `b` in the
      direction `ystep`. */
  function Offset(steep: bool, p: Point, b: int, ystep: int): int
  {
    if ystep > 0 then Minor(steep, p) - b else b - Minor(steep, p)
  }

  lemma {:induction false} StepsLength(steep: bool, a: int, aEnd: int, b: int, err: int, dx: int, dy: int, ystep: int)
    requires a <= aEnd + 1
    ensures var S := Steps(steep, a, aEnd, b, err, dx, dy, ystep);
            && |S| == aEnd - a + 1
            && (forall k :: 0 <= k < |S| ==> Major(steep, S[k]) == a + k)
    decreases aEnd - a + 1
  {
    if a <= aEnd {
      var e := err - dy;
      var b' := if e < 0 then b + ystep else b;
      var e' := if e < 0 then e + dx else e;
      var S := Steps(steep, a, aEnd, b, err, dx, dy, ystep);
      var T := Steps(steep, a + 1, aEnd, b', e', dx, dy, ystep);
      assert S == [Plot(steep, a, b)] + T;
      StepsLength(steep, a + 1, aEnd, b', e', dx, dy, ystep);
      assert forall k :: 1 <= k < |S| ==> S[k] == T[k - 1];
    }
  }

  /** The Bresenham error after `k` steps for a point `o` minor steps away
      from the start: `err - k*dy + o*dx`. */
  function Deviation(err: int, k: int, dy: int, o: int, dx: int): int
  {
    err - k * dy + o * dx
  }

  /** One step of the error invariant: the identity that carries it from the
      tail of the walk to the whole walk. */
  lemma DeviationShift(err: int, k: int, dy: int, o: int, dx: int)
    ensures Deviation(err - dy, k - 1, dy, o, dx) == Deviation(err, k, dy, o, dx)
    ensures Deviation(err - dy + dx, k - 1, dy, o - 1, dx) == Deviation(err, k, dy, o, dx)
  {
    assert (k - 1) * dy == k * dy - dy;
    assert (o - 1) * dx == o * dx - dx;
  }

  /** Every point of `S` keeps the Bresenham deviation in `0..dx-1`. */
  predicate WithinError(steep: bool, S: seq<Point>, b: int, err: int, dx: int, dy: int, ystep: int)
  {
    forall k :: 0 <= k < |S| ==> 0 <= Deviation(err, k, dy, Offset(steep, S[k], b, ystep), dx) < dx
  }

  /** The loop invariant of Bresenham's algorithm: the error term is the
      distance, in units of `1/dx`, between the plotted minor coordinate and
      the ideal one, and stays in `0..dx-1`. */
  lemma {:induction false} StepsError(steep: bool, a: int, aEnd: int, b: int, err: int, dx: int, dy: int, ystep: int)
    requires dx > 0 && 0 <= dy <= dx && 0 <= err < dx
    requires ystep == 1 || ystep == -1
    requires a <= aEnd + 1
    ensures WithinError(steep, Steps(steep, a, aEnd, b, err, dx, dy, ystep), b, err, dx, dy, ystep)
    decreases aEnd - a + 1
  {
    var S := Steps(steep, a, aEnd, b, err, dx, dy, ystep);
    if a <= aEnd {
      var e := err - dy;
      var shift := if e < 0 then 1 else 0;
      var b' := if e < 0 then b + ystep else b;
      var e' := if e < 0 then e + dx else e;
      var T := Steps(steep, a + 1, aEnd, b', e', dx, dy, ystep);
      assert S == [Plot(steep, a, b)] + T;
      StepsError(steep, a + 1, aEnd, b', e', dx, dy, ystep);
      assert Offset(steep, S[0], b, ystep) == 0;
      assert Deviation(err, 0, dy, 0, dx) == err;
      forall k | 1 <= k < |S|
        ensures 0 <= Deviation(err, k, dy, Offset(steep, S[k], b, ystep), dx) < dx
      {
        assert S[k] == T[k - 1];
        var o := Offset(steep, S[k], b, ystep);
        assert Offset(steep, T[k - 1], b', ystep) == o - shift;
        DeviationShift(err, k, dy, o, dx);
      }
    }
  }

  /** The minor coordinate moves by 0 or 1 in the direction `ystep` from
      one point to the next. */
  lemma {:induction false} StepsAdjacent(steep: bool, a: int, aEnd: int, b: int, err: int, dx: int, dy: int, ystep: int)
    requires ystep == 1 || ystep == -1
    requires a <= aEnd + 1
    ensures var S := Steps(steep, a, aEnd, b, err, dx, dy, ystep);
            forall k :: 0 <= k < |S| - 1 ==>
              0 <= Offset(steep, S[k + 1], b, ystep) - Offset(steep, S[k], b, ystep) <= 1
    decreases aEnd - a + 1
  {
    var S := Steps(steep, a, aEnd, b, err, dx, dy, ystep);
    if a <= aEnd {
      var e := err - dy;
      var shift := if e < 0 then 1 else 0;
      var b' := if e < 0 then b + ystep else b;
      var e' := if e < 0 then e + dx else e;
      var T := Steps(steep, a + 1, aEnd, b', e', dx, dy, ystep);
      assert S == [Plot(steep, a, b)] + T;
      StepsAdjacent(steep, a + 1, aEnd, b', e', dx, dy, ystep);
      StepsLength(steep, a + 1, aEnd, b', e', dx, dy, ystep);
      forall k | 0 <= k < |S| - 1
        ensures 0 <= Offset(steep, S[k + 1], b, ystep) - Offset(steep, S[k], b, ystep) <= 1
      {
        assert S[k + 1] == T[k];
        OffsetRebase(steep, T[k], b, b', ystep, shift);
        if k > 0 {
          assert S[k] == T[k - 1];
          OffsetRebase(steep, T[k - 1], b, b', ystep, shift);
        } else {
          assert Offset(steep, S[0], b, ystep) == 0;
          assert Offset(steep, T[0], b', ystep) == 0;
        }
      }
    }
  }

  /** Measuring from a start moved `shift` steps along `ystep`. */
  lemma OffsetRebase(steep: bool, p: Point, b: int, b': int, ystep: int, shift: int)
    requires ystep == 1 || ystep == -1
    requires b' == b + shift * ystep
    ensures Offset(steep, p, b, ystep) == Offset(steep, p, b', ystep) + shift
  {
  }

  /** The pixels `line(x0, y0, x1, y1, _)` plots, in the order it plots them. */
  function LinePixels(x0: int, y0: int, x1: int, y1: int): (P: seq<Point>)
    ensures |P| == Max(Abs(x1 - x0), Abs(y1 - y0)) + 1
  {
    var w := Normalize(x0, y0, x1, y1);
    var dx := w.a1 - w.a0;
    StepsLength(w.steep, w.a0, w.a1, w.b0, dx / 2, dx, Abs(w.b1 - w.b0), StepOf(w));
    WalkPixels(w)
  }

  /** Twice the signed area spanned by `p` and the segment from `(x0, y0)`
      to `(x1, y1)`: divided by the major extent it is the distance of `p`
      from the ideal line along the minor axis. */
  function Cross(x0: int, y0: int, x1: int, y1: int, p: Point): int
  {
    (p.x - x0) * (y1 - y0) - (p.y - y0) * (x1 - x0)
  }

  lemma CrossSymmetric(x0: int, y0: int, x1: int, y1: int, p: Point)
    ensures Abs(Cross(x1, y1, x0, y0, p)) == Abs(Cross(x0, y0, x1, y1, p))
    ensures Abs(Cross(y0, x0, y1, x1, Point(p.y, p.x))) == Abs(Cross(x0, y0, x1, y1, p))
  {
    var c := Cross(x0, y0, x1, y1, p);
    assert Cross(x1, y1, x0, y0, p) == (p.x - x1) * (y0 - y1) - (p.y - y1) * (x0 - x1);
    assert (p.x - x1) * (y0 - y1) == (p.x - x0) * (y0 - y1) + (x0 - x1) * (y0 - y1);
    assert (p.y - y1) * (x0 - x1) == (p.y - y0) * (x0 - x1) + (y0 - y1) * (x0 - x1);
    assert (p.x - x0) * (y0 - y1) == -((p.x - x0) * (y1 - y0));
    assert (p.y - y0) * (x0 - x1) == -((p.y - y0) * (x1 - x0));
    assert Cross(x1, y1, x0, y0, p) == -c;
    assert Cross(y0, x0, y1, x1, Point(p.y, p.x)) == -c;
  }

  /** The parameters `line` derives from the normalised walk. */
  function StepOf(w: Walk): int
  {
    if w.b0 < w.b1 then 1 else -1
  }

  function WalkPixels(w: Walk): seq<Point>
  {
    var dx := w.a1 - w.a0;
    Steps(w.steep, w.a0, w.a1, w.b0, dx / 2, dx, Abs(w.b1 - w.b0), StepOf(w))
  }

  /** A walk of positive length plots one point per major coordinate, each
      within half a pixel of the ideal line, and ends on the far endpoint. */
  lemma WalkDeviation(w: Walk)
    requires w.a0 < w.a1 && Abs(w.b1 - w.b0) <= w.a1 - w.a0
    ensures var S := WalkPixels(w);
            var dx := w.a1 - w.a0;
            && |S| == dx + 1
            && (forall k :: 0 <= k < |S| ==> Major(w.steep, S[k]) == w.a0 + k)
            && (forall k :: 0 <= k < |S| ==>
                  2 * Abs((Minor(w.steep, S[k]) - w.b0) * dx - k * (w.b1 - w.b0)) <= dx)
  {
    var dx := w.a1 - w.a0;
    var dy := Abs(w.b1 - w.b0);
    var ystep := StepOf(w);
    var h := dx / 2;
    var S := WalkPixels(w);
    StepsLength(w.steep, w.a0, w.a1, w.b0, h, dx, dy, ystep);
    StepsError(w.steep, w.a0, w.a1, w.b0, h, dx, dy, ystep);
    forall k | 0 <= k < |S|
      ensures 2 * Abs((Minor(w.steep, S[k]) - w.b0) * dx - k * (w.b1 - w.b0)) <= dx
    {
      PointDeviation(w, S[k], k, h, dx, dy, ystep);
    }
  }

  /** The deviation bound for one plotted point, from its error term. */
  lemma PointDeviation(w: Walk, p: Point, k: int, h: int, dx: int, dy: int, ystep: int)
    requires dx == w.a1 - w.a0 && dx > 0 && h == dx / 2
    requires dy == Abs(w.b1 - w.b0) && ystep == StepOf(w)
    requires 0 <= Deviation(h, k, dy, Offset(w.steep, p, w.b0, ystep), dx) < dx
    ensures 2 * Abs((Minor(w.steep, p) - w.b0) * dx - k * (w.b1 - w.b0)) <= dx
  {
    var o := Offset(w.steep, p, w.b0, ystep);
    var m := Minor(w.steep, p) - w.b0;
    MinorDeviation(h, k, dx, dy, o, m, w.b1 - w.b0, ystep);
  }

  lemma MinorDeviation(h: int, k: int, dx: int, dy: int, o: int, m: int, db: int, ystep: int)
    requires h == dx / 2 && dx > 0
    requires 0 <= h - k * dy + o * dx < dx
    requires ystep == 1 ==> o == m && dy == db
    requires ystep == -1 ==> o == -m && dy == -db
    requires ystep == 1 || ystep == -1
    ensures 2 * Abs(m * dx - k * db) <= dx
  {
    if ystep == -1 {
      assert o * dx == -(m * dx);
      assert k * dy == -(k * db);
    }
  }

  /** After the whole major extent the error has absorbed exactly `dy`
      minor steps. */
  lemma FinalOffset(h: int, dx: int, dy: int, o: int)
    requires dx > 0 && 0 <= h < dx
    requires 0 <= h - dx * dy + o * dx < dx
    ensures o == dy
  {
    assert h - dx * dy + o * dx == h + (o - dy) * dx;
    Arith.SmallMultiple(o - dy, dx);
  }

  lemma PlotOf(steep: bool, p: Point)
    ensures Plot(steep, Major(steep, p), Minor(steep, p)) == p
  {
  }

  lemma WalkEnds(w: Walk)
    requires w.a0 < w.a1 && Abs(w.b1 - w.b0) <= w.a1 - w.a0
    ensures var S := WalkPixels(w);
            && |S| == w.a1 - w.a0 + 1
            && S[0] == Plot(w.steep, w.a0, w.b0)
            && S[|S| - 1] == Plot(w.steep, w.a1, w.b1)
  {
    var dx := w.a1 - w.a0;
    var dy := Abs(w.b1 - w.b0);
    var ystep := StepOf(w);
    var h := dx / 2;
    var S := WalkPixels(w);
    StepsLength(w.steep, w.a0, w.a1, w.b0, h, dx, dy, ystep);
    StepsError(w.steep, w.a0, w.a1, w.b0, h, dx, dy, ystep);
    var o := Offset(w.steep, S[dx], w.b0, ystep);
    assert 0 <= Deviation(h, dx, dy, o, dx) < dx;
    FinalOffset(h, dx, dy, o);
    assert Minor(w.steep, S[dx]) == w.b1;
    assert Major(w.steep, S[dx]) == w.a1;
    PlotOf(w.steep, S[dx]);
  }

  lemma WalkAdjacent(w: Walk)
    requires w.a0 <= w.a1
    ensures var S := WalkPixels(w);
            forall k :: 0 <= k < |S| - 1 ==>
              Major(w.steep, S[k + 1]) == Major(w.steep, S[k]) + 1
              && Abs(Minor(w.steep, S[k + 1]) - Minor(w.steep, S[k])) <= 1
  {
    var dx := w.a1 - w.a0;
    var ystep := StepOf(w);
    var S := WalkPixels(w);
    StepsLength(w.steep, w.a0, w.a1, w.b0, dx / 2, dx, Abs(w.b1 - w.b0), ystep);
    StepsAdjacent(w.steep, w.a0, w.a1, w.b0, dx / 2, dx, Abs(w.b1 - w.b0), ystep);
    forall k | 0 <= k < |S| - 1
      ensures Major(w.steep, S[k + 1]) == Major(w.steep, S[k]) + 1
      ensures Abs(Minor(w.steep, S[k + 1]) - Minor(w.steep, S[k])) <= 1
    {
      MinorStep(w.steep, S[k], S[k + 1], w.b0, ystep);
    }
  }

  /** Offsets one apart at most mean minor coordinates one apart at most. */
  lemma MinorStep(steep: bool, p: Point, q: Point, b: int, ystep: int)
    requires ystep == 1 || ystep == -1
    requires 0 <= Offset(steep, q, b, ystep) - Offset(steep, p, b, ystep) <= 1
    ensures Abs(Minor(steep, q) - Minor(steep, p)) <= 1
  {
  }

  /** The walk does not depend on which endpoint is given first. */
  lemma NormalizeSymmetric(x0: int, y0: int, x1: int, y1: int)
    ensures Normalize(x0, y0, x1, y1) == Normalize(x1, y1, x0, y0)
  {
  }

  /** `line(x0, y0, x1, y1)` and `line(x1, y1, x0, y0)` plot the same pixels
      in the same order. */
  lemma LineSymmetric(x0: int, y0: int, x1: int, y1: int)
    ensures LinePixels(x0, y0, x1, y1) == LinePixels(x1, y1, x0, y0)
  {
    NormalizeSymmetric(x0, y0, x1, y1);
  }

  /** One pixel per step of the larger extent, starting on one endpoint and
      ending on the other. */
  lemma LineEnds(x0: int, y0: int, x1: int, y1: int)
    ensures var P := LinePixels(x0, y0, x1, y1);
            var n := Max(Abs(x1 - x0), Abs(y1 - y0));
            && |P| == n + 1
            && (n == 0 ==> P == [Point(x0, y0)])
            && (n > 0 ==>
                  || (P[0] == Point(x0, y0) && P[n] == Point(x1, y1))
                  || (P[0] == Point(x1, y1) && P[n] == Point(x0, y0)))
  {
    var w := Normalize(x0, y0, x1, y1);
    if w.a0 < w.a1 {
      WalkEnds(w);
    } else {
      StepsLength(w.steep, w.a0, w.a1, w.b0, 0, 0, 0, StepOf(w));
    }
  }

  /** Consecutive pixels are distinct 8-neighbours: the line has no gaps
      and no repeated pixels. */
  lemma LineConnected(x0: int, y0: int, x1: int, y1: int)
    ensures var P := LinePixels(x0, y0, x1, y1);
            forall k :: 0 <= k < |P| - 1 ==>
              Max(Abs(P[k + 1].x - P[k].x), Abs(P[k + 1].y - P[k].y)) == 1
  {
    var w := Normalize(x0, y0, x1, y1);
    var P := WalkPixels(w);
    WalkAdjacent(w);
    forall k | 0 <= k < |P| - 1
      ensures Max(Abs(P[k + 1].x - P[k].x), Abs(P[k + 1].y - P[k].y)) == 1
    {
      assert Major(w.steep, P[k + 1]) == Major(w.steep, P[k]) + 1;
    }
  }

  /** The walk's closeness bound, restated as a cross product in the
      walk's own frame. */
  lemma WalkCross(w: Walk, p: Point)
    requires w.a0 < w.a1 && Abs(w.b1 - w.b0) <= w.a1 - w.a0
    requires p in WalkPixels(w)
    ensures 2 * Abs(Cross(w.a0, w.b0, w.a1, w.b1, Point(Major(w.steep, p), Minor(w.steep, p)))) <= w.a1 - w.a0
  {
    var S := WalkPixels(w);
    WalkDeviation(w);
    var k :| 0 <= k < |S| && S[k] == p;
    var m := Minor(w.steep, p) - w.b0;
    var db := w.b1 - w.b0;
    assert 2 * Abs(m * (w.a1 - w.a0) - k * db) <= w.a1 - w.a0;
    assert Cross(w.a0, w.b0, w.a1, w.b1, Point(Major(w.steep, p), Minor(w.steep, p)))
        == k * db - m * (w.a1 - w.a0);
  }

  /** Every plotted pixel lies within half a pixel of the ideal segment,
      measured along the minor axis: `|cross| / n <= 1/2`. */
  lemma LineCloseness(x0: int, y0: int, x1: int, y1: int)
    ensures var P := LinePixels(x0, y0, x1, y1);
            var n := Max(Abs(x1 - x0), Abs(y1 - y0));
            forall p :: p in P ==> 2 * Abs(Cross(x0, y0, x1, y1, p)) <= n
  {
    var w := Normalize(x0, y0, x1, y1);
    var P := WalkPixels(w);
    var n := Max(Abs(x1 - x0), Abs(y1 - y0));
    if w.a0 < w.a1 {
      forall p | p in P
        ensures 2 * Abs(Cross(x0, y0, x1, y1, p)) <= n
      {
        WalkCross(w, p);
        CrossSymmetric(x0, y0, x1, y1, p);
        CrossSymmetric(x1, y1, x0, y0, p);
      }
    } else {
      LineEnds(x0, y0, x1, y1);
    }
  }

  /** The bus traffic of drawing each point of `ps` with `draw`, in order. */
  function PlotWith(ps: seq<Point>, draw: Point -> seq<Event>): seq<Event>
  {
    if |ps| == 0 then [] else draw(ps[0]) + PlotWith(ps[1..], draw)
  }

  lemma {:induction false} PlotWithSnoc(ps: seq<Point>, p: Point, draw: Point -> seq<Event>)
    ensures PlotWith(ps + [p], draw) == PlotWith(ps, draw) + draw(p)
    decreases |ps|
  {
    if |ps| > 0 {
      assert (ps + [p])[1..] == ps[1..] + [p];
      PlotWithSnoc(ps[1..], p, draw);
    }
  }

  /** `pixel(x, y, color)` as a function of the point. */
  function PixelAt(d: Display, color: int): Point -> seq<Event>
  {
    (p: Point) => Pixel(d, p.x, p.y, color)
  }

  /** One turn of the loop of `line`: the plotted point joins the points
      already drawn, and the walk resumes from the updated state. */
  lemma StepsAdvance(done: seq<Point>, steep: bool, a: int, aEnd: int, b: int, err: int, dx: int, dy: int, ystep: int,
                     b': int, err': int)
    requires a <= aEnd
    requires b' == (if err - dy < 0 then b + ystep else b)
    requires err' == (if err - dy < 0 then err - dy + dx else err - dy)
    ensures done + Steps(steep, a, aEnd, b, err, dx, dy, ystep)
            == (done + [Plot(steep, a, b)]) + Steps(steep, a + 1, aEnd, b', err', dx, dy, ystep)
  {
    var rest := Steps(steep, a + 1, aEnd, b', err', dx, dy, ystep);
    assert Steps(steep, a, aEnd, b, err, dx, dy, ystep) == [Plot(steep, a, b)] + rest;
  }

  /** The `while x0 <= x1` loop of `line`, drawing each visited point with
      `draw` (a window on the point followed by the encoded colour). */
  method WalkLoop(steep: bool, a0: int, a1: int, b0: int, err0: int, dx: int, dy: int, ystep: int,
                  draw: Point -> seq<Event>) returns (t: seq<Event>)
    requires a0 <= a1 + 1
    ensures t == PlotWith(Steps(steep, a0, a1, b0, err0, dx, dy, ystep), draw)
  {
    var a, b, err := a0, b0, err0;
    t := [];
    ghost var done: seq<Point> := [];
    ghost var target := Steps(steep, a0, a1, b0, err0, dx, dy, ystep);
    while a <= a1
      invariant a <= a1 + 1
      invariant t == PlotWith(done, draw)
      invariant done + Steps(steep, a, a1, b, err, dx, dy, ystep) == target
      decreases a1 - a + 1
    {
      ghost var (a', b', e') := (a, b, err);
      var p := Plot(steep, a, b);
      PlotWithSnoc(done, p, draw);
      t := t + draw(p);
      err := err - dy;
      if err < 0 {
        b := b + ystep;
        err := err + dx;
      }
      a := a + 1;
      StepsAdvance(done, steep, a', a1, b', e', dx, dy, ystep, b, err);
      done := done + [p];
    }
    assert done == target;
  }

  /** `line(x0, y0, x1, y1, color)`: the driver plots exactly the pixels of
      `LinePixels`, in order, each with its own one-pixel window. */
  method Line(d: Display, x0: int, y0: int, x1: int, y1: int, color: int) returns (t: seq<Event>)
    ensures t == PlotWith(LinePixels(x0, y0, x1, y1), PixelAt(d, color))
  {
    var steep := Abs(y1 - y0) > Abs(x1 - x0);
    var a0, b0, a1, b1 := x0, y0, x1, y1;
    if steep {
      a0, b0, a1, b1 := y0, x0, y1, x1;
    }
    if a0 > a1 {
      a0, a1 := a1, a0;
      b0, b1 := b1, b0;
    }
    var w := Walk(steep, a0, b0, a1, b1);
    assert w == Normalize(x0, y0, x1, y1);
    var dx := a1 - a0;
    var dy := Abs(b1 - b0);
    var err := dx / 2;
    var ystep := if b0 < b1 then 1 else -1;
    assert Steps(steep, a0, a1, b0, err, dx, dy, ystep) == WalkPixels(w);
    assert LinePixels(x0, y0, x1, y1) == WalkPixels(w);
    t := WalkLoop(steep, a0, a1, b0, err, dx, dy, ystep, PixelAt(d, color));
  }
}
