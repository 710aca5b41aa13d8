/** Lines, boxes and circles on a panel that clips. */
module Raster {
  import opened Pixels
  import opened Lines
  import opened Circles

  function Dots(trail: seq<Point>): set<Point> {
    set p | p in trail
  }

  /** Every point from one corner to the other, both included. */
  function Box(left: int, top: int, right: int, bottom: int): set<Point> {
    set x, y | left <= x <= right && top <= y <= bottom :: Point(x, y)
  }

  function Frame(left: int, top: int, right: int, bottom: int): set<Point> {
    set p | p in Box(left, top, right, bottom) && (p.x == left || p.x == right || p.y == top || p.y == bottom)
  }

  /** What filling a box really fills: nothing at all once an edge leaves 16 bits. */
  function Filled(x: int, y: int, w: int, h: int): set<Point> {
    if w <= 0 || h <= 0 || !Fits16(x + w - 1) || !Fits16(y + h - 1) then {} else Box(x, y, x + w - 1, y + h - 1)
  }

  datatype Request = Line | Frame | Fill

  /** What a line request asks for. */
  function Requested(start: Point, end: Point, kind: Request): set<Point> {
    var left, right := Min(start.x, end.x), Max(start.x, end.x);
    var top, bottom := Min(start.y, end.y), Max(start.y, end.y);
    match kind
    case Fill => Box(left, top, right, bottom)
    case Frame => Frame(left, top, right, bottom)
    case Line =>
      if start.x == end.x || start.y == end.y then Box(left, top, right, bottom) else Dots(WholeTrail(start, end))
  }

  predicate Between(a: int, x: int, b: int) {
    a <= x <= b || b <= x <= a
  }

  /** A filled request asks for the box between its corners, a frame for the box's border, a straight line for all points
      between its ends. */
  lemma RequestedIs(start: Point, end: Point, p: Point)
    ensures p in Requested(start, end, Request.Fill) <==> Between(start.x, p.x, end.x) && Between(start.y, p.y, end.y)
    ensures p in Requested(start, end, Request.Frame) <==>
      && Between(start.x, p.x, end.x) && Between(start.y, p.y, end.y)
      && (p.x == start.x || p.x == end.x || p.y == start.y || p.y == end.y)
    ensures start.x == end.x || start.y == end.y ==>
      (p in Requested(start, end, Request.Line) <==> Between(start.x, p.x, end.x) && Between(start.y, p.y, end.y))
  {
    BoxIs(Min(start.x, end.x), Min(start.y, end.y), Max(start.x, end.x), Max(start.y, end.y), p);
  }

  lemma BoxIs(left: int, top: int, right: int, bottom: int, p: Point)
    ensures p in Box(left, top, right, bottom) <==> left <= p.x <= right && top <= p.y <= bottom
  {
    assert p == Point(p.x, p.y);
  }

  /** A length in pixels, as it is cast. */
  function Length(from: int, to: int): int {
    Int16(to - from + 1)
  }

  function Edges(left: int, top: int, right: int, bottom: int): set<Point> {
    var w, h := Length(left, right), Length(top, bottom);
    Filled(left, top, w, 1) + Filled(left, bottom, w, 1) + Filled(left, top, 1, h) + Filled(right, top, 1, h)
  }

  /** What is drawn for it, with every length as it is cast. */
  function Drawn(start: Point, end: Point, kind: Request): set<Point> {
    var left, right := Min(start.x, end.x), Max(start.x, end.x);
    var top, bottom := Min(start.y, end.y), Max(start.y, end.y);
    match kind
    case Fill => Filled(left, top, Length(left, right), Length(top, bottom))
    case Frame => Edges(left, top, right, bottom)
    case Line =>
      if start.y == end.y then Filled(left, start.y, Int16(SpanOf(start.x, end.x) + 1), 1)
      else if start.x == end.x then Filled(start.x, top, 1, Int16(SpanOf(start.y, end.y) + 1))
      else Dots(WholeTrail(start, end))
  }

  /** Both lengths fit 16 bits. */
  predicate ShortSpans(start: Point, end: Point) {
    Abs(end.x - start.x) < 0x7FFF && Abs(end.y - start.y) < 0x7FFF
  }

  lemma LengthIs(from: int, to: int)
    requires Fits16(from) && Fits16(to) && from <= to
    ensures if to - from < 0x7FFF then Length(from, to) == to - from + 1 else Length(from, to) <= 0
  {
    if to - from >= 0x7FFF {
      Int16SeesNoTurns(to - from + 1, -1);
    }
  }

  lemma SpanIs(from: int, to: int)
    requires Fits16(from) && Fits16(to)
    ensures Abs(to - from) < 0x7FFF ==> Int16(SpanOf(from, to) + 1) == Abs(to - from) + 1
    ensures Abs(to - from) >= 0x7FFF ==> Int16(SpanOf(from, to) + 1) <= Abs(to - from)
  {
    if Abs(to - from) > 0x7FFF {
      Int16SeesNoTurns(to - from, if to > from then -1 else 1);
    }
  }

  lemma FilledIsBox(x: int, y: int, x1: int, y1: int, w: int, h: int)
    requires Fits16(x1) && Fits16(y1) && x <= x1 && y <= y1
    ensures Filled(x, y, w, h) == Box(x, y, x1, y1) <==> w == x1 - x + 1 && h == y1 - y + 1
  {
    var corner, first := Point(x1, y1), Point(x, y);
    assert corner in Box(x, y, x1, y1) && first in Box(x, y, x1, y1);
    if Filled(x, y, w, h) == Box(x, y, x1, y1) {
      assert corner in Filled(x, y, w, h);
      assert Point(x + w - 1, y + h - 1) in Filled(x, y, w, h);
    }
  }

  lemma FilledIsPoints(x: int, y: int, x1: int, y1: int)
    requires Fits16(x) && Fits16(y) && Fits16(x1) && Fits16(y1) && x <= x1 && y <= y1
    ensures Filled(x, y, Length(x, x1), Length(y, y1)) == Box(x, y, x1, y1) <==> x1 - x < 0x7FFF && y1 - y < 0x7FFF
  {
    LengthIs(x, x1);
    LengthIs(y, y1);
    FilledIsBox(x, y, x1, y1, Length(x, x1), Length(y, y1));
  }

  lemma FrameIsFourEdges(left: int, top: int, right: int, bottom: int)
    requires left <= right && top <= bottom
    ensures Box(left, top, right, top) + Box(left, bottom, right, bottom) + Box(left, top, left, bottom) + Box(right, top, right, bottom)
         == Frame(left, top, right, bottom)
  {
  }

  lemma EdgesAreFrame(left: int, top: int, right: int, bottom: int)
    requires Fits16(left) && Fits16(top) && Fits16(right) && Fits16(bottom) && left <= right && top <= bottom
    ensures Edges(left, top, right, bottom) == Frame(left, top, right, bottom) <==> right - left < 0x7FFF && bottom - top < 0x7FFF
  {
    LengthIs(left, right);
    LengthIs(top, bottom);
    if right - left < 0x7FFF && bottom - top < 0x7FFF {
      FrameIsFourEdges(left, top, right, bottom);
    } else if right - left >= 0x7FFF {
      var p := Point(left + 1, top);
      assert p in Frame(left, top, right, bottom) && p !in Edges(left, top, right, bottom);
    } else {
      var p := Point(left, top + 1);
      assert p in Frame(left, top, right, bottom) && p !in Edges(left, top, right, bottom);
    }
  }

  /** Filled boxes, frames and axis-parallel lines are drawn as requested exactly up to a span of 32766 pixels. */
  lemma DrawnIsRequestedIff(start: Point, end: Point, kind: Request)
    requires OnPlane(start) && OnPlane(end) && (kind == Line ==> start.x == end.x || start.y == end.y)
    ensures Drawn(start, end, kind) == Requested(start, end, kind) <==> ShortSpans(start, end)
  {
    var left, right := Min(start.x, end.x), Max(start.x, end.x);
    var top, bottom := Min(start.y, end.y), Max(start.y, end.y);
    match kind
    case Fill => FilledIsPoints(left, top, right, bottom);
    case Frame => EdgesAreFrame(left, top, right, bottom);
    case Line =>
      SpanIs(start.x, end.x);
      SpanIs(start.y, end.y);
      if start.y == end.y {
        FilledIsBox(left, top, right, top, Int16(SpanOf(start.x, end.x) + 1), 1);
      } else {
        FilledIsBox(left, top, left, bottom, 1, Int16(SpanOf(start.y, end.y) + 1));
      }
  }

  /** A width or height in pixels that is also an `int16_t`. */
  type Extent = x: int | 0 < x < 0x8000 witness 1

  class Panel {
    const width: Extent
    const height: Extent
    var screen: map<Point, int>

    constructor (width: Extent, height: Extent)
      ensures this.width == width && this.height == height && screen == map[]
    {
      this.width, this.height, screen := width, height, map[];
    }

    predicate InBounds(p: Point) {
      0 <= p.x < width && 0 <= p.y < height
    }

    /** The screen with the visible ones of `points` in a new colour. */
    ghost function Painted(before: map<Point, int>, points: set<Point>, color: int): map<Point, int> {
      map p | p in before.Keys + (set q | q in points && InBounds(q)) ::
        if p in points && InBounds(p) then color else before[p]
    }

    /** Painting changes exactly the points asked for that lie on the panel. */
    lemma PaintedIs(before: map<Point, int>, points: set<Point>, color: int, p: Point)
      ensures var after, hit := Painted(before, points, color), p in points && 0 <= p.x < width && 0 <= p.y < height;
              && (p in after <==> hit || p in before)
              && (p in after ==> after[p] == if hit then color else before[p])
    {
    }

    lemma PaintedNothing(before: map<Point, int>, color: int)
      ensures Painted(before, {}, color) == before
    {
    }

    lemma PaintedMore(before: map<Point, int>, a: set<Point>, b: set<Point>, color: int)
      ensures Painted(Painted(before, a, color), b, color) == Painted(before, a + b, color)
    {
    }

    lemma PaintedMoreDots(before: map<Point, int>, a: seq<Point>, b: seq<Point>, color: int)
      ensures Painted(Painted(before, Dots(a), color), Dots(b), color) == Painted(before, Dots(a + b), color)
    {
      PaintedMore(before, Dots(a), Dots(b), color);
      assert Dots(a + b) == Dots(a) + Dots(b);
    }

    lemma TrailPainted(before: map<Point, int>, start: Point, end: Point, k: nat, color: int)
      ensures Painted(Painted(before, Dots(LineTrail(start, end, k)), color), {CursorAfter(start, end, k).at}, color) ==
              Painted(before, Dots(LineTrail(start, end, k + 1)), color)
    {
      var p := CursorAfter(start, end, k).at;
      assert LineTrail(start, end, k + 1) == LineTrail(start, end, k) + [p];
      PaintedMoreDots(before, LineTrail(start, end, k), [p], color);
      assert Dots([p]) == {p};
    }

    method DrawPixel(p: Point, color: int)
      modifies this
      ensures screen == Painted(old(screen), {p}, color)
    {
      if InBounds(p) {
        screen := screen[p := color];
      }
    }

    lemma PaintedAlike(before: map<Point, int>, a: set<Point>, b: set<Point>, color: int)
      requires forall p :: InBounds(p) ==> (p in a <==> p in b)
      ensures Painted(before, a, color) == Painted(before, b, color)
    {
    }

    /** Fills the controller's write window, which lies on the panel. */
    method WriteWindow(left: int, top: int, right: int, bottom: int, color: int)
      requires InBounds(Point(left, top)) && InBounds(Point(right, bottom))
      modifies this
      ensures screen == Painted(old(screen), Box(left, top, right, bottom), color)
    {
      screen := screen + map p | p in Box(left, top, right, bottom) :: color;
    }

    /** Clips to the panel and fills what is left through one window. */
    method FillRect(x: int, y: int, w: int, h: int, color: int)
      requires OnPlane(Point(x, y)) && OnPlane(Point(w, h))
      modifies this
      ensures screen == Painted(old(screen), Filled(x, y, w, h), color)
    {
      PaintedNothing(screen, color);
      if w <= 0 || h <= 0 {
        return;
      }
      EdgeWraps(x, w);
      EdgeWraps(y, h);
      var xEnd, yEnd := Int16(x + w - 1), Int16(y + h - 1);
      if xEnd < 0 || yEnd < 0 || x >= width || y >= height {
        PaintedAlike(screen, {}, Filled(x, y, w, h), color);
        return;
      }
      var left, top := Max(x, 0), Max(y, 0);
      var right := if xEnd >= width then width - 1 else xEnd;
      var bottom := if yEnd >= height then height - 1 else yEnd;
      PaintedAlike(screen, Box(left, top, right, bottom), Filled(x, y, w, h), color);
      WriteWindow(left, top, right, bottom, color);
    }

    /** A far edge that leaves 16 bits comes out left of the panel. */
    lemma EdgeWraps(x: int, w: int)
      requires Fits16(x) && 0 < w && Fits16(w)
      ensures if Fits16(x + w - 1) then Int16(x + w - 1) == x + w - 1 else Int16(x + w - 1) < 0
    {
      if !Fits16(x + w - 1) {
        Int16SeesNoTurns(x + w - 1, -1);
      }
    }

    /** The panel shows the requested box exactly when its far edges fit 16 bits, or none of it is on the panel anyway. */
    lemma FillIsRightIffFits(x: int, y: int, w: int, h: int)
      requires OnPlane(Point(x, y)) && OnPlane(Point(w, h)) && w > 0 && h > 0
      ensures (forall before, color :: Painted(before, Filled(x, y, w, h), color) == Painted(before, Box(x, y, x + w - 1, y + h - 1), color))
         <==> (Fits16(x + w - 1) && Fits16(y + h - 1)) || (forall p :: p in Box(x, y, x + w - 1, y + h - 1) ==> !InBounds(p))
    {
      var whole := Box(x, y, x + w - 1, y + h - 1);
      if Fits16(x + w - 1) && Fits16(y + h - 1) {
      } else if forall p :: p in whole ==> !InBounds(p) {
        forall before, color ensures Painted(before, Filled(x, y, w, h), color) == Painted(before, whole, color) {
          PaintedAlike(before, Filled(x, y, w, h), whole, color);
        }
      } else {
        var p :| p in whole && InBounds(p);
        assert p in Painted(map[], whole, 0) && p !in Painted(map[], Filled(x, y, w, h), 0);
      }
    }

    method DrawFastHline(x: int, y: int, w: int, color: int)
      requires OnPlane(Point(x, y)) && OnPlane(Point(w, 1))
      modifies this
      ensures screen == Painted(old(screen), Filled(x, y, w, 1), color)
    {
      FillRect(x, y, w, 1, color);
    }

    method DrawFastVline(x: int, y: int, h: int, color: int)
      requires OnPlane(Point(x, y)) && OnPlane(Point(1, h))
      modifies this
      ensures screen == Painted(old(screen), Filled(x, y, 1, h), color)
    {
      FillRect(x, y, 1, h, color);
    }

    /** A fitting line with both spans nonzero: exactly the points of its trail, from start to end. */
    method DrawSlopedLine(start: Point, end: Point, color: int)
      requires FittingLine(start, end)
      modifies this
      ensures screen == Painted(old(screen), Dots(WholeTrail(start, end)), color)
    {
      var x0, y0 := start.x, start.y;
      var dx, sx := SpanOf(x0, end.x), Sign(x0, end.x);
      var dy, sy := -SpanOf(y0, end.y), Sign(y0, end.y);
      var error := Int16(dx + dy);
      ghost var before, last, k: nat := screen, LongerSpan(start, end), 0;
      PaintedNothing(before, color);
      while true
        invariant k <= last && Cursor(Point(x0, y0), error) == CursorAfter(start, end, k)
        invariant screen == Painted(before, Dots(LineTrail(start, end, k)), color)
        decreases last - k
      {
        assert Point(x0, y0) == end <==> k == last by { CursorIsNear(start, end, k); }
        DrawPixel(Point(x0, y0), color);
        assert screen == Painted(before, Dots(LineTrail(start, end, k + 1)), color) by {
          TrailPainted(before, start, end, k, color);
        }
        if x0 == end.x && y0 == end.y {
          break;
        }
        x0, y0, error := StepLine(x0, y0, error, dx, dy, sx, sy, start, end, k);
        k := k + 1;
      }
    }

    /** One turn of the loop. */
    method StepLine(x0: int, y0: int, error0: int, dx: int, dy: int, sx: int, sy: int, ghost start: Point, ghost end: Point, ghost k: nat)
      returns (x: int, y: int, error: int)
      requires dx == SpanOf(start.x, end.x) && dy == -SpanOf(start.y, end.y)
      requires sx == Sign(start.x, end.x) && sy == Sign(start.y, end.y)
      requires Cursor(Point(x0, y0), error0) == CursorAfter(start, end, k)
      ensures Cursor(Point(x, y), error) == CursorAfter(start, end, k + 1)
    {
      NextCursor(start, end, k);
      x, y, error := x0, y0, error0;
      var e2 := Int16(2 * error);
      if e2 >= dy {
        error := Int16(error + dy);
        x := Int16(x + sx);
      }
      if e2 <= dx {
        error := Int16(error + dx);
        y := Int16(y + sy);
      }
    }

    /** The four edges of a box. */
    method DrawRect(left: int, top: int, right: int, bottom: int, color: int)
      requires OnPlane(Point(left, top)) && OnPlane(Point(right, bottom)) && left <= right && top <= bottom
      modifies this
      ensures screen == Painted(old(screen), Edges(left, top, right, bottom), color)
    {
      ghost var before := screen;
      var w, h := Length(left, right), Length(top, bottom);
      DrawFastHline(left, top, w, color);
      DrawFastHline(left, bottom, w, color);
      DrawFastVline(left, top, h, color);
      DrawFastVline(right, top, h, color);
      PaintedFourTimes(before, Filled(left, top, w, 1), Filled(left, bottom, w, 1), Filled(left, top, 1, h),
                       Filled(right, top, 1, h), color);
    }

    lemma PaintedFourTimes(before: map<Point, int>, a: set<Point>, b: set<Point>, c: set<Point>, d: set<Point>, color: int)
      ensures Painted(Painted(Painted(Painted(before, a, color), b, color), c, color), d, color) == Painted(before, a + b + c + d, color)
    {
      PaintedMore(before, a, b, color);
      PaintedMore(before, a + b, c, color);
      PaintedMore(before, a + b + c, d, color);
    }

    /** Every kind of line request; only a sloped line has to fit, as the loop need not end otherwise. */
    method DrawLine(start: Point, end: Point, color: int, kind: Request)
      requires OnPlane(start) && OnPlane(end)
      requires kind == Line && start.x != end.x && start.y != end.y ==> FittingLine(start, end)
      modifies this
      ensures screen == Painted(old(screen), Drawn(start, end, kind), color)
    {
      var left, right := Min(start.x, end.x), Max(start.x, end.x);
      var top, bottom := Min(start.y, end.y), Max(start.y, end.y);
      if kind == Fill {
        FillRect(left, top, Length(left, right), Length(top, bottom), color);
      } else if kind == Frame {
        DrawRect(left, top, right, bottom, color);
      } else if start.y == end.y {
        DrawFastHline(left, start.y, Int16(SpanOf(start.x, end.x) + 1), color);
      } else if start.x == end.x {
        DrawFastVline(start.x, top, Int16(SpanOf(start.y, end.y) + 1), color);
      } else {
        DrawSlopedLine(start, end, color);
      }
    }

    method DrawCirclePoints(cx: int, cy: int, x: int, y: int, color: int)
      modifies this
      ensures screen == Painted(old(screen), Dots(Octants(cx, cy, x, y)), color)
    {
      var points := Octants(cx, cy, x, y);
      ghost var before := screen;
      PaintedNothing(screen, color);
      for i := 0 to |points|
        invariant screen == Painted(before, Dots(points[..i]), color)
      {
        PaintedMoreDots(before, points[..i], [points[i]], color);
        assert points[..i] + [points[i]] == points[..i + 1] && Dots([points[i]]) == {points[i]};
        DrawPixel(points[i], color);
      }
      assert points[..|points|] == points;
    }

    lemma FirstRingPainted(before: map<Point, int>, cx: int, cy: int, c: Arc, color: int)
      requires c.y <= c.x
      ensures Painted(Painted(before, Dots(Octants(cx, cy, c.x, c.y)), color), Dots(ArcTrail(cx, cy, ArcTurn(c))), color) ==
              Painted(before, Dots(ArcTrail(cx, cy, c)), color)
    {
      PaintedMoreDots(before, Octants(cx, cy, c.x, c.y), ArcTrail(cx, cy, ArcTurn(c)), color);
    }

    /** One turn of the circle loop. */
    method StepArc(x0: int, y0: int, decision0: int) returns (x: int, y: int, decision: int)
      requires Fits16(y0 + 1)
      ensures Arc(x, y, decision) == ArcTurn(Arc(x0, y0, decision0))
    {
      x, y := x0, Int16(y0 + 1);
      if decision0 <= 0 {
        decision := Int16(decision0 + 2 * y + 1);
      } else {
        x := x - 1;
        decision := Int16(decision0 + 2 * (y - x) + 1);
      }
    }

    /** An outlined circle: exactly the points of its trail; a radius that is no `int16_t` is refused. */
    method DrawCircle(cx: int, cy: int, radius: int, color: int) returns (ok: bool)
      requires 0 <= radius <= 0xFFFF
      modifies this
      ensures ok == (radius <= 0x7FFF)
      ensures screen == if ok then Painted(old(screen), Dots(ArcTrail(cx, cy, ArcStart(radius))), color) else old(screen)
    {
      if radius > 0x7FFF {
        return false;
      }
      var x, y := radius, 0;
      var decision := Int16(1 - x);
      ghost var c, whole := ArcStart(radius), Painted(screen, Dots(ArcTrail(cx, cy, ArcStart(radius))), color);
      ghost var turns: nat := 0;
      while x >= y
        invariant c == Arc(x, y, decision) == ArcAfter(radius, turns) && Reached(radius, turns)
        invariant Painted(screen, Dots(ArcTrail(cx, cy, c)), color) == whole
        decreases x - y
      {
        assert Fits16(y + 1) by { ReachedFits(radius, turns); }
        ghost var drawn, rest := Painted(screen, Dots(Octants(cx, cy, x, y)), color), Dots(ArcTrail(cx, cy, ArcTurn(c)));
        assert Painted(drawn, rest, color) == whole by { FirstRingPainted(screen, cx, cy, c, color); }
        DrawCirclePoints(cx, cy, x, y, color);
        x, y, decision := StepArc(x, y, decision);
        c, turns := ArcTurn(c), turns + 1;
      }
      PaintedNothing(screen, color);
      return true;
    }
  }
}
