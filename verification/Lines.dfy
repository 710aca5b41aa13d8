/** The Bresenham loop: which lines it draws right in 16-bit arithmetic. */
module Lines {
  import opened CStrings
  import opened Divisors
  import opened Pixels

  // ---- One turn of the loop, counted in steps along each axis ----

  /** Steps taken along x and y, and the error term. */
  datatype Pen = Pen(i: int, j: int, error: int)

  /** One turn, for spans `a` along x and `b` along y (`dx == a`, `dy == -b`). */
  function Turn(p: Pen, a: int, b: int): Pen {
    var e2 := Int16(2 * p.error);
    var p1 := if e2 >= -b then Pen(p.i + 1, p.j, Int16(p.error - b)) else p;
    if e2 <= a then Pen(p1.i, p1.j + 1, Int16(p1.error + a)) else p1
  }

  function PenAfter(a: int, b: int, k: nat): Pen {
    if k == 0 then Pen(0, 0, Int16(a - b)) else Turn(PenAfter(a, b, k - 1), a, b)
  }

  predicate Spans(a: int, b: int) {
    1 <= a <= 0x7FFF && 1 <= b <= 0x7FFF
  }

  /** How far the pen is off the ideal line, scaled by the longer span. */
  function Deviation(p: Pen, a: int, b: int): int {
    p.j * a - p.i * b
  }

  /** The pen is in the line's box, `k` steps along the longer axis and within half a pixel of the ideal line. */
  predicate Near(p: Pen, a: int, b: int, k: int) {
    && 0 <= p.i <= a && 0 <= p.j <= b
    && k == (if a >= b then p.i else p.j)
    && -Max(a, b) <= 2 * Deviation(p, a, b) <= Max(a, b)
  }

  /** Where a pixel boundary is hit exactly, the tie goes one way. */
  predicate Tied(p: Pen, a: int, b: int) {
    if a >= b then 2 * Deviation(p, a, b) > -a else 2 * Deviation(p, a, b) < b
  }

  /** The doubled error term as it would be without casts. */
  function Doubled(p: Pen, a: int, b: int): int {
    2 * (Deviation(p, a, b) + a - b)
  }

  /** The error term is the deviation's, up to whole turns of 2^16. */
  predicate Balanced(p: Pen, a: int, b: int) {
    p.error == Int16(Deviation(p, a, b) + a - b)
  }

  predicate OnTrack(p: Pen, a: int, b: int, k: int) {
    Near(p, a, b, k) && Tied(p, a, b) && Balanced(p, a, b)
  }

  predicate AtEnd(p: Pen, a: int, b: int) {
    p.i == a && p.j == b
  }

  lemma DeviationSteps(p: Pen, a: int, b: int, e: int)
    ensures Deviation(Pen(p.i + 1, p.j, e), a, b) == Deviation(p, a, b) - b
    ensures Deviation(Pen(p.i, p.j + 1, e), a, b) == Deviation(p, a, b) + a
    ensures Deviation(Pen(p.i + 1, p.j + 1, e), a, b) == Deviation(p, a, b) + a - b
  {
  }

  /** One turn from the error term `e` behind the cast. */
  lemma TurnIs(p: Pen, a: int, b: int, e: int)
    requires p.error == Int16(e)
    ensures var x, y := Int16(2 * e) >= -b, Int16(2 * e) <= a;
            Turn(p, a, b) == Pen(if x then p.i + 1 else p.i, if y then p.j + 1 else p.j,
                                 Int16(e - (if x then b else 0) + (if y then a else 0)))
  {
    Int16Double(e);
    Int16Sum(e, -b);
    Int16Sum(e, a);
    Int16Sum(e - b, a);
  }

  /** What one turn does, whatever the casts: the error term stays balanced, and its double alone decides the steps. */
  lemma TurnSteps(p: Pen, a: int, b: int)
    requires Balanced(p, a, b)
    ensures var x, y, t := Int16(Doubled(p, a, b)) >= -b, Int16(Doubled(p, a, b)) <= a, Turn(p, a, b);
            && t.i == (if x then p.i + 1 else p.i) && t.j == (if y then p.j + 1 else p.j)
            && Deviation(t, a, b) == Deviation(p, a, b) - (if x then b else 0) + (if y then a else 0)
            && Balanced(t, a, b)
  {
    TurnIs(p, a, b, Deviation(p, a, b) + a - b);
    DeviationSteps(p, a, b, Turn(p, a, b).error);
  }

  /** Before the end the longer axis takes a step, and the other one has steps left whenever it takes one. */
  lemma StepsLeft(p: Pen, a: int, b: int, k: int)
    requires 1 <= a && 1 <= b && Near(p, a, b, k) && Tied(p, a, b) && !AtEnd(p, a, b)
    ensures var e2 := Doubled(p, a, b);
            if a >= b then p.i < a && e2 > -b && (e2 <= a ==> p.j < b)
            else p.j < b && e2 < a && (e2 >= -b ==> p.i < a)
  {
    assert p.j * a - b * a <= 0 && (p.j < b ==> p.j * a - b * a <= -a) by { ProductOrder(p.j, b, a); }
    assert p.i * b - a * b <= 0 && (p.i < a ==> p.i * b - a * b <= -b) by { ProductOrder(p.i, a, b); }
    assert a * b == b * a;
    if p.i == a {
      assert Deviation(p, a, b) == p.j * a - b * a;
    }
    if p.j == b {
      assert Deviation(p, a, b) == a * b - p.i * b;
    }
  }

  lemma TurnKeepsTrack(p: Pen, a: int, b: int, k: int)
    requires 1 <= a && 1 <= b && OnTrack(p, a, b, k) && !AtEnd(p, a, b) && Fits16(Doubled(p, a, b))
    ensures OnTrack(Turn(p, a, b), a, b, k + 1)
  {
    StepsLeft(p, a, b, k);
    TurnSteps(p, a, b);
  }

  /** Once the doubled error does not fit, the very next pen is off the line. */
  lemma TurnLeavesTrack(p: Pen, a: int, b: int, k: int)
    requires Spans(a, b) && OnTrack(p, a, b, k) && !AtEnd(p, a, b) && !Fits16(Doubled(p, a, b))
    ensures !Near(Turn(p, a, b), a, b, k + 1)
  {
    var e2, t := Doubled(p, a, b), Turn(p, a, b);
    TurnSteps(p, a, b);
    if a >= b {
      assert Int16(e2) == e2 - 0x1_0000 <= a by { Int16SeesNoTurns(e2, -1); }
      assert t.i == p.i || Deviation(t, a, b) == Deviation(p, a, b) + a - b;
    } else {
      assert Int16(e2) == e2 + 0x1_0000 >= -b by { Int16SeesNoTurns(e2, 1); }
      assert t.j == p.j || Deviation(t, a, b) == Deviation(p, a, b) + a - b;
    }
  }

  /** The longer axis reaches its end together with the shorter one. */
  lemma EndOfTrack(p: Pen, a: int, b: int, k: int)
    requires 1 <= a && 1 <= b && OnTrack(p, a, b, k)
    ensures AtEnd(p, a, b) <==> k == Max(a, b)
  {
    if !AtEnd(p, a, b) {
      StepsLeft(p, a, b, k);
    }
  }

  // ---- Which lines fit ----

  /** The largest multiple of `g` that is at most half of `n`. */
  function HalfMultiple(g: nat, n: nat): int
    requires g > 0
  {
    g * (n / (2 * g))
  }

  lemma HalfMultipleBounds(g: nat, n: nat)
    requires g > 0
    ensures 2 * HalfMultiple(g, n) <= n < 2 * HalfMultiple(g, n) + 2 * g
    ensures Divides(g, HalfMultiple(g, n)) && HalfMultiple(g, n) / g == n / (2 * g)
  {
    var h, c := 2 * g, n / (2 * g);
    assert n == h * c + n % h;
    assert h * c == 2 * (g * c);
    DividesProduct(g, g * c, c);
  }

  lemma MultipleBelow(g: nat, d: int, n: nat)
    requires g > 0 && Divides(g, d) && 2 * d <= n
    ensures d <= HalfMultiple(g, n)
  {
    HalfMultipleBounds(g, n);
    var q, c := d / g, n / (2 * g);
    assert d == g * q && HalfMultiple(g, n) == g * c;
    assert g * (q - c) == d - HalfMultiple(g, n);
    MultipleIsLarge(g, q - c);
  }

  /** How large half the doubled error gets on a line with longer span `n` and shorter span `m`. */
  function Reach(n: nat, m: nat): int
    requires n > 0
  {
    var g := Gcd(n, m);
    HalfMultiple(g, n) + n - m
  }

  /** The doubled error fits 16 bits at every head of the loop. */
  predicate LineFits(a: int, b: int)
    requires Spans(a, b)
  {
    if a >= b then 2 * Reach(a, b) < 0x8000 else -2 * Reach(b, a) >= -0x8000
  }

  /** No head of a fitting line overflows: its deviation is a multiple of the spans' common divisor. */
  lemma HeadFits(p: Pen, a: int, b: int, k: int)
    requires Spans(a, b) && LineFits(a, b) && Near(p, a, b, k) && Tied(p, a, b)
    ensures Fits16(Doubled(p, a, b))
  {
    var d := Deviation(p, a, b);
    if a >= b {
      MultipleBelow(Gcd(a, b), d, a) by { DeviationDivides(a, b, p.j, -p.i, d); }
    } else {
      MultipleBelow(Gcd(b, a), -d, b) by { DeviationDivides(b, a, p.i, -p.j, -d); }
    }
  }

  lemma DeviationDivides(n: nat, m: nat, i: int, j: int, d: int)
    requires n > 0 && i * n + j * m == d
    ensures Divides(Gcd(n, m), d)
  {
    var u, v := GcdIsCombination(n, m);
    DividesCombination(Gcd(n, m), n, m, i, j);
  }

  lemma SmallDifference(a: int, x: int, y: int)
    requires a > 0 && -a < x * a - y * a < a
    ensures x == y
  {
    assert (x - y) * a == x * a - y * a;
    SmallMultipleIsZero(a, x - y);
  }

  /** A line that does not fit has a head that, if it is on track at all, overflows. */
  lemma MisfitIsReached(a: int, b: int) returns (k: nat)
    requires Spans(a, b) && !LineFits(a, b)
    ensures k < Max(a, b)
    ensures forall p: Pen :: OnTrack(p, a, b, k) ==> !Fits16(Doubled(p, a, b))
  {
    var n, m := Max(a, b), Min(a, b);
    var g := Gcd(n, m);
    var most := HalfMultiple(g, n);
    HalfMultipleBounds(g, n);
    var j;
    k, j := MultipleIsReached(n, m, most);
    forall p: Pen | OnTrack(p, a, b, k) ensures !Fits16(Doubled(p, a, b)) {
      SmallDifference(n, if a >= b then p.j else p.i, j);
    }
  }

  // ---- Right lines ----

  /** Every pen up to the end is near the ideal line; the last one is the end point. */
  predicate RightLine(a: int, b: int) {
    forall k: nat :: k <= Max(a, b) ==> Near(PenAfter(a, b, k), a, b, k)
  }

  /** Every pen of a fitting line is on track, and it is at the end exactly after the longer span's steps. */
  lemma {:induction false} LineStaysOnTrack(a: int, b: int, k: nat)
    requires Spans(a, b) && LineFits(a, b) && k <= Max(a, b)
    ensures OnTrack(PenAfter(a, b, k), a, b, k)
    ensures AtEnd(PenAfter(a, b, k), a, b) <==> k == Max(a, b)
  {
    if k > 0 {
      var p := PenAfter(a, b, k - 1);
      LineStaysOnTrack(a, b, k - 1);
      HeadFits(p, a, b, k - 1);
      TurnKeepsTrack(p, a, b, k - 1);
    }
    EndOfTrack(PenAfter(a, b, k), a, b, k);
  }

  /** Up to `k` turns a pen is on track, or some pen before is off the line. */
  lemma {:induction false} OnTrackOrAstray(a: int, b: int, k: nat) returns (m: nat)
    requires Spans(a, b) && k <= Max(a, b)
    ensures m <= k && (OnTrack(PenAfter(a, b, k), a, b, k) || !Near(PenAfter(a, b, m), a, b, m))
  {
    m := k;
    if k > 0 {
      m := OnTrackOrAstray(a, b, k - 1);
      var p := PenAfter(a, b, k - 1);
      if OnTrack(p, a, b, k - 1) {
        EndOfTrack(p, a, b, k - 1);
        if Fits16(Doubled(p, a, b)) {
          TurnKeepsTrack(p, a, b, k - 1);
        } else {
          TurnLeavesTrack(p, a, b, k - 1);
          m := k;
        }
      }
    }
  }

  lemma MisfitGoesAstray(a: int, b: int) returns (k: nat)
    requires Spans(a, b) && !LineFits(a, b)
    ensures k <= Max(a, b) && !Near(PenAfter(a, b, k), a, b, k)
  {
    var h := MisfitIsReached(a, b);
    k := OnTrackOrAstray(a, b, h);
    var p := PenAfter(a, b, h);
    if OnTrack(p, a, b, h) {
      EndOfTrack(p, a, b, h);
      TurnLeavesTrack(p, a, b, h);
      k := h + 1;
    }
  }

  /** A line with both spans nonzero is drawn right exactly when its error term fits. */
  lemma LineIsRightIffFits(a: int, b: int)
    requires Spans(a, b)
    ensures RightLine(a, b) <==> LineFits(a, b)
  {
    if LineFits(a, b) {
      forall k: nat | k <= Max(a, b) ensures Near(PenAfter(a, b, k), a, b, k) {
        LineStaysOnTrack(a, b, k);
      }
    } else {
      var k := MisfitGoesAstray(a, b);
    }
  }

  /** The longest span for which every line fits. */
  const SAFE_SPAN: int := 10923

  lemma ReachIsBounded(n: nat, m: nat)
    requires n > 0
    ensures 2 * Reach(n, m) <= 3 * n - 2 * m
  {
    HalfMultipleBounds(Gcd(n, m), n);
  }

  lemma FlatReach(n: nat)
    requires n > 0
    ensures Reach(n, 1) == n / 2 + n - 1
  {
    assert Gcd(n, 1) == Gcd(1, 0) == 1;
  }

  /** All lines of longer span `n` are right exactly up to 10923, whether that span lies along x or along y. */
  lemma LinesAreRightIffSafe(n: int)
    requires 1 <= n <= 0x7FFF
    ensures (forall b :: 1 <= b <= n ==> RightLine(n, b)) <==> n <= SAFE_SPAN
    ensures (forall a :: 1 <= a <= n ==> RightLine(a, n)) <==> n <= SAFE_SPAN
  {
    forall b | 1 <= b <= n ensures n <= SAFE_SPAN ==> RightLine(n, b) && RightLine(b, n) {
      ReachIsBounded(n, b);
      LineIsRightIffFits(n, b);
      LineIsRightIffFits(b, n);
    }
    if n > SAFE_SPAN {
      FlatReach(n);
      LineIsRightIffFits(n, 1);
      LineIsRightIffFits(1, n);
    }
  }

  // ---- The loop in coordinates ----

  /** The loop's variables. */
  datatype Cursor = Cursor(at: Point, error: int)

  function Sign(from: int, to: int): int {
    if from < to then 1 else -1
  }

  function SpanOf(from: int, to: int): int {
    Int16(Abs(Int16(to - from)))
  }

  /** The body of the loop behind the test for the end. */
  function CursorTurn(c: Cursor, dx: int, dy: int, sx: int, sy: int): Cursor {
    var e2 := Int16(2 * c.error);
    var c1 := if e2 >= dy then Cursor(Point(Int16(c.at.x + sx), c.at.y), Int16(c.error + dy)) else c;
    if e2 <= dx then Cursor(Point(c1.at.x, Int16(c1.at.y + sy)), Int16(c1.error + dx)) else c1
  }

  function CursorAfter(start: Point, end: Point, k: nat): Cursor {
    var dx, dy := SpanOf(start.x, end.x), -SpanOf(start.y, end.y);
    if k == 0 then Cursor(start, Int16(dx + dy))
    else CursorTurn(CursorAfter(start, end, k - 1), dx, dy, Sign(start.x, end.x), Sign(start.y, end.y))
  }

  lemma NextCursor(start: Point, end: Point, k: nat)
    ensures CursorAfter(start, end, k + 1) ==
            CursorTurn(CursorAfter(start, end, k), SpanOf(start.x, end.x), -SpanOf(start.y, end.y),
                       Sign(start.x, end.x), Sign(start.y, end.y))
  {
  }

  /** Both ends in 16 bits, both spans nonzero and in 16 bits. */
  predicate Sloped(start: Point, end: Point) {
    OnPlane(start) && OnPlane(end) && Spans(Abs(end.x - start.x), Abs(end.y - start.y))
  }

  /** The spans as they are taken. */
  lemma SpansAre(start: Point, end: Point)
    requires Sloped(start, end)
    ensures SpanOf(start.x, end.x) == Abs(end.x - start.x) && SpanOf(start.y, end.y) == Abs(end.y - start.y)
  {
  }

  function Toward(from: int, to: int, steps: int): int {
    if from < to then from + steps else from - steps
  }

  /** The cursor goes where the pen goes, up to whole turns of 2^16. */
  lemma {:induction false} CursorFollowsPen(start: Point, end: Point, k: nat)
    requires Sloped(start, end)
    ensures CursorAfter(start, end, k) == CursorOf(start, end, PenAfter(Abs(end.x - start.x), Abs(end.y - start.y), k))
  {
    SpansAre(start, end);
    if k > 0 {
      CursorFollowsPen(start, end, k - 1);
      CursorTurnFollows(start, end, PenAfter(Abs(end.x - start.x), Abs(end.y - start.y), k - 1),
                        Abs(end.x - start.x), Abs(end.y - start.y));
    } else {
      Int16Keeps(start.x);
      Int16Keeps(start.y);
    }
  }

  function CursorOf(start: Point, end: Point, p: Pen): Cursor {
    Cursor(Point(Int16(Toward(start.x, end.x, p.i)), Int16(Toward(start.y, end.y, p.j))), p.error)
  }

  lemma CursorTurnFollows(start: Point, end: Point, p: Pen, a: int, b: int)
    ensures CursorTurn(CursorOf(start, end, p), a, -b, Sign(start.x, end.x), Sign(start.y, end.y))
         == CursorOf(start, end, Turn(p, a, b))
  {
    StepToward(start.x, end.x, p.i);
    StepToward(start.y, end.y, p.j);
  }

  lemma StepToward(from: int, to: int, steps: int)
    ensures Int16(Int16(Toward(from, to, steps)) + Sign(from, to)) == Int16(Toward(from, to, steps + 1))
  {
    Int16Sum(Toward(from, to, steps), Sign(from, to));
  }

  predicate FittingLine(start: Point, end: Point) {
    Sloped(start, end) && LineFits(Abs(end.x - start.x), Abs(end.y - start.y))
  }

  function LongerSpan(start: Point, end: Point): nat {
    Max(Abs(end.x - start.x), Abs(end.y - start.y))
  }

  /** The `k`-th point of a line: in its box, within half a pixel of the ideal line, and the end point if it is the last. */
  predicate PointOfLine(start: Point, end: Point, p: Point, k: nat) {
    && Near(Pen(Abs(p.x - start.x), Abs(p.y - start.y), 0), Abs(end.x - start.x), Abs(end.y - start.y), k)
    && OnPlane(p)
    && (p == end <==> k == LongerSpan(start, end))
  }

  /** On a fitting line no coordinate wraps. */
  lemma CursorIsNear(start: Point, end: Point, k: nat)
    requires FittingLine(start, end) && k <= LongerSpan(start, end)
    ensures PointOfLine(start, end, CursorAfter(start, end, k).at, k)
  {
    var a, b := Abs(end.x - start.x), Abs(end.y - start.y);
    var p := PenAfter(a, b, k);
    assert Near(Pen(p.i, p.j, 0), a, b, k) && (AtEnd(p, a, b) <==> k == Max(a, b)) by { LineStaysOnTrack(a, b, k); }
    assert CursorAfter(start, end, k) == CursorOf(start, end, p) by { CursorFollowsPen(start, end, k); }
    PenIsPoint(start, end, p, k);
  }

  lemma PenIsPoint(start: Point, end: Point, p: Pen, k: nat)
    requires Sloped(start, end) && Near(Pen(p.i, p.j, 0), Abs(end.x - start.x), Abs(end.y - start.y), k)
    requires AtEnd(p, Abs(end.x - start.x), Abs(end.y - start.y)) <==> k == LongerSpan(start, end)
    ensures PointOfLine(start, end, CursorOf(start, end, p).at, k)
  {
    InTheBox(start.x, end.x, p.i);
    InTheBox(start.y, end.y, p.j);
    var q := CursorOf(start, end, p).at;
    assert Pen(Abs(q.x - start.x), Abs(q.y - start.y), 0) == Pen(p.i, p.j, 0);
  }

  lemma InTheBox(from: int, to: int, steps: int)
    requires Fits16(from) && Fits16(to) && 0 <= steps <= Abs(to - from)
    ensures var x := Toward(from, to, steps);
            Int16(x) == x && Fits16(x) && Abs(x - from) == steps && (x == to <==> steps == Abs(to - from))
  {
    Int16Keeps(Toward(from, to, steps));
  }

  function LineTrail(start: Point, end: Point, count: nat): seq<Point> {
    if count == 0 then [] else LineTrail(start, end, count - 1) + [CursorAfter(start, end, count - 1).at]
  }

  /** The points of a sloped line: one for each step along its longer axis, and the start. */
  function WholeTrail(start: Point, end: Point): seq<Point> {
    LineTrail(start, end, LongerSpan(start, end) + 1)
  }

  /** One point for every step of the longer axis and the start, from start to end. */
  lemma TrailIsLine(start: Point, end: Point, k: nat)
    requires FittingLine(start, end) && k <= LongerSpan(start, end)
    ensures |WholeTrail(start, end)| == LongerSpan(start, end) + 1 && WholeTrail(start, end)[0] == start
    ensures PointOfLine(start, end, WholeTrail(start, end)[k], k)
  {
    var count := LongerSpan(start, end) + 1;
    assert |WholeTrail(start, end)| == count && WholeTrail(start, end)[0] == start by { TrailAt(start, end, count, 0); }
    var p := CursorAfter(start, end, k).at;
    assert WholeTrail(start, end)[k] == p by { TrailAt(start, end, count, k); }
    CursorIsNear(start, end, k);
  }

  lemma {:induction false} TrailAt(start: Point, end: Point, count: nat, k: nat)
    requires k < count
    ensures |LineTrail(start, end, count)| == count && LineTrail(start, end, count)[k] == CursorAfter(start, end, k).at
  {
    if k < count - 1 {
      TrailAt(start, end, count - 1, k);
    } else if count > 1 {
      TrailAt(start, end, count - 1, 0);
    }
  }

  // ---- A line that never ends ----

  const FAR: int := 10924

  lemma {:induction false} FlatStart(k: nat)
    requires k <= 5458
    ensures PenAfter(FAR, 1, k) == Pen(k, 0, FAR - 1 - k)
  {
    if k > 0 {
      FlatStart(k - 1);
    }
  }

  /** From turn 5458 on the error term goes round twelve values, eight steps along x and six along y a round. */
  predicate GoesRound(p: Pen) {
    var along := 3 * p.i - 4 * p.j;
    || (p.error in {5465, -27303} && along == 16374)
    || (p.error in {5464, -27304} && along == 16377)
    || (p.error in {5463, -27305} && along == 16380)
    || (p.error in {5462, -27306} && along == 16383)
    || (p.error in {16385, -16383} && along == 16382)
    || (p.error in {27309, -5459} && along == 16378)
  }

  lemma {:induction false} GoesRoundForEver(k: nat)
    requires k >= 5458
    ensures GoesRound(PenAfter(FAR, 1, k))
  {
    if k == 5458 {
      FlatStart(k);
    } else {
      GoesRoundForEver(k - 1);
    }
  }

  /** Beyond the safe span the loop need not end at all: from (0, 0) it never comes to (10924, 1). */
  lemma LineNeverEnds(k: nat)
    ensures CursorAfter(Point(0, 0), Point(FAR, 1), k).at != Point(FAR, 1)
  {
    var p := PenAfter(FAR, 1, k);
    CursorFollowsPen(Point(0, 0), Point(FAR, 1), k);
    if k < 5458 {
      FlatStart(k);
    } else {
      GoesRoundForEver(k);
      RoundMissesEnd(p);
    }
  }

  lemma RoundMissesEnd(p: Pen)
    requires GoesRound(p)
    ensures Int16(p.i) != FAR || Int16(p.j) != 1
  {
    var u := Int16Turns(p.i);
    var v := Int16Turns(p.j);
    var along := 3 * p.i - 4 * p.j;
    assert along == 3 * Int16(p.i) - 4 * Int16(p.j) - 0x1_0000 * (3 * u - 4 * v);
    assert 0 < along < 0x8000;
  }
}
