/** The midpoint circle loop: which circles it draws right in 16-bit arithmetic. */
module Circles {
  import opened Pixels

  datatype Arc = Arc(x: int, y: int, decision: int)

  function ArcStart(r: int): Arc {
    Arc(r, 0, Int16(1 - r))
  }

  /** One turn of the circle loop. */
  function ArcTurn(c: Arc): Arc {
    var y := c.y + 1;
    if c.decision <= 0 then Arc(c.x, y, Int16(c.decision + 2 * y + 1))
    else Arc(c.x - 1, y, Int16(c.decision + 2 * (y - (c.x - 1)) + 1))
  }

  /** The next decision before it is cast. */
  function Decided(c: Arc): int {
    if c.decision <= 0 then c.decision + 2 * (c.y + 1) + 1 else c.decision + 2 * (c.y + 1 - (c.x - 1)) + 1
  }

  /** `x` is the integer nearest to the true half-width of the circle at height `y`. */
  predicate NearestOnCircle(x: int, y: int, r: int) {
    x * x - x + y * y <= r * r < x * x + x + y * y
  }

  /** The radii whose decisions all fit 16 bits. */
  predicate RightRadius(r: int) {
    1 <= r <= 16556 || 16641 <= r <= 16643
  }

  /** The loop head at height `c.y`: what the decision stands for, and how good `c.x` is. */
  predicate OnCircle(c: Arc, r: int) {
    && 0 <= c.y && 0 <= c.x <= r
    && c.decision == c.x * c.x - c.x + (c.y + 1) * (c.y + 1) - r * r
    && r * r < c.x * c.x + c.x + c.y * c.y
    && (c.x >= c.y ==> NearestOnCircle(c.x, c.y, r))
  }

  lemma CircleStarts(r: int)
    requires 1 <= r <= 0x7FFF
    ensures OnCircle(ArcStart(r), r)
  {
    Int16Keeps(1 - r);
    assert r * r < r * r + r;
  }

  lemma Squares(x: int)
    ensures (x - 1) * (x - 1) == x * x - 2 * x + 1 && (x + 1) * (x + 1) == x * x + 2 * x + 1
    ensures (x - 2) * (x - 2) == x * x - 4 * x + 4 && (x + 2) * (x + 2) == x * x + 4 * x + 4
  {
  }

  /** What one turn does to a head as long as its decision fits. */
  lemma ArcTurnKeepsCircle(c: Arc, r: int)
    requires 1 <= r && OnCircle(c, r) && c.y <= c.x && Fits16(Decided(c))
    ensures OnCircle(ArcTurn(c), r)
    ensures ArcTurn(c).decision == Decided(c)
  {
    Squares(c.y);
    Squares(c.y + 1);
    if c.decision > 0 {
      Squares(c.x);
      Squares(c.x - 1);
    }
  }

  // ---- Decisions of the right radii fit ----

  lemma RootAbove(y: int, c: int)
    requires 0 <= y && 0 <= c && c * c < y * y
    ensures y >= c + 1 && y * y >= c * c + 2 * c + 1
  {
    if y <= c {
      SquaresGrow(y, c);
    } else {
      SquaresGrow(c + 1, y);
      Squares(c);
    }
  }

  /** Where a head may be when its decision is formed, and the decision there. */
  predicate Arrives(x: int, y: int, d: int, r: int) {
    0 <= x <= r && 1 <= y && r * r < x * x + x + y * y && d == x * x - x + (y + 1) * (y + 1) - r * r
  }

  lemma ArrivesAt(c: Arc, r: int)
    requires 1 <= r && OnCircle(c, r) && c.y <= c.x
    ensures var t := ArcTurn(c); Arrives(t.x, t.y, Decided(c), r)
    ensures Decided(c) <= 2 * c.y + 6
  {
    Squares(c.y);
    Squares(c.y + 1);
    if c.decision > 0 {
      Squares(c.x);
      Squares(c.x - 1);
    }
  }

  /** In general the decision is at least `2 * y + 2 - 2 * x`, which is enough for small half-widths. */
  lemma DecisionFromBelow(x: int, y: int, d: int, r: int)
    requires Arrives(x, y, d, r)
    ensures d >= 2 * y + 2 - 2 * x
  {
    Squares(y);
  }

  /** Large half-widths: nearly as large as the radius. */
  lemma DecisionNearTop(x: int, y: int, d: int, r: int)
    requires Arrives(x, y, d, r) && RightRadius(r) && x > 16385
    ensures d >= -0x8000
  {
    Squares(y);
    var k := r - x;
    assert x * x == r * r - 2 * k * r + k * k;
    assert y * y > 2 * k * r - k * k - r + k;
    assert d == y * y + 2 * y + 1 - 2 * k * r + k * k - r + k;
    if k == 1 {
      RootAbove(y, if r <= 16556 then 128 else 129);
    } else if k == 2 {
      RootAbove(y, if r <= 16428 then 221 else if r <= 16556 then 222 else 223);
    } else if k >= 3 {
      AtLeastThree(x, y, d, r);
    }
  }

  lemma AtLeastThree(x: int, y: int, d: int, r: int)
    requires Arrives(x, y, d, r) && 16385 < x <= r - 3 && r <= 16643
    ensures d >= -0x8000
  {
    SquaresGrow(x, r - 3);
    assert (r - 3) * (r - 3) + (r - 3) == r * r - 5 * r + 6;
    RootAbove(y, 286);
    DecisionFromBelow(x, y, d, r);
  }

  lemma HeightIsBounded(c: Arc, r: int)
    requires 1 <= r <= 16643 && OnCircle(c, r) && c.y <= c.x
    ensures c.y < 12000
  {
    if c.y >= 12000 {
      SquaresGrow(12000, c.y);
      SquaresGrow(c.y, c.x);
      SquaresGrow(r, 16643);
    }
  }

  lemma DecisionFits(c: Arc, r: int)
    requires RightRadius(r) && OnCircle(c, r) && c.y <= c.x
    ensures Fits16(Decided(c))
  {
    var t := ArcTurn(c);
    ArrivesAt(c, r);
    HeightIsBounded(c, r);
    if t.x > 16385 {
      DecisionNearTop(t.x, t.y, Decided(c), r);
    } else {
      DecisionFromBelow(t.x, t.y, Decided(c), r);
    }
  }

  /** Nearest: no other integer fits between the same bounds. */
  lemma NearestIsUnique(x: int, z: int, y: int, r: int)
    requires x >= 0 && z >= 0 && NearestOnCircle(x, y, r) && NearestOnCircle(z, y, r)
    ensures x == z
  {
    if x < z {
      assert z * z - z == (z - 1) * z && x * x + x == x * (x + 1);
      ProductOrder(x, z - 1, x + 1);
      ProductOrder(x + 1, z, z - 1);
    } else if z < x {
      assert x * x - x == (x - 1) * x && z * z + z == z * (z + 1);
      ProductOrder(z, x - 1, z + 1);
      ProductOrder(z + 1, x, x - 1);
    }
  }

  /** The eight reflections of an offset. */
  function Octants(cx: int, cy: int, x: int, y: int): seq<Point> {
    seq(8, i requires 0 <= i < 8 => Reflection(cx, cy, x, y, i))
  }

  function Reflection(cx: int, cy: int, x: int, y: int, i: int): Point
    requires 0 <= i < 8
  {
    match i
    case 0 => Point(Int16(cx + x), Int16(cy + y))
    case 1 => Point(Int16(cx + y), Int16(cy + x))
    case 2 => Point(Int16(cx - y), Int16(cy + x))
    case 3 => Point(Int16(cx - x), Int16(cy + y))
    case 4 => Point(Int16(cx - x), Int16(cy - y))
    case 5 => Point(Int16(cx - y), Int16(cy - x))
    case 6 => Point(Int16(cx + y), Int16(cy - x))
    case _ => Point(Int16(cx + x), Int16(cy - y))
  }

  /** The points drawn from one loop head on. */
  function ArcTrail(cx: int, cy: int, c: Arc): seq<Point>
    decreases c.x - c.y + 1
  {
    if c.x < c.y then [] else Octants(cx, cy, c.x, c.y) + ArcTrail(cx, cy, ArcTurn(c))
  }

  /** A point of the digital circle: its longer offset is the nearest integer to the true one at its shorter offset. */
  predicate OnRing(p: Point, cx: int, cy: int, r: int) {
    var u, v := Abs(p.x - cx), Abs(p.y - cy);
    NearestOnCircle(Max(u, v), Min(u, v), r)
  }

  /** The eight reflections are exactly the points with these two offsets. */
  lemma OctantsAreReflections(cx: int, cy: int, x: int, y: int, r: int, p: Point)
    requires CircleFits(cx, cy, r) && 0 <= y <= x <= r
    ensures p in Octants(cx, cy, x, y) <==> Max(Abs(p.x - cx), Abs(p.y - cy)) == x && Min(Abs(p.x - cx), Abs(p.y - cy)) == y
  {
    Int16Keeps(cx + x); Int16Keeps(cx - x); Int16Keeps(cx + y); Int16Keeps(cx - y);
    Int16Keeps(cy + x); Int16Keeps(cy - x); Int16Keeps(cy + y); Int16Keeps(cy - y);
    var u, v := p.x - cx, p.y - cy;
    var o := Octants(cx, cy, x, y);
    assert p in o <==> p == o[0] || p == o[1] || p == o[2] || p == o[3] || p == o[4] || p == o[5] || p == o[6] || p == o[7];
    assert p in o <==>
      ((u == x || u == -x) && (v == y || v == -y)) || ((u == y || u == -y) && (v == x || v == -x));
  }

  /** No coordinate of the circle leaves 16 bits. */
  predicate CircleFits(cx: int, cy: int, r: int) {
    -0x8000 <= cx - r && cx + r < 0x8000 && -0x8000 <= cy - r && cy + r < 0x8000
  }

  /** When the loop stops there is no ring point left above it. */
  lemma NothingAbove(c: Arc, r: int, x: int, y: int)
    requires OnCircle(c, r) && c.x < c.y && c.y <= y <= x
    ensures !NearestOnCircle(x, y, r)
  {
    SquaresGrow(c.x, c.y - 1);
    SquaresGrow(c.y, x);
    SquaresGrow(c.y, y);
    Squares(c.y);
  }

  lemma {:induction false} TrailIsUpperRing(cx: int, cy: int, c: Arc, r: int, p: Point)
    requires RightRadius(r) && CircleFits(cx, cy, r) && OnCircle(c, r)
    ensures p in ArcTrail(cx, cy, c) <==> OnRing(p, cx, cy, r) && c.y <= Min(Abs(p.x - cx), Abs(p.y - cy))
    decreases c.x - c.y + 1
  {
    var x, y := Max(Abs(p.x - cx), Abs(p.y - cy)), Min(Abs(p.x - cx), Abs(p.y - cy));
    if c.x < c.y {
      if c.y <= y {
        NothingAbove(c, r, x, y);
      }
    } else {
      OctantsAreReflections(cx, cy, c.x, c.y, r, p);
      assert OnCircle(ArcTurn(c), r) by {
        DecisionFits(c, r);
        ArcTurnKeepsCircle(c, r);
      }
      TrailIsUpperRing(cx, cy, ArcTurn(c), r, p);
      if OnRing(p, cx, cy, r) && y == c.y {
        NearestIsUnique(x, c.x, y, r);
      }
    }
  }

  // ---- All other radii fail ----

  /** The largest integer whose square is at most `r`. */
  function Root(r: nat): (s: nat)
    ensures s * s <= r < s * s + 2 * s + 1
  {
    if r == 0 then 0 else
      var s := Root(r - 1);
      Squares(s);
      if (s + 1) * (s + 1) <= r then s + 1 else s
  }

  /** Up to height `Root(r)` the half-width stays the radius. */
  lemma {:induction false} ArcGoesUp(r: int, k: nat)
    requires 1 <= r <= 0x7FFF && k <= Root(r)
    ensures ArcAfter(r, k) == Arc(r, k, (k + 1) * (k + 1) - r)
  {
    if k == 0 {
      Int16Keeps(1 - r);
    } else {
      ArcGoesUp(r, k - 1);
      SquaresGrow(k, Root(r));
      RootIsSmall(r);
      Squares(k);
      Int16Keeps((k + 1) * (k + 1) - r);
    }
  }

  function ArcAfter(r: int, k: nat): Arc {
    if k == 0 then ArcStart(r) else ArcTurn(ArcAfter(r, k - 1))
  }

  lemma RootIsSmall(r: nat)
    requires r <= 0x7FFF
    ensures Root(r) <= 181
  {
    if Root(r) >= 182 {
      SquaresGrow(182, Root(r));
    }
  }

  /** The decision after the first step inwards, where 16 bits are first not enough. */
  lemma FirstStepOverflows(r: int)
    requires 1 <= r <= 0x7FFF && !RightRadius(r)
    ensures var s := Root(r); -0x1_0000 < (s + 2) * (s + 2) + 2 - 3 * r < -0x8000
  {
    var s := Root(r);
    RootIsSmall(r);
    Squares(s);
    if s <= 128 {
      SquaresGrow(s, 128);
    } else if s >= 130 {
      SquaresGrow(130, s);
    }
    OverflowsBySquare(r, s, s * s);
  }

  lemma OverflowsBySquare(r: int, s: int, square: int)
    requires 1 <= r <= 0x7FFF && !RightRadius(r) && 0 <= s <= 181 && square <= r < square + 2 * s + 1
    requires if s <= 128 then square <= 16384 else if s == 129 then square == 16641 else square >= 16900
    ensures -0x1_0000 < square + 4 * s + 6 - 3 * r < -0x8000
  {
  }

  /** What is drawn from a later head is part of the whole trail. */
  lemma {:induction false} LaterHeads(cx: int, cy: int, r: int, k: nat, p: Point)
    requires forall m: nat :: m < k ==> ArcAfter(r, m).y <= ArcAfter(r, m).x
    requires p in ArcTrail(cx, cy, ArcAfter(r, k))
    ensures p in ArcTrail(cx, cy, ArcStart(r))
  {
    if k > 0 {
      assert ArcAfter(r, k - 1).y <= ArcAfter(r, k - 1).x;
      LaterHeads(cx, cy, r, k - 1, p);
    }
  }

  /** Two turns from the top of the arc, the half-width has stepped in twice. */
  lemma TwoStepsIn(r: int, s: int, e: int)
    requires 0 <= s <= 181 && r < (s + 1) * (s + 1)
    requires e == (s + 2) * (s + 2) + 2 - 3 * r && -0x1_0000 < e < -0x8000
    ensures ArcTurn(Arc(r, s, (s + 1) * (s + 1) - r)) == Arc(r - 1, s + 1, e + 0x1_0000)
    ensures var c := ArcTurn(Arc(r - 1, s + 1, e + 0x1_0000)); c.x == r - 2 && c.y == s + 2
  {
    Squares(s);
    Int16SeesNoTurns(e, 1);
    Int16Keeps(e + 0x1_0000);
  }

  lemma TopOfArc(r: int, m: nat)
    requires 1 <= r <= 0x7FFF && m <= Root(r)
    ensures var c := ArcAfter(r, m); c.y == m && c.x == r && (r > 181 ==> c.y <= c.x)
  {
    RootIsSmall(r);
    ArcGoesUp(r, m);
  }

  lemma HeadsBehindTop(r: int, s: nat)
    requires 1 <= r <= 0x7FFF && s == Root(r) && !RightRadius(r)
    ensures ArcAfter(r, s + 1).y == s + 1 && ArcAfter(r, s + 1).x == r - 1
    ensures ArcAfter(r, s + 2).y == s + 2 && ArcAfter(r, s + 2).x == r - 2
  {
    var top, e := Arc(r, s, (s + 1) * (s + 1) - r), (s + 2) * (s + 2) + 2 - 3 * r;
    assert ArcAfter(r, s) == top by { ArcGoesUp(r, s); }
    assert ArcAfter(r, s + 1) == ArcTurn(top);
    assert ArcAfter(r, s + 2) == ArcTurn(ArcTurn(top));
    assert ArcTurn(top) == Arc(r - 1, s + 1, e + 0x1_0000) && ArcTurn(ArcTurn(top)).x == r - 2 && ArcTurn(ArcTurn(top)).y == s + 2 by {
      RootIsSmall(r);
      Squares(s);
      FirstStepOverflows(r);
      TwoStepsIn(r, s, e);
    }
  }

  /** Then it is one too small, if the decision in between did not fit. */
  lemma ArcGoesAstray(r: int, s: nat)
    requires 1 <= r <= 0x7FFF && s == Root(r) && !RightRadius(r)
    ensures s <= 181
    ensures forall m: nat :: m < s + 2 ==> ArcAfter(r, m).y <= ArcAfter(r, m).x
    ensures ArcAfter(r, s + 2).x == r - 2 && ArcAfter(r, s + 2).y == s + 2
    ensures !NearestOnCircle(r - 2, s + 2, r)
  {
    RootIsSmall(r);
    HeadsBehindTop(r, s);
    assert !NearestOnCircle(r - 2, s + 2, r) by {
      FirstStepOverflows(r);
      StepsInTooFar(r, s + 2, (s + 2) * (s + 2) + 2 - 3 * r);
    }
    forall m: nat | m < s + 2 ensures ArcAfter(r, m).y <= ArcAfter(r, m).x {
      if m < s + 1 {
        TopOfArc(r, m);
      }
    }
  }

  lemma StepsInTooFar(r: int, y: int, e: int)
    requires e == y * y + 2 - 3 * r && e < 0
    ensures !NearestOnCircle(r - 2, y, r)
  {
    Squares(r);
    assert (r - 2) * (r - 2) + (r - 2) + y * y == r * r + e;
  }

  /** In every wrong radius a point is drawn that is not on the circle. */
  lemma WrongPointIsDrawn(cx: int, cy: int, r: int) returns (p: Point)
    requires 1 <= r <= 0x7FFF && !RightRadius(r) && CircleFits(cx, cy, r)
    ensures p == Point(cx + r - 2, cy + Root(r) + 2)
    ensures p in ArcTrail(cx, cy, ArcStart(r)) && !OnRing(p, cx, cy, r)
  {
    var s := Root(r);
    ArcGoesAstray(r, s);
    p := Point(cx + r - 2, cy + s + 2);
    assert Max(Abs(p.x - cx), Abs(p.y - cy)) == r - 2 && Min(Abs(p.x - cx), Abs(p.y - cy)) == s + 2;
    assert p in ArcTrail(cx, cy, ArcAfter(r, s + 2)) by {
      OctantsAreReflections(cx, cy, r - 2, s + 2, r, p);
      DrawnAtHead(cx, cy, ArcAfter(r, s + 2), p);
    }
    LaterHeads(cx, cy, r, s + 2, p);
  }

  lemma DrawnAtHead(cx: int, cy: int, c: Arc, p: Point)
    requires c.y <= c.x && p in Octants(cx, cy, c.x, c.y)
    ensures p in ArcTrail(cx, cy, c)
  {
  }

  /** The loop draws every point of the digital circle and nothing else, exactly for the right radii. */
  lemma CircleIsRightIffFits(cx: int, cy: int, r: int)
    requires 1 <= r <= 0x7FFF && CircleFits(cx, cy, r)
    ensures (forall p :: p in ArcTrail(cx, cy, ArcStart(r)) <==> OnRing(p, cx, cy, r)) <==> RightRadius(r)
  {
    if RightRadius(r) {
      CircleStarts(r);
      forall p ensures p in ArcTrail(cx, cy, ArcStart(r)) <==> OnRing(p, cx, cy, r) {
        TrailIsUpperRing(cx, cy, ArcStart(r), r, p);
      }
    } else {
      var p := WrongPointIsDrawn(cx, cy, r);
    }
  }

  /** The smallest wrong circle, and a point it draws in the wrong place. */
  lemma FirstWrongCircle()
    ensures Point(16555, 130) in ArcTrail(0, 0, ArcStart(16557)) && !OnRing(Point(16555, 130), 0, 0, 16557)
    ensures forall r :: 1 <= r < 16557 ==> RightRadius(r)
  {
    var p := WrongPointIsDrawn(0, 0, 16557);
    RootIs(16557, 128);
  }

  lemma RootIs(r: nat, s: nat)
    requires s * s <= r < s * s + 2 * s + 1
    ensures Root(r) == s
  {
    Squares(s);
    Squares(Root(r));
    if Root(r) < s {
      SquaresGrow(Root(r) + 1, s);
    } else if s < Root(r) {
      SquaresGrow(s + 1, Root(r));
    }
  }

  // ---- Termination for every radius ----

  /** For every radius: `x` steps in before `y` can reach the end of 16 bits. */
  predicate HeightFits(c: Arc, r: int) {
    && 0 <= c.y <= c.x + 2 && c.x <= r
    && (c.x == r ==> c.decision == (c.y + 1) * (c.y + 1) - r && (c.y > 0 ==> c.y * c.y <= r))
  }

  lemma HeightStaysFit(c: Arc, r: int)
    requires 0 <= r <= 0x7FFF && HeightFits(c, r) && c.y <= c.x
    ensures HeightFits(ArcTurn(c), r)
    ensures Fits16(c.y + 1)
  {
    Squares(c.y);
    Squares(c.y + 1);
    if c.x == r {
      if c.y >= 182 {
        ProductOrder(182, c.y, c.y);
      }
      if c.decision <= 0 {
        Int16Keeps(c.decision + 2 * (c.y + 1) + 1);
      }
    }
  }

  /** The loop comes to the head of this turn. */
  predicate Reached(r: int, turns: nat) {
    turns == 0 || (Reached(r, turns - 1) && ArcAfter(r, turns - 1).y <= ArcAfter(r, turns - 1).x)
  }

  lemma {:induction false} ReachedFits(r: int, turns: nat)
    requires 0 <= r <= 0x7FFF && Reached(r, turns)
    ensures HeightFits(ArcAfter(r, turns), r)
    ensures ArcAfter(r, turns).y <= ArcAfter(r, turns).x ==> Fits16(ArcAfter(r, turns).y + 1)
  {
    if turns == 0 {
      Int16Keeps(1 - r);
    } else {
      ReachedFits(r, turns - 1);
      HeightStaysFit(ArcAfter(r, turns - 1), r);
    }
    if ArcAfter(r, turns).y <= ArcAfter(r, turns).x {
      HeightStaysFit(ArcAfter(r, turns), r);
    }
  }
}
