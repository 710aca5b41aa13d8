/** Points and 16-bit arithmetic. */
module Pixels {

  datatype Point = Point(x: int, y: int)

  /** The cast to `int16_t`. */
  function Int16(x: int): int {
    if -0x8000 <= x < 0x8000 then x else (x + 0x8000) % 0x1_0000 - 0x8000
  }

  predicate Fits16(x: int) {
    -0x8000 <= x < 0x8000
  }

  lemma Int16Keeps(x: int)
    requires Fits16(x)
    ensures Int16(x) == x
  {
  }

  /** A cast adds some whole turns of 2^16, and does not see such turns. */
  lemma Int16Turns(x: int) returns (q: int)
    ensures Int16(x) == x + 0x1_0000 * q && Fits16(Int16(x))
  {
    q := if Fits16(x) then 0 else -((x + 0x8000) / 0x1_0000);
  }

  lemma Int16SeesNoTurns(x: int, q: int)
    ensures Int16(x + 0x1_0000 * q) == Int16(x)
  {
    var p := Int16Turns(x);
    var r := Int16Turns(x + 0x1_0000 * q);
    assert -0x1_0000 < 0x1_0000 * (r + q - p) < 0x1_0000;
  }

  /** Casts inside a sum or a double do not matter under another cast. */
  lemma Int16Sum(u: int, v: int)
    ensures Int16(Int16(u) + v) == Int16(u + v)
  {
    var q := Int16Turns(u);
    Int16SeesNoTurns(u + v, q);
  }

  lemma Int16Double(u: int)
    ensures Int16(2 * Int16(u)) == Int16(2 * u)
  {
    var q := Int16Turns(u);
    Int16SeesNoTurns(2 * u, 2 * q);
  }

  function Abs(x: int): int {
    if x < 0 then -x else x
  }

  function Max(a: int, b: int): int {
    if a < b then b else a
  }

  function Min(a: int, b: int): int {
    if a < b then a else b
  }

  predicate OnPlane(p: Point) {
    Fits16(p.x) && Fits16(p.y)
  }

  lemma ProductSign(x: int, m: int)
    requires x >= 0 && m >= 0
    ensures x * m >= 0
  {
  }

  lemma ProductOrder(x: int, y: int, m: int)
    requires m >= 0
    ensures x <= y ==> x * m <= y * m
    ensures x < y ==> x * m + m <= y * m
  {
    if x <= y {
      ProductSign(y - x, m);
      assert (y - x) * m == y * m - x * m;
    }
    if x < y {
      ProductSign(y - x - 1, m);
      assert (y - x - 1) * m == y * m - x * m - m;
    }
  }

  lemma SquaresGrow(a: int, b: int)
    requires 0 <= a <= b
    ensures a * a <= b * b && a * a + a <= b * b + b && a * a - a <= b * b - b
  {
    ProductOrder(a, b, a);
    ProductOrder(a, b, b);
    if a > 0 {
      ProductOrder(a, b, a - 1);
      ProductOrder(a - 1, b - 1, b);
    } else if b > 0 {
      ProductOrder(1, b, b);
    }
  }
}
