/** Greatest common divisors, and which residues the multiples of a number reach. */
module Divisors {
  import opened CStrings

  function Gcd(a: nat, b: nat): (g: nat)
    requires a > 0
    ensures g > 0
    decreases b
  {
    if b == 0 then a else Gcd(b, a % b)
  }

  predicate Divides(g: int, x: int)
    requires g > 0
  {
    x % g == 0
  }

  lemma DividesProduct(g: int, x: int, k: int)
    requires g > 0 && x == g * k
    ensures Divides(g, x) && x / g == k
  {
    DivisionIsUnique(x, g, k, 0);
  }

  lemma DividesCombination(g: int, x: int, y: int, i: int, j: int)
    requires g > 0 && Divides(g, x) && Divides(g, y)
    ensures Divides(g, i * x + j * y)
  {
    var p, q := x / g, y / g;
    assert x == g * p && y == g * q;
    assert i * x + j * y == g * (i * p + j * q) by {
      assert i * (g * p) == g * (i * p) && j * (g * q) == g * (j * q);
    }
    DividesProduct(g, i * x + j * y, i * p + j * q);
  }

  /** The divisor divides both, and is a combination of both. */
  lemma {:induction false} GcdIsCombination(a: nat, b: nat) returns (u: int, v: int)
    requires a > 0
    ensures Divides(Gcd(a, b), a) && Divides(Gcd(a, b), b)
    ensures u * a + v * b == Gcd(a, b)
    decreases b
  {
    if b == 0 {
      u, v := 1, 0;
      DividesProduct(a, a, 1);
      DividesProduct(a, 0, 0);
    } else {
      var g, q, r := Gcd(a, b), a / b, a % b;
      var u0, v0 := GcdIsCombination(b, r);
      CombinationStep(b, q, r, u0, v0);
      DividesCombination(g, b, r, q, 1);
      assert a == q * b + 1 * r;
      u, v := v0, u0 - v0 * q;
    }
  }

  lemma CombinationStep(b: int, q: int, r: int, u: int, v: int)
    ensures v * (q * b + r) + (u - v * q) * b == u * b + v * r
  {
  }

  lemma ReachedStep(a: int, b: int, t: int, u: int, v: int, q: int)
    ensures (t * u - q * b) * a - (-(t * v) - q * a) * b == t * (u * a + v * b)
  {
  }

  /** Every multiple of the divisor is some `j * a - k * b` with `k` below `a`. */
  lemma MultipleIsReached(a: nat, b: nat, m: int) returns (k: nat, j: int)
    requires a > 0 && Divides(Gcd(a, b), m)
    ensures k < a && j * a - k * b == m
  {
    var u, v := GcdIsCombination(a, b);
    var t := m / Gcd(a, b);
    var w := -(t * v);
    var q := w / a;
    k, j := w % a, t * u - q * b;
    assert k == w - q * a;
    ReachedStep(a, b, t, u, v, q);
  }
}
