/** Shifts of natural numbers, as the C code's `>>` and `<<` on non-negative values. */
module Bits {

  function Pow2(n: nat): (p: nat)
    ensures p >= 1
  {
    if n == 0 then 1 else 2 * Pow2(n - 1)
  }

  function Div(x: nat, d: nat): (r: nat)
    requires d > 0
  {
    x / d
  }

  function Shr(x: nat, n: nat): (r: nat) {
    Div(x, Pow2(n))
  }

  function Shl(x: nat, n: nat): (r: nat) {
    x * Pow2(n)
  }

  /** x | 1 */
  function OrOne(x: nat): (r: nat) {
    x / 2 * 2 + 1
  }

  lemma {:induction false} Pow2Add(a: nat, b: nat)
    ensures Pow2(a + b) == Pow2(a) * Pow2(b)
    decreases b
  {
    if b > 0 {
      Pow2Add(a, b - 1);
      calc {
        Pow2(a + b);
        2 * Pow2(a + b - 1);
        2 * (Pow2(a) * Pow2(b - 1));
        Pow2(a) * (2 * Pow2(b - 1));
        Pow2(a) * Pow2(b);
      }
    }
  }

  lemma {:induction false} Pow2Monotonic(a: nat, b: nat)
    requires a <= b
    ensures Pow2(a) <= Pow2(b)
    decreases b
  {
    if a < b {
      Pow2Monotonic(a, b - 1);
    }
  }

  /** q is the quotient exactly on its interval. */
  lemma DivUnique(x: nat, d: nat, q: nat)
    requires d > 0
    ensures x / d == q <==> q * d <= x < (q + 1) * d
  {
    var p := x / d;
    assert x == p * d + x % d;
    assert (p + 1) * d == p * d + d;
    assert (q + 1) * d == q * d + d;
    if p < q {
      MulMonotonic(p + 1, q, d);
    } else if q < p {
      MulMonotonic(q + 1, p, d);
    }
  }

  lemma MulMonotonic(a: nat, b: nat, d: nat)
    requires a <= b
    ensures a * d <= b * d
  {
  }

  lemma MulAssociative(x: nat, y: nat, z: nat)
    ensures x * y * z == x * (z * y)
  {
  }

  lemma ShrInterval(x: nat, n: nat, q: nat)
    ensures Shr(x, n) == q <==> Shl(q, n) <= x < Shl(q + 1, n)
  {
    DivUnique(x, Pow2(n), q);
  }

  lemma DivDiv(x: nat, a: nat, b: nat)
    requires a > 0 && b > 0
    ensures a * b > 0 && x / a / b == x / (a * b)
  {
    assert a * b > 0;
    var y := x / a;
    var z := y / b;
    DivUnique(x, a, y);
    DivUnique(y, b, z);
    assert z * b <= y < (z + 1) * b;
    MulMonotonic(z * b, y, a);
    MulMonotonic(y + 1, (z + 1) * b, a);
    MulAssociative(z, b, a);
    MulAssociative(z + 1, b, a);
    DivUnique(x, a * b, z);
  }

  lemma ShrShr(x: nat, a: nat, b: nat)
    ensures Shr(Shr(x, a), b) == Shr(x, a + b)
  {
    DivDiv(x, Pow2(a), Pow2(b));
    Pow2Add(a, b);
  }

  lemma ShrBound(x: nat, n: nat, m: nat)
    requires x < Pow2(n + m)
    ensures Shr(x, n) < Pow2(m)
  {
    Pow2Add(n, m);
    var q := Shr(x, n);
    DivUnique(x, Pow2(n), q);
    if q >= Pow2(m) {
      MulMonotonic(Pow2(m), q, Pow2(n));
    }
  }

  lemma ShrOne(x: nat, n: nat)
    ensures Shr(x / 2, n) == Shr(x, n + 1)
  {
    ShrShr(x, 1, n);
    assert Pow2(1) == 2;
  }

  lemma Pow2Successor(n: nat)
    ensures Pow2(n + 1) == 2 * Pow2(n)
  {
  }

  lemma ShrHalf(x: nat, n: nat)
    ensures Shr(x, n + 1) == Shr(x, n) / 2
  {
    ShrShr(x, n, 1);
    assert Pow2(1) == 2;
  }

  lemma ShlDouble(q: nat, n: nat)
    ensures Shl(q, n + 1) == Shl(2 * q, n)
  {
    assert q * (2 * Pow2(n)) == 2 * q * Pow2(n);
  }
}
