/** Products and remainders of natural numbers, for proofs that keep nonlinear arithmetic apart. */
module Arithmetic {

  lemma MulStep(d: nat, x: nat)
    requires x > 0
    ensures d * x == d * (x - 1) + d
  {
  }

  lemma {:induction false} MulMonotone(q: nat, a: nat, b: nat)
    requires a <= b
    ensures q * a <= q * b
    decreases b
  {
    if a < b {
      MulMonotone(q, a, b - 1);
      MulStep(q, b);
    }
  }

  lemma QuotientUnique(d: nat, x: nat, r: nat, y: nat, t: nat)
    requires r < d && t < d && d * x + r == d * y + t
    ensures x == y && r == t
  {
    if x < y {
      MulStep(d, x + 1);
      MulMonotone(d, x + 1, y);
    } else if y < x {
      MulStep(d, y + 1);
      MulMonotone(d, y + 1, x);
    }
  }

  lemma RemainderIs(n: nat, d: nat, x: nat, r: nat)
    requires n == d * x + r && r < d
    ensures n % d == r
  {
    QuotientUnique(d, n / d, n % d, x, r);
  }

  lemma ModMinus(n: nat, d: nat)
    requires 0 < d <= n
    ensures (n - d) % d == n % d
  {
    var y := (n - d) / d;
    MulStep(d, y + 1);
    QuotientUnique(d, n / d, n % d, y + 1, (n - d) % d);
  }

  lemma MulAssoc(a: nat, b: nat, c: nat)
    ensures a * (b * c) == (a * b) * c
  {
  }

  lemma QuotientIs(n: nat, d: nat, x: nat, r: nat)
    requires n == d * x + r && r < d
    ensures n / d == x
  {
    QuotientUnique(d, n / d, n % d, x, r);
  }

  /** 256 times a quotient and remainder by d, with e == 256 * d and z == d * p. */
  lemma Scaled(d: nat, e: nat, p: nat, z: nat, s: nat, r: nat)
    requires e == 256 * d && z == d * p && s < d && r < 256
    ensures 256 * (z + s) + r == e * p + (256 * s + r) && 256 * s + r < e
  {
    MulAssoc(256, d, p);
  }

  lemma DivideTwice(n: nat, d: nat)
    requires d > 0
    ensures n / 256 / d == n / (256 * d)
  {
    var q, r := n / 256, n % 256;
    var p, s := q / d, q % d;
    Scaled(d, 256 * d, p, d * p, s, r);
    QuotientIs(n, 256 * d, p, 256 * s + r);
  }
}
