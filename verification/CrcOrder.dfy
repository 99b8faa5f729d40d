/**
  The order of x modulo the polynomial 0x11021 of the ICMP tunnel's checksum
  (core-supervisor/src/icmp_tunnel.rs:59-73): x^d is one exactly when 32767 divides d.

  32767 is 7 * 31 * 151. Squaring fifteen times leads from x back to x, so x^32767 is one; and none
  of x^4681, x^1057 and x^217 is one, so each of the three primes divides every d with x^d one.
 */
module CrcOrder {
  import opened Arithmetic
  import opened LogTables

  // ---- Polynomials of degree below 16, in hexadecimal ----

  datatype Hex = Hex(b3: bool, b2: bool, b1: bool, b0: bool)

  datatype Poly = Poly(h3: Hex, h2: Hex, h1: Hex, h0: Hex)

  const H0 := Hex(false, false, false, false)
  const H1 := Hex(false, false, false, true)
  const H2 := Hex(false, false, true, false)
  const H3 := Hex(false, false, true, true)
  const H4 := Hex(false, true, false, false)
  const H5 := Hex(false, true, false, true)
  const H6 := Hex(false, true, true, false)
  const H7 := Hex(false, true, true, true)
  const H8 := Hex(true, false, false, false)
  const H9 := Hex(true, false, false, true)
  const HA := Hex(true, false, true, false)
  const HB := Hex(true, false, true, true)
  const HC := Hex(true, true, false, false)
  const HD := Hex(true, true, false, true)
  const HE := Hex(true, true, true, false)
  const HF := Hex(true, true, true, true)

  const ZERO := Poly(H0, H0, H0, H0)
  const ONE := Poly(H0, H0, H0, H1)

  function AddHex(a: Hex, b: Hex): Hex {
    Hex(a.b3 != b.b3, a.b2 != b.b2, a.b1 != b.b1, a.b0 != b.b0)
  }

  function Add(a: Poly, b: Poly): Poly {
    Poly(AddHex(a.h3, b.h3), AddHex(a.h2, b.h2), AddHex(a.h1, b.h1), AddHex(a.h0, b.h0))
  }

  /** The product with x: what falls off the top comes back at bits 12, 5 and 0. */
  function TimesX(p: Poly): Poly {
    var top := p.h3.b3;
    Poly(Hex(p.h3.b2, p.h3.b1, p.h3.b0, p.h2.b3 != top), Hex(p.h2.b2, p.h2.b1, p.h2.b0, p.h1.b3),
         Hex(p.h1.b2, p.h1.b1, p.h1.b0 != top, p.h0.b3), Hex(p.h0.b2, p.h0.b1, p.h0.b0, top))
  }

  const S: Shift<Poly> := Shift(ZERO, ONE, Add, TimesX, _ => 0)

  lemma AddLaws(a: Poly, b: Poly, c: Poly)
    ensures Add(a, b) == Add(b, a) && Add(a, Add(b, c)) == Add(Add(a, b), c)
    ensures Add(a, ZERO) == a && Add(a, a) == ZERO
  {
  }

  lemma TimesXAddHigh(a: Poly, b: Poly)
    ensures TimesX(Add(a, b)).h3 == Add(TimesX(a), TimesX(b)).h3
    ensures TimesX(Add(a, b)).h2 == Add(TimesX(a), TimesX(b)).h2
  {
  }

  lemma TimesXAddLow(a: Poly, b: Poly)
    ensures TimesX(Add(a, b)).h1 == Add(TimesX(a), TimesX(b)).h1
    ensures TimesX(Add(a, b)).h0 == Add(TimesX(a), TimesX(b)).h0
  {
  }

  lemma TimesXZero(a: Poly)
    ensures TimesX(a) == ZERO ==> a == ZERO
  {
  }

  lemma TimesXLaws(a: Poly, b: Poly)
    ensures TimesX(Add(a, b)) == Add(TimesX(a), TimesX(b))
    ensures TimesX(a) == ZERO ==> a == ZERO
  {
    TimesXAddHigh(a, b);
    TimesXAddLow(a, b);
    TimesXZero(a);
  }

  lemma PolyIsLinear()
    ensures IsLinear(S)
  {
    forall a, b, c ensures ShiftLaws(S, a, b, c) {
      AddLaws(a, b, c);
      TimesXLaws(a, b);
    }
  }

  // ---- Squares ----

  /** The square, which is a linear function of the bits: bit i goes where x^(2i) is. */
  function Square(p: Poly): Poly {
    var (a, b, c, d) := (p.h3, p.h2, p.h1, p.h0);
    Poly(
      Hex(a.b1, ((a.b1 != b.b3) != b.b1) != c.b3, a.b0, ((a.b0 != b.b2) != b.b0) != c.b2),
      Hex((a.b3 != a.b1) != b.b3, (a.b3 != a.b1) != c.b1, (a.b2 != a.b0) != b.b2, ((a.b3 != a.b2) != a.b0) != c.b0),
      Hex(((a.b3 != a.b1) != b.b3) != b.b1, (((a.b3 != a.b2) != a.b1) != b.b3) != d.b3,
          ((a.b2 != a.b0) != b.b2) != b.b0, ((a.b2 != a.b0) != b.b2) != d.b2),
      Hex(a.b3, (((a.b3 != a.b1) != b.b3) != b.b1) != d.b1, a.b2, (((a.b2 != a.b0) != b.b2) != b.b0) != d.b0))
  }

  lemma SquareTimesXHigh(p: Poly)
    ensures Square(TimesX(p)).h3 == TimesX(TimesX(Square(p))).h3
  {
  }

  lemma SquareTimesXSecond(p: Poly)
    ensures Square(TimesX(p)).h2 == TimesX(TimesX(Square(p))).h2
  {
  }

  lemma SquareTimesXThird(p: Poly)
    ensures Square(TimesX(p)).h1 == TimesX(TimesX(Square(p))).h1
  {
  }

  lemma SquareTimesXLow(p: Poly)
    ensures Square(TimesX(p)).h0 == TimesX(TimesX(Square(p))).h0
  {
  }

  lemma SamePoly(p: Poly, q: Poly)
    requires p.h3 == q.h3 && p.h2 == q.h2 && p.h1 == q.h1 && p.h0 == q.h0
    ensures p == q
  {
  }

  lemma SquareTimesX(p: Poly)
    ensures Square(TimesX(p)) == TimesX(TimesX(Square(p)))
  {
    SquareTimesXHigh(p);
    SquareTimesXSecond(p);
    SquareTimesXThird(p);
    SquareTimesXLow(p);
    SamePoly(Square(TimesX(p)), TimesX(TimesX(Square(p))));
  }

  lemma {:induction false} ExpOfDouble(n: nat)
    ensures Exp(S, 2 * n) == Square(Exp(S, n))
  {
    if n > 0 {
      ExpOfDouble(n - 1);
      SquareTimesX(Exp(S, n - 1));
      assert Exp(S, 2 * n - 1) == TimesX(Exp(S, 2 * (n - 1)));
    } else {
      assert Square(ONE) == ONE;
    }
  }

  lemma Doubled(n: nat, p: Poly, r: Poly)
    requires Exp(S, n) == p && Square(p) == r
    ensures Exp(S, 2 * n) == r
  {
    ExpOfDouble(n);
  }

  lemma DoubledAndOne(n: nat, p: Poly, r: Poly)
    requires Exp(S, n) == p && TimesX(Square(p)) == r
    ensures Exp(S, 2 * n + 1) == r
  {
    ExpOfDouble(n);
  }

  // ---- The powers that decide the order ----

  // The exponents are multiples of a variable u, which is 1, so that no power is unfolded step by step.

  lemma FirstPowers(u: nat)
    requires u == 1 && Exp(S, u) == Poly(H0, H0, H0, H2)
    ensures Exp(S, 256 * u) == Poly(H8, HE, H2, H9)
  {
    Doubled(u, Poly(H0, H0, H0, H2), Poly(H0, H0, H0, H4));
    Doubled(2 * u, Poly(H0, H0, H0, H4), Poly(H0, H0, H1, H0));
    Doubled(4 * u, Poly(H0, H0, H1, H0), Poly(H0, H1, H0, H0));
    Doubled(8 * u, Poly(H0, H1, H0, H0), Poly(H1, H0, H2, H1));
    Doubled(16 * u, Poly(H1, H0, H2, H1), Poly(H3, H7, H3, H0));
    Doubled(32 * u, Poly(H3, H7, H3, H0), Poly(HB, H8, H6, H1));
    Doubled(64 * u, Poly(HB, H8, H6, H1), Poly(HA, HE, HF, HC));
    Doubled(128 * u, Poly(HA, HE, HF, HC), Poly(H8, HE, H2, H9));
  }

  lemma MorePowers(u: nat)
    requires u == 1 && Exp(S, 256 * u) == Poly(H8, HE, H2, H9)
    ensures Exp(S, 32768 * u) == Poly(H0, H0, H0, H2)
  {
    Doubled(256 * u, Poly(H8, HE, H2, H9), Poly(H1, H3, HF, HC));
    Doubled(512 * u, Poly(H1, H3, HF, HC), Poly(H3, H6, HC, H4));
    Doubled(1024 * u, Poly(H3, H6, HC, H4), Poly(HF, HD, H5, H0));
    Doubled(2048 * u, Poly(HF, HD, H5, H0), Poly(HA, HA, H9, HE));
    Doubled(4096 * u, Poly(HA, HA, H9, HE), Poly(H8, H8, H1, HC));
    Doubled(8192 * u, Poly(H8, H8, H1, HC), Poly(H4, H4, H5, H8));
    Doubled(16384 * u, Poly(H4, H4, H5, H8), Poly(H0, H0, H0, H2));
  }

  lemma Power217(u: nat)
    requires u == 1 && Exp(S, u) == Poly(H0, H0, H0, H2)
    ensures Exp(S, 217 * u) == Poly(H4, H8, HE, H3)
  {
    DoubledAndOne(u, Poly(H0, H0, H0, H2), Poly(H0, H0, H0, H8));
    Doubled(3 * u, Poly(H0, H0, H0, H8), Poly(H0, H0, H4, H0));
    DoubledAndOne(6 * u, Poly(H0, H0, H4, H0), Poly(H2, H0, H0, H0));
    DoubledAndOne(13 * u, Poly(H2, H0, H0, H0), Poly(H8, H9, HA, H9));
    Doubled(27 * u, Poly(H8, H9, HA, H9), Poly(H1, H1, H6, H8));
    Doubled(54 * u, Poly(H1, H1, H6, H8), Poly(H3, H7, H5, H0));
    DoubledAndOne(108 * u, Poly(H3, H7, H5, H0), Poly(H4, H8, HE, H3));
  }

  lemma Power1057(u: nat)
    requires u == 1 && Exp(S, u) == Poly(H0, H0, H0, H2)
    ensures Exp(S, 1057 * u) == Poly(HF, H2, HA, HF)
  {
    Doubled(u, Poly(H0, H0, H0, H2), Poly(H0, H0, H0, H4));
    Doubled(2 * u, Poly(H0, H0, H0, H4), Poly(H0, H0, H1, H0));
    Doubled(4 * u, Poly(H0, H0, H1, H0), Poly(H0, H1, H0, H0));
    Doubled(8 * u, Poly(H0, H1, H0, H0), Poly(H1, H0, H2, H1));
    DoubledAndOne(16 * u, Poly(H1, H0, H2, H1), Poly(H6, HE, H6, H0));
    Doubled(33 * u, Poly(H6, HE, H6, H0), Poly(HC, H1, HC, H6));
    Doubled(66 * u, Poly(HC, H1, HC, H6), Poly(H4, HE, H8, HA));
    Doubled(132 * u, Poly(H4, HE, H8, HA), Poly(H5, H9, H4, H6));
    Doubled(264 * u, Poly(H5, H9, H4, H6), Poly(H7, H8, HB, H3));
    DoubledAndOne(528 * u, Poly(H7, H8, HB, H3), Poly(HF, H2, HA, HF));
  }

  lemma Power585(u: nat)
    requires u == 1 && Exp(S, u) == Poly(H0, H0, H0, H2)
    ensures Exp(S, 585 * u) == Poly(H4, H5, H0, H0)
  {
    Doubled(u, Poly(H0, H0, H0, H2), Poly(H0, H0, H0, H4));
    Doubled(2 * u, Poly(H0, H0, H0, H4), Poly(H0, H0, H1, H0));
    DoubledAndOne(4 * u, Poly(H0, H0, H1, H0), Poly(H0, H2, H0, H0));
    Doubled(9 * u, Poly(H0, H2, H0, H0), Poly(H4, H0, H8, H4));
    Doubled(18 * u, Poly(H4, H0, H8, H4), Poly(H4, H3, H6, H3));
    DoubledAndOne(36 * u, Poly(H4, H3, H6, H3), Poly(H8, HF, HA, H6));
    Doubled(73 * u, Poly(H8, HF, HA, H6), Poly(H4, H3, H8, H8));
    Doubled(146 * u, Poly(H4, H3, H8, H8), Poly(H1, H3, H9, H6));
    DoubledAndOne(292 * u, Poly(H1, H3, H9, H6), Poly(H4, H5, H0, H0));
  }

  lemma Power4681(u: nat)
    requires u == 1 && Exp(S, 585 * u) == Poly(H4, H5, H0, H0)
    ensures Exp(S, 4681 * u) == Poly(H2, HC, H4, H2)
  {
    Doubled(585 * u, Poly(H4, H5, H0, H0), Poly(H0, H1, H6, H3));
    Doubled(1170 * u, Poly(H0, H1, H6, H3), Poly(H0, H4, H2, H4));
    DoubledAndOne(2340 * u, Poly(H0, H4, H2, H4), Poly(H2, HC, H4, H2));
  }

  lemma FirstPower(u: nat)
    requires u == 1
    ensures Exp(S, u) == Poly(H0, H0, H0, H2)
  {
    assert Exp(S, u - 1) == ONE;
  }

  /** x^32768 is x, so x^32767 is one. */
  lemma PowerIsOne(u: nat)
    requires u == 1
    ensures Exp(S, 32767 * u) == ONE
  {
    FirstPower(u);
    FirstPowers(u);
    MorePowers(u);
    PolyIsLinear();
    ExpSum(S, u, 32767 * u);
    ExpSum(S, u, 0);
    TimesXPowInjective(S, u, Exp(S, 32767 * u), ONE);
  }

  /** The powers at 32767 over each of its primes are not one. */
  lemma PowersAreNotOne(u: nat)
    requires u == 1
    ensures Exp(S, 217 * u) != ONE && Exp(S, 1057 * u) != ONE && Exp(S, 4681 * u) != ONE
  {
    FirstPower(u);
    Power217(u);
    Power1057(u);
    Power585(u);
    Power4681(u);
  }

  // ---- Each prime divides every exponent of one ----

  ghost predicate Divides(s: nat, p: nat)
    requires s > 0
  {
    p % s == 0
  }

  ghost predicate IsPrime(p: nat) {
    p > 1 && forall s {:trigger Divides(s, p)} :: 1 < s < p ==> !Divides(s, p)
  }

  lemma Distribute(k: nat, a: nat, r: nat)
    requires r <= a
    ensures k * (a - r) == k * a - k * r && k * a >= k * r
  {
    MulMonotone(k, r, a);
  }

  /** With y standing for x^k: y^n is one. */
  ghost predicate IsOne(k: nat, n: nat) {
    Exp(S, k * n) == ONE
  }

  lemma OneMinus(k: nat, a: nat, r: nat)
    requires r <= a && IsOne(k, a) && IsOne(k, r)
    ensures IsOne(k, a - r)
  {
    Distribute(k, a, r);
    ExpMinus(S, k * a, k * r);
  }

  /** If y^a and y^r are one, so is y to the remainder. */
  lemma {:induction false} Remainder(k: nat, a: nat, r: nat)
    requires r > 0 && IsOne(k, a) && IsOne(k, r)
    ensures IsOne(k, a % r)
    decreases a
  {
    if a < r {
      SmallRemainder(a, r);
    } else {
      OneMinus(k, a, r);
      Remainder(k, a - r, r);
      ModMinus(a, r);
    }
  }

  lemma SmallRemainder(a: nat, r: nat)
    requires a < r
    ensures a % r == a
  {
  }

  lemma OneAtOne(k: nat)
    ensures IsOne(k, 1) <==> Exp(S, k) == ONE
  {
    assert k * 1 == k;
  }

  lemma {:induction false} NoSmaller(k: nat, p: nat, r: nat)
    requires IsPrime(p) && IsOne(k, p) && !IsOne(k, 1) && 0 < r < p
    ensures !IsOne(k, r)
    decreases r
  {
    if r > 1 && IsOne(k, r) {
      assert !Divides(r, p);
      Remainder(k, p, r);
      NoSmaller(k, p, p % r);
    }
  }

  lemma OneMore(k: nat, d: nat)
    requires k > 0 && Exp(S, d) == ONE && IsOne(k - 1, d)
    ensures IsOne(k, d)
  {
    MulStep(d, k);
    assert k * d == (k - 1) * d + d;
    ExpMinus(S, k * d, d);
  }

  lemma {:induction false} PowerOfOne(k: nat, d: nat)
    requires Exp(S, d) == ONE
    ensures IsOne(k, d)
  {
    if k == 0 {
      assert k * d == 0;
    } else {
      PowerOfOne(k - 1, d);
      OneMore(k, d);
    }
  }

  lemma PrimeDivides(k: nat, p: nat, d: nat)
    requires IsPrime(p) && IsOne(k, p) && Exp(S, k) != ONE && Exp(S, d) == ONE
    ensures d % p == 0
  {
    OneAtOne(k);
    PowerOfOne(k, d);
    if d % p > 0 {
      Remainder(k, d, p);
      NoSmaller(k, p, d % p);
    }
  }

  lemma SmallFactor(a: nat, b: nat)
    requires 2 <= a <= 12
    ensures a * b != 151
    ensures a <= 5 ==> a * b != 31
    ensures a <= 2 ==> a * b != 7
  {
    if a == 2 || a == 4 || a == 8 {
    } else if a == 3 || a == 6 || a == 12 {
    } else if a == 5 || a == 10 {
    } else if a == 7 || a == 9 || a == 11 {
    }
  }

  /** Of two factors of p, one is at most b, if the square of b + 1 is more than p. */
  lemma OneIsSmall(p: nat, b: nat, s: nat, q: nat)
    requires s * q == p && p < (b + 1) * (b + 1)
    ensures s <= b || q <= b
  {
    if s > b && q > b {
      MulMonotone(s, b + 1, q);
      MulMonotone(b + 1, b + 1, s);
    }
  }

  lemma Factors(p: nat, s: nat) returns (q: nat)
    requires 1 < s < p && p % s == 0
    ensures s * q == p && 1 < q < p
  {
    q := p / s;
    assert s * q == p;
    if q >= p {
      MulMonotone(q, 2, s);
    }
  }

  lemma Primes()
    ensures IsPrime(7) && IsPrime(31) && IsPrime(151)
  {
    forall s: nat | 1 < s < 151 ensures !Divides(s, 151) {
      if Divides(s, 151) {
        var q := Factors(151, s);
        OneIsSmall(151, 12, s, q);
        if s <= 12 { SmallFactor(s, q); } else { SmallFactor(q, s); }
      }
    }
    forall s: nat | 1 < s < 31 ensures !Divides(s, 31) {
      if Divides(s, 31) {
        var q := Factors(31, s);
        OneIsSmall(31, 5, s, q);
        if s <= 5 { SmallFactor(s, q); } else { SmallFactor(q, s); }
      }
    }
    forall s: nat | 1 < s < 7 ensures !Divides(s, 7) {
      if Divides(s, 7) {
        var q := Factors(7, s);
        OneIsSmall(7, 2, s, q);
        if s <= 2 { SmallFactor(s, q); } else { SmallFactor(q, s); }
      }
    }
  }

  /** 9 * 7 is one more than a multiple of 31. */
  lemma SevenAndThirtyOne(a: int, b: int)
    requires 7 * a == 31 * b
    ensures a == 31 * (9 * b - 2 * a)
  {
  }

  /** 135 * 217 is one more than a multiple of 151. */
  lemma AllThreeFactors(c: int, e: int)
    requires 217 * c == 151 * e
    ensures c == 151 * (135 * e - 194 * c)
  {
  }

  lemma Exactly(d: nat, p: nat)
    requires p > 0 && d % p == 0
    ensures d == p * (d / p)
  {
  }

  lemma Multiple(d: nat, f: int)
    requires d == 32767 * f
    ensures d % 32767 == 0
  {
  }

  lemma AllThree(d: nat)
    requires d % 7 == 0 && d % 31 == 0 && d % 151 == 0
    ensures d % 32767 == 0
  {
    Exactly(d, 7);
    Exactly(d, 31);
    Exactly(d, 151);
    var a, b, e := d / 7, d / 31, d / 151;
    SevenAndThirtyOne(a, b);
    var c := 9 * b - 2 * a;
    AllThreeFactors(c, e);
    Multiple(d, 135 * e - 194 * c);
  }

  lemma OrderDivides(d: nat, u: nat)
    requires u == 1
    ensures Exp(S, d) == ONE <==> d % (32767 * u) == 0
  {
    PowerIsOne(u);
    if Exp(S, d) == ONE {
      PowersAreNotOne(u);
      Primes();
      PrimeDivides(217 * u, 151, d);
      PrimeDivides(1057 * u, 31, d);
      PrimeDivides(4681 * u, 7, d);
      AllThree(d);
    }
    if d % (32767 * u) == 0 {
      ExpModulo(S, d, 32767 * u);
    }
  }

  /** The order of x: its powers are one exactly at the multiples of 32767. */
  lemma OrderOfX(d: nat)
    ensures Exp(S, d) == ONE <==> d % 32767 == 0
  {
    OrderDivides(d, 1);
  }
}
