/**
  Arithmetic by logarithm tables, for any primitive element.

  `Shift` is a finite set with an addition of characteristic two and an injective linear map
  timesX; its powers applied to one are the exponential table. If timesX has order 255 and the set
  has 256 elements, the product read off the logarithms makes it a field. The order is pinned down
  by one identity between powers, `IsGenerator`, which is all that has to be computed for a given instance.
 */
module LogTables {
  import opened Arithmetic
  import opened Field

  datatype Shift<!T> = Shift(
    zero: T,
    one: T,
    add: (T, T) -> T,
    timesX: T -> T,
    code: T -> int)

  ghost predicate At<T>(a: T, b: T, c: T) {
    true
  }

  ghost predicate ShiftLaws<T>(S: Shift<T>, a: T, b: T, c: T) {
    && S.add(a, b) == S.add(b, a)
    && S.add(a, S.add(b, c)) == S.add(S.add(a, b), c)
    && S.add(a, S.zero) == a
    && S.add(a, a) == S.zero
    && S.timesX(S.add(a, b)) == S.add(S.timesX(a), S.timesX(b))
    && (S.timesX(a) == S.zero ==> a == S.zero)
  }

  /** An addition of characteristic two, and an injective linear map. */
  ghost predicate IsLinear<T(!new)>(S: Shift<T>) {
    && S.zero != S.one
    && forall a, b, c {:trigger At(a, b, c)} :: At(a, b, c) ==> ShiftLaws(S, a, b, c)
  }

  /** The code numbers at most 256 elements, zero as 0. */
  ghost predicate CodeLaws<T>(S: Shift<T>, a: T, b: T) {
    0 <= S.code(a) < 256 && (S.code(a) == S.code(b) ==> a == b)
  }

  ghost predicate IsShift<T(!new)>(S: Shift<T>) {
    && IsLinear(S)
    && S.code(S.zero) == 0
    && forall a, b {:trigger At(a, b, b)} :: At(a, b, b) ==> CodeLaws(S, a, b)
  }

  lemma ShiftAt<T(!new)>(S: Shift<T>, a: T, b: T, c: T)
    requires IsLinear(S)
    ensures ShiftLaws(S, a, b, c)
  {
    assert At(a, b, c);
  }

  lemma CodeAt<T(!new)>(S: Shift<T>, a: T, b: T)
    requires IsShift(S)
    ensures CodeLaws(S, a, b)
  {
    assert At(a, b, b);
  }

  /** Entry i of the exponential table. */
  function Exp<T>(S: Shift<T>, i: nat): T {
    if i == 0 then S.one else S.timesX(Exp(S, i - 1))
  }

  /** The first exponent from i up to 254 whose power is a, or 0. */
  function LogFrom<T(==)>(S: Shift<T>, a: T, i: nat): nat
    decreases 255 - i
  {
    if i >= 255 then 0 else if Exp(S, i) == a then i else LogFrom(S, a, i + 1)
  }

  /** Entry a of the logarithm table. */
  function Log<T(==)>(S: Shift<T>, a: T): nat {
    LogFrom(S, a, 0)
  }

  function Mul<T(==)>(S: Shift<T>, a: T, b: T): T {
    if a == S.zero || b == S.zero then S.zero else Exp(S, Log(S, a) + Log(S, b))
  }

  function Div<T(==)>(S: Shift<T>, a: T, b: T): T
    requires b != S.zero
  {
    if a == S.zero then S.zero else LogBound(S, b); Exp(S, (255 + Log(S, a) - Log(S, b)) % 255)
  }

  /** Every logarithm is below 255, so no lookup leaves the tables. */
  lemma LogBound<T>(S: Shift<T>, a: T)
    ensures Log(S, a) < 255
  {
    LogFromBound(S, a, 0);
  }

  lemma {:induction false} LogFromBound<T>(S: Shift<T>, a: T, i: nat)
    ensures LogFrom(S, a, i) < 255
    decreases 255 - i
  {
    if i < 255 {
      LogFromBound(S, a, i + 1);
    }
  }

  // ---- Multiplication by powers of x is linear and injective ----

  ghost function TimesXPow<T>(S: Shift<T>, i: nat, a: T): T {
    if i == 0 then a else S.timesX(TimesXPow(S, i - 1, a))
  }

  lemma {:induction false} TimesXPowLinear<T(!new)>(S: Shift<T>, i: nat, a: T, b: T)
    requires IsLinear(S)
    ensures TimesXPow(S, i, S.add(a, b)) == S.add(TimesXPow(S, i, a), TimesXPow(S, i, b))
  {
    if i > 0 {
      TimesXPowLinear(S, i - 1, a, b);
      ShiftAt(S, TimesXPow(S, i - 1, a), TimesXPow(S, i - 1, b), a);
    }
  }

  lemma {:induction false} TimesXPowZero<T(!new)>(S: Shift<T>, i: nat)
    requires IsLinear(S)
    ensures TimesXPow(S, i, S.zero) == S.zero
  {
    if i > 0 {
      TimesXPowZero(S, i - 1);
      ShiftAt(S, S.zero, S.zero, S.zero);
      ShiftAt(S, S.timesX(S.zero), S.zero, S.zero);
    }
  }

  lemma AddIsZero<T(!new)>(S: Shift<T>, a: T, b: T)
    requires IsLinear(S) && S.add(a, b) == S.zero
    ensures a == b
  {
    ShiftAt(S, a, b, b);
    ShiftAt(S, b, S.zero, b);
    ShiftAt(S, S.zero, b, b);
  }

  lemma {:induction false} TimesXPowInjective<T(!new)>(S: Shift<T>, i: nat, a: T, b: T)
    requires IsLinear(S) && TimesXPow(S, i, a) == TimesXPow(S, i, b)
    ensures a == b
  {
    if i > 0 {
      var u, v := TimesXPow(S, i - 1, a), TimesXPow(S, i - 1, b);
      ShiftAt(S, u, v, u);
      ShiftAt(S, S.timesX(u), u, u);
      ShiftAt(S, S.add(u, v), u, u);
      AddIsZero(S, u, v);
      TimesXPowInjective(S, i - 1, a, b);
    }
  }

  lemma {:induction false} ExpSum<T(!new)>(S: Shift<T>, i: nat, j: nat)
    ensures Exp(S, i + j) == TimesXPow(S, i, Exp(S, j))
  {
    if i > 0 {
      ExpSum(S, i - 1, j);
    }
  }

  lemma {:induction false} ExpNonZero<T(!new)>(S: Shift<T>, i: nat)
    requires IsLinear(S)
    ensures Exp(S, i) != S.zero
  {
    if i > 0 {
      ExpNonZero(S, i - 1);
      ShiftAt(S, Exp(S, i - 1), S.zero, S.zero);
    }
  }

  // ---- The order of x ----

  /** n is 255. Stated by bounds, so that no power is evaluated step by step. */
  ghost predicate IsOrder(n: nat) {
    254 < n < 256
  }

  ghost predicate IsRoot<T>(S: Shift<T>, p: nat) {
    Exp(S, 4 * p) == S.add(Exp(S, p), S.one)
  }

  /** With g = x^17: g^4 == g + 1; and x^15 != 1. These fix the order of x at 255. */
  ghost predicate IsGenerator<T>(S: Shift<T>) {
    exists p: nat :: 16 < p < 18 && IsRoot(S, p) && Exp(S, p - 2) != S.one
  }

  /** Multiplying a sum of powers by x^k moves every exponent k places. */
  lemma ExpSumShift<T(!new)>(S: Shift<T>, k: nat, i: nat, j: nat, l: nat)
    requires IsShift(S) && Exp(S, i) == S.add(Exp(S, j), Exp(S, l))
    ensures Exp(S, k + i) == S.add(Exp(S, k + j), Exp(S, k + l))
  {
    ExpSum(S, k, i);
    ExpSum(S, k, j);
    ExpSum(S, k, l);
    TimesXPowLinear(S, k, Exp(S, j), Exp(S, l));
  }

  /** (a + b) + (b + c) == a + c */
  lemma AddCancel<T(!new)>(S: Shift<T>, a: T, b: T, c: T)
    requires IsShift(S)
    ensures S.add(S.add(a, b), S.add(b, c)) == S.add(a, c)
    ensures S.add(S.add(a, b), b) == a
  {
    ShiftAt(S, S.add(a, b), b, c);
    ShiftAt(S, a, b, b);
    ShiftAt(S, b, b, b);
    ShiftAt(S, a, a, a);
  }

  lemma ThirdPowerNotOne<T(!new)>(S: Shift<T>, p: nat)
    requires IsShift(S) && IsRoot(S, p)
    ensures Exp(S, 3 * p) != S.one
  {
    if Exp(S, 3 * p) == S.one {
      ExpSum(S, p, 3 * p);
      ExpSum(S, p, 0);
      AddCancel(S, S.one, Exp(S, p), S.one);
      ShiftAt(S, Exp(S, p), S.one, S.one);
    }
  }

  lemma FifthPower<T(!new)>(S: Shift<T>, p: nat)
    requires IsShift(S) && IsRoot(S, p)
    ensures Exp(S, 5 * p) == S.add(Exp(S, 2 * p), Exp(S, p))
    ensures Exp(S, 5 * p) != S.one
  {
    ExpSumShift(S, p, 4 * p, p, 0);
    if Exp(S, 5 * p) == S.one {
      // g == g^6 == g^3 + g^2, so g^3 == g + g^2 == g^5 == 1
      ExpSum(S, p, 5 * p);
      ExpSum(S, p, 0);
      ExpSumShift(S, p, 5 * p, 2 * p, p);
      AddCancel(S, Exp(S, 3 * p), Exp(S, 2 * p), S.one);
      ShiftAt(S, Exp(S, p), Exp(S, 2 * p), S.one);
      ThirdPowerNotOne(S, p);
    }
  }

  lemma EighthPower<T(!new)>(S: Shift<T>, p: nat)
    requires IsShift(S) && IsRoot(S, p)
    ensures Exp(S, 8 * p) == S.add(Exp(S, 2 * p), S.one)
  {
    // g^8 == g^5 + g^4 == (g^2 + g) + (g + 1)
    FifthPower(S, p);
    ExpSumShift(S, 4 * p, 4 * p, p, 0);
    AddCancel(S, Exp(S, 2 * p), Exp(S, p), S.one);
  }

  lemma FifteenthPower<T(!new)>(S: Shift<T>, p: nat)
    requires IsShift(S) && IsRoot(S, p)
    ensures Exp(S, 15 * p) == S.one
  {
    // g^16 == g^10 + g^8 == (g^4 + g^2) + (g^2 + 1) == g^4 + 1 == g
    EighthPower(S, p);
    ExpSumShift(S, 2 * p, 8 * p, 2 * p, 0);
    ExpSumShift(S, 8 * p, 8 * p, 2 * p, 0);
    AddCancel(S, Exp(S, 4 * p), Exp(S, 2 * p), S.one);
    AddCancel(S, Exp(S, p), S.one, S.one);
    ExpSum(S, p, 15 * p);
    ExpSum(S, p, 0);
    TimesXPowInjective(S, p, Exp(S, 15 * p), S.one);
  }

  lemma OrderFacts<T(!new)>(S: Shift<T>, n: nat)
    requires IsShift(S) && IsGenerator(S) && IsOrder(n)
    ensures Exp(S, n) == S.one && Exp(S, n / 3) != S.one && Exp(S, n / 5) != S.one && Exp(S, n / 17) != S.one
  {
    var p: nat :| 16 < p < 18 && IsRoot(S, p) && Exp(S, p - 2) != S.one;
    assert n == 15 * p && n / 3 == 5 * p && n / 5 == 3 * p && n / 17 == p - 2;
    ThirdPowerNotOne(S, p);
    FifthPower(S, p);
    FifteenthPower(S, p);
  }

  lemma ExpMinus<T(!new)>(S: Shift<T>, n: nat, d: nat)
    requires Exp(S, d) == S.one && d <= n
    ensures Exp(S, n) == Exp(S, n - d)
  {
    ExpSum(S, n - d, d);
    ExpSum(S, n - d, 0);
  }

  /** If x^d is one, exponents only matter modulo d. */
  lemma {:induction false} ExpModulo<T(!new)>(S: Shift<T>, n: nat, d: nat)
    requires d > 0 && Exp(S, d) == S.one
    ensures Exp(S, n) == Exp(S, n % d)
    decreases n
  {
    if n < d {
      assert n % d == n;
    } else {
      ExpMinus(S, n, d);
      ExpModulo(S, n - d, d);
      ModMinus(n, d);
    }
  }

  lemma SmallDivisor(a: nat, b: nat)
    requires 1 <= a <= 16 && a * b == 255
    ensures a == 1 || a == 3 || a == 5 || a == 15
  {
    if a == 2 || a == 4 || a == 6 || a == 8 {
    } else if a == 10 || a == 12 || a == 14 || a == 16 {
    } else if a == 7 || a == 9 || a == 11 || a == 13 {
    }
  }

  lemma ProperDivisors(d: nat)
    requires 0 < d < 255 && 255 % d == 0
    ensures 85 % d == 0 || 51 % d == 0 || 15 % d == 0
  {
    var q := 255 / d;
    assert d * q == 255;
    if d <= 15 {
      SmallDivisor(d, q);
    } else {
      if q > 15 {
        MulMonotone(d, 16, q);
      }
      SmallDivisor(q, d);
      if q == 3 {
        assert d == 85;
      } else if q == 5 {
        assert d == 51;
      } else if q == 15 {
        assert d == 17;
      }
    }
  }

  /** No smaller positive power of x is one: a remainder argument on the divisors of 255. */
  lemma {:induction false} NoSmallerOrder<T(!new)>(S: Shift<T>, d: nat, n: nat)
    requires IsShift(S) && IsGenerator(S) && 0 < d < n && IsOrder(n)
    ensures Exp(S, d) != S.one
    decreases d
  {
    if Exp(S, d) == S.one {
      OrderFacts(S, n);
      ExpModulo(S, n, d);
      if n % d > 0 {
        NoSmallerOrder(S, n % d, n);
      } else {
        ProperDivisors(d);
        ExpModulo(S, n / 3, d);
        ExpModulo(S, n / 5, d);
        ExpModulo(S, n / 17, d);
      }
    }
  }

  lemma {:induction false} ExpInjective<T(!new)>(S: Shift<T>, i: nat, j: nat, n: nat)
    requires IsShift(S) && IsGenerator(S) && i < n && j < n && IsOrder(n) && Exp(S, i) == Exp(S, j)
    ensures i == j
    decreases i
  {
    if i < j {
      ExpSum(S, i, j - i);
      ExpSum(S, i, 0);
      TimesXPowInjective(S, i, Exp(S, j - i), S.one);
      NoSmallerOrder(S, j - i, n);
    } else if j < i {
      ExpInjective(S, j, i, n);
    }
  }

  // ---- The powers of x are all the non-zero elements ----

  ghost function OneTo(n: nat): (s: set<int>)
    ensures |s| == n
    ensures forall v :: v in s <==> 1 <= v <= n
  {
    if n == 0 then {} else OneTo(n - 1) + {n}
  }

  ghost function Powers<T>(S: Shift<T>, n: nat): (s: set<int>) {
    set i: nat | i < n :: S.code(Exp(S, i))
  }

  lemma {:induction false} PowersCount<T(!new)>(S: Shift<T>, m: nat, n: nat)
    requires IsShift(S) && IsGenerator(S) && m <= n && IsOrder(n)
    ensures |Powers(S, m)| == m
    decreases m
  {
    if m > 0 {
      PowersCount(S, m - 1, n);
      var last := S.code(Exp(S, m - 1));
      assert Powers(S, m) == Powers(S, m - 1) + {last};
      if last in Powers(S, m - 1) {
        var i: nat :| i < m - 1 && S.code(Exp(S, i)) == last;
        CodeAt(S, Exp(S, i), Exp(S, m - 1));
        ExpInjective(S, i, m - 1, n);
      }
    }
  }

  lemma SubsetOfEqualSize(a: set<int>, b: set<int>)
    requires a <= b && |a| == |b|
    ensures a == b
  {
    assert |b - a| == |b| - |a|;
  }

  /** x is primitive: every non-zero element is one of its first 255 powers. */
  lemma EveryElementIsAPower<T(!new)>(S: Shift<T>, a: T, n: nat) returns (i: nat)
    requires IsShift(S) && IsGenerator(S) && a != S.zero && IsOrder(n)
    ensures i < n && Exp(S, i) == a
  {
    forall v | v in Powers(S, n) ensures v in OneTo(n) {
      var i: nat :| i < n && S.code(Exp(S, i)) == v;
      ExpNonZero(S, i);
      CodeAt(S, Exp(S, i), S.zero);
    }
    PowersCount(S, n, n);
    SubsetOfEqualSize(Powers(S, n), OneTo(n));
    CodeAt(S, a, S.zero);
    assert S.code(a) in Powers(S, n);
    i :| i < n && S.code(Exp(S, i)) == S.code(a);
    CodeAt(S, Exp(S, i), a);
  }

  // ---- Exp and Log are inverse ----

  lemma {:induction false} LogFromExp<T(!new)>(S: Shift<T>, i: nat, j: nat, n: nat)
    requires IsShift(S) && IsGenerator(S) && j <= i < n && IsOrder(n)
    ensures LogFrom(S, Exp(S, i), j) == i
    decreases i - j
  {
    if Exp(S, j) == Exp(S, i) {
      ExpInjective(S, i, j, n);
    } else {
      LogFromExp(S, i, j + 1, n);
    }
  }

  lemma LogExp<T(!new)>(S: Shift<T>, i: nat, n: nat)
    requires IsShift(S) && IsGenerator(S) && i < n && IsOrder(n)
    ensures Log(S, Exp(S, i)) == i
  {
    LogFromExp(S, i, 0, n);
  }

  lemma ExpLog<T(!new)>(S: Shift<T>, a: T, n: nat)
    requires IsShift(S) && IsGenerator(S) && a != S.zero && IsOrder(n)
    ensures Log(S, a) < n && Exp(S, Log(S, a)) == a
  {
    var i := EveryElementIsAPower(S, a, n);
    LogExp(S, i, n);
  }

  // ---- The product by logarithms ----

  lemma MulOfLogs<T>(S: Shift<T>, a: T, b: T, i: nat, j: nat)
    requires a != S.zero && b != S.zero && Log(S, a) == i && Log(S, b) == j
    ensures Mul(S, a, b) == Exp(S, i + j)
  {
  }

  lemma PowerTimes<T(!new)>(S: Shift<T>, i: nat, b: T, n: nat)
    requires IsShift(S) && IsGenerator(S) && IsOrder(n) && b != S.zero
    ensures Exp(S, i + Log(S, b)) == TimesXPow(S, i, b)
  {
    ExpLog(S, b, n);
    ExpSum(S, i, Log(S, b));
  }

  lemma MulByPower<T(!new)>(S: Shift<T>, i: nat, b: T, n: nat)
    requires IsShift(S) && IsGenerator(S) && i < n && IsOrder(n)
    ensures Mul(S, Exp(S, i), b) == TimesXPow(S, i, b)
  {
    ExpNonZero(S, i);
    LogExp(S, i, n);
    if b == S.zero {
      TimesXPowZero(S, i);
    } else {
      MulOfLogs(S, Exp(S, i), b, i, Log(S, b));
      PowerTimes(S, i, b, n);
    }
  }

  lemma MulDistributes<T(!new)>(S: Shift<T>, a: T, b: T, c: T, n: nat)
    requires IsShift(S) && IsGenerator(S) && IsOrder(n)
    ensures Mul(S, a, S.add(b, c)) == S.add(Mul(S, a, b), Mul(S, a, c))
  {
    if a == S.zero {
      ShiftAt(S, S.zero, S.zero, S.zero);
    } else {
      var i := EveryElementIsAPower(S, a, n);
      MulByPower(S, i, b, n);
      MulByPower(S, i, c, n);
      MulByPower(S, i, S.add(b, c), n);
      TimesXPowLinear(S, i, b, c);
    }
  }

  /** Exponents matter only modulo 255, so products of powers are powers. */
  lemma MulPowers<T(!new)>(S: Shift<T>, i: nat, j: nat, n: nat)
    requires IsShift(S) && IsGenerator(S) && IsOrder(n)
    ensures Mul(S, Exp(S, i), Exp(S, j)) == Exp(S, i + j)
  {
    OrderFacts(S, n);
    ExpModulo(S, i, n);
    MulByPower(S, i % n, Exp(S, j), n);
    ExpSum(S, i % n, j);
    ExpSum(S, j, i % n);
    ExpSum(S, j, i);
  }

  lemma TriplePowers<T(!new)>(S: Shift<T>, i: nat, j: nat, k: nat, n: nat, a: T, b: T, c: T)
    requires IsShift(S) && IsGenerator(S) && IsOrder(n)
    requires a == Exp(S, i) && b == Exp(S, j) && c == Exp(S, k)
    ensures Mul(S, Mul(S, a, b), c) == Exp(S, i + j + k)
  {
    MulPowers(S, i, j, n);
    MulPowers(S, i + j, k, n);
  }

  lemma TriplePowersRight<T(!new)>(S: Shift<T>, i: nat, j: nat, k: nat, n: nat, a: T, b: T, c: T)
    requires IsShift(S) && IsGenerator(S) && IsOrder(n)
    requires a == Exp(S, i) && b == Exp(S, j) && c == Exp(S, k)
    ensures Mul(S, a, Mul(S, b, c)) == Exp(S, i + j + k)
  {
    MulPowers(S, j, k, n);
    MulPowers(S, i, j + k, n);
  }

  lemma MulZeros<T(!new)>(S: Shift<T>, a: T)
    ensures Mul(S, a, S.zero) == S.zero && Mul(S, S.zero, a) == S.zero
  {
  }

  lemma MulAssociates<T(!new)>(S: Shift<T>, a: T, b: T, c: T, n: nat)
    requires IsShift(S) && IsGenerator(S) && IsOrder(n)
    ensures Mul(S, a, Mul(S, b, c)) == Mul(S, Mul(S, a, b), c)
  {
    if a == S.zero || b == S.zero || c == S.zero {
      MulZeros(S, a);
      MulZeros(S, b);
      MulZeros(S, c);
      MulZeros(S, Mul(S, a, b));
      MulZeros(S, Mul(S, b, c));
    } else {
      var i := EveryElementIsAPower(S, a, n);
      var j := EveryElementIsAPower(S, b, n);
      var k := EveryElementIsAPower(S, c, n);
      TriplePowers(S, i, j, k, n, a, b, c);
      TriplePowersRight(S, i, j, k, n, a, b, c);
    }
  }

  lemma MulOne<T(!new)>(S: Shift<T>, a: T, n: nat)
    requires IsShift(S) && IsGenerator(S) && IsOrder(n)
    ensures Mul(S, a, S.one) == a
  {
    if a != S.zero {
      var i := EveryElementIsAPower(S, a, n);
      MulPowers(S, i, 0, n);
    }
  }

  lemma ExpWraps<T(!new)>(S: Shift<T>, i: nat, j: nat, n: nat)
    requires IsShift(S) && IsGenerator(S) && IsOrder(n) && i < n && j < n
    ensures Exp(S, j + (n + i - j) % n) == Exp(S, i)
  {
    var k := n + i - j;
    OrderFacts(S, n);
    ExpModulo(S, k, n);
    ExpSum(S, j, k % n);
    ExpSum(S, j, k);
    ExpSum(S, i, n);
    ExpSum(S, i, 0);
  }

  lemma DivIsPower<T(!new)>(S: Shift<T>, a: T, b: T, n: nat)
    requires a != S.zero && b != S.zero && IsOrder(n)
    ensures Log(S, a) < n && Log(S, b) < n
    ensures Div(S, a, b) == Exp(S, (n + Log(S, a) - Log(S, b)) % n)
  {
    LogBound(S, a);
    LogBound(S, b);
  }

  /** Division undoes multiplication. */
  lemma DivMul<T(!new)>(S: Shift<T>, a: T, b: T, n: nat)
    requires IsShift(S) && IsGenerator(S) && b != S.zero && IsOrder(n)
    ensures Mul(S, b, Div(S, a, b)) == a
  {
    if a != S.zero {
      var i, j := Log(S, a), Log(S, b);
      ExpLog(S, a, n);
      ExpLog(S, b, n);
      DivIsPower(S, a, b, n);
      ExpWraps(S, i, j, n);
      MulPowers(S, j, (n + i - j) % n, n);
    }
  }

  /** The field of the tables. The inverse of zero, which the source refuses by a panic, is set to zero. */
  function TableField<T(==)>(S: Shift<T>): Field<T> {
    Field(S.zero, S.one, S.add,
          (a, b) => Mul(S, a, b),
          a => if a == S.zero then S.zero else Div(S, S.one, a))
  }

  lemma TablesMakeAField<T(!new)>(S: Shift<T>)
    requires IsShift(S) && IsGenerator(S)
    ensures IsField(TableField(S))
  {
    var F := TableField(S);
    forall a, b, c ensures Laws(F, a, b, c) {
      ShiftAt(S, a, b, c);
      MulAssociates(S, a, b, c, 255);
      MulDistributes(S, a, b, c, 255);
      MulOne(S, a, 255);
      if a != S.zero {
        DivMul(S, S.one, a, 255);
      }
    }
  }

  // ---- Reference definition: polynomial multiplication ----

  /** Horner's rule over the bits of a polynomial, highest degree first: a * (x * h + e) == x * (a * h) + e * a. */
  ghost function PolyMul<T>(S: Shift<T>, a: T, bits: seq<bool>): T {
    if bits == [] then S.zero
    else
      var last := |bits| - 1;
      S.add(S.timesX(PolyMul(S, a, bits[..last])), if bits[last] then a else S.zero)
  }

  lemma {:induction false} PolyMulTimesX<T(!new)>(S: Shift<T>, a: T, bits: seq<bool>)
    requires IsLinear(S)
    ensures PolyMul(S, S.timesX(a), bits) == S.timesX(PolyMul(S, a, bits))
    decreases |bits|
  {
    TimesXPowZero(S, 1);
    assert S.timesX(S.zero) == TimesXPow(S, 1, S.zero);
    if bits != [] {
      var last := |bits| - 1;
      PolyMulTimesX(S, a, bits[..last]);
      ShiftAt(S, S.timesX(PolyMul(S, a, bits[..last])), if bits[last] then a else S.zero, a);
    }
  }

  lemma {:induction false} PolyMulByPower<T(!new)>(S: Shift<T>, i: nat, bits: seq<bool>)
    requires IsLinear(S)
    ensures PolyMul(S, Exp(S, i), bits) == TimesXPow(S, i, PolyMul(S, S.one, bits))
  {
    if i > 0 {
      PolyMulByPower(S, i - 1, bits);
      PolyMulTimesX(S, Exp(S, i - 1), bits);
    }
  }

  lemma {:induction false} PolyMulZero<T(!new)>(S: Shift<T>, bits: seq<bool>)
    requires IsLinear(S)
    ensures PolyMul(S, S.zero, bits) == S.zero
    decreases |bits|
  {
    TimesXPowZero(S, 1);
    assert S.timesX(S.zero) == TimesXPow(S, 1, S.zero);
    if bits != [] {
      PolyMulZero(S, bits[..|bits| - 1]);
      ShiftAt(S, S.zero, S.zero, S.zero);
    }
  }

  /** The product by logarithms is polynomial multiplication, for every b that the bits spell. */
  lemma MulIsPolyMul<T(!new)>(S: Shift<T>, a: T, b: T, bits: seq<bool>, n: nat)
    requires IsShift(S) && IsGenerator(S) && IsOrder(n)
    requires PolyMul(S, S.one, bits) == b
    ensures Mul(S, a, b) == PolyMul(S, a, bits)
  {
    if a == S.zero {
      PolyMulZero(S, bits);
    } else {
      var i := EveryElementIsAPower(S, a, n);
      MulByPower(S, i, b, n);
      PolyMulByPower(S, i, bits);
    }
  }
}
