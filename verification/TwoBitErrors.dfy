/**
  Two flipped bits under the ICMP tunnel's checksum (core-supervisor/src/icmp_tunnel.rs:59-73): they
  escape exactly when their distance is a multiple of 32767, the order of x modulo the polynomial.
 */
module TwoBitErrors {
  import opened Crc16
  import opened CrcOrder
  import LogTables

  // ---- The register as a polynomial ----

  function BitIn(h: Hex, i: nat): bool {
    if i == 0 then h.b0 else if i == 1 then h.b1 else if i == 2 then h.b2 else h.b3
  }

  function BitAt(p: Poly, i: nat): bool {
    if i < 4 then BitIn(p.h0, i)
    else if i < 8 then BitIn(p.h1, i - 4)
    else if i < 12 then BitIn(p.h2, i - 8)
    else BitIn(p.h3, i - 12)
  }

  function WordOf(p: Poly): Word {
    seq(16, i requires 0 <= i < 16 => BitAt(p, i))
  }

  lemma RoundBit(p: Poly, i: nat)
    requires i < 16
    ensures Round(WordOf(p))[i] == BitAt(TimesX(p), i)
  {
  }

  /** A round of the register is multiplication by x. */
  lemma RoundIsTimesX(p: Poly)
    ensures Round(WordOf(p)) == WordOf(TimesX(p))
  {
    forall i | 0 <= i < 16 ensures Round(WordOf(p))[i] == WordOf(TimesX(p))[i] {
      RoundBit(p, i);
    }
  }

  lemma WordOfInjective(p: Poly, q: Poly)
    requires WordOf(p) == WordOf(q)
    ensures p == q
  {
    var v, w := WordOf(p), WordOf(q);
    assert v[0] == w[0] && v[1] == w[1] && v[2] == w[2] && v[3] == w[3];
    assert v[4] == w[4] && v[5] == w[5] && v[6] == w[6] && v[7] == w[7];
    assert v[8] == w[8] && v[9] == w[9] && v[10] == w[10] && v[11] == w[11];
    assert v[12] == w[12] && v[13] == w[13] && v[14] == w[14] && v[15] == w[15];
  }

  // ---- Runs of zeros ----

  function Rounds(n: nat, s: Word): Word {
    if n == 0 then s else Round(Rounds(n - 1, s))
  }

  function Zeros(n: nat): seq<bool> {
    seq(n, _ => false)
  }

  lemma FeedFalse(s: Word)
    ensures Feed(s, false) == Round(s)
  {
    assert s[15 := s[15] != false] == s;
  }

  lemma {:induction false} RunZeros(s: Word, n: nat)
    ensures Run(s, Zeros(n)) == Rounds(n, s)
  {
    if n > 0 {
      RunZeros(s, n - 1);
      assert Zeros(n)[..n - 1] == Zeros(n - 1);
      FeedFalse(Rounds(n - 1, s));
    }
  }

  lemma {:induction false} RoundsOfZero(n: nat)
    ensures Rounds(n, Zero()) == Zero()
  {
    if n > 0 {
      RoundsOfZero(n - 1);
      assert Round(Zero()) == Zero();
    }
  }

  lemma {:induction false} RoundFirst(n: nat, s: Word)
    ensures Rounds(n, Round(s)) == Rounds(n + 1, s)
  {
    if n > 0 {
      RoundFirst(n - 1, s);
    }
  }

  lemma {:induction false} RoundsArePowers(n: nat, p: Poly)
    ensures Rounds(n, WordOf(p)) == WordOf(LogTables.TimesXPow(S, n, p))
  {
    if n > 0 {
      RoundsArePowers(n - 1, p);
      RoundIsTimesX(LogTables.TimesXPow(S, n - 1, p));
    }
  }

  // ---- Two ones among zeros ----

  /** The register with only its top bit set. */
  function Top(): Word {
    seq(16, i => i == 15)
  }

  const TOP := Poly(H8, H0, H0, H0)

  lemma TopIsPower(u: nat)
    requires u == 1
    ensures LogTables.Exp(S, 15 * u) == TOP
  {
    FirstPower(u);
    DoubledAndOne(u, Poly(H0, H0, H0, H2), Poly(H0, H0, H0, H8));
    DoubledAndOne(3 * u, Poly(H0, H0, H0, H8), Poly(H0, H0, H8, H0));
    DoubledAndOne(7 * u, Poly(H0, H0, H8, H0), TOP);
  }

  lemma TopWord()
    ensures WordOf(TOP) == Top()
  {
    forall i | 0 <= i < 16 ensures WordOf(TOP)[i] == Top()[i] {
    }
  }

  /** d rounds bring the top bit back exactly when 32767 divides d. */
  lemma TopReturns(d: nat, u: nat)
    requires u == 1
    ensures Rounds(d, Top()) == Top() <==> d % 32767 == 0
  {
    var n := 15 * u;
    TopIsPower(u);
    TopWord();
    RoundsArePowers(d, TOP);
    LogTables.ExpSum(S, d, n);
    LogTables.ExpSum(S, n, d);
    LogTables.ExpSum(S, n, 0);
    OrderOfX(d);
    PolyIsLinear();
    if Rounds(d, Top()) == Top() {
      WordOfInjective(LogTables.TimesXPow(S, d, TOP), TOP);
      LogTables.TimesXPowInjective(S, n, LogTables.Exp(S, d), ONE);
    }
  }

  lemma FeedTrue(s: Word)
    ensures Feed(s, true) == Zero() <==> s == Top()
    ensures Feed(Zero(), true) == Round(Top())
  {
    ZeroIffSpelled(s, [true]);
    assert [true][..0] == [];
    assert Run(s, [true]) == Feed(s, true);
    if Spells(s, [true]) {
      assert s == Top();
    }
    assert Zero()[15 := true] == Top();
  }

  function TwoOnes(before: nat, d: nat, after: nat): seq<bool>
    requires d > 0
  {
    Zeros(before) + [true] + Zeros(d - 1) + [true] + Zeros(after)
  }

  lemma RunOne(s: Word, bits: seq<bool>)
    ensures Run(s, bits + [true]) == Feed(Run(s, bits), true)
  {
    assert (bits + [true])[..|bits|] == bits;
  }

  lemma TwoOnesReturn(before: nat, d: nat, after: nat)
    requires d > 0
    ensures Run(Zero(), TwoOnes(before, d, after)) == Zero() <==> d % 32767 == 0
  {
    var first := Zeros(before);
    var second := first + [true] + Zeros(d - 1);
    RunZeros(Zero(), before);
    RoundsOfZero(before);
    RunOne(Zero(), first);
    FeedTrue(Zero());
    RunAppend(Zero(), first + [true], Zeros(d - 1));
    RunZeros(Round(Top()), d - 1);
    RoundFirst(d - 1, Top());
    assert Run(Zero(), second) == Rounds(d, Top());
    RunOne(Zero(), second);
    FeedTrue(Rounds(d, Top()));
    TopReturns(d, 1);
    var s := Run(Zero(), second + [true]);
    RunAppend(Zero(), second + [true], Zeros(after));
    RunZeros(Zero(), after);
    RoundsOfZero(after);
    if Run(s, Zeros(after)) == Zero() {
      RunInjective(s, Zero(), Zeros(after));
    }
  }

  /** a and b differ at p and at q and nowhere else. */
  ghost predicate DifferAt(a: seq<bool>, b: seq<bool>, p: nat, q: nat) {
    && |a| == |b| && p < q < |a|
    && forall i :: 0 <= i < |a| ==> (a[i] != b[i] <==> i == p || i == q)
  }

  lemma DifferenceIsTwoOnes(a: seq<bool>, b: seq<bool>, p: nat, q: nat)
    requires DifferAt(a, b, p, q)
    ensures XorBits(a, b) == TwoOnes(p, q - p, |a| - q - 1)
  {
    var x, t := XorBits(a, b), TwoOnes(p, q - p, |a| - q - 1);
    assert |x| == |t|;
    forall i | 0 <= i < |x| ensures x[i] == t[i] {
      assert x[i] == (i == p || i == q);
    }
  }

  /** Bit strings that differ in two places leave the same register exactly when the distance is a multiple of 32767. */
  lemma TwoErrorsEscape(s: Word, a: seq<bool>, b: seq<bool>, p: nat, q: nat)
    requires DifferAt(a, b, p, q)
    ensures Run(s, a) == Run(s, b) <==> (q - p) % 32767 == 0
  {
    RunLinear(s, s, a, b);
    XorWordZero(s, s);
    XorWordZero(Run(s, a), Run(s, b));
    DifferenceIsTwoOnes(a, b, p, q);
    TwoOnesReturn(p, q - p, |a| - q - 1);
  }
}
