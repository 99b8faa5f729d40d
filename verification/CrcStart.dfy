/**
  What the initial value 0xFFFF of the ICMP tunnel's checksum is for
  (core-supervisor/src/icmp_tunnel.rs:59-73): zero bytes put in front of the data change the
  checksum, unless their number is a multiple of 32767.

  The states that n rounds leave alone are closed under addition and under a round. With the
  initial value they contain the top bit plus what a round makes of it, and so, as no state of
  even parity but zero is left alone by one round, the top bit itself.
 */
module CrcStart {
  import opened Arithmetic
  import opened Crc16
  import opened CrcOrder
  import opened TwoBitErrors
  import Bits
  import Icmp
  import LogTables

  // ---- States that n rounds leave alone ----

  ghost predicate Returns(n: nat, p: Poly) {
    LogTables.TimesXPow(S, n, p) == p
  }

  lemma {:induction false} TimesXCommutes(n: nat, p: Poly)
    ensures LogTables.TimesXPow(S, n, TimesX(p)) == TimesX(LogTables.TimesXPow(S, n, p))
  {
    if n > 0 {
      TimesXCommutes(n - 1, p);
    }
  }

  lemma ReturnsTimesX(n: nat, p: Poly, q: Poly)
    requires Returns(n, p) && q == TimesX(p)
    ensures Returns(n, q)
  {
    TimesXCommutes(n, p);
  }

  lemma ReturnsAdd(n: nat, p: Poly, q: Poly, r: Poly)
    requires Returns(n, p) && Returns(n, q) && r == Add(p, q)
    ensures Returns(n, r)
  {
    PolyIsLinear();
    LogTables.TimesXPowLinear(S, n, p, q);
  }

  const ALL := Poly(HF, HF, HF, HF)

  /** The initial value times x^3. */
  lemma ReturnsCubed(n: nat)
    requires Returns(n, ALL)
    ensures Returns(n, Poly(H8, HF, H1, HF))
  {
    ReturnsTimesX(n, ALL, Poly(HE, HF, HD, HF));
    ReturnsTimesX(n, Poly(HE, HF, HD, HF), Poly(HC, HF, H9, HF));
    ReturnsTimesX(n, Poly(HC, HF, H9, HF), Poly(H8, HF, H1, HF));
  }

  /** And times x^8 and x^12. */
  lemma ReturnsFurther(n: nat)
    requires Returns(n, Poly(H8, HF, H1, HF))
    ensures Returns(n, Poly(HE, H1, HF, H0)) && Returns(n, Poly(HF, HE, HC, HE))
  {
    ReturnsTimesX(n, Poly(H8, HF, H1, HF), Poly(H0, HE, H1, HF));
    ReturnsTimesX(n, Poly(H0, HE, H1, HF), Poly(H1, HC, H3, HE));
    ReturnsTimesX(n, Poly(H1, HC, H3, HE), Poly(H3, H8, H7, HC));
    ReturnsTimesX(n, Poly(H3, H8, H7, HC), Poly(H7, H0, HF, H8));
    ReturnsTimesX(n, Poly(H7, H0, HF, H8), Poly(HE, H1, HF, H0));
    ReturnsTimesX(n, Poly(HE, H1, HF, H0), Poly(HD, H3, HC, H1));
    ReturnsTimesX(n, Poly(HD, H3, HC, H1), Poly(HB, H7, HA, H3));
    ReturnsTimesX(n, Poly(HB, H7, HA, H3), Poly(H7, HF, H6, H7));
    ReturnsTimesX(n, Poly(H7, HF, H6, H7), Poly(HF, HE, HC, HE));
  }

  /** If the initial value returns, so does the top bit plus its successor. */
  lemma ReturnsPair(n: nat)
    requires Returns(n, ALL)
    ensures Returns(n, Add(TimesX(TOP), TOP))
  {
    ReturnsCubed(n);
    ReturnsFurther(n);
    ReturnsAdd(n, Poly(H8, HF, H1, HF), Poly(HE, H1, HF, H0), Poly(H6, HE, HE, HF));
    ReturnsAdd(n, Poly(H6, HE, HE, HF), Poly(HF, HE, HC, HE), Poly(H9, H0, H2, H1));
  }

  // ---- Parity ----

  function OddHex(h: Hex): bool {
    (h.b3 != h.b2) != (h.b1 != h.b0)
  }

  function Odd(p: Poly): bool {
    (OddHex(p.h3) != OddHex(p.h2)) != (OddHex(p.h1) != OddHex(p.h0))
  }

  lemma OddTimesX(p: Poly)
    ensures Odd(TimesX(p)) == Odd(p)
  {
  }

  lemma OddAdd(p: Poly, q: Poly)
    ensures Odd(Add(p, q)) == (Odd(p) != Odd(q))
  {
  }

  lemma {:induction false} OddPower(n: nat, p: Poly)
    ensures Odd(LogTables.TimesXPow(S, n, p)) == Odd(p)
  {
    if n > 0 {
      OddPower(n - 1, p);
      OddTimesX(LogTables.TimesXPow(S, n - 1, p));
    }
  }

  /** One round leaves alone zero and one state of odd parity. */
  lemma FixedPoint(w: Poly)
    requires TimesX(w) == w && !Odd(w)
    ensures w == ZERO
  {
  }

  lemma Exchange(a: Poly, b: Poly, c: Poly, d: Poly)
    requires Add(a, b) == Add(c, d)
    ensures Add(a, c) == Add(b, d)
  {
  }

  lemma SumIsZero(a: Poly, b: Poly)
    requires Add(a, b) == ZERO
    ensures a == b
  {
  }

  lemma TopReturnsToo(n: nat)
    requires Returns(n, ALL)
    ensures Returns(n, TOP)
  {
    var a := LogTables.TimesXPow(S, n, TOP);
    ReturnsPair(n);
    PolyIsLinear();
    LogTables.TimesXPowLinear(S, n, TimesX(TOP), TOP);
    TimesXCommutes(n, TOP);
    Exchange(TimesX(a), a, TimesX(TOP), TOP);
    TimesXLaws(a, TOP);
    OddPower(n, TOP);
    OddAdd(a, TOP);
    FixedPoint(Add(a, TOP));
    SumIsZero(a, TOP);
  }

  // ---- The initial value returns with x ----

  lemma ReturnsNext(n: nat, p: Poly, q: Poly)
    requires Returns(n, ONE) && Returns(n, p) && q == Add(TimesX(p), ONE)
    ensures Returns(n, q)
  {
    ReturnsTimesX(n, p, TimesX(p));
    ReturnsAdd(n, TimesX(p), ONE, q);
  }

  lemma ReturnsLow(n: nat)
    requires Returns(n, ONE)
    ensures Returns(n, Poly(H0, H0, HF, HF))
  {
    ReturnsNext(n, ONE, Poly(H0, H0, H0, H3));
    ReturnsNext(n, Poly(H0, H0, H0, H3), Poly(H0, H0, H0, H7));
    ReturnsNext(n, Poly(H0, H0, H0, H7), Poly(H0, H0, H0, HF));
    ReturnsNext(n, Poly(H0, H0, H0, HF), Poly(H0, H0, H1, HF));
    ReturnsNext(n, Poly(H0, H0, H1, HF), Poly(H0, H0, H3, HF));
    ReturnsNext(n, Poly(H0, H0, H3, HF), Poly(H0, H0, H7, HF));
    ReturnsNext(n, Poly(H0, H0, H7, HF), Poly(H0, H0, HF, HF));
  }

  lemma ReturnsAll(n: nat)
    requires Returns(n, ONE)
    ensures Returns(n, ALL)
  {
    ReturnsLow(n);
    ReturnsNext(n, Poly(H0, H0, HF, HF), Poly(H0, H1, HF, HF));
    ReturnsNext(n, Poly(H0, H1, HF, HF), Poly(H0, H3, HF, HF));
    ReturnsNext(n, Poly(H0, H3, HF, HF), Poly(H0, H7, HF, HF));
    ReturnsNext(n, Poly(H0, H7, HF, HF), Poly(H0, HF, HF, HF));
    ReturnsNext(n, Poly(H0, HF, HF, HF), Poly(H1, HF, HF, HF));
    ReturnsNext(n, Poly(H1, HF, HF, HF), Poly(H3, HF, HF, HF));
    ReturnsNext(n, Poly(H3, HF, HF, HF), Poly(H7, HF, HF, HF));
    ReturnsNext(n, Poly(H7, HF, HF, HF), ALL);
  }

  lemma AllWord()
    ensures WordOf(ALL) == Ones()
  {
    forall i | 0 <= i < 16 ensures WordOf(ALL)[i] == Ones()[i] {
    }
  }

  lemma StartReturns(n: nat)
    ensures Rounds(n, Ones()) == Ones() <==> n % 32767 == 0
  {
    AllWord();
    RoundsArePowers(n, ALL);
    OrderOfX(n);
    if Rounds(n, Ones()) == Ones() {
      WordOfInjective(LogTables.TimesXPow(S, n, ALL), ALL);
      TopReturnsToo(n);
      TopWord();
      RoundsArePowers(n, TOP);
      TopReturns(n, 1);
    }
    if n % 32767 == 0 {
      LogTables.ExpSum(S, n, 0);
      ReturnsAll(n);
    }
  }

  // ---- Zero bytes in front ----

  lemma ZeroByteBits()
    ensures BitsOfByte(0) == Zeros(8)
  {
    Bits.ToByteToOctet(Bits.ZERO);
    forall i | 0 <= i < 8 ensures BitsOfByte(0)[i] == Zeros(8)[i] {
    }
  }

  lemma {:induction false} ZeroBits(n: nat)
    ensures BitsOfBytes(Bits.Zeros(n)) == Zeros(8 * n)
  {
    if n > 0 {
      ZeroBits(n - 1);
      ZeroByteBits();
      assert Bits.Zeros(n)[..n - 1] == Bits.Zeros(n - 1);
    }
  }

  lemma EightTimes(n: nat)
    ensures 8 * n % 32767 == 0 <==> n % 32767 == 0
  {
    var q, r := n / 32767, n % 32767;
    if 8 * n % 32767 == 0 {
      var t := 8 * n / 32767;
      // n == 32768 * n - 32767 * n == 32767 * (4096 * t - n)
      RemainderIs(n, 32767, 4096 * t - n, 0);
    }
    if r == 0 {
      RemainderIs(8 * n, 32767, 8 * q, 0);
    }
  }

  /** Zero bytes in front of the data leave its checksum as it is exactly when their number is a multiple of 32767. */
  lemma LeadingZeros(n: nat, data: seq<Bits.byte>)
    ensures Crc(Bits.Zeros(n) + data) == Crc(data) <==> n % 32767 == 0
  {
    Icmp.BitsOfConcat(Bits.Zeros(n), data);
    ZeroBits(n);
    RunAppend(Ones(), Zeros(8 * n), BitsOfBytes(data));
    RunZeros(Ones(), 8 * n);
    StartReturns(8 * n);
    EightTimes(n);
    if Crc(Bits.Zeros(n) + data) == Crc(data) {
      RunInjective(Rounds(8 * n, Ones()), Ones(), BitsOfBytes(data));
    }
  }
}
