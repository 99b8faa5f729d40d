/**
  GF(2^8) with the primitive polynomial 0x11d (core-supervisor/src/fec_engine.rs, `mod gf`): the
  bytes with exclusive or and the doubling step of the table construction, shown to satisfy what
  LogTables needs, and the construction of the two tables.
 */
module Gf256 {
  import opened Bits
  import opened Field
  import opened GfPowers
  import LogTables

  /** Field addition is exclusive or. */
  function Add(a: byte, b: byte): byte {
    ToByte(Xor(ToOctet(a), ToOctet(b)))
  }

  /** Shift left; when bit 8 comes up, exclusive or with 0x11d, whose own bit 8 clears it. */
  function TimesX(a: byte): byte {
    if a < 128 then 2 * a else Add(2 * a - 256, 0x1d)
  }

  const GF: LogTables.Shift<byte> := LogTables.Shift(0, 1, (a, b) => Add(a, b), a => TimesX(a), (a: byte) => a)

  /** The field that the erasure code computes in. */
  const F: Field<byte> := LogTables.TableField(GF)

  // ---- The same operations on octets ----

  lemma AddOctets(a: byte, b: byte)
    ensures ToOctet(Add(a, b)) == Xor(ToOctet(a), ToOctet(b))
  {
    ToByteToOctet(Xor(ToOctet(a), ToOctet(b)));
  }

  lemma HighBit(o: Octet)
    ensures ToByte(o) >= 128 <==> o.b7
  {
  }

  lemma ShiftNibbles(o: Octet)
    ensures Nibble(o.b3, o.b2, o.b1, o.b0) == 8 * Value(o.b3) + Nibble(false, o.b2, o.b1, o.b0)
    ensures Nibble(o.b2, o.b1, o.b0, false) == 2 * Nibble(false, o.b2, o.b1, o.b0)
    ensures Nibble(o.b6, o.b5, o.b4, o.b3) == 2 * Nibble(o.b7, o.b6, o.b5, o.b4) - 16 * Value(o.b7) + Value(o.b3)
  {
  }

  lemma ShiftLeftByte(o: Octet)
    ensures ToByte(o) >= 128 <==> o.b7
    ensures ToByte(ShiftLeft(o)) == 2 * ToByte(o) - if o.b7 then 256 else 0
  {
    HighBit(o);
    ShiftNibbles(o);
  }

  lemma ReductionByte()
    ensures ToOctet(0x1d) == REDUCTION
  {
    assert ToByte(REDUCTION) == 0x1d;
    ToByteToOctet(REDUCTION);
  }

  lemma TimesXOfOctet(o: Octet)
    ensures TimesX(ToByte(o)) == ToByte(TimesXOctet(o))
  {
    var s := ShiftLeft(o);
    ShiftLeftByte(o);
    TimesXOctetIsShift(o);
    AddReduction(s);
    TimesXCases(ToByte(o), ToByte(s), o.b7);
  }

  lemma TimesXCases(a: byte, s: byte, high: bool)
    requires a >= 128 <==> high
    requires s == 2 * a - if high then 256 else 0
    ensures TimesX(a) == if high then Add(s, 0x1d) else s
  {
  }

  lemma AddReduction(o: Octet)
    ensures Add(ToByte(o), 0x1d) == ToByte(Xor(o, REDUCTION))
  {
    ToByteToOctet(o);
    ReductionByte();
  }

  lemma TimesXOctets(a: byte)
    ensures ToOctet(TimesX(a)) == TimesXOctet(ToOctet(a))
  {
    TimesXOfOctet(ToOctet(a));
    ToByteToOctet(TimesXOctet(ToOctet(a)));
  }

  lemma OctetsEqual(a: byte, b: byte)
    requires ToOctet(a) == ToOctet(b)
    ensures a == b
  {
  }

  lemma ZeroOctet()
    ensures ToOctet(0) == ZERO && ToOctet(1) == ONE
  {
    ToByteToOctet(ZERO);
    ToByteToOctet(ONE);
  }

  // ---- The laws of LogTables.Shift ----

  lemma AddAssociates(a: byte, b: byte, c: byte)
    ensures Add(a, Add(b, c)) == Add(Add(a, b), c)
  {
    AddOctets(b, c);
    AddOctets(a, b);
    AddOctets(a, Add(b, c));
    AddOctets(Add(a, b), c);
    XorAssoc(ToOctet(a), ToOctet(b), ToOctet(c));
    OctetsEqual(Add(a, Add(b, c)), Add(Add(a, b), c));
  }

  lemma AddCommutes(a: byte, b: byte)
    ensures Add(a, b) == Add(b, a)
  {
    XorComm(ToOctet(a), ToOctet(b));
  }

  lemma AddUnits(a: byte)
    ensures Add(a, 0) == a && Add(a, a) == 0
  {
    ZeroOctet();
    XorZero(ToOctet(a));
  }

  lemma TimesXLinear(a: byte, b: byte)
    ensures TimesX(Add(a, b)) == Add(TimesX(a), TimesX(b))
  {
    TimesXOctets(a);
    TimesXOctets(b);
    TimesXOctets(Add(a, b));
    AddOctets(a, b);
    AddOctets(TimesX(a), TimesX(b));
    TimesXOctetLinear(ToOctet(a), ToOctet(b));
    OctetsEqual(TimesX(Add(a, b)), Add(TimesX(a), TimesX(b)));
  }

  lemma TimesXNonZero(a: byte)
    requires TimesX(a) == 0
    ensures a == 0
  {
    TimesXOctets(a);
    ZeroOctet();
    TimesXOctetInjective(ToOctet(a), ZERO);
    OctetsEqual(a, 0);
  }

  lemma GfIsShift()
    ensures LogTables.IsShift(GF)
  {
    forall a, b ensures LogTables.CodeLaws(GF, a, b) {
    }
    forall a, b, c ensures LogTables.ShiftLaws(GF, a, b, c) {
      AddAssociates(a, b, c);
      AddCommutes(a, b);
      AddUnits(a);
      TimesXLinear(a, b);
      if TimesX(a) == 0 {
        TimesXNonZero(a);
      }
    }
  }

  // ---- x generates the non-zero bytes ----

  lemma {:induction false} ExpIsPower(i: nat)
    ensures LogTables.Exp(GF, i) == ToByte(Power(i))
  {
    if i == 0 {
      assert ToByte(ONE) == 1;
    } else {
      ExpIsPower(i - 1);
      TimesXOfOctet(Power(i - 1));
    }
  }

  lemma AddOne(o: Octet)
    ensures Add(ToByte(o), 1) == ToByte(Xor(o, ONE))
  {
    ToByteToOctet(o);
    ZeroOctet();
  }

  lemma GfGenerates(p: nat)
    requires 16 < p < 18
    ensures LogTables.IsRoot(GF, p) && LogTables.Exp(GF, p - 2) != 1
  {
    SeventeenthPower(p);
    ExpIsPower(p);
    ExpIsPower(4 * p);
    ExpIsPower(p - 2);
    AddOne(Power(p));
    ToByteToOctet(Power(p - 2));
    ZeroOctet();
  }

  /** The table-driven arithmetic on bytes is a field. */
  lemma GfIsField()
    ensures IsField(F)
  {
    GfIsShift();
    GfGenerates(17);
    LogTables.TablesMakeAField(GF);
  }

  // ---- The tables ----

  lemma ExpTwice(i: nat, n: nat)
    requires n <= i && LogTables.IsOrder(n)
    ensures LogTables.Exp(GF, i) == LogTables.Exp(GF, i - n)
  {
    GfIsShift();
    GfGenerates(17);
    LogTables.OrderFacts(GF, n);
    LogTables.ExpMinus(GF, i, n);
  }

  lemma ExpFresh(j: nat, i: nat, n: nat)
    requires j < i < n && LogTables.IsOrder(n)
    ensures LogTables.Exp(GF, j) != LogTables.Exp(GF, i)
  {
    GfIsShift();
    GfGenerates(17);
    if LogTables.Exp(GF, j) == LogTables.Exp(GF, i) {
      LogTables.ExpInjective(GF, j, i, n);
    }
  }

  lemma ExpPositive(i: nat)
    ensures LogTables.Exp(GF, i) != 0
  {
    GfIsShift();
    LogTables.ExpNonZero(GF, i);
  }

  lemma LogIsInverse(a: byte)
    requires a != 0
    ensures LogTables.Log(GF, a) < 255 && LogTables.Exp(GF, LogTables.Log(GF, a)) == a
  {
    GfIsShift();
    GfGenerates(17);
    LogTables.ExpLog(GF, a, 255);
  }

  /** What the construction relies on: 512 powers of x, the first 255 of them distinct, repeating after 255. */
  ghost predicate IsExpTable(t: seq<byte>, step: byte -> byte) {
    && |t| == 512 && t[0] == 1
    && (forall i :: 0 <= i < 511 ==> t[i + 1] == step(t[i]))
    && (forall i :: 0 <= i < 512 ==> t[i] != 0)
    && (forall i, j :: 0 <= j < i < 255 ==> t[j] != t[i])
    && (forall i :: 255 <= i < 512 ==> t[i] == t[i - 255])
  }

  lemma ExpTable() returns (t: seq<byte>)
    ensures IsExpTable(t, TimesX)
    ensures forall i :: 0 <= i < 512 ==> t[i] == LogTables.Exp(GF, i)
  {
    t := seq(512, i requires 0 <= i < 512 => LogTables.Exp(GF, i));
    forall i | 0 <= i < 512 ensures t[i] != 0 {
      ExpPositive(i);
    }
    forall i, j | 0 <= j < i < 255 ensures t[j] != t[i] {
      ExpFresh(j, i, 255);
    }
    forall i | 255 <= i < 512 ensures t[i] == t[i - 255] {
      ExpTwice(i, 255);
    }
  }

  method FillTables(step: byte -> byte, ghost t: seq<byte>) returns (e: array<byte>, l: array<byte>)
    requires IsExpTable(t, step)
    ensures e.Length == 512 && e[..] == t
    ensures l.Length == 256 && l[0] == 0 && forall j :: 0 <= j < 255 ==> l[t[j]] == j
  {
    e := new byte[512](_ => 0);
    l := new byte[256](_ => 0);
    var x := 1;
    for i := 0 to 255
      invariant x == t[i]
      invariant forall j :: 0 <= j < i ==> e[j] == t[j]
      invariant forall j :: 0 <= j < i ==> l[t[j]] == j
      invariant l[0] == 0
    {
      e[i] := x;
      l[x] := i;
      x := step(x);
    }
    for i := 255 to 512
      invariant forall j :: 0 <= j < i ==> e[j] == t[j]
      invariant l[0] == 0 && forall j :: 0 <= j < 255 ==> l[t[j]] == j
    {
      e[i] := e[i - 255];
    }
  }

  /** The exponential table, doubled so that the sum of two logarithms is a valid index, and the logarithm table. */
  ghost predicate AreTables(S: LogTables.Shift<byte>, exp: seq<byte>, log: seq<byte>) {
    && |exp| == 512 && (forall i :: 0 <= i < 512 ==> exp[i] == LogTables.Exp(S, i))
    && |log| == 256 && log[0] == 0 && forall a :: 1 <= a < 256 ==> log[a] == LogTables.Log(S, a)
  }

  method BuildTables() returns (exp: seq<byte>, log: seq<byte>)
    ensures AreTables(GF, exp, log)
  {
    ghost var t := ExpTable();
    var e, l := FillTables(TimesX, t);
    exp, log := e[..], l[..];
    forall a | 1 <= a < 256 ensures log[a] == LogTables.Log(GF, a) {
      LogIsInverse(a);
      assert t[LogTables.Log(GF, a)] == a;
    }
  }

  /** Looking up the sum of two logarithms. */
  method LookUpProduct(ghost S: LogTables.Shift<byte>, exp: seq<byte>, log: seq<byte>, a: byte, b: byte)
    returns (r: byte)
    requires S.zero == 0 && AreTables(S, exp, log)
    ensures r == LogTables.Mul(S, a, b)
  {
    if a == 0 || b == 0 {
      return 0;
    }
    LogTables.LogBound(S, a);
    LogTables.LogBound(S, b);
    r := exp[log[a] as nat + log[b] as nat];
  }

  /** Looking up their difference. */
  method LookUpQuotient(ghost S: LogTables.Shift<byte>, exp: seq<byte>, log: seq<byte>, a: byte, b: byte)
    returns (r: byte)
    requires S.zero == 0 && AreTables(S, exp, log) && b != 0
    ensures r == LogTables.Div(S, a, b)
  {
    if a == 0 {
      return 0;
    }
    LogTables.LogBound(S, a);
    LogTables.LogBound(S, b);
    var index := 255 + log[a] as nat - log[b] as nat;
    r := exp[index % 255];
  }

  /** Over the tables of GF(2^8) these are the operations of the field: product, inverse, and quotient times divisor. */
  method TableArithmetic(exp: seq<byte>, log: seq<byte>, a: byte, b: byte)
    returns (product: byte, quotient: byte, inverse: byte)
    requires AreTables(GF, exp, log) && b != 0
    ensures product == F.mul(a, b) && F.mul(b, quotient) == a && inverse == F.inv(b)
  {
    product := LookUpProduct(GF, exp, log, a, b);
    quotient := LookUpQuotient(GF, exp, log, a, b);
    inverse := LookUpQuotient(GF, exp, log, 1, b);
    QuotientTimesDivisor(a, b);
  }

  lemma QuotientTimesDivisor(a: byte, b: byte)
    requires b != 0
    ensures F.mul(b, LogTables.Div(GF, a, b)) == a
  {
    GfIsShift();
    GfGenerates(17);
    LogTables.DivMul(GF, a, b, 255);
  }

  // ---- The product is polynomial multiplication ----

  function FourMore(prefix: seq<bool>, p: bool, q: bool, u: bool, v: bool): seq<bool> {
    prefix + [p] + [q] + [u] + [v]
  }

  /** The bits of an octet, most significant first. */
  function BitsOf(o: Octet): seq<bool> {
    FourMore(FourMore([], o.b7, o.b6, o.b5, o.b4), o.b3, o.b2, o.b1, o.b0)
  }

  lemma HornerOctet(r: Octet, e: bool)
    requires !r.b7
    ensures Xor(TimesXOctet(r), if e then ONE else ZERO) == Octet(r.b6, r.b5, r.b4, r.b3, r.b2, r.b1, r.b0, e)
  {
  }

  lemma AddBit(o: Octet, e: bool)
    ensures Add(ToByte(o), if e then 1 else 0) == ToByte(Xor(o, if e then ONE else ZERO))
  {
    ToByteToOctet(o);
    ZeroOctet();
  }

  lemma HornerStep(r: Octet, e: bool)
    requires !r.b7
    ensures GF.add(GF.timesX(ToByte(r)), if e then 1 else 0) ==
            ToByte(Octet(r.b6, r.b5, r.b4, r.b3, r.b2, r.b1, r.b0, e))
  {
    TimesXOfOctet(r);
    AddBit(TimesXOctet(r), e);
    HornerOctet(r, e);
  }

  lemma SpellHalf(r: Octet, prefix: seq<bool>, p: bool, q: bool, u: bool, v: bool)
    requires !r.b7 && !r.b6 && !r.b5 && !r.b4 && LogTables.PolyMul(GF, 1, prefix) == ToByte(r)
    ensures LogTables.PolyMul(GF, 1, FourMore(prefix, p, q, u, v)) == ToByte(Octet(r.b3, r.b2, r.b1, r.b0, p, q, u, v))
  {
    var r1 := Octet(r.b6, r.b5, r.b4, r.b3, r.b2, r.b1, r.b0, p);
    var r2 := Octet(r.b5, r.b4, r.b3, r.b2, r.b1, r.b0, p, q);
    var r3 := Octet(r.b4, r.b3, r.b2, r.b1, r.b0, p, q, u);
    Spell(r, prefix, p);
    Spell(r1, prefix + [p], q);
    Spell(r2, prefix + [p] + [q], u);
    Spell(r3, prefix + [p] + [q] + [u], v);
  }

  /** Horner's rule on the bits of an octet yields its byte. */
  lemma BitsSpellByte(o: Octet)
    ensures LogTables.PolyMul(GF, 1, BitsOf(o)) == ToByte(o)
  {
    assert ToByte(ZERO) == 0;
    SpellHalf(ZERO, [], o.b7, o.b6, o.b5, o.b4);
    var high := FourMore([], o.b7, o.b6, o.b5, o.b4);
    SpellHalf(Octet(false, false, false, false, o.b7, o.b6, o.b5, o.b4), high, o.b3, o.b2, o.b1, o.b0);
  }

  lemma Spell(r: Octet, prefix: seq<bool>, e: bool)
    requires !r.b7 && LogTables.PolyMul(GF, 1, prefix) == ToByte(r)
    ensures LogTables.PolyMul(GF, 1, prefix + [e]) == ToByte(Octet(r.b6, r.b5, r.b4, r.b3, r.b2, r.b1, r.b0, e))
  {
    HornerStep(r, e);
    assert (prefix + [e])[..|prefix|] == prefix;
  }

  /** The table-driven product is multiplication of polynomials over GF(2) modulo 0x11d. */
  lemma MulIsPolynomialProduct(a: byte, b: byte)
    ensures F.mul(a, b) == LogTables.PolyMul(GF, a, BitsOf(ToOctet(b)))
  {
    GfIsShift();
    GfGenerates(17);
    BitsSpellByte(ToOctet(b));
    LogTables.MulIsPolyMul(GF, a, b, BitsOf(ToOctet(b)), 255);
  }
}
