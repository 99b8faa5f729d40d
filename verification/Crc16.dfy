/**
  The CRC-16 of the ICMP tunnel (core-supervisor/src/icmp_tunnel.rs:59-73): polynomial 0x1021,
  initial value 0xFFFF, most significant bit first; and which errors it is certain to detect.

  A 16-bit word is its sequence of bits, lowest first; data is a sequence of bits, in the order
  they are fed in. The register is a linear, injective function of what it has been fed, and
  ends at zero exactly when the last 16 bits fed are the checksum of the rest.
 */
module Crc16 {
  import opened Bits

  type Word = s: seq<bool> | |s| == 16 witness [false, false, false, false, false, false, false, false,
                                                false, false, false, false, false, false, false, false]

  function Zero(): Word {
    seq(16, _ => false)
  }

  function Ones(): Word {
    seq(16, _ => true)
  }

  /** 0x1021. */
  function Polynomial(): Word {
    seq(16, i => i == 0 || i == 5 || i == 12)
  }

  function XorWord(s: Word, t: Word): Word {
    seq(16, i requires 0 <= i < 16 => s[i] != t[i])
  }

  function ShiftWord(s: Word): Word {
    seq(16, i requires 0 <= i < 16 => i > 0 && s[i - 1])
  }

  /** One round of the inner loop. */
  function Round(s: Word): Word {
    if s[15] then XorWord(ShiftWord(s), Polynomial()) else ShiftWord(s)
  }

  /** The i-th bit of an octet, counted from the top. */
  function BitAt(o: Octet, i: nat): bool {
    if i == 0 then o.b7 else if i == 1 then o.b6 else if i == 2 then o.b5 else if i == 3 then o.b4
    else if i == 4 then o.b3 else if i == 5 then o.b2 else if i == 6 then o.b1 else o.b0
  }

  function BitsOfByte(b: byte): (w: seq<bool>)
    ensures |w| == 8
  {
    seq(8, i requires 0 <= i < 8 => BitAt(ToOctet(b), i))
  }

  function BitsOfBytes(data: seq<byte>): (w: seq<bool>)
    ensures |w| == 8 * |data|
  {
    if data == [] then [] else BitsOfBytes(data[..|data| - 1]) + BitsOfByte(data[|data| - 1])
  }

  /** Feeding one bit. */
  function Feed(s: Word, bit: bool): Word {
    Round(s[15 := s[15] != bit])
  }

  function Run(s: Word, bits: seq<bool>): Word {
    if bits == [] then s else Feed(Run(s, bits[..|bits| - 1]), bits[|bits| - 1])
  }

  function Crc(data: seq<byte>): Word {
    Run(Ones(), BitsOfBytes(data))
  }

  // ---- The byte-wise loop computes it ----

  /** The first n of eight bits against the top of the register: what is left of them after n rounds. */
  function Place(bits: seq<bool>, n: nat): Word
    requires |bits| == 8 && n <= 8
  {
    seq(16, i requires 0 <= i < 16 => i >= 8 + n && bits[15 - i + n])
  }

  lemma PlaceRound(s: Word, bits: seq<bool>, n: nat)
    requires |bits| == 8 && n < 8
    ensures Round(XorWord(s, Place(bits, n))) == XorWord(Feed(s, bits[n]), Place(bits, n + 1))
  {
    var u, v := Round(XorWord(s, Place(bits, n))), XorWord(Feed(s, bits[n]), Place(bits, n + 1));
    forall i | 0 <= i < 16 ensures u[i] == v[i] {
    }
  }

  lemma {:induction false} RunAppend(s: Word, a: seq<bool>, b: seq<bool>)
    ensures Run(s, a + b) == Run(Run(s, a), b)
    decreases |b|
  {
    if b == [] {
      assert a + b == a;
    } else {
      var n := |b| - 1;
      RunAppend(s, a, b[..n]);
      assert (a + b)[..|a + b| - 1] == a + b[..n];
    }
  }

  /** The eight rounds of the inner loop feed in the eight bits of a byte. */
  method FeedByte(start: Word, b: byte) returns (crc: Word)
    ensures crc == Run(start, BitsOfByte(b))
  {
    var bits := BitsOfByte(b);
    crc := XorWord(start, Place(bits, 0));
    for n := 0 to 8
      invariant crc == XorWord(Run(start, bits[..n]), Place(bits, n))
    {
      PlaceRound(Run(start, bits[..n]), bits, n);
      assert bits[..n + 1][..n] == bits[..n];
      crc := Round(crc);
    }
    assert bits[..8] == bits;
    PlaceNothing(Run(start, bits), bits);
  }

  lemma PlaceNothing(s: Word, bits: seq<bool>)
    requires |bits| == 8
    ensures XorWord(s, Place(bits, 8)) == s
  {
  }

  lemma CrcOneMore(data: seq<byte>, i: nat)
    requires i < |data|
    ensures Crc(data[..i + 1]) == Run(Crc(data[..i]), BitsOfByte(data[i]))
  {
    assert data[..i + 1][..i] == data[..i];
    RunAppend(Ones(), BitsOfBytes(data[..i]), BitsOfByte(data[i]));
  }

  method Crc16(data: seq<byte>) returns (crc: Word)
    ensures crc == Crc(data)
  {
    crc := Ones();
    assert data[..0] == [];
    for i := 0 to |data|
      invariant crc == Crc(data[..i])
    {
      crc := FeedByte(crc, data[i]);
      CrcOneMore(data, i);
    }
    assert data[..|data|] == data;
  }

  // ---- Linearity ----

  function XorBits(a: seq<bool>, b: seq<bool>): (c: seq<bool>)
    requires |a| == |b|
  {
    seq(|a|, i requires 0 <= i < |a| => a[i] != b[i])
  }

  lemma FeedLinear(s: Word, t: Word, p: bool, q: bool)
    ensures Feed(XorWord(s, t), p != q) == XorWord(Feed(s, p), Feed(t, q))
  {
    var u, v := Feed(XorWord(s, t), p != q), XorWord(Feed(s, p), Feed(t, q));
    forall i | 0 <= i < 16 ensures u[i] == v[i] {
    }
  }

  lemma {:induction false} RunLinear(s: Word, t: Word, a: seq<bool>, b: seq<bool>)
    requires |a| == |b|
    ensures Run(XorWord(s, t), XorBits(a, b)) == XorWord(Run(s, a), Run(t, b))
    decreases |a|
  {
    if a != [] {
      var n := |a| - 1;
      RunLinear(s, t, a[..n], b[..n]);
      assert XorBits(a, b)[..n] == XorBits(a[..n], b[..n]);
      FeedLinear(Run(s, a[..n]), Run(t, b[..n]), a[n], b[n]);
    }
  }

  lemma FeedInjective(s: Word, t: Word, bit: bool)
    requires Feed(s, bit) == Feed(t, bit)
    ensures s == t
  {
    var u, v := Feed(s, bit), Feed(t, bit);
    assert u[0] == (s[15] != bit) && v[0] == (t[15] != bit);
    forall i | 0 <= i < 15 ensures s[i] == t[i] {
      assert u[i + 1] == v[i + 1];
    }
  }

  lemma {:induction false} RunInjective(s: Word, t: Word, bits: seq<bool>)
    requires Run(s, bits) == Run(t, bits)
    ensures s == t
    decreases |bits|
  {
    if bits != [] {
      var n := |bits| - 1;
      FeedInjective(Run(s, bits[..n]), Run(t, bits[..n]), bits[n]);
      RunInjective(s, t, bits[..n]);
    }
  }

  // ---- Reaching zero ----

  /** The top |bits| bits of s are the given ones, the first on top, and the rest are zero. */
  ghost predicate Spells(s: Word, bits: seq<bool>)
    requires |bits| <= 16
  {
    forall i :: 0 <= i < 16 ==> s[i] == (i >= 16 - |bits| && bits[15 - i])
  }

  lemma SpellsFeed(s: Word, bits: seq<bool>)
    requires 0 < |bits| <= 16
    ensures Spells(s, bits) <==> Spells(Feed(s, bits[0]), bits[1..])
  {
    var u := Feed(s, bits[0]);
    if Spells(s, bits) {
      assert s[15] == bits[0];
      forall i | 0 <= i < 16 ensures u[i] == (i >= 16 - |bits[1..]| && bits[1..][15 - i]) {
      }
    }
    if Spells(u, bits[1..]) {
      assert u[0] == (s[15] != bits[0]);
      assert !u[0];
      forall i | 0 <= i < 15 ensures s[i] == (i >= 16 - |bits| && bits[15 - i]) {
        assert u[i + 1] == s[i];
      }
    }
  }

  /**
    With at most 16 bits to go, the register ends at zero exactly when those bits are its own top
    bits, above zeros.
   */
  lemma {:induction false} ZeroIffSpelled(s: Word, bits: seq<bool>)
    requires |bits| <= 16
    ensures Run(s, bits) == Zero() <==> Spells(s, bits)
    decreases |bits|
  {
    if bits != [] {
      RunFirst(s, bits);
      SpellsFeed(s, bits);
      ZeroIffSpelled(Feed(s, bits[0]), bits[1..]);
    }
  }

  lemma RunFirst(s: Word, bits: seq<bool>)
    requires bits != []
    ensures Run(s, bits) == Run(Feed(s, bits[0]), bits[1..])
  {
    RunAppend(s, bits[..1], bits[1..]);
    assert bits == bits[..1] + bits[1..] && bits[..1][..0] == [];
  }

  // ---- Bursts ----

  lemma XorWordZero(s: Word, t: Word)
    ensures XorWord(s, t) == Zero() <==> s == t
  {
    if XorWord(s, t) == Zero() {
      forall i | 0 <= i < 16 ensures s[i] == t[i] {
        assert !XorWord(s, t)[i];
      }
    }
  }

  /** From zero, at most 16 bits that are not all zero do not lead back to zero. */
  lemma ShortNonZeroRun(d: seq<bool>)
    requires |d| <= 16 && Run(Zero(), d) == Zero()
    ensures forall i :: 0 <= i < |d| ==> !d[i]
  {
    ZeroIffSpelled(Zero(), d);
    forall i | 0 <= i < |d| ensures !d[i] {
      assert Zero()[15 - i] == d[i];
    }
  }

  /** Two different windows of at most 16 bits drive the register apart, and nothing that follows brings it together. */
  lemma BurstDetected(s: Word, before: seq<bool>, a: seq<bool>, b: seq<bool>, after: seq<bool>)
    requires |a| == |b| <= 16 && a != b
    ensures Run(s, before + a + after) != Run(s, before + b + after)
  {
    var t := Run(s, before);
    RunAppend(s, before + a, after);
    RunAppend(s, before + b, after);
    RunAppend(s, before, a);
    RunAppend(s, before, b);
    if Run(Run(t, a), after) == Run(Run(t, b), after) {
      RunInjective(Run(t, a), Run(t, b), after);
      RunLinear(t, t, a, b);
      XorWordZero(t, t);
      XorWordZero(Run(t, a), Run(t, b));
      ShortNonZeroRun(XorBits(a, b));
      assert forall i :: 0 <= i < |a| ==> XorBits(a, b)[i] == (a[i] != b[i]);
    }
  }

  // ---- Odd numbers of errors ----

  function Parity(bits: seq<bool>): bool {
    if bits == [] then false else Parity(bits[..|bits| - 1]) != bits[|bits| - 1]
  }

  lemma {:induction false} ParityXor(a: seq<bool>, b: seq<bool>)
    requires |a| == |b|
    ensures Parity(XorBits(a, b)) == (Parity(a) != Parity(b))
    decreases |a|
  {
    if a != [] {
      var n := |a| - 1;
      ParityXor(a[..n], b[..n]);
      assert XorBits(a, b)[..n] == XorBits(a[..n], b[..n]);
    }
  }

  lemma {:induction false} ParityShift(s: seq<bool>, u: seq<bool>)
    requires |u| == |s| + 1 && !u[0] && forall i :: 0 <= i < |s| ==> u[i + 1] == s[i]
    ensures Parity(u) == Parity(s)
    decreases |s|
  {
    if s != [] {
      ParityShift(s[..|s| - 1], u[..|s|]);
    } else {
      assert u[..0] == [];
    }
  }

  lemma ParityOfPolynomial()
    ensures Parity(Polynomial())
  {
    var p := Polynomial();
    ParityFalse(p[..5], 1);
    assert Parity(p[..6]) == (Parity(p[..5]) != p[5]) by { assert p[..6][..5] == p[..5]; }
    ParityExtend(p, 6, 12);
    assert p[..13][..12] == p[..12];
    ParityExtend(p, 13, 16);
    assert p[..16] == p;
  }

  lemma {:induction false} ParityExtend(p: seq<bool>, i: nat, j: nat)
    requires i <= j <= |p| && forall k :: i <= k < j ==> !p[k]
    ensures Parity(p[..j]) == Parity(p[..i])
    decreases j
  {
    if i < j {
      ParityExtend(p, i, j - 1);
      assert p[..j][..j - 1] == p[..j - 1];
    }
  }

  lemma ParityFalse(p: seq<bool>, n: nat)
    requires |p| == 5 && n == 1 && p[0] && forall k :: 1 <= k < 5 ==> !p[k]
    ensures Parity(p)
  {
    ParityExtend(p, 1, 5);
    assert p[..5] == p && p[..1] == [true] && [true][..0] == [];
  }

  /** The polynomial has an even number of terms, counting the leading one, so a round keeps the parity. */
  lemma RoundKeepsParity(s: Word)
    ensures Parity(Round(s)) == Parity(s)
  {
    var u := ShiftWord(s);
    ParityShift(s[..15], u);
    assert Parity(s) == (Parity(s[..15]) != s[15]);
    if s[15] {
      assert XorWord(u, Polynomial()) == XorBits(u, Polynomial());
      ParityXor(u, Polynomial());
      ParityOfPolynomial();
    }
  }

  lemma FeedParity(s: Word, bit: bool)
    ensures Parity(Feed(s, bit)) == (Parity(s) != bit)
  {
    var t := s[15 := s[15] != bit];
    assert t[..15] == s[..15];
    RoundKeepsParity(t);
  }

  lemma {:induction false} RunParity(s: Word, bits: seq<bool>)
    ensures Parity(Run(s, bits)) == (Parity(s) != Parity(bits))
    decreases |bits|
  {
    if bits != [] {
      var n := |bits| - 1;
      RunParity(s, bits[..n]);
      FeedParity(Run(s, bits[..n]), bits[n]);
    }
  }

  /** Bit strings that differ in an odd number of places leave the register in different states. */
  lemma OddErrorsDetected(s: Word, a: seq<bool>, b: seq<bool>)
    requires |a| == |b| && Parity(XorBits(a, b))
    ensures Run(s, a) != Run(s, b)
  {
    RunParity(s, a);
    RunParity(s, b);
    ParityXor(a, b);
  }
}
