/**
  Bytes, and their eight bits.

  A byte is a number below 256. Where the source shifts and exclusive-ors bytes, they are taken
  apart into an `Octet` of eight bits, most significant first; ToOctet and ToByte are inverse.
 */
module Bits {

  type byte = i: int | 0 <= i < 256

  function Zeros(n: nat): seq<byte> {
    seq(n, _ => 0)
  }

  datatype Octet = Octet(b7: bool, b6: bool, b5: bool, b4: bool, b3: bool, b2: bool, b1: bool, b0: bool)

  const ZERO := Octet(false, false, false, false, false, false, false, false)
  const ONE := Octet(false, false, false, false, false, false, false, true)

  function Xor(a: Octet, b: Octet): Octet {
    Octet(a.b7 != b.b7, a.b6 != b.b6, a.b5 != b.b5, a.b4 != b.b4, a.b3 != b.b3, a.b2 != b.b2, a.b1 != b.b1,
          a.b0 != b.b0)
  }

  /** Shift left by one place; the top bit is lost. */
  function ShiftLeft(a: Octet): Octet {
    Octet(a.b6, a.b5, a.b4, a.b3, a.b2, a.b1, a.b0, false)
  }

  lemma XorAssoc(a: Octet, b: Octet, c: Octet)
    ensures Xor(a, Xor(b, c)) == Xor(Xor(a, b), c)
  {
  }

  lemma XorComm(a: Octet, b: Octet)
    ensures Xor(a, b) == Xor(b, a)
  {
  }

  lemma XorZero(a: Octet)
    ensures Xor(a, ZERO) == a && Xor(ZERO, a) == a && Xor(a, a) == ZERO
  {
  }

  function Value(bit: bool): nat {
    if bit then 1 else 0
  }

  function Nibble(p: bool, q: bool, r: bool, s: bool): (n: nat)
    ensures n < 16
  {
    8 * Value(p) + 4 * Value(q) + 2 * Value(r) + Value(s)
  }

  function ToByte(o: Octet): byte {
    16 * Nibble(o.b7, o.b6, o.b5, o.b4) + Nibble(o.b3, o.b2, o.b1, o.b0)
  }

  /** The octet whose value is b. */
  function ToOctet(b: byte): (o: Octet)
    ensures ToByte(o) == b
  {
    ByteHasOctet(b);
    var o :| ToByte(o) == b;
    o
  }

  lemma NibbleInjective(p: bool, q: bool, r: bool, s: bool, p': bool, q': bool, r': bool, s': bool)
    requires Nibble(p, q, r, s) == Nibble(p', q', r', s')
    ensures p == p' && q == q' && r == r' && s == s'
  {
    assert s == s';
    assert r == r';
  }

  lemma SameHalves(x: nat, y: nat, x': nat, y': nat)
    requires y < 16 && y' < 16 && 16 * x + y == 16 * x' + y'
    ensures x == x' && y == y'
  {
  }

  lemma NibblesOfByte(a: Octet, b: Octet)
    requires ToByte(a) == ToByte(b)
    ensures Nibble(a.b7, a.b6, a.b5, a.b4) == Nibble(b.b7, b.b6, b.b5, b.b4)
    ensures Nibble(a.b3, a.b2, a.b1, a.b0) == Nibble(b.b3, b.b2, b.b1, b.b0)
  {
    SameHalves(Nibble(a.b7, a.b6, a.b5, a.b4), Nibble(a.b3, a.b2, a.b1, a.b0),
               Nibble(b.b7, b.b6, b.b5, b.b4), Nibble(b.b3, b.b2, b.b1, b.b0));
  }

  lemma ToByteInjective(a: Octet, b: Octet)
    requires ToByte(a) == ToByte(b)
    ensures a == b
  {
    NibblesOfByte(a, b);
    NibbleInjective(a.b7, a.b6, a.b5, a.b4, b.b7, b.b6, b.b5, b.b4);
    NibbleInjective(a.b3, a.b2, a.b1, a.b0, b.b3, b.b2, b.b1, b.b0);
  }

  lemma NibbleOf(n: nat) returns (p: bool, q: bool, r: bool, s: bool)
    requires n < 16
    ensures Nibble(p, q, r, s) == n
  {
    p, q, r, s := n >= 8, n % 8 >= 4, n % 4 >= 2, n % 2 >= 1;
  }

  lemma ByteHasOctet(b: byte)
    ensures exists o :: ToByte(o) == b
    ensures forall o, p :: ToByte(o) == b && ToByte(p) == b ==> o == p
  {
    var b7, b6, b5, b4 := NibbleOf(b / 16);
    var b3, b2, b1, b0 := NibbleOf(b % 16);
    assert ToByte(Octet(b7, b6, b5, b4, b3, b2, b1, b0)) == b;
    forall o, p | ToByte(o) == b && ToByte(p) == b ensures o == p {
      ToByteInjective(o, p);
    }
  }

  lemma ToByteToOctet(o: Octet)
    ensures ToOctet(ToByte(o)) == o
  {
    ToByteInjective(ToOctet(ToByte(o)), o);
  }
}
