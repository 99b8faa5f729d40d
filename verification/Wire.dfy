/**
  Fixed-width integers on the wire, most significant byte first (`to_be_bytes` and
  `from_be_bytes` of the source's u16 and u32).
 */
module Wire {
  import opened Arithmetic
  import opened Bits

  const TWO_16 := 0x1_0000
  const TWO_32 := 0x1_0000_0000

  type u16 = i: int | 0 <= i < TWO_16
  type u32 = i: int | 0 <= i < TWO_32

  /** The low 16 bits of n: what a cast to u16 keeps. */
  function Be16(n: nat): seq<byte> {
    [n / 256 % 256, n % 256]
  }

  function FromBe16(hi: byte, lo: byte): (n: nat)
    ensures n < TWO_16
  {
    256 * hi + lo
  }

  function Be32(n: nat): seq<byte> {
    Be16(n / TWO_16) + Be16(n)
  }

  function FromBe32(a: byte, b: byte, c: byte, d: byte): (n: nat)
    ensures n < TWO_32
  {
    TWO_16 * FromBe16(a, b) + FromBe16(c, d)
  }

  /** Splitting off the low byte twice. */
  lemma LowBytes(n: nat, q: nat, r: nat, p: nat, s: nat)
    requires n == 256 * q + r && r < 256 && q == 256 * p + s && s < 256
    ensures n % TWO_16 == 256 * s + r
  {
    RemainderIs(n, TWO_16, p, 256 * s + r);
  }

  lemma Be16RoundTrip(n: nat)
    ensures FromBe16(Be16(n)[0], Be16(n)[1]) == n % TWO_16
  {
    var q := n / 256;
    LowBytes(n, q, n % 256, q / 256, q % 256);
  }

  lemma Be16Inverse(hi: byte, lo: byte)
    ensures Be16(FromBe16(hi, lo)) == [hi, lo]
  {
  }

  /** Two bytes spell n exactly if n is 256 times the first plus the second. */
  lemma Be16Iff(hi: byte, lo: byte, n: u16)
    ensures [hi, lo] == Be16(n) <==> n == hi as int * 256 + lo
  {
    if [hi, lo] == Be16(n) {
      var w := Be16(n);
      assert w[0] == hi && w[1] == lo;
      Be16RoundTrip(n);
      Small(n, TWO_16);
    }
    if n == hi as int * 256 + lo {
      Be16Inverse(hi, lo);
    }
  }

  /** The two bytes of a 16-bit number, the high one first. */
  lemma HighFirst(n: u16)
    ensures Be16(n) == [n / 256, n % 256]
  {
    Small(n / 256, 256);
  }

  /** Four bytes read as a number, the highest first. */
  predicate Spells32(a: byte, b: byte, c: byte, d: byte, n: nat) {
    n == a as int * 0x100_0000 + b as int * 0x1_0000 + c as int * 0x100 + d
  }

  lemma FromBe32Spells(a: byte, b: byte, c: byte, d: byte)
    ensures Spells32(a, b, c, d, FromBe32(a, b, c, d))
  {
  }

  lemma Small(n: nat, d: nat)
    requires n < d
    ensures n % d == n
  {
  }

  lemma LowHalves(n: nat, q: nat, r: nat, p: nat, s: nat)
    requires n == TWO_16 * q + r && r < TWO_16 && q == TWO_16 * p + s && s < TWO_16
    ensures n % TWO_32 == TWO_16 * s + r
  {
    RemainderIs(n, TWO_32, p, TWO_16 * s + r);
  }

  lemma Be32RoundTrip(n: nat)
    ensures var w := Be32(n); FromBe32(w[0], w[1], w[2], w[3]) == n % TWO_32
  {
    var q := n / TWO_16;
    Be16RoundTrip(q);
    Be16RoundTrip(n);
    LowHalves(n, q, n % TWO_16, q / TWO_16, q % TWO_16);
  }
}
