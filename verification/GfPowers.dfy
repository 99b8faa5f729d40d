/**
  Powers of x modulo 0x11d, on octets: the step of the exponential table, and the one identity
  between powers that determines the order of x.
 */
module GfPowers {
  import opened Bits

  /** The product with x, modulo 0x11d. */
  function TimesXOctet(a: Octet): Octet {
    Octet(a.b6, a.b5, a.b4, a.b3 != a.b7, a.b2 != a.b7, a.b1 != a.b7, a.b0, a.b7)
  }

  lemma TimesXOctetLinear(a: Octet, b: Octet)
    ensures TimesXOctet(Xor(a, b)) == Xor(TimesXOctet(a), TimesXOctet(b))
  {
  }

  lemma TimesXOctetInjective(a: Octet, b: Octet)
    requires TimesXOctet(a) == TimesXOctet(b)
    ensures a == b
  {
  }

  /** The low eight bits of 0x11d. */
  const REDUCTION := Octet(false, false, false, true, true, true, false, true)

  lemma TimesXOctetIsShift(a: Octet)
    ensures TimesXOctet(a) == if a.b7 then Xor(ShiftLeft(a), REDUCTION) else ShiftLeft(a)
  {
  }

  function Power(i: nat): Octet {
    if i == 0 then ONE else TimesXOctet(Power(i - 1))
  }

  function TimesX5(a: Octet): Octet {
    TimesXOctet(TimesXOctet(TimesXOctet(TimesXOctet(TimesXOctet(a)))))
  }

  lemma PowerPlus5(i: nat, o: Octet, r: Octet)
    requires Power(i) == o && TimesX5(o) == r
    ensures Power(i + 5) == r
  {
    assert Power(i + 2) == TimesXOctet(TimesXOctet(o));
    assert Power(i + 4) == TimesXOctet(TimesXOctet(Power(i + 2)));
  }

  lemma PowersFrom0To15(i: nat)
    requires Power(i) == ONE
    ensures Power(i + 15) == Octet(false, false, true, false, false, true, true, false)
  {
    PowerPlus5(i + 0, ONE, Octet(false, false, true, false, false, false, false, false));
    PowerPlus5(i + 5, Octet(false, false, true, false, false, false, false, false),
               Octet(false, true, true, true, false, true, false, false));
    PowerPlus5(i + 10, Octet(false, true, true, true, false, true, false, false),
               Octet(false, false, true, false, false, true, true, false));
  }

  lemma PowersFrom15To30(i: nat)
    requires Power(i) == Octet(false, false, true, false, false, true, true, false)
    ensures Power(i + 15) == Octet(false, true, true, false, false, false, false, false)
  {
    PowerPlus5(i + 0, Octet(false, false, true, false, false, true, true, false),
               Octet(true, false, true, true, false, true, false, false));
    PowerPlus5(i + 5, Octet(true, false, true, true, false, true, false, false),
               Octet(false, false, false, false, false, false, true, true));
    PowerPlus5(i + 10, Octet(false, false, false, false, false, false, true, true),
               Octet(false, true, true, false, false, false, false, false));
  }

  lemma PowersFrom30To45(i: nat)
    requires Power(i) == Octet(false, true, true, false, false, false, false, false)
    ensures Power(i + 15) == Octet(true, true, false, false, false, false, false, true)
  {
    PowerPlus5(i + 0, Octet(false, true, true, false, false, false, false, false),
               Octet(true, false, false, true, true, true, false, false));
    PowerPlus5(i + 5, Octet(true, false, false, true, true, true, false, false),
               Octet(false, true, true, false, true, false, true, false));
    PowerPlus5(i + 10, Octet(false, true, true, false, true, false, true, false),
               Octet(true, true, false, false, false, false, false, true));
  }

  lemma PowersFrom45To60(i: nat)
    requires Power(i) == Octet(true, true, false, false, false, false, false, true)
    ensures Power(i + 15) == Octet(true, false, true, true, true, false, false, true)
  {
    PowerPlus5(i + 0, Octet(true, true, false, false, false, false, false, true),
               Octet(false, false, false, false, false, true, false, true));
    PowerPlus5(i + 5, Octet(false, false, false, false, false, true, false, true),
               Octet(true, false, true, false, false, false, false, false));
    PowerPlus5(i + 10, Octet(true, false, true, false, false, false, false, false),
               Octet(true, false, true, true, true, false, false, true));
  }

  lemma PowersFrom60To68(i: nat)
    requires Power(i) == Octet(true, false, true, true, true, false, false, true)
    ensures Power(i + 8) == Octet(true, false, false, true, true, false, false, true)
  {
    PowerPlus5(i, Octet(true, false, true, true, true, false, false, true),
               Octet(true, false, true, true, true, true, true, false));
    assert Power(i + 6) == Octet(false, true, true, false, false, false, false, true);
    assert Power(i + 7) == Octet(true, true, false, false, false, false, true, false);
  }

  /** With g = x^17: g^4 == g + 1; and x^15 != 1. The exponent is bounded, not given, so that no power is evaluated. */
  lemma SeventeenthPower(p: nat)
    requires 16 < p < 18
    ensures Power(4 * p) == Xor(Power(p), ONE)
    ensures Power(p - 2) != ONE
  {
    var i: nat := p - 17;
    PowersFrom0To15(i);
    PowersFrom15To30(i + 15);
    PowersFrom30To45(i + 30);
    PowersFrom45To60(i + 45);
    PowersFrom60To68(i + 60);
    assert Power(i + 16) == Octet(false, true, false, false, true, true, false, false);
    assert Power(i + 17) == Octet(true, false, false, true, true, false, false, false);
  }
}
