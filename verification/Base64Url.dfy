/**
  Base64url without padding (section 5 of RFC 4648), as tokens use it: three bytes become four
  characters, and the decoder refuses characters outside the alphabet, lengths one above a
  multiple of four, and left-over bits that are not zero. So every byte string has exactly one
  encoding, and the decoder accepts nothing else.
 */
module Base64Url {
  import opened Bits
  import opened Options

  type sextet = i: int | 0 <= i < 64

  // ---- Sextets and bytes ----

  function ToSextets(b: seq<byte>): seq<sextet> {
    if |b| == 0 then []
    else if |b| == 1 then [b[0] / 4, b[0] % 4 * 16]
    else if |b| == 2 then [b[0] / 4, b[0] % 4 * 16 + b[1] / 16, b[1] % 16 * 4]
    else [b[0] / 4, b[0] % 4 * 16 + b[1] / 16, b[1] % 16 * 4 + b[2] / 64, b[2] % 64] + ToSextets(b[3..])
  }

  function FirstByte(p: int, q: int): int {
    p * 4 + q / 16
  }

  function SecondByte(q: int, r: int): int {
    q % 16 * 16 + r / 4
  }

  function ThirdByte(r: int, t: int): int {
    r % 4 * 64 + t
  }

  function FromSextets(s: seq<sextet>): Option<seq<byte>> {
    if |s| == 0 then Some([])
    else if |s| == 1 then None
    else if |s| == 2 then (if s[1] % 16 != 0 then None else Some([FirstByte(s[0], s[1])]))
    else if |s| == 3 then (if s[2] % 4 != 0 then None else Some([FirstByte(s[0], s[1]), SecondByte(s[1], s[2])]))
    else
      match FromSextets(s[4..])
      case None => None
      case Some(rest) => Some([FirstByte(s[0], s[1]), SecondByte(s[1], s[2]), ThirdByte(s[2], s[3])] + rest)
  }

  lemma TripleRoundTrip(a: byte, b: byte, c: byte)
    ensures var p, q, r, t := a / 4, a % 4 * 16 + b / 16, b % 16 * 4 + c / 64, c % 64;
            FirstByte(p, q) == a && SecondByte(q, r) == b && ThirdByte(r, t) == c
  {
  }

  lemma QuadRoundTrip(p: sextet, q: sextet, r: sextet, t: sextet)
    ensures var a, b, c := FirstByte(p, q), SecondByte(q, r), ThirdByte(r, t);
            a / 4 == p && a % 4 * 16 + b / 16 == q && b % 16 * 4 + c / 64 == r && c % 64 == t
  {
  }

  lemma FromQuad(p: sextet, q: sextet, r: sextet, t: sextet, rest: seq<sextet>)
    ensures FromSextets([p, q, r, t] + rest) ==
            match FromSextets(rest)
            case None => None
            case Some(b) => Some([FirstByte(p, q), SecondByte(q, r), ThirdByte(r, t)] + b)
  {
    assert ([p, q, r, t] + rest)[4..] == rest;
  }

  lemma ToQuad(a: byte, b: byte, c: byte, rest: seq<byte>)
    ensures ToSextets([a, b, c] + rest) == [a / 4, a % 4 * 16 + b / 16, b % 16 * 4 + c / 64, c % 64] + ToSextets(rest)
  {
    assert ([a, b, c] + rest)[3..] == rest;
  }

  lemma FromTwo(p: sextet, q: sextet)
    ensures FromSextets([p, q]) == if q % 16 != 0 then None else Some([FirstByte(p, q)])
  {
  }

  lemma FromThree(p: sextet, q: sextet, r: sextet)
    ensures FromSextets([p, q, r]) == if r % 4 != 0 then None else Some([FirstByte(p, q), SecondByte(q, r)])
  {
  }

  lemma OneByteRoundTrip(a: byte)
    ensures FromSextets(ToSextets([a])) == Some([a])
  {
    assert ToSextets([a]) == [a / 4, a % 4 * 16];
    FromTwo(a / 4, a % 4 * 16);
    TripleRoundTrip(a, 0, 0);
  }

  lemma TwoByteRoundTrip(a: byte, b: byte)
    ensures FromSextets(ToSextets([a, b])) == Some([a, b])
  {
    assert ToSextets([a, b]) == [a / 4, a % 4 * 16 + b / 16, b % 16 * 4];
    FromThree(a / 4, a % 4 * 16 + b / 16, b % 16 * 4);
    TripleRoundTrip(a, b, 0);
  }

  lemma {:induction false} SextetsRoundTrip(b: seq<byte>)
    ensures FromSextets(ToSextets(b)) == Some(b)
    decreases |b|
  {
    if |b| == 1 {
      OneByteRoundTrip(b[0]);
      assert b == [b[0]];
    } else if |b| == 2 {
      TwoByteRoundTrip(b[0], b[1]);
      assert b == [b[0], b[1]];
    } else if |b| > 2 {
      var x, y, z, rest := b[0], b[1], b[2], b[3..];
      SextetsRoundTrip(rest);
      assert b == [x, y, z] + rest;
      ToQuad(x, y, z, rest);
      FromQuad(x / 4, x % 4 * 16 + y / 16, y % 16 * 4 + z / 64, z % 64, ToSextets(rest));
      TripleRoundTrip(x, y, z);
    }
  }

  lemma ShortCanonical(s: seq<sextet>)
    requires |s| < 4 && FromSextets(s).Some?
    ensures ToSextets(FromSextets(s).value) == s
  {
    if |s| == 2 {
      QuadRoundTrip(s[0], s[1], 0, 0);
    } else if |s| == 3 {
      QuadRoundTrip(s[0], s[1], s[2], 0);
    }
  }

  lemma {:induction false} SextetsCanonical(s: seq<sextet>)
    requires FromSextets(s).Some?
    ensures ToSextets(FromSextets(s).value) == s
    decreases |s|
  {
    if |s| < 4 {
      ShortCanonical(s);
    } else {
      var p, q, r, t, rest := s[0], s[1], s[2], s[3], s[4..];
      assert s == [p, q, r, t] + rest;
      FromQuad(p, q, r, t, rest);
      SextetsCanonical(rest);
      ToQuad(FirstByte(p, q), SecondByte(q, r), ThirdByte(r, t), FromSextets(rest).value);
      QuadRoundTrip(p, q, r, t);
    }
  }

  // ---- The alphabet ----

  function CharOf(v: sextet): char {
    if v < 26 then ('A' as int + v) as char
    else if v < 52 then ('a' as int + v - 26) as char
    else if v < 62 then ('0' as int + v - 52) as char
    else if v == 62 then '-' else '_'
  }

  predicate InAlphabet(c: char) {
    'A' <= c <= 'Z' || 'a' <= c <= 'z' || '0' <= c <= '9' || c == '-' || c == '_'
  }

  function ValueOf(c: char): sextet
    requires InAlphabet(c)
  {
    if 'A' <= c <= 'Z' then c as int - 'A' as int
    else if 'a' <= c <= 'z' then c as int - 'a' as int + 26
    else if '0' <= c <= '9' then c as int - '0' as int + 52
    else if c == '-' then 62 else 63
  }

  lemma AlphabetRoundTrip(v: sextet, c: char)
    ensures InAlphabet(CharOf(v)) && ValueOf(CharOf(v)) == v
    ensures InAlphabet(c) ==> CharOf(ValueOf(c)) == c
  {
  }

  // ---- Text ----

  function Encode(b: seq<byte>): string {
    var s := ToSextets(b);
    seq(|s|, i requires 0 <= i < |s| => CharOf(s[i]))
  }

  predicate AllInAlphabet(t: string) {
    forall i :: 0 <= i < |t| ==> InAlphabet(t[i])
  }

  function Values(t: string): (s: seq<sextet>)
    requires AllInAlphabet(t)
  {
    seq(|t|, i requires 0 <= i < |t| => ValueOf(t[i]))
  }

  function Decode(t: string): Option<seq<byte>> {
    if AllInAlphabet(t) then FromSextets(Values(t)) else None
  }

  lemma EncodedText(b: seq<byte>)
    ensures AllInAlphabet(Encode(b)) && Values(Encode(b)) == ToSextets(b) && '.' !in Encode(b)
  {
    var s, t := ToSextets(b), Encode(b);
    forall i | 0 <= i < |t| ensures InAlphabet(t[i]) && ValueOf(t[i]) == s[i] {
      AlphabetRoundTrip(s[i], t[i]);
    }
  }

  /** The decoder accepts a text exactly when it is an encoding, and then of what it returns. */
  lemma DecodeIffEncoded(t: string, b: seq<byte>)
    ensures Decode(t) == Some(b) <==> t == Encode(b)
  {
    if t == Encode(b) {
      EncodedText(b);
      SextetsRoundTrip(b);
    }
    if Decode(t) == Some(b) {
      SextetsCanonical(Values(t));
      var s := ToSextets(b);
      forall i | 0 <= i < |t| ensures CharOf(s[i]) == t[i] {
        AlphabetRoundTrip(s[i], t[i]);
      }
    }
  }

  // ---- What the characters say ----

  const UPPER := "ABCDEFGHIJKLMNOPQRSTUVWXYZ"
  const LOWER := "abcdefghijklmnopqrstuvwxyz"
  const DIGITS := "0123456789"
  const ALPHABET := UPPER + LOWER + DIGITS + "-_"

  ghost predicate Runs(s: string, first: char) {
    forall i :: 0 <= i < |s| ==> s[i] as int == first as int + i
  }

  lemma UpperRuns()
    ensures |UPPER| == 26 && Runs(UPPER, 'A')
  {
  }

  lemma LowerRuns()
    ensures |LOWER| == 26 && Runs(LOWER, 'a')
  {
  }

  lemma DigitsRun()
    ensures |DIGITS| == 10 && Runs(DIGITS, '0')
  {
  }

  lemma AlphabetAt(v: sextet)
    ensures |ALPHABET| == 64 && CharOf(v) == ALPHABET[v]
  {
    UpperRuns();
    LowerRuns();
    DigitsRun();
  }

  /** Byte i, and zero from the end on. */
  function ByteAt(b: seq<byte>, i: nat): byte {
    if i < |b| then b[i] else 0
  }

  lemma GroupValue(x: byte, y: byte, z: byte)
    ensures var p, q, r, t := x / 4, x % 4 * 16 + y / 16, y % 16 * 4 + z / 64, z % 64;
            ((x as int * 256) + y) * 256 + z == ((p * 64 + q) * 64 + r) * 64 + t
  {
  }

  /** How many bytes group i has. */
  function GroupSize(b: seq<byte>, i: nat): nat
    requires 3 * i < |b|
  {
    if |b| - 3 * i < 3 then |b| - 3 * i else 3
  }

  /** Digits to the base 64 that spell bytes 3i to 3i + 2. */
  ghost predicate SpellsGroup(b: seq<byte>, i: nat, v: seq<sextet>) {
    |v| == 4 &&
    ((ByteAt(b, 3 * i) as int * 256) + ByteAt(b, 3 * i + 1)) * 256 + ByteAt(b, 3 * i + 2) ==
      ((v[0] as int * 64 + v[1]) * 64 + v[2]) * 64 + v[3]
  }

  /** The sextets s of a text have them at 4i: one more than bytes, and in the last group no more than that. */
  ghost predicate HasGroup(s: seq<sextet>, b: seq<byte>, i: nat, v: seq<sextet>)
    requires 3 * i < |b|
  {
    var n := GroupSize(b, i);
    && |v| == 4 && 4 * i + n + 1 <= |s| && (n < 3 ==> |s| == 4 * i + n + 1)
    && forall j :: 0 <= j <= n ==> s[4 * i + j] == v[j]
  }

  lemma FirstGroup(b: seq<byte>) returns (v: seq<sextet>)
    requires b != []
    ensures SpellsGroup(b, 0, v) && HasGroup(ToSextets(b), b, 0, v)
  {
    var x, y, z := ByteAt(b, 0), ByteAt(b, 1), ByteAt(b, 2);
    v := [x / 4, x % 4 * 16 + y / 16, y % 16 * 4 + z / 64, z % 64];
    GroupValue(x, y, z);
  }

  lemma GroupLater(b: seq<byte>, i: nat, v: seq<sextet>, s: seq<sextet>, t: seq<sextet>)
    requires 0 < i && 3 * i < |b| && |s| == |t| + 4 && (forall j :: 0 <= j < |t| ==> s[j + 4] == t[j])
    requires HasGroup(t, b[3..], i - 1, v)
    ensures HasGroup(s, b, i, v)
  {
    forall j | 0 <= j <= GroupSize(b, i) ensures s[4 * i + j] == v[j] {
      assert t[4 * (i - 1) + j] == v[j];
      assert s[4 * (i - 1) + j + 4] == v[j];
    }
  }

  lemma SpellsLater(b: seq<byte>, i: nat, v: seq<sextet>)
    requires 0 < i && 3 * i < |b| && SpellsGroup(b[3..], i - 1, v)
    ensures SpellsGroup(b, i, v)
  {
    assert ByteAt(b[3..], 3 * (i - 1)) == ByteAt(b, 3 * i);
    assert ByteAt(b[3..], 3 * (i - 1) + 1) == ByteAt(b, 3 * i + 1);
    assert ByteAt(b[3..], 3 * (i - 1) + 2) == ByteAt(b, 3 * i + 2);
  }

  lemma SextetsLater(b: seq<byte>)
    requires |b| > 3
    ensures var s, t := ToSextets(b), ToSextets(b[3..]);
            |s| == |t| + 4 && forall j :: 0 <= j < |t| ==> s[j + 4] == t[j]
  {
    var x, y, z, rest := b[0], b[1], b[2], b[3..];
    assert b == [x, y, z] + rest;
    ToQuad(x, y, z, rest);
    Behind([x / 4, x % 4 * 16 + y / 16, y % 16 * 4 + z / 64, z % 64], ToSextets(rest));
  }

  lemma Behind(q: seq<sextet>, t: seq<sextet>)
    requires |q| == 4
    ensures |q + t| == |t| + 4 && forall j :: 0 <= j < |t| ==> (q + t)[j + 4] == t[j]
  {
  }

  lemma GroupStep(b: seq<byte>, i: nat, v: seq<sextet>, rest: seq<byte>)
    requires 0 < i && 3 * i < |b| && rest == b[3..]
    requires SpellsGroup(rest, i - 1, v) && HasGroup(ToSextets(rest), rest, i - 1, v)
    ensures SpellsGroup(b, i, v) && HasGroup(ToSextets(b), b, i, v)
  {
    SpellsLater(b, i, v);
    SextetsLater(b);
    GroupLater(b, i, v, ToSextets(b), ToSextets(rest));
  }

  lemma {:induction false} SextetGroup(b: seq<byte>, i: nat) returns (v: seq<sextet>)
    requires 3 * i < |b|
    ensures SpellsGroup(b, i, v) && HasGroup(ToSextets(b), b, i, v)
    decreases i
  {
    if i == 0 {
      v := FirstGroup(b);
    } else {
      var rest := b[3..];
      v := SextetGroup(rest, i - 1);
      GroupStep(b, i, v, rest);
    }
  }

  /**
    Characters 4i to 4i + 3 of an encoding, as digits of the alphabet, spell bytes 3i to 3i + 2 to the
    base 64; the last group has one more character than bytes, and zeros for the bytes it lacks.
   */
  lemma EncodedGroup(b: seq<byte>, i: nat) returns (v: seq<sextet>)
    requires 3 * i < |b|
    ensures SpellsGroup(b, i, v)
    ensures var n := GroupSize(b, i);
            && 4 * i + n + 1 <= |Encode(b)| && (n < 3 ==> |Encode(b)| == 4 * i + n + 1)
            && forall j :: 0 <= j <= n ==> Encode(b)[4 * i + j] == ALPHABET[v[j]]
  {
    v := SextetGroup(b, i);
    forall j | 0 <= j <= GroupSize(b, i) ensures Encode(b)[4 * i + j] == ALPHABET[v[j]] {
      AlphabetAt(v[j]);
    }
  }
}
