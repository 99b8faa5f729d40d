/**
  The ICMP tunnel (core-supervisor/src/icmp_tunnel.rs): frames [magic][seq][len][data][crc], two
  bytes each and most significant byte first, around the data, and the session that numbers them.
 */
module Icmp {
  import opened Bits
  import opened Crc16
  import opened Wire
  import TwoBitErrors

  datatype Error = Truncated | BadMagic | CrcMismatch
  datatype Result<T> = Ok(value: T) | Err(error: Error)

  const MAGIC: u16 := 0xAE11

  // ---- Words as two bytes ----

  function ByteFrom(bits: seq<bool>): byte
    requires |bits| == 8
  {
    ToByte(Octet(bits[0], bits[1], bits[2], bits[3], bits[4], bits[5], bits[6], bits[7]))
  }

  lemma ByteFromBits(bits: seq<bool>)
    requires |bits| == 8
    ensures BitsOfByte(ByteFrom(bits)) == bits
  {
    ToByteToOctet(Octet(bits[0], bits[1], bits[2], bits[3], bits[4], bits[5], bits[6], bits[7]));
  }

  function PairBits(hi: byte, lo: byte): (w: seq<bool>)
    ensures |w| == 16
  {
    BitsOfByte(hi) + BitsOfByte(lo)
  }

  /** The bits of a word, or a word from its bits: the same reversal. */
  function Reversed(bits: seq<bool>): Word
    requires |bits| == 16
  {
    seq(16, i requires 0 <= i < 16 => bits[15 - i])
  }

  function WordBytes(s: Word): seq<byte> {
    [ByteFrom(Reversed(s)[..8]), ByteFrom(Reversed(s)[8..])]
  }

  function WordFrom(hi: byte, lo: byte): Word {
    Reversed(PairBits(hi, lo))
  }

  lemma WordRoundTrip(s: Word)
    ensures WordFrom(WordBytes(s)[0], WordBytes(s)[1]) == s
  {
    var r := Reversed(s);
    ByteFromBits(r[..8]);
    ByteFromBits(r[8..]);
    assert r[..8] + r[8..] == r && Reversed(r) == s;
  }

  lemma WordSpells(s: Word, hi: byte, lo: byte)
    ensures s == WordFrom(hi, lo) <==> Spells(s, PairBits(hi, lo))
  {
    var bits := PairBits(hi, lo);
    if Spells(s, bits) {
      assert s == Reversed(bits);
    }
  }

  // ---- Frames ----

  ghost predicate HasHeader(payload: seq<byte>, number: u16, len: nat) {
    && 6 <= |payload|
    && FromBe16(payload[0], payload[1]) == MAGIC
    && FromBe16(payload[2], payload[3]) == number
    && FromBe16(payload[4], payload[5]) == len
  }

  /** f is the data behind a header and before its checksum; the length field is cut to 16 bits. */
  ghost predicate IsFrame(f: seq<byte>, number: u16, data: seq<byte>) {
    && |f| == |data| + 8 && HasHeader(f, number, |data| % TWO_16)
    && f[6..6 + |data|] == data && f[6 + |data|..] == WordBytes(Crc(data))
  }

  method EncodePayload(number: u16, data: seq<byte>) returns (out: seq<byte>)
    ensures IsFrame(out, number, data)
  {
    out := Be16(MAGIC);
    out := out + Be16(number);
    out := out + Be16(|data|);
    out := out + data;
    var crc := Crc16.Crc16(data);
    out := out + WordBytes(crc);
    EncodedIsFrame(number, data, Be16(MAGIC), Be16(number), Be16(|data|), WordBytes(crc));
  }

  lemma EncodedIsFrame(number: u16, data: seq<byte>, m: seq<byte>, n: seq<byte>, l: seq<byte>, c: seq<byte>)
    requires m == Be16(MAGIC) && n == Be16(number) && l == Be16(|data|) && c == WordBytes(Crc(data))
    ensures IsFrame(m + n + l + data + c, number, data)
  {
    HeaderLayout(m, n, l, data, c);
    Be16Reads(m, MAGIC);
    Be16Reads(n, number);
    Be16RoundTrip(|data|);
  }

  lemma Be16Reads(w: seq<byte>, n: u16)
    requires w == Be16(n)
    ensures |w| == 2 && FromBe16(w[0], w[1]) == n
  {
    Be16RoundTrip(n);
    Fits(n);
  }

  lemma HeaderLayout(magic: seq<byte>, number: seq<byte>, len: seq<byte>, data: seq<byte>, crc: seq<byte>)
    requires |magic| == |number| == |len| == |crc| == 2
    ensures var f := magic + number + len + data + crc;
            && f[0] == magic[0] && f[1] == magic[1] && f[2] == number[0] && f[3] == number[1]
            && f[4] == len[0] && f[5] == len[1] && f[6..6 + |data|] == data && f[6 + |data|..] == crc
  {
  }

  function DecodePayload(payload: seq<byte>): Result<(u16, seq<byte>)> {
    if |payload| < 8 then Err(Truncated)
    else if FromBe16(payload[0], payload[1]) != MAGIC then Err(BadMagic)
    else
      var number := FromBe16(payload[2], payload[3]);
      var len := FromBe16(payload[4], payload[5]);
      if |payload| < 6 + len + 2 then Err(Truncated)
      else
        var data := payload[6..6 + len];
        if WordFrom(payload[6 + len], payload[6 + len + 1]) != Crc(data) then Err(CrcMismatch)
        else Ok((number, data))
  }

  /** What the decoder makes of a payload whose header says the data is `len` bytes long. */
  lemma DecodeParsed(payload: seq<byte>, number: u16, len: nat)
    requires HasHeader(payload, number, len) && |payload| >= len + 8
    ensures DecodePayload(payload) ==
            if WordFrom(payload[6 + len], payload[6 + len + 1]) == Crc(payload[6..6 + len])
            then Ok((number, payload[6..6 + len])) else Err(CrcMismatch)
  {
  }

  lemma DecodedLength(payload: seq<byte>)
    requires DecodePayload(payload).Ok?
    ensures |DecodePayload(payload).value.1| < TWO_16
  {
  }

  lemma FrameDecodes(f: seq<byte>, number: u16, data: seq<byte>)
    requires |f| == |data| + 8 && HasHeader(f, number, |data|)
    requires f[6..6 + |data|] == data && f[6 + |data|..] == WordBytes(Crc(data))
    ensures DecodePayload(f) == Ok((number, data))
  {
    var n := |data|;
    WordRoundTrip(Crc(data));
    assert f[6 + n..][0] == f[6 + n] && f[6 + n..][1] == f[6 + n + 1];
    DecodeParsed(f, number, n);
  }

  lemma Fits(n: nat)
    requires n < TWO_16
    ensures n % TWO_16 == n
  {
  }

  /** A frame decodes to what was put in it exactly when the length field can hold the length. */
  lemma RoundTrip(f: seq<byte>, number: u16, data: seq<byte>)
    requires IsFrame(f, number, data)
    ensures DecodePayload(f) == Ok((number, data)) <==> |data| < TWO_16
  {
    if |data| < TWO_16 {
      Fits(|data|);
      FrameDecodes(f, number, data);
    } else if DecodePayload(f).Ok? {
      DecodedLength(f);
    }
  }

  // ---- On the bytes ----

  /** What the frame of some data consists of: magic, number and length with the high byte first, data, checksum. */
  lemma FrameBytes(f: seq<byte>, number: u16, data: seq<byte>)
    requires IsFrame(f, number, data)
    ensures f[0] == 0xAE && f[1] == 0x11
    ensures f[2] as int * 256 + f[3] == number && f[4] as int * 256 + f[5] == |data| % 0x1_0000
    ensures f[6..] == data + WordBytes(Crc(data))
  {
    assert f[6..] == f[6..6 + |data|] + f[6 + |data|..];
    MagicBytes(f[0], f[1]);
  }

  lemma MagicBytes(hi: byte, lo: byte)
    ensures FromBe16(hi, lo) == MAGIC <==> hi == 0xAE && lo == 0x11
  {
  }

  /** The frame without data. */
  lemma EmptyFrame(f: seq<byte>, number: u16)
    requires IsFrame(f, number, [])
    ensures f == [0xAE, 0x11, number / 256, number % 256, 0, 0, 0xFF, 0xFF]
  {
    FrameBytes(f, number, []);
    OnesBytes();
    assert f[6..][0] == f[6] && f[6..][1] == f[7];
    Be16Inverse(f[2], f[3]);
  }

  lemma OnesBytes()
    ensures WordBytes(Crc([])) == [0xFF, 0xFF]
  {
    var r := Reversed(Ones());
    assert Crc([]) == Ones();
    AllOnes(r[..8]);
    AllOnes(r[8..]);
  }

  lemma AllOnes(bits: seq<bool>)
    requires |bits| == 8 && forall i :: 0 <= i < 8 ==> bits[i]
    ensures ByteFrom(bits) == 0xFF
  {
  }

  /** The length a payload's header states. */
  function StatedLength(payload: seq<byte>): nat
    requires |payload| >= 6
  {
    payload[4] as int * 256 + payload[5]
  }

  /** When each error is returned, for every payload. */
  lemma DecodeErrors(payload: seq<byte>)
    ensures DecodePayload(payload) == Err(BadMagic) <==>
            |payload| >= 8 && (payload[0] != 0xAE || payload[1] != 0x11)
    ensures DecodePayload(payload) == Err(Truncated) <==>
            |payload| < 8 || (payload[0] == 0xAE && payload[1] == 0x11 && |payload| < StatedLength(payload) + 8)
    ensures DecodePayload(payload) == Err(CrcMismatch) <==>
            && |payload| >= 8 && payload[0] == 0xAE && payload[1] == 0x11 && |payload| >= StatedLength(payload) + 8
            && var n := StatedLength(payload);
               payload[6 + n..8 + n] != WordBytes(Crc(payload[6..6 + n]))
  {
    if |payload| >= 8 {
      MagicBytes(payload[0], payload[1]);
      if |payload| >= StatedLength(payload) + 8 {
        ChecksumBytes(payload, StatedLength(payload));
      }
    }
  }

  lemma ChecksumBytes(payload: seq<byte>, n: nat)
    requires |payload| >= n + 8
    ensures WordFrom(payload[6 + n], payload[7 + n]) == Crc(payload[6..6 + n]) <==>
            payload[6 + n..8 + n] == WordBytes(Crc(payload[6..6 + n]))
  {
    var s, tail := Crc(payload[6..6 + n]), payload[6 + n..8 + n];
    assert tail == [payload[6 + n], payload[7 + n]];
    WordRoundTrip(s);
    if WordFrom(payload[6 + n], payload[7 + n]) == s {
      WordFromInjective(payload[6 + n], payload[7 + n], WordBytes(s)[0], WordBytes(s)[1]);
    }
  }

  lemma WordFromInjective(a: byte, b: byte, c: byte, d: byte)
    requires WordFrom(a, b) == WordFrom(c, d)
    ensures a == c && b == d
  {
    var u, v := PairBits(a, b), PairBits(c, d);
    forall i | 0 <= i < 16 ensures u[i] == v[i] {
      assert Reversed(u)[15 - i] == Reversed(v)[15 - i];
    }
    BitsOfPair(a, b);
    BitsOfPair(c, d);
    PairBitsInjective(a, b, c, d);
  }

  /** A payload is accepted exactly when it begins with a frame, and then as that frame's number and data. */
  lemma DecodeIffFrame(payload: seq<byte>, number: u16, data: seq<byte>)
    ensures DecodePayload(payload) == Ok((number, data)) <==>
            |data| < TWO_16 && |data| + 8 <= |payload| && IsFrame(payload[..|data| + 8], number, data)
  {
    if DecodePayload(payload) == Ok((number, data)) {
      AcceptedIsFrame(payload, number, data);
    }
    if |data| < TWO_16 && |data| + 8 <= |payload| && IsFrame(payload[..|data| + 8], number, data) {
      FrameIsAccepted(payload, number, data);
    }
  }

  lemma AcceptedParts(payload: seq<byte>, number: u16, data: seq<byte>)
    requires DecodePayload(payload) == Ok((number, data))
    ensures |data| < TWO_16 && |data| + 8 <= |payload| && HasHeader(payload, number, |data|)
    ensures payload[6..6 + |data|] == data && WordFrom(payload[6 + |data|], payload[7 + |data|]) == Crc(data)
  {
  }

  lemma PrefixParts(payload: seq<byte>, n: nat)
    requires |payload| >= n + 8
    ensures var f := payload[..n + 8];
            && (forall i :: 0 <= i < 6 ==> f[i] == payload[i])
            && f[6..6 + n] == payload[6..6 + n] && f[6 + n..] == payload[6 + n..8 + n]
  {
  }

  lemma MakeFrame(f: seq<byte>, number: u16, data: seq<byte>)
    requires |data| < TWO_16 && |f| == |data| + 8 && HasHeader(f, number, |data|)
    requires f[6..6 + |data|] == data && f[6 + |data|..] == WordBytes(Crc(data))
    ensures IsFrame(f, number, data)
  {
    Fits(|data|);
  }

  lemma HeaderKept(f: seq<byte>, payload: seq<byte>, number: u16, len: nat)
    requires |f| >= 6 && |payload| >= 6 && (forall i :: 0 <= i < 6 ==> f[i] == payload[i])
    ensures HasHeader(f, number, len) <==> HasHeader(payload, number, len)
  {
    assert f[0] == payload[0] && f[1] == payload[1] && f[2] == payload[2];
    assert f[3] == payload[3] && f[4] == payload[4] && f[5] == payload[5];
  }

  lemma AcceptedIsFrame(payload: seq<byte>, number: u16, data: seq<byte>)
    requires DecodePayload(payload) == Ok((number, data))
    ensures |data| < TWO_16 && |data| + 8 <= |payload| && IsFrame(payload[..|data| + 8], number, data)
  {
    AcceptedParts(payload, number, data);
    var f := payload[..|data| + 8];
    ChecksumBytes(payload, |data|);
    PrefixParts(payload, |data|);
    HeaderKept(f, payload, number, |data|);
    MakeFrame(f, number, data);
  }

  lemma FrameIsAccepted(payload: seq<byte>, number: u16, data: seq<byte>)
    requires |data| < TWO_16 && |data| + 8 <= |payload| && IsFrame(payload[..|data| + 8], number, data)
    ensures DecodePayload(payload) == Ok((number, data))
  {
    var n := |data|;
    PrefixParts(payload, n);
    Fits(n);
    HeaderKept(payload[..n + 8], payload, number, n);
    ChecksumBytes(payload, n);
    DecodeParsed(payload, number, n);
  }

  // ---- Corrupted frames ----

  lemma {:induction false} BitsOfConcat(a: seq<byte>, b: seq<byte>)
    ensures BitsOfBytes(a + b) == BitsOfBytes(a) + BitsOfBytes(b)
    decreases |b|
  {
    if b == [] {
      assert a + b == a;
    } else {
      var n := |b| - 1;
      BitsOfConcat(a, b[..n]);
      assert (a + b)[..|a + b| - 1] == a + b[..n];
    }
  }

  lemma BitsOfPair(hi: byte, lo: byte)
    ensures BitsOfBytes([hi, lo]) == PairBits(hi, lo)
  {
    assert [hi, lo] == [hi] + [lo];
    BitsOfConcat([hi], [lo]);
    BitsOfOne(hi);
    BitsOfOne(lo);
  }

  lemma BitsOfOne(b: byte)
    ensures BitsOfBytes([b]) == BitsOfByte(b)
  {
    assert [b][..0] == [];
    assert BitsOfBytes([b]) == BitsOfBytes([]) + BitsOfByte(b);
  }

  /** Everything after the header: the data and the checksum, as bits. */
  function BodyBits(payload: seq<byte>): seq<bool>
    requires |payload| >= 6
  {
    BitsOfBytes(payload[6..])
  }

  /** The received checksum matches exactly when the register, fed the whole body, ends at zero. */
  lemma MatchesIffZero(data: seq<byte>, hi: byte, lo: byte)
    ensures WordFrom(hi, lo) == Crc(data) <==> Run(Ones(), BitsOfBytes(data + [hi, lo])) == Zero()
  {
    var tail := PairBits(hi, lo);
    BitsOfConcat(data, [hi, lo]);
    BitsOfPair(hi, lo);
    RunAppend(Ones(), BitsOfBytes(data), tail);
    ZeroIffSpelled(Crc(data), tail);
    WordSpells(Crc(data), hi, lo);
  }

  lemma BodyMatches(payload: seq<byte>, len: nat)
    requires |payload| == len + 8
    ensures WordFrom(payload[6 + len], payload[6 + len + 1]) == Crc(payload[6..6 + len]) <==>
            Run(Ones(), BodyBits(payload)) == Zero()
  {
    MatchesIffZero(payload[6..6 + len], payload[6 + len], payload[6 + len + 1]);
    assert payload[6..] == payload[6..6 + len] + [payload[6 + len], payload[6 + len + 1]];
  }

  lemma DecodeBody(payload: seq<byte>, number: u16, len: nat)
    requires HasHeader(payload, number, len) && |payload| == len + 8
    ensures DecodePayload(payload) == if Run(Ones(), BodyBits(payload)) == Zero()
            then Ok((number, payload[6..6 + len])) else Err(CrcMismatch)
  {
    BodyMatches(payload, len);
    DecodeParsed(payload, number, len);
  }

  /** g is as long as the frame f and has the same header; data and checksum may have changed. */
  ghost predicate SameHeader(f: seq<byte>, g: seq<byte>) {
    |f| == |g| >= 6 && f[..6] == g[..6]
  }

  lemma HeaderOnly(f: seq<byte>, g: seq<byte>, number: u16, len: nat)
    requires HasHeader(f, number, len) && SameHeader(f, g)
    ensures HasHeader(g, number, len)
  {
    forall i | 0 <= i < 6 ensures g[i] == f[i] {
      assert g[..6][i] == f[..6][i];
    }
  }

  /** A frame's body drives the register to zero. */
  lemma FrameRunsToZero(f: seq<byte>, number: u16, data: seq<byte>)
    requires IsFrame(f, number, data) && |data| < TWO_16
    ensures HasHeader(f, number, |data|) && Run(Ones(), BodyBits(f)) == Zero()
  {
    Fits(|data|);
    RoundTrip(f, number, data);
    DecodeBody(f, number, |data|);
  }

  /** A changed body that drives the register elsewhere is reported as a checksum mismatch. */
  lemma ChangeRejected(f: seq<byte>, g: seq<byte>, number: u16, data: seq<byte>)
    requires IsFrame(f, number, data) && |data| < TWO_16 && SameHeader(f, g)
    requires Run(Ones(), BodyBits(f)) != Run(Ones(), BodyBits(g))
    ensures DecodePayload(g) == Err(CrcMismatch)
  {
    FrameRunsToZero(f, number, data);
    HeaderOnly(f, g, number, |data|);
    DecodeBody(g, number, |data|);
  }

  /** Any change confined to 16 consecutive bits of data and checksum is reported, wherever it falls. */
  lemma BurstRejected(f: seq<byte>, g: seq<byte>, number: u16, data: seq<byte>, p: nat, q: nat)
    requires IsFrame(f, number, data) && |data| < TWO_16 && SameHeader(f, g)
    requires p <= q <= p + 16 && q <= 8 * (|data| + 2)
    requires BodyBits(f) != BodyBits(g) && BodyBits(f)[..p] == BodyBits(g)[..p] && BodyBits(f)[q..] == BodyBits(g)[q..]
    ensures DecodePayload(g) == Err(CrcMismatch)
  {
    WindowDetected(Ones(), BodyBits(f), BodyBits(g), p, q);
    ChangeRejected(f, g, number, data);
  }

  lemma WindowDetected(s: Word, a: seq<bool>, b: seq<bool>, p: nat, q: nat)
    requires |a| == |b| && p <= q <= p + 16 && q <= |a| && a != b && a[..p] == b[..p] && a[q..] == b[q..]
    ensures Run(s, a) != Run(s, b)
  {
    assert a == a[..p] + a[p..q] + a[q..] && b == b[..p] + b[p..q] + b[q..];
    BurstDetected(s, a[..p], a[p..q], b[p..q], a[q..]);
  }

  /** Any change of an odd number of bits of data and checksum is reported. */
  lemma OddChangeRejected(f: seq<byte>, g: seq<byte>, number: u16, data: seq<byte>)
    requires IsFrame(f, number, data) && |data| < TWO_16 && SameHeader(f, g)
    requires Parity(XorBits(BodyBits(f), BodyBits(g)))
    ensures DecodePayload(g) == Err(CrcMismatch)
  {
    OddErrorsDetected(Ones(), BodyBits(f), BodyBits(g));
    ChangeRejected(f, g, number, data);
  }

  /** A change of two bits of data and checksum is reported exactly when their distance is no multiple of 32767. */
  lemma TwoBitChange(f: seq<byte>, g: seq<byte>, number: u16, data: seq<byte>, p: nat, q: nat)
    requires IsFrame(f, number, data) && |data| < TWO_16 && SameHeader(f, g)
    requires TwoBitErrors.DifferAt(BodyBits(f), BodyBits(g), p, q)
    ensures DecodePayload(g) == Err(CrcMismatch) <==> (q - p) % 32767 != 0
  {
    TwoBitErrors.TwoErrorsEscape(Ones(), BodyBits(f), BodyBits(g), p, q);
    if (q - p) % 32767 != 0 {
      ChangeRejected(f, g, number, data);
    } else {
      ChangeAccepted(f, g, number, data);
    }
  }

  lemma ChangeAccepted(f: seq<byte>, g: seq<byte>, number: u16, data: seq<byte>)
    requires IsFrame(f, number, data) && |data| < TWO_16 && SameHeader(f, g)
    requires Run(Ones(), BodyBits(f)) == Run(Ones(), BodyBits(g))
    ensures DecodePayload(g).Ok?
  {
    FrameRunsToZero(f, number, data);
    HeaderOnly(f, g, number, |data|);
    DecodeBody(g, number, |data|);
  }

  lemma OctetFromBits(o: Octet, p: Octet)
    requires forall i :: 0 <= i < 8 ==> BitAt(o, i) == BitAt(p, i)
    ensures o == p
  {
    assert BitAt(o, 0) == BitAt(p, 0) && BitAt(o, 1) == BitAt(p, 1) && BitAt(o, 2) == BitAt(p, 2)
      && BitAt(o, 3) == BitAt(p, 3);
    assert BitAt(o, 4) == BitAt(p, 4) && BitAt(o, 5) == BitAt(p, 5) && BitAt(o, 6) == BitAt(p, 6)
      && BitAt(o, 7) == BitAt(p, 7);
  }

  lemma ByteBitsInjective(a: byte, b: byte)
    requires BitsOfByte(a) == BitsOfByte(b)
    ensures a == b
  {
    var o, p := ToOctet(a), ToOctet(b);
    forall i | 0 <= i < 8 ensures BitAt(o, i) == BitAt(p, i) {
      assert BitsOfByte(a)[i] == BitsOfByte(b)[i];
    }
    OctetFromBits(o, p);
  }

  lemma PairBitsInjective(a: byte, b: byte, c: byte, d: byte)
    requires BitsOfBytes([a, b]) == BitsOfBytes([c, d])
    ensures a == c && b == d
  {
    BitsOfPair(a, b);
    BitsOfPair(c, d);
    var u, v := PairBits(a, b), PairBits(c, d);
    assert u[..8] == BitsOfByte(a) && u[8..] == BitsOfByte(b) && v[..8] == BitsOfByte(c) && v[8..] == BitsOfByte(d);
    ByteBitsInjective(a, c);
    ByteBitsInjective(b, d);
  }

  /**
    In bytes: whatever two adjacent bytes of the body are replaced by, the frame is refused unless
    they are unchanged.
   */
  lemma AdjacentBytesRejected(f: seq<byte>, number: u16, data: seq<byte>, i: nat, x: byte, y: byte)
    requires IsFrame(f, number, data) && |data| < TWO_16 && 6 <= i < |data| + 7
    requires x != f[i] || y != f[i + 1]
    ensures DecodePayload(f[i := x][i + 1 := y]) == Err(CrcMismatch)
  {
    FrameSize(f, number, data);
    UpdatedRejected(f, f[i := x][i + 1 := y], number, data, i, x, y);
  }

  lemma FrameSize(f: seq<byte>, number: u16, data: seq<byte>)
    requires IsFrame(f, number, data)
    ensures |f| == |data| + 8
  {
  }

  lemma UpdatedRejected(f: seq<byte>, g: seq<byte>, number: u16, data: seq<byte>, i: nat, x: byte, y: byte)
    requires IsFrame(f, number, data) && |data| < TWO_16 && 6 <= i && i + 1 < |f| && g == f[i := x][i + 1 := y]
    requires x != f[i] || y != f[i + 1]
    ensures DecodePayload(g) == Err(CrcMismatch)
  {
    PairUpdated(f, g, i, x, y);
    PairRejected(f, g, number, data, i);
  }

  lemma PairRejected(f: seq<byte>, g: seq<byte>, number: u16, data: seq<byte>, i: nat)
    requires IsFrame(f, number, data) && |data| < TWO_16 && SameHeader(f, g) && 6 <= i && i + 1 < |f|
    requires f[..i] == g[..i] && f[i + 2..] == g[i + 2..] && (f[i] != g[i] || f[i + 1] != g[i + 1])
    ensures DecodePayload(g) == Err(CrcMismatch)
  {
    PairChanges(f, g, i);
    ChangeRejected(f, g, number, data);
  }

  lemma PairUpdated(f: seq<byte>, g: seq<byte>, i: nat, x: byte, y: byte)
    requires 6 <= i && i + 1 < |f| && g == f[i := x][i + 1 := y]
    ensures SameHeader(f, g) && g[i] == x && g[i + 1] == y && f[..i] == g[..i] && f[i + 2..] == g[i + 2..]
  {
  }

  lemma PairChanges(f: seq<byte>, g: seq<byte>, i: nat)
    requires 6 <= i && i + 1 < |f| && |g| == |f| && f[..i] == g[..i] && f[i + 2..] == g[i + 2..]
    requires f[i] != g[i] || f[i + 1] != g[i + 1]
    ensures Run(Ones(), BodyBits(f)) != Run(Ones(), BodyBits(g))
  {
    var before, after := f[6..i], f[i + 2..];
    var a, b := [f[i], f[i + 1]], [g[i], g[i + 1]];
    assert before == f[..i][6..] && before == g[..i][6..];
    assert f[6..] == before + a + after && g[6..] == before + b + after;
    SplitBits(before, a, after);
    SplitBits(before, b, after);
    if BitsOfBytes(a) == BitsOfBytes(b) {
      PairBitsInjective(f[i], f[i + 1], g[i], g[i + 1]);
    }
    BurstDetected(Ones(), BitsOfBytes(before), BitsOfBytes(a), BitsOfBytes(b), BitsOfBytes(after));
  }

  lemma SplitBits(before: seq<byte>, pair: seq<byte>, after: seq<byte>)
    ensures BitsOfBytes(before + pair + after) == BitsOfBytes(before) + BitsOfBytes(pair) + BitsOfBytes(after)
  {
    BitsOfConcat(before + pair, after);
    BitsOfConcat(before, pair);
  }

  // ---- The session ----

  class IcmpTunnel {
    var nextSeq: u16
    var received: map<u16, seq<byte>>
    var bytesEncapsulated: nat

    constructor ()
      ensures nextSeq == 0 && received == map[] && bytesEncapsulated == 0
    {
      nextSeq, received, bytesEncapsulated := 0, map[], 0;
    }

    method Encapsulate(data: seq<byte>) returns (out: seq<byte>)
      modifies this
      ensures IsFrame(out, old(nextSeq), data)
      ensures nextSeq == (old(nextSeq) + 1) % TWO_16
      ensures received == old(received) && bytesEncapsulated == old(bytesEncapsulated) + |data|
    {
      var number := nextSeq;
      nextSeq := (nextSeq + 1) % TWO_16;
      bytesEncapsulated := bytesEncapsulated + |data|;
      out := EncodePayload(number, data);
    }

    /** A good frame is filed under its own number and handed on; a bad one changes nothing. */
    method Decapsulate(payload: seq<byte>) returns (r: Result<seq<byte>>)
      modifies this
      ensures nextSeq == old(nextSeq) && bytesEncapsulated == old(bytesEncapsulated)
      ensures r == match DecodePayload(payload) case Ok(v) => Ok(v.1) case Err(e) => Err(e)
      ensures received == match DecodePayload(payload)
                          case Ok(v) => old(received)[v.0 := v.1]
                          case Err(_) => old(received)
      ensures forall n: u16, data | |data| < TWO_16 && IsFrame(payload, n, data) ::
                r == Ok(data) && received == old(received)[n := data]
    {
      match DecodePayload(payload) {
        case Ok(v) =>
          received := received[v.0 := v.1];
          r := Ok(v.1);
        case Err(e) =>
          r := Err(e);
      }
      forall n: u16, data | |data| < TWO_16 && IsFrame(payload, n, data)
        ensures r == Ok(data) && received == old(received)[n := data]
      {
        RoundTrip(payload, n, data);
      }
    }
  }
}
