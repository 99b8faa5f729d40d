/**
  Nested tunnel framing (core-supervisor/src/multi_tunnel.rs): each layer puts a role tag, its
  name, its overhead and a length in front of what it wraps, and padding behind. A cascade wraps
  a payload in its layers, the last layer first, and unwraps from the outside.
 */
module Tunnel {
  import opened Bits
  import opened Wire
  import ReplayRing

  datatype Error = Truncated | BadRoleTag
  datatype Result<T> = Ok(value: T) | Err(error: Error)

  datatype Role = Outer | Inner

  datatype Layer = Layer(name: seq<byte>, role: Role, overhead: u32)

  const TAG_OUTER: byte := 0x4F
  const TAG_INNER: byte := 0x49

  function Tag(role: Role): byte {
    match role case Outer => TAG_OUTER case Inner => TAG_INNER
  }

  // ---- One layer ----

  /** The length of the name is cut to 8 bits, the length of the body to 32. */
  function Framed(layer: Layer, inner: seq<byte>): seq<byte> {
    [Tag(layer.role), |layer.name| % 256] + layer.name + Be32(layer.overhead) + Be32(|inner|) + inner +
      Zeros(layer.overhead)
  }

  method FrameLayer(layer: Layer, inner: seq<byte>) returns (out: seq<byte>)
    ensures out == Framed(layer, inner)
  {
    out := [];
    out := out + [Tag(layer.role)];
    out := out + [|layer.name| % 256];
    out := out + layer.name;
    out := out + Be32(layer.overhead);
    out := out + Be32(|inner|);
    out := out + inner;
    out := out + Zeros(layer.overhead);
  }

  function U32At(buf: seq<byte>, i: nat): nat
    requires i + 4 <= |buf|
  {
    FromBe32(buf[i], buf[i + 1], buf[i + 2], buf[i + 3])
  }

  function UnframeLayer(buf: seq<byte>): Result<seq<byte>> {
    if |buf| < 10 then Err(Truncated)
    else if buf[0] != TAG_OUTER && buf[0] != TAG_INNER then Err(BadRoleTag)
    else
      var nameLen: nat := buf[1];
      var header := 1 + 1 + nameLen + 4;
      if |buf| < header + 4 then Err(Truncated)
      else
        var overhead := U32At(buf, 2 + nameLen);
        var len := U32At(buf, header);
        var start := header + 4;
        if |buf| < start + len + overhead then Err(Truncated)
        else Ok(buf[start..start + len])
  }

  /** The debug assertion of the source. */
  predicate NameFits(layer: Layer) {
    |layer.name| <= 255
  }

  /** Where the body of the layer's frames starts. */
  function Start(layer: Layer): nat {
    10 + |layer.name|
  }

  /** buf starts with the layer's header, for a body whose length field reads len. */
  ghost predicate HasHeader(buf: seq<byte>, layer: Layer, len: nat) {
    && Start(layer) <= |buf|
    && buf[0] == Tag(layer.role)
    && buf[1] == |layer.name|
    && U32At(buf, 2 + |layer.name|) == layer.overhead
    && U32At(buf, 6 + |layer.name|) == len
  }

  ghost predicate IsFrame(buf: seq<byte>, layer: Layer, inner: seq<byte>, len: nat) {
    && |buf| == Start(layer) + |inner| + layer.overhead
    && HasHeader(buf, layer, len)
    && buf[Start(layer)..Start(layer) + |inner|] == inner
  }

  lemma UnframeParsed(buf: seq<byte>, layer: Layer, len: nat)
    requires NameFits(layer) && HasHeader(buf, layer, len)
    ensures UnframeLayer(buf) ==
            if |buf| < Start(layer) + len + layer.overhead then Err(Truncated)
            else Ok(buf[Start(layer)..Start(layer) + len])
  {
  }

  lemma Layout(tags: seq<byte>, name: seq<byte>, overhead: seq<byte>, len: seq<byte>, inner: seq<byte>, pad: seq<byte>)
    requires |tags| == 2 && |overhead| == |len| == 4
    ensures var buf, n := tags + name + overhead + len + inner + pad, |name|;
            && buf[0] == tags[0] && buf[1] == tags[1]
            && buf[2 + n..6 + n] == overhead && buf[6 + n..10 + n] == len
            && buf[10 + n..10 + n + |inner|] == inner
  {
  }

  lemma U32Slice(buf: seq<byte>, i: nat, w: seq<byte>)
    requires i + 4 <= |buf| && |w| == 4 && buf[i..i + 4] == w
    ensures U32At(buf, i) == FromBe32(w[0], w[1], w[2], w[3])
  {
    assert w[0] == buf[i] && w[1] == buf[i + 1] && w[2] == buf[i + 2] && w[3] == buf[i + 3];
  }

  lemma SmallRemainder(n: nat, m: nat)
    requires n < m
    ensures n % m == n
  {
  }

  lemma RemainderAtMost(n: nat, m: nat)
    requires m > 0
    ensures n % m <= n
  {
  }

  lemma FramedLayout(layer: Layer, inner: seq<byte>)
    requires NameFits(layer)
    ensures IsFrame(Framed(layer, inner), layer, inner, |inner| % TWO_32)
  {
    var tags: seq<byte> := [Tag(layer.role), |layer.name| % 256];
    Layout(tags, layer.name, Be32(layer.overhead), Be32(|inner|), inner, Zeros(layer.overhead));
    var buf, n := Framed(layer, inner), |layer.name|;
    U32Slice(buf, 2 + n, Be32(layer.overhead));
    U32Slice(buf, 6 + n, Be32(|inner|));
    Be32RoundTrip(layer.overhead);
    Be32RoundTrip(|inner|);
    SmallRemainder(layer.overhead, TWO_32);
    SmallRemainder(n, 256);
  }

  lemma HeaderOfPrefix(buf: seq<byte>, layer: Layer, len: nat, k: nat)
    requires HasHeader(buf, layer, len) && Start(layer) <= k <= |buf|
    ensures HasHeader(buf[..k], layer, len)
  {
  }

  lemma ShortHeader(buf: seq<byte>, layer: Layer, len: nat, k: nat)
    requires NameFits(layer) && HasHeader(buf, layer, len) && k < Start(layer)
    ensures UnframeLayer(buf[..k]) == Err(Truncated)
  {
  }

  lemma SliceOfPrefix(buf: seq<byte>, k: nat, start: nat, len: nat, inner: seq<byte>)
    requires start + len <= k <= |buf| && len <= |inner| && start + |inner| <= |buf|
    requires buf[start..start + |inner|] == inner
    ensures buf[..k][start..start + len] == inner[..len]
  {
    forall i | 0 <= i < len ensures buf[..k][start..start + len][i] == inner[i] {
      assert buf[start..start + |inner|][i] == buf[start + i];
    }
  }

  lemma UnframePrefixOf(buf: seq<byte>, layer: Layer, inner: seq<byte>, len: nat, k: nat)
    requires NameFits(layer) && IsFrame(buf, layer, inner, len) && len <= |inner| && k <= |buf|
    ensures UnframeLayer(buf[..k]) == if k < Start(layer) + len + layer.overhead then Err(Truncated)
            else Ok(inner[..len])
  {
    var start := Start(layer);
    if k < start {
      ShortHeader(buf, layer, len, k);
    } else {
      HeaderOfPrefix(buf, layer, len, k);
      UnframeParsed(buf[..k], layer, len);
      if k >= start + len + layer.overhead {
        SliceOfPrefix(buf, k, start, len, inner);
      }
    }
  }

  /** A prefix of a frame unwraps to what the length field promises, if it is all there, and otherwise is truncated. */
  lemma UnframePrefix(layer: Layer, inner: seq<byte>, k: nat)
    requires NameFits(layer) && k <= |Framed(layer, inner)|
    ensures var len := |inner| % TWO_32;
            UnframeLayer(Framed(layer, inner)[..k]) ==
            if k < Start(layer) + len + layer.overhead then Err(Truncated) else Ok(inner[..len])
  {
    FramedLayout(layer, inner);
    RemainderAtMost(|inner|, TWO_32);
    UnframePrefixOf(Framed(layer, inner), layer, inner, |inner| % TWO_32, k);
  }

  lemma WholePrefix(buf: seq<byte>)
    ensures buf[..|buf|] == buf
  {
  }

  /** A whole frame unwraps to as much as its length field says. */
  lemma UnframeWhole(layer: Layer, inner: seq<byte>)
    requires NameFits(layer)
    ensures |inner| % TWO_32 <= |inner| && UnframeLayer(Framed(layer, inner)) == Ok(inner[..|inner| % TWO_32])
  {
    var buf := Framed(layer, inner);
    FramedLayout(layer, inner);
    RemainderAtMost(|inner|, TWO_32);
    UnframePrefixOf(buf, layer, inner, |inner| % TWO_32, |buf|);
    WholePrefix(buf);
  }

  lemma UnframeFitting(layer: Layer, inner: seq<byte>)
    requires NameFits(layer) && |inner| < TWO_32
    ensures UnframeLayer(Framed(layer, inner)) == Ok(inner)
  {
    UnframeWhole(layer, inner);
    SmallRemainder(|inner|, TWO_32);
    WholePrefix(inner);
  }

  // ---- On the bytes ----

  /**
    buf begins with the header of a frame of this layer, for a body of len bytes: the role as a letter,
    the length of the name and the name, overhead and length with the highest byte first.
   */
  ghost predicate Opens(buf: seq<byte>, layer: Layer, len: nat) {
    var n := |layer.name|;
    && 10 + n <= |buf|
    && buf[0] == (if layer.role == Outer then 0x4F else 0x49) && buf[1] == n && buf[2..2 + n] == layer.name
    && Spells32(buf[2 + n], buf[3 + n], buf[4 + n], buf[5 + n], layer.overhead)
    && Spells32(buf[6 + n], buf[7 + n], buf[8 + n], buf[9 + n], len)
  }

  lemma OpensHasHeader(buf: seq<byte>, layer: Layer, len: nat)
    ensures Opens(buf, layer, len) <==> HasHeader(buf, layer, len) && buf[2..2 + |layer.name|] == layer.name
  {
    var n := |layer.name|;
    if 10 + n <= |buf| {
      FromBe32Spells(buf[2 + n], buf[3 + n], buf[4 + n], buf[5 + n]);
      FromBe32Spells(buf[6 + n], buf[7 + n], buf[8 + n], buf[9 + n]);
    }
  }

  lemma NameAndPadding(layer: Layer, inner: seq<byte>)
    ensures var buf, n := Framed(layer, inner), |layer.name|;
            && |buf| == 10 + n + |inner| + layer.overhead
            && buf[2..2 + n] == layer.name && buf[10 + n..10 + n + |inner|] == inner
            && buf[10 + n + |inner|..] == Zeros(layer.overhead)
  {
  }

  /** A frame: its header, the body, and as many zeros as the layer's overhead. */
  lemma FrameBytes(layer: Layer, inner: seq<byte>)
    requires NameFits(layer)
    ensures var buf, n := Framed(layer, inner), |layer.name|;
            && Opens(buf, layer, |inner| % TWO_32) && |buf| == 10 + n + |inner| + layer.overhead
            && buf[10 + n..10 + n + |inner|] == inner && buf[10 + n + |inner|..] == Zeros(layer.overhead)
  {
    FramedLayout(layer, inner);
    NameAndPadding(layer, inner);
    OpensHasHeader(Framed(layer, inner), layer, |inner| % TWO_32);
  }

  /** The body of such a frame is all there, padding included. */
  ghost predicate IsWhole(buf: seq<byte>, layer: Layer, inner: seq<byte>) {
    && Opens(buf, layer, |inner|) && |buf| >= 10 + |layer.name| + |inner| + layer.overhead
    && buf[10 + |layer.name|..10 + |layer.name| + |inner|] == inner
  }

  /** The layer that a header names. */
  function LayerOf(buf: seq<byte>): Layer
    requires |buf| >= 10 && |buf| >= 10 + buf[1] as nat
  {
    var n: nat := buf[1];
    Layer(buf[2..2 + n], if buf[0] == TAG_OUTER then Outer else Inner, U32At(buf, 2 + n))
  }

  /** A buffer unwraps to a body exactly when it begins with a whole frame of it, of whatever layer. */
  lemma UnframeIff(buf: seq<byte>, inner: seq<byte>)
    ensures UnframeLayer(buf) == Ok(inner) <==> exists layer :: IsWhole(buf, layer, inner)
  {
    if UnframeLayer(buf) == Ok(inner) {
      var layer := LayerOf(buf);
      OpensHasHeader(buf, layer, |inner|);
      assert IsWhole(buf, layer, inner);
    }
    if layer :| IsWhole(buf, layer, inner) {
      OpensHasHeader(buf, layer, |inner|);
      UnframeParsed(buf, layer, |inner|);
    }
  }

  /** A buffer of ten bytes or more that begins with neither letter has a bad tag; all else is whole or truncated. */
  lemma UnframeErrors(buf: seq<byte>)
    ensures UnframeLayer(buf) == Err(BadRoleTag) <==> |buf| >= 10 && buf[0] != 0x4F && buf[0] != 0x49
    ensures UnframeLayer(buf) == Err(Truncated) <==>
            && !(|buf| >= 10 && buf[0] != 0x4F && buf[0] != 0x49)
            && !exists layer, inner :: IsWhole(buf, layer, inner)
  {
    forall layer, inner | IsWhole(buf, layer, inner) ensures UnframeLayer(buf) == Ok(inner) {
      UnframeIff(buf, inner);
    }
    if UnframeLayer(buf).Ok? {
      UnframeIff(buf, UnframeLayer(buf).value);
    }
  }

  // ---- The cascade ----

  function Encapsulated(layers: seq<Layer>, payload: seq<byte>): seq<byte> {
    if layers == [] then payload else Framed(layers[0], Encapsulated(layers[1..], payload))
  }

  function Decapsulated(n: nat, buf: seq<byte>): Result<seq<byte>> {
    if n == 0 then Ok(buf)
    else match UnframeLayer(buf) case Err(e) => Err(e) case Ok(inner) => Decapsulated(n - 1, inner)
  }

  function TotalOverhead(layers: seq<Layer>): nat {
    if layers == [] then 0 else Start(layers[0]) + layers[0].overhead + TotalOverhead(layers[1..])
  }

  predicate NamesFit(layers: seq<Layer>) {
    forall i :: 0 <= i < |layers| ==> NameFits(layers[i])
  }

  lemma FramedLength(layer: Layer, inner: seq<byte>)
    ensures |Framed(layer, inner)| == Start(layer) + |inner| + layer.overhead
  {
  }

  /** On the wire, a payload grows by ten bytes, the name and the declared overhead of every layer. */
  lemma {:induction false} WireLength(layers: seq<Layer>, payload: seq<byte>)
    ensures |Encapsulated(layers, payload)| == |payload| + TotalOverhead(layers)
    decreases |layers|
  {
    if layers != [] {
      WireLength(layers[1..], payload);
      FramedLength(layers[0], Encapsulated(layers[1..], payload));
    }
  }

  /** What the outermost length field has to hold: the payload and every layer but the first. */
  predicate SizesFit(layers: seq<Layer>, payload: seq<byte>) {
    layers == [] || |payload| + TotalOverhead(layers[1..]) < TWO_32
  }

  lemma SizesShrink(layers: seq<Layer>, payload: seq<byte>)
    requires layers != [] && SizesFit(layers, payload)
    ensures |Encapsulated(layers[1..], payload)| < TWO_32 && SizesFit(layers[1..], payload)
  {
    WireLength(layers[1..], payload);
  }

  lemma OuterLayer(layers: seq<Layer>, payload: seq<byte>)
    requires layers != [] && NameFits(layers[0]) && |Encapsulated(layers[1..], payload)| < TWO_32
    ensures UnframeLayer(Encapsulated(layers, payload)) == Ok(Encapsulated(layers[1..], payload))
  {
    UnframeFitting(layers[0], Encapsulated(layers[1..], payload));
  }

  ghost predicate UnwrapsTo(buf: seq<byte>, inner: seq<byte>) {
    UnframeLayer(buf) == Ok(inner)
  }

  /** If each buffer unwraps to the next, decapsulation leads from the first to the last. */
  lemma {:induction false} LayersOff(bufs: seq<seq<byte>>)
    requires bufs != [] && forall i, j :: 0 <= i < |bufs| - 1 && j == i + 1 ==> UnwrapsTo(bufs[i], bufs[j])
    ensures Decapsulated(|bufs| - 1, bufs[0]) == Ok(bufs[|bufs| - 1])
    decreases |bufs|
  {
    if |bufs| > 1 {
      assert UnwrapsTo(bufs[0], bufs[1]);
      LayersOff(bufs[1..]);
    }
  }

  lemma {:induction false} SizesFitInside(layers: seq<Layer>, payload: seq<byte>, i: nat)
    requires SizesFit(layers, payload) && i < |layers|
    ensures SizesFit(layers[i..], payload)
    decreases i
  {
    if i == 0 {
      assert layers[0..] == layers;
    } else {
      SizesFitInside(layers, payload, i - 1);
      SizesShrink(layers[i - 1..], payload);
      assert layers[i - 1..][1..] == layers[i..];
    }
  }

  lemma LayerOff(layers: seq<Layer>, payload: seq<byte>, i: nat)
    requires NamesFit(layers) && SizesFit(layers, payload) && i < |layers|
    ensures UnwrapsTo(Encapsulated(layers[i..], payload), Encapsulated(layers[i + 1..], payload))
  {
    SizesFitInside(layers, payload, i);
    SizesShrink(layers[i..], payload);
    assert layers[i..][1..] == layers[i + 1..];
    OuterLayer(layers[i..], payload);
  }

  lemma FittingRoundTrip(layers: seq<Layer>, payload: seq<byte>)
    requires NamesFit(layers) && SizesFit(layers, payload)
    ensures Decapsulated(|layers|, Encapsulated(layers, payload)) == Ok(payload)
  {
    var n := |layers|;
    var bufs := seq(n + 1, i requires 0 <= i <= n => Encapsulated(layers[i..], payload));
    forall i, j | 0 <= i < n && j == i + 1 ensures UnwrapsTo(bufs[i], bufs[j]) {
      LayerOff(layers, payload, i);
    }
    LayersOff(bufs);
    assert layers[0..] == layers && layers[n..] == [];
  }

  lemma CutLayer(layer: Layer, inner: seq<byte>, k: nat)
    requires NameFits(layer) && k < |Framed(layer, inner)|
    ensures var cut := UnframeLayer(Framed(layer, inner)[..k]);
            cut.Ok? ==> |inner| % TWO_32 < |inner| && cut == Ok(inner[..|inner| % TWO_32])
  {
    FramedLength(layer, inner);
    UnframePrefix(layer, inner, k);
  }

  lemma OuterCut(layers: seq<Layer>, payload: seq<byte>, k: nat, inner: seq<byte>, buf: seq<byte>)
    requires layers != [] && k <= |Encapsulated(layers, payload)| && inner == Encapsulated(layers[1..], payload)
    requires buf == Encapsulated(layers, payload)[..k]
    ensures k <= |Framed(layers[0], inner)| && buf == Framed(layers[0], inner)[..k]
    ensures Decapsulated(|layers|, buf) ==
            match UnframeLayer(buf) case Err(e) => Err(e) case Ok(x) => Decapsulated(|layers| - 1, x)
  {
  }

  /**
    What is cut short never comes back as the payload: every layer either reports it or hands on
    something cut short.
   */
  lemma {:induction false} CutShort(layers: seq<Layer>, payload: seq<byte>, k: nat)
    requires NamesFit(layers) && k < |Encapsulated(layers, payload)|
    ensures Decapsulated(|layers|, Encapsulated(layers, payload)[..k]) != Ok(payload)
    decreases |layers|
  {
    if layers != [] {
      var inner, buf := Encapsulated(layers[1..], payload), Encapsulated(layers, payload)[..k];
      OuterCut(layers, payload, k, inner, buf);
      CutLayer(layers[0], inner, k);
      if UnframeLayer(buf).Ok? {
        CutShort(layers[1..], payload, |inner| % TWO_32);
      }
    }
  }

  /** The round trip succeeds exactly when the outermost length field does not overflow. */
  lemma RoundTrip(layers: seq<Layer>, payload: seq<byte>)
    requires NamesFit(layers)
    ensures Decapsulated(|layers|, Encapsulated(layers, payload)) == Ok(payload) <==> SizesFit(layers, payload)
  {
    if SizesFit(layers, payload) {
      FittingRoundTrip(layers, payload);
    } else {
      var inner := Encapsulated(layers[1..], payload);
      WireLength(layers[1..], payload);
      var len := |inner| % TWO_32;
      UnframeWhole(layers[0], inner);
      CutShort(layers[1..], payload, len);
    }
  }

  /** Every strict prefix of what went on the wire is reported as truncated. */
  lemma StrictPrefixTruncated(layers: seq<Layer>, payload: seq<byte>, k: nat)
    requires NamesFit(layers) && layers != [] && SizesFit(layers, payload) && k < |Encapsulated(layers, payload)|
    ensures Decapsulated(|layers|, Encapsulated(layers, payload)[..k]) == Err(Truncated)
  {
    var inner := Encapsulated(layers[1..], payload);
    WireLength(layers[1..], payload);
    FramedLayout(layers[0], inner);
    SmallRemainder(|inner|, TWO_32);
    UnframePrefix(layers[0], inner, k);
  }

  // ---- Frames replayed after a hop ----

  ghost predicate AllEncapsulated(layers: seq<Layer>, payloads: seq<seq<byte>>, sent: seq<seq<byte>>) {
    |sent| == |payloads| && forall i :: 0 <= i < |sent| ==>
      SizesFit(layers, payloads[i]) && sent[i] == Encapsulated(layers, payloads[i])
  }

  lemma SentDecapsulates(layers: seq<Layer>, payloads: seq<seq<byte>>, sent: seq<seq<byte>>, n: nat)
    requires NamesFit(layers) && AllEncapsulated(layers, payloads, sent) && n < |sent|
    ensures Decapsulated(|layers|, sent[n]) == Ok(payloads[n])
  {
    FittingRoundTrip(layers, payloads[n]);
  }

  /** Whatever was pushed, acknowledged and replayed, a frame in the ring unwraps to the payload it was made from. */
  lemma ReplayedFramesDecapsulate(layers: seq<Layer>, payloads: seq<seq<byte>>, ops: seq<ReplayRing.Op>,
                                  capacity: nat, maxHops: nat, i: nat)
    requires NamesFit(layers) && AllEncapsulated(layers, payloads, ReplayRing.Pushed(ops))
    requires i < |ReplayRing.Run(ReplayRing.NewRing(capacity, maxHops), ops).frames|
    ensures var frame := ReplayRing.Run(ReplayRing.NewRing(capacity, maxHops), ops).frames[i];
            frame.number < |payloads| && Decapsulated(|layers|, frame.data) == Ok(payloads[frame.number])
  {
    ReplayRing.HeldFrame(capacity, maxHops, ops, i);
    SentDecapsulates(layers, payloads, ReplayRing.Pushed(ops),
                     ReplayRing.Run(ReplayRing.NewRing(capacity, maxHops), ops).frames[i].number);
  }

  // ---- The object ----

  class TunnelCascade {
    const layers: seq<Layer>
    var activeTransport: string
    var hops: nat

    constructor (layers: seq<Layer>)
      ensures this.layers == layers && activeTransport == "primary" && hops == 0
    {
      this.layers, activeTransport, hops := layers, "primary", 0;
    }

    method Encapsulate(payload: seq<byte>) returns (buf: seq<byte>)
      ensures buf == Encapsulated(layers, payload)
    {
      buf := payload;
      for i := |layers| downto 0
        invariant buf == Encapsulated(layers[i..], payload)
      {
        buf := FrameLayer(layers[i], buf);
        assert layers[i..][1..] == layers[i + 1..];
      }
      assert layers[0..] == layers;
    }

    method Decapsulate(framed: seq<byte>) returns (r: Result<seq<byte>>)
      ensures r == Decapsulated(|layers|, framed)
    {
      var buf := framed;
      for i := 0 to |layers|
        invariant Decapsulated(|layers|, framed) == Decapsulated(|layers| - i, buf)
      {
        match UnframeLayer(buf) {
          case Err(e) => return Err(e);
          case Ok(inner) => buf := inner;
        }
      }
      r := Ok(buf);
    }

    /** A hop changes what carries the frames and counts itself; the framing does not depend on it. */
    method Hop(newTransport: string) returns (count: nat)
      modifies this
      ensures activeTransport == newTransport && hops == old(hops) + 1 && count == hops
    {
      activeTransport := newTransport;
      hops := hops + 1;
      count := hops;
    }
  }
}
