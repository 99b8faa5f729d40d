/**
  PASETO v4.public tokens (antiforgery/src/token.rs:173-275): issuing, splitting and verifying.

  The signature scheme is a parameter: a pair of functions, as Ed25519 is to the source.
 */
module Token {
  import opened Base64Url
  import opened Bits
  import opened Fields
  import opened Options
  import opened Powers
  import Pae

  datatype Error = Malformed | BadSignature | BadEncoding
  datatype Result<T> = Ok(value: T) | Err(error: Error)

  datatype Scheme = Scheme(sign: seq<byte> -> seq<byte>, verify: (seq<byte>, seq<byte>) -> bool)

  const SIGNATURE_SIZE := 64
  const COUNT_WIDTH: nat := 8
  const HEADER := "v4.public."

  /** Signatures are 64 bytes long and a signature verifies over what was signed. */
  ghost predicate IsScheme(S: Scheme) {
    forall m :: |S.sign(m)| == SIGNATURE_SIZE && S.verify(m, S.sign(m))
  }

  // ---- Splitting a token ----

  function SplitToken(t: string): Result<(seq<byte>, seq<byte>)> {
    var fields := Split(t, '.');
    if fields[0] != "v4" || |fields| < 2 || fields[1] != "public" || |fields| > 4 then Err(Malformed)
    else if |fields| < 3 then Err(Malformed)
    else
      match Decode(fields[2])
      case None => Err(BadEncoding)
      case Some(message) =>
        if |fields| < 4 then Ok((message, []))
        else if fields[3] == "" then Err(Malformed)
        else match Decode(fields[3]) case None => Err(BadEncoding) case Some(footer) => Ok((message, footer))
  }

  /** The text of a token: the footer is left off when it is empty. */
  function Render(message: seq<byte>, footer: seq<byte>): string {
    HEADER + Encode(message) + (if footer == [] then "" else "." + Encode(footer))
  }

  lemma Regroup(a: string, b: string, c: string, d: string, rest: string)
    ensures a + b + c + d + rest == a + b + (c + d + rest)
  {
  }

  lemma HeaderFields()
    ensures HEADER == "v4" + "." + "public" + "."
  {
  }

  lemma SplitHeader(rest: string)
    ensures Split(HEADER + rest, '.') == ["v4", "public"] + Split(rest, '.')
  {
    HeaderFields();
    Regroup("v4", ".", "public", ".", rest);
    SplitFirst("v4", "public" + "." + rest, '.');
    SplitFirst("public", rest, '.');
  }

  lemma RenderedFields(message: seq<byte>, footer: seq<byte>)
    ensures Split(Render(message, footer), '.') == ["v4", "public", Encode(message)] +
            (if footer == [] then [] else [Encode(footer)])
  {
    EncodedText(message);
    EncodedText(footer);
    if footer == [] {
      assert Render(message, footer) == HEADER + Encode(message);
      SplitHeader(Encode(message));
      SplitField(Encode(message), '.');
    } else {
      var rest := Encode(message) + "." + Encode(footer);
      assert Render(message, footer) == HEADER + rest;
      SplitHeader(rest);
      SplitFirst(Encode(message), Encode(footer), '.');
      SplitField(Encode(footer), '.');
    }
  }

  lemma EncodedEmpty(b: seq<byte>)
    ensures Encode(b) == "" <==> b == []
  {
    assert |Encode(b)| == |ToSextets(b)|;
  }

  lemma JoinThree(m: string)
    ensures Join(["v4", "public", m], '.') == HEADER + m
  {
    var fields := ["v4", "public", m];
    assert fields[1..] == ["public", m] && fields[1..][1..] == [m];
    assert Join(fields[1..], '.') == "public" + "." + m;
  }

  lemma JoinFour(m: string, f: string)
    ensures Join(["v4", "public", m, f], '.') == HEADER + m + ("." + f)
  {
    var fields := ["v4", "public", m, f];
    assert fields[1..] == ["public", m, f] && fields[1..][1..] == [m, f] && fields[1..][1..][1..] == [f];
    assert Join([m, f], '.') == m + "." + f;
    assert Join(fields[1..], '.') == "public" + "." + (m + "." + f);
  }

  /** A text splits exactly when it is the rendering of what it splits into: tokens have one spelling. */
  lemma SplitIffRendered(t: string, message: seq<byte>, footer: seq<byte>)
    ensures SplitToken(t) == Ok((message, footer)) <==> t == Render(message, footer)
  {
    EncodedEmpty(footer);
    if t == Render(message, footer) {
      RenderedFields(message, footer);
      DecodeIffEncoded(Encode(message), message);
      DecodeIffEncoded(Encode(footer), footer);
    }
    if SplitToken(t) == Ok((message, footer)) {
      var fields := Split(t, '.');
      JoinSplit(t, '.');
      DecodeIffEncoded(fields[2], message);
      if |fields| == 3 {
        assert fields == ["v4", "public", fields[2]];
        JoinThree(fields[2]);
      } else {
        DecodeIffEncoded(fields[3], footer);
        assert fields == ["v4", "public", fields[2], fields[3]];
        JoinFour(fields[2], fields[3]);
      }
    }
  }

  /** When a text fails to split, and how. */
  lemma SplitErrors(t: string)
    ensures var f := Split(t, '.');
            var shaped := (|f| == 3 || |f| == 4) && f[0] == "v4" && f[1] == "public";
            && (SplitToken(t) == Err(BadEncoding) <==>
                shaped && (Decode(f[2]).None? || (|f| == 4 && f[3] != "" && Decode(f[3]).None?)))
            && (SplitToken(t) == Err(Malformed) <==> !shaped || (|f| == 4 && f[3] == "" && Decode(f[2]).Some?))
            && SplitToken(t) != Err(BadSignature)
  {
  }

  // ---- Issuing and verifying ----

  type Text = seq<byte>

  /** The ten bytes of "v4.public.". */
  const HEADER_BYTES: Text := [118, 52, 46, 112, 117, 98, 108, 105, 99, 46]

  /** What is signed: header, payload, footer and implicit assertion. */
  function SignedPieces(payload: Text, footer: Text, implicit: Text): seq<Text> {
    [HEADER_BYTES, payload, footer, implicit]
  }

  function SignedText(payload: Text, footer: Text, implicit: Text): Text {
    Pae.Encoding(SignedPieces(payload, footer, implicit), COUNT_WIDTH)
  }

  /** The eight bytes of a length, lowest first. */
  function Length(t: Text): Text {
    Pae.LittleEndian(|t|, 8)
  }

  /**
    The signed text: the number four, then "v4.public.", payload, footer and implicit assertion, in this
    order and each behind its length.
   */
  lemma SignedLayout(payload: Text, footer: Text, implicit: Text)
    ensures SignedText(payload, footer, implicit) ==
            [4, 0, 0, 0, 0, 0, 0, 0] + [10, 0, 0, 0, 0, 0, 0, 0] +
              [118, 52, 46, 112, 117, 98, 108, 105, 99, 46] + Length(payload) + payload + Length(footer) + footer +
                Length(implicit) + implicit
  {
    var h := HEADER_BYTES;
    SmallLength(4, 8);
    SmallLength(10, 8);
    PiecesOfFour(h, payload, footer, implicit, COUNT_WIDTH);
    Prepend([4, 0, 0, 0, 0, 0, 0, 0], [10, 0, 0, 0, 0, 0, 0, 0], h, Length(payload), payload, Length(footer), footer,
            Length(implicit), implicit);
  }

  lemma Assoc(h: Text, x: Text, y: Text)
    ensures h + (x + y) == h + x + y
  {
  }

  lemma Prepend(h: Text, a: Text, b: Text, c: Text, d: Text, e: Text, f: Text, g: Text, i: Text)
    ensures h + (a + b + c + d + e + f + g + i) == h + a + b + c + d + e + f + g + i
  {
    Assoc(h, a + b + c + d + e + f + g, i);
    Assoc(h, a + b + c + d + e + f, g);
    Assoc(h, a + b + c + d + e, f);
    Assoc(h, a + b + c + d, e);
    Assoc(h, a + b + c, d);
    Assoc(h, a + b, c);
    Assoc(h, a, b);
  }

  lemma SmallLength(n: byte, width: nat)
    requires width == 8
    ensures Pae.LittleEndian(n, width) == [n, 0, 0, 0, 0, 0, 0, 0]
  {
    ZeroLength(7);
    assert seq(7, _ => 0) == [0, 0, 0, 0, 0, 0, 0];
  }

  lemma {:induction false} ZeroLength(width: nat)
    ensures Pae.LittleEndian(0, width) == seq(width, _ => 0)
  {
    if width > 0 {
      ZeroLength(width - 1);
    }
  }

  lemma PiecesOfTwo(a: Text, b: Text, w: nat)
    ensures Pae.Pieces([a, b], w) == Pae.LittleEndian(|a|, w) + a + Pae.LittleEndian(|b|, w) + b
  {
    Pae.PiecesAppend([], a, w);
    Pae.PiecesAppend([a], b, w);
    assert [] + [a] == [a] && [a] + [b] == [a, b];
    assert [] + Pae.LittleEndian(|a|, w) == Pae.LittleEndian(|a|, w);
  }

  lemma PiecesOfFour(a: Text, b: Text, c: Text, d: Text, w: nat)
    ensures Pae.Pieces([a, b, c, d], w) ==
            Pae.LittleEndian(|a|, w) + a + Pae.LittleEndian(|b|, w) + b + Pae.LittleEndian(|c|, w) + c +
              Pae.LittleEndian(|d|, w) + d
  {
    PiecesOfTwo(a, b, w);
    Pae.PiecesAppend([a, b], c, w);
    Pae.PiecesAppend([a, b, c], d, w);
    assert [a, b] + [c] == [a, b, c] && [a, b, c] + [d] == [a, b, c, d];
  }

  predicate Encodable(payload: Text, footer: Text, implicit: Text) {
    Pae.Fits(SignedPieces(payload, footer, implicit), COUNT_WIDTH)
  }

  function Issued(S: Scheme, payload: Text, footer: Text, implicit: Text): Result<string> {
    if payload == [] then Err(Malformed)
    else if !Encodable(payload, footer, implicit) then Err(Malformed)
    else Ok(Render(payload + S.sign(SignedText(payload, footer, implicit)), footer))
  }

  /** A token is issued for every payload but the empty one, as long as the lengths fit 64 bits. */
  lemma IssuedIff(S: Scheme, payload: Text, footer: Text, implicit: Text)
    ensures var fits := |payload| < Pow256(8) && |footer| < Pow256(8) && |implicit| < Pow256(8);
            var r := Issued(S, payload, footer, implicit);
            if payload == [] || !fits then r == Err(Malformed)
            else r == Ok("v4.public." + Encode(payload + S.sign(SignedText(payload, footer, implicit))) +
                         if footer == [] then "" else "." + Encode(footer))
  {
    var p := SignedPieces(payload, footer, implicit);
    assert p[0] == HEADER_BYTES && p[1] == payload && p[2] == footer && p[3] == implicit;
    EightBytes();
  }

  lemma EightBytes()
    ensures Pow256(8) > 255
  {
    assert Pow256(7) >= 1;
  }

  method Issue(S: Scheme, payload: Text, footer: Text, implicit: Text) returns (r: Result<string>)
    ensures r == Issued(S, payload, footer, implicit)
  {
    if payload == [] {
      return Err(Malformed);
    }
    var ok, pae := Pae.Encode(SignedPieces(payload, footer, implicit), COUNT_WIDTH);
    if !ok {
      return Err(Malformed);
    }
    var message := payload;
    message := message + S.sign(pae);
    var token := HEADER + Encode(message);
    if footer == [] {
      assert token + "" == token;
      r := Ok(token);
    } else {
      r := Ok(token + "." + Encode(footer));
      assert token + "." + Encode(footer) == token + ("." + Encode(footer));
    }
  }

  /** The checks after splitting; `expected` is the footer the caller insists on, if any. */
  function Checked(S: Scheme, message: Text, footer: Text, expected: Option<Text>, implicit: Text): Result<Text> {
    if expected.Some? && footer != expected.value then Err(BadSignature)
    else if |message| < SIGNATURE_SIZE then Err(Malformed)
    else
      var n := |message| - SIGNATURE_SIZE;
      if !Encodable(message[..n], footer, implicit) then Err(Malformed)
      else if !S.verify(SignedText(message[..n], footer, implicit), message[n..]) then Err(BadSignature)
      else Ok(message[..n])
  }

  function Verify(S: Scheme, t: string, expected: Option<Text>, implicit: Text): Result<Text> {
    match SplitToken(t)
    case Err(e) => Err(e)
    case Ok(parts) => Checked(S, parts.0, parts.1, expected, implicit)
  }

  lemma SchemeAt(S: Scheme, m: Text)
    requires IsScheme(S)
    ensures |S.sign(m)| == SIGNATURE_SIZE && S.verify(m, S.sign(m))
  {
  }

  /** Every issued token verifies back to its payload; insisting on another footer fails. */
  lemma IssuedVerifies(S: Scheme, payload: Text, footer: Text, implicit: Text, other: Text)
    requires IsScheme(S) && Issued(S, payload, footer, implicit).Ok? && other != footer
    ensures var t := Issued(S, payload, footer, implicit).value;
            && SplitToken(t).Ok? && SplitToken(t).value.1 == footer
            && Verify(S, t, None, implicit) == Ok(payload)
            && Verify(S, t, Some(footer), implicit) == Ok(payload)
            && Verify(S, t, Some(other), implicit) == Err(BadSignature)
  {
    var text := SignedText(payload, footer, implicit);
    SchemeAt(S, text);
    var message := payload + S.sign(text);
    SplitIffRendered(Render(message, footer), message, footer);
    assert message[..|payload|] == payload && message[|payload|..] == S.sign(text);
  }

  /** What becomes of the token of a message and a footer: the footer is compared first, then the length, then all. */
  lemma VerifyRendered(S: Scheme, message: Text, footer: Text, expected: Option<Text>, implicit: Text)
    ensures var r, n := Verify(S, Render(message, footer), expected, implicit), |message| - 64;
            if expected.Some? && expected.value != footer then r == Err(BadSignature)
            else if n < 0 || !Encodable(message[..n], footer, implicit) then r == Err(Malformed)
            else if S.verify(SignedText(message[..n], footer, implicit), message[n..]) then r == Ok(message[..n])
            else r == Err(BadSignature)
  {
    SplitIffRendered(Render(message, footer), message, footer);
  }

  lemma SignedTextInjective(p: Text, f: Text, i: Text, p': Text, f': Text, i': Text)
    requires Encodable(p, f, i) && Encodable(p', f', i') && SignedText(p, f, i) == SignedText(p', f', i')
    ensures p == p' && f == f' && i == i'
  {
    var u, v := SignedPieces(p, f, i), SignedPieces(p', f', i');
    Pae.EncodingInjective(u, v, COUNT_WIDTH);
    assert u[1] == v[1] && u[2] == v[2] && u[3] == v[3];
  }

  // ---- One key's issued and presented tokens ----

  /** Payload, footer and implicit assertion. */
  type Triple = (Text, Text, Text)

  /** What the key has signed: the triples of the tokens it issued. */
  ghost predicate WereIssued(signed: set<Triple>) {
    forall e :: e in signed ==> e.0 != [] && Encodable(e.0, e.1, e.2)
  }

  /** The text and signature that verifying a token with this implicit assertion puts to the scheme. */
  function Presented(t: string, implicit: Text): Option<(Text, Text)> {
    match SplitToken(t)
    case Err(_) => None
    case Ok(parts) =>
      if |parts.0| < SIGNATURE_SIZE then None
      else
        var n := |parts.0| - SIGNATURE_SIZE;
        Some((SignedText(parts.0[..n], parts.1, implicit), parts.0[n..]))
  }

  ghost predicate WasSigned(signed: set<Triple>, text: Text) {
    exists e :: e in signed && text == SignedText(e.0, e.1, e.2)
  }

  /** Of all that was ever presented, only what the key has signed verifies. */
  ghost predicate NoForgery(S: Scheme, signed: set<Triple>, presented: set<(Text, Text)>) {
    forall p :: p in presented && S.verify(p.0, p.1) ==> WasSigned(signed, p.0)
  }

  ghost predicate IsPresented(presented: set<(Text, Text)>, t: string, implicit: Text) {
    Presented(t, implicit).Some? ==> Presented(t, implicit).value in presented
  }

  /**
    Acceptance means that exactly this payload, with the token's own footer and the caller's implicit
    assertion, was signed.
   */
  lemma AcceptedWasSigned(S: Scheme, signed: set<Triple>, presented: set<(Text, Text)>, t: string,
                          expected: Option<Text>, implicit: Text)
    requires WereIssued(signed) && NoForgery(S, signed, presented) && IsPresented(presented, t, implicit)
    requires Verify(S, t, expected, implicit).Ok?
    ensures SplitToken(t).Ok?
    ensures var payload, footer := Verify(S, t, expected, implicit).value, SplitToken(t).value.1;
            && (payload, footer, implicit) in signed
            && (expected.Some? ==> footer == expected.value)
            && payload != []
  {
    var message, footer := SplitToken(t).value.0, SplitToken(t).value.1;
    var n := |message| - SIGNATURE_SIZE;
    var payload, text := message[..n], SignedText(message[..n], footer, implicit);
    assert Presented(t, implicit) == Some((text, message[n..]));
    assert WasSigned(signed, text);
    var e :| e in signed && text == SignedText(e.0, e.1, e.2);
    SignedTextInjective(payload, footer, implicit, e.0, e.1, e.2);
    assert e == (payload, footer, implicit);
  }

  lemma IssuedPresents(S: Scheme, e: Triple)
    requires IsScheme(S) && e.0 != [] && Encodable(e.0, e.1, e.2)
    ensures var text := SignedText(e.0, e.1, e.2);
            Presented(Issued(S, e.0, e.1, e.2).value, e.2) == Some((text, S.sign(text)))
  {
    var text := SignedText(e.0, e.1, e.2);
    SchemeAt(S, text);
    var message := e.0 + S.sign(text);
    SplitIffRendered(Render(message, e.1), message, e.1);
    assert message[..|e.0|] == e.0 && message[|e.0|..] == S.sign(text);
  }

  /** Honest use of any scheme whose signatures verify is free of forgery: every issued token may be presented. */
  lemma HonestUse(S: Scheme, signed: set<Triple>) returns (presented: set<(Text, Text)>)
    requires IsScheme(S) && WereIssued(signed)
    ensures NoForgery(S, signed, presented)
    ensures forall e :: e in signed ==> Presented(Issued(S, e.0, e.1, e.2).value, e.2).Some? &&
                                        IsPresented(presented, Issued(S, e.0, e.1, e.2).value, e.2)
  {
    presented := set e | e in signed :: (SignedText(e.0, e.1, e.2), S.sign(SignedText(e.0, e.1, e.2)));
    forall e | e in signed
      ensures Presented(Issued(S, e.0, e.1, e.2).value, e.2).Some?
      ensures IsPresented(presented, Issued(S, e.0, e.1, e.2).value, e.2)
    {
      IssuedPresents(S, e);
    }
  }

  ghost predicate Unique(S: Scheme) {
    forall m, s :: S.verify(m, s) ==> s == S.sign(m)
  }

  ghost predicate IsIssued(S: Scheme, t: string, payload: Text, footer: Text, expected: Option<Text>, implicit: Text) {
    Issued(S, payload, footer, implicit) == Ok(t) && (expected.Some? ==> expected.value == footer)
  }

  lemma AcceptedSignature(S: Scheme, message: Text, footer: Text, expected: Option<Text>, implicit: Text, payload: Text)
    requires Unique(S) && Checked(S, message, footer, expected, implicit) == Ok(payload)
    ensures message == payload + S.sign(SignedText(payload, footer, implicit))
    ensures Encodable(payload, footer, implicit) && (expected.Some? ==> expected.value == footer)
  {
    var n := |message| - SIGNATURE_SIZE;
    assert S.verify(SignedText(payload, footer, implicit), message[n..]);
    assert message == message[..n] + message[n..];
  }

  lemma AcceptedIsIssued(S: Scheme, t: string, payload: Text, expected: Option<Text>, implicit: Text)
    returns (footer: Text)
    requires Unique(S) && payload != [] && Verify(S, t, expected, implicit) == Ok(payload)
    ensures IsIssued(S, t, payload, footer, expected, implicit)
  {
    var message := SplitToken(t).value.0;
    footer := SplitToken(t).value.1;
    SplitIffRendered(t, message, footer);
    AcceptedSignature(S, message, footer, expected, implicit, payload);
  }

  lemma IssuedIsAccepted(S: Scheme, t: string, payload: Text, footer: Text, expected: Option<Text>, implicit: Text)
    requires IsScheme(S) && IsIssued(S, t, payload, footer, expected, implicit)
    ensures Verify(S, t, expected, implicit) == Ok(payload)
  {
    IssuedVerifies(S, payload, footer, implicit, footer + [0]);
  }

  /**
    Where a text has only the one signature, the accepted tokens are the ones the issuer makes,
    character for character.
   */
  lemma AcceptedIffIssued(S: Scheme, t: string, payload: Text, expected: Option<Text>, implicit: Text)
    requires IsScheme(S) && Unique(S) && payload != []
    ensures Verify(S, t, expected, implicit) == Ok(payload) <==>
            exists footer :: IsIssued(S, t, payload, footer, expected, implicit)
  {
    if Verify(S, t, expected, implicit) == Ok(payload) {
      var footer := AcceptedIsIssued(S, t, payload, expected, implicit);
    }
    if footer :| IsIssued(S, t, payload, footer, expected, implicit) {
      IssuedIsAccepted(S, t, payload, footer, expected, implicit);
    }
  }

  /**
    Over the life of a key, with an honest scheme that nobody forges: every issued token verifies
    back to its payload, and what is accepted was issued, with this footer and implicit assertion.
   */
  lemma IssuedAndOnlyIssued(S: Scheme, signed: set<Triple>, presented: set<(Text, Text)>, e: Triple, t: string,
                            expected: Option<Text>, implicit: Text)
    requires IsScheme(S) && WereIssued(signed) && NoForgery(S, signed, presented)
    requires e in signed && IsPresented(presented, t, implicit)
    ensures Issued(S, e.0, e.1, e.2).Ok? &&
            Verify(S, Issued(S, e.0, e.1, e.2).value, Some(e.1), e.2) == Ok(e.0)
    ensures Verify(S, t, expected, implicit).Ok? ==>
            && (Verify(S, t, expected, implicit).value, SplitToken(t).value.1, implicit) in signed
            && (expected.Some? ==> SplitToken(t).value.1 == expected.value)
  {
    IssuedVerifies(S, e.0, e.1, e.2, e.1 + [0]);
    if Verify(S, t, expected, implicit).Ok? {
      AcceptedWasSigned(S, signed, presented, t, expected, implicit);
    }
  }

  /** And if signatures are unique, the accepted tokens are exactly the tokens that were issued. */
  lemma AcceptedIffSigned(S: Scheme, signed: set<Triple>, presented: set<(Text, Text)>, t: string, payload: Text,
                          expected: Option<Text>, implicit: Text)
    requires IsScheme(S) && Unique(S) && WereIssued(signed)
    requires NoForgery(S, signed, presented) && IsPresented(presented, t, implicit)
    ensures Verify(S, t, expected, implicit) == Ok(payload) <==>
            exists footer ::
              (payload, footer, implicit) in signed && IsIssued(S, t, payload, footer, expected, implicit)
  {
    if Verify(S, t, expected, implicit) == Ok(payload) {
      AcceptedWasSigned(S, signed, presented, t, expected, implicit);
      var footer := AcceptedIsIssued(S, t, payload, expected, implicit);
      IssuedVerifies(S, payload, footer, implicit, footer + [0]);
      assert (payload, footer, implicit) in signed;
    }
    if footer :| (payload, footer, implicit) in signed && IsIssued(S, t, payload, footer, expected, implicit) {
      IssuedIsAccepted(S, t, payload, footer, expected, implicit);
    }
  }
}
