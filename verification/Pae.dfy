/**
  Pre-authentication encoding (antiforgery/src/token.rs:277-297): the number of pieces and then
  each piece behind its length, counts as little-endian numbers (eight bytes wide in tokens). No two lists of pieces
  share an encoding, so a signature over one speaks for every piece and every boundary.
 */
module Pae {
  import opened Arithmetic
  import opened Bits
  import opened Powers

  function LittleEndian(n: nat, width: nat): (w: seq<byte>)
    ensures |w| == width
  {
    if width == 0 then [] else [n % 256] + LittleEndian(n / 256, width - 1)
  }

  lemma {:induction false} LittleEndianInjective(m: nat, n: nat, width: nat)
    requires m < Pow256(width) && n < Pow256(width)
    requires LittleEndian(m, width) == LittleEndian(n, width)
    ensures m == n
  {
    if width > 0 {
      var u, v := LittleEndian(m, width), LittleEndian(n, width);
      assert u[0] == v[0] && u[1..] == v[1..];
      assert u[1..] == LittleEndian(m / 256, width - 1) && v[1..] == LittleEndian(n / 256, width - 1);
      LittleEndianInjective(m / 256, n / 256, width - 1);
    }
  }

  /** Byte i counts the 256^i. */
  lemma {:induction false} LittleEndianAt(n: nat, width: nat, i: nat)
    requires i < width
    ensures LittleEndian(n, width)[i] == n / Pow256(i) % 256
  {
    if i > 0 {
      LittleEndianAt(n / 256, width - 1, i - 1);
      DivideTwice(n, Pow256(i - 1));
    }
  }

  type Piece = seq<byte>

  function Pieces(p: seq<Piece>, width: nat): seq<byte> {
    if p == [] then [] else LittleEndian(|p[0]|, width) + p[0] + Pieces(p[1..], width)
  }

  function Encoding(p: seq<Piece>, width: nat): seq<byte> {
    LittleEndian(|p|, width) + Pieces(p, width)
  }

  /** Every length, and the number of pieces, fits the width. */
  predicate Fits(p: seq<Piece>, width: nat) {
    |p| < Pow256(width) && forall i :: 0 <= i < |p| ==> |p[i]| < Pow256(width)
  }

  lemma SplitHead(a: seq<byte>, x: seq<byte>, b: seq<byte>, y: seq<byte>)
    requires a + x == b + y && |a| == |b|
    ensures a == b && x == y
  {
    assert a == (a + x)[..|a|] && b == (b + y)[..|b|];
    assert x == (a + x)[|a|..] && y == (b + y)[|b|..];
  }

  /** Equally many pieces followed by anything: the pieces, and what follows, can be read back. */
  lemma {:induction false} PiecesInjective(p: seq<Piece>, q: seq<Piece>, x: seq<byte>, y: seq<byte>, width: nat)
    requires |p| == |q| && Pieces(p, width) + x == Pieces(q, width) + y
    requires forall i :: 0 <= i < |p| ==> |p[i]| < Pow256(width) && |q[i]| < Pow256(width)
    ensures p == q && x == y
    decreases |p|
  {
    if p == [] {
      assert Pieces(p, width) + x == x && Pieces(q, width) + y == y;
    } else {
      var lp, lq := LittleEndian(|p[0]|, width), LittleEndian(|q[0]|, width);
      var tp, tq := Pieces(p[1..], width) + x, Pieces(q[1..], width) + y;
      assert Pieces(p, width) + x == lp + (p[0] + tp) && Pieces(q, width) + y == lq + (q[0] + tq);
      SplitHead(lp, p[0] + tp, lq, q[0] + tq);
      LittleEndianInjective(|p[0]|, |q[0]|, width);
      SplitHead(p[0], tp, q[0], tq);
      PiecesInjective(p[1..], q[1..], x, y, width);
      assert p == [p[0]] + p[1..] && q == [q[0]] + q[1..];
    }
  }

  lemma EncodingInjective(p: seq<Piece>, q: seq<Piece>, width: nat)
    requires Fits(p, width) && Fits(q, width) && Encoding(p, width) == Encoding(q, width)
    ensures p == q
  {
    SplitHead(LittleEndian(|p|, width), Pieces(p, width), LittleEndian(|q|, width), Pieces(q, width));
    LittleEndianInjective(|p|, |q|, width);
    assert Pieces(p, width) + [] == Pieces(q, width) + [];
    PiecesInjective(p, q, [], [], width);
  }

  lemma PiecesFirst(p: seq<Piece>, width: nat)
    requires p != []
    ensures Pieces(p, width) == LittleEndian(|p[0]|, width) + p[0] + Pieces(p[1..], width)
  {
  }

  lemma Reassociate(a: seq<byte>, b: seq<byte>, c: seq<byte>, d: seq<byte>, e: seq<byte>)
    ensures a + b + (c + d + e) == a + b + c + d + e
  {
  }

  lemma {:induction false} PiecesAppend(p: seq<Piece>, piece: Piece, width: nat)
    ensures Pieces(p + [piece], width) == Pieces(p, width) + LittleEndian(|piece|, width) + piece
    decreases |p|
  {
    var all := p + [piece];
    if p == [] {
      assert all[1..] == [];
    } else {
      PiecesAppend(p[1..], piece, width);
      assert all[1..] == p[1..] + [piece] && all[0] == p[0];
      PiecesFirst(all, width);
      PiecesFirst(p, width);
      Reassociate(LittleEndian(|p[0]|, width), p[0], Pieces(p[1..], width), LittleEndian(|piece|, width), piece);
    }
  }

  lemma OneMorePiece(p: seq<Piece>, i: nat, count: seq<byte>, width: nat)
    requires i < |p|
    ensures count + Pieces(p[..i], width) + LittleEndian(|p[i]|, width) + p[i] == count + Pieces(p[..i + 1], width)
  {
    PiecesAppend(p[..i], p[i], width);
    assert p[..i + 1] == p[..i] + [p[i]];
  }

  /** Not ok where a count does not fit. */
  method Encode(p: seq<Piece>, width: nat) returns (ok: bool, out: seq<byte>)
    ensures ok <==> Fits(p, width)
    ensures ok ==> out == Encoding(p, width)
  {
    var limit := Pow256(width);
    if |p| >= limit {
      return false, [];
    }
    ok, out := EncodePieces(p, width, limit, LittleEndian(|p|, width));
  }

  /** Appends each piece behind its length. */
  method EncodePieces(p: seq<Piece>, width: nat, limit: nat, count: seq<byte>) returns (ok: bool, out: seq<byte>)
    ensures ok <==> forall i :: 0 <= i < |p| ==> |p[i]| < limit
    ensures ok ==> out == count + Pieces(p, width)
  {
    out := count;
    assert out == count + Pieces(p[..0], width);
    for i := 0 to |p|
      invariant forall j :: 0 <= j < i ==> |p[j]| < limit
      invariant out == count + Pieces(p[..i], width)
    {
      if |p[i]| >= limit {
        return false, out;
      }
      OneMorePiece(p, i, count, width);
      out := out + LittleEndian(|p[i]|, width);
      out := out + p[i];
    }
    ok := true;
    assert p[..|p|] == p;
  }
}
