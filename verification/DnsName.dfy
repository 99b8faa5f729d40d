/**
  Domain names in DNS messages (core-supervisor/src/live_signals.rs:717-741, 810-830; sections
  3.1 and 4.1.4 of RFC 1035): labels behind their lengths, ended by a zero byte or by a two-byte
  pointer, which is not followed.
 */
module DnsName {
  import opened Bits
  import opened Fields
  import opened Options

  // ---- Skipping a name ----

  /** Where the name that starts at c ends. */
  function Skip(b: seq<byte>, c: nat): (r: Option<nat>)
    ensures r.Some? ==> c < r.value <= |b|
    decreases |b| - c
  {
    if c >= |b| then None
    else if b[c] == 0 then Some(c + 1)
    else if b[c] >= 192 then (if c + 2 <= |b| then Some(c + 2) else None)
    else if b[c] >= 64 then None
    else if c + 1 + b[c] as nat > |b| then None
    else Skip(b, c + 1 + b[c] as nat)
  }

  method SkipName(b: seq<byte>, start: nat) returns (end: Option<nat>)
    ensures end == Skip(b, start)
  {
    var cursor := start;
    while true
      invariant Skip(b, start) == Skip(b, cursor)
      decreases |b| - cursor
    {
      if cursor >= |b| {
        return None;
      }
      var length := b[cursor];
      if length == 0 {
        return Some(cursor + 1);
      }
      if length >= 192 {
        if cursor + 2 <= |b| {
          return Some(cursor + 2);
        }
        return None;
      }
      if length >= 64 {
        return None;
      }
      cursor := cursor + (1 + length as nat);
      if cursor > |b| {
        return None;
      }
    }
  }

  /** A name as the standard writes it. */
  predicate IsName(w: seq<byte>) {
    && |w| > 0
    && if w[0] == 0 then |w| == 1
       else if w[0] >= 192 then |w| == 2
       else w[0] < 64 && 1 + w[0] as nat <= |w| && IsName(w[1 + w[0] as nat..])
  }

  /** Skipping finds e exactly when a name lies between c and e. */
  lemma {:induction false} SkipIffName(b: seq<byte>, c: nat, e: nat)
    ensures Skip(b, c) == Some(e) <==> c <= e <= |b| && IsName(b[c..e])
    decreases |b| - c
  {
    if c < |b| && 0 < b[c] < 64 {
      var next := c + 1 + b[c] as nat;
      if next <= |b| {
        SkipIffName(b, next, e);
        if next <= e <= |b| {
          assert b[c..e][1 + b[c] as nat..] == b[next..e];
        } else if c < e <= |b| {
          assert b[c..e][0] == b[c];
        }
      } else if c < e <= |b| {
        assert b[c..e][0] == b[c];
      }
    } else if c < |b| && c < e <= |b| {
      assert b[c..e][0] == b[c];
    }
  }

  // ---- Writing a name ----

  const DOT: byte := 46

  function TrimDots(name: seq<byte>): (t: seq<byte>)
    ensures |t| <= |name|
  {
    if name != [] && name[|name| - 1] == DOT then TrimDots(name[..|name| - 1]) else name
  }

  predicate IsLabelByte(c: byte) {
    48 <= c <= 57 || 65 <= c <= 90 || 97 <= c <= 122 || c == 45 || c == 95
  }

  predicate IsLabel(part: seq<byte>) {
    0 < |part| <= 63 && forall i :: 0 <= i < |part| ==> IsLabelByte(part[i])
  }

  function LabelsBytes(labels: seq<seq<byte>>): seq<byte>
    requires forall i :: 0 <= i < |labels| ==> IsLabel(labels[i])
  {
    if labels == [] then []
    else
      assert IsLabel(labels[0]);
      var length: byte := |labels[0]|;
      [length] + labels[0] + LabelsBytes(labels[1..])
  }

  predicate Encodable(name: seq<byte>) {
    var t := TrimDots(name);
    && t != [] && |t| <= 253
    && forall i :: 0 <= i < |Split(t, DOT)| ==> IsLabel(Split(t, DOT)[i])
  }

  function Encoded(name: seq<byte>): seq<byte>
    requires Encodable(name)
  {
    LabelsBytes(Split(TrimDots(name), DOT)) + [0]
  }

  lemma {:induction false} LabelsAppend(labels: seq<seq<byte>>, part: seq<byte>)
    requires IsLabel(part) && forall i :: 0 <= i < |labels| ==> IsLabel(labels[i])
    ensures LabelsBytes(labels + [part]) == LabelsBytes(labels) + [|part|] + part
    decreases |labels|
  {
    var all := labels + [part];
    if labels == [] {
      assert all[1..] == [];
    } else {
      LabelsAppend(labels[1..], part);
      assert all[1..] == labels[1..] + [part];
    }
  }

  /** Appends the name to the output; on a bad name, Err, and the source leaves off there. */
  method EncodeName(name: seq<byte>, output: seq<byte>) returns (r: Option<seq<byte>>)
    ensures r == if Encodable(name) then Some(output + Encoded(name)) else None
  {
    var trimmed := TrimDots(name);
    if trimmed == [] || |trimmed| > 253 {
      return None;
    }
    var labels := Split(trimmed, DOT);
    var out := output;
    for i := 0 to |labels|
      invariant forall j :: 0 <= j < i ==> IsLabel(labels[j])
      invariant out == output + LabelsBytes(labels[..i])
    {
      if !IsLabel(labels[i]) {
        return None;
      }
      LabelsAppend(labels[..i], labels[i]);
      assert labels[..i + 1] == labels[..i] + [labels[i]];
      out := out + [|labels[i]|];
      out := out + labels[i];
    }
    assert labels[..|labels|] == labels;
    out := out + [0];
    assert out == output + (LabelsBytes(labels) + [0]);
    r := Some(out);
  }

  lemma {:induction false} LabelsLength(labels: seq<seq<byte>>)
    requires labels != [] && forall i :: 0 <= i < |labels| ==> IsLabel(labels[i])
    ensures |LabelsBytes(labels)| == |Join(labels, DOT)| + 1
    decreases |labels|
  {
    if |labels| > 1 {
      LabelsLength(labels[1..]);
    } else {
      assert labels[1..] == [];
    }
  }

  lemma LabelsFirst(labels: seq<seq<byte>>, w: seq<byte>)
    requires labels != [] && (forall i :: 0 <= i < |labels| ==> IsLabel(labels[i])) && w == LabelsBytes(labels) + [0]
    ensures var n := |labels[0]|;
            && 0 < n < 64 && n + 1 < |w| && w[0] == n && w[1..1 + n] == labels[0]
            && w[1 + n..] == LabelsBytes(labels[1..]) + [0]
  {
    assert IsLabel(labels[0]);
    LeadParts(|labels[0]|, labels[0], LabelsBytes(labels[1..]));
  }

  lemma LeadParts(n: byte, part: seq<byte>, rest: seq<byte>)
    ensures var w := [n] + part + rest + [0];
            |w| > |part| + 1 && w[0] == n && w[1..1 + |part|] == part && w[1 + |part|..] == rest + [0]
  {
  }

  lemma {:induction false} LabelsAreName(labels: seq<seq<byte>>)
    requires forall i :: 0 <= i < |labels| ==> IsLabel(labels[i])
    ensures IsName(LabelsBytes(labels) + [0])
    decreases |labels|
  {
    if labels != [] {
      LabelsAreName(labels[1..]);
      LabelsFirst(labels, LabelsBytes(labels) + [0]);
    }
  }

  /** An encoded name is a name, two bytes longer than the text without trailing dots, and so at most 255 bytes long. */
  lemma EncodedIsName(name: seq<byte>)
    requires Encodable(name)
    ensures IsName(Encoded(name)) && |Encoded(name)| == |TrimDots(name)| + 2 <= 255
  {
    var t := TrimDots(name);
    LabelsAreName(Split(t, DOT));
    LabelsLength(Split(t, DOT));
    JoinSplit(t, DOT);
  }

  /** Skipping lands exactly past any encoded name, wherever it stands. */
  lemma SkipLandsPastEncoded(before: seq<byte>, name: seq<byte>, after: seq<byte>)
    requires Encodable(name)
    ensures Skip(before + Encoded(name) + after, |before|) == Some(|before| + |Encoded(name)|)
  {
    EncodedIsName(name);
    var b, e := before + Encoded(name) + after, |before| + |Encoded(name)|;
    assert b[|before|..e] == Encoded(name);
    SkipIffName(b, |before|, e);
  }

  // ---- What an encoded name says ----

  /** The labels of a name without pointers, read off its bytes. */
  function LabelsOf(w: seq<byte>): Option<seq<seq<byte>>> {
    if w == [] || w[0] >= 64 then None
    else if w[0] == 0 then (if |w| == 1 then Some([]) else None)
    else if |w| < 1 + w[0] as nat then None
    else
      match LabelsOf(w[1 + w[0] as nat..])
      case None => None
      case Some(rest) => Some([w[1..1 + w[0] as nat]] + rest)
  }

  lemma {:induction false} LabelsRead(labels: seq<seq<byte>>)
    requires forall i :: 0 <= i < |labels| ==> IsLabel(labels[i])
    ensures LabelsOf(LabelsBytes(labels) + [0]) == Some(labels)
    decreases |labels|
  {
    if labels != [] {
      LabelsRead(labels[1..]);
      LabelsFirst(labels, LabelsBytes(labels) + [0]);
      assert labels == [labels[0]] + labels[1..];
    }
  }

  lemma {:induction false} TrimmedDots(name: seq<byte>)
    ensures TrimDots(name) <= name && forall i :: |TrimDots(name)| <= i < |name| ==> name[i] == 46
    ensures var t := TrimDots(name); t == [] || t[|t| - 1] != 46
    decreases |name|
  {
    if name != [] && name[|name| - 1] == DOT {
      TrimmedDots(name[..|name| - 1]);
    }
  }

  /** Letters, digits, hyphen and underscore, 1 to 63 of them. */
  predicate IsPlainLabel(l: seq<byte>) {
    1 <= |l| <= 63 && forall i :: 0 <= i < |l| ==> IsPlain(l[i])
  }

  predicate IsPlain(c: byte) {
    '0' as int <= c <= '9' as int || 'A' as int <= c <= 'Z' as int || 'a' as int <= c <= 'z' as int
    || c == '-' as int || c == '_' as int
  }

  /** A name spells its labels: they are joined by dots, and any number of dots may follow. */
  ghost predicate Spelled(name: seq<byte>, labels: seq<seq<byte>>) {
    && labels != [] && (forall i :: 0 <= i < |labels| ==> IsPlainLabel(labels[i]))
    && var t := Join(labels, 46);
       |t| <= 253 && t <= name && forall i :: |t| <= i < |name| ==> name[i] == 46
  }

  /** What is written for a name reads back as the labels it spells. */
  lemma EncodedSpells(name: seq<byte>)
    requires Encodable(name)
    ensures LabelsOf(Encoded(name)).Some? && Spelled(name, LabelsOf(Encoded(name)).value)
  {
    var labels := Split(TrimDots(name), DOT);
    LabelsRead(labels);
    JoinSplit(TrimDots(name), DOT);
    TrimmedDots(name);
    forall i | 0 <= i < |labels| ensures IsPlainLabel(labels[i]) {
      assert IsLabel(labels[i]);
    }
  }

  lemma {:induction false} SplitJoined(labels: seq<seq<byte>>)
    requires labels != [] && forall i :: 0 <= i < |labels| ==> IsPlainLabel(labels[i])
    ensures Split(Join(labels, DOT), DOT) == labels
    decreases |labels|
  {
    NoDot(labels[0]);
    if |labels| == 1 {
      SplitField(labels[0], DOT);
    } else {
      SplitJoined(labels[1..]);
      SplitFirst(labels[0], Join(labels[1..], DOT), DOT);
      assert labels == [labels[0]] + labels[1..];
    }
  }

  lemma NoDot(l: seq<byte>)
    requires IsPlainLabel(l)
    ensures DOT !in l
  {
    forall i | 0 <= i < |l| ensures l[i] != DOT {
      assert IsPlain(l[i]);
    }
  }

  lemma {:induction false} JoinedEnd(labels: seq<seq<byte>>)
    requires labels != [] && forall i :: 0 <= i < |labels| ==> IsPlainLabel(labels[i])
    ensures var t := Join(labels, DOT); t != [] && t[|t| - 1] != DOT
    decreases |labels|
  {
    if |labels| > 1 {
      JoinedEnd(labels[1..]);
    } else {
      assert IsPlain(labels[0][|labels[0]| - 1]);
    }
  }

  lemma {:induction false} TrimIs(name: seq<byte>, t: seq<byte>)
    requires t <= name && (t == [] || t[|t| - 1] != DOT) && forall i :: |t| <= i < |name| ==> name[i] == DOT
    ensures TrimDots(name) == t
    decreases |name|
  {
    if |t| < |name| {
      TrimIs(name[..|name| - 1], t);
    }
  }

  /** A name can be written exactly if it spells labels. */
  lemma EncodableIffSpelled(name: seq<byte>)
    ensures Encodable(name) <==> exists labels :: Spelled(name, labels)
  {
    if Encodable(name) {
      EncodedSpells(name);
    }
    if labels :| Spelled(name, labels) {
      var t := Join(labels, DOT);
      JoinedEnd(labels);
      TrimIs(name, t);
      SplitJoined(labels);
      forall i | 0 <= i < |labels| ensures IsLabel(labels[i]) {
        assert IsPlainLabel(labels[i]);
        forall j | 0 <= j < |labels[i]| ensures IsLabelByte(labels[i][j]) {
          assert IsPlain(labels[i][j]);
        }
      }
    }
  }
}
