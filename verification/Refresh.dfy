/**
  Refresh tokens under a rotating key (antiforgery/src/replay.rs:65-144): a tag over token id,
  nonce and time is accepted under the current key or the one before it, near its own time.

  The message authentication code is a parameter, as HMAC is to the source.
 */
module Refresh {
  import opened Arithmetic
  import opened Bits
  import opened Options
  import opened Powers

  type Bytes = seq<byte>
  type Mac = (Bytes, Bytes) -> Bytes

  datatype Verdict = Accepted | StaleRefresh | BadHmac

  // ---- The message ----

  function BigEndian(n: nat, width: nat): (w: seq<byte>)
    ensures |w| == width
  {
    if width == 0 then [] else BigEndian(n / 256, width - 1) + [n % 256]
  }

  lemma {:induction false} BigEndianInjective(m: nat, n: nat, width: nat)
    requires m < Pow256(width) && n < Pow256(width) && BigEndian(m, width) == BigEndian(n, width)
    ensures m == n
    decreases width
  {
    if width > 0 {
      var u, v := BigEndian(m, width), BigEndian(n, width);
      assert u[width - 1] == v[width - 1] && u[..width - 1] == v[..width - 1];
      BigEndianInjective(m / 256, n / 256, width - 1);
    }
  }

  /** Byte i from the end counts the 256^i. */
  lemma {:induction false} BigEndianAt(n: nat, width: nat, i: nat)
    requires i < width
    ensures BigEndian(n, width)[width - 1 - i] == n / Pow256(i) % 256
    decreases width
  {
    if i > 0 {
      BigEndianAt(n / 256, width - 1, i - 1);
      DivideTwice(n, Pow256(i - 1));
    }
  }

  const TIME_WIDTH: nat := 8

  /** The times a signed 64-bit number can hold. */
  predicate IsTime(t: int) {
    0 <= 2 * t + Pow256(TIME_WIDTH) && 2 * t < Pow256(TIME_WIDTH)
  }

  function TwosComplement(t: int): nat
    requires IsTime(t)
  {
    if t < 0 then t + Pow256(TIME_WIDTH) else t
  }

  function Message(id: Bytes, nonce: Bytes, time: int): Bytes
    requires IsTime(time)
  {
    id + [0] + nonce + [0] + BigEndian(TwosComplement(time), TIME_WIDTH)
  }

  method RefreshMessage(id: Bytes, nonce: Bytes, time: int) returns (m: Bytes)
    requires IsTime(time)
    ensures m == Message(id, nonce, time)
  {
    m := id;
    m := m + [0];
    m := m + nonce;
    m := m + [0];
    m := m + BigEndian(TwosComplement(time), TIME_WIDTH);
  }

  /** The message: the id, a zero, the nonce, a zero, and eight bytes of time, the highest first. */
  lemma MessageLayout(id: Bytes, nonce: Bytes, time: int, i: nat)
    requires IsTime(time) && i < 8
    ensures var m, n := Message(id, nonce, time), |id| + |nonce|;
            && |m| == n + 10 && m[..|id|] == id && m[|id|] == 0 && m[|id| + 1..n + 1] == nonce && m[n + 1] == 0
            && m[n + 9 - i] == (if time < 0 then time + Pow256(8) else time) / Pow256(i) % 256
  {
    var t := BigEndian(TwosComplement(time), TIME_WIDTH);
    BigEndianAt(TwosComplement(time), TIME_WIDTH, i);
    assert Message(id, nonce, time)[|id| + |nonce| + 2..] == t;
  }

  /** No other id, nonce and time make the same message. */
  ghost predicate Unambiguous(id: Bytes, nonce: Bytes, time: int)
    requires IsTime(time)
  {
    forall id', nonce', time' :: IsTime(time') && Message(id', nonce', time') == Message(id, nonce, time) ==>
      id' == id && nonce' == nonce && time' == time
  }

  function Zeros(b: Bytes): nat {
    if b == [] then 0 else Zeros(b[1..]) + (if b[0] == 0 then 1 else 0)
  }

  lemma {:induction false} ZerosConcat(a: Bytes, b: Bytes)
    ensures Zeros(a + b) == Zeros(a) + Zeros(b)
    decreases |a|
  {
    if a == [] {
      assert a + b == b;
    } else {
      ZerosConcat(a[1..], b);
      assert (a + b)[1..] == a[1..] + b;
    }
  }

  lemma {:induction false} NoZeros(b: Bytes)
    ensures Zeros(b) == 0 <==> 0 !in b
    decreases |b|
  {
    if b != [] {
      NoZeros(b[1..]);
      assert b == [b[0]] + b[1..];
    }
  }

  /** The head of a message, without the time. */
  function Head(id: Bytes, nonce: Bytes): Bytes {
    id + [0] + nonce + [0]
  }

  lemma HeadZeros(id: Bytes, nonce: Bytes)
    ensures Zeros(Head(id, nonce)) == Zeros(id) + Zeros(nonce) + 2
  {
    assert [0 as byte][1..] == [];
    ZerosConcat(id + [0] + nonce, [0]);
    ZerosConcat(id + [0], nonce);
    ZerosConcat(id, [0]);
  }

  lemma ZeroNotWithin(id: Bytes, rest: Bytes, k: nat)
    requires 0 !in id && k < |id + [0] + rest| && (id + [0] + rest)[k] == 0
    ensures k >= |id|
  {
  }

  lemma SameFirstZero(id: Bytes, rest: Bytes, id': Bytes, rest': Bytes)
    requires 0 !in id && 0 !in id' && id + [0] + rest == id' + [0] + rest'
    ensures id == id' && rest == rest'
  {
    var m, m' := id + [0] + rest, id' + [0] + rest';
    ZeroNotWithin(id', rest', |id|);
    ZeroNotWithin(id, rest, |id'|);
    assert m[..|id|] == id && m'[..|id'|] == id' && m[|id| + 1..] == rest && m'[|id'| + 1..] == rest';
  }

  lemma HeadInjective(id: Bytes, nonce: Bytes, id': Bytes, nonce': Bytes)
    requires 0 !in id && 0 !in nonce && Head(id, nonce) == Head(id', nonce')
    ensures id == id' && nonce == nonce'
  {
    HeadZeros(id, nonce);
    HeadZeros(id', nonce');
    NoZeros(id);
    NoZeros(nonce);
    NoZeros(id');
    NoZeros(nonce');
    assert Head(id, nonce) == id + [0] + (nonce + [0]) && Head(id', nonce') == id' + [0] + (nonce' + [0]);
    SameFirstZero(id, nonce + [0], id', nonce' + [0]);
    assert nonce == (nonce + [0])[..|nonce|] && nonce' == (nonce' + [0])[..|nonce'|];
  }

  lemma MessageParts(id: Bytes, nonce: Bytes, time: int, id': Bytes, nonce': Bytes, time': int)
    requires IsTime(time) && IsTime(time') && Message(id, nonce, time) == Message(id', nonce', time')
    ensures Head(id, nonce) == Head(id', nonce') && time == time'
  {
    var h, h' := Head(id, nonce), Head(id', nonce');
    var t, t' := BigEndian(TwosComplement(time), TIME_WIDTH), BigEndian(TwosComplement(time'), TIME_WIDTH);
    assert h + t == h' + t' && |t| == |t'|;
    assert h == (h + t)[..|h|] && h' == (h' + t')[..|h'|] && t == (h + t)[|h|..] && t' == (h' + t')[|h'|..];
    BigEndianInjective(TwosComplement(time), TwosComplement(time'), TIME_WIDTH);
  }

  lemma ZeroInId(id: Bytes, nonce: Bytes, time: int, i: nat)
    requires IsTime(time) && i < |id| && id[i] == 0
    ensures !Unambiguous(id, nonce, time)
  {
    var id', nonce' := id[..i], id[i + 1..] + [0] + nonce;
    assert id == id' + [0] + id[i + 1..];
    assert Head(id', nonce') == Head(id, nonce);
    assert Message(id', nonce', time) == Message(id, nonce, time);
    assert |id'| != |id|;
  }

  lemma ZeroInNonce(id: Bytes, nonce: Bytes, time: int, i: nat)
    requires IsTime(time) && i < |nonce| && nonce[i] == 0
    ensures !Unambiguous(id, nonce, time)
  {
    var id', nonce' := id + [0] + nonce[..i], nonce[i + 1..];
    assert nonce == nonce[..i] + [0] + nonce';
    assert Head(id', nonce') == Head(id, nonce);
    assert Message(id', nonce', time) == Message(id, nonce, time);
    assert |id'| != |id|;
  }

  /** The message stands for one id, nonce and time exactly when neither id nor nonce holds the separator. */
  lemma UnambiguousIff(id: Bytes, nonce: Bytes, time: int)
    requires IsTime(time)
    ensures Unambiguous(id, nonce, time) <==> 0 !in id && 0 !in nonce
  {
    if 0 in id {
      var i :| 0 <= i < |id| && id[i] == 0;
      ZeroInId(id, nonce, time, i);
    } else if 0 in nonce {
      var i :| 0 <= i < |nonce| && nonce[i] == 0;
      ZeroInNonce(id, nonce, time, i);
    } else {
      forall id', nonce', time' | IsTime(time') && Message(id', nonce', time') == Message(id, nonce, time)
        ensures id' == id && nonce' == nonce && time' == time
      {
        MessageParts(id, nonce, time, id', nonce', time');
        HeadInjective(id, nonce, id', nonce');
      }
    }
  }

  // ---- Rotating keys ----

  datatype Keys = Keys(current: Bytes, previous: Option<Bytes>)

  function Rotated(k: Keys, key: Bytes): Keys {
    Keys(key, Some(k.current))
  }

  function Rotations(first: Bytes, keys: seq<Bytes>): Keys {
    if keys == [] then Keys(first, None) else Rotated(Rotations(first, keys[..|keys| - 1]), keys[|keys| - 1])
  }

  function Abs(n: int): nat {
    if n < 0 then -n else n
  }

  function Verify(mac: Mac, k: Keys, skew: int, id: Bytes, nonce: Bytes, time: int, tag: Bytes, now: int): Verdict
    requires IsTime(time)
  {
    if Abs(now - time) > skew then StaleRefresh
    else if mac(k.current, Message(id, nonce, time)) == tag then Accepted
    else if k.previous.Some? && mac(k.previous.value, Message(id, nonce, time)) == tag then Accepted
    else BadHmac
  }

  const BLOCK_SIZE := 64

  /**
    The key block of HMAC (RFC 2104): a key longer than a block is hashed first, and every key is
    padded with zeros.
   */
  function KeyBlock(hash: Bytes -> Bytes, key: Bytes): Bytes {
    var k := if |key| > BLOCK_SIZE then hash(key) else key;
    if |k| < BLOCK_SIZE then k + seq(BLOCK_SIZE - |k|, _ => 0) else k
  }

  /** Two keys and messages share a tag exactly when the key blocks and the messages are the same. */
  ghost predicate IsIdeal(mac: Mac, hash: Bytes -> Bytes) {
    forall k, m, k', m' :: mac(k, m) == mac(k', m') <==> KeyBlock(hash, k) == KeyBlock(hash, k') && m == m'
  }

  lemma {:induction false} LastTwoKeys(first: Bytes, keys: seq<Bytes>)
    ensures var all, k := [first] + keys, Rotations(first, keys);
            k.current == all[|all| - 1] && k.previous == if |all| == 1 then None else Some(all[|all| - 2])
    decreases |keys|
  {
    if keys != [] {
      LastTwoKeys(first, keys[..|keys| - 1]);
    }
  }

  /** Keys that make the same tags. */
  ghost predicate SameKey(hash: Bytes -> Bytes, a: Bytes, b: Bytes) {
    KeyBlock(hash, a) == KeyBlock(hash, b)
  }

  /**
    However often the key was rotated, a tag made with some key is accepted exactly near its own
    time, for its own message, and while that key is one of the last two.
   */
  lemma AcceptedIff(mac: Mac, hash: Bytes -> Bytes, first: Bytes, keys: seq<Bytes>, skew: int, key: Bytes, made: Bytes,
                    id: Bytes, nonce: Bytes, time: int, now: int)
    requires IsIdeal(mac, hash) && IsTime(time)
    ensures var all := [first] + keys;
            Verify(mac, Rotations(first, keys), skew, id, nonce, time, mac(key, made), now).Accepted? <==>
            && Abs(now - time) <= skew
            && made == Message(id, nonce, time)
            && (SameKey(hash, key, all[|all| - 1]) || (|all| > 1 && SameKey(hash, key, all[|all| - 2])))
    ensures Verify(mac, Rotations(first, keys), skew, id, nonce, time, mac(key, made), now).StaleRefresh? <==>
            now - time > skew || time - now > skew
  {
    LastTwoKeys(first, keys);
  }

  /** A key and the same key followed by a zero are one key to the code, if they fit in a block. */
  lemma PaddedKeys(hash: Bytes -> Bytes, key: Bytes)
    requires |key| < BLOCK_SIZE
    ensures SameKey(hash, key, key + [0])
  {
    assert KeyBlock(hash, key) == KeyBlock(hash, key + [0]);
  }

  class RefreshVerifier {
    var keys: Keys
    const skew: int
    const mac: Mac

    constructor (key: Bytes, skew: int, mac: Mac)
      ensures keys == Keys(key, None) && this.skew == (if skew < 0 then 0 else skew) && this.mac == mac
    {
      keys, this.skew, this.mac := Keys(key, None), if skew < 0 then 0 else skew, mac;
    }

    /** The current key becomes the previous one; the one before is forgotten. */
    method Rotate(key: Bytes)
      modifies this
      ensures keys == Rotated(old(keys), key)
    {
      var demoted := keys.current;
      keys := Keys(key, Some(demoted));
    }

    method Check(id: Bytes, nonce: Bytes, time: int, tag: Bytes, now: int) returns (v: Verdict)
      requires IsTime(time)
      ensures v == Verify(mac, keys, skew, id, nonce, time, tag, now)
    {
      if Abs(now - time) > skew {
        return StaleRefresh;
      }
      var m := RefreshMessage(id, nonce, time);
      if mac(keys.current, m) == tag {
        return Accepted;
      }
      if keys.previous.Some? {
        if mac(keys.previous.value, m) == tag {
          return Accepted;
        }
      }
      v := BadHmac;
    }
  }
}
