/**
  What the encoder of the erasure code (core-supervisor/src/fec_engine.rs:96-108, 237-292) puts on
  the wire, byte by byte, without the matrices it is computed by: the data shards are the payload
  cut up and padded with zeros, and every parity byte is a sum of quotients.
 */
module SystematicCode {
  import opened Arithmetic
  import opened Bits
  import opened Field
  import opened LinearAlgebra
  import opened ErasureCode

  ghost function Sum(F: Field<byte>, q: seq<byte>, n: nat): byte
    requires n <= |q|
  {
    if n == 0 then 0 else F.add(Sum(F, q, n - 1), q[n - 1])
  }

  function ByteOf(data: seq<byte>, t: nat): byte {
    if t < |data| then data[t] else 0
  }

  /** q[i] is byte b of data shard i, divided by p + (m + i). */
  ghost predicate AreQuotients(F: Field<byte>, data: seq<byte>, k: nat, m: nat, len: nat, p: nat, b: nat, q: seq<byte>)
    requires Supported(k, m) && p < m
  {
    |q| == k && forall i :: 0 <= i < k ==> F.mul(F.add(p, m + i), q[i]) == ByteOf(data, i * len + b)
  }

  ghost predicate IsParityByte(F: Field<byte>, data: seq<byte>, k: nat, m: nat, len: nat, p: nat, b: nat, v: byte)
    requires Supported(k, m) && p < m
  {
    exists q :: AreQuotients(F, data, k, m, len, p, b, q) && v == Sum(F, q, k)
  }

  ghost predicate HasData(s: Shard, data: seq<byte>, i: nat, len: nat) {
    && s.index == i && !s.isParity && |s.data| == len
    && forall b :: 0 <= b < len ==> s.data[b] == ByteOf(data, i * len + b)
  }

  ghost predicate HasParity(F: Field<byte>, s: Shard, data: seq<byte>, k: nat, m: nat, len: nat, p: nat)
    requires Supported(k, m) && p < m
  {
    && s.index == k + p && s.isParity && |s.data| == len
    && forall b :: 0 <= b < len ==> IsParityByte(F, data, k, m, len, p, b, s.data[b])
  }

  /** The shards of a payload, each len bytes long: k of data and m of parity. */
  ghost predicate IsCode(F: Field<byte>, shards: seq<Shard>, data: seq<byte>, k: nat, m: nat, len: nat)
    requires Supported(k, m)
  {
    && |shards| == k + m
    && (forall i :: 0 <= i < k ==> HasData(shards[i], data, i, len))
    && forall j :: k <= j < k + m ==> HasParity(F, shards[j], data, k, m, len, j - k)
  }

  // ---- The codeword is such a code ----

  /** The points of rows and columns never meet. */
  lemma PointsDiffer(F: Field<byte>, k: nat, m: nat, p: nat, i: nat)
    requires IsByteField(F) && Supported(k, m) && p < m && i < k
    ensures F.add(p, m + i) != 0
  {
    AddZero(F, p, m + i);
  }

  lemma ParityEntry(F: Field<byte>, k: nat, m: nat, p: nat, i: nat)
    requires IsByteField(F) && Supported(k, m) && p < m && i < k
    ensures F.mul(F.add(p, m + i), ParityRow(F, k, m, p)[i]) == 1
  {
    PointsDiffer(F, k, m, p, i);
    LawsAt(F, F.add(p, m + i), 0, 0);
  }

  lemma QuotientIs(F: Field<byte>, d: byte, r: byte, x: byte)
    requires IsByteField(F) && F.mul(d, r) == 1
    ensures F.mul(d, F.mul(r, x)) == x
  {
    LawsAt(F, d, r, x);
    LawsAt(F, x, 1, 1);
    LawsAt(F, 1, x, x);
  }

  lemma {:induction false} DotIsSum(F: Field<byte>, u: seq<byte>, v: seq<byte>, q: seq<byte>, n: nat)
    requires F.zero == 0 && n <= |u| && n <= |v| && n <= |q|
    requires forall i :: 0 <= i < n ==> q[i] == F.mul(u[i], v[i])
    ensures Dot(F, u, v, n) == Sum(F, q, n)
  {
    if n > 0 {
      DotIsSum(F, u, v, q, n - 1);
    }
  }

  lemma ParityByteIs(F: Field<byte>, data: seq<byte>, k: nat, m: nat, len: nat, p: nat, b: nat)
    requires IsByteField(F) && Supported(k, m) && p < m && len == ShardLen(|data|, k) && b < len
    ensures IsParityByte(F, data, k, m, len, p, b, Dot(F, ParityRow(F, k, m, p), Slice(data, k, b), k))
  {
    var row, x := ParityRow(F, k, m, p), Slice(data, k, b);
    var q := seq(k, i requires 0 <= i < k => F.mul(row[i], x[i]));
    forall i | 0 <= i < k ensures F.mul(F.add(p, m + i), q[i]) == ByteOf(data, i * len + b) {
      ParityEntry(F, k, m, p, i);
      QuotientIs(F, F.add(p, m + i), row[i], x[i]);
    }
    DotIsSum(F, row, x, q, k);
    assert AreQuotients(F, data, k, m, len, p, b, q);
  }

  lemma ParityShardIs(F: Field<byte>, data: seq<byte>, k: nat, m: nat, len: nat, p: nat, s: Shard)
    requires IsByteField(F) && Supported(k, m) && p < m && len == ShardLen(|data|, k)
    requires s == Shard(k + p, true, ParityShard(F, data, k, m, p))
    ensures HasParity(F, s, data, k, m, len, p)
  {
    forall b | 0 <= b < len ensures IsParityByte(F, data, k, m, len, p, b, s.data[b]) {
      ParityByteIs(F, data, k, m, len, p, b);
    }
  }

  lemma DataShardIs(data: seq<byte>, k: nat, len: nat, i: nat, s: Shard)
    requires k > 0 && len == ShardLen(|data|, k) && s == Shard(i, false, DataShard(data, k, i))
    ensures HasData(s, data, i, len)
  {
    assert Offset(i, len) == i * len;
    forall b | 0 <= b < len ensures s.data[b] == ByteOf(data, i * len + b) {
      assert s.data[b] == PaddedAt(data, Offset(i, len) + b);
    }
  }

  lemma CodewordIsCode(F: Field<byte>, data: seq<byte>, k: nat, m: nat)
    requires IsByteField(F) && Supported(k, m)
    ensures IsCode(F, Codeword(F, data, k, m), data, k, m, ShardLen(|data|, k))
  {
    var len, shards := ShardLen(|data|, k), Codeword(F, data, k, m);
    forall i | 0 <= i < k ensures HasData(shards[i], data, i, len) {
      DataShardIs(data, k, len, i, shards[i]);
    }
    forall j | k <= j < k + m ensures HasParity(F, shards[j], data, k, m, len, j - k) {
      ParityShardIs(F, data, k, m, len, j - k, shards[j]);
    }
  }

  /** The length of the shards is the least, from one on, that makes room for the payload. */
  lemma ShardLenIsLeast(n: nat, k: nat, len: nat)
    requires k > 0 && len > 0
    ensures ShardLen(n, k) <= len <==> n <= k * len
  {
    ShardLenCovers(n, k);
    if ShardLen(n, k) <= len {
      MulMonotone(k, ShardLen(n, k), len);
    } else {
      var t := n + k - 1;
      MulMonotone(k, len + 1, t / k);
      MulStep(k, len + 1);
      assert t == k * (t / k) + t % k;
    }
  }

  // ---- And there is only one ----

  lemma SameQuotient(F: Field<byte>, d: byte, x: byte, y: byte)
    requires IsByteField(F) && d != 0 && F.mul(d, x) == F.mul(d, y)
    ensures x == y
  {
    LawsAt(F, d, x, y);
    LawsAt(F, F.mul(d, x), 0, 0);
    ZeroProduct(F, d, F.add(x, y));
    AddZero(F, x, y);
  }

  lemma SameQuotients(F: Field<byte>, data: seq<byte>, k: nat, m: nat, len: nat, p: nat, b: nat, q: seq<byte>,
                      r: seq<byte>)
    requires IsByteField(F) && Supported(k, m) && p < m
    requires AreQuotients(F, data, k, m, len, p, b, q) && AreQuotients(F, data, k, m, len, p, b, r)
    ensures q == r
  {
    forall i | 0 <= i < k ensures q[i] == r[i] {
      PointsDiffer(F, k, m, p, i);
      SameQuotient(F, F.add(p, m + i), q[i], r[i]);
    }
  }

  lemma OneParityByte(F: Field<byte>, data: seq<byte>, k: nat, m: nat, len: nat, p: nat, b: nat, v: byte, w: byte)
    requires IsByteField(F) && Supported(k, m) && p < m
    requires IsParityByte(F, data, k, m, len, p, b, v) && IsParityByte(F, data, k, m, len, p, b, w)
    ensures v == w
  {
    var q :| AreQuotients(F, data, k, m, len, p, b, q) && v == Sum(F, q, k);
    var r :| AreQuotients(F, data, k, m, len, p, b, r) && w == Sum(F, r, k);
    SameQuotients(F, data, k, m, len, p, b, q, r);
  }

  lemma OneParityShard(F: Field<byte>, s: Shard, t: Shard, data: seq<byte>, k: nat, m: nat, len: nat, p: nat)
    requires IsByteField(F) && Supported(k, m) && p < m
    requires HasParity(F, s, data, k, m, len, p) && HasParity(F, t, data, k, m, len, p)
    ensures s == t
  {
    forall b | 0 <= b < len ensures s.data[b] == t.data[b] {
      OneParityByte(F, data, k, m, len, p, b, s.data[b], t.data[b]);
    }
  }

  lemma OneDataShard(s: Shard, t: Shard, data: seq<byte>, i: nat, len: nat)
    requires HasData(s, data, i, len) && HasData(t, data, i, len)
    ensures s == t
  {
    forall b | 0 <= b < len ensures s.data[b] == t.data[b] {
      assert s.data[b] == ByteOf(data, i * len + b);
    }
  }

  /** The shards of a payload are determined by what they contain. */
  lemma CodeIsUnique(F: Field<byte>, a: seq<Shard>, b: seq<Shard>, data: seq<byte>, k: nat, m: nat, len: nat)
    requires IsByteField(F) && Supported(k, m)
    requires IsCode(F, a, data, k, m, len) && IsCode(F, b, data, k, m, len)
    ensures a == b
  {
    forall j | 0 <= j < k + m ensures a[j] == b[j] {
      if j < k {
        OneDataShard(a[j], b[j], data, j, len);
      } else {
        OneParityShard(F, a[j], b[j], data, k, m, len, j - k);
      }
    }
  }

  // ---- A single one ----

  lemma {:induction false} SumOfOne(F: Field<byte>, q: seq<byte>, i: nat, n: nat)
    requires IsByteField(F) && n <= |q| && i < |q| && forall j :: 0 <= j < n && j != i ==> q[j] == 0
    ensures Sum(F, q, n) == if i < n then q[i] else 0
  {
    if n > 0 {
      SumOfOne(F, q, i, n - 1);
      LawsAt(F, Sum(F, q, n - 1), 0, 0);
      LawsAt(F, 0, q[n - 1], 0);
      LawsAt(F, q[n - 1], 0, 0);
    }
  }

  lemma ZeroQuotient(F: Field<byte>, k: nat, m: nat, p: nat, j: nat, x: byte)
    requires IsByteField(F) && Supported(k, m) && p < m && j < k && F.mul(F.add(p, m + j), x) == 0
    ensures x == 0
  {
    PointsDiffer(F, k, m, p, j);
    ZeroProduct(F, F.add(p, m + j), x);
  }

  /**
    The k bytes that are one at i and zero elsewhere: the parity shard at k + p is the single byte
    that times p + (m + i) is one.
   */
  lemma UnitPayload(F: Field<byte>, shards: seq<Shard>, data: seq<byte>, k: nat, m: nat, i: nat, p: nat)
    requires IsByteField(F) && Supported(k, m) && i < k && p < m && IsCode(F, shards, data, k, m, 1)
    requires |data| == k && data[i] == 1 && forall j :: 0 <= j < k && j != i ==> data[j] == 0
    ensures |shards[k + p].data| == 1 && F.mul(F.add(p, m + i), shards[k + p].data[0]) == 1
  {
    assert HasParity(F, shards[k + p], data, k, m, 1, k + p - k);
    assert IsParityByte(F, data, k, m, 1, p, 0, shards[k + p].data[0]);
    var q :| AreQuotients(F, data, k, m, 1, p, 0, q) && shards[k + p].data[0] == Sum(F, q, k);
    forall j | 0 <= j < k && j != i ensures q[j] == 0 {
      assert F.mul(F.add(p, m + j), q[j]) == ByteOf(data, j * 1 + 0);
      ZeroQuotient(F, k, m, p, j, q[j]);
    }
    SumOfOne(F, q, i, k);
    assert F.mul(F.add(p, m + i), q[i]) == ByteOf(data, i * 1 + 0);
  }
}
