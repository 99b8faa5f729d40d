/**
  The encoder and decoder of the erasure code (core-supervisor/src/fec_engine.rs, `FecEncoder`
  and `FecDecoder`): the byte loops, proved against the code of ErasureCode.
 */
module Fec {
  import opened Arithmetic
  import opened Bits
  import opened Field
  import opened LinearAlgebra
  import opened Cauchy
  import opened ErasureCode
  import opened SystematicCode
  import GaussJordan
  import Gf256

  datatype Error =
    | EmptyData
    | InvalidConfig
    | NotEnoughShards(got: nat, need: nat)
    | NotEnoughParity(missing: nat, parity: nat)
    | PayloadTooLarge(needed: nat, shardSize: nat)
    | DecodeFailed

  datatype Result<+T> = Ok(value: T) | Err(error: Error)

  // ---- Encoding ----

  method CauchyParityMatrix(F: Field<byte>, k: nat, m: nat) returns (rows: seq<seq<byte>>)
    requires Supported(k, m)
    ensures |rows| == m && forall p :: 0 <= p < m ==> rows[p] == ParityRow(F, k, m, p)
    ensures forall p :: 0 <= p < m ==> |rows[p]| == k
    ensures IsByteField(F) ==>
              forall p, i :: 0 <= p < m && 0 <= i < k ==> F.mul(F.add(p, m + i), rows[p][i]) == 1
  {
    rows := [];
    for p := 0 to m
      invariant |rows| == p && forall q :: 0 <= q < p ==> rows[q] == ParityRow(F, k, m, q)
    {
      var row: seq<byte> := [];
      for i := 0 to k
        invariant |row| == i && forall j :: 0 <= j < i ==> row[j] == F.inv(F.add(p, m + j))
      {
        row := row + [F.inv(F.add(p, m + i))];
      }
      assert row == ParityRow(F, k, m, p);
      rows := rows + [row];
    }
    if IsByteField(F) {
      forall p, i | 0 <= p < m && 0 <= i < k ensures F.mul(F.add(p, m + i), rows[p][i]) == 1 {
        ParityEntry(F, k, m, p, i);
      }
    }
  }

  /** Cuts out data shard i, padded with zeros. */
  method CutShard(data: seq<byte>, k: nat, i: nat) returns (shard: seq<byte>)
    requires k > 0
    ensures shard == DataShard(data, k, i)
  {
    var len := ShardLen(|data|, k);
    var start := Offset(i, len);
    var end := if start + len < |data| then start + len else |data|;
    shard := if start < |data| then data[start..end] else [];
    shard := shard + Zeros(len - |shard|);
    forall b | 0 <= b < len ensures shard[b] == PaddedAt(data, start + b) {
    }
  }

  /** Adds coef times src to every byte of acc, as far as src reaches. */
  method AddScaled(F: Field<byte>, acc: seq<byte>, coef: byte, src: seq<byte>) returns (out: seq<byte>)
    ensures |out| == |acc|
    ensures forall b :: 0 <= b < |acc| ==> out[b] == if b < |src| then F.add(acc[b], F.mul(coef, src[b])) else acc[b]
  {
    out := acc;
    var n := if |acc| < |src| then |acc| else |src|;
    for b := 0 to n
      invariant |out| == |acc|
      invariant forall c :: 0 <= c < b ==> out[c] == F.add(acc[c], F.mul(coef, src[c]))
      invariant forall c :: b <= c < |acc| ==> out[c] == acc[c]
    {
      out := out[b := F.add(out[b], F.mul(coef, src[b]))];
    }
  }

  /** The sum of the first i terms, in every byte. */
  ghost function PartialParity(F: Field<byte>, data: seq<byte>, k: nat, row: seq<byte>, i: nat): seq<byte>
    requires k > 0 && i <= k <= |row|
  {
    var len := ShardLen(|data|, k);
    seq(len, b requires 0 <= b < len => Dot(F, row, Slice(data, k, b), i))
  }

  lemma ParityStarts(F: Field<byte>, data: seq<byte>, k: nat, row: seq<byte>)
    requires IsByteField(F) && k > 0 && k <= |row|
    ensures PartialParity(F, data, k, row, 0) == Zeros(ShardLen(|data|, k))
  {
  }

  lemma ParityTerm(F: Field<byte>, data: seq<byte>, k: nat, row: seq<byte>, i: nat, b: nat, shard: seq<byte>)
    requires k > 0 && i < k <= |row| && shard == DataShard(data, k, i) && b < ShardLen(|data|, k)
    ensures Dot(F, row, Slice(data, k, b), i + 1) == F.add(Dot(F, row, Slice(data, k, b), i), F.mul(row[i], shard[b]))
  {
  }

  /** One term more in every byte. */
  lemma ParityGrows(F: Field<byte>, data: seq<byte>, k: nat, row: seq<byte>, i: nat, shard: seq<byte>, next: seq<byte>)
    requires k > 0 && i < k <= |row| && shard == DataShard(data, k, i) && |next| == |shard|
    requires var parity := PartialParity(F, data, k, row, i);
             forall b :: 0 <= b < |next| ==> next[b] == F.add(parity[b], F.mul(row[i], shard[b]))
    ensures next == PartialParity(F, data, k, row, i + 1)
  {
    forall b | 0 <= b < |next| ensures next[b] == PartialParity(F, data, k, row, i + 1)[b] {
      ParityTerm(F, data, k, row, i, b, shard);
    }
  }

  lemma ParityIsWhole(F: Field<byte>, data: seq<byte>, k: nat, m: nat, p: nat)
    requires Supported(k, m) && p < m && |ParityRow(F, k, m, p)| == k
    ensures PartialParity(F, data, k, ParityRow(F, k, m, p), k) == ParityShard(F, data, k, m, p)
  {
  }

  /** The sum of row[i] times data shard i, byte by byte. */
  method SumShards(F: Field<byte>, data: seq<byte>, k: nat, row: seq<byte>, shards: seq<Shard>) returns (sum: seq<byte>)
    requires IsByteField(F) && 0 < k <= |row|
    requires |shards| >= k && forall i :: 0 <= i < k ==> shards[i].data == DataShard(data, k, i)
    ensures sum == PartialParity(F, data, k, row, k)
  {
    sum := Zeros(ShardLen(|data|, k));
    ParityStarts(F, data, k, row);
    for i := 0 to k
      invariant sum == PartialParity(F, data, k, row, i)
    {
      sum := AddTerm(F, data, k, row, i, sum, shards[i].data);
    }
  }

  method AddTerm(F: Field<byte>, ghost data: seq<byte>, ghost k: nat, row: seq<byte>, i: nat, sum: seq<byte>,
                 shard: seq<byte>)
    returns (next: seq<byte>)
    requires k > 0 && i < k <= |row| && shard == DataShard(data, k, i) && sum == PartialParity(F, data, k, row, i)
    ensures next == PartialParity(F, data, k, row, i + 1)
  {
    next := AddScaled(F, sum, row[i], shard);
    ParityGrows(F, data, k, row, i, shard, next);
  }

  method EncodeParity(F: Field<byte>, data: seq<byte>, k: nat, m: nat, p: nat, row: seq<byte>, shards: seq<Shard>)
    returns (parity: seq<byte>)
    requires IsByteField(F) && Supported(k, m) && p < m && row == ParityRow(F, k, m, p)
    requires |shards| >= k && forall i :: 0 <= i < k ==> shards[i].data == DataShard(data, k, i)
    ensures parity == ParityShard(F, data, k, m, p)
  {
    parity := SumShards(F, data, k, row, shards);
    ParityIsWhole(F, data, k, m, p);
  }

  ghost predicate IsEncodedUpTo(F: Field<byte>, data: seq<byte>, k: nat, m: nat, shards: seq<Shard>)
    requires Supported(k, m)
  {
    |shards| <= k + m && forall j :: 0 <= j < |shards| ==> shards[j] == CodeShard(F, data, k, m, j)
  }

  method EncodeData(F: Field<byte>, data: seq<byte>, k: nat, m: nat) returns (shards: seq<Shard>)
    requires Supported(k, m)
    ensures |shards| == k && IsEncodedUpTo(F, data, k, m, shards)
  {
    shards := [];
    for i := 0 to k
      invariant |shards| == i && IsEncodedUpTo(F, data, k, m, shards)
    {
      var cut := CutShard(data, k, i);
      shards := shards + [Shard(i, false, cut)];
    }
  }

  lemma EncodedData(F: Field<byte>, data: seq<byte>, k: nat, m: nat, shards: seq<Shard>)
    requires Supported(k, m) && IsEncodedUpTo(F, data, k, m, shards) && |shards| >= k
    ensures forall i :: 0 <= i < k ==> shards[i].data == DataShard(data, k, i)
  {
  }

  lemma EncodedOneMore(F: Field<byte>, data: seq<byte>, k: nat, m: nat, shards: seq<Shard>, p: nat, parity: seq<byte>)
    requires Supported(k, m) && IsEncodedUpTo(F, data, k, m, shards) && p < m && |shards| == k + p
    requires parity == ParityShard(F, data, k, m, p)
    ensures IsEncodedUpTo(F, data, k, m, shards + [Shard(k + p, true, parity)])
  {
  }

  method EncodeAll(F: Field<byte>, data: seq<byte>, k: nat, m: nat) returns (shards: seq<Shard>)
    requires IsByteField(F) && Supported(k, m)
    ensures |shards| == k + m && IsEncodedUpTo(F, data, k, m, shards)
  {
    shards := EncodeData(F, data, k, m);
    var matrix := CauchyParityMatrix(F, k, m);
    for p := 0 to m
      invariant |shards| == k + p && IsEncodedUpTo(F, data, k, m, shards)
    {
      EncodedData(F, data, k, m, shards);
      var parity := EncodeParity(F, data, k, m, p, matrix[p], shards);
      EncodedOneMore(F, data, k, m, shards, p, parity);
      shards := shards + [Shard(k + p, true, parity)];
    }
  }

  method EncodePayload(F: Field<byte>, k: nat, m: nat, shardSize: nat, data: seq<byte>) returns (r: Result<seq<Shard>>)
    requires IsByteField(F)
    ensures data == [] ==> r == Err(EmptyData)
    ensures data != [] && !Supported(k, m) ==> r == Err(InvalidConfig)
    ensures data != [] && Supported(k, m) && ShardLen(|data|, k) > shardSize ==>
              r == Err(PayloadTooLarge(ShardLen(|data|, k), shardSize))
    ensures data != [] && Supported(k, m) && ShardLen(|data|, k) <= shardSize ==> r == Ok(Codeword(F, data, k, m))
    ensures r.Ok? ==> Supported(k, m) && IsCode(F, r.value, data, k, m, ShardLen(|data|, k))
  {
    if data == [] {
      return Err(EmptyData);
    }
    if !Supported(k, m) {
      return Err(InvalidConfig);
    }
    var len := ShardLen(|data|, k);
    if len > shardSize {
      return Err(PayloadTooLarge(len, shardSize));
    }
    var shards := EncodeAll(F, data, k, m);
    assert shards == Codeword(F, data, k, m);
    CodewordIsCode(F, data, k, m);
    return Ok(shards);
  }

  // ---- Decoding ----

  /** Data shards have an index below k, parity shards one from k up to k + m. */
  predicate WellIndexed(shard: Shard, k: nat, m: nat) {
    if shard.isParity then k <= shard.index < k + m else shard.index < k
  }

  ghost function Indices(received: seq<Shard>): set<nat> {
    set s | s in received :: s.index
  }

  ghost function DataIndices(received: seq<Shard>): set<nat> {
    set s | s in received && !s.isParity :: s.index
  }

  /** Every received shard is one that encoding data produced. */
  ghost predicate FromEncoding(F: Field<byte>, k: nat, m: nat, data: seq<byte>, received: seq<Shard>)
    requires Supported(k, m)
  {
    forall s :: s in received ==> s.index < k + m && s == CodeShard(F, data, k, m, s.index)
  }

  /** The two maps hold shards of the encoding of data. */
  ghost predicate MapsFromEncoding(F: Field<byte>, k: nat, m: nat, data: seq<byte>,
                                   dataShards: map<nat, seq<byte>>, parityShards: map<nat, seq<byte>>)
    requires Supported(k, m)
  {
    && (forall i :: i in dataShards ==> i < k && dataShards[i] == DataShard(data, k, i))
    && (forall i :: i in parityShards ==> k <= i < k + m && parityShards[i] == ParityShard(F, data, k, m, i - k))
  }

  /** The data shards received, by index: of several with one index, the last. */
  function DataMap(received: seq<Shard>): map<nat, seq<byte>> {
    if received == [] then map[]
    else
      var n := |received| - 1;
      var before := DataMap(received[..n]);
      if received[n].isParity then before else before[received[n].index := received[n].data]
  }

  /** The parity shards received, by index: of several with one index, the last. */
  function ParityMap(received: seq<Shard>): map<nat, seq<byte>> {
    if received == [] then map[]
    else
      var n := |received| - 1;
      var before := ParityMap(received[..n]);
      if received[n].isParity then before[received[n].index := received[n].data] else before
  }

  /** The length of the longest shard received. */
  function LongestLen(received: seq<Shard>): nat {
    if received == [] then 0
    else
      var n := |received| - 1;
      var before := LongestLen(received[..n]);
      if before < |received[n].data| then |received[n].data| else before
  }

  lemma {:induction false} LongestIsLongest(received: seq<Shard>)
    ensures forall s :: s in received ==> |s.data| <= LongestLen(received)
    ensures received != [] ==> exists s :: s in received && |s.data| == LongestLen(received)
    decreases |received|
  {
    if received != [] {
      var n := |received| - 1;
      LongestIsLongest(received[..n]);
      assert received == received[..n] + [received[n]];
      assert received[n] in received;
    }
  }

  ghost predicate AllWellIndexed(received: seq<Shard>, k: nat, m: nat) {
    forall s :: s in received ==> WellIndexed(s, k, m)
  }

  /** The last shard of its kind and index is the one the maps keep. */
  lemma {:induction false} LastWins(received: seq<Shard>, j: nat)
    requires j < |received|
    requires forall i :: j < i < |received| ==>
               received[i].index != received[j].index || received[i].isParity != received[j].isParity
    ensures var kept := if received[j].isParity then ParityMap(received) else DataMap(received);
            received[j].index in kept && kept[received[j].index] == received[j].data
    decreases |received|
  {
    if j < |received| - 1 {
      LastWins(received[..|received| - 1], j);
    }
  }

  lemma {:induction false} DataMapHolds(received: seq<Shard>, i: nat)
    requires i in DataMap(received)
    ensures Shard(i, false, DataMap(received)[i]) in received
    decreases |received|
  {
    var n := |received| - 1;
    if received[n].isParity || received[n].index != i {
      DataMapHolds(received[..n], i);
    }
  }

  lemma {:induction false} ParityMapHolds(received: seq<Shard>, i: nat)
    requires i in ParityMap(received)
    ensures Shard(i, true, ParityMap(received)[i]) in received
    decreases |received|
  {
    var n := |received| - 1;
    if !received[n].isParity || received[n].index != i {
      ParityMapHolds(received[..n], i);
    }
  }

  lemma {:induction false} MapKeys(received: seq<Shard>)
    ensures DataMap(received).Keys == DataIndices(received)
    ensures DataMap(received).Keys + ParityMap(received).Keys == Indices(received)
    decreases |received|
  {
    if received != [] {
      var n := |received| - 1;
      var before, last := received[..n], received[n];
      MapKeys(before);
      assert received == before + [last];
      assert Indices(received) == Indices(before) + {last.index};
      assert DataIndices(received) == DataIndices(before) + if last.isParity then {} else {last.index};
    }
  }

  lemma MapRanges(received: seq<Shard>, k: nat, m: nat)
    requires AllWellIndexed(received, k, m)
    ensures forall i :: i in DataMap(received) ==> i < k
    ensures forall i :: i in ParityMap(received) ==> k <= i < k + m
  {
    forall i | i in DataMap(received) ensures i < k {
      DataMapHolds(received, i);
    }
    forall i | i in ParityMap(received) ensures k <= i < k + m {
      ParityMapHolds(received, i);
    }
  }

  /** Distinct shards in hand are counted once each. */
  lemma Available(received: seq<Shard>, k: nat, m: nat)
    requires AllWellIndexed(received, k, m)
    ensures |DataMap(received)| + |ParityMap(received)| == |Indices(received)|
    ensures |DataMap(received)| == |DataIndices(received)|
  {
    MapKeys(received);
    MapRanges(received, k, m);
    assert DataMap(received).Keys !! ParityMap(received).Keys;
  }

  method CollectShards(received: seq<Shard>, k: nat, m: nat)
    returns (ok: bool, dataShards: map<nat, seq<byte>>, parityShards: map<nat, seq<byte>>, shardLen: nat)
    ensures ok <==> AllWellIndexed(received, k, m)
    ensures ok ==> dataShards == DataMap(received) && parityShards == ParityMap(received)
    ensures ok ==> shardLen == LongestLen(received)
  {
    dataShards, parityShards, shardLen := map[], map[], 0;
    for n := 0 to |received|
      invariant forall j :: 0 <= j < n ==> WellIndexed(received[j], k, m)
      invariant dataShards == DataMap(received[..n]) && parityShards == ParityMap(received[..n])
      invariant shardLen == LongestLen(received[..n])
    {
      var shard := received[n];
      assert received[..n + 1][..n] == received[..n];
      if shardLen < |shard.data| {
        shardLen := |shard.data|;
      }
      if !WellIndexed(shard, k, m) {
        return false, dataShards, parityShards, shardLen;
      }
      if shard.isParity {
        parityShards := parityShards[shard.index := shard.data];
      } else {
        dataShards := dataShards[shard.index := shard.data];
      }
    }
    assert received[..|received|] == received;
    ok := true;
  }

  // ---- The equations ----

  ghost function KeysBelow(keys: set<nat>, n: nat): set<nat> {
    set i | i in keys && i < n
  }

  lemma KeysBelowNext(keys: set<nat>, n: nat)
    ensures |KeysBelow(keys, n + 1)| == |KeysBelow(keys, n)| + if n in keys then 1 else 0
  {
    if n in keys {
      assert KeysBelow(keys, n + 1) == KeysBelow(keys, n) + {n};
    } else {
      assert KeysBelow(keys, n + 1) == KeysBelow(keys, n);
    }
  }

  lemma KeysBelowAll(keys: set<nat>, n: nat)
    requires forall i :: i in keys ==> i < n
    ensures KeysBelow(keys, n) == keys
  {
  }

  /** The k lowest of the keys. */
  ghost function Lowest(keys: set<nat>, k: nat): set<nat> {
    set i | i in keys && |KeysBelow(keys, i)| < k
  }

  lemma SubsetCount(a: set<nat>, b: set<nat>)
    requires a <= b
    ensures |a| <= |b|
  {
    assert b == a + (b - a);
  }

  lemma LowestIsBelow(keys: set<nat>, k: nat, bound: nat)
    requires |KeysBelow(keys, bound)| == k
    ensures Lowest(keys, k) == KeysBelow(keys, bound)
  {
    forall i | i in keys ensures |KeysBelow(keys, i)| < k <==> i < bound {
      if i < bound {
        SubsetCount(KeysBelow(keys, i) + {i}, KeysBelow(keys, bound));
      } else {
        SubsetCount(KeysBelow(keys, bound), KeysBelow(keys, i));
      }
    }
  }

  /** All data shards in hand are among the k lowest. */
  lemma DataIsLowest(keys: set<nat>, k: nat, i: nat)
    requires i in keys && i < k
    ensures i in Lowest(keys, k)
  {
    BelowCount(KeysBelow(keys, i), i);
  }

  /** s lists the elements of a set. */
  ghost predicate Lists(s: seq<nat>, elements: set<nat>) {
    forall i :: i in s <==> i in elements
  }

  lemma ListsNext(s: seq<nat>, keys: set<nat>, n: nat)
    requires Lists(s, KeysBelow(keys, n))
    ensures Lists(if n in keys then s + [n] else s, KeysBelow(keys, n + 1))
  {
  }

  ghost function Keys(dataShards: map<nat, seq<byte>>, parityShards: map<nat, seq<byte>>): set<nat> {
    dataShards.Keys + parityShards.Keys
  }

  ghost predicate InPlace(dataShards: map<nat, seq<byte>>, parityShards: map<nat, seq<byte>>, k: nat, m: nat) {
    (forall i :: i in dataShards ==> i < k) && forall i :: i in parityShards ==> k <= i < k + m
  }

  lemma KeysCount(dataShards: map<nat, seq<byte>>, parityShards: map<nat, seq<byte>>, k: nat, m: nat)
    requires InPlace(dataShards, parityShards, k, m)
    ensures |Keys(dataShards, parityShards)| == |dataShards| + |parityShards|
    ensures KeysBelow(Keys(dataShards, parityShards), k) == dataShards.Keys
    ensures KeysBelow(Keys(dataShards, parityShards), k + m) == Keys(dataShards, parityShards)
    ensures |dataShards| <= k
  {
    assert dataShards.Keys !! parityShards.Keys;
    BelowCount(dataShards.Keys, k);
  }

  ghost predicate InHand(dataShards: map<nat, seq<byte>>, parityShards: map<nat, seq<byte>>, k: nat, index: nat,
                         bytes: seq<byte>) {
    if index < k then index in dataShards && dataShards[index] == bytes
    else index in parityShards && parityShards[index] == bytes
  }

  /**
    The equations collected so far: generator rows and contents of distinct shards in hand, with
    indices below bound.
   */
  ghost predicate IsSystem(F: Field<byte>, k: nat, m: nat, dataShards: map<nat, seq<byte>>,
                           parityShards: map<nat, seq<byte>>,
                           rows: seq<seq<byte>>, rhs: seq<seq<byte>>, sources: seq<nat>, bound: nat)
    requires Supported(k, m)
  {
    && bound <= k + m && |sources| == |rhs| && Distinct(sources) && InRange(sources, bound)
    && rows == SystemRows(F, k, m, sources)
    && forall j :: 0 <= j < |sources| ==> InHand(dataShards, parityShards, k, sources[j], rhs[j])
  }

  lemma ExtendSystem(F: Field<byte>, k: nat, m: nat, dataShards: map<nat, seq<byte>>, parityShards: map<nat, seq<byte>>,
                     rows: seq<seq<byte>>, rhs: seq<seq<byte>>, sources: seq<nat>, index: nat, bytes: seq<byte>)
    requires Supported(k, m) && IsSystem(F, k, m, dataShards, parityShards, rows, rhs, sources, index)
    requires index < k + m && InHand(dataShards, parityShards, k, index, bytes)
    ensures IsSystem(F, k, m, dataShards, parityShards, rows + [GeneratorRow(F, k, m, index)], rhs + [bytes],
                     sources + [index], index + 1)
  {
  }

  /** The equations of all shards in hand with indices below bound. */
  ghost predicate IsSystemBelow(F: Field<byte>, k: nat, m: nat, dataShards: map<nat, seq<byte>>,
                                parityShards: map<nat, seq<byte>>,
                                rows: seq<seq<byte>>, rhs: seq<seq<byte>>, sources: seq<nat>, bound: nat)
    requires Supported(k, m)
  {
    && IsSystem(F, k, m, dataShards, parityShards, rows, rhs, sources, bound)
    && |sources| == |KeysBelow(Keys(dataShards, parityShards), bound)|
    && Lists(sources, KeysBelow(Keys(dataShards, parityShards), bound))
  }

  lemma NoSystem(F: Field<byte>, k: nat, m: nat, dataShards: map<nat, seq<byte>>, parityShards: map<nat, seq<byte>>)
    requires Supported(k, m)
    ensures IsSystemBelow(F, k, m, dataShards, parityShards, [], [], [], 0)
  {
    assert KeysBelow(Keys(dataShards, parityShards), 0) == {};
  }

  lemma TakeEquation(F: Field<byte>, k: nat, m: nat, dataShards: map<nat, seq<byte>>, parityShards: map<nat, seq<byte>>,
                     rows: seq<seq<byte>>, rhs: seq<seq<byte>>, sources: seq<nat>, index: nat, bytes: seq<byte>)
    requires Supported(k, m) && IsSystemBelow(F, k, m, dataShards, parityShards, rows, rhs, sources, index)
    requires index < k + m && InHand(dataShards, parityShards, k, index, bytes)
    ensures IsSystemBelow(F, k, m, dataShards, parityShards, rows + [GeneratorRow(F, k, m, index)], rhs + [bytes],
                          sources + [index], index + 1)
  {
    ExtendSystem(F, k, m, dataShards, parityShards, rows, rhs, sources, index, bytes);
    KeysBelowNext(Keys(dataShards, parityShards), index);
    ListsNext(sources, Keys(dataShards, parityShards), index);
  }

  lemma SkipEquation(F: Field<byte>, k: nat, m: nat, dataShards: map<nat, seq<byte>>, parityShards: map<nat, seq<byte>>,
                     rows: seq<seq<byte>>, rhs: seq<seq<byte>>, sources: seq<nat>, index: nat)
    requires Supported(k, m) && IsSystemBelow(F, k, m, dataShards, parityShards, rows, rhs, sources, index)
    requires index < k + m && index !in Keys(dataShards, parityShards)
    ensures IsSystemBelow(F, k, m, dataShards, parityShards, rows, rhs, sources, index + 1)
  {
    KeysBelowNext(Keys(dataShards, parityShards), index);
    ListsNext(sources, Keys(dataShards, parityShards), index);
  }

  method TakeDataRows(F: Field<byte>, k: nat, m: nat, dataShards: map<nat, seq<byte>>,
                      ghost parityShards: map<nat, seq<byte>>)
    returns (rows: seq<seq<byte>>, rhs: seq<seq<byte>>, ghost sources: seq<nat>)
    requires Supported(k, m) && InPlace(dataShards, parityShards, k, m)
    ensures IsSystemBelow(F, k, m, dataShards, parityShards, rows, rhs, sources, k)
    ensures |rows| == |sources| <= k
  {
    rows, rhs, sources := [], [], [];
    NoSystem(F, k, m, dataShards, parityShards);
    for i := 0 to k
      invariant IsSystemBelow(F, k, m, dataShards, parityShards, rows, rhs, sources, i)
    {
      if i in dataShards {
        TakeEquation(F, k, m, dataShards, parityShards, rows, rhs, sources, i, dataShards[i]);
        rows, rhs, sources := rows + [Unit(F, k, i)], rhs + [dataShards[i]], sources + [i];
      } else {
        SkipEquation(F, k, m, dataShards, parityShards, rows, rhs, sources, i);
      }
    }
    DataEquations(F, k, m, dataShards, parityShards, rows, rhs, sources);
  }

  lemma DataEquations(F: Field<byte>, k: nat, m: nat, dataShards: map<nat, seq<byte>>,
                      parityShards: map<nat, seq<byte>>, rows: seq<seq<byte>>, rhs: seq<seq<byte>>, sources: seq<nat>)
    requires Supported(k, m) && InPlace(dataShards, parityShards, k, m)
    requires IsSystemBelow(F, k, m, dataShards, parityShards, rows, rhs, sources, k)
    ensures |rows| == |sources| <= k
  {
    KeysCount(dataShards, parityShards, k, m);
  }

  method TakeParityRow(F: Field<byte>, k: nat, m: nat, ghost dataShards: map<nat, seq<byte>>,
                       parityShards: map<nat, seq<byte>>, parityRow: seq<byte>, rows: seq<seq<byte>>,
                       rhs: seq<seq<byte>>, ghost sources: seq<nat>, index: nat)
    returns (rows': seq<seq<byte>>, rhs': seq<seq<byte>>, ghost sources': seq<nat>)
    requires Supported(k, m) && InPlace(dataShards, parityShards, k, m)
    requires k <= index < k + m && parityRow == ParityRow(F, k, m, index - k)
    requires IsSystemBelow(F, k, m, dataShards, parityShards, rows, rhs, sources, index)
    ensures IsSystemBelow(F, k, m, dataShards, parityShards, rows', rhs', sources', index + 1)
    ensures |rows'| == |sources'| <= |sources| + 1
  {
    rows', rhs', sources' := rows, rhs, sources;
    if index in parityShards {
      TakeEquation(F, k, m, dataShards, parityShards, rows, rhs, sources, index, parityShards[index]);
      rows', rhs', sources' := rows + [parityRow], rhs + [parityShards[index]], sources + [index];
    } else {
      SkipEquation(F, k, m, dataShards, parityShards, rows, rhs, sources, index);
    }
  }

  /** The equations for the shards decoding uses: the k lowest in hand. */
  ghost predicate IsWholeSystem(F: Field<byte>, k: nat, m: nat, dataShards: map<nat, seq<byte>>,
                                parityShards: map<nat, seq<byte>>,
                                rows: seq<seq<byte>>, rhs: seq<seq<byte>>, sources: seq<nat>)
    requires Supported(k, m)
  {
    && |sources| == k && IsSystem(F, k, m, dataShards, parityShards, rows, rhs, sources, k + m)
    && Lists(sources, Lowest(Keys(dataShards, parityShards), k))
  }

  lemma SystemWidens(F: Field<byte>, k: nat, m: nat, dataShards: map<nat, seq<byte>>, parityShards: map<nat, seq<byte>>,
                     rows: seq<seq<byte>>, rhs: seq<seq<byte>>, sources: seq<nat>, bound: nat)
    requires Supported(k, m) && IsSystem(F, k, m, dataShards, parityShards, rows, rhs, sources, bound)
    ensures IsSystem(F, k, m, dataShards, parityShards, rows, rhs, sources, k + m)
  {
  }

  lemma ListsLowest(sources: seq<nat>, keys: set<nat>, k: nat, bound: nat, most: nat)
    requires |sources| == |KeysBelow(keys, bound)| && Lists(sources, KeysBelow(keys, bound))
    requires |sources| <= k <= |keys| && (|sources| == k || bound == most) && forall i :: i in keys ==> i < most
    ensures |sources| == k && Lists(sources, Lowest(keys, k))
  {
    if bound == most {
      KeysBelowAll(keys, most);
    }
    LowestIsBelow(keys, k, bound);
  }

  lemma SystemIsWhole(F: Field<byte>, k: nat, m: nat, dataShards: map<nat, seq<byte>>,
                      parityShards: map<nat, seq<byte>>, rows: seq<seq<byte>>, rhs: seq<seq<byte>>,
                      sources: seq<nat>, bound: nat)
    requires Supported(k, m) && InPlace(dataShards, parityShards, k, m) && |dataShards| + |parityShards| >= k
    requires IsSystemBelow(F, k, m, dataShards, parityShards, rows, rhs, sources, bound)
    requires |sources| <= k && (|sources| == k || bound == k + m)
    ensures IsWholeSystem(F, k, m, dataShards, parityShards, rows, rhs, sources)
  {
    KeysCount(dataShards, parityShards, k, m);
    SystemWidens(F, k, m, dataShards, parityShards, rows, rhs, sources, bound);
    ListsLowest(sources, Keys(dataShards, parityShards), k, bound, k + m);
  }

  /** Takes parity rows in index order until there are k rows. */
  method TakeParityRows(F: Field<byte>, k: nat, m: nat, ghost dataShards: map<nat, seq<byte>>,
                        parityShards: map<nat, seq<byte>>, matrix: seq<seq<byte>>, dataRows: seq<seq<byte>>,
                        dataRhs: seq<seq<byte>>, ghost dataSources: seq<nat>)
    returns (rows: seq<seq<byte>>, rhs: seq<seq<byte>>, ghost sources: seq<nat>, ghost bound: nat)
    requires Supported(k, m) && InPlace(dataShards, parityShards, k, m)
    requires |matrix| == m && forall p :: 0 <= p < m ==> matrix[p] == ParityRow(F, k, m, p)
    requires IsSystemBelow(F, k, m, dataShards, parityShards, dataRows, dataRhs, dataSources, k)
    requires |dataRows| == |dataSources| <= k
    ensures IsSystemBelow(F, k, m, dataShards, parityShards, rows, rhs, sources, bound)
    ensures |sources| <= k && (|sources| == k || bound == k + m)
  {
    rows, rhs, sources := dataRows, dataRhs, dataSources;
    var index := k;
    while index < k + m && |rows| < k
      invariant k <= index <= k + m && |rows| == |sources| <= k
      invariant IsSystemBelow(F, k, m, dataShards, parityShards, rows, rhs, sources, index)
      decreases k + m - index
    {
      rows, rhs, sources :=
        TakeParityRow(F, k, m, dataShards, parityShards, matrix[index - k], rows, rhs, sources, index);
      index := index + 1;
    }
    bound := index;
  }

  /** The k equations to solve: unit rows for the data shards in hand, then parity rows in index order. */
  method BuildSystem(F: Field<byte>, k: nat, m: nat, dataShards: map<nat, seq<byte>>, parityShards: map<nat, seq<byte>>)
    returns (rows: seq<seq<byte>>, rhs: seq<seq<byte>>, ghost sources: seq<nat>)
    requires Supported(k, m) && InPlace(dataShards, parityShards, k, m)
    requires |dataShards| + |parityShards| >= k
    ensures IsWholeSystem(F, k, m, dataShards, parityShards, rows, rhs, sources)
  {
    ghost var bound;
    rows, rhs, sources := TakeDataRows(F, k, m, dataShards, parityShards);
    var matrix := CauchyParityMatrix(F, k, m);
    rows, rhs, sources, bound := TakeParityRows(F, k, m, dataShards, parityShards, matrix, rows, rhs, sources);
    SystemIsWhole(F, k, m, dataShards, parityShards, rows, rhs, sources, bound);
  }

  /** Byte b of the recovered shard after the first n equations; a row too short to have a byte b adds nothing. */
  ghost function RecoveredByte(F: Field<byte>, coefs: seq<byte>, rhs: seq<seq<byte>>, b: nat, n: nat): byte
    requires n <= |coefs| && n <= |rhs|
  {
    if n == 0 then 0
    else
      var rest := RecoveredByte(F, coefs, rhs, b, n - 1);
      if b < |rhs[n - 1]| then F.add(rest, F.mul(coefs[n - 1], rhs[n - 1][b])) else rest
  }

  method RecoverShard(F: Field<byte>, coefs: seq<byte>, rhs: seq<seq<byte>>, shardLen: nat)
    returns (recovered: seq<byte>)
    requires IsByteField(F) && |coefs| == |rhs|
    ensures |recovered| == shardLen
    ensures forall b :: 0 <= b < shardLen ==> recovered[b] == RecoveredByte(F, coefs, rhs, b, |rhs|)
  {
    recovered := Zeros(shardLen);
    for j := 0 to |rhs|
      invariant |recovered| == shardLen
      invariant forall b :: 0 <= b < shardLen ==> recovered[b] == RecoveredByte(F, coefs, rhs, b, j)
    {
      if coefs[j] != 0 {
        recovered := AddScaled(F, recovered, coefs[j], rhs[j]);
      } else {
        forall b | 0 <= b < |rhs[j]|
          ensures F.add(RecoveredByte(F, coefs, rhs, b, j), F.mul(0, rhs[j][b])) == RecoveredByte(F, coefs, rhs, b, j)
        {
          MulZero(F, rhs[j][b]);
          LawsAt(F, RecoveredByte(F, coefs, rhs, b, j), F.zero, F.zero);
        }
      }
    }
  }

  lemma {:induction false} RecoveredIsDot(F: Field<byte>, coefs: seq<byte>, rhs: seq<seq<byte>>, y: seq<byte>, b: nat,
                                          n: nat)
    requires F.zero == 0 && n <= |coefs| && n <= |rhs| && n <= |y|
    requires forall j :: 0 <= j < n ==> b < |rhs[j]| && rhs[j][b] == y[j]
    ensures RecoveredByte(F, coefs, rhs, b, n) == Dot(F, coefs, y, n)
  {
    if n > 0 {
      RecoveredIsDot(F, coefs, rhs, y, b, n - 1);
    }
  }

  /** rhs holds the contents of the given shards of the encoding of data. */
  ghost predicate HoldsShards(F: Field<byte>, k: nat, m: nat, data: seq<byte>, sources: seq<nat>, rhs: seq<seq<byte>>)
    requires Supported(k, m) && InRange(sources, k + m)
  {
    |rhs| == |sources| && forall j :: 0 <= j < |sources| ==> rhs[j] == CodeShard(F, data, k, m, sources[j]).data
  }

  /** x solves the equations for byte b. */
  ghost predicate MeetsEquations(F: Field<byte>, rows: seq<seq<byte>>, x: seq<byte>, rhs: seq<seq<byte>>, b: nat,
                                 k: nat)
    requires IsSquare(rows, k) && |x| == k && |rhs| == k
  {
    forall j :: 0 <= j < k ==> b < |rhs[j]| && rhs[j][b] == Dot(F, rows[j], x, k)
  }

  lemma EquationsHold(F: Field<byte>, k: nat, m: nat, data: seq<byte>, sources: seq<nat>, rows: seq<seq<byte>>,
                      rhs: seq<seq<byte>>, b: nat)
    requires IsByteField(F) && Supported(k, m) && b < ShardLen(|data|, k) && |sources| == k
    requires InRange(sources, k + m) && HoldsShards(F, k, m, data, sources, rhs)
    requires rows == SystemRows(F, k, m, sources) && IsSquare(rows, k)
    ensures MeetsEquations(F, rows, Slice(data, k, b), rhs, b, k)
  {
    forall j | 0 <= j < k ensures b < |rhs[j]| && rhs[j][b] == Dot(F, rows[j], Slice(data, k, b), k) {
      ShardIsGeneratorRow(F, data, k, m, sources[j], b);
    }
  }

  lemma InverseSolves(F: Field<byte>, k: nat, inverse: seq<seq<byte>>, rows: seq<seq<byte>>, x: seq<byte>,
                      rhs: seq<seq<byte>>, r: nat, b: nat)
    requires F.zero == 0 && IsSquare(rows, k) && IsSquare(inverse, k) && GaussJordan.Inverts(F, inverse, rows, k)
    requires |x| == k && |rhs| == k && r < k && MeetsEquations(F, rows, x, rhs, b, k)
    ensures RecoveredByte(F, inverse[r], rhs, b, k) == x[r]
  {
    var y := Apply(F, rows, x);
    RecoveredIsDot(F, inverse[r], rhs, y, b, k);
    GaussJordan.AppliedAt(F, inverse, rows, k, x, r);
  }

  /** Solving the system of any sources that hold shards of the encoding gives back the missing data shard. */
  lemma RecoveredIsData(F: Field<byte>, k: nat, m: nat, data: seq<byte>, sources: seq<nat>, inverse: seq<seq<byte>>,
                        rhs: seq<seq<byte>>, missing: nat, b: nat)
    requires IsByteField(F) && Supported(k, m) && missing < k && b < ShardLen(|data|, k)
    requires |sources| == k && InRange(sources, k + m) && HoldsShards(F, k, m, data, sources, rhs)
    requires IsSquare(inverse, k) && GaussJordan.Inverts(F, inverse, SystemRows(F, k, m, sources), k)
    ensures RecoveredByte(F, inverse[missing], rhs, b, k) == Slice(data, k, b)[missing]
  {
    var rows := SystemRows(F, k, m, sources);
    EquationsHold(F, k, m, data, sources, rows, rhs, b);
    InverseSolves(F, k, inverse, rows, Slice(data, k, b), rhs, missing, b);
  }

  // ---- Reassembly ----

  lemma SliceIsShard(data: seq<byte>, k: nat, i: nat, b: nat)
    requires k > 0 && i < k && b < ShardLen(|data|, k)
    ensures DataShard(data, k, i)[b] == Slice(data, k, b)[i]
  {
  }

  /** A shard of length shardLen solved for from the given equations. */
  ghost predicate IsRecovered(F: Field<byte>, coefs: seq<byte>, rhs: seq<seq<byte>>, shardLen: nat, bytes: seq<byte>)
    requires |coefs| == |rhs|
  {
    |bytes| == shardLen && forall b :: 0 <= b < shardLen ==> bytes[b] == RecoveredByte(F, coefs, rhs, b, |rhs|)
  }

  lemma RecoveredShardIsData(F: Field<byte>, k: nat, m: nat, data: seq<byte>, sources: seq<nat>,
                             inverse: seq<seq<byte>>, rhs: seq<seq<byte>>, missing: nat, bytes: seq<byte>)
    requires IsByteField(F) && Supported(k, m) && missing < k
    requires |sources| == k && InRange(sources, k + m) && HoldsShards(F, k, m, data, sources, rhs)
    requires IsSquare(inverse, k) && GaussJordan.Inverts(F, inverse, SystemRows(F, k, m, sources), k)
    requires IsRecovered(F, inverse[missing], rhs, ShardLen(|data|, k), bytes)
    ensures bytes == DataShard(data, k, missing)
  {
    forall b | 0 <= b < |bytes| ensures bytes[b] == DataShard(data, k, missing)[b] {
      RecoveredIsData(F, k, m, data, sources, inverse, rhs, missing, b);
      SliceIsShard(data, k, missing, b);
    }
  }

  /** The k lowest shards in hand, which are those decoding uses, are shards of the encoding of data. */
  ghost predicate Explains(F: Field<byte>, k: nat, m: nat, data: seq<byte>, dataShards: map<nat, seq<byte>>,
                           parityShards: map<nat, seq<byte>>)
    requires Supported(k, m)
  {
    forall i :: i in Lowest(Keys(dataShards, parityShards), k) ==>
                  i < k + m && InHand(dataShards, parityShards, k, i, CodeShard(F, data, k, m, i).data)
  }

  lemma EncodingExplains(F: Field<byte>, k: nat, m: nat, data: seq<byte>, dataShards: map<nat, seq<byte>>,
                         parityShards: map<nat, seq<byte>>)
    requires Supported(k, m) && MapsFromEncoding(F, k, m, data, dataShards, parityShards)
    ensures Explains(F, k, m, data, dataShards, parityShards)
  {
  }

  lemma ExplainsIffHolds(F: Field<byte>, k: nat, m: nat, data: seq<byte>, dataShards: map<nat, seq<byte>>,
                         parityShards: map<nat, seq<byte>>, rows: seq<seq<byte>>, rhs: seq<seq<byte>>,
                         sources: seq<nat>)
    requires Supported(k, m) && IsWholeSystem(F, k, m, dataShards, parityShards, rows, rhs, sources)
    ensures Explains(F, k, m, data, dataShards, parityShards) <==> HoldsShards(F, k, m, data, sources, rhs)
  {
    forall j | 0 <= j < k
      ensures InHand(dataShards, parityShards, k, sources[j], CodeShard(F, data, k, m, sources[j]).data) <==>
              rhs[j] == CodeShard(F, data, k, m, sources[j]).data
    {
      assert InHand(dataShards, parityShards, k, sources[j], rhs[j]);
    }
    if Explains(F, k, m, data, dataShards, parityShards) {
      forall j | 0 <= j < k ensures rhs[j] == CodeShard(F, data, k, m, sources[j]).data {
        assert sources[j] in sources;
      }
    }
  }

  /** The data shards not received, in order. */
  method MissingData(dataShards: map<nat, seq<byte>>, k: nat) returns (missing: seq<nat>)
    requires forall i :: i in dataShards ==> i < k
    ensures forall i: nat :: i in missing <==> i < k && i !in dataShards
    ensures |missing| + |dataShards| == k
  {
    missing := [];
    assert KeysBelow(dataShards.Keys, 0) == {};
    for i := 0 to k
      invariant forall j: nat :: j in missing <==> j < i && j !in dataShards
      invariant |missing| + |KeysBelow(dataShards.Keys, i)| == i
    {
      KeysBelowNext(dataShards.Keys, i);
      if i !in dataShards {
        missing := missing + [i];
      }
    }
    KeysBelowAll(dataShards.Keys, k);
  }

  /** Adds the recovered shards to those in hand. */
  method RecoverAll(F: Field<byte>, k: nat, dataShards: map<nat, seq<byte>>, missing: seq<nat>, inverse: seq<seq<byte>>,
                    rhs: seq<seq<byte>>, shardLen: nat) returns (complete: map<nat, seq<byte>>)
    requires IsByteField(F) && IsSquare(inverse, k) && |rhs| == k
    requires forall i :: i in missing ==> i < k && i !in dataShards
    ensures complete.Keys == dataShards.Keys + set i | i in missing
    ensures forall i :: i in dataShards ==> complete[i] == dataShards[i]
    ensures forall i :: i in missing ==> IsRecovered(F, inverse[i], rhs, shardLen, complete[i])
  {
    complete := dataShards;
    for n := 0 to |missing|
      invariant complete.Keys == dataShards.Keys + set i | i in missing[..n]
      invariant forall i :: i in dataShards ==> complete[i] == dataShards[i]
      invariant forall j :: 0 <= j < n ==> missing[j] in complete
      invariant forall j :: 0 <= j < n ==> IsRecovered(F, inverse[missing[j]], rhs, shardLen, complete[missing[j]])
    {
      assert missing[..n + 1] == missing[..n] + [missing[n]];
      assert missing[n] in missing;
      var recovered := RecoverShard(F, inverse[missing[n]], rhs, shardLen);
      complete := complete[missing[n] := recovered];
    }
    assert missing[..|missing|] == missing;
  }

  ghost function JoinedMap(shards: map<nat, seq<byte>>, n: nat): seq<byte>
    requires forall i :: 0 <= i < n ==> i in shards
  {
    if n == 0 then [] else JoinedMap(shards, n - 1) + shards[n - 1]
  }

  method JoinAndTruncate(shards: map<nat, seq<byte>>, k: nat, originalLen: nat) returns (r: Result<seq<byte>>)
    requires forall i :: 0 <= i < k ==> i in shards
    ensures |JoinedMap(shards, k)| < originalLen ==> r == Err(DecodeFailed)
    ensures |JoinedMap(shards, k)| >= originalLen ==> r == Ok(JoinedMap(shards, k)[..originalLen])
  {
    var out := [];
    for i := 0 to k
      invariant out == JoinedMap(shards, i)
    {
      out := out + shards[i];
    }
    if |out| < originalLen {
      return Err(DecodeFailed);
    }
    return Ok(out[..originalLen]);
  }

  lemma {:induction false} JoinedMapIsJoined(shards: map<nat, seq<byte>>, data: seq<byte>, k: nat, n: nat)
    requires k > 0 && forall i :: 0 <= i < n ==> i in shards && shards[i] == DataShard(data, k, i)
    ensures JoinedMap(shards, n) == Joined(data, k, n)
    decreases n
  {
    if n > 0 {
      JoinedMapIsJoined(shards, data, k, n - 1);
    }
  }

  /** Every data shard is there: as received, or with the common length. */
  ghost predicate IsComplete(complete: map<nat, seq<byte>>, dataShards: map<nat, seq<byte>>, k: nat, shardLen: nat) {
    && (forall i :: 0 <= i < k ==> i in complete)
    && forall i :: 0 <= i < k ==> if i in dataShards then complete[i] == dataShards[i] else |complete[i]| == shardLen
  }

  /** The recovered shards are there, solved for from the equations. */
  ghost predicate IsSolved(F: Field<byte>, k: nat, dataShards: map<nat, seq<byte>>, rhs: seq<seq<byte>>,
                           inverse: seq<seq<byte>>, shardLen: nat, complete: map<nat, seq<byte>>)
    requires IsSquare(inverse, k) && |rhs| == k
  {
    && (forall i :: 0 <= i < k ==> i in complete)
    && forall i :: 0 <= i < k ==> if i in dataShards then complete[i] == dataShards[i]
                                  else IsRecovered(F, inverse[i], rhs, shardLen, complete[i])
  }

  /** complete holds the data shards of data. */
  ghost predicate HoldsData(complete: map<nat, seq<byte>>, data: seq<byte>, k: nat)
    requires k > 0
  {
    forall i :: 0 <= i < k ==> i in complete && complete[i] == DataShard(data, k, i)
  }

  lemma ExplainedShard(F: Field<byte>, k: nat, m: nat, data: seq<byte>, dataShards: map<nat, seq<byte>>,
                       parityShards: map<nat, seq<byte>>, i: nat)
    requires Supported(k, m) && Explains(F, k, m, data, dataShards, parityShards) && i in dataShards && i < k
    ensures dataShards[i] == DataShard(data, k, i)
  {
    DataIsLowest(Keys(dataShards, parityShards), k, i);
  }

  /** Whatever data explains the shards used, its data shards are those solved for: there is at most one. */
  lemma SolvedIsExplained(F: Field<byte>, k: nat, m: nat, data: seq<byte>, dataShards: map<nat, seq<byte>>,
                          parityShards: map<nat, seq<byte>>, rows: seq<seq<byte>>, rhs: seq<seq<byte>>,
                          sources: seq<nat>, inverse: seq<seq<byte>>, complete: map<nat, seq<byte>>)
    requires IsByteField(F) && Supported(k, m)
    requires IsWholeSystem(F, k, m, dataShards, parityShards, rows, rhs, sources)
    requires IsSquare(rows, k) && IsSquare(inverse, k) && GaussJordan.Inverts(F, inverse, rows, k)
    requires IsSolved(F, k, dataShards, rhs, inverse, ShardLen(|data|, k), complete)
    requires Explains(F, k, m, data, dataShards, parityShards)
    ensures HoldsData(complete, data, k)
  {
    ExplainsIffHolds(F, k, m, data, dataShards, parityShards, rows, rhs, sources);
    forall i | 0 <= i < k ensures complete[i] == DataShard(data, k, i) {
      if i in dataShards {
        ExplainedShard(F, k, m, data, dataShards, parityShards, i);
      } else {
        RecoveredShardIsData(F, k, m, data, sources, inverse, rhs, i, complete[i]);
      }
    }
  }

  // ---- Shards of one length always come from some data ----

  ghost predicate OneLength(shards: map<nat, seq<byte>>, len: nat) {
    forall i :: i in shards ==> |shards[i]| == len
  }

  ghost predicate HasAll(shards: map<nat, seq<byte>>, n: nat, len: nat) {
    forall i :: 0 <= i < n ==> i in shards && |shards[i]| == len
  }

  lemma {:induction false} JoinedMapLength(shards: map<nat, seq<byte>>, n: nat, len: nat)
    requires HasAll(shards, n, len)
    ensures |JoinedMap(shards, n)| == Offset(n, len)
  {
    if n > 0 {
      JoinedMapLength(shards, n - 1, len);
      MulStep(len, n);
    }
  }

  lemma {:induction false} JoinedMapAt(shards: map<nat, seq<byte>>, n: nat, len: nat, i: nat, b: nat)
    requires HasAll(shards, n, len) && i < n && b < len
    ensures Offset(i, len) + b < |JoinedMap(shards, n)| && JoinedMap(shards, n)[Offset(i, len) + b] == shards[i][b]
    decreases n
  {
    JoinedMapLength(shards, n - 1, len);
    if i < n - 1 {
      JoinedMapAt(shards, n - 1, len, i, b);
    }
  }

  lemma ShardLenOfWhole(k: nat, len: nat)
    requires k > 0 && len > 0
    ensures ShardLen(Offset(k, len), k) == len
  {
    var t := Offset(k, len) + k - 1;
    QuotientUnique(k, t / k, t % k, len, k - 1);
  }

  /** Shards of one length, joined, are the data shards of the whole. */
  lemma JoinedMapShard(shards: map<nat, seq<byte>>, k: nat, len: nat, i: nat)
    requires k > 0 && len > 0 && HasAll(shards, k, len) && i < k
    ensures ShardLen(|JoinedMap(shards, k)|, k) == len && DataShard(JoinedMap(shards, k), k, i) == shards[i]
  {
    JoinedMapLength(shards, k, len);
    ShardLenOfWhole(k, len);
    forall b | 0 <= b < len ensures DataShard(JoinedMap(shards, k), k, i)[b] == shards[i][b] {
      JoinedMapAt(shards, k, len, i, b);
    }
  }

  /** Byte b of every right-hand side. */
  ghost function RhsAt(rhs: seq<seq<byte>>, b: nat): seq<byte>
    requires forall j :: 0 <= j < |rhs| ==> b < |rhs[j]|
  {
    seq(|rhs|, j requires 0 <= j < |rhs| => rhs[j][b])
  }

  lemma RhsLength(F: Field<byte>, k: nat, m: nat, dataShards: map<nat, seq<byte>>, parityShards: map<nat, seq<byte>>,
                  rows: seq<seq<byte>>, rhs: seq<seq<byte>>, sources: seq<nat>, len: nat)
    requires Supported(k, m) && IsWholeSystem(F, k, m, dataShards, parityShards, rows, rhs, sources)
    requires OneLength(dataShards, len) && OneLength(parityShards, len)
    ensures forall j :: 0 <= j < |rhs| ==> |rhs[j]| == len
  {
    forall j | 0 <= j < |rhs| ensures |rhs[j]| == len {
      assert InHand(dataShards, parityShards, k, sources[j], rhs[j]);
    }
  }

  /** The solution of the equations agrees with a data shard in hand, */
  lemma SolutionAtData(F: Field<byte>, k: nat, m: nat, sources: seq<nat>, rows: seq<seq<byte>>, inverse: seq<seq<byte>>,
                       y: seq<byte>, j: nat)
    requires IsByteField(F) && Supported(k, m) && |sources| == k && InRange(sources, k + m)
    requires rows == SystemRows(F, k, m, sources) && IsSquare(rows, k) && IsSquare(inverse, k)
    requires GaussJordan.Inverts(F, rows, inverse, k) && |y| == k && j < k && sources[j] < k
    ensures Apply(F, inverse, y)[sources[j]] == y[j]
  {
    var x := Apply(F, inverse, y);
    assert Apply(F, rows, x)[j] == y[j];
    DotUnit(F, k, sources[j], x);
  }

  /** so it is byte b of all data shards. */
  lemma SolutionIsSlice(F: Field<byte>, k: nat, m: nat, dataShards: map<nat, seq<byte>>,
                        parityShards: map<nat, seq<byte>>, rows: seq<seq<byte>>, rhs: seq<seq<byte>>,
                        sources: seq<nat>, inverse: seq<seq<byte>>, complete: map<nat, seq<byte>>, len: nat,
                        b: nat, i: nat)
    requires IsByteField(F) && Supported(k, m)
    requires IsWholeSystem(F, k, m, dataShards, parityShards, rows, rhs, sources)
    requires IsSquare(rows, k) && IsSquare(inverse, k) && GaussJordan.Inverts(F, rows, inverse, k)
    requires IsSolved(F, k, dataShards, rhs, inverse, len, complete) && HasAll(complete, k, len)
    requires (forall j :: 0 <= j < k ==> |rhs[j]| == len) && b < len && i < k
    ensures complete[i][b] == Apply(F, inverse, RhsAt(rhs, b))[i]
  {
    var y := RhsAt(rhs, b);
    if i in dataShards {
      DataIsLowest(Keys(dataShards, parityShards), k, i);
      var j :| 0 <= j < k && sources[j] == i;
      assert InHand(dataShards, parityShards, k, sources[j], rhs[j]);
      SolutionAtData(F, k, m, sources, rows, inverse, y, j);
    } else {
      RecoveredIsDot(F, inverse[i], rhs, y, b, k);
    }
  }

  lemma SliceOfJoined(shards: map<nat, seq<byte>>, k: nat, len: nat, b: nat, x: seq<byte>)
    requires k > 0 && HasAll(shards, k, len) && b < len && |x| == k
    requires forall i :: 0 <= i < k ==> shards[i][b] == x[i]
    ensures ShardLen(|JoinedMap(shards, k)|, k) == len && Slice(JoinedMap(shards, k), k, b) == x
  {
    var block := JoinedMap(shards, k);
    JoinedMapShard(shards, k, len, 0);
    forall i | 0 <= i < k ensures Slice(block, k, b)[i] == x[i] {
      JoinedMapShard(shards, k, len, i);
      SliceIsShard(block, k, i, b);
    }
  }

  /** The solution meets the equations: byte b of the shard an equation came from is byte b of its right-hand side. */
  lemma SolutionHolds(F: Field<byte>, k: nat, m: nat, sources: seq<nat>, rows: seq<seq<byte>>, inverse: seq<seq<byte>>,
                      data: seq<byte>, y: seq<byte>, b: nat, j: nat)
    requires IsByteField(F) && Supported(k, m) && |sources| == k && InRange(sources, k + m)
    requires rows == SystemRows(F, k, m, sources) && IsSquare(rows, k) && IsSquare(inverse, k)
    requires GaussJordan.Inverts(F, rows, inverse, k) && |y| == k && j < k
    requires b < ShardLen(|data|, k) && Slice(data, k, b) == Apply(F, inverse, y)
    ensures CodeShard(F, data, k, m, sources[j]).data[b] == y[j]
  {
    var x := Apply(F, inverse, y);
    ShardIsGeneratorRow(F, data, k, m, sources[j], b);
    assert Apply(F, rows, x)[j] == y[j];
  }

  lemma SolvedSlice(F: Field<byte>, k: nat, m: nat, dataShards: map<nat, seq<byte>>, parityShards: map<nat, seq<byte>>,
                    rows: seq<seq<byte>>, rhs: seq<seq<byte>>, sources: seq<nat>, inverse: seq<seq<byte>>,
                    complete: map<nat, seq<byte>>, len: nat, b: nat, x: seq<byte>)
    requires IsByteField(F) && Supported(k, m)
    requires IsWholeSystem(F, k, m, dataShards, parityShards, rows, rhs, sources)
    requires IsSquare(rows, k) && IsSquare(inverse, k) && GaussJordan.Inverts(F, rows, inverse, k)
    requires IsSolved(F, k, dataShards, rhs, inverse, len, complete) && HasAll(complete, k, len)
    requires (forall j :: 0 <= j < k ==> |rhs[j]| == len) && b < len
    requires |x| == k && x == Apply(F, inverse, RhsAt(rhs, b))
    ensures Slice(JoinedMap(complete, k), k, b) == x
  {
    forall i | 0 <= i < k ensures complete[i][b] == x[i] {
      SolutionIsSlice(F, k, m, dataShards, parityShards, rows, rhs, sources, inverse, complete, len, b, i);
    }
    SliceOfJoined(complete, k, len, b, x);
  }

  lemma SolvedByte(F: Field<byte>, k: nat, m: nat, dataShards: map<nat, seq<byte>>, parityShards: map<nat, seq<byte>>,
                   rows: seq<seq<byte>>, rhs: seq<seq<byte>>, sources: seq<nat>, inverse: seq<seq<byte>>,
                   complete: map<nat, seq<byte>>, len: nat, block: seq<byte>, b: nat, j: nat)
    requires IsByteField(F) && Supported(k, m)
    requires IsWholeSystem(F, k, m, dataShards, parityShards, rows, rhs, sources)
    requires IsSquare(rows, k) && IsSquare(inverse, k) && GaussJordan.Inverts(F, rows, inverse, k)
    requires IsSolved(F, k, dataShards, rhs, inverse, len, complete) && HasAll(complete, k, len)
    requires (forall j :: 0 <= j < k ==> |rhs[j]| == len) && b < len && j < k
    requires block == JoinedMap(complete, k) && ShardLen(|block|, k) == len
    ensures CodeShard(F, block, k, m, sources[j]).data[b] == rhs[j][b]
  {
    var y := RhsAt(rhs, b);
    SolvedSlice(F, k, m, dataShards, parityShards, rows, rhs, sources, inverse, complete, len, b, Apply(F, inverse, y));
    SolutionHolds(F, k, m, sources, rows, inverse, block, y, b, j);
  }

  lemma SolvedShard(F: Field<byte>, k: nat, m: nat, dataShards: map<nat, seq<byte>>, parityShards: map<nat, seq<byte>>,
                    rows: seq<seq<byte>>, rhs: seq<seq<byte>>, sources: seq<nat>, inverse: seq<seq<byte>>,
                    complete: map<nat, seq<byte>>, len: nat, block: seq<byte>, j: nat)
    requires IsByteField(F) && Supported(k, m)
    requires IsWholeSystem(F, k, m, dataShards, parityShards, rows, rhs, sources)
    requires IsSquare(rows, k) && IsSquare(inverse, k) && GaussJordan.Inverts(F, rows, inverse, k)
    requires IsSolved(F, k, dataShards, rhs, inverse, len, complete) && HasAll(complete, k, len)
    requires (forall j :: 0 <= j < k ==> |rhs[j]| == len) && j < k
    requires block == JoinedMap(complete, k) && ShardLen(|block|, k) == len
    ensures rhs[j] == CodeShard(F, block, k, m, sources[j]).data
  {
    forall b | 0 <= b < len ensures CodeShard(F, block, k, m, sources[j]).data[b] == rhs[j][b] {
      SolvedByte(F, k, m, dataShards, parityShards, rows, rhs, sources, inverse, complete, len, block, b, j);
    }
  }

  /** If the shards used have one length, what is joined explains them. */
  lemma SolvedExplains(F: Field<byte>, k: nat, m: nat, dataShards: map<nat, seq<byte>>,
                       parityShards: map<nat, seq<byte>>, rows: seq<seq<byte>>, rhs: seq<seq<byte>>,
                       sources: seq<nat>, inverse: seq<seq<byte>>, complete: map<nat, seq<byte>>, len: nat)
    requires IsByteField(F) && Supported(k, m) && len > 0
    requires IsWholeSystem(F, k, m, dataShards, parityShards, rows, rhs, sources)
    requires IsSquare(rows, k) && IsSquare(inverse, k) && GaussJordan.Inverts(F, rows, inverse, k)
    requires IsSolved(F, k, dataShards, rhs, inverse, len, complete) && HasAll(complete, k, len)
    requires OneLength(dataShards, len) && OneLength(parityShards, len)
    ensures Explains(F, k, m, JoinedMap(complete, k), dataShards, parityShards)
  {
    var block := JoinedMap(complete, k);
    RhsLength(F, k, m, dataShards, parityShards, rows, rhs, sources, len);
    JoinedMapShard(complete, k, len, 0);
    forall j | 0 <= j < k ensures rhs[j] == CodeShard(F, block, k, m, sources[j]).data {
      SolvedShard(F, k, m, dataShards, parityShards, rows, rhs, sources, inverse, complete, len, block, j);
    }
    ExplainsIffHolds(F, k, m, block, dataShards, parityShards, rows, rhs, sources);
  }

  /** With every data shard in hand, those are the shards used. */
  lemma AllDataExplains(F: Field<byte>, k: nat, m: nat, dataShards: map<nat, seq<byte>>,
                        parityShards: map<nat, seq<byte>>, len: nat)
    requires Supported(k, m) && len > 0 && InPlace(dataShards, parityShards, k, m) && HasAll(dataShards, k, len)
    ensures Explains(F, k, m, JoinedMap(dataShards, k), dataShards, parityShards)
  {
    KeysCount(dataShards, parityShards, k, m);
    AllKeys(dataShards.Keys, k);
    LowestIsBelow(Keys(dataShards, parityShards), k, k);
    forall i | i in dataShards ensures DataShard(JoinedMap(dataShards, k), k, i) == dataShards[i] {
      JoinedMapShard(dataShards, k, len, i);
    }
  }

  lemma {:induction false} AllKeys(keys: set<nat>, k: nat)
    requires forall i :: i in keys <==> 0 <= i < k
    ensures |keys| == k
    decreases k
  {
    if k == 0 {
      assert keys == {};
    } else {
      AllKeys(keys - {k - 1}, k - 1);
    }
  }

  /**
    What completing the data shards achieves: data that explains the shards used, if there is any, is
    what is put together; and if the shards have one length there is, namely what is joined.
   */
  ghost predicate Solves(F: Field<byte>, k: nat, m: nat, dataShards: map<nat, seq<byte>>,
                         parityShards: map<nat, seq<byte>>, shardLen: nat, complete: map<nat, seq<byte>>)
    requires Supported(k, m)
  {
    && (forall i :: 0 <= i < k ==> i in complete)
    && (forall data :: Explains(F, k, m, data, dataShards, parityShards) && ShardLen(|data|, k) == shardLen ==>
                         HoldsData(complete, data, k))
    && (OneLength(dataShards, shardLen) && OneLength(parityShards, shardLen) && shardLen > 0 ==>
          Explains(F, k, m, JoinedMap(complete, k), dataShards, parityShards) && HasAll(complete, k, shardLen))
  }

  lemma SystemSolves(F: Field<byte>, k: nat, m: nat, dataShards: map<nat, seq<byte>>, parityShards: map<nat, seq<byte>>,
                     rows: seq<seq<byte>>, rhs: seq<seq<byte>>, sources: seq<nat>, inverse: seq<seq<byte>>,
                     complete: map<nat, seq<byte>>, shardLen: nat)
    requires IsByteField(F) && Supported(k, m)
    requires IsWholeSystem(F, k, m, dataShards, parityShards, rows, rhs, sources)
    requires IsSquare(rows, k) && IsSquare(inverse, k)
    requires GaussJordan.Inverts(F, inverse, rows, k) && GaussJordan.Inverts(F, rows, inverse, k)
    requires IsSolved(F, k, dataShards, rhs, inverse, shardLen, complete)
    ensures Solves(F, k, m, dataShards, parityShards, shardLen, complete)
  {
    forall data | Explains(F, k, m, data, dataShards, parityShards) && ShardLen(|data|, k) == shardLen
      ensures HoldsData(complete, data, k)
    {
      SolvedIsExplained(F, k, m, data, dataShards, parityShards, rows, rhs, sources, inverse, complete);
    }
    if OneLength(dataShards, shardLen) && OneLength(parityShards, shardLen) && shardLen > 0 {
      SolvedExplains(F, k, m, dataShards, parityShards, rows, rhs, sources, inverse, complete, shardLen);
    }
  }

  lemma NothingMissing(F: Field<byte>, k: nat, m: nat, dataShards: map<nat, seq<byte>>,
                       parityShards: map<nat, seq<byte>>, shardLen: nat)
    requires Supported(k, m) && InPlace(dataShards, parityShards, k, m)
    requires forall i :: 0 <= i < k ==> i in dataShards
    ensures Solves(F, k, m, dataShards, parityShards, shardLen, dataShards)
  {
    forall data, i | Explains(F, k, m, data, dataShards, parityShards) && 0 <= i < k
      ensures dataShards[i] == DataShard(data, k, i)
    {
      ExplainedShard(F, k, m, data, dataShards, parityShards, i);
    }
    if OneLength(dataShards, shardLen) && shardLen > 0 {
      AllDataExplains(F, k, m, dataShards, parityShards, shardLen);
    }
  }

  /** Solves for the missing data shards. */
  method SolveMissing(F: Field<byte>, k: nat, m: nat, dataShards: map<nat, seq<byte>>,
                      parityShards: map<nat, seq<byte>>, missing: seq<nat>, shardLen: nat)
    returns (complete: map<nat, seq<byte>>)
    requires IsByteField(F) && Supported(k, m) && InPlace(dataShards, parityShards, k, m)
    requires |dataShards| + |parityShards| >= k
    requires forall i: nat :: i in missing <==> i < k && i !in dataShards
    ensures IsComplete(complete, dataShards, k, shardLen)
    ensures Solves(F, k, m, dataShards, parityShards, shardLen, complete)
  {
    var rows, rhs, sources := BuildSystem(F, k, m, dataShards, parityShards);
    AnyKShardsSuffice(F, k, m, sources);
    var inverse := GaussJordan.InvertMatrix(F, rows);
    complete := RecoverAll(F, k, dataShards, missing, inverse.value, rhs, shardLen);
    SystemSolves(F, k, m, dataShards, parityShards, rows, rhs, sources, inverse.value, complete, shardLen);
  }

  /** Completes the data shards by solving for the missing ones. */
  method CompleteData(F: Field<byte>, k: nat, m: nat, dataShards: map<nat, seq<byte>>,
                      parityShards: map<nat, seq<byte>>, shardLen: nat)
    returns (complete: map<nat, seq<byte>>, recovered: nat)
    requires IsByteField(F) && Supported(k, m) && InPlace(dataShards, parityShards, k, m)
    requires |dataShards| + |parityShards| >= k
    ensures IsComplete(complete, dataShards, k, shardLen)
    ensures recovered == k - |dataShards|
    ensures Solves(F, k, m, dataShards, parityShards, shardLen, complete)
  {
    var missing := MissingData(dataShards, k);
    complete, recovered := dataShards, |missing|;
    if missing != [] {
      // There is a parity shard for every missing data shard, since k shards are in hand.
      assert |parityShards| >= |missing|;
      complete := SolveMissing(F, k, m, dataShards, parityShards, missing, shardLen);
    } else {
      NothingMissing(F, k, m, dataShards, parityShards, shardLen);
    }
  }

  /** How long the first n data shards are together, once the missing ones are recovered. */
  function CompleteLen(received: seq<Shard>, n: nat): nat {
    if n == 0 then 0
    else
      var i := n - 1;
      CompleteLen(received, i) + if i in DataMap(received) then |DataMap(received)[i]| else LongestLen(received)
  }

  lemma {:induction false} JoinedLength(received: seq<Shard>, complete: map<nat, seq<byte>>, k: nat, n: nat)
    requires IsComplete(complete, DataMap(received), k, LongestLen(received)) && n <= k
    ensures |JoinedMap(complete, n)| == CompleteLen(received, n)
    decreases n
  {
    if n > 0 {
      JoinedLength(received, complete, k, n - 1);
    }
  }

  lemma {:induction false} EncodingLength(F: Field<byte>, k: nat, m: nat, data: seq<byte>, received: seq<Shard>)
    requires Supported(k, m) && FromEncoding(F, k, m, data, received) && received != []
    ensures LongestLen(received) == ShardLen(|data|, k)
    decreases |received|
  {
    var n := |received| - 1;
    EncodingShard(F, k, m, data, received, received[n]);
    if n > 0 {
      EncodingLength(F, k, m, data, received[..n]);
    }
  }

  lemma EncodingShard(F: Field<byte>, k: nat, m: nat, data: seq<byte>, received: seq<Shard>, s: Shard)
    requires Supported(k, m) && FromEncoding(F, k, m, data, received) && s in received
    ensures WellIndexed(s, k, m) && |s.data| == ShardLen(|data|, k)
    ensures s.data == if s.isParity then ParityShard(F, data, k, m, s.index - k) else DataShard(data, k, s.index)
  {
  }

  lemma EncodingWellIndexed(F: Field<byte>, k: nat, m: nat, data: seq<byte>, received: seq<Shard>)
    requires Supported(k, m) && FromEncoding(F, k, m, data, received)
    ensures AllWellIndexed(received, k, m)
  {
    forall s | s in received ensures WellIndexed(s, k, m) {
      EncodingShard(F, k, m, data, received, s);
    }
  }

  lemma EncodingDataMap(F: Field<byte>, k: nat, m: nat, data: seq<byte>, received: seq<Shard>, i: nat)
    requires Supported(k, m) && FromEncoding(F, k, m, data, received) && i in DataMap(received)
    ensures i < k && DataMap(received)[i] == DataShard(data, k, i)
  {
    DataMapHolds(received, i);
    EncodingShard(F, k, m, data, received, Shard(i, false, DataMap(received)[i]));
  }

  lemma EncodingParityMap(F: Field<byte>, k: nat, m: nat, data: seq<byte>, received: seq<Shard>, i: nat)
    requires Supported(k, m) && FromEncoding(F, k, m, data, received) && i in ParityMap(received)
    ensures k <= i < k + m && ParityMap(received)[i] == ParityShard(F, data, k, m, i - k)
  {
    ParityMapHolds(received, i);
    EncodingShard(F, k, m, data, received, Shard(i, true, ParityMap(received)[i]));
  }

  lemma EncodingMaps(F: Field<byte>, k: nat, m: nat, data: seq<byte>, received: seq<Shard>)
    requires Supported(k, m) && FromEncoding(F, k, m, data, received)
    ensures MapsFromEncoding(F, k, m, data, DataMap(received), ParityMap(received))
  {
    forall i | i in DataMap(received) ensures i < k && DataMap(received)[i] == DataShard(data, k, i) {
      EncodingDataMap(F, k, m, data, received, i);
    }
    forall i | i in ParityMap(received)
      ensures k <= i < k + m && ParityMap(received)[i] == ParityShard(F, data, k, m, i - k)
    {
      EncodingParityMap(F, k, m, data, received, i);
    }
  }

  /** What decoding returns for shards that data explains: the padded payload, cut to the length asked for. */
  ghost predicate DecodesTo(r: Result<seq<byte>>, data: seq<byte>, k: nat, originalLen: nat)
    requires k > 0
  {
    && (originalLen > |Joined(data, k, k)| ==> r == Err(DecodeFailed))
    && (originalLen <= |Joined(data, k, k)| ==> r == Ok(Joined(data, k, k)[..originalLen]))
    && (originalLen <= |data| ==> r == Ok(data[..originalLen]))
    && (originalLen == |data| ==> r == Ok(data))
  }

  lemma DecodesToJoined(r: Result<seq<byte>>, data: seq<byte>, k: nat, originalLen: nat, joined: seq<byte>)
    requires k > 0 && joined == Joined(data, k, k) && |data| <= |joined| && joined[..|data|] == data
    requires r == if |joined| < originalLen then Err(DecodeFailed) else Ok(joined[..originalLen])
    ensures DecodesTo(r, data, k, originalLen)
  {
    if originalLen <= |data| {
      assert joined[..originalLen] == joined[..|data|][..originalLen];
    }
  }

  lemma ExplainedDecodes(F: Field<byte>, k: nat, m: nat, received: seq<Shard>, originalLen: nat,
                         complete: map<nat, seq<byte>>, r: Result<seq<byte>>, data: seq<byte>)
    requires Supported(k, m)
    requires Solves(F, k, m, DataMap(received), ParityMap(received), LongestLen(received), complete)
    requires r == if |JoinedMap(complete, k)| < originalLen then Err(DecodeFailed)
                  else Ok(JoinedMap(complete, k)[..originalLen])
    requires Explains(F, k, m, data, DataMap(received), ParityMap(received))
    requires ShardLen(|data|, k) == LongestLen(received)
    ensures DecodesTo(r, data, k, originalLen)
  {
    assert HoldsData(complete, data, k);
    JoinedMapIsJoined(complete, data, k, k);
    JoinedIsPayload(data, k);
    DecodesToJoined(r, data, k, originalLen, JoinedMap(complete, k));
  }

  lemma EncodedExplains(F: Field<byte>, k: nat, m: nat, data: seq<byte>, received: seq<Shard>)
    requires Supported(k, m) && FromEncoding(F, k, m, data, received) && received != []
    ensures Explains(F, k, m, data, DataMap(received), ParityMap(received))
    ensures ShardLen(|data|, k) == LongestLen(received)
  {
    EncodingLength(F, k, m, data, received);
    EncodingMaps(F, k, m, data, received);
    EncodingExplains(F, k, m, data, DataMap(received), ParityMap(received));
  }

  /** All shards received have the same length, and not none. */
  ghost predicate SameLength(received: seq<Shard>) {
    LongestLen(received) > 0 && forall s :: s in received ==> |s.data| == LongestLen(received)
  }

  lemma SameLengthMaps(received: seq<Shard>)
    requires SameLength(received)
    ensures OneLength(DataMap(received), LongestLen(received)) && OneLength(ParityMap(received), LongestLen(received))
  {
    forall i | i in DataMap(received) ensures |DataMap(received)[i]| == LongestLen(received) {
      DataMapHolds(received, i);
    }
    forall i | i in ParityMap(received) ensures |ParityMap(received)[i]| == LongestLen(received) {
      ParityMapHolds(received, i);
    }
  }

  /** Some k * L bytes, L being the length of the shards, explain the shards decoding uses. */
  ghost predicate IsExplained(F: Field<byte>, k: nat, m: nat, received: seq<Shard>)
    requires Supported(k, m)
  {
    exists block :: Explains(F, k, m, block, DataMap(received), ParityMap(received)) &&
                    |block| == Offset(k, LongestLen(received)) && ShardLen(|block|, k) == LongestLen(received)
  }

  lemma SameLengthExplained(F: Field<byte>, k: nat, m: nat, received: seq<Shard>, complete: map<nat, seq<byte>>)
    requires Supported(k, m) && SameLength(received)
    requires Solves(F, k, m, DataMap(received), ParityMap(received), LongestLen(received), complete)
    ensures IsExplained(F, k, m, received)
  {
    SameLengthMaps(received);
    JoinedMapLength(complete, k, LongestLen(received));
    JoinedMapShard(complete, k, LongestLen(received), 0);
    assert Explains(F, k, m, JoinedMap(complete, k), DataMap(received), ParityMap(received));
  }

  /** Decoding has k shards to work with. */
  ghost predicate Decodable(k: nat, m: nat, received: seq<Shard>) {
    Supported(k, m) && AllWellIndexed(received, k, m) && |Indices(received)| >= k
  }

  /**
    Decoding. A shard out of place is refused. With fewer than k distinct shards it fails, saying
    how many there were. With at least k it fails only if the data shards, completed, are shorter
    than the length asked for. If the shards come from the encoding of a payload, in any order and
    with any repetitions, it returns the payload, or as much of it as is asked for. Whatever shards of
    one length they are, there is data whose encoding has the k shards used, and it returns that.
   */
  method DecodePayload(F: Field<byte>, k: nat, m: nat, received: seq<Shard>, originalLen: nat)
    returns (r: Result<seq<byte>>, recovered: nat)
    requires IsByteField(F)
    ensures !Supported(k, m) ==> r == Err(InvalidConfig)
    ensures Supported(k, m) && !AllWellIndexed(received, k, m) ==> r == Err(DecodeFailed)
    ensures Supported(k, m) && AllWellIndexed(received, k, m) && |Indices(received)| < k ==>
              r == Err(NotEnoughShards(|Indices(received)|, k))
    ensures Decodable(k, m, received) ==>
              if CompleteLen(received, k) < originalLen then r == Err(DecodeFailed)
              else r.Ok? && |r.value| == originalLen
    ensures recovered == if Decodable(k, m, received) then k - |DataIndices(received)| else 0
    ensures Supported(k, m) && |Indices(received)| >= k ==>
              forall data :: FromEncoding(F, k, m, data, received) ==> DecodesTo(r, data, k, originalLen)
    ensures Decodable(k, m, received) ==>
              forall data ::
                ShardLen(|data|, k) == LongestLen(received) &&
                Explains(F, k, m, data, DataMap(received), ParityMap(received)) ==>
                  DecodesTo(r, data, k, originalLen)
    ensures Decodable(k, m, received) && SameLength(received) ==> IsExplained(F, k, m, received)
  {
    recovered := 0;
    if !Supported(k, m) {
      return Err(InvalidConfig), 0;
    }
    var ok, dataShards, parityShards, shardLen := CollectShards(received, k, m);
    forall data | FromEncoding(F, k, m, data, received) ensures AllWellIndexed(received, k, m) {
      EncodingWellIndexed(F, k, m, data, received);
    }
    if !ok {
      return Err(DecodeFailed), 0;
    }
    Available(received, k, m);
    MapRanges(received, k, m);
    var available := |dataShards| + |parityShards|;
    if available < k {
      return Err(NotEnoughShards(available, k)), 0;
    }
    var complete;
    complete, recovered := CompleteData(F, k, m, dataShards, parityShards, shardLen);
    r := JoinAndTruncate(complete, k, originalLen);
    JoinedLength(received, complete, k, k);
    forall data | Explains(F, k, m, data, dataShards, parityShards) && ShardLen(|data|, k) == shardLen
      ensures DecodesTo(r, data, k, originalLen)
    {
      ExplainedDecodes(F, k, m, received, originalLen, complete, r, data);
    }
    forall data | FromEncoding(F, k, m, data, received) ensures DecodesTo(r, data, k, originalLen) {
      EncodedExplains(F, k, m, data, received);
    }
    if SameLength(received) {
      SameLengthExplained(F, k, m, received, complete);
    }
  }

  lemma GfIsByteField()
    ensures IsByteField(Gf256.F)
  {
    Gf256.GfIsField();
  }

  /** Encoding over GF(2^8), counting the batches encoded. */
  class FecEncoder {
    const k: nat
    const m: nat
    const shardSize: nat
    var encodedBatches: nat

    constructor (k: nat, m: nat, shardSize: nat)
      ensures this.k == k && this.m == m && this.shardSize == shardSize && encodedBatches == 0
    {
      this.k, this.m, this.shardSize := k, m, shardSize;
      encodedBatches := 0;
    }

    method Encode(data: seq<byte>) returns (r: Result<seq<Shard>>)
      modifies this
      ensures r.Ok? <==> data != [] && Supported(k, m) && ShardLen(|data|, k) <= shardSize
      ensures r.Ok? ==> r.value == Codeword(Gf256.F, data, k, m)
      ensures r.Ok? ==> IsCode(Gf256.F, r.value, data, k, m, ShardLen(|data|, k))
      ensures encodedBatches == old(encodedBatches) + if r.Ok? then 1 else 0
    {
      GfIsByteField();
      r := EncodePayload(Gf256.F, k, m, shardSize, data);
      if r.Ok? {
        encodedBatches := encodedBatches + 1;
      }
    }
  }

  /** Decoding over GF(2^8), counting batches decoded and shards recovered. */
  class FecDecoder {
    var decodedBatches: nat
    var recoveredShards: nat

    constructor ()
      ensures decodedBatches == 0 && recoveredShards == 0
    {
      decodedBatches, recoveredShards := 0, 0;
    }

    method Decode(received: seq<Shard>, k: nat, m: nat, originalLen: nat) returns (r: Result<seq<byte>>)
      modifies this
      ensures Supported(k, m) ==> forall data :: FromEncoding(Gf256.F, k, m, data, received) ==>
                if |Indices(received)| >= k then DecodesTo(r, data, k, originalLen)
                else r == Err(NotEnoughShards(|Indices(received)|, k))
      ensures r.Ok? ==> |Indices(received)| >= k && |r.value| == originalLen
      ensures decodedBatches == old(decodedBatches) + if r.Ok? then 1 else 0
      ensures recoveredShards == old(recoveredShards) +
                if Supported(k, m) && AllWellIndexed(received, k, m) && |Indices(received)| >= k
                then k - |DataIndices(received)| else 0
    {
      GfIsByteField();
      var recovered;
      r, recovered := DecodePayload(Gf256.F, k, m, received, originalLen);
      recoveredShards := recoveredShards + recovered;
      if r.Ok? {
        decodedBatches := decodedBatches + 1;
      }
      if Supported(k, m) {
        forall data | FromEncoding(Gf256.F, k, m, data, received) ensures AllWellIndexed(received, k, m) {
          EncodingWellIndexed(Gf256.F, k, m, data, received);
        }
      }
    }
  }
}
