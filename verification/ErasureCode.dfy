/**
  The systematic Reed-Solomon erasure code (core-supervisor/src/fec_engine.rs) as a linear code:
  what each shard of an encoding contains, and the theorem that any k distinct shards determine it.
 */
module ErasureCode {
  import opened Bits
  import opened Field
  import opened LinearAlgebra
  import opened Cauchy
  import GaussJordan

  const MAX_TOTAL_SHARDS := 255

  datatype Shard = Shard(index: nat, isParity: bool, data: seq<byte>)

  /** The byte arithmetic the code is built on: any field on bytes whose zero and one are 0 and 1. */
  ghost predicate IsByteField(F: Field<byte>) {
    IsField(F) && F.zero == 0 && F.one == 1
  }

  predicate Supported(k: nat, m: nat) {
    k > 0 && m > 0 && k + m <= MAX_TOTAL_SHARDS
  }

  // ---- What the shards contain ----

  function ShardLen(len: nat, k: nat): nat
    requires k > 0
  {
    var ceil := (len + k - 1) / k;
    if ceil < 1 then 1 else ceil
  }

  /** Byte t of the payload followed by endless zeros. */
  function PaddedAt(data: seq<byte>, t: nat): byte {
    if t < |data| then data[t] else 0
  }

  /** Where data shard i begins. */
  function Offset(i: nat, len: nat): nat {
    i * len
  }

  function DataShard(data: seq<byte>, k: nat, i: nat): seq<byte>
    requires k > 0
  {
    var len := ShardLen(|data|, k);
    seq<byte>(len, b requires 0 <= b < len => PaddedAt(data, Offset(i, len) + b))
  }

  /** Byte b of every data shard. */
  function Slice(data: seq<byte>, k: nat, b: nat): seq<byte>
    requires k > 0
  {
    seq(k, i requires 0 <= i < k => PaddedAt(data, Offset(i, ShardLen(|data|, k)) + b))
  }

  function ColumnPoints(k: nat, m: nat): seq<byte>
    requires Supported(k, m)
  {
    seq(k, i requires 0 <= i < k => m + i)
  }

  /** Row p of the Cauchy parity matrix: 1 / (p + (m + i)). */
  function ParityRow(F: Field<byte>, k: nat, m: nat, p: nat): seq<byte>
    requires Supported(k, m) && p < m
  {
    CauchyRow(F, p, ColumnPoints(k, m))
  }

  function ParityShard(F: Field<byte>, data: seq<byte>, k: nat, m: nat, p: nat): seq<byte>
    requires Supported(k, m) && p < m
  {
    var len := ShardLen(|data|, k);
    seq(len, b requires 0 <= b < len => Dot(F, ParityRow(F, k, m, p), Slice(data, k, b), k))
  }

  function CodeShard(F: Field<byte>, data: seq<byte>, k: nat, m: nat, index: nat): (s: Shard)
    requires Supported(k, m) && index < k + m
    ensures |s.data| == ShardLen(|data|, k)
  {
    if index < k then Shard(index, false, DataShard(data, k, index))
    else Shard(index, true, ParityShard(F, data, k, m, index - k))
  }

  /** The k data shards followed by the m parity shards. */
  function Codeword(F: Field<byte>, data: seq<byte>, k: nat, m: nat): seq<Shard>
    requires Supported(k, m)
  {
    seq(k + m, index requires 0 <= index < k + m => CodeShard(F, data, k, m, index))
  }

  // ---- Every shard is a row of one generator matrix applied to the data ----

  function GeneratorRow(F: Field<byte>, k: nat, m: nat, index: nat): (row: seq<byte>)
    requires Supported(k, m) && index < k + m
    ensures |row| == k
  {
    if index < k then Unit(F, k, index) else ParityRow(F, k, m, index - k)
  }

  lemma ShardIsGeneratorRow(F: Field<byte>, data: seq<byte>, k: nat, m: nat, index: nat, b: nat)
    requires IsByteField(F) && Supported(k, m) && index < k + m && b < ShardLen(|data|, k)
    ensures CodeShard(F, data, k, m, index).data[b] == Dot(F, GeneratorRow(F, k, m, index), Slice(data, k, b), k)
  {
    if index < k {
      DotUnit(F, k, index, Slice(data, k, b));
    }
  }

  predicate InRange(sources: seq<nat>, n: nat) {
    forall j :: 0 <= j < |sources| ==> sources[j] < n
  }

  function SystemRows(F: Field<byte>, k: nat, m: nat, sources: seq<nat>): (rows: seq<seq<byte>>)
    requires Supported(k, m) && InRange(sources, k + m)
    ensures |rows| == |sources|
  {
    seq(|sources|, j requires 0 <= j < |sources| => GeneratorRow(F, k, m, sources[j]))
  }

  // ---- Any k distinct shards determine the data ----

  /** The parity points among the sources, in order. */
  ghost function Parities(sources: seq<nat>, k: nat): seq<nat> {
    if sources == [] then []
    else
      var last := sources[|sources| - 1];
      Parities(sources[..|sources| - 1], k) + if last >= k then [last - k] else []
  }

  ghost function DataSources(sources: seq<nat>, k: nat): set<nat> {
    set s | s in sources && s < k
  }

  lemma InitOrLast(s: seq<nat>, x: nat)
    requires s != []
    ensures x in s <==> x in s[..|s| - 1] || x == s[|s| - 1]
  {
    assert s == s[..|s| - 1] + [s[|s| - 1]];
  }

  lemma ParitiesLast(sources: seq<nat>, k: nat, p: nat)
    requires sources != []
    ensures var n := |sources| - 1;
            p in Parities(sources, k) <==> p in Parities(sources[..n], k) || sources[n] == p + k
  {
  }

  lemma {:induction false} ParitiesMembers(sources: seq<nat>, k: nat)
    ensures forall p: nat :: p in Parities(sources, k) <==> p + k in sources
    decreases |sources|
  {
    if sources != [] {
      var n := |sources| - 1;
      var init, last := sources[..n], sources[n];
      ParitiesMembers(init, k);
      forall p: nat ensures p in Parities(sources, k) <==> p + k in sources {
        InitOrLast(sources, p + k);
        ParitiesLast(sources, k, p);
      }
    }
  }

  lemma {:induction false} ParitiesDistinct(sources: seq<nat>, k: nat)
    requires Distinct(sources)
    ensures Distinct(Parities(sources, k))
    decreases |sources|
  {
    if sources != [] {
      var n := |sources| - 1;
      var init, last := sources[..n], sources[n];
      ParitiesDistinct(init, k);
      ParitiesMembers(init, k);
      assert last !in init;
      if last >= k {
        assert last - k !in Parities(init, k);
      }
    }
  }

  lemma {:induction false} ParitiesCount(sources: seq<nat>, k: nat)
    requires Distinct(sources)
    ensures |Parities(sources, k)| + |DataSources(sources, k)| == |sources|
    decreases |sources|
  {
    if sources != [] {
      var n := |sources| - 1;
      var init, last := sources[..n], sources[n];
      ParitiesCount(init, k);
      assert sources == init + [last];
      if last < k {
        assert DataSources(sources, k) == DataSources(init, k) + {last};
      } else {
        assert DataSources(sources, k) == DataSources(init, k);
      }
    }
  }

  lemma {:induction false} BelowCount(s: set<nat>, k: nat)
    requires forall i :: i in s ==> i < k
    ensures |s| <= k
    decreases k
  {
    if k == 0 {
      assert s == {};
    } else {
      BelowCount(s - {k - 1}, k - 1);
      assert s <= (s - {k - 1}) + {k - 1};
    }
  }

  lemma DisjointCount(a: set<nat>, b: set<nat>, k: nat)
    requires a !! b && forall i :: i in a + b ==> i < k
    ensures |a| + |b| <= k
  {
    BelowCount(a + b, k);
    assert |a + b| == |a| + |b|;
  }

  /** A vector that every chosen row annihilates is zero wherever a data shard was chosen. */
  lemma ZeroOnDataSources(F: Field<byte>, k: nat, m: nat, sources: seq<nat>, x: seq<byte>)
    requires IsByteField(F) && Supported(k, m)
    requires |sources| == k && Distinct(sources) && InRange(sources, k + m)
    requires |x| == k && forall j :: 0 <= j < k ==> Dot(F, GeneratorRow(F, k, m, sources[j]), x, k) == F.zero
    ensures |Support(F, x)| <= |Parities(sources, k)|
  {
    forall s | s in DataSources(sources, k) ensures x[s] == F.zero {
      var j :| 0 <= j < k && sources[j] == s;
      DotUnit(F, k, s, x);
    }
    DisjointCount(Support(F, x), DataSources(sources, k), k);
    ParitiesCount(sources, k);
  }

  lemma ParityPoints(k: nat, m: nat, sources: seq<nat>) returns (xs: seq<byte>)
    requires Supported(k, m) && Distinct(sources) && InRange(sources, k + m)
    ensures Distinct(xs) && |xs| == |Parities(sources, k)|
    ensures forall p :: p in xs ==> p < m && p + k in sources
  {
    var parities := Parities(sources, k);
    ParitiesMembers(sources, k);
    ParitiesDistinct(sources, k);
    forall i | 0 <= i < |parities| ensures parities[i] < m {
      assert parities[i] in parities;
    }
    xs := seq(|parities|, i requires 0 <= i < |parities| => parities[i] as byte);
    forall p | p in xs ensures p + k in sources {
      var i :| 0 <= i < |xs| && xs[i] == p;
      assert parities[i] in parities;
    }
  }

  /** The system of any k distinct sources annihilates only the zero vector. */
  lemma OnlyZeroAnnihilated(F: Field<byte>, k: nat, m: nat, sources: seq<nat>, x: seq<byte>)
    requires IsByteField(F) && Supported(k, m)
    requires |sources| == k && Distinct(sources) && InRange(sources, k + m)
    requires |x| == k && forall j :: 0 <= j < k ==> Dot(F, GeneratorRow(F, k, m, sources[j]), x, k) == F.zero
    ensures IsZero(F, x)
  {
    ZeroOnDataSources(F, k, m, sources, x);
    var xs := ParityPoints(k, m, sources);
    var ys := ColumnPoints(k, m);
    forall p | p in xs ensures Dot(F, CauchyRow(F, p, ys), x, |x|) == F.zero {
      var j :| 0 <= j < k && sources[j] == p + k;
      assert GeneratorRow(F, k, m, sources[j]) == ParityRow(F, k, m, p);
    }
    CauchyNonsingular(F, xs, ys, x);
  }

  /** The code is maximum distance separable: the system of any k distinct shards is invertible. */
  lemma AnyKShardsSuffice(F: Field<byte>, k: nat, m: nat, sources: seq<nat>)
    requires IsByteField(F) && Supported(k, m)
    requires |sources| == k && Distinct(sources) && InRange(sources, k + m)
    ensures !GaussJordan.Singular(F, SystemRows(F, k, m, sources), k)
  {
    var rows := SystemRows(F, k, m, sources);
    forall x: seq<byte> | |x| == k && GaussJordan.Annihilates(F, rows, k, x) ensures IsZero(F, x) {
      forall j | 0 <= j < k ensures Dot(F, GeneratorRow(F, k, m, sources[j]), x, k) == F.zero {
        assert rows[j] == GeneratorRow(F, k, m, sources[j]);
      }
      OnlyZeroAnnihilated(F, k, m, sources, x);
    }
  }

  // ---- Splitting and joining ----

  lemma ShardLenCovers(len: nat, k: nat)
    requires k > 0
    ensures len <= k * ShardLen(len, k)
  {
    var n := len + k - 1;
    assert n == k * (n / k) + n % k;
    if n / k < 1 {
      assert len == 0;
    }
  }

  function Joined(data: seq<byte>, k: nat, n: nat): seq<byte>
    requires k > 0
  {
    if n == 0 then [] else Joined(data, k, n - 1) + DataShard(data, k, n - 1)
  }

  lemma {:induction false} JoinedAt(data: seq<byte>, k: nat, n: nat)
    requires k > 0
    ensures |Joined(data, k, n)| == n * ShardLen(|data|, k)
    ensures forall t :: 0 <= t < |Joined(data, k, n)| ==> Joined(data, k, n)[t] == PaddedAt(data, t)
    decreases n
  {
    if n > 0 {
      var len := ShardLen(|data|, k);
      JoinedAt(data, k, n - 1);
      assert n * len == (n - 1) * len + len;
      var head := Joined(data, k, n - 1);
      forall t | 0 <= t < n * len ensures Joined(data, k, n)[t] == PaddedAt(data, t) {
        if t >= |head| {
          assert DataShard(data, k, n - 1)[t - |head|] == PaddedAt(data, Offset(n - 1, len) + (t - |head|));
        }
      }
    }
  }

  /** The data shards, joined and cut to the original length, are the payload. */
  lemma JoinedIsPayload(data: seq<byte>, k: nat)
    requires k > 0
    ensures |data| <= |Joined(data, k, k)| && Joined(data, k, k)[..|data|] == data
  {
    JoinedAt(data, k, k);
    ShardLenCovers(|data|, k);
  }
}
