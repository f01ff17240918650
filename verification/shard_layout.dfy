/** How a cache file is divided: the header chunk, then one range of chunks per shard. */
module ShardLayout {
  import opened Arithmetic
  import opened Layout
  import opened ShardModel

  const I64_MAX: nat := 0x7FFF_FFFF_FFFF_FFFF
  const CHUNKS_PER_SHARD := 128
  const MAX_SHARDS := 64

  /** `chunks` counts the file's chunks, the header chunk included. */
  function ShardCount(chunks: nat): (n: nat)
    requires chunks >= 2
    ensures 1 <= n <= MAX_SHARDS && n < chunks
  {
    var n := (chunks - 1) / CHUNKS_PER_SHARD;
    if n < 1 then 1 else if n > MAX_SHARDS then MAX_SHARDS else n
  }

  /** The most shards, up to the limit, that leave each its share of the chunks after the header; at least one. */
  lemma ShardCountIsLargest(chunks: nat, n: nat)
    requires chunks >= 2 && 1 <= n <= MAX_SHARDS
    ensures n <= ShardCount(chunks) <==> n == 1 || n * CHUNKS_PER_SHARD <= chunks - 1
  {
  }

  /** First chunk of shard `i`; the range of shard `i` ends where that of shard `i + 1` starts. */
  function ShardStart(chunks: nat, shards: nat, i: nat): nat
    requires chunks >= 2 && shards > 0
  {
    1 + (chunks - 1) * i / shards
  }

  lemma DivideStep(n: nat, i: nat, d: nat)
    requires 0 < d <= n
    ensures n * i / d < n * (i + 1) / d
  {
    assert n * (i + 1) == n * i + n;
    assert n * i / d * d <= n * i;
    QuotientShift(n * i, d, 1);
    QuotientOrder(n * i + 1 * d, n * (i + 1), d);
  }

  /** Shards have nonempty ranges that follow one another from the chunk after the header to the end of the file. */
  lemma ShardsPartitionFile(chunks: nat)
    requires chunks >= 2
    ensures var n := ShardCount(chunks);
      && ShardStart(chunks, n, 0) == 1 && ShardStart(chunks, n, n) == chunks
      && forall i: nat :: ShardStart(chunks, n, i) < ShardStart(chunks, n, i + 1)
  {
    var n := ShardCount(chunks);
    forall i: nat ensures ShardStart(chunks, n, i) < ShardStart(chunks, n, i + 1) {
      DivideStep(chunks - 1, i, n);
    }
    QuotientIs((chunks - 1) * n, n, chunks - 1);
  }

  lemma {:induction false} StartsIncrease(chunks: nat, i: nat, j: nat)
    requires chunks >= 2 && i <= j
    ensures var n := ShardCount(chunks); i < j ==> ShardStart(chunks, n, i) < ShardStart(chunks, n, j)
    decreases j - i
  {
    if i < j {
      ShardsPartitionFile(chunks);
      StartsIncrease(chunks, i + 1, j);
    }
  }

  /** Every chunk after the header belongs to exactly one shard. */
  lemma {:induction false} ChunkShard(chunks: nat, c: nat, i: nat) returns (shard: nat)
    requires chunks >= 2 && i <= ShardCount(chunks)
    requires 1 <= c < ShardStart(chunks, ShardCount(chunks), i)
    ensures shard < i
    ensures ShardStart(chunks, ShardCount(chunks), shard) <= c < ShardStart(chunks, ShardCount(chunks), shard + 1)
    ensures forall k: nat ::
      ShardStart(chunks, ShardCount(chunks), k) <= c < ShardStart(chunks, ShardCount(chunks), k + 1) ==> k == shard
  {
    var n := ShardCount(chunks);
    ShardsPartitionFile(chunks);
    if ShardStart(chunks, n, i - 1) <= c {
      shard := i - 1;
    } else {
      shard := ChunkShard(chunks, c, i - 1);
    }
    forall k: nat | ShardStart(chunks, n, k) <= c < ShardStart(chunks, n, k + 1) ensures k == shard {
      if k < shard {
        StartsIncrease(chunks, k + 1, shard);
      } else if shard < k {
        StartsIncrease(chunks, shard + 1, k);
      }
    }
  }

  ghost predicate InShard(chunks: nat, i: nat, key: nat)
    requires chunks >= 2
  {
    var n := ShardCount(chunks);
    Routed(Config(ShardStart(chunks, n, i), ShardStart(chunks, n, i + 1), n, i), key)
  }

  /** Every shard of every file that can be opened starts after the header and has representable addresses. */
  lemma ShardsAreValid(chunks: nat, i: nat)
    requires chunks >= 2 && Address(chunks) <= I64_MAX && i < ShardCount(chunks)
    ensures var n := ShardCount(chunks);
      ValidConfig(Config(ShardStart(chunks, n, i), ShardStart(chunks, n, i + 1), n, i))
  {
    var n := ShardCount(chunks);
    ShardsPartitionFile(chunks);
    StartsIncrease(chunks, 0, i);
    StartsIncrease(chunks, i + 1, n);
  }

  /** Every key belongs to exactly one shard of the file. */
  lemma KeyShard(chunks: nat, key: nat) returns (shard: nat)
    requires chunks >= 2
    ensures shard < ShardCount(chunks)
    ensures forall i: nat ::
      i < ShardCount(chunks) ==> (InShard(chunks, i, key) <==> i == shard)
  {
    shard := key % ShardCount(chunks);
  }
}
