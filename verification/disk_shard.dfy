/**
 The shard's operations on its mutable parts (disk_cache.rs, writer.rs): allocator, metadata chain and
 entry index change in place, and each method is proved against the shard model.
 */
module DiskShard {
  import opened Layout
  import opened Metadata
  import opened ShardModel
  import opened Publication
  import opened Allocation
  import opened DiskIndex
  import opened Retention
  import opened Admission
  import opened EvictedChunks

  lemma LowestSingle(free: set<nat>)
    ensures LowestRun(free, 1) == if free == {} then None else Some(Min(free))
  {
    forall s: nat ensures FreeRange(free, s, 1) <==> s in free {
      assert Interval(s, s + 1) == {s};
    }
    if free != {} { LowestIs(free, 1, Min(free)); }
  }

  /** The shard with one more uninitialized metadata chunk. */
  ghost function Appended(s: Shard, chunk: nat): Shard {
    var chain := Extend(s.chain, chunk);
    var dirty := s.dirty + LinkPageAt(s.chain) + LinkPageAt(chain);
    Shard(s.free - Interval(chunk, chunk + 1), s.held, chain, dirty, s.index)
  }

  /** Growing the chain takes the chunk that the allocator reserves. */
  lemma GrowthSpec(s: Shard, count: nat)
    requires FreeSlots(s.chain) < count
    ensures var chunk := LowestRun(s.free, 1);
      EnsureFreeSlots(s, count) == if chunk.None? then None else Some(Appended(s, chunk.value))
  {
    LowestSingle(s.free);
    if s.free != {} {
      assert Interval(Min(s.free), Min(s.free) + 1) == {Min(s.free)};
    }
  }

  lemma HeldNotFree(g: Config, s: Shard, w: map<nat, Range>, h: nat)
    requires OneOwner(s, w, g.lo, g.hi) && h in s.held
    ensures Interval(h, s.held[h].end) !! s.free
  {
    forall c | c in Interval(h, s.held[h].end) ensures c !in s.free {
      assert Owns(s, w, Payload(h), c);
      assert c in s.free ==> Owns(s, w, FreeRun, c);
    }
  }

  class DiskCacheShard {
    const allocator: DiskChunkAllocator
    const metadata: MetadataChunks
    const index: DiskEntryIndex
    ghost var free: set<nat>

    ghost predicate Valid()
      reads this, allocator, metadata, index
    {
      allocator.Valid(free) && metadata.Valid() && index.Valid()
    }

    /** What the next sample is taken from, with `budget` chunks left to evict. */
    ghost function SamplingFrom(budget: nat): Sampling
      reads this, index
    {
      Sampling(index.View(), index.evictionCandidates, index.nextSampleStart, budget)
    }

    /** The shard as a value. */
    ghost function View(): Shard
      reads this, allocator, metadata, index
    {
      Shard(free, allocator.payloadChunks, metadata.chunks, metadata.dirtyPages, index.View())
    }

    constructor (lo: nat, hi: nat)
      requires lo < hi
      ensures Valid() && fresh(allocator) && fresh(metadata) && fresh(index)
      ensures View() == Shard(Interval(lo, hi), map[], [], {}, map[])
    {
      allocator := new DiskChunkAllocator(lo, hi);
      metadata := new MetadataChunks();
      index := new DiskEntryIndex();
      free := Interval(lo, hi);
    }

    /** Grows the chain for one payload write, if it lacks free slots. */
    method GrowFreeSlots(count: nat) returns (ok: bool)
      requires Valid()
      modifies this`free, allocator`chunkCountByStart, metadata
      ensures Valid()
      ensures ok <==> EnsureFreeSlots(old(View()), count).Some?
      ensures View() == if ok then EnsureFreeSlots(old(View()), count).value else old(View())
    {
      if metadata.freeSlotCount >= count {
        return true;
      }
      GrowthSpec(View(), count);
      ok := AppendFreeChunk();
    }

    /** Appends the lowest free chunk to the chain. */
    method AppendFreeChunk() returns (ok: bool)
      requires Valid()
      modifies this`free, allocator`chunkCountByStart, metadata
      ensures Valid()
      ensures ok <==> LowestRun(old(free), 1).Some?
      ensures View() == if ok then Appended(old(View()), LowestRun(old(free), 1).value) else old(View())
    {
      var chunk := allocator.ReserveChunks(1, free);
      if chunk.None? {
        return false;
      }
      free := free - Interval(chunk.value, chunk.value + 1);
      metadata.AppendChunk(chunk.value);
      ok := true;
    }

    /** Releases a held payload. */
    method ReleaseHeld(address: nat, ghost g: Config, ghost w: map<nat, Range>)
      requires Valid() && OneOwner(View(), w, g.lo, g.hi)
      requires address / CHUNK_BYTES in allocator.payloadChunks
      requires
        var hold := allocator.payloadChunks[address / CHUNK_BYTES];
        hold.payloads > 0 && address / CHUNK_BYTES < hold.end
      modifies this`free, allocator
      ensures Valid()
      ensures View() == ShardModel.ReleasePayload(old(View()), address / CHUNK_BYTES)
    {
      ghost var h := address / CHUNK_BYTES;
      ghost var hold := allocator.payloadChunks[h];
      HeldNotFree(g, View(), w, h);
      allocator.ReleasePayload(address, free);
      if hold.payloads == 1 {
        free := free + Interval(h, hold.end);
      }
    }

    /** Removes an entry: releases its payload and frees its slot. */
    method RemoveEntryFromIndex(key: nat, ghost g: Config, ghost w: map<nat, Range>)
      requires Valid() && CanRemove(g, View(), w, key)
      modifies this`free, allocator, metadata, index`entriesByKey, index`evictionCandidates
      ensures Valid()
      ensures View() == RemoveEntry(old(View()), key)
      ensures key in old(View()).index ==> SwapRemoved(old(index.evictionCandidates), key, index.evictionCandidates)
    {
      ghost var s := View();
      var taken := index.TakeEntry(key);
      if taken.None? {
        return;
      }
      IndexFrame(g, s, View(), w);
      ReleaseHeld(taken.value.address, g, w);
      metadata.FreeEntryMetadata(taken.value.slot);
    }

    /** Indexes an entry whose record is stored, and releases the payload and slot of the entry it replaces. */
    method InsertEntry(key: nat, entry: Entry, ghost g: Config, ghost w: map<nat, Range>)
      requires Valid() && (key in View().index ==> CanRemove(g, View(), w, key))
      modifies this`free, allocator, metadata, index`entriesByKey, index`evictionCandidates
      ensures Valid()
      ensures var released := RemoveEntry(old(View()), key);
        View() == released.(index := released.index[key := entry])
      ensures key !in old(View()).index ==> index.evictionCandidates == old(index.evictionCandidates) + [key]
    {
      ghost var s := View();
      var previous := index.Insert(key, entry);
      if previous.Some? {
        IndexFrame(g, s, View(), w);
        ReleaseHeld(previous.value.address, g, w);
        metadata.FreeEntryMetadata(previous.value.slot);
      }
    }

    /** Stores the record of a new key in the earliest free slot and indexes it. */
    method StoreEntry(r: Record, ghost g: Config, ghost w: map<nat, Range>)
      requires Valid() && r.key !in View().index && metadata.freeSlotCount > 0
      modifies this`free, allocator, metadata, index`entriesByKey, index`evictionCandidates
      ensures Valid()
      ensures View() == InsertRecord(old(View()), r)
      ensures index.evictionCandidates == old(index.evictionCandidates) + [r.key]
    {
      var slot := metadata.StoreEntryMetadata(r);
      InsertEntry(r.key, Entry(r.length, r.address, r.checksum, slot), g, w);
    }

    /**
     The publication region: makes room for every entry before publishing any, then publishes from the
     newest entry to the oldest. Without room, the chunks go back to the allocator.
     */
    method PublishEntries(chunks: Range, batch: seq<Buffered>, ghost g: Config, ghost w: map<nat, Range>, ghost id: nat)
        returns (published: nat)
      requires Valid() && ValidConfig(g) && Inv(g, View(), w)
      requires id in w && w[id] == chunks && ValidBatch(g, chunks, batch)
      modifies this`free, allocator, metadata, index`entriesByKey, index`evictionCandidates
      ensures Valid()
      ensures View() == Publish(old(View()), chunks, batch)
      ensures published == |View().index| - |old(View()).index|
    {
      ghost var s := View();
      var ok := GrowFreeSlots(|batch|);
      if ok {
        assert Publishing(g, HoldChunks(View(), chunks, |batch|), w - {id}, chunks, |batch|) by {
          EnsureFreeSlotsKeepsInv(g, s, w, |batch|);
          HoldKeepsInv(g, View(), w, id, |batch|);
        }
        allocator.HoldChunksUntilPayloadsReleased(chunks.start, chunks.end, |batch|);
        published := PublishHeld(chunks, batch, g, w - {id});
        PublishGrown(s, chunks, batch);
      } else {
        DropDisjoint(g, s, w, id);
        allocator.Release(chunks.start, chunks.end, free);
        free := free + Interval(chunks.start, chunks.end);
        published := 0;
      }
    }

    /** Publishes the entries of held chunks, newest first. */
    method PublishHeld(chunks: Range, batch: seq<Buffered>, ghost g: Config, ghost w: map<nat, Range>)
        returns (published: nat)
      requires Valid() && ValidConfig(g) && Publishing(g, View(), w, chunks, |batch|)
      requires forall i :: 0 <= i < |batch| ==> Fits(g, chunks, batch[i])
      modifies this`free, allocator, metadata, index`entriesByKey, index`evictionCandidates
      ensures Valid()
      ensures View() == PublishAll(old(View()), chunks, batch)
      ensures published == |View().index| - |old(View()).index|
    {
      published := 0;
      var left := |batch|;
      assert batch[..left] == batch;
      ghost var goal := PublishAll(View(), chunks, batch);
      while left > 0
        invariant 0 <= left <= |batch| && Valid()
        invariant Publishing(g, View(), w, chunks, left) && PublishAll(View(), chunks, batch[..left]) == goal
        invariant published == |View().index| - |old(View()).index|
      {
        left := left - 1;
        var newer := PublishNext(chunks, batch, left, g, w, goal);
        if newer { published := published + 1; }
      }
    }

    /** Publishes entry `n`, the newest one left. */
    method PublishNext(chunks: Range, batch: seq<Buffered>, n: nat, ghost g: Config, ghost w: map<nat, Range>,
                       ghost goal: Shard)
        returns (newer: bool)
      requires Valid() && ValidConfig(g) && n < |batch| && Fits(g, chunks, batch[n])
      requires Publishing(g, View(), w, chunks, n + 1) && PublishAll(View(), chunks, batch[..n + 1]) == goal
      modifies this`free, allocator, metadata, index`entriesByKey, index`evictionCandidates
      ensures Valid()
      ensures Publishing(g, View(), w, chunks, n) && PublishAll(View(), chunks, batch[..n]) == goal
      ensures |View().index| == |old(View()).index| + if newer then 1 else 0
    {
      PublishStep(g, View(), w, chunks, batch, n);
      newer := PublishEntry(chunks, batch[n], g, w, n + 1);
    }

    /**
     Samples the candidates and evicts at most one entry that fits the remaining chunk budget: the one
     with the lowest score. Reports whether it sampled, even if nothing was evicted.
     */
    method SampleAndEvictEntry(attempts: nat, budget: nat, sampleSize: nat, score: (nat, nat) -> int,
                               ghost g: Config, ghost w: map<nat, Range>)
        returns (sampled: bool, attempts': nat, budget': nat, victim: Option<nat>)
      requires Valid() && sampleSize > 0
      requires OneOwner(View(), w, g.lo, g.hi) && forall k :: k in View().index ==> SlotHeld(View(), k)
      modifies this`free, allocator, metadata, index
      ensures Valid()
      ensures sampled <==> attempts > 0 && budget > 0 && old(index.evictionCandidates) != []
      ensures attempts' == if sampled then attempts - 1 else attempts
      ensures !sampled ==> victim == None
      ensures sampled ==> EvictsLowest(Round(old(SamplingFrom(budget)), victim), sampleSize, score)
      ensures sampled ==> Leaves(Round(old(SamplingFrom(budget)), victim), sampleSize, SamplingFrom(budget'))
      ensures !sampled ==> SamplingFrom(budget') == old(SamplingFrom(budget))
      ensures victim == None ==> View() == old(View())
      ensures victim.Some? ==> victim.value in old(View()).index && View() == RemoveEntry(old(View()), victim.value)
    {
      victim, attempts', budget' := None, attempts, budget;
      if attempts == 0 || budget == 0 || index.evictionCandidates == [] {
        return false, attempts', budget', victim;
      }
      attempts' := attempts - 1;
      victim := index.SelectVictim(sampleSize, budget, score);
      if victim.Some? {
        budget' := budget - ChunkCount(index.entriesByKey[victim.value].entry.length);
        assert SlotHeld(View(), victim.value);
        RemoveEntryFromIndex(victim.value, g, w);
      }
      sampled := true;
    }

    /** One attempt under the metadata lock: room for the records first, then chunks for the payload. */
    method TryReserve(required: nat, entryCount: nat) returns (start: Option<nat>)
      requires Valid()
      modifies this`free, allocator`chunkCountByStart, metadata
      ensures Valid()
      ensures start == AttemptStart(old(View()), entryCount, required)
      ensures View() == Attempted(old(View()), entryCount, start, required)
    {
      var ok := GrowFreeSlots(entryCount);
      if !ok {
        return None;
      }
      start := ReserveLowest(required);
    }

    method ReserveLowest(required: nat) returns (start: Option<nat>)
      requires Valid()
      modifies this`free, allocator`chunkCountByStart
      ensures Valid() && start == LowestRun(old(View()).free, required)
      ensures View() ==
        if start.None? then old(View()) else Reserve(old(View()), Range(start.value, start.value + required))
    {
      start := allocator.ReserveChunks(required, free);
      if start.Some? {
        free := free - Interval(start.value, start.value + required);
      }
    }

    /**
     One pass of the admission loop: a reservation of the lowest run that fits, or one round of sampling, or,
     when it may not sample, neither.
     */
    method AdmissionPass(required: nat, entryCount: nat, attempts: nat, budget: nat, sampleSize: nat,
                         score: (nat, nat) -> int, ghost g: Config, ghost w: map<nat, Range>)
        returns (start: Option<nat>, again: bool, attempts': nat, budget': nat, victim: Option<nat>)
      requires Valid() && ValidConfig(g) && Inv(g, View(), w) && sampleSize > 0 && 0 < entryCount <= MAX_BATCH
      requires allocator.chunkCapacity == g.hi - g.lo
      modifies this`free, allocator, metadata, index
      ensures Valid() && AdmissionStep(g, w, required, old(View()), View(), start, victim)
      ensures again ==>
        start == None && attempts' + 1 == attempts && required + |metadata.chunks| <= allocator.chunkCapacity
      ensures again ==> EvictsLowest(Round(old(SamplingFrom(budget)), victim), sampleSize, score)
      ensures again ==> Leaves(Round(old(SamplingFrom(budget)), victim), sampleSize, SamplingFrom(budget'))
      ensures !again ==> victim == None && attempts' == attempts && SamplingFrom(budget') == old(SamplingFrom(budget))
      ensures !again ==> LowestWas(View().free, start, required)
      ensures !again && start.None? ==>
        attempts == 0 || budget == 0 || index.evictionCandidates == [] || !MayEvict(g, View(), required)
      ensures budget' <= budget && Frees(old(View()), View(), budget - budget')
    {
      ghost var s := View();
      start := TryReserve(required, entryCount);
      again, attempts', budget', victim := false, attempts, budget, None;
      AttemptKeepsInv(g, s, w, entryCount, required, start);
      AttemptLowest(s, entryCount, required, start);
      ghost var before := View();
      AttemptFrees(s, entryCount, start, required);
      if start.Some? {
        return;
      }
      ChainFitsShard(g, before, w);
      var payloadCapacity := allocator.chunkCapacity - |metadata.chunks|;
      if required > payloadCapacity {
        return;
      }
      again, attempts', budget', victim := SampleRound(attempts, budget, sampleSize, score, g, w);
      FreesBoth(s, before, View(), 0, budget - budget');
    }

    /** A sample keeps the invariant and the chain. */
    method SampleRound(attempts: nat, budget: nat, sampleSize: nat, score: (nat, nat) -> int,
                       ghost g: Config, ghost w: map<nat, Range>)
        returns (sampled: bool, attempts': nat, budget': nat, victim: Option<nat>)
      requires Valid() && ValidConfig(g) && Inv(g, View(), w) && sampleSize > 0
      modifies this`free, allocator, metadata, index
      ensures Valid() && Inv(g, View(), w) && |metadata.chunks| == |old(metadata.chunks)|
      ensures sampled <==> attempts > 0 && budget > 0 && old(index.evictionCandidates) != []
      ensures attempts' == if sampled then attempts - 1 else attempts
      ensures sampled ==> EvictsLowest(Round(old(SamplingFrom(budget)), victim), sampleSize, score)
      ensures sampled ==> Leaves(Round(old(SamplingFrom(budget)), victim), sampleSize, SamplingFrom(budget'))
      ensures victim.Some? ==> victim.value in old(View()).index
      ensures View().index == if victim.Some? then old(View()).index - {victim.value} else old(View()).index
      ensures !sampled ==> victim == None && View() == old(View()) && SamplingFrom(budget') == old(SamplingFrom(budget))
      ensures budget' <= budget && Frees(old(View()), View(), budget - budget')
    {
      ghost var before := View();
      InvSlotsHeld(g, before, w);
      sampled, attempts', budget', victim := SampleAndEvictEntry(attempts, budget, sampleSize, score, g, w);
      if victim.Some? {
        EvictKeepsInv(g, before, w, victim.value);
        EvictionFrees(g, before, w, victim.value);
      } else {
        FreesNothing(before, View());
      }
    }

    /**
     The admission loop: reserves the lowest chunks that fit, evicting sampled entries under one budget until
     they do. It takes at most 64 samples and evicts entries of at most 4096 chunks in total, each the first
     lowest-scoring one of its sample that fits the budget left. It gives up only without attempts, budget or
     candidates, or when the request exceeds what the metadata chunks leave of the shard; then it evicts nothing.
     */
    method ReserveOrEvict(required: nat, entryCount: nat, sampleSize: nat, score: (nat, nat) -> int,
                          ghost g: Config, ghost w: map<nat, Range>)
        returns (start: Option<nat>, samples: nat, evictedChunks: nat, ghost rounds: seq<Round>)
      requires Valid() && ValidConfig(g) && Inv(g, View(), w) && sampleSize > 0 && 0 < entryCount <= MAX_BATCH
      requires allocator.chunkCapacity == g.hi - g.lo
      modifies this`free, allocator, metadata, index
      ensures Valid() && Admitted(g, w, View(), start, required) && LowestWas(View().free, start, required)
      ensures samples == |rounds| <= MAX_EVICTION_ATTEMPTS && evictedChunks <= MAX_EVICTION_CHUNKS
      ensures Trace(old(SamplingFrom(MAX_EVICTION_CHUNKS)), rounds, SamplingFrom(MAX_EVICTION_CHUNKS - evictedChunks),
                sampleSize, score)
      ensures RemovedFrom(old(View()).index, View().index, Victims(rounds))
      ensures evictedChunks == TotalChunks(old(View()).index, Victims(rounds))
      ensures start.None? ==>
        || samples == MAX_EVICTION_ATTEMPTS || evictedChunks == MAX_EVICTION_CHUNKS
        || index.evictionCandidates == [] || !MayEvict(g, View(), required)
      ensures !MayEvict(g, old(View()), required) ==> rounds == []
      ensures Frees(old(View()), View(), evictedChunks)
    {
      ghost var first := SamplingFrom(MAX_EVICTION_CHUNKS);
      var attempts, budget;
      start, attempts, budget, rounds := AdmissionLoop(required, entryCount, sampleSize, score, g, w);
      samples, evictedChunks := MAX_EVICTION_ATTEMPTS - attempts, MAX_EVICTION_CHUNKS - budget;
      TraceRemoves(first, rounds, SamplingFrom(budget), sampleSize, score);
    }

    /** The loop itself, with the attempts and chunks that it leaves. */
    method AdmissionLoop(required: nat, entryCount: nat, sampleSize: nat, score: (nat, nat) -> int,
                         ghost g: Config, ghost w: map<nat, Range>)
        returns (start: Option<nat>, attempts: nat, budget: nat, ghost rounds: seq<Round>)
      requires Valid() && ValidConfig(g) && Inv(g, View(), w) && sampleSize > 0 && 0 < entryCount <= MAX_BATCH
      requires allocator.chunkCapacity == g.hi - g.lo
      modifies this`free, allocator, metadata, index
      ensures Valid() && Admitted(g, w, View(), start, required) && LowestWas(View().free, start, required)
      ensures attempts + |rounds| == MAX_EVICTION_ATTEMPTS && budget <= MAX_EVICTION_CHUNKS
      ensures Trace(old(SamplingFrom(MAX_EVICTION_CHUNKS)), rounds, SamplingFrom(budget), sampleSize, score)
      ensures start.None? ==>
        attempts == 0 || budget == 0 || index.evictionCandidates == [] || !MayEvict(g, View(), required)
      ensures !MayEvict(g, old(View()), required) ==> rounds == []
      ensures Frees(old(View()), View(), MAX_EVICTION_CHUNKS - budget)
    {
      attempts, budget, rounds := MAX_EVICTION_ATTEMPTS, MAX_EVICTION_CHUNKS, [];
      ghost var first, chunks := SamplingFrom(budget), |metadata.chunks|;
      FreesNothing(View(), View());
      while true
        invariant Valid() && Inv(g, View(), w) && chunks <= |metadata.chunks|
        invariant Trace(first, rounds, SamplingFrom(budget), sampleSize, score)
        invariant attempts + |rounds| == MAX_EVICTION_ATTEMPTS && budget <= MAX_EVICTION_CHUNKS
        invariant required > g.hi - g.lo - chunks ==> rounds == []
        invariant Frees(old(View()), View(), MAX_EVICTION_CHUNKS - budget)
        decreases attempts
      {
        var again;
        ghost var before, left := View(), budget;
        start, again, attempts, budget, rounds :=
          TracedPass(required, entryCount, attempts, budget, sampleSize, score, g, w, first, rounds);
        FreesBoth(old(View()), before, View(), MAX_EVICTION_CHUNKS - left, left - budget);
        if !again {
          return;
        }
      }
    }

    /** One pass that continues a trace. */
    method TracedPass(required: nat, entryCount: nat, attempts: nat, budget: nat, sampleSize: nat,
                      score: (nat, nat) -> int, ghost g: Config, ghost w: map<nat, Range>,
                      ghost first: Sampling, ghost rounds: seq<Round>)
        returns (start: Option<nat>, again: bool, attempts': nat, budget': nat, ghost longer: seq<Round>)
      requires Valid() && ValidConfig(g) && Inv(g, View(), w) && sampleSize > 0 && 0 < entryCount <= MAX_BATCH
      requires allocator.chunkCapacity == g.hi - g.lo && Trace(first, rounds, SamplingFrom(budget), sampleSize, score)
      modifies this`free, allocator, metadata, index
      ensures Valid() && Admitted(g, w, View(), start, required) && |old(metadata.chunks)| <= |metadata.chunks|
      ensures Trace(first, longer, SamplingFrom(budget'), sampleSize, score)
      ensures budget' <= budget && Frees(old(View()), View(), budget - budget')
      ensures again ==> |longer| == |rounds| + 1 && attempts' + 1 == attempts && Inv(g, View(), w)
      ensures again ==> MayEvict(g, View(), required)
      ensures !again ==> longer == rounds && attempts' == attempts && budget' == budget
      ensures !again ==> LowestWas(View().free, start, required)
      ensures !again && start.None? ==>
        attempts == 0 || budget == 0 || index.evictionCandidates == [] || !MayEvict(g, View(), required)
    {
      ghost var from := SamplingFrom(budget);
      var victim;
      start, again, attempts', budget', victim :=
        AdmissionPass(required, entryCount, attempts, budget, sampleSize, score, g, w);
      longer := rounds;
      if again {
        longer := rounds + [Round(from, victim)];
        assert Trace(first, longer, SamplingFrom(budget'), sampleSize, score) by {
          TracePush(first, rounds, Round(from, victim), SamplingFrom(budget'), sampleSize, score);
        }
      }
    }

    /** Publishes one entry, or gives its hold back when its key is already indexed. */
    method PublishEntry(chunks: Range, b: Buffered, ghost g: Config, ghost w: map<nat, Range>, ghost left: nat)
        returns (newer: bool)
      requires Valid() && ValidConfig(g) && Publishing(g, View(), w, chunks, left) && left > 0 && Fits(g, chunks, b)
      modifies this`free, allocator, metadata, index`entriesByKey, index`evictionCandidates
      ensures Valid()
      ensures View() == PublishOne(old(View()), chunks, b)
      ensures |View().index| == |old(View()).index| + if newer then 1 else 0
      ensures newer ==> index.evictionCandidates == old(index.evictionCandidates) + [b.key]
      ensures !newer ==> index.evictionCandidates == old(index.evictionCandidates)
    {
      if b.key in index.entriesByKey {
        ReleaseHeld(Address(chunks.start), g, w);
        return false;
      }
      StoreEntry(RecordFor(chunks, b), g, w);
      newer := true;
    }
  }

  // ---------------------------------------------------------------- publication

  lemma DropDisjoint(g: Config, s: Shard, w: map<nat, Range>, id: nat)
    requires OneOwner(s, w, g.lo, g.hi) && id in w
    ensures Interval(w[id].start, w[id].end) !! s.free
  {
    forall c | c in Interval(w[id].start, w[id].end) ensures c !in s.free {
      assert Owns(s, w, Writer(id), c);
      assert c in s.free ==> Owns(s, w, FreeRun, c);
    }
  }

  lemma PublishStep(g: Config, s: Shard, w: map<nat, Range>, r: Range, batch: seq<Buffered>, n: nat)
    requires ValidConfig(g) && n < |batch| && Publishing(g, s, w, r, n + 1) && Fits(g, r, batch[n])
    ensures Publishing(g, PublishOne(s, r, batch[n]), w, r, n)
    ensures PublishAll(s, r, batch[..n + 1]) == PublishAll(PublishOne(s, r, batch[n]), r, batch[..n])
  {
    PublishOneKeepsInv(g, s, w, r, n + 1, batch[n]);
    PublishPrefix(s, r, batch, n);
  }

  lemma PublishPrefix(s: Shard, r: Range, batch: seq<Buffered>, n: nat)
    requires n < |batch|
    ensures PublishAll(s, r, batch[..n + 1]) == PublishAll(PublishOne(s, r, batch[n]), r, batch[..n])
  {
    assert batch[..n + 1][..n] == batch[..n];
  }

  /** What removal needs of the shard: the entry's payload is held and its slot holds a record. */
  ghost predicate CanRemove(g: Config, s: Shard, w: map<nat, Range>, key: nat) {
    OneOwner(s, w, g.lo, g.hi) && (key in s.index ==> SlotHeld(s, key))
  }

  ghost predicate SlotHeld(s: Shard, key: nat) {
    && Removable(s, key) && EntryAt(s.chain, s.index[key].slot).Some?
    && var h := s.index[key].address / CHUNK_BYTES; h < s.held[h].end
  }

  lemma InvSlotsHeld(g: Config, s: Shard, w: map<nat, Range>)
    requires ValidConfig(g) && Inv(g, s, w)
    ensures OneOwner(s, w, g.lo, g.hi) && forall k :: k in s.index ==> SlotHeld(s, k)
  {
    forall k | k in s.index ensures SlotHeld(s, k) {
      assert Placed(g, s, EndSlot(s), k, s.index[k]);
    }
  }

  lemma IndexFrame(g: Config, s: Shard, s': Shard, w: map<nat, Range>)
    requires OneOwner(s, w, g.lo, g.hi) && s'.free == s.free && s'.held == s.held && s'.chain == s.chain
    ensures OneOwner(s', w, g.lo, g.hi)
  {
    SameOwners(s, w, s', w, g.lo, g.hi);
  }
}
