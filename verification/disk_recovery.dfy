/** The recovery loops (disk_cache/recovery.rs) on the shard's mutable parts. */
module DiskRecovery {
  import opened Layout
  import opened Metadata
  import opened ShardModel
  import opened Recovery
  import opened Allocation
  import opened DiskIndex
  import opened DiskShard

  /** A page read back from disk is all zeros exactly when each of its pages is. */
  method IsAllZero(pages: seq<Page>) returns (zero: bool)
    ensures zero <==> AllZero(pages)
  {
    zero := true;
    for p := 0 to |pages|
      invariant zero <==> forall q :: 0 <= q < p ==> pages[q] == Zero
    {
      if pages[p] != Zero { zero := false; }
    }
  }

  /** The chain followed so far and the rest make up the whole chain. */
  ghost predicate Following(disk: Disk, lo: nat, all: set<nat>, chain: Chain, free: set<nat>, address: nat)
    requires ValidDisk(disk)
  {
    && free == all - Numbers(chain)
    && Load(disk, all, Address(lo)) == (chain + Load(disk, free, address).0, Load(disk, free, address).1)
    && (if chain == [] then address == Address(lo) else chain[|chain| - 1].next == address)
  }

  lemma FollowLink(disk: Disk, lo: nat, all: set<nat>, chain: Chain, free: set<nat>, address: nat, next: nat)
    requires ValidDisk(disk) && Following(disk, lo, all, chain, free, address)
    requires Readable(disk, free, address) && LinkOf(disk[address / CHUNK_BYTES]) == Some(next)
    ensures var c := address / CHUNK_BYTES;
      Following(disk, lo, all, chain + [LoadedChunk(c, disk[c])], free - {c}, next)
  {
    var c := address / CHUNK_BYTES;
    var chunk := LoadedChunk(c, disk[c]);
    NumbersAppend(chain, chunk);
    var rest := Load(disk, free - {c}, next);
    assert Load(disk, free, address) == ([chunk] + rest.0, rest.1);
    assert chain + ([chunk] + rest.0) == (chain + [chunk]) + rest.0;
  }

  lemma NumbersAppend(chain: Chain, chunk: Chunk)
    ensures Numbers(chain + [chunk]) == Numbers(chain) + {chunk.number}
  {
    assert forall i :: 0 <= i < |chain| ==> (chain + [chunk])[i] == chain[i];
    assert (chain + [chunk])[|chain|] == chunk;
  }

  /** The allocator, index and chunk sizes are consistent; slots are recounted at the end. */
  ghost predicate Recovering(shard: DiskCacheShard)
    reads shard, shard.allocator, shard.metadata, shard.index
  {
    && shard.allocator.Valid(shard.free) && shard.index.Valid()
    && FullSized(shard.metadata.chunks) && DirtyInRange(shard.metadata.chunks, shard.metadata.dirtyPages)
  }

  /** Following has stopped: the chain is complete, and only its last link may need repair. */
  ghost predicate Followed(disk: Disk, lo: nat, all: set<nat>, chain: Chain, free: set<nat>, address: nat)
    requires ValidDisk(disk)
  {
    && free == all - Numbers(chain)
    && Load(disk, all, Address(lo)) == (chain, address)
    && (chain != [] && address == NO_CHUNK ==> chain[|chain| - 1].next == NO_CHUNK)
  }

  lemma StopUnreadable(disk: Disk, lo: nat, all: set<nat>, chain: Chain, free: set<nat>, address: nat)
    requires ValidDisk(disk) && Following(disk, lo, all, chain, free, address) && !Readable(disk, free, address)
    ensures Followed(disk, lo, all, chain, free, address)
  {
    assert chain + [] == chain;
  }

  lemma StopAtBadLink(disk: Disk, lo: nat, all: set<nat>, chain: Chain, free: set<nat>, address: nat)
    requires ValidDisk(disk) && Following(disk, lo, all, chain, free, address)
    requires Readable(disk, free, address) && LinkOf(disk[address / CHUNK_BYTES]) == None
    ensures var c := address / CHUNK_BYTES;
      Followed(disk, lo, all, chain + [LoadedChunk(c, disk[c])], free - {c}, address)
  {
    var c := address / CHUNK_BYTES;
    NumbersAppend(chain, LoadedChunk(c, disk[c]));
  }

  /** Reads the chain into memory, reserving every chunk, before any payload address is accepted. */
  method LoadMetadataChain(shard: DiskCacheShard, disk: Disk, g: Config)
    requires ValidConfig(g) && ValidDisk(disk) && shard.Valid()
    requires shard.View() == Shard(Interval(g.lo, g.hi), map[], [], {}, map[])
    modifies shard`free, shard.allocator`chunkCountByStart, shard.metadata`chunks, shard.metadata`dirtyPages
    ensures Recovering(shard) && shard.View() == Loaded(g, disk)
  {
    var address, chain := FollowChain(shard, disk, g);
    LoadedChain(g, disk);
    shard.metadata.chunks := chain;
    if address != NO_CHUNK && chain != [] {
      shard.metadata.chunks := chain[|chain| - 1 := chain[|chain| - 1].(next := NO_CHUNK)];
      shard.metadata.dirtyPages := {PageAt(|chain| - 1, ENTRY_PAGES_PER_CHUNK)};
    }
    assert shard.metadata.chunks == LinkLast(chain, NO_CHUNK);
  }

  /** Follows links from the shard's first chunk. Reservations enforce the shard's bounds and stop cycles. */
  method FollowChain(shard: DiskCacheShard, disk: Disk, g: Config) returns (address: nat, chain: Chain)
    requires ValidConfig(g) && ValidDisk(disk)
    requires shard.allocator.Valid(shard.free) && shard.free == Interval(g.lo, g.hi)
    modifies shard`free, shard.allocator`chunkCountByStart
    ensures shard.allocator.Valid(shard.free)
    ensures Followed(disk, g.lo, Interval(g.lo, g.hi), chain, shard.free, address)
  {
    ghost var all := Interval(g.lo, g.hi);
    address, chain := Address(g.lo), [];
    assert chain + Load(disk, all, address).0 == Load(disk, all, address).0;
    while address != NO_CHUNK && address % CHUNK_BYTES == 0
      invariant shard.allocator.Valid(shard.free) && shard.free <= all
      invariant Following(disk, g.lo, all, chain, shard.free, address)
      decreases shard.free
    {
      ghost var free := shard.free;
      var c := address / CHUNK_BYTES;
      SingleChunk(g, free, c);
      var loaded := ReserveAndRead(shard, disk, c, g);
      if !loaded {
        StopUnreadable(disk, g.lo, all, chain, free, address);
        return;
      }
      match LinkOf(disk[c])
      case None =>
        StopAtBadLink(disk, g.lo, all, chain, free, address);
        chain := chain + [LoadedChunk(c, disk[c])];
        return;
      case Some(next) =>
        FollowLink(disk, g.lo, all, chain, free, address, next);
        chain := chain + [LoadedChunk(c, disk[c])];
        address := next;
    }
    StopUnreadable(disk, g.lo, all, chain, shard.free, address);
  }

  /** Reserves one chunk and keeps it only if it can be read and is not all zeros. */
  method ReserveAndRead(shard: DiskCacheShard, disk: Disk, c: nat, ghost g: Config) returns (loaded: bool)
    requires ValidConfig(g) && shard.allocator.Valid(shard.free) && shard.free <= Interval(g.lo, g.hi)
    modifies shard`free, shard.allocator`chunkCountByStart
    ensures loaded <==> c in old(shard.free) && c in disk && !AllZero(disk[c])
    ensures shard.allocator.Valid(shard.free)
    ensures shard.free == if loaded then old(shard.free) - {c} else old(shard.free)
  {
    SingleChunk(g, shard.free, c);
    var reserved := shard.allocator.ReserveChunksAt(c, 1, shard.free);
    if !reserved {
      return false;
    }
    if c in disk {
      var zero := IsAllZero(disk[c]);
      loaded := !zero;
    } else {
      loaded := false;
    }
    if loaded {
      shard.free := shard.free - Interval(c, c + 1);
    } else {
      shard.allocator.Release(c, c + 1, shard.free - Interval(c, c + 1));
      assert shard.free - Interval(c, c + 1) + Interval(c, c + 1) == shard.free;
    }
  }

  lemma SingleChunk(g: Config, free: set<nat>, c: nat)
    requires ValidConfig(g) && free <= Interval(g.lo, g.hi)
    ensures Interval(c, c + 1) == {c} && (c in free ==> c + 1 < U64_END)
  {
  }

  // ---------------------------------------------------------------- accepting records

  lemma SlotRepresentable(g: Config, s: Shard, t: Slot)
    requires g.shards > 0 && HasSlot(s.chain, t) && RepresentableChain(s.chain) && FullSized(s.chain)
    ensures RepresentableChain(RecoverSlot(g, s, t).chain) && FullSized(RecoverSlot(g, s, t).chain)
    ensures |RecoverSlot(g, s, t).chain| == |s.chain|
  {
    var chain := RecoverSlot(g, s, t).chain;
    forall u | HasSlot(chain, u) ensures RepresentableEntry(EntryAt(chain, u)) {
      assert HasSlot(s.chain, u);
    }
  }

  /** Accepts or clears the record of one slot. */
  method RecoverEntry(shard: DiskCacheShard, g: Config, t: Slot)
    requires g.shards > 0 && Recovering(shard) && HasSlot(shard.metadata.chunks, t)
    requires RepresentableEntry(EntryAt(shard.metadata.chunks, t))
    modifies shard`free, shard.allocator, shard.metadata`chunks
    modifies shard.index`entriesByKey, shard.index`evictionCandidates
    ensures Recovering(shard)
    ensures shard.View() == RecoverSlot(g, old(shard.View()), t)
  {
    var chunk := shard.metadata.chunks[t.chunk];
    var stored := chunk.entries[t.entry];
    if stored.None? {
      return;
    }
    var r := stored.value;
    if r.key % g.shards == g.id && r.key !in shard.index.entriesByKey {
      var ok := HoldRecoveredPayload(shard, r.address, r.address + PayloadDiskBytes(r.length));
      if ok {
        var previous := shard.index.Insert(r.key, Entry(r.length, r.address, r.checksum, t));
        return;
      }
    }
    shard.metadata.chunks := shard.metadata.chunks[t.chunk := chunk.(entries := chunk.entries[t.entry := None])];
  }

  method HoldRecoveredPayload(shard: DiskCacheShard, start: nat, end: nat) returns (ok: bool)
    requires shard.allocator.Valid(shard.free) && start < end < U64_END
    modifies shard`free, shard.allocator
    ensures shard.allocator.Valid(shard.free)
    ensures ok <==> HoldRecovered(old(shard.View()), start, end).Some?
    ensures shard.View() == if ok then HoldRecovered(old(shard.View()), start, end).value else old(shard.View())
  {
    ghost var h, last := start / CHUNK_BYTES, CeilDiv(end, CHUNK_BYTES);
    ghost var shared := h in shard.allocator.payloadChunks;
    ok := shard.allocator.HoldChunksForRecoveredPayload(start, end, shard.free);
    if ok && !shared {
      shard.free := shard.free - Interval(h, last);
    }
  }

  /**
   Rebuilds the shard from its disk image: the whole chain is reserved first, then each record is
   accepted or cleared in scan order, then the free slots are recounted.
   */
  method RecoverShard(shard: DiskCacheShard, disk: Disk, g: Config)
    requires ValidConfig(g) && ValidDisk(disk) && RepresentableChain(Loaded(g, disk).chain) && shard.Valid()
    requires shard.View() == Shard(Interval(g.lo, g.hi), map[], [], {}, map[])
    modifies shard`free, shard.allocator, shard.metadata, shard.index`entriesByKey, shard.index`evictionCandidates
    ensures shard.Valid()
    ensures shard.View() == Recover(g, disk)
  {
    LoadMetadataChain(shard, disk, g);
    LoadedChain(g, disk);
    RecoverChunks(shard, g);
    shard.metadata.ResetFreeSlots();
  }

  /** Recovers the records of every metadata chunk in chain order. */
  method RecoverChunks(shard: DiskCacheShard, g: Config)
    requires g.shards > 0 && Recovering(shard) && RepresentableChain(shard.metadata.chunks)
    modifies shard`free, shard.allocator, shard.metadata`chunks
    modifies shard.index`entriesByKey, shard.index`evictionCandidates
    ensures Recovering(shard)
    ensures shard.View() == RecoverFrom(g, old(shard.View()), Slot(0, 0))
  {
    ghost var loaded := shard.View();
    var i := 0;
    while i < |shard.metadata.chunks|
      invariant Recovering(shard) && RepresentableChain(shard.metadata.chunks) && 0 <= i <= |shard.metadata.chunks|
      invariant RecoverFrom(g, shard.View(), Slot(i, 0)) == RecoverFrom(g, loaded, Slot(0, 0))
      decreases |shard.metadata.chunks| - i
    {
      RecoverChunk(shard, g, i, loaded);
      i := i + 1;
    }
  }

  /** The slot at `j` of chunk `i`, or the next chunk's first one. */
  ghost function SlotFrom(i: nat, j: nat): Slot {
    if j < ENTRIES_PER_CHUNK then Slot(i, j) else Slot(i + 1, 0)
  }

  /** Recovers the records of one metadata chunk in slot order. */
  method RecoverChunk(shard: DiskCacheShard, g: Config, i: nat, ghost loaded: Shard)
    requires g.shards > 0 && FullSized(loaded.chain)
    requires Recovering(shard) && RepresentableChain(shard.metadata.chunks) && i < |shard.metadata.chunks|
    requires RecoverFrom(g, shard.View(), Slot(i, 0)) == RecoverFrom(g, loaded, Slot(0, 0))
    modifies shard`free, shard.allocator, shard.metadata`chunks
    modifies shard.index`entriesByKey, shard.index`evictionCandidates
    ensures Recovering(shard) && RepresentableChain(shard.metadata.chunks)
    ensures |shard.metadata.chunks| == |old(shard.metadata.chunks)|
    ensures RecoverFrom(g, shard.View(), Slot(i + 1, 0)) == RecoverFrom(g, loaded, Slot(0, 0))
  {
    var j := 0;
    while j < ENTRIES_PER_CHUNK
      invariant 0 <= j <= ENTRIES_PER_CHUNK
      invariant Recovering(shard) && RepresentableChain(shard.metadata.chunks)
      invariant |shard.metadata.chunks| == |old(shard.metadata.chunks)|
      invariant RecoverFrom(g, shard.View(), SlotFrom(i, j)) == RecoverFrom(g, loaded, Slot(0, 0))
    {
      SlotRepresentable(g, shard.View(), Slot(i, j));
      RecoverEntry(shard, g, Slot(i, j));
      j := j + 1;
    }
  }
}
