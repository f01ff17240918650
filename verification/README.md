# Feuer, verified

Feuer is a two-tier object cache: a memory tier in front of a disk tier that keeps its own file of
1-MiB chunks. This project models the parts of it in which state is shared, persisted or reused, and
proves what every operation and every run of them keeps. `dafny verify dfyconfig.toml` checks everything.

Operations that update state in place are classes and methods, each proved against a function on values;
the theorems are about those functions and about state machines whose steps are the lock-protected regions.

- **Disk shard.** `arithmetic`, `layout`, `shard_layout`, `metadata`, `allocation`, `shard`, `publication`,
  `disk_index`, `retention`, `admission`, `disk_shard` and `small_entry_buffer` model chunk ownership, the metadata
  chain, the index with its candidate list, admission with eviction, packing and publication. `Inv` in `shard` is
  the global invariant: one owner for every chunk, exact payload counts, an index that equals the slots. The
  free-slot count and the search hint are kept exact by `MetadataChunks.Valid` in `metadata`. `admission_runs` lets
  any other action of the shard come between the lock regions of an admission, and `evicted_chunks` relates the
  eviction budget to the chunks that evictions free.
- **Crashes and recovery.** `recovery`, `disk_recovery` and `round_trip` rebuild a shard from any image.
  `crash`, `crash_safety` and `runs` let payload pages, metadata pages, failed rounds and reopens interleave in
  any order; `durability` shows that no change in memory is forgotten on its way to the disk.
  `metadata_writer`, `page_format` and `disk_bytes` tie this to the writer's order and to the bytes.
  `byte_file`, `byte_runs` and `byte_recovery` are the same runs on the bytes of the file, from packed or padded
  objects to what an opening finds. `survival` decides which records a recovery keeps, and `stale_record` is a run
  that loses a live one.
- **Header.** `header` lets a crash lose, keep or tear every unsynced write of the open protocol.
- **I/O.** `io_queue` and `io_queue_runs` model the request array and the ring; `file_io` the splitting of
  reads and writes; `read_admission` the permits; `write_admission` and `write_pacing` the write limit.
- **Memory tier.** `buffer_pool` and `memory_cache` share one byte budget.
- **Protocols.** `pending_fetches` is the single-flight registry; `decay` and `history` the request history.

Four statements need care:

- The header fence holds at every crash point, but not if a process is killed (without a crash) between
  writing a header and syncing it: the next opening trusts that header without a sync, and a later crash can
  bring the previous header back over the new format's pages. `Header.AbandonedHeaderBreaksFence` builds that
  run from any synced file. `Header.TrustIsSafeIff` gives the exact condition for the opening, and
  `Header.EveryCrashPointIsFenced` shows that runs without such a kill always meet it.
- The comment at lib.rs:92 of feuer-historian says that requests since the snapshot of the clocks keep their
  history. The snapshot is taken shard by shard, and `History.ScanRequestLastsIff` proves that a request made
  during it is safe exactly when no shard is left to scan; `History.ScanLoses` builds the run that loses it.
- The comment at metadata.rs:82 of the disk cache says that earliest reuse lets live records claim reused chunks
  before stale ones. A slot freed on an earlier page can be taken by another key before its chunk is reused from a
  later page, and a round writes later pages first. `StaleRecord.LiveRecordLost` is such a run, with every
  reservation the lowest that fits: a live record is on disk, and recovery rejects it for a stale one.
  `Survival.StoppedRunSurvivesIff` says exactly which live records survive.
- `architecture.html` describes an older range-based design (line 317); the model follows the Rust source and
  `format.md`.

Assumptions, where the code leaves them to others: a writer finishes its I/O before it drops a reservation; the
kernel completes each accepted entry once and moves at most the requested bytes; metadata writes reach the disk
in issue order, page by page. Scores are arbitrary integers, times and counts are reals, and checksum functions
are arbitrary.

## Model

| member | source | states |
|---|---|---|
| `Runs.CrashSafeChain` | feuer-storage/src/disk_cache/metadata.rs:199-243 | from a cleared file, after every run with torn writes, failed rounds and reopens, following the links on disk visits a prefix of the chain in memory |
| `Runs.RecoveredWasPublished` | feuer-storage/src/disk_cache/recovery.rs:68-113 | after every such run, each record that recovery can find was newly indexed by a publication of the run, so stale chunks and payload bytes are never taken for metadata |
| `Runs.ShardInvariant` | feuer-storage/src/disk_cache/adversarial_tests.rs:475-590 | every run keeps the shard invariant: one owner per chunk, exact payload counts, and an index that equals the slots |
| `Runs.OpenedOk` | feuer-storage/src/disk_cache/recovery.rs:23-63 | opening any image establishes that invariant |
| `Runs.RecoveryNeverOverflows` | feuer-storage/src/disk_cache/recovery.rs:31-47 | after every such run, whatever stale pages hold, the payload ends that recovery computes fit in a u64 |
| `ByteRuns.PayloadIsolation` | feuer-storage/src/disk_cache/writer.rs:24-93 | after every run from any file, the bytes at the address of each key published since the last reopen are those of the newest object that its write carried, and every other indexed key still has the bytes that the reopen read |
| `ByteRuns.BytesCrashSafe` | feuer-storage/src/disk_cache/recovery.rs:68-113 | the same runs from a zeroed first chunk: recovery from the bytes visits only chunks of the chain in memory, in order, without overflow |
| `ByteRecovery.ReopenGivesObjects` | feuer-storage/src/disk_cache/recovery.rs:23-63 | from a zeroed first chunk, after any run without a reopen or a failed round, once nothing is in flight, marked or pending: opening the file as it is gives the same shard back, and at each key's address are the bytes of the newest object that a write of the run carried |
| `ByteRecovery.RecoveredWasWritten` | feuer-storage/src/disk_cache/recovery.rs:68-113 | from a zeroed first chunk, after every run with torn writes and reopens, each record that recovery can find in the bytes has the key, length and checksum of an object that a write of the run carried |
| `ByteRuns.RunOfPages` | feuer-storage/src/disk_cache/page_format.rs:41-46 | what readers make of the bytes during such a run is a run of the page-level model, with a reopen or a failed round exactly where the run has one |
| `ByteRuns.StepKeepsStore` | feuer-storage/src/disk_cache/writer.rs:24-93 | every step of payload transfers, publications, metadata pages and reopens keeps file, image, writes in flight and objects together |
| `ByteRuns.ObjectWritten` | feuer-storage/src/disk_cache/writer.rs:49-59 | once all pages of a write are in the file, each of its objects is there whole, at the address that publication records |
| `ByteRuns.OpenedStoreOk` | feuer-storage/src/disk_cache/recovery.rs:23-63 | opening any file establishes what every step keeps |
| `ByteRuns.WriteCanTransfer` | feuer-storage/src/disk_cache/writer.rs:49-59 | in every such state a write in flight can transfer any of its pages, and that page is then done |
| `ByteRuns.WriteCanFinish` | feuer-storage/src/disk_cache/writer.rs:60-93 | in every such state a write whose pages are all done can publish |
| `ByteRuns.RoundEncodable` | feuer-storage/src/disk_cache/metadata.rs:199-233 | every page of a round fits its encoding, so readers get back what was written |
| `ByteFile.WriteImage` | feuer-storage/src/disk_cache/page_format.rs:41-46 | a page write changes what readers see by exactly that page |
| `Durability.NothingForgotten` | feuer-storage/src/disk_cache/metadata.rs:199-233 | from a cleared file, after every run in which no round failed, each page of the chain is marked, or in the round, or in a chunk that waits for its first write, or on disk as in memory; so once nothing is marked or pending, the disk encodes exactly the chain |
| `Durability.CleanReopen` | feuer-storage/src/disk_cache/recovery.rs:23-132 | after every such run, with nothing in flight, marked or pending, recovery from the disk as it is gives the same shard back |
| `Durability.MemoryMarks` | feuer-storage/src/disk_cache/metadata.rs:85-171 | growing, publishing, removing and reserving mark every page whose encoding they change, and the link page of every new chunk |
| `Durability.RoundIncludes` | feuer-storage/src/disk_cache/metadata.rs:199-233 | a round writes every marked page, and every uninitialized chunk whole |
| `CrashSafety.LinksFollowChain` | feuer-storage/src/disk_cache/recovery.rs:68-113 | in every safe state the links on disk lead through a prefix of the chain |
| `CrashSafety.ApplySafe` | feuer-storage/src/disk_cache/metadata.rs:125-139 | every action keeps the disk safe: a link is written only after the chunk it names was written whole, and payload writes stay outside the chain |
| `CrashSafety.RoundWritesSafe` | feuer-storage/src/disk_cache/metadata.rs:199-233 | in the order of one round, every link comes after the initialization of its target |
| `CrashSafety.ReopenSafe` | feuer-storage/src/disk_cache/recovery.rs:68-113 | recovering from what a stop left, at any point, is a safe state again |
| `CrashModel.ApplyKeepsShard` | feuer-storage/src/disk_cache/writer.rs:24-93 | every action of writers, metadata writer and reopen keeps the shard invariant |
| `MetadataWriter.TakeWrites` | feuer-storage/src/disk_cache/metadata.rs:199-233 | takes the dirty pages and uninitialized chunks, and encodes exactly the round's writes from the last page to the first |
| `MetadataWriter.MarkUninitialized` | feuer-storage/src/disk_cache/metadata.rs:202-209 | a round with any dirty page includes all unfinished chunk initializations, and one without has none |
| `Recovery.RecoverInv` | feuer-storage/src/disk_cache/recovery.rs:23-113 | recovery from any image, with cyclic, foreign or corrupt links and overlapping or duplicate records, ends in the shard invariant |
| `Recovery.LoadedChain` | feuer-storage/src/disk_cache/recovery.rs:68-113 | the loaded chain is rooted at the shard's first chunk, visits no chunk twice, stays in the shard and ends with a sealed link |
| `Recovery.LoadedSlots` | feuer-storage/src/disk_cache/recovery.rs:84-98 | for any image, record k of page p of a loaded chunk is in slot p * 101 + k if that page is a valid entry page, and the slot is empty if not, whatever the other pages hold |
| `Recovery.LoadedRepairs` | feuer-storage/src/disk_cache/recovery.rs:100-112 | for any image, the link page of the last loaded chunk is marked for repair exactly when it does not end the chain on disk |
| `Recovery.RecoverSlotKeepsInv` | feuer-storage/src/disk_cache/recovery.rs:31-60 | accepting or clearing one slot keeps the partial invariant up to that slot |
| `Survival.SurvivesIff` | feuer-storage/src/disk_cache/recovery.rs:31-60 | for any image, a loaded record survives exactly when it belongs to the shard and the records that survive in earlier slots leave its key free, and its chunks unclaimed or shared from the same first chunk |
| `Survival.LiveSurvivesIff` | feuer-storage/src/disk_cache/metadata.rs:81-105 | a live record on disk survives exactly when no stale record that survives earlier has its key, or overlaps its chunks while no earlier record shares them; live records never push each other out |
| `Survival.StoppedRunSurvivesIff` | feuer-storage/src/disk_cache/metadata.rs:81-105 | the same wherever a run from a cleared file without a reopen stops, for every live record that is on an entry page to which the link pages on disk lead |
| `Survival.UndisturbedSurvives` | feuer-storage/src/disk_cache/recovery.rs:31-60 | in particular it survives if no stale record loaded from an earlier slot has its key or overlaps it |
| `StaleRecord.LiveRecordLost` | feuer-storage/src/disk_cache/metadata.rs:81-105 | a run from a file of zeroes with first-fit reservations after which a live record is on disk and recovery rejects it for a stale one, against the comment there |
| `DiskRecovery.LoadMetadataChain` | feuer-storage/src/disk_cache/recovery.rs:68-113 | the loop over links gives the loaded shard; it ends because each followed link consumes a free chunk |
| `DiskRecovery.FollowChain` | feuer-storage/src/disk_cache/recovery.rs:70-101 | follows links until the end, an unreadable or zero chunk, or a bad link, and reports where it stopped |
| `DiskRecovery.RecoverEntry` | feuer-storage/src/disk_cache/recovery.rs:31-60 | indexes a slot's record, or clears the slot of a rejected one |
| `DiskRecovery.RecoverShard` | feuer-storage/src/disk_cache/recovery.rs:23-63 | the loops over chunks and slots compute the recovered shard from any image whose loaded payload ends fit in a u64 |
| `RoundTrip.RecoverRoundTrip` | feuer-storage/src/disk_cache/recovery.rs:23-63 | recovery inverts the encoding of a shard: same key to length, address and checksum map, occupied chunks, payload counts and free slots |
| `DiskBytes.BytesRoundTrip` | feuer-storage/src/disk_cache/metadata.rs:58-79 | the same round trip from the bytes of the file, for any checksum function |
| `DiskBytes.LiveRecordEncodable` | feuer-storage/src/disk_cache/page_format.rs:48-56 | a live record is never the all-zero unused one, because its address lies past the header chunk |
| `PageFormat.EntryRoundTrip` | feuer-storage/src/disk_cache/recovery.rs:122-132 | decoding an encoded record gives it back |
| `PageFormat.ZeroRecordIsUnused` | feuer-storage/src/disk_cache/recovery.rs:122-125 | only the all-zero record decodes to an unused slot |
| `PageFormat.PageRoundTrip` | feuer-storage/src/disk_cache/page_format.rs:41-46 | an encoded page is valid for its own tag only, and gives its contents back |
| `PageFormat.EntryPageMeans` | feuer-storage/src/disk_cache/metadata.rs:65-78 | an encoded entry page means exactly its records |
| `PageFormat.LinkPageMeans` | feuer-storage/src/disk_cache/metadata.rs:61-64 | an encoded link page means exactly its address, and is no entry page |
| `PageFormat.ZeroPageMeans` | feuer-storage/src/disk_cache/page_format.rs:41-46 | a zeroed page is valid for neither tag |
| `PageFormat.EncodePageInto` | feuer-storage/src/disk_cache/page_format.rs:28-37 | filling the buffer in place gives the encoded page, checksum last |
| `PageFormat.PageLayout` | feuer-storage/src/disk_cache/page_format.rs:28-37 | checksum, count, tag and contents of an encoded page are at bytes 0, 16, 24 and 32, and the rest is zero |
| `PageFormat.EntryLayout` | feuer-storage/src/disk_cache/page_format.rs:48-56 | key, length, address and checksum of an encoded record are at bytes 0, 16, 24 and 32 |
| `PageFormat.MeansOnlyWhenIntact` | feuer-storage/src/disk_cache/page_format.rs:41-46 | bytes are an entry page or a link page for readers exactly when they have that tag and the checksum of the rest |
| `PageFormat.LeByte` | feuer-storage/src/disk_cache/page_format.rs:48-56 | byte i of an encoded number is its digit of weight 256^i |
| `PageFormat.LeRoundTrip` | feuer-storage/src/disk_cache/recovery.rs:115-120 | little-endian bytes give the number back |
| `Publication.PublishOutcome` | feuer-storage/src/disk_cache/writer.rs:60-93 | for every batch: exactly the new keys are published, each with its newest entry, indexed keys are untouched, holds equal published entries, and the chunks are free exactly when nothing was published |
| `Publication.PublishKeepsInv` | feuer-storage/src/disk_cache/writer.rs:60-93 | publication keeps the invariant, also when the chain cannot grow |
| `Publication.PublishAllIndex` | feuer-storage/src/disk_cache/writer.rs:67-88 | the newest entry of each key wins, whatever the duplicates |
| `Publication.PublishAllHolds` | feuer-storage/src/allocation.rs:139-157 | publication changes no reservation but the batch's own |
| `DiskShard.DiskCacheShard.PublishEntries` | feuer-storage/src/disk_cache/writer.rs:60-93 | the publication region computes the published shard and returns the number of new entries |
| `DiskShard.DiskCacheShard.PublishHeld` | feuer-storage/src/disk_cache/writer.rs:67-88 | the loop from newest to oldest publishes all entries of held chunks |
| `DiskShard.DiskCacheShard.ReserveOrEvict` | feuer-storage/src/disk_cache/writer.rs:24-48 | takes the lowest run of chunks once one fits; until then a trace of at most 64 samples leads from the old index, candidates and cursor to the new ones, each evicting the first lowest-scoring sampled entry within what is left of 4096 chunks; gives up only without samples, budget or candidates or for a request beyond what metadata leaves, and evicts nothing for such a request; if entries cover their reservations, at most the chunks charged to the budget stop being held |
| `DiskShard.DiskCacheShard.AdmissionPass` | feuer-storage/src/disk_cache/writer.rs:28-47 | one pass reserves the lowest run, or gives up for one of those reasons, or takes one sample and evicts at most one entry, keeping the invariant |
| `DiskShard.DiskCacheShard.SampleAndEvictEntry` | feuer-storage/src/disk_cache.rs:382-418 | evicts the first lowest-scoring sampled entry that fits the remaining budget, or nothing if none fits, swap-removes it from the candidates, advances the cursor by the sample and charges the budget |
| `Admission.TraceRemoves` | feuer-storage/src/disk_cache/writer.rs:26-47 | the victims of such a trace are exactly what left the index, and their chunks exactly what the budget lost |
| `AdmissionRuns.AdmissionBounds` | feuer-storage/src/disk_cache/writer.rs:24-48 | with any other actions of the shard between its lock regions, an admission takes at most 64 samples and 130 regions, evicts at most 4096 chunks, in each sample the first lowest-scoring entry within the budget left, frees no more chunks than it is charged if entries cover their reservations, gives up only for those reasons, and evicts nothing when metadata leaves too little |
| `EvictedChunks.ChunkCountIsTouched` | feuer-storage/src/disk_cache.rs:448-451 | the chunks that an entry is charged are the chunks that its bytes touch from a chunk boundary on |
| `EvictedChunks.EvictionFreesExactly` | feuer-storage/src/disk_cache.rs:462-473 | an eviction frees the entry's whole reservation if it was its last entry, and no chunk otherwise |
| `EvictedChunks.EvictionFrees` | feuer-storage/src/disk_cache.rs:403-415 | so it frees at most the chunks that it is charged, if entries cover their reservations |
| `EvictedChunks.ClearedRunCompact` | feuer-storage/src/disk_cache.rs:448-451 | and in every run from a cleared file without a reopen they do |
| `AdmissionRuns.AdmissionIsRun` | feuer-storage/src/disk_cache/writer.rs:24-48 | with all that comes between, it is a run of the shard model, so what every run keeps holds here too |
| `AdmissionRuns.AttemptReserves` | feuer-storage/src/disk_cache/writer.rs:28-32 | an attempt reserves the lowest run that fits after the chain has grown, for this write alone, or there is none |
| `DiskShard.DiskCacheShard.RemoveEntryFromIndex` | feuer-storage/src/disk_cache.rs:462-473 | removes entry, slot and payload together |
| `DiskShard.DiskCacheShard.InsertEntry` | feuer-storage/src/disk_cache.rs:478-491 | indexes an entry, and releases the payload and the slot of the entry it replaces |
| `DiskShard.DiskCacheShard.StoreEntry` | feuer-storage/src/disk_cache/writer.rs:67-88 | stores a new key's record in the first free slot and indexes it there |
| `DiskShard.DiskCacheShard.GrowFreeSlots` | feuer-storage/src/disk_cache/metadata.rs:125-139 | appends a linked chunk when slots run out, or changes nothing if no chunk is free |
| `Admission.ChainFitsShard` | feuer-storage/src/disk_cache/writer.rs:33-38 | metadata chunks never outnumber the shard's chunks, so the payload capacity does not underflow |
| `ShardModel.RemoveEntryKeepsInv` | feuer-storage/src/disk_cache.rs:462-473 | removing a key keeps the invariant and frees its chunks after the last payload |
| `ShardModel.InsertKeepsInv` | feuer-storage/src/disk_cache.rs:478-491 | inserting a record of a held payload keeps the invariant |
| `ShardModel.ReleaseKeepsInv` | feuer-storage/src/allocation.rs:149-157 | giving back one payload keeps exact counts and single ownership |
| `ShardModel.GrowsOnlyWhenShort` | feuer-storage/src/disk_cache/metadata.rs:125-139 | the chain grows only when slots are short, then by one chunk and its slots, and fails only without a free chunk |
| `ShardModel.EnsureFreeSlotsKeepsInv` | feuer-storage/src/disk_cache/metadata.rs:125-139 | growing the chain keeps the invariant and gives the slots asked for |
| `ShardModel.ReserveKeepsInv` | feuer-storage/src/allocation.rs:102-106 | moving free chunks to a writer keeps single ownership |
| `ShardModel.DropKeepsInv` | feuer-storage/src/allocation.rs:33-45 | dropping a writer's reservation keeps single ownership |
| `Metadata.MetadataChunks.StoreEntryMetadata` | feuer-storage/src/disk_cache/metadata.rs:85-105 | the search from the hint finds the earliest free slot of the whole chain, marks its page and counts it |
| `Metadata.MetadataChunks.FreeEntryMetadata` | feuer-storage/src/disk_cache/metadata.rs:108-116 | empties a slot, counts it and moves the search hint back when needed |
| `Metadata.MetadataChunks.AppendChunk` | feuer-storage/src/disk_cache/metadata.rs:125-139 | links the last chunk to a new uninitialized one |
| `Metadata.MetadataChunks.SetLastChunkLink` | feuer-storage/src/disk_cache/metadata.rs:152-157 | relinks the last chunk and marks its link page |
| `Metadata.MetadataChunks.ResetFreeSlots` | feuer-storage/src/disk_cache/metadata.rs:142-150 | restarts the search and recounts the free slots exactly |
| `Metadata.FirstFreeUnique` | feuer-storage/src/disk_cache/metadata.rs:81-105 | only one slot is the earliest free one |
| `Metadata.FreeSlotsUpdate` | feuer-storage/src/disk_cache/metadata.rs:85-116 | filling or emptying a slot changes the count of free slots by exactly one |
| `Allocation.DiskChunkAllocator.constructor` | feuer-storage/src/allocation.rs:89-100 | a new allocator is one run of all chunks |
| `Allocation.DiskChunkAllocator.Release` | feuer-storage/src/allocation.rs:33-45 | releasing chunks keeps the canonical form of the larger free set |
| `Allocation.DiskChunkAllocator.ReserveChunkNumbers` | feuer-storage/src/allocation.rs:161-186 | succeeds exactly when all chunks of a nonempty range are free; failure changes nothing |
| `Allocation.DiskChunkAllocator.ReserveChunksAt` | feuer-storage/src/allocation.rs:103-106 | the same from a first chunk, rejecting ranges that overflow |
| `Allocation.DiskChunkAllocator.ReserveChunks` | feuer-storage/src/allocation.rs:132-137 | takes the lowest place with that many free chunks in a row, and fails exactly when there is none |
| `ShardModel.HeldUntilReleased` | feuer-storage/src/allocation.rs:139-157 | held chunks stay reserved through all releases of their payloads but the last, which frees exactly them |
| `Allocation.DiskChunkAllocator.HoldChunksForRecoveredPayload` | feuer-storage/src/allocation.rs:111-129 | adds a payload to a reservation that contains it, or reserves its chunks, or rejects it unchanged |
| `Allocation.DiskChunkAllocator.ReleasePayload` | feuer-storage/src/allocation.rs:149-157 | frees the chunks with the last payload, and only then |
| `Allocation.CanonicalUnique` | feuer-storage/src/allocation.rs:31-46 | a set of free chunks has only one canonical map of runs |
| `Allocation.FirstFit` | feuer-storage/src/allocation.rs:131-137 | the first long enough run starts the lowest free range of that length |
| `Allocation.AllFreeIsOneRun` | feuer-storage/src/allocation.rs:348-430 | releasing everything restores the one initial run |
| `DiskIndex.DiskEntryIndex.TakeEntry` | feuer-storage/src/disk_cache.rs:505-514 | swap-remove takes exactly one key, moves the last candidate to its place and keeps positions exact |
| `DiskIndex.DiskEntryIndex.Insert` | feuer-storage/src/disk_cache.rs:478-491 | a key becomes the last candidate behind the others in their order, and the entry it replaces is returned |
| `DiskIndex.DiskEntryIndex.SelectVictim` | feuer-storage/src/disk_cache.rs:382-411 | the first lowest-scoring sampled entry within budget, and the cursor advances by the sample |
| `Retention.SampleFromCursor` | feuer-memory/src/retention.rs:103-115 | the sample is the candidates from the cursor on, modulo the length, and the cursor moves past them |
| `Retention.EveryCandidateSampled` | feuer-memory/src/retention.rs:103-115 | with an unchanged list the cursor visits every candidate within ceil(len / size) samples |
| `SmallEntries.SmallEntryBuffer.Write` | feuer-storage/src/disk_cache/small_entry_buffer.rs:58-104 | a key that is indexed or visibly buffered is skipped, a large object is written alone, and a small one is buffered: the old objects are flushed first exactly when it does not fit beside them, the buffer is flushed afterwards exactly when it is full, and every flush has its objects' bytes |
| `SmallEntries.BuffersAll` | feuer-storage/src/disk_cache/small_entry_buffer.rs:81-102 | flushed and buffered objects are together the old ones and the new one, in order |
| `SmallEntries.SmallEntryBuffer.Get` | feuer-storage/src/disk_cache/small_entry_buffer.rs:119-129 | a buffered read returns the newest object of its key |
| `SmallEntries.SmallEntryBuffer.TakeFlush` | feuer-storage/src/disk_cache/small_entry_buffer.rs:131-138 | a flush takes all packed entries and leaves an empty buffer |
| `SmallEntries.FewestPages` | feuer-storage/src/file.rs:24-27 | a payload takes the fewest whole pages that hold it, and at least one |
| `SmallEntries.PackedDisjoint` | feuer-storage/src/disk_cache/small_entry_buffer.rs:58-102 | packed payloads do not overlap, padding included |
| `SmallEntries.PackedCount` | feuer-storage/src/disk_cache/small_entry_buffer.rs:58-102 | at most 256 entries fit one buffer, each page-aligned and inside the chunk |
| `SmallEntries.PackedIsValidBatch` | feuer-storage/src/disk_cache/small_entry_buffer.rs:131-138 | a flushed buffer is a batch that publication accepts |
| `SmallEntries.StandaloneIsValidBatch` | feuer-storage/src/disk_cache/small_entry_buffer.rs:58-80 | so is a payload written on its own |
| `ShardLayout.ShardsPartitionFile` | feuer-storage/src/disk_cache/recovery.rs:15-19 | shard ranges are nonempty and follow one another from the chunk after the header to the end |
| `ShardLayout.ChunkShard` | feuer-storage/src/disk_cache/recovery.rs:15-19 | every chunk after the header belongs to exactly one shard |
| `ShardLayout.KeyShard` | feuer-storage/src/disk_cache.rs:527-529 | every key belongs to exactly one shard |
| `ShardLayout.ShardCountIsLargest` | feuer-storage/src/disk_cache.rs:213 | there are as many shards, up to 64, as leave each 128 chunks after the header, and at least one |
| `ShardLayout.ShardsAreValid` | feuer-storage/src/disk_cache.rs:208-217 | every shard of every file that can be opened meets the conditions of the shard model |
| `Header.DataFile.ClearIncompatibleMetadata` | feuer-storage/src/disk_cache/header.rs:14-43 | a matching file is left alone; otherwise exactly the header and the zeroed shard heads are new and all of it is synced, and the file was asked for the zeroes, a sync, the header and a sync, in that order |
| `Header.OpeningAsksForEvents` | feuer-storage/src/disk_cache/header.rs:14-43 | every completed opening of the crash model that finds another header asks the file for exactly that, in that order |
| `Header.HeadPagesAreHeads` | feuer-storage/src/disk_cache/header.rs:27-31 | the pages that it zeroes are exactly all pages of the shards' first chunks |
| `Header.NothingBeyondCapacity` | feuer-storage/src/file.rs:346-356 | in every run, pages beyond the capacity read as zeroes while a process has the file |
| `Header.DataFile.ClearHeads` | feuer-storage/src/disk_cache/header.rs:27-31 | zeroes every shard's first chunk and nothing else |
| `Header.FenceHolds` | feuer-storage/src/disk_cache/header.rs:14-43 | in every run with guarded openings, a header that can survive a crash has only its own format's pages in its shard heads |
| `Header.EveryCrashPointIsFenced` | feuer-storage/src/disk_cache/header.rs:14-43 | so from any fenced file whose header page is synced, at every crash point, with any subset of unsynced writes left or torn, if no process is killed between header write and sync |
| `Header.CrashStopsAreGuarded` | feuer-storage/src/disk_cache/header.rs:14-43 | without such a kill, every opening that trusts a header does so when no other one can be left by a crash |
| `Header.OwnHeadsWhenRunning` | feuer-storage/src/disk_cache/header.rs:20-26 | right after an opening, no page of another format is in a shard head |
| `Header.TrustIsSafeIff` | feuer-storage/src/disk_cache/header.rs:20-26 | trusting a matching header is safe for every continuation without such a kill exactly when no other header can be left by a crash |
| `Header.AbandonedHeaderBreaksFence` | feuer-storage/src/disk_cache/header.rs:40-43 | from any synced file, a kill between header write and sync followed by a matching opening leads to a broken fence |
| `IoQueueRuns.NeverPanics` | feuer-storage/src/uring.rs:677-743 | in every run the ring has room for each push, and each completion finds its request |
| `IoQueueRuns.TransfersAligned` | feuer-storage/src/uring.rs:550-559 | in every run all outstanding entries fit the ring, and each is aligned and covers exactly what its request still lacks |
| `IoQueueRuns.SuccessAfterEveryByte` | feuer-storage/src/uring.rs:562-614 | in every run each caller is answered at most once; it hears success exactly when the pieces tile its whole range in order |
| `IoQueueRuns.FailsForAReason` | feuer-storage/src/uring.rs:562-614 | in every run a request is answered with a failure exactly when its last completion moved nothing, was an error other than EINTR, or was unaligned; after EINTR or a short aligned completion a waiting caller gets no answer, its request keeps its slot, and one transfer of exactly what is left is queued |
| `IoQueueRuns.DrainedIsFinished` | feuer-storage/src/uring.rs:642-654 | when the loop ends nothing is outstanding, every caller that did not cancel has an answer, and no later step changes that |
| `IoQueueRuns.QueueInvariant` | feuer-storage/src/uring.rs:617-630 | in every run each occupied slot has one entry, and each request is in one place |
| `IoQueueRuns.PassIsRun` | feuer-storage/src/uring.rs:696-727 | an admission pass is a sequence of admissions of that machine |
| `IoQueues.AdmitFillsSlots` | feuer-storage/src/uring.rs:696-727 | a pass keeps occupied slots, and leaves a request beside an empty slot only where the write limit makes it wait |
| `IoQueues.WaitsOnlyForReads` | feuer-storage/src/uring.rs:696-727 | a pass leaves a request beside an empty slot only while a read waits or waited recently and a write is active or the time charged before has not passed |
| `IoQueues.LimitedPassAdmitsOne` | feuer-storage/src/uring.rs:696-727 | while writes are limited, a pass admits at most one request, only into an empty array, after the time charged before, and charges it |
| `IoQueues.IoQueue.HandleIoCompletion` | feuer-storage/src/uring.rs:677-691 | advances, retries or answers the request of a completion |
| `IoQueues.IoQueue.QueueRequestsForSubmission` | feuer-storage/src/uring.rs:696-727 | the loop over slots computes the admission pass and the charged write limit, within the ring's room |
| `IoQueues.IoQueue.ReceiveOpen` | feuer-storage/src/uring.rs:713-719 | takes the first request whose caller still waits and drops the cancelled ones before it |
| `FileIo.DataFile.WritePadded` | feuer-storage/src/uring.rs:365-384 | exactly the data and its zero padding are written, by the requests that split the range into pieces of 1 MiB |
| `FileIo.PiecesTile` | feuer-storage/src/uring.rs:365-384 | those requests are aligned, of at most 1 MiB, and follow one another from start to end |
| `FileIo.DataFile.ReadSlice` | feuer-storage/src/file.rs:257-274 | the same split of the aligned range gives exactly the requested bytes |
| `FileIo.FromWriteBytes` | feuer-storage/src/uring.rs:430-454 | the prefix used in place is all whole pages of aligned data, and with the copied tail it is the padded data, both aligned |
| `FileIo.Iovecs` | feuer-storage/src/uring.rs:463-484 | the descriptors are nonempty and hold exactly the bytes after the ones already written |
| `FileIo.WrittenIsRead` | feuer-storage/src/file.rs:24-27 | a payload written with padding is read back from its address |
| `ReadAdmission.PermitsConserved` | feuer-storage/src/uring/read_admission.rs:30-66 | in every run permits are conserved at 64 through cancellation and fallthrough |
| `ReadAdmission.PermitsAreUsed` | feuer-storage/src/uring/read_admission.rs:30-56 | in every run a read starts on arrival exactly if fewer than 64 permits are held, and a polled one gets a permit exactly if it was given one or fewer than 64 are held |
| `ReadAdmission.PermitsNeverIdle` | feuer-storage/src/uring/read_admission.rs:50-53 | in every run no permit is available while a read is registered for one |
| `ReadAdmission.ScheduledReadsAsk` | feuer-storage/src/uring/read_admission.rs:40-63 | in every run each callback runs at most once, and a read that was still scheduled when it left the list proceeds only if its own callback returned false |
| `ReadAdmission.LongListSchedulesAll` | feuer-storage/src/uring/read_admission.rs:68-85 | while 64 reads are listed, each of them is scheduled, permit in hand or not, and so is every one that is queued then |
| `ReadAdmission.LongListReadsAsk` | feuer-storage/src/uring/read_admission.rs:40-85 | once 64 reads wait, none of them, permit in hand or not, nor one that is queued then, ever reads from disk unless its own callback returned false, even if the list is short again by then |
| `ReadAdmission.ShortListNeverAsks` | feuer-storage/src/uring/read_admission.rs:68-85 | in every run a read that never shared the list with 63 others is not scheduled, and its callback never runs |
| `ReadAdmission.WaitingReads.Add` | feuer-storage/src/uring/read_admission.rs:68-85 | queues a read and schedules all checks once the list is long enough |
| `ReadAdmission.WaitingReads.Take` | feuer-storage/src/uring/read_admission.rs:110-121 | swap-removes a read and returns its own flag |
| `ReadAdmission.RemovedLists` | feuer-storage/src/uring/read_admission.rs:110-121 | removing a read leaves exactly the others listed, with their own flags |
| `WritePacing.WritesArePaced` | feuer-storage/src/uring.rs:696-727 | over any interval in which writes stay limited, admission passes queue at most the rate times its length plus one maximum request, and no more writes are active than at its start, or one |
| `WritePacing.AlwaysPaced` | feuer-storage/src/uring/write_admission.rs:50-54 | every state that passes reach, limited or not, can start such an interval |
| `WritePacing.OtherStepsFree` | feuer-storage/src/uring.rs:677-691 | what the queue does between passes never occupies an empty slot |
| `WriteAdmission.LimitedIff` | feuer-storage/src/uring/write_admission.rs:16-48 | after any waits for channel capacity, writes are limited exactly while a read waits or waited less than 100 ms ago |
| `MemoryCaches.SharedBudget` | feuer-memory/src/store.rs:147-194 | in every run the pool's charge is the sum of all charges, idle buffers fit beside it, and with no charge above its shard's share both stay within capacity |
| `MemoryCaches.ApplyKeepsInv` | feuer-memory/src/buffer.rs:127-147 | no step of the shared budget underflows, and each keeps it |
| `MemoryCaches.ShardCapacitiesAddUp` | feuer-memory/src/store.rs:191-194 | shard targets add up to the capacity |
| `MemoryCaches.InsertWithin` | feuer-memory/src/store/shard.rs:71-76 | after an insertion the shard is within its target, or exactly one charge is nonzero |
| `MemoryCaches.RemoveWithin` | feuer-memory/src/store/shard.rs:126-142 | a removal keeps that |
| `MemoryCaches.MemoryCacheShard.TryInsert` | feuer-memory/src/store/shard.rs:60-94 | inserts if the charge fits, keeps a present key, and otherwise swap-removes the entry of the sample at the cursor that has the lowest score of its key and length, and the lowest key among equals, and advances the cursor |
| `MemoryCaches.MemoryCacheShard.AddEntry` | feuer-memory/src/store/shard.rs:97-111 | charges shard and pool and lists the key |
| `MemoryCaches.MemoryCacheShard.RemoveEntry` | feuer-memory/src/store/shard.rs:126-142 | removes exactly one key and its charge from shard and pool |
| `MemoryCaches.MemoryCacheShard.Insert` | feuer-memory/src/store.rs:147-163 | a present key changes nothing; otherwise the loop ends with the object cached after a sequence of such evictions, each made because the charge did not fit then, and none once it fits |
| `BufferPools.BufferPool.AddUsedBytes` | feuer-memory/src/buffer.rs:127-141 | the two loops free idle buffers from the largest bucket down |
| `BufferPools.AddUsedKeepsPool` | feuer-memory/src/buffer.rs:127-141 | what stays idle fits beside the charge, and no buffer was freed that could have stayed |
| `BufferPools.BufferPool.Allocate` | feuer-memory/src/buffer.rs:96-113 | a buffer that fits, from and for the bucket of the length |
| `BufferPools.ReuseFits` | feuer-memory/src/buffer.rs:277-287 | a reused buffer fits and returns to its bucket; a large one keeps its capacity exactly when that wastes less than a tenth of the need |
| `BufferPools.BufferPool.DropBuffer` | feuer-memory/src/buffer.rs:401-424 | a dropped buffer becomes idle only while everything fits the capacity |
| `BufferPools.BufferPool.RemoveUsedBytes` | feuer-memory/src/buffer.rs:144-147 | takes a charge back |
| `BufferPools.BufferPool.TakeIdleBuffer` | feuer-memory/src/buffer.rs:150-156 | pops a bucket and its bytes |
| `BufferPools.BucketUnique` | feuer-memory/src/buffer.rs:52-54 | the bucket of a length is the only one that fits it and whose predecessor does not |
| `PendingFetches.SingleFlight` | feuer/src/cache/pending_fetches.rs:24-57 | in every interleaving a running fetch is the registry's entry of its key, so at most one runs, and the registry empties with the last fetch |
| `PendingFetches.JoinShares` | feuer/src/cache/pending_fetches.rs:24-38 | joining while a fetch of the key runs gives that fetch |
| `PendingFetches.NewerFetchStays` | feuer/src/cache/pending_fetches.rs:44-57 | no caller or drop of an older fetch removes a running one |
| `PendingFetches.SharedResult` | feuer/src/cache.rs:450-461 | callers that return have the one result of the fetch they joined |
| `PendingFetches.LeaveReturns` | feuer/src/cache.rs:450-461 | a caller that waited returns its fetch's result when it leaves, and a cancelled one nothing |
| `PendingFetches.JoinIsFresh` | feuer/src/cache/pending_fetches.rs:40-51 | in every run a caller that joins after another one got its result does not get that fetch |
| `PendingFetches.FetchRegistry.Join` | feuer/src/cache/pending_fetches.rs:24-38 | a live entry is shared, any other is replaced |
| `PendingFetches.FetchRegistry.Remove` | feuer/src/cache/pending_fetches.rs:44-51 | removes an entry only if it is this fetch |
| `Decay.CountDecreases` | feuer-historian/src/lib.rs:191-206 | a count never increases with the clock, and stays between zero and the stored count |
| `Decay.EarlierClock` | feuer-historian/src/lib.rs:191-193 | earlier clocks return the stored count |
| `Decay.RetainedHalves` | feuer-historian/src/lib.rs:199-205 | each further half-life halves the count exactly |
| `Decay.RetainedInterpolates` | feuer-historian/src/lib.rs:199-205 | within the first half-life the retained fraction is at most 1 - age / (2 * half-life), and less than 1 / 2^24 below that |
| `Decay.RetainedDecreases` | feuer-historian/src/lib.rs:195-205 | the retained fraction never grows, and is zero exactly from 126 half-lives on |
| `Decay.FloatFormula` | feuer-historian/src/lib.rs:203-205 | the float of the computed bits has the value that section 3.4 of IEEE 754-2008 gives it |
| `Decay.EvenCountIsSeries` | feuer-historian/src/lib.rs:171-175 | requests at even distances add up to the geometric series of the fraction retained between two of them |
| `Decay.SeriesSum` | feuer-historian/src/lib.rs:171-175 | that is (1 - r^n) / (1 - r) after n of them, which approaches the documented 1 / (1 - r) |
| `Decay.HalfwayLeavesThreeQuarters` | feuer-historian/src/lib.rs:183-189 | half a half-life leaves exactly three quarters, so such requests approach the documented count of four |
| `Decay.CountBounded` | feuer-historian/src/lib.rs:146-149 | for any strictly increasing request clocks the stored count is at most twice the half-life |
| `History.ObjectAccessHistories.RemoveOldest` | feuer-historian/src/lib.rs:77-95 | without interleaving exactly limit - limit / 10 entries remain, all newer than the removed ones |
| `History.ObjectAccessHistories.RecordRequest` | feuer-historian/src/lib.rs:106-115 | every entry keeps a clock of its own |
| `History.CleanupKeepsRecent` | feuer-historian/src/lib.rs:77-95 | with requests between any lock regions, the removal count never underflows, and whatever was requested since a scan was complete is in the history until the next one is |
| `History.ScanRequestLastsIff` | feuer-historian/src/lib.rs:77-95 | a request during the scan is kept by that cleanup, whatever else happens, if and only if no shard is left to scan |
| `History.ScanLoses` | feuer-historian/src/lib.rs:83-94 | while a shard is left to scan, a run of that cleanup loses any given entry |
| `History.NthIsExact` | feuer-historian/src/lib.rs:86-89 | with distinct clocks the cutoff has exactly the entries to remove at or below it |
| `History.SelectNth` | feuer-historian/src/lib.rs:88-89 | the element that sorting would put at that position |

## Left out

- Kernel, file-system and memory-mapping details: mmap, eventfd, poll, O_DIRECT probing and buffer lifetimes.
- The queue's failure path, which leaks its requests and answers them with an error.
- Checksum and hash internals; they are arbitrary functions here.
- Metrics, tracing, error texts, size parsing, the builder, replay, benchmarks and FETR archives: they mirror state or are plain codecs.
- Async runtimes and wakers: steps are lock regions, semaphores and notifications are counters and flags.
- Late I/O of cancelled writers and checksum misses of reused payloads, which the source documents as best effort.
- Shared reads of one payload and the identity check after a failed checksum.
- DiskRecovery.RecoverShard: payload ends beyond 64 bits, which only an image that the program did not write can hold.
- Rounding of f64 products and the bound on the approximation error of the decay.
- The counts beside the clocks in the history cleanup, which it does not read.
- Resize failures of large buffers.
- Runs.ShardInvariant: the free-slot count and the search hint are no part of the run state; `MetadataChunks.Valid` keeps them exact in every operation.
- Durability.NothingForgotten: excludes failed rounds, whose pages the source forgets until they change again.
- MemoryCaches.MemoryCacheShard.Insert: one thread; other threads may insert between its attempts.
