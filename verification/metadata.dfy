/**
 The in-memory metadata chain of a shard (disk_cache/metadata.rs): values and their laws first,
 then the class whose search hint and counter refine them.
 */
module Metadata {
  import opened Layout

  /** A reserved metadata chunk: its slots in disk order and the next chunk's address. */
  datatype Chunk = Chunk(number: nat, entries: seq<Option<Record>>, next: nat, needsFullWrite: bool)

  type Chain = seq<Chunk>

  ghost predicate HasSlot(chain: Chain, s: Slot) {
    s.chunk < |chain| && s.entry < |chain[s.chunk].entries|
  }

  ghost function EntryAt(chain: Chain, s: Slot): Option<Record>
    requires HasSlot(chain, s)
  {
    chain[s.chunk].entries[s.entry]
  }

  ghost function SetEntry(chain: Chain, s: Slot, entry: Option<Record>): (r: Chain)
    requires HasSlot(chain, s)
    ensures |r| == |chain|
    ensures forall t :: HasSlot(r, t) <==> HasSlot(chain, t)
    ensures forall t :: HasSlot(r, t) ==> EntryAt(r, t) == if t == s then entry else EntryAt(chain, t)
  {
    chain[s.chunk := chain[s.chunk].(entries := chain[s.chunk].entries[s.entry := entry])]
  }

  function CountFree(entries: seq<Option<Record>>): nat {
    if entries == [] then 0
    else CountFree(entries[..|entries| - 1]) + if entries[|entries| - 1].None? then 1 else 0
  }

  function FreeSlots(chain: Chain): nat {
    if chain == [] then 0
    else FreeSlots(chain[..|chain| - 1]) + CountFree(chain[|chain| - 1].entries)
  }

  /** The earliest free slot in scan order, which is where a new record must go. */
  ghost predicate IsFirstFree(chain: Chain, s: Slot) {
    && HasSlot(chain, s)
    && EntryAt(chain, s).None?
    && forall t :: HasSlot(chain, t) && Before(t, s) ==> EntryAt(chain, t).Some?
  }

  ghost function FirstFree(chain: Chain): (s: Slot)
    requires FreeSlots(chain) > 0
    ensures IsFirstFree(chain, s)
  {
    FirstFreeExists(chain);
    var s :| IsFirstFree(chain, s);
    s
  }

  lemma FirstFreeUnique(chain: Chain, s: Slot)
    requires FreeSlots(chain) > 0 && IsFirstFree(chain, s)
    ensures s == FirstFree(chain)
  {
    var t := FirstFree(chain);
    assert !Before(s, t) && !Before(t, s);
  }

  lemma {:induction false} CountFreeSome(entries: seq<Option<Record>>) returns (first: nat)
    requires CountFree(entries) > 0
    ensures first < |entries| && entries[first].None?
    ensures forall i :: 0 <= i < first ==> entries[i].Some?
  {
    var n := |entries| - 1;
    if CountFree(entries[..n]) > 0 {
      first := CountFreeSome(entries[..n]);
    } else {
      first := n;
      forall i | 0 <= i < n ensures entries[i].Some? {
        CountFreeZero(entries[..n], i);
      }
    }
  }

  lemma {:induction false} CountFreeZero(entries: seq<Option<Record>>, i: nat)
    requires CountFree(entries) == 0 && i < |entries|
    ensures entries[i].Some?
  {
    if i < |entries| - 1 {
      CountFreeZero(entries[..|entries| - 1], i);
    }
  }

  lemma {:induction false} FirstFreeExists(chain: Chain)
    requires FreeSlots(chain) > 0
    ensures exists s :: IsFirstFree(chain, s)
  {
    var n := |chain| - 1;
    if FreeSlots(chain[..n]) > 0 {
      FirstFreeExists(chain[..n]);
      var s :| IsFirstFree(chain[..n], s);
      forall t | HasSlot(chain, t) && Before(t, s) ensures EntryAt(chain, t).Some? {
        assert HasSlot(chain[..n], t);
      }
      assert IsFirstFree(chain, s);
    } else {
      var first := CountFreeSome(chain[n].entries);
      forall t | HasSlot(chain, t) && t.chunk < n ensures EntryAt(chain, t).Some? {
        FreeSlotsZero(chain[..n], t);
      }
      assert IsFirstFree(chain, Slot(n, first));
    }
  }

  lemma {:induction false} FreeSlotsZero(chain: Chain, t: Slot)
    requires FreeSlots(chain) == 0 && HasSlot(chain, t)
    ensures EntryAt(chain, t).Some?
  {
    var n := |chain| - 1;
    if t.chunk == n {
      CountFreeZero(chain[n].entries, t.entry);
    } else {
      FreeSlotsZero(chain[..n], t);
    }
  }

  lemma {:induction false} CountFreeUpdate(entries: seq<Option<Record>>, i: nat, entry: Option<Record>)
    requires i < |entries|
    ensures CountFree(entries[i := entry]) + (if entries[i].None? then 1 else 0)
         == CountFree(entries) + (if entry.None? then 1 else 0)
  {
    var n := |entries| - 1;
    if i == n {
      assert entries[i := entry][..n] == entries[..n];
    } else {
      CountFreeUpdate(entries[..n], i, entry);
      assert entries[i := entry][..n] == entries[..n][i := entry];
    }
  }

  /** Filling or clearing one slot moves the free-slot count by exactly one. */
  lemma {:induction false} FreeSlotsUpdate(chain: Chain, s: Slot, entry: Option<Record>)
    requires HasSlot(chain, s)
    ensures FreeSlots(SetEntry(chain, s, entry)) + (if EntryAt(chain, s).None? then 1 else 0)
         == FreeSlots(chain) + (if entry.None? then 1 else 0)
  {
    var n := |chain| - 1;
    if s.chunk == n {
      CountFreeUpdate(chain[n].entries, s.entry, entry);
      assert SetEntry(chain, s, entry)[..n] == chain[..n];
    } else {
      FreeSlotsUpdate(chain[..n], s, entry);
      assert SetEntry(chain, s, entry)[..n] == SetEntry(chain[..n], s, entry);
    }
  }

  function NoEntries(count: nat): (entries: seq<Option<Record>>)
    ensures |entries| == count && forall i :: 0 <= i < count ==> entries[i].None?
  {
    seq(count, _ => None)
  }

  lemma {:induction false} CountFreeEmpty(count: nat)
    ensures CountFree(NoEntries(count)) == count
  {
    if count > 0 {
      CountFreeEmpty(count - 1);
      assert NoEntries(count)[..count - 1] == NoEntries(count - 1);
    }
  }

  /** The chain with its last chunk linked to an address. */
  function LinkLast(chain: Chain, address: nat): Chain {
    if chain == [] then []
    else chain[|chain| - 1 := chain[|chain| - 1].(next := address)]
  }

  function NewChunk(number: nat): Chunk {
    Chunk(number, NoEntries(ENTRIES_PER_CHUNK), NO_CHUNK, true)
  }

  /** The chain grown by one uninitialized chunk. */
  function Extend(chain: Chain, number: nat): Chain {
    LinkLast(chain, Address(number)) + [NewChunk(number)]
  }

  function LinkPageAt(chain: Chain): set<PageAt> {
    if chain == [] then {} else {PageAt(|chain| - 1, ENTRY_PAGES_PER_CHUNK)}
  }

  function PageOf(s: Slot): PageAt {
    PageAt(s.chunk, s.entry / ENTRIES_PER_PAGE)
  }

  lemma {:induction false} FreeSlotsCongruent(a: Chain, b: Chain)
    requires |a| == |b| && forall i :: 0 <= i < |a| ==> a[i].entries == b[i].entries
    ensures FreeSlots(a) == FreeSlots(b)
  {
    if |a| > 0 {
      FreeSlotsCongruent(a[..|a| - 1], b[..|b| - 1]);
    }
  }

  lemma FreeSlotsExtend(chain: Chain, number: nat)
    ensures FreeSlots(Extend(chain, number)) == FreeSlots(chain) + ENTRIES_PER_CHUNK
  {
    FreeSlotsCongruent(LinkLast(chain, Address(number)), chain);
    CountFreeEmpty(ENTRIES_PER_CHUNK);
    assert Extend(chain, number)[..|chain|] == LinkLast(chain, Address(number));
  }

  /** Chunks hold the format's number of slots. */
  ghost predicate FullSized(chain: Chain) {
    forall i :: 0 <= i < |chain| ==> |chain[i].entries| == ENTRIES_PER_CHUNK
  }

  /** Dirty pages are pages of chunks in the chain. */
  ghost predicate DirtyInRange(chain: Chain, dirty: set<PageAt>) {
    forall at :: at in dirty ==> at.chunk < |chain| && at.page < PAGES_PER_CHUNK
  }

  /** Slots before the search hint stay occupied when a chunk is appended. */
  lemma AppendKeepsPrefix(chain: Chain, chunk: Chunk, hint: Slot)
    requires hint == Slot(0, 0) || hint.chunk < |chain|
    requires forall t :: HasSlot(chain, t) && Before(t, hint) ==> EntryAt(chain, t).Some?
    ensures forall t :: HasSlot(chain + [chunk], t) && Before(t, hint) ==> EntryAt(chain + [chunk], t).Some?
  {
    forall t | HasSlot(chain + [chunk], t) && Before(t, hint) ensures EntryAt(chain + [chunk], t).Some? {
      assert HasSlot(chain, t) && EntryAt(chain, t).Some?;
    }
  }

  /** The chain of a shard with its dirty pages, searched from a hint and counted incrementally. */
  class MetadataChunks {
    var chunks: Chain
    var dirtyPages: set<PageAt>
    var freeSlotSearchStart: Slot
    var freeSlotCount: nat

    ghost predicate Valid()
      reads this
    {
      && FullSized(chunks)
      && DirtyInRange(chunks, dirtyPages)
      && freeSlotCount == FreeSlots(chunks)
      && freeSlotSearchStart.entry < ENTRIES_PER_CHUNK
      && (freeSlotSearchStart == Slot(0, 0) || freeSlotSearchStart.chunk < |chunks|)
      && forall t :: HasSlot(chunks, t) && Before(t, freeSlotSearchStart) ==> EntryAt(chunks, t).Some?
    }

    constructor ()
      ensures Valid() && chunks == [] && dirtyPages == {}
    {
      chunks, dirtyPages, freeSlotSearchStart, freeSlotCount := [], {}, Slot(0, 0), 0;
    }

    /** Stores a record in the earliest free slot of the whole chain and marks its page for writing. */
    method StoreEntryMetadata(entry: Record) returns (location: Slot)
      requires Valid() && freeSlotCount > 0
      modifies this
      ensures Valid()
      ensures location == FirstFree(old(chunks))
      ensures chunks == SetEntry(old(chunks), location, Some(entry))
      ensures dirtyPages == old(dirtyPages) + {PageOf(location)}
      ensures freeSlotCount == old(freeSlotCount) - 1
    {
      ghost var first := FirstFree(chunks);
      var start := freeSlotSearchStart;
      while true
        invariant start.entry < ENTRIES_PER_CHUNK
        invariant !Before(first, start)
        invariant forall t :: HasSlot(chunks, t) && Before(t, start) ==> EntryAt(chunks, t).Some?
        decreases |chunks| - start.chunk
        modifies {}
      {
        var entries := chunks[start.chunk].entries;
        var offset := FirstFreeFrom(entries, start.entry);
        if offset < |entries| {
          location := Slot(start.chunk, offset);
          break;
        }
        start := Slot(start.chunk + 1, 0);
      }
      assert IsFirstFree(chunks, location);
      FirstFreeUnique(chunks, location);
      FreeSlotsUpdate(chunks, location, Some(entry));
      var chunk := chunks[location.chunk];
      chunks := chunks[location.chunk := chunk.(entries := chunk.entries[location.entry := Some(entry)])];
      freeSlotSearchStart := location;
      freeSlotCount := freeSlotCount - 1;
      dirtyPages := dirtyPages + {PageAt(location.chunk, location.entry / ENTRIES_PER_PAGE)};
    }

    /** Clears a record's slot and marks its page for rewriting. */
    method FreeEntryMetadata(location: Slot)
      requires Valid() && HasSlot(chunks, location) && EntryAt(chunks, location).Some?
      modifies this
      ensures Valid()
      ensures chunks == SetEntry(old(chunks), location, None)
      ensures dirtyPages == old(dirtyPages) + {PageOf(location)}
      ensures freeSlotCount == old(freeSlotCount) + 1
    {
      FreeSlotsUpdate(chunks, location, None);
      var chunk := chunks[location.chunk];
      chunks := chunks[location.chunk := chunk.(entries := chunk.entries[location.entry := None])];
      if Before(location, freeSlotSearchStart) {
        freeSlotSearchStart := location;
      }
      freeSlotCount := freeSlotCount + 1;
      dirtyPages := dirtyPages + {PageAt(location.chunk, location.entry / ENTRIES_PER_PAGE)};
    }

    /** Appends a chunk reserved by the caller, linking it from the previous last chunk. */
    method AppendChunk(number: nat)
      requires Valid()
      modifies this
      ensures Valid()
      ensures chunks == Extend(old(chunks), number)
      ensures dirtyPages == old(dirtyPages) + LinkPageAt(old(chunks)) + LinkPageAt(chunks)
      ensures freeSlotCount == old(freeSlotCount) + ENTRIES_PER_CHUNK
    {
      FreeSlotsExtend(chunks, number);
      SetLastChunkLink(Address(number));
      AppendKeepsPrefix(chunks, NewChunk(number), freeSlotSearchStart);
      chunks := chunks + [NewChunk(number)];
      dirtyPages := dirtyPages + {PageAt(|chunks| - 1, ENTRY_PAGES_PER_CHUNK)};
      freeSlotCount := freeSlotCount + ENTRIES_PER_CHUNK;
    }

    /** Links the last chunk, if any, and marks its link page for writing. */
    method SetLastChunkLink(address: nat)
      requires Valid()
      modifies this`chunks, this`dirtyPages
      ensures Valid()
      ensures chunks == LinkLast(old(chunks), address)
      ensures dirtyPages == old(dirtyPages) + LinkPageAt(old(chunks))
    {
      FreeSlotsCongruent(LinkLast(chunks, address), chunks);
      assert forall t :: HasSlot(LinkLast(chunks, address), t) ==> HasSlot(chunks, t);
      if chunks != [] {
        dirtyPages := dirtyPages + {PageAt(|chunks| - 1, ENTRY_PAGES_PER_CHUNK)};
        chunks := chunks[|chunks| - 1 := chunks[|chunks| - 1].(next := address)];
      }
    }

    /** Recounts the free slots and restarts the search, after recovery changed the slots directly. */
    method ResetFreeSlots()
      requires FullSized(chunks) && DirtyInRange(chunks, dirtyPages)
      modifies this`freeSlotSearchStart, this`freeSlotCount
      ensures Valid()
    {
      freeSlotSearchStart := Slot(0, 0);
      freeSlotCount := 0;
      for i := 0 to |chunks|
        invariant freeSlotCount == FreeSlots(chunks[..i])
        invariant freeSlotSearchStart == Slot(0, 0)
      {
        assert chunks[..i + 1][..i] == chunks[..i];
        freeSlotCount := freeSlotCount + CountFree(chunks[i].entries);
      }
      assert chunks[..|chunks|] == chunks;
    }
  }

  method FirstFreeFrom(entries: seq<Option<Record>>, from: nat) returns (i: nat)
    requires from <= |entries|
    ensures from <= i <= |entries|
    ensures i < |entries| ==> entries[i].None?
    ensures forall j :: from <= j < i ==> entries[j].Some?
  {
    i := from;
    while i < |entries| && entries[i].Some?
      invariant from <= i <= |entries|
      invariant forall j :: from <= j < i ==> entries[j].Some?
    {
      i := i + 1;
    }
  }
}
