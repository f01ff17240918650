/**
 Rebuilding a shard from an untrusted disk image (disk_cache/recovery.rs). A page is what its bytes
 mean to the reader: a valid entry page, a valid link page, zeros, or bytes valid for neither tag.
 */
module Recovery {
  import opened Layout
  import opened Metadata
  import opened ShardModel

  datatype Page = Zero | EntryPage(entries: seq<Option<Record>>) | LinkPage(next: nat) | Raw(bytes: seq<nat>)

  /** Page contents by chunk number. Reading an absent chunk fails. */
  type Disk = map<nat, seq<Page>>

  ghost predicate ValidDisk(disk: Disk) {
    forall c :: c in disk ==> |disk[c]| == PAGES_PER_CHUNK
  }

  ghost predicate AllZero(pages: seq<Page>) {
    forall p :: 0 <= p < |pages| ==> pages[p] == Zero
  }

  /** The record in slot `i` of a chunk's pages. Invalid pages and all-zero records hold nothing. */
  function EntryOn(pages: seq<Page>, i: nat): Option<Record>
    requires |pages| == PAGES_PER_CHUNK && i < ENTRIES_PER_CHUNK
  {
    var page := pages[i / ENTRIES_PER_PAGE];
    if page.EntryPage? && i % ENTRIES_PER_PAGE < |page.entries| then page.entries[i % ENTRIES_PER_PAGE] else None
  }

  function DecodeEntries(pages: seq<Page>): (entries: seq<Option<Record>>)
    requires |pages| == PAGES_PER_CHUNK
    ensures |entries| == ENTRIES_PER_CHUNK
    ensures forall i :: 0 <= i < ENTRIES_PER_CHUNK ==> entries[i] == EntryOn(pages, i)
  {
    seq(ENTRIES_PER_CHUNK, i requires 0 <= i < ENTRIES_PER_CHUNK => EntryOn(pages, i))
  }

  /** The payload's end fits in a u64, as recovery's address arithmetic needs. */
  ghost predicate RepresentableEntry(e: Option<Record>) {
    e.Some? ==> e.value.address + PayloadDiskBytes(e.value.length) < U64_END
  }

  ghost predicate RepresentableChain(chain: Chain) {
    forall t :: HasSlot(chain, t) ==> RepresentableEntry(EntryAt(chain, t))
  }

  // ---------------------------------------------------------------- following the chain

  ghost predicate Readable(disk: Disk, free: set<nat>, address: nat) {
    && address != NO_CHUNK
    && address % CHUNK_BYTES == 0
    && address / CHUNK_BYTES in free
    && address / CHUNK_BYTES in disk
    && !AllZero(disk[address / CHUNK_BYTES])
  }

  /** Where the link page leads, if it is valid. */
  function LinkOf(pages: seq<Page>): Option<nat>
    requires |pages| == PAGES_PER_CHUNK
  {
    var page := pages[ENTRY_PAGES_PER_CHUNK];
    if page.LinkPage? then Some(page.next) else None
  }

  function LoadedChunk(number: nat, pages: seq<Page>): Chunk
    requires |pages| == PAGES_PER_CHUNK
  {
    var link := LinkOf(pages);
    Chunk(number, DecodeEntries(pages), if link.Some? then link.value else NO_CHUNK, false)
  }

  /** The chunks reached from `address`, and the address where following stopped. */
  ghost function Load(disk: Disk, free: set<nat>, address: nat): (Chain, nat)
    requires ValidDisk(disk)
    decreases free
  {
    if !Readable(disk, free, address) then ([], address)
    else
      var c := address / CHUNK_BYTES;
      var chunk := LoadedChunk(c, disk[c]);
      match LinkOf(disk[c])
      case None => ([chunk], address)
      case Some(next) => var (rest, end) := Load(disk, free - {c}, next); ([chunk] + rest, end)
  }

  ghost function Numbers(chain: Chain): set<nat> {
    set i | 0 <= i < |chain| :: chain[i].number
  }

  /** The shard with its chain reserved and repaired, before any record is accepted. */
  ghost function Loaded(g: Config, disk: Disk): Shard
    requires ValidDisk(disk)
  {
    var (chain, end) := Load(disk, Interval(g.lo, g.hi), Address(g.lo));
    var repaired := LinkLast(chain, NO_CHUNK);
    var dirty := if end == NO_CHUNK then {} else LinkPageAt(chain);
    Shard(Interval(g.lo, g.hi) - Numbers(chain), map[], repaired, dirty, map[])
  }

  // ---------------------------------------------------------------- accepting records

  /** Holds the chunks of a recovered payload, or rejects a conflict. */
  ghost function HoldRecovered(s: Shard, start: nat, end: nat): Option<Shard> {
    var h := start / CHUNK_BYTES;
    if h in s.held then
      var shared := s.held[h].(payloads := s.held[h].payloads + 1);
      if end <= Address(s.held[h].end) then Some(s.(held := s.held[h := shared])) else None
    else
      var chunks := Interval(h, CeilDiv(end, CHUNK_BYTES));
      if h < CeilDiv(end, CHUNK_BYTES) && chunks <= s.free then
        Some(s.(free := s.free - chunks, held := s.held[h := Hold(CeilDiv(end, CHUNK_BYTES), 1)]))
      else None
  }

  ghost function Accept(g: Config, s: Shard, r: Record): Option<Shard>
    requires g.shards > 0
  {
    if !Routed(g, r.key) || r.key in s.index then None
    else HoldRecovered(s, r.address, r.address + PayloadDiskBytes(r.length))
  }

  /** Indexes the record in a slot, or clears the slot when the record is rejected. */
  ghost function RecoverSlot(g: Config, s: Shard, t: Slot): Shard
    requires g.shards > 0 && HasSlot(s.chain, t)
  {
    match EntryAt(s.chain, t)
    case None => s
    case Some(r) =>
      match Accept(g, s, r)
      case None => s.(chain := SetEntry(s.chain, t, None))
      case Some(s1) => s1.(index := s1.index[r.key := Entry(r.length, r.address, r.checksum, t)])
  }

  function NextSlot(t: Slot): Slot {
    if t.entry + 1 < ENTRIES_PER_CHUNK then Slot(t.chunk, t.entry + 1) else Slot(t.chunk + 1, 0)
  }

  ghost function RecoverFrom(g: Config, s: Shard, t: Slot): Shard
    requires g.shards > 0 && FullSized(s.chain) && t.entry < ENTRIES_PER_CHUNK
    decreases |s.chain| - t.chunk, ENTRIES_PER_CHUNK - t.entry
  {
    if t.chunk >= |s.chain| then s else RecoverFrom(g, RecoverSlot(g, s, t), NextSlot(t))
  }

  /** The shard recovered from a disk image. */
  ghost function Recover(g: Config, disk: Disk): Shard
    requires ValidConfig(g) && ValidDisk(disk)
  {
    LoadedChain(g, disk);
    RecoverFrom(g, Loaded(g, disk), Slot(0, 0))
  }

  // ---------------------------------------------------------------- any image recovers to the invariant

  /** Loaded chunks are distinct chunks of the shard, joined by their links from the first address. */
  ghost predicate LoadedFrom(free: set<nat>, address: nat, chain: Chain) {
    && FullSized(chain)
    && (chain != [] ==> Address(chain[0].number) == address)
    && (forall i :: 0 <= i < |chain| ==> chain[i].number in free && !chain[i].needsFullWrite)
    && (forall i, j :: 0 <= i < j < |chain| ==> chain[i].number != chain[j].number)
    && (forall i {:trigger NextAddress(chain, i)} :: 0 <= i < |chain| - 1 ==> chain[i].next == NextAddress(chain, i))
  }

  lemma {:induction false} LoadIsChain(disk: Disk, free: set<nat>, address: nat)
    requires ValidDisk(disk)
    ensures LoadedFrom(free, address, Load(disk, free, address).0)
    decreases free
  {
    if Readable(disk, free, address) {
      var c := address / CHUNK_BYTES;
      match LinkOf(disk[c])
      case None =>
      case Some(next) =>
        LoadIsChain(disk, free - {c}, next);
        LoadedFromCons(free, address, LoadedChunk(c, disk[c]), Load(disk, free - {c}, next).0);
    }
  }

  lemma LoadedFromCons(free: set<nat>, address: nat, first: Chunk, rest: Chain)
    requires first.number in free && !first.needsFullWrite && |first.entries| == ENTRIES_PER_CHUNK
    requires Address(first.number) == address && LoadedFrom(free - {first.number}, first.next, rest)
    ensures LoadedFrom(free, address, [first] + rest)
  {
    var chain := [first] + rest;
    forall i {:trigger NextAddress(chain, i)} | 0 <= i < |chain| - 1 ensures chain[i].next == NextAddress(chain, i) {
      assert i > 0 ==> rest[i - 1].next == NextAddress(rest, i - 1);
    }
  }

  lemma LoadedChain(g: Config, disk: Disk)
    requires ValidConfig(g) && ValidDisk(disk)
    ensures FullSized(Loaded(g, disk).chain) && Chained(g, Loaded(g, disk))
    ensures var chain := Load(disk, Interval(g.lo, g.hi), Address(g.lo)).0;
      LoadedFrom(Interval(g.lo, g.hi), Address(g.lo), chain)
  {
    LoadIsChain(disk, Interval(g.lo, g.hi), Address(g.lo));
    var chain := Load(disk, Interval(g.lo, g.hi), Address(g.lo)).0;
    var repaired := Loaded(g, disk).chain;
    forall i {:trigger NextAddress(repaired, i)} | 0 <= i < |repaired|
      ensures repaired[i].next == NextAddress(repaired, i)
    {
      assert i < |chain| - 1 ==> chain[i].next == NextAddress(chain, i);
    }
  }

  /** Every chunk is what its own pages hold. */
  ghost predicate ReadFrom(disk: Disk, chain: Chain)
    requires ValidDisk(disk)
  {
    forall i :: 0 <= i < |chain| ==>
      chain[i].number in disk && chain[i] == LoadedChunk(chain[i].number, disk[chain[i].number])
  }

  lemma {:induction false} LoadReads(disk: Disk, free: set<nat>, address: nat)
    requires ValidDisk(disk)
    ensures var (chain, end) := Load(disk, free, address);
      && ReadFrom(disk, chain)
      && (chain == [] ==> end == address)
      && (chain != [] ==> (end == NO_CHUNK <==> LinkOf(disk[chain[|chain| - 1].number]) == Some(NO_CHUNK)))
    decreases free
  {
    if Readable(disk, free, address) {
      var c := address / CHUNK_BYTES;
      match LinkOf(disk[c])
      case None =>
      case Some(next) => LoadReads(disk, free - {c}, next);
    }
  }

  /**
   For any image: record `k` of page `p` of a loaded chunk is in slot `p * 101 + k` if that page is a valid entry
   page, and the slot is empty if it is not, whatever the other pages of the chunk hold.
   */
  lemma LoadedSlots(g: Config, disk: Disk, i: nat, p: nat, k: nat)
    requires ValidDisk(disk) && i < |Loaded(g, disk).chain| && p < ENTRY_PAGES_PER_CHUNK && k < ENTRIES_PER_PAGE
    ensures Loaded(g, disk).chain[i].number in disk
    ensures
      var chunk := Loaded(g, disk).chain[i];
      && p * ENTRIES_PER_PAGE + k < |chunk.entries|
      && chunk.entries[p * ENTRIES_PER_PAGE + k] == match disk[chunk.number][p]
        case EntryPage(entries) => if k < |entries| then entries[k] else None
        case _ => None
  {
    LoadReads(disk, Interval(g.lo, g.hi), Address(g.lo));
    var chain, e := Load(disk, Interval(g.lo, g.hi), Address(g.lo)).0, p * ENTRIES_PER_PAGE + k;
    assert chain[i] == LoadedChunk(chain[i].number, disk[chain[i].number]);
    assert e / ENTRIES_PER_PAGE == p && e % ENTRIES_PER_PAGE == k;
    assert chain[i].entries[e] == EntryOn(disk[chain[i].number], e);
  }

  /** For any image: the last link page is marked for repair exactly when it does not end the chain on disk. */
  lemma LoadedRepairs(g: Config, disk: Disk)
    requires ValidDisk(disk)
    ensures
      var s := Loaded(g, disk);
      var last := |s.chain| - 1;
      if s.chain == [] then s.dirty == {}
      else
        && s.chain[last].number in disk && s.chain[last].next == NO_CHUNK
        && s.dirty == (if disk[s.chain[last].number][ENTRY_PAGES_PER_CHUNK] == LinkPage(NO_CHUNK) then {}
                       else {PageAt(last, ENTRY_PAGES_PER_CHUNK)})
  {
    LoadReads(disk, Interval(g.lo, g.hi), Address(g.lo));
  }

  lemma LoadedOwners(g: Config, disk: Disk)
    requires ValidConfig(g) && ValidDisk(disk)
    ensures OneOwner(Loaded(g, disk), map[], g.lo, g.hi)
  {
    LoadedChain(g, disk);
    var s := Loaded(g, disk);
    var chain := Load(disk, Interval(g.lo, g.hi), Address(g.lo)).0;
    assert forall i :: 0 <= i < |chain| ==> s.chain[i].number == chain[i].number;
    forall c: nat ensures Owned(s, map[], c) <==> g.lo <= c < g.hi {
      if g.lo <= c < g.hi && c !in s.free {
        var i :| 0 <= i < |chain| && chain[i].number == c;
        assert Owns(s, map[], MetadataChunk(i), c);
      }
      assert c in s.free ==> Owns(s, map[], FreeRun, c);
    }
  }

  lemma LoadedKeepsInv(g: Config, disk: Disk)
    requires ValidConfig(g) && ValidDisk(disk)
    ensures PartialInv(g, Loaded(g, disk), map[], 0, 0, Slot(0, 0))
  {
    LoadedOwners(g, disk);
    LoadedChain(g, disk);
  }

  lemma ClearKeepsInv(g: Config, s: Shard, t: Slot)
    requires ValidConfig(g) && PartialInv(g, s, map[], 0, 0, t) && HasSlot(s.chain, t)
    ensures PartialInv(g, s.(chain := SetEntry(s.chain, t, None)), map[], 0, 0, NextSlot(t))
  {
    var s' := s.(chain := SetEntry(s.chain, t, None));
    SetEntryOwners(g, s, map[], t, None, s');
    SetEntryChained(g, s, t, None, s');
    SkipIndexed(g, s, s', t);
  }

  lemma SkipIndexed(g: Config, s: Shard, s': Shard, t: Slot)
    requires ValidConfig(g) && FullSized(s.chain) && HasSlot(s.chain, t) && Indexed(g, s, t)
    requires s'.held == s.held && s'.index == s.index && s'.chain == SetEntry(s.chain, t, None)
    ensures Indexed(g, s', NextSlot(t))
  {
    forall k | k in s'.index ensures Placed(g, s', NextSlot(t), k, s'.index[k]) {
      assert Placed(g, s, t, k, s.index[k]);
    }
    forall u | HasSlot(s'.chain, u) && Before(u, NextSlot(t)) && EntryAt(s'.chain, u).Some?
      ensures EntryAt(s'.chain, u).value.key in s'.index && s'.index[EntryAt(s'.chain, u).value.key].slot == u
    {
      assert HasSlot(s.chain, u) && Before(u, t);
    }
  }

  lemma HoldRecoveredOwners(g: Config, s: Shard, start: nat, end: nat)
    requires OneOwner(s, map[], g.lo, g.hi) && HoldRecovered(s, start, end).Some?
    requires forall h :: h in s.held ==> h < s.held[h].end
    ensures OneOwner(HoldRecovered(s, start, end).value, map[], g.lo, g.hi)
  {
    var h := start / CHUNK_BYTES;
    var s' := HoldRecovered(s, start, end).value;
    if h in s.held {
      SameOwners(s, map[], s', map[], g.lo, g.hi);
    } else {
      var moved := Interval(h, CeilDiv(end, CHUNK_BYTES));
      forall o, c | Owns(s', map[], o, c) && !(o == Payload(h) && c in moved)
        ensures Owns(s, map[], o, c) && !(o == FreeRun && c in moved)
      {
        assert o.Payload? ==> o.first in s.held && s'.held[o.first] == s.held[o.first];
      }
      Reassign(s, map[], s', map[], g.lo, g.hi, moved, FreeRun, Payload(h));
    }
  }

  lemma AcceptSlots(g: Config, s: Shard, t: Slot, r: Record, u: Slot)
    requires ValidConfig(g) && FullSized(s.chain) && HasSlot(s.chain, t) && Indexed(g, s, t)
    requires EntryAt(s.chain, t) == Some(r) && Accept(g, s, r).Some?
    requires HasSlot(s.chain, u) && Before(u, NextSlot(t)) && EntryAt(RecoverSlot(g, s, t).chain, u).Some?
    ensures var s' := RecoverSlot(g, s, t);
      EntryAt(s'.chain, u).value.key in s'.index && s'.index[EntryAt(s'.chain, u).value.key].slot == u
  {
    assert u == t || Before(u, t);
  }

  lemma AcceptIndexed(g: Config, s: Shard, t: Slot, r: Record)
    requires ValidConfig(g) && FullSized(s.chain) && HasSlot(s.chain, t) && Indexed(g, s, t)
    requires EntryAt(s.chain, t) == Some(r) && Accept(g, s, r).Some?
    ensures Indexed(g, RecoverSlot(g, s, t), NextSlot(t))
  {
    var s' := RecoverSlot(g, s, t);
    assert r.address + PayloadDiskBytes(r.length)
      <= Address(CeilDiv(r.address + PayloadDiskBytes(r.length), CHUNK_BYTES));
    forall k | k in s'.index ensures Placed(g, s', NextSlot(t), k, s'.index[k]) {
      assert k != r.key ==> Placed(g, s, t, k, s.index[k]);
    }
    forall u | HasSlot(s'.chain, u) && Before(u, NextSlot(t)) && EntryAt(s'.chain, u).Some?
      ensures EntryAt(s'.chain, u).value.key in s'.index && s'.index[EntryAt(s'.chain, u).value.key].slot == u
    {
      AcceptSlots(g, s, t, r, u);
    }
  }

  lemma NoKeysOutsideHolds(g: Config, s: Shard, t: Slot, h: nat)
    requires ValidConfig(g) && Indexed(g, s, t)
    ensures h !in s.held ==> KeysIn(s.index, h) == {}
  {
    forall k | k in KeysIn(s.index, h) ensures h in s.held {
      assert Placed(g, s, t, k, s.index[k]);
    }
  }

  lemma AcceptCounted(g: Config, s: Shard, t: Slot, r: Record)
    requires ValidConfig(g) && FullSized(s.chain) && HasSlot(s.chain, t) && Indexed(g, s, t) && Counted(s, 0, 0)
    requires EntryAt(s.chain, t) == Some(r) && Accept(g, s, r).Some?
    ensures Counted(RecoverSlot(g, s, t), 0, 0)
  {
    NoKeysOutsideHolds(g, s, t, r.address / CHUNK_BYTES);
    HoldCounted(s, RecoverSlot(g, s, t), r.key, Entry(r.length, r.address, r.checksum, t));
  }

  /** One more payload in a hold, or a first one in a new hold, is counted with its entry. */
  lemma HoldCounted(s: Shard, s': Shard, key: nat, e: Entry)
    requires Counted(s, 0, 0) && key !in s.index && s'.index == s.index[key := e]
    requires var h := e.address / CHUNK_BYTES;
      && (h in s.held ==> s'.held == s.held[h := s.held[h].(payloads := s.held[h].payloads + 1)])
      && (h !in s.held ==> KeysIn(s.index, h) == {} && exists end :: h < end && s'.held == s.held[h := Hold(end, 1)])
    ensures Counted(s', 0, 0)
  {
    forall h | h in s'.held
      ensures |KeysIn(s'.index, h)| == |KeysIn(s.index, h)| + if h == e.address / CHUNK_BYTES then 1 else 0
    {
      KeysInAdded(s.index, key, e, h);
    }
  }

  lemma AcceptOwners(g: Config, s: Shard, t: Slot, r: Record)
    requires g.shards > 0 && HasSlot(s.chain, t) && OneOwner(s, map[], g.lo, g.hi) && Counted(s, 0, 0)
    requires EntryAt(s.chain, t) == Some(r) && Accept(g, s, r).Some?
    ensures OneOwner(RecoverSlot(g, s, t), map[], g.lo, g.hi)
    ensures RecoverSlot(g, s, t).chain == s.chain
  {
    HoldRecoveredOwners(g, s, r.address, r.address + PayloadDiskBytes(r.length));
    SameOwners(Accept(g, s, r).value, map[], RecoverSlot(g, s, t), map[], g.lo, g.hi);
  }

  lemma RecoverSlotKeepsInv(g: Config, s: Shard, t: Slot)
    requires ValidConfig(g) && PartialInv(g, s, map[], 0, 0, t) && HasSlot(s.chain, t)
    ensures PartialInv(g, RecoverSlot(g, s, t), map[], 0, 0, NextSlot(t))
    ensures |RecoverSlot(g, s, t).chain| == |s.chain|
  {
    match EntryAt(s.chain, t)
    case None =>
      ClearKeepsInv(g, s, t);
      assert s.chain[t.chunk].entries[t.entry := None] == s.chain[t.chunk].entries;
      assert SetEntry(s.chain, t, None) == s.chain;
    case Some(r) =>
      if Accept(g, s, r).None? {
        ClearKeepsInv(g, s, t);
      } else {
        AcceptOwners(g, s, t, r);
        AcceptIndexed(g, s, t, r);
        AcceptCounted(g, s, t, r);
      }
  }

  lemma {:induction false} RecoverFromKeepsInv(g: Config, s: Shard, t: Slot)
    requires ValidConfig(g) && PartialInv(g, s, map[], 0, 0, t) && t.entry < ENTRIES_PER_CHUNK && t.chunk <= |s.chain|
    requires t.chunk == |s.chain| ==> t.entry == 0
    ensures Inv(g, RecoverFrom(g, s, t), map[])
    decreases |s.chain| - t.chunk, ENTRIES_PER_CHUNK - t.entry
  {
    if t.chunk < |s.chain| {
      RecoverSlotKeepsInv(g, s, t);
      RecoverFromKeepsInv(g, RecoverSlot(g, s, t), NextSlot(t));
    }
  }

  /**
   Recovery of any image, with cyclic, foreign, unaligned or corrupt links and
   overlapping or duplicate records, ends in the shard invariant with no writer in flight.
   */
  lemma RecoverInv(g: Config, disk: Disk)
    requires ValidConfig(g) && ValidDisk(disk)
    ensures Inv(g, Recover(g, disk), map[])
  {
    LoadedKeepsInv(g, disk);
    LoadedChain(g, disk);
    RecoverFromKeepsInv(g, Loaded(g, disk), Slot(0, 0));
  }
}
