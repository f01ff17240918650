/**
 Recovering an intact image gives back the shard that wrote it: the same index, reservations, free
 chunks and records.
 */
module RoundTrip {
  import opened Layout
  import opened Metadata
  import opened ShardModel
  import opened Recovery
  import opened Publication

  /** Every entry ends in the last chunk of its reservation, so any one entry shows the whole extent. */
  ghost predicate Tight(s: Shard) {
    forall k :: k in s.index ==> TightEntry(s, s.index[k])
  }

  ghost predicate TightEntry(s: Shard, e: Entry) {
    && e.address / CHUNK_BYTES in s.held
    && CeilDiv(e.address + PayloadDiskBytes(e.length), CHUNK_BYTES) == s.held[e.address / CHUNK_BYTES].end
  }

  function PageEntries(entries: seq<Option<Record>>, p: nat): seq<Option<Record>>
    requires |entries| == ENTRIES_PER_CHUNK && p < ENTRY_PAGES_PER_CHUNK
  {
    entries[p * ENTRIES_PER_PAGE..(p + 1) * ENTRIES_PER_PAGE]
  }

  /** The page the metadata writer encodes for a chunk. */
  function EncodePage(chunk: Chunk, p: nat): Page
    requires |chunk.entries| == ENTRIES_PER_CHUNK && p < PAGES_PER_CHUNK
  {
    if p == ENTRY_PAGES_PER_CHUNK then LinkPage(chunk.next) else EntryPage(PageEntries(chunk.entries, p))
  }

  ghost predicate EncodesChunk(disk: Disk, chunk: Chunk) {
    && |chunk.entries| == ENTRIES_PER_CHUNK
    && chunk.number in disk && |disk[chunk.number]| == PAGES_PER_CHUNK
    && forall p :: 0 <= p < PAGES_PER_CHUNK ==> disk[chunk.number][p] == EncodePage(chunk, p)
  }

  /** All metadata pages on disk encode the chain in memory; an empty chain leaves the first chunk zero. */
  ghost predicate Encodes(g: Config, disk: Disk, chain: Chain) {
    && (chain == [] ==> g.lo in disk && AllZero(disk[g.lo]))
    && forall i :: 0 <= i < |chain| ==> EncodesChunk(disk, chain[i])
  }

  function Written(chain: Chain): (r: Chain)
    ensures |r| == |chain| && forall i :: 0 <= i < |chain| ==> r[i] == chain[i].(needsFullWrite := false)
  {
    seq(|chain|, i requires 0 <= i < |chain| => chain[i].(needsFullWrite := false))
  }

  // ---------------------------------------------------------------- loading the chain

  lemma LoadEncodedChunk(disk: Disk, chunk: Chunk)
    requires EncodesChunk(disk, chunk)
    ensures !AllZero(disk[chunk.number]) && LinkOf(disk[chunk.number]) == Some(chunk.next)
    ensures LoadedChunk(chunk.number, disk[chunk.number]) == chunk.(needsFullWrite := false)
  {
    var pages := disk[chunk.number];
    assert pages[ENTRY_PAGES_PER_CHUNK] == EncodePage(chunk, ENTRY_PAGES_PER_CHUNK);
    forall i | 0 <= i < ENTRIES_PER_CHUNK ensures DecodeEntries(pages)[i] == chunk.entries[i] {
      var p := i / ENTRIES_PER_PAGE;
      assert pages[p] == EncodePage(chunk, p);
    }
    assert DecodeEntries(pages) == chunk.entries;
  }

  lemma {:induction false} LoadEncoded(g: Config, s: Shard, w: map<nat, Range>, disk: Disk, free: set<nat>, i: nat)
    requires ValidConfig(g) && ValidDisk(disk) && Chained(g, s) && OneOwner(s, w, g.lo, g.hi) && i < |s.chain|
    requires forall j :: i <= j < |s.chain| ==> s.chain[j].number in free
    requires forall j :: 0 <= j < |s.chain| ==> EncodesChunk(disk, s.chain[j])
    ensures Load(disk, free, Address(s.chain[i].number)) == (Written(s.chain[i..]), NO_CHUNK)
    decreases |s.chain| - i
  {
    var c := s.chain[i].number;
    ChainNumber(g, s, w, i);
    LoadEncodedChunk(disk, s.chain[i]);
    assert Readable(disk, free, Address(c));
    assert s.chain[i].next == NextAddress(s.chain, i);
    if i + 1 < |s.chain| {
      LoadEncoded(g, s, w, disk, free - {c}, i + 1);
      assert Written(s.chain[i..]) == [s.chain[i].(needsFullWrite := false)] + Written(s.chain[i + 1..]);
    } else {
      assert Load(disk, free - {c}, NO_CHUNK) == ([], NO_CHUNK);
      assert Written(s.chain[i..]) == [s.chain[i].(needsFullWrite := false)] + [];
    }
  }

  // ---------------------------------------------------------------- accepting the records

  ghost function IndexAt(s: Shard, t: Slot): map<nat, Entry> {
    map k | k in s.index && Before(s.index[k].slot, t) :: s.index[k]
  }

  /** Reservations with an entry before `t`, counting only those entries. */
  ghost function HeldAt(s: Shard, t: Slot): map<nat, Hold> {
    map h | h in s.held && |KeysIn(IndexAt(s, t), h)| > 0 :: Hold(s.held[h].end, |KeysIn(IndexAt(s, t), h)|)
  }

  /** Whether the chunk belongs to a reservation outside `claimed`. */
  ghost predicate Unclaimed(s: Shard, claimed: set<nat>, c: nat) {
    exists h :: Owns(s, map[], Payload(h), c) && h !in claimed
  }

  /** Chunks not yet claimed when scanning has reached `t`. */
  ghost function FreeAt(g: Config, s: Shard, t: Slot): set<nat> {
    set c | c in Interval(g.lo, g.hi) && (c in s.free || Unclaimed(s, HeldAt(s, t).Keys, c))
  }

  /** The recovered shard when scanning has reached `t`. */
  ghost function At(g: Config, s: Shard, t: Slot): Shard {
    Claimed(g, s, t, t)
  }

  /** Payloads claimed before `u`, records indexed before `t`. */
  ghost function Claimed(g: Config, s: Shard, u: Slot, t: Slot): Shard {
    Shard(FreeAt(g, s, u), HeldAt(s, u), Written(s.chain), {}, IndexAt(s, t))
  }

  lemma LoadWhole(g: Config, s: Shard, disk: Disk)
    requires ValidConfig(g) && ValidDisk(disk) && Encodes(g, disk, s.chain)
    requires OneOwner(s, map[], g.lo, g.hi) && Chained(g, s)
    ensures Load(disk, Interval(g.lo, g.hi), Address(g.lo)).0 == Written(s.chain)
    ensures Loaded(g, disk).chain == Written(s.chain) && Loaded(g, disk).dirty == {}
  {
    var all := Interval(g.lo, g.hi);
    if s.chain == [] {
      assert !Readable(disk, all, Address(g.lo));
    } else {
      forall j | 0 <= j < |s.chain| ensures s.chain[j].number in all {
        ChainNumber(g, s, map[], j);
      }
      LoadEncoded(g, s, map[], disk, all, 0);
      assert s.chain[0..] == s.chain;
      assert s.chain[|s.chain| - 1].next == NextAddress(s.chain, |s.chain| - 1);
    }
    assert LinkLast(Written(s.chain), NO_CHUNK) == Written(s.chain);
  }

  lemma NothingBeforeStart(s: Shard)
    ensures IndexAt(s, Slot(0, 0)) == map[] && HeldAt(s, Slot(0, 0)) == map[]
  {
    assert IndexAt(s, Slot(0, 0)) == map[];
    assert forall h :: KeysIn(map[], h) == {};
  }

  lemma LoadedAtStart(g: Config, s: Shard, disk: Disk)
    requires ValidConfig(g) && ValidDisk(disk) && Encodes(g, disk, s.chain)
    requires OneOwner(s, map[], g.lo, g.hi) && Chained(g, s)
    ensures Loaded(g, disk) == At(g, s, Slot(0, 0))
  {
    NothingBeforeStart(s);
    assert FreeAt(g, s, Slot(0, 0)) == Interval(g.lo, g.hi) - Numbers(Written(s.chain)) by {
      StartFree(g, s);
    }
    LoadWhole(g, s, disk);
  }

  lemma StartFree(g: Config, s: Shard)
    requires OneOwner(s, map[], g.lo, g.hi) && HeldAt(s, Slot(0, 0)) == map[]
    ensures FreeAt(g, s, Slot(0, 0)) == Interval(g.lo, g.hi) - Numbers(Written(s.chain))
  {
    forall c | c in Interval(g.lo, g.hi)
      ensures (c in s.free || Unclaimed(s, {}, c)) <==> c !in Numbers(Written(s.chain))
    {
      assert Owned(s, map[], c);
      var o :| Owns(s, map[], o, c);
      if o.MetadataChunk? {
        assert Written(s.chain)[o.i].number == c;
      }
      forall i | 0 <= i < |s.chain| && Written(s.chain)[i].number == c ensures Owns(s, map[], MetadataChunk(i), c) {
      }
      assert c in s.free ==> Owns(s, map[], FreeRun, c);
    }
  }

  /** A slot without a record changes nothing. */
  lemma EmptySlot(g: Config, s: Shard, t: Slot)
    requires ValidConfig(g) && Indexed(g, s, EndSlot(s)) && FullSized(s.chain)
    requires HasSlot(s.chain, t) && EntryAt(s.chain, t).None?
    ensures IndexAt(s, NextSlot(t)) == IndexAt(s, t)
  {
    forall k | k in s.index ensures Before(s.index[k].slot, NextSlot(t)) <==> Before(s.index[k].slot, t) {
      assert Placed(g, s, EndSlot(s), k, s.index[k]);
    }
  }

  /** A live record adds exactly its own key. */
  lemma LiveSlot(g: Config, s: Shard, t: Slot, k: nat)
    requires ValidConfig(g) && Indexed(g, s, EndSlot(s)) && FullSized(s.chain)
    requires HasSlot(s.chain, t) && k in s.index && s.index[k].slot == t
    ensures k !in IndexAt(s, t) && IndexAt(s, NextSlot(t)) == IndexAt(s, t)[k := s.index[k]]
  {
    assert Placed(g, s, EndSlot(s), k, s.index[k]);
    forall j | j in s.index ensures Before(s.index[j].slot, NextSlot(t)) <==> Before(s.index[j].slot, t) || j == k {
      assert Placed(g, s, EndSlot(s), j, s.index[j]);
    }
  }

  lemma LiveKeys(g: Config, s: Shard, t: Slot, k: nat, h: nat)
    requires ValidConfig(g) && Indexed(g, s, EndSlot(s)) && FullSized(s.chain)
    requires HasSlot(s.chain, t) && k in s.index && s.index[k].slot == t
    ensures |KeysIn(IndexAt(s, NextSlot(t)), h)|
         == |KeysIn(IndexAt(s, t), h)| + if s.index[k].address / CHUNK_BYTES == h then 1 else 0
  {
    LiveSlot(g, s, t, k);
    KeysInAdded(IndexAt(s, t), k, s.index[k], h);
  }

  lemma LiveHold(g: Config, s: Shard, t: Slot, k: nat)
    requires ValidConfig(g) && Indexed(g, s, EndSlot(s)) && FullSized(s.chain)
    requires HasSlot(s.chain, t) && k in s.index && s.index[k].slot == t
    ensures var h := s.index[k].address / CHUNK_BYTES;
      && h in s.held
      && HeldAt(s, NextSlot(t)) ==
         HeldAt(s, t)[h := Hold(s.held[h].end, 1 + if h in HeldAt(s, t) then HeldAt(s, t)[h].payloads else 0)]
  {
    assert s.index[k].address / CHUNK_BYTES in s.held by {
      assert Placed(g, s, EndSlot(s), k, s.index[k]);
    }
    forall h { LiveKeys(g, s, t, k, h); }
    HeldStep(s, t, NextSlot(t), s.index[k].address / CHUNK_BYTES);
  }

  lemma HeldStep(s: Shard, t: Slot, u: Slot, h0: nat)
    requires h0 in s.held
    requires forall h ::
      |KeysIn(IndexAt(s, u), h)| == |KeysIn(IndexAt(s, t), h)| + if h0 == h then 1 else 0
    ensures HeldAt(s, u) ==
      HeldAt(s, t)[h0 := Hold(s.held[h0].end, 1 + if h0 in HeldAt(s, t) then HeldAt(s, t)[h0].payloads else 0)]
  {
  }

  /** Claiming a reservation takes exactly its chunks, because no other reservation overlaps them. */
  lemma ClaimFree(g: Config, s: Shard, t: Slot, u: Slot, h: nat)
    requires OneOwner(s, map[], g.lo, g.hi) && h in s.held && h !in HeldAt(s, t)
    requires HeldAt(s, u).Keys == HeldAt(s, t).Keys + {h}
    ensures Interval(h, s.held[h].end) <= FreeAt(g, s, t)
    ensures FreeAt(g, s, u) == FreeAt(g, s, t) - Interval(h, s.held[h].end)
  {
    var was, now := HeldAt(s, t).Keys, HeldAt(s, u).Keys;
    forall c | c in Interval(g.lo, g.hi) && h <= c < s.held[h].end
      ensures c !in s.free && Unclaimed(s, was, c) && !Unclaimed(s, now, c)
    {
      assert Owns(s, map[], Payload(h), c);
      assert c in s.free ==> Owns(s, map[], FreeRun, c);
    }
    forall c | c in Interval(g.lo, g.hi) && !(h <= c < s.held[h].end)
      ensures Unclaimed(s, was, c) <==> Unclaimed(s, now, c)
    {
      assert !Owns(s, map[], Payload(h), c);
    }
    forall c | c in Interval(h, s.held[h].end) ensures c in Interval(g.lo, g.hi) {
      assert Owns(s, map[], Payload(h), c) && Owned(s, map[], c);
    }
  }

  lemma LiveFree(g: Config, s: Shard, t: Slot, u: Slot, h: nat)
    requires OneOwner(s, map[], g.lo, g.hi) && h in s.held && HeldAt(s, u).Keys == HeldAt(s, t).Keys + {h}
    ensures if h in HeldAt(s, t) then FreeAt(g, s, u) == FreeAt(g, s, t)
            else
              && Interval(h, s.held[h].end) <= FreeAt(g, s, t)
              && FreeAt(g, s, u) == FreeAt(g, s, t) - Interval(h, s.held[h].end)
  {
    if h in HeldAt(s, t) {
      assert HeldAt(s, u).Keys == HeldAt(s, t).Keys;
    } else {
      ClaimFree(g, s, t, u, h);
    }
  }

  /** Holding a payload's chunks moves the claimed reservations past its slot. */
  lemma ClaimStep(g: Config, s: Shard, t: Slot, u: Slot, e: Entry)
    requires var h, end := e.address / CHUNK_BYTES, e.address + PayloadDiskBytes(e.length);
      && h in s.held && h < s.held[h].end == CeilDiv(end, CHUNK_BYTES) && end <= Address(s.held[h].end)
      && HeldAt(s, u)
        == HeldAt(s, t)[h := Hold(s.held[h].end, 1 + if h in HeldAt(s, t) then HeldAt(s, t)[h].payloads else 0)]
      && (h in HeldAt(s, t) ==> FreeAt(g, s, u) == FreeAt(g, s, t))
      && (h !in HeldAt(s, t) ==>
            && Interval(h, s.held[h].end) <= FreeAt(g, s, t)
            && FreeAt(g, s, u) == FreeAt(g, s, t) - Interval(h, s.held[h].end))
    ensures HoldRecovered(At(g, s, t), e.address, e.address + PayloadDiskBytes(e.length)) == Some(Claimed(g, s, u, t))
  {
  }

  /** What the invariant says of one live entry. */
  ghost predicate Live(g: Config, s: Shard, t: Slot, k: nat, e: Entry)
    requires g.shards > 0
  {
    var h := e.address / CHUNK_BYTES;
    && k in s.index && s.index[k] == e && e.slot == t
    && HasSlot(s.chain, t) && EntryAt(s.chain, t) == Some(RecordOf(k, e)) && Routed(g, k)
    && TightEntry(s, e) && h < s.held[h].end && e.address + PayloadDiskBytes(e.length) <= Address(s.held[h].end)
  }

  lemma LiveClaimed(g: Config, s: Shard, t: Slot, u: Slot, k: nat, e: Entry)
    requires g.shards > 0 && OneOwner(s, map[], g.lo, g.hi) && Live(g, s, t, k, e)
    requires var h := e.address / CHUNK_BYTES;
      HeldAt(s, u)
        == HeldAt(s, t)[h := Hold(s.held[h].end, 1 + if h in HeldAt(s, t) then HeldAt(s, t)[h].payloads else 0)]
    ensures HoldRecovered(At(g, s, t), e.address, e.address + PayloadDiskBytes(e.length)) == Some(Claimed(g, s, u, t))
  {
    LiveFree(g, s, t, u, e.address / CHUNK_BYTES);
    ClaimStep(g, s, t, u, e);
  }

  lemma RecoverLive(g: Config, x: Shard, y: Shard, t: Slot, k: nat, e: Entry)
    requires g.shards > 0 && HasSlot(x.chain, t) && EntryAt(x.chain, t) == Some(RecordOf(k, e)) && e.slot == t
    requires Routed(g, k) && k !in x.index
    requires HoldRecovered(x, e.address, e.address + PayloadDiskBytes(e.length)) == Some(y)
    ensures RecoverSlot(g, x, t) == y.(index := y.index[k := e])
  {
  }

  lemma LiveStep(g: Config, s: Shard, t: Slot, u: Slot, k: nat, e: Entry)
    requires g.shards > 0 && OneOwner(s, map[], g.lo, g.hi) && Live(g, s, t, k, e)
    requires var h := e.address / CHUNK_BYTES;
      HeldAt(s, u)
        == HeldAt(s, t)[h := Hold(s.held[h].end, 1 + if h in HeldAt(s, t) then HeldAt(s, t)[h].payloads else 0)]
    requires k !in IndexAt(s, t) && IndexAt(s, u) == IndexAt(s, t)[k := e]
    ensures RecoverSlot(g, At(g, s, t), t) == At(g, s, u)
  {
    LiveClaimed(g, s, t, u, k, e);
    RecoverLive(g, At(g, s, t), Claimed(g, s, u, t), t, k, e);
  }

  /** Recovering one slot moves the recovered shard to the next scan position. */
  lemma SlotStep(g: Config, s: Shard, t: Slot)
    requires ValidConfig(g) && Inv(g, s, map[]) && Tight(s) && HasSlot(s.chain, t)
    ensures HasSlot(At(g, s, t).chain, t) && RecoverSlot(g, At(g, s, t), t) == At(g, s, NextSlot(t))
  {
    match EntryAt(s.chain, t)
    case None => EmptySlot(g, s, t);
    case Some(r) =>
      var e := s.index[r.key];
      assert Live(g, s, t, r.key, e) by {
        assert Before(t, EndSlot(s)) && Placed(g, s, EndSlot(s), r.key, e) && TightEntry(s, e);
      }
      LiveHold(g, s, t, r.key);
      LiveSlot(g, s, t, r.key);
      LiveStep(g, s, t, NextSlot(t), r.key, e);
  }

  lemma {:induction false} Steps(g: Config, s: Shard, t: Slot)
    requires ValidConfig(g) && Inv(g, s, map[]) && Tight(s) && t.entry < ENTRIES_PER_CHUNK && t.chunk <= |s.chain|
    requires t.chunk == |s.chain| ==> t.entry == 0
    ensures FullSized(At(g, s, t).chain) && RecoverFrom(g, At(g, s, t), t) == At(g, s, EndSlot(s))
    decreases |s.chain| - t.chunk, ENTRIES_PER_CHUNK - t.entry
  {
    if t.chunk < |s.chain| {
      SlotStep(g, s, t);
      Steps(g, s, NextSlot(t));
    }
  }

  lemma AtEnd(g: Config, s: Shard)
    requires ValidConfig(g) && Inv(g, s, map[])
    ensures At(g, s, EndSlot(s)) == s.(chain := Written(s.chain), dirty := {})
  {
    forall k | k in s.index ensures k in IndexAt(s, EndSlot(s)) {
      assert Placed(g, s, EndSlot(s), k, s.index[k]);
    }
    assert IndexAt(s, EndSlot(s)) == s.index;
    assert HeldAt(s, EndSlot(s)) == s.held;
    EndFree(g, s, EndSlot(s));
  }

  lemma EndFree(g: Config, s: Shard, t: Slot)
    requires OneOwner(s, map[], g.lo, g.hi) && HeldAt(s, t).Keys == s.held.Keys
    ensures FreeAt(g, s, t) == s.free
  {
    forall c | c in s.free ensures c in Interval(g.lo, g.hi) {
      assert Owns(s, map[], FreeRun, c) && Owned(s, map[], c);
    }
  }

  /**
   If all metadata pages on disk encode the chain in memory, recovery rebuilds the same index (with
   lengths, addresses, checksums and slots), the same reservations and payload counts, the same free
   chunks and the same records, with nothing left to write.
   */
  lemma RecoverRoundTrip(g: Config, s: Shard, disk: Disk)
    requires ValidConfig(g) && ValidDisk(disk) && Inv(g, s, map[]) && Tight(s) && Encodes(g, disk, s.chain)
    ensures Recover(g, disk) == s.(chain := Written(s.chain), dirty := {})
    ensures FreeSlots(Recover(g, disk).chain) == FreeSlots(s.chain)
  {
    LoadedAtStart(g, s, disk);
    Steps(g, s, Slot(0, 0));
    AtEnd(g, s);
    FreeSlotsCongruent(Written(s.chain), s.chain);
  }
}
