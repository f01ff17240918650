/**
 One disk-cache shard as a value: free chunks, held payload reservations, metadata chain and entry
 index. The operations are the lock-protected regions of disk_cache.rs, writer.rs and allocation.rs;
 `Inv` is the invariant the repository checks in its adversarial property test.
 */
module ShardModel {
  import opened Layout
  import opened Metadata

  /** An indexed entry: where its payload is, and where its record is. */
  datatype Entry = Entry(length: nat, address: nat, checksum: nat, slot: Slot)

  /** Chunks kept reserved from the keyed first chunk to `end`, and how many payloads use them. */
  datatype Hold = Hold(end: nat, payloads: nat)

  datatype Shard = Shard(
    free: set<nat>,
    held: map<nat, Hold>,
    chain: Chain,
    dirty: set<PageAt>,
    index: map<nat, Entry>)

  /** Fixed facts of a shard: its chunk range, and the number of shards that share the keys. */
  datatype Config = Config(lo: nat, hi: nat, shards: nat, id: nat)

  ghost predicate ValidConfig(g: Config) {
    1 <= g.lo < g.hi && g.id < g.shards && Address(g.hi) < NO_CHUNK
  }

  predicate Routed(g: Config, key: nat)
    requires g.shards > 0
  {
    key % g.shards == g.id
  }

  // ---------------------------------------------------------------- ownership

  datatype Owner = FreeRun | MetadataChunk(i: nat) | Payload(first: nat) | Writer(id: nat)

  ghost predicate Owns(s: Shard, writers: map<nat, Range>, o: Owner, c: nat) {
    match o
    case FreeRun => c in s.free
    case MetadataChunk(i) => i < |s.chain| && s.chain[i].number == c
    case Payload(h) => h in s.held && h <= c < s.held[h].end
    case Writer(w) => w in writers && writers[w].start <= c < writers[w].end
  }

  ghost predicate Owned(s: Shard, writers: map<nat, Range>, c: nat) {
    exists o :: Owns(s, writers, o, c)
  }

  /** Every chunk of the shard has exactly one owner, and nothing outside the shard is owned. */
  ghost predicate OneOwner(s: Shard, writers: map<nat, Range>, lo: nat, hi: nat) {
    && (forall c: nat :: Owned(s, writers, c) <==> lo <= c < hi)
    && (forall c, o, p :: Owns(s, writers, o, c) && Owns(s, writers, p, c) ==> o == p)
  }

  /** Moving a set of chunks from one owner to another keeps single ownership. */
  lemma Reassign(s: Shard, w: map<nat, Range>, s': Shard, w': map<nat, Range>, lo: nat, hi: nat,
                 moved: set<nat>, from: Owner, to: Owner)
    requires OneOwner(s, w, lo, hi) && from != to
    requires forall c :: c in moved ==> Owns(s, w, from, c) && Owns(s', w', to, c)
    requires forall o, c :: Owns(s, w, o, c) && !(o == from && c in moved) ==> Owns(s', w', o, c)
    requires forall o, c :: Owns(s', w', o, c) && !(o == to && c in moved) ==>
               Owns(s, w, o, c) && !(o == from && c in moved)
    ensures OneOwner(s', w', lo, hi)
  {
    forall c: nat ensures Owned(s', w', c) <==> lo <= c < hi {
      assert c in moved ==> Owns(s', w', to, c) && Owned(s, w, c);
      if c !in moved && Owned(s, w, c) {
        var o :| Owns(s, w, o, c);
        assert Owns(s', w', o, c);
      }
      if Owned(s', w', c) {
        var o :| Owns(s', w', o, c);
        assert c !in moved ==> Owns(s, w, o, c);
      }
    }
  }

  lemma SameOwners(s: Shard, w: map<nat, Range>, s': Shard, w': map<nat, Range>, lo: nat, hi: nat)
    requires OneOwner(s, w, lo, hi)
    requires forall o, c :: Owns(s', w', o, c) <==> Owns(s, w, o, c)
    ensures OneOwner(s', w', lo, hi)
  {
    forall c: nat ensures Owned(s', w', c) <==> Owned(s, w, c) {
    }
  }

  // ---------------------------------------------------------------- invariant

  /** Keys of the indexed entries whose payload starts in chunk `h`. */
  ghost function KeysIn(index: map<nat, Entry>, h: nat): set<nat> {
    set k | k in index && index[k].address / CHUNK_BYTES == h
  }

  ghost function RecordOf(key: nat, e: Entry): Record {
    Record(key, e.length, e.address, e.checksum)
  }

  /** The chain starts at the shard's first chunk, and links name exactly the next chunk in memory. */
  ghost predicate Chained(g: Config, s: Shard) {
    && FullSized(s.chain)
    && (s.chain != [] ==> s.chain[0].number == g.lo)
    && Linked(s.chain)
  }

  /** Each chunk's link names its successor, and the last one ends the chain. */
  ghost predicate Linked(chain: Chain) {
    forall i {:trigger NextAddress(chain, i)} :: 0 <= i < |chain| ==> chain[i].next == NextAddress(chain, i)
  }

  ghost function NextAddress(chain: Chain, i: nat): nat {
    if i + 1 < |chain| then Address(chain[i + 1].number) else NO_CHUNK
  }

  /** Reservations count their indexed payloads, plus `extra` payloads of `h0` still being published. */
  ghost predicate Counted(s: Shard, h0: nat, extra: nat) {
    forall h :: h in s.held ==>
      && h < s.held[h].end
      && 0 < s.held[h].payloads == |KeysIn(s.index, h)| + if h == h0 then extra else 0
  }

  /** An indexed entry equals its record, in a slot before `end`, and lies inside its reservation. */
  ghost predicate Placed(g: Config, s: Shard, end: Slot, k: nat, e: Entry)
    requires g.shards > 0
  {
    && Routed(g, k)
    && HasSlot(s.chain, e.slot) && Before(e.slot, end)
    && EntryAt(s.chain, e.slot) == Some(RecordOf(k, e))
    && e.address / CHUNK_BYTES in s.held
    && e.address + PayloadDiskBytes(e.length) <= Address(s.held[e.address / CHUNK_BYTES].end)
  }

  /** Index entries and the records in slots before `end` correspond one to one. */
  ghost predicate Indexed(g: Config, s: Shard, end: Slot)
    requires g.shards > 0
  {
    && (forall k :: k in s.index ==> Placed(g, s, end, k, s.index[k]))
    && (forall t :: HasSlot(s.chain, t) && Before(t, end) && EntryAt(s.chain, t).Some? ==>
          var k := EntryAt(s.chain, t).value.key; k in s.index && s.index[k].slot == t)
  }

  ghost function EndSlot(s: Shard): Slot {
    Slot(|s.chain|, 0)
  }

  ghost predicate PartialInv(g: Config, s: Shard, writers: map<nat, Range>, h0: nat, extra: nat, end: Slot)
    requires ValidConfig(g)
  {
    && OneOwner(s, writers, g.lo, g.hi)
    && (forall id :: id in writers ==> writers[id].start < writers[id].end)
    && Chained(g, s)
    && (s.chain == [] ==> s.free == Interval(g.lo, g.hi))
    && Counted(s, h0, extra)
    && Indexed(g, s, end)
  }

  /** The shard invariant between lock regions, with the given writers in flight. */
  ghost predicate Inv(g: Config, s: Shard, writers: map<nat, Range>)
    requires ValidConfig(g)
  {
    PartialInv(g, s, writers, 0, 0, EndSlot(s))
  }

  // ---------------------------------------------------------------- operations

  function Min(xs: set<nat>): (m: nat)
    requires xs != {}
    ensures m in xs && forall x :: x in xs ==> m <= x
  {
    assert exists m :: m in xs && forall x :: x in xs ==> m <= x by {
      var least := Least(xs);
    }
    var m :| m in xs && forall x :: x in xs ==> m <= x;
    m
  }

  lemma {:induction false} Least(xs: set<nat>) returns (m: nat)
    requires xs != {}
    ensures m in xs && forall x :: x in xs ==> m <= x
  {
    m :| m in xs;
    var rest := xs - {m};
    assert forall x :: x in xs ==> x == m || x in rest;
    if rest != {} {
      var n := Least(rest);
      if n < m { m := n; }
    }
  }

  /** Grows the chain when fewer than `count` slots are free. `None` when no chunk is free. */
  ghost function EnsureFreeSlots(s: Shard, count: nat): Option<Shard> {
    if FreeSlots(s.chain) >= count then Some(s)
    else if s.free == {} then None
    else
      var c := Min(s.free);
      var chain := Extend(s.chain, c);
      Some(s.(free := s.free - {c}, chain := chain, dirty := s.dirty + LinkPageAt(s.chain) + LinkPageAt(chain)))
  }

  /** Chunks leave the free set for an in-flight writer. */
  ghost function Reserve(s: Shard, r: Range): Shard {
    s.(free := s.free - Interval(r.start, r.end))
  }

  ghost function Drop(s: Shard, r: Range): Shard {
    s.(free := s.free + Interval(r.start, r.end))
  }

  ghost function HoldChunks(s: Shard, r: Range, payloads: nat): Shard {
    s.(held := s.held[r.start := Hold(r.end, payloads)])
  }

  /** Gives up one payload's use of its chunks, freeing them after the last payload. */
  ghost function ReleasePayload(s: Shard, h: nat): Shard
    requires h in s.held && s.held[h].payloads > 0
  {
    if s.held[h].payloads == 1 then
      s.(free := s.free + Interval(h, s.held[h].end), held := s.held - {h})
    else
      s.(held := s.held[h := s.held[h].(payloads := s.held[h].payloads - 1)])
  }

  /** Whether the entry's slot exists and its payload is held, as the invariant guarantees. */
  ghost predicate Removable(s: Shard, key: nat) {
    && key in s.index
    && HasSlot(s.chain, s.index[key].slot)
    && s.index[key].address / CHUNK_BYTES in s.held
    && s.held[s.index[key].address / CHUNK_BYTES].payloads > 0
  }

  /** Removes an entry: releases its payload and clears its slot. Unknown keys change nothing. */
  ghost function RemoveEntry(s: Shard, key: nat): Shard {
    if !Removable(s, key) then s
    else ReleasePayload(Unindex(s, key), s.index[key].address / CHUNK_BYTES)
  }

  /** Takes an entry out of the index and clears its slot. Its payload stays held. */
  ghost function Unindex(s: Shard, key: nat): Shard
    requires key in s.index && HasSlot(s.chain, s.index[key].slot)
  {
    var slot := s.index[key].slot;
    s.(chain := SetEntry(s.chain, slot, None), dirty := s.dirty + {PageOf(slot)}, index := s.index - {key})
  }

  /** Stores a record in the earliest free slot and indexes it. */
  ghost function InsertRecord(s: Shard, r: Record): Shard
    requires FreeSlots(s.chain) > 0
  {
    var slot := FirstFree(s.chain);
    s.(chain := SetEntry(s.chain, slot, Some(r)),
       dirty := s.dirty + {PageOf(slot)},
       index := s.index[r.key := Entry(r.length, r.address, r.checksum, slot)])
  }

  // ---------------------------------------------------------------- preservation

  lemma ChainNumber(g: Config, s: Shard, w: map<nat, Range>, i: nat)
    requires OneOwner(s, w, g.lo, g.hi) && i < |s.chain|
    ensures g.lo <= s.chain[i].number < g.hi && s.chain[i].number !in s.free
    ensures forall j :: 0 <= j < |s.chain| && s.chain[j].number == s.chain[i].number ==> j == i
  {
    var c := s.chain[i].number;
    assert Owns(s, w, MetadataChunk(i), c);
    assert Owned(s, w, c);
    assert c in s.free ==> Owns(s, w, FreeRun, c);
    assert forall j: nat :: j < |s.chain| && s.chain[j].number == c ==> Owns(s, w, MetadataChunk(j), c);
  }

  lemma ExtendOwners(g: Config, s: Shard, w: map<nat, Range>, c: nat, s': Shard)
    requires OneOwner(s, w, g.lo, g.hi) && c in s.free
    requires s'.free == s.free - {c} && s'.chain == Extend(s.chain, c) && s'.held == s.held
    ensures OneOwner(s', w, g.lo, g.hi) && g.lo <= c < g.hi
  {
    assert Owns(s, w, FreeRun, c) && Owned(s, w, c);
    Reassign(s, w, s', w, g.lo, g.hi, {c}, FreeRun, MetadataChunk(|s.chain|));
  }

  lemma ExtendChained(g: Config, s: Shard, c: nat, s': Shard)
    requires Chained(g, s) && (s.chain == [] ==> c == g.lo)
    requires s'.chain == Extend(s.chain, c)
    ensures Chained(g, s')
    ensures forall t :: HasSlot(s.chain, t) ==> HasSlot(s'.chain, t) && EntryAt(s'.chain, t) == EntryAt(s.chain, t)
    ensures forall t :: HasSlot(s'.chain, t) && EntryAt(s'.chain, t).Some? ==> HasSlot(s.chain, t)
  {
    forall i {:trigger NextAddress(s'.chain, i)} | 0 <= i < |s'.chain|
      ensures s'.chain[i].next == NextAddress(s'.chain, i)
    {
      assert i < |s.chain| ==> s.chain[i].next == NextAddress(s.chain, i);
    }
  }

  lemma ExtendIndexed(g: Config, s: Shard, c: nat, s': Shard)
    requires ValidConfig(g) && Chained(g, s) && Indexed(g, s, EndSlot(s)) && (s.chain == [] ==> c == g.lo)
    requires s'.chain == Extend(s.chain, c) && s'.held == s.held && s'.index == s.index
    ensures Indexed(g, s', EndSlot(s'))
  {
    ExtendChained(g, s, c, s');
    forall k | k in s.index ensures Placed(g, s', EndSlot(s'), k, s.index[k]) {
      assert Placed(g, s, EndSlot(s), k, s.index[k]);
    }
    forall t | HasSlot(s'.chain, t) && EntryAt(s'.chain, t).Some?
      ensures EntryAt(s'.chain, t).value.key in s.index && s.index[EntryAt(s'.chain, t).value.key].slot == t
    {
      assert HasSlot(s.chain, t) && Before(t, EndSlot(s));
    }
  }

  /** The chain grows only when slots are short, by the one chunk that suffices, and fails only without a free chunk. */
  lemma GrowsOnlyWhenShort(s: Shard, count: nat)
    ensures
      var grown := EnsureFreeSlots(s, count);
      if FreeSlots(s.chain) >= count then grown == Some(s)
      else
        && (grown.None? <==> s.free == {})
        && (grown.Some? ==> |grown.value.chain| == |s.chain| + 1 && grown.value.free < s.free)
        && (grown.Some? ==> FreeSlots(grown.value.chain) == FreeSlots(s.chain) + ENTRIES_PER_CHUNK)
  {
    if s.free != {} {
      FreeSlotsExtend(s.chain, Min(s.free));
    }
  }

  /** Growing the chain keeps the invariant; an empty chain starts at the shard's first chunk. */
  lemma EnsureFreeSlotsKeepsInv(g: Config, s: Shard, w: map<nat, Range>, count: nat)
    requires ValidConfig(g) && Inv(g, s, w)
    requires EnsureFreeSlots(s, count).Some?
    ensures Inv(g, EnsureFreeSlots(s, count).value, w)
    ensures count <= ENTRIES_PER_CHUNK ==> FreeSlots(EnsureFreeSlots(s, count).value.chain) >= count
    ensures count > 0 ==> EnsureFreeSlots(s, count).value.chain != []
  {
    GrownSlots(s, count);
    if FreeSlots(s.chain) < count {
      assert s.chain == [] ==> g.lo in s.free;
      GrownInv(g, s, w, Min(s.free), EnsureFreeSlots(s, count).value);
    }
  }

  lemma GrownSlots(s: Shard, count: nat)
    requires EnsureFreeSlots(s, count).Some?
    ensures count <= ENTRIES_PER_CHUNK ==> FreeSlots(EnsureFreeSlots(s, count).value.chain) >= count
    ensures count > 0 ==> EnsureFreeSlots(s, count).value.chain != []
  {
    if FreeSlots(s.chain) < count {
      FreeSlotsExtend(s.chain, Min(s.free));
    }
  }

  lemma GrownInv(g: Config, s: Shard, w: map<nat, Range>, c: nat, s': Shard)
    requires ValidConfig(g) && Inv(g, s, w) && c in s.free && (s.chain == [] ==> c == g.lo)
    requires s'.free == s.free - {c} && s'.chain == Extend(s.chain, c) && s'.held == s.held && s'.index == s.index
    ensures Inv(g, s', w)
  {
    ExtendOwners(g, s, w, c, s');
    ExtendChained(g, s, c, s');
    ExtendIndexed(g, s, c, s');
  }

  lemma ReserveKeepsInv(g: Config, s: Shard, w: map<nat, Range>, id: nat, r: Range)
    requires ValidConfig(g) && Inv(g, s, w)
    requires s.chain != [] && id !in w && r.start < r.end && Interval(r.start, r.end) <= s.free
    ensures Inv(g, Reserve(s, r), w[id := r])
  {
    ReserveOwners(g, s, w, id, r);
    var s' := Reserve(s, r);
    assert forall k :: k in s'.index ==> Placed(g, s, EndSlot(s), k, s.index[k]);
  }

  lemma ReserveOwners(g: Config, s: Shard, w: map<nat, Range>, id: nat, r: Range)
    requires OneOwner(s, w, g.lo, g.hi) && id !in w && Interval(r.start, r.end) <= s.free
    ensures OneOwner(Reserve(s, r), w[id := r], g.lo, g.hi)
  {
    Reassign(s, w, Reserve(s, r), w[id := r], g.lo, g.hi, Interval(r.start, r.end), FreeRun, Writer(id));
  }

  lemma DropOwners(g: Config, s: Shard, w: map<nat, Range>, id: nat)
    requires OneOwner(s, w, g.lo, g.hi) && id in w
    ensures OneOwner(Drop(s, w[id]), w - {id}, g.lo, g.hi)
  {
    Reassign(s, w, Drop(s, w[id]), w - {id}, g.lo, g.hi, Interval(w[id].start, w[id].end), Writer(id), FreeRun);
  }

  lemma DropKeepsInv(g: Config, s: Shard, w: map<nat, Range>, id: nat)
    requires ValidConfig(g) && Inv(g, s, w) && id in w
    ensures Inv(g, Drop(s, w[id]), w - {id})
  {
    DropOwners(g, s, w, id);
    var s' := Drop(s, w[id]);
    assert forall k :: k in s'.index ==> Placed(g, s, EndSlot(s), k, s.index[k]);
    forall c | s.chain == [] && c in Interval(w[id].start, w[id].end) ensures c in Interval(g.lo, g.hi) {
      assert Owns(s, w, Writer(id), c) && Owned(s, w, c);
    }
  }

  // ---------------------------------------------------------------- releasing and inserting entries

  lemma ReleaseOwners(g: Config, s: Shard, w: map<nat, Range>, h: nat)
    requires OneOwner(s, w, g.lo, g.hi) && h in s.held && s.held[h].payloads > 0
    ensures OneOwner(ReleasePayload(s, h), w, g.lo, g.hi)
  {
    if s.held[h].payloads == 1 {
      ReleaseLastOwners(g, s, w, h);
    } else {
      SameOwners(s, w, ReleasePayload(s, h), w, g.lo, g.hi);
    }
  }

  lemma ReleaseLastOwners(g: Config, s: Shard, w: map<nat, Range>, h: nat)
    requires OneOwner(s, w, g.lo, g.hi) && h in s.held && s.held[h].payloads == 1
    ensures OneOwner(ReleasePayload(s, h), w, g.lo, g.hi)
  {
    var s' := ReleasePayload(s, h);
    var moved := Interval(h, s.held[h].end);
    forall o, c | Owns(s', w, o, c) && !(o == FreeRun && c in moved)
      ensures Owns(s, w, o, c) && !(o == Payload(h) && c in moved)
    {
      assert o.Payload? ==> o.first in s.held && s'.held[o.first] == s.held[o.first];
    }
    forall o, c | Owns(s, w, o, c) && !(o == Payload(h) && c in moved) ensures Owns(s', w, o, c) {
      assert o.Payload? ==> o.first in s'.held && s'.held[o.first] == s.held[o.first];
    }
    Reassign(s, w, s', w, g.lo, g.hi, moved, Payload(h), FreeRun);
  }

  lemma ReleaseIndexed(g: Config, s: Shard, h: nat, extra: nat, end: Slot)
    requires ValidConfig(g) && Indexed(g, s, end) && Counted(s, h, extra)
    requires h in s.held && extra > 0
    ensures Indexed(g, ReleasePayload(s, h), end)
  {
    var s' := ReleasePayload(s, h);
    forall k | k in s.index ensures Placed(g, s', end, k, s.index[k]) {
      assert Placed(g, s, end, k, s.index[k]);
      assert k in KeysIn(s.index, s.index[k].address / CHUNK_BYTES);
    }
  }

  /** Releasing a payload that is counted but not indexed. */
  lemma ReleaseKeepsInv(g: Config, s: Shard, w: map<nat, Range>, h: nat, extra: nat, end: Slot)
    requires ValidConfig(g) && PartialInv(g, s, w, h, extra, end)
    requires h in s.held && extra > 0 && s.chain != []
    ensures PartialInv(g, ReleasePayload(s, h), w, h, extra - 1, end)
  {
    ReleaseOwners(g, s, w, h);
    ReleaseIndexed(g, s, h, extra, end);
  }

  lemma KeysInRemoved(index: map<nat, Entry>, key: nat, h: nat)
    requires key in index
    ensures KeysIn(index - {key}, h) == KeysIn(index, h) - {key}
    ensures |KeysIn(index - {key}, h)| == |KeysIn(index, h)| - if index[key].address / CHUNK_BYTES == h then 1 else 0
  {
  }

  lemma KeysInAdded(index: map<nat, Entry>, key: nat, e: Entry, h: nat)
    requires key !in index
    ensures var added := if e.address / CHUNK_BYTES == h then {key} else {};
            KeysIn(index[key := e], h) == KeysIn(index, h) + added
    ensures |KeysIn(index[key := e], h)| == |KeysIn(index, h)| + if e.address / CHUNK_BYTES == h then 1 else 0
  {
    var added := if e.address / CHUNK_BYTES == h then {key} else {};
    assert KeysIn(index[key := e], h) == KeysIn(index, h) + added;
    assert key !in KeysIn(index, h);
  }

  lemma SetEntryOwners(g: Config, s: Shard, w: map<nat, Range>, slot: Slot, r: Option<Record>, s': Shard)
    requires OneOwner(s, w, g.lo, g.hi) && HasSlot(s.chain, slot)
    requires s'.free == s.free && s'.held == s.held && s'.chain == SetEntry(s.chain, slot, r)
    ensures OneOwner(s', w, g.lo, g.hi)
  {
    SameOwners(s, w, s', w, g.lo, g.hi);
  }

  lemma SetEntryChained(g: Config, s: Shard, slot: Slot, r: Option<Record>, s': Shard)
    requires Chained(g, s) && HasSlot(s.chain, slot) && s'.chain == SetEntry(s.chain, slot, r)
    ensures Chained(g, s')
  {
    forall i {:trigger NextAddress(s'.chain, i)} | 0 <= i < |s'.chain|
      ensures s'.chain[i].next == NextAddress(s'.chain, i)
    {
      assert s.chain[i].next == NextAddress(s.chain, i);
    }
  }

  lemma UnindexIndexed(g: Config, s: Shard, key: nat)
    requires ValidConfig(g) && Indexed(g, s, EndSlot(s)) && key in s.index
    ensures HasSlot(s.chain, s.index[key].slot) && Indexed(g, Unindex(s, key), EndSlot(s))
  {
    assert Placed(g, s, EndSlot(s), key, s.index[key]);
    var s' := Unindex(s, key);
    forall k | k in s'.index ensures Placed(g, s', EndSlot(s), k, s'.index[k]) {
      assert Placed(g, s, EndSlot(s), k, s.index[k]);
    }
    forall t | HasSlot(s'.chain, t) && EntryAt(s'.chain, t).Some?
      ensures EntryAt(s'.chain, t).value.key in s'.index && s'.index[EntryAt(s'.chain, t).value.key].slot == t
    {
      assert HasSlot(s.chain, t) && Before(t, EndSlot(s));
    }
  }

  lemma UnindexKeepsInv(g: Config, s: Shard, w: map<nat, Range>, key: nat)
    requires ValidConfig(g) && Inv(g, s, w) && key in s.index
    ensures HasSlot(s.chain, s.index[key].slot) && s.index[key].address / CHUNK_BYTES in s.held
    ensures PartialInv(g, Unindex(s, key), w, s.index[key].address / CHUNK_BYTES, 1, EndSlot(s))
  {
    var e := s.index[key];
    assert Placed(g, s, EndSlot(s), key, e);
    var s' := Unindex(s, key);
    SetEntryOwners(g, s, w, e.slot, None, s');
    SetEntryChained(g, s, e.slot, None, s');
    forall h | h in s.held
      ensures |KeysIn(s'.index, h)| == |KeysIn(s.index, h)| - if e.address / CHUNK_BYTES == h then 1 else 0
    {
      KeysInRemoved(s.index, key, h);
    }
    UnindexIndexed(g, s, key);
  }

  /** Removing any entry, indexed or not, keeps the invariant. */
  lemma RemoveEntryKeepsInv(g: Config, s: Shard, w: map<nat, Range>, key: nat)
    requires ValidConfig(g) && Inv(g, s, w)
    ensures key in s.index ==> Removable(s, key)
    ensures Inv(g, RemoveEntry(s, key), w)
  {
    if key in s.index {
      UnindexKeepsInv(g, s, w, key);
      var h := s.index[key].address / CHUNK_BYTES;
      ReleaseKeepsInv(g, Unindex(s, key), w, h, 1, EndSlot(s));
    }
  }

  ghost predicate Insertable(g: Config, s: Shard, h0: nat, r: Record)
    requires g.shards > 0
  {
    && FreeSlots(s.chain) > 0 && h0 in s.held
    && Routed(g, r.key) && r.key !in s.index
    && r.address / CHUNK_BYTES == h0
    && r.address + PayloadDiskBytes(r.length) <= Address(s.held[h0].end)
  }

  lemma InsertIndexed(g: Config, s: Shard, h0: nat, r: Record)
    requires ValidConfig(g) && Indexed(g, s, EndSlot(s)) && Insertable(g, s, h0, r)
    ensures Indexed(g, InsertRecord(s, r), EndSlot(s))
  {
    var s' := InsertRecord(s, r);
    forall k | k in s'.index ensures Placed(g, s', EndSlot(s), k, s'.index[k]) {
      assert k != r.key ==> Placed(g, s, EndSlot(s), k, s.index[k]);
    }
    forall t | HasSlot(s'.chain, t) && EntryAt(s'.chain, t).Some?
      ensures EntryAt(s'.chain, t).value.key in s'.index && s'.index[EntryAt(s'.chain, t).value.key].slot == t
    {
      assert HasSlot(s.chain, t) && Before(t, EndSlot(s));
    }
  }

  /** Indexing one more of the counted payloads of `h0`. */
  lemma InsertKeepsInv(g: Config, s: Shard, w: map<nat, Range>, h0: nat, extra: nat, r: Record)
    requires ValidConfig(g) && PartialInv(g, s, w, h0, extra, EndSlot(s))
    requires extra > 0 && Insertable(g, s, h0, r)
    ensures PartialInv(g, InsertRecord(s, r), w, h0, extra - 1, EndSlot(s))
    ensures FreeSlots(InsertRecord(s, r).chain) == FreeSlots(s.chain) - 1
  {
    var slot := FirstFree(s.chain);
    var s' := InsertRecord(s, r);
    FreeSlotsUpdate(s.chain, slot, Some(r));
    SetEntryOwners(g, s, w, slot, Some(r), s');
    SetEntryChained(g, s, slot, Some(r), s');
    forall h | h in s.held ensures |KeysIn(s'.index, h)| == |KeysIn(s.index, h)| + if h == h0 then 1 else 0 {
      KeysInAdded(s.index, r.key, Entry(r.length, r.address, r.checksum, slot), h);
    }
    InsertIndexed(g, s, h0, r);
  }

  /** A held payload lies after the header chunk and inside the shard. */
  lemma HoldInShard(g: Config, s: Shard, w: map<nat, Range>, h: nat, address: nat, length: nat)
    requires ValidConfig(g) && OneOwner(s, w, g.lo, g.hi) && h in s.held && address / CHUNK_BYTES == h
    requires address + PayloadDiskBytes(length) <= Address(s.held[h].end)
    ensures CHUNK_BYTES <= address && address + PayloadDiskBytes(length) <= Address(g.hi)
  {
    var last: nat := s.held[h].end - 1;
    assert Owns(s, w, Payload(h), h) && Owns(s, w, Payload(h), last);
    assert Owned(s, w, h) && Owned(s, w, last);
  }

  ghost function ReleaseTimes(s: Shard, h: nat, n: nat): Shard
    decreases n
  {
    if n == 0 || h !in s.held || s.held[h].payloads == 0 then s else ReleaseTimes(ReleasePayload(s, h), h, n - 1)
  }

  /** Held chunks stay reserved through all releases of their payloads but the last, which frees exactly them. */
  lemma {:induction false} HeldUntilReleased(s: Shard, r: Range, payloads: nat, n: nat)
    requires r.start !in s.held && 0 < n <= payloads
    ensures ReleaseTimes(HoldChunks(s, r, payloads), r.start, n) ==
      if n < payloads then HoldChunks(s, r, payloads - n) else s.(free := s.free + Interval(r.start, r.end))
    decreases n
  {
    var held := HoldChunks(s, r, payloads);
    var once := ReleasePayload(held, r.start);
    if payloads == 1 {
      assert held.held - {r.start} == s.held;
    } else {
      assert once == HoldChunks(s, r, payloads - 1);
    }
    if n > 1 {
      HeldUntilReleased(s, r, payloads - 1, n - 1);
    }
  }
}
