/** Publishing a written batch (disk_cache/writer.rs): newest entries first, one hold per batch. */
module Publication {
  import opened Layout
  import opened Metadata
  import opened ShardModel

  /** An entry written at an offset of the batch's chunks and awaiting publication. */
  datatype Buffered = Buffered(key: nat, length: nat, checksum: nat, offset: nat)

  /** The most entries one payload write can carry. */
  const MAX_BATCH: nat := 256

  ghost predicate Fits(g: Config, r: Range, b: Buffered)
    requires g.shards > 0
  {
    && Routed(g, b.key)
    && b.offset < CHUNK_BYTES
    && r.start < r.end
    && CeilDiv(b.offset + PayloadDiskBytes(b.length), CHUNK_BYTES) == r.end - r.start
    && (b.offset == 0 || r.end == r.start + 1)
  }

  /**
   What a payload writer hands over: routed entries that start in its first chunk and end in its last. Small ones
   stay within one chunk, and larger ones start at a chunk boundary.
   */
  ghost predicate ValidBatch(g: Config, r: Range, batch: seq<Buffered>)
    requires g.shards > 0
  {
    && 0 < |batch| <= MAX_BATCH
    && forall i :: 0 <= i < |batch| ==> Fits(g, r, batch[i])
  }

  function RecordFor(r: Range, b: Buffered): Record {
    Record(b.key, b.length, Address(r.start) + b.offset, b.checksum)
  }

  /** An indexed key gives its hold back; any other key is stored and indexed. */
  ghost function PublishOne(s: Shard, r: Range, b: Buffered): Shard {
    if b.key in s.index then
      if r.start in s.held && s.held[r.start].payloads > 0 then ReleasePayload(s, r.start) else s
    else
      if FreeSlots(s.chain) > 0 then InsertRecord(s, RecordFor(r, b)) else s
  }

  /** Publishes the batch from its last entry to its first. */
  ghost function PublishAll(s: Shard, r: Range, batch: seq<Buffered>): Shard
    decreases |batch|
  {
    if batch == [] then s
    else
      var n := |batch| - 1;
      PublishAll(PublishOne(s, r, batch[n]), r, batch[..n])
  }

  /** The publication region: drops the chunks when the chain cannot grow, otherwise publishes all. */
  ghost function Publish(s: Shard, r: Range, batch: seq<Buffered>): Shard {
    match EnsureFreeSlots(s, |batch|)
    case None => Drop(s, r)
    case Some(grown) => PublishAll(HoldChunks(grown, r, |batch|), r, batch)
  }

  // ---------------------------------------------------------------- preservation

  /** The invariant while `left` payloads of `r` are held but not yet published. */
  ghost predicate Publishing(g: Config, s: Shard, w: map<nat, Range>, r: Range, left: nat)
    requires ValidConfig(g)
  {
    && PartialInv(g, s, w, r.start, left, EndSlot(s))
    && s.chain != []
    && FreeSlots(s.chain) >= left
    && (left > 0 ==> r.start in s.held && s.held[r.start].end == r.end)
  }

  lemma HoldOwners(g: Config, s: Shard, w: map<nat, Range>, id: nat, payloads: nat)
    requires OneOwner(s, w, g.lo, g.hi) && id in w && w[id].start < w[id].end
    ensures w[id].start !in s.held || s.held[w[id].start].end <= w[id].start
    ensures OneOwner(HoldChunks(s, w[id], payloads), w - {id}, g.lo, g.hi)
  {
    var r := w[id];
    var s' := HoldChunks(s, r, payloads);
    var moved := Interval(r.start, r.end);
    assert Owns(s, w, Writer(id), r.start);
    assert Owns(s, w, Payload(r.start), r.start) <==> r.start in s.held && r.start < s.held[r.start].end;
    forall o, c | Owns(s', w - {id}, o, c) && !(o == Payload(r.start) && c in moved)
      ensures Owns(s, w, o, c) && !(o == Writer(id) && c in moved)
    {
      assert o.Payload? ==> o.first in s.held && s'.held[o.first] == s.held[o.first];
    }
    forall o, c | Owns(s, w, o, c) && !(o == Writer(id) && c in moved) ensures Owns(s', w - {id}, o, c) {
      assert o.Payload? ==> o.first in s'.held;
    }
    Reassign(s, w, s', w - {id}, g.lo, g.hi, moved, Writer(id), Payload(r.start));
  }

  lemma HoldKeepsInv(g: Config, s: Shard, w: map<nat, Range>, id: nat, payloads: nat)
    requires ValidConfig(g) && Inv(g, s, w) && id in w && s.chain != []
    requires 0 < payloads <= FreeSlots(s.chain)
    ensures w[id].start !in s.held
    ensures Publishing(g, HoldChunks(s, w[id], payloads), w - {id}, w[id], payloads)
  {
    HoldOwners(g, s, w, id, payloads);
    var r := w[id];
    var s' := HoldChunks(s, r, payloads);
    forall k | k in s.index ensures k !in KeysIn(s.index, r.start) {
      assert Placed(g, s, EndSlot(s), k, s.index[k]);
    }
    assert KeysIn(s.index, r.start) == {};
    forall k | k in s.index ensures Placed(g, s', EndSlot(s), k, s.index[k]) {
      assert Placed(g, s, EndSlot(s), k, s.index[k]);
    }
  }

  lemma PublishOneKeepsInv(g: Config, s: Shard, w: map<nat, Range>, r: Range, left: nat, b: Buffered)
    requires ValidConfig(g) && Publishing(g, s, w, r, left) && left > 0 && Fits(g, r, b)
    ensures Publishing(g, PublishOne(s, r, b), w, r, left - 1)
  {
    if b.key in s.index {
      ReleaseKeepsInv(g, s, w, r.start, left, EndSlot(s));
    } else {
      InsertKeepsInv(g, s, w, r.start, left, RecordFor(r, b));
    }
  }

  lemma {:induction false} PublishAllKeepsInv(g: Config, s: Shard, w: map<nat, Range>, r: Range, batch: seq<Buffered>)
    requires ValidConfig(g) && Publishing(g, s, w, r, |batch|)
    requires forall i :: 0 <= i < |batch| ==> Fits(g, r, batch[i])
    ensures Inv(g, PublishAll(s, r, batch), w)
    decreases |batch|
  {
    if batch != [] {
      var n := |batch| - 1;
      PublishOneKeepsInv(g, s, w, r, |batch|, batch[n]);
      PublishAllKeepsInv(g, PublishOne(s, r, batch[n]), w, r, batch[..n]);
    }
  }

  /** Publication by an in-flight writer keeps the shard invariant, whether or not the chain can grow. */
  lemma PublishKeepsInv(g: Config, s: Shard, w: map<nat, Range>, id: nat, batch: seq<Buffered>)
    requires ValidConfig(g) && Inv(g, s, w) && id in w && ValidBatch(g, w[id], batch)
    ensures Inv(g, Publish(s, w[id], batch), w - {id})
  {
    match EnsureFreeSlots(s, |batch|)
    case None => DropKeepsInv(g, s, w, id);
    case Some(grown) =>
      EnsureFreeSlotsKeepsInv(g, s, w, |batch|);
      HoldKeepsInv(g, grown, w, id, |batch|);
      PublishAllKeepsInv(g, HoldChunks(grown, w[id], |batch|), w - {id}, w[id], batch);
  }

  // ---------------------------------------------------------------- outcome

  /** Whether entry `i` is the newest of its key in the batch. */
  ghost predicate Newest(batch: seq<Buffered>, i: int) {
    0 <= i < |batch| && forall j :: i < j < |batch| ==> batch[j].key != batch[i].key
  }

  ghost function KeysOf(batch: seq<Buffered>): set<nat> {
    set i | 0 <= i < |batch| :: batch[i].key
  }

  /** `index` has an entry for the payload `b`, published from the chunks `r`. */
  ghost predicate Publishes(index: map<nat, Entry>, r: Range, b: Buffered) {
    && b.key in index
    && RecordOf(b.key, index[b.key]) == RecordFor(r, b)
  }

  /**
   Exactly the batch's keys become indexed, indexed keys are untouched, and every other key gets its
   newest buffered entry.
   */
  ghost predicate NewestWins(before: map<nat, Entry>, after: map<nat, Entry>, r: Range, batch: seq<Buffered>) {
    && after.Keys == before.Keys + KeysOf(batch)
    && (forall k :: k in before ==> after[k] == before[k])
    && (forall i :: Newest(batch, i) && batch[i].key !in before ==> Publishes(after, r, batch[i]))
  }

  /** The newest entry of each key wins in every batch, including batches with duplicate keys. */
  lemma {:induction false} PublishAllIndex(s: Shard, r: Range, batch: seq<Buffered>)
    requires FreeSlots(s.chain) >= |batch|
    ensures NewestWins(s.index, PublishAll(s, r, batch).index, r, batch)
    decreases |batch|
  {
    if batch != [] {
      var n := |batch| - 1;
      if batch[n].key !in s.index {
        FreeSlotsUpdate(s.chain, FirstFree(s.chain), Some(RecordFor(r, batch[n])));
      }
      PublishAllIndex(PublishOne(s, r, batch[n]), r, batch[..n]);
      NewestWinsStep(s.index, PublishOne(s, r, batch[n]).index, PublishAll(s, r, batch).index, r, batch);
    }
  }

  lemma NewestWinsStep(before: map<nat, Entry>, mid: map<nat, Entry>, after: map<nat, Entry>, r: Range,
                       batch: seq<Buffered>)
    requires batch != []
    requires NewestWins(mid, after, r, batch[..|batch| - 1])
    requires mid.Keys == before.Keys + {batch[|batch| - 1].key} && forall k :: k in before ==> mid[k] == before[k]
    requires batch[|batch| - 1].key !in before ==> Publishes(mid, r, batch[|batch| - 1])
    ensures NewestWins(before, after, r, batch)
  {
    KeysOfPush(batch);
    forall i | Newest(batch, i) && batch[i].key !in before ensures Publishes(after, r, batch[i]) {
      if i < |batch| - 1 {
        NewestPrefix(batch, i);
      }
    }
  }

  lemma KeysOfPush(batch: seq<Buffered>)
    requires batch != []
    ensures KeysOf(batch) == KeysOf(batch[..|batch| - 1]) + {batch[|batch| - 1].key}
  {
    var first := batch[..|batch| - 1];
    forall k | k in KeysOf(batch) ensures k in KeysOf(first) + {batch[|batch| - 1].key} {
      var i :| 0 <= i < |batch| && batch[i].key == k;
      assert i < |first| ==> first[i].key == k;
    }
  }

  lemma NewestPrefix(batch: seq<Buffered>, i: nat)
    requires i < |batch| - 1 && Newest(batch, i)
    ensures Newest(batch[..|batch| - 1], i) && batch[..|batch| - 1][i] == batch[i]
    ensures batch[|batch| - 1].key != batch[i].key
  {
  }

  /** Publication changes no reservation but the batch's own. */
  lemma {:induction false} PublishAllHolds(s: Shard, r: Range, batch: seq<Buffered>)
    requires r.start in s.held ==> s.held[r.start].end == r.end
    ensures var after := PublishAll(s, r, batch);
      && after.held - {r.start} == s.held - {r.start}
      && (r.start in after.held ==> r.start in s.held && after.held[r.start].end == r.end)
      && after.free == s.free + if r.start in s.held && r.start !in after.held then Interval(r.start, r.end) else {}
    decreases |batch|
  {
    if batch != [] {
      var n := |batch| - 1;
      PublishAllHolds(PublishOne(s, r, batch[n]), r, batch[..n]);
    }
  }

  /**
   The newest entry of each key wins, the remaining holds equal the number of entries published, and
   the chunks are free again exactly when nothing was published.
   */
  ghost predicate Outcome(before: map<nat, Entry>, after: Shard, r: Range, batch: seq<Buffered>) {
    var published := KeysOf(batch) - before.Keys;
    && NewestWins(before, after.index, r, batch)
    && KeysIn(after.index, r.start) == published
    && (r.start in after.held <==> published != {})
    && (r.start in after.held ==> after.held[r.start] == Hold(r.end, |published|))
    && (Interval(r.start, r.end) <= after.free <==> published == {})
  }

  /** The outcome of every publication, including duplicate keys and keys indexed during its I/O. */
  lemma PublishOutcome(g: Config, s: Shard, w: map<nat, Range>, id: nat, batch: seq<Buffered>)
    requires ValidConfig(g) && Inv(g, s, w) && id in w && ValidBatch(g, w[id], batch)
    requires EnsureFreeSlots(s, |batch|).Some?
    ensures Outcome(s.index, Publish(s, w[id], batch), w[id], batch)
  {
    var grown := EnsureFreeSlots(s, |batch|).value;
    PublishGrown(s, w[id], batch);
    assert Outcome(grown.index, PublishAll(HoldChunks(grown, w[id], |batch|), w[id], batch), w[id], batch) by {
      EnsureFreeSlotsKeepsInv(g, s, w, |batch|);
      PublishHeldOutcome(g, grown, w, id, batch);
    }
  }

  lemma PublishGrown(s: Shard, r: Range, batch: seq<Buffered>)
    requires EnsureFreeSlots(s, |batch|).Some?
    ensures var grown := EnsureFreeSlots(s, |batch|).value;
      grown.index == s.index && Publish(s, r, batch) == PublishAll(HoldChunks(grown, r, |batch|), r, batch)
  {
  }

  lemma PublishHeldOutcome(g: Config, s: Shard, w: map<nat, Range>, id: nat, batch: seq<Buffered>)
    requires ValidConfig(g) && Inv(g, s, w) && id in w && ValidBatch(g, w[id], batch)
    requires FreeSlots(s.chain) >= |batch| && s.chain != []
    ensures Outcome(s.index, PublishAll(HoldChunks(s, w[id], |batch|), w[id], batch), w[id], batch)
  {
    var r := w[id];
    var held := HoldChunks(s, r, |batch|);
    var after := PublishAll(held, r, batch);
    assert r.start !in s.held && Inv(g, after, w - {id}) by {
      HoldKeepsInv(g, s, w, id, |batch|);
      PublishAllKeepsInv(g, held, w - {id}, r, batch);
    }
    PublishAllIndex(held, r, batch);
    PublishAllHolds(held, r, batch);
    PublishedKeys(g, s, after, r, batch);
    StartOwned(g, after, w - {id}, r);
  }

  lemma StartOwned(g: Config, s: Shard, w: map<nat, Range>, r: Range)
    requires OneOwner(s, w, g.lo, g.hi) && r.start < r.end
    requires r.start in s.held ==> s.held[r.start].end == r.end
    ensures r.start in s.held ==> r.start !in s.free
    ensures r.start in Interval(r.start, r.end)
  {
    if r.start in s.held {
      assert Owns(s, w, Payload(r.start), r.start);
      assert r.start in s.free ==> Owns(s, w, FreeRun, r.start);
    }
  }

  /** A published entry lies in the reservation's first chunk. */
  lemma PublishedInHold(g: Config, before: map<nat, Entry>, after: map<nat, Entry>, r: Range, batch: seq<Buffered>,
                        k: nat)
    requires ValidConfig(g) && NewestWins(before, after, r, batch) && k in KeysOf(batch) - before.Keys
    requires forall i :: 0 <= i < |batch| ==> Fits(g, r, batch[i])
    ensures k in KeysIn(after, r.start)
  {
    var i := NewestExists(batch, k);
    assert Publishes(after, r, batch[i]) && Fits(g, r, batch[i]);
  }

  lemma KeysInRange(g: Config, s: Shard, after: Shard, r: Range, batch: seq<Buffered>)
    requires ValidConfig(g) && Indexed(g, s, EndSlot(s)) && r.start !in s.held
    requires forall i :: 0 <= i < |batch| ==> Fits(g, r, batch[i])
    requires NewestWins(s.index, after.index, r, batch)
    ensures KeysIn(after.index, r.start) == KeysOf(batch) - s.index.Keys
  {
    var published := KeysOf(batch) - s.index.Keys;
    forall k | k in published ensures k in KeysIn(after.index, r.start) {
      PublishedInHold(g, s.index, after.index, r, batch, k);
    }
    forall k | k in s.index ensures s.index[k].address / CHUNK_BYTES != r.start {
      assert Placed(g, s, EndSlot(s), k, s.index[k]);
    }
  }

  lemma PublishedKeys(g: Config, s: Shard, after: Shard, r: Range, batch: seq<Buffered>)
    requires ValidConfig(g) && Indexed(g, s, EndSlot(s)) && r.start !in s.held
    requires Indexed(g, after, EndSlot(after)) && Counted(after, 0, 0)
    requires forall i :: 0 <= i < |batch| ==> Fits(g, r, batch[i])
    requires NewestWins(s.index, after.index, r, batch)
    ensures KeysIn(after.index, r.start) == KeysOf(batch) - s.index.Keys
    ensures r.start in after.held <==> KeysOf(batch) - s.index.Keys != {}
    ensures r.start in after.held ==> after.held[r.start].payloads == |KeysOf(batch) - s.index.Keys|
  {
    KeysInRange(g, s, after, r, batch);
    forall k | k in KeysIn(after.index, r.start) ensures r.start in after.held {
      assert Placed(g, after, EndSlot(after), k, after.index[k]);
    }
  }

  lemma {:induction false} NewestExists(batch: seq<Buffered>, k: nat) returns (i: nat)
    requires k in KeysOf(batch)
    ensures Newest(batch, i) && batch[i].key == k
    decreases |batch|
  {
    var n := |batch| - 1;
    if batch[n].key == k {
      i := n;
    } else {
      assert k in KeysOf(batch[..n]) by {
        var j :| 0 <= j < |batch| && batch[j].key == k;
        assert batch[..n][j].key == k;
      }
      i := NewestExists(batch[..n], k);
      forall j | i < j < |batch| ensures batch[j].key != k {
        assert j < n ==> batch[..n][j].key != k;
      }
    }
  }

  ghost function NewestOf(batch: seq<Buffered>, k: nat): (i: int)
    requires k in KeysOf(batch)
    ensures Newest(batch, i) && batch[i].key == k
  {
    assert exists i :: Newest(batch, i) && batch[i].key == k by {
      var i := NewestExists(batch, k);
    }
    var i :| Newest(batch, i) && batch[i].key == k;
    i
  }

  /** Whether or not the chain could grow, indexed keys are untouched and new ones get their newest entry. */
  lemma PublishIndex(g: Config, s: Shard, w: map<nat, Range>, id: nat, batch: seq<Buffered>)
    requires ValidConfig(g) && Inv(g, s, w) && id in w && ValidBatch(g, w[id], batch)
    ensures NewestWins(s.index, Publish(s, w[id], batch).index, w[id], batch)
      || Publish(s, w[id], batch).index == s.index
  {
    if EnsureFreeSlots(s, |batch|).Some? {
      PublishOutcome(g, s, w, id, batch);
    }
  }
}
