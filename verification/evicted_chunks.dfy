/**
 What the eviction budget counts. An entry is charged the chunks that its payload covers, and evicting it gives
 back no more than those, because small payloads stay within one chunk and larger ones start at a boundary.
 */
module EvictedChunks {
  import opened Layout
  import opened Metadata
  import opened ShardModel
  import opened Publication
  import opened Recovery
  import opened RoundTrip
  import opened CrashModel
  import opened DiskIndex
  import opened Admission
  import Runs

  /** The chunk of byte `b` of a payload that starts with chunk `h`. */
  function ChunkOfByte(h: nat, b: nat): nat {
    (Address(h) + b) / CHUNK_BYTES
  }

  /** The chunks that the bytes of such a payload touch. */
  ghost function Touched(h: nat, length: nat): set<nat> {
    set b: nat | b < Max(length, 1) :: ChunkOfByte(h, b)
  }

  lemma TouchedIs(h: nat, length: nat, c: nat)
    ensures c in Touched(h, length) <==> c in Interval(h, h + ChunkCount(length))
  {
    if c in Interval(h, h + ChunkCount(length)) {
      var b := (c - h) * CHUNK_BYTES;
      assert b < Max(length, 1) && ChunkOfByte(h, b) == c;
    }
    if c in Touched(h, length) {
      var b: nat :| b < Max(length, 1) && ChunkOfByte(h, b) == c;
      assert c == h + b / CHUNK_BYTES;
    }
  }

  /** The chunk count of an entry is the number of chunks that its payload touches from a chunk boundary on. */
  lemma ChunkCountIsTouched(h: nat, length: nat)
    ensures Touched(h, length) == Interval(h, h + ChunkCount(length)) && |Touched(h, length)| == ChunkCount(length)
  {
    forall c: nat ensures c in Touched(h, length) <==> c in Interval(h, h + ChunkCount(length)) {
      TouchedIs(h, length, c);
    }
    IntervalSize(h, h + ChunkCount(length));
  }

  // ---------------------------------------------------------------- entries that cover their reservation

  /** The payload starts at a chunk boundary, or stays within one chunk. */
  ghost predicate AlignedEntry(e: Entry) {
    var offset := e.address % CHUNK_BYTES;
    offset == 0 || offset + PayloadDiskBytes(e.length) <= CHUNK_BYTES
  }

  ghost predicate Aligned(s: Shard) {
    forall k :: k in s.index ==> AlignedEntry(s.index[k])
  }

  /** Each entry ends in the last chunk of its reservation and was placed as the writers place payloads. */
  ghost predicate Compact(s: Shard) {
    Tight(s) && Aligned(s)
  }

  lemma PaddedChunks(length: nat)
    ensures CeilDiv(PayloadDiskBytes(length), CHUNK_BYTES) == ChunkCount(length)
  {
    var n := Max(length, 1);
    var pages := CeilDiv(n, PAGE_BYTES);
    assert CeilDiv(pages * PAGE_BYTES, CHUNK_BYTES) == CeilDiv(pages, PAGES_PER_CHUNK);
  }

  /** The reservation of an entry has as many chunks as the entry is charged. */
  lemma CompactExtent(s: Shard, k: nat)
    requires Compact(s) && k in s.index
    ensures
      var h := s.index[k].address / CHUNK_BYTES;
      h in s.held && s.held[h].end == h + ChunkCount(s.index[k].length)
  {
    var e := s.index[k];
    assert TightEntry(s, e) && AlignedEntry(e);
    var h, offset := e.address / CHUNK_BYTES, e.address % CHUNK_BYTES;
    PaddedChunks(e.length);
    assert e.address == h * CHUNK_BYTES + offset;
  }

  // ---------------------------------------------------------------- what an eviction frees

  ghost function HeldChunks(s: Shard): set<nat> {
    set h, c | h in s.held && c in Interval(h, s.held[h].end) :: c
  }

  /** From `a` to `b` at most `spent` chunks stopped being held, if the entries of `a` cover their reservations. */
  ghost predicate Frees(a: Shard, b: Shard, spent: nat) {
    Compact(a) ==> Compact(b) && |HeldChunks(a) - HeldChunks(b)| <= spent
  }

  lemma FreesNothing(a: Shard, b: Shard)
    requires b.held == a.held && b.index == a.index
    ensures Frees(a, b, 0)
  {
    if Compact(a) {
      Runs.FrameTight(a, b);
      assert HeldChunks(a) - HeldChunks(b) == {};
    }
  }

  lemma FreesBoth(a: Shard, b: Shard, c: Shard, m: nat, n: nat)
    requires Frees(a, b, m) && Frees(b, c, n)
    ensures Frees(a, c, m + n)
  {
    if Compact(a) {
      var x, y := HeldChunks(a) - HeldChunks(b), HeldChunks(b) - HeldChunks(c);
      SubsetSize(HeldChunks(a) - HeldChunks(c), x + y);
    }
  }

  /** An attempt to reserve chunks frees none that are held. */
  lemma AttemptFrees(s: Shard, entryCount: nat, start: Option<nat>, required: nat)
    ensures Frees(s, Attempted(s, entryCount, start, required), 0)
  {
    FreesNothing(s, Attempted(s, entryCount, start, required));
  }

  lemma RemoveFreesHold(g: Config, s: Shard, w: map<nat, Range>, key: nat, c: nat)
    requires OneOwner(s, w, g.lo, g.hi) && Removable(s, key) && c in HeldChunks(s)
    ensures
      var h := s.index[key].address / CHUNK_BYTES;
      c in HeldChunks(RemoveEntry(s, key)) <==> !(s.held[h].payloads == 1 && c in Interval(h, s.held[h].end))
  {
    var after, h := RemoveEntry(s, key), s.index[key].address / CHUNK_BYTES;
    var i :| i in s.held && c in Interval(i, s.held[i].end);
    assert i in after.held ==> after.held[i].end == s.held[i].end;
    if c in HeldChunks(after) {
      var j :| j in after.held && c in Interval(j, after.held[j].end);
      assert Owns(s, w, Payload(j), c);
      assert c in Interval(h, s.held[h].end) ==> Owns(s, w, Payload(h), c);
    }
  }

  /** An eviction frees the whole reservation with its last entry, and nothing before. */
  lemma EvictionFreesExactly(g: Config, s: Shard, w: map<nat, Range>, key: nat)
    requires ValidConfig(g) && Inv(g, s, w) && key in s.index
    ensures
      var h := s.index[key].address / CHUNK_BYTES;
      && h in s.held
      && HeldChunks(s) - HeldChunks(RemoveEntry(s, key))
        == if KeysIn(s.index, h) == {key} then Interval(h, s.held[h].end) else {}
  {
    var after, h := RemoveEntry(s, key), s.index[key].address / CHUNK_BYTES;
    assert Placed(g, s, EndSlot(s), key, s.index[key]);
    assert s.held[h].payloads == 1 <==> KeysIn(s.index, h) == {key} by {
      OnlyKey(KeysIn(s.index, h), key);
    }
    forall c | c in HeldChunks(s)
      ensures c in HeldChunks(after) <==> !(s.held[h].payloads == 1 && c in Interval(h, s.held[h].end))
    {
      RemoveFreesHold(g, s, w, key, c);
    }
    forall c | c in Interval(h, s.held[h].end) ensures c in HeldChunks(s) {
    }
  }

  lemma OnlyKey(keys: set<nat>, key: nat)
    requires key in keys
    ensures |keys| == 1 <==> keys == {key}
  {
    assert |keys - {key}| == |keys| - 1;
    assert |keys| == 1 ==> keys - {key} == {};
  }

  /** Evicting an entry frees at most the chunks that it is charged. */
  lemma EvictionFrees(g: Config, s: Shard, w: map<nat, Range>, key: nat)
    requires ValidConfig(g) && Inv(g, s, w) && key in s.index
    ensures Frees(s, RemoveEntry(s, key), ChunkCount(s.index[key].length))
  {
    if Compact(s) {
      var after, h := RemoveEntry(s, key), s.index[key].address / CHUNK_BYTES;
      Runs.RemoveTight(g, s, w, key);
      Runs.RemoveIndex(s, key);
      CompactExtent(s, key);
      EvictionFreesExactly(g, s, w, key);
      SubsetSize(HeldChunks(s) - HeldChunks(after), Interval(h, s.held[h].end));
      IntervalSize(h, s.held[h].end);
    }
  }

  // ---------------------------------------------------------------- every run from a cleared file

  lemma FitsAligned(g: Config, r: Range, b: Buffered, e: Entry)
    requires g.shards > 0 && Fits(g, r, b) && e.address == Address(r.start) + b.offset && e.length == b.length
    ensures AlignedEntry(e)
  {
    assert e.address % CHUNK_BYTES == b.offset;
  }

  lemma PublishAligned(g: Config, s: Shard, w: map<nat, Range>, id: nat, batch: seq<Buffered>)
    requires ValidConfig(g) && Inv(g, s, w) && id in w && ValidBatch(g, w[id], batch) && Aligned(s)
    ensures Aligned(Publish(s, w[id], batch))
  {
    var after := Publish(s, w[id], batch);
    PublishIndex(g, s, w, id, batch);
    forall k | k in after.index ensures AlignedEntry(after.index[k]) {
      if k !in s.index {
        var b := batch[NewestOf(batch, k)];
        assert Publishes(after.index, w[id], b);
        FitsAligned(g, w[id], b, after.index[k]);
      }
    }
  }

  lemma ApplyCompact(g: Config, y: System, a: Action)
    requires ValidConfig(g) && ShardOk(g, y) && Compact(y.shard) && Enabled(g, y, a) && !a.Reopen?
    ensures Compact(Apply(g, y, a).shard)
  {
    Runs.ApplyTight(g, y, a);
    if a.PublishBatch? {
      PublishAligned(g, y.shard, y.flights, a.id, a.batch);
    } else if a.RemoveKey? {
      RemoveEntryKeepsInv(g, y.shard, y.flights, a.key);
      RemovedAligned(g, y.shard, y.flights, a.key);
    } else if Runs.Quiet(a) {
      Runs.QuietFrame(g, y, a);
    }
  }

  lemma RemovedAligned(g: Config, s: Shard, w: map<nat, Range>, key: nat)
    requires ValidConfig(g) && Inv(g, s, w) && Aligned(s)
    ensures Aligned(RemoveEntry(s, key))
  {
    assert key in s.index ==> Placed(g, s, EndSlot(s), key, s.index[key]);
    Runs.RemoveIndex(s, key);
  }

  lemma {:induction false} RunCompact(g: Config, y: System, actions: seq<Action>, z: System)
    requires ValidConfig(g) && ShardOk(g, y) && Compact(y.shard) && Runs.Reaches(g, y, actions, z)
    requires forall i :: 0 <= i < |actions| ==> !actions[i].Reopen?
    ensures Compact(z.shard)
    decreases |actions|
  {
    if actions != [] {
      ApplyKeepsShard(g, y, actions[0]);
      ApplyCompact(g, y, actions[0]);
      RunCompact(g, Apply(g, y, actions[0]), actions[1..], z);
    }
  }

  /** In every run from a cleared file without a reopen, entries cover their reservations. */
  lemma ClearedRunCompact(g: Config, disk: Disk, actions: seq<Action>, z: System)
    requires ValidConfig(g) && Runs.Cleared(g, disk)
    requires ShardOk(g, Runs.Opened(g, disk)) && Runs.Reaches(g, Runs.Opened(g, disk), actions, z)
    requires forall i :: 0 <= i < |actions| ==> !actions[i].Reopen?
    ensures Compact(z.shard)
  {
    Runs.ClearedIsEmpty(g, disk);
    RunCompact(g, Runs.Opened(g, disk), actions, z);
  }
}
