/**
 Which records survive recovery. Earlier slots claim their chunks first, so a record survives exactly when no
 surviving record in an earlier slot stands in its way.
 */
module Survival {
  import opened Layout
  import opened Metadata
  import opened ShardModel
  import opened Recovery
  import opened RoundTrip
  import opened CrashModel
  import CrashSafety
  import Runs

  function First(r: Record): nat {
    r.address / CHUNK_BYTES
  }

  /** One past the record's last chunk. */
  function Last(r: Record): nat {
    CeilDiv(r.address + PayloadDiskBytes(r.length), CHUNK_BYTES)
  }

  predicate Covers(r: Record, c: nat) {
    First(r) <= c < Last(r)
  }

  /** Slot `v` comes before `t` and still holds `x`. */
  ghost predicate EarlierRecord(chain: Chain, t: Slot, v: Slot, x: Record) {
    HasSlot(chain, v) && Before(v, t) && EntryAt(chain, v) == Some(x)
  }

  /** Some record before `t` claimed the chunks of `r`, all of them, from the same first one. */
  ghost predicate Shared(chain: Chain, t: Slot, r: Record) {
    exists v, x :: EarlierRecord(chain, t, v, x) && First(x) == First(r) && Last(r) <= Last(x)
  }

  /** No record before `t` claimed any chunk of `r`. */
  ghost predicate Unclaimed(chain: Chain, t: Slot, r: Record) {
    forall v, x, c: nat :: EarlierRecord(chain, t, v, x) && Covers(r, c) ==> !Covers(x, c)
  }

  ghost predicate NewKey(chain: Chain, t: Slot, key: nat) {
    forall v, x :: EarlierRecord(chain, t, v, x) ==> x.key != key
  }

  /** All chunks of `r` are among the given ones. */
  ghost predicate FreeFor(free: set<nat>, r: Record) {
    forall c: nat :: Covers(r, c) ==> c in free
  }

  /** `r` belongs to the shard, and the records that survived before `t` leave it its key and its chunks. */
  ghost predicate Admits(g: Config, free: set<nat>, chain: Chain, t: Slot, r: Record)
    requires g.shards > 0
  {
    && Routed(g, r.key) && NewKey(chain, t, r.key)
    && (Shared(chain, t, r) || (Unclaimed(chain, t, r) && FreeFor(free, r)))
  }

  // ---------------------------------------------------------------- what the scan keeps

  ghost predicate HeldChunk(s: Shard, c: nat) {
    exists h :: h in s.held && h <= c < s.held[h].end
  }

  ghost predicate OffHolds(s: Shard, r: Record) {
    forall c: nat :: Covers(r, c) ==> !HeldChunk(s, c)
  }

  /** Some indexed record has the extent of the reservation. */
  ghost predicate Claimed(s: Shard, h: nat)
    requires h in s.held
  {
    exists k :: k in s.index && First(RecordOf(k, s.index[k])) == h && Last(RecordOf(k, s.index[k])) == s.held[h].end
  }

  /** Slots from `t` on are as loaded. */
  ghost predicate Unscanned(loaded: Chain, chain: Chain, t: Slot) {
    && (forall u :: HasSlot(chain, u) <==> HasSlot(loaded, u))
    && (forall u :: HasSlot(chain, u) && !Before(u, t) ==> EntryAt(chain, u) == EntryAt(loaded, u))
  }

  ghost predicate Scanned(g: Config, loaded: Shard, s: Shard, t: Slot)
    requires ValidConfig(g)
  {
    && PartialInv(g, s, map[], 0, 0, t)
    && (forall c: nat :: c in s.free <==> c in loaded.free && !HeldChunk(s, c))
    && (forall h :: h in s.held ==> Claimed(s, h))
    && Unscanned(loaded.chain, s.chain, t)
  }

  lemma LastCovers(r: Record, end: nat)
    ensures First(r) < Last(r)
    ensures r.address + PayloadDiskBytes(r.length) <= Address(end) <==> Last(r) <= end
  {
  }

  /** The indexed records are exactly the ones in the slots scanned so far. */
  lemma IndexedIsEarlier(g: Config, s: Shard, t: Slot, k: nat)
    requires g.shards > 0 && Indexed(g, s, t)
    ensures k in s.index ==> EarlierRecord(s.chain, t, s.index[k].slot, RecordOf(k, s.index[k]))
    ensures k in s.index <==> !NewKey(s.chain, t, k)
  {
    if k in s.index {
      assert Placed(g, s, t, k, s.index[k]);
      assert EarlierRecord(s.chain, t, s.index[k].slot, RecordOf(k, s.index[k]));
    }
  }

  /** An earlier record lies in its reservation. */
  lemma EarlierIsHeld(g: Config, s: Shard, t: Slot, v: Slot, x: Record)
    requires g.shards > 0 && Indexed(g, s, t) && EarlierRecord(s.chain, t, v, x)
    ensures First(x) in s.held && Last(x) <= s.held[First(x)].end
  {
    var e := s.index[x.key];
    assert Placed(g, s, t, x.key, e);
    LastCovers(x, s.held[First(x)].end);
  }

  lemma ClaimerIsEarlier(g: Config, s: Shard, t: Slot, h: nat) returns (v: Slot, x: Record)
    requires g.shards > 0 && Indexed(g, s, t) && h in s.held && Claimed(s, h)
    ensures EarlierRecord(s.chain, t, v, x) && First(x) == h && Last(x) == s.held[h].end
  {
    var k :| k in s.index && First(RecordOf(k, s.index[k])) == h && Last(RecordOf(k, s.index[k])) == s.held[h].end;
    v, x := s.index[k].slot, RecordOf(k, s.index[k]);
    IndexedIsEarlier(g, s, t, k);
  }

  lemma SharedIff(g: Config, s: Shard, t: Slot, r: Record)
    requires g.shards > 0 && Indexed(g, s, t) && forall h :: h in s.held ==> Claimed(s, h)
    ensures Shared(s.chain, t, r) <==> First(r) in s.held && Last(r) <= s.held[First(r)].end
  {
    if Shared(s.chain, t, r) {
      var v, x :| EarlierRecord(s.chain, t, v, x) && First(x) == First(r) && Last(r) <= Last(x);
      EarlierIsHeld(g, s, t, v, x);
    }
    if First(r) in s.held && Last(r) <= s.held[First(r)].end {
      var v, x := ClaimerIsEarlier(g, s, t, First(r));
    }
  }

  lemma UnclaimedIff(g: Config, s: Shard, t: Slot, r: Record)
    requires g.shards > 0 && Indexed(g, s, t) && forall h :: h in s.held ==> Claimed(s, h)
    ensures Unclaimed(s.chain, t, r) <==> OffHolds(s, r)
  {
    if Unclaimed(s.chain, t, r) {
      forall c: nat | Covers(r, c) ensures !HeldChunk(s, c) {
        if h :| h in s.held && h <= c < s.held[h].end {
          var v, x := ClaimerIsEarlier(g, s, t, h);
          assert Covers(x, c);
        }
      }
    }
    if OffHolds(s, r) {
      forall v, x, c: nat | EarlierRecord(s.chain, t, v, x) && Covers(r, c) ensures !Covers(x, c) {
        EarlierIsHeld(g, s, t, v, x);
        assert !HeldChunk(s, c);
      }
    }
  }

  lemma HoldIff(s: Shard, r: Record)
    requires forall h :: h in s.held ==> h < s.held[h].end
    ensures
      HoldRecovered(s, r.address, r.address + PayloadDiskBytes(r.length)).Some? <==>
      if First(r) in s.held then Last(r) <= s.held[First(r)].end else FreeFor(s.free, r)
  {
    LastCovers(r, if First(r) in s.held then s.held[First(r)].end else 0);
    if First(r) !in s.held {
      assert Interval(First(r), Last(r)) <= s.free <==> FreeFor(s.free, r) by {
        assert forall c: nat :: c in Interval(First(r), Last(r)) <==> Covers(r, c);
      }
    }
  }

  /** The chunks of a record can be held exactly when earlier records share them, or leave them alone. */
  lemma HoldAdmits(g: Config, loaded: Shard, s: Shard, t: Slot, r: Record)
    requires g.shards > 0 && Indexed(g, s, t) && forall h :: h in s.held ==> Claimed(s, h)
    requires forall c: nat :: c in s.free <==> c in loaded.free && !HeldChunk(s, c)
    requires forall h :: h in s.held ==> h < s.held[h].end
    ensures
      HoldRecovered(s, r.address, r.address + PayloadDiskBytes(r.length)).Some? <==>
      Shared(s.chain, t, r) || (Unclaimed(s.chain, t, r) && FreeFor(loaded.free, r))
  {
    SharedIff(g, s, t, r);
    UnclaimedIff(g, s, t, r);
    HoldIff(s, r);
    FirstHeld(loaded, s, r);
  }

  /** Recovery accepts a record exactly when the records before it leave it its key and its chunks. */
  lemma AcceptAdmits(g: Config, loaded: Shard, s: Shard, t: Slot, r: Record)
    requires g.shards > 0 && Indexed(g, s, t) && forall h :: h in s.held ==> Claimed(s, h)
    requires forall c: nat :: c in s.free <==> c in loaded.free && !HeldChunk(s, c)
    requires forall h :: h in s.held ==> h < s.held[h].end
    ensures Accept(g, s, r).Some? <==> Admits(g, loaded.free, s.chain, t, r)
  {
    assert r.key in s.index <==> !NewKey(s.chain, t, r.key) by {
      IndexedIsEarlier(g, s, t, r.key);
    }
    HoldAdmits(g, loaded, s, t, r);
  }

  lemma AcceptIff(g: Config, loaded: Shard, s: Shard, t: Slot, r: Record)
    requires ValidConfig(g) && Scanned(g, loaded, s, t)
    ensures Accept(g, s, r).Some? <==> Admits(g, loaded.free, s.chain, t, r)
  {
    AcceptAdmits(g, loaded, s, t, r);
  }

  /** A record whose first chunk is held cannot be clear of reservations; otherwise it is if its chunks are free. */
  lemma FirstHeld(loaded: Shard, s: Shard, r: Record)
    requires forall c: nat :: c in s.free <==> c in loaded.free && !HeldChunk(s, c)
    requires forall h :: h in s.held ==> h < s.held[h].end
    ensures First(r) in s.held ==> !OffHolds(s, r)
    ensures FreeFor(s.free, r) <==> OffHolds(s, r) && FreeFor(loaded.free, r)
  {
    LastCovers(r, 0);
    if First(r) in s.held {
      assert HeldChunk(s, First(r)) && Covers(r, First(r));
    }
  }

  // ---------------------------------------------------------------- the scan

  lemma SlotOrder(t: Slot, u: Slot)
    requires t.entry < ENTRIES_PER_CHUNK && u.entry < ENTRIES_PER_CHUNK
    ensures Before(u, NextSlot(t)) <==> Before(u, t) || u == t
  {
  }

  lemma UnscannedNext(loaded: Chain, chain: Chain, after: Chain, t: Slot)
    requires FullSized(chain) && HasSlot(chain, t) && Unscanned(loaded, chain, t)
    requires after == chain || after == SetEntry(chain, t, None)
    ensures Unscanned(loaded, after, NextSlot(t))
  {
    forall u | HasSlot(after, u) && !Before(u, NextSlot(t)) ensures EntryAt(after, u) == EntryAt(loaded, u) {
      assert HasSlot(chain, u);
      SlotOrder(t, u);
    }
  }

  lemma ClearedScan(g: Config, loaded: Shard, s: Shard, t: Slot, z: Shard)
    requires ValidConfig(g) && Scanned(g, loaded, s, t) && HasSlot(s.chain, t)
    requires z == s.(chain := SetEntry(s.chain, t, None)) && PartialInv(g, z, map[], 0, 0, NextSlot(t))
    ensures Scanned(g, loaded, z, NextSlot(t))
  {
    assert forall c: nat :: HeldChunk(z, c) <==> HeldChunk(s, c);
    forall h | h in z.held ensures Claimed(z, h) {
      assert Claimed(s, h);
    }
    UnscannedNext(loaded.chain, s.chain, z.chain, t);
  }

  lemma AcceptedHolds(loaded: Shard, s: Shard, r: Record, z: Shard)
    requires forall c: nat :: c in s.free <==> c in loaded.free && !HeldChunk(s, c)
    requires forall h :: h in s.held ==> h < s.held[h].end
    requires
      var held := HoldRecovered(s, r.address, r.address + PayloadDiskBytes(r.length));
      held.Some? && z.free == held.value.free && z.held == held.value.held
    ensures forall c: nat :: c in z.free <==> c in loaded.free && !HeldChunk(z, c)
  {
    var h := First(r);
    forall c: nat ensures HeldChunk(z, c) <==> HeldChunk(s, c) || (h !in s.held && Covers(r, c)) {
      if i :| i in s.held && i <= c < s.held[i].end {
        assert i in z.held && i <= c < z.held[i].end;
      }
      if h !in s.held && Covers(r, c) {
        assert h in z.held && h <= c < z.held[h].end;
      }
      if i :| i in z.held && i <= c < z.held[i].end {
        assert i in s.held ==> i <= c < s.held[i].end;
      }
    }
  }

  lemma AcceptedClaims(s: Shard, t: Slot, r: Record, z: Shard)
    requires forall h :: h in s.held ==> Claimed(s, h)
    requires r.key !in s.index && z.index == s.index[r.key := Entry(r.length, r.address, r.checksum, t)]
    requires
      var held := HoldRecovered(s, r.address, r.address + PayloadDiskBytes(r.length));
      held.Some? && z.held == held.value.held
    ensures forall h :: h in z.held ==> Claimed(z, h)
  {
    forall h | h in z.held ensures Claimed(z, h) {
      if h in s.held {
        var k :| k in s.index && First(RecordOf(k, s.index[k])) == h && Last(RecordOf(k, s.index[k])) == s.held[h].end;
        assert k in z.index && z.index[k] == s.index[k];
      } else {
        assert RecordOf(r.key, z.index[r.key]) == r;
      }
    }
  }

  /** `z` is `s` with the record of slot `t` indexed and its chunks held. */
  ghost predicate Accepted(s: Shard, t: Slot, r: Record, z: Shard) {
    var held := HoldRecovered(s, r.address, r.address + PayloadDiskBytes(r.length));
    && held.Some? && z.free == held.value.free && z.held == held.value.held && z.chain == s.chain
    && r.key !in s.index && z.index == s.index[r.key := Entry(r.length, r.address, r.checksum, t)]
  }

  lemma RecoverSlotAccepts(g: Config, s: Shard, t: Slot, r: Record)
    requires g.shards > 0 && HasSlot(s.chain, t) && EntryAt(s.chain, t) == Some(r) && Accept(g, s, r).Some?
    ensures Accepted(s, t, r, RecoverSlot(g, s, t))
  {
  }

  lemma AcceptedScan(g: Config, loaded: Shard, s: Shard, t: Slot, r: Record, z: Shard)
    requires ValidConfig(g) && Scanned(g, loaded, s, t) && HasSlot(s.chain, t)
    requires Accepted(s, t, r, z) && PartialInv(g, z, map[], 0, 0, NextSlot(t))
    ensures Scanned(g, loaded, z, NextSlot(t))
  {
    assert forall c: nat :: c in z.free <==> c in loaded.free && !HeldChunk(z, c) by {
      AcceptedHolds(loaded, s, r, z);
    }
    assert forall h :: h in z.held ==> Claimed(z, h) by {
      AcceptedClaims(s, t, r, z);
    }
    UnscannedNext(loaded.chain, s.chain, z.chain, t);
  }

  lemma ScanStep(g: Config, loaded: Shard, s: Shard, t: Slot)
    requires ValidConfig(g) && Scanned(g, loaded, s, t) && HasSlot(s.chain, t)
    ensures Scanned(g, loaded, RecoverSlot(g, s, t), NextSlot(t))
  {
    RecoverSlotKeepsInv(g, s, t);
    match EntryAt(s.chain, t)
    case None =>
      assert SetEntry(s.chain, t, None) == s.chain by {
        assert s.chain[t.chunk].entries[t.entry := None] == s.chain[t.chunk].entries;
      }
      ClearedScan(g, loaded, s, t, s);
    case Some(r) =>
      if Accept(g, s, r).None? {
        ClearedScan(g, loaded, s, t, RecoverSlot(g, s, t));
      } else {
        RecoverSlotAccepts(g, s, t, r);
        AcceptedScan(g, loaded, s, t, r, RecoverSlot(g, s, t));
      }
  }

  /** The rest of the scan leaves earlier slots alone. */
  lemma {:induction false} EarlierSlotsStay(g: Config, s: Shard, t: Slot, u: Slot)
    requires g.shards > 0 && FullSized(s.chain) && t.entry < ENTRIES_PER_CHUNK && HasSlot(s.chain, u) && Before(u, t)
    ensures HasSlot(RecoverFrom(g, s, t).chain, u) && EntryAt(RecoverFrom(g, s, t).chain, u) == EntryAt(s.chain, u)
    decreases |s.chain| - t.chunk, ENTRIES_PER_CHUNK - t.entry
  {
    if t.chunk < |s.chain| {
      SlotOrder(t, u);
      EarlierSlotsStay(g, RecoverSlot(g, s, t), NextSlot(t), u);
    }
  }

  lemma {:induction false} SlotsStay(g: Config, s: Shard, t: Slot, u: Slot)
    requires g.shards > 0 && FullSized(s.chain) && t.entry < ENTRIES_PER_CHUNK
    ensures HasSlot(RecoverFrom(g, s, t).chain, u) <==> HasSlot(s.chain, u)
    decreases |s.chain| - t.chunk, ENTRIES_PER_CHUNK - t.entry
  {
    if t.chunk < |s.chain| {
      SlotsStay(g, RecoverSlot(g, s, t), NextSlot(t), u);
    }
  }

  lemma SameAdmits(g: Config, free: set<nat>, a: Chain, b: Chain, t: Slot, r: Record)
    requires g.shards > 0 && forall v, x :: EarlierRecord(a, t, v, x) <==> EarlierRecord(b, t, v, x)
    ensures Admits(g, free, a, t, r) <==> Admits(g, free, b, t, r)
  {
  }

  lemma EarlierStay(g: Config, s: Shard, t: Slot)
    requires g.shards > 0 && FullSized(s.chain) && t.entry < ENTRIES_PER_CHUNK
    ensures forall v, x :: EarlierRecord(RecoverFrom(g, s, t).chain, t, v, x) <==> EarlierRecord(s.chain, t, v, x)
  {
    var after := RecoverFrom(g, s, t).chain;
    forall v, x ensures EarlierRecord(after, t, v, x) <==> EarlierRecord(s.chain, t, v, x) {
      SlotsStay(g, s, t, v);
      if HasSlot(s.chain, v) && Before(v, t) {
        EarlierSlotsStay(g, s, t, v);
      }
    }
  }

  /** The record of slot `u` is in the recovered chain exactly when the ones before it admit it. */
  ghost predicate Decided(g: Config, free: set<nat>, after: Chain, u: Slot, r: Record)
    requires g.shards > 0
  {
    HasSlot(after, u) && (EntryAt(after, u).Some? <==> Admits(g, free, after, u, r))
  }

  lemma AcceptedStays(g: Config, s: Shard, u: Slot, r: Record)
    requires g.shards > 0 && FullSized(s.chain) && HasSlot(s.chain, u) && EntryAt(s.chain, u) == Some(r)
    ensures
      var after := RecoverFrom(g, s, u).chain;
      HasSlot(after, u) && (EntryAt(after, u).Some? <==> Accept(g, s, r).Some?)
  {
    SlotOrder(u, u);
    EarlierSlotsStay(g, RecoverSlot(g, s, u), NextSlot(u), u);
  }

  lemma DecidedAt(g: Config, loaded: Shard, s: Shard, u: Slot, r: Record)
    requires ValidConfig(g) && Scanned(g, loaded, s, u) && HasSlot(s.chain, u) && EntryAt(s.chain, u) == Some(r)
    ensures Decided(g, loaded.free, RecoverFrom(g, s, u).chain, u, r)
  {
    AcceptIff(g, loaded, s, u, r);
    AcceptedStays(g, s, u, r);
    EarlierStay(g, s, u);
    SameAdmits(g, loaded.free, RecoverFrom(g, s, u).chain, s.chain, u, r);
  }

  lemma {:induction false} ScanDecides(g: Config, loaded: Shard, s: Shard, t: Slot, u: Slot, r: Record)
    requires ValidConfig(g) && Scanned(g, loaded, s, t) && t.entry < ENTRIES_PER_CHUNK && !Before(u, t)
    requires HasSlot(s.chain, u) && EntryAt(s.chain, u) == Some(r)
    ensures Decided(g, loaded.free, RecoverFrom(g, s, t).chain, u, r)
    decreases |s.chain| - t.chunk, ENTRIES_PER_CHUNK - t.entry
  {
    if t == u {
      DecidedAt(g, loaded, s, u, r);
    } else {
      var m := RecoverSlot(g, s, t);
      ScanStep(g, loaded, s, t);
      NextHasSlot(g, s, t, u);
      ScanDecides(g, loaded, m, NextSlot(t), u, r);
    }
  }

  lemma NextHasSlot(g: Config, s: Shard, t: Slot, u: Slot)
    requires g.shards > 0 && FullSized(s.chain) && HasSlot(s.chain, t) && HasSlot(s.chain, u) && !Before(u, t) && t != u
    ensures
      var m := RecoverSlot(g, s, t);
      HasSlot(m.chain, u) && EntryAt(m.chain, u) == EntryAt(s.chain, u) && |m.chain| == |s.chain|
    ensures !Before(u, NextSlot(t)) && NextSlot(t).entry < ENTRIES_PER_CHUNK
  {
    SlotOrder(t, u);
  }

  /**
   For any image: a loaded record survives recovery exactly when it belongs to the shard and the records that
   survive in earlier slots leave it its key, and leave it its chunks or share them.
   */
  lemma SurvivesIff(g: Config, disk: Disk, u: Slot, r: Record)
    requires ValidConfig(g) && ValidDisk(disk) && HasSlot(Loaded(g, disk).chain, u)
    requires EntryAt(Loaded(g, disk).chain, u) == Some(r)
    ensures Decided(g, Loaded(g, disk).free, Recover(g, disk).chain, u, r)
  {
    var loaded := Loaded(g, disk);
    LoadedKeepsInv(g, disk);
    LoadedChain(g, disk);
    ScanDecides(g, loaded, loaded, Slot(0, 0), u, r);
  }

  // ---------------------------------------------------------------- live records

  /** The record in slot `v` is the indexed one of its key. */
  ghost predicate LiveAt(s: Shard, v: Slot, x: Record) {
    x.key in s.index && s.index[x.key].slot == v && RecordOf(x.key, s.index[x.key]) == x
  }

  /** A surviving record before `t` that memory no longer has. */
  ghost predicate Stale(s: Shard, chain: Chain, t: Slot, v: Slot, x: Record) {
    EarlierRecord(chain, t, v, x) && !LiveAt(s, v, x)
  }

  /** Some chunk is in both records. */
  ghost predicate Overlap(x: Record, r: Record) {
    exists c: nat :: Covers(x, c) && Covers(r, c)
  }

  /** No stale record before `t` has the key of `r`, and none overlaps it unless its chunks are shared. */
  ghost predicate Unharmed(s: Shard, chain: Chain, t: Slot, r: Record) {
    && (forall v, x :: Stale(s, chain, t, v, x) ==> x.key != r.key)
    && (Shared(chain, t, r) || forall v, x :: Stale(s, chain, t, v, x) ==> !Overlap(x, r))
  }

  lemma LiveIsHeld(g: Config, s: Shard, w: map<nat, Range>, v: Slot, x: Record, c: nat)
    requires ValidConfig(g) && Indexed(g, s, EndSlot(s)) && LiveAt(s, v, x) && Covers(x, c)
    ensures Owns(s, w, Payload(First(x)), c) && Routed(g, x.key)
  {
    assert Placed(g, s, EndSlot(s), x.key, s.index[x.key]);
    LastCovers(x, s.held[First(x)].end);
  }

  /** Live records that overlap are in one reservation, and have the same extent. */
  lemma LiveOverlap(g: Config, s: Shard, w: map<nat, Range>, v: Slot, x: Record, u: Slot, r: Record)
    requires ValidConfig(g) && OneOwner(s, w, g.lo, g.hi) && Indexed(g, s, EndSlot(s)) && Tight(s)
    requires LiveAt(s, v, x) && LiveAt(s, u, r) && Overlap(x, r)
    ensures First(x) == First(r) && Last(x) == Last(r)
  {
    var c: nat :| Covers(x, c) && Covers(r, c);
    LiveIsHeld(g, s, w, v, x, c);
    LiveIsHeld(g, s, w, u, r, c);
    assert TightEntry(s, s.index[x.key]) && TightEntry(s, s.index[r.key]);
  }

  /** The chunks of a live record are free of metadata on disk as they are in memory. */
  lemma LiveIsLoadedFree(g: Config, s: Shard, w: map<nat, Range>, loaded: Chain, u: Slot, r: Record, c: nat)
    requires ValidConfig(g) && OneOwner(s, w, g.lo, g.hi) && Indexed(g, s, EndSlot(s))
    requires LiveAt(s, u, r) && Covers(r, c)
    requires |loaded| <= |s.chain| && forall i :: 0 <= i < |loaded| ==> loaded[i].number == s.chain[i].number
    ensures c in Interval(g.lo, g.hi) - Numbers(loaded)
  {
    LiveIsHeld(g, s, w, u, r, c);
    assert Owned(s, w, c);
    forall i | 0 <= i < |loaded| ensures loaded[i].number != c {
      assert Owns(s, w, MetadataChunk(i), s.chain[i].number);
    }
  }

  lemma NewKeyIff(s: Shard, after: Chain, u: Slot, r: Record)
    requires LiveAt(s, u, r)
    ensures NewKey(after, u, r.key) <==> forall v, x :: Stale(s, after, u, v, x) ==> x.key != r.key
  {
    if forall v, x :: Stale(s, after, u, v, x) ==> x.key != r.key {
      forall v, x | EarlierRecord(after, u, v, x) ensures x.key != r.key {
        assert Stale(s, after, u, v, x) || LiveAt(s, v, x);
      }
    }
  }

  lemma UnharmedAdmits(g: Config, s: Shard, w: map<nat, Range>, free: set<nat>, after: Chain, u: Slot, r: Record)
    requires ValidConfig(g) && OneOwner(s, w, g.lo, g.hi) && Indexed(g, s, EndSlot(s)) && Tight(s) && LiveAt(s, u, r)
    requires FreeFor(free, r)
    ensures Admits(g, free, after, u, r) <==> Unharmed(s, after, u, r)
  {
    LastCovers(r, 0);
    LiveIsHeld(g, s, w, u, r, First(r));
    NewKeyIff(s, after, u, r);
    if !Shared(after, u, r) {
      forall v, x | EarlierRecord(after, u, v, x) && LiveAt(s, v, x) ensures !Overlap(x, r) {
        if Overlap(x, r) {
          LiveOverlap(g, s, w, v, x, u, r);
        }
      }
      OverlapIff(s, after, u, r);
    }
  }

  lemma OverlapIff(s: Shard, after: Chain, u: Slot, r: Record)
    requires forall v, x :: EarlierRecord(after, u, v, x) && LiveAt(s, v, x) ==> !Overlap(x, r)
    ensures Unclaimed(after, u, r) <==> forall v, x :: Stale(s, after, u, v, x) ==> !Overlap(x, r)
  {
    if forall v, x :: Stale(s, after, u, v, x) ==> !Overlap(x, r) {
      forall v, x, c: nat | EarlierRecord(after, u, v, x) && Covers(r, c) ensures !Covers(x, c) {
        assert Stale(s, after, u, v, x) || LiveAt(s, v, x);
        assert !Overlap(x, r);
      }
    }
  }

  /**
   A live record that is on disk survives recovery exactly when no stale record that survives in an earlier slot
   has its key, or overlaps its chunks without an earlier record that shares them. Live records never push each
   other out.
   */
  lemma LiveSurvivesIff(g: Config, s: Shard, w: map<nat, Range>, disk: Disk, u: Slot, r: Record)
    requires ValidConfig(g) && Inv(g, s, w) && Tight(s) && LiveAt(s, u, r) && ValidDisk(disk)
    requires
      var loaded := Loaded(g, disk).chain;
      && |loaded| <= |s.chain| && (forall i :: 0 <= i < |loaded| ==> loaded[i].number == s.chain[i].number)
      && HasSlot(loaded, u) && EntryAt(loaded, u) == Some(r)
    ensures HasSlot(Recover(g, disk).chain, u)
    ensures EntryAt(Recover(g, disk).chain, u).Some? <==> Unharmed(s, Recover(g, disk).chain, u, r)
  {
    var loaded := Loaded(g, disk);
    SurvivesIff(g, disk, u, r);
    forall c: nat | Covers(r, c) ensures c in loaded.free {
      LiveIsLoadedFree(g, s, w, loaded.chain, u, r, c);
      LoadedNumbers(g, disk);
    }
    UnharmedAdmits(g, s, w, loaded.free, Recover(g, disk).chain, u, r);
  }

  lemma LoadedNumbers(g: Config, disk: Disk)
    requires ValidDisk(disk)
    ensures Loaded(g, disk).free == Interval(g.lo, g.hi) - Numbers(Loaded(g, disk).chain)
  {
    var chain := Load(disk, Interval(g.lo, g.hi), Address(g.lo)).0;
    var repaired := LinkLast(chain, NO_CHUNK);
    forall c ensures c in Numbers(chain) <==> c in Numbers(repaired) {
      if c in Numbers(chain) {
        var i :| 0 <= i < |chain| && chain[i].number == c;
        assert repaired[i].number == c;
      }
      if c in Numbers(repaired) {
        var i :| 0 <= i < |repaired| && repaired[i].number == c;
        assert chain[i].number == c;
      }
    }
  }

  /** Recovery adds no records: each survivor is where it was loaded. */
  lemma SurvivorWasLoaded(g: Config, disk: Disk, v: Slot)
    requires ValidConfig(g) && ValidDisk(disk) && HasSlot(Recover(g, disk).chain, v)
    requires EntryAt(Recover(g, disk).chain, v).Some?
    ensures HasSlot(Loaded(g, disk).chain, v) && EntryAt(Loaded(g, disk).chain, v) == EntryAt(Recover(g, disk).chain, v)
  {
    CrashSafety.RecoverClears(g, disk);
    var chain := Load(disk, Interval(g.lo, g.hi), Address(g.lo)).0;
    assert CrashSafety.ClearsChunk(chain[v.chunk], Recover(g, disk).chain[v.chunk]);
  }

  /** On the image alone: without a stale record in an earlier slot that has its key or overlaps it, it survives. */
  lemma UndisturbedSurvives(g: Config, s: Shard, w: map<nat, Range>, disk: Disk, u: Slot, r: Record)
    requires ValidConfig(g) && Inv(g, s, w) && Tight(s) && LiveAt(s, u, r) && ValidDisk(disk)
    requires
      var loaded := Loaded(g, disk).chain;
      && |loaded| <= |s.chain| && (forall i :: 0 <= i < |loaded| ==> loaded[i].number == s.chain[i].number)
      && HasSlot(loaded, u) && EntryAt(loaded, u) == Some(r)
      && forall v, x :: Stale(s, loaded, u, v, x) ==> x.key != r.key && !Overlap(x, r)
    ensures HasSlot(Recover(g, disk).chain, u) && EntryAt(Recover(g, disk).chain, u) == Some(r)
  {
    var loaded, after := Loaded(g, disk).chain, Recover(g, disk).chain;
    forall v, x | Stale(s, after, u, v, x) ensures x.key != r.key && !Overlap(x, r) {
      SurvivorWasLoaded(g, disk, v);
      assert Stale(s, loaded, u, v, x);
    }
    LiveSurvivesIff(g, s, w, disk, u, r);
    SurvivorWasLoaded(g, disk, u);
  }

  // ---------------------------------------------------------------- records on disk

  /** Record `k` of page `p`, an entry page. */
  ghost predicate HasRecord(pages: seq<Page>, p: nat, k: nat, r: Record) {
    && p < |pages| && p < ENTRY_PAGES_PER_CHUNK && k < ENTRIES_PER_PAGE
    && pages[p].EntryPage? && k < |pages[p].entries| && pages[p].entries[k] == Some(r)
  }

  /** The link pages on disk lead along the first `n` links of the chain. */
  ghost predicate LinksTo(disk: Disk, chain: Chain, n: nat)
    requires ValidDisk(disk) && n < |chain|
  {
    forall j :: 0 <= j < n ==>
      chain[j].number in disk && LinkOf(disk[chain[j].number]) == Some(Address(chain[j + 1].number))
  }

  /** The pages of the disk lead to slot `u` of the chain, and hold the record there. */
  ghost predicate OnPages(disk: Disk, chain: Chain, u: Slot, p: nat, k: nat, r: Record)
    requires ValidDisk(disk)
  {
    && u.chunk < |chain| && u.entry == p * ENTRIES_PER_PAGE + k && LinksTo(disk, chain, u.chunk)
    && chain[u.chunk].number in disk && HasRecord(disk[chain[u.chunk].number], p, k, r)
  }

  lemma {:induction false} LinksLoad(g: Config, s: Shard, w: map<nat, Range>, disk: Disk, free: set<nat>,
                                     i: nat, n: nat)
    requires ValidConfig(g) && ValidDisk(disk) && OneOwner(s, w, g.lo, g.hi) && i <= n < |s.chain|
    requires forall j :: i <= j < |s.chain| ==> s.chain[j].number in free
    requires LinksTo(disk, s.chain, n) && s.chain[n].number in disk && !AllZero(disk[s.chain[n].number])
    ensures
      var chain := Load(disk, free, Address(s.chain[i].number)).0;
      n - i < |chain| && chain[n - i].number == s.chain[n].number
    decreases n - i
  {
    var c := s.chain[i].number;
    ChainNumber(g, s, w, i);
    assert i < n ==> c in disk && LinkOf(disk[c]) == Some(Address(s.chain[i + 1].number));
    assert i < n ==> disk[c][ENTRY_PAGES_PER_CHUNK] != Zero;
    assert Readable(disk, free, Address(c));
    if i < n {
      LinksLoad(g, s, w, disk, free - {c}, i + 1, n);
      var rest := Load(disk, free - {c}, Address(s.chain[i + 1].number)).0;
      assert Load(disk, free, Address(c)).0[n - i] == rest[n - i - 1];
    }
  }

  /** What the pages of the disk hold is what recovery loads. */
  lemma OnPagesLoads(g: Config, s: Shard, w: map<nat, Range>, disk: Disk, u: Slot, p: nat, k: nat, r: Record)
    requires ValidConfig(g) && Inv(g, s, w) && ValidDisk(disk) && OnPages(disk, s.chain, u, p, k, r)
    ensures HasSlot(Loaded(g, disk).chain, u) && EntryAt(Loaded(g, disk).chain, u) == Some(r)
  {
    var all := Interval(g.lo, g.hi);
    forall j | 0 <= j < |s.chain| ensures s.chain[j].number in all {
      ChainNumber(g, s, w, j);
    }
    assert disk[s.chain[u.chunk].number][p] != Zero;
    LinksLoad(g, s, w, disk, all, 0, u.chunk);
    LoadedSlots(g, disk, u.chunk, p, k);
  }

  /**
   So after every run from a cleared file without a reopen, wherever the run stops, for a live record that is on a
   page of the disk to which the link pages lead, whatever the other pages hold.
   */
  lemma StoppedRunSurvivesIff(g: Config, disk: Disk, actions: seq<Action>, z: System, u: Slot, p: nat, k: nat,
                              r: Record)
    requires ValidConfig(g) && Runs.Cleared(g, disk)
    requires ShardOk(g, Runs.Opened(g, disk)) && Runs.Reaches(g, Runs.Opened(g, disk), actions, z)
    requires forall i :: 0 <= i < |actions| ==> !actions[i].Reopen?
    requires ValidDisk(z.disk) && LiveAt(z.shard, u, r) && OnPages(z.disk, z.shard.chain, u, p, k, r)
    ensures HasSlot(Recover(g, z.disk).chain, u)
    ensures EntryAt(Recover(g, z.disk).chain, u).Some? <==> Unharmed(z.shard, Recover(g, z.disk).chain, u, r)
  {
    assert Tight(z.shard) by {
      Runs.ClearedIsEmpty(g, disk);
      Runs.RunTight(g, Runs.Opened(g, disk), actions, z);
    }
    assert Inv(g, z.shard, z.flights) by {
      Runs.ShardInvariant(g, Runs.Opened(g, disk), actions, z);
    }
    OnPagesLoads(g, z.shard, z.flights, z.disk, u, p, k, r);
    FollowedNumbers(g, disk, actions, z);
    LiveSurvivesIff(g, z.shard, z.flights, z.disk, u, r);
  }

  lemma FollowedNumbers(g: Config, disk: Disk, actions: seq<Action>, z: System)
    requires ValidConfig(g) && Runs.Cleared(g, disk)
    requires ShardOk(g, Runs.Opened(g, disk)) && Runs.Reaches(g, Runs.Opened(g, disk), actions, z) && ValidDisk(z.disk)
    ensures
      var loaded := Loaded(g, z.disk).chain;
      |loaded| <= |z.shard.chain| && forall i :: 0 <= i < |loaded| ==> loaded[i].number == z.shard.chain[i].number
  {
    Runs.CrashSafeChain(g, disk, actions, z);
    var loaded, visited := Loaded(g, z.disk).chain, Runs.Visited(g, z.disk);
    forall i | 0 <= i < |loaded| ensures loaded[i].number == z.shard.chain[i].number {
      assert loaded[i].number == visited[i].number;
    }
  }
}
