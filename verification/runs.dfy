/** What holds after every run of a shard on its disk, from any image or from a cleared file. */
module Runs {
  import opened Layout
  import opened Metadata
  import opened ShardModel
  import opened Publication
  import opened Recovery
  import opened RoundTrip
  import opened CrashModel
  import opened CrashSafety

  /** The shard as `open` leaves it. */
  ghost function Opened(g: Config, disk: Disk): System
    requires ValidConfig(g) && ValidDisk(disk)
  {
    System(Recover(g, disk), map[], disk, [], {})
  }

  /** Every chunk reads, and the shard's first chunk is zero. */
  ghost predicate Cleared(g: Config, disk: Disk) {
    && ValidDisk(disk) && Interval(g.lo, g.hi) <= disk.Keys
    && g.lo in disk && AllZero(disk[g.lo])
  }

  /** `z` is reached from `y` by the actions, each enabled when it runs. */
  ghost predicate Reaches(g: Config, y: System, actions: seq<Action>, z: System)
    requires ValidConfig(g) && ShardOk(g, y)
    decreases |actions|
  {
    if actions == [] then z == y
    else Enabled(g, y, actions[0]) && ReachesNext(g, y, actions, z)
  }

  ghost predicate ReachesNext(g: Config, y: System, actions: seq<Action>, z: System)
    requires ValidConfig(g) && ShardOk(g, y) && actions != [] && Enabled(g, y, actions[0])
    decreases |actions|, 0
  {
    ApplyKeepsShard(g, y, actions[0]);
    Reaches(g, Apply(g, y, actions[0]), actions[1..], z)
  }

  lemma OpenedOk(g: Config, disk: Disk)
    requires ValidConfig(g) && ValidDisk(disk)
    ensures ShardOk(g, Opened(g, disk))
  {
    RecoverInv(g, disk);
  }

  /** From any state with the shard invariant, such as the one that opening any image gives, every run keeps it. */
  lemma {:induction false} ShardInvariant(g: Config, y: System, actions: seq<Action>, z: System)
    requires ValidConfig(g) && ShardOk(g, y) && Reaches(g, y, actions, z)
    ensures ShardOk(g, z)
    decreases |actions|
  {
    if actions != [] {
      ApplyKeepsShard(g, y, actions[0]);
      ShardInvariant(g, Apply(g, y, actions[0]), actions[1..], z);
    }
  }

  lemma {:induction false} RunsCompose(g: Config, y: System, a: seq<Action>, m: System, b: seq<Action>, z: System)
    requires ValidConfig(g) && ShardOk(g, y) && Reaches(g, y, a, m) && ShardOk(g, m) && Reaches(g, m, b, z)
    ensures Reaches(g, y, a + b, z)
    decreases |a|
  {
    if a == [] {
      assert a + b == b;
    } else {
      ApplyKeepsShard(g, y, a[0]);
      assert (a + b)[0] == a[0] && (a + b)[1..] == a[1..] + b;
      RunsCompose(g, Apply(g, y, a[0]), a[1..], m, b, z);
    }
  }

  lemma ClearedIsEmpty(g: Config, disk: Disk)
    requires ValidConfig(g) && Cleared(g, disk)
    ensures Recover(g, disk).chain == [] && Recover(g, disk).index == map[]
  {
    assert !Readable(disk, Interval(g.lo, g.hi), Address(g.lo));
  }

  lemma ClearedSafe(g: Config, disk: Disk)
    requires ValidConfig(g) && Cleared(g, disk)
    ensures Safe(g, Opened(g, disk))
  {
    OpenedOk(g, disk);
    ClearedIsEmpty(g, disk);
  }

  lemma {:induction false} RunSafe(g: Config, y: System, actions: seq<Action>, z: System)
    requires ValidConfig(g) && Safe(g, y) && Reaches(g, y, actions, z)
    ensures Safe(g, z)
    decreases |actions|
  {
    if actions != [] {
      ApplySafe(g, y, actions[0]);
      RunSafe(g, Apply(g, y, actions[0]), actions[1..], z);
    }
  }

  /** The records a list of actions publishes. */
  ghost predicate PublishedBy(g: Config, y: System, actions: seq<Action>, r: Record)
    requires ValidConfig(g) && ShardOk(g, y)
    decreases |actions|
  {
    && actions != [] && Enabled(g, y, actions[0])
    && (NewlyIndexed(y.shard, actions[0], Apply(g, y, actions[0]).shard, r) || PublishedLater(g, y, actions, r))
  }

  /** The action is a publication that newly indexed the record. */
  ghost predicate NewlyIndexed(s: Shard, a: Action, after: Shard, r: Record) {
    a.PublishBatch? && r in NewRecords(s.index, after.index)
  }

  ghost predicate PublishedLater(g: Config, y: System, actions: seq<Action>, r: Record)
    requires ValidConfig(g) && ShardOk(g, y) && actions != [] && Enabled(g, y, actions[0])
    decreases |actions|, 0
  {
    ApplyKeepsShard(g, y, actions[0]);
    PublishedBy(g, Apply(g, y, actions[0]), actions[1..], r)
  }

  lemma {:induction false} StoredWasPublished(g: Config, y: System, actions: seq<Action>, z: System, r: Record)
    requires ValidConfig(g) && ShardOk(g, y) && Reaches(g, y, actions, z) && r in z.stored
    ensures r in y.stored || PublishedBy(g, y, actions, r)
    decreases |actions|
  {
    if actions != [] {
      ApplyKeepsShard(g, y, actions[0]);
      StoredWasPublished(g, Apply(g, y, actions[0]), actions[1..], z, r);
    }
  }

  /** The chunks that recovery would visit now. */
  ghost function Visited(g: Config, disk: Disk): Chain
    requires ValidDisk(disk)
  {
    Load(disk, Interval(g.lo, g.hi), Address(g.lo)).0
  }

  /**
   From a cleared file, whatever ran, failed, was torn or was reopened since: following the links on
   disk visits a prefix of the chain in memory, so never a payload chunk or a stale chunk.
   */
  lemma CrashSafeChain(g: Config, disk: Disk, actions: seq<Action>, z: System)
    requires ValidConfig(g) && Cleared(g, disk)
    requires ShardOk(g, Opened(g, disk)) && Reaches(g, Opened(g, disk), actions, z)
    ensures ValidDisk(z.disk) && |Visited(g, z.disk)| <= |z.shard.chain|
    ensures forall i :: 0 <= i < |Visited(g, z.disk)| ==> Visited(g, z.disk)[i].number == z.shard.chain[i].number
  {
    ClearedSafe(g, disk);
    RunSafe(g, Opened(g, disk), actions, z);
    LinksFollowChain(g, z);
    assert Found(z.shard.chain, z.disk, 0, Visited(g, z.disk));
  }

  /** From a cleared file, every record recovery can find was published earlier in the run. */
  lemma RecoveredWasPublished(g: Config, disk: Disk, actions: seq<Action>, z: System, i: nat, j: nat)
    requires ValidConfig(g) && Cleared(g, disk)
    requires ShardOk(g, Opened(g, disk)) && Reaches(g, Opened(g, disk), actions, z)
    requires ValidDisk(z.disk) && i < |Visited(g, z.disk)| && j < |Visited(g, z.disk)[i].entries|
    requires Visited(g, z.disk)[i].entries[j].Some?
    ensures PublishedBy(g, Opened(g, disk), actions, Visited(g, z.disk)[i].entries[j].value)
  {
    ClearedSafe(g, disk);
    RunSafe(g, Opened(g, disk), actions, z);
    LinksFollowChain(g, z);
    FoundStored(g, z, Visited(g, z.disk), i);
    StoredWasPublished(g, Opened(g, disk), actions, z, Visited(g, z.disk)[i].entries[j].value);
  }

  // ---------------------------------------------------------------- address arithmetic

  /** The payload lies in the shard's chunks. */
  ghost predicate InShard(g: Config, r: Record) {
    CHUNK_BYTES <= r.address && r.address + PayloadDiskBytes(r.length) <= Address(g.hi)
  }

  lemma NewRecordsInShard(g: Config, s: Shard, w: map<nat, Range>, before: map<nat, Entry>)
    requires ValidConfig(g) && OneOwner(s, w, g.lo, g.hi) && Indexed(g, s, EndSlot(s))
    ensures forall r :: r in NewRecords(before, s.index) ==> InShard(g, r)
  {
    forall k | k in s.index ensures InShard(g, RecordOf(k, s.index[k])) {
      var e := s.index[k];
      assert Placed(g, s, EndSlot(s), k, e);
      HoldInShard(g, s, w, e.address / CHUNK_BYTES, e.address, e.length);
    }
  }

  lemma {:induction false} StoredInShard(g: Config, y: System, actions: seq<Action>, z: System)
    requires ValidConfig(g) && ShardOk(g, y) && Reaches(g, y, actions, z)
    requires forall r :: r in y.stored ==> InShard(g, r)
    ensures forall r :: r in z.stored ==> InShard(g, r)
    decreases |actions|
  {
    if actions != [] {
      var m := Apply(g, y, actions[0]);
      ApplyKeepsShard(g, y, actions[0]);
      NewRecordsInShard(g, m.shard, m.flights, y.shard.index);
      StoredInShard(g, m, actions[1..], z);
    }
  }

  /**
   From a cleared file, whatever stale chunks and payload pages hold: the records that recovery reads
   after any run have ends that fit in a u64, so its address arithmetic never overflows.
   */
  lemma RecoveryNeverOverflows(g: Config, disk: Disk, actions: seq<Action>, z: System)
    requires ValidConfig(g) && Cleared(g, disk)
    requires ShardOk(g, Opened(g, disk)) && Reaches(g, Opened(g, disk), actions, z)
    ensures ValidDisk(z.disk) && RepresentableChain(Loaded(g, z.disk).chain)
  {
    ClearedSafe(g, disk);
    RunSafe(g, Opened(g, disk), actions, z);
    LinksFollowChain(g, z);
    StoredInShard(g, Opened(g, disk), actions, z);
    var loaded, visited := Loaded(g, z.disk).chain, Visited(g, z.disk);
    forall t | HasSlot(loaded, t) ensures RepresentableEntry(EntryAt(loaded, t)) {
      FoundStored(g, z, visited, t.chunk);
      assert loaded[t.chunk].entries == visited[t.chunk].entries;
    }
  }

  // ---------------------------------------------------------------- extents of the reservations

  /** Removal takes exactly one key out of the index, and keeps the extents of the remaining holds. */
  lemma RemoveIndex(s: Shard, key: nat)
    requires key in s.index ==> Removable(s, key)
    ensures RemoveEntry(s, key).index == s.index - {key}
    ensures forall h :: h in RemoveEntry(s, key).held ==>
      h in s.held && RemoveEntry(s, key).held[h].end == s.held[h].end
  {
  }

  ghost predicate Quiet(a: Action) {
    !a.WritePayloadPage? && !a.PersistPage? && !a.PublishBatch? && !a.RemoveKey? && !a.Reopen?
  }

  /** Actions that touch neither the index, the reservations nor the disk. */
  lemma QuietFrame(g: Config, y: System, a: Action)
    requires ValidConfig(g) && FullSized(y.shard.chain) && Enabled(g, y, a) && Quiet(a)
    ensures var z := Apply(g, y, a);
      z.disk == y.disk && z.shard.index == y.shard.index && z.shard.held == y.shard.held
  {
  }

  lemma BatchTight(g: Config, s: Shard, after: Shard, r: Range, batch: seq<Buffered>)
    requires ValidConfig(g) && Tight(s) && Outcome(s.index, after, r, batch)
    requires forall i :: 0 <= i < |batch| ==> Fits(g, r, batch[i])
    requires forall h :: h in s.held ==> h in after.held && after.held[h].end == s.held[h].end
    ensures Tight(after)
  {
    forall k | k in after.index ensures TightEntry(after, after.index[k]) {
      if k in s.index {
        assert TightEntry(s, s.index[k]);
      } else {
        NewTight(g, s.index, after, r, batch, k);
      }
    }
  }

  lemma NewTight(g: Config, before: map<nat, Entry>, after: Shard, r: Range, batch: seq<Buffered>, k: nat)
    requires ValidConfig(g) && Outcome(before, after, r, batch) && k in after.index && k !in before
    requires forall i :: 0 <= i < |batch| ==> Fits(g, r, batch[i])
    ensures TightEntry(after, after.index[k])
  {
    var b := batch[NewestOf(batch, k)];
    assert Publishes(after.index, r, b) && Fits(g, r, b);
    assert k in KeysOf(batch) - before.Keys;
  }

  lemma FrameTight(s: Shard, after: Shard)
    requires Tight(s) && after.index == s.index && after.held == s.held
    ensures Tight(after)
  {
    forall k | k in after.index ensures TightEntry(after, after.index[k]) {
      assert TightEntry(s, s.index[k]);
    }
  }

  lemma PublishTight(g: Config, s: Shard, w: map<nat, Range>, id: nat, batch: seq<Buffered>)
    requires ValidConfig(g) && Inv(g, s, w) && Tight(s) && id in w && ValidBatch(g, w[id], batch)
    ensures Tight(Publish(s, w[id], batch))
  {
    if EnsureFreeSlots(s, |batch|).Some? {
      PublishOutcome(g, s, w, id, batch);
      PublishHolds(g, s, w, id, batch);
      BatchTight(g, s, Publish(s, w[id], batch), w[id], batch);
    } else {
      FrameTight(s, Publish(s, w[id], batch));
    }
  }

  lemma OtherHolds(before: map<nat, Hold>, held: map<nat, Hold>, after: map<nat, Hold>, start: nat)
    requires after - {start} == held - {start} && start !in before
    requires forall h :: h in before ==> h in held && held[h] == before[h]
    ensures forall h :: h in before ==> h in after && after[h].end == before[h].end
  {
    forall h | h in before ensures h in after && after[h].end == before[h].end {
      assert h in after - {start} && (after - {start})[h] == (held - {start})[h];
    }
  }

  lemma PublishHolds(g: Config, s: Shard, w: map<nat, Range>, id: nat, batch: seq<Buffered>)
    requires ValidConfig(g) && Inv(g, s, w) && id in w && ValidBatch(g, w[id], batch)
    requires EnsureFreeSlots(s, |batch|).Some?
    ensures forall h :: h in s.held ==>
      h in Publish(s, w[id], batch).held && Publish(s, w[id], batch).held[h].end == s.held[h].end
  {
    var r := w[id];
    var grown := EnsureFreeSlots(s, |batch|).value;
    PublishGrown(s, r, batch);
    HoldOwners(g, s, w, id, |batch|);
    var held := HoldChunks(grown, r, |batch|);
    PublishAllHolds(held, r, batch);
    var after := PublishAll(held, r, batch);
    OtherHolds(s.held, held.held, after.held, r.start);
  }

  lemma ShrinkTight(g: Config, s: Shard, after: Shard, key: nat)
    requires ValidConfig(g) && Tight(s) && after.index == s.index - {key} && Indexed(g, after, EndSlot(after))
    requires forall h :: h in after.held ==> h in s.held && after.held[h].end == s.held[h].end
    ensures Tight(after)
  {
    forall k | k in after.index ensures TightEntry(after, after.index[k]) {
      assert TightEntry(s, s.index[k]);
      assert Placed(g, after, EndSlot(after), k, after.index[k]);
    }
  }

  lemma RemoveTight(g: Config, s: Shard, w: map<nat, Range>, key: nat)
    requires ValidConfig(g) && Inv(g, s, w) && Tight(s)
    ensures Tight(RemoveEntry(s, key))
  {
    RemoveEntryKeepsInv(g, s, w, key);
    RemoveIndex(s, key);
    ShrinkTight(g, s, RemoveEntry(s, key), key);
  }

  lemma ApplyTight(g: Config, y: System, a: Action)
    requires ValidConfig(g) && ShardOk(g, y) && Tight(y.shard) && Enabled(g, y, a) && !a.Reopen?
    ensures Tight(Apply(g, y, a).shard)
  {
    if Quiet(a) {
      QuietFrame(g, y, a);
      FrameTight(y.shard, Apply(g, y, a).shard);
    } else {
      match a
      case WritePayloadPage(_, _, _) =>
      case PersistPage(_) =>
      case PublishBatch(id, batch) => PublishTight(g, y.shard, y.flights, id, batch);
      case RemoveKey(key) => RemoveTight(g, y.shard, y.flights, key);
    }
  }

  lemma {:induction false} RunTight(g: Config, y: System, actions: seq<Action>, z: System)
    requires ValidConfig(g) && ShardOk(g, y) && Tight(y.shard) && Reaches(g, y, actions, z)
    requires forall i :: 0 <= i < |actions| ==> !actions[i].Reopen?
    ensures Tight(z.shard)
    decreases |actions|
  {
    if actions != [] {
      ApplyKeepsShard(g, y, actions[0]);
      ApplyTight(g, y, actions[0]);
      RunTight(g, Apply(g, y, actions[0]), actions[1..], z);
    }
  }
}
