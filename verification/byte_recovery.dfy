/** What recovery from the bytes of the file gives back after a run: objects, and only objects that were written. */
module ByteRecovery {
  import opened Layout
  import opened Metadata
  import opened ShardModel
  import opened Publication
  import opened Recovery
  import opened RoundTrip
  import opened CrashModel
  import opened PageFormat
  import opened SmallEntries
  import opened DiskBytes
  import opened ByteFile
  import opened ByteRuns
  import CrashSafety
  import Durability
  import Runs

  // ---------------------------------------------------------------- every key of a run without reopens is published

  ghost predicate AllPublished(y: Store) {
    y.published.Keys == y.sys.shard.index.Keys
  }

  lemma FinishPublishes(y: Store, z: Store, r: Range, p: Payload)
    requires AllPublished(y)
    requires
      || NewestWins(y.sys.shard.index, z.sys.shard.index, r, p.entries)
      || z.sys.shard.index == y.sys.shard.index
    requires z.published == y.published + NewObjects(y.sys.shard.index, z.sys.shard.index, p)
    ensures AllPublished(z)
  {
    var added := NewObjects(y.sys.shard.index, z.sys.shard.index, p);
    forall k ensures k in z.published <==> k in z.sys.shard.index {
      assert k in added <==> k in z.sys.shard.index && k !in y.sys.shard.index && k in KeysOf(p.entries);
    }
  }

  lemma QuietPublishes(hash: Hash, g: Config, y: Store, s: Step, z: Store)
    requires ValidConfig(g) && Ready(hash, g, y, s) && !Indexes(ActionOf(hash, y, s)) && z == StepApply(hash, g, y, s)
    ensures z.published == y.published && z.sys.shard.index == y.sys.shard.index
  {
    IndexFrame(g, y.sys, ActionOf(hash, y, s));
  }

  lemma FinishStepPublishes(hash: Hash, g: Config, y: Store, id: nat, z: Store)
    requires ValidConfig(g) && Ready(hash, g, y, Finish(id)) && ShardOk(g, y.sys) && AllPublished(y)
    requires z == StepApply(hash, g, y, Finish(id))
    ensures AllPublished(z)
  {
    FinishEffect(hash, g, y, id);
    PublishIndex(g, y.sys.shard, y.sys.flights, id, y.writes[id].payload.entries);
    FinishPublishes(y, z, y.sys.flights[id], y.writes[id].payload);
  }

  lemma RemoveStepPublishes(hash: Hash, g: Config, y: Store, key: nat, z: Store)
    requires ValidConfig(g) && Ready(hash, g, y, Other(RemoveKey(key))) && ShardOk(g, y.sys) && AllPublished(y)
    requires z == StepApply(hash, g, y, Other(RemoveKey(key)))
    ensures AllPublished(z)
  {
    RemoveEffect(hash, g, y, key);
  }

  lemma StepPublishes(hash: Hash, g: Config, y: Store, s: Step, z: Store)
    requires ValidConfig(g) && Ready(hash, g, y, s) && ShardOk(g, y.sys) && AllPublished(y)
    requires s != Other(Reopen) && z == StepApply(hash, g, y, s)
    ensures AllPublished(z)
  {
    if !Indexes(ActionOf(hash, y, s)) {
      QuietPublishes(hash, g, y, s, z);
    } else if s.Finish? {
      FinishStepPublishes(hash, g, y, s.id, z);
    } else {
      RemoveStepPublishes(hash, g, y, s.action.key, z);
    }
  }

  lemma {:induction false} RunPublishes(hash: Hash, g: Config, y: Store, steps: seq<Step>, z: Store)
    requires ValidConfig(g) && StoreOk(hash, g, y) && ReachesStore(hash, g, y, steps, z) && AllPublished(y)
    requires forall i :: 0 <= i < |steps| ==> steps[i] != Other(Reopen)
    ensures AllPublished(z)
    decreases |steps|
  {
    if steps != [] {
      var m := StepApply(hash, g, y, steps[0]);
      StepPublishes(hash, g, y, steps[0], m);
      StepKeepsStore(hash, g, y, steps[0]);
      RunPublishes(hash, g, m, steps[1..], z);
    }
  }

  // ---------------------------------------------------------------- a clean reopen gives every object back

  lemma ClearedImage(hash: Hash, g: Config, file: ByteDisk)
    requires ValidConfig(g) && ClearedFile(g, file)
    ensures Runs.Cleared(g, Image(hash, file))
    ensures OpenedStore(hash, g, file).sys.shard.chain == [] && OpenedStore(hash, g, file).sys.shard.index == map[]
  {
    ZeroPageMeans(hash);
    Runs.ClearedIsEmpty(g, Image(hash, file));
  }

  ghost predicate Forgets(s: Step) {
    s == Other(Reopen) || s == Other(FailRound)
  }

  lemma SettledRun(hash: Hash, g: Config, file: ByteDisk, steps: seq<Step>, z: Store)
    requires ValidConfig(g) && ClearedFile(g, file) && StoreOk(hash, g, OpenedStore(hash, g, file))
    requires ReachesStore(hash, g, OpenedStore(hash, g, file), steps, z)
    requires forall i :: 0 <= i < |steps| ==> !Forgets(steps[i])
    requires z.sys.flights == map[] && z.sys.shard.dirty == {} && z.sys.pending == []
    ensures ValidDisk(z.sys.disk) && Recover(g, z.sys.disk) == z.sys.shard
  {
    var y := OpenedStore(hash, g, file);
    ClearedImage(hash, g, file);
    var actions := RunOfPages(hash, g, y, steps, z);
    forall i | 0 <= i < |actions| ensures !Durability.Forgets(actions[i]) {
      assert SameFault(actions[i], steps[i]) && !Forgets(steps[i]);
    }
    Durability.CleanReopen(g, Image(hash, file), actions, z.sys);
  }

  /**
   From a file with a zero first chunk, after any run without a reopen or a failed round, with no write in flight,
   no page marked and no round under way: opening the file as it is gives back exactly the keys that were indexed,
   and at the address of each the file has the bytes, and its record the checksum, of the newest object that a
   write of the run carried.
   */
  lemma ReopenGivesObjects(hash: Hash, g: Config, file: ByteDisk, steps: seq<Step>, z: Store, k: nat)
    requires ValidConfig(g) && ClearedFile(g, file) && StoreOk(hash, g, OpenedStore(hash, g, file))
    requires ReachesStore(hash, g, OpenedStore(hash, g, file), steps, z)
    requires forall i :: 0 <= i < |steps| ==> !Forgets(steps[i])
    requires z.writes == map[] && z.sys.shard.dirty == {} && z.sys.pending == []
    ensures ValidBytes(z.file) && OpenedStore(hash, g, z.file).sys.shard == z.sys.shard
    ensures k in z.sys.shard.index ==>
      && k in z.published && Carried(steps, z.published[k])
      && ObjectAt(z.file, z.published[k], k, OpenedStore(hash, g, z.file).sys.shard.index[k])
  {
    var y := OpenedStore(hash, g, file);
    assert StoreOk(hash, g, z) by {
      RunKeepsStore(hash, g, y, steps, z);
    }
    assert z.sys.flights == map[] by {
      assert z.sys.flights.Keys == {};
    }
    SettledRun(hash, g, file, steps, z);
    if k in z.sys.shard.index {
      ClearedImage(hash, g, file);
      RunPublishes(hash, g, y, steps, z);
      PayloadIsolation(hash, g, file, steps, z, k);
    }
  }

  // ---------------------------------------------------------------- recovered records stand for written objects

  /** The record has the key, length and checksum of the object. */
  ghost predicate StandsFor(r: Record, o: Object) {
    r.key == o.key && r.length == |o.bytes| && r.checksum == o.checksum
  }

  ghost predicate Vouched(r: Record, objects: seq<Object>) {
    exists i :: 0 <= i < |objects| && StandsFor(r, objects[i])
  }

  /** A write in flight carries an object that the record stands for. */
  ghost predicate InFlight(y: Store, r: Record) {
    exists id :: id in y.writes && Vouched(r, y.writes[id].payload.objects)
  }

  ghost predicate WrittenFor(steps: seq<Step>, r: Record) {
    exists i :: 0 <= i < |steps| && steps[i].Begin? && Vouched(r, steps[i].payload.objects)
  }

  /** A publication stores only records of the objects that its write carries. */
  lemma NewRecordVouched(g: Config, before: map<nat, Entry>, after: map<nat, Entry>, r: Range, p: Payload, x: Record)
    requires ValidConfig(g) && WellFormed(g, r, p) && x in NewRecords(before, after)
    requires NewestWins(before, after, r, p.entries) || after == before
    ensures Vouched(x, p.objects)
  {
    PayloadHolds(g, r, p);
    var k :| k in after && k !in before && x == RecordOf(k, after[k]);
    var i := NewestOf(p.entries, k);
    assert Publishes(after, r, p.entries[i]) && HoldsAt(p.bytes, p.entries[i], p.objects[i]);
    assert StandsFor(x, p.objects[i]);
  }

  lemma NewRecordInFlight(g: Config, s: Shard, w: map<nat, Range>, id: nat, p: Payload, x: Record)
    requires ValidConfig(g) && Inv(g, s, w) && id in w && WellFormed(g, w[id], p) && ValidBatch(g, w[id], p.entries)
    requires x in NewRecords(s.index, Publish(s, w[id], p.entries).index)
    ensures Vouched(x, p.objects)
  {
    PublishIndex(g, s, w, id, p.entries);
    NewRecordVouched(g, s.index, Publish(s, w[id], p.entries).index, w[id], p, x);
  }

  lemma FinishStores(hash: Hash, g: Config, y: Store, id: nat, x: Record)
    requires ValidConfig(g) && Ready(hash, g, y, Finish(id)) && ShardOk(g, y.sys) && Formed(g, y.sys.flights, y.writes)
    requires x in StepApply(hash, g, y, Finish(id)).sys.stored && x !in y.sys.stored
    ensures InFlight(y, x)
  {
    var p := y.writes[id].payload;
    var after := Publish(y.sys.shard, y.sys.flights[id], p.entries).index;
    assert x in NewRecords(y.sys.shard.index, after) by {
      FinishStored(hash, g, y, id);
    }
    NewRecordInFlight(g, y.sys.shard, y.sys.flights, id, p, x);
  }

  lemma FinishStored(hash: Hash, g: Config, y: Store, id: nat)
    requires ValidConfig(g) && Ready(hash, g, y, Finish(id))
    ensures
      var after := Publish(y.sys.shard, y.sys.flights[id], y.writes[id].payload.entries).index;
      StepApply(hash, g, y, Finish(id)).sys.stored == y.sys.stored + NewRecords(y.sys.shard.index, after)
  {
  }

  lemma StoredFrame(g: Config, y: System, a: Action)
    requires ValidConfig(g) && FullSized(y.shard.chain) && Enabled(g, y, a) && !a.PublishBatch?
    ensures Apply(g, y, a).stored == y.stored
  {
  }

  lemma StepStores(hash: Hash, g: Config, y: Store, s: Step, x: Record)
    requires ValidConfig(g) && Ready(hash, g, y, s) && ShardOk(g, y.sys) && Formed(g, y.sys.flights, y.writes)
    requires x in StepApply(hash, g, y, s).sys.stored
    ensures x in y.sys.stored || InFlight(y, x)
  {
    if s.Finish? {
      if x !in y.sys.stored {
        FinishStores(hash, g, y, s.id, x);
      }
    } else {
      StoredFrame(g, y.sys, ActionOf(hash, y, s));
    }
  }

  lemma StepInFlight(hash: Hash, g: Config, y: Store, s: Step, z: Store, x: Record)
    requires ValidConfig(g) && Ready(hash, g, y, s) && y.writes.Keys == y.sys.flights.Keys
    requires z == StepApply(hash, g, y, s)
    requires InFlight(z, x)
    ensures InFlight(y, x) || (s.Begin? && Vouched(x, s.payload.objects))
  {
    StepFollows(hash, g, y, s, z);
    var id :| id in z.writes && Vouched(x, z.writes[id].payload.objects);
    assert SameWrite(y, s, z, id);
  }

  lemma {:induction false} RunStores(hash: Hash, g: Config, y: Store, steps: seq<Step>, z: Store, x: Record)
    requires ValidConfig(g) && StoreOk(hash, g, y) && ReachesStore(hash, g, y, steps, z)
    requires x in z.sys.stored || InFlight(z, x)
    ensures x in y.sys.stored || InFlight(y, x) || WrittenFor(steps, x)
    decreases |steps|
  {
    if steps != [] {
      var m := StepApply(hash, g, y, steps[0]);
      StepKeepsStore(hash, g, y, steps[0]);
      RunStores(hash, g, m, steps[1..], z, x);
      if x in m.sys.stored {
        StepStores(hash, g, y, steps[0], x);
      } else if InFlight(m, x) {
        StepInFlight(hash, g, y, steps[0], m, x);
      } else {
        var i :| 0 <= i < |steps[1..]| && steps[1..][i].Begin? && Vouched(x, steps[1..][i].payload.objects);
        assert steps[i + 1] == steps[1..][i];
      }
    }
  }

  /**
   From a file with a zero first chunk, after every run with torn writes and reopens: each record that recovery
   can find in the bytes has the key, length and checksum of an object that a write of the run carried.
   */
  lemma RecoveredWasWritten(hash: Hash, g: Config, file: ByteDisk, steps: seq<Step>, z: Store, i: nat, j: nat)
    requires ValidConfig(g) && ClearedFile(g, file) && StoreOk(hash, g, OpenedStore(hash, g, file))
    requires ReachesStore(hash, g, OpenedStore(hash, g, file), steps, z) && ValidBytes(z.file)
    requires
      var visited := Runs.Visited(g, Image(hash, z.file));
      i < |visited| && j < |visited[i].entries| && visited[i].entries[j].Some?
    ensures WrittenFor(steps, Runs.Visited(g, Image(hash, z.file))[i].entries[j].value)
  {
    var y := OpenedStore(hash, g, file);
    assert StoreOk(hash, g, z) by {
      RunKeepsStore(hash, g, y, steps, z);
    }
    assert CrashSafety.Safe(g, z.sys) by {
      ClearedImage(hash, g, file);
      Runs.ClearedSafe(g, Image(hash, file));
      var actions := RunOfPages(hash, g, y, steps, z);
      Runs.RunSafe(g, y.sys, actions, z.sys);
    }
    var visited := Runs.Visited(g, z.sys.disk);
    CrashSafety.LinksFollowChain(g, z.sys);
    CrashSafety.FoundStored(g, z.sys, visited, i);
    RunStores(hash, g, y, steps, z, visited[i].entries[j].value);
  }
}
