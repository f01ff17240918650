/**
 Nothing that changes is forgotten: until a round fails, every metadata page in memory is marked, or waits in a
 round, or belongs to a chunk that waits for its first write, or is on disk as it is in memory.
 */
module Durability {
  import opened Layout
  import opened Metadata
  import opened ShardModel
  import opened Publication
  import opened Recovery
  import opened RoundTrip
  import opened CrashModel
  import CrashSafety
  import Runs

  // ---------------------------------------------------------------- where a page is

  ghost predicate PageOnDisk(disk: Disk, c: nat, p: nat, page: Page) {
    c in disk && p < |disk[c]| && disk[c][p] == page
  }

  /** Page `p` of the chunk is on disk as it is in memory. */
  ghost predicate Current(disk: Disk, chunk: Chunk, p: nat) {
    && |chunk.entries| == ENTRIES_PER_CHUNK && p < PAGES_PER_CHUNK
    && PageOnDisk(disk, chunk.number, p, EncodePage(chunk, p))
  }

  /** The write includes page `p` of chunk `i`. */
  ghost predicate Includes(w: MetaWrite, i: nat, p: nat) {
    w.chunk == i && w.first <= p < w.first + |w.pages|
  }

  ghost predicate Awaited(pending: seq<MetaWrite>, i: nat, p: nat) {
    exists k :: 0 <= k < |pending| && Includes(pending[k], i, p)
  }

  /** Some write of the round initializes chunk `i`. */
  ghost predicate Initializes(pending: seq<MetaWrite>, i: nat) {
    exists k :: 0 <= k < |pending| && Full(pending[k]) && pending[k].chunk == i && pending[k].first == 0
  }

  /** Page `p` of the write is as in memory, or marked since the round took it. */
  ghost predicate UpToDate(s: Shard, w: MetaWrite, p: nat)
    requires p < |w.pages|
  {
    && w.chunk < |s.chain| && |s.chain[w.chunk].entries| == ENTRIES_PER_CHUNK && w.first + p < PAGES_PER_CHUNK
    && (PageAt(w.chunk, w.first + p) in s.dirty || w.pages[p] == EncodePage(s.chain[w.chunk], w.first + p))
  }

  ghost predicate Remembered(y: System, i: nat, p: nat)
    requires i < |y.shard.chain|
  {
    || PageAt(i, p) in y.shard.dirty || Awaited(y.pending, i, p)
    || y.shard.chain[i].needsFullWrite || Current(y.disk, y.shard.chain[i], p)
  }

  ghost predicate WillInitialize(y: System, i: nat)
    requires i < |y.shard.chain|
  {
    y.shard.chain[i].needsFullWrite ==>
      PageAt(i, ENTRY_PAGES_PER_CHUNK) in y.shard.dirty || Initializes(y.pending, i)
  }

  ghost predicate RoundCurrent(s: Shard, pending: seq<MetaWrite>) {
    forall k, p :: 0 <= k < |pending| && 0 <= p < |pending[k].pages| ==> UpToDate(s, pending[k], p)
  }

  ghost predicate Durable(y: System) {
    && RoundCurrent(y.shard, y.pending)
    && (forall i: nat, p: nat :: i < |y.shard.chain| && p < PAGES_PER_CHUNK ==> Remembered(y, i, p))
    && (forall i: nat :: i < |y.shard.chain| ==> WillInitialize(y, i))
  }

  // ---------------------------------------------------------------- changes in memory are marked

  /** Page `p` of the chunks has the same encoding. */
  ghost predicate SamePage(a: Chunk, b: Chunk, p: nat) {
    && a.number == b.number && a.needsFullWrite == b.needsFullWrite
    && |a.entries| == ENTRIES_PER_CHUNK && |b.entries| == ENTRIES_PER_CHUNK && p < PAGES_PER_CHUNK
    && EncodePage(a, p) == EncodePage(b, p)
  }

  ghost predicate KeepsPage(a: Shard, b: Shard, i: nat, p: nat)
    requires i < |a.chain| <= |b.chain|
  {
    SamePage(a.chain[i], b.chain[i], p) || PageAt(i, p) in b.dirty
  }

  /** From `a` to `b` every page that changed is marked, and so is every chunk that is new. */
  ghost predicate MarksChanges(a: Shard, b: Shard) {
    && |a.chain| <= |b.chain| && a.dirty <= b.dirty && FullSized(b.chain)
    && CrashSafety.Grows(a.chain, b.chain)
    && (forall i: nat, p: nat :: i < |a.chain| && p < PAGES_PER_CHUNK ==> KeepsPage(a, b, i, p))
    && (forall i :: |a.chain| <= i < |b.chain| ==> PageAt(i, ENTRY_PAGES_PER_CHUNK) in b.dirty)
  }

  lemma MarksTransitive(a: Shard, b: Shard, c: Shard)
    requires MarksChanges(a, b) && MarksChanges(b, c)
    ensures MarksChanges(a, c)
  {
    forall i: nat, p: nat | i < |a.chain| && p < PAGES_PER_CHUNK ensures KeepsPage(a, c, i, p) {
      assert KeepsPage(a, b, i, p) && KeepsPage(b, c, i, p);
    }
  }

  lemma SameChainMarks(a: Shard, b: Shard)
    requires FullSized(a.chain) && b.chain == a.chain && b.dirty == a.dirty
    ensures MarksChanges(a, b)
  {
    forall i: nat, p: nat | i < |a.chain| && p < PAGES_PER_CHUNK ensures KeepsPage(a, b, i, p) {
      assert SamePage(a.chain[i], b.chain[i], p);
    }
  }

  /** Writing a slot changes the encoding of its own page only. */
  lemma SlotOnPage(chunk: Chunk, e: nat, entry: Option<Record>, p: nat)
    requires |chunk.entries| == ENTRIES_PER_CHUNK && e < ENTRIES_PER_CHUNK && p < PAGES_PER_CHUNK
    requires p != e / ENTRIES_PER_PAGE
    ensures SamePage(chunk, chunk.(entries := chunk.entries[e := entry]), p)
  {
    if p < ENTRY_PAGES_PER_CHUNK {
      assert PageEntries(chunk.entries, p) == PageEntries(chunk.entries[e := entry], p);
    }
  }

  lemma SetEntryMarks(a: Shard, b: Shard, t: Slot, entry: Option<Record>)
    requires FullSized(a.chain) && HasSlot(a.chain, t)
    requires b.chain == SetEntry(a.chain, t, entry) && b.dirty == a.dirty + {PageOf(t)}
    ensures MarksChanges(a, b)
  {
    forall i: nat, p: nat | i < |a.chain| && p < PAGES_PER_CHUNK ensures KeepsPage(a, b, i, p) {
      if i != t.chunk {
        assert SamePage(a.chain[i], b.chain[i], p);
      } else if p != t.entry / ENTRIES_PER_PAGE {
        SlotOnPage(a.chain[i], t.entry, entry, p);
      }
    }
  }

  lemma GrowMarks(s: Shard, count: nat)
    requires FullSized(s.chain) && EnsureFreeSlots(s, count).Some?
    ensures MarksChanges(s, EnsureFreeSlots(s, count).value)
  {
    var b := EnsureFreeSlots(s, count).value;
    forall i: nat, p: nat | i < |s.chain| && p < PAGES_PER_CHUNK ensures KeepsPage(s, b, i, p) {
      assert b.chain[i].entries == s.chain[i].entries;
      assert p < ENTRY_PAGES_PER_CHUNK || i < |s.chain| - 1 ==> SamePage(s.chain[i], b.chain[i], p);
    }
  }

  lemma PublishOneMarks(s: Shard, r: Range, b: Buffered)
    requires FullSized(s.chain)
    ensures MarksChanges(s, PublishOne(s, r, b))
  {
    var after := PublishOne(s, r, b);
    if after.chain == s.chain && after.dirty == s.dirty {
      SameChainMarks(s, after);
    } else {
      SetEntryMarks(s, after, FirstFree(s.chain), Some(RecordFor(r, b)));
    }
  }

  lemma {:induction false} PublishAllMarks(s: Shard, r: Range, batch: seq<Buffered>)
    requires FullSized(s.chain)
    ensures MarksChanges(s, PublishAll(s, r, batch))
    decreases |batch|
  {
    if batch == [] {
      SameChainMarks(s, s);
    } else {
      var n := |batch| - 1;
      var mid := PublishOne(s, r, batch[n]);
      PublishOneMarks(s, r, batch[n]);
      PublishAllMarks(mid, r, batch[..n]);
      MarksTransitive(s, mid, PublishAll(s, r, batch));
    }
  }

  lemma PublishMarks(s: Shard, r: Range, batch: seq<Buffered>)
    requires FullSized(s.chain)
    ensures MarksChanges(s, Publish(s, r, batch))
  {
    if EnsureFreeSlots(s, |batch|).Some? {
      var grown := EnsureFreeSlots(s, |batch|).value;
      var held := HoldChunks(grown, r, |batch|);
      GrowMarks(s, |batch|);
      SameChainMarks(grown, held);
      MarksTransitive(s, grown, held);
      PublishGrown(s, r, batch);
      PublishAllMarks(held, r, batch);
      MarksTransitive(s, held, Publish(s, r, batch));
    } else {
      SameChainMarks(s, Publish(s, r, batch));
    }
  }

  lemma RemoveMarks(s: Shard, key: nat)
    requires FullSized(s.chain)
    ensures MarksChanges(s, RemoveEntry(s, key))
  {
    var after := RemoveEntry(s, key);
    if Removable(s, key) {
      SetEntryMarks(s, after, s.index[key].slot, None);
    } else {
      SameChainMarks(s, after);
    }
  }

  /** Every action of writers and evictions marks what it changes. */
  lemma MemoryMarks(g: Config, y: System, a: Action)
    requires ValidConfig(g) && FullSized(y.shard.chain) && Enabled(g, y, a) && CrashSafety.MemoryAction(a)
    ensures MarksChanges(y.shard, Apply(g, y, a).shard)
  {
    if a.PublishBatch? {
      PublishMarks(y.shard, y.flights[a.id], a.batch);
    } else if a.RemoveKey? {
      RemoveMarks(y.shard, a.key);
    } else if a.Grow? && EnsureFreeSlots(y.shard, a.count).Some? {
      GrowMarks(y.shard, a.count);
    } else {
      SameChainMarks(y.shard, Apply(g, y, a).shard);
    }
  }

  lemma MarkedStaysDurable(y: System, z: System)
    requires Durable(y) && MarksChanges(y.shard, z.shard) && z.disk == y.disk && z.pending == y.pending
    ensures Durable(z)
  {
    forall k, p | 0 <= k < |z.pending| && 0 <= p < |z.pending[k].pages| ensures UpToDate(z.shard, z.pending[k], p) {
      var w := z.pending[k];
      assert UpToDate(y.shard, w, p);
      assert KeepsPage(y.shard, z.shard, w.chunk, w.first + p);
    }
    forall i: nat, p: nat | i < |z.shard.chain| && p < PAGES_PER_CHUNK ensures Remembered(z, i, p) {
      if i < |y.shard.chain| {
        assert Remembered(y, i, p) && KeepsPage(y.shard, z.shard, i, p);
      }
    }
    forall i: nat | i < |z.shard.chain| ensures WillInitialize(z, i) {
      assert i < |y.shard.chain| ==> WillInitialize(y, i);
    }
  }

  // ---------------------------------------------------------------- a round takes every marked page

  lemma NumberedBack(i: nat, p: nat)
    requires p < PAGES_PER_CHUNK
    ensures PageNumbered(i * PAGES_PER_CHUNK + p) == PageAt(i, p)
  {
  }

  /** The write of a marked page includes that page, or its whole chunk when that is new. */
  lemma WriteForIncludes(chain: Chain, i: nat, p: nat)
    requires FullSized(chain) && i < |chain| && p < PAGES_PER_CHUNK
    requires chain[i].needsFullWrite ==> p == ENTRY_PAGES_PER_CHUNK
    ensures |WriteFor(chain, PageAt(i, p))| == 1
    ensures
      var w := WriteFor(chain, PageAt(i, p))[0];
      && Includes(w, i, p) && (chain[i].needsFullWrite ==> Full(w) && w.first == 0)
  {
  }

  lemma WriteForCurrent(s: Shard, at: PageAt, p: nat)
    requires FullSized(s.chain) && WriteFor(s.chain, at) != [] && p < |WriteFor(s.chain, at)[0].pages|
    ensures UpToDate(s, WriteFor(s.chain, at)[0], p)
  {
  }

  lemma {:induction false} WritesCurrent(s: Shard, marked: set<PageAt>, n: nat)
    requires FullSized(s.chain)
    ensures RoundCurrent(s, WritesBelow(s.chain, marked, n))
  {
    if n > 0 {
      var at := PageNumbered(n - 1);
      var head: seq<MetaWrite> := if at in marked then WriteFor(s.chain, at) else [];
      var rest := WritesBelow(s.chain, marked, n - 1);
      WritesCurrent(s, marked, n - 1);
      forall k, p | 0 <= k < |head + rest| && 0 <= p < |(head + rest)[k].pages|
        ensures UpToDate(s, (head + rest)[k], p)
      {
        if k < |head| {
          WriteForCurrent(s, at, p);
        } else {
          assert (head + rest)[k] == rest[k - |head|];
        }
      }
    }
  }

  /** A marked page below `n` is among the writes, through its own page or its chunk's initialization. */
  lemma {:induction false} WritesInclude(chain: Chain, marked: set<PageAt>, n: nat, i: nat, p: nat) returns (k: nat)
    requires FullSized(chain) && i < |chain| && p < PAGES_PER_CHUNK && PageAt(i, p) in marked
    requires i * PAGES_PER_CHUNK + p < n && (chain[i].needsFullWrite ==> p == ENTRY_PAGES_PER_CHUNK)
    ensures k < |WritesBelow(chain, marked, n)| && Includes(WritesBelow(chain, marked, n)[k], i, p)
    ensures
      var w := WritesBelow(chain, marked, n)[k];
      chain[i].needsFullWrite ==> Full(w) && w.first == 0
  {
    var at := PageNumbered(n - 1);
    var head := if at in marked then WriteFor(chain, at) else [];
    if i * PAGES_PER_CHUNK + p == n - 1 {
      NumberedBack(i, p);
      WriteForIncludes(chain, i, p);
      k := 0;
    } else {
      var j := WritesInclude(chain, marked, n - 1, i, p);
      k := |head| + j;
    }
  }

  lemma RoundIncludes(y: System, i: nat, p: nat)
    requires FullSized(y.shard.chain) && Durable(y) && y.pending == [] && i < |y.shard.chain| && p < PAGES_PER_CHUNK
    ensures
      var round, chunk := RoundWrites(y.shard.chain, y.shard.dirty), y.shard.chain[i];
      && (chunk.needsFullWrite ==> Initializes(round, i))
      && (chunk.needsFullWrite || PageAt(i, p) in y.shard.dirty ==> Awaited(round, i, p))
  {
    var chain, dirty := y.shard.chain, y.shard.dirty;
    var marked, n := Marked(chain, dirty), |chain| * PAGES_PER_CHUNK;
    assert WillInitialize(y, i);
    if chain[i].needsFullWrite {
      var k := WritesInclude(chain, marked, n, i, ENTRY_PAGES_PER_CHUNK);
      assert Includes(WritesBelow(chain, marked, n)[k], i, p);
    } else if PageAt(i, p) in dirty {
      var k := WritesInclude(chain, marked, n, i, p);
    }
  }

  lemma StartDurable(g: Config, y: System)
    requires ValidConfig(g) && FullSized(y.shard.chain) && Durable(y) && Enabled(g, y, StartRound)
    ensures Durable(Apply(g, y, StartRound))
  {
    var z := Apply(g, y, StartRound);
    WritesCurrent(z.shard, Marked(y.shard.chain, y.shard.dirty), |y.shard.chain| * PAGES_PER_CHUNK);
    forall i: nat, p: nat | i < |z.shard.chain| && p < PAGES_PER_CHUNK ensures Remembered(z, i, p) {
      assert Remembered(y, i, p);
      RoundIncludes(y, i, p);
    }
    forall i: nat | i < |z.shard.chain| ensures WillInitialize(z, i) {
      RoundIncludes(y, i, 0);
    }
  }

  // ---------------------------------------------------------------- pages reach the disk

  lemma WriteElsewhere(disk: Disk, c: nat, p: nat, page: Page, chunk: Chunk, q: nat)
    requires Current(disk, chunk, q) && (chunk.number != c || q != p)
    ensures Current(WritePage(disk, c, p, page), chunk, q)
  {
  }

  lemma PayloadDurable(g: Config, y: System, a: Action)
    requires ValidConfig(g) && ShardOk(g, y) && Durable(y) && Enabled(g, y, a) && a.WritePayloadPage?
    ensures Durable(Apply(g, y, a))
  {
    var z, c := Apply(g, y, a), y.flights[a.id].start + a.page / PAGES_PER_CHUNK;
    CrashSafety.PayloadOutsideChain(g, y, a.id, c);
    forall i: nat, p: nat | i < |z.shard.chain| && p < PAGES_PER_CHUNK ensures Remembered(z, i, p) {
      assert Remembered(y, i, p);
      if Current(y.disk, y.shard.chain[i], p) {
        WriteElsewhere(y.disk, c, a.page % PAGES_PER_CHUNK, a.content, y.shard.chain[i], p);
      }
    }
    forall i: nat | i < |z.shard.chain| ensures WillInitialize(z, i) {
      assert WillInitialize(y, i);
    }
  }

  lemma PersistRemembers(y: System, z: System, w: MetaWrite, page: nat, i: nat, p: nat)
    requires i < |y.shard.chain| && p < PAGES_PER_CHUNK && Remembered(y, i, p)
    requires page < |w.pages| && UpToDate(y.shard, w, page) && w.chunk < |y.shard.chain|
    requires y.shard.chain[i].number == y.shard.chain[w.chunk].number ==> i == w.chunk
    requires z == y.(disk := WritePage(y.disk, y.shard.chain[w.chunk].number, w.first + page, w.pages[page]))
    ensures Remembered(z, i, p)
  {
    if Current(y.disk, y.shard.chain[i], p) && !(i == w.chunk && p == w.first + page) {
      WriteElsewhere(y.disk, y.shard.chain[w.chunk].number, w.first + page, w.pages[page], y.shard.chain[i], p);
    }
  }

  lemma PersistDurable(g: Config, y: System, page: nat)
    requires ValidConfig(g) && ShardOk(g, y) && Durable(y) && Enabled(g, y, PersistPage(page))
    ensures Durable(Apply(g, y, PersistPage(page)))
  {
    var z, w := Apply(g, y, PersistPage(page)), y.pending[0];
    assert UpToDate(y.shard, w, page);
    ChainNumber(g, y.shard, y.flights, w.chunk);
    forall i: nat, p: nat | i < |z.shard.chain| && p < PAGES_PER_CHUNK ensures Remembered(z, i, p) {
      PersistRemembers(y, z, w, page, i, p);
    }
    forall i: nat | i < |z.shard.chain| ensures WillInitialize(z, i) {
      assert WillInitialize(y, i);
    }
  }

  /** A finished write leaves its pages on disk, or marked. */
  lemma FinishedPage(y: System, w: MetaWrite, p: nat)
    requires w.chunk < |y.shard.chain| && w.first <= p < w.first + |w.pages|
    requires AllOnDisk(y.disk, y.shard.chain[w.chunk].number, w.first, w.pages)
    requires UpToDate(y.shard, w, p - w.first)
    ensures PageAt(w.chunk, p) in y.shard.dirty || Current(y.disk, y.shard.chain[w.chunk], p)
  {
    assert OnDisk(y.disk, y.shard.chain[w.chunk].number, w.first + (p - w.first), w.pages[p - w.first]);
    assert p / PAGES_PER_CHUNK == 0 && p % PAGES_PER_CHUNK == p;
  }

  lemma CompleteRemembers(g: Config, y: System, z: System, i: nat, p: nat)
    requires ValidConfig(g) && FullSized(y.shard.chain) && Durable(y) && Enabled(g, y, CompleteWrite)
    requires z == Apply(g, y, CompleteWrite) && i < |z.shard.chain| && p < PAGES_PER_CHUNK
    requires Full(y.pending[0]) ==> y.pending[0].first == 0
    ensures Remembered(z, i, p)
  {
    var w := y.pending[0];
    assert Remembered(y, i, p);
    if Includes(w, i, p) {
      assert UpToDate(y.shard, w, p - w.first);
      FinishedPage(y, w, p);
    } else if Awaited(y.pending, i, p) {
      var k :| 0 <= k < |y.pending| && Includes(y.pending[k], i, p);
      assert y.pending[1..][k - 1] == y.pending[k];
    }
  }

  lemma CompleteInitializes(g: Config, y: System, z: System, i: nat)
    requires ValidConfig(g) && FullSized(y.shard.chain) && Durable(y) && Enabled(g, y, CompleteWrite)
    requires z == Apply(g, y, CompleteWrite) && i < |z.shard.chain|
    ensures WillInitialize(z, i)
  {
    assert WillInitialize(y, i);
    if z.shard.chain[i].needsFullWrite && Initializes(y.pending, i) {
      var k :| 0 <= k < |y.pending| && Full(y.pending[k]) && y.pending[k].chunk == i && y.pending[k].first == 0;
      assert y.pending[1..][k - 1] == y.pending[k];
    }
  }

  lemma CompleteDurable(g: Config, y: System)
    requires ValidConfig(g) && FullSized(y.shard.chain) && Durable(y) && Enabled(g, y, CompleteWrite)
    ensures Durable(Apply(g, y, CompleteWrite))
  {
    var z, w := Apply(g, y, CompleteWrite), y.pending[0];
    if Full(w) {
      assert UpToDate(y.shard, w, PAGES_PER_CHUNK - 1);
    }
    forall k, p | 0 <= k < |z.pending| && 0 <= p < |z.pending[k].pages| ensures UpToDate(z.shard, z.pending[k], p) {
      assert z.pending[k] == y.pending[k + 1] && UpToDate(y.shard, y.pending[k + 1], p);
    }
    forall i: nat, p: nat | i < |z.shard.chain| && p < PAGES_PER_CHUNK ensures Remembered(z, i, p) {
      CompleteRemembers(g, y, z, i, p);
    }
    forall i: nat | i < |z.shard.chain| ensures WillInitialize(z, i) {
      CompleteInitializes(g, y, z, i);
    }
  }

  // ---------------------------------------------------------------- all runs

  /** A round that fails forgets its pages, and a reopen starts from what is on disk. */
  ghost predicate Forgets(a: Action) {
    a.FailRound? || a.Reopen?
  }

  lemma ApplyDurable(g: Config, y: System, a: Action)
    requires ValidConfig(g) && ShardOk(g, y) && Durable(y) && Enabled(g, y, a) && !Forgets(a)
    ensures Durable(Apply(g, y, a))
  {
    if CrashSafety.MemoryAction(a) {
      MemoryMarks(g, y, a);
      CrashSafety.MemoryFrame(g, y, a);
      MarkedStaysDurable(y, Apply(g, y, a));
    } else {
      match a
      case WritePayloadPage(_, _, _) => PayloadDurable(g, y, a);
      case StartRound => StartDurable(g, y);
      case PersistPage(page) => PersistDurable(g, y, page);
      case CompleteWrite => CompleteDurable(g, y);
    }
  }

  lemma {:induction false} RunDurable(g: Config, y: System, actions: seq<Action>, z: System)
    requires ValidConfig(g) && ShardOk(g, y) && Durable(y) && Runs.Reaches(g, y, actions, z)
    requires forall i :: 0 <= i < |actions| ==> !Forgets(actions[i])
    ensures Durable(z)
    decreases |actions|
  {
    if actions != [] {
      ApplyKeepsShard(g, y, actions[0]);
      ApplyDurable(g, y, actions[0]);
      RunDurable(g, Apply(g, y, actions[0]), actions[1..], z);
    }
  }

  /**
   From a cleared file, after any run in which no round failed: every page of the chain is marked, or waits in the
   round, or belongs to a chunk that waits for its first write, or is on disk as it is in memory. So once nothing is
   marked and no round is under way, the disk has exactly the chain.
   */
  lemma NothingForgotten(g: Config, disk: Disk, actions: seq<Action>, z: System)
    requires ValidConfig(g) && Runs.Cleared(g, disk)
    requires ShardOk(g, Runs.Opened(g, disk)) && Runs.Reaches(g, Runs.Opened(g, disk), actions, z)
    requires forall i :: 0 <= i < |actions| ==> !Forgets(actions[i])
    ensures forall i: nat, p: nat :: i < |z.shard.chain| && p < PAGES_PER_CHUNK ==> Remembered(z, i, p)
    ensures z.shard.dirty == {} && z.pending == [] ==>
      Encodes(g, z.disk, z.shard.chain) && Written(z.shard.chain) == z.shard.chain
  {
    Runs.ClearedIsEmpty(g, disk);
    RunDurable(g, Runs.Opened(g, disk), actions, z);
    Runs.ClearedSafe(g, disk);
    Runs.RunSafe(g, Runs.Opened(g, disk), actions, z);
    if z.shard.dirty == {} && z.pending == [] {
      SettledEncodes(g, z);
    }
  }

  lemma EncodesWhole(disk: Disk, chunk: Chunk)
    requires forall p: nat :: p < PAGES_PER_CHUNK ==> Current(disk, chunk, p)
    requires ValidDisk(disk)
    ensures EncodesChunk(disk, chunk)
  {
    assert Current(disk, chunk, 0);
    forall p | 0 <= p < PAGES_PER_CHUNK ensures disk[chunk.number][p] == EncodePage(chunk, p) {
      assert Current(disk, chunk, p);
    }
  }

  lemma SettledEncodes(g: Config, z: System)
    requires Durable(z) && CrashSafety.DiskSafe(g, z) && z.shard.dirty == {} && z.pending == []
    ensures Encodes(g, z.disk, z.shard.chain) && Written(z.shard.chain) == z.shard.chain
  {
    forall i: nat | i < |z.shard.chain|
      ensures !z.shard.chain[i].needsFullWrite && EncodesChunk(z.disk, z.shard.chain[i])
    {
      assert WillInitialize(z, i);
      forall p: nat | p < PAGES_PER_CHUNK ensures Current(z.disk, z.shard.chain[i], p) {
        assert Remembered(z, i, p);
      }
      EncodesWhole(z.disk, z.shard.chain[i]);
    }
  }

  /**
   For every shard reached from a cleared file in which no round failed, with no write in flight, nothing marked
   and no round under way: recovery from the disk as it is gives the same shard back.
   */
  lemma CleanReopen(g: Config, disk: Disk, actions: seq<Action>, z: System)
    requires ValidConfig(g) && Runs.Cleared(g, disk)
    requires ShardOk(g, Runs.Opened(g, disk)) && Runs.Reaches(g, Runs.Opened(g, disk), actions, z)
    requires forall i :: 0 <= i < |actions| ==> !Forgets(actions[i])
    requires z.flights == map[] && z.shard.dirty == {} && z.pending == []
    ensures ValidDisk(z.disk) && Recover(g, z.disk) == z.shard
  {
    NothingForgotten(g, disk, actions, z);
    Runs.CrashSafeChain(g, disk, actions, z);
    Runs.ClearedIsEmpty(g, disk);
    Runs.ShardInvariant(g, Runs.Opened(g, disk), actions, z);
    Runs.RunTight(g, Runs.Opened(g, disk), actions, z);
    RecoverRoundTrip(g, z.shard, z.disk);
  }
}
