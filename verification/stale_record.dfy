/**
 A run that loses a live record to a stale one: its slot is in a later page than the slot of the stale record,
 whose page a round writes last. Every reservation in the run is the lowest one that fits.
 */
module StaleRecord {
  import opened Layout
  import opened Metadata
  import opened ShardModel
  import opened Publication
  import opened Allocation
  import opened Recovery
  import opened RoundTrip
  import opened CrashModel
  import opened Survival
  import CrashSafety
  import Runs

  /** One shard with the chunks 1 to 119. */
  const SHARD := Config(1, 120, 1, 0)

  // ---------------------------------------------------------------- runs that reserve the lowest chunks

  ghost predicate FitsFirst(y: System, a: Action) {
    a.ReserveChunks? ==>
      a.range.start < a.range.end && LowestRun(y.shard.free, a.range.end - a.range.start) == Some(a.range.start)
  }

  ghost predicate FirstFitRun(y: System, actions: seq<Action>, z: System)
    requires ShardOk(SHARD, y)
    decreases |actions|
  {
    if actions == [] then z == y
    else
      && Enabled(SHARD, y, actions[0]) && !actions[0].Reopen? && FitsFirst(y, actions[0])
      && FirstFitNext(y, actions, z)
  }

  ghost predicate FirstFitNext(y: System, actions: seq<Action>, z: System)
    requires ShardOk(SHARD, y) && actions != [] && Enabled(SHARD, y, actions[0])
    decreases |actions|, 0
  {
    ApplyKeepsShard(SHARD, y, actions[0]);
    FirstFitRun(Apply(SHARD, y, actions[0]), actions[1..], z)
  }

  /** Some run without a reopen, with every reservation the lowest that fits, leads from `y` to `z`. */
  ghost predicate Leads(y: System, z: System) {
    ShardOk(SHARD, y) && ShardOk(SHARD, z) && exists actions :: FirstFitRun(y, actions, z)
  }

  lemma {:induction false} RunsCompose(y: System, a: seq<Action>, m: System, b: seq<Action>, z: System)
    requires ShardOk(SHARD, y) && ShardOk(SHARD, m) && FirstFitRun(y, a, m) && FirstFitRun(m, b, z)
    ensures FirstFitRun(y, a + b, z)
    decreases |a|
  {
    if a == [] {
      assert a + b == b;
    } else {
      ApplyKeepsShard(SHARD, y, a[0]);
      assert (a + b)[0] == a[0] && (a + b)[1..] == a[1..] + b;
      RunsCompose(Apply(SHARD, y, a[0]), a[1..], m, b, z);
    }
  }

  lemma LeadsOn(y: System, m: System, z: System)
    requires Leads(y, m) && Leads(m, z)
    ensures Leads(y, z)
  {
    var a :| FirstFitRun(y, a, m);
    var b :| FirstFitRun(m, b, z);
    RunsCompose(y, a, m, b, z);
  }

  lemma LeadsTo(y: System, a: Action) returns (z: System)
    requires ShardOk(SHARD, y) && Enabled(SHARD, y, a) && !a.Reopen? && FitsFirst(y, a)
    ensures z == Apply(SHARD, y, a) && Leads(y, z)
  {
    z := Apply(SHARD, y, a);
    ApplyKeepsShard(SHARD, y, a);
    assert [a][1..] == [];
    assert FirstFitRun(y, [a], z);
  }

  lemma {:induction false} IsRun(y: System, actions: seq<Action>, z: System)
    requires ShardOk(SHARD, y) && FirstFitRun(y, actions, z)
    ensures Runs.Reaches(SHARD, y, actions, z) && forall i :: 0 <= i < |actions| ==> !actions[i].Reopen?
    decreases |actions|
  {
    if actions != [] {
      ApplyKeepsShard(SHARD, y, actions[0]);
      IsRun(Apply(SHARD, y, actions[0]), actions[1..], z);
      assert forall i :: 0 < i < |actions| ==> actions[i] == actions[1..][i - 1];
    }
  }

  // ---------------------------------------------------------------- one write and one removal

  /** Slot `j` is the first free one. */
  ghost predicate FirstGap(entries: seq<Option<Record>>, j: nat) {
    j < |entries| && entries[j].None? && forall i :: 0 <= i < j ==> entries[i].Some?
  }

  lemma {:induction false} GapCounts(entries: seq<Option<Record>>, j: nat)
    requires j < |entries| && entries[j].None?
    ensures CountFree(entries) > 0
  {
    var n := |entries| - 1;
    if j < n {
      GapCounts(entries[..n], j);
    }
  }

  lemma FirstOfOne(c: Chunk, j: nat)
    requires FirstGap(c.entries, j)
    ensures FreeSlots([c]) > 0 && FirstFree([c]) == Slot(0, j)
  {
    GapCounts(c.entries, j);
    assert [c][..0] == [];
    FirstFreeUnique([c], Slot(0, j));
  }

  ghost function Stored(s: Shard, c: Chunk, j: nat, r: Record, end: nat): Shard
    requires j < |c.entries|
  {
    var h := r.address / CHUNK_BYTES;
    Shard(s.free, s.held[h := Hold(end, 1)], [c.(entries := c.entries[j := Some(r)])],
          s.dirty + {PageAt(0, j / ENTRIES_PER_PAGE)},
          s.index[r.key := Entry(r.length, r.address, r.checksum, Slot(0, j))])
  }

  lemma PublishSingle(s: Shard, c: Chunk, j: nat, r: Range, b: Buffered)
    requires s.chain == [c] && FirstGap(c.entries, j) && b.key !in s.index && b.offset == 0
    ensures Publish(s, r, [b]) == Stored(s, c, j, RecordFor(r, b), r.end)
  {
    FirstOfOne(c, j);
    var held := HoldChunks(s, r, 1);
    assert [b][..0] == [];
    assert PublishAll(held, r, [b]) == PublishOne(held, r, b);
    assert Address(r.start) / CHUNK_BYTES == r.start;
  }

  ghost predicate Resting(y: System, c: Chunk) {
    && ShardOk(SHARD, y) && y.flights == map[] && y.pending == []
    && y.shard.chain == [c] && |c.entries| == ENTRIES_PER_CHUNK
  }

  /** `z` is `y` with another shard state. */
  ghost predicate Becomes(y: System, z: System, s: Shard) {
    Leads(y, z) && z.shard == s && z.flights == map[] && z.disk == y.disk && z.pending == y.pending
  }

  lemma ReserveLowest(y: System, c: Chunk, r: Range) returns (m: System)
    requires Resting(y, c) && r.start < r.end && LowestRun(y.shard.free, r.end - r.start) == Some(r.start)
    ensures Leads(y, m) && m == y.(shard := Reserve(y.shard, r), flights := map[0 := r])
  {
    m := LeadsTo(y, ReserveChunks(0, r));
  }

  lemma WholeFits(r: Range, b: Buffered)
    requires r.start < r.end && b.offset == 0 && CeilDiv(PayloadDiskBytes(b.length), CHUNK_BYTES) == r.end - r.start
    ensures Fits(SHARD, r, b)
  {
  }

  lemma PublishFirst(y: System, c: Chunk, j: nat, r: Range, b: Buffered) returns (z: System)
    requires ShardOk(SHARD, y) && y.flights == map[0 := r] && y.shard.chain == [c] && FirstGap(c.entries, j)
    requires b.key !in y.shard.index && b.offset == 0 && Fits(SHARD, r, b)
    ensures Becomes(y, z, Stored(y.shard, c, j, RecordFor(r, b), r.end))
  {
    assert ValidBatch(SHARD, r, [b]);
    z := LeadsTo(y, PublishBatch(0, [b]));
    PublishSingle(y.shard, c, j, r, b);
    assert y.flights - {0} == map[];
  }

  /** A write takes the lowest chunks that fit and the first free slot. */
  lemma Write(y: System, c: Chunk, j: nat, r: Range, b: Buffered) returns (z: System)
    requires Resting(y, c) && FirstGap(c.entries, j) && b.key !in y.shard.index && b.offset == 0
    requires r.start < r.end && Fits(SHARD, r, b) && LowestRun(y.shard.free, r.end - r.start) == Some(r.start)
    ensures Becomes(y, z, Stored(Reserve(y.shard, r), c, j, RecordFor(r, b), r.end))
  {
    var m := ReserveLowest(y, c, r);
    z := PublishFirst(m, c, j, r, b);
    LeadsOn(y, m, z);
  }

  ghost function Cleared(s: Shard, c: Chunk, j: nat, key: nat, h: nat, end: nat): Shard
    requires j < |c.entries|
  {
    Shard(s.free + Interval(h, end), s.held - {h}, [c.(entries := c.entries[j := None])],
          s.dirty + {PageAt(0, j / ENTRIES_PER_PAGE)}, s.index - {key})
  }

  lemma RemoveSingle(s: Shard, c: Chunk, j: nat, key: nat, h: nat, end: nat)
    requires s.chain == [c] && j < |c.entries| && key in s.index && s.index[key].slot == Slot(0, j)
    requires s.index[key].address == Address(h) && h in s.held && s.held[h] == Hold(end, 1)
    ensures RemoveEntry(s, key) == Cleared(s, c, j, key, h, end)
  {
    assert Address(h) / CHUNK_BYTES == h;
    assert Removable(s, key);
  }

  /** A removal frees its slot and its chunks. */
  lemma Remove(y: System, c: Chunk, j: nat, key: nat, h: nat, end: nat) returns (z: System)
    requires Resting(y, c) && key in y.shard.index && y.shard.index[key].slot == Slot(0, j) && j < |c.entries|
    requires y.shard.index[key].address == Address(h) && h in y.shard.held && y.shard.held[h] == Hold(end, 1)
    ensures Becomes(y, z, Cleared(y.shard, c, j, key, h, end))
  {
    z := LeadsTo(y, RemoveKey(key));
    RemoveSingle(y.shard, c, j, key, h, end);
  }

  // ---------------------------------------------------------------- filling the first page

  /** A file of zeroes. */
  ghost function EmptyDisk(): (disk: Disk)
    ensures Runs.Cleared(SHARD, disk) && 1 in disk && forall p :: 0 <= p < PAGES_PER_CHUNK ==> disk[1][p] == Zero
  {
    map c: nat | c in Interval(SHARD.lo, SHARD.hi) :: seq(PAGES_PER_CHUNK, _ => Zero)
  }

  /** Key `i` has one chunk. */
  function Small(i: nat): Record {
    Record(i, 1, Address(2 + i), 0)
  }

  /** The first `n` slots hold the first `n` keys. */
  ghost function Filled(n: nat): (entries: seq<Option<Record>>)
    ensures |entries| == ENTRIES_PER_CHUNK
    ensures forall i :: 0 <= i < ENTRIES_PER_CHUNK ==> entries[i] == if i < n then Some(Small(i)) else None
  {
    seq(ENTRIES_PER_CHUNK, i requires 0 <= i => if i < n then Some(Small(i)) else None)
  }

  function HoldOf(h: nat): Hold {
    Hold(h + 1, 1)
  }

  function EntryOf(i: nat): Entry {
    Entry(1, Address(2 + i), 0, Slot(0, i))
  }

  ghost function FilledShard(n: nat, flag: bool, dirty: set<PageAt>): Shard {
    Shard(Interval(2 + n, SHARD.hi), map h | h in Interval(2, 2 + n) :: HoldOf(h),
          [Chunk(1, Filled(n), NO_CHUNK, flag)],
          dirty, map i | i in Interval(0, n) :: EntryOf(i))
  }

  lemma LowestOfInterval(a: nat, b: nat)
    requires a < b
    ensures LowestRun(Interval(a, b), 1) == Some(a)
  {
    forall s: nat | FreeRange(Interval(a, b), s, 1) ensures a <= s {
      assert s in Interval(s, s + 1);
    }
    LowestIs(Interval(a, b), 1, a);
  }

  lemma FillNext(n: nat, flag: bool, dirty: set<PageAt>)
    requires n < 101
    ensures
      var s, c := FilledShard(n, flag, dirty), Chunk(1, Filled(n), NO_CHUNK, flag);
      Stored(Reserve(s, Range(2 + n, 3 + n)), c, n, Small(n), 3 + n)
        == FilledShard(n + 1, flag, dirty + {PageAt(0, n / ENTRIES_PER_PAGE)})
  {
    var s, c := FilledShard(n, flag, dirty), Chunk(1, Filled(n), NO_CHUNK, flag);
    var t, u := Stored(Reserve(s, Range(2 + n, 3 + n)), c, n, Small(n), 3 + n),
      FilledShard(n + 1, flag, dirty + {PageAt(0, n / ENTRIES_PER_PAGE)});
    assert Interval(2 + n, SHARD.hi) == {2 + n} + Interval(3 + n, SHARD.hi);
    assert Interval(2, 3 + n) == Interval(2, 2 + n) + {2 + n};
    assert Interval(0, n + 1) == Interval(0, n) + {n};
    assert t.free == u.free;
    assert t.held == u.held;
    assert t.index == u.index;
    assert Filled(n)[n := Some(Small(n))] == Filled(n + 1);
  }

  ghost predicate Filling(y: System, n: nat, dirty: set<PageAt>) {
    && ShardOk(SHARD, y) && y.flights == map[] && y.pending == [] && y.disk == EmptyDisk()
    && y.shard == FilledShard(n, true, dirty)
  }

  lemma FillStep(y: System, n: nat, dirty: set<PageAt>) returns (m: System)
    requires n < 101 && Filling(y, n, dirty)
    ensures Leads(y, m) && Filling(m, n + 1, dirty + {PageAt(0, n / ENTRIES_PER_PAGE)})
  {
    LowestOfInterval(2 + n, SHARD.hi);
    WholeFits(Range(2 + n, 3 + n), Buffered(n, 1, 0, 0));
    assert RecordFor(Range(2 + n, 3 + n), Buffered(n, 1, 0, 0)) == Small(n);
    FillNext(n, true, dirty);
    m := Write(y, Chunk(1, Filled(n), NO_CHUNK, true), n, Range(2 + n, 3 + n), Buffered(n, 1, 0, 0));
  }

  /** The keys up to `n` are written one after the other. */
  lemma {:induction false} Fill(y: System, n: nat, dirty: set<PageAt>) returns (z: System, more: set<PageAt>)
    requires n <= 101 && Filling(y, n, dirty)
    ensures Leads(y, z) && Filling(z, 101, more) && dirty <= more
    decreases 101 - n
  {
    if n == 101 {
      z, more := y, dirty;
      assert FirstFitRun(y, [], y);
    } else {
      var m := FillStep(y, n, dirty);
      z, more := Fill(m, n + 1, dirty + {PageAt(0, n / ENTRIES_PER_PAGE)});
      LeadsOn(y, m, z);
    }
  }

  /** Growing the empty chain makes the shard's first chunk its metadata chunk. */
  lemma Begin() returns (y: System, z: System)
    ensures y == Runs.Opened(SHARD, EmptyDisk()) && Leads(y, z) && Filling(z, 0, {PageAt(0, ENTRY_PAGES_PER_CHUNK)})
  {
    y := Runs.Opened(SHARD, EmptyDisk());
    Runs.OpenedOk(SHARD, EmptyDisk());
    OpenedEmpty();
    z := LeadsTo(y, Grow(1));
    GrownEmpty();
  }

  lemma OpenedEmpty()
    ensures Recover(SHARD, EmptyDisk()) == Shard(Interval(1, 120), map[], [], {}, map[])
  {
    assert !Readable(EmptyDisk(), Interval(1, 120), Address(1));
    assert Numbers([]) == {};
    assert Interval(1, 120) - {} == Interval(1, 120);
  }

  lemma GrownEmpty()
    ensures EnsureFreeSlots(Shard(Interval(1, 120), map[], [], {}, map[]), 1)
         == Some(FilledShard(0, true, {PageAt(0, ENTRY_PAGES_PER_CHUNK)}))
  {
    var free := Interval(1, 120);
    assert 1 in free && Min(free) == 1;
    assert free - {1} == Interval(2, 120);
    assert NoEntries(ENTRIES_PER_CHUNK) == Filled(0);
    assert Extend([], 1) == [Chunk(1, Filled(0), NO_CHUNK, true)];
    var s := FilledShard(0, true, {PageAt(0, ENTRY_PAGES_PER_CHUNK)});
    assert s.held == map[] && s.index == map[] && s.free == Interval(2, 120);
    assert FreeSlots([]) == 0 && {} + LinkPageAt([]) + LinkPageAt(Extend([], 1)) == s.dirty;
  }

  // ---------------------------------------------------------------- the first round

  lemma PageOfOne(n: nat)
    requires n < PAGES_PER_CHUNK
    ensures PageNumbered(n) == PageAt(0, n)
  {
  }

  lemma {:induction false} NoEarlierWrites(c: Chunk, marked: set<PageAt>, n: nat)
    requires |c.entries| == ENTRIES_PER_CHUNK && c.needsFullWrite && n <= ENTRY_PAGES_PER_CHUNK
    ensures WritesBelow([c], marked, n) == []
  {
    if n > 0 {
      PageOfOne(n - 1);
      NoEarlierWrites(c, marked, n - 1);
    }
  }

  /** A new chunk is written whole, once. */
  lemma FullWrites(c: Chunk, dirty: set<PageAt>)
    requires |c.entries| == ENTRIES_PER_CHUNK && c.needsFullWrite && dirty != {}
    ensures RoundWrites([c], dirty) == [MetaWrite(0, 0, EncodeChunk(c))]
  {
    var marked := Marked([c], dirty);
    assert PageAt(0, ENTRY_PAGES_PER_CHUNK) in marked by {
      assert [c][0].needsFullWrite;
    }
    PageOfOne(ENTRY_PAGES_PER_CHUNK);
    NoEarlierWrites(c, marked, ENTRY_PAGES_PER_CHUNK);
  }

  /** The first write of the round is at work. */
  ghost predicate Writing(y: System, c: Chunk, w: MetaWrite) {
    && ShardOk(SHARD, y) && y.shard.chain == [c] && c.number == 1
    && y.pending != [] && y.pending[0] == w && w.chunk == 0
    && ValidDisk(y.disk) && 1 in y.disk && w.first + |w.pages| <= PAGES_PER_CHUNK
  }

  lemma Persist(y: System, c: Chunk, w: MetaWrite, p: nat) returns (z: System)
    requires Writing(y, c, w) && p < |w.pages|
    ensures Leads(y, z) && Writing(z, c, w) && z == y.(disk := y.disk[1 := y.disk[1][w.first + p := w.pages[p]]])
  {
    z := LeadsTo(y, PersistPage(p));
  }

  lemma {:induction false} PersistPages(y: System, c: Chunk, w: MetaWrite, n: nat) returns (z: System)
    requires Writing(y, c, w) && w.first == 0 && n <= |w.pages|
    ensures Leads(y, z) && Writing(z, c, w) && z == y.(disk := z.disk)
    ensures forall p :: 0 <= p < n ==> z.disk[1][p] == w.pages[p]
    decreases n
  {
    if n == 0 {
      z := y;
      assert FirstFitRun(y, [], y);
    } else {
      var m := PersistPages(y, c, w, n - 1);
      z := Persist(m, c, w, n - 1);
      LeadsOn(y, m, z);
    }
  }

  /** The file holds the chunk. */
  ghost predicate OnFile(disk: Disk, c: Chunk) {
    && ValidDisk(disk) && 1 in disk && |c.entries| == ENTRIES_PER_CHUNK
    && forall p :: 0 <= p < PAGES_PER_CHUNK ==> disk[1][p] == EncodePage(c, p)
  }

  lemma Complete(y: System, c: Chunk) returns (z: System)
    requires |c.entries| == ENTRIES_PER_CHUNK && Writing(y, c, MetaWrite(0, 0, EncodeChunk(c))) && OnFile(y.disk, c)
    requires y.pending == [MetaWrite(0, 0, EncodeChunk(c))]
    ensures Leads(y, z)
    ensures z == y.(pending := [], shard := y.shard.(chain := [c.(needsFullWrite := false)]))
  {
    var w := y.pending[0];
    forall p | 0 <= p < |w.pages| ensures OnDisk(y.disk, 1, 0 + p, w.pages[p]) {
    }
    z := LeadsTo(y, CompleteWrite);
    assert y.pending[1..] == [];
  }

  lemma StartFull(y: System, dirty: set<PageAt>) returns (z: System)
    requires Filling(y, 101, dirty) && dirty != {}
    ensures
      var c := Chunk(1, Filled(101), NO_CHUNK, true);
      && Leads(y, z) && z == y.(pending := [MetaWrite(0, 0, EncodeChunk(c))], shard := FilledShard(101, true, {}))
      && Writing(z, c, MetaWrite(0, 0, EncodeChunk(c)))
  {
    FullWrites(Chunk(1, Filled(101), NO_CHUNK, true), dirty);
    z := LeadsTo(y, StartRound);
  }

  /** The first round initializes the chunk, with the first 101 keys in its first page. */
  lemma FirstRound(y: System, dirty: set<PageAt>) returns (z: System)
    requires Filling(y, 101, dirty) && dirty != {}
    ensures Leads(y, z) && z.flights == map[] && z.pending == [] && z.shard == FilledShard(101, false, {})
    ensures OnFile(z.disk, Chunk(1, Filled(101), NO_CHUNK, true))
  {
    var c := Chunk(1, Filled(101), NO_CHUNK, true);
    var a := StartFull(y, dirty);
    var b := PersistPages(a, c, MetaWrite(0, 0, EncodeChunk(c)), PAGES_PER_CHUNK);
    z := Complete(b, c);
    LeadsOn(y, a, b);
    LeadsOn(y, b, z);
  }

  // ---------------------------------------------------------------- reusing slots and chunks

  /** The record of `count` chunks from `start` on. */
  function Large(key: nat, start: nat, count: nat): Record
    requires count > 0
  {
    Record(key, (count - 1) * CHUNK_BYTES + 1, Address(start), 0)
  }

  lemma LargeChunks(count: nat)
    requires count > 0
    ensures CeilDiv(PayloadDiskBytes((count - 1) * CHUNK_BYTES + 1), CHUNK_BYTES) == count
  {
    var n := (count - 1) * CHUNK_BYTES + 1;
    assert PayloadDiskBytes(n) == (count - 1) * CHUNK_BYTES + PAGE_BYTES by {
      assert (n + PAGE_BYTES - 1) / PAGE_BYTES == (count - 1) * PAGES_PER_CHUNK + 1;
    }
  }

  /** What the run has made of the shard between the two rounds. */
  ghost predicate Reusing(y: System, entries: seq<Option<Record>>, free: set<nat>, dirty: set<PageAt>) {
    && Resting(y, Chunk(1, entries, NO_CHUNK, false)) && y.shard.free == free && y.shard.dirty == dirty
    && OnFile(y.disk, Chunk(1, Filled(101), NO_CHUNK, true))
  }

  /** Key `i` still has slot `i` and its chunk. */
  ghost predicate Untouched(s: Shard, i: nat) {
    i in s.index && s.index[i] == EntryOf(i) && 2 + i in s.held && s.held[2 + i] == HoldOf(2 + i)
  }

  ghost predicate NotYet(s: Shard, key: nat) {
    forall k :: key <= k ==> k !in s.index
  }

  lemma ClearedFacts(s: Shard, c: Chunk, i: nat, k: nat, next: nat)
    requires i < |c.entries| && i < 101 <= next && NotYet(s, next)
    ensures
      var z := Cleared(s, c, i, i, 2 + i, 3 + i);
      && NotYet(z, next) && (k != i && Untouched(s, k) ==> Untouched(z, k))
      && z.free == s.free + Interval(2 + i, 3 + i) && z.dirty == s.dirty + {PageAt(0, 0)}
  {
  }

  lemma RemoveSmall(y: System, i: nat, entries: seq<Option<Record>>, free: set<nat>, dirty: set<PageAt>, next: nat,
                    after: set<nat>)
    returns (z: System)
    requires Reusing(y, entries, free, dirty) && Untouched(y.shard, i) && i < 101 <= next && NotYet(y.shard, next)
    requires after == free + Interval(2 + i, 3 + i)
    ensures Leads(y, z) && NotYet(z.shard, next) && (Untouched(y.shard, i + 1) ==> Untouched(z.shard, i + 1))
    ensures Reusing(z, entries[i := None], after, dirty + {PageAt(0, 0)})
  {
    var c := Chunk(1, entries, NO_CHUNK, false);
    ClearedFacts(y.shard, c, i, i + 1, next);
    z := Remove(y, c, i, i, 2 + i, 3 + i);
  }

  lemma StoredFacts(s: Shard, c: Chunk, j: nat, key: nat, start: nat, count: nat, k: nat)
    requires j < |c.entries| && NotYet(s, key) && count > 0 && k < key
    ensures
      var z := Stored(Reserve(s, Range(start, start + count)), c, j, Large(key, start, count), start + count);
      && NotYet(z, key + 1) && (2 + k != start && Untouched(s, k) ==> Untouched(z, k))
      && key in z.index && RecordOf(key, z.index[key]) == Large(key, start, count) && z.index[key].slot == Slot(0, j)
  {
    assert Address(start) / CHUNK_BYTES == start;
  }

  lemma WriteLarge(y: System, key: nat, j: nat, start: nat, count: nat, entries: seq<Option<Record>>, free: set<nat>,
                   dirty: set<PageAt>)
    returns (z: System)
    requires Reusing(y, entries, free, dirty) && FirstGap(entries, j) && NotYet(y.shard, key)
    requires count > 0 && LowestRun(free, count) == Some(start)
    ensures
      var c, r := Chunk(1, entries, NO_CHUNK, false), Large(key, start, count);
      Leads(y, z) && z.shard == Stored(Reserve(y.shard, Range(start, start + count)), c, j, r, start + count)
    ensures
      var after := entries[j := Some(Large(key, start, count))];
      Reusing(z, after, free - Interval(start, start + count), dirty + {PageAt(0, j / ENTRIES_PER_PAGE)})
  {
    var length := (count - 1) * CHUNK_BYTES + 1;
    LargeFits(key, start, count);
    var r, b := Range(start, start + count), Buffered(key, length, 0, 0);
    StoredShape(Reserve(y.shard, r), Chunk(1, entries, NO_CHUNK, false), j, Large(key, start, count), r.end);
    z := Write(y, Chunk(1, entries, NO_CHUNK, false), j, r, b);
  }

  lemma StoredShape(s: Shard, c: Chunk, j: nat, r: Record, end: nat)
    requires j < |c.entries|
    ensures
      var z := Stored(s, c, j, r, end);
      && z.free == s.free && z.dirty == s.dirty + {PageAt(0, j / ENTRIES_PER_PAGE)}
      && z.chain == [c.(entries := c.entries[j := Some(r)])]
  {
  }

  lemma LargeFits(key: nat, start: nat, count: nat)
    requires count > 0
    ensures
      var r, b := Range(start, start + count), Buffered(key, (count - 1) * CHUNK_BYTES + 1, 0, 0);
      Fits(SHARD, r, b) && RecordFor(r, b) == Large(key, start, count)
  {
    LargeChunks(count);
    WholeFits(Range(start, start + count), Buffered(key, (count - 1) * CHUNK_BYTES + 1, 0, 0));
  }

  /** The lowest run in two free intervals. */
  lemma LowestOfTwo(a: nat, b: nat, c: nat, d: nat, count: nat)
    requires a < b < c < d && 0 < count <= d - c
    ensures LowestRun(Interval(a, b) + Interval(c, d), count) == Some(if count <= b - a then a else c)
  {
    var free, start := Interval(a, b) + Interval(c, d), if count <= b - a then a else c;
    assert Interval(start, start + count) <= free;
    forall s: nat ensures FreeRange(free, s, count) ==> start <= s {
      assert s in Interval(s, s + count);
      if s < start && s in free {
        assert b in Interval(s, s + count);
      }
    }
    LowestIs(free, count, start);
  }

  lemma FilledFacts(n: nat, k: nat)
    requires k < n
    ensures Untouched(FilledShard(n, false, {}), k) && NotYet(FilledShard(n, false, {}), n)
  {
    assert k in Interval(0, n) && 2 + k in Interval(2, 2 + n);
  }

  /** The free chunks after each step. */
  lemma FreeSets()
    ensures Interval(103, 120) + Interval(2, 3) == Interval(2, 3) + Interval(103, 120)
    ensures Interval(2, 3) + Interval(103, 120) - Interval(103, 105) == Interval(2, 3) + Interval(105, 120)
    ensures Interval(2, 3) + Interval(105, 120) + Interval(3, 4) == Interval(2, 4) + Interval(105, 120)
    ensures Interval(2, 4) + Interval(105, 120) - Interval(105, 108) == Interval(2, 4) + Interval(108, 120)
    ensures {} + {PageAt(0, 0)} == {PageAt(0, 0)} == {PageAt(0, 0)} + {PageAt(0, 0)}
  {
  }

  lemma RefillEntries()
    ensures Filled(101)[0 := None][0 := Some(Large(101, 103, 2))] == FirstRefill()
    ensures FirstRefill()[1 := None][1 := Some(Large(102, 105, 3))] == Refilled()
  {
  }

  /** Slot 0 is free again, and so is the chunk of key 0. */
  lemma FreeFirst(y: System) returns (z: System)
    requires Reusing(y, Filled(101), Interval(103, 120), {})
    requires NotYet(y.shard, 101) && Untouched(y.shard, 0) && Untouched(y.shard, 1)
    ensures Leads(y, z) && NotYet(z.shard, 101) && Untouched(z.shard, 1)
    ensures Reusing(z, Filled(101)[0 := None], Interval(2, 3) + Interval(103, 120), {PageAt(0, 0)})
  {
    FreeSets();
    z := RemoveSmall(y, 0, Filled(101), Interval(103, 120), {}, 101, Interval(2, 3) + Interval(103, 120));
  }

  ghost function FirstRefill(): (entries: seq<Option<Record>>)
    ensures |entries| == ENTRIES_PER_CHUNK && forall i :: 0 <= i < ENTRIES_PER_CHUNK ==> (entries[i].Some? <==> i < 101)
  {
    Filled(101)[0 := Some(Large(101, 103, 2))]
  }

  /** Key 101 takes slot 0, with two chunks further on. */
  lemma RefillFirst(y: System) returns (z: System)
    requires NotYet(y.shard, 101) && Untouched(y.shard, 1)
    requires Reusing(y, Filled(101)[0 := None], Interval(2, 3) + Interval(103, 120), {PageAt(0, 0)})
    ensures Leads(y, z) && NotYet(z.shard, 102) && Untouched(z.shard, 1)
    ensures Reusing(z, FirstRefill(), Interval(2, 3) + Interval(105, 120), {PageAt(0, 0)})
  {
    var entries, free := Filled(101)[0 := None], Interval(2, 3) + Interval(103, 120);
    LowestOfTwo(2, 3, 103, 120, 2);
    FreeSets();
    RefillEntries();
    z := WriteLarge(y, 101, 0, 103, 2, entries, free, {PageAt(0, 0)});
    StoredFacts(y.shard, Chunk(1, entries, NO_CHUNK, false), 0, 101, 103, 2, 1);
  }

  /** Slot 1 is free again, and so is the chunk of key 1, next to the one of key 0. */
  lemma FreeSecond(y: System) returns (z: System)
    requires NotYet(y.shard, 102) && Untouched(y.shard, 1)
    requires Reusing(y, FirstRefill(), Interval(2, 3) + Interval(105, 120), {PageAt(0, 0)})
    ensures Leads(y, z) && NotYet(z.shard, 102)
    ensures Reusing(z, FirstRefill()[1 := None], Interval(2, 4) + Interval(105, 120), {PageAt(0, 0)})
  {
    FreeSets();
    var free := Interval(2, 3) + Interval(105, 120);
    z := RemoveSmall(y, 1, FirstRefill(), free, {PageAt(0, 0)}, 102, Interval(2, 4) + Interval(105, 120));
  }

  ghost function Refilled(): (entries: seq<Option<Record>>)
    ensures |entries| == ENTRIES_PER_CHUNK && forall i :: 0 <= i < ENTRIES_PER_CHUNK ==> (entries[i].Some? <==> i < 101)
  {
    FirstRefill()[1 := Some(Large(102, 105, 3))]
  }

  /** Key 102 takes slot 1, with three chunks further on. */
  lemma RefillSecond(y: System) returns (z: System)
    requires NotYet(y.shard, 102)
    requires Reusing(y, FirstRefill()[1 := None], Interval(2, 4) + Interval(105, 120), {PageAt(0, 0)})
    ensures Leads(y, z) && NotYet(z.shard, 103)
    ensures Reusing(z, Refilled(), Interval(2, 4) + Interval(108, 120), {PageAt(0, 0)})
  {
    var entries, free := FirstRefill()[1 := None], Interval(2, 4) + Interval(105, 120);
    LowestOfTwo(2, 4, 105, 120, 3);
    FreeSets();
    RefillEntries();
    z := WriteLarge(y, 102, 1, 105, 3, entries, free, {PageAt(0, 0)});
    StoredFacts(y.shard, Chunk(1, entries, NO_CHUNK, false), 1, 102, 105, 3, 0);
  }

  /** The record that will be lost: two chunks, from the chunk that key 0 had. */
  function Lost(): Record {
    Large(103, 2, 2)
  }

  ghost function Reused(): Chunk {
    Chunk(1, Refilled()[101 := Some(Lost())], NO_CHUNK, false)
  }

  /** Key 103 takes both freed chunks, and the first slot of the second page. */
  lemma TakeFreed(y: System) returns (z: System)
    requires NotYet(y.shard, 103) && Reusing(y, Refilled(), Interval(2, 4) + Interval(108, 120), {PageAt(0, 0)})
    ensures Leads(y, z) && LiveAt(z.shard, Slot(0, 101), Lost()) && z.shard.chain == [Reused()]
    ensures z.shard.dirty == {PageAt(0, 0), PageAt(0, 1)} && z.pending == []
    ensures OnFile(z.disk, Chunk(1, Filled(101), NO_CHUNK, true))
  {
    var free := Interval(2, 4) + Interval(108, 120);
    LowestOfTwo(2, 4, 108, 120, 2);
    z := WriteLarge(y, 103, 101, 2, 2, Refilled(), free, {PageAt(0, 0)});
    StoredFacts(y.shard, Chunk(1, Refilled(), NO_CHUNK, false), 101, 103, 2, 2, 0);
    assert {PageAt(0, 0)} + {PageAt(0, 1)} == {PageAt(0, 0), PageAt(0, 1)};
  }

  // ---------------------------------------------------------------- the second round

  lemma {:induction false} LaterPageFirst(c: Chunk, n: nat)
    requires |c.entries| == ENTRIES_PER_CHUNK && !c.needsFullWrite && 2 <= n <= PAGES_PER_CHUNK
    ensures
      var writes := WritesBelow([c], {PageAt(0, 0), PageAt(0, 1)}, n);
      writes != [] && writes[0] == MetaWrite(0, 1, [EncodePage(c, 1)])
  {
    PageOfOne(n - 1);
    if n > 2 {
      LaterPageFirst(c, n - 1);
    }
  }

  /** The round writes the second page, and the process stops before it writes the first. */
  lemma SecondRound(y: System) returns (z: System)
    requires ShardOk(SHARD, y) && y.shard.chain == [Reused()] && y.shard.dirty == {PageAt(0, 0), PageAt(0, 1)}
    requires y.pending == [] && OnFile(y.disk, Chunk(1, Filled(101), NO_CHUNK, true))
    ensures Leads(y, z) && z.shard == y.shard.(dirty := {})
    ensures z.disk == y.disk[1 := y.disk[1][1 := EncodePage(Reused(), 1)]]
  {
    var c := Reused();
    assert Marked([c], y.shard.dirty) == y.shard.dirty;
    LaterPageFirst(c, PAGES_PER_CHUNK);
    var m := LeadsTo(y, StartRound);
    z := Persist(m, c, MetaWrite(0, 1, [EncodePage(c, 1)]), 0);
    LeadsOn(y, m, z);
  }

  // ---------------------------------------------------------------- recovery

  /** The pages that the stop leaves: the old first page beside the new second one. */
  ghost function TornPages(): (pages: seq<Page>)
    ensures |pages| == PAGES_PER_CHUNK
  {
    EncodeChunk(Chunk(1, Filled(101), NO_CHUNK, true))[1 := EncodePage(Reused(), 1)]
  }

  /** What recovery reads in slot `i`. */
  ghost function Torn(i: nat): Option<Record> {
    if i < 101 then Some(Small(i)) else if i == 101 then Some(Lost()) else None
  }

  lemma TornEntry(i: nat)
    requires i < ENTRIES_PER_CHUNK
    ensures EntryOn(TornPages(), i) == Torn(i)
  {
    var p, k := i / ENTRIES_PER_PAGE, i % ENTRIES_PER_PAGE;
    assert i == p * ENTRIES_PER_PAGE + k && p < ENTRY_PAGES_PER_CHUNK;
    var entries := if p == 1 then Reused().entries else Filled(101);
    assert TornPages()[p] == EntryPage(PageEntries(entries, p));
    assert PageEntries(entries, p)[k] == entries[i];
  }

  lemma TornLoads(disk: Disk)
    requires ValidDisk(disk) && 1 in disk && disk[1] == TornPages()
    ensures
      var s := Loaded(SHARD, disk);
      && |s.chain| == 1 && s.free == Interval(2, 120) && |s.chain[0].entries| == ENTRIES_PER_CHUNK
      && forall i :: 0 <= i < ENTRIES_PER_CHUNK ==> s.chain[0].entries[i] == Torn(i)
  {
    var all := Interval(1, 120);
    assert disk[1][0].EntryPage? && !AllZero(disk[1]);
    assert Readable(disk, all, Address(1)) && Address(1) / CHUNK_BYTES == 1;
    assert LinkOf(disk[1]) == Some(NO_CHUNK) && !Readable(disk, all - {1}, NO_CHUNK);
    var chunk := LoadedChunk(1, disk[1]);
    assert Load(disk, all, Address(1)).0 == [chunk];
    forall i | 0 <= i < ENTRIES_PER_CHUNK ensures chunk.entries[i] == Torn(i) {
      TornEntry(i);
    }
    assert Numbers([chunk]) == {1} by {
      assert [chunk][0].number == 1;
    }
    assert all - {1} == Interval(2, 120);
  }

  /** The records that recovery keeps are among the ones it read. */
  lemma TornRecords(disk: Disk, u: Slot)
    requires ValidDisk(disk) && 1 in disk && disk[1] == TornPages() && HasSlot(Recover(SHARD, disk).chain, u)
    ensures u.chunk == 0 && u.entry < ENTRIES_PER_CHUNK
    ensures var e := EntryAt(Recover(SHARD, disk).chain, u); e.Some? ==> e == Torn(u.entry)
  {
    TornLoads(disk);
    CrashSafety.RecoverClears(SHARD, disk);
    var loaded := Load(disk, Interval(1, 120), Address(1)).0;
    assert CrashSafety.ClearsChunk(loaded[0], Recover(SHARD, disk).chain[0]);
    assert loaded[0].entries == Loaded(SHARD, disk).chain[0].entries;
  }

  lemma SmallExtent(i: nat)
    ensures First(Small(i)) == 2 + i && Last(Small(i)) == 3 + i
  {
    assert PayloadDiskBytes(1) == PAGE_BYTES;
  }

  lemma LostExtent()
    ensures First(Lost()) == 2 && Last(Lost()) == 4
  {
    LargeChunks(2);
  }

  /** The stale record of key 0 is read first, and claims its chunk. */
  lemma StaleSurvives(disk: Disk)
    requires ValidDisk(disk) && 1 in disk && disk[1] == TornPages()
    ensures EarlierRecord(Recover(SHARD, disk).chain, Slot(0, 101), Slot(0, 0), Small(0))
  {
    TornLoads(disk);
    SurvivesIff(SHARD, disk, Slot(0, 0), Small(0));
    SmallExtent(0);
    TornRecords(disk, Slot(0, 0));
  }

  /** The live record needs that chunk and the next one, so it is rejected. */
  lemma LostIsRejected(disk: Disk)
    requires ValidDisk(disk) && 1 in disk && disk[1] == TornPages()
    ensures
      var after := Recover(SHARD, disk).chain;
      HasSlot(after, Slot(0, 101)) && EntryAt(after, Slot(0, 101)).None?
  {
    var after, u := Recover(SHARD, disk).chain, Slot(0, 101);
    TornLoads(disk);
    SurvivesIff(SHARD, disk, u, Lost());
    StaleSurvives(disk);
    SmallExtent(0);
    LostExtent();
    assert Survival.Covers(Small(0), 2) && Survival.Covers(Lost(), 2);
    forall v, x | EarlierRecord(after, u, v, x) ensures First(x) == First(Lost()) ==> Last(x) < Last(Lost()) {
      TornRecords(disk, v);
      SmallExtent(v.entry);
    }
  }

  lemma LostOnPage(disk: Disk)
    requires ValidDisk(disk) && 1 in disk && disk[1] == TornPages()
    ensures OnPages(disk, [Reused()], Slot(0, 101), 1, 0, Lost())
  {
    assert PageEntries(Reused().entries, 1)[0] == Reused().entries[101];
  }

  lemma LostKey(disk: Disk)
    requires ValidDisk(disk) && 1 in disk && disk[1] == TornPages()
    ensures 103 !in Recover(SHARD, disk).index
  {
    var s := Recover(SHARD, disk);
    RecoverInv(SHARD, disk);
    LostIsRejected(disk);
    if 103 in s.index {
      assert Placed(SHARD, s, EndSlot(s), 103, s.index[103]);
      TornRecords(disk, s.index[103].slot);
    }
  }

  // ---------------------------------------------------------------- the whole run

  lemma Reuse(y: System) returns (z: System)
    requires Reusing(y, Filled(101), Interval(103, 120), {})
    requires NotYet(y.shard, 101) && Untouched(y.shard, 0) && Untouched(y.shard, 1)
    ensures Leads(y, z) && LiveAt(z.shard, Slot(0, 101), Lost()) && z.shard.chain == [Reused()]
    ensures z.shard.dirty == {PageAt(0, 0), PageAt(0, 1)} && z.pending == []
    ensures OnFile(z.disk, Chunk(1, Filled(101), NO_CHUNK, true))
  {
    var a := FreeFirst(y);
    var b := RefillFirst(a);
    var c := FreeSecond(b);
    var d := RefillSecond(c);
    z := TakeFreed(d);
    LeadsOn(y, a, b);
    LeadsOn(y, b, c);
    LeadsOn(y, c, d);
    LeadsOn(y, d, z);
  }

  lemma FillAndWrite() returns (y: System, z: System)
    ensures y == Runs.Opened(SHARD, EmptyDisk()) && Leads(y, z)
    ensures Reusing(z, Filled(101), Interval(103, 120), {})
    ensures NotYet(z.shard, 101) && Untouched(z.shard, 0) && Untouched(z.shard, 1)
  {
    var a, b, dirty;
    y, a := Begin();
    b, dirty := Fill(a, 0, {PageAt(0, ENTRY_PAGES_PER_CHUNK)});
    assert PageAt(0, ENTRY_PAGES_PER_CHUNK) in dirty;
    z := FirstRound(b, dirty);
    FilledFacts(101, 0);
    FilledFacts(101, 1);
    LeadsOn(y, a, b);
    LeadsOn(y, b, z);
  }

  lemma TornFile(before: Disk, disk: Disk)
    requires OnFile(before, Chunk(1, Filled(101), NO_CHUNK, true))
    requires disk == before[1 := before[1][1 := EncodePage(Reused(), 1)]]
    ensures ValidDisk(disk) && 1 in disk && disk[1] == TornPages()
  {
    assert before[1] == EncodeChunk(Chunk(1, Filled(101), NO_CHUNK, true));
  }

  /**
   Earliest reuse does not keep live records before stale ones. In this run from a file of zeroes, without a
   reopen and with every reservation the lowest that fits, the record of key 103 is live, is on disk where
   recovery reads it, and the payload chunks are its own. Recovery rejects it for the stale record of key 0.
   */
  lemma LiveRecordLost() returns (actions: seq<Action>, z: System)
    ensures Runs.Cleared(SHARD, EmptyDisk()) && ShardOk(SHARD, Runs.Opened(SHARD, EmptyDisk()))
    ensures Runs.Reaches(SHARD, Runs.Opened(SHARD, EmptyDisk()), actions, z)
    ensures FirstFitRun(Runs.Opened(SHARD, EmptyDisk()), actions, z)
    ensures ValidDisk(z.disk) && LiveAt(z.shard, Slot(0, 101), Lost())
    ensures OnPages(z.disk, z.shard.chain, Slot(0, 101), 1, 0, Lost())
    ensures 103 in z.shard.index && 103 !in Recover(SHARD, z.disk).index
  {
    var y, a := FillAndWrite();
    var b := Reuse(a);
    z := SecondRound(b);
    LeadsOn(y, a, b);
    LeadsOn(y, b, z);
    TornFile(b.disk, z.disk);
    LostOnPage(z.disk);
    LostKey(z.disk);
    actions :| FirstFitRun(y, actions, z);
    IsRun(y, actions, z);
  }
}
