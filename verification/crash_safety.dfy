/**
 From a file whose first chunk is zero, the links on disk never lead anywhere but along the chain in
 memory, and only records that a publication stored can be found there.
 */
module CrashSafety {
  import opened Layout
  import opened Metadata
  import opened ShardModel
  import opened Publication
  import opened Recovery
  import opened RoundTrip
  import opened CrashModel

  /** Chunks whose contents on disk can be reached: the first one, and fully written ones. */
  ghost predicate Established(chain: Chain, i: nat) {
    i < |chain| && (i == 0 || !chain[i].needsFullWrite)
  }

  /** A link value may end the chain, or name the next chunk if that one is fully written. */
  ghost predicate LinkAllowed(chain: Chain, i: nat, next: nat) {
    next == NO_CHUNK || (i + 1 < |chain| && next == Address(chain[i + 1].number) && !chain[i + 1].needsFullWrite)
  }

  ghost predicate LinkSafe(chain: Chain, disk: Disk, i: nat)
    requires ValidDisk(disk) && i < |chain|
  {
    chain[i].number in disk && match LinkOf(disk[chain[i].number])
      case None => i == 0
      case Some(next) => LinkAllowed(chain, i, next)
  }

  ghost predicate EntriesStored(entries: seq<Option<Record>>, stored: set<Record>) {
    forall j :: 0 <= j < |entries| && entries[j].Some? ==> entries[j].value in stored
  }

  ghost predicate PageStored(page: Page, stored: set<Record>) {
    page.EntryPage? ==> EntriesStored(page.entries, stored)
  }

  ghost predicate PagesStored(pages: seq<Page>, stored: set<Record>) {
    forall p :: 0 <= p < |pages| ==> PageStored(pages[p], stored)
  }

  /** What the links on disk may be at any moment, whatever was torn, lost or stale. */
  ghost predicate DiskSafe(g: Config, y: System) {
    && ValidDisk(y.disk) && Interval(g.lo, g.hi) <= y.disk.Keys
    && (y.shard.chain == [] ==> g.lo in y.disk && AllZero(y.disk[g.lo]))
    && (forall i: nat :: Established(y.shard.chain, i) ==>
          LinkSafe(y.shard.chain, y.disk, i) && PagesStored(y.disk[y.shard.chain[i].number], y.stored))
  }

  ghost predicate MemoryStored(y: System) {
    forall i :: 0 <= i < |y.shard.chain| ==> EntriesStored(y.shard.chain[i].entries, y.stored)
  }

  /** A pending write covers one page of an initialized chunk, or all pages of a chunk. */
  ghost predicate WellShaped(chain: Chain, w: MetaWrite) {
    && w.chunk < |chain|
    && (if Full(w) then w.first == 0 else |w.pages| == 1 && w.first < PAGES_PER_CHUNK && Established(chain, w.chunk))
    && forall p :: 0 <= p < |w.pages| ==> (w.pages[p].LinkPage? <==> w.first + p == ENTRY_PAGES_PER_CHUNK)
  }

  /** The next chunk is initialized, or its whole write comes earlier in the round. */
  ghost predicate Initialized(chain: Chain, earlier: seq<MetaWrite>, i: nat) {
    i < |chain| && (chain[i].needsFullWrite ==>
      exists j :: 0 <= j < |earlier| && earlier[j].chunk == i && Full(earlier[j]))
  }

  ghost predicate LinkInOrder(chain: Chain, earlier: seq<MetaWrite>, i: nat, next: nat) {
    next == NO_CHUNK || (Initialized(chain, earlier, i + 1) && next == Address(chain[i + 1].number))
  }

  ghost predicate WriteSafe(chain: Chain, pending: seq<MetaWrite>, j: nat, stored: set<Record>)
    requires j < |pending|
  {
    var w := pending[j];
    && WellShaped(chain, w)
    && PagesStored(w.pages, stored)
    && forall p :: 0 <= p < |w.pages| && w.pages[p].LinkPage? ==>
      LinkInOrder(chain, pending[..j], w.chunk, w.pages[p].next)
  }

  ghost predicate RoundSafe(chain: Chain, pending: seq<MetaWrite>, stored: set<Record>) {
    forall j :: 0 <= j < |pending| ==> WriteSafe(chain, pending, j, stored)
  }

  ghost predicate Safe(g: Config, y: System)
    requires ValidConfig(g)
  {
    && ShardOk(g, y)
    && DiskSafe(g, y)
    && MemoryStored(y)
    && RoundSafe(y.shard.chain, y.pending, y.stored)
  }

  // ---------------------------------------------------------------- following the links

  /** What following the links from chunk `i` of the chain finds. */
  ghost predicate Found(chain: Chain, disk: Disk, i: nat, found: Chain)
    requires ValidDisk(disk)
  {
    && i + |found| <= |chain|
    && (forall j :: 0 <= j < |found| ==> found[j].number == chain[i + j].number && Established(chain, i + j))
    && (forall j :: 0 <= j < |found| ==>
      found[j].number in disk && found[j] == LoadedChunk(found[j].number, disk[found[j].number]))
    && (forall j {:trigger NextAddress(found, j)} :: 0 <= j < |found| - 1 ==>
      LinkOf(disk[found[j].number]) == Some(NextAddress(found, j)))
    && (found != [] ==>
      var end := LinkOf(disk[found[|found| - 1].number]);
      end == Some(NO_CHUNK) || (end == None && i + |found| == 1))
  }

  lemma {:induction false} LoadFound(g: Config, y: System, w: map<nat, Range>, free: set<nat>, i: nat)
    requires ValidConfig(g) && OneOwner(y.shard, w, g.lo, g.hi) && DiskSafe(g, y)
    requires Established(y.shard.chain, i) && (i == 0 ==> !AllZero(y.disk[y.shard.chain[0].number]))
    requires forall j :: i <= j < |y.shard.chain| ==> y.shard.chain[j].number in free
    ensures var found := Load(y.disk, free, Address(y.shard.chain[i].number)).0;
      found != [] && Found(y.shard.chain, y.disk, i, found)
    decreases |y.shard.chain| - i
  {
    var chain := y.shard.chain;
    var c := chain[i].number;
    ChainNumber(g, y.shard, w, i);
    assert LinkSafe(chain, y.disk, i);
    assert !AllZero(y.disk[c]) by {
      if i > 0 { assert y.disk[c][ENTRY_PAGES_PER_CHUNK] != Zero; }
    }
    assert Readable(y.disk, free, Address(c));
    match LinkOf(y.disk[c])
    case None =>
    case Some(next) =>
      if next == NO_CHUNK {
        assert Load(y.disk, free - {c}, NO_CHUNK).0 == [];
      } else {
        LoadFound(g, y, w, free - {c}, i + 1);
        FoundCons(chain, y.disk, i, LoadedChunk(c, y.disk[c]), Load(y.disk, free - {c}, next).0);
      }
  }

  lemma FoundCons(chain: Chain, disk: Disk, i: nat, first: Chunk, rest: Chain)
    requires ValidDisk(disk) && rest != [] && Found(chain, disk, i + 1, rest)
    requires Established(chain, i) && first.number == chain[i].number && first.number in disk
    requires first == LoadedChunk(first.number, disk[first.number])
    requires LinkOf(disk[first.number]) == Some(Address(rest[0].number))
    ensures Found(chain, disk, i, [first] + rest)
  {
    var found := [first] + rest;
    forall j | 0 <= j < |found|
      ensures found[j].number == chain[i + j].number && Established(chain, i + j)
      ensures found[j].number in disk && found[j] == LoadedChunk(found[j].number, disk[found[j].number])
    {
      if j > 0 {
        var m: nat := j - 1;
        assert found[j] == rest[m] && rest[m].number == chain[i + 1 + m].number && Established(chain, i + 1 + m);
        assert i + 1 + m == i + j;
      }
    }
    forall j {:trigger NextAddress(found, j)} | 0 <= j < |found| - 1
      ensures LinkOf(disk[found[j].number]) == Some(NextAddress(found, j))
    {
      assert j > 0 ==> NextAddress(rest, j - 1) == NextAddress(found, j);
    }
  }

  /** Following the links on disk from the shard's first chunk visits only a prefix of the chain in memory. */
  lemma LinksFollowChain(g: Config, y: System)
    requires ValidConfig(g) && Safe(g, y)
    ensures Found(y.shard.chain, y.disk, 0, Load(y.disk, Interval(g.lo, g.hi), Address(g.lo)).0)
    ensures Load(y.disk, Interval(g.lo, g.hi), Address(g.lo)).0 == [] ==> AllZero(y.disk[g.lo])
  {
    var all := Interval(g.lo, g.hi);
    assert g.lo in y.disk by { assert g.lo in all; }
    if AllZero(y.disk[g.lo]) {
      assert !Readable(y.disk, all, Address(g.lo));
    } else {
      forall j | 0 <= j < |y.shard.chain| ensures y.shard.chain[j].number in all {
        ChainNumber(g, y.shard, y.flights, j);
      }
      LoadFound(g, y, y.flights, all, 0);
    }
  }

  // ---------------------------------------------------------------- actions on memory

  /** Chunks stay where they are in the chain; new ones are uninitialized. */
  ghost predicate Grows(a: Chain, b: Chain) {
    && |a| <= |b|
    && (forall i :: 0 <= i < |a| ==> b[i].number == a[i].number && b[i].needsFullWrite == a[i].needsFullWrite)
    && (forall i :: |a| <= i < |b| ==> b[i].needsFullWrite)
  }

  lemma GrowsKeepsDisk(g: Config, y: System, z: System)
    requires ValidConfig(g) && DiskSafe(g, y)
    requires z.disk == y.disk && Grows(y.shard.chain, z.shard.chain) && y.stored <= z.stored
    requires z.shard.chain != [] ==> z.shard.chain[0].number == g.lo
    ensures DiskSafe(g, z)
  {
    forall i: nat | Established(z.shard.chain, i)
      ensures LinkSafe(z.shard.chain, z.disk, i) && PagesStored(z.disk[z.shard.chain[i].number], z.stored)
    {
      if i < |y.shard.chain| {
        assert Established(y.shard.chain, i) && LinkSafe(y.shard.chain, y.disk, i);
      } else {
        assert AllZero(y.disk[g.lo]);
      }
    }
  }

  lemma GrowsKeepsRound(a: Chain, b: Chain, pending: seq<MetaWrite>, stored: set<Record>, stored': set<Record>)
    requires RoundSafe(a, pending, stored) && Grows(a, b) && stored <= stored'
    ensures RoundSafe(b, pending, stored')
  {
    forall j | 0 <= j < |pending| ensures WriteSafe(b, pending, j, stored') {
      assert WriteSafe(a, pending, j, stored);
    }
  }

  lemma GrowsTransitive(a: Chain, b: Chain, c: Chain)
    requires Grows(a, b) && Grows(b, c)
    ensures Grows(a, c)
  {
  }

  lemma EnsureGrows(s: Shard, count: nat, stored: set<Record>)
    requires EnsureFreeSlots(s, count).Some?
    requires forall i :: 0 <= i < |s.chain| ==> EntriesStored(s.chain[i].entries, stored)
    ensures var chain := EnsureFreeSlots(s, count).value.chain;
      Grows(s.chain, chain) && forall i :: 0 <= i < |chain| ==> EntriesStored(chain[i].entries, stored)
  {
  }

  lemma {:induction false} PublishAllGrows(s: Shard, r: Range, batch: seq<Buffered>)
    ensures Grows(s.chain, PublishAll(s, r, batch).chain)
    decreases |batch|
  {
    if batch != [] {
      var n := |batch| - 1;
      PublishAllGrows(PublishOne(s, r, batch[n]), r, batch[..n]);
      GrowsTransitive(s.chain, PublishOne(s, r, batch[n]).chain, PublishAll(s, r, batch).chain);
    }
  }

  lemma PublishGrows(s: Shard, r: Range, batch: seq<Buffered>)
    ensures Grows(s.chain, Publish(s, r, batch).chain)
  {
    if EnsureFreeSlots(s, |batch|).Some? {
      var grown := EnsureFreeSlots(s, |batch|).value;
      PublishGrown(s, r, batch);
      PublishAllGrows(HoldChunks(grown, r, |batch|), r, batch);
      assert Grows(s.chain, grown.chain) by {
        GrownChain(s, |batch|);
      }
      GrowsTransitive(s.chain, grown.chain, Publish(s, r, batch).chain);
    }
  }

  lemma GrownChain(s: Shard, count: nat)
    requires EnsureFreeSlots(s, count).Some?
    ensures Grows(s.chain, EnsureFreeSlots(s, count).value.chain)
  {
  }

  /** A slot of the published shard holds a record that was stored before, or one that is newly indexed. */
  lemma PublishedSlot(g: Config, s: Shard, after: Shard, stored: set<Record>, t: Slot)
    requires ValidConfig(g) && Indexed(g, s, EndSlot(s)) && Indexed(g, after, EndSlot(after))
    requires forall k :: k in s.index ==> k in after.index && after.index[k] == s.index[k]
    requires forall i :: 0 <= i < |s.chain| ==> EntriesStored(s.chain[i].entries, stored)
    requires HasSlot(after.chain, t) && EntryAt(after.chain, t).Some?
    ensures EntryAt(after.chain, t).value in stored + NewRecords(s.index, after.index)
  {
    var k := EntryAt(after.chain, t).value.key;
    assert Before(t, EndSlot(after));
    assert Placed(g, after, EndSlot(after), k, after.index[k]);
    if k in s.index {
      assert Placed(g, s, EndSlot(s), k, s.index[k]);
      assert EntriesStored(s.chain[t.chunk].entries, stored);
    }
  }

  ghost predicate MemoryAction(a: Action) {
    a.Grow? || a.ReserveChunks? || a.Abandon? || a.PublishBatch? || a.RemoveKey?
  }

  lemma RemoveGrows(s: Shard, key: nat, stored: set<Record>)
    requires forall i :: 0 <= i < |s.chain| ==> EntriesStored(s.chain[i].entries, stored)
    ensures var chain := RemoveEntry(s, key).chain;
      Grows(s.chain, chain) && forall i :: 0 <= i < |chain| ==> EntriesStored(chain[i].entries, stored)
  {
  }

  lemma MemoryGrows(g: Config, y: System, a: Action)
    requires ValidConfig(g) && ShardOk(g, y) && Enabled(g, y, a) && MemoryAction(a) && MemoryStored(y)
    ensures var z := Apply(g, y, a); Grows(y.shard.chain, z.shard.chain) && MemoryStored(z)
  {
    if a.PublishBatch? {
      PublishGrows(y.shard, y.flights[a.id], a.batch);
      PublishStored(g, y, a.id, a.batch);
    } else if a.RemoveKey? {
      RemoveGrows(y.shard, a.key, y.stored);
    } else if a.Grow? && EnsureFreeSlots(y.shard, a.count).Some? {
      EnsureGrows(y.shard, a.count, y.stored);
    }
  }

  lemma PublishStored(g: Config, y: System, id: nat, batch: seq<Buffered>)
    requires ValidConfig(g) && ShardOk(g, y) && Enabled(g, y, PublishBatch(id, batch)) && MemoryStored(y)
    ensures MemoryStored(Apply(g, y, PublishBatch(id, batch)))
  {
    var z := Apply(g, y, PublishBatch(id, batch));
    ApplyKeepsShard(g, y, PublishBatch(id, batch));
    PublishIndex(g, y.shard, y.flights, id, batch);
    forall i, j | 0 <= i < |z.shard.chain| && 0 <= j < |z.shard.chain[i].entries| && z.shard.chain[i].entries[j].Some?
      ensures z.shard.chain[i].entries[j].value in z.stored
    {
      PublishedSlot(g, y.shard, z.shard, y.stored, Slot(i, j));
    }
  }

  /** A memory action leaves the disk and the round alone. */
  lemma MemoryFrame(g: Config, y: System, a: Action)
    requires ValidConfig(g) && FullSized(y.shard.chain) && Enabled(g, y, a) && MemoryAction(a)
    ensures var z := Apply(g, y, a);
      z.disk == y.disk && z.pending == y.pending && y.stored <= z.stored
  {
  }

  lemma MemoryActionSafe(g: Config, y: System, a: Action)
    requires ValidConfig(g) && Safe(g, y) && Enabled(g, y, a) && MemoryAction(a)
    ensures Safe(g, Apply(g, y, a))
  {
    var z := Apply(g, y, a);
    MemoryFrame(g, y, a);
    MemoryGrows(g, y, a);
    ApplyKeepsShard(g, y, a);
    assert DiskSafe(g, z) by {
      GrowsKeepsDisk(g, y, z);
    }
    assert RoundSafe(z.shard.chain, z.pending, z.stored) by {
      GrowsKeepsRound(y.shard.chain, z.shard.chain, y.pending, y.stored, z.stored);
    }
  }

  // ---------------------------------------------------------------- payload pages

  /** Writing into a chunk outside the chain cannot affect what the links lead to. */
  lemma ElsewhereKeepsDisk(g: Config, y: System, c: nat, p: nat, page: Page)
    requires DiskSafe(g, y)
    requires forall i :: 0 <= i < |y.shard.chain| ==> y.shard.chain[i].number != c
    requires y.shard.chain == [] ==> c != g.lo
    ensures DiskSafe(g, y.(disk := WritePage(y.disk, c, p, page)))
  {
    var z := y.(disk := WritePage(y.disk, c, p, page));
    forall i: nat | Established(z.shard.chain, i)
      ensures LinkSafe(z.shard.chain, z.disk, i) && PagesStored(z.disk[z.shard.chain[i].number], z.stored)
    {
      assert Established(y.shard.chain, i) && LinkSafe(y.shard.chain, y.disk, i);
    }
  }

  lemma PayloadOutsideChain(g: Config, y: System, id: nat, c: nat)
    requires ValidConfig(g) && ShardOk(g, y) && id in y.flights
    requires y.flights[id].start <= c < y.flights[id].end
    ensures y.shard.chain != [] && forall i :: 0 <= i < |y.shard.chain| ==> y.shard.chain[i].number != c
  {
    var w := y.flights;
    assert Owns(y.shard, w, Writer(id), c) && Owned(y.shard, w, c);
    assert c in y.shard.free ==> Owns(y.shard, w, FreeRun, c);
    forall i | 0 <= i < |y.shard.chain| ensures y.shard.chain[i].number != c {
      assert y.shard.chain[i].number == c ==> Owns(y.shard, w, MetadataChunk(i), c);
    }
  }

  lemma WritePayloadSafe(g: Config, y: System, a: Action)
    requires ValidConfig(g) && Safe(g, y) && Enabled(g, y, a) && a.WritePayloadPage?
    ensures Safe(g, Apply(g, y, a))
  {
    var c := y.flights[a.id].start + a.page / PAGES_PER_CHUNK;
    PayloadOutsideChain(g, y, a.id, c);
    ElsewhereKeepsDisk(g, y, c, a.page % PAGES_PER_CHUNK, a.content);
  }

  // ---------------------------------------------------------------- metadata pages

  lemma PersistKeepsDisk(g: Config, y: System, w: map<nat, Range>, page: nat)
    requires DiskSafe(g, y) && OneOwner(y.shard, w, g.lo, g.hi) && RoundSafe(y.shard.chain, y.pending, y.stored)
    requires y.pending != [] && page < |y.pending[0].pages|
    ensures y.pending[0].chunk < |y.shard.chain|
    ensures var m := y.pending[0];
      DiskSafe(g, y.(disk := WritePage(y.disk, y.shard.chain[m.chunk].number, m.first + page, m.pages[page])))
  {
    var chain, m := y.shard.chain, y.pending[0];
    assert WriteSafe(chain, y.pending, 0, y.stored);
    var z := y.(disk := WritePage(y.disk, chain[m.chunk].number, m.first + page, m.pages[page]));
    ChainNumber(g, y.shard, w, m.chunk);
    assert chain[m.chunk].number in y.disk;
    forall i: nat | Established(chain, i)
      ensures LinkSafe(chain, z.disk, i) && PagesStored(z.disk[chain[i].number], z.stored)
    {
      assert LinkSafe(chain, y.disk, i);
      if i == m.chunk {
        assert y.pending[..0] == [];
        assert m.pages[page].LinkPage? ==> LinkInOrder(chain, [], i, m.pages[page].next);
      }
    }
  }

  lemma PersistSafe(g: Config, y: System, a: Action)
    requires ValidConfig(g) && Safe(g, y) && Enabled(g, y, a) && a.PersistPage?
    ensures Safe(g, Apply(g, y, a))
  {
    PersistKeepsDisk(g, y, y.flights, a.page);
  }

  lemma CompleteKeepsDisk(g: Config, y: System, m: MetaWrite)
    requires DiskSafe(g, y) && m.chunk < |y.shard.chain| && Full(m)
    requires y.pending != [] && m == y.pending[0] && WriteSafe(y.shard.chain, y.pending, 0, y.stored)
    requires AllOnDisk(y.disk, y.shard.chain[m.chunk].number, 0, m.pages)
    ensures DiskSafe(g, y.(shard := y.shard.(chain := ClearFlag(y.shard.chain, m.chunk))))
  {
    var a, b := y.shard.chain, ClearFlag(y.shard.chain, m.chunk);
    forall i: nat | Established(b, i) ensures LinkSafe(b, y.disk, i) && PagesStored(y.disk[b[i].number], y.stored) {
      if i != m.chunk {
        assert Established(a, i) && LinkSafe(a, y.disk, i);
      } else {
        forall p | 0 <= p < PAGES_PER_CHUNK ensures b[i].number in y.disk && y.disk[b[i].number][p] == m.pages[p] {
          assert OnDisk(y.disk, a[i].number, 0 + p, m.pages[p]);
        }
        var link := m.pages[ENTRY_PAGES_PER_CHUNK];
        assert link.LinkPage? && y.pending[..0] == [];
        assert LinkInOrder(a, [], i, link.next);
      }
    }
  }

  lemma CompleteKeepsRound(chain: Chain, pending: seq<MetaWrite>, stored: set<Record>)
    requires pending != [] && RoundSafe(chain, pending, stored)
    ensures pending[0].chunk < |chain|
    ensures RoundSafe(if Full(pending[0]) then ClearFlag(chain, pending[0].chunk) else chain, pending[1..], stored)
  {
    assert WriteSafe(chain, pending, 0, stored);
    var b := if Full(pending[0]) then ClearFlag(chain, pending[0].chunk) else chain;
    forall j | 0 <= j < |pending[1..]| ensures WriteSafe(b, pending[1..], j, stored) {
      assert WriteSafe(chain, pending, j + 1, stored);
      forall i: nat | Initialized(chain, pending[..j + 1], i) ensures Initialized(b, pending[1..][..j], i) {
        if b[i].needsFullWrite {
          var e :| 0 <= e < |pending[..j + 1]| && pending[..j + 1][e].chunk == i && Full(pending[..j + 1][e]);
          assert pending[1..][..j][e - 1] == pending[e];
        }
      }
    }
  }

  lemma CompleteSafe(g: Config, y: System, a: Action)
    requires ValidConfig(g) && Safe(g, y) && Enabled(g, y, a) && a.CompleteWrite?
    ensures Safe(g, Apply(g, y, a))
  {
    ApplyKeepsShard(g, y, a);
    CompleteKeepsRound(y.shard.chain, y.pending, y.stored);
    assert WriteSafe(y.shard.chain, y.pending, 0, y.stored);
    if Full(y.pending[0]) {
      CompleteKeepsDisk(g, y, y.pending[0]);
    }
  }

  // ---------------------------------------------------------------- starting a round

  /** As `WriteSafe`, with uninitialized successors at or above page number `n` still unaccounted for. */
  ghost predicate WriteSafeBelow(chain: Chain, writes: seq<MetaWrite>, j: nat, n: nat, stored: set<Record>)
    requires j < |writes|
  {
    var w := writes[j];
    && WellShaped(chain, w)
    && PagesStored(w.pages, stored)
    && forall p :: 0 <= p < |w.pages| && w.pages[p].LinkPage? ==>
         || ((w.chunk + 1) * PAGES_PER_CHUNK + ENTRY_PAGES_PER_CHUNK >= n && LinkNames(chain, w.chunk, w.pages[p].next))
         || LinkInOrder(chain, writes[..j], w.chunk, w.pages[p].next)
  }

  ghost predicate LinkNames(chain: Chain, i: nat, next: nat) {
    next == NO_CHUNK || (i + 1 < |chain| && next == Address(chain[i + 1].number))
  }

  lemma EncodedStored(chunk: Chunk, p: nat, stored: set<Record>)
    requires |chunk.entries| == ENTRIES_PER_CHUNK && EntriesStored(chunk.entries, stored) && p < PAGES_PER_CHUNK
    ensures PageStored(EncodePage(chunk, p), stored)
  {
    if p < ENTRY_PAGES_PER_CHUNK {
      forall j | 0 <= j < ENTRIES_PER_PAGE && PageEntries(chunk.entries, p)[j].Some?
        ensures PageEntries(chunk.entries, p)[j].value in stored
      {
        assert PageEntries(chunk.entries, p)[j] == chunk.entries[p * ENTRIES_PER_PAGE + j];
      }
    }
  }

  lemma WriteForSafe(chain: Chain, at: PageAt, stored: set<Record>)
    requires FullSized(chain) && WriteFor(chain, at) != []
    requires Linked(chain) && forall i :: 0 <= i < |chain| ==> EntriesStored(chain[i].entries, stored)
    ensures |WriteFor(chain, at)| == 1
    ensures var w := WriteFor(chain, at)[0];
      && w.chunk == at.chunk < |chain| && WellShaped(chain, w) && PagesStored(w.pages, stored)
      && (Full(w) <==> chain[at.chunk].needsFullWrite)
      && forall p :: 0 <= p < |w.pages| && w.pages[p].LinkPage? ==> LinkNames(chain, w.chunk, w.pages[p].next)
  {
    assert chain[at.chunk].next == NextAddress(chain, at.chunk);
    forall p: nat | p < PAGES_PER_CHUNK { EncodedStored(chain[at.chunk], p, stored); }
  }

  /** Prepending the write of page `n - 1` accounts for the successor it initializes. */
  lemma PrependSafe(chain: Chain, head: seq<MetaWrite>, rest: seq<MetaWrite>, j: nat, n: nat, stored: set<Record>)
    requires n > 0 && j < |rest| && WriteSafeBelow(chain, rest, j, n - 1, stored)
    requires var at := PageNumbered(n - 1);
      at.page == ENTRY_PAGES_PER_CHUNK && at.chunk < |chain| && chain[at.chunk].needsFullWrite ==>
        |head| == 1 && head[0].chunk == at.chunk && Full(head[0])
    ensures WriteSafeBelow(chain, head + rest, |head| + j, n, stored)
  {
    var all, w := head + rest, rest[j];
    var earlier := all[..|head| + j];
    assert earlier == head + rest[..j];
    forall i: nat | Initialized(chain, rest[..j], i) ensures Initialized(chain, earlier, i) {
      if chain[i].needsFullWrite {
        var e :| 0 <= e < j && rest[e].chunk == i && Full(rest[e]);
        assert earlier[|head| + e] == rest[e];
      }
    }
    if (w.chunk + 1) * PAGES_PER_CHUNK + ENTRY_PAGES_PER_CHUNK == n - 1 {
      assert PageNumbered(n - 1) == PageAt(w.chunk + 1, ENTRY_PAGES_PER_CHUNK);
      if w.chunk + 1 < |chain| && chain[w.chunk + 1].needsFullWrite {
        assert earlier[0] == head[0];
      }
      assert w.chunk + 1 < |chain| ==> Initialized(chain, earlier, w.chunk + 1);
    }
  }

  lemma {:induction false} WritesBelowSafe(chain: Chain, marked: set<PageAt>, n: nat, stored: set<Record>)
    requires FullSized(chain)
    requires Linked(chain) && forall i :: 0 <= i < |chain| ==> EntriesStored(chain[i].entries, stored)
    requires forall i :: 0 <= i < |chain| && chain[i].needsFullWrite ==> PageAt(i, ENTRY_PAGES_PER_CHUNK) in marked
    ensures forall j :: 0 <= j < |WritesBelow(chain, marked, n)| ==>
      WriteSafeBelow(chain, WritesBelow(chain, marked, n), j, n, stored)
  {
    if n > 0 {
      var at := PageNumbered(n - 1);
      var head := if at in marked then WriteFor(chain, at) else [];
      var rest := WritesBelow(chain, marked, n - 1);
      WritesBelowSafe(chain, marked, n - 1, stored);
      if head != [] { WriteForSafe(chain, at, stored); }
      forall j | 0 <= j < |head + rest| ensures WriteSafeBelow(chain, head + rest, j, n, stored) {
        if j >= |head| {
          PrependSafe(chain, head, rest, j - |head|, n, stored);
        }
      }
    }
  }

  lemma RoundWritesSafe(chain: Chain, dirty: set<PageAt>, stored: set<Record>)
    requires FullSized(chain)
    requires Linked(chain) && forall i :: 0 <= i < |chain| ==> EntriesStored(chain[i].entries, stored)
    ensures RoundSafe(chain, RoundWrites(chain, dirty), stored)
  {
    var n := |chain| * PAGES_PER_CHUNK;
    var writes := RoundWrites(chain, dirty);
    if dirty == {} {
      NothingMarked(chain, n);
      assert Marked(chain, dirty) == {};
    } else {
      WritesBelowSafe(chain, Marked(chain, dirty), n, stored);
      forall j | 0 <= j < |writes| ensures WriteSafe(chain, writes, j, stored) {
        assert WriteSafeBelow(chain, writes, j, n, stored);
      }
    }
  }

  lemma {:induction false} NothingMarked(chain: Chain, n: nat)
    requires FullSized(chain)
    ensures WritesBelow(chain, {}, n) == []
  {
    if n > 0 { NothingMarked(chain, n - 1); }
  }

  lemma StartSafe(g: Config, y: System)
    requires ValidConfig(g) && Safe(g, y) && y.pending == []
    ensures Safe(g, Apply(g, y, StartRound))
  {
    ApplyKeepsShard(g, y, StartRound);
    RoundWritesSafe(y.shard.chain, y.shard.dirty, y.stored);
    GrowsKeepsDisk(g, y, Apply(g, y, StartRound));
  }

  // ---------------------------------------------------------------- reopening

  /** Recovery keeps the loaded chunks and can only clear their slots. */
  ghost predicate Clears(a: Chain, b: Chain) {
    |a| == |b| && forall i :: 0 <= i < |a| ==> ClearsChunk(a[i], b[i])
  }

  ghost predicate ClearsChunk(a: Chunk, b: Chunk) {
    && b.number == a.number && b.needsFullWrite == a.needsFullWrite && |b.entries| == |a.entries|
    && forall j :: 0 <= j < |a.entries| ==> b.entries[j] == a.entries[j] || b.entries[j] == None
  }

  lemma {:induction false} RecoverFromClears(g: Config, s: Shard, t: Slot)
    requires g.shards > 0 && FullSized(s.chain) && t.entry < ENTRIES_PER_CHUNK
    ensures Clears(s.chain, RecoverFrom(g, s, t).chain)
    decreases |s.chain| - t.chunk, ENTRIES_PER_CHUNK - t.entry
  {
    if t.chunk < |s.chain| {
      var mid := RecoverSlot(g, s, t);
      RecoverFromClears(g, mid, NextSlot(t));
      forall i | 0 <= i < |s.chain| ensures ClearsChunk(s.chain[i], RecoverFrom(g, s, t).chain[i]) {
        assert ClearsChunk(mid.chain[i], RecoverFrom(g, s, t).chain[i]);
      }
    }
  }

  lemma RecoverClears(g: Config, disk: Disk)
    requires ValidConfig(g) && ValidDisk(disk)
    ensures Clears(Load(disk, Interval(g.lo, g.hi), Address(g.lo)).0, Recover(g, disk).chain)
  {
    LoadedChain(g, disk);
    RecoverFromClears(g, Loaded(g, disk), Slot(0, 0));
    var a, m, b := Load(disk, Interval(g.lo, g.hi), Address(g.lo)).0, Loaded(g, disk).chain, Recover(g, disk).chain;
    forall i | 0 <= i < |a| ensures ClearsChunk(a[i], b[i]) {
      assert ClearsChunk(m[i], b[i]);
    }
  }

  lemma DecodedStored(pages: seq<Page>, stored: set<Record>)
    requires |pages| == PAGES_PER_CHUNK && PagesStored(pages, stored)
    ensures EntriesStored(DecodeEntries(pages), stored)
  {
    forall i | 0 <= i < ENTRIES_PER_CHUNK && DecodeEntries(pages)[i].Some?
      ensures DecodeEntries(pages)[i].value in stored
    {
      assert PageStored(pages[i / ENTRIES_PER_PAGE], stored);
    }
  }

  /** Everything found by following the links was stored by a publication. */
  lemma FoundStored(g: Config, y: System, found: Chain, i: nat)
    requires DiskSafe(g, y) && Found(y.shard.chain, y.disk, 0, found) && i < |found|
    ensures EntriesStored(found[i].entries, y.stored) && PagesStored(y.disk[found[i].number], y.stored)
  {
    assert Established(y.shard.chain, 0 + i);
    DecodedStored(y.disk[found[i].number], y.stored);
  }

  lemma ReopenKeepsDisk(g: Config, y: System, found: Chain, b: Chain)
    requires ValidConfig(g) && DiskSafe(g, y) && Found(y.shard.chain, y.disk, 0, found) && Clears(found, b)
    requires found == [] ==> AllZero(y.disk[g.lo])
    ensures DiskSafe(g, y.(shard := y.shard.(chain := b)))
    ensures forall i :: 0 <= i < |b| ==> EntriesStored(b[i].entries, y.stored)
  {
    forall i: nat | i < |b|
      ensures LinkSafe(b, y.disk, i) && PagesStored(y.disk[b[i].number], y.stored)
      ensures EntriesStored(b[i].entries, y.stored)
    {
      assert ClearsChunk(found[i], b[i]);
      FoundStored(g, y, found, i);
      assert i + 1 < |found| ==>
        && ClearsChunk(found[i + 1], b[i + 1])
        && found[i + 1] == LoadedChunk(found[i + 1].number, y.disk[found[i + 1].number]);
    }
    assert g.lo in Interval(g.lo, g.hi);
  }

  lemma ReopenSafe(g: Config, y: System)
    requires ValidConfig(g) && Safe(g, y) && Enabled(g, y, Reopen)
    ensures Safe(g, Apply(g, y, Reopen))
  {
    ApplyKeepsShard(g, y, Reopen);
    LinksFollowChain(g, y);
    RecoverClears(g, y.disk);
    ReopenKeepsDisk(g, y, Load(y.disk, Interval(g.lo, g.hi), Address(g.lo)).0, Recover(g, y.disk).chain);
  }

  // ---------------------------------------------------------------- all runs

  lemma ApplySafe(g: Config, y: System, a: Action)
    requires ValidConfig(g) && Safe(g, y) && Enabled(g, y, a)
    ensures Safe(g, Apply(g, y, a))
  {
    if MemoryAction(a) {
      MemoryActionSafe(g, y, a);
    } else {
      match a
      case WritePayloadPage(_, _, _) => WritePayloadSafe(g, y, a);
      case StartRound => StartSafe(g, y);
      case PersistPage(_) => PersistSafe(g, y, a);
      case CompleteWrite => CompleteSafe(g, y, a);
      case FailRound =>
      case Reopen => ReopenSafe(g, y);
    }
  }
}
