/**
 A shard running on its disk: writers in flight, the periodic metadata writer, and stops at any point.
 Every action is one lock-protected region or one page reaching the disk. A stop followed by a reopen
 may come between any two actions, so multi-page writes can be torn anywhere and rounds can fail.
 */
module CrashModel {
  import opened Layout
  import opened Metadata
  import opened ShardModel
  import opened Publication
  import opened Recovery
  import opened RoundTrip

  /** Consecutive pages of one metadata chunk, encoded under the metadata lock and written later. */
  datatype MetaWrite = MetaWrite(chunk: nat, first: nat, pages: seq<Page>)

  /** `flights` are the reservations of payload writes, and `stored` every record that a publication newly indexed. */
  datatype System = System(
    shard: Shard,
    flights: map<nat, Range>,
    disk: Disk,
    pending: seq<MetaWrite>,
    stored: set<Record>)

  datatype Action =
    | Grow(count: nat)
    | ReserveChunks(id: nat, range: Range)
    | WritePayloadPage(id: nat, page: nat, content: Page)
    | Abandon(id: nat)
    | PublishBatch(id: nat, batch: seq<Buffered>)
    | RemoveKey(key: nat)
    | StartRound
    | PersistPage(page: nat)
    | CompleteWrite
    | FailRound
    | Reopen

  // ---------------------------------------------------------------- the metadata writer

  ghost predicate Full(w: MetaWrite) {
    |w.pages| == PAGES_PER_CHUNK
  }

  function EncodeChunk(chunk: Chunk): (pages: seq<Page>)
    requires |chunk.entries| == ENTRIES_PER_CHUNK
    ensures |pages| == PAGES_PER_CHUNK
    ensures forall p :: 0 <= p < PAGES_PER_CHUNK ==> pages[p] == EncodePage(chunk, p)
  {
    seq(PAGES_PER_CHUNK, p requires 0 <= p < PAGES_PER_CHUNK => EncodePage(chunk, p))
  }

  /** The write a dirty page causes: a new chunk is written whole, once, through its link page. */
  function WriteFor(chain: Chain, at: PageAt): seq<MetaWrite>
    requires FullSized(chain)
  {
    if at.chunk >= |chain| || at.page >= PAGES_PER_CHUNK then []
    else
      var chunk := chain[at.chunk];
      if !chunk.needsFullWrite then [MetaWrite(at.chunk, at.page, [EncodePage(chunk, at.page)])]
      else if at.page == ENTRY_PAGES_PER_CHUNK then [MetaWrite(at.chunk, 0, EncodeChunk(chunk))]
      else []
  }

  function PageNumbered(n: nat): PageAt {
    PageAt(n / PAGES_PER_CHUNK, n % PAGES_PER_CHUNK)
  }

  /** The writes of the marked pages below page number `n`, last page first. */
  function WritesBelow(chain: Chain, marked: set<PageAt>, n: nat): seq<MetaWrite>
    requires FullSized(chain)
  {
    if n == 0 then []
    else
      var at := PageNumbered(n - 1);
      (if at in marked then WriteFor(chain, at) else []) + WritesBelow(chain, marked, n - 1)
  }

  /** Dirty pages, plus the link pages of all chunks that are still uninitialized. */
  ghost function Marked(chain: Chain, dirty: set<PageAt>): set<PageAt> {
    if dirty == {} then {}
    else dirty + set i | 0 <= i < |chain| && chain[i].needsFullWrite :: PageAt(i, ENTRY_PAGES_PER_CHUNK)
  }

  ghost function RoundWrites(chain: Chain, dirty: set<PageAt>): seq<MetaWrite>
    requires FullSized(chain)
  {
    WritesBelow(chain, Marked(chain, dirty), |chain| * PAGES_PER_CHUNK)
  }

  // ---------------------------------------------------------------- actions

  ghost function WritePage(disk: Disk, c: nat, p: nat, page: Page): (r: Disk)
    ensures r.Keys == disk.Keys && (ValidDisk(disk) ==> ValidDisk(r))
  {
    if c in disk && p < |disk[c]| then disk[c := disk[c][p := page]] else disk
  }

  /** Page `p` counted from the start of chunk `c`. */
  ghost predicate OnDisk(disk: Disk, c: nat, p: nat, page: Page) {
    var chunk, index := c + p / PAGES_PER_CHUNK, p % PAGES_PER_CHUNK;
    chunk in disk && index < |disk[chunk]| && disk[chunk][index] == page
  }

  ghost predicate AllOnDisk(disk: Disk, c: nat, first: nat, pages: seq<Page>) {
    forall p :: 0 <= p < |pages| ==> OnDisk(disk, c, first + p, pages[p])
  }

  ghost predicate Enabled(g: Config, y: System, a: Action)
    requires ValidConfig(g)
  {
    match a
    case Grow(count) => count <= MAX_BATCH
    case ReserveChunks(id, r) =>
      && y.shard.chain != [] && id !in y.flights
      && r.start < r.end && Interval(r.start, r.end) <= y.shard.free
    case WritePayloadPage(id, page, _) =>
      id in y.flights && page < (y.flights[id].end - y.flights[id].start) * PAGES_PER_CHUNK
    case Abandon(id) => id in y.flights
    case PublishBatch(id, batch) => id in y.flights && ValidBatch(g, y.flights[id], batch)
    case RemoveKey(key) => true
    case StartRound => y.pending == []
    case PersistPage(page) => y.pending != [] && page < |y.pending[0].pages|
    case CompleteWrite =>
      && y.pending != [] && y.pending[0].chunk < |y.shard.chain|
      && AllOnDisk(y.disk, y.shard.chain[y.pending[0].chunk].number, y.pending[0].first, y.pending[0].pages)
    case FailRound => true
    case Reopen => ValidDisk(y.disk)
  }

  /** The records of the keys that are in `after` and not in `before`. */
  ghost function NewRecords(before: map<nat, Entry>, after: map<nat, Entry>): set<Record> {
    set k | k in after && k !in before :: RecordOf(k, after[k])
  }

  ghost function ClearFlag(chain: Chain, i: nat): Chain
    requires i < |chain|
  {
    chain[i := chain[i].(needsFullWrite := false)]
  }

  ghost function Apply(g: Config, y: System, a: Action): System
    requires ValidConfig(g) && FullSized(y.shard.chain) && Enabled(g, y, a)
  {
    var s := y.shard;
    match a
    case Grow(count) =>
      var grown := EnsureFreeSlots(s, count);
      if grown.None? then y else y.(shard := grown.value)
    case ReserveChunks(id, r) => y.(shard := Reserve(s, r), flights := y.flights[id := r])
    case WritePayloadPage(id, page, content) =>
      y.(disk := WritePage(y.disk, y.flights[id].start + page / PAGES_PER_CHUNK, page % PAGES_PER_CHUNK, content))
    case Abandon(id) => y.(shard := Drop(s, y.flights[id]), flights := y.flights - {id})
    case PublishBatch(id, batch) =>
      var after := Publish(s, y.flights[id], batch);
      y.(shard := after, flights := y.flights - {id}, stored := y.stored + NewRecords(s.index, after.index))
    case RemoveKey(key) => y.(shard := RemoveEntry(s, key))
    case StartRound => y.(pending := RoundWrites(s.chain, s.dirty), shard := s.(dirty := {}))
    case PersistPage(page) =>
      var w := y.pending[0];
      if w.chunk >= |s.chain| then y
      else y.(disk := WritePage(y.disk, s.chain[w.chunk].number, w.first + page, w.pages[page]))
    case CompleteWrite =>
      var w := y.pending[0];
      y.(pending := y.pending[1..], shard := if Full(w) then s.(chain := ClearFlag(s.chain, w.chunk)) else s)
    case FailRound => y.(pending := [])
    case Reopen => y.(shard := Recover(g, y.disk), flights := map[], pending := [])
  }

  // ---------------------------------------------------------------- the shard invariant over all runs

  ghost predicate ShardOk(g: Config, y: System)
    requires ValidConfig(g)
  {
    Inv(g, y.shard, y.flights)
  }

  lemma DirtyKeepsInv(g: Config, s: Shard, w: map<nat, Range>)
    requires ValidConfig(g) && Inv(g, s, w)
    ensures Inv(g, s.(dirty := {}), w)
  {
    var s' := s.(dirty := {});
    SameOwners(s, w, s', w, g.lo, g.hi);
    assert forall k :: k in s.index ==> Placed(g, s, EndSlot(s), k, s.index[k]);
  }

  lemma ClearFlagKeepsInv(g: Config, s: Shard, w: map<nat, Range>, i: nat)
    requires ValidConfig(g) && Inv(g, s, w) && i < |s.chain|
    ensures Inv(g, s.(chain := ClearFlag(s.chain, i)), w)
  {
    var s' := s.(chain := ClearFlag(s.chain, i));
    assert OneOwner(s', w, g.lo, g.hi) by {
      SameOwners(s, w, s', w, g.lo, g.hi);
    }
    assert Chained(g, s') by {
      forall j {:trigger NextAddress(s'.chain, j)} | 0 <= j < |s'.chain|
        ensures s'.chain[j].next == NextAddress(s'.chain, j)
      {
        assert s.chain[j].next == NextAddress(s.chain, j);
      }
    }
    ClearFlagIndexed(g, s, i);
  }

  lemma ClearFlagIndexed(g: Config, s: Shard, i: nat)
    requires ValidConfig(g) && Indexed(g, s, EndSlot(s)) && i < |s.chain|
    ensures Indexed(g, s.(chain := ClearFlag(s.chain, i)), EndSlot(s))
  {
    var s' := s.(chain := ClearFlag(s.chain, i));
    assert forall t :: HasSlot(s'.chain, t) <==> HasSlot(s.chain, t);
    forall k | k in s.index ensures Placed(g, s', EndSlot(s), k, s.index[k]) {
      assert Placed(g, s, EndSlot(s), k, s.index[k]);
    }
    assert forall t :: HasSlot(s.chain, t) ==> EntryAt(s'.chain, t) == EntryAt(s.chain, t);
  }

  /** Every action, in any order, keeps the shard invariant. */
  lemma ApplyKeepsShard(g: Config, y: System, a: Action)
    requires ValidConfig(g) && ShardOk(g, y) && Enabled(g, y, a)
    ensures ShardOk(g, Apply(g, y, a))
  {
    var w := y.flights;
    match a
    case Grow(count) =>
      if EnsureFreeSlots(y.shard, count).Some? { EnsureFreeSlotsKeepsInv(g, y.shard, w, count); }
    case ReserveChunks(id, r) => ReserveKeepsInv(g, y.shard, w, id, r);
    case WritePayloadPage(id, page, content) =>
    case Abandon(id) => DropKeepsInv(g, y.shard, w, id);
    case PublishBatch(id, batch) => PublishKeepsInv(g, y.shard, w, id, batch);
    case RemoveKey(key) => RemoveEntryKeepsInv(g, y.shard, w, key);
    case StartRound => DirtyKeepsInv(g, y.shard, w);
    case PersistPage(page) =>
    case CompleteWrite =>
      if Full(y.pending[0]) { ClearFlagKeepsInv(g, y.shard, w, y.pending[0].chunk); }
    case FailRound =>
    case Reopen => RecoverInv(g, y.disk);
  }
}
