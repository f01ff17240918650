/**
 Runs of a shard on the bytes of its file. A payload write carries a flushed buffer or one padded object,
 its pages reach the file in any order, and it publishes after all of them did. Metadata pages are written
 as encoded. Whatever interleaves, the file keeps the bytes of every indexed object.
 */
module ByteRuns {
  import opened Layout
  import opened Metadata
  import opened ShardModel
  import opened Publication
  import opened Recovery
  import opened RoundTrip
  import opened CrashModel
  import opened PageFormat
  import opened SmallEntries
  import opened DiskBytes
  import opened ByteFile
  import CrashSafety
  import FileIo
  import Runs

  /** What one payload write carries: its bytes, the entries to publish and the objects they stand for. */
  datatype Payload = Payload(bytes: seq<byte>, entries: seq<Buffered>, objects: seq<Object>)

  /** A payload write, and the pages that have reached the file. */
  datatype Write = Write(payload: Payload, done: set<nat>)

  /** `published` are the objects indexed since the last reopen, and `reopened` the file as that reopen read it. */
  datatype Store = Store(
    sys: System,
    file: ByteDisk,
    writes: map<nat, Write>,
    published: map<nat, Object>,
    reopened: ByteDisk)

  datatype Step =
    | Begin(id: nat, range: Range, payload: Payload) | Transfer(id: nat, page: nat) | Finish(id: nat)
    | Other(action: Action)

  // ---------------------------------------------------------------- payloads

  /** A packed buffer. */
  ghost predicate Buffer(p: Payload) {
    p.entries != [] && Packed(p.entries) && Holds(p.bytes, p.entries, p.objects)
  }

  /** One object too large for the buffer, padded to whole chunks. */
  ghost predicate Standalone(p: Payload, chunks: nat) {
    && |p.objects| == 1 && !Small(p.objects[0])
    && var o := p.objects[0];
    && p.entries == [Buffered(o.key, |o.bytes|, o.checksum, 0)]
    && chunks == CeilDiv(|o.bytes|, CHUNK_BYTES) && |o.bytes| <= chunks * CHUNK_BYTES
    && p.bytes == FileIo.Padded(o.bytes, chunks * CHUNK_BYTES)
  }

  ghost predicate WellFormed(g: Config, r: Range, p: Payload)
    requires g.shards > 0
  {
    && r.start < r.end
    && ((r.end == r.start + 1 && Buffer(p)) || Standalone(p, r.end - r.start))
    && forall i :: 0 <= i < |p.entries| ==>
         Routed(g, p.entries[i].key) && p.entries[i].key < Power(16) && p.entries[i].checksum < Power(8)
  }

  /** Either kind fills its chunks, holds every object at its entry's offset, and can be published. */
  lemma PayloadHolds(g: Config, r: Range, p: Payload)
    requires g.shards > 0 && WellFormed(g, r, p)
    ensures |p.bytes| == (r.end - r.start) * CHUNK_BYTES && |p.entries| == |p.objects|
    ensures forall i :: 0 <= i < |p.entries| ==> HoldsAt(p.bytes, p.entries[i], p.objects[i])
    ensures ValidBatch(g, r, p.entries)
  {
    if r.end == r.start + 1 && Buffer(p) {
      PackedIsValidBatch(g, r.start, p.entries);
    } else {
      var o := p.objects[0];
      assert p.entries[0].key == o.key;
      StandaloneIsValidBatch(g, r.start, o);
      assert p.bytes[0..|o.bytes|] == o.bytes;
    }
  }

  ghost function ObjectOf(p: Payload, k: nat): Object
    requires k in KeysOf(p.entries)
  {
    var i := NewestOf(p.entries, k);
    if i < |p.objects| then p.objects[i] else Object(k, [], 0)
  }

  /** The newest object of each key that the publication indexed. */
  ghost function NewObjects(before: map<nat, Entry>, after: map<nat, Entry>, p: Payload): map<nat, Object> {
    map k | k in after && k !in before && k in KeysOf(p.entries) :: ObjectOf(p, k)
  }

  // ---------------------------------------------------------------- steps

  ghost predicate Known(y: Store, s: Step) {
    match s
    case Transfer(id, page) => id in y.writes && Whole(y.writes[id].payload, page)
    case Finish(id) => id in y.writes
    case _ => true
  }

  /** The step as readers of the file see it. */
  ghost function ActionOf(hash: Hash, y: Store, s: Step): Action
    requires Known(y, s)
  {
    match s
    case Begin(id, r, _) => ReserveChunks(id, r)
    case Transfer(id, page) => WritePayloadPage(id, page, Meaning(hash, Slice(y.writes[id].payload.bytes, page)))
    case Finish(id) => PublishBatch(id, y.writes[id].payload.entries)
    case Other(a) => a
  }

  ghost predicate StepEnabled(hash: Hash, g: Config, y: Store, s: Step)
    requires ValidConfig(g)
  {
    && Known(y, s) && Enabled(g, y.sys, ActionOf(hash, y, s))
    && match s
       case Begin(id, r, p) => WellFormed(g, r, p)
       case Transfer(id, page) => y.sys.flights[id].start + page / PAGES_PER_CHUNK in y.file
       case Finish(id) => AllDone(y.writes[id])
       case Other(a) => !a.ReserveChunks? && !a.WritePayloadPage? && !a.PublishBatch?
  }

  ghost predicate Whole(p: Payload, page: nat) {
    (page + 1) * PAGE_BYTES <= |p.bytes|
  }

  ghost predicate AllDone(w: Write) {
    forall page: nat :: Whole(w.payload, page) ==> page in w.done
  }

  ghost function FileAfter(hash: Hash, g: Config, y: Store, s: Step): (file: ByteDisk)
    requires ValidConfig(g) && ValidBytes(y.file) && StepEnabled(hash, g, y, s)
    ensures ValidBytes(file)
  {
    match s
    case Transfer(id, page) =>
      var c := y.sys.flights[id].start + page / PAGES_PER_CHUNK;
      WriteBytes(y.file, c, page % PAGES_PER_CHUNK, Slice(y.writes[id].payload.bytes, page))
    case Other(PersistPage(page)) =>
      var w := y.sys.pending[0];
      if w.chunk >= |y.sys.shard.chain| then y.file
      else WriteBytes(y.file, y.sys.shard.chain[w.chunk].number, w.first + page, EncodedPage(hash, w.pages[page]))
    case _ => y.file
  }

  ghost function WritesAfter(y: Store, s: Step): map<nat, Write>
    requires Known(y, s)
  {
    match s
    case Begin(id, _, p) => y.writes[id := Write(p, {})]
    case Transfer(id, page) => y.writes[id := y.writes[id].(done := y.writes[id].done + {page})]
    case Finish(id) => y.writes - {id}
    case Other(Abandon(id)) => y.writes - {id}
    case Other(Reopen) => map[]
    case Other(_) => y.writes
  }

  ghost function StepApply(hash: Hash, g: Config, y: Store, s: Step): Store
    requires ValidConfig(g) && ValidBytes(y.file) && FullSized(y.sys.shard.chain) && StepEnabled(hash, g, y, s)
  {
    var after := Apply(g, y.sys, ActionOf(hash, y, s));
    var file, writes := FileAfter(hash, g, y, s), WritesAfter(y, s);
    match s
    case Finish(id) =>
      var indexed := NewObjects(y.sys.shard.index, after.shard.index, y.writes[id].payload);
      Store(after, file, writes, y.published + indexed, y.reopened)
    case Other(RemoveKey(k)) => Store(after, file, writes, y.published - {k}, y.reopened)
    case Other(Reopen) => Store(after, file, writes, map[], y.file)
    case _ => Store(after, file, writes, y.published, y.reopened)
  }

  // ---------------------------------------------------------------- what every step keeps

  ghost predicate ImageOk(hash: Hash, y: Store) {
    ValidBytes(y.file) && ValidBytes(y.reopened) && y.sys.disk == Image(hash, y.file)
  }

  /** The pages that the write counts as done are in the file. */
  ghost predicate DoneInFile(file: ByteDisk, r: Range, w: Write)
    requires ValidBytes(file)
  {
    forall page :: page in w.done ==> PageInFile(file, r.start, w.payload.bytes, page)
  }

  ghost predicate Formed(g: Config, flights: map<nat, Range>, writes: map<nat, Write>)
    requires g.shards > 0
  {
    writes.Keys == flights.Keys && forall id :: id in writes ==> WellFormed(g, flights[id], writes[id].payload)
  }

  ghost predicate AllInFile(file: ByteDisk, flights: map<nat, Range>, writes: map<nat, Write>)
    requires ValidBytes(file)
  {
    forall id :: id in writes && id in flights ==> DoneInFile(file, flights[id], writes[id])
  }

  ghost predicate WritesOk(g: Config, y: Store)
    requires g.shards > 0 && ValidBytes(y.file)
  {
    Formed(g, y.sys.flights, y.writes) && AllInFile(y.file, y.sys.flights, y.writes)
  }

  ghost predicate PendingOk(pending: seq<MetaWrite>) {
    forall j, p :: 0 <= j < |pending| && 0 <= p < |pending[j].pages| ==> EncodablePage(pending[j].pages[p])
  }

  ghost predicate HashesOk(index: map<nat, Entry>) {
    forall k :: k in index ==> k < Power(16) && index[k].checksum < Power(8)
  }

  /** The bytes at the entry's address are the object's. */
  ghost predicate ObjectAt(file: ByteDisk, o: Object, k: nat, e: Entry)
    requires ValidBytes(file)
  {
    && o.key == k && o.checksum == e.checksum && |o.bytes| == e.length
    && forall a: nat :: e.address <= a < e.address + e.length ==> ByteAt(file, a) == Some(o.bytes[a - e.address])
  }

  /** The bytes at the entry's address are the ones that the last reopen read there. */
  ghost predicate UnchangedAt(file: ByteDisk, reopened: ByteDisk, e: Entry)
    requires ValidBytes(file) && ValidBytes(reopened)
  {
    forall a: nat :: e.address <= a < e.address + e.length ==> ByteAt(file, a) == ByteAt(reopened, a)
  }

  ghost predicate KeptEntry(y: Store, k: nat, e: Entry)
    requires ValidBytes(y.file) && ValidBytes(y.reopened)
  {
    if k in y.published then ObjectAt(y.file, y.published[k], k, e) else UnchangedAt(y.file, y.reopened, e)
  }

  ghost predicate Kept(y: Store)
    requires ValidBytes(y.file) && ValidBytes(y.reopened)
  {
    && y.published.Keys <= y.sys.shard.index.Keys
    && forall k :: k in y.sys.shard.index ==> KeptEntry(y, k, y.sys.shard.index[k])
  }

  ghost predicate StoreOk(hash: Hash, g: Config, y: Store)
    requires ValidConfig(g)
  {
    && ShardOk(g, y.sys) && ImageOk(hash, y) && WritesOk(g, y)
    && PendingOk(y.sys.pending) && HashesOk(y.sys.shard.index) && Kept(y)
  }

  // ---------------------------------------------------------------- the file

  ghost predicate Ready(hash: Hash, g: Config, y: Store, s: Step)
    requires ValidConfig(g)
  {
    ValidBytes(y.file) && FullSized(y.sys.shard.chain) && StepEnabled(hash, g, y, s)
  }

  /** The step wrote one page, and readers see it as `page`. */
  ghost predicate Wrote(y: Store, z: Store, c: nat, p: nat, bytes: seq<byte>, page: Page)
    requires ValidBytes(y.file) && |bytes| == PAGE_BYTES
  {
    && z.sys == y.sys.(disk := WritePage(y.sys.disk, c, p, page)) && z.file == WriteBytes(y.file, c, p, bytes)
    && z.published == y.published && z.reopened == y.reopened
  }

  lemma TransferEffect(hash: Hash, g: Config, y: Store, id: nat, page: nat)
    requires ValidConfig(g) && Ready(hash, g, y, Transfer(id, page))
    ensures
      var c, p := y.sys.flights[id].start + page / PAGES_PER_CHUNK, page % PAGES_PER_CHUNK;
      var bytes, z := Slice(y.writes[id].payload.bytes, page), StepApply(hash, g, y, Transfer(id, page));
      && Wrote(y, z, c, p, bytes, Meaning(hash, bytes))
      && z.writes == y.writes[id := y.writes[id].(done := y.writes[id].done + {page})]
  {
  }

  /** What persisting a page of a metadata write does to the file and to what readers see. */
  ghost predicate Persists(hash: Hash, y: Store, m: MetaWrite, page: nat, z: Store)
    requires ValidBytes(y.file) && page < |m.pages|
  {
    if m.chunk >= |y.sys.shard.chain| then z == y
    else
      var c, p := y.sys.shard.chain[m.chunk].number, m.first + page;
      Wrote(y, z, c, p, EncodedPage(hash, m.pages[page]), m.pages[page]) && z.writes == y.writes
  }

  lemma PersistEffect(hash: Hash, g: Config, y: Store, page: nat)
    requires ValidConfig(g) && Ready(hash, g, y, Other(PersistPage(page)))
    ensures Persists(hash, y, y.sys.pending[0], page, StepApply(hash, g, y, Other(PersistPage(page))))
  {
  }

  /** Steps other than page writes and reopens. */
  ghost predicate InMemory(s: Step) {
    !s.Transfer? && (s.Other? ==> !s.action.PersistPage? && !s.action.Reopen?)
  }

  lemma DiskFrame(g: Config, y: System, a: Action)
    requires ValidConfig(g) && FullSized(y.shard.chain) && Enabled(g, y, a) && !a.WritePayloadPage? && !a.PersistPage?
    ensures Apply(g, y, a).disk == y.disk
  {
  }

  lemma MemoryEffect(hash: Hash, g: Config, y: Store, s: Step)
    requires ValidConfig(g) && Ready(hash, g, y, s) && InMemory(s)
    ensures var z := StepApply(hash, g, y, s); z.sys.disk == y.sys.disk && z.file == y.file && z.reopened == y.reopened
  {
    DiskFrame(g, y.sys, ActionOf(hash, y, s));
  }

  /** Readers see exactly the page-level run. */
  lemma StepImage(hash: Hash, g: Config, y: Store, s: Step)
    requires ValidConfig(g) && Ready(hash, g, y, s) && ImageOk(hash, y) && PendingOk(y.sys.pending)
    ensures ImageOk(hash, StepApply(hash, g, y, s))
  {
    if InMemory(s) {
      MemoryEffect(hash, g, y, s);
    } else if s.Transfer? {
      TransferImage(hash, g, y, s.id, s.page);
    } else if s.action.PersistPage? {
      PersistEffect(hash, g, y, s.action.page);
      PersistImage(hash, y, y.sys.pending[0], s.action.page, StepApply(hash, g, y, s));
    }
  }

  lemma WroteImage(hash: Hash, y: Store, z: Store, c: nat, p: nat, bytes: seq<byte>)
    requires ImageOk(hash, y) && |bytes| == PAGE_BYTES && Wrote(y, z, c, p, bytes, Meaning(hash, bytes))
    ensures ImageOk(hash, z)
  {
    WriteImage(hash, y.file, c, p, bytes);
  }

  lemma TransferImage(hash: Hash, g: Config, y: Store, id: nat, page: nat)
    requires ValidConfig(g) && Ready(hash, g, y, Transfer(id, page)) && ImageOk(hash, y)
    ensures ImageOk(hash, StepApply(hash, g, y, Transfer(id, page)))
  {
    TransferEffect(hash, g, y, id, page);
    WroteImage(hash, y, StepApply(hash, g, y, Transfer(id, page)), y.sys.flights[id].start + page / PAGES_PER_CHUNK,
      page % PAGES_PER_CHUNK, Slice(y.writes[id].payload.bytes, page));
  }

  lemma PersistImage(hash: Hash, y: Store, m: MetaWrite, page: nat, z: Store)
    requires ImageOk(hash, y) && page < |m.pages| && EncodablePage(m.pages[page]) && Persists(hash, y, m, page, z)
    ensures ImageOk(hash, z)
  {
    if m.chunk < |y.sys.shard.chain| {
      EncodedImage(hash, y, z, y.sys.shard.chain[m.chunk].number, m.first + page, m.pages[page]);
    }
  }

  lemma EncodedImage(hash: Hash, y: Store, z: Store, c: nat, p: nat, page: Page)
    requires ImageOk(hash, y) && EncodablePage(page) && Wrote(y, z, c, p, EncodedPage(hash, page), page)
    ensures ImageOk(hash, z)
  {
    EncodedMeans(hash, page);
    WroteImage(hash, y, z, c, p, EncodedPage(hash, page));
  }

  // ---------------------------------------------------------------- payloads elsewhere

  /** The chunks of an indexed payload are owned by its reservation. */
  lemma ByteOwned(g: Config, s: Shard, w: map<nat, Range>, k: nat, a: nat)
    requires ValidConfig(g) && Indexed(g, s, EndSlot(s)) && k in s.index
    requires s.index[k].address <= a < s.index[k].address + s.index[k].length
    ensures Owns(s, w, Owner.Payload(s.index[k].address / CHUNK_BYTES), a / CHUNK_BYTES)
  {
    assert Placed(g, s, EndSlot(s), k, s.index[k]);
    DiskBytesPositive(s.index[k].length);
  }

  /** Writing into a chunk that no payload owns keeps the bytes of an indexed payload. */
  lemma BytesElsewhere(g: Config, s: Shard, w: map<nat, Range>, o: Owner, file: ByteDisk, c: nat, p: nat,
                       page: seq<byte>, k: nat)
    requires ValidConfig(g) && OneOwner(s, w, g.lo, g.hi) && Indexed(g, s, EndSlot(s)) && k in s.index
    requires ValidBytes(file) && |page| == PAGE_BYTES && !o.Payload? && Owns(s, w, o, c)
    ensures UnchangedAt(WriteBytes(file, c, p, page), file, s.index[k])
  {
    var e, after := s.index[k], WriteBytes(file, c, p, page);
    forall a: nat | e.address <= a < e.address + e.length ensures ByteAt(after, a) == ByteAt(file, a) {
      ByteOwned(g, s, w, k, a);
      ByteElsewhere(file, c, p, page, a);
    }
  }

  lemma ElsewhereKept(y: Store, z: Store)
    requires ValidBytes(y.file) && ValidBytes(y.reopened) && Kept(y)
    requires ValidBytes(z.file) && z.reopened == y.reopened && z.published == y.published
    requires z.sys.shard.index == y.sys.shard.index
    requires forall k :: k in z.sys.shard.index ==> UnchangedAt(z.file, y.file, z.sys.shard.index[k])
    ensures Kept(z)
  {
    forall k | k in z.sys.shard.index ensures KeptEntry(z, k, z.sys.shard.index[k]) {
      assert KeptEntry(y, k, y.sys.shard.index[k]);
    }
  }

  lemma FrameKept(y: Store, z: Store)
    requires ValidBytes(y.file) && ValidBytes(y.reopened) && Kept(y)
    requires z.file == y.file && z.reopened == y.reopened && z.published == y.published
    requires z.sys.shard.index == y.sys.shard.index
    ensures Kept(z)
  {
    forall k | k in z.sys.shard.index ensures KeptEntry(z, k, z.sys.shard.index[k]) {
      assert KeptEntry(y, k, y.sys.shard.index[k]);
    }
  }

  lemma ShrinkKept(y: Store, z: Store, key: nat)
    requires ValidBytes(y.file) && ValidBytes(y.reopened) && Kept(y)
    requires z.file == y.file && z.reopened == y.reopened && z.published == y.published - {key}
    requires z.sys.shard.index == y.sys.shard.index - {key}
    ensures Kept(z)
  {
    forall k | k in z.sys.shard.index ensures KeptEntry(z, k, z.sys.shard.index[k]) {
      assert KeptEntry(y, k, y.sys.shard.index[k]);
    }
  }

  // ---------------------------------------------------------------- publication

  lemma ByteWritten(file: ByteDisk, r: Range, w: Write, j: nat)
    requires ValidBytes(file) && DoneInFile(file, r, w) && AllDone(w)
    requires j < |w.payload.bytes| && |w.payload.bytes| % PAGE_BYTES == 0
    ensures ByteAt(file, Address(r.start) + j) == Some(w.payload.bytes[j])
  {
    assert Whole(w.payload, j / PAGE_BYTES);
    ByteOfPage(file, r.start, w.payload.bytes, j);
  }

  /** Once all pages are in the file, so is every object of the payload. */
  lemma ObjectWritten(g: Config, file: ByteDisk, r: Range, w: Write, i: nat, e: Entry)
    requires ValidConfig(g) && ValidBytes(file) && WellFormed(g, r, w.payload) && DoneInFile(file, r, w) && AllDone(w)
    requires i < |w.payload.entries| && RecordOf(w.payload.entries[i].key, e) == RecordFor(r, w.payload.entries[i])
    ensures i < |w.payload.objects| && ObjectAt(file, w.payload.objects[i], w.payload.entries[i].key, e)
  {
    PayloadHolds(g, r, w.payload);
    HeldObjectWritten(file, r, w, w.payload.entries[i], w.payload.objects[i], e);
  }

  lemma HeldObjectWritten(file: ByteDisk, r: Range, w: Write, b: Buffered, o: Object, e: Entry)
    requires ValidBytes(file) && DoneInFile(file, r, w) && AllDone(w) && |w.payload.bytes| % PAGE_BYTES == 0
    requires HoldsAt(w.payload.bytes, b, o) && RecordOf(b.key, e) == RecordFor(r, b)
    ensures ObjectAt(file, o, b.key, e)
  {
    var bytes := w.payload.bytes;
    forall a: nat | e.address <= a < e.address + e.length ensures ByteAt(file, a) == Some(o.bytes[a - e.address]) {
      var j := a - Address(r.start);
      ByteWritten(file, r, w, j);
      assert bytes[b.offset..b.offset + |o.bytes|][a - e.address] == bytes[j];
    }
  }

  lemma NewKept(g: Config, z: Store, before: map<nat, Entry>, r: Range, w: Write, k: nat)
    requires ValidConfig(g) && ValidBytes(z.file) && ValidBytes(z.reopened)
    requires WellFormed(g, r, w.payload) && DoneInFile(z.file, r, w) && AllDone(w)
    requires NewestWins(before, z.sys.shard.index, r, w.payload.entries) && k in z.sys.shard.index && k !in before
    requires k in z.published && z.published[k] == ObjectOf(w.payload, k)
    ensures KeptEntry(z, k, z.sys.shard.index[k])
  {
    var i := NewestOf(w.payload.entries, k);
    assert Publishes(z.sys.shard.index, r, w.payload.entries[i]);
    ObjectWritten(g, z.file, r, w, i, z.sys.shard.index[k]);
  }

  /** A publication leaves indexed payloads alone, and what it indexes is in the file. */
  lemma PublishedKept(g: Config, y: Store, z: Store, r: Range, w: Write)
    requires ValidConfig(g) && ValidBytes(y.file) && ValidBytes(y.reopened) && Kept(y)
    requires WellFormed(g, r, w.payload) && DoneInFile(y.file, r, w) && AllDone(w)
    requires z.file == y.file && z.reopened == y.reopened
    requires NewestWins(y.sys.shard.index, z.sys.shard.index, r, w.payload.entries)
    requires z.published == y.published + NewObjects(y.sys.shard.index, z.sys.shard.index, w.payload)
    ensures Kept(z)
  {
    var before, after := y.sys.shard.index, z.sys.shard.index;
    forall k | k in after ensures KeptEntry(z, k, after[k]) {
      if k in before {
        assert KeptEntry(y, k, before[k]);
      } else {
        NewKept(g, z, before, r, w, k);
      }
    }
  }

  lemma BatchKept(g: Config, y: Store, z: Store, r: Range, w: Write)
    requires ValidConfig(g) && ValidBytes(y.file) && ValidBytes(y.reopened) && Kept(y)
    requires WellFormed(g, r, w.payload) && DoneInFile(y.file, r, w) && AllDone(w)
    requires z.file == y.file && z.reopened == y.reopened
    requires
      || NewestWins(y.sys.shard.index, z.sys.shard.index, r, w.payload.entries)
      || z.sys.shard.index == y.sys.shard.index
    requires z.published == y.published + NewObjects(y.sys.shard.index, z.sys.shard.index, w.payload)
    ensures Kept(z)
  {
    if z.sys.shard.index == y.sys.shard.index {
      assert NewObjects(y.sys.shard.index, z.sys.shard.index, w.payload) == map[];
      FrameKept(y, z);
    } else {
      PublishedKept(g, y, z, r, w);
    }
  }

  lemma FinishKept(hash: Hash, g: Config, y: Store, id: nat, z: Store)
    requires ValidConfig(g) && Ready(hash, g, y, Finish(id)) && ShardOk(g, y.sys) && ImageOk(hash, y) && Kept(y)
    requires WritesOk(g, y) && z == StepApply(hash, g, y, Finish(id))
    ensures Kept(z)
  {
    FinishEffect(hash, g, y, id);
    PublishIndex(g, y.sys.shard, y.sys.flights, id, y.writes[id].payload.entries);
    BatchKept(g, y, z, y.sys.flights[id], y.writes[id]);
  }

  // ---------------------------------------------------------------- the bytes of every indexed payload

  /** A page write into a chunk that no payload owns. */
  lemma WriteKept(g: Config, y: Store, z: Store, o: Owner, c: nat, p: nat, bytes: seq<byte>, page: Page)
    requires ValidConfig(g) && ShardOk(g, y.sys) && ValidBytes(y.file) && ValidBytes(y.reopened) && Kept(y)
    requires |bytes| == PAGE_BYTES && !o.Payload? && Owns(y.sys.shard, y.sys.flights, o, c)
    requires Wrote(y, z, c, p, bytes, page)
    ensures Kept(z)
  {
    forall k | k in y.sys.shard.index ensures UnchangedAt(z.file, y.file, y.sys.shard.index[k]) {
      BytesElsewhere(g, y.sys.shard, y.sys.flights, o, y.file, c, p, bytes, k);
    }
    ElsewhereKept(y, z);
  }

  lemma TransferOwned(hash: Hash, g: Config, y: Store, id: nat, page: nat)
    requires ValidConfig(g) && StepEnabled(hash, g, y, Transfer(id, page))
    ensures Owns(y.sys.shard, y.sys.flights, Writer(id), y.sys.flights[id].start + page / PAGES_PER_CHUNK)
  {
  }

  lemma TransferKept(hash: Hash, g: Config, y: Store, id: nat, page: nat, z: Store)
    requires ValidConfig(g) && Ready(hash, g, y, Transfer(id, page)) && ShardOk(g, y.sys) && ImageOk(hash, y) && Kept(y)
    requires z == StepApply(hash, g, y, Transfer(id, page))
    ensures Kept(z)
  {
    var bytes := Slice(y.writes[id].payload.bytes, page);
    var c, p := y.sys.flights[id].start + page / PAGES_PER_CHUNK, page % PAGES_PER_CHUNK;
    assert Wrote(y, z, c, p, bytes, Meaning(hash, bytes)) by {
      TransferEffect(hash, g, y, id, page);
    }
    assert Owns(y.sys.shard, y.sys.flights, Writer(id), c) by {
      TransferOwned(hash, g, y, id, page);
    }
    WriteKept(g, y, z, Writer(id), c, p, bytes, Meaning(hash, bytes));
  }

  lemma PersistKept(hash: Hash, g: Config, y: Store, m: MetaWrite, page: nat, z: Store)
    requires ValidConfig(g) && ShardOk(g, y.sys) && ImageOk(hash, y) && Kept(y)
    requires page < |m.pages| && Persists(hash, y, m, page, z)
    ensures Kept(z)
  {
    if m.chunk < |y.sys.shard.chain| {
      var c := y.sys.shard.chain[m.chunk].number;
      assert Owns(y.sys.shard, y.sys.flights, MetadataChunk(m.chunk), c);
      WriteKept(g, y, z, MetadataChunk(m.chunk), c, m.first + page, EncodedPage(hash, m.pages[page]), m.pages[page]);
    }
  }

  lemma PersistStepKept(hash: Hash, g: Config, y: Store, page: nat, z: Store)
    requires ValidConfig(g) && Ready(hash, g, y, Other(PersistPage(page))) && ShardOk(g, y.sys) && ImageOk(hash, y)
    requires Kept(y) && z == StepApply(hash, g, y, Other(PersistPage(page)))
    ensures Kept(z)
  {
    PersistEffect(hash, g, y, page);
    PersistKept(hash, g, y, y.sys.pending[0], page, z);
  }

  lemma RemovedIndex(g: Config, s: Shard, w: map<nat, Range>, key: nat)
    requires ValidConfig(g) && Inv(g, s, w)
    ensures RemoveEntry(s, key).index == s.index - {key}
  {
    RemoveEntryKeepsInv(g, s, w, key);
    Runs.RemoveIndex(s, key);
  }

  lemma RemoveEffect(hash: Hash, g: Config, y: Store, key: nat)
    requires ValidConfig(g) && Ready(hash, g, y, Other(RemoveKey(key))) && ShardOk(g, y.sys)
    ensures
      var z := StepApply(hash, g, y, Other(RemoveKey(key)));
      && z.sys.shard.index == y.sys.shard.index - {key} && z.published == y.published - {key}
      && z.file == y.file && z.reopened == y.reopened
  {
    RemovedIndex(g, y.sys.shard, y.sys.flights, key);
  }

  lemma RemoveKept(hash: Hash, g: Config, y: Store, key: nat, z: Store)
    requires ValidConfig(g) && Ready(hash, g, y, Other(RemoveKey(key))) && ShardOk(g, y.sys) && ImageOk(hash, y)
    requires Kept(y)
    requires z == StepApply(hash, g, y, Other(RemoveKey(key)))
    ensures Kept(z)
  {
    RemoveEffect(hash, g, y, key);
    ShrinkKept(y, z, key);
  }

  lemma QuietKept(hash: Hash, g: Config, y: Store, s: Step, z: Store)
    requires ValidConfig(g) && Ready(hash, g, y, s) && ImageOk(hash, y) && Kept(y) && Runs.Quiet(ActionOf(hash, y, s))
    requires z == StepApply(hash, g, y, s)
    ensures Kept(z)
  {
    Runs.QuietFrame(g, y.sys, ActionOf(hash, y, s));
    FrameKept(y, z);
  }

  lemma ReopenKept(hash: Hash, g: Config, y: Store)
    requires ValidConfig(g) && Ready(hash, g, y, Other(Reopen)) && ImageOk(hash, y)
    ensures Kept(StepApply(hash, g, y, Other(Reopen)))
  {
  }

  lemma OtherKept(hash: Hash, g: Config, y: Store, a: Action, z: Store)
    requires ValidConfig(g) && Ready(hash, g, y, Other(a)) && ShardOk(g, y.sys) && ImageOk(hash, y) && Kept(y)
    requires z == StepApply(hash, g, y, Other(a)) && ValidBytes(z.file) && ValidBytes(z.reopened)
    ensures Kept(z)
  {
    if Runs.Quiet(a) {
      QuietKept(hash, g, y, Other(a), z);
    } else if a.PersistPage? {
      PersistStepKept(hash, g, y, a.page, z);
    } else if a.RemoveKey? {
      RemoveKept(hash, g, y, a.key, z);
    } else {
      ReopenKept(hash, g, y);
    }
  }

  lemma StepKept(hash: Hash, g: Config, y: Store, s: Step, z: Store)
    requires ValidConfig(g) && Ready(hash, g, y, s) && ShardOk(g, y.sys) && ImageOk(hash, y) && WritesOk(g, y)
    requires Kept(y)
    requires z == StepApply(hash, g, y, s) && ValidBytes(z.file) && ValidBytes(z.reopened)
    ensures Kept(z)
  {
    match s
    case Begin(_, _, _) => QuietKept(hash, g, y, s, z);
    case Transfer(id, page) => TransferKept(hash, g, y, id, page, z);
    case Finish(id) => FinishKept(hash, g, y, id, z);
    case Other(a) => OtherKept(hash, g, y, a, z);
  }

  // ---------------------------------------------------------------- writes in flight

  /** A write keeps its payload and its chunks from its beginning to its end. */
  ghost predicate SameWrite(y: Store, s: Step, z: Store, id: nat) {
    && id in z.writes && id in z.sys.flights
    && if id in y.writes && id in y.sys.flights then
         z.writes[id].payload == y.writes[id].payload && z.sys.flights[id] == y.sys.flights[id]
       else
         s.Begin? && id == s.id && z.writes[id] == Write(s.payload, {}) && z.sys.flights[id] == s.range
  }

  /** An action that neither starts nor publishes a write keeps all writes, ends one, or ends all. */
  lemma OtherFlights(g: Config, y: System, a: Action)
    requires ValidConfig(g) && FullSized(y.shard.chain) && Enabled(g, y, a)
    requires !a.ReserveChunks? && !a.WritePayloadPage? && !a.PublishBatch?
    ensures
      Apply(g, y, a).flights == if a.Abandon? then y.flights - {a.id} else if a.Reopen? then map[] else y.flights
  {
  }

  lemma BeginEffect(hash: Hash, g: Config, y: Store, id: nat, r: Range, p: Payload)
    requires ValidConfig(g) && Ready(hash, g, y, Begin(id, r, p))
    ensures
      var z := StepApply(hash, g, y, Begin(id, r, p));
      z.sys.flights == y.sys.flights[id := r] && z.writes == y.writes[id := Write(p, {})]
  {
  }

  lemma FinishEffect(hash: Hash, g: Config, y: Store, id: nat)
    requires ValidConfig(g) && Ready(hash, g, y, Finish(id))
    ensures
      var z := StepApply(hash, g, y, Finish(id));
      && z.sys.flights == y.sys.flights - {id} && z.writes == y.writes - {id}
      && z.sys.shard == Publish(y.sys.shard, y.sys.flights[id], y.writes[id].payload.entries)
      && z.file == y.file && z.reopened == y.reopened
      && z.published == y.published + NewObjects(y.sys.shard.index, z.sys.shard.index, y.writes[id].payload)
  {
  }

  ghost predicate Follows(y: Store, s: Step, z: Store) {
    z.writes.Keys == z.sys.flights.Keys && forall id :: id in z.writes ==> SameWrite(y, s, z, id)
  }

  lemma BeginFollows(y: Store, z: Store, s: Step)
    requires y.writes.Keys == y.sys.flights.Keys && s.Begin? && s.id !in y.writes
    requires z.sys.flights == y.sys.flights[s.id := s.range] && z.writes == y.writes[s.id := Write(s.payload, {})]
    ensures Follows(y, s, z)
  {
  }

  lemma TransferFollows(y: Store, z: Store, s: Step)
    requires y.writes.Keys == y.sys.flights.Keys && s.Transfer? && s.id in y.writes && z.sys.flights == y.sys.flights
    requires z.writes == y.writes[s.id := y.writes[s.id].(done := y.writes[s.id].done + {s.page})]
    ensures Follows(y, s, z)
  {
  }

  lemma OtherFollows(hash: Hash, g: Config, y: Store, a: Action)
    requires ValidConfig(g) && Ready(hash, g, y, Other(a)) && y.writes.Keys == y.sys.flights.Keys
    ensures Follows(y, Other(a), StepApply(hash, g, y, Other(a)))
  {
    OtherFlights(g, y.sys, a);
  }

  lemma StepFollows(hash: Hash, g: Config, y: Store, s: Step, z: Store)
    requires ValidConfig(g) && Ready(hash, g, y, s) && y.writes.Keys == y.sys.flights.Keys
    requires z == StepApply(hash, g, y, s)
    ensures Follows(y, s, z)
  {
    match s
    case Begin(id, r, p) =>
      BeginEffect(hash, g, y, id, r, p);
      BeginFollows(y, z, s);
    case Transfer(id, page) =>
      TransferEffect(hash, g, y, id, page);
      TransferFollows(y, z, s);
    case Finish(id) => FinishEffect(hash, g, y, id);
    case Other(a) => OtherFollows(hash, g, y, a);
  }

  lemma FormedStep(g: Config, y: Store, s: Step, z: Store)
    requires g.shards > 0 && Formed(g, y.sys.flights, y.writes) && (s.Begin? ==> WellFormed(g, s.range, s.payload))
    requires Follows(y, s, z)
    ensures Formed(g, z.sys.flights, z.writes)
  {
    forall id | id in z.writes ensures WellFormed(g, z.sys.flights[id], z.writes[id].payload) {
      assert SameWrite(y, s, z, id);
    }
  }

  ghost predicate Sized(flights: map<nat, Range>, writes: map<nat, Write>) {
    forall id :: id in writes && id in flights ==>
      && flights[id].start < flights[id].end
      && |writes[id].payload.bytes| == (flights[id].end - flights[id].start) * CHUNK_BYTES
  }

  lemma FormedSized(g: Config, flights: map<nat, Range>, writes: map<nat, Write>)
    requires g.shards > 0 && Formed(g, flights, writes)
    ensures Sized(flights, writes)
  {
    forall id | id in writes
      ensures |writes[id].payload.bytes| == (flights[id].end - flights[id].start) * CHUNK_BYTES
    {
      PayloadHolds(g, flights[id], writes[id].payload);
    }
  }

  lemma PageChunk(bytes: nat, chunks: nat, page: nat)
    requires bytes == chunks * CHUNK_BYTES && (page + 1) * PAGE_BYTES <= bytes
    ensures page / PAGES_PER_CHUNK < chunks
  {
  }

  /** A page written elsewhere keeps the pages that a write has done. */
  lemma DoneElsewhere(g: Config, s: Shard, flights: map<nat, Range>, file: ByteDisk, id: nat, w: Write,
                      o: Owner, c: nat, p: nat, bytes: seq<byte>)
    requires OneOwner(s, flights, g.lo, g.hi) && ValidBytes(file)
    requires id in flights && flights[id].start < flights[id].end && DoneInFile(file, flights[id], w)
    requires |w.payload.bytes| == (flights[id].end - flights[id].start) * CHUNK_BYTES
    requires |bytes| == PAGE_BYTES && o != Writer(id) && Owns(s, flights, o, c)
    ensures DoneInFile(WriteBytes(file, c, p, bytes), flights[id], w)
  {
    var r := flights[id];
    forall q | q in w.done ensures PageInFile(WriteBytes(file, c, p, bytes), r.start, w.payload.bytes, q) {
      PageChunk(|w.payload.bytes|, r.end - r.start, q);
      assert Owns(s, flights, Writer(id), r.start + q / PAGES_PER_CHUNK);
      PageElsewhere(file, r.start, w.payload.bytes, q, c, p, bytes);
    }
  }

  /** A page of the write itself joins the ones that it has done. */
  lemma DoneHere(file: ByteDisk, r: Range, w: Write, page: nat)
    requires ValidBytes(file) && DoneInFile(file, r, w) && Whole(w.payload, page)
    requires r.start + page / PAGES_PER_CHUNK in file
    ensures
      var c, p := r.start + page / PAGES_PER_CHUNK, page % PAGES_PER_CHUNK;
      DoneInFile(WriteBytes(file, c, p, Slice(w.payload.bytes, page)), r, w.(done := w.done + {page}))
  {
    var c, p := r.start + page / PAGES_PER_CHUNK, page % PAGES_PER_CHUNK;
    forall q | q in w.done && q != page
      ensures PageInFile(WriteBytes(file, c, p, Slice(w.payload.bytes, page)), r.start, w.payload.bytes, q)
    {
      PageElsewhere(file, r.start, w.payload.bytes, q, c, p, Slice(w.payload.bytes, page));
    }
  }

  lemma TransferInFile(g: Config, s: Shard, flights: map<nat, Range>, file: ByteDisk, writes: map<nat, Write>,
                       id: nat, page: nat)
    requires OneOwner(s, flights, g.lo, g.hi) && ValidBytes(file) && Sized(flights, writes)
    requires AllInFile(file, flights, writes)
    requires id in writes && id in flights && Whole(writes[id].payload, page)
    requires Owns(s, flights, Writer(id), flights[id].start + page / PAGES_PER_CHUNK)
    requires flights[id].start + page / PAGES_PER_CHUNK in file
    ensures
      var c, p := flights[id].start + page / PAGES_PER_CHUNK, page % PAGES_PER_CHUNK;
      AllInFile(WriteBytes(file, c, p, Slice(writes[id].payload.bytes, page)), flights,
        writes[id := writes[id].(done := writes[id].done + {page})])
  {
    var c, p := flights[id].start + page / PAGES_PER_CHUNK, page % PAGES_PER_CHUNK;
    var bytes := Slice(writes[id].payload.bytes, page);
    DoneHere(file, flights[id], writes[id], page);
    forall other | other in writes && other in flights && other != id
      ensures DoneInFile(WriteBytes(file, c, p, bytes), flights[other], writes[other])
    {
      DoneElsewhere(g, s, flights, file, other, writes[other], Writer(id), c, p, bytes);
    }
  }

  lemma PersistInFile(g: Config, s: Shard, flights: map<nat, Range>, file: ByteDisk, writes: map<nat, Write>,
                      i: nat, p: nat, bytes: seq<byte>)
    requires OneOwner(s, flights, g.lo, g.hi) && ValidBytes(file) && Sized(flights, writes)
    requires AllInFile(file, flights, writes)
    requires i < |s.chain| && |bytes| == PAGE_BYTES
    ensures AllInFile(WriteBytes(file, s.chain[i].number, p, bytes), flights, writes)
  {
    var c := s.chain[i].number;
    assert Owns(s, flights, MetadataChunk(i), c);
    forall id | id in writes && id in flights
      ensures DoneInFile(WriteBytes(file, c, p, bytes), flights[id], writes[id])
    {
      DoneElsewhere(g, s, flights, file, id, writes[id], MetadataChunk(i), c, p, bytes);
    }
  }

  lemma MemoryInFile(hash: Hash, g: Config, y: Store, s: Step, z: Store)
    requires ValidConfig(g) && Ready(hash, g, y, s) && InMemory(s) && y.writes.Keys == y.sys.flights.Keys
    requires AllInFile(y.file, y.sys.flights, y.writes) && z == StepApply(hash, g, y, s)
    ensures z.file == y.file && AllInFile(z.file, z.sys.flights, z.writes)
  {
    MemoryEffect(hash, g, y, s);
    StepFollows(hash, g, y, s, z);
    forall id | id in z.writes && id in z.sys.flights ensures DoneInFile(z.file, z.sys.flights[id], z.writes[id]) {
      assert SameWrite(y, s, z, id);
    }
  }

  lemma TransferStepInFile(hash: Hash, g: Config, y: Store, id: nat, page: nat, z: Store)
    requires ValidConfig(g) && Ready(hash, g, y, Transfer(id, page)) && OneOwner(y.sys.shard, y.sys.flights, g.lo, g.hi)
    requires Sized(y.sys.flights, y.writes) && AllInFile(y.file, y.sys.flights, y.writes)
    requires z == StepApply(hash, g, y, Transfer(id, page))
    ensures AllInFile(z.file, z.sys.flights, z.writes)
  {
    TransferEffect(hash, g, y, id, page);
    TransferOwned(hash, g, y, id, page);
    TransferInFile(g, y.sys.shard, y.sys.flights, y.file, y.writes, id, page);
  }

  lemma PersistStepInFile(hash: Hash, g: Config, y: Store, m: MetaWrite, page: nat, z: Store)
    requires ValidBytes(y.file) && OneOwner(y.sys.shard, y.sys.flights, g.lo, g.hi)
    requires Sized(y.sys.flights, y.writes) && AllInFile(y.file, y.sys.flights, y.writes)
    requires page < |m.pages| && Persists(hash, y, m, page, z)
    ensures ValidBytes(z.file) && AllInFile(z.file, z.sys.flights, z.writes)
  {
    if m.chunk < |y.sys.shard.chain| {
      PersistInFile(g, y.sys.shard, y.sys.flights, y.file, y.writes, m.chunk, m.first + page,
        EncodedPage(hash, m.pages[page]));
    }
  }

  lemma StepInFile(hash: Hash, g: Config, y: Store, s: Step, z: Store)
    requires ValidConfig(g) && Ready(hash, g, y, s) && OneOwner(y.sys.shard, y.sys.flights, g.lo, g.hi)
    requires y.writes.Keys == y.sys.flights.Keys && Sized(y.sys.flights, y.writes)
    requires AllInFile(y.file, y.sys.flights, y.writes) && z == StepApply(hash, g, y, s)
    ensures ValidBytes(z.file) && AllInFile(z.file, z.sys.flights, z.writes)
  {
    if InMemory(s) {
      MemoryInFile(hash, g, y, s, z);
    } else if s.Transfer? {
      TransferStepInFile(hash, g, y, s.id, s.page, z);
    } else if s.action.PersistPage? {
      PersistEffect(hash, g, y, s.action.page);
      PersistStepInFile(hash, g, y, y.sys.pending[0], s.action.page, z);
    }
  }

  lemma StepWrites(hash: Hash, g: Config, y: Store, s: Step, z: Store)
    requires ValidConfig(g) && Ready(hash, g, y, s) && ShardOk(g, y.sys) && WritesOk(g, y)
    requires z == StepApply(hash, g, y, s)
    ensures ValidBytes(z.file) && WritesOk(g, z)
  {
    FormedSized(g, y.sys.flights, y.writes);
    StepInFile(hash, g, y, s, z);
    StepFollows(hash, g, y, s, z);
    FormedStep(g, y, s, z);
  }

  // ---------------------------------------------------------------- metadata pages

  lemma HashesFitChain(g: Config, s: Shard)
    requires ValidConfig(g) && Indexed(g, s, EndSlot(s)) && HashesOk(s.index)
    ensures HashesFit(s.chain)
  {
    forall t | HasSlot(s.chain, t) && EntryAt(s.chain, t).Some?
      ensures EntryAt(s.chain, t).value.key < Power(16) && EntryAt(s.chain, t).value.checksum < Power(8)
    {
      assert Before(t, EndSlot(s));
      var k := EntryAt(s.chain, t).value.key;
      assert Placed(g, s, EndSlot(s), k, s.index[k]);
    }
  }

  ghost predicate ChainEncodable(chain: Chain)
    requires FullSized(chain)
  {
    forall i, p :: 0 <= i < |chain| && 0 <= p < PAGES_PER_CHUNK ==> EncodablePage(EncodePage(chain[i], p))
  }

  lemma {:induction false} WritesEncodable(chain: Chain, marked: set<PageAt>, n: nat)
    requires FullSized(chain) && ChainEncodable(chain)
    ensures PendingOk(WritesBelow(chain, marked, n))
  {
    if n > 0 {
      WritesEncodable(chain, marked, n - 1);
    }
  }

  /** Every page that a round writes can be encoded. */
  lemma RoundEncodable(g: Config, s: Shard, w: map<nat, Range>)
    requires ValidConfig(g) && Inv(g, s, w) && HashesOk(s.index)
    ensures PendingOk(RoundWrites(s.chain, s.dirty))
  {
    HashesFitChain(g, s);
    forall i, p | 0 <= i < |s.chain| && 0 <= p < PAGES_PER_CHUNK ensures EncodablePage(EncodePage(s.chain[i], p)) {
      ChunkEncodable(g, s, w, i, p);
    }
    WritesEncodable(s.chain, Marked(s.chain, s.dirty), |s.chain| * PAGES_PER_CHUNK);
  }

  lemma ApplyPending(g: Config, y: System, a: Action)
    requires ValidConfig(g) && ShardOk(g, y) && Enabled(g, y, a) && PendingOk(y.pending) && HashesOk(y.shard.index)
    ensures PendingOk(Apply(g, y, a).pending)
  {
    if a.StartRound? {
      RoundEncodable(g, y.shard, y.flights);
    }
  }

  // ---------------------------------------------------------------- hashes

  ghost predicate ChunkFit(chunk: Chunk) {
    forall i :: 0 <= i < |chunk.entries| ==> FieldsFit(chunk.entries[i])
  }

  lemma LoadedFit(hash: Hash, g: Config, file: ByteDisk)
    requires ValidBytes(file)
    ensures forall chunk :: chunk in Load(Image(hash, file), Interval(g.lo, g.hi), Address(g.lo)).0 ==> ChunkFit(chunk)
  {
    var disk := Image(hash, file);
    LoadContents(disk, Interval(g.lo, g.hi), Address(g.lo));
    forall chunk | chunk in Load(disk, Interval(g.lo, g.hi), Address(g.lo)).0 ensures ChunkFit(chunk) {
      ChunkFits(hash, file, chunk.number);
    }
  }

  lemma ClearedFit(g: Config, s: Shard, loaded: Chain, k: nat)
    requires ValidConfig(g) && Indexed(g, s, EndSlot(s)) && k in s.index && CrashSafety.Clears(loaded, s.chain)
    requires forall chunk :: chunk in loaded ==> ChunkFit(chunk)
    ensures k < Power(16) && s.index[k].checksum < Power(8)
  {
    var t := s.index[k].slot;
    assert Placed(g, s, EndSlot(s), k, s.index[k]);
    assert CrashSafety.ClearsChunk(loaded[t.chunk], s.chain[t.chunk]);
    assert ChunkFit(loaded[t.chunk]);
  }

  /** What recovery indexes was decoded from the file, so its hashes fit. */
  lemma RecoveredHashes(hash: Hash, g: Config, file: ByteDisk)
    requires ValidConfig(g) && ValidBytes(file)
    ensures HashesOk(Recover(g, Image(hash, file)).index)
  {
    var disk := Image(hash, file);
    RecoverInv(g, disk);
    CrashSafety.RecoverClears(g, disk);
    LoadedFit(hash, g, file);
    forall k | k in Recover(g, disk).index ensures k < Power(16) && Recover(g, disk).index[k].checksum < Power(8) {
      ClearedFit(g, Recover(g, disk), Load(disk, Interval(g.lo, g.hi), Address(g.lo)).0, k);
    }
  }

  lemma PublishedHashes(before: map<nat, Entry>, after: map<nat, Entry>, r: Range, batch: seq<Buffered>)
    requires HashesOk(before) && NewestWins(before, after, r, batch)
    requires forall i :: 0 <= i < |batch| ==> batch[i].key < Power(16) && batch[i].checksum < Power(8)
    ensures HashesOk(after)
  {
    forall k | k in after && k !in before ensures k < Power(16) && after[k].checksum < Power(8) {
      assert Publishes(after, r, batch[NewestOf(batch, k)]);
    }
  }

  lemma FinishHashes(g: Config, s: Shard, flights: map<nat, Range>, id: nat, p: Payload)
    requires ValidConfig(g) && Inv(g, s, flights) && id in flights && WellFormed(g, flights[id], p) && HashesOk(s.index)
    ensures ValidBatch(g, flights[id], p.entries) && HashesOk(Publish(s, flights[id], p.entries).index)
  {
    PayloadHolds(g, flights[id], p);
    PublishIndex(g, s, flights, id, p.entries);
    var after := Publish(s, flights[id], p.entries).index;
    if after != s.index {
      PublishedHashes(s.index, after, flights[id], p.entries);
    }
  }

  lemma RemoveHashes(g: Config, s: Shard, w: map<nat, Range>, key: nat)
    requires ValidConfig(g) && Inv(g, s, w) && HashesOk(s.index)
    ensures HashesOk(RemoveEntry(s, key).index)
  {
    RemovedIndex(g, s, w, key);
  }

  /** Whether the action may change the index. */
  ghost predicate Indexes(a: Action) {
    a.PublishBatch? || a.RemoveKey? || a.Reopen?
  }

  lemma IndexFrame(g: Config, y: System, a: Action)
    requires ValidConfig(g) && FullSized(y.shard.chain) && Enabled(g, y, a) && !Indexes(a)
    ensures Apply(g, y, a).shard.index == y.shard.index
  {
  }

  lemma FinishStepHashes(hash: Hash, g: Config, y: Store, id: nat)
    requires ValidConfig(g) && Ready(hash, g, y, Finish(id)) && ShardOk(g, y.sys)
    requires Formed(g, y.sys.flights, y.writes) && HashesOk(y.sys.shard.index)
    ensures HashesOk(StepApply(hash, g, y, Finish(id)).sys.shard.index)
  {
    FinishEffect(hash, g, y, id);
    FinishHashes(g, y.sys.shard, y.sys.flights, id, y.writes[id].payload);
  }

  lemma RemoveStepHashes(hash: Hash, g: Config, y: Store, key: nat)
    requires ValidConfig(g) && Ready(hash, g, y, Other(RemoveKey(key))) && ShardOk(g, y.sys)
    requires HashesOk(y.sys.shard.index)
    ensures HashesOk(StepApply(hash, g, y, Other(RemoveKey(key))).sys.shard.index)
  {
    RemoveHashes(g, y.sys.shard, y.sys.flights, key);
  }

  lemma ReopenStepHashes(hash: Hash, g: Config, y: Store)
    requires ValidConfig(g) && Ready(hash, g, y, Other(Reopen)) && ImageOk(hash, y)
    ensures HashesOk(StepApply(hash, g, y, Other(Reopen)).sys.shard.index)
  {
    assert StepApply(hash, g, y, Other(Reopen)).sys.shard == Recover(g, Image(hash, y.file));
    RecoveredHashes(hash, g, y.file);
  }

  lemma FrameStepHashes(hash: Hash, g: Config, y: Store, s: Step)
    requires ValidConfig(g) && Ready(hash, g, y, s) && !Indexes(ActionOf(hash, y, s)) && HashesOk(y.sys.shard.index)
    ensures HashesOk(StepApply(hash, g, y, s).sys.shard.index)
  {
    IndexFrame(g, y.sys, ActionOf(hash, y, s));
  }

  lemma StepHashes(hash: Hash, g: Config, y: Store, s: Step)
    requires ValidConfig(g) && Ready(hash, g, y, s) && ShardOk(g, y.sys) && ImageOk(hash, y)
    requires Formed(g, y.sys.flights, y.writes) && HashesOk(y.sys.shard.index)
    ensures HashesOk(StepApply(hash, g, y, s).sys.shard.index)
  {
    if !Indexes(ActionOf(hash, y, s)) {
      FrameStepHashes(hash, g, y, s);
    } else if s.Finish? {
      FinishStepHashes(hash, g, y, s.id);
    } else if s.action.Reopen? {
      ReopenStepHashes(hash, g, y);
    } else {
      RemoveStepHashes(hash, g, y, s.action.key);
    }
  }

  // ---------------------------------------------------------------- all runs

  lemma StepKeepsStore(hash: Hash, g: Config, y: Store, s: Step)
    requires ValidConfig(g) && StoreOk(hash, g, y) && StepEnabled(hash, g, y, s)
    ensures StoreOk(hash, g, StepApply(hash, g, y, s))
  {
    var a, z := ActionOf(hash, y, s), StepApply(hash, g, y, s);
    assert z.sys == Apply(g, y.sys, a);
    ApplyKeepsShard(g, y.sys, a);
    ApplyPending(g, y.sys, a);
    StepImage(hash, g, y, s);
    StepWrites(hash, g, y, s, z);
    StepHashes(hash, g, y, s);
    StepKept(hash, g, y, s, z);
  }

  ghost predicate ReachesStore(hash: Hash, g: Config, y: Store, steps: seq<Step>, z: Store)
    requires ValidConfig(g) && StoreOk(hash, g, y)
    decreases |steps|
  {
    if steps == [] then z == y
    else StepEnabled(hash, g, y, steps[0]) && ReachesNext(hash, g, y, steps, z)
  }

  ghost predicate ReachesNext(hash: Hash, g: Config, y: Store, steps: seq<Step>, z: Store)
    requires ValidConfig(g) && StoreOk(hash, g, y) && steps != [] && StepEnabled(hash, g, y, steps[0])
    decreases |steps|, 0
  {
    StepKeepsStore(hash, g, y, steps[0]);
    ReachesStore(hash, g, StepApply(hash, g, y, steps[0]), steps[1..], z)
  }

  /** The store as `open` leaves it. */
  ghost function OpenedStore(hash: Hash, g: Config, file: ByteDisk): Store
    requires ValidConfig(g) && ValidBytes(file)
  {
    Store(Runs.Opened(g, Image(hash, file)), file, map[], map[], file)
  }

  lemma OpenedStoreOk(hash: Hash, g: Config, file: ByteDisk)
    requires ValidConfig(g) && ValidBytes(file)
    ensures StoreOk(hash, g, OpenedStore(hash, g, file))
  {
    Runs.OpenedOk(g, Image(hash, file));
    RecoveredHashes(hash, g, file);
  }

  lemma {:induction false} RunKeepsStore(hash: Hash, g: Config, y: Store, steps: seq<Step>, z: Store)
    requires ValidConfig(g) && StoreOk(hash, g, y) && ReachesStore(hash, g, y, steps, z)
    ensures StoreOk(hash, g, z)
    decreases |steps|
  {
    if steps != [] {
      StepKeepsStore(hash, g, y, steps[0]);
      RunKeepsStore(hash, g, StepApply(hash, g, y, steps[0]), steps[1..], z);
    }
  }

  /** Some write of the run carried the object. */
  ghost predicate Carried(steps: seq<Step>, o: Object) {
    exists i :: 0 <= i < |steps| && steps[i].Begin? && o in steps[i].payload.objects
  }

  /** The object is published, or waits in a write. */
  ghost predicate Knows(y: Store, o: Object) {
    || (exists k :: k in y.published && y.published[k] == o)
    || (exists id :: id in y.writes && o in y.writes[id].payload.objects)
  }

  lemma StepKnows(hash: Hash, g: Config, y: Store, s: Step, z: Store, o: Object)
    requires ValidConfig(g) && Ready(hash, g, y, s) && Formed(g, y.sys.flights, y.writes)
    requires z == StepApply(hash, g, y, s)
    requires Knows(z, o)
    ensures Knows(y, o) || (s.Begin? && o in s.payload.objects)
  {
    if k :| k in z.published && z.published[k] == o {
      PublishedEffect(hash, g, y, s, z, k);
    } else {
      var id :| id in z.writes && o in z.writes[id].payload.objects;
      StepFollows(hash, g, y, s, z);
      assert SameWrite(y, s, z, id);
    }
  }

  lemma PublishedEffect(hash: Hash, g: Config, y: Store, s: Step, z: Store, k: nat)
    requires ValidConfig(g) && Ready(hash, g, y, s) && Formed(g, y.sys.flights, y.writes)
    requires z == StepApply(hash, g, y, s)
    requires k in z.published
    ensures Knows(y, z.published[k])
  {
    if s.Finish? {
      FinishEffect(hash, g, y, s.id);
      var p := y.writes[s.id].payload;
      if k in NewObjects(y.sys.shard.index, z.sys.shard.index, p) {
        PayloadHolds(g, y.sys.flights[s.id], p);
        assert z.published[k] == p.objects[NewestOf(p.entries, k)];
      }
    }
  }

  lemma {:induction false} RunKnows(hash: Hash, g: Config, y: Store, steps: seq<Step>, z: Store, o: Object)
    requires ValidConfig(g) && StoreOk(hash, g, y) && ReachesStore(hash, g, y, steps, z) && Knows(z, o)
    ensures Knows(y, o) || Carried(steps, o)
    decreases |steps|
  {
    if steps != [] {
      var m := StepApply(hash, g, y, steps[0]);
      StepKeepsStore(hash, g, y, steps[0]);
      RunKnows(hash, g, m, steps[1..], z, o);
      if Knows(m, o) {
        StepKnows(hash, g, y, steps[0], m, o);
      } else {
        var i :| 0 <= i < |steps[1..]| && steps[1..][i].Begin? && o in steps[1..][i].payload.objects;
        assert steps[i + 1] == steps[1..][i];
      }
    }
  }

  lemma PublishedCarried(hash: Hash, g: Config, file: ByteDisk, steps: seq<Step>, z: Store, k: nat)
    requires ValidConfig(g) && ValidBytes(file) && StoreOk(hash, g, OpenedStore(hash, g, file))
    requires ReachesStore(hash, g, OpenedStore(hash, g, file), steps, z) && k in z.published
    ensures Carried(steps, z.published[k])
  {
    RunKnows(hash, g, OpenedStore(hash, g, file), steps, z, z.published[k]);
  }

  lemma StoreKeeps(hash: Hash, g: Config, z: Store, k: nat)
    requires ValidConfig(g) && StoreOk(hash, g, z) && k in z.sys.shard.index
    ensures KeptEntry(z, k, z.sys.shard.index[k])
  {
  }

  /**
   After every run from any file: a key published since the last reopen has the bytes of an object that a
   write of the run carried, the newest of its key in that write, at its address in the file. Every other
   indexed key was recovered, and its bytes are still the ones that the last reopen read.
   */
  lemma PayloadIsolation(hash: Hash, g: Config, file: ByteDisk, steps: seq<Step>, z: Store, k: nat)
    requires ValidConfig(g) && ValidBytes(file) && StoreOk(hash, g, OpenedStore(hash, g, file))
    requires ReachesStore(hash, g, OpenedStore(hash, g, file), steps, z) && k in z.sys.shard.index
    ensures ValidBytes(z.file) && ValidBytes(z.reopened)
    ensures k in z.published ==>
      Carried(steps, z.published[k]) && ObjectAt(z.file, z.published[k], k, z.sys.shard.index[k])
    ensures k !in z.published ==> UnchangedAt(z.file, z.reopened, z.sys.shard.index[k])
  {
    assert StoreOk(hash, g, z) by {
      RunKeepsStore(hash, g, OpenedStore(hash, g, file), steps, z);
    }
    StoreKeeps(hash, g, z, k);
    if k in z.published {
      PublishedCarried(hash, g, file, steps, z, k);
    }
  }

  // ---------------------------------------------------------------- writes can finish

  ghost predicate ChunksInFile(y: Store, id: nat) {
    id in y.sys.flights && Interval(y.sys.flights[id].start, y.sys.flights[id].end) <= y.file.Keys
  }

  lemma WholeInFlight(r: Range, p: Payload, page: nat)
    requires r.start < r.end && |p.bytes| == (r.end - r.start) * CHUNK_BYTES && Whole(p, page)
    ensures page < (r.end - r.start) * PAGES_PER_CHUNK && r.start + page / PAGES_PER_CHUNK < r.end
  {
    PageChunk(|p.bytes|, r.end - r.start, page);
  }

  lemma TransferEnabled(hash: Hash, g: Config, y: Store, id: nat, page: nat)
    requires ValidConfig(g) && id in y.writes && ChunksInFile(y, id) && Sized(y.sys.flights, y.writes)
    requires Whole(y.writes[id].payload, page)
    ensures StepEnabled(hash, g, y, Transfer(id, page))
  {
    WholeInFlight(y.sys.flights[id], y.writes[id].payload, page);
  }

  /** Nothing that ran before keeps a write in flight from transferring any of its pages. */
  lemma WriteCanTransfer(hash: Hash, g: Config, y: Store, id: nat, page: nat)
    requires ValidConfig(g) && StoreOk(hash, g, y) && id in y.writes && ChunksInFile(y, id)
    requires Whole(y.writes[id].payload, page)
    ensures StepEnabled(hash, g, y, Transfer(id, page))
    ensures
      var z := StepApply(hash, g, y, Transfer(id, page));
      && z.file.Keys == y.file.Keys && z.sys.flights == y.sys.flights
      && id in z.writes && z.writes[id] == y.writes[id].(done := y.writes[id].done + {page})
  {
    FormedSized(g, y.sys.flights, y.writes);
    TransferEnabled(hash, g, y, id, page);
    TransferEffect(hash, g, y, id, page);
  }

  /** Nor from publishing once it has transferred them all. */
  lemma WriteCanFinish(hash: Hash, g: Config, y: Store, id: nat)
    requires ValidConfig(g) && StoreOk(hash, g, y) && id in y.writes && AllDone(y.writes[id])
    ensures StepEnabled(hash, g, y, Finish(id))
  {
    PayloadHolds(g, y.sys.flights[id], y.writes[id].payload);
  }

  // ---------------------------------------------------------------- crash safety of the bytes

  /** The page-level run has its reopens and failed rounds where the steps have theirs. */
  ghost predicate SameFaults(actions: seq<Action>, steps: seq<Step>) {
    |actions| == |steps| && forall i :: 0 <= i < |steps| ==> SameFault(actions[i], steps[i])
  }

  ghost predicate SameFault(a: Action, s: Step) {
    (a.Reopen? <==> s == Other(Reopen)) && (a.FailRound? <==> s == Other(FailRound))
  }

  lemma SameFaultsNext(hash: Hash, y: Store, steps: seq<Step>, rest: seq<Action>)
    requires steps != [] && Known(y, steps[0]) && SameFaults(rest, steps[1..])
    ensures SameFaults([ActionOf(hash, y, steps[0])] + rest, steps)
  {
    var actions := [ActionOf(hash, y, steps[0])] + rest;
    forall i | 0 <= i < |steps| ensures SameFault(actions[i], steps[i]) {
      assert i > 0 ==> actions[i] == rest[i - 1] && steps[i] == steps[1..][i - 1];
    }
  }

  /** Readers of the file see a run of the page-level model, with the same reopens and failed rounds. */
  lemma {:induction false} RunOfPages(hash: Hash, g: Config, y: Store, steps: seq<Step>, z: Store)
    returns (actions: seq<Action>)
    requires ValidConfig(g) && StoreOk(hash, g, y) && ReachesStore(hash, g, y, steps, z)
    ensures Runs.Reaches(g, y.sys, actions, z.sys) && SameFaults(actions, steps)
    decreases |steps|
  {
    if steps == [] {
      actions := [];
    } else {
      var m := StepApply(hash, g, y, steps[0]);
      StepKeepsStore(hash, g, y, steps[0]);
      var rest := RunOfPages(hash, g, m, steps[1..], z);
      actions := [ActionOf(hash, y, steps[0])] + rest;
      assert actions[1..] == rest && m.sys == Apply(g, y.sys, actions[0]);
      SameFaultsNext(hash, y, steps, rest);
    }
  }

  /** Every chunk can be read, and the shard's first chunk is zero bytes. */
  ghost predicate ClearedFile(g: Config, file: ByteDisk) {
    ValidBytes(file) && Interval(g.lo, g.hi) <= file.Keys && g.lo in file && ZeroChunk(file[g.lo])
  }

  /**
   From a file with a zero first chunk, whatever ran, was torn or was reopened since: recovery from the
   bytes of the file visits only chunks of the chain in memory, in order, and its arithmetic cannot overflow.
   */
  lemma BytesCrashSafe(hash: Hash, g: Config, file: ByteDisk, steps: seq<Step>, z: Store)
    requires ValidConfig(g) && ClearedFile(g, file) && StoreOk(hash, g, OpenedStore(hash, g, file))
    requires ReachesStore(hash, g, OpenedStore(hash, g, file), steps, z)
    ensures ValidBytes(z.file)
    ensures
      var visited := Runs.Visited(g, Image(hash, z.file));
      && |visited| <= |z.sys.shard.chain|
      && forall i :: 0 <= i < |visited| ==> visited[i].number == z.sys.shard.chain[i].number
    ensures RepresentableChain(Loaded(g, Image(hash, z.file)).chain)
  {
    var disk := Image(hash, file);
    ZeroPageMeans(hash);
    assert Runs.Cleared(g, disk);
    RunKeepsStore(hash, g, OpenedStore(hash, g, file), steps, z);
    var actions := RunOfPages(hash, g, OpenedStore(hash, g, file), steps, z);
    Runs.CrashSafeChain(g, disk, actions, z.sys);
    Runs.RecoveryNeverOverflows(g, disk, actions, z.sys);
  }
}
