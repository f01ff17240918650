/** The recovery round trip on the bytes of the file, for any checksum function. */
module DiskBytes {
  import opened Layout
  import opened Metadata
  import opened ShardModel
  import opened Recovery
  import opened RoundTrip
  import opened PageFormat

  /** A chunk of the file: 256 pages of 4096 bytes. */
  type ByteDisk = map<nat, seq<seq<byte>>>

  ghost predicate ValidBytes(bytes: ByteDisk) {
    forall c :: c in bytes ==> ValidChunk(bytes[c])
  }

  ghost predicate ValidChunk(chunk: seq<seq<byte>>) {
    |chunk| == PAGES_PER_CHUNK && forall p :: 0 <= p < PAGES_PER_CHUNK ==> |chunk[p]| == PAGE_BYTES
  }

  /** The bytes of an encoded metadata page. */
  function EncodedPage(hash: Hash, page: Page): (bytes: seq<byte>)
    ensures |bytes| == PAGE_BYTES
  {
    match page
    case EntryPage(entries) =>
      if |entries| != ENTRIES_PER_PAGE then Zeros(PAGE_BYTES)
      else PageBytes(hash, ENTRY_METADATA_PAGE_TAG, ENTRIES_PER_PAGE, EntryContents(entries))
    case LinkPage(next) => PageBytes(hash, NEXT_CHUNK_PAGE_TAG, 1, ToLe(next, 8))
    case _ => Zeros(PAGE_BYTES)
  }

  /** An entry or link page whose fields fit their widths. */
  ghost predicate EncodablePage(page: Page) {
    match page
    case EntryPage(entries) =>
      && |entries| == ENTRIES_PER_PAGE
      && forall k :: 0 <= k < |entries| && entries[k].Some? ==> Encodable(entries[k].value)
    case LinkPage(next) => next < Power(8)
    case _ => false
  }

  lemma EncodedMeans(hash: Hash, page: Page)
    requires EncodablePage(page)
    ensures Meaning(hash, EncodedPage(hash, page)) == page
  {
    match page
    case EntryPage(entries) => EntryPageMeans(hash, entries);
    case LinkPage(next) => LinkPageMeans(hash, next);
  }

  ghost predicate WritesChunk(hash: Hash, bytes: ByteDisk, chunk: Chunk) {
    && |chunk.entries| == ENTRIES_PER_CHUNK && chunk.number in bytes && |bytes[chunk.number]| == PAGES_PER_CHUNK
    && forall p :: 0 <= p < PAGES_PER_CHUNK ==> bytes[chunk.number][p] == EncodedPage(hash, EncodePage(chunk, p))
  }

  ghost predicate ZeroChunk(chunk: seq<seq<byte>>) {
    |chunk| == PAGES_PER_CHUNK && forall p :: 0 <= p < PAGES_PER_CHUNK ==> chunk[p] == Zeros(PAGE_BYTES)
  }

  /** All metadata pages of the chain are in the file; an empty chain leaves the first chunk zero. */
  ghost predicate Writes(hash: Hash, g: Config, bytes: ByteDisk, chain: Chain) {
    && (chain == [] ==> g.lo in bytes && ZeroChunk(bytes[g.lo]))
    && forall i :: 0 <= i < |chain| ==> WritesChunk(hash, bytes, chain[i])
  }

  function Pages(hash: Hash, chunk: seq<seq<byte>>): seq<Page>
    requires forall p :: 0 <= p < |chunk| ==> |chunk[p]| == PAGE_BYTES
  {
    seq(|chunk|, p requires 0 <= p < |chunk| => Meaning(hash, chunk[p]))
  }

  /** What a reader makes of every page of the file. */
  ghost function Image(hash: Hash, bytes: ByteDisk): Disk
    requires ValidBytes(bytes)
  {
    map c | c in bytes :: Pages(hash, bytes[c])
  }

  // ---------------------------------------------------------------- live records

  /** Keys are 128-bit and checksums 64-bit hashes. */
  ghost predicate HashesFit(chain: Chain) {
    forall t :: HasSlot(chain, t) && EntryAt(chain, t).Some? ==>
      EntryAt(chain, t).value.key < Power(16) && EntryAt(chain, t).value.checksum < Power(8)
  }

  lemma Powers()
    ensures Power(8) == U64_END
  {
    assert Power(8) == 256 * Power(7) && Power(7) == 256 * Power(6) && Power(6) == 256 * Power(5);
    assert Power(5) == 256 * Power(4) && Power(4) == 256 * Power(3) && Power(3) == 256 * Power(2);
    assert Power(2) == 256 * Power(1) && Power(1) == 256 * Power(0);
  }

  /** A live record is never the all-zero one: its payload lies past the header chunk; and its fields fit. */
  lemma LiveRecordEncodable(g: Config, s: Shard, w: map<nat, Range>, t: Slot)
    requires ValidConfig(g) && OneOwner(s, w, g.lo, g.hi) && Indexed(g, s, EndSlot(s)) && HashesFit(s.chain)
    requires HasSlot(s.chain, t) && EntryAt(s.chain, t).Some?
    ensures Encodable(EntryAt(s.chain, t).value)
  {
    var r := EntryAt(s.chain, t).value;
    assert Before(t, EndSlot(s));
    var e := s.index[r.key];
    assert Placed(g, s, EndSlot(s), r.key, e);
    HoldInShard(g, s, w, e.address / CHUNK_BYTES, e.address, e.length);
    Powers();
  }

  // ---------------------------------------------------------------- chunks

  /** Every page of a chunk of the shard can be encoded. */
  lemma ChunkEncodable(g: Config, s: Shard, w: map<nat, Range>, i: nat, p: nat)
    requires ValidConfig(g) && OneOwner(s, w, g.lo, g.hi) && Chained(g, s) && Indexed(g, s, EndSlot(s))
    requires HashesFit(s.chain)
    requires FullSized(s.chain) && i < |s.chain| && p < PAGES_PER_CHUNK
    ensures EncodablePage(EncodePage(s.chain[i], p))
  {
    if p == ENTRY_PAGES_PER_CHUNK {
      LinkFits(g, s, w, i);
    } else {
      var entries := PageEntries(s.chain[i].entries, p);
      forall k | 0 <= k < |entries| && entries[k].Some? ensures Encodable(entries[k].value) {
        assert entries[k] == s.chain[i].entries[p * ENTRIES_PER_PAGE + k];
        LiveRecordEncodable(g, s, w, Slot(i, p * ENTRIES_PER_PAGE + k));
      }
    }
  }

  lemma ChainMeans(hash: Hash, g: Config, s: Shard, w: map<nat, Range>, bytes: ByteDisk, i: nat)
    requires ValidConfig(g) && Inv(g, s, w) && HashesFit(s.chain) && ValidBytes(bytes)
    requires i < |s.chain| && WritesChunk(hash, bytes, s.chain[i])
    ensures EncodesChunk(Image(hash, bytes), s.chain[i])
  {
    var chunk := s.chain[i];
    forall p | 0 <= p < PAGES_PER_CHUNK ensures Image(hash, bytes)[chunk.number][p] == EncodePage(chunk, p) {
      ChunkEncodable(g, s, w, i, p);
      EncodedMeans(hash, EncodePage(chunk, p));
    }
  }

  lemma LinkFits(g: Config, s: Shard, w: map<nat, Range>, i: nat)
    requires ValidConfig(g) && OneOwner(s, w, g.lo, g.hi) && Chained(g, s) && i < |s.chain|
    ensures s.chain[i].next < Power(8)
  {
    Powers();
    assert s.chain[i].next == NextAddress(s.chain, i);
    if i + 1 < |s.chain| {
      ChainNumber(g, s, w, i + 1);
    }
  }

  /** If the bytes of the file hold the chain's pages, recovery from those bytes gives the shard back. */
  lemma BytesRoundTrip(hash: Hash, g: Config, s: Shard, bytes: ByteDisk)
    requires ValidConfig(g) && Inv(g, s, map[]) && Tight(s) && HashesFit(s.chain)
    requires ValidBytes(bytes) && Writes(hash, g, bytes, s.chain)
    ensures Recover(g, Image(hash, bytes)) == s.(chain := Written(s.chain), dirty := {})
  {
    var disk := Image(hash, bytes);
    forall i | 0 <= i < |s.chain| ensures EncodesChunk(disk, s.chain[i]) {
      ChainMeans(hash, g, s, map[], bytes, i);
    }
    if s.chain == [] {
      ZeroPageMeans(hash);
      assert AllZero(disk[g.lo]);
    }
    RecoverRoundTrip(g, s, disk);
  }
}
