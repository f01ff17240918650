/**
 Bytes of metadata pages (disk_cache/page_format.rs and the decoders of recovery.rs), for any checksum
 function. The meaning of a page's bytes is the page value used by the shard models.
 */
module PageFormat {
  import opened Layout
  import opened Recovery
  import opened Arithmetic

  type byte = x: int | 0 <= x < 256

  type Hash = seq<byte> -> nat

  const PAGE_HEADER_BYTES: nat := 32
  const ENTRY_METADATA_BYTES: nat := 40
  const PAGE_CONTENT_BYTES: nat := 4040

  /** "FEUDES15" and "FEUNXT15". */
  const ENTRY_METADATA_PAGE_TAG: seq<byte> := [0x46, 0x45, 0x55, 0x44, 0x45, 0x53, 0x31, 0x35]
  const NEXT_CHUNK_PAGE_TAG: seq<byte> := [0x46, 0x45, 0x55, 0x4E, 0x58, 0x54, 0x31, 0x35]

  // ---------------------------------------------------------------- integers

  function Power(n: nat): (p: nat)
    ensures p > 0
  {
    if n == 0 then 1 else 256 * Power(n - 1)
  }

  /** The little-endian bytes of a number. */
  function ToLe(n: nat, width: nat): (r: seq<byte>)
    ensures |r| == width
  {
    if width == 0 then [] else [n % 256] + ToLe(n / 256, width - 1)
  }

  function FromLe(bytes: seq<byte>): nat {
    if bytes == [] then 0 else bytes[0] + 256 * FromLe(bytes[1..])
  }

  lemma {:induction false} LeRoundTrip(n: nat, width: nat)
    requires n < Power(width)
    ensures FromLe(ToLe(n, width)) == n
  {
    if width > 0 {
      LeRoundTrip(n / 256, width - 1);
      assert ToLe(n, width)[1..] == ToLe(n / 256, width - 1);
    }
  }

  lemma {:induction false} ZeroBytes(bytes: seq<byte>)
    requires forall i :: 0 <= i < |bytes| ==> bytes[i] == 0
    ensures FromLe(bytes) == 0
  {
    if bytes != [] { ZeroBytes(bytes[1..]); }
  }

  lemma QuotientTwice(n: nat, b: nat)
    requires b > 0
    ensures n / (256 * b) == n / 256 / b
  {
    var m := n / 256;
    var q := m / b;
    var p := q * b;
    DivideBounds(m, b);
    assert 256 * p <= n < 256 * p + 256 * b;
    assert q * (256 * b) == 256 * p;
    QuotientIs(n, 256 * b, q);
  }

  /** Byte `i` is the digit of weight 256^i, so the lowest byte comes first. */
  lemma {:induction false} LeByte(n: nat, width: nat, i: nat)
    requires i < width
    ensures ToLe(n, width)[i] == n / Power(i) % 256
    decreases width
  {
    if i > 0 {
      LeByte(n / 256, width - 1, i - 1);
      QuotientTwice(n, Power(i - 1));
    }
  }

  function Zeros(count: nat): (r: seq<byte>)
    ensures |r| == count && forall i :: 0 <= i < count ==> r[i] == 0
  {
    seq(count, _ => 0)
  }

  // ---------------------------------------------------------------- entry records

  /** Fields fit their widths, and the record is not the all-zero unused one. */
  ghost predicate Encodable(r: Record) {
    && r.key < Power(16) && r.length < Power(8) && r.address < Power(8) && r.checksum < Power(8)
    && r.address != 0
  }

  function EncodeEntry(r: Record): (bytes: seq<byte>)
    ensures |bytes| == ENTRY_METADATA_BYTES
  {
    ToLe(r.key, 16) + ToLe(r.length, 8) + ToLe(r.address, 8) + ToLe(r.checksum, 8)
  }

  function DecodeEntry(bytes: seq<byte>): Option<Record>
    requires |bytes| == ENTRY_METADATA_BYTES
  {
    if bytes == Zeros(ENTRY_METADATA_BYTES) then None
    else Some(Record(FromLe(bytes[..16]), FromLe(bytes[16..24]), FromLe(bytes[24..32]), FromLe(bytes[32..40])))
  }

  lemma Fields(r: Record)
    ensures var bytes := EncodeEntry(r);
      && bytes[..16] == ToLe(r.key, 16) && bytes[16..24] == ToLe(r.length, 8)
      && bytes[24..32] == ToLe(r.address, 8) && bytes[32..40] == ToLe(r.checksum, 8)
  {
  }

  /** Live records survive the round trip; their nonzero address keeps them apart from unused slots. */
  lemma EntryRoundTrip(r: Record)
    requires Encodable(r)
    ensures DecodeEntry(EncodeEntry(r)) == Some(r)
  {
    var bytes := EncodeEntry(r);
    LeRoundTrip(r.key, 16);
    LeRoundTrip(r.length, 8);
    LeRoundTrip(r.address, 8);
    LeRoundTrip(r.checksum, 8);
    Fields(r);
    if bytes == Zeros(ENTRY_METADATA_BYTES) {
      ZeroBytes(bytes[24..32]);
    }
  }

  /** Only the all-zero record looks unused, so a nonzero address keeps a record in use. */
  lemma ZeroRecordIsUnused(r: Record)
    requires r.key < Power(16) && r.length < Power(8) && r.address < Power(8) && r.checksum < Power(8)
    ensures DecodeEntry(EncodeEntry(r)) == None <==> r == Record(0, 0, 0, 0)
  {
    if r == Record(0, 0, 0, 0) {
      ZeroLe(16);
      ZeroLe(8);
      assert EncodeEntry(r) == Zeros(ENTRY_METADATA_BYTES);
    } else if EncodeEntry(r) == Zeros(ENTRY_METADATA_BYTES) {
      var bytes := EncodeEntry(r);
      Fields(r);
      FieldZero(r.key, 16, bytes[..16]);
      FieldZero(r.length, 8, bytes[16..24]);
      FieldZero(r.address, 8, bytes[24..32]);
      FieldZero(r.checksum, 8, bytes[32..40]);
    }
  }

  lemma FieldZero(n: nat, width: nat, bytes: seq<byte>)
    requires n < Power(width) && bytes == ToLe(n, width) && forall i :: 0 <= i < |bytes| ==> bytes[i] == 0
    ensures n == 0
  {
    LeRoundTrip(n, width);
    ZeroBytes(bytes);
  }

  lemma {:induction false} ZeroLe(width: nat)
    ensures ToLe(0, width) == Zeros(width)
  {
    if width > 0 {
      ZeroLe(width - 1);
      assert [0] + Zeros(width - 1) == Zeros(width);
    }
  }

  // ---------------------------------------------------------------- pages

  /** Everything after the checksum: reserved zeros, count, tag, contents and padding. */
  function PageBody(tag: seq<byte>, count: nat, contents: seq<byte>): (body: seq<byte>)
    requires |tag| == 8 && |contents| <= PAGE_CONTENT_BYTES
    ensures |body| == PAGE_BYTES - 8
  {
    Zeros(8) + ToLe(count, 8) + tag + contents + Zeros(PAGE_BYTES - PAGE_HEADER_BYTES - |contents|)
  }

  function PageBytes(hash: Hash, tag: seq<byte>, count: nat, contents: seq<byte>): (page: seq<byte>)
    requires |tag| == 8 && |contents| <= PAGE_CONTENT_BYTES
    ensures |page| == PAGE_BYTES
  {
    var body := PageBody(tag, count, contents);
    ToLe(hash(body), 8) + body
  }

  /** The bytes after the header, if the tag matches and the checksum is intact. */
  function ValidatePage(hash: Hash, page: seq<byte>, tag: seq<byte>): Option<seq<byte>>
    requires |page| == PAGE_BYTES && |tag| == 8
  {
    if page[24..32] != tag || page[..8] != ToLe(hash(page[8..]), 8) then None else Some(page[PAGE_HEADER_BYTES..])
  }

  /** An encoded page is valid for its own tag only, and gives its contents back. */
  lemma PageRoundTrip(hash: Hash, tag: seq<byte>, count: nat, contents: seq<byte>, other: seq<byte>)
    requires |tag| == 8 && |other| == 8 && |contents| <= PAGE_CONTENT_BYTES
    ensures var page := PageBytes(hash, tag, count, contents);
      ValidatePage(hash, page, other) ==
        if other == tag then Some(contents + Zeros(PAGE_BYTES - PAGE_HEADER_BYTES - |contents|)) else None
  {
    var page := PageBytes(hash, tag, count, contents);
    var body := PageBody(tag, count, contents);
    assert page[8..] == body && page[..8] == ToLe(hash(body), 8);
    assert page[24..32] == tag;
    assert page[PAGE_HEADER_BYTES..] == contents + Zeros(PAGE_BYTES - PAGE_HEADER_BYTES - |contents|);
  }

  /** Where the fields of a page are: checksum, count, tag and contents at bytes 0, 16, 24 and 32, zeroes elsewhere. */
  lemma PageLayout(hash: Hash, tag: seq<byte>, count: nat, contents: seq<byte>)
    requires |tag| == 8 && |contents| <= PAGE_CONTENT_BYTES
    ensures
      var page := PageBytes(hash, tag, count, contents);
      && page[..8] == ToLe(hash(page[8..]), 8) && page[8..16] == Zeros(8)
      && page[16..24] == ToLe(count, 8) && page[24..32] == tag && page[32..32 + |contents|] == contents
      && page[32 + |contents|..] == Zeros(PAGE_BYTES - 32 - |contents|)
  {
  }

  /** Where the fields of a record are: key, length, address and checksum at bytes 0, 16, 24 and 32. */
  lemma EntryLayout(r: Record)
    ensures
      var bytes := EncodeEntry(r);
      && bytes[..16] == ToLe(r.key, 16) && bytes[16..24] == ToLe(r.length, 8)
      && bytes[24..32] == ToLe(r.address, 8) && bytes[32..40] == ToLe(r.checksum, 8)
  {
  }

  /** The bytes of a slot: its record, or zeros. */
  function SlotBytes(entry: Option<Record>): (bytes: seq<byte>)
    ensures |bytes| == ENTRY_METADATA_BYTES
  {
    if entry.Some? then EncodeEntry(entry.value) else Zeros(ENTRY_METADATA_BYTES)
  }

  function EntryContents(entries: seq<Option<Record>>): (contents: seq<byte>)
    requires |entries| == ENTRIES_PER_PAGE
    ensures |contents| == PAGE_CONTENT_BYTES
    ensures forall i :: 0 <= i < PAGE_CONTENT_BYTES ==>
      contents[i] == SlotBytes(entries[i / ENTRY_METADATA_BYTES])[i % ENTRY_METADATA_BYTES]
  {
    seq(PAGE_CONTENT_BYTES, i requires 0 <= i < PAGE_CONTENT_BYTES =>
      SlotBytes(entries[i / ENTRY_METADATA_BYTES])[i % ENTRY_METADATA_BYTES])
  }

  function DecodeContents(contents: seq<byte>): (entries: seq<Option<Record>>)
    requires |contents| >= PAGE_CONTENT_BYTES
    ensures |entries| == ENTRIES_PER_PAGE
    ensures forall k :: 0 <= k < ENTRIES_PER_PAGE ==>
      entries[k] == DecodeEntry(contents[k * ENTRY_METADATA_BYTES..(k + 1) * ENTRY_METADATA_BYTES])
  {
    seq(ENTRIES_PER_PAGE, k requires 0 <= k < ENTRIES_PER_PAGE =>
      DecodeEntry(contents[k * ENTRY_METADATA_BYTES..(k + 1) * ENTRY_METADATA_BYTES]))
  }

  /** What a reader makes of a page's bytes. */
  function Meaning(hash: Hash, page: seq<byte>): Page
    requires |page| == PAGE_BYTES
  {
    if ValidatePage(hash, page, ENTRY_METADATA_PAGE_TAG).Some? then
      EntryPage(DecodeContents(ValidatePage(hash, page, ENTRY_METADATA_PAGE_TAG).value))
    else if ValidatePage(hash, page, NEXT_CHUNK_PAGE_TAG).Some? then
      LinkPage(FromLe(ValidatePage(hash, page, NEXT_CHUNK_PAGE_TAG).value[..8]))
    else if page == Zeros(PAGE_BYTES) then Zero
    else Raw(page)
  }

  lemma SlotPosition(k: nat, j: nat)
    requires j < ENTRY_METADATA_BYTES
    ensures (k * ENTRY_METADATA_BYTES + j) / ENTRY_METADATA_BYTES == k
    ensures (k * ENTRY_METADATA_BYTES + j) % ENTRY_METADATA_BYTES == j
  {
  }

  lemma SlotAt(entries: seq<Option<Record>>, pad: seq<byte>, k: nat)
    requires |entries| == ENTRIES_PER_PAGE && k < ENTRIES_PER_PAGE
    ensures (EntryContents(entries) + pad)[k * ENTRY_METADATA_BYTES..(k + 1) * ENTRY_METADATA_BYTES]
      == SlotBytes(entries[k])
  {
    var contents, start := EntryContents(entries), k * ENTRY_METADATA_BYTES;
    var slice := (contents + pad)[start..start + ENTRY_METADATA_BYTES];
    forall j | 0 <= j < ENTRY_METADATA_BYTES ensures slice[j] == SlotBytes(entries[k])[j] {
      SlotPosition(k, j);
      assert slice[j] == contents[start + j];
    }
  }

  /** An encoded entry page means exactly its records, whatever the checksum function is. */
  lemma EntryPageMeans(hash: Hash, entries: seq<Option<Record>>)
    requires |entries| == ENTRIES_PER_PAGE
    requires forall k :: 0 <= k < ENTRIES_PER_PAGE && entries[k].Some? ==> Encodable(entries[k].value)
    ensures Meaning(hash, PageBytes(hash, ENTRY_METADATA_PAGE_TAG, ENTRIES_PER_PAGE, EntryContents(entries)))
      == EntryPage(entries)
  {
    var contents := EntryContents(entries);
    var pad := Zeros(PAGE_BYTES - PAGE_HEADER_BYTES - |contents|);
    PageRoundTrip(hash, ENTRY_METADATA_PAGE_TAG, ENTRIES_PER_PAGE, contents, ENTRY_METADATA_PAGE_TAG);
    var decoded := DecodeContents(contents + pad);
    forall k | 0 <= k < ENTRIES_PER_PAGE ensures decoded[k] == entries[k] {
      SlotAt(entries, pad, k);
      if entries[k].Some? { EntryRoundTrip(entries[k].value); }
    }
    assert decoded == entries;
  }

  /** An encoded link page means exactly its address. */
  lemma LinkPageMeans(hash: Hash, next: nat)
    requires next < Power(8)
    ensures Meaning(hash, PageBytes(hash, NEXT_CHUNK_PAGE_TAG, 1, ToLe(next, 8))) == LinkPage(next)
  {
    var contents := ToLe(next, 8);
    PageRoundTrip(hash, NEXT_CHUNK_PAGE_TAG, 1, contents, ENTRY_METADATA_PAGE_TAG);
    PageRoundTrip(hash, NEXT_CHUNK_PAGE_TAG, 1, contents, NEXT_CHUNK_PAGE_TAG);
    assert ENTRY_METADATA_PAGE_TAG[3] != NEXT_CHUNK_PAGE_TAG[3];
    assert (contents + Zeros(PAGE_BYTES - PAGE_HEADER_BYTES - 8))[..8] == contents;
    LeRoundTrip(next, 8);
  }

  /** A zeroed page is valid for neither tag, whatever the checksum function is. */
  lemma ZeroPageMeans(hash: Hash)
    ensures Meaning(hash, Zeros(PAGE_BYTES)) == Zero
  {
    var page := Zeros(PAGE_BYTES);
    assert page[24..32][0] == 0 && ENTRY_METADATA_PAGE_TAG[0] != 0 && NEXT_CHUNK_PAGE_TAG[0] != 0;
  }

  // ---------------------------------------------------------------- filling a page in place

  method CopyInto(page: array<byte>, offset: nat, bytes: seq<byte>)
    requires offset + |bytes| <= page.Length
    modifies page
    ensures page[..] == Copied(old(page[..]), offset, bytes)
  {
    for i := 0 to |bytes|
      invariant forall k :: 0 <= k < page.Length ==>
        page[k] == if offset <= k < offset + i then bytes[k - offset] else old(page[k])
    {
      page[offset + i] := bytes[i];
    }
  }

  /** Bytes are an entry page or a link page for readers exactly when they have that tag and the rest's checksum. */
  lemma MeansOnlyWhenIntact(hash: Hash, page: seq<byte>)
    requires |page| == PAGE_BYTES
    ensures
      var intact := page[..8] == ToLe(hash(page[8..]), 8);
      && (Meaning(hash, page).EntryPage? <==> intact && page[24..32] == ENTRY_METADATA_PAGE_TAG)
      && (Meaning(hash, page).LinkPage? <==> intact && page[24..32] == NEXT_CHUNK_PAGE_TAG)
      && (Meaning(hash, page).Zero? ==> page == Zeros(PAGE_BYTES))
  {
    assert ENTRY_METADATA_PAGE_TAG[3] != NEXT_CHUNK_PAGE_TAG[3];
  }

  /** `bytes` copied over `page` at `offset`. */
  function Copied(page: seq<byte>, offset: nat, bytes: seq<byte>): (after: seq<byte>)
    requires offset + |bytes| <= |page|
    ensures |after| == |page|
    ensures forall i :: 0 <= i < |page| ==>
      after[i] == if offset <= i < offset + |bytes| then bytes[i - offset] else page[i]
  {
    page[..offset] + bytes + page[offset + |bytes|..]
  }

  lemma FilledBody(tag: seq<byte>, count: nat, contents: seq<byte>)
    requires |tag| == 8 && |contents| <= PAGE_CONTENT_BYTES
    ensures Copied(Copied(Copied(Zeros(PAGE_BYTES), 16, ToLe(count, 8)), 24, tag), PAGE_HEADER_BYTES, contents)[8..]
         == PageBody(tag, count, contents)
  {
    var counted := Copied(Zeros(PAGE_BYTES), 16, ToLe(count, 8));
    var filled := Copied(Copied(counted, 24, tag), PAGE_HEADER_BYTES, contents);
    var body := PageBody(tag, count, contents);
    forall i | 0 <= i < |body| ensures filled[8..][i] == body[i] {
      assert filled[8..][i] == filled[i + 8];
    }
  }

  /** Fills a page buffer: zeros, count, tag and contents first, then the checksum over all of them. */
  method EncodePageInto(page: array<byte>, hash: Hash, tag: seq<byte>, count: nat, contents: seq<byte>)
    requires page.Length == PAGE_BYTES && |tag| == 8 && |contents| <= PAGE_CONTENT_BYTES
    modifies page
    ensures page[..] == PageBytes(hash, tag, count, contents)
  {
    CopyInto(page, 0, Zeros(PAGE_BYTES));
    assert page[..] == Zeros(PAGE_BYTES);
    CopyInto(page, 16, ToLe(count, 8));
    CopyInto(page, 24, tag);
    CopyInto(page, PAGE_HEADER_BYTES, contents);
    FilledBody(tag, count, contents);
    assert page[8..] == page[..][8..];
    var checksum := hash(page[8..]);
    CopyInto(page, 0, ToLe(checksum, 8));
  }
}
