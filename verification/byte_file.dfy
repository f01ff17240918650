/** Single bytes of the cache file, and what one page write changes. */
module ByteFile {
  import opened Layout
  import opened Metadata
  import opened Recovery
  import opened PageFormat
  import opened DiskBytes
  import CrashModel

  /** The byte at a file address, unless its chunk cannot be read. */
  ghost function ByteAt(file: ByteDisk, address: nat): Option<byte>
    requires ValidBytes(file)
  {
    var c := address / CHUNK_BYTES;
    if c in file then Some(file[c][address % CHUNK_BYTES / PAGE_BYTES][address % PAGE_BYTES]) else None
  }

  ghost function WriteBytes(file: ByteDisk, c: nat, p: nat, page: seq<byte>): (after: ByteDisk)
    requires ValidBytes(file) && |page| == PAGE_BYTES
    ensures ValidBytes(after) && after.Keys == file.Keys
  {
    if c in file && p < PAGES_PER_CHUNK then file[c := file[c][p := page]] else file
  }

  /** A page write changes no byte of another chunk. */
  lemma ByteElsewhere(file: ByteDisk, c: nat, p: nat, page: seq<byte>, address: nat)
    requires ValidBytes(file) && |page| == PAGE_BYTES && address / CHUNK_BYTES != c
    ensures ByteAt(WriteBytes(file, c, p, page), address) == ByteAt(file, address)
  {
  }

  /** What readers make of the file changes by exactly the written page. */
  lemma WriteImage(hash: Hash, file: ByteDisk, c: nat, p: nat, page: seq<byte>)
    requires ValidBytes(file) && |page| == PAGE_BYTES
    ensures Image(hash, WriteBytes(file, c, p, page))
      == CrashModel.WritePage(Image(hash, file), c, p, Meaning(hash, page))
  {
    if c in file && p < PAGES_PER_CHUNK {
      var after := WriteBytes(file, c, p, page);
      assert Pages(hash, after[c]) == Pages(hash, file[c])[p := Meaning(hash, page)];
      var image, written := Image(hash, after), CrashModel.WritePage(Image(hash, file), c, p, Meaning(hash, page));
      forall k | k in image ensures image[k] == written[k] {
      }
    }
  }

  /** Page `p` of a payload. */
  function Slice(bytes: seq<byte>, p: nat): (page: seq<byte>)
    requires (p + 1) * PAGE_BYTES <= |bytes|
    ensures |page| == PAGE_BYTES
  {
    bytes[p * PAGE_BYTES..(p + 1) * PAGE_BYTES]
  }

  /** Page `p` of the payload is in the file, `p` pages after the start of chunk `start`. */
  ghost predicate PageInFile(file: ByteDisk, start: nat, bytes: seq<byte>, p: nat)
    requires ValidBytes(file)
  {
    && (p + 1) * PAGE_BYTES <= |bytes| && start + p / PAGES_PER_CHUNK in file
    && file[start + p / PAGES_PER_CHUNK][p % PAGES_PER_CHUNK] == Slice(bytes, p)
  }

  lemma PageElsewhere(file: ByteDisk, start: nat, bytes: seq<byte>, q: nat, c: nat, p: nat, page: seq<byte>)
    requires ValidBytes(file) && |page| == PAGE_BYTES && PageInFile(file, start, bytes, q)
    requires start + q / PAGES_PER_CHUNK != c || q % PAGES_PER_CHUNK != p
    ensures PageInFile(WriteBytes(file, c, p, page), start, bytes, q)
  {
  }

  /** Where byte `j` after the start of a chunk is. */
  lemma BytePosition(start: nat, j: nat)
    ensures var a, p := Address(start) + j, j / PAGE_BYTES;
      && a / CHUNK_BYTES == start + p / PAGES_PER_CHUNK
      && a % CHUNK_BYTES / PAGE_BYTES == p % PAGES_PER_CHUNK && a % PAGE_BYTES == j % PAGE_BYTES
  {
    var p, o := j / PAGE_BYTES, j % PAGE_BYTES;
    var c, q := p / PAGES_PER_CHUNK, p % PAGES_PER_CHUNK;
    assert j == c * CHUNK_BYTES + q * PAGE_BYTES + o;
    assert Address(start) + j == (start + c) * CHUNK_BYTES + (q * PAGE_BYTES + o);
  }

  lemma SliceByte(bytes: seq<byte>, j: nat)
    requires j < |bytes| && (j / PAGE_BYTES + 1) * PAGE_BYTES <= |bytes|
    ensures Slice(bytes, j / PAGE_BYTES)[j % PAGE_BYTES] == bytes[j]
  {
    assert j == j / PAGE_BYTES * PAGE_BYTES + j % PAGE_BYTES;
  }

  /** A byte of a page that is in the file. */
  lemma ByteOfPage(file: ByteDisk, start: nat, bytes: seq<byte>, j: nat)
    requires ValidBytes(file) && j < |bytes| && PageInFile(file, start, bytes, j / PAGE_BYTES)
    ensures ByteAt(file, Address(start) + j) == Some(bytes[j])
  {
    BytePosition(start, j);
    SliceByte(bytes, j);
  }

  // ---------------------------------------------------------------- decoded fields

  lemma {:induction false} FromLeFits(bytes: seq<byte>)
    ensures FromLe(bytes) < Power(|bytes|)
  {
    if bytes != [] {
      FromLeFits(bytes[1..]);
    }
  }

  ghost predicate FieldsFit(entry: Option<Record>) {
    entry.Some? ==> entry.value.key < Power(16) && entry.value.checksum < Power(8)
  }

  lemma DecodedFits(bytes: seq<byte>)
    requires |bytes| == ENTRY_METADATA_BYTES
    ensures FieldsFit(DecodeEntry(bytes))
  {
    FromLeFits(bytes[..16]);
    FromLeFits(bytes[32..40]);
  }

  lemma PageFits(hash: Hash, bytes: seq<byte>)
    requires |bytes| == PAGE_BYTES
    ensures var page := Meaning(hash, bytes);
      page.EntryPage? ==> forall k :: 0 <= k < |page.entries| ==> FieldsFit(page.entries[k])
  {
    var valid := ValidatePage(hash, bytes, ENTRY_METADATA_PAGE_TAG);
    if valid.Some? {
      forall k | 0 <= k < ENTRIES_PER_PAGE ensures FieldsFit(DecodeContents(valid.value)[k]) {
        DecodedFits(valid.value[k * ENTRY_METADATA_BYTES..(k + 1) * ENTRY_METADATA_BYTES]);
      }
    }
  }

  /** Every record that a chunk of the file decodes to has a 128-bit key and a 64-bit checksum. */
  lemma ChunkFits(hash: Hash, file: ByteDisk, c: nat)
    requires ValidBytes(file) && c in file
    ensures forall i :: 0 <= i < ENTRIES_PER_CHUNK ==> FieldsFit(DecodeEntries(Image(hash, file)[c])[i])
  {
    var pages := Image(hash, file)[c];
    forall i | 0 <= i < ENTRIES_PER_CHUNK ensures FieldsFit(DecodeEntries(pages)[i]) {
      PageFits(hash, file[c][i / ENTRIES_PER_PAGE]);
    }
  }

  /** A loaded chunk holds what its pages on disk decode to. */
  lemma {:induction false} LoadContents(disk: Disk, free: set<nat>, address: nat)
    requires ValidDisk(disk)
    ensures forall chunk :: chunk in Load(disk, free, address).0 ==>
      chunk.number in disk && chunk == LoadedChunk(chunk.number, disk[chunk.number])
    decreases free
  {
    if Readable(disk, free, address) {
      var c := address / CHUNK_BYTES;
      match LinkOf(disk[c])
      case None =>
      case Some(next) => LoadContents(disk, free - {c}, next);
    }
  }
}
