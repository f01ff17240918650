/** Sizes of the v15 disk format and the values shared by the disk-tier modules. */
module Layout {

  const CHUNK_BYTES: nat := 0x10_0000
  const PAGE_BYTES: nat := 4096
  const PAGES_PER_CHUNK: nat := 256
  const ENTRY_PAGES_PER_CHUNK: nat := 255
  const ENTRIES_PER_PAGE: nat := 101
  const ENTRIES_PER_CHUNK: nat := 25755
  /** One past the largest u64, and the link value that ends a metadata chain. */
  const U64_END: nat := 0x1_0000_0000_0000_0000
  const NO_CHUNK: nat := 0xFFFF_FFFF_FFFF_FFFF

  datatype Option<+T> = None | Some(value: T)

  /** An entry's key hash, payload length, disk address and checksum, as recorded on disk. */
  datatype Record = Record(key: nat, length: nat, address: nat, checksum: nat)

  /** A record's position: index of its metadata chunk in the chain, and of its slot in that chunk. */
  datatype Slot = Slot(chunk: nat, entry: nat)

  /** A metadata page's position in the chain. Page 255 of a chunk holds its link. */
  datatype PageAt = PageAt(chunk: nat, page: nat)

  /** Half-open range of chunk numbers. */
  datatype Range = Range(start: nat, end: nat)

  function Max(a: nat, b: nat): nat {
    if a < b then b else a
  }

  function MinOf(a: nat, b: nat): nat {
    if a < b then a else b
  }

  function Sum(s: seq<nat>): nat {
    if s == [] then 0 else Sum(s[..|s| - 1]) + s[|s| - 1]
  }

  lemma {:induction false} SubsetSize(a: set<nat>, b: set<nat>)
    requires a <= b
    ensures |a| <= |b|
  {
    if a != {} {
      var x :| x in a;
      SubsetSize(a - {x}, b - {x});
    }
  }

  function CeilDiv(a: nat, b: nat): nat
    requires b > 0
  {
    (a + b - 1) / b
  }

  /** Disk bytes used by a payload: at least one page, rounded up to whole pages. */
  function PayloadDiskBytes(length: nat): nat {
    CeilDiv(Max(length, 1), PAGE_BYTES) * PAGE_BYTES
  }

  function Address(chunk: nat): nat {
    chunk * CHUNK_BYTES
  }

  predicate AtLeast(c: nat, start: nat) {
    start <= c
  }

  /** The chunk numbers from `start` up to but not including `end`. */
  function Interval(start: nat, end: nat): set<nat> {
    set c: nat | c < end && AtLeast(c, start)
  }

  lemma {:induction false} IntervalSize(start: nat, end: nat)
    requires start <= end
    ensures |Interval(start, end)| == end - start
  {
    if start < end {
      IntervalSize(start, end - 1);
      assert Interval(start, end) == Interval(start, end - 1) + {end - 1};
    } else {
      assert Interval(start, end) == {};
    }
  }

  /** Scan order of slots: by chunk, then by entry. */
  predicate Before(a: Slot, b: Slot) {
    a.chunk < b.chunk || (a.chunk == b.chunk && a.entry < b.entry)
  }
}
