/** Packing small entries into one payload chunk (disk_cache/small_entry_buffer.rs). */
module SmallEntries {
  import opened Layout
  import opened ShardModel
  import opened Publication
  import opened PageFormat

  const SMALL_ENTRY_BYTES: nat := 512 * 1024

  /** A write as its caller gave it. */
  datatype Object = Object(key: nat, bytes: seq<byte>, checksum: nat)

  /** A buffer handed to the payload writer. */
  datatype Flush = Flush(bytes: seq<byte>, entries: seq<Buffered>)

  ghost predicate Small(o: Object) {
    PayloadDiskBytes(|o.bytes|) < SMALL_ENTRY_BYTES
  }

  /** Where entry `i` goes: right after its predecessor. */
  function StartOf(entries: seq<Buffered>, i: nat): nat
    requires i <= |entries|
  {
    if i == 0 then 0 else entries[i - 1].offset + PayloadDiskBytes(entries[i - 1].length)
  }

  function EndOf(entries: seq<Buffered>): nat {
    StartOf(entries, |entries|)
  }

  ghost predicate InOrder(entries: seq<Buffered>) {
    forall i {:trigger StartOf(entries, i)} :: 0 <= i < |entries| ==> entries[i].offset == StartOf(entries, i)
  }

  /** Entries lie one after the other on page boundaries, inside one chunk. */
  ghost predicate Packed(entries: seq<Buffered>) {
    && EndOf(entries) <= CHUNK_BYTES
    && InOrder(entries)
  }

  /** The buffer holds each object's bytes at its entry's offset. */
  ghost predicate Holds(buffer: seq<byte>, entries: seq<Buffered>, objects: seq<Object>) {
    && |buffer| == CHUNK_BYTES && |entries| == |objects|
    && forall i :: 0 <= i < |entries| ==> HoldsAt(buffer, entries[i], objects[i])
  }

  ghost predicate HoldsAt(buffer: seq<byte>, b: Buffered, o: Object) {
    && b.key == o.key && b.length == |o.bytes| && b.checksum == o.checksum
    && b.offset + |o.bytes| <= |buffer|
    && buffer[b.offset..b.offset + |o.bytes|] == o.bytes
  }

  /** A payload takes the fewest whole pages that hold it, and at least one. */
  lemma FewestPages(length: nat, pages: nat)
    ensures pages * PAGE_BYTES >= PayloadDiskBytes(length) <==> pages >= 1 && pages * PAGE_BYTES >= length
  {
  }

  lemma DiskBytesPositive(length: nat)
    ensures length <= PayloadDiskBytes(length) && PAGE_BYTES <= PayloadDiskBytes(length)
    ensures PayloadDiskBytes(length) % PAGE_BYTES == 0
  {
  }

  /** Packed offsets are page aligned and ordered, so payloads cannot overlap. */
  lemma {:induction false} PackedOffsets(entries: seq<Buffered>, i: nat, k: nat)
    requires InOrder(entries) && k <= i <= |entries|
    ensures StartOf(entries, i) % PAGE_BYTES == 0 && i * PAGE_BYTES <= StartOf(entries, i)
    ensures k < i ==> entries[k].offset % PAGE_BYTES == 0
    ensures k < i ==> entries[k].offset + PayloadDiskBytes(entries[k].length) <= StartOf(entries, i)
  {
    if i > 0 {
      PackedOffsets(entries, i - 1, if k < i then k else 0);
      DiskBytesPositive(entries[i - 1].length);
      assert entries[i - 1].offset == StartOf(entries, i - 1);
    }
  }

  lemma PackedDisjoint(entries: seq<Buffered>, i: nat, j: nat)
    requires Packed(entries) && i < j < |entries|
    ensures entries[i].offset + PayloadDiskBytes(entries[i].length) <= entries[j].offset
  {
    PackedOffsets(entries, j, i);
    assert entries[j].offset == StartOf(entries, j);
  }

  /** At most 256 entries fit in a chunk. */
  lemma PackedCount(entries: seq<Buffered>)
    requires Packed(entries)
    ensures |entries| <= MAX_BATCH
    ensures forall k :: 0 <= k < |entries| ==>
      entries[k].offset % PAGE_BYTES == 0 && entries[k].offset + PayloadDiskBytes(entries[k].length) <= CHUNK_BYTES
  {
    PackedOffsets(entries, |entries|, |entries|);
    forall k | 0 <= k < |entries|
      ensures entries[k].offset % PAGE_BYTES == 0
      ensures entries[k].offset + PayloadDiskBytes(entries[k].length) <= CHUNK_BYTES
    {
      PackedOffsets(entries, |entries|, k);
    }
  }

  /** Any packed, routed buffer is a batch that the writer may publish from one chunk. */
  lemma PackedIsValidBatch(g: Config, chunk: nat, entries: seq<Buffered>)
    requires g.shards > 0 && Packed(entries) && entries != []
    requires forall k :: 0 <= k < |entries| ==> Routed(g, entries[k].key)
    ensures ValidBatch(g, Range(chunk, chunk + 1), entries)
  {
    PackedCount(entries);
    forall k | 0 <= k < |entries| ensures Fits(g, Range(chunk, chunk + 1), entries[k]) {
      DiskBytesPositive(entries[k].length);
    }
  }

  /** A standalone object fills exactly the chunks that its length needs. */
  lemma StandaloneIsValidBatch(g: Config, chunk: nat, o: Object)
    requires g.shards > 0 && Routed(g, o.key) && !Small(o)
    ensures
      var chunks := Range(chunk, chunk + CeilDiv(|o.bytes|, CHUNK_BYTES));
      ValidBatch(g, chunks, [Buffered(o.key, |o.bytes|, o.checksum, 0)])
  {
    ChunksNeeded(|o.bytes|);
  }

  /** Page padding never adds a chunk. */
  lemma ChunksNeeded(n: nat)
    requires n > 0
    ensures CeilDiv(PayloadDiskBytes(n), CHUNK_BYTES) == CeilDiv(n, CHUNK_BYTES) > 0
  {
    var pages, chunks := CeilDiv(n, PAGE_BYTES), CeilDiv(n, CHUNK_BYTES);
    assert (pages - 1) * PAGE_BYTES < n <= pages * PAGE_BYTES;
    assert (chunks - 1) * CHUNK_BYTES < n <= chunks * CHUNK_BYTES;
    assert (chunks - 1) * PAGES_PER_CHUNK < pages <= chunks * PAGES_PER_CHUNK;
  }

  class SmallEntryBuffer {
    var buffer: array<byte>
    var entries: seq<Buffered>
    ghost var objects: seq<Object>

    ghost predicate Valid()
      reads this, buffer
    {
      Packed(entries) && Holds(buffer[..], entries, objects)
    }

    constructor ()
      ensures Valid() && fresh(buffer) && objects == []
    {
      buffer := new byte[CHUNK_BYTES](_ => 0);
      entries, objects := [], [];
    }

    /** The newest buffered entry of a key. */
    method Find(key: nat) returns (r: Option<nat>)
      ensures r.None? <==> forall i :: 0 <= i < |entries| ==> entries[i].key != key
      ensures r.Some? ==> Newest(entries, r.value) && entries[r.value].key == key
    {
      var i := |entries|;
      while i > 0
        invariant 0 <= i <= |entries|
        invariant forall j :: i <= j < |entries| ==> entries[j].key != key
      {
        i := i - 1;
        if entries[i].key == key {
          return Some(i);
        }
      }
      r := None;
    }

    /** Reads a buffered object back: the newest bytes written for the key. */
    method Get(key: nat) returns (r: Option<seq<byte>>)
      requires Valid()
      ensures r.None? <==> forall i :: 0 <= i < |objects| ==> objects[i].key != key
      ensures r.Some? ==> exists i ::
        0 <= i < |objects| && objects[i].key == key && objects[i].bytes == r.value
        && forall j :: i < j < |objects| ==> objects[j].key != key
    {
      var found := Find(key);
      forall i | 0 <= i < |entries| ensures entries[i].key == objects[i].key {
        assert HoldsAt(buffer[..], entries[i], objects[i]);
      }
      if found.None? {
        return None;
      }
      var e := entries[found.value];
      assert HoldsAt(buffer[..], e, objects[found.value]);
      r := Some(buffer[e.offset..e.offset + e.length]);
    }

    /** Hands the buffer over and starts a new one. */
    method TakeFlush() returns (flush: Flush)
      requires Valid()
      modifies this
      ensures Valid() && objects == [] && fresh(buffer)
      ensures flush.entries == old(entries) && Packed(flush.entries) && Holds(flush.bytes, flush.entries, old(objects))
    {
      flush := Flush(buffer[..], entries);
      buffer := new byte[CHUNK_BYTES](_ => 0);
      entries, objects := [], [];
    }

    /** Whether a write of the key can be skipped. The buffer is looked at only if its lock is free. */
    method Contains(key: nat, locked: bool, indexed: bool) returns (contained: bool)
      requires Valid()
      ensures contained <==> indexed || (!locked && exists i :: 0 <= i < |objects| && objects[i].key == key)
    {
      contained := indexed;
      if !locked {
        var found := Find(key);
        forall i | 0 <= i < |entries| ensures entries[i].key == objects[i].key {
          assert HoldsAt(buffer[..], entries[i], objects[i]);
        }
        contained := contained || found.Some?;
      }
    }

    /**
     Writes an object: a key that is there already is skipped, a large object is written alone, and a small one is
     buffered. The buffered objects are flushed first exactly when the new one does not fit beside them, and the
     buffer is flushed afterwards exactly when it is full.
     */
    method Write(o: Object, locked: bool, indexed: bool)
        returns (alone: Option<Object>, flushes: seq<Flush>, ghost flushed: seq<seq<Object>>)
      requires Valid()
      modifies this, buffer
      ensures Valid() && (buffer == old(buffer) || fresh(buffer)) && AllFlushed(flushes, flushed)
      ensures
        var contained := indexed || (!locked && exists i :: 0 <= i < |old(objects)| && old(objects)[i].key == o.key);
        if contained || !Small(o) then
          alone == (if contained then None else Some(o)) && flushed == [] && objects == old(objects)
        else alone == None && Buffers(old(objects), o, flushed, objects)
    {
      alone, flushes, flushed := None, [], [];
      var contained := Contains(o.key, locked, indexed);
      if contained {
        return;
      }
      if PayloadDiskBytes(|o.bytes|) >= SMALL_ENTRY_BYTES {
        alone := Some(o);
        return;
      }
      flushes, flushed := BufferSmall(o);
    }

    method BufferSmall(o: Object) returns (flushes: seq<Flush>, ghost flushed: seq<seq<Object>>)
      requires Valid() && Small(o)
      modifies this, buffer
      ensures Valid() && (buffer == old(buffer) || fresh(buffer)) && AllFlushed(flushes, flushed)
      ensures Buffers(old(objects), o, flushed, objects)
    {
      flushes, flushed := [], [];
      var size := PayloadDiskBytes(|o.bytes|);
      DiskBytesPositive(|o.bytes|);
      PackedTotal(buffer[..], entries, objects);
      if EndOf(entries) + size > CHUNK_BYTES {
        flushes, flushed := FlushInto(flushes, flushed);
      }
      Append(o, EndOf(entries));
      PackedTotal(buffer[..], entries, objects);
      if EndOf(entries) == CHUNK_BYTES {
        flushes, flushed := FlushInto(flushes, flushed);
      }
    }

    /** Adds what is buffered to the flushes. */
    method FlushInto(flushes: seq<Flush>, ghost flushed: seq<seq<Object>>)
        returns (more: seq<Flush>, ghost moreFlushed: seq<seq<Object>>)
      requires Valid() && AllFlushed(flushes, flushed)
      modifies this
      ensures Valid() && objects == [] && fresh(buffer) && EndOf(entries) == 0
      ensures AllFlushed(more, moreFlushed) && moreFlushed == flushed + [old(objects)]
    {
      ghost var before := objects;
      var flush := TakeFlush();
      more, moreFlushed := flushes + [flush], flushed + [before];
    }

    /** Copies the bytes behind the entries already packed. */
    method Append(o: Object, offset: nat)
      requires Valid() && offset == EndOf(entries) && offset + PayloadDiskBytes(|o.bytes|) <= CHUNK_BYTES
      modifies this`entries, this`objects, buffer
      ensures Valid() && objects == old(objects) + [o]
      ensures EndOf(entries) == offset + PayloadDiskBytes(|o.bytes|)
    {
      ghost var before := buffer[..];
      DiskBytesPositive(|o.bytes|);
      CopyInto(buffer, offset, o.bytes);
      var b := Buffered(o.key, |o.bytes|, o.checksum, offset);
      AppendPacked(entries, b);
      AppendHolds(before, buffer[..], entries, objects, b, o);
      entries, objects := entries + [b], objects + [o];
    }
  }

  /** Each flush holds the bytes of its objects, packed. */
  ghost predicate AllFlushed(flushes: seq<Flush>, flushed: seq<seq<Object>>) {
    |flushes| == |flushed| && forall i :: 0 <= i < |flushes| ==>
      Packed(flushes[i].entries) && Holds(flushes[i].bytes, flushes[i].entries, flushed[i])
  }

  /** The disk bytes of the objects, padding included. */
  ghost function PaddedTotal(objects: seq<Object>): nat {
    if objects == [] then 0
    else PaddedTotal(objects[..|objects| - 1]) + PayloadDiskBytes(|objects[|objects| - 1].bytes|)
  }

  /** What buffering a small object flushes, and what stays buffered. */
  ghost predicate Buffers(before: seq<Object>, o: Object, flushed: seq<seq<Object>>, after: seq<Object>) {
    var fits := PaddedTotal(before + [o]) <= CHUNK_BYTES;
    var full := PaddedTotal(if fits then before + [o] else [o]) == CHUNK_BYTES;
    Parts(before, o, fits, full, flushed, after)
  }

  /** The entries end where the disk bytes of their objects end. */
  lemma {:induction false} PackedTotal(buffer: seq<byte>, entries: seq<Buffered>, objects: seq<Object>)
    requires InOrder(entries) && |entries| == |objects|
    requires forall i :: 0 <= i < |entries| ==> HoldsAt(buffer, entries[i], objects[i])
    ensures PaddedTotal(objects) == EndOf(entries)
  {
    if entries != [] {
      var n := |entries| - 1;
      forall i {:trigger StartOf(entries[..n], i)} | 0 <= i < n
        ensures entries[..n][i].offset == StartOf(entries[..n], i)
      {
        assert entries[i].offset == StartOf(entries, i);
      }
      PackedTotal(buffer, entries[..n], objects[..n]);
      assert entries[n].offset == StartOf(entries, n) && HoldsAt(buffer, entries[n], objects[n]);
    }
  }

  lemma ConcatOne(objects: seq<Object>)
    ensures Concat([objects]) == objects
  {
    ConcatAppend([], objects);
    assert [] + [objects] == [objects];
    assert [] + objects == objects;
  }

  lemma ConcatTwo(a: seq<Object>, b: seq<Object>)
    ensures Concat([a, b]) == a + b
  {
    ConcatOne(a);
    ConcatAppend([a], b);
    assert [a] + [b] == [a, b];
  }

  /** The old objects are flushed first unless the new one fits, and the buffer is flushed if it is full then. */
  ghost predicate Parts(before: seq<Object>, o: Object, fits: bool, full: bool, flushed: seq<seq<Object>>,
                        after: seq<Object>)
  {
    if fits then if full then flushed == [before + [o]] && after == [] else flushed == [] && after == before + [o]
    else if full then flushed == [before, [o]] && after == [] else flushed == [before] && after == [o]
  }

  lemma PartsAll(before: seq<Object>, o: Object, fits: bool, full: bool, flushed: seq<seq<Object>>,
                 after: seq<Object>)
    requires Parts(before, o, fits, full, flushed, after)
    ensures Concat(flushed) + after == before + [o] && |flushed| <= 2
  {
    var all := before + [o];
    ConcatOne(before);
    ConcatOne(all);
    ConcatTwo(before, [o]);
    assert all + [] == all && [] + all == all;
  }

  /** Nothing is lost: flushed and kept objects are together the old ones and the new one, in order. */
  lemma BuffersAll(before: seq<Object>, o: Object, flushed: seq<seq<Object>>, after: seq<Object>)
    requires Buffers(before, o, flushed, after)
    ensures Concat(flushed) + after == before + [o] && |flushed| <= 2
  {
    var fits := PaddedTotal(before + [o]) <= CHUNK_BYTES;
    var full := PaddedTotal(if fits then before + [o] else [o]) == CHUNK_BYTES;
    PartsAll(before, o, fits, full, flushed, after);
  }

  lemma AppendHolds(before: seq<byte>, after: seq<byte>, entries: seq<Buffered>, objects: seq<Object>, b: Buffered,
                    o: Object)
    requires Packed(entries) && Holds(before, entries, objects)
    requires b == Buffered(o.key, |o.bytes|, o.checksum, EndOf(entries)) && b.offset + |o.bytes| <= CHUNK_BYTES
    requires after == before[..b.offset] + o.bytes + before[b.offset + |o.bytes|..]
    ensures Holds(after, entries + [b], objects + [o])
  {
    assert after[..b.offset] == before[..b.offset] && HoldsAt(after, b, o);
    forall i | 0 <= i < |entries| ensures HoldsAt(after, entries[i], objects[i]) {
      assert HoldsAt(before, entries[i], objects[i]);
      PackedOffsets(entries, |entries|, i);
      DiskBytesPositive(entries[i].length);
      KeptBelow(before, after, b.offset, entries[i], objects[i]);
    }
  }

  lemma KeptBelow(before: seq<byte>, after: seq<byte>, offset: nat, b: Buffered, o: Object)
    requires HoldsAt(before, b, o) && b.offset + b.length <= offset <= |before| == |after|
    requires after[..offset] == before[..offset]
    ensures HoldsAt(after, b, o)
  {
    assert after[b.offset..b.offset + |o.bytes|] == after[..offset][b.offset..b.offset + |o.bytes|];
    assert before[b.offset..b.offset + |o.bytes|] == before[..offset][b.offset..b.offset + |o.bytes|];
  }

  lemma AppendPacked(entries: seq<Buffered>, b: Buffered)
    requires Packed(entries) && b.offset == EndOf(entries) && b.offset + PayloadDiskBytes(b.length) <= CHUNK_BYTES
    ensures Packed(entries + [b])
  {
    var all := entries + [b];
    forall i | 0 <= i < |all| ensures all[i].offset == StartOf(all, i) {
      assert i < |entries| ==> entries[i].offset == StartOf(entries, i);
    }
  }

  ghost function Concat(parts: seq<seq<Object>>): seq<Object> {
    if parts == [] then [] else Concat(parts[..|parts| - 1]) + parts[|parts| - 1]
  }

  lemma ConcatAppend(parts: seq<seq<Object>>, last: seq<Object>)
    ensures Concat(parts + [last]) == Concat(parts) + last
  {
    assert (parts + [last])[..|parts|] == parts;
  }
}
