/**
 Splitting of reads and padded writes into aligned requests (uring.rs, file.rs). A request's own short
 transfers are the subject of IoQueueRuns; here each request moves all its bytes.
 */
module FileIo {
  import opened Layout
  import opened IoQueues
  import opened PageFormat

  /** `data` padded with zeros to `length` bytes. */
  function Padded(data: seq<byte>, length: nat): (r: seq<byte>)
    requires |data| <= length
    ensures |r| == length
  {
    data + Zeros(length - |data|)
  }

  function Overwritten(file: seq<byte>, offset: nat, contents: seq<byte>): (after: seq<byte>)
    requires offset + |contents| <= |file|
    ensures |after| == |file|
  {
    file[..offset] + contents + file[offset + |contents|..]
  }

  /** An aligned prefix is used in place; everything else is copied into one padded, aligned buffer. */
  method FromWriteBytes(length: nat, data: seq<byte>, addressAligned: bool) returns (prefix: seq<byte>, tail: seq<byte>)
    requires |data| <= length && length % ALIGNMENT == 0
    ensures prefix + tail == Padded(data, length)
    ensures |prefix| % ALIGNMENT == 0 && |tail| % ALIGNMENT == 0
    ensures !addressAligned ==> prefix == []
    ensures addressAligned ==> |prefix| <= |data| < |prefix| + ALIGNMENT
  {
    var alignedLength := if addressAligned then |data| / ALIGNMENT * ALIGNMENT else 0;
    prefix := data[..alignedLength];
    tail := data[alignedLength..] + Zeros(length - |data|);
    assert prefix + tail == Padded(data, length);
  }

  function Flatten(parts: seq<seq<byte>>): seq<byte> {
    if parts == [] then [] else parts[0] + Flatten(parts[1..])
  }

  /** The descriptors of a vectored write from `skip` on: nonempty ones only, in order. */
  method Iovecs(prefix: seq<byte>, tail: seq<byte>, skip: nat) returns (iovecs: seq<seq<byte>>)
    requires skip <= |prefix| + |tail|
    ensures Flatten(iovecs) == (prefix + tail)[skip..] && |iovecs| <= 2
    ensures forall v :: v in iovecs ==> v != []
  {
    var bytes := [prefix, tail];
    var toSkip := skip;
    iovecs := [];
    ghost var seen: seq<byte> := [];
    for i := 0 to 2
      invariant |iovecs| <= i && (forall v :: v in iovecs ==> v != []) && toSkip <= skip
      invariant seen == (if i == 0 then [] else if i == 1 then prefix else prefix + tail)
      invariant |seen| <= skip ==> toSkip == skip - |seen| && iovecs == []
      invariant |seen| > skip ==> toSkip == 0 && Flatten(iovecs) == seen[skip..]
    {
      var dropped := MinOf(toSkip, |bytes[i]|);
      toSkip := toSkip - dropped;
      var remaining := bytes[i][dropped..];
      ghost var before := seen;
      seen := seen + bytes[i];
      if remaining != [] {
        FlattenPush(iovecs, remaining);
        iovecs := iovecs + [remaining];
        assert |before| > skip ==> seen[skip..] == before[skip..] + bytes[i];
        assert |before| <= skip ==> seen[skip..] == remaining;
      }
      assert remaining == [] && |before| > skip ==> seen == before;
    }
    assert |seen| == skip ==> (prefix + tail)[skip..] == [];
  }

  lemma {:induction false} FlattenPush(parts: seq<seq<byte>>, part: seq<byte>)
    ensures Flatten(parts + [part]) == Flatten(parts) + part
  {
    if parts == [] {
      assert parts + [part] == [part] && [part][1..] == [];
    } else {
      assert (parts + [part])[1..] == parts[1..] + [part];
      FlattenPush(parts[1..], part);
    }
  }

  /** What is written once the first `done` bytes of `contents` are. */
  lemma WritePiece(file: seq<byte>, offset: nat, contents: seq<byte>, done: nat, piece: nat)
    requires offset + |contents| <= |file| && done + piece <= |contents|
    ensures Overwritten(Overwritten(file, offset, contents[..done]), offset + done, contents[done..done + piece])
         == Overwritten(file, offset, contents[..done + piece])
  {
    assert contents[..done + piece] == contents[..done] + contents[done..done + piece];
  }

  lemma Adjacent(bytes: seq<byte>, a: nat, b: nat, c: nat)
    requires a <= b <= c <= |bytes|
    ensures bytes[a..b] + bytes[b..c] == bytes[a..c]
  {
  }

  lemma Inner(bytes: seq<byte>, first: nat, total: nat, padding: nat, length: nat)
    requires first + total <= |bytes| && padding + length <= total
    ensures bytes[first..first + total][padding..padding + length] == bytes[first + padding..first + padding + length]
  {
    var inner := bytes[first..first + total][padding..padding + length];
    var outer := bytes[first + padding..first + padding + length];
    forall i | 0 <= i < length ensures inner[i] == outer[i] {
      assert inner[i] == bytes[first..first + total][padding + i] == bytes[first + (padding + i)];
    }
  }

  /** A piece of the data, padded on its own, is that piece of the padded data. */
  lemma PieceContents(data: seq<byte>, length: nat, start: nat, n: nat)
    requires |data| <= length && start + n <= length
    ensures var end := MinOf(start + n, |data|);
      Padded(data[MinOf(start, end)..end], n) == Padded(data, length)[start..start + n]
  {
    var end := MinOf(start + n, |data|);
    var piece, slice := Padded(data[MinOf(start, end)..end], n), Padded(data, length)[start..start + n];
    forall i | 0 <= i < n ensures piece[i] == slice[i] {
      assert slice[i] == Padded(data, length)[start + i];
    }
  }

  /** One request of a transfer. */
  datatype Piece = Piece(offset: nat, length: nat)

  /** The requests for a range: 1 MiB each, and what is left last. */
  function Pieces(start: nat, end: nat): seq<Piece>
    decreases end - start
  {
    if start >= end then []
    else
      var length := MinOf(end - start, MAX_IO_REQUEST_BYTES);
      [Piece(start, length)] + Pieces(start + length, end)
  }

  /** Each request of an aligned range is aligned and of at most 1 MiB, and starts where the previous one ends. */
  lemma {:induction false} PiecesTile(start: nat, end: nat, i: nat)
    requires start % ALIGNMENT == 0 && end % ALIGNMENT == 0 && i < |Pieces(start, end)|
    ensures
      var pieces := Pieces(start, end);
      && 0 < pieces[i].length <= MAX_IO_REQUEST_BYTES
      && pieces[i].length % ALIGNMENT == 0 && pieces[i].offset % ALIGNMENT == 0
      && pieces[i].offset == (if i == 0 then start else pieces[i - 1].offset + pieces[i - 1].length)
      && pieces[|pieces| - 1].offset + pieces[|pieces| - 1].length == end
    decreases end - start
  {
    var length := MinOf(end - start, MAX_IO_REQUEST_BYTES);
    var rest := Pieces(start + length, end);
    if rest != [] {
      PiecesTile(start + length, end, if i == 0 then 0 else i - 1);
    }
  }

  /** The first request and those of the rest are the requests of the whole range. */
  lemma FirstPiece(before: seq<Piece>, start: nat, length: nat, end: nat)
    requires start < end && length == MinOf(end - start, MAX_IO_REQUEST_BYTES)
    ensures (before + [Piece(start, length)]) + Pieces(start + length, end) == before + Pieces(start, end)
  {
    assert Pieces(start, end) == [Piece(start, length)] + Pieces(start + length, end);
  }

  class DataFile {
    var bytes: seq<byte>
    ghost var requests: seq<Piece>

    constructor (bytes: seq<byte>)
      ensures this.bytes == bytes && requests == []
    {
      this.bytes, requests := bytes, [];
    }

    method SubmitWrite(offset: nat, contents: seq<byte>)
      requires offset + |contents| <= |bytes|
      modifies this
      ensures bytes == Overwritten(old(bytes), offset, contents)
      ensures requests == old(requests) + [Piece(offset, |contents|)]
    {
      bytes, requests := Overwritten(bytes, offset, contents), requests + [Piece(offset, |contents|)];
    }

    method SubmitRead(offset: nat, length: nat) returns (contents: seq<byte>)
      requires offset + length <= |bytes|
      modifies this`requests
      ensures contents == bytes[offset..offset + length] && requests == old(requests) + [Piece(offset, length)]
    {
      contents, requests := bytes[offset..offset + length], requests + [Piece(offset, length)];
    }

    /** Writes the piece from `start` on. */
    method WriteNext(offset: nat, length: nat, data: seq<byte>, start: nat, addressAligned: bool,
                     ghost original: seq<byte>)
        returns (written: nat)
      requires length % ALIGNMENT == 0 && |data| <= length && start < length && start % ALIGNMENT == 0
      requires offset + length <= |original| && bytes == Overwritten(original, offset, Padded(data, length)[..start])
      modifies this
      ensures written == MinOf(length - start, MAX_IO_REQUEST_BYTES) && (start + written) % ALIGNMENT == 0
      ensures bytes == Overwritten(original, offset, Padded(data, length)[..start + written])
      ensures requests == old(requests) + [Piece(offset + start, written)]
    {
      written := MinOf(length - start, MAX_IO_REQUEST_BYTES);
      var end := MinOf(start + written, |data|);
      var prefix, tail := FromWriteBytes(written, data[MinOf(start, end)..end], addressAligned);
      PieceContents(data, length, start, written);
      WritePiece(original, offset, Padded(data, length), start, written);
      SubmitWrite(offset + start, prefix + tail);
    }

    /** Requests of at most 1 MiB, one after the other, write exactly the data and its padding. */
    method WritePadded(offset: nat, length: nat, data: seq<byte>, addressAligned: bool)
      requires offset % ALIGNMENT == 0 && length % ALIGNMENT == 0 && |data| <= length && offset + length <= |bytes|
      modifies this
      ensures bytes == Overwritten(old(bytes), offset, Padded(data, length))
      ensures requests == old(requests) + Pieces(offset, offset + length)
    {
      ghost var contents, all := Padded(data, length), requests + Pieces(offset, offset + length);
      var start := 0;
      assert contents[..0] == [] && Overwritten(bytes, offset, []) == bytes;
      while start < length
        invariant start <= length && start % ALIGNMENT == 0
        invariant bytes == Overwritten(old(bytes), offset, contents[..start])
        invariant requests + Pieces(offset + start, offset + length) == all
      {
        ghost var before := requests;
        var written := WriteNext(offset, length, data, start, addressAligned, old(bytes));
        FirstPiece(before, offset + start, written, offset + length);
        start := start + written;
      }
      assert contents[..length] == contents;
      assert requests + [] == requests;
    }

    /** Reads an aligned range in pieces of 1 MiB. */
    method ReadAligned(first: nat, total: nat) returns (buffer: seq<byte>)
      requires first + total <= |bytes|
      modifies this`requests
      ensures buffer == bytes[first..first + total]
      ensures requests == old(requests) + Pieces(first, first + total)
    {
      buffer := [];
      var start := 0;
      while start < total
        invariant start <= total && buffer == bytes[first..first + start]
        invariant requests + Pieces(first + start, first + total) == old(requests) + Pieces(first, first + total)
      {
        var end := MinOf(start + MAX_IO_REQUEST_BYTES, total);
        FirstPiece(requests, first + start, end - start, first + total);
        Adjacent(bytes, first, first + start, first + end);
        var contents := SubmitRead(first + start, end - start);
        buffer := buffer + contents;
        start := end;
      }
      assert requests + [] == requests;
    }

    /** Aligned reads of disjoint 1-MiB pieces into one buffer, of which the padding is left out. */
    method ReadSlice(offset: nat, length: nat) returns (slice: seq<byte>)
      requires offset - offset % ALIGNMENT + PayloadDiskBytes(offset % ALIGNMENT + length) <= |bytes|
      modifies this`requests
      ensures |slice| == length && offset + length <= |bytes| && slice == bytes[offset..offset + length]
      ensures
        var first := offset - offset % ALIGNMENT;
        requests == old(requests) + Pieces(first, first + PayloadDiskBytes(offset % ALIGNMENT + length))
    {
      var padding := offset % ALIGNMENT;
      var first, total := offset - padding, PayloadDiskBytes(padding + length);
      var buffer := ReadAligned(first, total);
      slice := buffer[padding..padding + length];
      Inner(bytes, first, total, padding, length);
    }
  }

  /** A payload that was written padded is read back from its address. */
  lemma WrittenIsRead(file: seq<byte>, offset: nat, data: seq<byte>)
    requires offset + PayloadDiskBytes(|data|) <= |file|
    ensures |data| <= PayloadDiskBytes(|data|)
    ensures Overwritten(file, offset, Padded(data, PayloadDiskBytes(|data|)))[offset..offset + |data|] == data
  {
    var after := Overwritten(file, offset, Padded(data, PayloadDiskBytes(|data|)));
    forall i | 0 <= i < |data| ensures after[offset..offset + |data|][i] == data[i] {
      assert after[offset + i] == data[i];
    }
  }
}
