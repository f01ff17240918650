/**
 Ownership and reuse of whole chunks (allocation.rs): coalesced free runs keyed by their first chunk,
 and payload reservations that are freed after their last payload.
 */
module Allocation {
  import opened Layout
  import opened ShardModel

  /** Consecutive free chunks: first chunk number to count. */
  type Runs = map<nat, nat>

  ghost predicate InRun(runs: Runs, start: nat, c: nat) {
    start in runs && start <= c < start + runs[start]
  }

  ghost predicate IsFree(runs: Runs, c: nat) {
    exists start :: InRun(runs, start, c)
  }

  /** Runs are nonempty, and separated by at least one chunk that is not free. */
  ghost predicate Canonical(runs: Runs) {
    && (forall a :: a in runs ==> runs[a] > 0)
    && (forall a, b :: a in runs && b in runs && a < b ==> a + runs[a] < b)
  }

  /** The runs cover exactly the given chunks. */
  ghost predicate Covers(runs: Runs, free: set<nat>) {
    forall c: nat :: c in free <==> IsFree(runs, c)
  }

  // ---------------------------------------------------------------- canonical form

  /** A chunk starts a run exactly when it is free and its predecessor is not. */
  lemma RunStarts(runs: Runs, c: nat)
    requires Canonical(runs)
    ensures c in runs <==> IsFree(runs, c) && (c == 0 || !IsFree(runs, c - 1))
  {
    if c in runs {
      assert InRun(runs, c, c);
      if c > 0 {
        var before: nat := c - 1;
        forall a: nat ensures !InRun(runs, a, before) {
        }
      }
    } else if IsFree(runs, c) {
      var a :| InRun(runs, a, c);
      assert InRun(runs, a, c - 1);
    }
  }

  /** A run ends before the first chunk that is not free. */
  lemma RunEnds(runs: Runs, a: nat)
    requires Canonical(runs) && a in runs
    ensures !IsFree(runs, a + runs[a])
    ensures forall c :: a <= c < a + runs[a] ==> IsFree(runs, c)
  {
    var end: nat := a + runs[a];
    forall b: nat ensures !InRun(runs, b, end) {
    }
    forall c | a <= c < a + runs[a] ensures IsFree(runs, c) {
      assert InRun(runs, a, c);
    }
  }

  /** A set of free chunks has only one canonical form, so the map of runs is determined by the set. */
  lemma CanonicalUnique(x: Runs, y: Runs)
    requires Canonical(x) && Canonical(y)
    requires forall c: nat :: IsFree(x, c) <==> IsFree(y, c)
    ensures x == y
  {
    forall a: nat ensures a in x <==> a in y {
      RunStarts(x, a);
      RunStarts(y, a);
    }
    forall a | a in x ensures x[a] == y[a] {
      RunEnds(x, a);
      RunEnds(y, a);
      var xEnd: nat, yEnd: nat := a + x[a], a + y[a];
      assert xEnd < yEnd ==> IsFree(y, xEnd);
      assert yEnd < xEnd ==> IsFree(x, yEnd);
    }
  }

  /** Free chunks in a row lie in a single run. */
  lemma {:induction false} RangeInRun(runs: Runs, a: nat, start: nat, end: nat)
    requires Canonical(runs) && InRun(runs, a, start) && start < end
    requires forall c :: start <= c < end ==> IsFree(runs, c)
    ensures end <= a + runs[a]
  {
    RunEnds(runs, a);
    var runEnd: nat := a + runs[a];
    assert runEnd < end ==> IsFree(runs, runEnd);
  }

  // ---------------------------------------------------------------- the allocator

  /** Coalesced free runs and reference-counted payload reservations of one shard. */
  class DiskChunkAllocator {
    var chunkCountByStart: Runs
    var payloadChunks: map<nat, Hold>
    const chunkCapacity: nat

    ghost predicate Valid(free: set<nat>)
      reads this
    {
      Canonical(chunkCountByStart) && Covers(chunkCountByStart, free)
    }

    constructor (start: nat, end: nat)
      requires start < end
      ensures Valid(Interval(start, end)) && payloadChunks == map[] && chunkCapacity == end - start
    {
      chunkCountByStart := map[start := end - start];
      payloadChunks := map[];
      chunkCapacity := end - start;
      new;
      forall c: nat ensures c in Interval(start, end) <==> IsFree(chunkCountByStart, c) {
        if start <= c < end { assert InRun(chunkCountByStart, start, c); }
      }
    }

    /** The last run starting before `limit`, as a range query on the ordered map. */
    method LastRunBefore(limit: nat) returns (r: Option<nat>)
      ensures r.None? <==> forall a :: a in chunkCountByStart ==> a >= limit
      ensures r.Some? ==> r.value in chunkCountByStart && r.value < limit
      ensures r.Some? ==> forall a :: a in chunkCountByStart && a < limit ==> a <= r.value
    {
      var starts := set a | a in chunkCountByStart && a < limit;
      r := None;
      while starts != {}
        invariant starts <= chunkCountByStart.Keys && forall a :: a in starts ==> a < limit
        invariant forall a :: a in chunkCountByStart && a < limit && a !in starts ==> r.Some? && a <= r.value
        invariant r.Some? ==> r.value in chunkCountByStart && r.value < limit
        decreases starts
      {
        var a :| a in starts;
        starts := starts - {a};
        if r.None? || r.value < a { r := Some(a); }
      }
    }

    /** Returns chunks to the free map, merging adjacent runs. */
    method Release(start: nat, end: nat, ghost free: set<nat>)
      requires Valid(free) && start < end && Interval(start, end) !! free
      modifies this`chunkCountByStart
      ensures Valid(free + Interval(start, end))
    {
      ghost var runs := chunkCountByStart;
      var count := end - start + FollowingCount(chunkCountByStart, end);
      chunkCountByStart := chunkCountByStart - {end};
      var previous := LastRunBefore(start);
      if previous.Some? && previous.value + chunkCountByStart[previous.value] == start {
        chunkCountByStart := chunkCountByStart[previous.value := chunkCountByStart[previous.value] + count];
        ReleasedLeft(runs, start, end, free, previous.value, chunkCountByStart);
      } else {
        chunkCountByStart := chunkCountByStart[start := count];
        ReleasedAlone(runs, start, end, free, previous, chunkCountByStart);
      }
    }

    /** Reserves exactly these chunks, or changes nothing if any of them is not free. */
    method ReserveChunkNumbers(start: nat, end: nat, ghost free: set<nat>) returns (ok: bool)
      requires Valid(free)
      modifies this`chunkCountByStart
      ensures ok <==> start < end && Interval(start, end) <= free
      ensures ok ==> Valid(free - Interval(start, end))
      ensures !ok ==> chunkCountByStart == old(chunkCountByStart)
    {
      ghost var runs := chunkCountByStart;
      var run := LastRunBefore(start + 1);
      ReserveGuard(runs, start, end, free, run);
      if run.None? || start >= end || end > run.value + chunkCountByStart[run.value] { return false; }
      var first, last := run.value, run.value + chunkCountByStart[run.value];
      if start == first {
        chunkCountByStart := chunkCountByStart - {first};
      } else {
        chunkCountByStart := chunkCountByStart[first := start - first];
      }
      if end < last {
        chunkCountByStart := chunkCountByStart[end := last - end];
      }
      SplitRun(runs, first, start, end, free);
      SplitSteps(runs, first, start, end, chunkCountByStart);
      ok := true;
    }

    /** Reserves consecutive chunks from a given one. Overflowing ranges are rejected. */
    method ReserveChunksAt(first: nat, count: nat, ghost free: set<nat>) returns (ok: bool)
      requires Valid(free)
      modifies this`chunkCountByStart
      ensures ok <==> count > 0 && first + count < U64_END && Interval(first, first + count) <= free
      ensures ok ==> Valid(free - Interval(first, first + count))
      ensures !ok ==> chunkCountByStart == old(chunkCountByStart)
    {
      if first + count >= U64_END { return false; }
      ok := ReserveChunkNumbers(first, first + count, free);
    }

    /** Reserves the lowest run of `count` free chunks. Failure consumes nothing. */
    method ReserveChunks(count: nat, ghost free: set<nat>) returns (start: Option<nat>)
      requires Valid(free)
      modifies this`chunkCountByStart
      ensures start == LowestRun(free, count)
      ensures start.Some? ==> Valid(free - Interval(start.value, start.value + count))
      ensures start.None? ==> chunkCountByStart == old(chunkCountByStart)
    {
      var starts := set a | a in chunkCountByStart && chunkCountByStart[a] >= count;
      var found: Option<nat> := None;
      while starts != {}
        invariant starts <= chunkCountByStart.Keys && forall a :: a in starts ==> chunkCountByStart[a] >= count
        invariant forall a :: a in chunkCountByStart && chunkCountByStart[a] >= count && a !in starts ==>
                    found.Some? && found.value <= a
        invariant found.Some? ==> found.value in chunkCountByStart && chunkCountByStart[found.value] >= count
        decreases starts
      {
        var a :| a in starts;
        starts := starts - {a};
        if found.None? || a < found.value { found := Some(a); }
      }
      FirstFit(chunkCountByStart, count, free, found);
      if found.None? { return None; }
      var ok := ReserveChunkNumbers(found.value, found.value + count, free);
      start := if ok then found else None;
    }

    /** Keeps chunks reserved until all their payloads have been released. */
    method HoldChunksUntilPayloadsReleased(start: nat, end: nat, payloads: nat)
      modifies this`payloadChunks
      ensures payloadChunks == old(payloadChunks)[start := Hold(end, payloads)]
    {
      payloadChunks := payloadChunks[start := Hold(end, payloads)];
    }

    /** Keeps a recovered payload's chunks reserved, sharing an existing reservation that contains it. */
    method HoldChunksForRecoveredPayload(start: nat, end: nat, ghost free: set<nat>) returns (ok: bool)
      requires Valid(free) && start < end < U64_END
      modifies this`payloadChunks, this`chunkCountByStart
      ensures var h, last := start / CHUNK_BYTES, CeilDiv(end, CHUNK_BYTES);
        if h in old(payloadChunks) then
          var hold := old(payloadChunks)[h];
          && Valid(free)
          && (ok <==> end <= Address(hold.end))
          && payloadChunks ==
            if ok then old(payloadChunks)[h := hold.(payloads := hold.payloads + 1)] else old(payloadChunks)
        else
          && Valid(if ok then free - Interval(h, last) else free)
          && (ok <==> h < last && Interval(h, last) <= free)
          && payloadChunks == if ok then old(payloadChunks)[h := Hold(last, 1)] else old(payloadChunks)
    {
      var h := start / CHUNK_BYTES;
      if h in payloadChunks {
        var hold := payloadChunks[h];
        ok := end <= Address(hold.end);
        if ok {
          payloadChunks := payloadChunks[h := hold.(payloads := hold.payloads + 1)];
        }
      } else {
        var last := CeilDiv(end, CHUNK_BYTES);
        ok := ReserveChunksAt(h, last - h, free);
        if ok {
          payloadChunks := payloadChunks[h := Hold(last, 1)];
        }
      }
    }

    /** Releases one payload, freeing its chunks after the last one. */
    method ReleasePayload(address: nat, ghost free: set<nat>)
      requires Valid(free) && address / CHUNK_BYTES in payloadChunks
      requires payloadChunks[address / CHUNK_BYTES].payloads > 0
      requires address / CHUNK_BYTES < payloadChunks[address / CHUNK_BYTES].end
      requires Interval(address / CHUNK_BYTES, payloadChunks[address / CHUNK_BYTES].end) !! free
      modifies this`payloadChunks, this`chunkCountByStart
      ensures var h, hold := address / CHUNK_BYTES, old(payloadChunks)[address / CHUNK_BYTES];
        if hold.payloads == 1 then payloadChunks == old(payloadChunks) - {h} && Valid(free + Interval(h, hold.end))
        else payloadChunks == old(payloadChunks)[h := hold.(payloads := hold.payloads - 1)] && Valid(free)
    {
      var h := address / CHUNK_BYTES;
      var hold := payloadChunks[h];
      if hold.payloads == 1 {
        payloadChunks := payloadChunks - {h};
        Release(h, hold.end, free);
      } else {
        payloadChunks := payloadChunks[h := hold.(payloads := hold.payloads - 1)];
      }
    }
  }

  // ---------------------------------------------------------------- run surgery

  /** Chunks free from `end` on. */
  function FollowingCount(runs: Runs, end: nat): nat {
    if end in runs then runs[end] else 0
  }

  /** The free map after releasing `start..end`, with the merged run beginning at `first`. */
  ghost function Merged(runs: Runs, first: nat, end: nat): Runs
    requires first < end
  {
    var count: nat := end - first + FollowingCount(runs, end);
    (runs - {end})[first := count]
  }

  lemma MergedSteps(runs: Runs, start: nat, end: nat, first: nat, result: Runs)
    requires first <= start < end && (first < start ==> first in runs && first + runs[first] == start)
    requires var count: nat := end - start + FollowingCount(runs, end);
      result == (runs - {end})[first := if first == start then count else (runs - {end})[first] + count]
    ensures result == Merged(runs, first, end)
  {
  }

  lemma MergedCanonical(runs: Runs, start: nat, end: nat, first: nat)
    requires Canonical(runs) && first <= start < end
    requires forall a :: a in runs && a < start && a != first ==> a + runs[a] < first
    requires forall a :: a in runs && a >= start ==> a >= end
    ensures Canonical(Merged(runs, first, end))
  {
  }

  lemma MergedLeft(runs: Runs, start: nat, end: nat, free: set<nat>, previous: nat)
    requires Canonical(runs) && Covers(runs, free) && start < end && Interval(start, end) !! free
    requires previous in runs && previous < start && previous + runs[previous] == start
    ensures Canonical(Merged(runs, previous, end)) && Covers(Merged(runs, previous, end), free + Interval(start, end))
  {
    NoRunInside(runs, start, end, free);
    MergedCanonical(runs, start, end, previous);
    forall c: nat ensures c in free + Interval(start, end) <==> IsFree(Merged(runs, previous, end), c) {
      MergedFree(runs, start, end, free, previous, c);
    }
  }

  /** When the run before `start` does not touch it, no run below it does. */
  lemma GapBefore(runs: Runs, start: nat, previous: Option<nat>)
    requires Canonical(runs) && forall a :: a in runs && a < start ==> a + runs[a] <= start
    requires previous.None? ==> forall a :: a in runs ==> a >= start
    requires previous.Some? ==> previous.value in runs && previous.value + runs[previous.value] != start
    requires previous.Some? ==> forall a :: a in runs && a < start ==> a <= previous.value < start
    ensures forall a :: a in runs && a < start ==> a + runs[a] < start
  {
    forall a: nat | a in runs && a < start ensures a + runs[a] < start {
      assert a < previous.value ==> a + runs[a] < previous.value;
    }
  }

  lemma MergedRight(runs: Runs, start: nat, end: nat, free: set<nat>)
    requires Canonical(runs) && Covers(runs, free) && start < end && Interval(start, end) !! free
    requires forall a :: a in runs && a < start ==> a + runs[a] < start
    requires forall a :: a in runs && a >= start ==> a >= end
    ensures Canonical(Merged(runs, start, end)) && Covers(Merged(runs, start, end), free + Interval(start, end))
  {
    MergedCanonical(runs, start, end, start);
    forall c: nat ensures c in free + Interval(start, end) <==> IsFree(Merged(runs, start, end), c) {
      MergedFree(runs, start, end, free, start, c);
    }
  }

  lemma ReleasedLeft(runs: Runs, start: nat, end: nat, free: set<nat>, previous: nat, result: Runs)
    requires Canonical(runs) && Covers(runs, free) && start < end && Interval(start, end) !! free
    requires previous in runs - {end} && previous < start && previous + (runs - {end})[previous] == start
    requires result == (runs - {end})[previous := (runs - {end})[previous] + (end - start + FollowingCount(runs, end))]
    ensures Canonical(result) && Covers(result, free + Interval(start, end))
  {
    MergedLeft(runs, start, end, free, previous);
    MergedSteps(runs, start, end, previous, result);
  }

  lemma ReleasedAlone(runs: Runs, start: nat, end: nat, free: set<nat>, previous: Option<nat>, result: Runs)
    requires Canonical(runs) && Covers(runs, free) && start < end && Interval(start, end) !! free
    requires previous.None? ==> forall a :: a in runs - {end} ==> a >= start
    requires previous.Some? ==>
      && previous.value in runs - {end} && previous.value < start
      && previous.value + (runs - {end})[previous.value] != start
    requires previous.Some? ==> forall a :: a in runs - {end} && a < start ==> a <= previous.value
    requires result == (runs - {end})[start := end - start + FollowingCount(runs, end)]
    ensures Canonical(result) && Covers(result, free + Interval(start, end))
  {
    NoRunInside(runs, start, end, free);
    assert forall a :: a in runs && a < start ==> a in runs - {end};
    GapBefore(runs, start, previous);
    MergedRight(runs, start, end, free);
    MergedSteps(runs, start, end, start, result);
  }

  /** Runs below `start` end by it, and runs above it begin at `end` or later. */
  lemma NoRunInside(runs: Runs, start: nat, end: nat, free: set<nat>)
    requires Canonical(runs) && Covers(runs, free) && start < end && Interval(start, end) !! free
    ensures forall a :: a in runs && a < start ==> a + runs[a] <= start
    ensures forall a :: a in runs && a >= start ==> a >= end
  {
    assert start in Interval(start, end);
    forall a: nat | a in runs && a < start ensures a + runs[a] <= start {
      assert a + runs[a] > start ==> InRun(runs, a, start);
    }
    forall a: nat | a in runs && a >= start ensures a >= end {
      assert InRun(runs, a, a) && IsFree(runs, a);
      assert a < end ==> a in Interval(start, end);
    }
  }

  /** The merged run from `first` covers the released chunks and both neighbours, and nothing else changes. */
  lemma MergedFree(runs: Runs, start: nat, end: nat, free: set<nat>, first: nat, c: nat)
    requires Canonical(runs) && Covers(runs, free) && start < end && first <= start
    requires first == start || (first in runs && first + runs[first] == start)
    requires first == start ==> start !in runs
    ensures c in free + Interval(start, end) <==> IsFree(Merged(runs, first, end), c)
  {
    var merged := Merged(runs, first, end);
    if IsFree(merged, c) {
      var a :| InRun(merged, a, c);
      if a != first {
        assert InRun(runs, a, c);
      } else if c < start {
        assert InRun(runs, first, c);
      } else if c >= end {
        assert InRun(runs, end, c);
      }
    }
    if start <= c < end {
      assert InRun(merged, first, c);
    } else if IsFree(runs, c) {
      var a :| InRun(runs, a, c);
      assert InRun(merged, if a == end then first else a, c);
    }
  }

  /** A range is free exactly when the run at or before its start contains it. */
  lemma ReserveGuard(runs: Runs, start: nat, end: nat, free: set<nat>, run: Option<nat>)
    requires Canonical(runs) && Covers(runs, free)
    requires run.None? <==> forall a :: a in runs ==> a >= start + 1
    requires run.Some? ==> run.value in runs && run.value <= start
    requires run.Some? ==> forall a :: a in runs && a < start + 1 ==> a <= run.value
    ensures start < end ==>
      (Interval(start, end) <= free <==> run.Some? && end <= run.value + runs[run.value])
  {
    if start < end {
      if Interval(start, end) <= free {
        assert start in Interval(start, end) && IsFree(runs, start);
        var a :| InRun(runs, a, start);
        forall c | start <= c < end ensures IsFree(runs, c) {
          assert c in Interval(start, end);
        }
        RangeInRun(runs, a, start, end);
      } else if run.Some? && end <= run.value + runs[run.value] {
        forall c | c in Interval(start, end) ensures c in free {
          assert InRun(runs, run.value, c);
        }
      }
    }
  }

  /** The free map after reserving `start..end` out of the run at `first`. */
  ghost function Split(runs: Runs, first: nat, start: nat, end: nat): Runs
    requires first in runs && first <= start < end <= first + runs[first]
  {
    var left := if start == first then runs - {first} else runs[first := start - first];
    if end < first + runs[first] then left[end := first + runs[first] - end] else left
  }

  lemma SplitSteps(runs: Runs, first: nat, start: nat, end: nat, result: Runs)
    requires first in runs && first <= start < end <= first + runs[first]
    requires start == first && end < first + runs[first] ==>
      result == (runs - {first})[end := first + runs[first] - end]
    requires start == first && end == first + runs[first] ==> result == runs - {first}
    requires start > first && end < first + runs[first] ==>
      result == runs[first := start - first][end := first + runs[first] - end]
    requires start > first && end == first + runs[first] ==> result == runs[first := start - first]
    ensures result == Split(runs, first, start, end)
  {
  }

  lemma SplitCanonical(runs: Runs, first: nat, start: nat, end: nat)
    requires Canonical(runs) && first in runs && first <= start < end <= first + runs[first]
    ensures Canonical(Split(runs, first, start, end))
  {
    var split := Split(runs, first, start, end);
    forall a, b | a in split && b in split && a < b ensures a + split[a] < b {
      var x, y := if a == end then first else a, if b == end then first else b;
      assert x in runs && y in runs;
      assert x != y ==> x < y && x + runs[x] < y;
    }
  }

  lemma SplitFree(runs: Runs, first: nat, start: nat, end: nat, c: nat)
    requires Canonical(runs) && first in runs && first <= start < end <= first + runs[first]
    ensures IsFree(Split(runs, first, start, end), c) <==> IsFree(runs, c) && !(start <= c < end)
  {
    var split := Split(runs, first, start, end);
    if IsFree(runs, c) && !(start <= c < end) {
      var a :| InRun(runs, a, c);
      assert InRun(split, if a == first && c >= end then end else a, c);
    }
    if IsFree(split, c) {
      var a :| InRun(split, a, c);
      assert InRun(runs, if a == end then first else a, c);
    }
  }

  lemma SplitRun(runs: Runs, first: nat, start: nat, end: nat, free: set<nat>)
    requires Canonical(runs) && Covers(runs, free)
    requires first in runs && first <= start < end <= first + runs[first]
    ensures Canonical(Split(runs, first, start, end))
    ensures Covers(Split(runs, first, start, end), free - Interval(start, end))
  {
    SplitCanonical(runs, first, start, end);
    forall c: nat { SplitFree(runs, first, start, end, c); }
  }

  // ---------------------------------------------------------------- first fit

  ghost predicate FreeRange(free: set<nat>, start: nat, count: nat) {
    count > 0 && Interval(start, start + count) <= free
  }

  /** The lowest place where `count` consecutive chunks are free. */
  ghost function LowestRun(free: set<nat>, count: nat): (r: Option<nat>)
    ensures r.None? <==> forall s: nat :: !FreeRange(free, s, count)
    ensures r.Some? ==> FreeRange(free, r.value, count) && forall s: nat :: FreeRange(free, s, count) ==> r.value <= s
  {
    if forall s: nat :: !FreeRange(free, s, count) then None
    else
      var starts := set s | s in free && FreeRange(free, s, count);
      assert forall s: nat :: FreeRange(free, s, count) ==> s in Interval(s, s + count) && s in starts;
      Some(Min(starts))
  }

  lemma LowestIs(free: set<nat>, count: nat, start: nat)
    requires FreeRange(free, start, count) && forall s: nat :: FreeRange(free, s, count) ==> start <= s
    ensures LowestRun(free, count) == Some(start)
  {
  }

  /** The first run that is long enough starts the lowest free range. */
  lemma FirstFit(runs: Runs, count: nat, free: set<nat>, found: Option<nat>)
    requires Canonical(runs) && Covers(runs, free)
    requires found.None? ==> forall a :: a in runs ==> runs[a] < count
    requires found.Some? ==> found.value in runs && runs[found.value] >= count
    requires found.Some? ==> forall a :: a in runs && runs[a] >= count ==> found.value <= a
    ensures LowestRun(free, count) == if count > 0 then found else None
  {
    forall s: nat | FreeRange(free, s, count) ensures found.Some? && found.value <= s {
      var a := RunOfRange(runs, free, s, count);
    }
    if found.Some? && count > 0 {
      RunIsRange(runs, free, found.value, count);
      LowestIs(free, count, found.value);
    }
  }

  lemma RunOfRange(runs: Runs, free: set<nat>, s: nat, count: nat) returns (a: nat)
    requires Canonical(runs) && Covers(runs, free) && FreeRange(free, s, count)
    ensures a in runs && a <= s && runs[a] >= count
  {
    assert s in Interval(s, s + count) && IsFree(runs, s);
    a :| InRun(runs, a, s);
    forall c | s <= c < s + count ensures IsFree(runs, c) {
      assert c in Interval(s, s + count);
    }
    RangeInRun(runs, a, s, s + count);
  }

  lemma RunIsRange(runs: Runs, free: set<nat>, a: nat, count: nat)
    requires Covers(runs, free) && a in runs && runs[a] >= count > 0
    ensures FreeRange(free, a, count)
  {
    forall c | c in Interval(a, a + count) ensures c in free {
      assert InRun(runs, a, c);
    }
  }

  /** Releasing everything restores the single initial run. */
  lemma AllFreeIsOneRun(runs: Runs, start: nat, end: nat)
    requires Canonical(runs) && Covers(runs, Interval(start, end)) && start < end
    ensures runs == map[start := end - start]
  {
    var one: Runs := map[start := end - start];
    forall c: nat ensures IsFree(runs, c) <==> IsFree(one, c) {
      assert c in Interval(start, end) <==> InRun(one, start, c);
    }
    CanonicalUnique(runs, one);
  }
}
