/**
 Admission of a payload write (disk_cache/writer.rs): attempts to reserve its chunks, and samples that evict
 one entry each under a budget of attempts and chunks.
 */
module Admission {
  import opened Layout
  import opened Metadata
  import opened ShardModel
  import opened Publication
  import opened Allocation
  import opened DiskIndex
  import opened Retention

  const MAX_EVICTION_ATTEMPTS: nat := 64
  const MAX_EVICTION_CHUNKS: nat := 4096

  // ---------------------------------------------------------------- attempts

  /** Where an attempt reserves its chunks: first the chain grows if needed, then the lowest run is taken. */
  ghost function AttemptStart(s: Shard, entryCount: nat, required: nat): Option<nat> {
    var grown := EnsureFreeSlots(s, entryCount);
    if grown.Some? then LowestRun(grown.value.free, required) else None
  }

  /** The shard after one attempt to grow the chain and reserve chunks. */
  ghost function Attempted(s: Shard, entryCount: nat, start: Option<nat>, required: nat): Shard {
    var grown := EnsureFreeSlots(s, entryCount);
    if grown.None? then s
    else if start.None? then grown.value
    else Reserve(grown.value, Range(start.value, start.value + required))
  }

  /** Reserved chunks are owned by whatever writer takes them; without chunks the writers are unchanged. */
  ghost predicate Admitted(g: Config, w: map<nat, Range>, s: Shard, start: Option<nat>, required: nat)
    requires ValidConfig(g)
  {
    match start
    case None => Inv(g, s, w)
    case Some(first) =>
      required > 0 && forall id: nat :: id !in w ==> Inv(g, s, w[id := Range(first, first + required)])
  }

  ghost predicate AdmissionStep(g: Config, w: map<nat, Range>, required: nat, s: Shard, after: Shard,
                                start: Option<nat>, victim: Option<nat>)
    requires ValidConfig(g)
  {
    && Admitted(g, w, after, start, required)
    && |s.chain| <= |after.chain|
    && (victim.Some? ==> victim.value in s.index)
    && after.index == if victim.Some? then s.index - {victim.value} else s.index
  }

  lemma ReservedAdmitted(g: Config, s: Shard, w: map<nat, Range>, first: nat, required: nat)
    requires ValidConfig(g) && Inv(g, s, w) && s.chain != [] && FreeRange(s.free, first, required)
    ensures Admitted(g, w, Reserve(s, Range(first, first + required)), Some(first), required)
  {
    var r := Range(first, first + required);
    forall id: nat | id !in w ensures Inv(g, Reserve(s, r), w[id := r]) {
      ReserveKeepsInv(g, s, w, id, r);
    }
  }

  lemma AttemptFrame(s: Shard, entryCount: nat, start: Option<nat>, required: nat)
    ensures var after := Attempted(s, entryCount, start, required);
      after.index == s.index && |s.chain| <= |after.chain|
  {
  }

  lemma AttemptKeepsInv(g: Config, s: Shard, w: map<nat, Range>, entryCount: nat, required: nat, start: Option<nat>)
    requires ValidConfig(g) && Inv(g, s, w) && 0 < entryCount <= MAX_BATCH
    requires start == AttemptStart(s, entryCount, required)
    ensures AdmissionStep(g, w, required, s, Attempted(s, entryCount, start, required), start, None)
  {
    AttemptFrame(s, entryCount, start, required);
    if start.None? {
      FailedAttempt(g, s, w, entryCount, required);
    } else {
      var grown := EnsureFreeSlots(s, entryCount).value;
      assert Inv(g, grown, w) && grown.chain != [] by {
        EnsureFreeSlotsKeepsInv(g, s, w, entryCount);
      }
      ReservedAdmitted(g, grown, w, start.value, required);
    }
  }

  /** The reserved run was the lowest that fits what was free, and without one nothing free fits. */
  ghost predicate LowestWas(free: set<nat>, start: Option<nat>, required: nat) {
    LowestRun(if start.Some? then free + Interval(start.value, start.value + required) else free, required) == start
  }

  /** Eviction may help only while the request is within what the metadata chunks leave of the shard. */
  ghost predicate MayEvict(g: Config, s: Shard, required: nat) {
    required <= g.hi - g.lo - |s.chain|
  }

  lemma AttemptLowest(s: Shard, entryCount: nat, required: nat, start: Option<nat>)
    requires entryCount > 0
    requires start == AttemptStart(s, entryCount, required)
    ensures LowestWas(Attempted(s, entryCount, start, required).free, start, required)
  {
    var grown := EnsureFreeSlots(s, entryCount);
    if start.Some? {
      var r := Interval(start.value, start.value + required);
      assert grown.value.free - r + r == grown.value.free;
    } else if grown.None? {
      forall c: nat ensures !FreeRange({}, c, required) {
        assert required > 0 ==> c in Interval(c, c + required);
      }
    }
  }

  lemma FailedAttempt(g: Config, s: Shard, w: map<nat, Range>, entryCount: nat, required: nat)
    requires ValidConfig(g) && Inv(g, s, w)
    ensures Inv(g, Attempted(s, entryCount, None, required), w)
  {
    if EnsureFreeSlots(s, entryCount).Some? {
      EnsureFreeSlotsKeepsInv(g, s, w, entryCount);
    }
  }

  lemma EvictKeepsInv(g: Config, s: Shard, w: map<nat, Range>, key: nat)
    requires ValidConfig(g) && Inv(g, s, w) && key in s.index
    ensures Inv(g, RemoveEntry(s, key), w)
    ensures RemoveEntry(s, key).index == s.index - {key} && |RemoveEntry(s, key).chain| == |s.chain|
  {
    RemoveEntryKeepsInv(g, s, w, key);
    RemovedIndex(s, key);
  }

  lemma RemovedIndex(s: Shard, key: nat)
    requires Removable(s, key)
    ensures RemoveEntry(s, key).index == s.index - {key} && |RemoveEntry(s, key).chain| == |s.chain|
  {
  }

  lemma {:induction false} DistinctBound(chain: Chain, n: nat, lo: nat, hi: nat) returns (numbers: set<nat>)
    requires n <= |chain| && lo <= hi
    requires forall i :: 0 <= i < |chain| ==> lo <= chain[i].number < hi
    requires forall i, j :: 0 <= i < j < |chain| ==> chain[i].number != chain[j].number
    ensures |numbers| == n && numbers <= Interval(lo, hi)
    ensures forall c :: c in numbers ==> exists i :: 0 <= i < n && chain[i].number == c
  {
    if n == 0 {
      numbers := {};
    } else {
      var rest := DistinctBound(chain, n - 1, lo, hi);
      numbers := rest + {chain[n - 1].number};
    }
  }

  /** Metadata chunks never outnumber the shard's chunks. */
  lemma ChainFitsShard(g: Config, s: Shard, w: map<nat, Range>)
    requires ValidConfig(g) && OneOwner(s, w, g.lo, g.hi)
    ensures |s.chain| <= g.hi - g.lo
  {
    forall i | 0 <= i < |s.chain| ensures g.lo <= s.chain[i].number < g.hi {
      ChainNumber(g, s, w, i);
    }
    forall i, j | 0 <= i < j < |s.chain| ensures s.chain[i].number != s.chain[j].number {
      ChainNumber(g, s, w, i);
    }
    var numbers := DistinctBound(s.chain, |s.chain|, g.lo, g.hi);
    SubsetSize(numbers, Interval(g.lo, g.hi));
    IntervalSize(g.lo, g.hi);
  }

  // ---------------------------------------------------------------- samples

  /** What a sample is taken from: the index, its candidates in order, the cursor, and the chunks left to evict. */
  datatype Sampling = Sampling(index: map<nat, Entry>, candidates: seq<nat>, cursor: nat, budget: nat)

  /** One sample of an admission, and the entry it evicts. */
  datatype Round = Round(from: Sampling, victim: Option<nat>)

  /** The round evicts the first lowest-scoring sampled entry that fits the budget, and nothing if none fits. */
  ghost predicate EvictsLowest(r: Round, sampleSize: nat, score: (nat, nat) -> int) {
    var sample := Sample(r.from.cursor, r.from.candidates, sampleSize);
    LowestFitting(r.from.index, sample, r.from.budget, score, r.victim)
  }

  ghost function Spent(r: Round): nat {
    if r.victim.Some? && r.victim.value in r.from.index then ChunkCount(r.from.index[r.victim.value].length) else 0
  }

  /** Exactly what the round leaves: its victim is gone, its chunks are spent, and the cursor is past the sample. */
  ghost predicate Leaves(r: Round, sampleSize: nat, next: Sampling) {
    && next.budget + Spent(r) == r.from.budget
    && next.cursor == NextCursor(r.from.cursor, |r.from.candidates|, sampleSize)
    && match r.victim
       case None => next.index == r.from.index && next.candidates == r.from.candidates
       case Some(key) =>
         next.index == r.from.index - {key} && SwapRemoved(r.from.candidates, key, next.candidates)
  }

  /** The rounds lead from one sampling state to another, each starting where the previous one ended. */
  ghost predicate Trace(first: Sampling, rounds: seq<Round>, last: Sampling, sampleSize: nat, score: (nat, nat) -> int)
    decreases |rounds|
  {
    if rounds == [] then last == first
    else
      var n := |rounds| - 1;
      && EvictsLowest(rounds[n], sampleSize, score) && Leaves(rounds[n], sampleSize, last)
      && Trace(first, rounds[..n], rounds[n].from, sampleSize, score)
  }

  lemma TracePush(first: Sampling, rounds: seq<Round>, r: Round, last: Sampling, sampleSize: nat,
                  score: (nat, nat) -> int)
    requires Trace(first, rounds, r.from, sampleSize, score)
    requires EvictsLowest(r, sampleSize, score) && Leaves(r, sampleSize, last)
    ensures Trace(first, rounds + [r], last, sampleSize, score)
  {
    assert (rounds + [r])[..|rounds|] == rounds;
  }

  ghost function Victims(rounds: seq<Round>): seq<nat> {
    if rounds == [] then []
    else
      var n := |rounds| - 1;
      Victims(rounds[..n]) + if rounds[n].victim.Some? then [rounds[n].victim.value] else []
  }

  /** The chunks counted against the eviction budget for the removed keys. */
  ghost function TotalChunks(index: map<nat, Entry>, keys: seq<nat>): nat {
    if keys == [] then 0
    else
      var n := |keys| - 1;
      TotalChunks(index, keys[..n]) + if keys[n] in index then ChunkCount(index[keys[n]].length) else 0
  }

  /** `after` is `before` without the removed keys, each of which was indexed once. */
  ghost predicate RemovedFrom(before: map<nat, Entry>, after: map<nat, Entry>, keys: seq<nat>) {
    && (forall i :: 0 <= i < |keys| ==> keys[i] in before && keys[i] !in after)
    && (forall i, j :: 0 <= i < j < |keys| ==> keys[i] != keys[j])
    && (forall k :: k in after ==> k in before && after[k] == before[k])
    && (forall k :: k in before && k !in keys ==> k in after)
  }

  lemma RemovedOne(before: map<nat, Entry>, mid: map<nat, Entry>, keys: seq<nat>, k: nat)
    requires RemovedFrom(before, mid, keys) && k in mid
    ensures RemovedFrom(before, mid - {k}, keys + [k])
    ensures TotalChunks(before, keys + [k]) == TotalChunks(before, keys) + ChunkCount(mid[k].length)
  {
    assert (keys + [k])[..|keys|] == keys;
  }

  /** The victims of a trace are what it removed from the index, and their chunks are what it took from the budget. */
  lemma {:induction false} TraceRemoves(first: Sampling, rounds: seq<Round>, last: Sampling, sampleSize: nat,
                                        score: (nat, nat) -> int)
    requires Trace(first, rounds, last, sampleSize, score)
    ensures RemovedFrom(first.index, last.index, Victims(rounds))
    ensures last.budget + TotalChunks(first.index, Victims(rounds)) == first.budget
    decreases |rounds|
  {
    if rounds != [] {
      var n := |rounds| - 1;
      var r := rounds[n];
      TraceRemoves(first, rounds[..n], r.from, sampleSize, score);
      if r.victim.Some? {
        RemovedOne(first.index, r.from.index, Victims(rounds[..n]), r.victim.value);
      } else {
        assert Victims(rounds) == Victims(rounds[..n]);
      }
    }
  }
}
