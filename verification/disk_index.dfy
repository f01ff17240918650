/** The entry index of a shard with its swap-remove candidate list (disk_cache.rs). */
module DiskIndex {
  import opened Layout
  import opened ShardModel
  import opened Retention

  /** An indexed entry and its position among the eviction candidates. */
  datatype DiskEntry = DiskEntry(entry: Entry, evictionPosition: nat)

  function ChunkCount(length: nat): nat {
    CeilDiv(Max(length, 1), CHUNK_BYTES)
  }

  class DiskEntryIndex {
    var entriesByKey: map<nat, DiskEntry>
    var evictionCandidates: seq<nat>
    var nextSampleStart: nat

    /** The candidates list each key once, at the position its entry records. */
    ghost predicate Valid()
      reads this
    {
      && (forall k :: k in entriesByKey ==>
            && entriesByKey[k].evictionPosition < |evictionCandidates|
            && evictionCandidates[entriesByKey[k].evictionPosition] == k)
      && (forall i :: 0 <= i < |evictionCandidates| ==>
            evictionCandidates[i] in entriesByKey && entriesByKey[evictionCandidates[i]].evictionPosition == i)
    }

    ghost function View(): map<nat, Entry>
      reads this
    {
      map k | k in entriesByKey :: entriesByKey[k].entry
    }

    constructor ()
      ensures Valid() && View() == map[] && evictionCandidates == []
    {
      entriesByKey, evictionCandidates, nextSampleStart := map[], [], 0;
    }

    /** Removes a key from the index and, by swapping in the last one, from the candidates. */
    method TakeEntry(key: nat) returns (taken: Option<Entry>)
      requires Valid()
      modifies this`entriesByKey, this`evictionCandidates
      ensures Valid()
      ensures View() == old(View()) - {key}
      ensures key in old(View()) ==> SwapRemoved(old(evictionCandidates), key, evictionCandidates)
      ensures key !in old(View()) ==> evictionCandidates == old(evictionCandidates)
      ensures taken == if key in old(View()) then Some(old(View())[key]) else None
    {
      if key !in entriesByKey {
        return None;
      }
      var entry := entriesByKey[key];
      var position, last := entry.evictionPosition, |evictionCandidates| - 1;
      entriesByKey := entriesByKey - {key};
      evictionCandidates := evictionCandidates[position := evictionCandidates[last]][..last];
      assert SwapRemoved(old(evictionCandidates), key, evictionCandidates);
      if position < |evictionCandidates| {
        var moved := evictionCandidates[position];
        entriesByKey := entriesByKey[moved := entriesByKey[moved].(evictionPosition := position)];
      }
      taken := Some(entry.entry);
    }

    /** Indexes a key as the last candidate, and returns the entry it replaces. */
    method Insert(key: nat, entry: Entry) returns (previous: Option<Entry>)
      requires Valid()
      modifies this`entriesByKey, this`evictionCandidates
      ensures Valid()
      ensures View() == old(View())[key := entry]
      ensures evictionCandidates != [] && evictionCandidates[|evictionCandidates| - 1] == key
      ensures
        var others := evictionCandidates[..|evictionCandidates| - 1];
        if key in old(View()) then SwapRemoved(old(evictionCandidates), key, others)
        else others == old(evictionCandidates)
      ensures previous == if key in old(View()) then Some(old(View())[key]) else None
    {
      previous := TakeEntry(key);
      PushEntry(key, entry);
    }

    /** Indexes a new key as the last candidate. */
    method PushEntry(key: nat, entry: Entry)
      requires Valid() && key !in entriesByKey
      modifies this`entriesByKey, this`evictionCandidates
      ensures Valid() && View() == old(View())[key := entry]
      ensures evictionCandidates == old(evictionCandidates) + [key]
    {
      var position := |evictionCandidates|;
      evictionCandidates := evictionCandidates + [key];
      entriesByKey := entriesByKey[key := DiskEntry(entry, position)];
    }

    /**
     Chooses the first lowest-scoring sampled entry among those that fit the remaining chunk budget,
     and advances the rotating cursor.
     */
    method SelectVictim(sampleSize: nat, budget: nat, score: (nat, nat) -> int) returns (victim: Option<nat>)
      requires Valid() && sampleSize > 0
      modifies this`nextSampleStart
      ensures nextSampleStart == NextCursor(old(nextSampleStart), |evictionCandidates|, sampleSize)
      ensures View() == old(View())
      ensures LowestFitting(View(), Sample(old(nextSampleStart), evictionCandidates, sampleSize), budget, score, victim)
    {
      var sample := Sample(nextSampleStart, evictionCandidates, sampleSize);
      nextSampleStart := NextCursor(nextSampleStart, |evictionCandidates|, sampleSize);
      victim := None;
      for i := 0 to |sample|
        invariant nextSampleStart == NextCursor(old(nextSampleStart), |evictionCandidates|, sampleSize)
        invariant LowestFitting(View(), sample[..i], budget, score, victim)
      {
        var key := sample[i];
        assert key in sample && key in evictionCandidates;
        var entry := entriesByKey[key].entry;
        ghost var before := victim;
        if ChunkCount(entry.length) <= budget {
          if victim.None? || score(key, entry.length) < score(victim.value, entriesByKey[victim.value].entry.length) {
            victim := Some(key);
          }
        }
        assert sample[..i + 1] == sample[..i] + [key];
        LowestPush(View(), sample[..i], key, budget, score, before, victim);
      }
      assert sample[..|sample|] == sample;
    }
  }

  ghost predicate FitsBudget(index: map<nat, Entry>, key: nat, budget: nat) {
    key in index && ChunkCount(index[key].length) <= budget
  }

  ghost function ScoreOf(index: map<nat, Entry>, key: nat, score: (nat, nat) -> int): int {
    score(key, if key in index then index[key].length else 0)
  }

  /** Position `i` of the sample fits, no fitting entry scores lower, and no earlier one scores the same. */
  ghost predicate FirstLowest(index: map<nat, Entry>, sample: seq<nat>, budget: nat, score: (nat, nat) -> int, i: nat) {
    && i < |sample| && FitsBudget(index, sample[i], budget)
    && forall j :: 0 <= j < |sample| && FitsBudget(index, sample[j], budget) ==>
         var best, other := ScoreOf(index, sample[i], score), ScoreOf(index, sample[j], score);
         best < other || (best == other && i <= j)
  }

  /** A victim is the first lowest-scoring sampled entry within budget; none means no sampled entry fits. */
  ghost predicate LowestFitting(index: map<nat, Entry>, sample: seq<nat>, budget: nat, score: (nat, nat) -> int,
                                victim: Option<nat>) {
    match victim
    case None => forall j :: 0 <= j < |sample| ==> !FitsBudget(index, sample[j], budget)
    case Some(key) =>
      && FitsBudget(index, key, budget)
      && exists i :: 0 <= i < |sample| && sample[i] == key && FirstLowest(index, sample, budget, score, i)
  }

  lemma LowestPush(index: map<nat, Entry>, sample: seq<nat>, key: nat, budget: nat, score: (nat, nat) -> int,
                   before: Option<nat>, victim: Option<nat>)
    requires LowestFitting(index, sample, budget, score, before)
    requires
      var lower := before.None? || ScoreOf(index, key, score) < ScoreOf(index, before.value, score);
      victim == if FitsBudget(index, key, budget) && lower then Some(key) else before
    ensures LowestFitting(index, sample + [key], budget, score, victim)
  {
    var longer := sample + [key];
    if victim == before && before.Some? {
      var i :| 0 <= i < |sample| && sample[i] == before.value && FirstLowest(index, sample, budget, score, i);
      assert longer[i] == before.value && FirstLowest(index, longer, budget, score, i);
    } else if victim.Some? {
      assert longer[|sample|] == key && FirstLowest(index, longer, budget, score, |sample|);
    }
  }
}
