/**
 The memory tier: shards of charged objects and a pool of idle buffers under one byte budget
 (store/shard.rs, store.rs).
 */
module MemoryCaches {
  import opened Layout
  import opened BufferPools
  import opened Retention

  // ---------------------------------------------------------------- charges

  ghost function Pick(charges: map<nat, nat>): (k: nat)
    requires charges != map[]
    ensures k in charges
  {
    var k :| k in charges;
    k
  }

  ghost function SumOf(charges: map<nat, nat>): nat
    decreases |charges|
  {
    if charges == map[] then 0
    else
      var k := Pick(charges);
      Shrinks(charges, k);
      charges[k] + SumOf(charges - {k})
  }

  lemma Shrinks(charges: map<nat, nat>, k: nat)
    requires k in charges
    ensures |charges - {k}| == |charges| - 1
  {
    assert (charges - {k}).Keys == charges.Keys - {k};
    assert |(charges - {k}).Keys| == |charges - {k}| && |charges.Keys| == |charges|;
  }

  /** The sum does not depend on the order in which charges are added up. */
  lemma {:induction false} SumRemove(charges: map<nat, nat>, k: nat)
    requires k in charges
    ensures SumOf(charges) == charges[k] + SumOf(charges - {k})
    decreases |charges|
  {
    var j := Pick(charges);
    if j != k {
      Shrinks(charges, j);
      Shrinks(charges, k);
      SumRemove(charges - {j}, k);
      SumRemove(charges - {k}, j);
      assert charges - {j} - {k} == charges - {k} - {j};
    }
  }

  lemma SumInsert(charges: map<nat, nat>, k: nat, charge: nat)
    requires k !in charges
    ensures SumOf(charges[k := charge]) == SumOf(charges) + charge
  {
    SumRemove(charges[k := charge], k);
    assert charges[k := charge] - {k} == charges;
  }

  function Less(capacity: nat, charge: nat): nat {
    if charge < capacity then capacity - charge else 0
  }

  ghost predicate OnlyCharge(charges: map<nat, nat>, k: nat) {
    k in charges && charges[k] > 0 && forall j :: j in charges && j != k ==> charges[j] == 0
  }

  /** A shard exceeds its target only when exactly one entry has a nonzero charge. */
  ghost predicate WithinTarget(capacity: nat, charges: map<nat, nat>) {
    SumOf(charges) <= capacity || exists k :: OnlyCharge(charges, k)
  }

  lemma InsertWithin(capacity: nat, charges: map<nat, nat>, key: nat, charge: nat)
    requires key !in charges && SumOf(charges) <= Less(capacity, charge)
    ensures WithinTarget(capacity, charges[key := charge])
  {
    SumInsert(charges, key, charge);
    if charge > capacity {
      forall j | j in charges ensures charges[j] == 0 {
        SumRemove(charges, j);
      }
      assert OnlyCharge(charges[key := charge], key);
    }
  }

  lemma OnlyChargeSum(charges: map<nat, nat>, k: nat)
    requires OnlyCharge(charges, k)
    ensures SumOf(charges) == charges[k]
  {
    SumRemove(charges, k);
    AllZero(charges - {k});
  }

  lemma {:induction false} AllZero(charges: map<nat, nat>)
    requires forall j :: j in charges ==> charges[j] == 0
    ensures SumOf(charges) == 0
    decreases |charges|
  {
    if charges != map[] {
      Shrinks(charges, Pick(charges));
      AllZero(charges - {Pick(charges)});
    }
  }

  lemma RemoveWithin(capacity: nat, charges: map<nat, nat>, key: nat)
    requires key in charges && WithinTarget(capacity, charges)
    ensures WithinTarget(capacity, charges - {key})
  {
    SumRemove(charges, key);
    if SumOf(charges) > capacity {
      var k :| OnlyCharge(charges, k);
      if k == key {
        AllZero(charges - {key});
      } else {
        assert OnlyCharge(charges - {key}, k);
      }
    }
  }

  // ---------------------------------------------------------------- a shard

  datatype MemoryEntry = MemoryEntry(length: nat, charge: nat, candidateIndex: nat)

  datatype InsertResult = Inserted | AlreadyPresent | EvictedButDidNotInsert(victim: nat)

  function ChargesOf(entries: map<nat, MemoryEntry>): map<nat, nat> {
    map k | k in entries :: entries[k].charge
  }

  function LengthsOf(entries: map<nat, MemoryEntry>): map<nat, nat> {
    map k | k in entries :: entries[k].length
  }

  lemma EntryAdded(entries: map<nat, MemoryEntry>, key: nat, e: MemoryEntry)
    ensures ChargesOf(entries[key := e]) == ChargesOf(entries)[key := e.charge]
    ensures LengthsOf(entries[key := e]) == LengthsOf(entries)[key := e.length]
  {
  }

  lemma EntryTaken(entries: map<nat, MemoryEntry>, key: nat)
    ensures ChargesOf(entries - {key}) == ChargesOf(entries) - {key}
    ensures LengthsOf(entries - {key}) == LengthsOf(entries) - {key}
  {
  }

  lemma EntryMoved(entries: map<nat, MemoryEntry>, key: nat, position: nat)
    requires key in entries
    ensures
      var after := entries[key := entries[key].(candidateIndex := position)];
      ChargesOf(after) == ChargesOf(entries) && LengthsOf(after) == LengthsOf(entries)
  {
  }

  /** What a shard caches: charges and payload lengths by key, the candidates in order, and the cursor. */
  datatype Cache = Cache(charges: map<nat, nat>, lengths: map<nat, nat>, candidates: seq<nat>, cursor: nat)

  function ScoreOf(score: (nat, nat) -> int, lengths: map<nat, nat>, k: nat): int {
    if k in lengths then score(k, lengths[k]) else 0
  }

  /** Lower score first, and the lower key among equal scores. */
  predicate Precedes(score: (nat, nat) -> int, lengths: map<nat, nat>, a: nat, b: nat) {
    var x, y := ScoreOf(score, lengths, a), ScoreOf(score, lengths, b);
    x < y || (x == y && a <= b)
  }

  /** The sampled key that precedes all others. */
  method KeptLeast(sample: seq<nat>, lengths: map<nat, nat>, score: (nat, nat) -> int) returns (victim: nat)
    requires sample != []
    ensures victim in sample
    ensures forall k :: k in sample ==> ScoreOf(score, lengths, victim) <= ScoreOf(score, lengths, k)
    ensures forall k :: k in sample && k < victim ==> ScoreOf(score, lengths, victim) < ScoreOf(score, lengths, k)
  {
    victim := sample[0];
    for i := 1 to |sample|
      invariant victim in sample && forall j :: 0 <= j < i ==> Precedes(score, lengths, victim, sample[j])
    {
      if !Precedes(score, lengths, victim, sample[i]) {
        victim := sample[i];
      }
    }
  }

  /** The victim has the lowest score of the sample, and the lowest key among those that have it. */
  ghost predicate Chosen(c: Cache, sampleSize: nat, score: (nat, nat) -> int, victim: nat) {
    var sample := Sample(c.cursor, c.candidates, sampleSize);
    && victim in sample
    && (forall k :: k in sample ==> ScoreOf(score, c.lengths, victim) <= ScoreOf(score, c.lengths, k))
    && (forall k :: k in sample && k < victim ==> ScoreOf(score, c.lengths, victim) < ScoreOf(score, c.lengths, k))
  }

  /** Exactly the victim is gone, the last candidate is in its place, and the cursor is past the sample. */
  ghost predicate Evicted(c: Cache, sampleSize: nat, victim: nat, after: Cache) {
    && after.charges == c.charges - {victim} && after.lengths == c.lengths - {victim}
    && SwapRemoved(c.candidates, victim, after.candidates)
    && after.cursor == NextCursor(c.cursor, |c.candidates|, sampleSize)
  }

  ghost function Added(c: Cache, key: nat, length: nat, charge: nat): Cache {
    Cache(c.charges[key := charge], c.lengths[key := length], c.candidates + [key], c.cursor)
  }

  datatype Eviction = Eviction(from: Cache, victim: nat)

  /** The evictions lead from `first` to `last`. Each was made because the charge did not fit then. */
  ghost predicate Evictions(first: Cache, evictions: seq<Eviction>, last: Cache, room: nat, sampleSize: nat,
                            score: (nat, nat) -> int)
    decreases |evictions|
  {
    if evictions == [] then last == first
    else
      var n := |evictions| - 1;
      var e := evictions[n];
      && SumOf(e.from.charges) > room && Chosen(e.from, sampleSize, score, e.victim)
      && Evicted(e.from, sampleSize, e.victim, last)
      && Evictions(first, evictions[..n], e.from, room, sampleSize, score)
  }

  lemma EvictionsPush(first: Cache, evictions: seq<Eviction>, e: Eviction, last: Cache, room: nat, sampleSize: nat,
                      score: (nat, nat) -> int)
    requires Evictions(first, evictions, e.from, room, sampleSize, score)
    requires SumOf(e.from.charges) > room && Chosen(e.from, sampleSize, score, e.victim)
    requires Evicted(e.from, sampleSize, e.victim, last)
    ensures Evictions(first, evictions + [e], last, room, sampleSize, score)
  {
    assert (evictions + [e])[..|evictions|] == evictions;
  }

  class MemoryCacheShard {
    const capacity: nat
    const bufferPool: BufferPool
    var usedBytes: nat
    var entriesByKey: map<nat, MemoryEntry>
    var evictionCandidates: seq<nat>
    var nextSampleStart: nat

    ghost function Charges(): map<nat, nat>
      reads this
    {
      ChargesOf(entriesByKey)
    }

    function Lengths(): map<nat, nat>
      reads this
    {
      LengthsOf(entriesByKey)
    }

    ghost function View(): Cache
      reads this
    {
      Cache(Charges(), Lengths(), evictionCandidates, nextSampleStart)
    }

    ghost predicate Listed()
      reads this
    {
      && (forall k :: k in entriesByKey ==>
            && entriesByKey[k].candidateIndex < |evictionCandidates|
            && evictionCandidates[entriesByKey[k].candidateIndex] == k)
      && (forall i :: 0 <= i < |evictionCandidates| ==>
            evictionCandidates[i] in entriesByKey && entriesByKey[evictionCandidates[i]].candidateIndex == i)
    }

    ghost predicate Valid()
      reads this, bufferPool
    {
      && Listed() && usedBytes == SumOf(Charges()) && WithinTarget(capacity, Charges())
      && bufferPool.Valid() && usedBytes <= bufferPool.usedBytes
    }

    constructor (capacity: nat, bufferPool: BufferPool)
      requires bufferPool.Valid()
      ensures Valid() && Charges() == map[] && this.capacity == capacity && this.bufferPool == bufferPool
    {
      this.capacity, this.bufferPool, usedBytes := capacity, bufferPool, 0;
      entriesByKey, evictionCandidates, nextSampleStart := map[], [], 0;
      new;
      assert Charges() == map[];
    }

    method AddEntry(key: nat, length: nat, charge: nat)
      requires Valid() && key !in entriesByKey && usedBytes <= Less(capacity, charge)
      modifies this`entriesByKey, this`evictionCandidates, this`usedBytes, bufferPool
      ensures Valid() && View() == Added(old(View()), key, length, charge)
      ensures bufferPool.View() == AddUsed(old(bufferPool.View()), charge)
    {
      InsertWithin(capacity, Charges(), key, charge);
      SumInsert(Charges(), key, charge);
      AddUsedKeepsPool(bufferPool.View(), charge);
      usedBytes := usedBytes + charge;
      bufferPool.AddUsedBytes(charge);
      PushEntry(key, length, charge);
    }

    /** Indexes a new key as the last candidate. */
    method PushEntry(key: nat, length: nat, charge: nat)
      requires Listed() && key !in entriesByKey
      modifies this`entriesByKey, this`evictionCandidates
      ensures Listed() && View() == Added(old(View()), key, length, charge)
    {
      var position := |evictionCandidates|;
      EntryAdded(entriesByKey, key, MemoryEntry(length, charge, position));
      evictionCandidates := evictionCandidates + [key];
      entriesByKey := entriesByKey[key := MemoryEntry(length, charge, position)];
    }

    /** Takes a key out of the index and the candidates; the last candidate takes its place. */
    method TakeEntry(key: nat) returns (charge: nat)
      requires Listed() && key in entriesByKey
      modifies this`entriesByKey, this`evictionCandidates
      ensures Listed() && Charges() == old(Charges()) - {key} && charge == old(Charges())[key]
      ensures Lengths() == old(Lengths()) - {key}
      ensures SwapRemoved(old(evictionCandidates), key, evictionCandidates)
    {
      var entry := entriesByKey[key];
      var position, last := entry.candidateIndex, |evictionCandidates| - 1;
      charge := entry.charge;
      EntryTaken(entriesByKey, key);
      entriesByKey := entriesByKey - {key};
      evictionCandidates := evictionCandidates[position := evictionCandidates[last]][..last];
      assert SwapRemoved(old(evictionCandidates), key, evictionCandidates);
      if position < |evictionCandidates| {
        var moved := evictionCandidates[position];
        EntryMoved(entriesByKey, moved, position);
        entriesByKey := entriesByKey[moved := entriesByKey[moved].(candidateIndex := position)];
      }
    }

    method RemoveEntry(key: nat) returns (removed: bool)
      requires Valid()
      modifies this`entriesByKey, this`evictionCandidates, this`usedBytes, bufferPool
      ensures Valid() && removed == (key in old(Charges())) && Charges() == old(Charges()) - {key}
      ensures Lengths() == old(Lengths()) - {key}
      ensures removed ==> SwapRemoved(old(evictionCandidates), key, evictionCandidates)
      ensures !removed ==> evictionCandidates == old(evictionCandidates)
      ensures old(bufferPool.usedBytes) == bufferPool.usedBytes + if removed then old(Charges())[key] else 0
      ensures bufferPool.View() == old(bufferPool.View()).(used := bufferPool.usedBytes)
    {
      if key !in entriesByKey {
        assert Charges() - {key} == Charges() && Lengths() - {key} == Lengths();
        return false;
      }
      RemoveWithin(capacity, Charges(), key);
      SumRemove(Charges(), key);
      var charge := TakeEntry(key);
      usedBytes := usedBytes - charge;
      bufferPool.RemoveUsedBytes(charge);
      removed := true;
    }

    /** The first sampled candidate that precedes all others; usage makes sure that there is one. */
    method SelectVictim(sampleSize: nat, score: (nat, nat) -> int) returns (victim: nat)
      requires Listed() && evictionCandidates != [] && sampleSize > 0
      modifies this`nextSampleStart
      ensures nextSampleStart == NextCursor(old(nextSampleStart), |evictionCandidates|, sampleSize)
      ensures Chosen(old(View()), sampleSize, score, victim) && victim in entriesByKey
    {
      var sample := Sample(nextSampleStart, evictionCandidates, sampleSize);
      nextSampleStart := NextCursor(nextSampleStart, |evictionCandidates|, sampleSize);
      victim := KeptLeast(sample, Lengths(), score);
      assert victim in evictionCandidates;
    }

    /** One attempt: inserts if there is room, and otherwise evicts the sampled entry that is kept least. */
    method TryInsert(key: nat, length: nat, charge: nat, sampleSize: nat, score: (nat, nat) -> int)
        returns (result: InsertResult)
      requires Valid() && sampleSize > 0
      modifies this, bufferPool
      ensures Valid()
      ensures result.AlreadyPresent? <==> key in old(Charges())
      ensures result.AlreadyPresent? ==> View() == old(View()) && bufferPool.View() == old(bufferPool.View())
      ensures result.Inserted? <==> key !in old(Charges()) && old(usedBytes) <= Less(capacity, charge)
      ensures result.Inserted? ==> View() == Added(old(View()), key, length, charge)
      ensures result.Inserted? ==> bufferPool.View() == AddUsed(old(bufferPool.View()), charge)
      ensures result.EvictedButDidNotInsert? ==>
        && result.victim in old(Charges()) && Chosen(old(View()), sampleSize, score, result.victim)
        && Evicted(old(View()), sampleSize, result.victim, View())
        && old(bufferPool.usedBytes) == bufferPool.usedBytes + old(Charges())[result.victim]
        && bufferPool.View() == old(bufferPool.View()).(used := bufferPool.usedBytes)
    {
      if key in entriesByKey {
        return AlreadyPresent;
      }
      if usedBytes <= Less(capacity, charge) {
        AddEntry(key, length, charge);
        return Inserted;
      }
      NonemptyWhenUsed();
      var victim := SelectVictim(sampleSize, score);
      var removed := RemoveEntry(victim);
      result := EvictedButDidNotInsert(victim);
    }

    lemma NonemptyWhenUsed()
      requires Valid() && usedBytes > 0
      ensures evictionCandidates != []
    {
      var k := Pick(Charges());
      assert k in entriesByKey;
    }

    /**
     Evicts until the object fits, and no further. It always ends, with the object cached unless its key was.
     */
    method Insert(key: nat, length: nat, charge: nat, sampleSize: nat, score: (nat, nat) -> int)
        returns (inserted: bool, ghost evictions: seq<Eviction>, ghost last: Cache)
      requires Valid() && sampleSize > 0
      modifies this, bufferPool
      ensures Valid() && inserted == (key !in old(Charges()))
      ensures !inserted ==> View() == old(View()) && bufferPool.View() == old(bufferPool.View())
      ensures inserted ==>
        && Evictions(old(View()), evictions, last, Less(capacity, charge), sampleSize, score)
        && SumOf(last.charges) <= Less(capacity, charge) && View() == Added(last, key, length, charge)
      ensures bufferPool.usedBytes + old(usedBytes) == old(bufferPool.usedBytes) + usedBytes
    {
      ghost var room := Less(capacity, charge);
      evictions, last := [], View();
      while true
        invariant Valid() && last == View() && Evictions(old(View()), evictions, last, room, sampleSize, score)
        invariant key in Charges() <==> key in old(Charges())
        invariant key in old(Charges()) ==> View() == old(View()) && bufferPool.View() == old(bufferPool.View())
        invariant bufferPool.usedBytes + old(usedBytes) == old(bufferPool.usedBytes) + usedBytes
        decreases |Charges()|
      {
        ghost var charges, pool := Charges(), bufferPool.View();
        var result := TryInsert(key, length, charge, sampleSize, score);
        match result {
          case Inserted =>
            SumInsert(charges, key, charge);
            AddUsedKeepsPool(pool, charge);
            return true, evictions, last;
          case AlreadyPresent => return false, evictions, last;
          case EvictedButDidNotInsert(victim) =>
            SumRemove(charges, victim);
            Shrinks(charges, victim);
            EvictionsPush(old(View()), evictions, Eviction(last, victim), View(), room, sampleSize, score);
            evictions, last := evictions + [Eviction(last, victim)], View();
        }
      }
    }
  }

  // ---------------------------------------------------------------- the shared budget

  function ShardCapacityFor(total: nat, shards: nat, i: nat): nat
    requires shards > 0
  {
    total / shards + if i < total % shards then 1 else 0
  }

  function CapacityBelow(total: nat, shards: nat, n: nat): nat
    requires shards > 0
  {
    if n == 0 then 0 else CapacityBelow(total, shards, n - 1) + ShardCapacityFor(total, shards, n - 1)
  }

  lemma {:induction false} CapacityPrefix(total: nat, shards: nat, n: nat)
    requires shards > 0
    ensures CapacityBelow(total, shards, n) == n * (total / shards) + if n < total % shards then n else total % shards
  {
    if n > 0 {
      CapacityPrefix(total, shards, n - 1);
      var share := total / shards;
      assert n * share == (n - 1) * share + share;
    }
  }

  /** The shards' targets add up to the whole capacity. */
  lemma ShardCapacitiesAddUp(total: nat, shards: nat)
    requires shards > 0
    ensures CapacityBelow(total, shards, shards) == total
  {
    CapacityPrefix(total, shards, shards);
  }

  /** A shard as the budget sees it. */
  datatype Cached = Cached(capacity: nat, charges: map<nat, nat>)

  datatype Memory = Memory(pool: Pool, shards: seq<Cached>)

  /** `Insert` and `Remove` are a shard's lock regions; readers take idle buffers and drop the ones they took. */
  datatype Action =
    | Insert(shard: nat, key: nat, charge: nat) | Remove(shard: nat, key: nat)
    | TakeBuffer(bucket: nat) | DropBuffer(capacity: nat)

  ghost predicate Enabled(y: Memory, a: Action) {
    && |y.pool.idle| == BUCKETS
    && match a
       case Insert(i, key, charge) =>
         && i < |y.shards| && key !in y.shards[i].charges
         && SumOf(y.shards[i].charges) <= Less(y.shards[i].capacity, charge)
       case Remove(i, key) => i < |y.shards| && key in y.shards[i].charges
       case TakeBuffer(b) => b < |y.pool.idle| && y.pool.idle[b] != []
       case DropBuffer(capacity) => BucketOk([capacity], BucketIndex(capacity))
  }

  /** The pool's charge would fall below zero. */
  ghost predicate Underflows(y: Memory, a: Action)
    requires Enabled(y, a)
  {
    a.Remove? && y.pool.used < y.shards[a.shard].charges[a.key]
  }

  ghost function Apply(y: Memory, a: Action): Memory
    requires Enabled(y, a) && !Underflows(y, a)
  {
    match a
    case Insert(i, key, charge) =>
      var s := y.shards[i];
      Memory(AddUsed(y.pool, charge), y.shards[i := s.(charges := s.charges[key := charge])])
    case Remove(i, key) =>
      var s := y.shards[i];
      Memory(y.pool.(used := y.pool.used - s.charges[key]), y.shards[i := s.(charges := s.charges - {key})])
    case TakeBuffer(b) => y.(pool := Pop(y.pool, b))
    case DropBuffer(capacity) => y.(pool := GiveBack(y.pool, capacity))
  }

  ghost function UsedBelow(shards: seq<Cached>): nat {
    if shards == [] then 0 else UsedBelow(shards[..|shards| - 1]) + SumOf(shards[|shards| - 1].charges)
  }

  lemma {:induction false} UsedUpdate(shards: seq<Cached>, i: nat, s: Cached)
    requires i < |shards|
    ensures UsedBelow(shards[i := s]) + SumOf(shards[i].charges) == UsedBelow(shards) + SumOf(s.charges)
  {
    var n := |shards| - 1;
    if i < n {
      UsedUpdate(shards[..n], i, s);
      assert shards[i := s][..n] == shards[..n][i := s];
    } else {
      assert shards[i := s][..n] == shards[..n];
    }
  }

  ghost predicate Shares(total: nat, shards: seq<Cached>) {
    |shards| > 0 && forall i :: 0 <= i < |shards| ==> shards[i].capacity == ShardCapacityFor(total, |shards|, i)
  }

  ghost predicate Inv(y: Memory) {
    && ValidPool(y.pool) && Shares(y.pool.capacity, y.shards) && y.pool.used == UsedBelow(y.shards)
    && forall i :: 0 <= i < |y.shards| ==> WithinTarget(y.shards[i].capacity, y.shards[i].charges)
  }

  lemma ChargeBelowUsed(y: Memory, i: nat, key: nat)
    requires Inv(y) && i < |y.shards| && key in y.shards[i].charges
    ensures y.shards[i].charges[key] <= y.pool.used
  {
    SumRemove(y.shards[i].charges, key);
    UsedUpdate(y.shards, i, y.shards[i].(charges := map[]));
  }

  /** No step of the budget underflows, and every step keeps it. */
  lemma ApplyKeepsInv(y: Memory, a: Action)
    requires Inv(y) && Enabled(y, a)
    ensures !Underflows(y, a)
    ensures Inv(Apply(y, a)) && Apply(y, a).pool.capacity == y.pool.capacity && |Apply(y, a).shards| == |y.shards|
  {
    match a
    case Insert(i, key, charge) =>
      var s := y.shards[i];
      AddUsedKeepsPool(y.pool, charge);
      SumInsert(s.charges, key, charge);
      InsertWithin(s.capacity, s.charges, key, charge);
      UsedUpdate(y.shards, i, s.(charges := s.charges[key := charge]));
    case Remove(i, key) =>
      var s := y.shards[i];
      ChargeBelowUsed(y, i, key);
      SumRemove(s.charges, key);
      RemoveWithin(s.capacity, s.charges, key);
      UsedUpdate(y.shards, i, s.(charges := s.charges - {key}));
    case TakeBuffer(b) => PopKeepsPool(y.pool, b);
    case DropBuffer(capacity) => GiveBackKeepsPool(y.pool, capacity);
  }

  ghost predicate Reaches(y: Memory, actions: seq<Action>, z: Memory)
    decreases |actions|
  {
    if actions == [] then z == y
    else
      && Enabled(y, actions[0]) && !Underflows(y, actions[0])
      && Reaches(Apply(y, actions[0]), actions[1..], z)
  }

  /** No cached charge exceeds its shard's share. */
  ghost predicate ChargesFit(shards: seq<Cached>) {
    forall i, k :: 0 <= i < |shards| && k in shards[i].charges ==> shards[i].charges[k] <= shards[i].capacity
  }

  lemma {:induction false} RunKeepsInv(y: Memory, actions: seq<Action>, z: Memory)
    requires Inv(y) && Reaches(y, actions, z)
    ensures Inv(z) && z.pool.capacity == y.pool.capacity
    decreases |actions|
  {
    if actions != [] {
      ApplyKeepsInv(y, actions[0]);
      RunKeepsInv(Apply(y, actions[0]), actions[1..], z);
    }
  }

  lemma {:induction false} UsedWithinShares(total: nat, shards: seq<Cached>, n: nat)
    requires n <= |shards| && Shares(total, shards) && ChargesFit(shards)
    requires forall i :: 0 <= i < |shards| ==> WithinTarget(shards[i].capacity, shards[i].charges)
    ensures UsedBelow(shards[..n]) <= CapacityBelow(total, |shards|, n)
  {
    if n > 0 {
      UsedWithinShares(total, shards, n - 1);
      assert shards[..n][..n - 1] == shards[..n - 1];
      var s := shards[n - 1];
      if SumOf(s.charges) > s.capacity {
        var k :| OnlyCharge(s.charges, k);
        OnlyChargeSum(s.charges, k);
      }
    }
  }

  ghost predicate Empty(y: Memory) {
    && y.pool.used == 0 && |y.pool.idle| == BUCKETS && (forall b :: 0 <= b < BUCKETS ==> y.pool.idle[b] == [])
    && Shares(y.pool.capacity, y.shards)
    && forall i :: 0 <= i < |y.shards| ==> y.shards[i].charges == map[]
  }

  lemma {:induction false} NothingUsed(shards: seq<Cached>)
    requires forall i :: 0 <= i < |shards| ==> shards[i].charges == map[]
    ensures UsedBelow(shards) == 0
  {
    if shards != [] {
      NothingUsed(shards[..|shards| - 1]);
    }
  }

  lemma EmptyInv(y: Memory)
    requires Empty(y)
    ensures Inv(y)
  {
    NothingIdle(y.pool.idle);
    NothingUsed(y.shards);
  }

  /**
   In every run from an empty cache the pool's charge is the sum of all charges and idle buffers never take what
   cached objects use; while no charge exceeds its shard's share, both together stay within the capacity.
   */
  lemma SharedBudget(y: Memory, actions: seq<Action>, z: Memory)
    requires Empty(y) && Reaches(y, actions, z)
    ensures forall a :: Enabled(z, a) ==> !Underflows(z, a)
    ensures z.pool.used == UsedBelow(z.shards) && IdleIn(z.pool.idle) <= Room(z.pool)
    ensures forall i :: 0 <= i < |z.shards| ==> WithinTarget(z.shards[i].capacity, z.shards[i].charges)
    ensures ChargesFit(z.shards) ==> z.pool.used + IdleIn(z.pool.idle) <= y.pool.capacity
  {
    EmptyInv(y);
    RunKeepsInv(y, actions, z);
    forall a | Enabled(z, a) ensures !Underflows(z, a) {
      ApplyKeepsInv(z, a);
    }
    if ChargesFit(z.shards) {
      UsedWithinShares(z.pool.capacity, z.shards, |z.shards|);
      assert z.shards[..|z.shards|] == z.shards;
      ShardCapacitiesAddUp(z.pool.capacity, |z.shards|);
    }
  }
}
