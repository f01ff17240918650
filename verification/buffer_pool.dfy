/** Idle aligned buffers that share the memory cache's byte budget with cached objects (buffer.rs). */
module BufferPools {
  import opened Layout

  const BUCKETS: nat := 15
  const MAX_FIXED_BUFFER_BYTES: nat := 0x400_0000

  const BUFFER_SIZES: seq<nat> :=
    [0x1000, 0x8000, 0x4_0000, 0x8_0000, 0x10_0000, 0x20_0000, 0x30_0000, 0x40_0000, 0x80_0000,
     0xC0_0000, 0x100_0000, 0x180_0000, 0x200_0000, MAX_FIXED_BUFFER_BYTES]

  /** Smallest fixed size from `i` on that fits, or the bucket above the largest. */
  function BucketFrom(length: nat, i: nat): (index: nat)
    requires i <= |BUFFER_SIZES|
    ensures i <= index <= |BUFFER_SIZES|
    ensures index < |BUFFER_SIZES| ==> length <= BUFFER_SIZES[index]
    ensures forall j :: i <= j < index ==> BUFFER_SIZES[j] < length
    decreases |BUFFER_SIZES| - i
  {
    if i == |BUFFER_SIZES| || length <= BUFFER_SIZES[i] then i else BucketFrom(length, i + 1)
  }

  function BucketIndex(length: nat): nat {
    BucketFrom(length, 0)
  }

  function AllocationCapacity(length: nat): nat {
    var index := BucketIndex(length);
    if index < |BUFFER_SIZES| then BUFFER_SIZES[index] else length
  }

  /** The capacity of a reused buffer: fixed ones keep theirs, large ones grow to fit and shrink by at least a tenth. */
  function ReusedCapacity(kept: nat, needed: nat): nat {
    if kept <= MAX_FIXED_BUFFER_BYTES then kept
    else if needed <= kept && kept - needed < CeilDiv(needed, 10) then kept
    else needed
  }

  lemma {:induction false} SizesIncrease(i: nat, j: nat)
    requires i < j < |BUFFER_SIZES|
    ensures BUFFER_SIZES[i] < BUFFER_SIZES[j]
    decreases j - i
  {
    if i + 1 < j {
      SizesIncrease(i + 1, j);
    }
  }

  lemma BucketUnique(length: nat, index: nat)
    requires index <= |BUFFER_SIZES|
    requires index < |BUFFER_SIZES| ==> length <= BUFFER_SIZES[index]
    requires index > 0 ==> BUFFER_SIZES[index - 1] < length
    ensures BucketIndex(length) == index
  {
    var b := BucketIndex(length);
    if b < index {
      if b < index - 1 {
        SizesIncrease(b, index - 1);
      }
    }
  }

  /**
   A buffer from the bucket of `length` fits it and returns to that bucket. A large one keeps its capacity exactly
   when that wastes less than a tenth of what is needed, and is resized to the need otherwise.
   */
  lemma ReuseFits(kept: nat, length: nat)
    requires BucketIndex(kept) == BucketIndex(length)
    requires BucketIndex(kept) < |BUFFER_SIZES| ==> kept == BUFFER_SIZES[BucketIndex(kept)]
    ensures var capacity := ReusedCapacity(kept, AllocationCapacity(length));
      && length <= capacity && BucketIndex(capacity) == BucketIndex(length)
      && (BucketIndex(length) == |BUFFER_SIZES| ==>
           capacity == if length <= kept && (kept - length) * 10 < length then kept else length)
      && (BucketIndex(length) < |BUFFER_SIZES| ==> capacity == AllocationCapacity(length))
  {
    var b := BucketIndex(length);
    if b < |BUFFER_SIZES| {
      if b < |BUFFER_SIZES| - 1 {
        SizesIncrease(b, |BUFFER_SIZES| - 1);
      }
    } else {
      assert BUFFER_SIZES[|BUFFER_SIZES| - 1] < kept && BUFFER_SIZES[|BUFFER_SIZES| - 1] < length;
      BucketUnique(ReusedCapacity(kept, length), |BUFFER_SIZES|);
    }
  }

  lemma FreshFits(length: nat)
    ensures length <= AllocationCapacity(length) && BucketIndex(AllocationCapacity(length)) == BucketIndex(length)
  {
    var b := BucketIndex(length);
    if b < |BUFFER_SIZES| {
      if b > 0 {
        SizesIncrease(b - 1, b);
      }
      BucketUnique(BUFFER_SIZES[b], b);
    }
  }

  // ---------------------------------------------------------------- idle bytes

  function IdleIn(idle: seq<seq<nat>>): nat {
    if idle == [] then 0 else IdleIn(idle[..|idle| - 1]) + Sum(idle[|idle| - 1])
  }

  lemma {:induction false} IdleUpdate(idle: seq<seq<nat>>, i: nat, bucket: seq<nat>)
    requires i < |idle|
    ensures IdleIn(idle[i := bucket]) + Sum(idle[i]) == IdleIn(idle) + Sum(bucket)
  {
    var n := |idle| - 1;
    if i < n {
      IdleUpdate(idle[..n], i, bucket);
      assert idle[i := bucket][..n] == idle[..n][i := bucket];
    } else {
      assert idle[i := bucket][..n] == idle[..n];
    }
  }

  lemma SumPush(s: seq<nat>, x: nat)
    ensures Sum(s + [x]) == Sum(s) + x
  {
    assert (s + [x])[..|s|] == s;
  }

  datatype Pool = Pool(capacity: nat, used: nat, idle: seq<seq<nat>>)

  /** What cached objects leave for idle buffers. */
  function Room(p: Pool): nat {
    if p.used < p.capacity then p.capacity - p.used else 0
  }

  ghost predicate ValidPool(p: Pool) {
    && |p.idle| == BUCKETS && IdleIn(p.idle) <= Room(p)
    && forall i :: 0 <= i < BUCKETS ==> BucketOk(p.idle[i], i)
  }

  /** Buffers are in the bucket of their capacity, and fixed ones have the bucket's size. */
  ghost predicate BucketOk(bucket: seq<nat>, i: nat) {
    forall c :: c in bucket ==> BucketIndex(c) == i && (i < |BUFFER_SIZES| ==> c == BUFFER_SIZES[i])
  }

  function Pop(p: Pool, i: nat): Pool
    requires i < |p.idle| && p.idle[i] != []
  {
    p.(idle := p.idle[i := p.idle[i][..|p.idle[i]| - 1]])
  }

  /** Frees buffers from bucket `n - 1` down, until the idle ones fit. */
  function Trim(p: Pool, n: nat): Pool
    requires n <= |p.idle|
    decreases n, if n == 0 then 0 else |p.idle[n - 1]|
  {
    if n == 0 || IdleIn(p.idle) <= Room(p) then p
    else if p.idle[n - 1] == [] then Trim(p, n - 1)
    else Trim(Pop(p, n - 1), n)
  }

  function AddUsed(p: Pool, bytes: nat): Pool
    requires |p.idle| == BUCKETS
  {
    Trim(p.(used := p.used + bytes), BUCKETS)
  }

  /** Returns a buffer to the pool if it fits beside the cached objects. */
  function GiveBack(p: Pool, capacity: nat): Pool
    requires |p.idle| == BUCKETS
  {
    var i := BucketIndex(capacity);
    if IdleIn(p.idle) + capacity <= Room(p) then p.(idle := p.idle[i := p.idle[i] + [capacity]]) else p
  }

  lemma PopIdle(p: Pool, i: nat)
    requires i < |p.idle| && p.idle[i] != []
    ensures IdleIn(Pop(p, i).idle) + p.idle[i][|p.idle[i]| - 1] == IdleIn(p.idle)
  {
    IdleUpdate(p.idle, i, p.idle[i][..|p.idle[i]| - 1]);
  }

  lemma {:induction false} NothingIdle(idle: seq<seq<nat>>)
    requires forall i :: 0 <= i < |idle| ==> idle[i] == []
    ensures IdleIn(idle) == 0
  {
    if idle != [] {
      NothingIdle(idle[..|idle| - 1]);
    }
  }

  /** Below bucket `k` nothing was taken, above it everything, and with the last buffer taken the rest would not fit. */
  ghost predicate StopsAt(p: Pool, after: Pool, n: nat, k: nat)
    requires n <= |p.idle| == |after.idle|
  {
    && k < n && after.idle[k] < p.idle[k]
    && (forall i :: 0 <= i < k || n <= i < |p.idle| ==> after.idle[i] == p.idle[i])
    && (forall i :: k < i < n ==> after.idle[i] == [])
    && IdleIn(after.idle) + p.idle[k][|after.idle[k]|] > Room(p)
  }

  /** Trimming fits the idle buffers into what is left, from the largest buckets first, taking no more than needed. */
  ghost predicate Trimmed(p: Pool, after: Pool, n: nat)
    requires n <= |p.idle|
  {
    && after == p.(idle := after.idle) && |after.idle| == |p.idle| && IdleIn(after.idle) <= Room(p)
    && (after == p || exists k: nat :: StopsAt(p, after, n, k))
  }

  lemma {:induction false} TrimIsMinimal(p: Pool, n: nat)
    requires n <= |p.idle|
    requires forall i :: n <= i < |p.idle| ==> p.idle[i] == []
    ensures Trimmed(p, Trim(p, n), n)
    decreases n, if n == 0 then 0 else |p.idle[n - 1]|
  {
    var after := Trim(p, n);
    if n == 0 {
      NothingIdle(p.idle);
    } else if IdleIn(p.idle) > Room(p) {
      if p.idle[n - 1] == [] {
        TrimIsMinimal(p, n - 1);
        if after != p {
          var k: nat :| StopsAt(p, after, n - 1, k);
          assert StopsAt(p, after, n, k);
        }
      } else {
        var popped := Pop(p, n - 1);
        PopIdle(p, n - 1);
        TrimIsMinimal(popped, n);
        PoppedTrim(p, popped, after, n);
      }
    }
  }

  lemma PoppedStops(p: Pool, popped: Pool, after: Pool, n: nat, k: nat)
    requires 0 < n <= |p.idle| == |after.idle| && p.idle[n - 1] != [] && popped == Pop(p, n - 1)
    requires StopsAt(popped, after, n, k)
    ensures StopsAt(p, after, n, k)
  {
    assert k < n - 1 ==> popped.idle[k] == p.idle[k];
    assert k == n - 1 ==> popped.idle[k] == p.idle[k][..|p.idle[k]| - 1];
  }

  lemma PoppedTrim(p: Pool, popped: Pool, after: Pool, n: nat)
    requires 0 < n <= |p.idle| && p.idle[n - 1] != [] && popped == Pop(p, n - 1) && Trimmed(popped, after, n)
    requires IdleIn(p.idle) > Room(p)
    ensures Trimmed(p, after, n)
  {
    if after != popped {
      var k: nat :| StopsAt(popped, after, n, k);
      PoppedStops(p, popped, after, n, k);
    } else {
      PopIdle(p, n - 1);
      assert StopsAt(p, after, n, n - 1);
    }
  }

  // ---------------------------------------------------------------- what every pool operation keeps

  lemma StopsKeepsBuckets(p: Pool, after: Pool, k: nat)
    requires |p.idle| == |after.idle| == BUCKETS && StopsAt(p, after, BUCKETS, k)
    requires forall i :: 0 <= i < BUCKETS ==> BucketOk(p.idle[i], i)
    ensures forall i :: 0 <= i < BUCKETS ==> BucketOk(after.idle[i], i)
  {
    forall i | 0 <= i < BUCKETS ensures BucketOk(after.idle[i], i) {
      assert BucketOk(p.idle[i], i) && after.idle[i] <= p.idle[i];
      PrefixOk(p.idle[i], after.idle[i], i);
    }
  }

  lemma PrefixOk(bucket: seq<nat>, prefix: seq<nat>, i: nat)
    requires BucketOk(bucket, i) && prefix <= bucket
    ensures BucketOk(prefix, i)
  {
    forall c | c in prefix ensures c in bucket {
      var j :| 0 <= j < |prefix| && prefix[j] == c;
      assert bucket[j] == c;
    }
  }

  /** Charging bytes keeps the pool valid; what remains idle was idle before, and as much of it as fits. */
  lemma AddUsedKeepsPool(p: Pool, bytes: nat)
    requires ValidPool(p)
    ensures ValidPool(AddUsed(p, bytes)) && AddUsed(p, bytes).used == p.used + bytes
    ensures Trimmed(p.(used := p.used + bytes), AddUsed(p, bytes), BUCKETS)
  {
    var charged := p.(used := p.used + bytes);
    TrimIsMinimal(charged, BUCKETS);
    if AddUsed(p, bytes) != charged {
      var k: nat :| StopsAt(charged, AddUsed(p, bytes), BUCKETS, k);
      StopsKeepsBuckets(charged, AddUsed(p, bytes), k);
    }
  }

  lemma GiveBackKeepsPool(p: Pool, capacity: nat)
    requires ValidPool(p) && BucketOk([capacity], BucketIndex(capacity))
    ensures ValidPool(GiveBack(p, capacity)) && GiveBack(p, capacity).used == p.used
    ensures
      var fits := IdleIn(p.idle) + capacity <= Room(p);
      IdleIn(GiveBack(p, capacity).idle) == IdleIn(p.idle) + if fits then capacity else 0
  {
    var i := BucketIndex(capacity);
    IdlePush(p.idle, i, capacity);
    PushKeepsBuckets(p.idle, i, capacity, p.idle[i := p.idle[i] + [capacity]]);
  }

  lemma IdlePush(idle: seq<seq<nat>>, i: nat, capacity: nat)
    requires i < |idle|
    ensures IdleIn(idle[i := idle[i] + [capacity]]) == IdleIn(idle) + capacity
  {
    IdleUpdate(idle, i, idle[i] + [capacity]);
    SumPush(idle[i], capacity);
  }

  lemma PushKeepsBuckets(idle: seq<seq<nat>>, i: nat, capacity: nat, after: seq<seq<nat>>)
    requires |idle| == BUCKETS && i < BUCKETS && BucketOk([capacity], i) && after == idle[i := idle[i] + [capacity]]
    requires forall j :: 0 <= j < BUCKETS ==> BucketOk(idle[j], j)
    ensures IdleIn(after) == IdleIn(idle) + capacity
    ensures forall j :: 0 <= j < BUCKETS ==> BucketOk(after[j], j)
  {
    IdlePush(idle, i, capacity);
    forall j | 0 <= j < BUCKETS ensures BucketOk(after[j], j) {
      assert BucketOk(idle[j], j) && capacity in [capacity];
    }
  }

  lemma PopKeepsPool(p: Pool, i: nat)
    requires ValidPool(p) && i < BUCKETS && p.idle[i] != []
    ensures ValidPool(Pop(p, i)) && Pop(p, i).used == p.used
  {
    PopIdle(p, i);
    forall j | 0 <= j < BUCKETS ensures BucketOk(Pop(p, i).idle[j], j) {
      assert BucketOk(p.idle[j], j);
      PrefixOk(p.idle[j], Pop(p, i).idle[j], j);
    }
  }

  // ---------------------------------------------------------------- the pool

  class BufferPool {
    const capacity: nat
    var usedBytes: nat
    var idleBytes: nat
    var idleBuffers: seq<seq<nat>>

    ghost function View(): Pool
      reads this
    {
      Pool(capacity, usedBytes, idleBuffers)
    }

    ghost predicate Valid()
      reads this
    {
      ValidPool(View()) && idleBytes == IdleIn(idleBuffers)
    }

    constructor (capacity: nat)
      ensures Valid() && View() == Pool(capacity, 0, seq(BUCKETS, _ => []))
    {
      this.capacity, usedBytes, idleBytes := capacity, 0, 0;
      idleBuffers := seq(BUCKETS, _ => []);
      NothingIdle(seq(BUCKETS, _ => []));
    }

    method TakeIdleBuffer(i: nat) returns (taken: Option<nat>)
      requires |idleBuffers| == BUCKETS && i < BUCKETS && idleBytes == IdleIn(idleBuffers)
      modifies this`idleBytes, this`idleBuffers
      ensures idleBytes == IdleIn(idleBuffers)
      ensures if old(idleBuffers)[i] == [] then taken == None && View() == old(View())
        else taken == Some(old(idleBuffers)[i][|old(idleBuffers)[i]| - 1]) && View() == Pop(old(View()), i)
    {
      var bucket := idleBuffers[i];
      if bucket == [] {
        return None;
      }
      PopIdle(View(), i);
      idleBuffers := idleBuffers[i := bucket[..|bucket| - 1]];
      idleBytes := idleBytes - bucket[|bucket| - 1];
      taken := Some(bucket[|bucket| - 1]);
    }

    /** A buffer for `length` bytes, reused if the bucket has one; returns its capacity. */
    method Allocate(length: nat) returns (size: nat)
      requires Valid()
      modifies this`idleBytes, this`idleBuffers
      ensures Valid() && length <= size && BucketIndex(size) == BucketIndex(length)
      ensures BucketOk([size], BucketIndex(size))
      ensures var bucket := old(idleBuffers)[BucketIndex(length)];
        && (bucket == [] ==> View() == old(View()) && size == AllocationCapacity(length))
        && (bucket != [] ==> View() == Pop(old(View()), BucketIndex(length)))
        && (bucket != [] ==> size == ReusedCapacity(bucket[|bucket| - 1], AllocationCapacity(length)))
    {
      var i := BucketIndex(length);
      FreshFits(length);
      var taken := TakeIdleBuffer(i);
      if taken.Some? {
        assert BucketOk(old(idleBuffers)[i], i) && taken.value in old(idleBuffers)[i];
        PopKeepsPool(old(View()), i);
        ReuseFits(taken.value, length);
        size := ReusedCapacity(taken.value, AllocationCapacity(length));
      } else {
        size := AllocationCapacity(length);
      }
    }

    /** Charges cached bytes, freeing idle buffers from the largest bucket down while they do not fit. */
    method AddUsedBytes(bytes: nat)
      requires Valid()
      modifies this
      ensures Valid() && View() == AddUsed(old(View()), bytes)
    {
      AddUsedKeepsPool(View(), bytes);
      usedBytes := usedBytes + bytes;
      var remaining := if usedBytes < capacity then capacity - usedBytes else 0;
      var n: nat := BUCKETS;
      while n > 0
        invariant n <= BUCKETS == |idleBuffers| && idleBytes == IdleIn(idleBuffers) && remaining == Room(View())
        invariant Trim(View(), n) == AddUsed(old(View()), bytes)
        modifies this`idleBytes, this`idleBuffers
      {
        n := n - 1;
        while idleBytes > remaining && idleBuffers[n] != []
          invariant BUCKETS == |idleBuffers| && idleBytes == IdleIn(idleBuffers) && remaining == Room(View())
          invariant Trim(View(), n + 1) == AddUsed(old(View()), bytes)
          decreases |idleBuffers[n]|
        {
          var freed := TakeIdleBuffer(n);
        }
      }
    }

    method RemoveUsedBytes(bytes: nat)
      requires Valid() && bytes <= usedBytes
      modifies this`usedBytes
      ensures Valid() && View() == old(View()).(used := old(usedBytes) - bytes)
    {
      usedBytes := usedBytes - bytes;
    }

    /** A dropped buffer becomes idle only while idle and cached bytes together fit the capacity. */
    method DropBuffer(size: nat)
      requires Valid() && BucketOk([size], BucketIndex(size))
      modifies this`idleBytes, this`idleBuffers
      ensures Valid() && View() == GiveBack(old(View()), size)
    {
      GiveBackKeepsPool(View(), size);
      ghost var after := GiveBack(View(), size);
      var limit := if usedBytes < capacity then capacity - usedBytes else 0;
      if idleBytes + size <= limit {
        var i := BucketIndex(size);
        idleBuffers := idleBuffers[i := idleBuffers[i] + [size]];
        idleBytes := idleBytes + size;
      }
      assert View() == after;
    }
  }
}
