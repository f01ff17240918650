/**
 Cleanup of the request history (feuer-historian): one pass counts the entries shard by shard, one
 collects their clocks, and one drops every entry whose clock is not above a cutoff. Requests interleave
 between the shard locks.
 */
module History {
  import opened Layout

  /** Last request clock of each key of a shard. */
  type Clocks = map<nat, nat>

  ghost function Old(m: Clocks, cutoff: nat): set<nat> {
    set k | k in m && m[k] <= cutoff
  }

  function Retain(m: Clocks, cutoff: nat): Clocks {
    map k | k in m && m[k] > cutoff :: m[k]
  }

  function Requested(m: Clocks, key: nat, clock: nat): Clocks {
    m[key := clock]
  }

  function AtMost(s: seq<nat>, c: nat): nat {
    if s == [] then 0 else (if s[0] <= c then 1 else 0) + AtMost(s[1..], c)
  }

  function Below(s: seq<nat>, c: nat): nat {
    if s == [] then 0 else (if s[0] < c then 1 else 0) + Below(s[1..], c)
  }

  lemma {:induction false} AtMostConcat(a: seq<nat>, b: seq<nat>, c: nat)
    ensures AtMost(a + b, c) == AtMost(a, c) + AtMost(b, c)
  {
    if a == [] {
      assert a + b == b;
    } else {
      assert (a + b)[1..] == a[1..] + b;
      AtMostConcat(a[1..], b, c);
    }
  }

  lemma {:induction false} BelowConcat(a: seq<nat>, b: seq<nat>, c: nat)
    ensures Below(a + b, c) == Below(a, c) + Below(b, c)
  {
    if a == [] {
      assert a + b == b;
    } else {
      assert (a + b)[1..] == a[1..] + b;
      BelowConcat(a[1..], b, c);
    }
  }

  lemma {:induction false} BelowIsAtMost(s: seq<nat>, c: nat)
    requires c > 0
    ensures Below(s, c) == AtMost(s, c - 1)
  {
    if s != [] {
      BelowIsAtMost(s[1..], c);
    }
  }

  // ---------------------------------------------------------------- selecting the cutoff

  /** `v` would be at position `k` if `s` were sorted. */
  ghost predicate IsNth(s: seq<nat>, k: nat, v: nat) {
    v in s && Below(s, v) <= k < AtMost(s, v)
  }

  method SmallestIndex(s: seq<nat>) returns (m: nat)
    requires s != []
    ensures m < |s| && forall i :: 0 <= i < |s| ==> s[m] <= s[i]
  {
    m := 0;
    for i := 1 to |s|
      invariant m < |s| && forall j :: 0 <= j < i ==> s[m] <= s[j]
    {
      if s[i] < s[m] {
        m := i;
      }
    }
  }

  lemma {:induction false} NoneBelow(s: seq<nat>, v: nat)
    requires forall i :: 0 <= i < |s| ==> v <= s[i]
    ensures Below(s, v) == 0
  {
    if s != [] {
      NoneBelow(s[1..], v);
    }
  }

  lemma {:induction false} SomeAtMost(s: seq<nat>, v: nat)
    requires v in s
    ensures AtMost(s, v) > 0
  {
    if s[0] != v {
      SomeAtMost(s[1..], v);
    }
  }

  /** Taking out a smallest element moves every position down by one. */
  lemma NthWithoutSmallest(s: seq<nat>, m: nat, k: nat, v: nat)
    requires m < |s| && k > 0 && (forall i :: 0 <= i < |s| ==> s[m] <= s[i])
    requires IsNth(s[..m] + s[m + 1..], k - 1, v)
    ensures IsNth(s, k, v)
  {
    var rest := s[..m] + s[m + 1..];
    assert s == s[..m] + ([s[m]] + s[m + 1..]);
    AtMostConcat(s[..m], [s[m]] + s[m + 1..], v);
    AtMostConcat([s[m]], s[m + 1..], v);
    AtMostConcat(s[..m], s[m + 1..], v);
    BelowConcat(s[..m], [s[m]] + s[m + 1..], v);
    BelowConcat([s[m]], s[m + 1..], v);
    BelowConcat(s[..m], s[m + 1..], v);
    assert forall x :: x in rest ==> x in s;
  }

  method SelectNth(s: seq<nat>, k: nat) returns (v: nat)
    requires k < |s|
    ensures IsNth(s, k, v)
  {
    var m := SmallestIndex(s);
    if k == 0 {
      v := s[m];
      NoneBelow(s, v);
      SomeAtMost(s, v);
    } else {
      v := SelectNth(s[..m] + s[m + 1..], k - 1);
      NthWithoutSmallest(s, m, k, v);
    }
  }

  // ---------------------------------------------------------------- listing clocks

  /** `values` holds the clocks of `m`, in any order. */
  ghost predicate Lists(values: seq<nat>, m: Clocks) {
    && |values| == |m| && (forall v :: v in values ==> v in m.Values)
    && forall c :: AtMost(values, c) == |Old(m, c)|
  }

  lemma ListsPush(values: seq<nat>, m: Clocks, k: nat, clock: nat)
    requires k !in m && Lists(values, m)
    ensures Lists(values + [clock], Requested(m, k, clock))
  {
    var after := Requested(m, k, clock);
    assert after.Keys == m.Keys + {k} && |after.Keys| == |after| && |m.Keys| == |m|;
    forall c ensures AtMost(values + [clock], c) == |Old(after, c)| {
      AtMostConcat(values, [clock], c);
      assert Old(m, c) == Old(after, c) - {k};
    }
    forall v | v in values + [clock] ensures v in after.Values {
      if v in values {
        var j :| j in m && m[j] == v;
        assert after[j] == v;
      } else {
        assert after[k] == v;
      }
    }
  }

  lemma ListsNone()
    ensures Lists([], map[])
  {
    assert forall c :: Old(map[], c) == {};
  }

  /** The entries of `m` outside `left`. */
  ghost function Outside(m: Clocks, left: set<nat>): Clocks {
    map k | k in m && k !in left :: m[k]
  }

  lemma ListsNext(values: seq<nat>, m: Clocks, left: set<nat>, k: nat)
    requires k in left && k in m && Lists(values, Outside(m, left))
    ensures Lists(values + [m[k]], Outside(m, left - {k}))
  {
    ListsPush(values, Outside(m, left), k, m[k]);
    assert Requested(Outside(m, left), k, m[k]) == Outside(m, left - {k});
  }

  method ListClocks(m: Clocks) returns (values: seq<nat>)
    ensures Lists(values, m)
  {
    values := [];
    var left := m.Keys;
    ListsNone();
    assert Outside(m, left) == map[] && Outside(m, {}) == m;
    while left != {}
      invariant left <= m.Keys && Lists(values, Outside(m, left))
      decreases |left|
    {
      var k :| k in left;
      ListsNext(values, m, left, k);
      values := values + [m[k]];
      left := left - {k};
    }
  }

  // ---------------------------------------------------------------- all shards

  function Size(shards: seq<Clocks>): nat {
    if shards == [] then 0 else Size(shards[..|shards| - 1]) + |shards[|shards| - 1]|
  }

  ghost function OldIn(shards: seq<Clocks>, c: nat): nat {
    if shards == [] then 0 else OldIn(shards[..|shards| - 1], c) + |Old(shards[|shards| - 1], c)|
  }

  ghost predicate ListsAll(clocks: seq<nat>, shards: seq<Clocks>) {
    |clocks| == Size(shards) && forall c :: AtMost(clocks, c) == OldIn(shards, c)
  }

  lemma ListsAllPush(clocks: seq<nat>, shards: seq<Clocks>, values: seq<nat>, m: Clocks)
    requires ListsAll(clocks, shards) && Lists(values, m)
    ensures ListsAll(clocks + values, shards + [m])
  {
    assert (shards + [m])[..|shards|] == shards;
    forall c ensures AtMost(clocks + values, c) == OldIn(shards + [m], c) {
      AtMostConcat(clocks, values, c);
    }
  }

  function RetainAll(shards: seq<Clocks>, cutoff: nat): seq<Clocks> {
    seq(|shards|, i requires 0 <= i < |shards| => Retain(shards[i], cutoff))
  }

  lemma RetainSize(m: Clocks, cutoff: nat)
    ensures |Retain(m, cutoff)| + |Old(m, cutoff)| == |m|
  {
    assert Retain(m, cutoff).Keys == m.Keys - Old(m, cutoff);
    assert |Retain(m, cutoff).Keys| == |Retain(m, cutoff)| && |m.Keys| == |m|;
  }

  lemma {:induction false} RetainAllSize(shards: seq<Clocks>, cutoff: nat)
    ensures Size(RetainAll(shards, cutoff)) + OldIn(shards, cutoff) == Size(shards)
  {
    if shards != [] {
      var n := |shards| - 1;
      RetainAllSize(shards[..n], cutoff);
      assert RetainAll(shards, cutoff)[..n] == RetainAll(shards[..n], cutoff);
      RetainSize(shards[n], cutoff);
    }
  }

  /** No two entries were last requested at the same clock. */
  ghost predicate Distinct(shards: seq<Clocks>) {
    forall i, j, k, l :: 0 <= i < |shards| && 0 <= j < |shards| && k in shards[i] && l in shards[j] ==>
      shards[i][k] == shards[j][l] ==> i == j && k == l
  }

  ghost predicate ShardHas(m: Clocks, c: nat) {
    exists k :: k in m && m[k] == c
  }

  lemma ShardStep(m: Clocks, c: nat)
    requires forall j, k :: j in m && k in m && m[j] == m[k] ==> j == k
    ensures |Old(m, c)| <= (if c > 0 then |Old(m, c - 1)| else 0) + if ShardHas(m, c) then 1 else 0
  {
    var now, before := Old(m, c), if c > 0 then Old(m, c - 1) else {};
    if k :| k in m && m[k] == c {
      SubsetSize(now - {k}, before);
    } else {
      SubsetSize(now, before);
    }
  }

  /** At most one entry has clock `c`, so the count of old entries grows by at most one there. */
  lemma {:induction false} OldStep(shards: seq<Clocks>, c: nat)
    requires Distinct(shards)
    ensures OldIn(shards, c) <= (if c > 0 then OldIn(shards, c - 1) else 0) + if HasClock(shards, c) then 1 else 0
  {
    if shards != [] {
      var n := |shards| - 1;
      OldStep(shards[..n], c);
      ShardStep(shards[n], c);
      if ShardHas(shards[n], c) {
        var k :| k in shards[n] && shards[n][k] == c;
        assert HasClock(shards, c) && !HasClock(shards[..n], c);
      } else if HasClock(shards[..n], c) {
        var i, k :| 0 <= i < n && k in shards[..n][i] && shards[..n][i][k] == c;
        assert k in shards[i] && HasClock(shards, c);
      }
    }
  }

  ghost predicate HasClock(shards: seq<Clocks>, c: nat) {
    exists i, k :: 0 <= i < |shards| && k in shards[i] && shards[i][k] == c
  }

  /** With distinct clocks, the entry at position `k` is the last of exactly `k + 1` old ones. */
  lemma NthIsExact(clocks: seq<nat>, shards: seq<Clocks>, k: nat, v: nat)
    requires ListsAll(clocks, shards) && Distinct(shards) && IsNth(clocks, k, v)
    ensures OldIn(shards, v) == k + 1
  {
    OldStep(shards, v);
    if v > 0 {
      BelowIsAtMost(clocks, v);
    }
  }

  // ---------------------------------------------------------------- the history without interleaving

  function EntriesToKeep(limit: nat): nat {
    limit - limit / 10
  }

  class ObjectAccessHistories {
    var shards: seq<Clocks>
    var requestCount: nat

    /** Every entry has its own clock, assigned by some earlier request. */
    ghost predicate Valid()
      reads this
    {
      Distinct(shards) && forall i, k :: 0 <= i < |shards| && k in shards[i] ==> shards[i][k] <= requestCount
    }

    constructor (count: nat)
      ensures Valid() && |shards| == count && requestCount == 0 && forall i :: 0 <= i < count ==> shards[i] == map[]
    {
      shards, requestCount := seq(count, _ => map[]), 0;
    }

    method RecordRequest(i: nat, key: nat)
      requires Valid() && i < |shards|
      modifies this
      ensures Valid() && requestCount == old(requestCount) + 1
      ensures shards == old(shards)[i := Requested(old(shards)[i], key, requestCount)]
    {
      requestCount := requestCount + 1;
      shards := shards[i := Requested(shards[i], key, requestCount)];
    }

    method RetainNewer(cutoff: nat)
      modifies this`shards
      ensures shards == RetainAll(old(shards), cutoff)
    {
      ghost var before := shards;
      for i := 0 to |shards|
        invariant |shards| == |before|
        invariant forall j :: 0 <= j < |shards| ==> shards[j] == if j < i then Retain(before[j], cutoff) else before[j]
      {
        shards := shards[i := Retain(shards[i], cutoff)];
      }
    }

    /** Keeps exactly the `limit - limit / 10` most recently requested entries once there are more than `limit`. */
    method RemoveOldest(limit: nat)
      requires Valid()
      modifies this`shards
      ensures Valid()
      ensures Size(old(shards)) <= limit ==> shards == old(shards)
      ensures Size(old(shards)) > limit ==> Size(shards) == limit - limit / 10
      ensures Size(old(shards)) > limit ==> exists cutoff: nat :: shards == RetainAll(old(shards), cutoff)
    {
      ghost var before := shards;
      if Size(shards) <= limit {
        return;
      }
      var clocks := CollectClocks(shards);
      var index := |clocks| - EntriesToKeep(limit) - 1;
      var cutoff := SelectNth(clocks, index);
      NthIsExact(clocks, before, index, cutoff);
      RetainAllSize(before, cutoff);
      RetainNewer(cutoff);
    }
  }

  method CollectClocks(shards: seq<Clocks>) returns (clocks: seq<nat>)
    ensures ListsAll(clocks, shards)
  {
    clocks := [];
    for i := 0 to |shards|
      invariant ListsAll(clocks, shards[..i])
    {
      var values := ListClocks(shards[i]);
      ListsAllPush(clocks, shards[..i], values, shards[i]);
      assert shards[..i] + [shards[i]] == shards[..i + 1];
      clocks := clocks + values;
    }
    assert shards[..|shards|] == shards;
  }

  // ---------------------------------------------------------------- cleanup with interleaved requests

  /** `Scanning` has listed the first `shard` shards, and `Removing` has trimmed them. */
  datatype Phase =
    | Idle
    | Counting(counts: seq<nat>)
    | Scanning(counts: seq<nat>, shard: nat, clocks: seq<nat>)
    | Removing(shard: nat, cutoff: nat)

  /** An entry of the history: its shard and key. */
  datatype Entry = Entry(shard: nat, key: nat)

  /** `recent` are the entries requested since the last scan of all shards was complete. */
  datatype State = State(shards: seq<Clocks>, clock: nat, phase: Phase, recent: set<Entry>)

  datatype Action = Request(shard: nat, key: nat) | Begin | Count | Scan(values: seq<nat>) | Select(cutoff: nat) | Trim

  /** Position of the cutoff among the listed clocks; negative would be an underflow. */
  function CutoffIndex(listed: nat, limit: nat): int {
    listed - EntriesToKeep(limit) - 1
  }

  ghost predicate Enabled(y: State, a: Action, limit: nat) {
    match a
    case Request(i, _) => i < |y.shards|
    case Begin => y.phase.Idle?
    case Count => y.phase.Counting?
    case Scan(values) => y.phase.Scanning? && y.phase.shard < |y.shards| && Lists(values, y.shards[y.phase.shard])
    case Select(cutoff) =>
      && y.phase.Scanning? && y.phase.shard == |y.shards|
      && (CutoffIndex(|y.phase.clocks|, limit) >= 0 ==>
        IsNth(y.phase.clocks, CutoffIndex(|y.phase.clocks|, limit), cutoff))
    case Trim => y.phase.Removing?
  }

  /** The number of entries to remove would fall below one. */
  predicate Underflows(y: State, a: Action, limit: nat) {
    a.Select? && y.phase.Scanning? && CutoffIndex(|y.phase.clocks|, limit) < 0
  }

  function Apply(y: State, a: Action, limit: nat): State
    requires a.Request? ==> a.shard < |y.shards|
    requires a.Count? ==> y.phase.Counting?
    requires a.Scan? || a.Select? ==> y.phase.Scanning?
    requires a.Trim? ==> y.phase.Removing?
  {
    match a
    case Request(i, key) =>
      State(y.shards[i := Requested(y.shards[i], key, y.clock + 1)], y.clock + 1, y.phase, y.recent + {Entry(i, key)})
    case Begin => y.(phase := Counting([]))
    case Count =>
      var counts := y.phase.counts;
      if |counts| < |y.shards| then y.(phase := Counting(counts + [|y.shards[|counts|]|]))
      else if Sum(counts) <= limit then y.(phase := Idle)
      else y.(phase := Scanning(counts, 0, []))
    case Scan(values) =>
      var i := y.phase.shard + 1;
      y.(phase := y.phase.(shard := i, clocks := y.phase.clocks + values),
         recent := if i == |y.shards| then {} else y.recent)
    case Select(cutoff) => y.(phase := Removing(0, cutoff))
    case Trim =>
      var i := y.phase.shard;
      if i < |y.shards| then
        y.(shards := y.shards[i := Retain(y.shards[i], y.phase.cutoff)], phase := Removing(i + 1, y.phase.cutoff))
      else y.(phase := Idle)
  }

  ghost predicate Reaches(y: State, actions: seq<Action>, z: State, limit: nat)
    decreases |actions|
  {
    if actions == [] then z == y
    else
      && Enabled(y, actions[0], limit) && !Underflows(y, actions[0], limit)
      && Reaches(Apply(y, actions[0], limit), actions[1..], z, limit)
  }

  ghost predicate CountsHold(y: State, counts: seq<nat>) {
    |counts| <= |y.shards| && forall i :: 0 <= i < |counts| ==> counts[i] <= |y.shards[i]|
  }

  ghost predicate ScanComplete(y: State) {
    y.phase.Scanning? && y.phase.shard == |y.shards|
  }

  /** The entry is there, and newer than anything that the cleanup at work can choose as its cutoff. */
  ghost predicate Held(y: State, e: Entry) {
    && e.shard < |y.shards| && e.key in y.shards[e.shard]
    && var clock := y.shards[e.shard][e.key];
    && (ScanComplete(y) ==> forall v :: v in y.phase.clocks ==> v < clock)
    && (y.phase.Removing? ==> y.phase.cutoff < clock)
  }

  ghost predicate PhaseOk(y: State, limit: nat) {
    match y.phase
    case Idle => true
    case Counting(counts) => CountsHold(y, counts)
    case Scanning(counts, i, clocks) =>
      && CountsHold(y, counts) && |counts| == |y.shards| && i <= |y.shards| && Sum(counts) > limit
      && |clocks| >= Sum(counts[..i]) && forall v :: v in clocks ==> v <= y.clock
    case Removing(i, cutoff) => cutoff <= y.clock
  }

  ghost predicate Inv(y: State, limit: nat) {
    && (forall i, k :: 0 <= i < |y.shards| && k in y.shards[i] ==> y.shards[i][k] <= y.clock)
    && PhaseOk(y, limit) && forall e :: e in y.recent ==> Held(y, e)
  }

  lemma RequestedSize(m: Clocks, key: nat, clock: nat)
    ensures |Requested(m, key, clock)| >= |m|
  {
    assert Requested(m, key, clock).Keys == m.Keys + {key};
    assert |Requested(m, key, clock).Keys| == |Requested(m, key, clock)| && |m.Keys| == |m|;
  }

  lemma ScanKeepsPhase(y: State, values: seq<nat>, limit: nat)
    requires Inv(y, limit) && Enabled(y, Scan(values), limit)
    ensures PhaseOk(Apply(y, Scan(values), limit), limit)
  {
    var i, counts := y.phase.shard, y.phase.counts;
    assert counts[..i + 1][..i] == counts[..i];
    forall v | v in y.phase.clocks + values ensures v <= y.clock {
      if v in values {
        var k :| k in y.shards[i] && y.shards[i][k] == v;
      }
    }
  }

  lemma RequestHolds(y: State, i: nat, key: nat, limit: nat)
    requires Inv(y, limit) && i < |y.shards|
    ensures Held(Apply(y, Request(i, key), limit), Entry(i, key))
    ensures forall e :: Held(y, e) ==> Held(Apply(y, Request(i, key), limit), e)
  {
  }

  /** A held entry stays held, except that the end of a scan starts over. */
  lemma HeldKept(y: State, a: Action, e: Entry, limit: nat)
    requires Inv(y, limit) && Enabled(y, a, limit) && !Underflows(y, a, limit) && Held(y, e)
    requires a.Scan? ==> y.phase.shard + 1 < |y.shards|
    ensures Held(Apply(y, a, limit), e)
  {
    match a
    case Request(i, key) => RequestHolds(y, i, key, limit);
    case _ =>
  }

  lemma PhaseKept(y: State, a: Action, limit: nat)
    requires Inv(y, limit) && Enabled(y, a, limit)
    ensures !Underflows(y, a, limit) && PhaseOk(Apply(y, a, limit), limit)
  {
    match a
    case Request(i, key) => RequestedSize(y.shards[i], key, y.clock + 1);
    case Scan(values) => ScanKeepsPhase(y, values, limit);
    case Select(cutoff) => assert y.phase.counts[..y.phase.shard] == y.phase.counts;
    case _ =>
  }

  lemma ApplyKeepsInv(y: State, a: Action, limit: nat)
    requires Inv(y, limit) && Enabled(y, a, limit)
    ensures !Underflows(y, a, limit) && Inv(Apply(y, a, limit), limit)
  {
    PhaseKept(y, a, limit);
    var z := Apply(y, a, limit);
    forall e | e in z.recent ensures Held(z, e) {
      if e in y.recent {
        HeldKept(y, a, e, limit);
      } else {
        RequestHolds(y, a.shard, a.key, limit);
      }
    }
  }

  /**
   In every run, with requests between any two lock regions: the number of entries to remove never
   underflows, and everything requested since the last scan was complete is still in the history.
   */
  lemma {:induction false} CleanupKeepsRecent(y: State, actions: seq<Action>, z: State, limit: nat)
    requires Inv(y, limit) && Reaches(y, actions, z, limit)
    ensures Inv(z, limit) && forall a :: Enabled(z, a, limit) ==> !Underflows(z, a, limit)
    ensures forall e :: e in z.recent ==> e.shard < |z.shards| && e.key in z.shards[e.shard]
    decreases |actions|
  {
    if actions == [] {
      forall a | Enabled(z, a, limit) ensures !Underflows(z, a, limit) {
        ApplyKeepsInv(z, a, limit);
      }
    } else {
      ApplyKeepsInv(y, actions[0], limit);
      CleanupKeepsRecent(Apply(y, actions[0], limit), actions[1..], z, limit);
    }
  }

  // ---------------------------------------------------------------- requests during a scan

  /** The actions belong to the cleanup at work. */
  ghost predicate SameCleanup(actions: seq<Action>) {
    forall i :: 0 <= i < |actions| ==> !actions[i].Begin?
  }

  /** Whatever the cleanup at work still does, the entry stays in the history. */
  ghost predicate Lasts(y: State, e: Entry, limit: nat) {
    forall actions, z :: Reaches(y, actions, z, limit) && SameCleanup(actions) ==>
      e.shard < |z.shards| && e.key in z.shards[e.shard]
  }

  /** After the scan, no scan comes before the next cleanup. */
  ghost predicate Scanned(y: State) {
    ScanComplete(y) || y.phase.Removing? || y.phase.Idle?
  }

  lemma {:induction false} HeldLasts(y: State, e: Entry, actions: seq<Action>, z: State, limit: nat)
    requires Inv(y, limit) && Held(y, e) && Scanned(y) && Reaches(y, actions, z, limit) && SameCleanup(actions)
    ensures Held(z, e)
    decreases |actions|
  {
    if actions != [] {
      ApplyKeepsInv(y, actions[0], limit);
      HeldKept(y, actions[0], e, limit);
      assert SameCleanup(actions[1..]);
      HeldLasts(Apply(y, actions[0], limit), e, actions[1..], z, limit);
    }
  }

  lemma {:induction false} RunsCompose(y: State, a: seq<Action>, m: State, b: seq<Action>, z: State, limit: nat)
    requires Reaches(y, a, m, limit) && Reaches(m, b, z, limit) && SameCleanup(a) && SameCleanup(b)
    ensures Reaches(y, a + b, z, limit) && SameCleanup(a + b)
    decreases |a|
  {
    if a == [] {
      assert a + b == b;
    } else {
      assert (a + b)[0] == a[0] && (a + b)[1..] == a[1..] + b;
      RunsCompose(Apply(y, a[0], limit), a[1..], m, b, z, limit);
    }
  }

  /** How many of the listed clocks are above `c`. */
  function Newer(clocks: seq<nat>, c: nat): int {
    |clocks| - AtMost(clocks, c)
  }

  lemma {:induction false} AtMostSize(s: seq<nat>, c: nat)
    ensures AtMost(s, c) <= |s|
  {
    if s != [] {
      AtMostSize(s[1..], c);
    }
  }

  lemma {:induction false} AtMostGrows(s: seq<nat>, c: nat, d: nat)
    requires c <= d
    ensures AtMost(s, c) <= AtMost(s, d)
  {
    if s != [] {
      AtMostGrows(s[1..], c, d);
    }
  }

  /** `n` requests for new keys of shard `j`. */
  lemma {:induction false} NewRequests(y: State, j: nat, base: nat, n: nat, c: nat, limit: nat)
    returns (actions: seq<Action>, z: State)
    requires j < |y.shards| && c <= y.clock && forall k :: k in y.shards[j] ==> k < base
    ensures Reaches(y, actions, z, limit) && SameCleanup(actions) && z.phase == y.phase && |z.shards| == |y.shards|
    ensures |z.shards[j]| - |Old(z.shards[j], c)| == |y.shards[j]| - |Old(y.shards[j], c)| + n
    ensures forall i, k :: 0 <= i < |y.shards| && k in y.shards[i] ==>
      k in z.shards[i] && z.shards[i][k] == y.shards[i][k]
    decreases n
  {
    if n == 0 {
      actions, z := [], y;
    } else {
      var a := Request(j, base);
      var m := Apply(y, a, limit);
      assert Old(m.shards[j], c) == Old(y.shards[j], c);
      assert m.shards[j].Keys == y.shards[j].Keys + {base};
      assert |m.shards[j].Keys| == |m.shards[j]| && |y.shards[j].Keys| == |y.shards[j]|;
      var rest;
      rest, z := NewRequests(m, j, base + 1, n - 1, c, limit);
      actions := [a] + rest;
      assert actions[1..] == rest;
    }
  }

  lemma {:induction false} ListingExists(m: Clocks) returns (values: seq<nat>)
    ensures Lists(values, m)
    decreases m.Keys
  {
    if m == map[] {
      values := [];
      ListsNone();
    } else {
      var k :| k in m;
      var rest := map j | j in m && j != k :: m[j];
      assert rest.Keys == m.Keys - {k};
      values := ListingExists(rest);
      ListsPush(values, rest, k, m[k]);
      assert Requested(rest, k, m[k]) == m;
      values := values + [m[k]];
    }
  }

  /** Scanning the shards that are left lists, among others, the clocks of the last one. */
  lemma {:induction false} ScanRest(y: State, c: nat, limit: nat) returns (actions: seq<Action>, z: State)
    requires Inv(y, limit) && y.phase.Scanning?
    ensures Reaches(y, actions, z, limit) && SameCleanup(actions) && Inv(z, limit) && ScanComplete(z)
    ensures z.shards == y.shards
    ensures Newer(z.phase.clocks, c) >= Newer(y.phase.clocks, c)
    ensures y.phase.shard < |y.shards| ==>
      var last := y.shards[|y.shards| - 1]; Newer(z.phase.clocks, c) >= |last| - |Old(last, c)|
    decreases |y.shards| - y.phase.shard
  {
    if y.phase.shard == |y.shards| {
      actions, z := [], y;
    } else {
      var values, m := ScanOne(y, c, limit);
      var rest;
      rest, z := ScanRest(m, c, limit);
      actions := [Scan(values)] + rest;
      RunFrom(y, Scan(values), m, rest, z, limit);
    }
  }

  lemma RunFrom(y: State, a: Action, m: State, rest: seq<Action>, z: State, limit: nat)
    requires Enabled(y, a, limit) && !Underflows(y, a, limit) && m == Apply(y, a, limit) && !a.Begin?
    requires Reaches(m, rest, z, limit) && SameCleanup(rest)
    ensures Reaches(y, [a] + rest, z, limit) && SameCleanup([a] + rest)
  {
    assert ([a] + rest)[1..] == rest;
  }

  /** Scanning the next shard adds all its clocks. */
  lemma ScanOne(y: State, c: nat, limit: nat) returns (values: seq<nat>, m: State)
    requires Inv(y, limit) && y.phase.Scanning? && y.phase.shard < |y.shards|
    ensures Enabled(y, Scan(values), limit) && m == Apply(y, Scan(values), limit)
    ensures Inv(m, limit) && m.phase.Scanning? && m.shards == y.shards && m.phase.shard == y.phase.shard + 1
    ensures
      var shard := y.shards[y.phase.shard];
      Newer(m.phase.clocks, c) == Newer(y.phase.clocks, c) + |shard| - |Old(shard, c)|
    ensures Newer(y.phase.clocks, c) >= 0 && Newer(m.phase.clocks, c) >= Newer(y.phase.clocks, c)
  {
    values := ListingExists(y.shards[y.phase.shard]);
    m := Apply(y, Scan(values), limit);
    ApplyKeepsInv(y, Scan(values), limit);
    AtMostConcat(y.phase.clocks, values, c);
    AtMostSize(values, c);
    AtMostSize(y.phase.clocks, c);
  }

  lemma {:induction false} SmallestExists(s: seq<nat>) returns (m: nat)
    requires s != []
    ensures m < |s| && forall i :: 0 <= i < |s| ==> s[m] <= s[i]
  {
    m := 0;
    if |s| > 1 {
      var k := SmallestExists(s[1..]);
      if s[1 + k] < s[0] {
        m := 1 + k;
      }
      assert forall i :: 1 <= i < |s| ==> s[i] == s[1..][i - 1];
    }
  }

  lemma {:induction false} NthExists(s: seq<nat>, k: nat) returns (v: nat)
    requires k < |s|
    ensures IsNth(s, k, v)
  {
    var m := SmallestExists(s);
    if k == 0 {
      v := s[m];
      NoneBelow(s, v);
      SomeAtMost(s, v);
    } else {
      v := NthExists(s[..m] + s[m + 1..], k - 1);
      NthWithoutSmallest(s, m, k, v);
    }
  }

  /** With more newer clocks than entries to keep, the cutoff is above `c`. */
  lemma CutoffAbove(y: State, c: nat, limit: nat) returns (cutoff: nat)
    requires Inv(y, limit) && ScanComplete(y) && Newer(y.phase.clocks, c) > EntriesToKeep(limit)
    ensures Enabled(y, Select(cutoff), limit) && !Underflows(y, Select(cutoff), limit) && c < cutoff
  {
    var clocks := y.phase.clocks;
    var index := CutoffIndex(|clocks|, limit);
    cutoff := NthExists(clocks, index);
    if cutoff <= c {
      AtMostGrows(clocks, cutoff, c);
    }
  }

  lemma {:induction false} TrimLoses(y: State, e: Entry, limit: nat) returns (actions: seq<Action>, z: State)
    requires y.phase.Removing? && y.phase.shard <= e.shard < |y.shards| && e.key in y.shards[e.shard]
    requires y.shards[e.shard][e.key] <= y.phase.cutoff
    ensures Reaches(y, actions, z, limit) && SameCleanup(actions) && e.shard < |z.shards| && e.key !in z.shards[e.shard]
    decreases e.shard - y.phase.shard
  {
    var m := Apply(y, Trim, limit);
    if y.phase.shard == e.shard {
      actions, z := [Trim], m;
      assert actions[1..] == [];
    } else {
      var rest;
      rest, z := TrimLoses(m, e, limit);
      actions := [Trim] + rest;
      assert actions[1..] == rest;
    }
  }

  lemma {:induction false} BoundOf(keys: set<nat>) returns (base: nat)
    ensures forall k :: k in keys ==> k < base
  {
    base := 0;
    if keys != {} {
      var k :| k in keys;
      var rest := keys - {k};
      base := BoundOf(rest);
      assert forall j :: j in keys ==> j == k || j in rest;
      if base <= k {
        base := k + 1;
      }
    }
  }

  /** While a shard is left to scan, requests there can push the cutoff above any earlier request. */
  lemma ScanLoses(y: State, e: Entry, limit: nat) returns (actions: seq<Action>, z: State)
    requires Inv(y, limit) && y.phase.Scanning? && y.phase.shard < |y.shards|
    requires e.shard < |y.shards| && e.key in y.shards[e.shard]
    ensures Reaches(y, actions, z, limit) && SameCleanup(actions) && e.shard < |z.shards| && e.key !in z.shards[e.shard]
  {
    var c := y.shards[e.shard][e.key];
    var before, requested := RequestMany(y, c, limit);
    var select, removing := SelectAbove(requested, c, limit);
    var trims;
    trims, z := TrimLoses(removing, e, limit);
    RunsCompose(y, before, requested, select, removing, limit);
    RunsCompose(y, before + select, removing, trims, z, limit);
    actions := before + select + trims;
  }

  /** Requests that put more newer clocks than entries to keep into the last shard. */
  lemma RequestMany(y: State, c: nat, limit: nat) returns (actions: seq<Action>, z: State)
    requires Inv(y, limit) && y.phase.Scanning? && y.shards != [] && c <= y.clock
    ensures Reaches(y, actions, z, limit) && SameCleanup(actions) && Inv(z, limit) && z.phase == y.phase
    ensures |z.shards| == |y.shards|
    ensures var last := z.shards[|z.shards| - 1]; |last| - |Old(last, c)| > EntriesToKeep(limit)
    ensures forall i, k :: 0 <= i < |y.shards| && k in y.shards[i] ==>
      k in z.shards[i] && z.shards[i][k] == y.shards[i][k]
  {
    var j := |y.shards| - 1;
    var base := BoundOf(y.shards[j].Keys);
    actions, z := NewRequests(y, j, base, EntriesToKeep(limit) + 1, c, limit);
    CleanupKeepsRecent(y, actions, z, limit);
    SubsetSize(Old(y.shards[j], c), y.shards[j].Keys);
    assert |y.shards[j].Keys| == |y.shards[j]|;
  }

  /** The rest of the scan and a cutoff above `c`. */
  lemma SelectAbove(y: State, c: nat, limit: nat) returns (actions: seq<Action>, z: State)
    requires Inv(y, limit) && y.phase.Scanning? && y.phase.shard < |y.shards|
    requires var last := y.shards[|y.shards| - 1]; |last| - |Old(last, c)| > EntriesToKeep(limit)
    ensures Reaches(y, actions, z, limit) && SameCleanup(actions) && z.shards == y.shards
    ensures z.phase.Removing? && z.phase.shard == 0 && c < z.phase.cutoff
  {
    var scans, scanned := ScanRest(y, c, limit);
    var cutoff := CutoffAbove(scanned, c, limit);
    z := Apply(scanned, Select(cutoff), limit);
    RunFrom(scanned, Select(cutoff), z, [], z, limit);
    assert [Select(cutoff)] + [] == [Select(cutoff)];
    RunsCompose(y, scans, scanned, [Select(cutoff)], z, limit);
    actions := scans + [Select(cutoff)];
  }

  /**
   A request made while the clocks are scanned is kept by that cleanup, whatever else happens, if and only
   if no shard is left to scan.
   */
  lemma ScanRequestLastsIff(y: State, i: nat, key: nat, limit: nat)
    requires Inv(y, limit) && y.phase.Scanning? && i < |y.shards|
    ensures Lasts(Apply(y, Request(i, key), limit), Entry(i, key), limit) <==> y.phase.shard == |y.shards|
  {
    var m, e := Apply(y, Request(i, key), limit), Entry(i, key);
    ApplyKeepsInv(y, Request(i, key), limit);
    RequestHolds(y, i, key, limit);
    if y.phase.shard == |y.shards| {
      forall actions, z | Reaches(m, actions, z, limit) && SameCleanup(actions)
        ensures e.shard < |z.shards| && e.key in z.shards[e.shard]
      {
        HeldLasts(m, e, actions, z, limit);
      }
    } else {
      var actions, z := ScanLoses(m, e, limit);
      assert !Lasts(m, e, limit);
    }
  }
}
