/**
 Single-flight fetches: callers that miss the same key share one fetch through a registry of weak
 references. Fetches are numbered by allocation. A weak reference keeps the allocation's address from
 being reused, so comparing addresses in the registry compares these numbers.
 */
module PendingFetches {
  import opened Layout

  /** Object key and error type. */
  datatype Key = Key(hash: nat, error: nat)

  datatype Fetch = Fetch(key: Key, result: Option<nat>)

  /** A caller holds its fetch while it waits and until it returns or is cancelled. */
  datatype Caller = Waiting(fetch: nat) | Removed(fetch: nat)

  /** A fetch stays in `fetches` until its drop has run. `joined` and `returned` are every caller's fetch and result. */
  datatype State = State(fetches: map<nat, Fetch>, callers: map<nat, Caller>, registry: map<Key, nat>,
                         next: nat, joined: map<nat, nat>, results: map<nat, nat>, returned: map<nat, nat>)

  datatype Action =
    | Join(caller: nat, key: Key) | Finish(fetch: nat, value: nat)
    | Remove(caller: nat) | Leave(caller: nat) | DropFetch(fetch: nat)

  /** Whether a weak reference to the fetch can still be upgraded. */
  ghost predicate Held(y: State, id: nat) {
    exists c :: c in y.callers && y.callers[c].fetch == id
  }

  /** Removes `id` from the registry, but not a newer fetch of the same key. */
  function RemoveFromRegistry(registry: map<Key, nat>, key: Key, id: nat): (after: map<Key, nat>)
    ensures forall k :: k in after <==> k in registry && (k == key ==> registry[k] != id)
    ensures forall k :: k in after ==> after[k] == registry[k]
  {
    if key in registry && registry[key] == id then registry - {key} else registry
  }

  ghost predicate Enabled(y: State, a: Action) {
    match a
    case Join(c, _) => c !in y.joined
    case Finish(id, _) => id in y.fetches && y.fetches[id].result.None? && Held(y, id)
    case Remove(c) =>
      && c in y.callers && y.callers[c].Waiting? && y.callers[c].fetch in y.fetches
      && y.fetches[y.callers[c].fetch].result.Some?
    case Leave(c) => c in y.callers
    case DropFetch(id) => id in y.fetches && !Held(y, id)
  }

  ghost function Apply(y: State, a: Action): State
    requires Enabled(y, a)
  {
    match a
    case Join(c, key) =>
      if key in y.registry && Held(y, y.registry[key]) then
        var id := y.registry[key];
        y.(callers := y.callers[c := Waiting(id)], joined := y.joined[c := id])
      else
        y.(fetches := y.fetches[y.next := Fetch(key, None)], callers := y.callers[c := Waiting(y.next)],
           registry := y.registry[key := y.next], next := y.next + 1, joined := y.joined[c := y.next])
    case Finish(id, value) =>
      y.(fetches := y.fetches[id := y.fetches[id].(result := Some(value))], results := y.results[id := value])
    case Remove(c) =>
      var id := y.callers[c].fetch;
      y.(callers := y.callers[c := Removed(id)], registry := RemoveFromRegistry(y.registry, y.fetches[id].key, id))
    case Leave(c) =>
      var id := y.callers[c].fetch;
      y.(callers := y.callers - {c},
         returned := if y.callers[c].Removed? && id in y.results then y.returned[c := y.results[id]] else y.returned)
    case DropFetch(id) =>
      y.(fetches := y.fetches - {id}, registry := RemoveFromRegistry(y.registry, y.fetches[id].key, id))
  }

  ghost predicate Reaches(y: State, actions: seq<Action>, z: State)
    decreases |actions|
  {
    if actions == [] then z == y
    else Enabled(y, actions[0]) && Reaches(Apply(y, actions[0]), actions[1..], z)
  }

  const START := State(map[], map[], map[], 0, map[], map[], map[])

  // ---------------------------------------------------------------- what every step keeps

  /** A fetch that runs: someone waits for it and it has no result. */
  ghost predicate Runs(y: State, id: nat) {
    id in y.fetches && y.fetches[id].result.None? && Held(y, id)
  }

  ghost predicate Registered(y: State) {
    && (forall k :: k in y.registry ==> y.registry[k] in y.fetches && y.fetches[y.registry[k]].key == k)
    && (forall id :: Runs(y, id) ==> y.fetches[id].key in y.registry && y.registry[y.fetches[id].key] == id)
  }

  ghost predicate ResultsRecorded(y: State) {
    && (forall id :: id in y.fetches ==> id < y.next)
    && (forall id :: id in y.results ==> id < y.next)
    && (forall id :: id in y.fetches ==> y.fetches[id].result == if id in y.results then Some(y.results[id]) else None)
  }

  ghost predicate CallersRecorded(y: State) {
    && (forall c :: c in y.callers ==> c in y.joined && y.joined[c] == y.callers[c].fetch && y.joined[c] in y.fetches)
    && (forall c :: c in y.callers && y.callers[c].Removed? ==> y.callers[c].fetch in y.results)
    && (forall c :: c in y.returned ==>
          c in y.joined && c !in y.callers && y.joined[c] in y.results && y.returned[c] == y.results[y.joined[c]])
  }

  ghost predicate Recorded(y: State) {
    ResultsRecorded(y) && CallersRecorded(y)
  }

  ghost predicate Inv(y: State) {
    Registered(y) && Recorded(y)
  }

  lemma HeldAfter(y: State, z: State)
    requires forall c :: c in z.callers ==> c in y.callers && y.callers[c].fetch == z.callers[c].fetch
    ensures forall id :: Held(z, id) ==> Held(y, id)
  {
  }

  lemma JoinKeepsRegistered(y: State, c: nat, key: Key)
    requires Inv(y) && Enabled(y, Join(c, key))
    ensures Registered(Apply(y, Join(c, key)))
  {
    var z := Apply(y, Join(c, key));
    forall id | Runs(z, id) ensures z.fetches[id].key in z.registry && z.registry[z.fetches[id].key] == id {
      var d :| d in z.callers && z.callers[d].fetch == id;
      if id in y.fetches && (d != c || id != y.next) {
        assert Held(y, id) by {
          if d != c {
            assert d in y.callers && y.callers[d].fetch == id;
          }
        }
        assert Runs(y, id);
      }
    }
  }

  lemma RegistryKept(y: State, a: Action)
    requires Inv(y) && Enabled(y, a) && !a.Join?
    ensures Registered(Apply(y, a))
  {
    var z := Apply(y, a);
    HeldAfter(y, z);
    forall id | Runs(z, id) ensures z.fetches[id].key in z.registry && z.registry[z.fetches[id].key] == id {
      assert Runs(y, id);
    }
  }

  lemma ResultsKept(y: State, a: Action)
    requires ResultsRecorded(y) && Enabled(y, a)
    ensures ResultsRecorded(Apply(y, a))
  {
  }

  lemma CallersKept(y: State, a: Action)
    requires Recorded(y) && Enabled(y, a) && (a.Join? && a.key in y.registry ==> y.registry[a.key] in y.fetches)
    ensures CallersRecorded(Apply(y, a))
  {
    match a
    case Join(c, key) => JoinCallers(y, c, key);
    case DropFetch(id) => DropCallers(y, id);
    case _ =>
  }

  lemma JoinCallers(y: State, c: nat, key: Key)
    requires Recorded(y) && Enabled(y, Join(c, key)) && (key in y.registry ==> y.registry[key] in y.fetches)
    ensures CallersRecorded(Apply(y, Join(c, key)))
  {
  }

  lemma DropCallers(y: State, id: nat)
    requires CallersRecorded(y) && Enabled(y, DropFetch(id))
    ensures CallersRecorded(Apply(y, DropFetch(id)))
  {
    forall c | c in y.callers ensures y.callers[c].fetch != id {
      assert Held(y, y.callers[c].fetch);
    }
  }

  lemma ApplyKeepsInv(y: State, a: Action)
    requires Inv(y) && Enabled(y, a)
    ensures Inv(Apply(y, a))
  {
    ResultsKept(y, a);
    CallersKept(y, a);
    if a.Join? {
      JoinKeepsRegistered(y, a.caller, a.key);
    } else {
      RegistryKept(y, a);
    }
  }

  lemma {:induction false} RunKeepsInv(y: State, actions: seq<Action>, z: State)
    requires Inv(y) && Reaches(y, actions, z)
    ensures Inv(z)
    decreases |actions|
  {
    if actions != [] {
      ApplyKeepsInv(y, actions[0]);
      RunKeepsInv(Apply(y, actions[0]), actions[1..], z);
    }
  }

  // ---------------------------------------------------------------- single flight

  /**
   In every interleaving of joins, cancellations and completions: a running fetch is the registry's entry
   for its key, so no two fetches of a key run at once, and the registry is empty once all fetches are dropped.
   */
  lemma SingleFlight(actions: seq<Action>, z: State)
    requires Reaches(START, actions, z)
    ensures forall id :: Runs(z, id) ==> z.fetches[id].key in z.registry && z.registry[z.fetches[id].key] == id
    ensures forall a, b :: Runs(z, a) && Runs(z, b) && z.fetches[a].key == z.fetches[b].key ==> a == b
    ensures z.callers == map[] && (forall id :: !Enabled(z, DropFetch(id))) ==> z.registry == map[]
  {
    RunKeepsInv(START, actions, z);
    if z.callers == map[] && (forall id :: !Enabled(z, DropFetch(id))) && z.registry != map[] {
      var k :| k in z.registry;
      assert Enabled(z, DropFetch(z.registry[k]));
    }
  }

  /** A caller that joins while a fetch of its key runs gets that fetch, and otherwise starts one. */
  lemma JoinShares(actions: seq<Action>, z: State, c: nat, key: Key, id: nat)
    requires Reaches(START, actions, z) && Enabled(z, Join(c, key)) && Runs(z, id) && z.fetches[id].key == key
    ensures var after := Apply(z, Join(c, key));
      after.joined[c] == id && after.fetches == z.fetches && after.registry == z.registry
  {
    RunKeepsInv(START, actions, z);
  }

  lemma KeyKept(y: State, a: Action, id: nat)
    requires Recorded(y) && Enabled(y, a) && id in y.fetches && id in Apply(y, a).fetches
    ensures Apply(y, a).fetches[id].key == y.fetches[id].key
  {
  }

  lemma StaysRegistered(y: State, a: Action, id: nat)
    requires Inv(y) && Enabled(y, a) && Runs(y, id)
    ensures var z := Apply(y, a); Runs(z, id) ==> y.fetches[id].key in z.registry && z.registry[y.fetches[id].key] == id
  {
    ApplyKeepsInv(y, a);
    if Runs(Apply(y, a), id) {
      KeyKept(y, a, id);
    }
  }

  /** No step of an old fetch's caller, and not its drop, takes away a running fetch's registration. */
  lemma NewerFetchStays(actions: seq<Action>, z: State, a: Action, id: nat)
    requires Reaches(START, actions, z) && Enabled(z, a) && Runs(z, id) && Runs(Apply(z, a), id)
    ensures z.fetches[id].key in Apply(z, a).registry && Apply(z, a).registry[z.fetches[id].key] == id
  {
    RunKeepsInv(START, actions, z);
    StaysRegistered(z, a, id);
  }

  /** Callers that return have the one result of the fetch they joined. */
  lemma SharedResult(actions: seq<Action>, z: State, b: nat, c: nat)
    requires Reaches(START, actions, z) && b in z.returned && c in z.returned && b in z.joined && c in z.joined
    ensures z.joined[b] == z.joined[c] ==> z.returned[b] == z.returned[c]
    ensures z.joined[b] in z.results && z.returned[b] == z.results[z.joined[b]]
  {
    RunKeepsInv(START, actions, z);
  }

  /** A caller that waited for its fetch returns that fetch's result when it leaves; a cancelled one returns nothing. */
  lemma LeaveReturns(actions: seq<Action>, z: State, c: nat)
    requires Reaches(START, actions, z) && Enabled(z, Leave(c))
    ensures
      var after := Apply(z, Leave(c));
      if z.callers[c].Removed? then
        c in z.joined && z.joined[c] in z.results && after.returned == z.returned[c := z.results[z.joined[c]]]
      else after.returned == z.returned
  {
    RunKeepsInv(START, actions, z);
  }

  // ---------------------------------------------------------------- finished fetches are not joined

  /** Some caller of fetch `id` has its result. */
  ghost predicate Retired(y: State, id: nat) {
    exists c :: c in y.joined && y.joined[c] == id && (c in y.returned || (c in y.callers && y.callers[c].Removed?))
  }

  ghost predicate RetiredGone(y: State) {
    && (forall id: nat :: Retired(y, id) ==> id < y.next)
    && (forall k :: k in y.registry ==> !Retired(y, y.registry[k]))
  }

  lemma RetiredBy(y: State, a: Action, id: nat)
    requires Inv(y) && Enabled(y, a) && Retired(Apply(y, a), id)
    ensures Retired(y, id) || (a.Remove? && y.callers[a.caller].fetch == id)
  {
    var z := Apply(y, a);
    var c :| c in z.joined && z.joined[c] == id && (c in z.returned || (c in z.callers && z.callers[c].Removed?));
    if !(a.Remove? && a.caller == c) {
      assert c in y.joined && y.joined[c] == id;
    }
  }

  lemma RetiredGoneKept(y: State, a: Action)
    requires Inv(y) && RetiredGone(y) && Enabled(y, a)
    ensures RetiredGone(Apply(y, a))
  {
    var z := Apply(y, a);
    forall id: nat | Retired(z, id) ensures id < z.next {
      RetiredBy(y, a, id);
    }
    forall k | k in z.registry ensures !Retired(z, z.registry[k]) {
      if Retired(z, z.registry[k]) {
        RetiredBy(y, a, z.registry[k]);
      }
    }
  }

  lemma {:induction false} RunRetiredGone(y: State, actions: seq<Action>, z: State)
    requires Inv(y) && RetiredGone(y) && Reaches(y, actions, z)
    ensures RetiredGone(z)
    decreases |actions|
  {
    if actions != [] {
      ApplyKeepsInv(y, actions[0]);
      RetiredGoneKept(y, actions[0]);
      RunRetiredGone(Apply(y, actions[0]), actions[1..], z);
    }
  }

  /** In every run, a caller that joins after another one got its result does not get the fetch of that result. */
  lemma JoinIsFresh(actions: seq<Action>, z: State, c: nat, key: Key)
    requires Reaches(START, actions, z) && Enabled(z, Join(c, key))
    ensures !Retired(z, Apply(z, Join(c, key)).joined[c])
  {
    RunRetiredGone(START, actions, z);
  }

  // ---------------------------------------------------------------- the registry

  class FetchRegistry {
    var entries: map<Key, nat>

    constructor ()
      ensures entries == map[]
    {
      entries := map[];
    }

    /** `held` are the fetches that can be upgraded, and `unused` numbers a new one. */
    method Join(key: Key, held: set<nat>, unused: nat) returns (id: nat)
      modifies this
      ensures key in entries && entries[key] == id
      ensures key in old(entries) && old(entries)[key] in held ==> entries == old(entries)
      ensures !(key in old(entries) && old(entries)[key] in held) ==>
        id == unused && entries == old(entries)[key := unused]
    {
      if key in entries && entries[key] in held {
        return entries[key];
      }
      id := unused;
      entries := entries[key := id];
    }

    method Remove(key: Key, id: nat)
      modifies this
      ensures entries == RemoveFromRegistry(old(entries), key, id)
    {
      if key in entries && entries[key] == id {
        entries := entries - {key};
      }
    }
  }
}
