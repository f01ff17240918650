/**
 Every run of one admission with other writers, removals, evictions and metadata rounds between its lock
 regions: the attempt under the metadata lock and the sample under the index lock.
 */
module AdmissionRuns {
  import opened Layout
  import opened Metadata
  import opened ShardModel
  import opened Publication
  import opened Allocation
  import opened DiskIndex
  import opened Retention
  import opened Admission
  import opened EvictedChunks
  import opened CrashModel
  import CrashSafety
  import Runs

  /** A write that needs `required` chunks and slots for `entryCount` records. `id` becomes its reservation. */
  datatype Request = Request(id: nat, required: nat, entryCount: nat, sampleSize: nat)

  ghost predicate ValidRequest(r: Request) {
    0 < r.entryCount <= MAX_BATCH && r.sampleSize > 0
  }

  /** `GaveUp` says what the admission found: the samples it could take, and the length of the chain. */
  datatype Stage = Trying | Choosing | Reserved(start: nat) | GaveUp(from: Sampling, chunks: nat)

  /**
   `rounds` are the samples taken so far, each with what it was taken from, and `freed` the number of chunks that
   stopped being held when they evicted.
   */
  datatype State = State(sys: System, candidates: seq<nat>, cursor: nat, stage: Stage, attempts: nat, budget: nat,
                         rounds: seq<Round>, freed: nat)

  /** `Elsewhere` is any step of others, which may leave the candidates and the cursor anywhere. */
  datatype Step =
    | Attempt
    | Choose(victim: Option<nat>, candidates: seq<nat>)
    | Elsewhere(action: Action, candidates: seq<nat>, cursor: nat)

  ghost function From(y: State): Sampling {
    Sampling(y.sys.shard.index, y.candidates, y.cursor, y.budget)
  }

  /** No sample may be taken. */
  ghost predicate Exhausted(y: State) {
    y.attempts == 0 || y.budget == 0 || y.candidates == []
  }

  ghost predicate StepEnabled(g: Config, r: Request, score: (nat, nat) -> int, y: State, s: Step)
    requires ValidConfig(g)
  {
    match s
    case Attempt => y.stage.Trying?
    case Choose(victim, candidates) =>
      y.stage.Choosing? && (Exhausted(y) || Chooses(r, score, y, victim, candidates))
    case Elsewhere(a, _, _) => Enabled(g, y.sys, a) && !a.Reopen? && (a.ReserveChunks? ==> a.id != r.id)
  }

  ghost predicate Chooses(r: Request, score: (nat, nat) -> int, y: State, victim: Option<nat>, candidates: seq<nat>) {
    && EvictsLowest(Round(From(y), victim), r.sampleSize, score)
    && if victim.None? then candidates == y.candidates else SwapRemoved(y.candidates, victim.value, candidates)
  }

  ghost function AfterAttempt(g: Config, r: Request, y: State): State {
    var s, start := y.sys.shard, AttemptStart(y.sys.shard, r.entryCount, r.required);
    var after := Attempted(s, r.entryCount, start, r.required);
    if start.Some? then
      var flights := y.sys.flights[r.id := Range(start.value, start.value + r.required)];
      y.(sys := y.sys.(shard := after, flights := flights), stage := Reserved(start.value))
    else
      y.(sys := y.sys.(shard := after),
         stage := if MayEvict(g, after, r.required) then Choosing else GaveUp(From(y), |after.chain|))
  }

  ghost function AfterRound(r: Request, y: State, victim: Option<nat>, candidates: seq<nat>): State {
    var round := Round(From(y), victim);
    var after := if victim.Some? then RemoveEntry(y.sys.shard, victim.value) else y.sys.shard;
    State(y.sys.(shard := after), candidates, NextCursor(y.cursor, |y.candidates|, r.sampleSize), Trying,
          if y.attempts > 0 then y.attempts - 1 else 0,
          if Spent(round) <= y.budget then y.budget - Spent(round) else 0, y.rounds + [round],
          y.freed + |HeldChunks(y.sys.shard) - HeldChunks(after)|)
  }

  ghost function StepApply(g: Config, r: Request, score: (nat, nat) -> int, y: State, s: Step): State
    requires ValidConfig(g) && FullSized(y.sys.shard.chain) && StepEnabled(g, r, score, y, s)
  {
    match s
    case Attempt => AfterAttempt(g, r, y)
    case Choose(victim, candidates) =>
      if Exhausted(y) then y.(stage := GaveUp(From(y), |y.sys.shard.chain|)) else AfterRound(r, y, victim, candidates)
    case Elsewhere(a, candidates, cursor) => y.(sys := Apply(g, y.sys, a), candidates := candidates, cursor := cursor)
  }

  // ---------------------------------------------------------------- the shard

  ghost predicate Sound(g: Config, r: Request, y: State)
    requires ValidConfig(g)
  {
    ShardOk(g, y.sys) && (y.stage.Trying? || y.stage.Choosing? ==> r.id !in y.sys.flights)
  }

  /** An attempt grows the chain and then reserves, as two actions of the shard. */
  lemma AttemptIsRun(g: Config, r: Request, y: State) returns (actions: seq<Action>)
    requires ValidConfig(g) && ValidRequest(r) && Sound(g, r, y) && y.stage.Trying?
    ensures Runs.Reaches(g, y.sys, actions, AfterAttempt(g, r, y).sys)
  {
    var start := AttemptStart(y.sys.shard, r.entryCount, r.required);
    var grown := Apply(g, y.sys, Grow(r.entryCount));
    ApplyKeepsShard(g, y.sys, Grow(r.entryCount));
    if start.None? {
      actions := [Grow(r.entryCount)];
      assert actions[1..] == [];
    } else {
      var reserve := ReserveChunks(r.id, Range(start.value, start.value + r.required));
      GrownReserves(g, r, y, start.value);
      ApplyKeepsShard(g, grown, reserve);
      actions := [Grow(r.entryCount), reserve];
      assert actions[1..] == [reserve] && [reserve][1..] == [];
      assert Runs.Reaches(g, grown, [reserve], Apply(g, grown, reserve));
    }
  }

  lemma GrownReserves(g: Config, r: Request, y: State, start: nat)
    requires ValidConfig(g) && ValidRequest(r) && Sound(g, r, y) && y.stage.Trying?
    requires AttemptStart(y.sys.shard, r.entryCount, r.required) == Some(start)
    ensures Enabled(g, Apply(g, y.sys, Grow(r.entryCount)), ReserveChunks(r.id, Range(start, start + r.required)))
  {
    EnsureFreeSlotsKeepsInv(g, y.sys.shard, y.sys.flights, r.entryCount);
  }

  /** Each step of the admission is a run of the shard, and so is each step of others. */
  lemma StepIsRun(g: Config, r: Request, score: (nat, nat) -> int, y: State, s: Step) returns (actions: seq<Action>)
    requires ValidConfig(g) && ValidRequest(r) && Sound(g, r, y) && StepEnabled(g, r, score, y, s)
    ensures Runs.Reaches(g, y.sys, actions, StepApply(g, r, score, y, s).sys)
  {
    match s
    case Attempt => actions := AttemptIsRun(g, r, y);
    case Choose(victim, _) =>
      actions := [];
      if !Exhausted(y) && victim.Some? {
        actions := [RemoveKey(victim.value)];
        OneAction(g, y.sys, RemoveKey(victim.value));
      }
    case Elsewhere(a, _, _) =>
      actions := [a];
      OneAction(g, y.sys, a);
  }

  lemma OneAction(g: Config, y: System, a: Action)
    requires ValidConfig(g) && ShardOk(g, y) && Enabled(g, y, a)
    ensures Runs.Reaches(g, y, [a], Apply(g, y, a))
  {
    ApplyKeepsShard(g, y, a);
    assert [a][1..] == [];
  }

  lemma StepKeepsSound(g: Config, r: Request, score: (nat, nat) -> int, y: State, s: Step)
    requires ValidConfig(g) && ValidRequest(r) && Sound(g, r, y) && StepEnabled(g, r, score, y, s)
    ensures Sound(g, r, StepApply(g, r, score, y, s))
  {
    var actions := StepIsRun(g, r, score, y, s);
    Runs.ShardInvariant(g, y.sys, actions, StepApply(g, r, score, y, s).sys);
  }

  ghost predicate Reaches(g: Config, r: Request, score: (nat, nat) -> int, y: State, steps: seq<Step>, z: State)
    requires ValidConfig(g) && ValidRequest(r) && Sound(g, r, y)
    decreases |steps|
  {
    if steps == [] then z == y
    else StepEnabled(g, r, score, y, steps[0]) && ReachesNext(g, r, score, y, steps, z)
  }

  ghost predicate ReachesNext(g: Config, r: Request, score: (nat, nat) -> int, y: State, steps: seq<Step>, z: State)
    requires ValidConfig(g) && ValidRequest(r) && Sound(g, r, y)
    requires steps != [] && StepEnabled(g, r, score, y, steps[0])
    decreases |steps|, 0
  {
    StepKeepsSound(g, r, score, y, steps[0]);
    Reaches(g, r, score, StepApply(g, r, score, y, steps[0]), steps[1..], z)
  }

  // ---------------------------------------------------------------- what every step keeps

  /** The chunks that the rounds evicted, counted when they did. */
  ghost function Evicted(rounds: seq<Round>): nat {
    if rounds == [] then 0 else Evicted(rounds[..|rounds| - 1]) + Spent(rounds[|rounds| - 1])
  }

  /** Round `i` evicted the lowest sampled entry within what the earlier rounds left of the budget. */
  ghost predicate RoundOk(r: Request, score: (nat, nat) -> int, rounds: seq<Round>, i: nat)
    requires i < |rounds|
  {
    && EvictsLowest(rounds[i], r.sampleSize, score)
    && rounds[i].from.budget + Evicted(rounds[..i]) == MAX_EVICTION_CHUNKS
  }

  /** Why the admission gave up. */
  ghost predicate Excused(g: Config, r: Request, y: State) {
    y.stage.GaveUp? ==>
      || |y.rounds| == MAX_EVICTION_ATTEMPTS || Evicted(y.rounds) == MAX_EVICTION_CHUNKS
      || y.stage.from.candidates == [] || TooLarge(g, r, y.stage.chunks)
  }

  /** Chunks of the chain that make the request too large for any eviction. */
  ghost predicate TooLarge(g: Config, r: Request, chunks: nat) {
    r.required > g.hi - g.lo - chunks
  }

  ghost predicate Bounded(g: Config, r: Request, score: (nat, nat) -> int, chunks: nat, y: State) {
    && y.attempts + |y.rounds| == MAX_EVICTION_ATTEMPTS && y.budget + Evicted(y.rounds) == MAX_EVICTION_CHUNKS
    && (forall i :: 0 <= i < |y.rounds| ==> RoundOk(r, score, y.rounds, i))
    && Excused(g, r, y) && chunks <= |y.sys.shard.chain|
    && (TooLarge(g, r, chunks) ==> y.rounds == [] && !y.stage.Choosing?)
  }

  lemma ChainGrows(g: Config, y: System, a: Action)
    requires ValidConfig(g) && ShardOk(g, y) && Enabled(g, y, a) && !a.Reopen?
    ensures |y.shard.chain| <= |Apply(g, y, a).shard.chain|
  {
    match a
    case PublishBatch(id, batch) => CrashSafety.PublishGrows(y.shard, y.flights[id], batch);
    case RemoveKey(key) => RemoveChain(y.shard, key);
    case _ =>
  }

  lemma RemoveChain(s: Shard, key: nat)
    ensures |RemoveEntry(s, key).chain| == |s.chain|
  {
  }

  lemma RoundsPush(r: Request, score: (nat, nat) -> int, rounds: seq<Round>, round: Round)
    requires forall i :: 0 <= i < |rounds| ==> RoundOk(r, score, rounds, i)
    requires EvictsLowest(round, r.sampleSize, score) && round.from.budget + Evicted(rounds) == MAX_EVICTION_CHUNKS
    ensures Evicted(rounds + [round]) == Evicted(rounds) + Spent(round)
    ensures forall i :: 0 <= i < |rounds + [round]| ==> RoundOk(r, score, rounds + [round], i)
  {
    var longer := rounds + [round];
    assert longer[..|rounds|] == rounds;
    forall i | 0 <= i < |longer| ensures RoundOk(r, score, longer, i) {
      if i < |rounds| {
        assert RoundOk(r, score, rounds, i) && longer[..i] == rounds[..i];
      }
    }
  }

  lemma RoundBounded(g: Config, r: Request, score: (nat, nat) -> int, chunks: nat, y: State,
                     victim: Option<nat>, candidates: seq<nat>)
    requires ValidConfig(g) && Sound(g, r, y) && Bounded(g, r, score, chunks, y) && y.stage.Choosing? && !Exhausted(y)
    requires Chooses(r, score, y, victim, candidates)
    ensures Bounded(g, r, score, chunks, AfterRound(r, y, victim, candidates))
  {
    RoundsPush(r, score, y.rounds, Round(From(y), victim));
    if victim.Some? {
      EvictKeepsInv(g, y.sys.shard, y.sys.flights, victim.value);
    }
  }

  lemma AttemptBounded(g: Config, r: Request, score: (nat, nat) -> int, chunks: nat, y: State)
    requires Bounded(g, r, score, chunks, y) && y.stage.Trying?
    ensures Bounded(g, r, score, chunks, AfterAttempt(g, r, y))
  {
    AttemptFrame(y.sys.shard, r.entryCount, AttemptStart(y.sys.shard, r.entryCount, r.required), r.required);
  }

  lemma StepBounded(g: Config, r: Request, score: (nat, nat) -> int, chunks: nat, y: State, s: Step)
    requires ValidConfig(g) && ValidRequest(r) && Sound(g, r, y) && StepEnabled(g, r, score, y, s)
    requires Bounded(g, r, score, chunks, y)
    ensures Bounded(g, r, score, chunks, StepApply(g, r, score, y, s))
  {
    match s
    case Attempt => AttemptBounded(g, r, score, chunks, y);
    case Choose(victim, candidates) =>
      if !Exhausted(y) {
        RoundBounded(g, r, score, chunks, y, victim, candidates);
      }
    case Elsewhere(a, _, _) => ChainGrows(g, y.sys, a);
  }

  lemma {:induction false} RunBounded(g: Config, r: Request, score: (nat, nat) -> int, chunks: nat, y: State,
                                      steps: seq<Step>, z: State)
    requires ValidConfig(g) && ValidRequest(r) && Sound(g, r, y) && Bounded(g, r, score, chunks, y)
    requires Reaches(g, r, score, y, steps, z)
    ensures Sound(g, r, z) && Bounded(g, r, score, chunks, z)
    decreases |steps|
  {
    if steps != [] {
      StepKeepsSound(g, r, score, y, steps[0]);
      StepBounded(g, r, score, chunks, y, steps[0]);
      RunBounded(g, r, score, chunks, StepApply(g, r, score, y, steps[0]), steps[1..], z);
    }
  }

  // ---------------------------------------------------------------- the chunks that the samples freed

  ghost predicate FreedWithin(y: State) {
    Compact(y.sys.shard) && y.freed <= Evicted(y.rounds)
  }

  lemma RoundFrees(g: Config, r: Request, y: State, victim: Option<nat>, candidates: seq<nat>)
    requires ValidConfig(g) && Sound(g, r, y) && FreedWithin(y)
    requires victim.Some? ==> victim.value in y.sys.shard.index
    ensures FreedWithin(AfterRound(r, y, victim, candidates))
  {
    var z := AfterRound(r, y, victim, candidates);
    assert z.rounds[..|y.rounds|] == y.rounds;
    if victim.Some? {
      EvictionFrees(g, y.sys.shard, y.sys.flights, victim.value);
    } else {
      FreesNothing(y.sys.shard, z.sys.shard);
    }
  }

  lemma StepFrees(g: Config, r: Request, score: (nat, nat) -> int, y: State, s: Step)
    requires ValidConfig(g) && ValidRequest(r) && Sound(g, r, y) && StepEnabled(g, r, score, y, s) && FreedWithin(y)
    ensures FreedWithin(StepApply(g, r, score, y, s))
  {
    match s
    case Attempt =>
      AttemptFrees(y.sys.shard, r.entryCount, AttemptStart(y.sys.shard, r.entryCount, r.required), r.required);
    case Choose(victim, candidates) =>
      if !Exhausted(y) {
        RoundFrees(g, r, y, victim, candidates);
      }
    case Elsewhere(a, _, _) => ApplyCompact(g, y.sys, a);
  }

  lemma {:induction false} RunFrees(g: Config, r: Request, score: (nat, nat) -> int, y: State,
                                    steps: seq<Step>, z: State)
    requires ValidConfig(g) && ValidRequest(r) && Sound(g, r, y) && FreedWithin(y) && Reaches(g, r, score, y, steps, z)
    ensures FreedWithin(z)
    decreases |steps|
  {
    if steps != [] {
      StepKeepsSound(g, r, score, y, steps[0]);
      StepFrees(g, r, score, y, steps[0]);
      RunFrees(g, r, score, StepApply(g, r, score, y, steps[0]), steps[1..], z);
    }
  }

  // ---------------------------------------------------------------- every run

  ghost predicate Started(r: Request, y: State) {
    && y.stage.Trying? && y.attempts == MAX_EVICTION_ATTEMPTS && y.budget == MAX_EVICTION_CHUNKS && y.rounds == []
    && y.freed == 0 && r.id !in y.sys.flights
  }

  /** Steps of the admission itself. */
  ghost function OwnSteps(steps: seq<Step>): nat {
    if steps == [] then 0 else (if steps[0].Elsewhere? then 0 else 1) + OwnSteps(steps[1..])
  }

  ghost function Rank(y: State): nat {
    2 * |y.rounds| + match y.stage
      case Trying => 0
      case Choosing => 1
      case Reserved(_) => 1
      case GaveUp(_, _) => 2
  }

  lemma {:induction false} OwnStepsBounded(g: Config, r: Request, score: (nat, nat) -> int, y: State,
                                           steps: seq<Step>, z: State)
    requires ValidConfig(g) && ValidRequest(r) && Sound(g, r, y) && Reaches(g, r, score, y, steps, z)
    ensures OwnSteps(steps) + Rank(y) <= Rank(z)
    decreases |steps|
  {
    if steps != [] {
      StepKeepsSound(g, r, score, y, steps[0]);
      OwnStepsBounded(g, r, score, StepApply(g, r, score, y, steps[0]), steps[1..], z);
    }
  }

  /**
   Whatever others do between its lock regions: an admission takes at most 64 samples and ends within 130 regions
   of its own; each sample evicts the first lowest-scoring sampled entry that fits what is left of 4096 chunks;
   the samples free no more chunks than they are charged, if entries cover their reservations; it gives up only for
   a reason; and it evicts nothing when metadata leaves too few chunks for the request.
   */
  lemma AdmissionBounds(g: Config, r: Request, score: (nat, nat) -> int, y: State, steps: seq<Step>, z: State)
    requires ValidConfig(g) && ValidRequest(r) && Sound(g, r, y) && Started(r, y)
    requires Reaches(g, r, score, y, steps, z)
    ensures ShardOk(g, z.sys)
    ensures |z.rounds| <= MAX_EVICTION_ATTEMPTS && OwnSteps(steps) <= 2 * MAX_EVICTION_ATTEMPTS + 2
    ensures Evicted(z.rounds) <= MAX_EVICTION_CHUNKS
    ensures Compact(y.sys.shard) ==> z.freed <= Evicted(z.rounds)
    ensures forall i :: 0 <= i < |z.rounds| ==> RoundOk(r, score, z.rounds, i)
    ensures Excused(g, r, z)
    ensures !MayEvict(g, y.sys.shard, r.required) ==> z.rounds == []
  {
    RunBounded(g, r, score, |y.sys.shard.chain|, y, steps, z);
    OwnStepsBounded(g, r, score, y, steps, z);
    if Compact(y.sys.shard) {
      RunFrees(g, r, score, y, steps, z);
    }
  }

  /** With whatever is interleaved, the admission is a run of the shard, so every theorem about those holds for it. */
  lemma {:induction false} AdmissionIsRun(g: Config, r: Request, score: (nat, nat) -> int, y: State,
                                          steps: seq<Step>, z: State)
    returns (actions: seq<Action>)
    requires ValidConfig(g) && ValidRequest(r) && Sound(g, r, y) && Reaches(g, r, score, y, steps, z)
    ensures Runs.Reaches(g, y.sys, actions, z.sys)
    decreases |steps|
  {
    if steps == [] {
      actions := [];
    } else {
      var m := StepApply(g, r, score, y, steps[0]);
      var first := StepIsRun(g, r, score, y, steps[0]);
      StepKeepsSound(g, r, score, y, steps[0]);
      var rest := AdmissionIsRun(g, r, score, m, steps[1..], z);
      Runs.RunsCompose(g, y.sys, first, m.sys, rest, z.sys);
      actions := first + rest;
    }
  }

  /** A successful attempt takes the lowest run that fits, for this write alone. */
  lemma AttemptReserves(g: Config, r: Request, y: State)
    requires ValidConfig(g) && ValidRequest(r) && Sound(g, r, y) && y.stage.Trying?
    ensures
      var z := AfterAttempt(g, r, y);
      var start := if z.stage.Reserved? then Some(z.stage.start) else None;
      && LowestWas(z.sys.shard.free, start, r.required)
      && (start.Some? ==> z.sys.flights == y.sys.flights[r.id := Range(start.value, start.value + r.required)])
      && (start.None? ==> z.sys.flights == y.sys.flights)
  {
    AttemptLowest(y.sys.shard, r.entryCount, r.required, AttemptStart(y.sys.shard, r.entryCount, r.required));
  }
}
