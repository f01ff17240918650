/**
 Admission of payload reads: 64 permits, a list of waiting reads, and fallthrough checks that are
 scheduled for every waiting read once 64 of them wait. A poll is split at its lock regions, so reads
 interleave between noticing a check, acquiring a permit and leaving the list.
 */
module ReadAdmission {
  import opened Layout

  const MAX_IN_FLIGHT_READS: nat := 64

  datatype Waiter = Waiter(id: nat, scheduled: bool)

  function Schedule(waiting: seq<Waiter>): seq<Waiter> {
    seq(|waiting|, k requires 0 <= k < |waiting| => waiting[k].(scheduled := true))
  }

  /** Adds a read, and schedules the checks of all if the list has become long enough. */
  function Enqueue(waiting: seq<Waiter>, id: nat): seq<Waiter> {
    var longer := waiting + [Waiter(id, false)];
    if |longer| >= MAX_IN_FLIGHT_READS then Schedule(longer) else longer
  }

  function SwapRemove(waiting: seq<Waiter>, k: nat): seq<Waiter>
    requires k < |waiting|
  {
    waiting[k := waiting[|waiting| - 1]][..|waiting| - 1]
  }

  ghost predicate Distinct(waiting: seq<Waiter>) {
    forall j, k :: 0 <= j < k < |waiting| ==> waiting[j].id != waiting[k].id
  }

  /** Position of read `id` in the list. */
  function Position(waiting: seq<Waiter>, id: nat): (k: nat)
    ensures k <= |waiting| && (k < |waiting| ==> waiting[k].id == id)
    ensures k == |waiting| ==> forall j :: 0 <= j < |waiting| ==> waiting[j].id != id
  {
    if waiting == [] || waiting[0].id == id then 0 else 1 + Position(waiting[1..], id)
  }

  ghost predicate Listed(waiting: seq<Waiter>, id: nat) {
    exists k :: 0 <= k < |waiting| && waiting[k].id == id
  }

  function Removed(waiting: seq<Waiter>, id: nat): seq<Waiter> {
    var k := Position(waiting, id);
    if k < |waiting| then SwapRemove(waiting, k) else waiting
  }

  predicate IsScheduled(waiting: seq<Waiter>, id: nat) {
    var k := Position(waiting, id);
    k < |waiting| && waiting[k].scheduled
  }

  /** The list as a queue lock protects it. */
  class WaitingReads {
    var waiting: seq<Waiter>

    constructor ()
      ensures waiting == []
    {
      waiting := [];
    }

    method Add(id: nat)
      modifies this
      ensures waiting == Enqueue(old(waiting), id)
    {
      waiting := waiting + [Waiter(id, false)];
      if |waiting| >= MAX_IN_FLIGHT_READS {
        ghost var all := waiting;
        var k := 0;
        while k < |waiting|
          invariant k <= |waiting| == |all|
          invariant forall j :: 0 <= j < |all| ==> waiting[j] == if j < k then all[j].(scheduled := true) else all[j]
        {
          if !waiting[k].scheduled {
            waiting := waiting[k := waiting[k].(scheduled := true)];
          }
          k := k + 1;
        }
        assert waiting == Schedule(all);
      }
    }

    /** Returns whether the read's check was scheduled. */
    method Take(id: nat) returns (scheduled: bool)
      requires Listed(waiting, id)
      modifies this
      ensures waiting == Removed(old(waiting), id) && scheduled == IsScheduled(old(waiting), id)
    {
      var k := 0;
      while waiting[k].id != id
        invariant k < |waiting|
        invariant Position(waiting, id) == k + Position(waiting[k..], id) < |waiting|
        decreases |waiting| - k
      {
        assert waiting[k + 1..] == waiting[k..][1..];
        k := k + 1;
      }
      scheduled := waiting[k].scheduled;
      waiting := waiting[k := waiting[|waiting| - 1]][..|waiting| - 1];
    }
  }

  // ---------------------------------------------------------------- the admission protocol

  /** `Acquired` and `Checking` are inside one poll. `Leaving` has given up but is still in the list. */
  datatype Stage = Missed | Waiting | Acquired | Checking | Reading | Leaving | Gone

  datatype Answer = Unasked | FallsThrough | Stays

  datatype Permit = NoPermit | Registered | Granted

  /**
   `answer` is what the read's own callback returned, `calls` how often it ran, and `scheduled` its flag when
   it left the list.
   */
  datatype Read = Read(stage: Stage, permit: Permit, answer: Answer, calls: nat, scheduled: bool)

  datatype State = State(available: nat, known: map<nat, Read>, waiting: seq<Waiter>)

  /** Where a returned permit goes: to a registered read if there is one. */
  datatype Action =
    | Arrive(id: nat) | Enter(id: nat) | Notice(id: nat, fall: bool, to: Option<nat>) | Poll(id: nat)
    | Take(id: nat) | Check(id: nat, fall: bool, to: Option<nat>)
    | Cancel(id: nat, to: Option<nat>) | Unlist(id: nat) | Finish(id: nat, to: Option<nat>)

  ghost predicate Receiver(y: State, id: nat, to: Option<nat>) {
    match to
    case Some(next) => next in y.known && next != id && y.known[next].permit.Registered?
    case None => forall next :: next in y.known && next != id ==> !y.known[next].permit.Registered?
  }

  ghost predicate At(y: State, id: nat, stage: Stage) {
    id in y.known && y.known[id].stage == stage
  }

  ghost predicate Enabled(y: State, a: Action) {
    match a
    case Arrive(id) => id !in y.known
    case Enter(id) => At(y, id, Missed)
    case Notice(id, _, to) =>
      At(y, id, Waiting) && y.known[id].answer.Unasked? && IsScheduled(y.waiting, id) && Receiver(y, id, to)
    case Poll(id) => At(y, id, Waiting)
    case Take(id) => At(y, id, Acquired)
    case Check(id, _, to) => At(y, id, Checking) && Receiver(y, id, to)
    case Cancel(id, to) => (At(y, id, Missed) || At(y, id, Waiting)) && Receiver(y, id, to)
    case Unlist(id) => At(y, id, Leaving)
    case Finish(id, to) => At(y, id, Reading) && Receiver(y, id, to)
  }

  function Answered(fall: bool): Answer {
    if fall then FallsThrough else Stays
  }

  /** Read `id` becomes `r`, which has no permit; a permit it had goes to `to`, or is available again. */
  ghost function GiveUp(y: State, id: nat, r: Read, to: Option<nat>): State
    requires id in y.known && (to.Some? ==> to.value in y.known)
  {
    var known := y.known[id := r.(permit := NoPermit)];
    if !y.known[id].permit.Granted? then y.(known := known)
    else if to.None? then y.(available := y.available + 1, known := known)
    else y.(known := known[to.value := y.known[to.value].(permit := Granted)])
  }

  ghost function Apply(y: State, a: Action): State
    requires Enabled(y, a)
  {
    match a
    case Arrive(id) =>
      if y.available > 0 then
        y.(available := y.available - 1, known := y.known[id := Read(Reading, Granted, Unasked, 0, false)])
      else y.(known := y.known[id := Read(Missed, NoPermit, Unasked, 0, false)])
    case Enter(id) =>
      y.(known := y.known[id := y.known[id].(stage := Waiting)], waiting := Enqueue(y.waiting, id))
    case Notice(id, fall, to) =>
      var asked := y.known[id].(answer := Answered(fall), calls := y.known[id].calls + 1);
      if fall then GiveUp(y, id, asked.(stage := Leaving), to) else y.(known := y.known[id := asked])
    case Poll(id) =>
      var r := y.known[id];
      if r.permit.Granted? then y.(known := y.known[id := r.(stage := Acquired)])
      else if y.available > 0 then
        y.(available := y.available - 1, known := y.known[id := r.(stage := Acquired, permit := Granted)])
      else y.(known := y.known[id := r.(permit := Registered)])
    case Take(id) =>
      var r := y.known[id].(scheduled := IsScheduled(y.waiting, id));
      y.(known := y.known[id := r.(stage := if r.scheduled && r.answer.Unasked? then Checking else Reading)],
         waiting := Removed(y.waiting, id))
    case Check(id, fall, to) =>
      var asked := y.known[id].(answer := Answered(fall), calls := y.known[id].calls + 1);
      if fall then GiveUp(y, id, asked.(stage := Gone), to) else y.(known := y.known[id := asked.(stage := Reading)])
    case Cancel(id, to) =>
      GiveUp(y, id, y.known[id].(stage := if y.known[id].stage.Missed? then Gone else Leaving), to)
    case Unlist(id) => y.(known := y.known[id := y.known[id].(stage := Gone)], waiting := Removed(y.waiting, id))
    case Finish(id, to) => GiveUp(y, id, y.known[id].(stage := Gone), to)
  }

  ghost predicate Reaches(y: State, actions: seq<Action>, z: State)
    decreases |actions|
  {
    if actions == [] then z == y
    else Enabled(y, actions[0]) && Reaches(Apply(y, actions[0]), actions[1..], z)
  }

  const START := State(MAX_IN_FLIGHT_READS, map[], [])

  // ---------------------------------------------------------------- what every step keeps

  ghost function Holders(known: map<nat, Read>): set<nat> {
    set id | id in known && known[id].permit.Granted?
  }

  ghost predicate Conserved(y: State) {
    y.available + |Holders(y.known)| == MAX_IN_FLIGHT_READS
  }

  /** A read in the list is waiting, has acquired a permit in this poll, or is leaving; and conversely. */
  ghost predicate ListMatches(y: State) {
    && Distinct(y.waiting)
    && forall id :: Listed(y.waiting, id) <==> At(y, id, Waiting) || At(y, id, Acquired) || At(y, id, Leaving)
  }

  ghost predicate AllScheduled(waiting: seq<Waiter>) {
    |waiting| >= MAX_IN_FLIGHT_READS ==> forall k :: 0 <= k < |waiting| ==> waiting[k].scheduled
  }

  ghost predicate ReadOk(r: Read) {
    && (r.calls == if r.answer.Unasked? then 0 else 1)
    && (r.permit.Granted? ==> r.stage.Waiting? || r.stage.Acquired? || r.stage.Checking? || r.stage.Reading?)
    && (r.stage.Acquired? || r.stage.Checking? || r.stage.Reading? ==> r.permit.Granted?)
    && (r.stage.Waiting? || r.stage.Acquired? || r.stage.Reading? ==> r.answer != FallsThrough)
    && (r.stage.Missed? || r.stage.Checking? ==> r.answer.Unasked?)
    && (r.stage.Reading? && r.scheduled ==> r.answer == Stays)
    && (r.permit.Registered? ==> r.stage.Waiting?)
  }

  ghost predicate Inv(y: State) {
    && Conserved(y) && ListMatches(y) && AllScheduled(y.waiting)
    && forall id :: id in y.known ==> ReadOk(y.known[id])
  }

  // ---------------------------------------------------------------- the list

  lemma EnqueueLists(waiting: seq<Waiter>, id: nat)
    requires Distinct(waiting) && !Listed(waiting, id) && AllScheduled(waiting)
    ensures Distinct(Enqueue(waiting, id)) && AllScheduled(Enqueue(waiting, id))
    ensures forall n :: Listed(Enqueue(waiting, id), n) <==> Listed(waiting, n) || n == id
    ensures forall n :: IsScheduled(waiting, n) ==> IsScheduled(Enqueue(waiting, id), n)
  {
    var after := Enqueue(waiting, id);
    assert forall k :: 0 <= k < |waiting| ==>
      after[k].id == waiting[k].id && (waiting[k].scheduled ==> after[k].scheduled);
    assert after[|waiting|].id == id;
    forall n ensures Listed(after, n) <==> Listed(waiting, n) || n == id {
      if Listed(waiting, n) {
        var k :| 0 <= k < |waiting| && waiting[k].id == n;
        assert after[k].id == n;
      }
      if Listed(after, n) {
        var k :| 0 <= k < |after| && after[k].id == n;
        assert k < |waiting| ==> waiting[k].id == n;
      }
    }
    forall n | IsScheduled(waiting, n) ensures IsScheduled(after, n) {
      var k, j := Position(waiting, n), Position(after, n);
      assert after[k].id == n && after[k].scheduled;
      assert j == k;
    }
  }

  /** In a list without repetitions, the flag of a read is the one at any position that has it. */
  lemma FlagAt(waiting: seq<Waiter>, k: nat)
    requires Distinct(waiting) && k < |waiting|
    ensures IsScheduled(waiting, waiting[k].id) == waiting[k].scheduled
  {
    var j := Position(waiting, waiting[k].id);
    assert j == k;
  }

  /** Removal moves the last read but keeps the flags of all remaining ones. */
  lemma RemovedFlags(waiting: seq<Waiter>, id: nat)
    requires Distinct(waiting)
    ensures forall n :: n != id ==> (IsScheduled(Removed(waiting, id), n) <==> IsScheduled(waiting, n))
  {
    var after, k, last := Removed(waiting, id), Position(waiting, id), |waiting| - 1;
    if k < |waiting| {
      assert forall j :: 0 <= j < |after| ==> after[j] == if j == k then waiting[last] else waiting[j];
      forall n | n != id ensures IsScheduled(after, n) <==> IsScheduled(waiting, n) {
        var i := Position(waiting, n);
        if i < |waiting| {
          FlagAt(after, if i == last then k else i);
        }
      }
    }
  }

  lemma RemovedLists(waiting: seq<Waiter>, id: nat)
    requires Distinct(waiting) && AllScheduled(waiting)
    ensures Distinct(Removed(waiting, id)) && AllScheduled(Removed(waiting, id))
    ensures forall n :: Listed(Removed(waiting, id), n) <==> Listed(waiting, n) && n != id
    ensures forall n :: n != id ==> (IsScheduled(Removed(waiting, id), n) <==> IsScheduled(waiting, n))
  {
    RemovedFlags(waiting, id);
    var after, k, last := Removed(waiting, id), Position(waiting, id), |waiting| - 1;
    if k < |waiting| {
      assert forall j :: 0 <= j < |after| ==> after[j] == if j == k then waiting[last] else waiting[j];
      forall n ensures Listed(after, n) <==> Listed(waiting, n) && n != id {
        if Listed(waiting, n) && n != id {
          var j :| 0 <= j < |waiting| && waiting[j].id == n;
          assert after[if j == last then k else j].id == n;
        }
        if Listed(after, n) {
          var j :| 0 <= j < |after| && after[j].id == n;
          assert waiting[if j == k then last else j].id == n;
        }
      }
    }
  }

  // ---------------------------------------------------------------- permits are conserved

  lemma HoldersUpdate(known: map<nat, Read>, id: nat, r: Read)
    ensures Holders(known[id := r]) == if r.permit.Granted? then Holders(known) + {id} else Holders(known) - {id}
  {
  }

  lemma GiveUpConserves(y: State, id: nat, r: Read, to: Option<nat>)
    requires Conserved(y) && id in y.known && Receiver(y, id, to)
    ensures Conserved(GiveUp(y, id, r, to))
  {
    HoldersUpdate(y.known, id, r.(permit := NoPermit));
    if to.Some? {
      HoldersUpdate(y.known[id := r.(permit := NoPermit)], to.value, y.known[to.value].(permit := Granted));
    }
  }

  /** The permit of at most one read changes, together with the available ones. */
  lemma OneChangeConserves(y: State, z: State, id: nat, r: Read)
    requires Conserved(y) && z.known == y.known[id := r]
    requires z.available + (if r.permit.Granted? then 1 else 0)
          == y.available + if id in y.known && y.known[id].permit.Granted? then 1 else 0
    ensures Conserved(z)
  {
    HoldersUpdate(y.known, id, r);
  }

  lemma PermitsKept(y: State, a: Action)
    requires Inv(y) && Enabled(y, a)
    ensures Conserved(Apply(y, a))
  {
    match a
    case Notice(id, fall, to) =>
      if fall {
        var asked := y.known[id].(answer := FallsThrough, calls := y.known[id].calls + 1);
        GiveUpConserves(y, id, asked.(stage := Leaving), to);
      } else {
        OneChangeConserves(y, Apply(y, a), id, Apply(y, a).known[id]);
      }
    case Check(id, fall, to) =>
      if fall {
        var asked := y.known[id].(answer := FallsThrough, calls := y.known[id].calls + 1);
        GiveUpConserves(y, id, asked.(stage := Gone), to);
      } else {
        OneChangeConserves(y, Apply(y, a), id, Apply(y, a).known[id]);
      }
    case Cancel(id, to) =>
      GiveUpConserves(y, id, y.known[id].(stage := if y.known[id].stage.Missed? then Gone else Leaving), to);
    case Finish(id, to) => GiveUpConserves(y, id, y.known[id].(stage := Gone), to);
    case _ => OneChangeConserves(y, Apply(y, a), a.id, Apply(y, a).known[a.id]);
  }

  // ---------------------------------------------------------------- the list matches the reads

  lemma SameList(y: State, a: Action)
    requires ListMatches(y) && Enabled(y, a) && !a.Enter? && !a.Take? && !a.Unlist?
    requires forall id :: id in y.known ==> ReadOk(y.known[id])
    ensures Apply(y, a).waiting == y.waiting && ListMatches(Apply(y, a))
  {
  }

  lemma ListKept(y: State, a: Action)
    requires Inv(y) && Enabled(y, a)
    ensures ListMatches(Apply(y, a)) && AllScheduled(Apply(y, a).waiting)
  {
    match a
    case Enter(id) => EnqueueLists(y.waiting, id);
    case Take(id) => RemovedLists(y.waiting, id);
    case Unlist(id) => RemovedLists(y.waiting, id);
    case _ => SameList(y, a);
  }

  lemma TakeOk(y: State, id: nat)
    requires Enabled(y, Take(id)) && ReadOk(y.known[id])
    ensures ReadOk(Apply(y, Take(id)).known[id])
  {
  }

  lemma ReadsKept(y: State, a: Action, id: nat)
    requires Enabled(y, a) && id in Apply(y, a).known && forall n :: n in y.known ==> ReadOk(y.known[n])
    ensures ReadOk(Apply(y, a).known[id])
  {
    if a.id == id {
      OwnReadKept(y, a);
    } else {
      OtherReadKept(y, a, id);
    }
  }

  lemma OwnReadKept(y: State, a: Action)
    requires Enabled(y, a) && (a.id in y.known ==> ReadOk(y.known[a.id]))
    ensures a.id in Apply(y, a).known && ReadOk(Apply(y, a).known[a.id])
  {
    match a
    case Take(n) => TakeOk(y, n);
    case _ =>
  }

  /** Another read changes only by being granted a permit that it was registered for. */
  lemma OtherReadKept(y: State, a: Action, id: nat)
    requires Enabled(y, a) && a.id != id && id in Apply(y, a).known && forall n :: n in y.known ==> ReadOk(y.known[n])
    ensures ReadOk(Apply(y, a).known[id])
  {
    assert id in y.known && ReadOk(y.known[id]);
  }

  lemma {:induction false} RunKeepsInv(y: State, actions: seq<Action>, z: State)
    requires Inv(y) && Reaches(y, actions, z)
    ensures Inv(z)
    decreases |actions|
  {
    if actions != [] {
      PermitsKept(y, actions[0]);
      ListKept(y, actions[0]);
      forall id | id in Apply(y, actions[0]).known ensures ReadOk(Apply(y, actions[0]).known[id]) {
        ReadsKept(y, actions[0], id);
      }
      RunKeepsInv(Apply(y, actions[0]), actions[1..], z);
    }
  }

  // ---------------------------------------------------------------- every run

  lemma AdmissionInvariant(actions: seq<Action>, z: State)
    requires Reaches(START, actions, z)
    ensures Inv(z)
  {
    assert Holders(START.known) == {};
    RunKeepsInv(START, actions, z);
  }

  /** In every run permits are conserved, so at most 64 payload reads are in flight. */
  lemma PermitsConserved(actions: seq<Action>, z: State)
    requires Reaches(START, actions, z)
    ensures z.available + |Holders(z.known)| == MAX_IN_FLIGHT_READS
    ensures forall id :: At(z, id, Reading) ==> id in Holders(z.known)
    ensures (forall id :: id in z.known ==> z.known[id].stage.Gone?) ==> z.available == MAX_IN_FLIGHT_READS
  {
    AdmissionInvariant(actions, z);
    if forall id :: id in z.known ==> z.known[id].stage.Gone? {
      assert Holders(z.known) == {};
    }
  }

  /**
   In every run, a read starts at once when it arrives exactly if fewer than 64 permits are held, and a waiting read
   that is polled gets a permit exactly if it was given one or fewer than 64 are held.
   */
  lemma PermitsAreUsed(actions: seq<Action>, z: State, id: nat)
    requires Reaches(START, actions, z)
    ensures Enabled(z, Arrive(id)) ==>
      (At(Apply(z, Arrive(id)), id, Reading) <==> |Holders(z.known)| < MAX_IN_FLIGHT_READS)
    ensures Enabled(z, Poll(id)) ==>
      (At(Apply(z, Poll(id)), id, Acquired) <==>
        z.known[id].permit.Granted? || |Holders(z.known)| < MAX_IN_FLIGHT_READS)
  {
    AdmissionInvariant(actions, z);
  }

  /** No permit is available while a read is registered for one. */
  ghost predicate NoIdlePermit(y: State) {
    y.available > 0 ==> forall id :: id in y.known ==> !y.known[id].permit.Registered?
  }

  lemma NoIdlePermitKept(y: State, a: Action)
    requires NoIdlePermit(y) && Enabled(y, a)
    ensures NoIdlePermit(Apply(y, a))
  {
  }

  /** In every run a returned permit goes to a read that registered for one, if there is one. */
  lemma {:induction false} PermitsNeverIdle(y: State, actions: seq<Action>, z: State)
    requires NoIdlePermit(y) && Reaches(y, actions, z)
    ensures NoIdlePermit(z)
    decreases |actions|
  {
    if actions != [] {
      NoIdlePermitKept(y, actions[0]);
      PermitsNeverIdle(Apply(y, actions[0]), actions[1..], z);
    }
  }

  /**
   In every run each callback runs at most once, and a read whose check was scheduled when it left the list
   reads from disk only after its own callback answered that it does not fall through.
   */
  lemma ScheduledReadsAsk(actions: seq<Action>, z: State, id: nat)
    requires Reaches(START, actions, z) && id in z.known
    ensures z.known[id].calls <= 1
    ensures z.known[id].stage.Reading? && z.known[id].scheduled ==> z.known[id].answer == Stays
    ensures z.known[id].answer == FallsThrough ==> !z.known[id].permit.Granted? && !z.known[id].stage.Reading?
  {
    AdmissionInvariant(actions, z);
  }

  /** In every run, while 64 reads wait, the checks of all listed reads are scheduled, and of any that enters. */
  lemma LongListSchedulesAll(actions: seq<Action>, z: State, id: nat)
    requires Reaches(START, actions, z) && |z.waiting| >= MAX_IN_FLIGHT_READS
    ensures At(z, id, Waiting) || At(z, id, Acquired) ==> IsScheduled(z.waiting, id)
    ensures Enabled(z, Enter(id)) ==> IsScheduled(Apply(z, Enter(id)).waiting, id)
  {
    AdmissionInvariant(actions, z);
    if At(z, id, Waiting) || At(z, id, Acquired) {
      assert Listed(z.waiting, id);
    }
    if Enabled(z, Enter(id)) {
      EnqueueLists(z.waiting, id);
      assert Listed(Enqueue(z.waiting, id), id);
    }
  }

  // ---------------------------------------------------------------- scheduled checks are made

  /** A read whose check is scheduled while it is in the list, and made before it reads. */
  ghost predicate MustAsk(y: State, id: nat) {
    id in y.known && match y.known[id].stage
      case Missed => false
      case Waiting => IsScheduled(y.waiting, id)
      case Acquired => IsScheduled(y.waiting, id)
      case Reading => y.known[id].answer == Stays
      case _ => true
  }

  lemma ListFrame(y: State, a: Action)
    requires Enabled(y, a) && !a.Enter? && !a.Take? && !a.Unlist?
    ensures Apply(y, a).waiting == y.waiting
  {
  }

  /** A step of another read can only grant a permit. */
  lemma OtherReadFrame(y: State, a: Action, id: nat)
    requires Enabled(y, a) && a.id != id && id in y.known
    ensures id in Apply(y, a).known
    ensures Apply(y, a).known[id].stage == y.known[id].stage && Apply(y, a).known[id].answer == y.known[id].answer
  {
  }

  lemma OwnMustAsk(y: State, a: Action)
    requires Enabled(y, a) && !a.Enter? && !a.Take? && !a.Unlist? && MustAsk(y, a.id) && ReadOk(y.known[a.id])
    ensures MustAsk(Apply(y, a), a.id)
  {
    ListFrame(y, a);
  }

  lemma FrameMustAsk(y: State, a: Action, id: nat)
    requires Enabled(y, a) && !a.Enter? && !a.Take? && !a.Unlist? && MustAsk(y, id) && ReadOk(y.known[id])
    ensures MustAsk(Apply(y, a), id)
  {
    if a.id == id {
      OwnMustAsk(y, a);
    } else {
      ListFrame(y, a);
      OtherReadFrame(y, a, id);
    }
  }

  lemma TakeMustAsk(y: State, n: nat, id: nat)
    requires Distinct(y.waiting) && Enabled(y, Take(n)) && MustAsk(y, id) && ReadOk(y.known[id])
    ensures MustAsk(Apply(y, Take(n)), id)
  {
    RemovedFlags(y.waiting, n);
  }

  lemma MustAskKept(y: State, a: Action, id: nat)
    requires Inv(y) && Enabled(y, a) && MustAsk(y, id)
    ensures MustAsk(Apply(y, a), id)
  {
    assert ReadOk(y.known[id]);
    match a
    case Enter(n) => EnqueueLists(y.waiting, n);
    case Take(n) => TakeMustAsk(y, n, id);
    case Unlist(n) => RemovedFlags(y.waiting, n);
    case _ => FrameMustAsk(y, a, id);
  }

  lemma {:induction false} RunMustAsk(y: State, actions: seq<Action>, z: State, id: nat)
    requires Inv(y) && Reaches(y, actions, z) && MustAsk(y, id)
    ensures MustAsk(z, id)
    decreases |actions|
  {
    if actions != [] {
      MustAskKept(y, actions[0], id);
      RunKeepsInv(y, actions[..1], Apply(y, actions[0]));
      RunMustAsk(Apply(y, actions[0]), actions[1..], z, id);
    }
  }

  /**
   Once 64 reads are in the list, none of them ever reads from disk unless its own callback answered that it
   does not fall through, even if the list is short again by then. The same holds for a read that enters then.
   */
  lemma LongListReadsAsk(before: seq<Action>, y: State, after: seq<Action>, z: State, id: nat)
    requires Reaches(START, before, y) && |y.waiting| >= MAX_IN_FLIGHT_READS && Reaches(y, after, z)
    requires At(y, id, Waiting) || At(y, id, Acquired) || (after != [] && after[0] == Enter(id))
    ensures At(z, id, Reading) ==> z.known[id].answer == Stays
  {
    AdmissionInvariant(before, y);
    LongListSchedulesAll(before, y, id);
    if At(y, id, Waiting) || At(y, id, Acquired) {
      RunMustAsk(y, after, z, id);
    } else {
      RunKeepsInv(y, after[..1], Apply(y, after[0]));
      RunMustAsk(Apply(y, after[0]), after[1..], z, id);
    }
  }

  // ---------------------------------------------------------------- nothing else is scheduled

  /** At some point of the run the read was in the list with at least 63 others. */
  ghost predicate Crowded(y: State, actions: seq<Action>, id: nat)
    decreases |actions|
  {
    || (|y.waiting| >= MAX_IN_FLIGHT_READS && Listed(y.waiting, id))
    || (actions != [] && Enabled(y, actions[0]) && Crowded(Apply(y, actions[0]), actions[1..], id))
  }

  /** The check of the read is not scheduled, and was not made. */
  ghost predicate Unchecked(y: State, id: nat) {
    && !IsScheduled(y.waiting, id)
    && (id in y.known ==> y.known[id].calls == 0 && !y.known[id].scheduled && !y.known[id].stage.Checking?)
  }

  lemma EnqueueFlags(waiting: seq<Waiter>, n: nat, id: nat)
    requires !IsScheduled(waiting, id) && Distinct(waiting) && !Listed(waiting, n)
    requires |waiting| + 1 >= MAX_IN_FLIGHT_READS ==> !Listed(Enqueue(waiting, n), id)
    ensures !IsScheduled(Enqueue(waiting, n), id)
  {
    var after := Enqueue(waiting, n);
    var k := Position(after, id);
    if k < |after| {
      assert Listed(after, id);
      if k < |waiting| {
        FlagAt(waiting, k);
      }
    }
  }

  lemma QuietUnchecked(y: State, a: Action, id: nat)
    requires Enabled(y, a) && !a.Enter? && !a.Take? && !a.Unlist? && Unchecked(y, id)
    ensures Unchecked(Apply(y, a), id)
  {
    ListFrame(y, a);
  }

  lemma UncheckedKept(y: State, a: Action, id: nat)
    requires Inv(y) && Enabled(y, a) && Unchecked(y, id)
    requires |Apply(y, a).waiting| >= MAX_IN_FLIGHT_READS ==> !Listed(Apply(y, a).waiting, id)
    ensures Unchecked(Apply(y, a), id)
  {
    match a
    case Enter(n) => EnqueueFlags(y.waiting, n, id);
    case Take(n) => RemovedUnchecked(y, n, id);
    case Unlist(n) => RemovedUnchecked(y, n, id);
    case _ => QuietUnchecked(y, a, id);
  }

  lemma RemovedUnchecked(y: State, n: nat, id: nat)
    requires Distinct(y.waiting) && AllScheduled(y.waiting) && !IsScheduled(y.waiting, id)
    ensures !IsScheduled(Removed(y.waiting, n), id)
  {
    RemovedLists(y.waiting, n);
    if n == id {
      var k := Position(Removed(y.waiting, n), id);
      assert k < |Removed(y.waiting, n)| ==> Listed(Removed(y.waiting, n), id);
    }
  }

  lemma {:induction false} RunUnchecked(y: State, actions: seq<Action>, z: State, id: nat)
    requires Inv(y) && Reaches(y, actions, z) && Unchecked(y, id) && !Crowded(y, actions, id)
    ensures Unchecked(z, id)
    decreases |actions|
  {
    if actions != [] {
      var m := Apply(y, actions[0]);
      assert !Crowded(m, actions[1..], id);
      UncheckedKept(y, actions[0], id);
      RunKeepsInv(y, actions[..1], m);
      RunUnchecked(m, actions[1..], z, id);
    }
  }

  /** In every run, a read that never shared the list with 63 others is not scheduled, and its callback never runs. */
  lemma ShortListNeverAsks(actions: seq<Action>, z: State, id: nat)
    requires Reaches(START, actions, z) && !Crowded(START, actions, id)
    ensures !IsScheduled(z.waiting, id) && (id in z.known ==> z.known[id].calls == 0)
  {
    AdmissionInvariant([], START);
    RunUnchecked(START, actions, z, id);
  }
}
