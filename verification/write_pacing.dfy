/**
 Every run of the write queue's admission passes, with the write limit that they ask and charge. Whatever else
 the queue does between passes can only free request slots.
 */
module WritePacing {
  import opened Layout
  import opened WriteAdmission
  import opened IoQueues
  import IoQueueRuns

  datatype State = State(queue: Queue, limit: WriteLimit, clock: real)

  /** `Elsewhere` is anything that sends, cancels, submits or completes requests, until `now`. */
  datatype Action = AdmissionPass(cancelled: set<nat>, moments: seq<Moment>) | Elsewhere(after: Queue, now: real)

  /** Sending, submitting and completing never occupy an empty slot. */
  ghost predicate Frees(q: Queue, after: Queue) {
    && |after.slots| == |q.slots| && AllWellFormed(after.channel)
    && forall k :: 0 <= k < |q.slots| && after.slots[k].Some? ==> q.slots[k].Some?
  }

  /** A pass looks at the clock in the order of its slots. */
  ghost predicate InOrder(clock: real, moments: seq<Moment>) {
    && (forall k :: 0 <= k < |moments| ==> clock <= moments[k].checkedAt <= moments[k].recordedAt)
    && forall j, k :: 0 <= j < k < |moments| ==> moments[j].recordedAt <= moments[k].checkedAt
  }

  ghost predicate Enabled(y: State, a: Action) {
    match a
    case AdmissionPass(_, moments) =>
      |moments| == |y.queue.slots| && AllWellFormed(y.queue.channel) && InOrder(y.clock, moments)
    case Elsewhere(after, now) => Frees(y.queue, after) && y.clock <= now
  }

  function End(clock: real, moments: seq<Moment>): real {
    if moments == [] then clock else moments[|moments| - 1].recordedAt
  }

  ghost function Apply(y: State, a: Action): State
    requires Enabled(y, a)
  {
    match a
    case AdmissionPass(cancelled, moments) =>
      var p := Admit(y.queue, y.limit, 0, cancelled, moments);
      State(p.queue, p.limit, End(y.clock, moments))
    case Elsewhere(after, now) => State(after, y.limit, now)
  }

  ghost predicate Reaches(y: State, actions: seq<Action>, z: State)
    decreases |actions|
  {
    if actions == [] then z == y else Enabled(y, actions[0]) && Reaches(Apply(y, actions[0]), actions[1..], z)
  }

  /** Writes are limited whenever a pass asks. */
  ghost predicate AlwaysLimited(actions: seq<Action>) {
    forall i :: 0 <= i < |actions| && actions[i].AdmissionPass? ==> LimitedFrom(actions[i].moments, 0)
  }

  // ---------------------------------------------------------------- charges

  function Bytes(transfers: seq<Transfer>): nat {
    if transfers == [] then 0 else transfers[0].length + Bytes(transfers[1..])
  }

  /** Bytes of the transfers that a step queued. */
  ghost function QueuedBytes(y: State, a: Action): nat
    requires Enabled(y, a)
  {
    var before, after := y.queue.submission, Apply(y, a).queue.submission;
    if a.AdmissionPass? && |before| <= |after| then Bytes(after[|before|..]) else 0
  }

  ghost function AdmittedBytes(y: State, actions: seq<Action>): nat
    decreases |actions|
  {
    if actions == [] || !Enabled(y, actions[0]) then 0
    else QueuedBytes(y, actions[0]) + AdmittedBytes(Apply(y, actions[0]), actions[1..])
  }

  /** Bytes already charged beyond the clock. */
  function Debt(y: State): real {
    if y.limit.NotBefore? && y.limit.nextWriteAt > y.clock then y.limit.nextWriteAt - y.clock else 0.0
  }

  ghost predicate Paced(y: State) {
    y.limit.NotBefore? && Debt(y) <= MAX_IO_REQUEST_BYTES as real
  }

  /** A pass charges at most one maximum request beyond its end. */
  lemma {:induction false} PassCharges(q: Queue, limit: WriteLimit, i: nat, cancelled: set<nat>,
                                       moments: seq<Moment>, end: real)
    requires i <= |q.slots| == |moments| && AllWellFormed(q.channel) && limit.NotBefore?
    requires forall k :: i <= k < |moments| ==> moments[k].recordedAt <= end
    requires limit.nextWriteAt <= end + MAX_IO_REQUEST_BYTES as real
    ensures var p := Admit(q, limit, i, cancelled, moments);
      p.limit.NotBefore? && p.limit.nextWriteAt <= end + MAX_IO_REQUEST_BYTES as real
    decreases |q.slots| - i, 0
  {
    if i < |q.slots| && !EndsAt(q, limit, i, moments) {
      if q.slots[i].Some? {
        AdmitSkips(q, limit, i, cancelled, moments);
        PassCharges(q, limit, i + 1, cancelled, moments, end);
      } else {
        FillCharges(q, limit, i, cancelled, moments, end);
      }
    } else {
      AdmitEnds(q, limit, i, cancelled, moments);
    }
  }

  lemma {:induction false} FillCharges(q: Queue, limit: WriteLimit, i: nat, cancelled: set<nat>,
                                       moments: seq<Moment>, end: real)
    requires i < |q.slots| == |moments| && AllWellFormed(q.channel) && limit.NotBefore?
    requires q.slots[i].None? && !EndsAt(q, limit, i, moments)
    requires forall k :: i <= k < |moments| ==> moments[k].recordedAt <= end
    requires limit.nextWriteAt <= end + MAX_IO_REQUEST_BYTES as real
    ensures var p := Admit(q, limit, i, cancelled, moments);
      p.limit.NotBefore? && p.limit.nextWriteAt <= end + MAX_IO_REQUEST_BYTES as real
    decreases |q.slots| - (i + 1), 1
  {
    var waiting := q.(channel := SkipCancelled(q.channel, cancelled));
    if waiting.channel == [] {
      AdmitFilled(q, limit, i, cancelled, moments, waiting);
    } else {
      var filled := Receive(waiting, i, cancelled);
      AdmitFilled(q, limit, i, cancelled, moments, filled);
      PassCharges(filled, Charged(limit, waiting.channel[0], moments[i]), i + 1, cancelled, moments, end);
    }
  }

  lemma StepPaced(y: State, a: Action)
    requires Paced(y) && Enabled(y, a)
    ensures Paced(Apply(y, a)) && y.clock <= Apply(y, a).clock
  {
    if a.AdmissionPass? {
      var end := End(y.clock, a.moments);
      PassCharges(y.queue, y.limit, 0, a.cancelled, a.moments, end);
    }
  }

  /** From a queue that owes at most one maximum request, every run keeps it so, limited or not. */
  lemma {:induction false} AlwaysPaced(y: State, actions: seq<Action>, z: State)
    requires Paced(y) && Reaches(y, actions, z)
    ensures Paced(z) && y.clock <= z.clock
    decreases |actions|
  {
    if actions != [] {
      StepPaced(y, actions[0]);
      AlwaysPaced(Apply(y, actions[0]), actions[1..], z);
    }
  }

  lemma OneTransfer(submission: seq<Transfer>, t: Transfer)
    ensures Bytes((submission + [t])[|submission|..]) == t.length
  {
    assert (submission + [t])[|submission|..] == [t] && [t][1..] == [];
  }

  lemma BeforeEnd(clock: real, moments: seq<Moment>, k: nat)
    requires InOrder(clock, moments) && k < |moments|
    ensures clock <= moments[k].checkedAt <= moments[k].recordedAt <= End(clock, moments)
  {
  }

  /** A limited step pays for its bytes with elapsed time and new debt. */
  lemma StepPays(y: State, a: Action)
    requires Paced(y) && Enabled(y, a) && (a.AdmissionPass? ==> LimitedFrom(a.moments, 0))
    ensures var z := Apply(y, a); QueuedBytes(y, a) as real + Debt(y) <= z.clock - y.clock + Debt(z)
  {
    var z := Apply(y, a);
    StepPaced(y, a);
    if a.AdmissionPass? {
      var p := Admit(y.queue, y.limit, 0, a.cancelled, a.moments);
      LimitedPassAdmitsOne(y.queue, y.limit, a.cancelled, a.moments);
      if !AdmittedNone(y.queue, y.limit, p) {
        var k, r :| Admitted(y.queue, y.limit, a.moments, p, k, r);
        OneTransfer(y.queue.submission, NextTransfer(k, r));
        BeforeEnd(y.clock, a.moments, k);
      }
    }
  }

  lemma {:induction false} RunPays(y: State, actions: seq<Action>, z: State)
    requires Paced(y) && Reaches(y, actions, z) && AlwaysLimited(actions)
    ensures AdmittedBytes(y, actions) as real + Debt(y) <= z.clock - y.clock + Debt(z)
    decreases |actions|
  {
    if actions != [] {
      StepPays(y, actions[0]);
      StepPaced(y, actions[0]);
      RunPays(Apply(y, actions[0]), actions[1..], z);
    }
  }

  // ---------------------------------------------------------------- active writes

  function Active(slots: seq<Option<Request>>): int {
    |slots| - EmptyFrom(slots, 0)
  }

  lemma {:induction false} FreesKeepsEmpty(q: Queue, after: Queue, i: nat)
    requires Frees(q, after) && i <= |q.slots|
    ensures EmptyFrom(q.slots, i) <= EmptyFrom(after.slots, i)
    decreases |q.slots| - i
  {
    if i < |q.slots| {
      FreesKeepsEmpty(q, after, i + 1);
    }
  }

  lemma {:induction false} OneMore(slots: seq<Option<Request>>, k: nat, r: Request, i: nat)
    requires k < |slots| && i <= |slots|
    ensures EmptyFrom(slots, i) <= EmptyFrom(slots[k := Some(r)], i) + 1
    ensures i > k ==> EmptyFrom(slots, i) == EmptyFrom(slots[k := Some(r)], i)
    decreases |slots| - i
  {
    if i < |slots| {
      OneMore(slots, k, r, i + 1);
    }
  }

  lemma StepActive(y: State, a: Action)
    requires y.limit.NotBefore? && Enabled(y, a) && (a.AdmissionPass? ==> LimitedFrom(a.moments, 0))
    ensures
      var active := Active(y.queue.slots);
      Active(Apply(y, a).queue.slots) <= if active > 1 then active else 1
  {
    match a
    case AdmissionPass(cancelled, moments) =>
      var p := Admit(y.queue, y.limit, 0, cancelled, moments);
      LimitedPassAdmitsOne(y.queue, y.limit, cancelled, moments);
      if !AdmittedNone(y.queue, y.limit, p) {
        var k, r :| Admitted(y.queue, y.limit, moments, p, k, r);
        OneMore(y.queue.slots, k, r, 0);
      }
    case Elsewhere(after, _) => FreesKeepsEmpty(y.queue, after, 0);
  }

  lemma {:induction false} RunActive(y: State, actions: seq<Action>, z: State)
    requires Paced(y) && Reaches(y, actions, z) && AlwaysLimited(actions)
    ensures Active(z.queue.slots) <= if Active(y.queue.slots) > 1 then Active(y.queue.slots) else 1
    decreases |actions|
  {
    if actions != [] {
      StepActive(y, actions[0]);
      StepPaced(y, actions[0]);
      RunActive(Apply(y, actions[0]), actions[1..], z);
    }
  }

  /**
   Over any interval in which writes stay limited, the bytes that admission passes queue are at most the rate
   times its length plus one maximum request, and no more writes are active than at its start, or one.
   */
  lemma WritesArePaced(y: State, actions: seq<Action>, z: State)
    requires Paced(y) && Reaches(y, actions, z) && AlwaysLimited(actions)
    ensures AdmittedBytes(y, actions) as real <= z.clock - y.clock + MAX_IO_REQUEST_BYTES as real
    ensures Active(z.queue.slots) <= if Active(y.queue.slots) > 1 then Active(y.queue.slots) else 1
  {
    RunPays(y, actions, z);
    AlwaysPaced(y, actions, z);
    RunActive(y, actions, z);
  }

  /** In a run of the queue, every step but an admission is one that happens elsewhere. */
  lemma OtherStepsFree(y: IoQueueRuns.State, a: IoQueueRuns.Action)
    requires IoQueueRuns.Inv(y) && IoQueueRuns.Enabled(y, a) && !IoQueueRuns.Panics(y, a) && !a.Admission?
    ensures Frees(y.queue, IoQueueRuns.Apply(y, a).queue)
  {
    IoQueueRuns.ChannelWellFormed(y);
  }
}
