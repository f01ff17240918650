/**
 The request array, waiting channel and submission queue of one I/O direction, as the queue thread
 updates them. A request keeps its file range through short completions: only the start of its
 remaining buffer range moves.
 */
module IoQueues {
  import opened Layout
  import opened WriteAdmission

  const ALIGNMENT := PAGE_BYTES
  const MAX_IO_REQUEST_BYTES := 0x10_0000
  const INTERRUPTED := -4

  /** `start..end` is the remaining buffer range, and `fileEnd` the file offset at the request's end. */
  datatype Request = Request(id: nat, fileEnd: nat, start: nat, end: nat)

  /** One entry of the ring: `length` bytes at file offset `offset`, at `start` of request `id`'s buffer. */
  datatype Transfer = Transfer(index: nat, id: nat, offset: nat, start: nat, length: nat)

  datatype Completion = Completion(transfer: Transfer, result: int)

  /** A result handed to the caller, who hears it unless it cancelled. */
  datatype Reply = Reply(id: nat, ok: bool, heard: bool)

  datatype Queue = Queue(slots: seq<Option<Request>>, channel: seq<Request>, submission: seq<Transfer>)

  function Length(r: Request): int {
    r.end - r.start
  }

  /** What a new request must satisfy. */
  predicate WellFormed(r: Request) {
    && 0 < Length(r) <= MAX_IO_REQUEST_BYTES && Length(r) <= r.fileEnd
    && r.start % ALIGNMENT == 0 && r.end % ALIGNMENT == 0 && r.fileEnd % ALIGNMENT == 0
  }

  /** The transfer of everything that remains of `r`. */
  function NextTransfer(i: nat, r: Request): Transfer
    requires 0 <= Length(r) <= r.fileEnd
  {
    Transfer(i, r.id, r.fileEnd - Length(r), r.start, Length(r))
  }

  /** The request after a completion, or None for an error. */
  function ApplyCompletionResult(r: Request, result: int): Option<Request> {
    if result == INTERRUPTED then Some(r)
    else if result <= 0 || result % ALIGNMENT != 0 then None
    else Some(r.(start := r.start + result))
  }

  /** What the queue needs of a request it holds and of the kernel's answer to its transfer. */
  predicate Answers(r: Request, result: int) {
    0 < Length(r) <= r.fileEnd && result <= Length(r)
  }

  function Receive(q: Queue, i: nat, cancelled: set<nat>): Queue
    requires i < |q.slots| && q.slots[i].None? && q.channel != [] && WellFormed(q.channel[0])
  {
    var r := q.channel[0];
    if r.id in cancelled then q.(channel := q.channel[1..])
    else Queue(q.slots[i := Some(r)], q.channel[1..], q.submission + [NextTransfer(i, r)])
  }

  function HandleCompletion(q: Queue, i: nat, result: int, heard: bool): (Queue, Option<Reply>)
    requires i < |q.slots| && q.slots[i].Some? && Answers(q.slots[i].value, result)
  {
    var r := q.slots[i].value;
    match ApplyCompletionResult(r, result)
    case None => (q.(slots := q.slots[i := None]), Some(Reply(r.id, false, heard)))
    case Some(rest) =>
      if Length(rest) > 0 && heard then
        (q.(slots := q.slots[i := Some(rest)], submission := q.submission + [NextTransfer(i, rest)]), None)
      else (q.(slots := q.slots[i := None]), Some(Reply(r.id, true, heard)))
  }

  // ---------------------------------------------------------------- admission passes

  /** The channel from its first request whose caller still waits. */
  function SkipCancelled(channel: seq<Request>, cancelled: set<nat>): (rest: seq<Request>)
    ensures |rest| <= |channel| && rest == channel[|channel| - |rest|..]
    ensures rest != [] ==> rest[0].id !in cancelled
    ensures forall r :: r in channel[..|channel| - |rest|] ==> r.id in cancelled
  {
    if channel != [] && channel[0].id in cancelled then
      var rest := SkipCancelled(channel[1..], cancelled);
      assert channel[..|channel| - |rest|] == [channel[0]] + channel[1..][..|channel| - 1 - |rest|];
      rest
    else channel
  }

  ghost predicate AllWellFormed(channel: seq<Request>) {
    forall r :: r in channel ==> WellFormed(r)
  }

  /** What the queue thread finds when it asks the write limit at a slot, and when it charges a write there. */
  datatype Moment = Moment(waiters: ReadQueueWaiters, checkedAt: real, recordedAt: real)

  /** The read queue has no write limit. */
  datatype WriteLimit = Unlimited | NotBefore(nextWriteAt: real)

  datatype Pass = Pass(queue: Queue, limit: WriteLimit, timeout: int)

  /** Empty slots from `i` on. */
  function EmptyFrom(slots: seq<Option<Request>>, i: nat): nat
    requires i <= |slots|
    decreases |slots| - i
  {
    if i == |slots| then 0 else (if slots[i].None? then 1 else 0) + EmptyFrom(slots, i + 1)
  }

  lemma {:induction false} EmptySuffix(slots: seq<Option<Request>>, after: seq<Option<Request>>, i: nat)
    requires |after| == |slots| && i <= |slots| && slots[i..] == after[i..]
    ensures EmptyFrom(after, i) == EmptyFrom(slots, i)
    decreases |slots| - i
  {
    if i < |slots| {
      assert slots[i] == slots[i..][0] && after[i] == after[i..][0];
      assert slots[i + 1..] == slots[i..][1..] && after[i + 1..] == after[i..][1..];
      EmptySuffix(slots, after, i + 1);
    }
  }

  /** Whether some slot is occupied. */
  predicate HasActive(slots: seq<Option<Request>>) {
    EmptyFrom(slots, 0) < |slots|
  }

  lemma {:induction false} ActiveFrom(slots: seq<Option<Request>>, i: nat)
    requires i <= |slots|
    ensures EmptyFrom(slots, i) <= |slots| - i
    ensures EmptyFrom(slots, i) < |slots| - i <==> exists k :: i <= k < |slots| && slots[k].Some?
    decreases |slots| - i
  {
    if i < |slots| {
      ActiveFrom(slots, i + 1);
    }
  }

  predicate Paces(limit: WriteLimit, slots: seq<Option<Request>>, m: Moment) {
    limit.NotBefore? && MustWait(m.waiters, limit.nextWriteAt, HasActive(slots), m.checkedAt)
  }

  function Charged(limit: WriteLimit, r: Request, m: Moment): WriteLimit {
    if limit.NotBefore? then NotBefore(NextWriteAt(Length(r), m.recordedAt)) else Unlimited
  }

  /** One admission pass from slot `i`, with what it finds at each slot. */
  function Admit(q: Queue, limit: WriteLimit, i: nat, cancelled: set<nat>, moments: seq<Moment>): Pass
    requires i <= |q.slots| == |moments| && AllWellFormed(q.channel)
    decreases |q.slots| - i
  {
    if i == |q.slots| then Pass(q, limit, -1)
    else if q.slots[i].Some? then Admit(q, limit, i + 1, cancelled, moments)
    else if q.channel == [] then Pass(q, limit, -1)
    else if Paces(limit, q.slots, moments[i]) then Pass(q, limit, 1)
    else
      var waiting := q.(channel := SkipCancelled(q.channel, cancelled));
      if waiting.channel == [] then Pass(waiting, limit, -1)
      else
        var charged := Charged(limit, waiting.channel[0], moments[i]);
        Admit(Receive(waiting, i, cancelled), charged, i + 1, cancelled, moments)
  }

  /** Where a pass ends before it fills slot `i`. */
  ghost predicate EndsAt(q: Queue, limit: WriteLimit, i: nat, moments: seq<Moment>)
    requires i <= |q.slots| == |moments|
  {
    i == |q.slots| || (q.slots[i].None? && (q.channel == [] || Paces(limit, q.slots, moments[i])))
  }

  lemma AdmitEnds(q: Queue, limit: WriteLimit, i: nat, cancelled: set<nat>, moments: seq<Moment>)
    requires i <= |q.slots| == |moments| && AllWellFormed(q.channel) && EndsAt(q, limit, i, moments)
    ensures var p := Admit(q, limit, i, cancelled, moments);
      p == Pass(q, limit, if i < |q.slots| && q.channel != [] then 1 else -1)
  {
  }

  lemma AdmitSkips(q: Queue, limit: WriteLimit, i: nat, cancelled: set<nat>, moments: seq<Moment>)
    requires i < |q.slots| == |moments| && AllWellFormed(q.channel) && q.slots[i].Some?
    ensures Admit(q, limit, i, cancelled, moments) == Admit(q, limit, i + 1, cancelled, moments)
  {
  }

  /** Where a pass goes on after slot `i` was filled. */
  lemma AdmitFilled(q: Queue, limit: WriteLimit, i: nat, cancelled: set<nat>, moments: seq<Moment>, filled: Queue)
    requires i < |q.slots| == |moments| && AllWellFormed(q.channel) && q.slots[i].None? && q.channel != []
    requires !Paces(limit, q.slots, moments[i])
    requires var waiting := q.(channel := SkipCancelled(q.channel, cancelled));
      filled == if waiting.channel == [] then waiting else Receive(waiting, i, cancelled)
    ensures |filled.slots| == |q.slots| && AllWellFormed(filled.channel)
    ensures var waiting := SkipCancelled(q.channel, cancelled);
      Admit(q, limit, i, cancelled, moments) ==
        if waiting == [] then Pass(filled, limit, -1)
        else Admit(filled, Charged(limit, waiting[0], moments[i]), i + 1, cancelled, moments)
  {
  }

  /** No slot loses its request, and slots before `i` are left alone. */
  ghost predicate KeepsSlots(before: seq<Option<Request>>, after: seq<Option<Request>>, i: nat) {
    && |after| == |before|
    && forall k :: 0 <= k < |before| && (k < i || before[k].Some?) ==> after[k] == before[k]
  }

  lemma KeepsEarlier(before: seq<Option<Request>>, mid: seq<Option<Request>>, after: seq<Option<Request>>, i: nat)
    requires KeepsSlots(mid, after, i + 1) && i < |before| == |mid|
    requires mid == before || (before[i].None? && mid == before[i := mid[i]])
    ensures KeepsSlots(before, after, i) && after[i] == mid[i]
  {
  }

  /** The pass leaves no request beside an empty slot from `i` on, unless the write limit stops it there. */
  ghost predicate Filled(p: Pass, moments: seq<Moment>, i: nat)
    requires |p.queue.slots| == |moments|
  {
    if p.timeout == -1 then p.queue.channel == [] || forall k :: i <= k < |moments| ==> p.queue.slots[k].Some?
    else exists k :: i <= k < |moments| && p.queue.slots[k].None? && Paces(p.limit, p.queue.slots, moments[k])
  }

  lemma FilledEarlier(p: Pass, moments: seq<Moment>, i: nat)
    requires |p.queue.slots| == |moments| && i < |moments| && p.queue.slots[i].Some? && Filled(p, moments, i + 1)
    ensures Filled(p, moments, i)
  {
  }

  /** What is left of the pass after slot `i` was skipped or filled. */
  ghost predicate Resumes(q: Queue, limit: WriteLimit, i: nat, cancelled: set<nat>, moments: seq<Moment>,
                          after: Queue, charged: WriteLimit)
    requires i < |q.slots| == |moments| && AllWellFormed(q.channel)
  {
    && |after.slots| == |q.slots| && AllWellFormed(after.channel) && after.slots[i].Some?
    && (after.slots == q.slots || (q.slots[i].None? && after.slots == q.slots[i := after.slots[i]]))
    && Admit(q, limit, i, cancelled, moments) == Admit(after, charged, i + 1, cancelled, moments)
  }

  /** A pass ends at slot `i`, or resumes after it. */
  lemma AdmitStep(q: Queue, limit: WriteLimit, i: nat, cancelled: set<nat>, moments: seq<Moment>)
    returns (ends: bool, after: Queue, charged: WriteLimit)
    requires i < |q.slots| == |moments| && AllWellFormed(q.channel)
    ensures !ends ==> Resumes(q, limit, i, cancelled, moments, after, charged)
    ensures ends ==> var p := Admit(q, limit, i, cancelled, moments);
      p.queue.slots == q.slots && Filled(p, moments, i)
  {
    ends, after, charged := false, q, limit;
    if EndsAt(q, limit, i, moments) {
      ends := true;
      AdmitEnds(q, limit, i, cancelled, moments);
    } else if q.slots[i].Some? {
      AdmitSkips(q, limit, i, cancelled, moments);
    } else {
      var waiting := q.(channel := SkipCancelled(q.channel, cancelled));
      if waiting.channel == [] {
        ends := true;
        AdmitFilled(q, limit, i, cancelled, moments, waiting);
      } else {
        after, charged := Receive(waiting, i, cancelled), Charged(limit, waiting.channel[0], moments[i]);
        AdmitFilled(q, limit, i, cancelled, moments, after);
      }
    }
  }

  ghost predicate Fills(q: Queue, i: nat, moments: seq<Moment>, p: Pass)
    requires |q.slots| == |moments|
  {
    KeepsSlots(q.slots, p.queue.slots, i) && Filled(p, moments, i)
  }

  lemma FillsEarlier(q: Queue, after: Queue, i: nat, moments: seq<Moment>, p: Pass)
    requires i < |q.slots| == |moments| == |after.slots| && after.slots[i].Some? && Fills(after, i + 1, moments, p)
    requires after.slots == q.slots || (q.slots[i].None? && after.slots == q.slots[i := after.slots[i]])
    ensures Fills(q, i, moments, p)
  {
    KeepsEarlier(q.slots, after.slots, p.queue.slots, i);
    FilledEarlier(p, moments, i);
  }

  /** A pass that no pacing stops leaves no request waiting beside an empty slot, and no slot loses its request. */
  lemma {:induction false} AdmitFillsSlots(q: Queue, limit: WriteLimit, i: nat, cancelled: set<nat>,
                                           moments: seq<Moment>)
    requires i <= |q.slots| == |moments| && AllWellFormed(q.channel)
    ensures Fills(q, i, moments, Admit(q, limit, i, cancelled, moments))
    decreases |q.slots| - i
  {
    if i < |q.slots| {
      var ends, after, charged := AdmitStep(q, limit, i, cancelled, moments);
      if !ends {
        AdmitFillsSlots(after, charged, i + 1, cancelled, moments);
        FillsEarlier(q, after, i, moments, Admit(after, charged, i + 1, cancelled, moments));
      }
    }
  }

  /** A read waits or waited recently, and a write is active or the time charged before has not passed. */
  ghost predicate HasToWait(limit: WriteLimit, slots: seq<Option<Request>>, m: Moment) {
    && limit.NotBefore? && Limited(m.waiters, m.checkedAt)
    && ((exists k :: 0 <= k < |slots| && slots[k].Some?) || m.checkedAt < limit.nextWriteAt)
  }

  /** A request is left beside an empty slot only while reads need the disk and the previous write is not paid for. */
  lemma WaitsOnlyForReads(q: Queue, limit: WriteLimit, cancelled: set<nat>, moments: seq<Moment>)
    requires |q.slots| == |moments| && AllWellFormed(q.channel)
    ensures
      var p := Admit(q, limit, 0, cancelled, moments);
      |p.queue.slots| == |moments| &&
        if p.timeout == -1 then p.queue.channel == [] || forall k :: 0 <= k < |moments| ==> p.queue.slots[k].Some?
        else exists k ::
          0 <= k < |moments| && p.queue.slots[k].None? && HasToWait(p.limit, p.queue.slots, moments[k])
  {
    var p := Admit(q, limit, 0, cancelled, moments);
    AdmitFillsSlots(q, limit, 0, cancelled, moments);
    ActiveFrom(p.queue.slots, 0);
    if p.timeout != -1 {
      var k :| 0 <= k < |moments| && p.queue.slots[k].None? && Paces(p.limit, p.queue.slots, moments[k]);
      assert HasToWait(p.limit, p.queue.slots, moments[k]);
    }
  }

  /** Writes are limited whenever the pass from slot `i` asks. */
  ghost predicate LimitedFrom(moments: seq<Moment>, i: nat) {
    forall k :: i <= k < |moments| ==> Limited(moments[k].waiters, moments[k].checkedAt)
  }

  /** While writes are limited, a pass beside an active write admits none. */
  lemma {:induction false} ActiveWriteBlocks(q: Queue, limit: WriteLimit, i: nat, cancelled: set<nat>,
                                             moments: seq<Moment>)
    requires i <= |q.slots| == |moments| && AllWellFormed(q.channel)
    requires limit.NotBefore? && LimitedFrom(moments, i) && HasActive(q.slots)
    ensures var p := Admit(q, limit, i, cancelled, moments); p.queue == q && p.limit == limit
    decreases |q.slots| - i
  {
    if i < |q.slots| && q.slots[i].Some? {
      AdmitSkips(q, limit, i, cancelled, moments);
      ActiveWriteBlocks(q, limit, i + 1, cancelled, moments);
    } else {
      AdmitEnds(q, limit, i, cancelled, moments);
    }
  }

  /** The pass put request `r` into slot `k` and charged it, in its time. */
  ghost predicate Admitted(q: Queue, limit: WriteLimit, moments: seq<Moment>, p: Pass, k: nat, r: Request) {
    && limit.NotBefore? && k < |q.slots| == |moments| && r in q.channel && WellFormed(r)
    && p.queue.slots == q.slots[k := Some(r)] && p.queue.submission == q.submission + [NextTransfer(k, r)]
    && limit.nextWriteAt <= moments[k].checkedAt && p.limit == Charged(limit, r, moments[k])
  }

  ghost predicate AdmittedNone(q: Queue, limit: WriteLimit, p: Pass) {
    p.queue.slots == q.slots && p.queue.submission == q.submission && p.limit == limit
  }

  /** While writes are limited, a pass admits at most one request, and only into an empty array after its time. */
  lemma LimitedPassAdmitsOne(q: Queue, limit: WriteLimit, cancelled: set<nat>, moments: seq<Moment>)
    requires |q.slots| == |moments| && AllWellFormed(q.channel) && limit.NotBefore? && LimitedFrom(moments, 0)
    ensures var p := Admit(q, limit, 0, cancelled, moments);
      AdmittedNone(q, limit, p) || (!HasActive(q.slots) && exists k, r :: Admitted(q, limit, moments, p, k, r))
  {
    ActiveFrom(q.slots, 0);
    if HasActive(q.slots) {
      ActiveWriteBlocks(q, limit, 0, cancelled, moments);
    } else if |q.slots| > 0 && q.channel != [] && !Paces(limit, q.slots, moments[0]) {
      var waiting := q.(channel := SkipCancelled(q.channel, cancelled));
      if waiting.channel != [] {
        var r := waiting.channel[0];
        var received := Receive(waiting, 0, cancelled);
        ActiveFrom(received.slots, 0);
        assert received.slots[0].Some?;
        ActiveWriteBlocks(received, Charged(limit, r, moments[0]), 1, cancelled, moments);
        assert Admitted(q, limit, moments, Admit(q, limit, 0, cancelled, moments), 0, r);
      }
    }
  }

  // ---------------------------------------------------------------- the queue thread's state

  class IoQueue {
    const requestsAwaitingCompletion: array<Option<Request>>
    var receiver: seq<Request>
    var submission: seq<Transfer>
    var writeRateLimit: WriteLimit

    /** The write queue starts with a limit, the read queue without one. */
    constructor (maxInFlight: nat, limit: WriteLimit)
      ensures View() == Queue(seq(maxInFlight, _ => None), [], []) && writeRateLimit == limit
      ensures fresh(requestsAwaitingCompletion)
    {
      requestsAwaitingCompletion := new Option<Request>[maxInFlight](_ => None);
      receiver, submission, writeRateLimit := [], [], limit;
    }

    ghost function View(): Queue
      reads this, requestsAwaitingCompletion
    {
      Queue(requestsAwaitingCompletion[..], receiver, submission)
    }

    /** The ring has as many entries as the request array has slots. */
    method QueueRequestForSubmission(i: nat)
      requires i < requestsAwaitingCompletion.Length && requestsAwaitingCompletion[i].Some?
      requires 0 <= Length(requestsAwaitingCompletion[i].value) <= requestsAwaitingCompletion[i].value.fileEnd
      requires |submission| < requestsAwaitingCompletion.Length
      modifies this`submission
      ensures submission == old(submission) + [NextTransfer(i, requestsAwaitingCompletion[i].value)]
    {
      submission := submission + [NextTransfer(i, requestsAwaitingCompletion[i].value)];
    }

    method HandleIoCompletion(i: nat, result: int, heard: bool) returns (reply: Option<Reply>)
      requires i < requestsAwaitingCompletion.Length && requestsAwaitingCompletion[i].Some?
      requires Answers(requestsAwaitingCompletion[i].value, result)
      requires |submission| < requestsAwaitingCompletion.Length
      modifies this`submission, requestsAwaitingCompletion
      ensures (View(), reply) == HandleCompletion(old(View()), i, result, heard)
    {
      var request := requestsAwaitingCompletion[i].value;
      var applied := ApplyCompletionResult(request, result);
      if applied.Some? && Length(applied.value) > 0 && heard {
        requestsAwaitingCompletion[i] := applied;
        QueueRequestForSubmission(i);
        reply := None;
      } else {
        requestsAwaitingCompletion[i] := None;
        reply := Some(Reply(request.id, applied.Some?, heard));
      }
    }

    method ReceiveOpen(cancelled: set<nat>) returns (request: Option<Request>)
      modifies this`receiver
      ensures var waiting := SkipCancelled(old(receiver), cancelled);
        if waiting == [] then request == None && receiver == []
        else request == Some(waiting[0]) && receiver == waiting[1..]
      ensures request.Some? ==> request.value in old(receiver)
    {
      while receiver != []
        invariant SkipCancelled(receiver, cancelled) == SkipCancelled(old(receiver), cancelled)
        invariant forall r :: r in receiver ==> r in old(receiver)
        decreases |receiver|
      {
        var next := receiver[0];
        receiver := receiver[1..];
        if next.id !in cancelled {
          return Some(next);
        }
      }
      return None;
    }

    /** Fills slot `i` with the first request whose caller still waits. */
    method AdmitInto(i: nat, cancelled: set<nat>) returns (request: Option<Request>)
      requires i < requestsAwaitingCompletion.Length && requestsAwaitingCompletion[i].None?
      requires AllWellFormed(receiver) && |submission| < requestsAwaitingCompletion.Length
      modifies this`receiver, this`submission, requestsAwaitingCompletion
      ensures var waiting := old(View()).(channel := SkipCancelled(old(receiver), cancelled));
        if waiting.channel == [] then request == None && View() == waiting
        else request == Some(waiting.channel[0]) && View() == Receive(waiting, i, cancelled)
    {
      request := ReceiveOpen(cancelled);
      if request.Some? {
        requestsAwaitingCompletion[i] := request;
        QueueRequestForSubmission(i);
      }
    }

    /** One slot of the pass: it ends with a timeout, or goes on after slot `i`. */
    method AdmitAt(i: nat, cancelled: set<nat>, moments: seq<Moment>) returns (ends: bool, timeout: int)
      requires i < requestsAwaitingCompletion.Length == |moments| && AllWellFormed(receiver)
      requires requestsAwaitingCompletion[i].None? ==> |submission| < requestsAwaitingCompletion.Length
      modifies this, requestsAwaitingCompletion
      ensures AllWellFormed(receiver) && View().slots[i + 1..] == old(View()).slots[i + 1..]
      ensures |submission| <= old(|submission|) + if old(requestsAwaitingCompletion[i]).None? then 1 else 0
      ensures Admit(old(View()), old(writeRateLimit), i, cancelled, moments) ==
        if ends then Pass(View(), writeRateLimit, timeout) else Admit(View(), writeRateLimit, i + 1, cancelled, moments)
    {
      ends, timeout := true, -1;
      if requestsAwaitingCompletion[i].Some? {
        return false, -1;
      }
      if receiver == [] {
        return;
      }
      if Paces(writeRateLimit, requestsAwaitingCompletion[..], moments[i]) {
        timeout := 1;
        return;
      }
      ghost var before, limit := View(), writeRateLimit;
      var admitted := AdmitInto(i, cancelled);
      AdmitFilled(before, limit, i, cancelled, moments, View());
      ends := admitted.None?;
      if admitted.Some? {
        writeRateLimit := Charged(writeRateLimit, admitted.value, moments[i]);
      }
    }

    /** Free places in the ring cover the empty slots, so every push fits. */
    method QueueRequestsForSubmission(cancelled: set<nat>, moments: seq<Moment>) returns (timeout: int)
      requires |moments| == requestsAwaitingCompletion.Length && AllWellFormed(receiver)
      requires |submission| + EmptyFrom(requestsAwaitingCompletion[..], 0) <= requestsAwaitingCompletion.Length
      modifies this, requestsAwaitingCompletion
      ensures Pass(View(), writeRateLimit, timeout) == Admit(old(View()), old(writeRateLimit), 0, cancelled, moments)
    {
      ghost var pass := Admit(View(), writeRateLimit, 0, cancelled, moments);
      var i := 0;
      while i < requestsAwaitingCompletion.Length
        invariant i <= requestsAwaitingCompletion.Length && AllWellFormed(receiver)
        invariant |submission| + EmptyFrom(View().slots, i) <= requestsAwaitingCompletion.Length
        invariant Admit(View(), writeRateLimit, i, cancelled, moments) == pass
      {
        ghost var before := View().slots;
        var ends;
        ends, timeout := AdmitAt(i, cancelled, moments);
        if ends {
          return;
        }
        EmptySuffix(before, View().slots, i + 1);
        i := i + 1;
      }
      return -1;
    }
  }
}
