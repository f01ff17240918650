/**
 Every run of an I/O queue: callers send, cancel and disconnect, the queue thread admits requests,
 submits and handles completions, and the kernel accepts and completes entries, in any order.
 */
module IoQueueRuns {
  import opened Layout
  import opened IoQueues

  /**
   `sent`, `moved`, `results` and `replies` record what happened: the requests, the transfers of each, the result of
   the last completion handled for each, and the answers.
   */
  datatype State = State(queue: Queue, kernel: seq<Transfer>, completions: seq<Completion>, open: bool,
                         cancelled: set<nat>, discarded: set<nat>, sent: map<nat, Request>,
                         moved: map<nat, seq<Transfer>>, results: map<nat, int>, replies: seq<Reply>)

  /** `Submit` hands the first `accepted` queued entries to the kernel: none of them on EINTR and EAGAIN. */
  datatype Action =
    | Send(request: Request) | Cancel(id: nat) | Disconnect
    | Admission(slot: nat) | Submit(accepted: nat) | Complete(entry: nat, result: int) | Handle

  predicate Enabled(y: State, a: Action) {
    match a
    case Send(r) => y.open && |y.queue.channel| < |y.queue.slots| && WellFormed(r) && r.id !in y.sent
    case Cancel(id) => id in y.sent
    case Disconnect => y.open
    case Admission(i) => i < |y.queue.slots| && y.queue.slots[i].None? && y.queue.channel != []
    case Submit(n) => n <= |y.queue.submission|
    case Complete(j, result) => j < |y.kernel| && result <= y.kernel[j].length
    case Handle => y.completions != []
  }

  /** The panics of the queue thread: a full ring, a completion without a request, an underflowing offset. */
  predicate Panics(y: State, a: Action)
    requires Enabled(y, a)
  {
    match a
    case Admission(i) => |y.queue.submission| >= |y.queue.slots| || !WellFormed(y.queue.channel[0])
    case Handle =>
      var c := y.completions[0];
      || c.transfer.index >= |y.queue.slots|
      || y.queue.slots[c.transfer.index].None?
      || !Answers(y.queue.slots[c.transfer.index].value, c.result)
      || |y.queue.submission| >= |y.queue.slots|
    case _ => false
  }

  function Without<T>(s: seq<T>, k: nat): seq<T>
    requires k < |s|
  {
    s[..k] + s[k + 1..]
  }

  function MovedOf(y: State, id: nat): seq<Transfer> {
    if id in y.moved then y.moved[id] else []
  }

  function Apply(y: State, a: Action): State
    requires Enabled(y, a) && !Panics(y, a)
  {
    match a
    case Send(r) =>
      y.(queue := y.queue.(channel := y.queue.channel + [r]), sent := y.sent[r.id := r], moved := y.moved[r.id := []])
    case Cancel(id) => y.(cancelled := y.cancelled + {id})
    case Disconnect => y.(open := false)
    case Admission(i) =>
      var id := y.queue.channel[0].id;
      y.(queue := Receive(y.queue, i, y.cancelled), discarded := y.discarded + if id in y.cancelled then {id} else {})
    case Submit(n) =>
      y.(queue := y.queue.(submission := y.queue.submission[n..]), kernel := y.kernel + y.queue.submission[..n])
    case Complete(j, result) =>
      var t := y.kernel[j];
      y.(kernel := Without(y.kernel, j), completions := y.completions + [Completion(t, result)],
         moved := if result > 0 then y.moved[t.id := MovedOf(y, t.id) + [t.(length := result)]] else y.moved)
    case Handle =>
      var c := y.completions[0];
      var heard := y.queue.slots[c.transfer.index].value.id !in y.cancelled;
      var (queue, reply) := HandleCompletion(y.queue, c.transfer.index, c.result, heard);
      y.(queue := queue, completions := y.completions[1..], results := y.results[c.transfer.id := c.result],
         replies := y.replies + if reply.Some? then [reply.value] else [])
  }

  ghost predicate Reaches(y: State, actions: seq<Action>, z: State)
    decreases |actions|
  {
    if actions == [] then z == y
    else Enabled(y, actions[0]) && !Panics(y, actions[0]) && Reaches(Apply(y, actions[0]), actions[1..], z)
  }

  function Start(slots: nat): State {
    State(Queue(seq(slots, _ => None), [], []), [], [], true, {}, {}, map[], map[], map[], [])
  }

  // ---------------------------------------------------------------- counting

  /** How many elements of `s` stand for `n`. */
  ghost function Count<T>(s: seq<T>, key: T -> Option<nat>, n: nat): nat {
    if s == [] then 0 else (if key(s[0]) == Some(n) then 1 else 0) + Count(s[1..], key, n)
  }

  ghost function One<T>(x: T, key: T -> Option<nat>, n: nat): nat {
    if key(x) == Some(n) then 1 else 0
  }

  lemma {:induction false} CountConcat<T>(a: seq<T>, b: seq<T>, key: T -> Option<nat>, n: nat)
    ensures Count(a + b, key, n) == Count(a, key, n) + Count(b, key, n)
  {
    if a == [] {
      assert a + b == b;
    } else {
      assert (a + b)[1..] == a[1..] + b;
      CountConcat(a[1..], b, key, n);
    }
  }

  lemma CountPush<T>(s: seq<T>, x: T, key: T -> Option<nat>, n: nat)
    ensures Count(s + [x], key, n) == Count(s, key, n) + One(x, key, n)
  {
    CountConcat(s, [x], key, n);
    assert [x][1..] == [];
  }

  lemma CountWithout<T>(s: seq<T>, k: nat, key: T -> Option<nat>, n: nat)
    requires k < |s|
    ensures Count(s, key, n) == Count(Without(s, k), key, n) + One(s[k], key, n)
  {
    assert s == (s[..k] + [s[k]]) + s[k + 1..];
    CountConcat(s[..k] + [s[k]], s[k + 1..], key, n);
    CountPush(s[..k], s[k], key, n);
    CountConcat(s[..k], s[k + 1..], key, n);
  }

  lemma CountUpdate<T>(s: seq<T>, k: nat, x: T, key: T -> Option<nat>, n: nat)
    requires k < |s|
    ensures Count(s[k := x], key, n) + One(s[k], key, n) == Count(s, key, n) + One(x, key, n)
  {
    assert Without(s[k := x], k) == Without(s, k);
    CountWithout(s, k, key, n);
    CountWithout(s[k := x], k, key, n);
  }

  /** An element that stands for `n` is counted. */
  lemma Counted<T>(s: seq<T>, x: T, key: T -> Option<nat>, n: nat)
    requires x in s && key(x) == Some(n)
    ensures Count(s, key, n) > 0
  {
    var k :| 0 <= k < |s| && s[k] == x;
    CountWithout(s, k, key, n);
  }

  ghost function TransferSlot(t: Transfer): Option<nat> { Some(t.index) }
  ghost function CompletionSlot(c: Completion): Option<nat> { Some(c.transfer.index) }
  ghost function RequestId(r: Request): Option<nat> { Some(r.id) }
  ghost function SlotId(slot: Option<Request>): Option<nat> { if slot.Some? then Some(slot.value.id) else None }
  ghost function ReplyId(p: Reply): Option<nat> { Some(p.id) }

  // ---------------------------------------------------------------- what every step keeps

  /** Outstanding entries of slot `i`: queued, accepted, or completed and not yet handled. */
  ghost function Entries(y: State, i: nat): nat {
    var queued, accepted := Count(y.queue.submission, TransferSlot, i), Count(y.kernel, TransferSlot, i);
    queued + accepted + Count(y.completions, CompletionSlot, i)
  }

  ghost predicate Occupied(q: Queue, i: nat) {
    i < |q.slots| && q.slots[i].Some?
  }

  /** Each occupied slot has exactly one outstanding entry. */
  ghost predicate OneEntryPerSlot(y: State) {
    forall i: nat :: Entries(y, i) == if Occupied(y.queue, i) then 1 else 0
  }

  /** Where request `id` is: waiting, in a slot, answered or discarded. */
  ghost function Places(y: State, id: nat): nat {
    Count(y.queue.channel, RequestId, id) + Count(y.queue.slots, SlotId, id) + Count(y.replies, ReplyId, id)
      + if id in y.discarded then 1 else 0
  }

  /** Each sent request is in exactly one of these places, once. */
  ghost predicate Accounted(y: State) {
    forall id: nat :: Places(y, id) == if id in y.sent then 1 else 0
  }

  /** An outstanding entry transfers all that remains of its slot's request. */
  ghost predicate Matches(q: Queue, t: Transfer) {
    && t.index < |q.slots| && q.slots[t.index].Some? && WellFormed(q.slots[t.index].value)
    && t == NextTransfer(t.index, q.slots[t.index].value)
  }

  ghost predicate EntriesMatch(y: State) {
    && (forall k :: 0 <= k < |y.queue.submission| ==> Matches(y.queue, y.queue.submission[k]))
    && (forall k :: 0 <= k < |y.kernel| ==> Matches(y.queue, y.kernel[k]))
    && (forall k :: 0 <= k < |y.completions| ==>
          Matches(y.queue, y.completions[k].transfer) && y.completions[k].result <= y.completions[k].transfer.length)
  }

  function Total(pieces: seq<Transfer>): nat {
    if pieces == [] then 0 else Total(pieces[..|pieces| - 1]) + pieces[|pieces| - 1].length
  }

  /** The pieces follow one another from the request's first byte, in the file and in the buffer. */
  ghost predicate Tiles(pieces: seq<Transfer>, r: Request) {
    pieces != [] ==>
      var before, last := pieces[..|pieces| - 1], pieces[|pieces| - 1];
      && Tiles(before, r) && last.length > 0
      && last.offset == r.fileEnd - Length(r) + Total(before) && last.start == r.start + Total(before)
  }

  /** Bytes that a completion reports as transferred. */
  function Bytes(result: int): nat {
    if result > 0 then result else 0
  }

  /** Bytes of slot `i` whose completion has not been handled. */
  ghost function Unhandled(completions: seq<Completion>, i: nat): nat {
    if completions == [] then 0
    else
      var first := completions[0];
      (if first.transfer.index == i then Bytes(first.result) else 0) + Unhandled(completions[1..], i)
  }

  ghost predicate Waiting(y: State, r: Request) {
    r.id in y.sent && r.id in y.moved && y.sent[r.id] == r && y.moved[r.id] == []
  }

  ghost predicate Progress(y: State, i: nat)
    requires i < |y.queue.slots| && y.queue.slots[i].Some?
  {
    var r := y.queue.slots[i].value;
    && r.id in y.sent && r.id in y.moved && WellFormed(r)
    && y.sent[r.id] == r.(start := y.sent[r.id].start) && y.sent[r.id].start <= r.start
    && Total(y.moved[r.id]) == r.start - y.sent[r.id].start + Unhandled(y.completions, i)
  }

  ghost predicate Sent(r: Request, pieces: seq<Transfer>) {
    WellFormed(r) && Tiles(pieces, r) && Total(pieces) <= Length(r)
  }

  ghost predicate Transfers(y: State) {
    && y.moved.Keys == y.sent.Keys && y.discarded <= y.cancelled
    && (forall id :: id in y.sent ==> Sent(y.sent[id], y.moved[id]))
    && (forall r :: r in y.queue.channel ==> Waiting(y, r))
    && (forall i :: 0 <= i < |y.queue.slots| && y.queue.slots[i].Some? ==> Progress(y, i))
  }

  /** A caller hears success exactly when every byte of its request was transferred. */
  ghost predicate Answered(y: State, p: Reply) {
    p.id in y.sent && p.id in y.moved && (p.heard ==> (p.ok <==> Total(y.moved[p.id]) == Length(y.sent[p.id])))
  }

  ghost predicate Replied(y: State) {
    && (forall k :: 0 <= k < |y.replies| ==> Answered(y, y.replies[k]))
    && (forall k :: 0 <= k < |y.replies| && !y.replies[k].heard ==> y.replies[k].id in y.cancelled)
  }

  ghost predicate Inv(y: State) {
    OneEntryPerSlot(y) && Accounted(y) && EntriesMatch(y) && Transfers(y) && Replied(y)
  }

  // ---------------------------------------------------------------- uses of the counts

  /** The slot of a completion has no other outstanding entry. */
  lemma OnlyEntry(y: State)
    requires OneEntryPerSlot(y) && y.completions != []
    ensures var i := y.completions[0].transfer.index;
      && Count(y.queue.submission, TransferSlot, i) == 0 && Count(y.kernel, TransferSlot, i) == 0
      && Count(y.completions[1..], CompletionSlot, i) == 0
  {
    assert Entries(y, y.completions[0].transfer.index) <= 1;
  }

  lemma OnlyKernelEntry(y: State, k: nat)
    requires OneEntryPerSlot(y) && k < |y.kernel|
    ensures Count(y.completions, CompletionSlot, y.kernel[k].index) == 0
  {
    Counted(y.kernel, y.kernel[k], TransferSlot, y.kernel[k].index);
    assert Entries(y, y.kernel[k].index) <= 1;
  }

  lemma {:induction false} NoneUnhandled(completions: seq<Completion>, i: nat)
    requires Count(completions, CompletionSlot, i) == 0
    ensures Unhandled(completions, i) == 0
  {
    if completions != [] {
      NoneUnhandled(completions[1..], i);
    }
  }

  lemma {:induction false} UnhandledPush(completions: seq<Completion>, c: Completion, i: nat)
    ensures Unhandled(completions + [c], i) ==
      Unhandled(completions, i) + if c.transfer.index == i then Bytes(c.result) else 0
  {
    if completions == [] {
      assert completions + [c] == [c];
      assert Unhandled([c][1..], i) == 0;
    } else {
      assert (completions + [c])[1..] == completions[1..] + [c];
      UnhandledPush(completions[1..], c, i);
    }
  }

  /** Two slots never hold the same request, and an answered or waiting one is in no slot. */
  lemma SlotIdsDiffer(y: State, i: nat)
    requires Accounted(y) && Occupied(y.queue, i)
    ensures var id := y.queue.slots[i].value.id;
      && (forall k :: 0 <= k < |y.queue.slots| && k != i && y.queue.slots[k].Some? ==> y.queue.slots[k].value.id != id)
      && (forall r :: r in y.queue.channel ==> r.id != id)
      && (forall k :: 0 <= k < |y.replies| ==> y.replies[k].id != id)
  {
    var slots, id := y.queue.slots, y.queue.slots[i].value.id;
    assert Places(y, id) <= 1;
    CountWithout(slots, i, SlotId, id);
    forall k | 0 <= k < |slots| && k != i && slots[k].Some? ensures slots[k].value.id != id {
      var others := Without(slots, i);
      assert slots[k] == others[if k < i then k else k - 1];
      if slots[k].value.id == id {
        Counted(others, slots[k], SlotId, id);
      }
    }
    forall r | r in y.queue.channel ensures r.id != id {
      if r.id == id {
        Counted(y.queue.channel, r, RequestId, id);
      }
    }
    forall k | 0 <= k < |y.replies| ensures y.replies[k].id != id {
      if y.replies[k].id == id {
        Counted(y.replies, y.replies[k], ReplyId, id);
      }
    }
  }

  // ---------------------------------------------------------------- handling a completion

  /** `z` follows `y` when the first completion is handled: its slot `i` goes from `r` to `x`. */
  ghost predicate Handled(y: State, z: State, i: nat, r: Request, x: Option<Request>) {
    && y.completions != [] && y.completions[0].transfer.index == i
    && Occupied(y.queue, i) && y.queue.slots[i] == Some(r)
    && z.queue.slots == y.queue.slots[i := x] && z.queue.channel == y.queue.channel
    && z.kernel == y.kernel && z.completions == y.completions[1..]
    && z.sent == y.sent && z.moved == y.moved && z.cancelled == y.cancelled && z.discarded == y.discarded
    && var result := y.completions[0].result;
       match x
       case Some(rest) =>
         && rest == r.(start := r.start + Bytes(result)) && 0 < Length(rest) <= rest.fileEnd
         && Bytes(result) % ALIGNMENT == 0
         && z.queue.submission == y.queue.submission + [NextTransfer(i, rest)] && z.replies == y.replies
       case None =>
         && z.queue.submission == y.queue.submission
         && (exists p :: ResultOf(y, r, result, p) && z.replies == y.replies + [p])
  }

  /** What request `r`'s caller may be told after a last completion with `result`. */
  ghost predicate ResultOf(y: State, r: Request, result: int, p: Reply) {
    && p.id == r.id && (p.heard || r.id in y.cancelled)
    && (p.heard && p.ok ==> Bytes(result) >= Length(r))
    && (!p.ok ==> Bytes(result) == 0 || Bytes(result) % ALIGNMENT != 0)
  }

  lemma HandleShape(y: State) returns (i: nat, r: Request, x: Option<Request>)
    requires EntriesMatch(y) && Enabled(y, Handle) && !Panics(y, Handle)
    ensures Handled(y, Apply(y, Handle), i, r, x) && Matches(y.queue, y.completions[0].transfer)
  {
    i := y.completions[0].transfer.index;
    assert Matches(y.queue, y.completions[0].transfer);
    r := y.queue.slots[i].value;
    x := Apply(y, Handle).queue.slots[i];
    if x.None? {
      var p := Reply(r.id, ApplyCompletionResult(r, y.completions[0].result).Some?, r.id !in y.cancelled);
      assert ResultOf(y, r, y.completions[0].result, p) && Apply(y, Handle).replies == y.replies + [p];
    }
  }

  // ---------------------------------------------------------------- entries and requests are conserved

  lemma HandleEntries(y: State, z: State, i: nat, r: Request, x: Option<Request>, n: nat)
    requires Handled(y, z, i, r, x) && Entries(y, n) == if Occupied(y.queue, n) then 1 else 0
    ensures Entries(z, n) == if Occupied(z.queue, n) then 1 else 0
  {
    if x.Some? {
      CountPush(y.queue.submission, NextTransfer(i, x.value), TransferSlot, n);
    }
  }

  lemma SubmitEntries(y: State, n: nat, i: nat)
    requires Enabled(y, Submit(n))
    ensures Entries(Apply(y, Submit(n)), i) == Entries(y, i)
  {
    var ring := y.queue.submission;
    assert ring == ring[..n] + ring[n..];
    CountConcat(ring[..n], ring[n..], TransferSlot, i);
    CountConcat(y.kernel, ring[..n], TransferSlot, i);
  }

  lemma EntriesKept(y: State, a: Action, i: nat)
    requires EntriesMatch(y) && Enabled(y, a) && !Panics(y, a)
    requires Entries(y, i) == if Occupied(y.queue, i) then 1 else 0
    ensures Entries(Apply(y, a), i) == if Occupied(Apply(y, a).queue, i) then 1 else 0
  {
    var q := y.queue;
    match a
    case Admission(k) =>
      if q.channel[0].id !in y.cancelled {
        CountPush(q.submission, NextTransfer(k, q.channel[0]), TransferSlot, i);
      }
    case Submit(n) =>
      SubmitEntries(y, n, i);
    case Complete(j, result) =>
      CountWithout(y.kernel, j, TransferSlot, i);
      CountPush(y.completions, Completion(y.kernel[j], result), CompletionSlot, i);
    case Handle =>
      var k, r, x := HandleShape(y);
      HandleEntries(y, Apply(y, a), k, r, x, i);
    case _ =>
  }

  lemma HandlePlaces(y: State, z: State, i: nat, r: Request, x: Option<Request>, id: nat)
    requires Handled(y, z, i, r, x) && Places(y, id) == if id in y.sent then 1 else 0
    ensures Places(z, id) == if id in z.sent then 1 else 0
  {
    CountUpdate(y.queue.slots, i, x, SlotId, id);
    if x.None? {
      CountPush(y.replies, z.replies[|y.replies|], ReplyId, id);
    }
  }

  lemma PlacesKept(y: State, a: Action, id: nat)
    requires EntriesMatch(y) && Enabled(y, a) && !Panics(y, a)
    requires Places(y, id) == if id in y.sent then 1 else 0
    ensures Places(Apply(y, a), id) == if id in Apply(y, a).sent then 1 else 0
  {
    var q := y.queue;
    match a
    case Send(r) => CountPush(q.channel, r, RequestId, id);
    case Admission(i) =>
      if q.channel[0].id !in y.cancelled {
        CountUpdate(q.slots, i, Some(q.channel[0]), SlotId, id);
      }
    case Handle =>
      var i, r, x := HandleShape(y);
      HandlePlaces(y, Apply(y, a), i, r, x, id);
    case _ =>
  }

  // ---------------------------------------------------------------- entries match their requests

  lemma MatchElsewhere(q: Queue, after: Queue, i: nat, t: Transfer)
    requires Matches(q, t) && t.index != i && i < |q.slots| && i < |after.slots|
    requires after.slots == q.slots[i := after.slots[i]]
    ensures Matches(after, t)
  {
  }

  /** After slot `i` changed, the entries that are not of slot `i` still match. */
  lemma OthersMatch(y: State, after: Queue, i: nat, submission: seq<Transfer>, completions: seq<Completion>)
    requires EntriesMatch(y) && i < |y.queue.slots| == |after.slots|
    requires after.slots == y.queue.slots[i := after.slots[i]]
    requires submission == y.queue.submission && Count(submission, TransferSlot, i) == 0
    requires Count(y.kernel, TransferSlot, i) == 0
    requires (forall c :: c in completions ==> c in y.completions) && Count(completions, CompletionSlot, i) == 0
    ensures forall k :: 0 <= k < |submission| ==> Matches(after, submission[k])
    ensures forall k :: 0 <= k < |y.kernel| ==> Matches(after, y.kernel[k])
    ensures forall k :: 0 <= k < |completions| ==>
      Matches(after, completions[k].transfer) && completions[k].result <= completions[k].transfer.length
  {
    forall k | 0 <= k < |submission| ensures Matches(after, submission[k]) {
      if submission[k].index == i {
        Counted(submission, submission[k], TransferSlot, i);
      }
      MatchElsewhere(y.queue, after, i, submission[k]);
    }
    forall k | 0 <= k < |y.kernel| ensures Matches(after, y.kernel[k]) {
      if y.kernel[k].index == i {
        Counted(y.kernel, y.kernel[k], TransferSlot, i);
      }
      MatchElsewhere(y.queue, after, i, y.kernel[k]);
    }
    forall k | 0 <= k < |completions|
      ensures Matches(after, completions[k].transfer) && completions[k].result <= completions[k].transfer.length
    {
      if completions[k].transfer.index == i {
        Counted(completions, completions[k], CompletionSlot, i);
      }
      assert completions[k] in y.completions;
      MatchElsewhere(y.queue, after, i, completions[k].transfer);
    }
  }

  lemma HandleMatches(y: State, z: State, i: nat, r: Request, x: Option<Request>)
    requires OneEntryPerSlot(y) && EntriesMatch(y) && Handled(y, z, i, r, x)
    ensures EntriesMatch(z)
  {
    OnlyEntry(y);
    assert Matches(y.queue, y.completions[0].transfer);
    OthersMatch(y, z.queue, i, y.queue.submission, z.completions);
  }

  lemma AdmissionMatches(y: State, i: nat)
    requires OneEntryPerSlot(y) && EntriesMatch(y) && Enabled(y, Admission(i)) && !Panics(y, Admission(i))
    ensures EntriesMatch(Apply(y, Admission(i)))
  {
    var z := Apply(y, Admission(i));
    assert Entries(y, i) == 0;
    OthersMatch(y, z.queue, i, y.queue.submission, y.completions);
  }

  lemma SameSlotsMatch(y: State, z: State)
    requires EntriesMatch(y) && z.queue.slots == y.queue.slots
    requires forall t :: t in z.queue.submission + z.kernel ==> t in y.queue.submission + y.kernel
    requires forall c :: c in z.completions ==>
      c in y.completions || (c.transfer in y.kernel && c.result <= c.transfer.length)
    ensures EntriesMatch(z)
  {
    forall t | t in y.queue.submission + y.kernel ensures Matches(z.queue, t) {
      assert Matches(y.queue, t);
    }
    forall k | 0 <= k < |z.queue.submission| ensures Matches(z.queue, z.queue.submission[k]) {
      assert z.queue.submission[k] in z.queue.submission + z.kernel;
    }
    forall k | 0 <= k < |z.kernel| ensures Matches(z.queue, z.kernel[k]) {
      assert z.kernel[k] in z.queue.submission + z.kernel;
    }
    forall k | 0 <= k < |z.completions|
      ensures Matches(z.queue, z.completions[k].transfer) && z.completions[k].result <= z.completions[k].transfer.length
    {
      assert z.completions[k] in z.completions;
      assert z.completions[k] in y.completions ==> Matches(y.queue, z.completions[k].transfer);
      assert z.completions[k].transfer in y.kernel ==> Matches(y.queue, z.completions[k].transfer);
    }
  }

  lemma MatchesKept(y: State, a: Action)
    requires OneEntryPerSlot(y) && EntriesMatch(y) && Enabled(y, a) && !Panics(y, a)
    ensures EntriesMatch(Apply(y, a))
  {
    match a
    case Admission(i) => AdmissionMatches(y, i);
    case Handle =>
      var i, r, x := HandleShape(y);
      HandleMatches(y, Apply(y, a), i, r, x);
    case _ => SameSlotsMatch(y, Apply(y, a));
  }

  // ---------------------------------------------------------------- bytes follow one another

  lemma TransfersFrame(y: State, z: State)
    requires Transfers(y) && z.queue.slots == y.queue.slots && z.completions == y.completions
    requires z.moved.Keys == z.sent.Keys && z.discarded <= z.cancelled
    requires forall id :: id in y.sent ==> id in z.sent && z.sent[id] == y.sent[id] && z.moved[id] == y.moved[id]
    requires forall id :: id in z.sent && id !in y.sent ==> WellFormed(z.sent[id]) && z.moved[id] == []
    requires forall r :: r in z.queue.channel ==> r in y.queue.channel || Waiting(z, r)
    ensures Transfers(z)
  {
    forall r | r in z.queue.channel ensures Waiting(z, r) {
      assert r in y.queue.channel ==> Waiting(y, r);
    }
    forall i | 0 <= i < |z.queue.slots| && z.queue.slots[i].Some? ensures Progress(z, i) {
      assert Progress(y, i);
    }
  }

  lemma AdmissionTransfers(y: State, i: nat)
    requires OneEntryPerSlot(y) && Transfers(y) && Enabled(y, Admission(i)) && !Panics(y, Admission(i))
    ensures Transfers(Apply(y, Admission(i)))
  {
    var z, r := Apply(y, Admission(i)), y.queue.channel[0];
    assert Waiting(y, r);
    forall x | x in z.queue.channel ensures Waiting(z, x) {
      assert x in y.queue.channel;
    }
    assert Entries(y, i) == 0;
    NoneUnhandled(y.completions, i);
    forall k | 0 <= k < |z.queue.slots| && z.queue.slots[k].Some? ensures Progress(z, k) {
      assert k != i ==> Progress(y, k);
    }
  }

  /** A piece that starts where the transferred bytes end extends the tiling. */
  lemma TilesPush(pieces: seq<Transfer>, r: Request, t: Transfer)
    requires Tiles(pieces, r) && t.length > 0
    requires t.offset == r.fileEnd - Length(r) + Total(pieces) && t.start == r.start + Total(pieces)
    ensures Tiles(pieces + [t], r) && Total(pieces + [t]) == Total(pieces) + t.length
  {
    assert (pieces + [t])[..|pieces|] == pieces;
  }

  /** The bytes a completion reports extend the tiling of its request. */
  lemma CompleteSent(y: State, j: nat, result: int)
    requires OneEntryPerSlot(y) && EntriesMatch(y) && Transfers(y) && Enabled(y, Complete(j, result))
    ensures y.kernel[j].id in y.sent
    ensures var id, z := y.kernel[j].id, Apply(y, Complete(j, result));
      && z.moved.Keys == y.moved.Keys && Sent(y.sent[id], z.moved[id])
      && Total(z.moved[id]) == Total(y.moved[id]) + Bytes(result)
  {
    var t := y.kernel[j];
    assert Matches(y.queue, t) && Progress(y, t.index);
    OnlyKernelEntry(y, j);
    NoneUnhandled(y.completions, t.index);
    if result > 0 {
      TilesPush(y.moved[t.id], y.sent[t.id], t.(length := result));
    }
  }

  lemma CompleteProgress(y: State, z: State, t: Transfer, result: int, k: nat)
    requires Occupied(y.queue, k) && Progress(y, k) && Matches(y.queue, t)
    requires z.queue == y.queue && z.sent == y.sent && z.completions == y.completions + [Completion(t, result)]
    requires y.queue.slots[k].value.id != t.id ==>
      z.moved.Keys == y.moved.Keys && z.moved[y.queue.slots[k].value.id] == y.moved[y.queue.slots[k].value.id]
    requires y.queue.slots[k].value.id == t.id ==>
      k == t.index && t.id in y.moved && t.id in z.moved && Total(z.moved[t.id]) == Total(y.moved[t.id]) + Bytes(result)
    ensures Progress(z, k)
  {
    UnhandledPush(y.completions, Completion(t, result), k);
  }

  /** No other slot holds request `id`, and it waits in no channel. */
  ghost predicate OnlyIn(q: Queue, i: nat, id: nat) {
    && (forall k :: 0 <= k < |q.slots| && k != i && q.slots[k].Some? ==> q.slots[k].value.id != id)
    && (forall r :: r in q.channel ==> r.id != id)
  }

  lemma CompleteFrame(y: State, z: State, t: Transfer, result: int)
    requires Transfers(y) && Matches(y.queue, t) && OnlyIn(y.queue, t.index, t.id) && t.id in y.sent
    requires z == y.(kernel := z.kernel, completions := y.completions + [Completion(t, result)], moved := z.moved)
    requires z.moved.Keys == y.moved.Keys && forall id :: id in y.moved && id != t.id ==> z.moved[id] == y.moved[id]
    requires Sent(y.sent[t.id], z.moved[t.id]) && Total(z.moved[t.id]) == Total(y.moved[t.id]) + Bytes(result)
    ensures Transfers(z)
  {
    forall r | r in z.queue.channel ensures Waiting(z, r) {
      assert Waiting(y, r);
    }
    forall k | 0 <= k < |z.queue.slots| && z.queue.slots[k].Some? ensures Progress(z, k) {
      assert Progress(y, k);
      CompleteProgress(y, z, t, result, k);
    }
  }

  lemma CompleteTransfers(y: State, j: nat, result: int)
    requires OneEntryPerSlot(y) && Accounted(y) && EntriesMatch(y) && Transfers(y) && Enabled(y, Complete(j, result))
    ensures Transfers(Apply(y, Complete(j, result)))
  {
    assert Matches(y.queue, y.kernel[j]);
    CompleteSent(y, j, result);
    SlotIdsDiffer(y, y.kernel[j].index);
    CompleteFrame(y, Apply(y, Complete(j, result)), y.kernel[j], result);
  }

  lemma HandleProgress(y: State, z: State, i: nat, r: Request, x: Option<Request>, k: nat)
    requires Handled(y, z, i, r, x) && Occupied(z.queue, k) && Progress(y, k)
    ensures Progress(z, k)
  {
  }

  lemma HandleTransfers(y: State, z: State, i: nat, r: Request, x: Option<Request>)
    requires Transfers(y) && Handled(y, z, i, r, x)
    ensures Transfers(z)
  {
    forall r | r in z.queue.channel ensures Waiting(z, r) {
      assert Waiting(y, r);
    }
    forall k | 0 <= k < |z.queue.slots| && z.queue.slots[k].Some? ensures Progress(z, k) {
      assert Progress(y, k);
      HandleProgress(y, z, i, r, x, k);
    }
  }

  lemma QuietTransfers(y: State, a: Action)
    requires Transfers(y) && Enabled(y, a) && !a.Admission? && !a.Complete? && !a.Handle?
    ensures Transfers(Apply(y, a))
  {
    TransfersFrame(y, Apply(y, a));
  }

  lemma TransfersKept(y: State, a: Action)
    requires OneEntryPerSlot(y) && Accounted(y) && EntriesMatch(y) && Transfers(y) && Enabled(y, a) && !Panics(y, a)
    ensures Transfers(Apply(y, a))
  {
    match a
    case Admission(i) => AdmissionTransfers(y, i);
    case Complete(j, result) => CompleteTransfers(y, j, result);
    case Handle =>
      var i, r, x := HandleShape(y);
      HandleTransfers(y, Apply(y, a), i, r, x);
    case _ => QuietTransfers(y, a);
  }

  // ---------------------------------------------------------------- results

  lemma CompleteReplied(y: State, j: nat, result: int)
    requires Accounted(y) && EntriesMatch(y) && Replied(y) && Enabled(y, Complete(j, result))
    ensures Replied(Apply(y, Complete(j, result)))
  {
    var z, t := Apply(y, Complete(j, result)), y.kernel[j];
    assert Matches(y.queue, t);
    SlotIdsDiffer(y, t.index);
    forall k | 0 <= k < |z.replies| ensures Answered(z, z.replies[k]) {
      assert Answered(y, y.replies[k]);
    }
  }

  lemma HandledTotal(y: State, z: State, i: nat, r: Request, x: Option<Request>)
    requires OneEntryPerSlot(y) && Transfers(y) && Handled(y, z, i, r, x)
    ensures Progress(y, i) && Total(y.moved[r.id]) == r.start - y.sent[r.id].start + Bytes(y.completions[0].result)
  {
    assert Progress(y, i);
    OnlyEntry(y);
    NoneUnhandled(y.completions[1..], i);
  }

  lemma HandleReplied(y: State, z: State, i: nat, r: Request, x: Option<Request>)
    requires Handled(y, z, i, r, x) && Replied(y) && Progress(y, i) && y.completions[0].result <= Length(r)
    requires Total(y.moved[r.id]) == r.start - y.sent[r.id].start + Bytes(y.completions[0].result)
    ensures Replied(z)
  {
    forall k | 0 <= k < |z.replies| ensures Answered(z, z.replies[k]) {
      assert k < |y.replies| ==> Answered(y, y.replies[k]);
    }
  }

  lemma RepliedFrame(y: State, z: State)
    requires Replied(y) && z.replies == y.replies && y.cancelled <= z.cancelled
    requires forall p :: p in y.replies ==> p.id in z.sent && p.id in z.moved
    requires forall id :: id in y.sent && id in y.moved && id in z.sent && id in z.moved ==>
      z.sent[id] == y.sent[id] && z.moved[id] == y.moved[id]
    ensures Replied(z)
  {
    forall k | 0 <= k < |z.replies| ensures Answered(z, z.replies[k]) {
      assert Answered(y, y.replies[k]);
    }
  }

  lemma QuietReplied(y: State, a: Action)
    requires Replied(y) && Enabled(y, a) && !Panics(y, a) && !a.Complete? && !a.Handle?
    ensures Replied(Apply(y, a))
  {
    forall p | p in y.replies ensures p.id in y.sent && p.id in y.moved {
      assert Answered(y, p);
    }
    RepliedFrame(y, Apply(y, a));
  }

  lemma RepliedKept(y: State, a: Action)
    requires OneEntryPerSlot(y) && Accounted(y) && EntriesMatch(y) && Transfers(y) && Replied(y) && Enabled(y, a)
    requires !Panics(y, a)
    ensures Replied(Apply(y, a))
  {
    match a
    case Complete(j, result) => CompleteReplied(y, j, result);
    case Handle =>
      var i, r, x := HandleShape(y);
      HandledTotal(y, Apply(y, a), i, r, x);
      HandleReplied(y, Apply(y, a), i, r, x);
    case _ => QuietReplied(y, a);
  }

  // ---------------------------------------------------------------- every run

  lemma ApplyKeepsInv(y: State, a: Action)
    requires Inv(y) && Enabled(y, a) && !Panics(y, a)
    ensures Inv(Apply(y, a))
  {
    forall i: nat ensures Entries(Apply(y, a), i) == if Occupied(Apply(y, a).queue, i) then 1 else 0 {
      EntriesKept(y, a, i);
    }
    forall id: nat ensures Places(Apply(y, a), id) == if id in Apply(y, a).sent then 1 else 0 {
      PlacesKept(y, a, id);
    }
    MatchesKept(y, a);
    TransfersKept(y, a);
    RepliedKept(y, a);
  }

  lemma {:induction false} RunKeepsInv(y: State, actions: seq<Action>, z: State)
    requires Inv(y) && Reaches(y, actions, z)
    ensures Inv(z) && |z.queue.slots| == |y.queue.slots|
    decreases |actions|
  {
    if actions != [] {
      ApplyKeepsInv(y, actions[0]);
      RunKeepsInv(Apply(y, actions[0]), actions[1..], z);
    }
  }

  lemma {:induction false} EmptySlots(slots: nat, id: nat)
    ensures Count(seq(slots, _ => None), SlotId, id) == 0
  {
    if slots > 0 {
      var all: seq<Option<Request>> := seq(slots, _ => None);
      assert all[1..] == seq(slots - 1, _ => None);
      EmptySlots(slots - 1, id);
    }
  }

  /** Every reachable state keeps the invariant. */
  lemma QueueInvariant(slots: nat, actions: seq<Action>, z: State)
    requires Reaches(Start(slots), actions, z)
    ensures Inv(z) && |z.queue.slots| == slots
  {
    var y := Start(slots);
    forall id: nat ensures Places(y, id) == 0 {
      EmptySlots(slots, id);
    }
    RunKeepsInv(y, actions, z);
  }

  // ---------------------------------------------------------------- the ring never overflows

  /** The counts of all slots add up to the number of entries. */
  lemma {:induction false} SumOfCounts<T>(s: seq<T>, key: T -> Option<nat>, n: nat)
    requires forall x :: x in s ==> key(x).Some? && key(x).value < n
    ensures Sums(s, key, n) == |s|
  {
    if s == [] {
      SumOfNone(key, n);
    } else {
      SumOfCounts(s[1..], key, n);
      SumOfCons(s, key, n);
    }
  }

  ghost function Sums<T>(s: seq<T>, key: T -> Option<nat>, n: nat): nat {
    if n == 0 then 0 else Sums(s, key, n - 1) + Count(s, key, n - 1)
  }

  lemma {:induction false} SumOfNone<T>(key: T -> Option<nat>, n: nat)
    ensures Sums([], key, n) == 0
  {
    if n > 0 {
      SumOfNone(key, n - 1);
    }
  }

  lemma {:induction false} SumOfCons<T>(s: seq<T>, key: T -> Option<nat>, n: nat)
    requires s != [] && key(s[0]).Some?
    ensures Sums(s, key, n) == Sums(s[1..], key, n) + if key(s[0]).value < n then 1 else 0
  {
    if n > 0 {
      SumOfCons(s, key, n - 1);
    }
  }

  lemma {:induction false} SumOfEntries(y: State, n: nat)
    requires OneEntryPerSlot(y) && n <= |y.queue.slots|
    ensures
      var queued, accepted := Sums(y.queue.submission, TransferSlot, n), Sums(y.kernel, TransferSlot, n);
      queued + accepted + Sums(y.completions, CompletionSlot, n) == n - EmptyBelow(y.queue.slots, n)
  {
    if n > 0 {
      SumOfEntries(y, n - 1);
      assert Entries(y, n - 1) == if Occupied(y.queue, n - 1) then 1 else 0;
    }
  }

  ghost function EmptyBelow(slots: seq<Option<Request>>, n: nat): nat
    requires n <= |slots|
  {
    if n == 0 then 0 else EmptyBelow(slots, n - 1) + if slots[n - 1].None? then 1 else 0
  }

  lemma {:induction false} EmptySplit(slots: seq<Option<Request>>, n: nat)
    requires n <= |slots|
    ensures EmptyBelow(slots, n) + EmptyFrom(slots, n) == EmptyFrom(slots, 0)
  {
    if n > 0 {
      EmptySplit(slots, n - 1);
    }
  }

  /** Entries outstanding are as many as occupied slots, so the ring has a place for every empty slot. */
  lemma EntriesFit(y: State)
    requires OneEntryPerSlot(y) && EntriesMatch(y)
    ensures |y.queue.submission| + |y.kernel| + |y.completions| + EmptyFrom(y.queue.slots, 0) == |y.queue.slots|
  {
    var n: nat := |y.queue.slots|;
    SumOfEntries(y, n);
    EmptySplit(y.queue.slots, n);
    forall t | t in y.queue.submission + y.kernel ensures t.index < n {
      assert Matches(y.queue, t);
    }
    SumOfCounts(y.queue.submission, TransferSlot, n);
    SumOfCounts(y.kernel, TransferSlot, n);
    SumOfCounts(y.completions, CompletionSlot, n);
  }

  lemma {:induction false} SomeEmpty(slots: seq<Option<Request>>, i: nat, n: nat)
    requires n <= i < |slots| && slots[i].None?
    ensures EmptyFrom(slots, n) > 0
    decreases i - n
  {
    if n < i {
      SomeEmpty(slots, i, n + 1);
    }
  }

  lemma NoPanic(y: State, a: Action)
    requires Inv(y) && Enabled(y, a)
    ensures !Panics(y, a)
  {
    EntriesFit(y);
    match a
    case Admission(i) =>
      SomeEmpty(y.queue.slots, i, 0);
      assert Waiting(y, y.queue.channel[0]);
    case Handle => assert Matches(y.queue, y.completions[0].transfer);
    case _ =>
  }

  /** In no run does the queue thread panic, whichever action comes next. */
  lemma NeverPanics(slots: nat, actions: seq<Action>, z: State, a: Action)
    requires Reaches(Start(slots), actions, z) && Enabled(z, a)
    ensures !Panics(z, a)
  {
    QueueInvariant(slots, actions, z);
    NoPanic(z, a);
  }

  /** An outstanding entry is aligned and covers the part of its request that has not been transferred. */
  ghost predicate CoversRest(y: State, t: Transfer) {
    && t.offset % ALIGNMENT == 0 && t.start % ALIGNMENT == 0 && t.length % ALIGNMENT == 0
    && 0 < t.length <= MAX_IO_REQUEST_BYTES
    && t.id in y.sent && t.id in y.moved
    && t.start == y.sent[t.id].start + Total(y.moved[t.id]) && t.start + t.length == y.sent[t.id].end
    && t.offset + t.length == y.sent[t.id].fileEnd
  }

  lemma EntryCoversRest(y: State, t: Transfer)
    requires OneEntryPerSlot(y) && EntriesMatch(y) && Transfers(y) && t in y.queue.submission + y.kernel
    ensures CoversRest(y, t)
  {
    NothingUnhandled(y, t);
    assert Matches(y.queue, t);
    assert Progress(y, t.index);
    MatchCoversRest(y, t);
  }

  lemma MatchCoversRest(y: State, t: Transfer)
    requires Matches(y.queue, t) && Progress(y, t.index) && Unhandled(y.completions, t.index) == 0
    ensures CoversRest(y, t)
  {
  }

  /** In every run whatever is outstanding fits the ring, and a retry goes on where the kernel stopped. */
  lemma TransfersAligned(slots: nat, actions: seq<Action>, z: State)
    requires Reaches(Start(slots), actions, z)
    ensures |z.queue.submission| + |z.kernel| + |z.completions| <= slots
    ensures forall t :: t in z.queue.submission + z.kernel ==> CoversRest(z, t)
  {
    QueueInvariant(slots, actions, z);
    EntriesFit(z);
    forall t | t in z.queue.submission + z.kernel ensures CoversRest(z, t) {
      EntryCoversRest(z, t);
    }
  }

  lemma NothingUnhandled(y: State, t: Transfer)
    requires OneEntryPerSlot(y) && t in y.queue.submission + y.kernel
    ensures Unhandled(y.completions, t.index) == 0
  {
    if t in y.queue.submission {
      Counted(y.queue.submission, t, TransferSlot, t.index);
    } else {
      Counted(y.kernel, t, TransferSlot, t.index);
    }
    assert Entries(y, t.index) <= 1;
    NoneUnhandled(y.completions, t.index);
  }

  /**
   In every run a caller is answered at most once. It hears success exactly when the transferred pieces
   tile its whole request, in order; before an answer they tile a prefix of it.
   */
  lemma SuccessAfterEveryByte(slots: nat, actions: seq<Action>, z: State)
    requires Reaches(Start(slots), actions, z)
    ensures forall id :: id in z.sent ==>
      id in z.moved && Tiles(z.moved[id], z.sent[id]) && Total(z.moved[id]) <= Length(z.sent[id])
    ensures forall p :: p in z.replies && p.heard ==>
      p.id in z.sent && (p.ok <==> Total(z.moved[p.id]) == Length(z.sent[p.id]))
    ensures forall j, k :: 0 <= j < k < |z.replies| ==> z.replies[j].id != z.replies[k].id
  {
    QueueInvariant(slots, actions, z);
    forall j, k | 0 <= j < k < |z.replies| ensures z.replies[j].id != z.replies[k].id {
      AnsweredOnce(z, j, k);
    }
  }

  lemma AnsweredOnce(y: State, j: nat, k: nat)
    requires Accounted(y) && j < k < |y.replies|
    ensures y.replies[j].id != y.replies[k].id
  {
    var id := y.replies[j].id;
    CountWithout(y.replies, j, ReplyId, id);
    assert Places(y, id) <= 1;
    if y.replies[k].id == id {
      var others := Without(y.replies, j);
      assert others[k - 1] == y.replies[k];
      Counted(others, others[k - 1], ReplyId, id);
    }
  }

  // ---------------------------------------------------------------- shutdown

  /** When the queue thread's loop ends without an error. */
  predicate Drained(y: State) {
    !y.open && y.queue.channel == [] && forall i :: 0 <= i < |y.queue.slots| ==> y.queue.slots[i].None?
  }

  lemma {:induction false} NoSlotIds(slots: seq<Option<Request>>, id: nat)
    requires forall i :: 0 <= i < |slots| ==> slots[i].None?
    ensures Count(slots, SlotId, id) == 0
  {
    if slots != [] {
      NoSlotIds(slots[1..], id);
    }
  }

  lemma {:induction false} AllEmpty(slots: seq<Option<Request>>, i: nat)
    requires i <= |slots| && forall k :: 0 <= k < |slots| ==> slots[k].None?
    ensures EmptyFrom(slots, i) == |slots| - i
    decreases |slots| - i
  {
    if i < |slots| {
      AllEmpty(slots, i + 1);
    }
  }

  lemma {:induction false} HasReply(replies: seq<Reply>, id: nat)
    requires Count(replies, ReplyId, id) > 0
    ensures exists p :: p in replies && p.id == id
  {
    if replies[0].id != id {
      HasReply(replies[1..], id);
      var p :| p in replies[1..] && p.id == id;
      assert p in replies;
    } else {
      assert replies[0] in replies;
    }
  }

  /** A drained queue leaves nothing with the kernel, owes no caller an answer, and no later step can change that. */
  lemma DrainedIsFinished(slots: nat, actions: seq<Action>, z: State)
    requires Reaches(Start(slots), actions, z) && Drained(z)
    ensures z.queue.submission == [] && z.kernel == [] && z.completions == []
    ensures forall id :: id in z.sent && id !in z.cancelled ==> exists p :: p in z.replies && p.id == id
    ensures forall a :: Enabled(z, a) ==> a.Cancel? || a == Submit(0)
  {
    QueueInvariant(slots, actions, z);
    EntriesFit(z);
    AllEmpty(z.queue.slots, 0);
    forall id | id in z.sent && id !in z.cancelled ensures exists p :: p in z.replies && p.id == id {
      NoSlotIds(z.queue.slots, id);
      assert Places(z, id) == 1;
      HasReply(z.replies, id);
    }
  }

  // ---------------------------------------------------------------- why a request is answered

  /** The results that fail a request: no bytes, an error other than EINTR, or an unaligned length. */
  predicate Fails(result: int) {
    result == 0 || (result < 0 && result != INTERRUPTED) || (result > 0 && result % ALIGNMENT != 0)
  }

  /** Each answer is a failure exactly when the last completion of its request was one. */
  ghost predicate Reasoned(y: State) {
    forall k :: 0 <= k < |y.replies| ==> HasReason(y, y.replies[k])
  }

  ghost predicate HasReason(y: State, p: Reply) {
    p.id in y.results && (p.ok <==> !Fails(y.results[p.id]))
  }

  /** The transfer of what is left of `t` after `done` bytes. */
  function RestOf(t: Transfer, done: nat): Transfer
    requires done <= t.length
  {
    Transfer(t.index, t.id, t.offset + done, t.start + done, t.length - done)
  }

  /** What handling a completion of transfer `t` leads to. `waits` says whether the caller still waits. */
  ghost predicate Follows(y: State, z: State, t: Transfer, result: int, waits: bool)
    requires Occupied(y.queue, t.index) && result <= t.length
  {
    var done, r := Bytes(result), y.queue.slots[t.index].value;
    if Fails(result) || done == t.length || !waits then
      && z.replies == y.replies + [Reply(t.id, !Fails(result), waits)]
      && z.queue == y.queue.(slots := y.queue.slots[t.index := None])
    else
      && z.replies == y.replies && z.queue.submission == y.queue.submission + [RestOf(t, done)]
      && z.queue.slots == y.queue.slots[t.index := Some(r.(start := r.start + done))]
  }

  lemma HandleFollows(y: State)
    requires EntriesMatch(y) && Enabled(y, Handle) && !Panics(y, Handle)
    ensures
      var c := y.completions[0];
      && Occupied(y.queue, c.transfer.index) && c.result <= c.transfer.length
      && Follows(y, Apply(y, Handle), c.transfer, c.result, c.transfer.id !in y.cancelled)
  {
    assert Matches(y.queue, y.completions[0].transfer);
  }

  lemma HandleReasoned(y: State)
    requires EntriesMatch(y) && Accounted(y) && Reasoned(y) && Enabled(y, Handle) && !Panics(y, Handle)
    ensures Reasoned(Apply(y, Handle))
  {
    var z, t := Apply(y, Handle), y.completions[0].transfer;
    assert Matches(y.queue, t);
    SlotIdsDiffer(y, t.index);
    HandleFollows(y);
    forall k | 0 <= k < |z.replies| ensures HasReason(z, z.replies[k]) {
      assert k < |y.replies| ==> HasReason(y, y.replies[k]);
    }
  }

  lemma QuietReasons(y: State, a: Action)
    requires Enabled(y, a) && !Panics(y, a) && !a.Handle?
    ensures Apply(y, a).replies == y.replies && Apply(y, a).results == y.results
  {
  }

  lemma ReasonedKept(y: State, a: Action)
    requires EntriesMatch(y) && Accounted(y) && Reasoned(y) && Enabled(y, a) && !Panics(y, a)
    ensures Reasoned(Apply(y, a))
  {
    if a.Handle? {
      HandleReasoned(y);
    } else {
      var z := Apply(y, a);
      QuietReasons(y, a);
      forall k | 0 <= k < |z.replies| ensures HasReason(z, z.replies[k]) {
        assert HasReason(y, y.replies[k]);
      }
    }
  }

  lemma {:induction false} RunReasoned(y: State, actions: seq<Action>, z: State)
    requires Inv(y) && Reasoned(y) && Reaches(y, actions, z)
    ensures Reasoned(z)
    decreases |actions|
  {
    if actions != [] {
      ApplyKeepsInv(y, actions[0]);
      ReasonedKept(y, actions[0]);
      RunReasoned(Apply(y, actions[0]), actions[1..], z);
    }
  }

  /**
   In every run a request is answered with a failure exactly when its last completion moved nothing, was an error
   other than EINTR, or was unaligned. Handling a completion answers the caller after such a failure or the last
   byte; otherwise, after EINTR or a short aligned completion, it adds no answer, keeps the request in its slot and
   queues one transfer of exactly what is left, unless the caller has cancelled.
   */
  lemma FailsForAReason(slots: nat, actions: seq<Action>, z: State)
    requires Reaches(Start(slots), actions, z)
    ensures Reasoned(z)
    ensures z.completions != [] ==>
      var c := z.completions[0];
      && Enabled(z, Handle) && !Panics(z, Handle)
      && Occupied(z.queue, c.transfer.index) && c.result <= c.transfer.length
      && Follows(z, Apply(z, Handle), c.transfer, c.result, c.transfer.id !in z.cancelled)
  {
    QueueInvariant(slots, [], Start(slots));
    RunReasoned(Start(slots), actions, z);
    QueueInvariant(slots, actions, z);
    if z.completions != [] {
      NoPanic(z, Handle);
      HandleFollows(z);
    }
  }

  // ---------------------------------------------------------------- an admission pass is a run

  lemma {:induction false} RunsCompose(y: State, a: seq<Action>, m: State, b: seq<Action>, z: State)
    requires Reaches(y, a, m) && Reaches(m, b, z)
    ensures Reaches(y, a + b, z)
    decreases |a|
  {
    if a == [] {
      assert a + b == b;
    } else {
      assert (a + b)[0] == a[0] && (a + b)[1..] == a[1..] + b;
      RunsCompose(Apply(y, a[0]), a[1..], m, b, z);
    }
  }

  lemma OneStep(y: State, a: Action)
    requires Inv(y) && Enabled(y, a)
    ensures !Panics(y, a) && Inv(Apply(y, a)) && Reaches(y, [a], Apply(y, a))
  {
    NoPanic(y, a);
    ApplyKeepsInv(y, a);
    assert [a][1..] == [];
  }

  lemma {:induction false} SkipIsRun(y: State, i: nat) returns (actions: seq<Action>, z: State)
    requires Inv(y) && i < |y.queue.slots| && y.queue.slots[i].None?
    ensures Inv(z) && Reaches(y, actions, z) && z.cancelled == y.cancelled
    ensures z.queue == y.queue.(channel := SkipCancelled(y.queue.channel, y.cancelled))
    decreases |y.queue.channel|
  {
    if y.queue.channel != [] && y.queue.channel[0].id in y.cancelled {
      OneStep(y, Admission(i));
      var rest;
      rest, z := SkipIsRun(Apply(y, Admission(i)), i);
      actions := [Admission(i)] + rest;
      RunsCompose(y, [Admission(i)], Apply(y, Admission(i)), rest, z);
    } else {
      actions, z := [], y;
    }
  }

  lemma ChannelWellFormed(y: State)
    requires Transfers(y)
    ensures AllWellFormed(y.queue.channel)
  {
    forall r | r in y.queue.channel ensures WellFormed(r) {
      assert Waiting(y, r) && Sent(y.sent[r.id], y.moved[r.id]);
    }
  }

  /** Filling slot `i` is a run: some discards, then one admission if a request is left. */
  lemma FillIsRun(y: State, i: nat) returns (actions: seq<Action>, z: State)
    requires Inv(y) && i < |y.queue.slots| && y.queue.slots[i].None?
    ensures Inv(z) && Reaches(y, actions, z) && z.cancelled == y.cancelled
    ensures var waiting := y.queue.(channel := SkipCancelled(y.queue.channel, y.cancelled));
      if waiting.channel == [] then z.queue == waiting
      else WellFormed(waiting.channel[0]) && z.queue == Receive(waiting, i, y.cancelled)
  {
    actions, z := SkipIsRun(y, i);
    if z.queue.channel != [] {
      var m, skipped := z, actions;
      OneStep(m, Admission(i));
      actions, z := skipped + [Admission(i)], Apply(m, Admission(i));
      RunsCompose(y, skipped, m, [Admission(i)], z);
    }
  }

  /** What a pass does at slot `i` is a run, after which the pass is over or goes on. */
  lemma SlotIsRun(y: State, limit: WriteLimit, i: nat, moments: seq<Moment>)
    returns (ends: bool, actions: seq<Action>, m: State, charged: WriteLimit)
    requires Inv(y) && i < |y.queue.slots| == |moments| && AllWellFormed(y.queue.channel)
    ensures Inv(m) && Reaches(y, actions, m) && m.cancelled == y.cancelled
    ensures |m.queue.slots| == |moments| && AllWellFormed(m.queue.channel)
    ensures var p := Admit(y.queue, limit, i, y.cancelled, moments);
      if ends then p.queue == m.queue else p == Admit(m.queue, charged, i + 1, y.cancelled, moments)
  {
    ends, actions, m, charged := false, [], y, limit;
    if EndsAt(y.queue, limit, i, moments) {
      ends := true;
      AdmitEnds(y.queue, limit, i, y.cancelled, moments);
    } else if y.queue.slots[i].Some? {
      AdmitSkips(y.queue, limit, i, y.cancelled, moments);
    } else {
      ends, actions, m, charged := FillIsStep(y, limit, i, moments);
    }
  }

  lemma FillIsStep(y: State, limit: WriteLimit, i: nat, moments: seq<Moment>)
    returns (ends: bool, actions: seq<Action>, m: State, charged: WriteLimit)
    requires Inv(y) && i < |y.queue.slots| == |moments| && AllWellFormed(y.queue.channel) && y.queue.slots[i].None?
    requires y.queue.channel != [] && !Paces(limit, y.queue.slots, moments[i])
    ensures Inv(m) && Reaches(y, actions, m) && m.cancelled == y.cancelled
    ensures |m.queue.slots| == |moments| && AllWellFormed(m.queue.channel)
    ensures var p := Admit(y.queue, limit, i, y.cancelled, moments);
      if ends then p.queue == m.queue else p == Admit(m.queue, charged, i + 1, y.cancelled, moments)
  {
    actions, m := FillIsRun(y, i);
    AdmitFilled(y.queue, limit, i, y.cancelled, moments, m.queue);
    var waiting := SkipCancelled(y.queue.channel, y.cancelled);
    ends, charged := waiting == [], if waiting == [] then limit else Charged(limit, waiting[0], moments[i]);
  }

  /** What one admission pass does is a sequence of the queue thread's admissions. */
  lemma {:induction false} PassIsRun(y: State, limit: WriteLimit, i: nat, moments: seq<Moment>)
    returns (actions: seq<Action>, z: State)
    requires Inv(y) && i <= |y.queue.slots| == |moments|
    ensures AllWellFormed(y.queue.channel)
    ensures Reaches(y, actions, z) && z.queue == Admit(y.queue, limit, i, y.cancelled, moments).queue
    decreases |y.queue.slots| - i
  {
    ChannelWellFormed(y);
    if i == |y.queue.slots| {
      actions, z := [], y;
    } else {
      var ends, first, m, charged := SlotIsRun(y, limit, i, moments);
      if ends {
        actions, z := first, m;
      } else {
        var rest;
        rest, z := PassIsRun(m, charged, i + 1, moments);
        actions := first + rest;
        RunsCompose(y, first, m, rest, z);
      }
    }
  }
}
