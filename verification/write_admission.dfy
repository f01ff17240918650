/**
 Pacing of new writes while reads wait for channel capacity (uring/write_admission.rs). Times are reals that
 count the bytes which the limited rate allows, 2^30 in each second. The queue thread's clock never goes back.
 */
module WriteAdmission {
  import opened Layout

  /** 100 ms. */
  const LIMIT_AFTER_READ_WAIT: real := 107374182.4

  datatype LastWait = Never | EndedAt(time: real)

  datatype ReadQueueWaiters = ReadQueueWaiters(waitingReads: nat, lastWait: LastWait)

  function RemoveWaitingRead(w: ReadQueueWaiters, now: real): ReadQueueWaiters
    requires w.waitingReads > 0
  {
    if w.waitingReads == 1 then ReadQueueWaiters(0, EndedAt(now)) else w.(waitingReads := w.waitingReads - 1)
  }

  predicate Limited(w: ReadQueueWaiters, now: real) {
    w.waitingReads > 0 || (w.lastWait.EndedAt? && now - w.lastWait.time < LIMIT_AFTER_READ_WAIT)
  }

  /** While writes are limited, a new one waits for active writes and for its time. */
  predicate MustWait(w: ReadQueueWaiters, nextWriteAt: real, hasActiveWrites: bool, now: real) {
    Limited(w, now) && (hasActiveWrites || nextWriteAt > now)
  }

  /** When the limited rate has paid for a write of `bytes` that starts now. */
  function NextWriteAt(bytes: int, now: real): real {
    now + bytes as real
  }

  // ---------------------------------------------------------------- how long the limit lasts

  /** A read starts or stops to wait for channel capacity. */
  datatype Event = Waits(at: real) | Stops(at: real)

  function After(w: ReadQueueWaiters, e: Event): ReadQueueWaiters
    requires e.Stops? ==> w.waitingReads > 0
  {
    match e
    case Waits(_) => w.(waitingReads := w.waitingReads + 1)
    case Stops(at) => RemoveWaitingRead(w, at)
  }

  /** The events happen in order, from `clock` on, and a read stops only while one waits. */
  ghost predicate Reaches(w: ReadQueueWaiters, clock: real, events: seq<Event>, z: ReadQueueWaiters, now: real)
    decreases |events|
  {
    if events == [] then z == w && clock <= now
    else
      && clock <= events[0].at && (events[0].Stops? ==> w.waitingReads > 0)
      && Reaches(After(w, events[0]), events[0].at, events[1..], z, now)
  }

  /** Some read waited at time `t`, or stopped then. */
  ghost predicate WaitedAt(w: ReadQueueWaiters, clock: real, events: seq<Event>, t: real)
    decreases |events|
  {
    if events == [] then w.waitingReads > 0 && clock <= t
    else
      || (w.waitingReads > 0 && clock <= t <= events[0].at)
      || ((events[0].Stops? ==> w.waitingReads > 0) && WaitedAt(After(w, events[0]), events[0].at, events[1..], t))
  }

  ghost predicate WaitedSince(w: ReadQueueWaiters, clock: real, events: seq<Event>, now: real) {
    exists t :: WaitedAt(w, clock, events, t) && t <= now && now - t < LIMIT_AFTER_READ_WAIT
  }

  lemma {:induction false} TimePasses(w: ReadQueueWaiters, clock: real, events: seq<Event>, z: ReadQueueWaiters,
                                      now: real)
    requires Reaches(w, clock, events, z, now)
    ensures clock <= now && (w.waitingReads > 0 ==> WaitedAt(w, clock, events, clock))
    decreases |events|
  {
    if events != [] {
      var m := After(w, events[0]);
      TimePasses(m, events[0].at, events[1..], z, now);
    }
  }

  /** What the limit remembers of earlier waits. */
  ghost predicate Remembers(w: ReadQueueWaiters, now: real) {
    w.waitingReads == 0 && w.lastWait.EndedAt? && now - w.lastWait.time < LIMIT_AFTER_READ_WAIT
  }

  lemma {:induction false} LimitedAfter(w: ReadQueueWaiters, clock: real, events: seq<Event>, z: ReadQueueWaiters,
                                        now: real)
    requires Reaches(w, clock, events, z, now) && (w.lastWait.EndedAt? ==> w.lastWait.time <= clock)
    ensures Limited(z, now) <==> WaitedSince(w, clock, events, now) || Remembers(w, now)
    decreases |events|
  {
    if events == [] {
      assert w.waitingReads > 0 ==> WaitedAt(w, clock, events, now);
    } else {
      var at := events[0].at;
      var m := After(w, events[0]);
      TimePasses(m, at, events[1..], z, now);
      LimitedAfter(m, at, events[1..], z, now);
      LimitedStep(w, clock, events, m, now);
    }
  }

  lemma LimitedStep(w: ReadQueueWaiters, clock: real, events: seq<Event>, m: ReadQueueWaiters, now: real)
    requires events != [] && clock <= events[0].at <= now && (events[0].Stops? ==> w.waitingReads > 0)
    requires w.lastWait.EndedAt? ==> w.lastWait.time <= clock
    requires m == After(w, events[0])
    requires m.waitingReads > 0 ==> WaitedAt(m, events[0].at, events[1..], events[0].at)
    ensures WaitedSince(w, clock, events, now) || Remembers(w, now)
       <==> WaitedSince(m, events[0].at, events[1..], now) || Remembers(m, now)
  {
    var at := events[0].at;
    if m.waitingReads > 0 && now - at < LIMIT_AFTER_READ_WAIT {
      assert WaitedSince(m, at, events[1..], now);
    }
    if t :| WaitedAt(w, clock, events, t) && t <= now && now - t < LIMIT_AFTER_READ_WAIT {
      if !(w.waitingReads > 0 && clock <= t <= at) {
        assert WaitedAt(m, at, events[1..], t);
      }
    }
    if t :| WaitedAt(m, at, events[1..], t) && t <= now && now - t < LIMIT_AFTER_READ_WAIT {
      assert WaitedAt(w, clock, events, t);
    }
    if events[0].Stops? {
      assert WaitedAt(w, clock, events, at);
    }
  }

  /** Writes are limited exactly while a read waits, and for less than 100 ms after one last did. */
  lemma LimitedIff(clock: real, events: seq<Event>, z: ReadQueueWaiters, now: real)
    requires Reaches(ReadQueueWaiters(0, Never), clock, events, z, now)
    ensures Limited(z, now) <==> WaitedSince(ReadQueueWaiters(0, Never), clock, events, now)
  {
    LimitedAfter(ReadQueueWaiters(0, Never), clock, events, z, now);
  }
}
