/** Rotating samples of an eviction-candidate list (retention.rs). */
module Retention {
  import opened Layout
  import opened Arithmetic

  /** Where the sample starts, and where the next one will. */
  function SampleStart(cursor: nat, count: nat): nat {
    cursor % Max(count, 1)
  }

  function NextCursor(cursor: nat, count: nat, size: nat): nat {
    if count == 0 then cursor else (SampleStart(cursor, count) + MinOf(count, size)) % count
  }

  /** Up to `size` candidates, from the cursor on and wrapping at the end. */
  function Sample<T>(cursor: nat, candidates: seq<T>, size: nat): (r: seq<T>)
    ensures |r| == MinOf(|candidates|, size)
    ensures forall x :: x in r ==> x in candidates
  {
    var start := SampleStart(cursor, |candidates|);
    (candidates[start..] + candidates[..start])[..MinOf(|candidates|, size)]
  }

  /** `after` is the list with one place of `x` given to the last candidate. */
  ghost predicate SwapRemoved<T>(before: seq<T>, x: T, after: seq<T>) {
    exists i :: 0 <= i < |before| && before[i] == x && after == before[i := before[|before| - 1]][..|before| - 1]
  }

  /** A position less than twice around the list, wrapped once. */
  function Wrap(x: nat, n: nat): nat {
    if x < n then x else x - n
  }

  lemma WrapIsMod(x: nat, n: nat)
    requires x < 2 * n
    ensures x % n == Wrap(x, n)
  {
    var q, r := x / n, x % n;
    assert x == q * n + r;
    assert q >= 2 ==> q * n >= 2 * n;
    assert q == 0 || q == 1;
  }

  /** The sample's `j`th candidate, counted around the list. */
  lemma SampleAt<T>(cursor: nat, candidates: seq<T>, size: nat, j: nat)
    requires j < MinOf(|candidates|, size)
    ensures Sample(cursor, candidates, size)[j] == candidates[Wrap(SampleStart(cursor, |candidates|) + j, |candidates|)]
  {
  }

  lemma ModShift(x: nat, q: nat, n: nat)
    requires n > 0
    ensures (x + q * n) % n == x % n
  {
    QuotientShift(x, n, q);
    assert x == x / n * n + x % n;
    assert x + q * n == (x / n + q) * n + (x + q * n) % n;
    assert (x / n + q) * n == x / n * n + q * n;
  }

  /** The sample is the candidates at and after the cursor, modulo the length, and the cursor moves past them. */
  lemma SampleFromCursor<T>(cursor: nat, candidates: seq<T>, size: nat, j: nat)
    requires j < MinOf(|candidates|, size)
    ensures Sample(cursor, candidates, size)[j] == candidates[(cursor + j) % |candidates|]
    ensures NextCursor(cursor, |candidates|, size) == (cursor + MinOf(|candidates|, size)) % |candidates|
  {
    var n := |candidates|;
    var start, m := SampleStart(cursor, n), MinOf(n, size);
    assert cursor == start + cursor / n * n;
    SampleAt(cursor, candidates, size, j);
    WrapIsMod(start + j, n);
    ModShift(start + j, cursor / n, n);
    ModShift(start + m, cursor / n, n);
    assert cursor + j == (start + j) + cursor / n * n && cursor + m == (start + m) + cursor / n * n;
  }

  /** The cursor after `calls` samples of an unchanged list. */
  function CursorAfter(cursor: nat, count: nat, size: nat, calls: nat): nat
    decreases calls
  {
    if calls == 0 then cursor else CursorAfter(NextCursor(cursor, count, size), count, size, calls - 1)
  }

  /** A candidate `distance` ahead of the sample's start is sampled within distance / size further calls. */
  lemma {:induction false} SampledAhead<T>(cursor: nat, candidates: seq<T>, size: nat, distance: nat)
    returns (call: nat)
    requires size > 0 && distance < |candidates|
    ensures call * size <= distance
    ensures candidates[Wrap(SampleStart(cursor, |candidates|) + distance, |candidates|)]
         in Sample(CursorAfter(cursor, |candidates|, size, call), candidates, size)
    decreases distance
  {
    var n := |candidates|;
    if distance < size {
      call := 0;
      SampleAt(cursor, candidates, size, distance);
    } else {
      var next := NextCursor(cursor, n, size);
      NextStart(cursor, n, size);
      var later := SampledAhead(next, candidates, size, distance - size);
      call := later + 1;
      assert call * size == later * size + size;
    }
  }

  lemma NextStart(cursor: nat, n: nat, size: nat)
    requires 0 < size <= n
    ensures SampleStart(NextCursor(cursor, n, size), n) == Wrap(SampleStart(cursor, n) + size, n)
  {
    WrapIsMod(SampleStart(cursor, n) + size, n);
    WrapIsMod(NextCursor(cursor, n, size), n);
  }

  /**
   With an unchanged list the rotating cursor visits every candidate within ceil(len / size) samples:
   a call number is below that bound exactly when `call * size` is below the length.
   */
  lemma EveryCandidateSampled<T>(cursor: nat, candidates: seq<T>, size: nat, i: nat) returns (call: nat)
    requires size > 0 && i < |candidates|
    ensures call * size < |candidates|
    ensures candidates[i] in Sample(CursorAfter(cursor, |candidates|, size, call), candidates, size)
  {
    var start := SampleStart(cursor, |candidates|);
    call := SampledAhead(cursor, candidates, size, if i >= start then i - start else i + |candidates| - start);
  }
}
