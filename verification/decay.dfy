/**
 Decayed request counts (feuer-historian). The retained fraction is a binary32 value whose bits are
 computed from the age: the exponent field holds whole half-lives and the significand interpolates
 between powers of two (interchange format of section 3.4 of IEEE 754-2008). Products and sums are exact here.
 */
module Decay {
  import opened Arithmetic

  const SIGNIFICAND: nat := 0x80_0000
  const BIAS: nat := 127
  const ZERO_AFTER: nat := 126

  function Pow2(n: nat): nat
    ensures Pow2(n) >= 1
  {
    if n == 0 then 1 else 2 * Pow2(n - 1)
  }

  /** The normal binary32 value below two with these bits: one less in the exponent field is half the value. */
  function FloatValue(bits: nat): real
    decreases BIAS * SIGNIFICAND - bits
  {
    if bits >= BIAS * SIGNIFICAND then 1.0 + (bits - BIAS * SIGNIFICAND) as real / SIGNIFICAND as real
    else FloatValue(bits + SIGNIFICAND) / 2.0
  }

  function FloatBits(age: nat, halfLife: nat): nat
    requires halfLife > 0 && age < ZERO_AFTER * halfLife
  {
    (BIAS * halfLife - age) * SIGNIFICAND / halfLife
  }

  /** The part of a count that is left after `age` requests. */
  function Retained(age: nat, halfLife: nat): real
    requires halfLife > 0
  {
    if age >= ZERO_AFTER * halfLife then 0.0
    else
      BitsInRange(age, halfLife);
      FloatValue(FloatBits(age, halfLife))
  }

  datatype DecayedRequestCount = DecayedRequestCount(count: real, lastUpdateClock: nat)

  function Decayed(count: real, age: nat, halfLife: nat): real
    requires halfLife > 0
  {
    count * Retained(age, halfLife)
  }

  function DecayedCount(c: DecayedRequestCount, clock: nat, halfLife: nat): real
    requires halfLife > 0
  {
    Decayed(c.count, Age(c, clock), halfLife)
  }

  function AddRequest(c: DecayedRequestCount, clock: nat, halfLife: nat): DecayedRequestCount
    requires halfLife > 0
  {
    DecayedRequestCount(DecayedCount(c, clock, halfLife) + 1.0, clock)
  }

  // ---------------------------------------------------------------- bits

  /** A positive age below the cut-off gives a normal float of at most one. */
  lemma BitsInRange(age: nat, halfLife: nat)
    requires halfLife > 0 && age < ZERO_AFTER * halfLife
    ensures SIGNIFICAND < FloatBits(age, halfLife) + 1 && FloatBits(age, halfLife) <= BIAS * SIGNIFICAND
  {
    var a := (BIAS * halfLife - age) * SIGNIFICAND;
    DivideBounds(BIAS * SIGNIFICAND * halfLife, halfLife);
    QuotientIs(BIAS * SIGNIFICAND * halfLife, halfLife, BIAS * SIGNIFICAND);
    assert a <= BIAS * SIGNIFICAND * halfLife;
    QuotientOrder(a, BIAS * SIGNIFICAND * halfLife, halfLife);
    QuotientIs(SIGNIFICAND * halfLife, halfLife, SIGNIFICAND);
    assert SIGNIFICAND * halfLife <= a;
    QuotientOrder(SIGNIFICAND * halfLife, a, halfLife);
  }

  lemma BitsOrder(age: nat, later: nat, halfLife: nat)
    requires halfLife > 0 && age <= later < ZERO_AFTER * halfLife
    ensures FloatBits(later, halfLife) <= FloatBits(age, halfLife)
  {
    QuotientOrder((BIAS * halfLife - later) * SIGNIFICAND, (BIAS * halfLife - age) * SIGNIFICAND, halfLife);
  }

  /** A further half-life takes one from the exponent field and leaves the significand. */
  lemma BitsHalve(age: nat, halfLife: nat)
    requires halfLife > 0 && age + halfLife < ZERO_AFTER * halfLife
    ensures FloatBits(age, halfLife) == FloatBits(age + halfLife, halfLife) + SIGNIFICAND
  {
    var a := (BIAS * halfLife - age - halfLife) * SIGNIFICAND;
    assert (BIAS * halfLife - age) * SIGNIFICAND == a + SIGNIFICAND * halfLife;
    QuotientShift(a, halfLife, SIGNIFICAND);
  }

  // ---------------------------------------------------------------- values

  lemma HalfRatio(a: nat, b: nat)
    requires b > 0
    ensures a as real / (2 * b) as real == a as real / b as real / 2.0
  {
    assert (2 * b) as real == 2.0 * b as real;
  }

  /** The value is the format's formula: significand over its scale, times two to the biased exponent. */
  lemma {:induction false} FloatFormula(bits: nat)
    requires bits < (BIAS + 1) * SIGNIFICAND
    ensures FloatValue(bits)
         == (SIGNIFICAND + bits % SIGNIFICAND) as real / (SIGNIFICAND * Pow2(BIAS - bits / SIGNIFICAND)) as real
    decreases BIAS * SIGNIFICAND - bits
  {
    if bits < BIAS * SIGNIFICAND {
      var e := BIAS - (bits + SIGNIFICAND) / SIGNIFICAND;
      FloatFormula(bits + SIGNIFICAND);
      assert bits / SIGNIFICAND + 1 == (bits + SIGNIFICAND) / SIGNIFICAND;
      assert bits % SIGNIFICAND == (bits + SIGNIFICAND) % SIGNIFICAND;
      assert Pow2(e + 1) == 2 * Pow2(e);
      HalfRatio(SIGNIFICAND + bits % SIGNIFICAND, SIGNIFICAND * Pow2(e));
    }
  }

  lemma {:induction false} ValueBelow(bits: nat)
    requires bits < (BIAS + 1) * SIGNIFICAND
    ensures 0.0 < FloatValue(bits) < 2.0
    decreases BIAS * SIGNIFICAND - bits
  {
    if bits < BIAS * SIGNIFICAND {
      ValueBelow(bits + SIGNIFICAND);
    }
  }

  /** Larger bits are larger values. */
  lemma {:induction false} ValueOrder(low: nat, high: nat)
    requires low <= high < (BIAS + 1) * SIGNIFICAND
    ensures FloatValue(low) <= FloatValue(high)
    decreases BIAS * SIGNIFICAND - low
  {
    if high < BIAS * SIGNIFICAND {
      ValueOrder(low + SIGNIFICAND, high + SIGNIFICAND);
    } else if low < BIAS * SIGNIFICAND {
      ValueBelow(low + SIGNIFICAND);
    }
  }

  // ---------------------------------------------------------------- the retained fraction

  lemma RetainedNow(halfLife: nat)
    requires halfLife > 0
    ensures Retained(0, halfLife) == 1.0
  {
    QuotientIs(BIAS * halfLife * SIGNIFICAND, halfLife, BIAS * SIGNIFICAND);
    assert BIAS * SIGNIFICAND * halfLife == BIAS * halfLife * SIGNIFICAND;
  }

  /** The retained fraction never grows with age, and is zero exactly from the cut-off on. */
  lemma RetainedDecreases(age: nat, later: nat, halfLife: nat)
    requires halfLife > 0 && age <= later
    ensures 0.0 <= Retained(later, halfLife) <= Retained(age, halfLife) <= 1.0
    ensures Retained(age, halfLife) == 0.0 <==> age >= ZERO_AFTER * halfLife
  {
    RetainedNow(halfLife);
    if age < ZERO_AFTER * halfLife {
      BitsInRange(age, halfLife);
      BitsInRange(0, halfLife);
      BitsOrder(0, age, halfLife);
      ValueOrder(FloatBits(age, halfLife), FloatBits(0, halfLife));
      ValueBelow(FloatBits(age, halfLife));
      if later < ZERO_AFTER * halfLife {
        BitsInRange(later, halfLife);
        BitsOrder(age, later, halfLife);
        ValueOrder(FloatBits(later, halfLife), FloatBits(age, halfLife));
        ValueBelow(FloatBits(later, halfLife));
      }
    }
  }

  /** Each further half-life below the cut-off halves what is left, exactly. */
  lemma RetainedHalves(age: nat, halfLife: nat)
    requires halfLife > 0 && age + halfLife < ZERO_AFTER * halfLife
    ensures Retained(age + halfLife, halfLife) == Retained(age, halfLife) / 2.0
  {
    BitsInRange(age, halfLife);
    BitsInRange(age + halfLife, halfLife);
    BitsHalve(age, halfLife);
  }

  /** Up to the first half-life, the bits are the value one half plus the part of the half-life that is left. */
  lemma FirstHalfBits(age: nat, halfLife: nat) returns (q: nat)
    requires 0 < age <= halfLife
    ensures q < SIGNIFICAND && q * halfLife <= (halfLife - age) * SIGNIFICAND < (q + 1) * halfLife
    ensures FloatBits(age, halfLife) == q + ZERO_AFTER * SIGNIFICAND
  {
    var a := (halfLife - age) * SIGNIFICAND;
    q := a / halfLife;
    DivideBounds(a, halfLife);
    assert (BIAS * halfLife - age) * SIGNIFICAND == a + ZERO_AFTER * SIGNIFICAND * halfLife;
    QuotientShift(a, halfLife, ZERO_AFTER * SIGNIFICAND);
    assert q < SIGNIFICAND by {
      if q >= SIGNIFICAND {
        ProductOrder(SIGNIFICAND, q, halfLife);
      }
    }
  }

  lemma FirstHalfValue(age: nat, halfLife: nat, q: nat)
    requires 0 < age <= halfLife && q < SIGNIFICAND && FloatBits(age, halfLife) == q + ZERO_AFTER * SIGNIFICAND
    ensures Retained(age, halfLife) == (SIGNIFICAND + q) as real / (2 * SIGNIFICAND) as real
  {
    assert FloatValue(q + ZERO_AFTER * SIGNIFICAND) == FloatValue(q + BIAS * SIGNIFICAND) / 2.0;
  }

  /** What `q` of `SIGNIFICAND` steps say about the age, as reals. */
  lemma StepsOfAge(age: nat, halfLife: nat, q: nat)
    requires 0 < age <= halfLife && q * halfLife <= (halfLife - age) * SIGNIFICAND < (q + 1) * halfLife
    ensures
      var h, a, s, x := halfLife as real, age as real, SIGNIFICAND as real, q as real;
      x * h <= (h - a) * s < (x + 1.0) * h
  {
    var h, a, s, x := halfLife as real, age as real, SIGNIFICAND as real, q as real;
    assert (q * halfLife) as real == x * h;
    assert ((q + 1) * halfLife) as real == (x + 1.0) * h;
    assert ((halfLife - age) * SIGNIFICAND) as real == (h - a) * s;
  }

  lemma Interpolated(h: real, a: real, s: real, x: real)
    requires h > 0.0 && s > 0.0 && x * h <= (h - a) * s < (x + 1.0) * h
    ensures var r := (s + x) / (2.0 * s); 2.0 * h * r <= 2.0 * h - a < 2.0 * h * r + h / s
  {
    var r := (s + x) / (2.0 * s);
    assert r * (2.0 * s) == s + x;
    assert (2.0 * h * r) * s == h * s + h * x;
    assert (2.0 * h - a) * s == h * s + (h - a) * s;
    assert (2.0 * h * r + h / s) * s == h * s + h * x + h;
  }

  /**
   Within the first half-life the retained fraction is the line from one to one half, truncated to the last bit:
   it is at most 1 - age / (2 * halfLife), and less than 1 / 2^24 below that.
   */
  lemma RetainedInterpolates(age: nat, halfLife: nat)
    requires 0 < age <= halfLife
    ensures
      var line := 1.0 - age as real / (2.0 * halfLife as real);
      line - 1.0 / (2 * SIGNIFICAND) as real < Retained(age, halfLife) <= line
    ensures 2.0 * halfLife as real * Retained(age, halfLife) <= 2.0 * halfLife as real - age as real
  {
    var q := FirstHalfBits(age, halfLife);
    FirstHalfValue(age, halfLife, q);
    StepsOfAge(age, halfLife, q);
    Interpolated(halfLife as real, age as real, SIGNIFICAND as real, q as real);
    LineOf(halfLife as real, age as real, SIGNIFICAND as real, Retained(age, halfLife));
  }

  lemma LineOf(h: real, a: real, s: real, r: real)
    requires h > 0.0 && s > 0.0 && 2.0 * h * r <= 2.0 * h - a < 2.0 * h * r + h / s
    ensures 1.0 - a / (2.0 * h) - 1.0 / (2.0 * s) < r <= 1.0 - a / (2.0 * h)
  {
    var k, line, step := 2.0 * h, 1.0 - a / (2.0 * h), 1.0 / (2.0 * s);
    assert k * (a / k) == a;
    assert k * line == k - k * (a / k);
    assert k * step == h / s by {
      assert step == (1.0 / s) / 2.0;
      assert k * step == h * (1.0 / s);
    }
    assert k * (r + step) == k * r + k * step;
    Cancel(k, r, line);
    Cancel(k, r + step, line);
  }

  lemma Cancel(k: real, x: real, y: real)
    requires k > 0.0
    ensures (k * x <= k * y ==> x <= y) && (k * x > k * y ==> x > y)
  {
    if x > y {
      assert k * (x - y) > 0.0;
    } else {
      assert k * (y - x) >= 0.0;
    }
  }

  // ---------------------------------------------------------------- counts

  lemma ScaledDown(c: real, low: real, high: real)
    requires c >= 0.0 && 0.0 <= low <= high <= 1.0
    ensures 0.0 <= c * low <= c * high <= c
  {
  }

  function Age(c: DecayedRequestCount, clock: nat): nat {
    if clock > c.lastUpdateClock then clock - c.lastUpdateClock else 0
  }

  lemma CountIs(c: DecayedRequestCount, clock: nat, halfLife: nat, r: real)
    requires halfLife > 0 && r == Retained(Age(c, clock), halfLife)
    ensures DecayedCount(c, clock, halfLife) == c.count * r
  {
  }

  lemma ScaledRetained(count: real, age: nat, later: nat, halfLife: nat)
    requires halfLife > 0 && count >= 0.0 && 0.0 <= Retained(later, halfLife) <= Retained(age, halfLife) <= 1.0
    ensures 0.0 <= Decayed(count, later, halfLife) <= Decayed(count, age, halfLife) <= count
  {
    ScaledDown(count, Retained(later, halfLife), Retained(age, halfLife));
  }

  /** A count never grows with its age. */
  lemma DecayedDecreases(count: real, age: nat, later: nat, halfLife: nat)
    requires halfLife > 0 && count >= 0.0 && age <= later
    ensures 0.0 <= Decayed(count, later, halfLife) <= Decayed(count, age, halfLife) <= count
  {
    RetainedDecreases(age, later, halfLife);
    ScaledRetained(count, age, later, halfLife);
  }

  /** Reading a count at a later clock never increases it. */
  lemma CountDecreases(c: DecayedRequestCount, clock: nat, later: nat, halfLife: nat)
    requires halfLife > 0 && c.count >= 0.0 && clock <= later
    ensures 0.0 <= DecayedCount(c, later, halfLife) <= DecayedCount(c, clock, halfLife) <= c.count
  {
    DecayedDecreases(c.count, Age(c, clock), Age(c, later), halfLife);
  }

  /** An earlier clock reads the stored count. */
  lemma EarlierClock(c: DecayedRequestCount, clock: nat, halfLife: nat)
    requires halfLife > 0 && clock <= c.lastUpdateClock
    ensures DecayedCount(c, clock, halfLife) == c.count
  {
    RetainedNow(halfLife);
  }

  /** A count at its bound loses at least the one that the next request adds. */
  lemma BoundKept(c: real, bound: real, r: real, first: real)
    requires 0.0 <= c <= bound && 0.0 <= r <= first && bound * first <= bound - 1.0
    ensures 0.0 <= c * r + 1.0 <= bound
  {
    assert c * r <= bound * r;
    assert bound * r <= bound * first;
  }

  function RequestsAt(clocks: seq<nat>, halfLife: nat): DecayedRequestCount
    requires halfLife > 0
  {
    if clocks == [] then DecayedRequestCount(0.0, 0)
    else AddRequest(RequestsAt(clocks[..|clocks| - 1], halfLife), clocks[|clocks| - 1], halfLife)
  }

  ghost predicate Increasing(clocks: seq<nat>) {
    && (clocks != [] ==> clocks[0] > 0)
    && forall i, j :: 0 <= i < j < |clocks| ==> clocks[i] < clocks[j]
  }

  /** For any strictly increasing request clocks the stored count is at most twice the half-life. */
  lemma {:induction false} CountBounded(clocks: seq<nat>, halfLife: nat)
    requires halfLife > 0 && Increasing(clocks)
    ensures 0.0 <= RequestsAt(clocks, halfLife).count <= 2.0 * halfLife as real
    ensures clocks != [] ==> RequestsAt(clocks, halfLife).lastUpdateClock == clocks[|clocks| - 1]
  {
    if clocks != [] {
      var before, clock := clocks[..|clocks| - 1], clocks[|clocks| - 1];
      CountBounded(before, halfLife);
      var c := RequestsAt(before, halfLife);
      RequestBounded(c, clock, halfLife);
    }
  }

  lemma RequestBounded(c: DecayedRequestCount, clock: nat, halfLife: nat)
    requires halfLife > 0 && 0.0 <= c.count <= 2.0 * halfLife as real && c.lastUpdateClock < clock
    ensures 0.0 <= AddRequest(c, clock, halfLife).count <= 2.0 * halfLife as real
  {
    var r, first := Retained(Age(c, clock), halfLife), Retained(1, halfLife);
    assert 0.0 <= r <= first by {
      RetainedDecreases(1, Age(c, clock), halfLife);
    }
    RetainedInterpolates(1, halfLife);
    BoundKept(c.count, 2.0 * halfLife as real, r, first);
    CountIs(c, clock, halfLife, r);
  }

  // ---------------------------------------------------------------- requests at even distances

  function RealPower(r: real, n: nat): real {
    if n == 0 then 1.0 else r * RealPower(r, n - 1)
  }

  /** `n` requests, each `distance` after the one before. */
  function EvenClocks(distance: nat, n: nat): (clocks: seq<nat>)
    ensures |clocks| == n && forall i :: 0 <= i < n ==> clocks[i] == (i + 1) * distance
  {
    if n == 0 then [] else EvenClocks(distance, n - 1) + [n * distance]
  }

  function EvenCount(distance: nat, n: nat, halfLife: nat): real
    requires halfLife > 0
  {
    RequestsAt(EvenClocks(distance, n), halfLife).count
  }

  lemma FirstRequest(distance: nat, halfLife: nat)
    requires halfLife > 0
    ensures EvenCount(distance, 1, halfLife) == 1.0
  {
    var none, clocks := DecayedRequestCount(0.0, 0), EvenClocks(distance, 1);
    assert clocks[0] == distance && RequestsAt(clocks[..0], halfLife) == none;
    assert RequestsAt(clocks, halfLife) == AddRequest(none, distance, halfLife);
    NothingDecays(none, distance, halfLife);
  }

  lemma NothingDecays(c: DecayedRequestCount, clock: nat, halfLife: nat)
    requires halfLife > 0 && c.count == 0.0
    ensures DecayedCount(c, clock, halfLife) == 0.0
  {
    var r := Retained(Age(c, clock), halfLife);
    CountIs(c, clock, halfLife, r);
    assert c.count * r == 0.0;
  }

  lemma NextRequest(distance: nat, n: nat, halfLife: nat)
    requires halfLife > 0 && n > 0
    ensures
      var r := Retained(distance, halfLife);
      EvenCount(distance, n + 1, halfLife) == EvenCount(distance, n, halfLife) * r + 1.0
  {
    var clocks := EvenClocks(distance, n + 1);
    assert clocks[..n] == EvenClocks(distance, n);
    assert EvenClocks(distance, n)[n - 1] == n * distance;
    assert (n + 1) * distance == n * distance + distance;
  }

  /** The first `n` terms of the series 1 + r + r^2 + ... */
  function Series(r: real, n: nat): real {
    if n == 0 then 0.0 else Series(r, n - 1) * r + 1.0
  }

  /** Requests at even distances add up to the geometric series of the fraction that is left between two of them. */
  lemma {:induction false} EvenCountIsSeries(distance: nat, n: nat, halfLife: nat)
    requires halfLife > 0 && n > 0
    ensures EvenCount(distance, n, halfLife) == Series(Retained(distance, halfLife), n)
  {
    if n == 1 {
      FirstRequest(distance, halfLife);
      assert Series(Retained(distance, halfLife), 0) == 0.0;
    } else {
      EvenCountIsSeries(distance, n - 1, halfLife);
      NextRequest(distance, n - 1, halfLife);
    }
  }

  /** So the count after `n` of them is (1 - r^n) / (1 - r), which approaches 1 / (1 - r). */
  lemma {:induction false} SeriesSum(r: real, n: nat)
    ensures Series(r, n) * (1.0 - r) == 1.0 - RealPower(r, n)
  {
    if n > 0 {
      SeriesSum(r, n - 1);
      SeriesStep(Series(r, n - 1), r, RealPower(r, n - 1));
    }
  }

  lemma SeriesStep(count: real, r: real, power: real)
    requires count * (1.0 - r) == 1.0 - power
    ensures (count * r + 1.0) * (1.0 - r) == 1.0 - r * power
  {
    assert (count * r + 1.0) * (1.0 - r) == r * (count * (1.0 - r)) + (1.0 - r);
  }

  /** Half a half-life leaves exactly three quarters, so such requests approach a count of four. */
  lemma HalfwayLeavesThreeQuarters(half: nat)
    requires half > 0
    ensures Retained(half, 2 * half) == 0.75
  {
    var q := FirstHalfBits(half, 2 * half);
    QuotientIs(half * SIGNIFICAND, 2 * half, SIGNIFICAND / 2);
    QuotientIs(half * SIGNIFICAND, 2 * half, q);
    FirstHalfValue(half, 2 * half, q);
  }
}
