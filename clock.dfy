/** The tick clock of src/server/src/clock.rs: it paces the game loop at a
    target duration per update by keeping an integer running mean of the
    measured durations. */
module Timing {
  import opened Results

  const U64_MAX: int := 0xFFFF_FFFF_FFFF_FFFF
  const U128_MAX: int := 0xFFFF_FFFF_FFFF_FFFF_FFFF_FFFF_FFFF_FFFF

  type u128 = x: int | 0 <= x <= 0xFFFF_FFFF_FFFF_FFFF_FFFF_FFFF_FFFF_FFFF

  /** A point in time, in nanoseconds on a monotonic clock. */
  type Instant = nat

  /** The running mean after one more measurement: `n` counts the
      measurements including the new one. */
  function NextAverage(average: u128, n: nat, elapsed: u128): int
    requires n > 0
  {
    (average * n + elapsed - average) / n
  }

  /** The new mean lies between the old mean and the new measurement. */
  lemma NextAverageBetween(average: u128, n: nat, elapsed: u128)
    requires n > 0
    ensures average <= elapsed ==> average <= NextAverage(average, n, elapsed) <= elapsed
    ensures elapsed <= average ==> elapsed <= NextAverage(average, n, elapsed) <= average
  {
    var x := average * n + elapsed - average;
    assert x == average * (n - 1) + elapsed;
    if average <= elapsed {
      MulMono(n - 1, average, elapsed);
      assert x <= elapsed * (n - 1) + elapsed == elapsed * n;
      assert x >= average * (n - 1) + average == average * n;
      DivBetween(x, n, average, elapsed);
    } else {
      MulMono(n - 1, elapsed, average);
      assert x >= elapsed * (n - 1) + elapsed == elapsed * n;
      assert x <= average * (n - 1) + average == average * n;
      DivBetween(x, n, elapsed, average);
    }
  }

  /** A measurement equal to the mean leaves the mean unchanged. */
  lemma SteadyAverage(average: u128, n: nat)
    requires n > 0
    ensures NextAverage(average, n, average) == average
  {
    NextAverageBetween(average, n, average);
  }

  /** Multiplication by a natural number is monotone. */
  lemma {:induction false} MulMono(n: nat, a: int, b: int)
    requires a <= b
    ensures a * n <= b * n
  {
    if n > 0 {
      MulMono(n - 1, a, b);
      assert a * n == a * (n - 1) + a;
      assert b * n == b * (n - 1) + b;
    }
  }

  /** A product by a natural number is smaller only for a smaller
      factor. */
  lemma MulCancel(n: nat, a: int, b: int)
    ensures a * n < b * n ==> a < b
  {
    if b <= a {
      MulMono(n, b, a);
    }
  }

  /** Integer division of a value between `n * lo` and `n * hi` by `n`
      lands between `lo` and `hi`. */
  lemma DivBetween(x: int, n: nat, lo: int, hi: int)
    requires n > 0 && lo * n <= x <= hi * n
    ensures lo <= x / n <= hi
  {
    var q := x / n;
    assert x == q * n + x % n && 0 <= x % n < n;
    assert (q + 1) * n == q * n + n;
    MulCancel(n, lo, q + 1);
    assert (hi + 1) * n == hi * n + n;
    MulCancel(n, q, hi + 1);
  }

  class Clock {
    /** The target duration of one update, in nanoseconds. */
    var aim: u128
    var average: u128
    var updateCount: u128
    var lastTime: Option<Instant>

    /** Clock::new, with the target duration already converted from the
        requested updates per second. */
    constructor (aim: u128)
      ensures this.aim == aim && average == 0 && updateCount == 0 && lastTime == None
    {
      this.aim := 0;
      average := 0;
      updateCount := 0;
      lastTime := None;
      new;
      SetUps(aim);
    }

    /** set_ups: resets the measurements, then sets the target. */
    method SetUps(aim: u128)
      modifies this
      ensures this.aim == aim && average == 0 && updateCount == 0 && lastTime == None
    {
      Reset();
      this.aim := aim;
    }

    /** reset: forgets the measurements, keeps the target. */
    method Reset()
      modifies this
      ensures average == 0 && updateCount == 0 && lastTime == None && aim == old(aim)
    {
      average := 0;
      updateCount := 0;
      lastTime := None;
    }

    /** pause: the next tick measures nothing. */
    method Pause()
      modifies this
      ensures lastTime == None
      ensures aim == old(aim) && average == old(average) && updateCount == old(updateCount)
    {
      lastTime := None;
    }

    /** The mean a tick computes: the target on the first tick after a
        reset or pause, the running mean with `elapsed` otherwise. */
    ghost function TickAverage(elapsed: u128): int
      reads this
      requires updateCount < U128_MAX
    {
      if lastTime.None? then aim else NextAverage(average, updateCount + 1, elapsed)
    }

    /** tick: counts one more update, folds the time since the last tick
        (`elapsed`) into the mean, stamps `now`, and returns how long to
        sleep: twice the target minus the mean. */
    method Tick(elapsed: u128, now: Instant) returns (delay: nat)
      modifies this
      requires updateCount < U128_MAX
      requires lastTime.Some? ==> average * (updateCount + 1) + elapsed <= U128_MAX
      requires 2 * aim <= U128_MAX
      requires 0 <= 2 * aim - TickAverage(elapsed) <= U64_MAX
      ensures updateCount == old(updateCount) + 1 && aim == old(aim) && lastTime == Some(now)
      ensures average == old(TickAverage(elapsed))
      ensures delay == 2 * aim - average
      ensures old(lastTime).Some? && old(average) <= elapsed ==> old(average) <= average <= elapsed
      ensures old(lastTime).Some? && elapsed <= old(average) ==> elapsed <= average <= old(average)
    {
      updateCount := updateCount + 1;
      match lastTime {
        case Some(_) =>
          NextAverageBetween(average, updateCount, elapsed);
          average := (average * updateCount + elapsed - average) / updateCount;
        case None =>
          average := aim;
      }
      lastTime := Some(now);
      delay := 2 * aim - average;
    }
  }
}
