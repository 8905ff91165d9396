/** The rate limiter: each call waits for a deadline that moves on by the current period, or starts
    over when the caller is more than 10 ms late. Times are nanoseconds of a monotone clock. */
module RateLimiterModel {

  const MAX_OVERSHOOT: nat := 10_000_000

  ghost predicate Monotone(readings: seq<nat>) {
    forall i, j | 0 <= i < j < |readings| :: readings[i] <= readings[j]
  }

  /** What one call of limit() looks like from outside: its first and its last clock reading, and the
      period it loaded, which another thread may have adjusted meanwhile. */
  datatype Call = Call(entry: nat, exit: nat, period: nat)

  /** A call does not return before the deadline, nor later than its first reading past it; the
      deadline moves from `deadline` to `next`. */
  ghost predicate Limits(deadline: nat, c: Call, next: nat) {
    && c.entry <= c.exit && deadline <= c.exit && (deadline <= c.entry ==> c.exit == c.entry)
    && next == (if c.entry > deadline + MAX_OVERSHOOT then c.entry else deadline) + c.period
  }

  class RateLimiter {
    var period: nat
    var now: nat
    var deadline: nat

    constructor (period: nat, reading: nat)
      ensures this.period == period && now == reading && deadline == reading + period
    {
      this.period, now, deadline := period, reading, reading + period;
    }

    method Init(reading: nat)
      modifies this`now, this`deadline
      ensures now == reading && deadline == reading + period
    {
      now := reading;
      deadline := now + period;
    }

    method Adjust(newPeriod: nat)
      modifies this`period
      ensures period == newPeriod
    {
      period := newPeriod;
    }

    /** `readings` are the values the clock gives one after the other, the second of them after a sleep
        of any length; it is only assumed that the clock reaches the deadline some time. */
    method Limit(readings: seq<nat>) returns (used: nat)
      requires readings != [] && Monotone(readings) && deadline <= readings[|readings| - 1]
      modifies this`now, this`deadline
      ensures 0 < used <= |readings| && now == readings[used - 1]
      ensures Limits(old(deadline), Call(readings[0], now, period), deadline)
      ensures forall i | 0 <= i < used - 1 :: readings[i] < old(deadline)
    {
      now := readings[0];
      used := 1;
      if now > deadline + MAX_OVERSHOOT {
        deadline := now + period;
      } else {
        if now < deadline {
          if deadline - now > 0 {
            now := readings[used];
            used := used + 1;
          }
          while now < deadline
            invariant 0 < used <= |readings| && now == readings[used - 1] && deadline == old(deadline)
            invariant forall i | 0 <= i < used - 1 :: readings[i] < deadline
            decreases |readings| - used
          {
            now := readings[used];
            used := used + 1;
          }
        }
        deadline := deadline + period;
      }
    }
  }

  // Whole runs

  /** The deadlines before each call of a run and after the last one. */
  ghost predicate Paced(deadlines: seq<nat>, calls: seq<Call>) {
    && |deadlines| == |calls| + 1
    && forall i | 0 <= i < |calls| :: Limits(deadlines[i], calls[i], deadlines[i + 1])
  }

  /** The sum of the periods loaded by calls k up to k + n. */
  function Periods(calls: seq<Call>, k: nat, n: nat): nat
    requires k + n <= |calls|
  {
    if n == 0 then 0 else Periods(calls, k, n - 1) + calls[k + n - 1].period
  }

  /** Every call moves the deadline on by at least its period, so the deadlines of a run are at least
      the sum of the periods apart. */
  lemma {:induction false} DeadlinesAdvance(deadlines: seq<nat>, calls: seq<Call>, k: nat, n: nat)
    requires Paced(deadlines, calls) && k + n <= |calls|
    ensures deadlines[k + n] >= deadlines[k] + Periods(calls, k, n)
  {
    if n > 0 {
      DeadlinesAdvance(deadlines, calls, k, n - 1);
      assert Limits(deadlines[k + n - 1], calls[k + n - 1], deadlines[k + n]);
    }
  }

  /** A call leaves the next deadline no nearer to its entry than its period less the overshoot, and
      no farther from its exit than its period. */
  lemma DeadlineFollowsClock(deadline: nat, c: Call, next: nat)
    requires Limits(deadline, c, next)
    ensures c.entry + c.period - MAX_OVERSHOOT <= next <= c.exit + c.period
    ensures next >= deadline + c.period
  {
  }

  lemma {:induction false} DeadlinesAfterEntry(deadlines: seq<nat>, calls: seq<Call>, k: nat, n: nat)
    requires Paced(deadlines, calls) && n >= 1 && k + n <= |calls|
    ensures deadlines[k + n] + MAX_OVERSHOOT >= calls[k].entry + Periods(calls, k, n)
  {
    assert Limits(deadlines[k + n - 1], calls[k + n - 1], deadlines[k + n]);
    if n == 1 {
      assert Periods(calls, k, 1) == Periods(calls, k, 0) + calls[k].period;
    } else {
      DeadlinesAfterEntry(deadlines, calls, k, n - 1);
    }
  }

  /** The rate bound: whatever the sleeps, the lateness of the caller and the adjustments, from the
      entry of call k to the return of call k + n at least the periods of the n calls from k on go
      by, less the 10 ms a caller may be late without starting over. */
  lemma RateBound(deadlines: seq<nat>, calls: seq<Call>, k: nat, n: nat)
    requires Paced(deadlines, calls) && n >= 1 && k + n < |calls|
    ensures calls[k + n].exit - calls[k].entry >= Periods(calls, k, n) - MAX_OVERSHOOT
  {
    DeadlinesAfterEntry(deadlines, calls, k, n);
    assert Limits(deadlines[k + n], calls[k + n], deadlines[k + n + 1]);
  }

  /** The 10 ms are not a matter of the proof: some run attains the bound, for every longer period. */
  lemma RateBoundIsAttained(period: nat) returns (deadlines: seq<nat>, calls: seq<Call>)
    requires period >= MAX_OVERSHOOT
    ensures Paced(deadlines, calls) && |calls| == 2
    ensures calls[0].period == calls[1].period == period
    ensures calls[1].exit - calls[0].entry == Periods(calls, 0, 1) - MAX_OVERSHOOT
  {
    var late := period + MAX_OVERSHOOT;
    deadlines := [period, 2 * period, 3 * period];
    calls := [Call(late, late, period), Call(2 * period, 2 * period, period)];
    assert Periods(calls, 0, 1) == Periods(calls, 0, 0) + calls[0].period;
  }

  /** A caller that is always in time is paced exactly: the deadlines are the periods apart. */
  lemma {:induction false} PunctualCallersAreExact(deadlines: seq<nat>, calls: seq<Call>, k: nat, n: nat)
    requires Paced(deadlines, calls) && k + n <= |calls|
    requires forall i | 0 <= i < |calls| :: calls[i].entry <= deadlines[i] + MAX_OVERSHOOT
    ensures deadlines[k + n] == deadlines[k] + Periods(calls, k, n)
  {
    if n > 0 {
      PunctualCallersAreExact(deadlines, calls, k, n - 1);
      assert Limits(deadlines[k + n - 1], calls[k + n - 1], deadlines[k + n]);
    }
  }
}
