/**
 * Clock values as gc.c compares them: a struct timeval with its two fields,
 * the comparison timeoutcmp, and the cutoff of a non-forced sweep.
 */
module Timeval {

  /** struct timeval: whole seconds and microseconds. */
  datatype TimeVal = TimeVal(sec: int, usec: int)

  const UsecPerSec: int := 1000000

  /**
   * timeoutcmp: t1 is not later than t2, seconds compared first and
   * microseconds second. Equal times compare true.
   */
  predicate TimeoutCmp(t1: TimeVal, t2: TimeVal)
  {
    t1.sec < t2.sec || (t1.sec == t2.sec && t1.usec <= t2.usec)
  }

  /** A time as gettimeofday produces it: fewer than a million microseconds. */
  predicate Normalized(t: TimeVal)
  {
    0 <= t.usec < UsecPerSec
  }

  /** Reference reading of a time as one count of microseconds. */
  function Micros(t: TimeVal): int
  {
    t.sec * 1000000 + t.usec
  }

  /** On normalized times, timeoutcmp is the order of the microsecond counts. */
  lemma TimeoutCmpIsMicrosOrder(t1: TimeVal, t2: TimeVal)
    requires Normalized(t1) && Normalized(t2)
    ensures TimeoutCmp(t1, t2) <==> Micros(t1) <= Micros(t2)
  {
    if t1.sec < t2.sec {
      assert Micros(t1) < (t1.sec + 1) * 1000000;
      assert (t1.sec + 1) * 1000000 <= t2.sec * 1000000;
    } else if t2.sec < t1.sec {
      assert Micros(t2) < (t2.sec + 1) * 1000000;
      assert (t2.sec + 1) * 1000000 <= t1.sec * 1000000;
    }
  }

  /** timeoutcmp is a total order on all times, normalized or not. */
  lemma TimeoutCmpIsTotalOrder(t1: TimeVal, t2: TimeVal, t3: TimeVal)
    ensures TimeoutCmp(t1, t1)
    ensures TimeoutCmp(t1, t2) || TimeoutCmp(t2, t1)
    ensures TimeoutCmp(t1, t2) && TimeoutCmp(t2, t1) ==> t1 == t2
    ensures TimeoutCmp(t1, t2) && TimeoutCmp(t2, t3) ==> TimeoutCmp(t1, t3)
  {
  }

  /**
   * The cutoff of a non-forced sweep: the timeout is taken off the seconds
   * and the microseconds are kept, which moves the time back by exactly
   * that many seconds.
   */
  function Cutoff(now: TimeVal, timeout: int): (c: TimeVal)
    ensures Micros(c) == Micros(now) - timeout * 1000000
    ensures Normalized(now) ==> Normalized(c)
  {
    TimeVal(now.sec - timeout, now.usec)
  }

  /**
   * A record touched at t is due at now exactly when at least `timeout`
   * whole seconds have passed: 59 seconds keep it, 60 release it.
   */
  lemma DueIffTimeoutElapsed(t: TimeVal, now: TimeVal, timeout: int)
    requires Normalized(t) && Normalized(now)
    ensures TimeoutCmp(t, Cutoff(now, timeout)) <==> Micros(now) - Micros(t) >= timeout * 1000000
  {
    TimeoutCmpIsMicrosOrder(t, Cutoff(now, timeout));
  }
}
