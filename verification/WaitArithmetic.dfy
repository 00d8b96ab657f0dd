/** Deadline arithmetic and the classification of wait results, with the widths the source uses. */
module WaitArithmetic {
  import opened Common
  import opened Npcaps

  const TWO_POW_32 := 0x1_0000_0000

  /** time_point::max of a clock that counts nanoseconds in a signed 64-bit integer. */
  const TIME_MAX := 0x7FFF_FFFF_FFFF_FFFF

  function WaitUntil(now: int, timeoutMs: int): int {
    if timeoutMs < 0 then TIME_MAX else now + timeoutMs * NANOS_PER_MILLI
  }

  /** duration_cast to milliseconds drops the fraction, the cast to unsigned long drops the high bits. */
  function WaitMillis(remaining: nat): Uint32 {
    (remaining / NANOS_PER_MILLI) % TWO_POW_32
  }

  /**
   A wait that runs out ends less than a millisecond before the deadline, and is not an infinite wait by
   accident, exactly when the remaining milliseconds are at most 2^32 - 2.
   */
  lemma WaitReachesDeadlineIff(remaining: nat)
    ensures WaitMillis(remaining) != INFINITE && remaining - WaitMillis(remaining) * NANOS_PER_MILLI < NANOS_PER_MILLI
        <==> remaining / NANOS_PER_MILLI <= TWO_POW_32 - 2
  {
  }

  /** With a larger timeout the cast wraps: 2^32 ms remaining ask for no wait at all, 2^32 - 1 ms for an endless one. */
  lemma CastWraps()
    ensures WaitMillis(TWO_POW_32 * NANOS_PER_MILLI) == 0
    ensures WaitMillis((TWO_POW_32 - 1) * NANOS_PER_MILLI) == INFINITE
  {
  }

  datatype WaitClass = Signalled | Abandoned | TimedOut | Failed | Unclassified

  /** base + n - 1 in unsigned 32-bit arithmetic */
  function LastOf(base: Uint32, n: Uint32): Uint32 {
    (base + n - 1) % TWO_POW_32
  }

  function Classify(r: Uint32, n: Uint32): WaitClass {
    if WAIT_OBJECT_0 <= r <= LastOf(WAIT_OBJECT_0, n) then Signalled
    else if WAIT_ABANDONED_0 <= r <= LastOf(WAIT_ABANDONED_0, n) then Abandoned
    else if r == WAIT_TIMEOUT then TimedOut
    else if r == WAIT_FAILED then Failed
    else Unclassified
  }

  /** The branches tell the documented results apart for every handle count but zero; without handles everything counts as a signal. */
  lemma ClassifyExactIff(n: Uint32)
    requires n <= MAXIMUM_WAIT_OBJECTS
    ensures (forall r: Uint32 ::
               && (Classify(r, n) == Signalled <==> r < n)
               && (Classify(r, n) == Abandoned <==> WAIT_ABANDONED_0 <= r < WAIT_ABANDONED_0 + n)
               && (Classify(r, n) == TimedOut <==> r == WAIT_TIMEOUT)
               && (Classify(r, n) == Failed <==> r == WAIT_FAILED))
        <==> 1 <= n
    ensures n == 0 ==> forall r: Uint32 :: Classify(r, n) == Signalled
  {
    if n == 0 {
      assert Classify(WAIT_TIMEOUT, n) == Signalled;
    }
  }
}
