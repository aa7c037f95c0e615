/**
 * The timeout of GetStatusChange: a signed nanosecond duration mapped to the 32-bit
 * millisecond count SCardGetStatusChange takes.
 */
module Timeout {
  import opened Native

  /** time.Millisecond, in nanoseconds. */
  const Millisecond: nat := 1_000_000

  /** The largest duration that is not clamped: InfiniteTimeout milliseconds. */
  const MaxUnclamped: int := InfiniteTimeout * Millisecond

  /**
   * Negative waits forever, anything strictly above InfiniteTimeout ms is clamped one below the
   * sentinel, and the rest is cut to whole milliseconds. Go's `/` truncates toward zero; the
   * operand is never negative there, so Dafny's `/` agrees with it.
   */
  function TimeoutMillis(timeout: int64): (ms: uint32)
    ensures timeout < 0 ==> ms == InfiniteTimeout
    ensures timeout > MaxUnclamped ==> ms == InfiniteTimeout - 1
    ensures 0 <= timeout <= MaxUnclamped ==>
      ms * Millisecond <= timeout < (ms + 1) * Millisecond
  {
    if timeout < 0 then InfiniteTimeout
    else if timeout > MaxUnclamped then InfiniteTimeout - 1
    else timeout / Millisecond
  }

  /**
   * The comparison is strict, so besides every negative duration exactly one finite duration,
   * InfiniteTimeout ms itself, is also sent as the sentinel.
   */
  lemma SentinelExactly(timeout: int64)
    ensures TimeoutMillis(timeout) == InfiniteTimeout <==> timeout < 0 || timeout == MaxUnclamped
  {
  }

  /** Finite durations never map above the sentinel, and waiting longer never waits less, below the clamp. */
  lemma MonotoneBelowClamp(t1: int64, t2: int64)
    requires 0 <= t1 <= t2 <= MaxUnclamped
    ensures TimeoutMillis(t1) <= TimeoutMillis(t2) <= InfiniteTimeout
  {
  }

  /** Not monotone at the clamp: InfiniteTimeout ms waits forever, one nanosecond more does not. */
  lemma NotMonotoneAtClamp()
    ensures TimeoutMillis(MaxUnclamped) == InfiniteTimeout
    ensures TimeoutMillis(MaxUnclamped + 1) == InfiniteTimeout - 1
  {
  }
}
