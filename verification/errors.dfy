/**
 * How every wrapper reports its outcome: a value, an error, or a Go runtime panic.
 */
module Errors {
  import opened Native

  /** The runtime panics the wrappers can raise. */
  datatype Panic =
    | IndexOutOfRange        // taking &s[0] of an empty slice
    | SliceBoundsOutOfRange  // slicing past a buffer's capacity
    | UnknownProtocol        // Transmit on a card whose protocol is neither T0 nor T1

  /** The errors a wrapper returns: a PC/SC status code, or the EINVAL of a string conversion. */
  datatype GoError = ScardError(code: uint32) | InvalidArgument

  datatype Result<+T> = Ok(value: T) | Err(error: GoError) | Panicked(panic: Panic)

  /**
   * The status check after every native call: success exactly for ErrSuccess, and otherwise
   * an Error that carries the same raw code.
   */
  function Check(r: uint32): (o: Result<()>)
    ensures o.Ok? <==> r == ErrSuccess
    ensures !o.Ok? ==> o == Err(ScardError(r))
  {
    if r == ErrSuccess then Ok(()) else Err(ScardError(r))
  }
}
