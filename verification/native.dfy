/**
 * The wire-level vocabulary of the PC/SC resource manager as the Go package sees it:
 * fixed-width integers, the platform constants, the two handle-bearing values and the way
 * a native entry point fills a caller-allocated buffer.
 */
module Native {

  type byte = x: int | 0 <= x < 0x100
  type uint16 = x: int | 0 <= x < 0x1_0000
  type uint32 = x: int | 0 <= x < 0x1_0000_0000
  type uintptr = x: int | 0 <= x < 0x1_0000_0000_0000_0000
  /** Go's time.Duration: a signed 64-bit count of nanoseconds. */
  type int64 = x: int | -0x8000_0000_0000_0000 <= x < 0x8000_0000_0000_0000

  /** The one status code that means success (SCARD_S_SUCCESS). */
  const ErrSuccess: uint32 := 0
  /** The "wait forever" timeout of SCardGetStatusChange (INFINITE). */
  const InfiniteTimeout: uint32 := 0xFFFF_FFFF
  /** Capacity of the ATR buffer that Status hands to the native layer. */
  const MaxAtrSize: nat := 36
  /** Longest reader name Status can receive; its buffer holds one more unit for the NUL. */
  const MaxReadername: nat := 255
  /** Capacity of Transmit's receive buffer: an extended APDU response. */
  const MaxBufferSizeExtended: nat := 4 + 3 + 0x1_0000 + 3 + 2
  /** Capacity of Control's receive buffer. */
  const ControlBufferSize: nat := 0xffff
  /** Size of the rgbAtr array inside one native reader-state record. */
  const RecordAtrSize: nat := 36

  const ProtocolUndefined: uint32 := 0
  const ProtocolT0: uint32 := 1
  const ProtocolT1: uint32 := 2
  const ProtocolRaw: uint32 := 0x1_0000

  /** A resource-manager context: the native handle only. */
  datatype Context = Context(ctx: uintptr)

  /** A connected card: its handle and the protocol negotiated when it was connected. */
  datatype Card = Card(handle: uintptr, activeProtocol: uint32)

  function Min(a: nat, b: nat): nat { if a <= b then a else b }

  /** A freshly made Go slice: n copies of the element type's zero value. */
  function Repeat<T>(zero: T, n: nat): (z: seq<T>)
    ensures |z| == n && forall i :: 0 <= i < n ==> z[i] == zero
  {
    seq(n, _ => zero)
  }

  /**
   * Go's built-in copy(dst, src), seen as the new contents of dst: the first min(|dst|, |src|)
   * elements come from src, the rest of dst is untouched. The same function describes a native
   * entry point writing `src` into a buffer of fixed capacity: it never writes past the end.
   */
  function CopyInto<T>(dst: seq<T>, src: seq<T>): (r: seq<T>)
    ensures |r| == |dst|
    ensures forall i :: 0 <= i < |r| ==> r[i] == if i < |src| then src[i] else dst[i]
  {
    if |src| >= |dst| then src[..|dst|] else src + dst[|src|..]
  }
}
