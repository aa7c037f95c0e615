/**
 * The two enumeration wrappers of a context. Both follow the same two-phase convention: ask
 * for the buffer length, allocate that many code units, let the native layer fill them, then
 * decode the multi-string.
 */
module ResourceManager {
  import opened Native
  import opened Errors
  import opened MultiString

  /** The answer to the size query: a status and the number of code units needed. */
  datatype SizeReply = SizeReply(status: uint32, needed: uintptr)

  /** The answer to the fill call: a status, what it wrote from the buffer's start, and the length it reports. */
  datatype FillReply<T> = FillReply(status: uint32, data: seq<T>, needed: uintptr)

  /** The first phase: the context handle, no buffer. */
  type SizeNative = uintptr -> SizeReply

  /** The second phase: the context handle and the length of the buffer handed over. */
  type FillNative = (uintptr, nat) -> FillReply<uint16>

  /** The buffer after the fill call: `needed` units, as written by the native layer, zero beyond. */
  function Filled(needed: nat, fill: FillReply<uint16>): (buffer: seq<uint16>)
    ensures |buffer| == needed
    ensures forall i :: 0 <= i < needed ==> buffer[i] == if i < |fill.data| then fill.data[i] else 0
  {
    CopyInto(Repeat<uint16>(0, needed), fill.data)
  }

  /**
   * The two-phase convention both wrappers share: the size query's error is returned, a zero
   * length panics at `&data[0]`, the fill call's error is returned, and otherwise the whole
   * buffer of the first-phase length is decoded (the length reported by the fill call is unused).
   */
  function Listed(handle: uintptr, query: SizeNative, fill: FillNative): (r: Result<seq<seq<uint16>>>)
    ensures var q := query(handle);
      && (q.status != ErrSuccess ==> r == Err(ScardError(q.status)))
      && (q.status == ErrSuccess && q.needed == 0 ==> r == Panicked(IndexOutOfRange))
    ensures var q := query(handle); var f := fill(handle, q.needed);
      q.status == ErrSuccess && q.needed > 0 ==>
        && (f.status != ErrSuccess ==> r == Err(ScardError(f.status)))
        && (f.status == ErrSuccess ==> r == Decode(Filled(q.needed, f)))
  {
    var q := query(handle);
    if q.status != ErrSuccess then Err(ScardError(q.status))
    else if q.needed == 0 then Panicked(IndexOutOfRange)
    else
      var f := fill(handle, q.needed);
      if f.status != ErrSuccess then Err(ScardError(f.status))
      else Decode(Filled(q.needed, f))
  }

  /** The shared body of the wrappers: size query, allocation, fill call, decoding loop. */
  method ListMultiString(handle: uintptr, query: SizeNative, fill: FillNative) returns (r: Result<seq<seq<uint16>>>)
    ensures r == Listed(handle, query, fill)
  {
    var sized := query(handle);
    var status := Check(sized.status);
    if !status.Ok? {
      return Err(ScardError(sized.status));
    }
    var needed := sized.needed;
    if needed == 0 {
      return Panicked(IndexOutOfRange);
    }
    var filled := fill(handle, needed);
    // the length reported by the second call is not used: the whole buffer is decoded
    var data := Filled(needed, filled);
    status := Check(filled.status);
    if !status.Ok? {
      return Err(ScardError(filled.status));
    }
    r := DecodeMultiString(data);
  }

  /** SCardListReaders (with no group filter) followed by the decoding loop. */
  method ListReaders(ctx: Context, readersQuery: SizeNative, readersFill: FillNative) returns (readers: Result<seq<seq<uint16>>>)
    ensures readers == Listed(ctx.ctx, readersQuery, readersFill)
  {
    readers := ListMultiString(ctx.ctx, readersQuery, readersFill);
  }

  /** SCardListReaderGroups followed by the same decoding loop. */
  method ListReaderGroups(ctx: Context, groupsQuery: SizeNative, groupsFill: FillNative) returns (groups: Result<seq<seq<uint16>>>)
    ensures groups == Listed(ctx.ctx, groupsQuery, groupsFill)
  {
    groups := ListMultiString(ctx.ctx, groupsQuery, groupsFill);
  }

  /** A buffer of NUL units decodes to no names, whatever its length. */
  lemma {:induction false} DecodeZeros(n: nat)
    ensures Decode(Repeat<uint16>(0, n)) == Ok([])
  {
    if n > 0 {
      DecodeZeros(n - 1);
      assert Repeat<uint16>(0, n) == [0] + Repeat<uint16>(0, n - 1);
      DecodeSkipsEmpty(Repeat<uint16>(0, n - 1));
    }
  }

  /**
   * When the native layer writes a well-formed multi-string into a buffer at least as long,
   * listing returns exactly the names it encoded, in order: the untouched NUL units after it
   * are empty segments and add nothing.
   */
  lemma ListReturnsEncoded(names: seq<seq<uint16>>, needed: nat, fill: FillReply<uint16>)
    requires forall s :: s in names ==> IsEntry(s)
    requires fill.data == Encode(names) && |fill.data| <= needed
    ensures Decode(Filled(needed, fill)) == Ok(names)
  {
    var e := Encode(names);
    assert Filled(needed, fill) == e + Repeat<uint16>(0, needed - |e|);
    DecodeConcat(e, Repeat<uint16>(0, needed - |e|));
    DecodeEncode(names);
    DecodeZeros(needed - |e|);
    assert names + [] == names;
  }
}
