/**
 * GetStatusChange: the caller's reader states are copied into native records, the native
 * layer answers, and on success each caller entry gets its event state and, when reported,
 * its ATR back, in place.
 */
module ReaderMonitor {
  import opened Native
  import opened Errors
  import opened Utf16
  import opened Timeout

  /** One entry of the caller's polling slice. */
  datatype ReaderState = ReaderState(reader: seq<uint16>, currentState: uint32, eventState: uint32, atr: seq<byte>)

  /** The fixed ATR array inside a native record. */
  type AtrBuffer = s: seq<byte> | |s| == RecordAtrSize witness seq(RecordAtrSize, _ => 0)

  /** The native SCARD_READERSTATE record (its user-data pointer is always zero and is left out). */
  datatype NativeReaderState =
    NativeReaderState(szReader: seq<uint16>, dwCurrentState: uint32, dwEventState: uint32, cbAtr: uint32, rgbAtr: AtrBuffer)

  /** What SCardGetStatusChange returns and writes into the record array (from its start). */
  datatype StatusChangeReply = StatusChangeReply(status: uint32, records: seq<NativeReaderState>)

  /** SCardGetStatusChange as an oracle: context handle, timeout in ms, the records sent. */
  type StatusChangeNative = (uintptr, uint32, seq<NativeReaderState>) -> StatusChangeReply

  const ZeroRecord: NativeReaderState := NativeReaderState([], 0, 0, 0, seq(RecordAtrSize, _ => 0))

  /**
   * The record for one entry: its converted name, its current state, the ATR length as a
   * uint32 (not clamped to the array) and as many ATR bytes as the 36-byte array holds.
   */
  function MarshalRecord(rs: ReaderState, szReader: seq<uint16>): (c: NativeReaderState)
    ensures c.szReader == szReader && c.dwCurrentState == rs.currentState && c.dwEventState == 0
    ensures c.cbAtr == |rs.atr| % 0x1_0000_0000
    ensures var k := Min(|rs.atr|, RecordAtrSize);
      c.rgbAtr[..k] == rs.atr[..k] && forall i :: k <= i < RecordAtrSize ==> c.rgbAtr[i] == 0
  {
    NativeReaderState(szReader, rs.currentState, 0, |rs.atr| % 0x1_0000_0000, CopyInto(Repeat<byte>(0, RecordAtrSize), rs.atr))
  }

  /** True when no reader name holds a NUL, so every name converts. */
  predicate NamesConvert(states: seq<ReaderState>)
  {
    forall i :: 0 <= i < |states| ==> 0 !in states[i].reader
  }

  /** The record array: one record per entry, in order, or EINVAL when a name does not convert. */
  function Marshal(states: seq<ReaderState>): (r: Result<seq<NativeReaderState>>)
    ensures r.Ok? <==> NamesConvert(states)
    ensures !r.Ok? ==> r == Err(InvalidArgument)
    ensures r.Ok? ==> |r.value| == |states|
    ensures r.Ok? ==> forall i :: 0 <= i < |states| ==> r.value[i] == MarshalRecord(states[i], states[i].reader + [0])
  {
    if NamesConvert(states) then
      Ok(seq(|states|, i requires 0 <= i < |states| => MarshalRecord(states[i], states[i].reader + [0])))
    else
      Err(InvalidArgument)
  }

  /** The write-back copies the reported ATR out of the 36-byte array without panicking. */
  predicate AtrFits(c: NativeReaderState)
  {
    c.cbAtr <= RecordAtrSize
  }

  /**
   * One entry after the write-back: the event state always, a fresh ATR of cbAtr bytes only when
   * cbAtr > 0, nothing else. When cbAtr exceeds the array the fresh zeroed slice is already
   * assigned when slicing rgbAtr panics.
   */
  function WriteBackRecord(rs: ReaderState, c: NativeReaderState): (w: ReaderState)
    ensures w.reader == rs.reader && w.currentState == rs.currentState
    ensures w.eventState == c.dwEventState
    ensures c.cbAtr == 0 ==> w.atr == rs.atr
    ensures 0 < c.cbAtr && AtrFits(c) ==> w.atr == c.rgbAtr[..c.cbAtr]
    ensures !AtrFits(c) ==> w.atr == Repeat<byte>(0, c.cbAtr)
  {
    var updated := rs.(eventState := c.dwEventState);
    if c.cbAtr == 0 then updated
    else if AtrFits(c) then updated.(atr := CopyInto(Repeat<byte>(0, c.cbAtr), c.rgbAtr[..c.cbAtr]))
    else updated.(atr := Repeat<byte>(0, c.cbAtr))
  }

  /** Index of the first record whose ATR length exceeds its array, or |crs|. */
  function FirstOversized(crs: seq<NativeReaderState>): (k: nat)
    ensures k <= |crs|
    ensures forall i :: 0 <= i < k ==> AtrFits(crs[i])
    ensures k < |crs| ==> !AtrFits(crs[k])
  {
    if crs == [] || !AtrFits(crs[0]) then 0 else 1 + FirstOversized(crs[1..])
  }

  /** The write-back loop: entries up to the first oversized record are written, then it panics. */
  function WriteBack(states: seq<ReaderState>, crs: seq<NativeReaderState>): (r: (Result<()>, seq<ReaderState>))
    requires |crs| == |states|
    ensures r.0 == Ok(()) <==> forall i :: 0 <= i < |crs| ==> AtrFits(crs[i])
    ensures r.0 != Ok(()) ==> r.0 == Panicked(SliceBoundsOutOfRange)
    ensures |r.1| == |states|
    ensures forall i :: 0 <= i < |states| ==>
      r.1[i].reader == states[i].reader && r.1[i].currentState == states[i].currentState
    ensures forall i :: 0 <= i < |states| && (forall j :: 0 <= j < i ==> AtrFits(crs[j])) ==>
      r.1[i].eventState == crs[i].dwEventState
    ensures forall i :: 0 <= i < |states| && (exists j :: 0 <= j < i && !AtrFits(crs[j])) ==> r.1[i] == states[i]
  {
    var k := FirstOversized(crs);
    (if k < |crs| then Panicked(SliceBoundsOutOfRange) else Ok(()),
     seq(|states|, i requires 0 <= i < |states| => if i <= k then WriteBackRecord(states[i], crs[i]) else states[i]))
  }

  /** The whole of GetStatusChange: its outcome and the caller's slice afterwards. */
  function StatusChange(ctx: Context, states: seq<ReaderState>, timeout: int64, native: StatusChangeNative)
    : (r: (Result<()>, seq<ReaderState>))
    ensures |r.1| == |states|
    ensures r.0.Err? ==> r.1 == states
    ensures r.0.Err? <==> !NamesConvert(states) || (|states| > 0 && native(ctx.ctx, TimeoutMillis(timeout), Marshal(states).value).status != ErrSuccess)
    ensures r.0.Err? && NamesConvert(states) ==> r.0 == Err(ScardError(native(ctx.ctx, TimeoutMillis(timeout), Marshal(states).value).status))
    ensures r.0 == Panicked(IndexOutOfRange) <==> |states| == 0
  {
    match Marshal(states)
    case Ok(crs) =>
      if |crs| == 0 then (Panicked(IndexOutOfRange), states)
      else
        var reply := native(ctx.ctx, TimeoutMillis(timeout), crs);
        if reply.status != ErrSuccess then (Err(ScardError(reply.status)), states)
        else WriteBack(states, CopyInto(crs, reply.records))
    case _ => (Err(InvalidArgument), states)
  }

  /** The records as they stand after a call that returned ErrSuccess. */
  function Answered(ctx: Context, states: seq<ReaderState>, timeout: int64, native: StatusChangeNative)
    : (crs: seq<NativeReaderState>)
    requires NamesConvert(states)
    ensures |crs| == |states|
  {
    var sent := Marshal(states).value;
    CopyInto(sent, native(ctx.ctx, TimeoutMillis(timeout), sent).records)
  }

  /** The reply to the records that GetStatusChange sends. */
  function Reply(ctx: Context, states: seq<ReaderState>, timeout: int64, native: StatusChangeNative): StatusChangeReply
    requires NamesConvert(states)
  {
    native(ctx.ctx, TimeoutMillis(timeout), Marshal(states).value)
  }

  /** Whatever happens, the slice keeps its length and every entry its reader name and current state. */
  lemma StatusChangeFrame(ctx: Context, states: seq<ReaderState>, timeout: int64, native: StatusChangeNative)
    ensures var after := StatusChange(ctx, states, timeout, native).1;
      |after| == |states| &&
      forall i :: 0 <= i < |states| ==> after[i].reader == states[i].reader && after[i].currentState == states[i].currentState
  {
  }

  /**
   * The failures before the write-back leave the slice untouched: a name that does not convert
   * gives EINVAL, an empty slice panics at &crs[0], and a failing status is returned as its Error.
   */
  lemma StatusChangeFailures(ctx: Context, states: seq<ReaderState>, timeout: int64, native: StatusChangeNative)
    ensures !NamesConvert(states) ==> StatusChange(ctx, states, timeout, native) == (Err(InvalidArgument), states)
    ensures |states| == 0 ==> StatusChange(ctx, states, timeout, native) == (Panicked(IndexOutOfRange), states)
    ensures NamesConvert(states) && |states| > 0 && Reply(ctx, states, timeout, native).status != ErrSuccess ==>
      StatusChange(ctx, states, timeout, native) == (Err(ScardError(Reply(ctx, states, timeout, native).status)), states)
    ensures StatusChange(ctx, states, timeout, native).0.Err? ==> StatusChange(ctx, states, timeout, native).1 == states
  {
  }

  /**
   * The call succeeds exactly when every name converts, the slice is not empty, the status is
   * ErrSuccess and every reported ATR length fits the 36-byte array.
   */
  lemma StatusChangeOkIff(ctx: Context, states: seq<ReaderState>, timeout: int64, native: StatusChangeNative)
    ensures StatusChange(ctx, states, timeout, native).0 == Ok(()) <==>
      && NamesConvert(states)
      && |states| > 0
      && Reply(ctx, states, timeout, native).status == ErrSuccess
      && forall i :: 0 <= i < |states| ==> AtrFits(Answered(ctx, states, timeout, native)[i])
  {
    if NamesConvert(states) && |states| > 0 && Reply(ctx, states, timeout, native).status == ErrSuccess {
      var crs := Answered(ctx, states, timeout, native);
      var k := FirstOversized(crs);
      if k < |crs| {
        assert !AtrFits(crs[k]);
      }
    }
  }

  /**
   * After a successful call every entry carries the reported event state, its ATR is the
   * reported cbAtr bytes when cbAtr > 0, and its old ATR otherwise.
   */
  lemma StatusChangeWritesBack(ctx: Context, states: seq<ReaderState>, timeout: int64, native: StatusChangeNative)
    requires StatusChange(ctx, states, timeout, native).0 == Ok(())
    ensures NamesConvert(states)
    ensures var crs := Answered(ctx, states, timeout, native);
      var after := StatusChange(ctx, states, timeout, native).1;
      |after| == |states| &&
      forall i :: 0 <= i < |states| ==>
        && after[i].eventState == crs[i].dwEventState
        && (crs[i].cbAtr > 0 ==> after[i].atr == crs[i].rgbAtr[..crs[i].cbAtr])
        && (crs[i].cbAtr == 0 ==> after[i].atr == states[i].atr)
  {
  }

  /**
   * The ATR length is sent unclamped: when the native layer leaves a record as it was sent and
   * that entry's ATR is longer than the array, the write-back panics.
   */
  lemma UntouchedLongAtrPanics(ctx: Context, states: seq<ReaderState>, timeout: int64, native: StatusChangeNative, i: nat)
    requires NamesConvert(states)
    requires i < |states| && RecordAtrSize < |states[i].atr| < 0x1_0000_0000
    requires Reply(ctx, states, timeout, native) == StatusChangeReply(ErrSuccess, [])
    ensures StatusChange(ctx, states, timeout, native).0 == Panicked(SliceBoundsOutOfRange)
  {
    var sent := Marshal(states).value;
    var crs := CopyInto(sent, []);
    assert crs[i] == sent[i] == MarshalRecord(states[i], states[i].reader + [0]);
    assert !AtrFits(crs[i]);
    assert StatusChange(ctx, states, timeout, native) == WriteBack(states, crs);
  }

  /** The marshalling loop: fills the record array entry by entry, stopping at a name that does not convert. */
  method MarshalStates(readerStates: array<ReaderState>) returns (r: Result<seq<NativeReaderState>>)
    ensures r == Marshal(readerStates[..])
  {
    var n := readerStates.Length;
    var crs := new NativeReaderState[n](_ => ZeroRecord);
    for i := 0 to n
      invariant forall j :: 0 <= j < i ==> 0 !in readerStates[j].reader
      invariant forall j :: 0 <= j < i ==> crs[j] == MarshalRecord(readerStates[j], readerStates[j].reader + [0])
    {
      var rptr := ToNulTerminated(readerStates[i].reader);
      if !rptr.Ok? {
        assert readerStates[..][i] == readerStates[i];
        return Err(InvalidArgument);
      }
      crs[i] := MarshalRecord(readerStates[i], rptr.value);
    }
    assert NamesConvert(readerStates[..]);
    assert forall j :: 0 <= j < n ==> crs[..][j] == Marshal(readerStates[..]).value[j];
    assert crs[..] == Marshal(readerStates[..]).value;
    return Ok(crs[..]);
  }

  /** The write-back loop, in place over the caller's slice. */
  method WriteBackStates(readerStates: array<ReaderState>, crs: seq<NativeReaderState>) returns (r: Result<()>)
    requires |crs| == readerStates.Length
    modifies readerStates
    ensures (r, readerStates[..]) == WriteBack(old(readerStates[..]), crs)
  {
    ghost var states := readerStates[..];
    var n := readerStates.Length;
    for i := 0 to n
      invariant forall j :: 0 <= j < i ==> AtrFits(crs[j])
      invariant forall j :: 0 <= j < i ==> readerStates[j] == WriteBackRecord(states[j], crs[j])
      invariant forall j :: i <= j < n ==> readerStates[j] == states[j]
    {
      readerStates[i] := readerStates[i].(eventState := crs[i].dwEventState);
      if crs[i].cbAtr > 0 {
        readerStates[i] := readerStates[i].(atr := Repeat<byte>(0, crs[i].cbAtr));
        if crs[i].cbAtr > |crs[i].rgbAtr| {
          assert FirstOversized(crs) == i;
          assert readerStates[i] == WriteBackRecord(states[i], crs[i]);
          assert forall j :: 0 <= j < n ==> readerStates[..][j] == WriteBack(states, crs).1[j];
          assert readerStates[..] == WriteBack(states, crs).1;
          assert WriteBack(states, crs).0 == Panicked(SliceBoundsOutOfRange);
          return Panicked(SliceBoundsOutOfRange);
        }
        readerStates[i] := readerStates[i].(atr := CopyInto(readerStates[i].atr, crs[i].rgbAtr[..crs[i].cbAtr]));
      }
    }
    assert FirstOversized(crs) == n;
    assert forall j :: 0 <= j < n ==> readerStates[..][j] == WriteBack(states, crs).1[j];
    assert readerStates[..] == WriteBack(states, crs).1;
    return Ok(());
  }

  method GetStatusChange(ctx: Context, readerStates: array<ReaderState>, timeout: int64, native: StatusChangeNative)
    returns (r: Result<()>)
    modifies readerStates
    ensures (r, readerStates[..]) == StatusChange(ctx, old(readerStates[..]), timeout, native)
  {
    var dwTimeout := TimeoutMillis(timeout);
    var sent := MarshalStates(readerStates);
    if !sent.Ok? {
      return Err(InvalidArgument);
    }
    if |sent.value| == 0 {
      return Panicked(IndexOutOfRange);
    }
    var reply := native(ctx.ctx, dwTimeout, sent.value);
    // the native layer writes its records over the start of the array it was given
    var crs := CopyInto(sent.value, reply.records);
    var status := Check(reply.status);
    if !status.Ok? {
      return status;
    }
    r := WriteBackStates(readerStates, crs);
  }
}
