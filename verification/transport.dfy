/**
 * The card-level wrappers that move data: protocol selection and APDU transmission, raw
 * control exchanges, attribute reads and the status snapshot. Each response is the part of
 * a fixed-capacity buffer that the native layer reports as filled.
 */
module CardTransport {
  import opened Native
  import opened Errors
  import opened Utf16

  /** The two framing descriptors exported by the resource manager (g_rgSCardT0Pci, g_rgSCardT1Pci). */
  datatype Pci = T0Pci | T1Pci

  /** Picks the descriptor for the card's active protocol; any other protocol panics. */
  function SelectPci(protocol: uint32): (pci: Result<Pci>)
    ensures pci == Ok(T0Pci) <==> protocol == ProtocolT0
    ensures pci == Ok(T1Pci) <==> protocol == ProtocolT1
    ensures !pci.Ok? <==> protocol != ProtocolT0 && protocol != ProtocolT1
    ensures !pci.Ok? ==> pci == Panicked(UnknownProtocol)
  {
    if protocol == ProtocolT0 then Ok(T0Pci)
    else if protocol == ProtocolT1 then Ok(T1Pci)
    else Panicked(UnknownProtocol)
  }

  /** What SCardTransmit returns: a status, the bytes it wrote into the receive buffer, and the length it reports. */
  datatype TransmitReply = TransmitReply(status: uint32, data: seq<byte>, recvLen: uint32)

  /** SCardTransmit: card handle, descriptor, command, receive-buffer capacity. */
  type TransmitNative = (uintptr, Pci, seq<byte>, nat) -> TransmitReply

  /** What SCardControl returns; its length is written into a pointer-sized variable. */
  datatype ControlReply = ControlReply(status: uint32, data: seq<byte>, recvLen: uintptr)

  /** SCardControl: card handle, control code, command (empty: no command buffer), receive capacity. */
  type ControlNative = (uintptr, uint32, seq<byte>, nat) -> ControlReply

  /** True when `rsp` is exactly the first n bytes of a zeroed buffer after the native layer wrote `data`. */
  predicate IsReceived(rsp: seq<byte>, n: nat, data: seq<byte>)
  {
    |rsp| == n && forall i :: 0 <= i < n ==> rsp[i] == if i < |data| then data[i] else 0
  }

  method Transmit(card: Card, cmd: seq<byte>, native: TransmitNative) returns (r: Result<seq<byte>>)
    ensures SelectPci(card.activeProtocol).Panicked? ==> r == Panicked(UnknownProtocol)
    ensures SelectPci(card.activeProtocol).Ok? && cmd == [] ==> r == Panicked(IndexOutOfRange)
    ensures SelectPci(card.activeProtocol).Ok? && cmd != [] ==>
      var reply := native(card.handle, SelectPci(card.activeProtocol).value, cmd, MaxBufferSizeExtended);
      && (reply.status != ErrSuccess ==> r == Err(ScardError(reply.status)))
      && (reply.status == ErrSuccess && reply.recvLen > MaxBufferSizeExtended ==> r == Panicked(SliceBoundsOutOfRange))
      && (reply.status == ErrSuccess && reply.recvLen <= MaxBufferSizeExtended ==>
            r.Ok? && IsReceived(r.value, reply.recvLen, reply.data))
  {
    var sendpci := SelectPci(card.activeProtocol);
    if !sendpci.Ok? {
      return Panicked(UnknownProtocol);
    }
    var recv := new byte[MaxBufferSizeExtended](_ => 0);
    if |cmd| == 0 {
      return Panicked(IndexOutOfRange);
    }
    var reply := native(card.handle, sendpci.value, cmd, recv.Length);
    // the native layer writes the response over the start of recv and sets recvlen
    forall i | 0 <= i < recv.Length && i < |reply.data| {
      recv[i] := reply.data[i];
    }
    var recvlen := reply.recvLen;
    var status := Check(reply.status);
    if !status.Ok? {
      return Err(ScardError(reply.status));
    }
    if recvlen > recv.Length {
      return Panicked(SliceBoundsOutOfRange);
    }
    var rsp := new byte[recvlen];
    forall i | 0 <= i < recvlen {
      rsp[i] := recv[i];
    }
    return Ok(rsp[..]);
  }

  method Control(card: Card, ctrl: uint32, cmd: seq<byte>, native: ControlNative) returns (r: Result<seq<byte>>)
    ensures var reply := native(card.handle, ctrl, cmd, ControlBufferSize);
      && (reply.status != ErrSuccess ==> r == Err(ScardError(reply.status)))
      && (reply.status == ErrSuccess && reply.recvLen > ControlBufferSize ==> r == Panicked(SliceBoundsOutOfRange))
      && (reply.status == ErrSuccess && reply.recvLen <= ControlBufferSize ==>
            r.Ok? && IsReceived(r.value, reply.recvLen, reply.data))
  {
    var recv := new byte[ControlBufferSize](_ => 0);
    // an empty command is passed as a null buffer of length 0: the same request to the oracle
    var reply := native(card.handle, ctrl, cmd, recv.Length);
    forall i | 0 <= i < recv.Length && i < |reply.data| {
      recv[i] := reply.data[i];
    }
    var recvlen := reply.recvLen;
    var status := Check(reply.status);
    if !status.Ok? {
      return Err(ScardError(reply.status));
    }
    if recvlen > recv.Length {
      return Panicked(SliceBoundsOutOfRange);
    }
    var rsp := new byte[recvlen];
    forall i | 0 <= i < recvlen {
      rsp[i] := recv[i];
    }
    return Ok(rsp[..]);
  }

  /** The size query of SCardGetAttrib: a status and the number of bytes needed. */
  datatype AttribSize = AttribSize(status: uint32, needed: uintptr)

  /** The fill call of SCardGetAttrib: a status, the bytes written, the length it reports. */
  datatype AttribFill = AttribFill(status: uint32, data: seq<byte>, needed: uintptr)

  type AttribSizeNative = (uintptr, uint32) -> AttribSize
  type AttribFillNative = (uintptr, uint32, nat) -> AttribFill

  /**
   * Two-phase read of one attribute: the buffer is as long as the first answer, the result is as
   * long as the second one, and a second answer longer than the buffer panics.
   */
  function GetAttrib(card: Card, id: uint32, query: AttribSizeNative, fill: AttribFillNative): (r: Result<seq<byte>>)
    ensures var q := query(card.handle, id);
      && (q.status != ErrSuccess ==> r == Err(ScardError(q.status)))
      && (q.status == ErrSuccess && q.needed == 0 ==> r == Panicked(IndexOutOfRange))
    ensures var q := query(card.handle, id); var f := fill(card.handle, id, q.needed);
      q.status == ErrSuccess && q.needed > 0 ==>
        && (f.status != ErrSuccess ==> r == Err(ScardError(f.status)))
        && (f.status == ErrSuccess && f.needed > q.needed ==> r == Panicked(SliceBoundsOutOfRange))
        && (f.status == ErrSuccess && f.needed <= q.needed ==> r.Ok? && IsReceived(r.value, f.needed, f.data))
    ensures r.Ok? ==> |r.value| <= query(card.handle, id).needed
  {
    var q := query(card.handle, id);
    if q.status != ErrSuccess then Err(ScardError(q.status))
    else if q.needed == 0 then Panicked(IndexOutOfRange)
    else
      var f := fill(card.handle, id, q.needed);
      var attrib := CopyInto(Repeat<byte>(0, q.needed), f.data);
      if f.status != ErrSuccess then Err(ScardError(f.status))
      else if f.needed > |attrib| then Panicked(SliceBoundsOutOfRange)
      else Ok(attrib[..f.needed])
  }

  /** What SCardStatus returns and writes into its fixed buffers. */
  datatype StatusReply = StatusReply(
    status: uint32, reader: seq<uint16>, readerLen: uint32, state: uint32, proto: uint32, atr: seq<byte>, atrLen: uint32)

  /** SCardStatus: card handle, reader-name buffer capacity, ATR buffer capacity. */
  type StatusNative = (uintptr, nat, nat) -> StatusReply

  /** The snapshot Status returns. */
  datatype CardStatus = CardStatus(reader: seq<uint16>, state: uint32, activeProtocol: uint32, atr: seq<byte>)

  /**
   * The status snapshot: reader name up to the first NUL of the reported units, state and protocol
   * as reported, and the ATR exactly the reported number of bytes; reported lengths beyond the
   * fixed buffers panic.
   */
  function Status(card: Card, native: StatusNative): (r: Result<CardStatus>)
    ensures var reply := native(card.handle, MaxReadername + 1, MaxAtrSize);
      && (reply.status != ErrSuccess ==> r == Err(ScardError(reply.status)))
      && (r.Ok? <==> reply.status == ErrSuccess && reply.readerLen <= MaxReadername + 1 && reply.atrLen <= MaxAtrSize)
      && (reply.status == ErrSuccess && !r.Ok? ==> r == Panicked(SliceBoundsOutOfRange))
    ensures var reply := native(card.handle, MaxReadername + 1, MaxAtrSize);
      r.Ok? ==>
        && r.value.state == reply.state
        && r.value.activeProtocol == reply.proto
        && IsReceived(r.value.atr, reply.atrLen, reply.atr)
        && 0 !in r.value.reader
        && |r.value.reader| <= reply.readerLen
        && (forall i :: 0 <= i < |r.value.reader| ==> r.value.reader[i] == if i < |reply.reader| then reply.reader[i] else 0)
        && (|r.value.reader| < reply.readerLen ==>
              (if |r.value.reader| < |reply.reader| then reply.reader[|r.value.reader|] else 0) == 0)
  {
    var reply := native(card.handle, MaxReadername + 1, MaxAtrSize);
    var reader := CopyInto(Repeat<uint16>(0, MaxReadername + 1), reply.reader);
    var atr := CopyInto(Repeat<byte>(0, MaxAtrSize), reply.atr);
    if reply.status != ErrSuccess then Err(ScardError(reply.status))
    else if reply.readerLen > |reader| || reply.atrLen > |atr| then Panicked(SliceBoundsOutOfRange)
    else Ok(CardStatus(UntilNul(reader[..reply.readerLen]), reply.state, reply.proto, atr[..reply.atrLen]))
  }

  /** Transmit on a raw or undefined protocol stops with the unknown-protocol panic. */
  lemma SelectPciRejectsRawAndUndefined(protocol: uint32)
    ensures protocol == ProtocolRaw || protocol == ProtocolUndefined ==> SelectPci(protocol) == Panicked(UnknownProtocol)
  {
  }
}
