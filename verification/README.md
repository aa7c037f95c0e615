# PC/SC wrappers for Windows, modelled in Dafny

This project models the logic that `scard_windows.go` wraps around the Windows smart-card
resource manager (`winscard.dll`). Each native entry point (`SCardListReadersW`,
`SCardGetStatusChangeW`, `SCardTransmit`, …) is an oracle: a function-valued parameter from the
request (handle, buffer capacities, marshalled records, descriptor, command) to a reply. The
reply holds the status code, what the call writes into the caller's buffers and the lengths it
reports. A native call that writes into a caller-allocated buffer is modelled with Go's `copy`
semantics (`Native.CopyInto`): it writes over the buffer's start and never past its end. The
rest of the buffer keeps the zeros of `make`.

Go runtime panics are explicit outcomes (`Errors.Result.Panicked`), not preconditions. These are
the `&s[0]` of an empty slice, a slice bound past a buffer's capacity, and `panic("unknown
protocol")`. Every wrapper returns `Ok`, `Err(ScardError(code))` carrying the raw status code,
`Err(InvalidArgument)` (the EINVAL of a failed string conversion), or `Panicked`.

Modules, one per component:

- `Native`: integer widths, the platform constants, `Context`, `Card`, `CopyInto`.
- `Errors`: the outcome type and the status-code check shared by every wrapper.
- `Utf16`: strings as sequences of UTF-16 code units, plus the two conversions the file uses.
- `MultiString`: the decoding loop of `ListReaders`/`ListReaderGroups` and its specification.
- `ResourceManager`: the two-phase `ListReaders` and `ListReaderGroups`.
- `Timeout`: the duration → milliseconds mapping of `GetStatusChange`.
- `ReaderMonitor`: `GetStatusChange`. Reader states are marshalled into native records, and the
  event state and ATR are written back into the caller's slice (an `array`) in place.
- `CardTransport`: protocol selection, `Transmit`, `Control`, `GetAttrib`, `Status`.

Constants that the file uses but does not define take these values: `ErrSuccess = 0`,
`infiniteTimeout = 0xFFFFFFFF`, `maxAtrSize = 36`, `maxReadername = 255`,
`maxBufferSizeExtended = 65548`, `ProtocolT0 = 1`, `ProtocolT1 = 2`. The values follow the PC/SC
headers of the platform.

Four behaviours of the code worth noting:

- `Transmit` on a protocol other than T0/T1 panics.
- The timeout comparison is strict. A duration of exactly `infiniteTimeout` ms is therefore sent
  as the infinite sentinel, just as a negative duration is
  (`Timeout.SentinelExactly`, `Timeout.NotMonotoneAtClamp`).
- The ATR length of a record is sent unclamped (`cbAtr = len(Atr)`). Only the bytes are cut to
  the 36-byte array. If the native layer leaves such a record untouched, the write-back panics
  (`ReaderMonitor.UntouchedLongAtrPanics`).
- An empty `readerStates` slice panics at `&crs[0]` before the native layer is called.

## Model

| member | source | states |
|---|---|---|
| `Errors.Check` | scard_windows.go:67-70 | success exactly when the code is `ErrSuccess`; otherwise an `Error` carrying that same raw code |
| `Utf16.IndexOfNul` | scard_windows.go:127-132 | the inner scan stops at the first NUL unit, or at the end of the buffer when there is none |
| `Utf16.ToNulTerminated` | scard_windows.go:207-210 | a reader name converts (to itself plus a terminating NUL) exactly when it holds no NUL; otherwise EINVAL |
| `Utf16.UntilNul` | scard_windows.go:319 | the reader name is the NUL-free prefix of the reported units, up to the first NUL |
| `Utf16.UntilNulInverse` | scard_windows.go:207 | reading a converted name back out of any buffer that starts with it gives the name |
| `MultiString.Decode` | scard_windows.go:125-138 | decoding never returns an error: it yields a list of names or panics |
| `MultiString.DecodeMultiString` | scard_windows.go:125-138 | the loop that reassigns `data` and appends entries computes exactly `Decode` of the buffer |
| `MultiString.DecodeSkipsEmpty` | scard_windows.go:133-137 | an empty segment (a bare NUL, including a lone leading NUL) produces no entry |
| `MultiString.DecodeSegment` | scard_windows.go:127-137 | a non-empty NUL-free segment and its NUL produce exactly that entry, before those of the rest |
| `MultiString.DecodePanicsIff` | scard_windows.go:137 | decoding panics exactly when the buffer is non-empty and its last unit is not NUL |
| `MultiString.DecodeEntries` | scard_windows.go:133-135 | every decoded entry is non-empty and NUL-free |
| `MultiString.DecodeEncode` | scard_windows.go:125-138 | round trip: non-empty NUL-free names, each NUL-terminated and closed by one more NUL, decode back to the same list; no names encode as a lone NUL |
| `MultiString.DecodeConcat` | scard_windows.go:125-138 | order: a NUL-terminated prefix decodes on its own, and its entries precede those of what follows |
| `ResourceManager.Filled` | scard_windows.go:115-120 | the decoded buffer has exactly the first-phase length: native units where written, zero elsewhere |
| `ResourceManager.Listed` | scard_windows.go:104-138 | error codes of either phase are returned as they are; a zero first-phase length panics; otherwise the result is `Decode` of the whole first-phase buffer, as the native layer filled it and zero beyond (the second reported length is ignored) |
| `ResourceManager.ListMultiString` | scard_windows.go:104-138 | the imperative two-phase call and decoding loop yields exactly `Listed` |
| `ResourceManager.ListReaders` | scard_windows.go:103-141 | listing readers is the two-phase convention `Listed` on the reader entry point |
| `ResourceManager.ListReaderGroups` | scard_windows.go:144-180 | listing groups is the same convention `Listed` on the group entry point |
| `ResourceManager.DecodeZeros` | scard_windows.go:115-138 | unwritten zero units at the end of the buffer are empty segments and add no name |
| `ResourceManager.ListReturnsEncoded` | scard_windows.go:115-138 | when the native layer writes the multi-string of some names into a buffer at least as long, listing yields exactly those names in order |
| `Timeout.TimeoutMillis` | scard_windows.go:195-202 | negative → `infiniteTimeout`; above `infiniteTimeout` ms → `infiniteTimeout - 1`; otherwise the whole number of milliseconds, truncated |
| `Timeout.SentinelExactly` | scard_windows.go:196-201 | the sentinel is sent exactly for negative durations and for exactly `infiniteTimeout` ms |
| `Timeout.MonotoneBelowClamp` | scard_windows.go:200-201 | up to the clamp, a longer duration never maps to fewer milliseconds, and never above the sentinel |
| `Timeout.NotMonotoneAtClamp` | scard_windows.go:198-201 | `infiniteTimeout` ms maps to the sentinel while one nanosecond more maps to `infiniteTimeout - 1` |
| `ReaderMonitor.MarshalRecord` | scard_windows.go:211-214 | a record gets the converted name, `dwCurrentState = CurrentState`, `cbAtr = len(Atr)` as a uint32, and the first min(len(Atr), 36) ATR bytes followed by zeros |
| `ReaderMonitor.Marshal` | scard_windows.go:204-215 | EINVAL exactly when some name holds a NUL; otherwise one record per entry, in order |
| `ReaderMonitor.MarshalStates` | scard_windows.go:204-215 | the marshalling loop over the record array computes `Marshal` of the caller's slice |
| `ReaderMonitor.WriteBackRecord` | scard_windows.go:228-232 | `EventState` is always written; `Atr` becomes `rgbAtr[0:cbAtr]` when 0 < cbAtr ≤ 36 and stays as it was when cbAtr = 0; reader and current state never change |
| `ReaderMonitor.FirstOversized` | scard_windows.go:229-231 | the first record whose reported ATR length exceeds the 36-byte array, where the write-back loop panics |
| `ReaderMonitor.WriteBackStates` | scard_windows.go:227-233 | the in-place write-back loop: entries up to the first oversized record are written back and the rest are untouched |
| `ReaderMonitor.WriteBack` | scard_windows.go:227-233 | success exactly when every reported ATR length fits; otherwise the slice-bounds panic; length, reader and current state of every entry are kept; every entry up to and including the first oversized record takes the reported event state, and entries after it are untouched |
| `ReaderMonitor.StatusChange` | scard_windows.go:192-236 | the slice keeps its length; an error leaves it unchanged; an error happens exactly when a name does not convert or a non-empty call returns a failing status, and then carries that status; the index panic happens exactly for an empty slice |
| `ReaderMonitor.GetStatusChange` | scard_windows.go:192-236 | the outcome and the caller's slice afterwards are exactly those of `StatusChange` on the slice as it was |
| `ReaderMonitor.StatusChangeFrame` | scard_windows.go:227-233 | whatever the outcome, the slice keeps its length and every entry its `Reader` and `CurrentState` |
| `ReaderMonitor.StatusChangeFailures` | scard_windows.go:204-225 | a name that does not convert gives EINVAL, an empty slice panics, and a failing status gives that code; in each case the slice is unchanged |
| `ReaderMonitor.StatusChangeOkIff` | scard_windows.go:204-235 | success exactly when all names convert, the slice is non-empty, the status is `ErrSuccess` and every reported ATR length fits |
| `ReaderMonitor.StatusChangeWritesBack` | scard_windows.go:227-233 | after success every entry carries the reported event state, and its ATR is the reported bytes when cbAtr > 0 and the old ATR otherwise |
| `ReaderMonitor.UntouchedLongAtrPanics` | scard_windows.go:213-231 | an ATR longer than 36 bytes is announced at full length, so a record the native layer leaves as sent makes the write-back panic |
| `CardTransport.SelectPci` | scard_windows.go:332-339 | T0 selects the T0 descriptor and T1 the T1 descriptor, each exactly; any other protocol panics |
| `CardTransport.SelectPciRejectsRawAndUndefined` | scard_windows.go:332-339 | the raw and undefined protocols reach the unknown-protocol panic |
| `CardTransport.Transmit` | scard_windows.go:329-359 | the descriptor sent matches the active protocol; an empty command panics; a failing status is returned as its code; a reported length above 65548 panics; otherwise the response is exactly the first `recvlen` bytes of the receive buffer |
| `CardTransport.Control` | scard_windows.go:362-394 | a failing status is returned as its code; a reported length above 0xffff panics; otherwise the response is exactly the first `recvlen` bytes of the receive buffer |
| `CardTransport.GetAttrib` | scard_windows.go:397-421 | two phases with status checks; a zero first length panics; a second length above the first panics; otherwise the result is exactly the first `needed` bytes of the buffer, never longer than the first answer |
| `CardTransport.Status` | scard_windows.go:299-326 | success exactly when the status is `ErrSuccess` and both reported lengths fit their buffers; state and protocol as reported; ATR exactly `atr[0:atrLen]`; reader name the NUL-free prefix of the reported units |

## Left out

- Loading `winscard.dll`, looking up its procedures and the two descriptor symbols, and the `init` panic when a symbol is missing. This is foreign-library binding; the descriptors are the two values of `CardTransport.Pci`.
- The `procX.Call` invocations and `unsafe.Pointer` plumbing. Each is an oracle parameter. The model does not check what the native layer does with the pointers it is given.
- UTF-16 ↔ UTF-8 decoding inside `syscall.UTF16ToString` and `syscall.UTF16PtrFromString`. Strings are sequences of UTF-16 code units. Only the NUL handling is modelled: truncation at the first NUL, and EINVAL for an embedded NUL.
- `Error.Error()` message formatting through `fmt` and `syscall.Errno`: library string formatting.
- Blocking, timeouts as elapsed time, and cancellation in `GetStatusChange` and `Cancel`. These belong to the native service; the model only fixes the millisecond value it is sent.
- `EstablishContext`, `IsValid`, `Cancel`, `Release`, `Connect`, `Disconnect`, `Reconnect`, `BeginTransaction`, `EndTransaction` and `SetAttrib`: one native call followed by `Errors.Check`, with no other logic. `Reconnect` sends `protocol` where the share mode belongs, never uses `mode`, and leaves `activeProtocol` as it was. `SetAttrib` panics on empty data at `&data[0]`. `Connect` can fail name conversion like `GetStatusChange`.
- The `pvUserData` field of the native reader-state record, which is always zero.
- Out-of-memory panics of `make` for huge reported lengths. A reported length beyond a buffer's capacity is modelled as the slice-bounds panic the code reaches first.
- Status codes and `activeProtocol` are 32-bit values. The native layer writes a DWORD into them, so the upper half of the `uintptr` variables holding them stays zero.
