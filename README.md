# APB serial bridge driver, modelled in Dafny

This project models `SerialBridge`, the host-side driver of the APB serial
bridge. The driver turns register accesses into request frames and sends each
frame over a byte transport (UART, SPI, socket). It then decodes the status
and data bytes the bridge sends back. The operations are: single read and
write, block read and write (consecutive registers), cyclic read and write
(one register, for FIFOs), and the atomic read-modify-write.

Files:

- `wrappers.dfy` (module `Wrappers`): `Option` and `Result`.
- `wire.dfy` (module `Wire`): the request frame. It holds the seven
  transaction kinds and their 3-bit codes, and the header byte
  `(code << 5) | (size & 0x1F)`. It also holds big-endian encoding (`BeBytes`)
  and decoding (`BeValue`, Python's `int.from_bytes(..., 'big')`), the data
  payload, and the whole frame. It proves that every field can be parsed back.
- `replies.dfy` (module `Replies`): the bytes the bridge reads back. A status
  byte means SLVERR when `status & 0x80` is set. `ReadReplies` and
  `FirstRejected` are reference definitions of the read loops. They say which
  words are returned, which element is rejected first, and how many bytes are
  consumed.
- `bridge.dfy` (module `Bridge`): the imperative driver.
  - `Iface` is the transport. It keeps a log of the frames written, the fixed
    stream of bytes the peripheral sends, and a read cursor.
  - `SerialBridge` has the constant fields `addrByteCount` and `iface`, and
    one method per driver operation.
  - Each method builds its frame with loops, as the driver does. Its `ensures`
    states the whole outcome: which argument error is raised (with the
    transport unchanged), the one frame appended to the log, where the read
    cursor ends, and the value or SLVERR returned.

Python's ints are modelled as `int`. A register index becomes a byte address
by `addr * 4`, which is what `addr <<= 2` does for every Python int. The
shift `(a >> 8*i) & 0xFF` is `Shr8(a, i) % 256`, where `Shr8` divides by 256
`i` times, rounding down. That equals Python's arithmetic shift, negative
values included.

Exceptions become `Result` values. The first five cases of `Bridge.Error` are
the `AssertionError`s. `Slverr(operation, byte address, optional data)` is
`SLVERR`.

- `ConfigError`: the `addr_byte_count` check of the constructor
  (apb/sw/python/apb.py:91).
- `AddrOverrange`: the address range check (apb/sw/python/apb.py:105).
- `CountOutOfRange`: the count or list-length check (apb/sw/python/apb.py:185,
  222, 262, 299).
- `DataOverrange`: the data range check (apb/sw/python/apb.py:152, 230, 307,
  347).
- `MaskOverrange`: the mask range check (apb/sw/python/apb.py:348).
- `Slverr`: each `raise SLVERR` (apb/sw/python/apb.py:132, 163, 197, 240, 274,
  317, 367, 372).

On errors the driver behaves as follows:

- **Short-circuit** (apb/sw/python/apb.py:196-197, 239-240, 273-274,
  316-317): every multi-element loop raises on the first status with bit 7
  set and reads nothing more. For a failing read element, its four data bytes
  are not read either. So a rejected element `k` of a block or cyclic read
  leaves the cursor `5k+1` bytes further on, and a rejected write status `k`
  leaves it `k+1` bytes further on.
- **Cyclic write error address** (apb/sw/python/apb.py:317): `cyclic_write`
  reports the fixed start address. `block_write` reports `start + idx*4`
  (apb/sw/python/apb.py:240). This difference is the `step` argument of
  `ReadWriteStatuses`: 4 for block writes, 0 for cyclic writes.
- **RMW error names** (apb/sw/python/apb.py:367, 372): the two phases of
  `rmw` are reported as "rmw read phase" and "rmw write phase".

## Model

| member | source | states |
|---|---|---|
| Wire.Code | apb/sw/python/apb.py:69-75 | each transaction kind has its fixed 3-bit opcode (below 8) |
| Wire.Header | apb/sw/python/apb.py:187-188 | bits 7:5 of the header byte are the kind's opcode and bits 4:0 are the size field modulo 32 |
| Wire.HeaderSizeWraps | apb/sw/python/apb.py:188 | single-element kinds have size bits 0; count 256 gives 0x1F, count 33 gives 0, and a 256-word block write header is 0x7F |
| Wire.Pow2Bytes | apb/sw/python/apb.py:104 | the bound `2 ** (8 * addr_byte_count)` of the range check equals 256^addr_byte_count, the range of that many address bytes |
| Wire.BeBytes | apb/sw/python/apb.py:97-100 | the address encoding has exactly `width` bytes |
| Wire.BeValue | apb/sw/python/apb.py:134-135 | a big-endian decode of n bytes is a natural number below 256^n (four bytes give a 32-bit value) |
| Wire.BeBytesAt | apb/sw/python/apb.py:98-99 | byte j of the encoding is `(a >> 8*(width-1-j)) & 0xFF`, so the most significant byte comes first |
| Wire.BeRoundTrip | apb/sw/python/apb.py:95-100 | an address below 2^(8*width), encoded in `width` bytes and decoded big-endian, gives back the address |
| Wire.BeValueRoundTrip | apb/sw/python/apb.py:134-135 | re-encoding a decoded byte string at its own width gives back those bytes |
| Wire.BeFits | apb/sw/python/apb.py:102-105 | a value lies in [0, 2^(8*width)-1] exactly when encoding then decoding it gives it back |
| Wire.WordBound | apb/sw/python/apb.py:152 | four bytes cover exactly the range [0, 0xFFFFFFFF] that data values are checked against |
| Wire.WordRoundTrip | apb/sw/python/apb.py:156-157 | every data value in [0, 0xFFFFFFFF] written as four big-endian bytes decodes back to itself |
| Wire.Words | apb/sw/python/apb.py:229-232 | the block payload has four bytes per value |
| Wire.WordsAt | apb/sw/python/apb.py:229-232 | the i-th group of four payload bytes is value i in big-endian order, so list order is kept |
| Wire.Frame | apb/sw/python/apb.py:225-232 | the request frame is `1 + addr_byte_count + 4*count` bytes long and starts with the header byte; the same frame shape is built at lines 125-126, 154-157, 188-189, 265-266, 302-310 and 351-360 |
| Wire.FrameLayout | apb/sw/python/apb.py:225-234 | a frame is the header, then the address bytes, then the words, and is `1 + width + 4*count` bytes long |
| Wire.FrameDecodes | apb/sw/python/apb.py:351-362 | from a frame with in-range fields: the first byte yields the opcode and size, the address bytes yield the address, and each word slot yields its value |
| Wire.PayloadWords | apb/sw/python/apb.py:229-232 | the receiver's view of a payload: one decoded word per four bytes after the address, `count` words |
| Wire.PayloadRoundTrip | apb/sw/python/apb.py:229-232 | decoding the payload of any frame built from 32-bit values gives back exactly those values, in list order |
| Replies.IsSlvErr | apb/sw/python/apb.py:131 | `(status & 0x80) != 0` holds exactly when the status is at least 0x80, so only bit 7 matters (the same test appears at lines 162, 196, 239, 273, 316, 366 and 371) |
| Replies.ReadReplies | apb/sw/python/apb.py:193-202 | the read loop as a reference definition: a full reply has exactly `count` words, and a rejected element is one of the `count` elements |
| Replies.ReadConsumed | apb/sw/python/apb.py:195-199 | on success the cursor stops at a 5-byte element boundary; on a rejection it stops one byte past a boundary, just after the failing status and before its data |
| Replies.ReadRepliesSpec | apb/sw/python/apb.py:193-202 | success exactly when none of the `count` statuses is SLVERR. Success returns `count` words, word i from the 4 bytes after status i, using 5*count bytes. Otherwise the first failing element k is named and 5k+1 bytes are used |
| Replies.FirstRejected | apb/sw/python/apb.py:237-240 | a rejected index is one of the `count` transfers |
| Replies.WriteConsumed | apb/sw/python/apb.py:237-240 | the status loop never reads more than the `count` status bytes the operation expects |
| Replies.FirstRejectedSpec | apb/sw/python/apb.py:237-240 | no index exactly when no status among `count` has bit 7 set; a reported index is the first failing status; at most `count` bytes are consumed |
| Replies.GoodReadStream | apb/sw/python/apb.py:193-200 | the response to an all-successful read of n words is 5n bytes |
| Replies.EchoRoundTrip | apb/sw/python/apb.py:193-200 | 32-bit words sent back as successful read replies are read back as the same list in the same order |
| Replies.BlockWriteThenRead | apb/sw/python/apb.py:225-234 | a peripheral that stores the payload of a block-write frame and sends it back as good read replies makes the read return the written list, in order |
| Replies.RmwUpdate | apb/sw/python/apb.py:322-323 | the completer's update takes the masked bits from `data` and keeps the other bits of the old value |
| Replies.RmwLowNibble | apb/sw/python/apb.py:338-339 | setting the low nibble of 0xAB with data 0xF and mask 0xF gives 0xAF |
| Bridge.Iface.Write | apb/sw/python/apb.py:83-85 | `write(bytes)` appends one frame to the log and does not move the read cursor |
| Bridge.Iface.Read | apb/sw/python/apb.py:83-85 | `read(n)` returns exactly the next n bytes and moves the cursor by n |
| Bridge.AppendBigEndian | apb/sw/python/apb.py:97-100 | the `reversed(range(width))` append loop adds the big-endian bytes of the value to the buffer |
| Bridge.AppendWords | apb/sw/python/apb.py:228-232 | the payload loop succeeds exactly when every value is a 32-bit value, adding all of them in order; otherwise it raises "data overrange" |
| Bridge.SerialBridge.constructor | apb/sw/python/apb.py:92-93 | the bridge keeps the given address width and transport |
| Bridge.SerialBridge.New | apb/sw/python/apb.py:91-93 | construction fails with a configuration error exactly when `addr_byte_count` is outside 1..4 |
| Bridge.SerialBridge.MaxAddr | apb/sw/python/apb.py:104 | `max_addr = 2 ** (8 * addr_byte_count) - 1` is the largest value that `addr_byte_count` bytes can carry |
| Bridge.SerialBridge.AddrInRange | apb/sw/python/apb.py:102-105 | a byte address passes the range check exactly when it survives encoding into `addr_byte_count` bytes and decoding back |
| Bridge.SerialBridge.BuildAddrBytes | apb/sw/python/apb.py:95-100 | exactly `addr_byte_count` big-endian address bytes, which decode to the address when it is in range |
| Bridge.SerialBridge.ReadElements | apb/sw/python/apb.py:193-202 | the per-element read loop returns the words or SLVERR with the start address, stops at the first failure, and writes nothing |
| Bridge.SerialBridge.ReadWriteStatuses | apb/sw/python/apb.py:236-240 | the status loop stops at the first failure, reporting the value and `start + idx*step`; on success it consumes one byte per value |
| Bridge.SerialBridge.Read | apb/sw/python/apb.py:107-135 | on an out-of-range address, an error with no I/O. Otherwise one `1+n`-byte frame, then SLVERR after 1 byte, or the big-endian word after 5 bytes |
| Bridge.SerialBridge.Write | apb/sw/python/apb.py:137-163 | address then data checked before any I/O; one frame carrying header, address and 4 data bytes; one status byte read; SLVERR carries address and data |
| Bridge.SerialBridge.ReadArgsError | apb/sw/python/apb.py:184-185 | block and cyclic reads are accepted exactly when the shifted address is in range and 1 <= count <= 256 |
| Bridge.SerialBridge.BlockRead | apb/sw/python/apb.py:165-202 | argument errors leave the transport unchanged; otherwise one header+address frame with size `count-1`, then the reply outcome and consumption of the read-family reference definition; SLVERR reports the start address |
| Bridge.SerialBridge.CyclicRead | apb/sw/python/apb.py:242-279 | as BlockRead with the cyclic opcode and the name "cyclic_read" |
| Bridge.SerialBridge.WriteArgsError | apb/sw/python/apb.py:218-232 | block and cyclic writes are accepted exactly when the address is in range, the list has 1..256 values and each is a 32-bit value |
| Bridge.SerialBridge.BlockWrite | apb/sw/python/apb.py:204-240 | all checks come before I/O; one frame with every value big-endian in order; statuses read up to the first failure, which reports `addr*4 + idx*4` and `data_list[idx]` |
| Bridge.SerialBridge.CyclicWrite | apb/sw/python/apb.py:281-317 | as BlockWrite with the cyclic opcode, but a failure reports the fixed start address `addr*4` |
| Bridge.SerialBridge.RmwArgsError | apb/sw/python/apb.py:346-348 | an RMW is accepted exactly when the address is in range and data and mask are 32-bit values |
| Bridge.SerialBridge.Rmw | apb/sw/python/apb.py:319-372 | one frame of header, address, data and mask. A read-phase SLVERR stops after 1 byte. A write-phase SLVERR, or success, consumes 2 bytes |

## Left out

- The real transport (pyserial, sockets, mocks), with its blocking, timeouts
  and I/O failures. `Iface` is an abstract byte stream with a cursor and a log
  of written frames.
- Short reads are modelled as a precondition. When the arguments pass, each
  operation requires the stream to hold the whole success-path response, even
  when it would stop earlier. That is 5 bytes per read element, 1 per write
  element and 2 for RMW. Calls with bad arguments need no input.
- The text of the exception messages and their `#08X` hex formatting. An
  error carries the operation name, the byte address and, for writes, the data.
- Status bits 6:0, which the driver never looks at.
- The peripheral-side read-modify-write. The driver does not compute it;
  `RmwUpdate` only states the completer's documented behaviour.
- Python's dynamic typing: a non-integer argument, or a data list that is not
  a list, is not modelled. All arguments are integers or sequences of
  integers.
- Python run with `-O` strips every `assert`, so the range checks at
  apb/sw/python/apb.py:91, 105, 152, 185, 222, 230, 262, 299, 307 and 347-348
  would vanish. The model assumes assertions are enabled, so each check
  always raises its error before any I/O.
