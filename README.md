# SDM energy meter reader: Modbus-RTU exchange

A Dafny model of the request/response core of the `SDM` reader class
(`SDM.cpp`). The class reads one 32-bit float from an Eastron SDM energy
meter over RS-485. `readVal` works in these steps:

1. It builds a Modbus-RTU *Read Input Registers* request (function code
   0x04, two registers) and appends a CRC-16/Modbus to it.
2. It drains stale input (`flush`).
3. It drives the transceiver's DE/RE pin HIGH (`dereSet`), writes the
   eight request bytes and drives the pin LOW again.
4. It waits until a nine-byte reply is available or a deadline passes.
5. It validates the reply: first the header, then the CRC.
6. It returns either the payload (big-endian) or NAN, and updates the
   error code, the error counter and the success counter.
7. It drains once more.

The accessors `getErrCode`, `getErrCount` and `getSuccCount` return a
statistic and optionally clear it.

The model keeps the source's form:

- `calculateCRC`, `flush`, the wait loop and the read loop are methods with
  loops. The first three are proved against a specification function
  (`Crc16`, `Drained`, `Wait`); the read loop is proved to move the first
  nine queued bytes into the buffer.
- The reader is a class `Meter.Sdm`. Its fields are the DE/RE pin
  (`derePin`, fixed at construction), the receive queue, the three
  statistics and a ghost trace of bus events. `ReadVal` is proved
  against `ExchangeSpec`, the functional description of one exchange.

The specification side holds these parts:

- CRC-16/Modbus is a fold over the bytes, as in section 2.5.1.2 of the
  MODBUS over Serial Line Specification and Implementation Guide V1.02.
- The request and the reply each have a builder, and the request has a
  slave-side parser.
- `Classify` is readVal's classification of the queue, in the source's
  order: timeout, then not enough bytes, then wrong header bytes, then the
  CRC error.
- The statistics are summarised over any history of reads.

Proved properties:

- `CalculateCrc` computes `Crc16`.
- The CRC detects every single-byte change, and so every single-bit flip.
- A built request parses back to its address and register, every frame
  that parses is the built request, and any single corrupted byte makes it
  unreadable.
- A well-formed reply is accepted with exactly its encoded value, and every
  accepted reply is the well-formed one. Any single corrupted byte is
  rejected: as *wrong bytes* in the header, as a *CRC error* elsewhere.
- End to end, with at most ten stale bytes in the queue, a reply is returned
  however many yields its bytes take to arrive before the deadline. With
  more than ten, the drain leaves stale bytes in front of the reply and it
  is rejected as *wrong bytes* unless the first byte left happens to be the
  slave's address.
- The wait ends either with a whole frame available or by timing out with
  less than one, and its queue is the old one followed by every byte that
  arrived during the yields it took.
- The *not enough bytes* branch, which readVal re-checks after the wait, can
  therefore never be taken.
- With a pin, the request is written while the pin is HIGH, and the wait
  starts with the pin LOW.
- The counters count errors and successes modulo 2^16. The error code is
  that of the most recent error; a success never resets it.

Serial I/O and time are inputs:

- The queue `rx` is what `available()` and `read()` see.
- `arrivals[k]` holds the bytes received during the k-th `yield()` of the
  wait loop.
- `deadline` is the number of polls after which `resptime < millis()`
  becomes true.

Constants the model assumes, since `SDM.h` is not part of this model:

- `FRAMESIZE = 9`;
- `SDM_B_02 = 0x04`, `SDM_B_05 = 0x00`, `SDM_B_06 = 0x02`;
- `SDM_REPLY_BYTE_COUNT = 4`;
- the error codes 0-4, numbered as the source's "err debug (n)" comments
  say;
- `NOT_A_PIN = -1`;
- the three statistics fields are `uint16_t`, as the getters' return type
  is, so the counters wrap modulo 2^16;
- the statistics start as `SDM_ERR_NO_ERROR`, 0 and 0 (their initial values
  are set outside `SDM.cpp`);
- the receive queue is empty when the reader is constructed.

## Model

| member | source | states |
|---|---|---|
| Crc.CalculateCrc | SDM.cpp:185-198 | the nested shift loop returns the CRC-16/Modbus (init 0xFFFF, poly 0xA001, LSB first) of the first `num` bytes of the array |
| Crc.Crc16 | SDM.cpp:185-198 | the CRC-16/Modbus of a byte string, a fold of the byte step over the bytes; the register starts at 0xFFFF, so the CRC of no bytes is 0xFFFF |
| Crc.CrcEmptyAndSnoc | SDM.cpp:187-196 | the CRC of no bytes is 0xFFFF, and one more byte is one more byte step on the CRC so far |
| Crc.CrcFoldAppend | SDM.cpp:188-196 | folding the bytes of a concatenation is folding each part in turn |
| Crc.RoundsInjective | SDM.cpp:190-195 | the eight shift-and-XOR rounds are injective on the 16-bit register |
| Crc.ByteStepInjective | SDM.cpp:189-195 | when absorbing a byte gives the same register, the registers are equal exactly when the bytes are equal |
| Crc.CrcFoldInjective | SDM.cpp:188-196 | absorbing the same bytes into different registers keeps them different |
| Crc.CrcDetectsByteChange | SDM.cpp:185-198 | changing any one byte of a string changes its CRC |
| Crc.CrcDetectsBitFlip | SDM.cpp:185-198 | flipping any single bit of a string changes its CRC |
| Frames.RequestFrame | SDM.cpp:69-79 | the request is eight bytes long (its layout is stated by RequestLayout) |
| Frames.RequestLayout | SDM.cpp:69-79 | request layout: address, 0x04, register high then low, count 0x0002, then the CRC of the first six bytes, low byte first |
| Frames.WordRoundTrip | SDM.cpp:73-79 | `highByte`/`lowByte` and `(hi << 8) \| lo` are inverse |
| Frames.Split32 | SDM.cpp:118-121 | a 32-bit value splits into four bytes |
| Frames.Split32RoundTrip | SDM.cpp:118-121 | joining the four bytes of a value big-endian gives the value back |
| Frames.BigEndian32RoundTrip | SDM.cpp:118-121 | splitting a big-endian-assembled value gives the four bytes back |
| Frames.ParseRequest | SDM.cpp:69-79 | a request a slave accepts is eight bytes long and carries a matching CRC |
| Frames.RequestRoundTrip | SDM.cpp:69-79 | a built request parses back to the address and register it was built from |
| Frames.ParseRequestOnlyBuilt | SDM.cpp:69-79 | every frame a slave reads as a request for (node, reg) is exactly the request built for them |
| Frames.RequestCorruptionDetected | SDM.cpp:76-79 | any single corrupted byte of a built request makes it unparseable |
| Frames.RequestExample | SDM.cpp:69-79 | the request for register 0 of slave 1 is 01 04 00 00 00 02 71 CB |
| Frames.Code | SDM.cpp:101-157 | the numeric error code is 0 exactly for "no error" |
| Frames.Classify | SDM.cpp:107-134 | an error outcome never carries the "no error" code |
| Frames.ClassifyOkIff | SDM.cpp:107-128 | a reply is accepted if and only if the wait did not time out, nine bytes are there, the header matches and the CRC matches; the value is then bytes 3-6 read big-endian |
| Frames.ClassifyOneFrame | SDM.cpp:109-117 | the decision on a queue of at least nine bytes is the decision on its first nine: bytes after them do not matter |
| Frames.HeaderMismatchIsWrongBytes | SDM.cpp:115-128 | a header mismatch is reported as wrong bytes, whatever the CRC bytes hold |
| Frames.CrcMismatchIsCrcError | SDM.cpp:115-124 | with nine bytes and the header right, a CRC trailer that does not match gives a CRC error |
| Frames.ReplyFrame | SDM.cpp:115-121 | a reply is nine bytes long (its acceptance is stated by ReplyRoundTrip) |
| Frames.ReplyRoundTrip | SDM.cpp:109-121 | a well-formed reply from the addressed slave is accepted with the value it encodes, whatever follows it |
| Frames.AcceptedIsReplyFrame | SDM.cpp:109-121 | a reply accepted with value v is, in its first nine bytes, exactly the reply frame for v from the addressed slave |
| Frames.ReplyCorruptionDetected | SDM.cpp:115-128 | a corrupted byte in a well-formed reply gives wrong bytes in the header (bytes 0-2) and a CRC error elsewhere |
| Frames.ReplyExampleCrc | SDM.cpp:117 | the CRC of 01 04 04 43 7A 00 00 is 0xD9CF |
| Frames.ReplyExample | SDM.cpp:115-121 | the reply 01 04 04 43 7A 00 00 CF D9 is accepted with the pattern 0x437A0000 (250.0) |
| Stats.Inc16 | SDM.cpp:138-140 | the uint16 increment wraps modulo 2^16 |
| Stats.Record | SDM.cpp:136-141 | after one read, an error sets the code and adds one to the error counter, a success adds one to the success counter and keeps the code; the other counter is unchanged; additions wrap modulo 2^16 |
| Stats.RecordAllSummary | SDM.cpp:136-141 | after any history of reads: error code = the last error's code (or the initial one), error counter = initial + number of errors, success counter = initial + number of successes, both modulo 2^16 |
| Stats.RecordCountsOneRead | SDM.cpp:136-141 | every read adds exactly one to the sum of the two counters (modulo 2^16) |
| Meter.Drained | SDM.cpp:200-206 | flush leaves the queue minus its first min(available, 10) bytes |
| Meter.Wait | SDM.cpp:97-105 | the wait loop as a function of the arrivals and the deadline: it keeps the bytes queued before it, and it ends without timing out only with a whole frame available |
| Meter.WaitEnds | SDM.cpp:97-105 | the wait ends timed out exactly when fewer than nine bytes are available, and the bytes queued before it stay at the front |
| Meter.ReceivedPrefix | SDM.cpp:99-105 | what arrives during fewer yields is a prefix of what arrives during more |
| Meter.WaitCollects | SDM.cpp:97-105 | the wait ends at some poll k up to the deadline with the old queue followed by every byte received during the yields before k, in order; it stops at the first poll that sees nine bytes, and when it times out every yield up to the deadline was taken |
| Meter.WaitSilence | SDM.cpp:97-105 | with no bytes arriving, the wait times out with an empty queue |
| Meter.ExchangeDirection | SDM.cpp:87-97 | with a pin, the request is written while the pin is HIGH and the wait starts with it LOW; without one, the pin is never driven |
| Meter.ExchangeSpec | SDM.cpp:85-143 | one exchange: drain, wait, classify, consume the frame, drain; it times out exactly when fewer than nine bytes are queued at the end of the wait |
| Meter.ExchangeNeverShort | SDM.cpp:107-132 | readVal never records "not enough bytes" |
| Meter.ExchangeReadsFirstArrival | SDM.cpp:85-143 | with at most ten stale bytes and a frame arriving at the first yield, that frame is classified and only what follows it is drained |
| Meter.ExchangeDeliversReply | SDM.cpp:85-149 | with at most ten stale bytes, a well-formed reply arriving at the first yield is returned as the value |
| Meter.ExchangeDeliversSplitReply | SDM.cpp:85-149 | with at most ten stale bytes, if the bytes received before the deadline, over any number of yields, start with a well-formed reply, its value is returned |
| Meter.ExchangeStaleBytesRejectReply | SDM.cpp:85-128 | with more than ten stale bytes, the first one flush leaves is taken as the reply's address: a well-formed reply behind a stale byte other than the slave's address is rejected as wrong bytes |
| Meter.ExchangeTimesOut | SDM.cpp:97-143 | with at most ten stale bytes, when the meter stays silent, the read times out and leaves an empty queue |
| Meter.BuildRequest | SDM.cpp:69-79 | the working buffer's first eight bytes are the request frame |
| Meter.CheckReply | SDM.cpp:115-128 | the header check, then the CRC check, on the read buffer: returns the payload exactly when `Classify` accepts the frame, and otherwise `Classify`'s error with NAN |
| Meter.Sdm.constructor | SDM.cpp:9-64 | a new reader stores its DE/RE pin; its statistics start cleared (the initial values assumed above) and its queue empty |
| Meter.Sdm.DereSet | SDM.cpp:208-211 | the pin is driven to the requested level if and only if one is configured |
| Meter.Sdm.Flush | SDM.cpp:200-206 | the queue becomes `Drained` of the old queue |
| Meter.Sdm.ReadVal | SDM.cpp:66-150 | the returned value and the queue are those of `ExchangeSpec`, and the new statistics are `Record` of the old ones and the exchange's outcome; the bus sees pin HIGH, the request, pin LOW, then the wait |
| Meter.Sdm.Tally | SDM.cpp:136-141 | the statistics become `Record` of the old ones and the outcome `readErr` reports |
| Meter.Sdm.SendRequest | SDM.cpp:85-95 | drains the queue and emits pin HIGH, the eight request bytes, pin LOW |
| Meter.Sdm.ReceiveReply | SDM.cpp:97-134 | the error is "no error" exactly when a value is returned, and the result is `Classify` of the queue the wait leaves; the frame is consumed only when one was read |
| Meter.Sdm.AwaitFrame | SDM.cpp:97-105 | the polling loop ends in the state and with the timeout flag that `Wait` describes |
| Meter.Sdm.ReadFrame | SDM.cpp:111-113 | the buffer receives the first nine queued bytes, which leave the queue |
| Meter.Sdm.GetErrCode | SDM.cpp:152-157 | returns the number of the error code as it was, and clears it only when asked |
| Meter.Sdm.GetErrCount | SDM.cpp:159-164 | returns the error counter as it was, and resets it only when asked |
| Meter.Sdm.GetSuccCount | SDM.cpp:166-171 | returns the success counter as it was, and resets it only when asked |
| Meter.Sdm.ClearErrCode | SDM.cpp:173-175 | the error code becomes "no error" |
| Meter.Sdm.ClearErrCount | SDM.cpp:177-179 | the error counter becomes 0 |
| Meter.Sdm.ClearSuccCount | SDM.cpp:181-183 | the success counter becomes 0 |

## Left out

- The constructors and `begin` (lines 9-64) set up the serial port, its
  baud rate and pin modes. They are platform setup. `Meter.Sdm.constructor`
  keeps only the pin; the cleared statistics and the empty queue it starts
  with are the initial state assumed above, not something these lines set.
- `SDM.h` is not part of this model. The frame constants and error-code
  values above are assumed, and so is `NOT_A_PIN = -1`.
- `millis()`, `delay()` and `yield()`: the clock is the `deadline`
  parameter, and the receiver is the `arrivals` parameter. The wrap-around
  of `millis() + MAX_MILLIS_TO_WAIT` is not modelled.
- Meter.Sdm.Flush: the model receives bytes only during the wait loop's
  yields. In the source the UART keeps receiving all the time: during the
  `delay(1)` between the reads of `flush` (which then discards those bytes
  too, up to ten in all), during the `delay(2)` before the write, between
  the `available()` test and the clock test of the wait loop, during the
  read loop and during the final `flush`. The model's `flush` drains a
  queue frozen at the call.
- `sdmSer.listen()`, `stopListening()` and `sdmSer.flush()` (the software
  serial interrupt and the draining of the transmit buffer) are not
  modelled. On a software-serial build they can drop bytes between calls;
  the model covers that only in that the queue `rx` at the start of a read
  is arbitrary.
- The float is modelled by its bit pattern (`Reading = Nan | Bits`). The
  byte-wise stores into the float's storage on a little-endian target become
  the big-endian assembly of bytes 3-6. No floating-point value is modelled.
- Meter.Sdm.ReadVal: a valid reply whose payload is itself a NaN bit
  pattern returns `Bits(p)`, distinct from the error value `Nan`. In the
  source both are NaN floats, so a caller cannot tell that reply from a
  failed read; the model can.
- Meter.Sdm.ReadVal: the body is split into `BuildRequest`, `SendRequest`,
  `ReceiveReply` (with `AwaitFrame`, `ReadFrame` and `CheckReply`) and `Tally`, the
  bookkeeping. The statements keep the source's order. The one working
  buffer of the source is one array, reused for the reply.
- Meter.Sdm.ReadVal: the request and the ordering of the pin writes are
  recorded in a ghost trace, not as electrical levels over time.
