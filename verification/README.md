# SFM-V1.7 fingerprint module driver — a Dafny model

This project models the logic of the Arduino `SFM_Module` driver for the
SFM-V1.7 fingerprint module (`src/sfm.cpp`, `src/sfm.hpp`) and proves
properties of it. The driver talks to the module over a serial link with
8-byte frames. Each frame has the marker `0xF5` at offsets 0 and 7, the
command or acknowledgement type at 1, three parameter bytes at 2..4, a zero
at 5 and, at 6, the XOR of offsets 1..5.

The model has six modules, one file each:

- `Protocol` (`protocol.dfy`) holds the integer widths (`Byte`, `Word`,
  `Int8`), the `SFM_*` constants, the acknowledgement codes, `^` on bytes
  with its algebra, the wrap-around of an `unsigned int` post-decrement,
  `char` signedness, C division and Arduino's `constrain`.
- `Frame` (`frame.dfy`) holds the checksum (`_getCheckSum`), the command
  buffer and its invariant, the command frame and the fields of an
  acknowledgement.
- `Channel` (`channel.dfy`) is the serial link as a receive buffer, a
  per-tick arrival schedule and a transmit log. One tick is one `delay()`
  of a polling loop, or the wait for a transmission to complete.
- `Transport` (`transport.dfy`) is `sendCmd`: flush, write, poll for 8
  bytes, trim to the marker, read and check. Both 8000-count loops are
  recursion on an explicit `unsigned int` counter.
- `DataPackage` (`datapackage.dfy`) is `_getDataPackage`: skip through a
  marker, then hex-encode every byte up to the next marker.
- `Commands` (`commands.dfy`) is the public command layer, built on
  `_getCmdReturn`'s echoed-type guard.

Some locals are read without being initialised. The callers of `sendCmd`
declare `ackType`, `q1` and `q2` without a value, and `sendCmd` writes them
only on a trusted acknowledgement. The model passes the values those locals
happen to hold as a parameter `stale`. The two inner loops of
`_getDataPackage` have no budget. Their outcome is a `Run`, which is one
of three things: a result, `Spins` or `ReadsOutOfBounds`. On an empty
buffer `read()` returns -1. With an unsigned `char` the copy loop takes
that as the byte 0xFF, appends "FF" for it and goes round again; with
nothing arriving it never meets the closing marker, and that is `Spins`.
With a signed `char` the same -1, or any byte from 0x80 up, indexes
`hex_char` with a negative number, and that is `ReadsOutOfBounds`.

The code as written behaves as follows in four corner cases:

- Input without any marker does not end the exchange with a serial
  timeout at once. The trim loop gives up with its counter wrapped to
  `UINT_MAX`, so the `!trimTimer` test fails and polling goes on
  (`Transport.MarkerlessInputDropped`).
- Only a marker found after exactly 8000 discards leaves the counter at 0
  and gives `SFM_ACK_SERIALTIMEOUT` (`Transport.MarkerAtBudgetTimesOut`).
  After more than 8000 non-marker bytes, the next 8 bytes are read as a
  frame even though they do not start with a marker
  (`Transport.UnalignedFrameAccepted`).
- An empty package (`F5 F5`) is not merely skipped. The next round takes
  the second marker as an opening one, and the copy loop then finds no
  closing marker in the empty buffer: it spins with an unsigned `char`
  and reads out of bounds with a signed one
  (`DataPackage.EmptyPackageNeverCompletes`).
- The package is returned as the hexadecimal encoding of its bytes: the
  bytes `'A' 'B' '1' '2'` come back as `"41423132"`
  (`DataPackage.AsciiPayloadIsEncoded`).

## Model

| member | source | states |
|---|---|---|
| Protocol.XorLaws | src/sfm.cpp:250 | `^` on bytes is associative and commutative, has 0 as identity and makes every byte its own inverse, which is what the running `result ^=` relies on |
| Protocol.XorCancel | src/sfm.cpp:201 | XOR with a byte leaves a value unchanged exactly when that byte is zero |
| Protocol.FromToBits | src/sfm.cpp:250 | a natural below 2^n is recovered from its low n bits; the bit view in which `^` is defined loses nothing |
| Protocol.ToFromBits | src/sfm.cpp:250 | the bits of the value of a bit string are that bit string, the inverse direction of FromToBits |
| Protocol.AckCodeOf | src/sfm.hpp:22-34 | reading a status byte back as an acknowledgement code gives the code with that wire value, or none when no code has it |
| Protocol.AckCodesDistinct | src/sfm.hpp:22-34 | the thirteen `SFM_ACK_*` values are pairwise distinct, and every code reads back as itself |
| Protocol.PostDecrement | src/sfm.cpp:191 | `t--` on an `unsigned int` yields t-1 for a positive counter and wraps to UINT_MAX at zero |
| Protocol.Int8RoundTrip | src/sfm.cpp:69 | storing a `uint8_t` colour in the `int8_t endColor` and passing it back as `uint8_t` is lossless in both directions |
| Protocol.ReadAsChar | src/sfm.cpp:263 | `temp = read()` keeps a byte below 0x80, makes a higher byte negative only for a signed `char`, and turns the -1 of an empty read into -1 or 255 |
| Protocol.CDiv | src/sfm.cpp:264 | C's `/` truncates toward zero: the quotient times the divisor falls short of a non-negative dividend by less than the divisor, and exceeds a negative one by less than the divisor |
| Protocol.CRem | src/sfm.cpp:265 | C's `%` pairs with `/` so that quotient times divisor plus remainder gives the dividend back, and the remainder takes the dividend's sign and lies strictly within the divisor |
| Protocol.Constrain | src/sfm.cpp:68 | `constrain` returns a value within the bounds: the input when it lies within them, otherwise the bound it crossed |
| Frame.GetCheckSum | src/sfm.cpp:248-252 | the loop over offsets 1..5 computes the XOR of those five bytes, which is the checksum an acknowledgement must carry at offset 6 |
| Frame.ChecksumOfFive | src/sfm.cpp:250 | the checksum, defined as a fold over offsets 1..5, equals the XOR of the five bytes written out |
| Frame.XorFoldFlip | src/sfm.cpp:250 | flipping bits of one byte flips the same bits of the XOR of the whole range |
| Frame.CorruptionDetected | src/sfm.cpp:201 | changing any bits of one of offsets 1..5 of a trusted frame makes it fail the checksum test |
| Frame.SingleBitErrorDetected | src/sfm.cpp:201 | in particular every single-bit error in offsets 1..5 is rejected |
| Frame.ConstructedCmdBufferInv | src/sfm.cpp:47-48 | after the constructor the zeroed command buffer has markers at 0 and 7 and zeros elsewhere, offset 5 included |
| Frame.FillCommand | src/sfm.cpp:180-184 | filling offsets 1..4 and the checksum keeps the markers and the zero at offset 5, places the command and its parameters, and yields a frame that passes the checksum test |
| Frame.FillCommandForgetsHistory | src/sfm.cpp:180-184 | the frame sent depends only on the command and its parameters, not on what the buffer held from earlier commands |
| Frame.CommandFrame | src/sfm.cpp:180-185 | the frame written has 0xF5 at 0 and 7, the type and parameters at 1..4, 0 at 5, and at 6 the XOR of 1..5 |
| Frame.EncodeDecode | src/sfm.cpp:201-205 | a command frame read back as an acknowledgement is trusted and yields its type and first two parameters as the fields and its third as the status |
| Channel.ConsumeSuffix | src/sfm.cpp:192 | a `read()` only ever takes bytes from the front of the receive buffer |
| Channel.Flush | src/sfm.cpp:179 | the flush loop, reading while bytes are available, ends with an empty receive buffer and leaves the schedule and the sent bytes alone |
| Channel.TicksDeliver | src/sfm.cpp:187-218 | after k delays the receive buffer holds what it held followed by the first k scheduled arrivals in order, those arrivals have left the schedule, and nothing has been sent |
| Transport.NewDriver | src/sfm.cpp:47-48 | a new driver has a valid command buffer with only the two markers set, an empty `uuid` and a user count of 0 |
| Transport.FirstMarker | src/sfm.cpp:191 | the index where the trim loop can stop: the first 0xF5, with none before it, or the length when there is none |
| Transport.FirstMarkerAfter | src/sfm.cpp:191 | behind marker-free garbage, the first marker is at the garbage's length |
| Transport.FirstMarkerAbsent | src/sfm.cpp:191 | in marker-free input the first marker is at the end |
| Transport.Trim | src/sfm.cpp:190-193 | with a marker within the budget, the bytes before it are dropped and the counter keeps the unspent budget; otherwise min(budget, length) bytes are dropped and the counter wraps to UINT_MAX |
| Transport.TrimToMarker | src/sfm.cpp:190-193 | a marker behind at most `t` non-marker bytes is reached with t minus their number left on the counter |
| Transport.TrimWithoutMarker | src/sfm.cpp:190-193 | marker-free input loses min(t, length) bytes, and the counter ends wrapped, never at zero |
| Transport.ReadAck | src/sfm.cpp:199-211 | reading 8 bytes stores them in `ackBuffer`; a matching checksum returns offset 4 with the fields from 1..3 and keeps the rest buffered, a mismatch returns `SFM_ACK_FAIL`, flushes and writes no field |
| Transport.Resync | src/sfm.cpp:190-212 | with 8 bytes buffered, a round returns a well-formed result that is never a poll timeout, and a trim timeout leaves `ackBuffer` as it was, or goes on holding fewer than 8 bytes, a suffix of what it had, with all else unchanged |
| Transport.Round | src/sfm.cpp:189-213 | one iteration of the poll does nothing with fewer than 8 bytes; otherwise it behaves as Resync |
| Transport.RoundAfterTrim | src/sfm.cpp:194-206 | a trim that leaves 8 bytes and a nonzero counter is followed by the frame read |
| Transport.Poll | src/sfm.cpp:187-221 | the poll ends in a result consistent with its exit: fields written only when trusted, the input flushed on every failure, `ackBuffer` untouched by both timeouts, the command buffer and sent bytes unchanged, and only arrived entries gone from the schedule |
| Transport.Sent | src/sfm.cpp:179-186 | before the poll the input is flushed, the command frame is in the buffer and appended to the output, and one tick has passed |
| Transport.SendCmd | src/sfm.cpp:178-222 | every exit of `sendCmd` agrees with the acknowledgement buffer: a trusted frame gives its status and fields; a mismatch gives `SFM_ACK_FAIL`; both timeouts give `SFM_ACK_SERIALTIMEOUT` and leave `ackBuffer` as it was; every failure flushes and leaves the out-parameters unwritten; exactly the command frame is sent |
| Transport.SentReceives | src/sfm.cpp:179-186 | the poll starts with exactly the bytes that arrived while the frame was sent |
| Transport.RoundReadsFrame | src/sfm.cpp:199-211 | a frame behind fewer than 8000 non-marker bytes is read aligned at its marker; a trusted frame leaves the bytes after it buffered, a corrupt one is rejected with a flush |
| Transport.PollReadsFrame | src/sfm.cpp:188-211 | a poll with budget left whose buffer holds a frame behind fewer than 8000 non-marker bytes ends in its first round by reading that frame; a trusted frame is acknowledged with the bytes after it still buffered, a corrupt one fails with a flush and unwritten out-parameters |
| Transport.PollAwaitsFrame | src/sfm.cpp:188-218 | with an empty buffer and the frame due at the next delay, the poll waits one round and reads it in the round after |
| Transport.PollWaitsOn | src/sfm.cpp:188-218 | an outcome reached after one idle round and one delay is the outcome of the whole poll |
| Transport.SilentTick | src/sfm.cpp:217 | a delay in which nothing is scheduled to arrive leaves the empty buffer empty and takes one silent entry from the schedule |
| Transport.PollMeetsFrame | src/sfm.cpp:188-218 | with an empty buffer and m silent delays before the frame arrives, a poll with more than m + 1 rounds of budget waits them out and then reads the frame, with the same outcome as PollReadsFrame |
| Transport.ExchangeReadsFrame | src/sfm.cpp:178-218 | a frame that arrives whole fewer than 8000 delays after the command was sent (0: during the transmission), behind fewer than 8000 non-marker bytes, decides the exchange as PollReadsFrame describes |
| Transport.ExchangeSkipsGarbage | src/sfm.cpp:178-218 | a trusted acknowledgement that arrives whole within the polling budget, behind fewer than 8000 garbage bytes, is decoded, and exactly its 8 bytes and the garbage are consumed |
| Transport.CorruptFrameRejected | src/sfm.cpp:178-218 | 8 bytes from the marker that fail the checksum, arriving within the polling budget, give `SFM_ACK_FAIL`, an empty input and unwritten out-parameters |
| Transport.LoopbackExchange | src/sfm.cpp:199-206 | an echoed command frame arriving within the polling budget is trusted: `sendCmd` returns p3 with ackType = cmdType, q1 = p1 and q2 = p2 |
| Transport.MarkerAtBudgetTimesOut | src/sfm.cpp:194-198 | a marker found after exactly 8000 discards gives `SFM_ACK_SERIALTIMEOUT` with a flush, although a trusted frame follows |
| Transport.RoundWaits | src/sfm.cpp:189 | with fewer than 8 bytes buffered a round changes nothing |
| Transport.PollWaits | src/sfm.cpp:188-218 | with fewer than 8 bytes buffered the poll spends one tick and one unit of its budget |
| Transport.PollStopsAt | src/sfm.cpp:188-206 | a round that returns ends the poll with its result |
| Transport.PollContinues | src/sfm.cpp:188-218 | a round that goes on is followed by a tick and the rest of the poll |
| Transport.ReadWholeFrame | src/sfm.cpp:200 | reading a buffer that holds exactly 8 bytes stores them and empties it |
| Transport.FirstRoundDecides | src/sfm.cpp:187-206 | an exchange whose first round returns ends with that round's result |
| Transport.RoundReadsUnaligned | src/sfm.cpp:190-206 | after exactly 8000 non-marker bytes, the trim counter has wrapped and the next 8 bytes are read as a frame |
| Transport.UnalignedFrameAccepted | src/sfm.cpp:190-206 | 8 bytes without a marker that happen to pass the checksum are accepted behind 8000 garbage bytes, as written |
| Transport.MarkerlessInputDropped | src/sfm.cpp:190-193 | 8 to 8000 buffered bytes without a marker are all discarded, and the poll goes on instead of timing out |
| Transport.PollStarved | src/sfm.cpp:188-221 | if fewer than 8 bytes can ever be buffered, the poll uses its whole budget, then flushes and reports `SFM_ACK_SERIALTIMEOUT` with the fields unwritten |
| Transport.SilentDeviceTimesOut | src/sfm.cpp:220-221 | a device that sends fewer than 8 bytes in all makes `sendCmd` return `SFM_ACK_SERIALTIMEOUT` after 8000 delays, with the input flushed |
| Transport.ExchangeIgnoresStaleInput | src/sfm.cpp:179 | bytes buffered before the call have no influence on the exchange |
| DataPackage.DigitValue | src/sfm.cpp:6 | a character is a digit of the table exactly when it has a value, and that value maps back to it |
| DataPackage.DigitRoundTrip | src/sfm.cpp:6 | every value below 16 maps to a table digit that reads back as the value |
| DataPackage.HexCharTable | src/sfm.cpp:6 | entries 0..15 of `hex_char` are the uppercase hexadecimal digits |
| DataPackage.HexOf | src/sfm.cpp:264-265 | the reference encoding has two characters per byte, each a table digit |
| DataPackage.HexRoundTrip | src/sfm.cpp:264-265 | decoding digit pairs gives back the encoded bytes |
| DataPackage.HexPair | src/sfm.cpp:264-265 | a non-negative `temp` appends its high and low digits; a negative one indexes the table out of bounds |
| DataPackage.SkipThroughMarker | src/sfm.cpp:260 | `while(read() != 0xF5);` ends exactly when a marker is buffered and consumes everything through the first one |
| DataPackage.HexRun | src/sfm.cpp:261-266 | when the copy loop returns, it stops at a marker that it leaves buffered, having consumed a prefix of the input and produced two characters per byte consumed; it can spin only with an unsigned `char` and read out of bounds only with a signed one |
| DataPackage.HexRunCharacterised | src/sfm.cpp:261-266 | the copy loop returns exactly when a marker follows and, for a signed `char`, every byte before it is below 0x80; it then yields the encoding of those bytes and leaves the marker buffered; with no marker it spins for an unsigned `char` |
| DataPackage.PackagePoll | src/sfm.cpp:257-273 | the package poll returns only success or a serial timeout; success carries the hexadecimal encoding of a non-empty run of non-marker bytes, which decodes and re-encodes to itself, and leaves the closing marker buffered; a timeout carries "" and an empty buffer |
| DataPackage.GetDataPackage | src/sfm.cpp:254-274 | the call succeeds exactly when the package is non-empty and times out exactly when it is empty; a package is the encoding of a non-empty run of non-marker bytes, which decodes and re-encodes to itself, with the closing marker left buffered; a timeout leaves the buffer flushed; nothing is sent |
| DataPackage.PackageFound | src/sfm.cpp:259-267 | a round that copies a non-empty package ends the poll with it |
| DataPackage.SkipsToPayload | src/sfm.cpp:260 | the skip loop stops right behind the first marker |
| DataPackage.CopiesPayload | src/sfm.cpp:261-266 | the copy loop encodes a marker-free payload up to the closing marker, or indexes out of bounds on a signed `char` when a byte is 0x80 or more |
| DataPackage.PackageDecoded | src/sfm.cpp:254-274 | a non-empty package between two markers comes back as its encoding, of length 2n, with the closing marker left buffered; decoding gives the payload back |
| DataPackage.FrontPackageDecoded | src/sfm.cpp:254-274 | the same when the buffer starts with the opening marker |
| DataPackage.SignedHighByteOutOfBounds | src/sfm.cpp:263-265 | on a signed-`char` platform a payload byte from 0x80 up indexes `hex_char` out of bounds |
| DataPackage.EmptyPackageNeverCompletes | src/sfm.cpp:258-267 | `F5 F5` alone is not accepted; the second marker opens a package that never closes |
| DataPackage.SilentPackageTimesOut | src/sfm.cpp:271-273 | with no input the poll times out and returns "" |
| DataPackage.HexOfAscii | src/sfm.cpp:264-265 | the bytes 0x41 0x42 0x31 0x32 encode to "41423132" |
| DataPackage.AsciiPayloadIsEncoded | src/sfm.cpp:254-267 | the package `F5 'A' 'B' '1' '2' F5` is returned as "41423132", with the closing marker left buffered |
| Commands.Join | src/sfm.cpp:101 | joining q1 and q2 as `q1 << 8` or-ed with `q2` gives a value with q1 as its high byte and q2 as its low byte, and is 0 exactly when both are |
| Commands.SplitJoin | src/sfm.cpp:80 | splitting a uid into `(uid >> 8) & 0xFF` and `uid & 0xFF` and joining them gives the uid back |
| Commands.JoinInjective | src/sfm.cpp:101 | two byte pairs join to the same value only when they are equal |
| Commands.GetCmdReturn | src/sfm.cpp:275-280 | a trusted acknowledgement gives its status when it echoes the command type and `SFM_ACK_FAIL` otherwise; success implies a trusted, echoed acknowledgement; a failed exchange gives `SFM_ACK_FAIL` or `SFM_ACK_SERIALTIMEOUT` |
| Commands.EchoGuard | src/sfm.cpp:278-279 | on a trusted acknowledgement arriving within the polling budget, the result depends only on whether its type echoes the command |
| Commands.SetRingColor | src/sfm.cpp:65-71 | sends 0xC3 with the start colour, the end colour (the start colour for -1) and the period in tens of ms clamped to 30..200, and maps the reply by the echo guard |
| Commands.RingColorDefaults | src/sfm.hpp:69 | with the default arguments the colour is sent twice with period 50, that is 500 ms |
| Commands.Register1st | src/sfm.cpp:79-81 | sends 0x01 with the uid's two bytes, which join back to the uid, and the default user role, and maps the reply by the echo guard |
| Commands.RegisterDefaults | src/sfm.hpp:70 | with the default uid the command sent is (0x01, 0, 0, 0x03) |
| Commands.Register2nd | src/sfm.cpp:87-89 | sends 0x02 with zero parameters and maps the reply by the echo guard |
| Commands.Register3rd | src/sfm.cpp:97-106 | succeeds exactly on a trusted 0x03 acknowledgement carrying `SFM_ACK_SUCCESS`, then hands back the joined q1, q2 as uid, otherwise `SFM_ACK_FAIL` and uid 0 |
| Commands.DeleteUser | src/sfm.cpp:113-115 | sends 0x04 with the uid's two bytes and maps the reply by the echo guard |
| Commands.DeleteAllUser | src/sfm.cpp:120-122 | sends 0x05 with zero parameters and maps the reply by the echo guard |
| Commands.Recognition1v1 | src/sfm.cpp:129-131 | sends 0x0B with the uid's two bytes and maps the reply by the echo guard |
| Commands.MatchOutcome | src/sfm.cpp:141-145 | a 0x0C type yields the joined uid and fails only for uid 0 with a non-success status; any other type fails and leaves the uid alone |
| Commands.Recognition1vN | src/sfm.cpp:138-146 | as written, the mapping is applied to the trusted acknowledgement's fields when there is one and to the uninitialised locals otherwise |
| Commands.Recognition1vNZeroed | src/sfm.cpp:138-146 | with zeroed locals, success implies a trusted 0x0C acknowledgement whose joined fields are the uid, and a failed exchange fails with the uid untouched |
| Commands.StopOutcome | src/sfm.cpp:156-158 | a 0x0C type passes the status through; otherwise the result is `SFM_ACK_IDLE` exactly for type 0xFE with `SFM_ACK_FAIL`, and `SFM_ACK_FAIL` in every other case |
| Commands.StopAll | src/sfm.cpp:153-159 | as written, the mapping is applied to the trusted acknowledgement's type when there is one and to the uninitialised `ackType` otherwise |
| Commands.StopAllZeroed | src/sfm.cpp:153-159 | with a zeroed `ackType`, `SFM_ACK_IDLE` implies a trusted 0xFE/`SFM_ACK_FAIL` or 0x0C/`SFM_ACK_IDLE` acknowledgement, and a failed exchange gives `SFM_ACK_FAIL` |
| Commands.GetUserCount | src/sfm.cpp:171-177 | the stored count is the joined q1, q2 of a trusted 0x09 acknowledgement carrying `SFM_ACK_SUCCESS`, and 0 otherwise |
| Commands.UserCountReported | src/sfm.cpp:171-177 | a trusted 0x09 acknowledgement with `SFM_ACK_SUCCESS` arriving within the polling budget sets the count to its q1, q2 joined, high byte first |
| Commands.UserCountExample | src/sfm.cpp:174 | the reply 0x09 with q1 = 0, q2 = 5 and `SFM_ACK_SUCCESS` counts five users |
| Commands.GetUuid | src/sfm.cpp:164-166 | a non-empty identifier requires the 0x60 command to succeed, is stored in `uuid` and is a decodable hex string; if the command fails, "" is returned and `uuid` keeps its old value; if it succeeds, `uuid` holds what is returned |
| Commands.UuidAcknowledged | src/sfm.cpp:165 | a 0x60 acknowledgement carrying `SFM_ACK_SUCCESS`, arriving within the polling budget, makes the command succeed and leaves what follows it buffered |
| Commands.UuidReceived | src/sfm.cpp:165 | after such an acknowledgement, a package between two markers is returned and stored hex-encoded, and decodes back to the payload |
| Commands.IsConnected | src/sfm.cpp:237-240 | as written, connected means the `uuid` member has length 18 after the call, and a failed 0x60 command leaves that answer to the value stored before |
| Commands.IsConnectedChecked | src/sfm.cpp:237-240 | testing the returned string, connected implies the 0x60 command succeeded and a nine-byte identifier was received; a failed command is never connected |
| Commands.NineByteUuidConnects | src/sfm.cpp:237-240 | a nine-byte identifier makes both versions report the module connected |
| Commands.SilentModuleStillConnected | src/sfm.cpp:238-239 | a silent module is reported connected as written when an 18-character `uuid` was stored earlier, and not connected by the corrected version |
| Commands.SilentModuleMatches | src/sfm.cpp:141-143 | a silent module is reported as matching uid 1 as written when the uninitialised locals hold 0x0C, 0, 1; with zeroed locals it fails and leaves the uid alone |
| Commands.CorruptReplyReportsIdle | src/sfm.cpp:157 | a reply that fails its checksum is reported as idle as written when the uninitialised `ackType` holds 0xFE; with a zeroed `ackType` it gives `SFM_ACK_FAIL` |

## Left out

- Pins, `begin`, `enable`/`disable` and the destructor's `detachInterrupt` (src/sfm.cpp:22-54, 241-246) are hardware I/O with no logic to model.
- `setPinInterrupt`, `pinInterrupt`, `isTouched` and the `touched` flag (src/sfm.cpp:223-236) only pass a pin level from an interrupt handler.
- Real time is not modelled. `delay(1)`, `delay(2)` and the wait in the TX `flush()` are each one abstract tick. Bytes arrive only at ticks, never during a loop without a delay. The platform `#if` variants differ only in wiring and tick length.
- Arduino `String` is a `seq<char>`. Its allocation, and a failing append, are not modelled.
- The receive buffer has no capacity limit. The real UART buffer (64 bytes on AVR) would drop bytes.
- `UINT_MAX` is 0xFFFF, the 16-bit `unsigned int` of AVR. On 32-bit platforms the wrapped counter is larger, but it is nonzero either way. That is all the trim test uses.
- Shifts and masks on uids and fields are written as multiplication, division and remainder by 256. These agree for 8- and 16-bit operands.
- Transport.Poll: its contract states the shape of every result, not which exit a given input takes. The individual inputs are covered by the lemmas about rounds (`RoundReadsFrame`, `RoundReadsUnaligned`, `MarkerlessInputDropped`, `PollStarved`).
- Transport.ExchangeSkipsGarbage, Transport.CorruptFrameRejected, Transport.LoopbackExchange, Transport.ExchangeReadsFrame, Commands.EchoGuard, Commands.UserCountReported, Commands.UserCountExample, Commands.UuidAcknowledged, Commands.UuidReceived, Commands.NineByteUuidConnects, Commands.CorruptReplyReportsIdle: the reply must arrive as one schedule entry after any number of silent delays below 8000. A reply split over several delays is covered only by the general contracts of `Poll` and `SendCmd`, because the model delivers bytes only at delays.
- Transport.MarkerAtBudgetTimesOut, Transport.UnalignedFrameAccepted: they take 8000 garbage bytes and the frame in the buffer at the first round. A real UART buffer (64 bytes on AVR) never holds that much, so these cases need a larger buffer or bytes arriving during the trim loop, which the model does not deliver.
- DataPackage.HexRun: with an unsigned `char`, a package still in flight makes the real copy loop append "FF" for each empty read until its next byte arrives. The model delivers nothing during that loop, so it reports `Spins` instead of a package with spurious "FF" pairs.
- DataPackage.PackagePoll: its contract states what a returned package looks like, not when the loop spins. Spinning is characterised for the copy loop by `HexRunCharacterised`, and for whole buffers by `EmptyPackageNeverCompletes`.

## Findings

| source | as written | input that shows it | evidently intended | confidence | as-written member | corrected member |
|---|---|---|---|---|---|---|
| src/sfm.cpp:237-240 | `isConnected` calls `getUuid()`, ignores its result and tests the length of the `uuid` member, which a failed 0x60 command leaves unchanged | an 18-character `uuid` from an earlier call; the module then sends nothing | connected only when this call's `getUuid()` returned an 18-character identifier | high; not executed | Commands.IsConnected, Commands.SilentModuleStillConnected | Commands.IsConnectedChecked |
| src/sfm.cpp:138-146 | `ackType`, `q1`, `q2` are uninitialised and are written by `sendCmd` only on a trusted acknowledgement; a failed exchange then tests whatever they hold | a silent module, with the locals holding 0x0C, 0, 1: `SFM_ACK_SUCCESS` with uid 1 | locals initialised (e.g. to 0), so a failed exchange gives `SFM_ACK_FAIL` | high; not executed | Commands.Recognition1vN, Commands.SilentModuleMatches | Commands.Recognition1vNZeroed |
| src/sfm.cpp:153-159 | `ackType` is uninitialised, so a failed exchange tests whatever it holds | a reply failing its checksum, with `ackType` holding 0xFE: `SFM_ACK_IDLE` | `ackType` initialised, so a failed exchange gives `SFM_ACK_FAIL` | high; not executed | Commands.StopAll, Commands.CorruptReplyReportsIdle | Commands.StopAllZeroed |
