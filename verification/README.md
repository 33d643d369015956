# CycBox framing and queueing, modelled and proved

CycBox moves data between devices and a host. This project models the parts of it where bytes
become messages and messages wait, and proves what they promise.

**The CBRT frame protocol, end to end.** A C library on the device (`crates/cbrt/lib/cbrt.c`)
packs samples into frames; a Rust decoder on the host finds the frames in a byte stream that may
start anywhere and may be damaged (`crates/cbrt/src/`), and a transport drives the decoder from
reads of any size (`crates/cycbox-sdk/src/transport.rs`).

| file | models |
|---|---|
| `Bytes.dfy`, `Xor.dfy`, `Buffers.dfy` | little-endian integers, exclusive or on numbers, the receive buffer |
| `Crc16.dfy` | CRC-16/MODBUS (section 6.2.2 of MODBUS over Serial Line V1.02), bitwise and table-driven |
| `Wire.dfy` | the layout of a frame, encoding it, and the decoder's verdict on a candidate |
| `Scan.dfy` | finding frames in a stream: `Next` is one call of decode, `Split` all of them |
| `Session.dfy`, `Clock.dfy` | what the decoder remembers: profile, sequence number, clock wraps, clock anchor |
| `Samples.dfy` | samples, packed booleans, padding |
| `Decoder.dfy` | `SessionState`, `parse_at` with its cursor, and the codec, on mutable state |
| `Transport.dfy` | `recv` with its read, timeout, session boundary and end-of-stream branches |
| `Builder.dfy` | the builder struct and its buffer, call by call |
| `EndToEnd.dfy` | whole builder sessions, and what the decoder makes of them |
| `Transformer.dfy` | frames that arrive as whole messages, one session per connection |

**Byte stuffing**: `Delimited.dfy` (streams cut at a delimiter), `Cobs.dfy`, and `Slip.dfy` (the
framing of RFC 1055, its section "PROTOCOL").

**Queues of the engine**: `Outbox.dfy` (back-pressure and reconnects of a connection task) and
`DelayQueue.dfy` (messages to be sent later).

Code that changes things in place is modelled as classes and methods with loops. Each method is
proved equal to a function of the old state; the laws are then proved about the functions, so
that they hold over all inputs and all runs. The central results:

- `CodecTransport.Recv`: whatever the interleaving of reads, timeouts, session boundaries and
  ends of stream, the messages returned, host times included, are what decoding each session's
  bytes at once from a fresh state gives, for frames that arrive when the messages say
  (`Explains`).
- `AcceptedIff`: the decoder accepts exactly what an encoder can send.
- `FrameSucceeds`: the builder emits a frame exactly when its calls suit the session and the
  encoded frame fits.
- `SessionRoundTrip`, `SessionDelivered`: everything a builder session emits comes back, in
  order and with nothing reported lost, after any bytes without a sync word, even if payloads
  contain sync words — if and only if the caller finished only whole samples.
- `ClockReconstructed`, `HostTimeReconstructed`, `LossConserved`: exact accounting of time and
  of lost frames, with the exact conditions.
- `Crc16Table` against `Crc16Bitwise`, and `BurstRejected`: the fast checksum is the slow one,
  and no burst of at most sixteen wrong bits ever passes it.
- `FrameRecovered`: in any stream, however damaged, a whole frame is delivered unless an earlier
  candidate covers it.
- `CanonicalIff`, `BodyOfDecoded`, `UnescapeIff`: exactly which bodies the stuffing decoders take
  for encodings, and what every other body decodes to.
- `RunKeeps`, `FatesByAttempts`: every message submitted to a connection has exactly one fate,
  and it is the one that its attempts to send led to.
- `DelayQueueTask.Serve`: whenever the task waits, everything due has been sent.

## Where the code differs from its comments

The model follows the code.

- A frame header has 8 to 15 bytes. `crates/cbrt/lib/cbrt.h:186` says at most 14; the offsets
  computed at `crates/cbrt/lib/cbrt.c:148-153` give 15 with all optional fields (`HeaderSizes`).
- Multi-byte fields are stored natively (`crates/cbrt/lib/cbrt.c:88-90`); a little-endian device
  is assumed.
- The error of a builder is cleared by init only. `crates/cbrt/lib/cbrt.h:200` says by finalize,
  but finalize returns first (`crates/cbrt/lib/cbrt.c:342`). `ErrorSticks` covers this.
- The typed appenders do not check that whole samples were appended, and a frame with a partial
  sample is emitted and then refused by the decoder: `HalfSampleRefused` shows one.
  `SessionRoundTrip` gives the exact condition, which the caller can count on the calls alone
  (`WholeFrames`, `WholeCallsAreGood`).
- A jump of 2^31 microseconds or more between two frames can hide a wrap of the device clock.
  `ClockReconstructed` holds exactly when every gap is shorter or does not cross a wrap;
  `LongGapHidesWrap` shows two frames of which the second is reported before the first.
- More than 254 lost frames in a row are undercounted. `LossConserved` gives the exact
  condition; in `LongGapHidesLoss` 256 frames are missing and none is reported.
- COBS decoding accepts a last block that is cut short: the `min` at
  `crates/cycbox-runtime/src/codec/cobs.rs:70` makes the check after it unreachable.
  `TruncatedBlockAccepted` shows an input, `CanonicalIff` the exact condition, and
  `BodyOfDecoded` what is made of such a body.
- SLIP and COBS skip an empty frame by returning no message. An empty SLIP payload is therefore
  never received; an empty COBS payload is. And the inner loop of `recv`, meant to decode all
  available messages (`crates/cycbox-sdk/src/transport.rs:224`), stops at a skipped frame:
  `ReadLoopComplete` says exactly when it misses something, and `LeadingEndDelays` that it does
  for every frame that the SLIP encoder sends with its leading END.

## Model

| member | source | states |
|---|---|---|
| Crc16.Crc16Bitwise | crates/cbrt/lib/cbrt.c:74-85 | the bitwise loops compute the checksum of the given bytes |
| Crc16.Crc16Table | crates/cbrt/lib/cbrt.c:31-72 | the table-driven loop computes the same checksum for every buffer |
| Crc16.TableEntry | crates/cbrt/lib/cbrt.c:32-65 | each of the 256 table entries is what eight shift steps make of its index |
| Crc16.RunInjective | crates/cbrt/lib/cbrt.c:74-85 | feeding the same bytes never makes two different registers equal |
| Crc16.TwoBytesInjective | crates/cbrt/lib/cbrt.c:74-85 | two different pairs of bytes never leave the same register |
| Crc16.BurstDetected | crates/cbrt/lib/cbrt.c:74-85 | two messages that differ only in two adjacent bytes have different checksums |
| Crc16.RunIsSteps | crates/cbrt/lib/cbrt.c:74-85 | the checksum is linear: the register after a message is one long shift of the register with the whole message added |
| Crc16.BurstOf16Detected | crates/cbrt/lib/cbrt.c:74-85 | two messages that differ within a stretch of at most sixteen bits, anywhere and not byte-aligned, have different checksums |
| Crc16.ChecksumChecksItself | crates/cbrt/src/parser.rs:167-178 | a message followed by two bytes has checksum zero if and only if these are its checksum, low byte first |
| Crc16.CheckValue | crates/cbrt/lib/cbrt.c:27-30 | the checksum of the digits "123456789" is 0x4B37 |
| Wire.HeaderSizes | crates/cbrt/lib/cbrt.c:148-153 | a header has 8 to 15 bytes, and more than 14 if and only if all optional fields are there |
| Wire.EncodeThenParse | crates/cbrt/src/parser.rs:77-182 | an encoded frame followed by anything is accepted with the fields it was made of if and only if the payload is a whole number of samples, and rejected otherwise |
| Wire.ParseExtends | crates/cbrt/src/parser.rs:77-182 | more bytes never change a Complete or Reject verdict |
| Wire.CompleteIsPrefix | crates/cbrt/src/parser.rs:159-182 | an accepted frame is a prefix of the bytes at the sync word, and is accepted on its own |
| Wire.NeedMoreIsShort | crates/cbrt/src/parser.rs:79-166 | a candidate that needs more bytes is at most 65551 bytes long |
| Wire.CorruptionRejected | crates/cbrt/src/parser.rs:163-182 | in an accepted frame with a checksum, changing any byte after the sync word or two adjacent ones, in header, payload or checksum, leads to rejection, as long as the frame's extent stays the same |
| Wire.BurstRejected | crates/cbrt/src/parser.rs:163-182 | the same for every burst of at most sixteen bits |
| Wire.SyncIsCbrt | crates/cbrt/lib/cbrt.c:162-165 | the sync word is the four characters "CBRT" |
| Wire.FlagBits | crates/cbrt/src/parser.rs:83-88 | the flag bits and the datatype are where they are in their byte, and fill it |
| Wire.SameProfileIff | crates/cbrt/src/parser.rs:184-194 | two accepted frames belong to one session if and only if their bytes for flags, datatype and channels are equal |
| Wire.AcceptedIsEncoded | crates/cbrt/src/parser.rs:77-182 | what is accepted is the encoding of the fields that are reported |
| Wire.AcceptedIff | crates/cbrt/src/parser.rs:77-182 | the bytes from a sync word on are accepted if and only if a frame that an encoder can send starts there |
| Wire.RejectedAtOnce | crates/cbrt/src/parser.rs:90-154 | at six bytes and at the end of the header, a candidate is rejected if and only if no continuation of it is ever accepted |
| Wire.WorkedExample | crates/cbrt/protocol.md:220-238 | the frame of the protocol's worked example, byte for byte, has 97 bytes and decodes to its values |
| Wire.BareExample | crates/cbrt/protocol.md:240-250 | the same frame without optional fields has 88 bytes and decodes to its values |
| Scan.NextAppend | crates/cbrt/src/codec.rs:18-60 | a call of decode is not affected by bytes that arrive later, and what it leaves in the buffer is all it needs |
| Scan.SplitAppend | crates/cbrt/src/codec.rs:18-60 | decoding A to the end and then going on with B gives the frames and the rest of decoding A followed by B at once, on arbitrary bytes |
| Scan.SplitQuiet | crates/cbrt/src/codec.rs:30-53 | once decode finds nothing it finds nothing again until bytes arrive |
| Scan.RestIsShort | crates/cycbox-sdk/src/transport.rs:214-221 | at most 65551 bytes stay in the buffer, so it never overflows |
| Scan.FramesInPlace | crates/cbrt/src/codec.rs:42-46 | accepted frames lie in the stream one after another, each accepted at its own sync word, without overlap |
| Scan.EverySyncAccounted | crates/cbrt/src/codec.rs:18-60 | every sync word of the stream lies in an accepted frame, was rejected, or is still in the buffer |
| Scan.FrameFound | crates/cbrt/src/codec.rs:25-46 | a whole frame after bytes without a sync word is found, whatever its payload holds |
| Scan.StreamRoundTrip | crates/cbrt/src/codec.rs:18-60 | a stream of encoded frames after bytes without a sync word decodes to these frames with nothing left over |
| Scan.FrameRecovered | crates/cbrt/src/codec.rs:18-60 | in any stream a whole encoded frame lies in an accepted frame, and is that frame if one starts there, or is still in the buffer |
| Session.FollowAppend | crates/cbrt/src/parser.rs:184-235 | following a stream of frames in two parts is following it at once |
| Session.EventsIgnoreArrival | crates/cbrt/src/parser.rs:184-255 | frames, sequence events, 64-bit device times and counts reported do not depend on when frames arrive |
| Session.NewSessionForgets | crates/cbrt/src/parser.rs:184-205 | from a frame with another profile on, everything is reported as from a fresh state |
| Session.SeqEventCounts | crates/cbrt/src/parser.rs:219-232 | when one event reports exactly the frames lost between two, and when it reports a duplicate |
| Session.HostTimeOf | crates/cbrt/src/parser.rs:244-255 | a frame without a time gets its arrival as host time; one with a time never gets a later one |
| Session.LossConserved | crates/cbrt/src/parser.rs:219-235 | the losses reported add up to the frames missing between the first and the last received if and only if no gap exceeds 254; they never exceed them; then nothing is called a duplicate |
| Session.LongGapHidesLoss | crates/cbrt/src/parser.rs:219-232 | two accepted frames with 256 frames missing between them and no loss reported |
| Clock.ClockStep | crates/cbrt/src/parser.rs:207-217 | one 32-bit time is made 64 bits wide correctly if and only if it is less than 2^31 microseconds later or in the same round of the clock |
| Clock.ClockReconstructed | crates/cbrt/src/parser.rs:207-217 | over a session and any number of wraps the 64-bit times are the true times minus one constant, if and only if all gaps can be followed |
| Clock.LongGapHidesWrap | crates/cbrt/src/parser.rs:207-217 | two accepted frames of which the later one is reported at an earlier time |
| Clock.HostTimeReconstructed | crates/cbrt/src/parser.rs:244-255 | host time is device time on the host's clock plus the smallest transport delay so far |
| Clock.HostTimeBounds | crates/cbrt/src/parser.rs:237-255 | host time is never after arrival nor before the true time, and its error never grows |
| Samples.ValuesKeepBytes | crates/cbrt/src/parser.rs:476-518 | the bytes of the decoded fixed-width values, in order, are the payload |
| Samples.BoolsKeepBits | crates/cbrt/src/parser.rs:459-474 | packing the decoded booleans gives the payload: each bit is used exactly once |
| Samples.PackedBit | crates/cbrt/lib/cbrt.c:307-316 | bit i of the packed bytes, from the top bit of the first byte, is the i-th boolean appended |
| Samples.PadsFewest | crates/cbrt/lib/cbrt.c:344-361 | padding ends with full bytes, after at most seven zero samples, and after as few as possible |
| Samples.PaddedDecodes | crates/cbrt/src/parser.rs:142-145 | a padded boolean payload passes the exactness check and decodes to what was appended followed by false |
| Samples.MaterializeBools | crates/cbrt/src/parser.rs:459-474 | the loops yield every bit in sample-major order on the right channel, all indices in range |
| Samples.MaterializeFixed | crates/cbrt/src/parser.rs:480-518 | the loops yield every slot in sample-major order on the right channel, all indices in range |
| Samples.MaterializeValues | crates/cbrt/src/parser.rs:449-480 | exactly the values of the payload, for every datatype |
| Decoder.SessionState.Reset | crates/cbrt/src/parser.rs:47-57 | the state is fresh |
| Decoder.SessionState.Accept | crates/cbrt/src/parser.rs:184-255 | the session state after an accepted frame, and its report, are those of the model of sessions |
| Decoder.ReadHeader | crates/cbrt/src/parser.rs:77-138 | the cursor reads each header field from its place, and says too short or invalid in the right cases |
| Decoder.ReadFrame | crates/cbrt/src/parser.rs:77-182 | the step-by-step checks give the verdict, the end and the fields of the frame |
| Decoder.ParseAt | crates/cbrt/src/parser.rs:71-324 | the state changes only with an accepted frame; the message has its report, values and metadata |
| Decoder.AcceptedValues | crates/cbrt/src/parser.rs:257-283 | an accepted frame yields samples times channels values, each on its channel in turn, from which its payload can be put together again, byte for byte or bit for bit |
| Decoder.MetadataSay | crates/cbrt/src/parser.rs:295-309 | the metadata tell the datatype, the number of samples, and the loss or the duplicate that was found, each of them exactly when it is so |
| Decoder.CompleteIsWhole | crates/cbrt/src/parser.rs:140-154 | every accepted frame holds a whole number of samples |
| Decoder.CbrtCodec.Decode | crates/cbrt/src/codec.rs:15-61 | the scan over the buffer in place ends, and does what one step of the stream's splitting says |
| Decoder.CbrtCodec.Reset | crates/cbrt/src/codec.rs:71-73 | the session state is fresh |
| Transport.CodecTransport.Recv | crates/cycbox-sdk/src/transport.rs:152-277 | over every run, the messages returned and pending are, reports with host times included, what decoding each session at once from a fresh state gives for frames arriving when the messages are stamped; each has the values and metadata of its frame; end of stream and failure are reported at once and only when nothing is pending; nothing is read while a message can be returned |
| Transport.EventsExplained | crates/cycbox-sdk/src/transport.rs:152-277 | apart from host times, what is delivered depends on the bytes of the sessions only |
| Transport.NextSession | crates/cycbox-sdk/src/transport.rs:166-212 | a session has exactly the bytes read from its beginning to the next end of stream or boundary |
| Transport.HostTimesDelivered | crates/cbrt/src/parser.rs:237-255 | the host times in the messages of a session are never before the true time nor after the message was decoded, and their error never grows |
| Transport.LossesDelivered | crates/cbrt/src/parser.rs:300-308 | the losses in the metadata of a session's messages add up to the frames missing if and only if no gap exceeds 254 |
| Transport.CodecTransport.DecodeAvailable | crates/cycbox-sdk/src/transport.rs:224-237 | the inner loop takes every frame that is in the buffer |
| Transport.CodecTransport.OnRead | crates/cycbox-sdk/src/transport.rs:185-245 | a read extends the current session or starts one; the overflow branch is never taken |
| Transport.CodecTransport.OnTimeout | crates/cycbox-sdk/src/transport.rs:247-274 | a timeout finds no frame that decode did not find, and honours a session boundary |
| Transport.CodecTransport.OnEof | crates/cycbox-sdk/src/transport.rs:166-184 | an end of stream finds no frame that decode did not find, and the next session starts fresh |
| Transport.CodecTransport.StartSession | crates/cycbox-sdk/src/transport.rs:199-212 | a new session starts with a fresh state and an empty buffer |
| Builder.FrameBuilder.Init | crates/cbrt/lib/cbrt.c:126-171 | refuses bad arguments without any change, and a capacity without room for header and checksum; otherwise a new session starts |
| Builder.RoomIsFit | crates/cbrt/lib/cbrt.c:106-116 | there is room if and only if the encoded frame fits the capacity |
| Builder.WidthsAgree | crates/cbrt/lib/cbrt.c:14-25 | what the appenders store, what the encoder counts and what the decoder reads has the same width for every datatype |
| Builder.FrameBuilder.FrameSetTs | crates/cbrt/lib/cbrt.c:173-179 | sets the time, or fails in a session without times; an earlier error changes nothing |
| Builder.FrameBuilder.FrameSetPeriod | crates/cbrt/lib/cbrt.c:181-187 | sets the period, or fails in a session without periods; an earlier error changes nothing |
| Builder.FrameBuilder.Reserve | crates/cbrt/lib/cbrt.c:106-116 | room for header, payload and checksum within the capacity is always kept |
| Builder.FrameBuilder.AppendTyped | crates/cbrt/lib/cbrt.c:191-297 | appends the value in its width, or fails with the error of the first check that fails; prefix and memory beyond the capacity keep their contents |
| Builder.FrameBuilder.AppendRawBytes | crates/cbrt/lib/cbrt.c:321-336 | appends whole samples only |
| Builder.FrameBuilder.AppendBoolValues | crates/cbrt/lib/cbrt.c:301-319 | packs one boolean per channel, with the accumulator always holding the bits not yet in a byte |
| Builder.FrameBuilder.PadTail | crates/cbrt/lib/cbrt.c:344-361 | the padding loop ends, and appends the fewest whole zero samples |
| Builder.FrameBuilder.FinalizeFrame | crates/cbrt/lib/cbrt.c:338-393 | the buffer holds exactly the encoded frame and its length is returned, or 0 and the error stays; the prefix and the memory beyond the capacity keep their contents |
| Builder.BitsPacked | crates/cbrt/lib/cbrt.c:301-319 | while no error occurs, the payload is what all appended booleans pack to |
| Builder.BitsKept | crates/cbrt/lib/cbrt.c:301-319 | appending booleans without an error keeps all of them and nothing else changes |
| EndToEnd.ErrorSticks | crates/cbrt/lib/cbrt.c:338-342 | after an error no call changes anything and nothing is emitted any more |
| EndToEnd.FramesBeforeError | crates/cbrt/lib/cbrt.c:338-393 | all frames of a session come from the calls before its first error |
| EndToEnd.FrameByFrame | crates/cbrt/lib/cbrt.c:386-392 | a finished frame depends on its own calls and its number only, and leaves no trace for later ones |
| EndToEnd.FrameSucceeds | crates/cbrt/lib/cbrt.c:173-393 | a frame is emitted if and only if every call suits the session, the encoded frame fits the capacity, and the payload has at most 65535 bytes |
| EndToEnd.WhyRefused | crates/cbrt/lib/cbrt.c:106-124 | which error a call that does not go through leaves |
| EndToEnd.EmittedFrame | crates/cbrt/lib/cbrt.c:363-393 | every frame emitted has the session's header, a length below 2^16, the next number modulo 256, and if it is of booleans, whole samples |
| EndToEnd.WholeIff | crates/cbrt/src/parser.rs:140-154 | all frames emitted hold whole samples if and only if the caller finished at multiples of the channels |
| EndToEnd.WholeCallsAreGood | crates/cbrt/src/parser.rs:140-154 | a caller whose calls finish whole samples meets the condition below, wherever the first error comes |
| EndToEnd.HalfSampleRefused | crates/cbrt/lib/cbrt.c:191-196 | one byte appended for two channels is sent without an error and not decoded |
| EndToEnd.SessionRoundTrip | crates/cbrt/lib/cbrt.c:126-393 | a builder session of any calls, after any bytes without a sync word, decodes to its frames if and only if the caller finished whole samples, and then nothing is left over |
| EndToEnd.SessionDelivered | crates/cycbox-sdk/src/transport.rs:152-277 | cut into reads in any way, such a session is delivered frame by frame with nothing lost or repeated |
| EndToEnd.SessionHostTimes | crates/cbrt/src/parser.rs:237-255 | from the device times a builder session stamps its frames with to the messages: each host time is between the true time and the time of decoding |
| EndToEnd.NumbersArrive | crates/cbrt/src/parser.rs:482-518 | the numbers appended, each in the range of its C type, are decoded one by one as themselves, each on its channel |
| EndToEnd.ValueSurvives | crates/cbrt/lib/cbrt.c:191-297 | every value of the C type of each of the fourteen appenders is stored in that type's width and received as itself, or as its bits |
| EndToEnd.IntegersSurvive | crates/cbrt/lib/cbrt.c:191-252 | an integer is decoded as itself if and only if it is in the range of its type, negative numbers included |
| EndToEnd.BytesArrive | crates/cbrt/lib/cbrt.c:321-336 | the values decoded from a frame of fixed-width samples hold exactly the bytes appended, raw ones included |
| EndToEnd.BoolsArrive | crates/cbrt/src/parser.rs:459-474 | the booleans appended are decoded, each on its channel, true for every value that is not zero, followed by at most seven samples of false |
| EndToEnd.Perform | crates/cbrt/lib/cbrt.c:173-393 | every call on the struct does to it, and sends, what the model of sessions says |
| EndToEnd.PerformAll | crates/cbrt/lib/cbrt.c:173-393 | over every sequence of calls the struct keeps its invariant, sends exactly the model's frames, and never touches the prefix or the memory beyond its capacity |
| Transformer.NonInterference | crates/cbrt/src/transformer.rs:49-88 | in any interleaving of connections each one is answered exactly as if it were alone |
| Transformer.Answered | crates/cbrt/src/transformer.rs:35-86 | a message that was not parsed before is taken if and only if it starts with a frame that an encoder can send |
| Transformer.CodecLeavesMark | crates/cbrt/src/transformer.rs:7-10 | every message of the codec carries the mark by which the transformer leaves it alone |
| Transformer.RefusedLeavesNoTrace | crates/cbrt/src/transformer.rs:74-86 | a refused message has no influence on later ones, except that after an invalid frame the connection starts over |
| Transformer.MessagesLikeStream | crates/cbrt/src/transformer.rs:51-73 | frames that arrive message by message are reported exactly as from a stream |
| Transformer.CbrtTransformer.OnReceive | crates/cbrt/src/transformer.rs:28-88 | the answer, the connection's new state, and what is added to the message; a message parsed already changes nothing, and after a message was taken it counts as parsed |
| Delimited.ResultsAppend | crates/cycbox-runtime/src/codec/cobs.rs:92-113 | decoding a delimited stream in pieces gives what decoding it at once gives |
| Delimited.CutUnique | crates/cycbox-runtime/src/codec/slip.rs:128-139 | the first delimiter ends the frame |
| Delimited.ReadLoopComplete | crates/cycbox-sdk/src/transport.rs:224-237 | one read delivers every frame it completes if and only if none that decodes is behind an empty or a bad one |
| Delimited.ReadLoopSteps | crates/cycbox-sdk/src/transport.rs:224-237 | a frame that decodes is delivered and the read goes on; an empty one ends it and all that follows is left; after one that does not decode nothing is left |
| Cobs.EncodeCobs | crates/cycbox-runtime/src/codec/cobs.rs:17-47 | the loop that patches code bytes writes the blocks of the payload and the delimiter |
| Cobs.DecodeCobs | crates/cycbox-runtime/src/codec/cobs.rs:50-87 | the loop over the blocks decodes as defined; the length check is never reached |
| Cobs.UnstuffStuff | crates/cycbox-runtime/src/codec/cobs.rs:17-87 | decoding an encoded payload gives it back |
| Cobs.EncodedLength | crates/cycbox-runtime/src/codec/cobs.rs:17-18 | at most n + n/254 + 2 bytes, the room reserved, and exactly that many without zeros; no zero before the delimiter |
| Cobs.CanonicalIff | crates/cycbox-runtime/src/codec/cobs.rs:50-87 | a body is the encoding of what it decodes to if and only if its blocks are complete and it does not end in a full block |
| Cobs.TruncatedBlockAccepted | crates/cycbox-runtime/src/codec/cobs.rs:69-75 | a body with a cut block that is decoded nevertheless |
| Cobs.BodyOfDecoded | crates/cycbox-runtime/src/codec/cobs.rs:50-87 | every body without a zero decodes to the payload whose encoding is the body with its last block completed |
| Cobs.ShortVectors | crates/cycbox-runtime/src/codec/cobs.rs:154-164 | the encodings of short payloads, byte for byte |
| Cobs.LongerVector | crates/cycbox-runtime/src/codec/cobs.rs:165-168 | the encoding of a payload with two blocks, byte for byte |
| Cobs.StreamRoundTrip | crates/cycbox-runtime/src/codec/cobs.rs:92-122 | encoded payloads with idle zeros between them decode to the same list, empty ones included |
| Cobs.CobsCodec.DecodeNext | crates/cycbox-runtime/src/codec/cobs.rs:92-115 | cuts off the first frame and never fails, on any buffer |
| Slip.SlipCodec.EncodeSlip | crates/cycbox-runtime/src/codec/slip.rs:36-64 | the loop writes the escaped payload between the ENDs |
| Slip.SlipCodec.DecodeSlip | crates/cycbox-runtime/src/codec/slip.rs:71-115 | the loop unescapes, or fails in the same cases as the definition |
| Slip.UnescapeIff | crates/cycbox-runtime/src/codec/slip.rs:71-115 | a body decodes to a payload if and only if it is the escaping of that payload |
| Slip.EscapedForm | crates/cycbox-runtime/src/codec/slip.rs:44-57 | escaped payloads have no END, and one byte more for each END and ESC, at most 2n bytes |
| Slip.RfcBytes | crates/cycbox-runtime/src/codec/slip.rs:6-10 | the four byte values of RFC 1055, and an escaped payload byte for byte |
| Slip.StreamRoundTrip | crates/cycbox-runtime/src/codec/slip.rs:128-158 | all nonempty payloads come back in order, with either setting of the leading END and any idle ENDs |
| Slip.LeadingEndDelays | crates/cycbox-sdk/src/transport.rs:224-237 | with the leading END, a frame that arrives alone is left in the buffer by the read that completes it and delivered by the next call of decode; without it, it is delivered at once |
| Slip.SlipCodec.DecodeAvailable | crates/cycbox-sdk/src/transport.rs:224-237 | the inner loop of recv with this codec, which stops at an empty frame and clears the buffer at a bad one |
| Slip.SlipCodec.DecodeNext | crates/cycbox-runtime/src/codec/slip.rs:128-152 | cuts off the first frame, skips an empty one, and says when unescaping fails |
| Outbox.RunKeeps | crates/cycbox-engine/src/tasks/connection_task.rs:69-277 | over every run and any reconnects: at most 64 queued, confirmed in order of arrival and once, exactly one fate for each message, and none dropped for room unless 64 newer ones came |
| Outbox.FatesByAttempts | crates/cycbox-engine/src/tasks/connection_task.rs:162-250 | over every run, the messages confirmed, discarded and failed are exactly those whose attempt to send ended so, in order; what is tried is what has waited longest |
| Outbox.StepLeaves | crates/cycbox-engine/src/tasks/connection_task.rs:267-276 | what waits is given up if and only if the connection is lost; a message answered with Pending stays at the front |
| Outbox.StepPhase | crates/cycbox-engine/src/tasks/connection_task.rs:150-265 | the line goes down if and only if the connection is lost, and stops if and only if it is cancelled |
| Outbox.StepWarns | crates/cycbox-engine/src/tasks/connection_task.rs:295-301 | the depth is warned about from the first time that more than eight messages wait |
| Outbox.BackPressureLosesNothing | crates/cycbox-engine/src/tasks/connection_task.rs:189-250 | if the codec only takes messages or asks to wait, confirmed followed by queued are all messages in order, as long as at most 64 came |
| Outbox.ConnectionTask.EnqueueOutbox | crates/cycbox-engine/src/tasks/connection_task.rs:281-302 | drops the oldest when full, and warns once |
| Outbox.ConnectionTask.DrainOutbox | crates/cycbox-engine/src/tasks/connection_task.rs:304-345 | tries the front; puts it back on back-pressure and on a lost connection |
| Outbox.ConnectionTask.OnSubmitted | crates/cycbox-engine/src/tasks/connection_task.rs:189-237 | sends at once only if nothing is queued, otherwise queues behind and tries the front |
| Outbox.ConnectionTask.Serve | crates/cycbox-engine/src/tasks/connection_task.rs:150-277 | the task over all it wakes up for does what the steps say, and gives up the queue at a reconnect |
| DelayQueue.PushKeeps | crates/cycbox-engine/src/tasks/delay_queue_task.rs:19-28 | scheduling a message keeps the invariant |
| DelayQueue.PopKeeps | crates/cycbox-engine/src/tasks/delay_queue_task.rs:76-82 | sending the least item when it is due keeps the invariant: nothing lost or doubled, nothing early, nothing overtakes an earlier deadline it waited with |
| DelayQueue.DeadlineIsTimestamp | crates/cycbox-engine/src/tasks/delay_queue_task.rs:20-27 | the deadline is the message's own time, or its arrival if that is later |
| DelayQueue.DueIsSent | crates/cycbox-engine/src/tasks/delay_queue_task.rs:70-82 | in every wait, each message received that was due by the last event, or when the clock was read, is in the log |
| DelayQueue.DelayQueueTask.Serve | crates/cycbox-engine/src/tasks/delay_queue_task.rs:70-132 | over every run, closed or not, the invariant holds, every message that arrives is scheduled at its time, and in each wait, one for every event and one at the end, the clock was read after the last event and nothing queued is due |

## Left out

- Floating point: the inferred sample period, sample timestamps, and the values of f32, f64, f16, bf16, q15 and q31, which are kept as their bits.
- The `period_us` metadata and the text contents of a message, which only display what was parsed.
- Wall-clock reads: the arrival time is an arbitrary number at each call.
- Frame lengths near the limits of `size_t`, and null pointers passed to the builder.
- Builder.FrameBuilder.AppendTyped: the fourteen typed appenders are one method with the datatype as a parameter, because they differ only in datatype and width; the caller converts floats to their bits.
- Builder.FrameBuilder.AppendRawBytes: copies at once what the source copies byte by byte.
- EndToEnd.Perform: stands for an application that sends what finalize left in the buffer; there is no such function in the library.
- EndToEnd.PerformAll: the same over many calls.
- Transport.CodecTransport.Recv: with the CBRT codec only, whose decode never fails; the error branch of the inner loop and the observer of raw bytes are not modelled. For COBS and SLIP the streams are stated for a caller that decodes as long as there is a delimiter, and the inner loop of a single read is modelled beside them.
- Transformer.CbrtTransformer.OnReceive: the lock around the session map; calls are one at a time.
- Cobs.CobsCodec.DecodeNext: the sentinel is the constant 0 that `config` sets.
- Outbox.ConnectionTask.Serve: the choice between events that are ready at the same time is an input, as are the results of sending; the delay before reconnecting is not modelled, and log messages are not, except whether the depth warning was given.
- DelayQueue.DelayQueueTask.Serve: the binary heap of the standard library is a list from which any least item may be taken; a wait may end at any time.
- Encoding by the CBRT codec, serial ports, operating-system timers, channels, Lua scripts, the other codecs and transformers, and the user interface.
