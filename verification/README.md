# Verified model of the Teensy serial link

The vehicle's Raspberry Pi and its Teensy microcontroller talk over a serial line. Both ends
implement the same stack, independently: the firmware with fixed buffers, one byte at a time
(`modules/teensy`), the ROS driver with growing vectors, one chunk at a time
(`modules/autonomy_pi/ros/autonomy_teensy`). This project models both implementations in Dafny and
proves, for all inputs and all runs, what they promise each other.

Verify it with `dafny verify dfyconfig.toml`.

## Layers

| layer | specification and theorems | firmware | driver |
|---|---|---|---|
| byte stuffing | `Cobs` | `TeensyCobs` | `PiCobs` |
| checksum | `Gf2`, `Crc`, `CrcErrors` | `Crc` | `Crc` |
| packets | `Packets` | `TeensyPacket` | `PiPacket`, `PiTelemetry` |
| streams | `Framing`, `Corruption`, `TeensyStream` | `TeensyClient` | `PiClient` |
| sensor and main loop | `Imu`, `ImuRuns`, `FirmwareRuns`, `GyroRuns`, `StatusRuns` | `Imu`, `Firmware` | |
| commands | `Commands`, `Protocol`, `ProtocolCalls`, `ProtocolFirmware`, `LosslessCalls`, `ProtocolWitnesses` | `TeensyClient`, `Firmware` | `Driver` |

Loops and objects of the C++ are methods and classes here, each proved against a function of its
inputs or old state. The theorems are then proved about those functions.

The main results:

- **COBS.** Encoding and decoding are inverse to each other on data of any length, and the frames
  that decode to given data are known exactly. The bounded and the unbounded routines agree.
- **CRC.** The checksum is the remainder of a polynomial division over GF(2), and no other byte is.
  The undetected errors are exactly the multiples of the generator; odd errors, bursts of up to
  eight bits and double errors not a multiple of 127 bits apart are therefore detected.
- **Streams.** The two receivers obtain the same packets from every byte stream, as far as the
  payloads fit the firmware's buffer; neither depends on how the bytes are split up in time; both
  resynchronise after garbage. `Corruption` says what one changed byte in a stream costs.
- **Samples and clock.** The pairing of sensor events into samples is optimal in every run, IMU
  resets included, and the status rate limit holds across wraps of the 32-bit millisecond clock. A
  gyroscope reading once found stale is not sent again; when readings are found stale in true time
  is stated exactly, and it is not always when they are too old (see below). Every IMU_DATA and
  CAL_STATUS packet sent is accounted for, byte by byte, by the sensor events of the run.
- **Commands.** `Protocol` is a state machine over two lossy links with an 8-bit sequence number,
  timeouts and retries. Every verdict the driver reports is true of the attempt it is reported for,
  and a successful START or STOP is a barrier for the calibration state, as long as fewer than 256
  attempts lie between a response and its delivery; without that, up to 256 attempts and no further.
  `ProtocolCalls` and `ProtocolFirmware` prove that the driver's method and the firmware's main loop
  take part in the state machine as it says, the latter reading the frames as bytes in any chunks.

## Assumptions of the protocol model

- A packet on a link arrives intact and in order, or not at all. `Framing`, `TeensyStream` and
  `CrcErrors` say what the lower layers contribute to that.
- Each step of `Protocol.Step` is atomic, as the driver's critical sections and the single-threaded
  firmware make it. The driver handles one command at a time
  (`modules/autonomy_pi/ros/autonomy_teensy/include/autonomy_teensy/driver.hpp:56`).
- `Protocol.Links` lists what may be assumed about delays: nothing; that no response is delivered
  256 or more attempts after its own; or the weakest assumption that works, that no promise is
  pending when a response arrives that is a positive multiple of 256 attempts old. A run is
  `Protocol.Bounded` if one of the last two is assumed, or if it has at most 256 attempts. Only the
  results that name it need it.
- The attempt numbers and the histories of `Protocol.System` are there to state the results; no
  step of either side depends on them.
- The firmware and the driver run without a restart, which would reset the calibration mask or the
  sequence counter.

## Promises that fail

- A response can be taken for the answer to another command, because the callback compares the
  8-bit sequence number and not the command id. `Protocol.AcceptedForAnother` says exactly when,
  `ProtocolWitnesses.StaleAnswer` is a run in which a STOP is reported as executed because of an old
  response to a START, and `ProtocolWitnesses.AttemptBound` says that 256 attempts is the number up
  to which this cannot happen.
- A gyroscope reading older than the limit can be sent as current, because a reset of the IMU sets
  its time stamp to zero, which is recent when the clock has just wrapped. `GyroRuns.ResetHidesAge`
  is such a run and `GyroRuns.OldReadingShown` the exact condition. In the other direction the code
  all but keeps its promise: recovering from a reset takes 100 ms (`GyroRuns.Delayed`), so a reading
  younger than that and within the limit is always sent (`GyroRuns.GyroAge`). At the limit of 100 ms in use only a reading
  exactly that old can be suppressed within the limit, at longer limits any between the two
  (`GyroRuns.FreshReadingSuppressed`, `GyroRuns.ResetSuppresses`).
- One byte zeroed on the line can produce a packet that was never sent, because it splits a frame
  and the part behind it may be a frame of its own: `Corruption.ZeroedByte`,
  `Corruption.ZeroedIffInner`, `Corruption.Phantom`.

## Where the code and its comments differ

- `modules/teensy/lib/packet/packet.h:20-21` counts one COBS code byte per started 254-byte block.
  The encoder writes one more if the data ends exactly where a full block ends; `Cobs.EncodedSize`
  states the size the code produces.
- The comment at `driver.cpp:126-127` says that a response whose sequence number does not match is
  stale and discarded. The converse, that a matching one is not stale, is the first promise above.

## Model

| member | source | states |
|---|---|---|
| Cobs.EncodeFull | modules/teensy/lib/packet/cobs.cpp:24-32 | 254 non-zero bytes are encoded as one full block, whatever follows |
| Cobs.EncodeRun | modules/teensy/lib/packet/cobs.cpp:16-35 | a shorter run of non-zero bytes is encoded as one block that also stands for the zero behind it, or ends the data |
| Cobs.EncodeIsZeroFree | modules/teensy/lib/packet/cobs.cpp:6-38 | the encoded bytes never contain the delimiter |
| Cobs.RoundTrip | modules/teensy/lib/packet/cobs.cpp:6-72 | decoding an encoding gives back the data, for every length, runs of 254 non-zero bytes included |
| Cobs.EncodedSize | modules/teensy/lib/packet/cobs.cpp:12-37 | the encoding has one byte more than the data plus one for every completed 254-byte block, and blocks are completed at most once per 254 bytes |
| Cobs.EncodeFits | modules/teensy/lib/packet/cobs.cpp:8-10 | the encoding of any data fits the capacity the encoder asks for |
| Cobs.CapacityIsTight | modules/teensy/lib/packet/cobs.cpp:8-10 | data without zero bytes needs the whole of that capacity |
| Cobs.ShortEncode | modules/teensy/lib/packet/packet.h:20-22 | data shorter than a full block grows by exactly one byte |
| Cobs.NormalForm | modules/autonomy_pi/ros/autonomy_teensy/src/cobs.cpp:8-66 | re-encoding what a zero-free frame decodes to gives the frame back, followed by one 0x01 exactly when the frame ends with a full block |
| Cobs.Preimages | modules/autonomy_pi/ros/autonomy_teensy/src/cobs.cpp:8-66 | the zero-free frames that decode to given data are its encoding and, if that ends in an empty block after a full one, the encoding without it; no others |
| Cobs.ShortDecode | modules/teensy/lib/packet/packet.cpp:48-49 | a zero-free frame whose decoding is shorter than a full block is exactly one byte longer than its decoding |
| Cobs.DataByteChange | modules/teensy/lib/packet/cobs.cpp:40-72 | changing one data byte of a well-formed frame changes exactly one decoded byte, to the same new value |
| Cobs.CutFrame | modules/teensy/lib/packet/cobs.cpp:53-56 | a frame cut off in front of a data byte is malformed |
| TeensyCobs.EncodeCobs | modules/teensy/lib/packet/cobs.cpp:6-38 | the buffer encoder fails exactly when the capacity test fails, leaving the buffer alone, and otherwise writes the encoding; nothing at or beyond the stated size is touched |
| TeensyCobs.DecodeCobs | modules/teensy/lib/packet/cobs.cpp:40-72 | the bounded decoder succeeds exactly when the frame is well formed and its decoding fits, and then writes that decoding; nothing at or beyond the stated size is touched |
| PiCobs.DecodeCobs | modules/autonomy_pi/ros/autonomy_teensy/src/cobs.cpp:8-33 | the vector decoder returns the decoding, and fails exactly for malformed frames |
| PiCobs.EncodeCobs | modules/autonomy_pi/ros/autonomy_teensy/src/cobs.cpp:35-66 | the vector encoder returns the encoding; the vector it allocates is always long enough |
| Crc.CalculateCrc | modules/teensy/lib/packet/crc.cpp:6-22 | the nested loops compute the byte-wise register of the buffer |
| Crc.CalculateCrcVector | modules/autonomy_pi/ros/autonomy_teensy/src/crc.cpp:6-21 | the vector version computes the same function |
| Crc.RegisterByBits | modules/teensy/lib/packet/crc.cpp:10-19 | XORing whole bytes in and shifting eight times is the same as feeding the message bit by bit |
| Crc.RemainderExists | modules/teensy/lib/packet/crc.cpp:6-22 | the bit-serial register is a remainder of a GF(2) long division of the message times x^8 |
| Crc.ChecksumIsRemainder | modules/teensy/lib/packet/crc.h:10-15 | a byte is the checksum if and only if it is the remainder of message(x) * x^8 divided by x^8 + x^2 + x + 1 |
| Gf2.FactorIsDetermined | modules/teensy/lib/packet/crc.h:10-15 | a product with a monic polynomial determines the other factor from its high coefficients |
| Gf2.DivisionIsUnique | modules/teensy/lib/packet/crc.h:10-15 | division by a monic polynomial has only one quotient and remainder |
| CrcErrors.ChecksumIsLinear | modules/teensy/lib/packet/crc.cpp:6-22 | the checksum of the XOR of two messages of the same length is the XOR of their checksums |
| CrcErrors.AcceptedIffZero | modules/teensy/lib/packet/packet.cpp:55-61 | a frame passes the checksum test if and only if the checksum over all of it, stored byte included, is zero |
| CrcErrors.DetectedIffSyndrome | modules/teensy/lib/packet/packet.cpp:55-61 | whether a transmission error is noticed depends on the flipped bits alone |
| CrcErrors.UndetectedIffMultiple | modules/teensy/lib/packet/packet.cpp:55-61 | an error goes unnoticed if and only if it is a multiple of the generator polynomial |
| CrcErrors.OddErrorsDetected | modules/teensy/lib/packet/packet.cpp:55-61 | every odd number of flipped bits is detected, for frames of any length |
| CrcErrors.BurstsDetected | modules/teensy/lib/packet/packet.cpp:55-61 | every burst spanning at most eight bits is detected, also across byte boundaries |
| CrcErrors.ByteChangeDetected | modules/teensy/lib/packet/packet.cpp:55-61 | changing any one byte of an accepted frame makes it rejected |
| CrcErrors.PeriodIffMultiple | modules/teensy/lib/packet/crc.cpp:12-18 | shifting x^7 through the register returns to x^7 after exactly the multiples of 127 steps |
| CrcErrors.DoubleErrors | modules/teensy/lib/packet/packet.cpp:55-61 | two flipped bits go unnoticed if and only if their distance is a multiple of 127 |
| Packets.ParseIffFrame | modules/autonomy_pi/ros/autonomy_teensy/src/packet.cpp:22-43 | decoded bytes are accepted as a packet if and only if they are that packet's header, payload and checksum |
| Packets.FrameLayout | modules/teensy/lib/packet/packet.cpp:26-34 | a frame is packet id, device id, payload and, last, the remainder of the polynomial division of what is before it |
| Packets.PacketRoundTrip | modules/autonomy_pi/ros/autonomy_teensy/src/packet.cpp:22-93 | an encoded packet without its delimiter decodes to the packet, on both sides if the payload fits |
| Packets.WireSize | modules/teensy/lib/packet/packet.h:20-22 | a packet with n <= 64 payload bytes is n + 5 bytes on the wire, at most MAX_ENCODED_SIZE |
| Packets.OnlySegment | modules/autonomy_pi/ros/autonomy_teensy/src/packet.cpp:22-93 | the wire form of a short packet is the only delimited frame that decodes to it |
| Packets.SegmentAgreement | modules/teensy/lib/packet/packet.cpp:46-73 | on one segment the firmware decodes exactly what the driver decodes, if the payload has at most 64 bytes, and overlong segments never hold such a packet |
| Packets.CorruptionRejected | modules/teensy/lib/packet/packet.cpp:46-61 | both decoders reject the frame of a packet in which one COBS data byte was replaced |
| TeensyPacket.FillFrame | modules/teensy/lib/packet/packet.cpp:26-34 | the frame buffer holds header, payload and checksum of the packet |
| TeensyPacket.Encode | modules/teensy/lib/packet/packet.cpp:20-44 | fails exactly when the payload is too long or the buffer too small, and otherwise writes the wire form of the packet; nothing at or beyond the stated size is touched |
| TeensyPacket.Decode | modules/teensy/lib/packet/packet.cpp:46-73 | decodes exactly the frames the bounded specification decodes, to the same packet |
| PiPacket.DecodePacket | modules/autonomy_pi/ros/autonomy_teensy/src/packet.cpp:22-43 | decodes exactly the frames the specification decodes |
| PiPacket.EncodePacket | modules/autonomy_pi/ros/autonomy_teensy/src/packet.cpp:75-93 | fails exactly when the payload is too long, and otherwise returns the wire form of the packet |
| PiPacket.FindDelimiter | modules/autonomy_pi/ros/autonomy_teensy/src/packet.cpp:51-57 | finds the first delimiter from a position on, or the end |
| PiPacket.DecodePackets | modules/autonomy_pi/ros/autonomy_teensy/src/packet.cpp:45-73 | returns the packets of all delimited segments, malformed ones skipped, and where the bytes behind the last delimiter start |
| Framing.SplitIsUnique | modules/autonomy_pi/ros/autonomy_teensy/src/packet.cpp:45-73 | there is one way only to cut a stream into zero-free segments and a zero-free rest |
| Framing.SplitExists | modules/autonomy_pi/ros/autonomy_teensy/src/packet.cpp:45-73 | the segments and the rest the receivers work with are that way |
| Framing.ReceiversAgree | modules/teensy/lib/packet/serial_buffer.cpp:6-33 | on every byte stream the firmware obtains the driver's packets with payloads of at most 64 bytes, in the same order |
| Framing.PiPacketsAppend | modules/autonomy_pi/ros/autonomy_teensy/src/client.cpp:113-116 | decoding can be resumed from the bytes behind the last delimiter without losing or inventing a packet |
| Framing.CleanStream | modules/autonomy_pi/ros/autonomy_teensy/src/packet.cpp:45-93 | a stream of encoded packets decodes to those packets with nothing left over |
| Framing.CleanStreamTeensy | modules/teensy/lib/packet/serial_buffer.cpp:6-33 | so it does for the firmware, if no payload has more than 64 bytes |
| Framing.Resynchronisation | modules/autonomy_pi/ros/autonomy_teensy/src/packet.cpp:66-69 | behind any garbage that ends with a delimiter all packets are recovered, by both receivers |
| Framing.BehindGarbage | modules/autonomy_pi/ros/autonomy_teensy/src/packet.cpp:66-69 | garbage without a delimiter and the packet behind it are read as what its last segment and the frame decode to together, at most one packet |
| Framing.LateResynchronisation | modules/autonomy_pi/ros/autonomy_teensy/src/packet.cpp:66-69 | behind garbage without a delimiter the driver recovers all packets from the second on |
| Framing.LateResynchronisationTeensy | modules/teensy/lib/packet/serial_buffer.cpp:6-33 | the firmware recovers the same packets as far as they fit |
| Corruption.ChangedByte | modules/autonomy_pi/ros/autonomy_teensy/src/packet.cpp:45-73 | in a stream of packets, a data byte changed to another non-zero byte costs both receivers exactly the packet it is in |
| Corruption.ZeroedByte | modules/autonomy_pi/ros/autonomy_teensy/src/packet.cpp:45-73 | a data byte changed to zero also costs that packet, and the bytes behind it up to the delimiter are read as a segment of their own |
| Corruption.ZeroedIffInner | modules/autonomy_pi/ros/autonomy_teensy/src/packet.cpp:45-73 | zeroing a data byte of a packet that fits does more than to lose it if and only if the bytes behind it are the frame of another packet that fits |
| Corruption.Phantom | modules/autonomy_pi/ros/autonomy_teensy/src/packet.cpp:45-73 | there are such packets: one zeroed byte makes both receivers obtain a packet that was never sent |
| PiClient.Client.constructor | modules/autonomy_pi/ros/autonomy_teensy/src/client.cpp:24-34 | a new client has accumulated nothing and has no callbacks |
| PiClient.Client.RegisterCallback | modules/autonomy_pi/ros/autonomy_teensy/src/client.cpp:45-49 | a callback is appended to those of its packet id; others stay as they are |
| PiClient.GivenWithId | modules/autonomy_pi/ros/autonomy_teensy/src/client.cpp:124-139 | a callback registered once, for one id, is given exactly the packets of that id, in order |
| PiClient.ReceivedCut | modules/autonomy_pi/ros/autonomy_teensy/src/client.cpp:97-113 | what the reading loop receives is the stream, however it was cut into reads |
| PiClient.ReceivedUntilFailure | modules/autonomy_pi/ros/autonomy_teensy/src/client.cpp:101-107 | everything read before a failure counts, nothing behind it does |
| PiClient.Client.Dispatch | modules/autonomy_pi/ros/autonomy_teensy/src/client.cpp:124-139 | every callback registered for the id is called once with the packet, in order of registration; without one nothing is called |
| PiClient.Client.PollConnection | modules/autonomy_pi/ros/autonomy_teensy/src/client.cpp:97-122 | for every stream and every way to cut it into reads, the callbacks made are those for the packets of the stream behind the bytes kept before, what is kept is what follows its last delimiter, and a callback for one id sees exactly the packets of that id |
| TeensyStream.PollTakesNextFrame | modules/teensy/lib/packet/client.cpp:37-49 | one call to poll_command takes exactly the next non-empty frame of at most 69 bytes off the stream, or finds that there is none yet |
| TeensyStream.StepsKeepInv | modules/teensy/lib/packet/client.cpp:37-63 | every interleaving of arrivals, polls and IMU recoveries keeps the accounting of frames, packets and responses |
| TeensyStream.ScheduleIndependence | modules/teensy/lib/packet/client.cpp:37-63 | no frame is lost, duplicated, reordered or invented, and every decoded command was answered once, in order |
| TeensyStream.Drained | modules/teensy/lib/packet/client.cpp:37-63 | once nothing is left to read, the packets dispatched are those of the whole stream, independently of the schedule |
| TeensyClient.SerialBuffer.constructor | modules/teensy/lib/packet/serial_buffer.h:30-34 | a new buffer is empty |
| TeensyClient.SerialBuffer.Push | modules/teensy/lib/packet/serial_buffer.cpp:6-23 | reports a frame exactly at the delimiter of a non-empty one that fitted, and otherwise stays in the state its bytes determine, overflow included |
| TeensyClient.SerialBuffer.Reset | modules/teensy/lib/packet/serial_buffer.cpp:29-33 | empties the buffer and forgets an overflow |
| TeensyClient.RunHandler | modules/teensy/src/main.cpp:79-101 | the three handlers change the mask and answer as specified |
| TeensyClient.Client.constructor | modules/teensy/lib/packet/client.cpp:9-12 | a new client has no handlers and an empty buffer |
| TeensyClient.Client.RegisterHandler | modules/teensy/lib/packet/client.cpp:29-35 | stores the handler in the slot of its id; ids without a slot change nothing |
| TeensyClient.Client.FindHandler | modules/teensy/lib/packet/client.cpp:65-69 | looks the handler up, with the index of id 0 wrapping out of the table |
| TeensyClient.Client.SendBytes | modules/teensy/lib/packet/client.cpp:14-27 | writes the wire form of the packet; a payload that fits never fails |
| TeensyClient.Client.DispatchCommand | modules/teensy/lib/packet/client.cpp:51-63 | runs the handler and writes the response that the specification names, and nothing for other packets |
| TeensyClient.Client.PollCommand | modules/teensy/lib/packet/client.cpp:37-49 | consumes exactly the bytes of one poll, and decodes and dispatches the frame it found, if any |
| Commands.RunMeaning | modules/teensy/src/main.cpp:79-101 | an OK answer to START or STOP says that the firmware is or is not calibrating afterwards, any other answer that nothing changed, and SAVE alone is ever refused, exactly while not calibrating |
| Commands.HandlerAnswers | modules/teensy/src/main.cpp:79-101 | exactly when each of the three handlers answers OK, and that the mask afterwards is 7, 2 or the old one |
| Commands.DispatchMeaning | modules/teensy/lib/packet/client.cpp:51-69 | which packets are answered, every byte of the answer and the mask afterwards, in terms of the packet, the old mask and the sensor |
| Commands.LookupIds | modules/teensy/lib/packet/client.cpp:65-69 | only ids 1 to 3 can have a handler |
| Commands.FullTable | modules/teensy/src/main.cpp:49-51 | after setup exactly the three command ids have their handlers |
| Commands.DispatchAnswers | modules/teensy/lib/packet/client.cpp:51-63 | every valid command gets one response with its id and sequence byte, saying UNKNOWN_COMMAND exactly if it has no handler; other packets get none |
| Imu.ElapsedWraps | modules/teensy/src/main.cpp:71 | subtracting two readings of the 32-bit clock gives the true difference modulo 2^32 |
| Imu.ResetKeepsCalibrating | modules/teensy/lib/bno085/bno085.cpp:71-77 | an IMU reset never changes whether the firmware counts as calibrating, whether recovery succeeds or not |
| Imu.ResetRestores | modules/teensy/lib/bno085/bno085.cpp:71-77 | a recovered reset puts the mask in force, 2 or 7, in force again, and the default if there was none |
| Imu.BNO085.constructor | modules/teensy/lib/bno085/bno085.h:79-90 | initial values of the sensor state |
| Imu.BNO085.Configure | modules/teensy/lib/bno085/bno085.cpp:47-67 | forgets half-assembled samples and the gyroscope time stamp |
| Imu.BNO085.Calibrate | modules/teensy/lib/bno085/bno085.cpp:139-151 | mask and magnetometer accuracy change exactly if both requests succeed |
| Imu.BNO085.Reset | modules/teensy/lib/bno085/bno085.cpp:71-77 | reconfigures, and requests the calibration that was in force |
| Imu.BNO085.Read | modules/teensy/lib/bno085/bno085.cpp:79-133 | absorbs one event and emits as the step function of the runs does |
| ImuRuns.EmittedIsSent | modules/teensy/src/main.cpp:64-69 | the samples these results are about are the ones sent |
| ImuRuns.EmitsIffBoth | modules/teensy/lib/bno085/bno085.cpp:120-124 | in every run of the main loop, a pass emits exactly if both kinds of event arrived since the last emission or reset |
| ImuRuns.SampleContents | modules/teensy/lib/bno085/bno085.cpp:79-133 | each sample carries the latest accelerometer and rotation vector events, both newer than the previous emission and the last reset |
| ImuRuns.NoBetterPacking | modules/teensy/lib/bno085/bno085.cpp:79-133 | no choice of disjoint stretches of a run that each see both kinds of event, with no reset in between, has more stretches than samples were sent |
| ImuRuns.EmissionsPack | modules/teensy/lib/bno085/bno085.cpp:79-133 | the stretches between emissions are such a choice |
| ImuRuns.GreedyIsOptimal | modules/teensy/lib/bno085/bno085.cpp:79-133 | in every run, resets included, the number of samples is the largest number of such stretches |
| GyroRuns.GyroReported | modules/teensy/lib/bno085/bno085.cpp:91-97 | in every run of the main loop, resets included, the latest gyroscope reading stands until an emission finds it stale by the stamp it then has, and from then on zeros are reported until the next gyroscope event |
| GyroRuns.GyroEmitted | modules/teensy/lib/bno085/bno085.cpp:126-130 | a sample carries the rates of the latest gyroscope event if and only if no pass that sent a sample since the event could see it was too old, in true times |
| GyroRuns.OldReadingShown | modules/teensy/lib/bno085/bno085.cpp:126-130 | exactly when a reading older than the limit is sent as current, and that this takes a reset and a clock that has just wrapped, or a reading one wrap old |
| GyroRuns.ResetAge | modules/teensy/lib/bno085/bno085.cpp:53-56 | a reading from before a reset is at least as old as the delay of configure |
| GyroRuns.FreshReadingSuppressed | modules/teensy/lib/bno085/bno085.cpp:47-57 | exactly when a reading within the limit is replaced by zeros: a sample was sent behind a reset; the reading is then at least as old as the delay of configure, so at the limit of 100 ms in use exactly that old |
| GyroRuns.GyroAge | modules/teensy/lib/bno085/bno085.cpp:126-130 | a sample has zero rates exactly if its gyroscope event is older than the limit: for events younger than 100 ms in every run, resets included, for older ones without a reset since and below one wrap of the clock |
| GyroRuns.ResetHidesAge | modules/teensy/lib/bno085/bno085.cpp:51 | a run in which a reset just before the clock wraps makes a gyroscope reading of any age go out as current |
| GyroRuns.ResetSuppresses | modules/teensy/lib/bno085/bno085.cpp:51 | a run in which a reset replaces a reading within the limit by zeros, for every age from the delay of configure to the limit |
| StatusRuns.MaskStep | modules/teensy/lib/bno085/bno085.cpp:135-151 | in every run a START makes the mask 7 and a STOP 2, a reset keeps it or puts the default where there was none, and nothing else changes it |
| StatusRuns.MaskValues | modules/teensy/src/main.cpp:45 | from setup on the mask is 0, 2 or 7 |
| StatusRuns.AccelAccuracy | modules/teensy/lib/bno085/bno085.cpp:87 | in every run the accelerometer accuracy is that of the latest accelerometer event |
| StatusRuns.GyroAccuracy | modules/teensy/lib/bno085/bno085.cpp:95 | the gyroscope accuracy is that of the latest gyroscope event |
| StatusRuns.QuatAccuracy | modules/teensy/lib/bno085/bno085.cpp:110-111 | the orientation accuracies are those of the latest rotation vector |
| StatusRuns.MagAccuracy | modules/teensy/lib/bno085/bno085.cpp:100 | the magnetometer accuracy is that of the latest magnetic field event, if the sensor was not configured since |
| StatusRuns.MagCleared | modules/teensy/lib/bno085/bno085.cpp:149 | the magnetometer accuracy is zero if the sensor was configured and no such event came since |
| StatusRuns.TelemetrySent | modules/teensy/src/main.cpp:64-73 | in every run the IMU_DATA packets sent are exactly the samples emitted and the CAL_STATUS packets exactly the statuses due, each in order |
| StatusRuns.StatusContents | modules/teensy/src/main.cpp:103-113 | every byte of each status sent: the two low status bits of the latest events, zero for a magnetometer configured since, the mask 7, and the latest orientation accuracy |
| PiTelemetry.PopAll | modules/autonomy_pi/ros/autonomy_teensy/include/autonomy_teensy/packet.hpp:28-41 | popping the floats of a payload one after the other gives back the floats written |
| PiTelemetry.FloatLayout | modules/teensy/src/main.cpp:113 | floats travel least significant byte first |
| PiTelemetry.SampleLayout | modules/teensy/lib/bno085/bno085.h:11-16 | where each of the ten components of a sample is in its payload |
| PiTelemetry.SampleRoundTrip | modules/autonomy_pi/ros/autonomy_teensy/src/driver.cpp:53-90 | the driver reads in an IMU_DATA payload the sample the firmware sent, component by component |
| PiTelemetry.StatusRoundTrip | modules/autonomy_pi/ros/autonomy_teensy/src/driver.cpp:92-117 | the driver reads in a CAL_STATUS payload the accuracies the firmware sent, and shows the magnetometer calibration as enabled exactly while the firmware is calibrating |
| Firmware.Firmware.constructor | modules/teensy/src/main.cpp:32-54 | setup leaves the firmware with the default mask 2, or 0 if the sensor refused it, and with its three handlers |
| Firmware.Firmware.RegisterHandlers | modules/teensy/src/main.cpp:49-51 | the handler table after setup |
| Firmware.Firmware.SendCalibrationStatus | modules/teensy/src/main.cpp:103-120 | writes one CAL_STATUS packet and stamps the time |
| Firmware.Firmware.PollClient | modules/teensy/src/main.cpp:58 | polling changes the link, the mask, the magnetometer accuracy and the packets sent as one poll of the stream model does, and nothing else |
| Firmware.Firmware.RecoverFromReset | modules/teensy/src/main.cpp:60-62 | a reset drops a half-assembled sample, requests the calibration in force again, and leaves link and packets alone |
| Firmware.Firmware.ReadSample | modules/teensy/src/main.cpp:64-69 | writes one IMU_DATA packet with the sample exactly if the read emits one |
| Firmware.Firmware.Loop | modules/teensy/src/main.cpp:56-74 | one pass is the step function all properties of runs are proved about |
| Firmware.WrittenIsSent | modules/teensy/src/main.cpp:56-74 | the driver reads in the bytes the firmware has written exactly the packets it sent |
| FirmwareRuns.StatusIffPeriod | modules/teensy/src/main.cpp:71-73 | while calibrating, a pass sends a status exactly if the 32-bit time since the last stamp has reached 100 ms |
| FirmwareRuns.RateLimit | modules/teensy/src/main.cpp:71-119 | any two statuses are at least 100 ms apart in true time, however often the clock wraps |
| FirmwareRuns.RunMatches | modules/teensy/src/main.cpp:56-74 | whatever telemetry is sent in between, the main loop handles commands as the stream model does |
| FirmwareRuns.CommandsAnswered | modules/teensy/src/main.cpp:56-74 | in every run the responses answer the commands decoded so far one to one and in order, and no frame that arrived is lost |
| Driver.AnswerReceived | modules/autonomy_pi/ros/autonomy_teensy/src/driver.cpp:119-133 | of all packets dispatched while an attempt waits, the first response of three bytes with its sequence number is taken |
| Driver.Settled | modules/autonomy_pi/ros/autonomy_teensy/src/driver.cpp:129 | with no promise pending responses change nothing |
| Driver.FirstAnswerIs | modules/autonomy_pi/ros/autonomy_teensy/src/driver.cpp:119-133 | the answer taken is the payload of the first packet that is a response of three bytes with the sequence number |
| Driver.Verdicts | modules/autonomy_pi/ros/autonomy_teensy/src/driver.cpp:230-245 | the verdict for each result byte |
| Driver.CommandLayout | modules/autonomy_pi/ros/autonomy_teensy/src/driver.cpp:211-215 | the bytes of a command frame: ids, command, sequence number, argument |
| Driver.VerdictIsUnique | modules/autonomy_pi/ros/autonomy_teensy/src/driver.cpp:197-251 | what happens around the attempts determines the verdict and how many attempts time out |
| Driver.Promise.SetValue | modules/autonomy_pi/ros/autonomy_teensy/src/driver.cpp:130 | a promise is only ever given a value while it has none |
| Driver.TeensyDriver.constructor | modules/autonomy_pi/ros/autonomy_teensy/include/autonomy_teensy/driver.hpp:56-60 | a new driver has no promise pending and sequence number 0 |
| Driver.TeensyDriver.OnCommandResponse | modules/autonomy_pi/ros/autonomy_teensy/src/driver.cpp:119-133 | the callback is the step the protocol takes on delivery |
| Driver.TeensyDriver.BeginAttempt | modules/autonomy_pi/ros/autonomy_teensy/src/driver.cpp:203-209 | the critical section is the step the protocol takes at the start of an attempt |
| Driver.TeensyDriver.DispatchAll | modules/autonomy_pi/ros/autonomy_teensy/src/client.cpp:118-120 | a batch of packets from the reading thread |
| Driver.TeensyDriver.Attempt | modules/autonomy_pi/ros/autonomy_teensy/src/driver.cpp:200-228 | one attempt writes one frame with the next sequence number and gets the first matching answer |
| Driver.TeensyDriver.SendCommand | modules/autonomy_pi/ros/autonomy_teensy/src/driver.cpp:197-251 | the verdict is that of the first attempt that could not be written or was answered, and a timeout if all attempts were in vain; the frames written are those of the attempts made |
| Protocol.KeepsNumbered | modules/autonomy_pi/ros/autonomy_teensy/src/driver.cpp:203-208 | every step keeps the sequence counter equal to the number of attempts modulo 256 |
| Protocol.KeepsDownlink | modules/autonomy_pi/ros/autonomy_teensy/src/driver.cpp:222-225 | every step keeps the frames under way those of the attempts, in order |
| Protocol.KeepsExecutions | modules/teensy/lib/packet/client.cpp:51-63 | every step keeps each attempt executed at most once, in order, with its own command id and never as an unknown command |
| Protocol.KeepsEffect | modules/teensy/src/main.cpp:79-101 | every step keeps the calibration state equal to the effect of the successful START and STOP commands so far |
| Protocol.KeepsUplink | modules/teensy/lib/packet/client.cpp:59-62 | every step keeps each response under way a true report of an execution |
| Protocol.KeepsPromises | modules/autonomy_pi/ros/autonomy_teensy/src/driver.cpp:129-132 | every step keeps each promise set at most once |
| Protocol.AcceptedIff | modules/autonomy_pi/ros/autonomy_teensy/src/driver.cpp:129 | in any run, a response ends the wait if and only if a promise is pending and its attempt number agrees with the current one modulo 256 |
| Protocol.ResponseAge | modules/teensy/lib/packet/client.cpp:59-62 | every response on the link belongs to an attempt that was made |
| Protocol.AcceptedForAnother | modules/autonomy_pi/ros/autonomy_teensy/src/driver.cpp:126-132 | a response is accepted for an attempt it does not belong to if and only if a promise is pending and the response is a positive multiple of 256 attempts old |
| Protocol.BoundedStep | modules/autonomy_pi/ros/autonomy_teensy/src/driver.cpp:126-132 | delivering responses fewer than 256 attempts old reuses no sequence number, and as long as there were at most 256 attempts all responses are that young |
| Protocol.KeepsSound | modules/autonomy_pi/ros/autonomy_teensy/src/driver.cpp:119-133 | every step that delivers no such response keeps all answers taken the answers to their own attempts |
| Protocol.PathKeeps | modules/autonomy_pi/ros/autonomy_teensy/src/driver.cpp:197-251 | the invariants hold in every reachable state |
| Protocol.PathSound | modules/autonomy_pi/ros/autonomy_teensy/src/driver.cpp:197-251 | in every bounded run all answers taken are the answers to their own attempts; a run is bounded if no response 256 or more attempts old is delivered, or if it has at most 256 attempts |
| Protocol.CommandCorrect | modules/autonomy_pi/ros/autonomy_teensy/src/driver.cpp:197-251 | in every bounded run a reported verdict is what the handler returned when the firmware executed exactly that attempt of exactly that command; success is reported if and only if it returned OK |
| ProtocolWitnesses.AttemptBound | modules/autonomy_pi/ros/autonomy_teensy/src/driver.cpp:126-132 | without any assumption about the links, all calls of all runs with at most n attempts end truthfully if and only if n <= 256 |
| Protocol.AtMostOnce | modules/autonomy_pi/ros/autonomy_teensy/src/driver.cpp:129-132 | in every run no promise is set twice and no attempt executed twice |
| Protocol.Barrier | modules/teensy/src/main.cpp:79-101 | once START or STOP was reported successful in a bounded run, the calibration state stays so in every later state, until the opposite command of a later attempt is executed successfully |
| Protocol.SaveVerdict | modules/teensy/src/main.cpp:87-93 | a SAVE is reported refused if and only if the firmware was not calibrating when it executed it |
| ProtocolWitnesses.CommandReturns | modules/autonomy_pi/ros/autonomy_teensy/src/driver.cpp:230-233 | for every command and every way the sensor may answer there is a run in which the call ends with what its handler says |
| ProtocolWitnesses.StaleAnswer | modules/autonomy_pi/ros/autonomy_teensy/src/driver.cpp:126-132 | a run of 257 attempts in which the response to a START is reported as the success of a STOP that never reached the firmware |
| LosslessCalls.StageStep | modules/autonomy_pi/ros/autonomy_teensy/src/driver.cpp:197-251 | every step of a lossless run moves its call on by at most one stage |
| LosslessCalls.CallCompletes | modules/autonomy_pi/ros/autonomy_teensy/src/driver.cpp:197-251 | every run from a quiet idle state with one call, no loss, no timeout and no failed write, that ends idle, executes the command once and returns the handler's result, whatever resets, telemetry and delays it contains; the result is OK exactly if the sensor accepted what the command needed in the calibration state at the call |
| LosslessCalls.HealthyCallSucceeds | modules/autonomy_pi/ros/autonomy_teensy/src/driver.cpp:197-251 | with a sensor that accepts its configuration such a START or STOP always returns OK |
| ProtocolFirmware.PassIsPath | modules/teensy/src/main.cpp:56-74 | one pass of the main loop, if the command it decodes is the next frame on the link, is a run of the protocol's firmware steps with the same calibration state, and puts exactly the packets it sends on the link |
| TeensyStream.PollByRun | modules/teensy/lib/packet/client.cpp:37-49 | a poll keeps all bytes if there is no delimiter among them, and takes a frame that fits off with its delimiter |
| ProtocolFirmware.PollFront | modules/teensy/lib/packet/client.cpp:37-49 | if the bytes that arrived are the beginning of the wire form of packets, a poll takes exactly the first packet once it is complete |
| ProtocolFirmware.LinkedReads | modules/teensy/lib/packet/client.cpp:37-49 | the command that the main loop decodes next is the next frame under way, however the bytes are chunked |
| ProtocolFirmware.JointIsPath | modules/teensy/src/main.cpp:56-74 | every run of driver, links and main loop together, with the frames under way as bytes that arrive in any chunks and frames lost as a whole, is a run of the protocol |
| ProtocolFirmware.FirmwareCommandCorrect | modules/teensy/src/main.cpp:56-101 | in every bounded such run from power-on the verdicts reported are the answers of the handlers the main loop ran |
| ProtocolFirmware.FirmwareBarrier | modules/teensy/src/main.cpp:56-101 | the barrier holds of the main loop in every such run from power-on |
| ProtocolCalls.FirstAnswerAppend | modules/autonomy_pi/ros/autonomy_teensy/src/driver.cpp:129-132 | the first matching response stays the one taken, whatever is dispatched later |
| ProtocolCalls.KeepsTracks | modules/autonomy_pi/ros/autonomy_teensy/src/driver.cpp:197-251 | every step of the protocol keeps the record of the current call true: earlier attempts went unanswered, and the promise holds the first matching response of the current one |
| ProtocolCalls.ExplainsMore | modules/autonomy_pi/ros/autonomy_teensy/src/driver.cpp:197-251 | what would have happened after the settling attempt does not change the verdict |
| ProtocolCalls.CallIsSendCommand | modules/autonomy_pi/ros/autonomy_teensy/src/driver.cpp:197-251 | in every run a call ends with the only verdict that the method SendCommand can return for surroundings that begin with what happened around its attempts, and with the frames that method writes |
| ProtocolCalls.FramesReachLink | modules/autonomy_pi/ros/autonomy_teensy/src/driver.cpp:222 | a frame written is the one put on the link |
| Base.PlusWraps | modules/autonomy_pi/ros/autonomy_teensy/src/driver.cpp:205 | n increments of the sequence counter add n modulo 256 |
| Base.CounterReuse | modules/autonomy_pi/ros/autonomy_teensy/src/driver.cpp:205 | the sequence counter shows the same byte twice if and only if the numbers of increments agree modulo 256 |

## Left out

- Serial port, poll, threads, I2C and the SparkFun library: their results are inputs of the methods (chunks and failures read, sensor events, success flags); the SH2 constants library is not part of this model, and the calibration bits are accelerometer 1, gyroscope 2, magnetometer 4, as the driver decodes them (`driver.cpp:110-112`).
- Behaviour across `on_cleanup` and across a restart of the firmware.
- Undetected checksum collisions in the protocol model; `CrcErrors` says exactly when they occur.
- Failed or partial serial writes of the firmware, which ignores them; on the driver's side a failed write may or may not have delivered the frame (`Protocol.Send`).
- The driver's `connected_` flag never becomes true again after a failure: the protocol model lets later writes succeed, which adds runs.
- The report periods that `calibrate` and `set_reports` request from the sensor; the model has only whether the requests succeed.
- Floating point: values are 32-bit words that are only copied; `normalize_quat` is applied before an event enters the model.
- ROS publishers, messages, covariances, parameters and launch files; of the IMU_DATA and CAL_STATUS callbacks only what they read is modelled.
- `BNO085::begin`, its retries, `error_loop` and the text printed on the debug port.
- Overflow of `size_t` in the capacity arithmetic of the COBS encoder, which needs buffers close to the whole address space.
- Progress under timing: the model says which steps can happen, not when a timeout expires.
- Values `SendCommand` reports for failures of `encode_packet`: a three-byte payload cannot fail.
- Packets.CorruptionRejected: covers changes of data bytes, not of COBS code bytes, as does `Corruption`; a changed code byte shifts block boundaries, and whether the checksum then notices depends on the data.
- TeensyCobs.EncodeCobs: does not say what the buffer holds between the bytes it reports as written and the stated size.
- TeensyClient.Client.PollCommand: bytes that arrive while the loop runs are modelled as having arrived before it.
- ProtocolWitnesses.CommandReturns: is a possibility; what holds of all loss-free runs is `LosslessCalls.CallCompletes`. How long a call takes is not modelled.
- GyroRuns.GyroAge: leaves out readings of 100 ms and more with a reset or a whole wrap of the clock since; their exact conditions are `GyroRuns.OldReadingShown` and `GyroRuns.FreshReadingSuppressed`.
- Imu.BNO085.Configure: does not wait; the 100 ms it takes are the condition `GyroRuns.Delayed` on the times of a run.
- ProtocolFirmware.JointIsPath: has the frames to the firmware as bytes; the packets to the driver are packets there, and `Firmware.WrittenIsSent` says that the bytes written are read as those packets.
- TeensyPacket.FillFrame, PiPacket.FindDelimiter, Driver.TeensyDriver.Attempt, Driver.TeensyDriver.DispatchAll, Firmware.Firmware.RegisterHandlers, Firmware.Firmware.PollClient, Firmware.Firmware.RecoverFromReset and Firmware.Firmware.ReadSample are parts of one source function each, split off to keep the proofs small.
