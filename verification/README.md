# ESC telemetry engine — a Dafny model

This project models the ESC (electronic speed controller) telemetry engine of
the Rotorflight flight controller, `src/main/sensors/esc_sensor.c`, together
with the integer RPM-source logic of `src/main/flight/motors.c`. It proves
properties of the model in Dafny.

The driver supports two vendor wire formats:

- **KISS.** The flight controller asks one motor's ESC at a time for
  telemetry. The ESC answers with a 10-byte frame: temperature, then
  big-endian voltage, current, consumption and RPM, then a CRC-8 (polynomial
  0x07, initial value 0, no final XOR). A two-state polling machine
  (Startup/Pending) waits 5000 ms for the ESCs to boot. It then polls the
  motors round-robin, with a 100 ms timeout per request. When a frame is
  missing or corrupt, it ages that motor's record and moves on.
- **Hobbywing V4.** The ESC streams continuously. A byte-at-a-time
  synchroniser looks for the sync byte 0x9B and collects a 19-byte packet. It
  skips the 11 bytes that follow a 0x9B 0x9B signature. A packet must pass a
  seven-check plausibility filter, which stands in for the missing checksum.
  It is then decoded into record 0, and a stale current reading is forced to
  zero. The synchroniser recovers after noise that contains no sync byte. It
  does not recover after a packet cut short. If 2 to 18 bytes of the packet
  arrived, the first bytes of the next packet complete the truncated one,
  and the spliced 19 bytes are delivered in place of the next packet
  (`Hw4Stream.TruncatedPacketCorruptsNext`). If only the sync byte arrived,
  it pairs with the next packet's sync byte as a 0x9B 0x9B signature, and the
  next packet is skipped and delivers nothing (`Hw4Stream.LoneSyncSwallowsNext`).
  After either, synchronisation picks up again at the next 0x9B byte.

Both paths write per-motor `escSensorData_t` records. Each record carries a
saturating `dataAge`. A combined record (maximum age and temperature,
averaged voltage and RPM, summed current and consumption) is recomputed
lazily behind a dirty flag. The RPM-source layer chooses, per motor, a
frequency sensor, DShot telemetry or the ESC sensor, in that order of
preference. It clamps the pole-pair divisor to [1, 100] and scales eRPM to
RPM with C's truncating division.

The driver's static variables form one immutable `Store.EscState` value. Two
are outside it: the Hobbywing consumption integral (`totalConsumption` and
`consumptionUpdateUs`, esc_sensor.c:405-407), which is left out, and the
serial port handle `escSensorPort` (104), which is the `portOpen` parameter.
Each C routine is a pure function from state to state. Configuration
lookups, feature flags, the motor count, the clock and the serial receive
buffer are all parameters.

Modules, one file each:

| file | module | contents |
|---|---|---|
| common.dfy | `Common` | C integer widths, `uint32` wrap-around, big-endian fields, C truncating division, `constrain`, residue lemmas |
| crc.dfy | `Crc` | CRC-8 register, `updateCrc8`, `calculateCrc8`, error-detection lemmas |
| frame_capture.dfy | `FrameCapture` | the KISS capture buffer and its receive callback |
| hw4_stream.dfy | `Hw4Stream` | the Hobbywing synchroniser and its behaviour over byte streams |
| store.dfy | `Store` | the records, the driver state, data ageing, the combined record |
| kiss.dfy | `Kiss` | frame decode, motor selection, the polling machine |
| hobbywing.dfy | `Hobbywing` | plausibility filter, packet decode, the drain loop and the age gate |
| esc_sensor.dfy | `EscSensor` | the public read, the dispatcher, the KISS machine over event sequences |
| motors.dfy | `Motors` | RPM source selection, divisor, eRPM reading and scaling |

## Model

| member | source | states |
|---|---|---|
| Common.Inc32 | src/main/sensors/esc_sensor.c:360 | a `uint32_t` counter increment advances by exactly one modulo 2^32, and is the plain successor unless it wraps to 0 |
| Common.BigEndian16 | src/main/sensors/esc_sensor.c:280-283 | the shifted-and-or'ed byte pair has the first byte as its high byte and the second as its low byte |
| Common.BigEndian24 | src/main/sensors/esc_sensor.c:492 | the 24-bit RPM field is below 2^24, its upper 16 bits are the big-endian pair of the first two bytes, and its low byte is the third |
| Common.Max | src/main/sensors/esc_sensor.c:161-162 | `MAX` is an upper bound of both arguments and equals one of them |
| Common.CDiv | src/main/flight/motors.c:86 | C's `/` truncates toward zero: the quotient brackets the dividend from below for non-negative and from above for negative dividends |
| Common.CDivNegate | src/main/flight/motors.c:86 | truncating division is odd in the dividend, unlike Euclidean division |
| Common.CDivShrinks | src/main/flight/motors.c:86 | truncating division by a positive divisor keeps the sign and never grows the magnitude |
| Common.Constrain | src/main/flight/motors.c:158 | `constrain` returns a value in [low, high], the argument itself when it is in range, and the nearer bound otherwise |
| Crc.UpdateCrc8 | src/main/sensors/esc_sensor.c:245-255 | one byte folded into the register gives zero exactly when the byte equals the register |
| Crc.ShiftNInjective | src/main/sensors/esc_sensor.c:250-252 | the eight feedback shifts never map two registers to the same value |
| Crc.CalculateCrc8 | src/main/sensors/esc_sensor.c:257-265 | the loop over the first `BufLen` bytes computes the reference CRC-8 of that prefix |
| Crc.AppendCrcGivesZero | src/main/sensors/esc_sensor.c:257-265 | a message followed by its own CRC has CRC zero |
| Crc.UpdateDistinctBytes | src/main/sensors/esc_sensor.c:245-255 | for a fixed register, different bytes give different registers |
| Crc.UpdateDistinctRegisters | src/main/sensors/esc_sensor.c:245-255 | for a fixed byte, different registers stay different |
| Crc.Crc8DetectsSingleByteChange | src/main/sensors/esc_sensor.c:257-265 | two equal-length messages that differ in exactly one byte (any single bit flip, say) have different CRCs |
| Crc.Crc8CheckValue | src/main/sensors/esc_sensor.c:245-265 | the CRC is the catalogued CRC-8/SMBUS (polynomial 0x07, initial value 0): the digits "123456789" give its check value 0xF4 |
| FrameCapture.StartEscDataRead | src/main/sensors/esc_sensor.c:119-124 | arming resets the cursor to 0 with the requested length, and the frame counts as complete at once only for length 0 |
| FrameCapture.EscSensorDataReceive | src/main/sensors/esc_sensor.c:192-199 | a byte is stored at the cursor and the cursor advances only while it is below the size; the cursor never passes the size; a complete frame is left unchanged |
| FrameCapture.ReceiveAll | src/main/sensors/esc_sensor.c:192-199 | any number of received bytes keeps the cursor within the size |
| FrameCapture.CaptureStoresPrefix | src/main/sensors/esc_sensor.c:119-124 | after arming, received bytes fill the buffer in arrival order; extra bytes are dropped, the rest of the buffer is untouched, and completion (`isFrameComplete`, 187-190) holds exactly when enough bytes arrived |
| FrameCapture.FillFrom | src/main/sensors/esc_sensor.c:192-199 | from any cursor position, the bytes that fit are stored in order after the cursor and nothing else changes |
| Hw4Stream.InitialCursor | src/main/sensors/esc_sensor.c:400-402 | the synchroniser starts between packets and not skipping |
| Hw4Stream.ProcessHw4TelemetryStream | src/main/sensors/esc_sensor.c:448-473 | `bytesRead` stays below 19, and the result is true exactly when the 19th byte of a packet is stored |
| Hw4Stream.SyncStepBranches | src/main/sensors/esc_sensor.c:448-473 | while skipping a byte only decrements `skipBytes`; between packets a non-sync byte is dropped; a sync byte right after the first one sets `skipBytes` to 11; a sync byte between packets, or any other byte of a packet under way, is appended to the partial packet, which grows by one; a ready packet is the stored 18 bytes plus this one, and the cursor restarts |
| Hw4Stream.SyncAll | src/main/sensors/esc_sensor.c:484-485 | feeding the synchroniser any byte stream keeps its cursor well formed |
| Hw4Stream.StepDeliversStreamTail | src/main/sensors/esc_sensor.c:463-469 | the partial packet is always the tail of the stream so far, so a delivered packet is the last 19 bytes received |
| Hw4Stream.SyncAllStaysConsistent | src/main/sensors/esc_sensor.c:448-473 | over any stream, the partial packet stays the tail of everything consumed |
| Hw4Stream.SyncAllDeliversInfixes | src/main/sensors/esc_sensor.c:448-473 | every delivered packet has 19 bytes, starts with 0x9B, and occurs as consecutive bytes of the stream |
| Hw4Stream.SyncAllAppend | src/main/sensors/esc_sensor.c:484-485 | consuming a stream in two pieces gives the same cursor and the same packets as consuming it whole |
| Hw4Stream.NoiseIsDropped | src/main/sensors/esc_sensor.c:454-457 | between packets, any run of bytes free of 0x9B changes nothing and delivers nothing |
| Hw4Stream.PartialPacketCompletes | src/main/sensors/esc_sensor.c:463-469 | a packet under way is completed by its remaining bytes and delivered whole |
| Hw4Stream.PacketFromIdle | src/main/sensors/esc_sensor.c:454-469 | from between packets, a packet that starts with 0x9B and is not a signature is delivered intact |
| Hw4Stream.Resynchronises | src/main/sensors/esc_sensor.c:448-473 | after noise without a sync byte, a following well-formed packet is delivered intact and the cursor is again between packets; noise that starts a packet is not covered (see the next rows) |
| Hw4Stream.ShortRunDeliversNothing | src/main/sensors/esc_sensor.c:463-469 | fewer bytes than the partial packet still lacks never deliver a packet |
| Hw4Stream.TruncatedPacketCorruptsNext | src/main/sensors/esc_sensor.c:454-469 | a packet cut off after 2 to 18 bytes and followed by a whole packet delivers exactly one packet, the stray bytes spliced to the whole packet's first bytes up to 19, which equal the whole packet only by coincidence |
| Hw4Stream.LoneSyncSwallowsNext | src/main/sensors/esc_sensor.c:454-462 | a lone sync byte followed by a whole packet delivers nothing: the two sync bytes read as a signature and the packet is skipped |
| Hw4Stream.SkipCountsDown | src/main/sensors/esc_sensor.c:450-453 | while skipping, exactly `skipBytes` bytes are swallowed, sync bytes included, and nothing is delivered |
| Hw4Stream.SignatureSkipped | src/main/sensors/esc_sensor.c:458-462 | two sync bytes and the 11 bytes after them deliver nothing and leave the cursor between packets |
| Store.InitialState | src/main/sensors/esc_sensor.c:201-224 | after initialisation the driver is in Startup at motor 0 with nothing requested and a dirty combined record (106-116); every record's age is the invalid sentinel when a port is configured (222-224), and every record is all zeros, age 0 included, when `escSensorInit` returned early without one (205-207) |
| Store.IncreaseDataAge | src/main/sensors/esc_sensor.c:298-305 | only the current motor's age moves, by one, and only while it is below the sentinel; the dirty flag is set exactly when the age moved; ages stay bounded; nothing else changes |
| Store.GetEscSensorRpm | src/main/sensors/esc_sensor.c:136-139 | the accessor returns the stored RPM reduced to `uint16_t`, which is the RPM itself when it fits |
| Store.SumSnoc | src/main/sensors/esc_sensor.c:164-167 | adding one more record to the combining loop adds its field to the sum |
| Store.AccumulateAll | src/main/sensors/esc_sensor.c:152-168 | the combining loop from all zeros yields the maximum age and the maximum temperature (never below 0, attained by some record unless 0) and the sums of the other four fields |
| Store.Combine | src/main/sensors/esc_sensor.c:152-173 | the combined record has the maximum age and temperature, voltage and RPM averaged with C division, and current and consumption summed |
| Kiss.DecodeEscFrame | src/main/sensors/esc_sensor.c:267-296 | an incomplete frame is PENDING with nothing changed; a frame whose byte 9 is the CRC-8 of bytes 0..8 is COMPLETE and stores temperature and the four big-endian fields for the polled motor with age 0, sets the dirty flag and leaves the other records alone; any other frame FAILS with nothing changed |
| Kiss.SelectNextMotor | src/main/sensors/esc_sensor.c:307-313 | from a motor in range the next motor is in range |
| Kiss.SelectNextMotorInRange | src/main/sensors/esc_sensor.c:307-313 | the `uint8_t` increment with reset at the motor count is the successor modulo the motor count |
| Kiss.SetRequest | src/main/sensors/esc_sensor.c:315-324 | capture is re-armed for a whole frame, the current motor is asked for telemetry, the machine is Pending with the given timestamp, and records and counters are untouched |
| Kiss.AgeAndAdvance | src/main/sensors/esc_sensor.c:355-360 | the recovery ages only the current motor, moves to the next motor modulo the motor count, re-requests, and keeps the dirty flag honest |
| Kiss.KissSensorProcess | src/main/sensors/esc_sensor.c:326-364 | a tick keeps the machine well formed, never touches the Hobbywing cursor or the stored combined record, and any record change sets the dirty flag |
| Kiss.ZeroMotorsOverrun | src/main/sensors/esc_sensor.c:307-313 | with a motor count of 0 the index never resets: after k advances from motor 0 (k < 256) it is k, so it runs past the last record |
| Kiss.KissSensorProcessGuarded | src/main/sensors/esc_sensor.c:547-556 | the KISS tick guarded for zero motors keeps the polled index within the records for every motor count: with no motors it changes nothing, otherwise it is the ordinary tick |
| Kiss.KissTickBeforeBoot | src/main/sensors/esc_sensor.c:331-336 | before 5000 ms a Startup tick changes nothing and issues no request |
| Kiss.KissTickAfterBoot | src/main/sensors/esc_sensor.c:331-336 | from 5000 ms a Startup tick requests the current motor and goes Pending, with records and counters untouched |
| Kiss.KissTickTimeout | src/main/sensors/esc_sensor.c:355-361 | 100 ms after a request the motor is aged, the next one requested, and the timeout counter goes up by exactly one |
| Kiss.KissTickFramePending | src/main/sensors/esc_sensor.c:352-353 | within the window, a frame still arriving leaves the entire state unchanged |
| Kiss.KissTickFrameFailed | src/main/sensors/esc_sensor.c:346-351 | within the window, a bad frame ages the motor, requests the next one, and adds exactly one CRC error |
| Kiss.KissTickFrameComplete | src/main/sensors/esc_sensor.c:342-345 | within the window, a good frame is stored with age 0, the next motor is requested, and no counter changes |
| Kiss.EncodeFrame | src/main/sensors/esc_sensor.c:230-243 | the frame an ESC sends, nine payload bytes and their CRC, passes the CRC check |
| Kiss.DecodeEncodedFrame | src/main/sensors/esc_sensor.c:274-283 | round trip: an encoded frame decodes as COMPLETE to readings from which every payload byte is recovered |
| Kiss.CorruptedFrameFails | src/main/sensors/esc_sensor.c:274-292 | a valid frame with one of bytes 0..8 corrupted, such as a single flipped bit, FAILS and changes nothing |
| Kiss.DecodeSampleFrame | src/main/sensors/esc_sensor.c:230-243 | the frame 50, 0x0096, 0x0032, 0x000A, 0x012C with its CRC decodes to temperature 50, voltage 150, current 50, consumption 10, RPM 300, age 0 |
| Hobbywing.PlausibleMeansInRange | src/main/sensors/esc_sensor.c:486-492 | the seven high-byte checks accept exactly the packets whose throttle and PWM are below 1024, raw RPM below 2^18, and ADC codes below 0xF00 |
| Hobbywing.CalcCurrent | src/main/sensors/esc_sensor.c:438-446 | at or below the configured offset the current is 0, above it the calibrated value of the excess |
| Hobbywing.HandlePacket | src/main/sensors/esc_sensor.c:486-527 | an accepted packet sets record 0 to age 0, RPM to raw/100 (below 2622), temperature and voltage from calibration, current 0 when raw RPM < 100 or throttle < 50 and calibrated otherwise, keeps consumption, and stamps the update time; a rejected packet only increments the CRC error counter |
| Hobbywing.Hw4Byte | src/main/sensors/esc_sensor.c:485-528 | one drain-loop iteration keeps the state well formed |
| Hobbywing.Hw4Bytes | src/main/sensors/esc_sensor.c:484-529 | the drain loop keeps the state well formed |
| Hobbywing.ApplyPackets | src/main/sensors/esc_sensor.c:486-527 | handling packets never moves the synchroniser cursor or changes the number of records |
| Hobbywing.DrainIsSyncThenDecode | src/main/sensors/esc_sensor.c:484-529 | the interleaved drain loop equals running the synchroniser over all bytes and then handling the delivered packets in order |
| Hobbywing.AcceptedPacketRefreshes | src/main/sensors/esc_sensor.c:498-523 | if any packet in a batch is accepted, record 0 ends with age 0 and the update time is now |
| Hobbywing.FreshStaysFresh | src/main/sensors/esc_sensor.c:525-527 | later rejected packets never age record 0 |
| Hobbywing.PacketsKeepPollState | src/main/sensors/esc_sensor.c:486-527 | handling Hobbywing packets never touches the KISS polling state or the combined record and its flag |
| Hobbywing.Hw4SensorProcess | src/main/sensors/esc_sensor.c:475-529 | a Hobbywing tick leaves the cursor where the synchroniser puts it and never touches the KISS polling state |
| Hobbywing.Hw4SilentTick | src/main/sensors/esc_sensor.c:477-481 | with no packet delivered, a tick more than 250 ms after the last update ages the current record and restarts the window, and otherwise leaves the records alone |
| Hobbywing.Hw4DeliversAfterNoise | src/main/sensors/esc_sensor.c:475-529 | noise followed by a plausible packet leaves exactly that packet's decoded values in record 0 and the cursor between packets |
| EscSensor.GetEscSensorData | src/main/sensors/esc_sensor.c:141-185 | with the feature off the read is NULL; on Hobbywing it is record 0; on KISS a motor index below the count gives its record, the combined index gives the combined record (recomputed and cleaned when dirty and the count is positive, untouched otherwise), and any other index NULL; nothing but the combined record and flag changes |
| EscSensor.ReadTwiceStable | src/main/sensors/esc_sensor.c:152-182 | a second identical read returns the same record and changes nothing |
| EscSensor.ReadCombinedUnderInv | src/main/sensors/esc_sensor.c:150-185 | under the driver invariant the combined read returns the true combination of the motors' records and keeps the invariant |
| EscSensor.EscSensorProcess | src/main/sensors/esc_sensor.c:545-557 | nothing happens while the port is closed, the motors are disabled or the protocol is neither KISS nor Hobbywing; otherwise exactly the configured routine runs (the KISS tick, guarded for zero motors, or the Hobbywing tick); the KISS routine never touches the Hobbywing state, and the Hobbywing routine never touches the polling machine |
| EscSensor.KissStep | src/main/sensors/esc_sensor.c:192-199 | a received byte or a tick keeps the KISS state well formed |
| EscSensor.KissRun | src/main/sensors/esc_sensor.c:326-364 | any interleaving of received bytes and ticks keeps the KISS state well formed |
| EscSensor.InitialKissInv | src/main/sensors/esc_sensor.c:106-116 | the starting state satisfies the invariant, with or without a configured port |
| EscSensor.UnconfiguredReadLooksFresh | src/main/sensors/esc_sensor.c:141-182 | with no port configured but the feature on, a KISS motor read or the Hobbywing read returns an all-zero record with age 0, not an invalid one |
| EscSensor.AppendKeepsRoundRobin | src/main/sensors/esc_sensor.c:343-344 | requesting the motor after the last one keeps the request log round-robin |
| EscSensor.AdvanceKeepsInv | src/main/sensors/esc_sensor.c:343-359 | moving on to the next motor keeps the invariant |
| EscSensor.DecodeKeepsAgesBounded | src/main/sensors/esc_sensor.c:277-285 | a stored frame keeps every age within the sentinel |
| EscSensor.StartupTickKeepsInv | src/main/sensors/esc_sensor.c:331-336 | a Startup tick keeps the invariant and only extends the request log |
| EscSensor.TimeoutTickKeepsInv | src/main/sensors/esc_sensor.c:355-361 | a timeout tick keeps the invariant and only extends the request log |
| EscSensor.GoodFrameTickKeepsInv | src/main/sensors/esc_sensor.c:342-345 | a good-frame tick keeps the invariant and only extends the request log |
| EscSensor.BadFrameTickKeepsInv | src/main/sensors/esc_sensor.c:346-351 | a bad-frame tick keeps the invariant and only extends the request log |
| EscSensor.KissStepKeepsInv | src/main/sensors/esc_sensor.c:326-364 | every received byte and every tick keeps the invariant: requests go round-robin, the polled motor is the last one asked, Startup holds exactly until the first request, ages stay within the sentinel, and a clean combined record is the true combination |
| EscSensor.KissRunKeepsInv | src/main/sensors/esc_sensor.c:326-364 | the invariant holds after any sequence of events, and the request log only grows |
| EscSensor.EachMotorOncePerWindow | src/main/sensors/esc_sensor.c:307-313 | any motor-count consecutive requests ask every motor, each exactly once |
| EscSensor.RequestsFollowSelectNextMotor | src/main/sensors/esc_sensor.c:307-313 | each request goes to the motor `selectNextMotor` picks after the previous one: increasing order with wrap-around |
| EscSensor.NoRequestBeforeBoot | src/main/sensors/esc_sensor.c:331-336 | while every tick is before 5000 ms, whatever bytes arrive, no request is issued and no record changes |
| Motors.SelectSource | src/main/flight/motors.c:141-156 | each motor gets the most preferred source on offer (frequency sensor, then DShot telemetry, then ESC sensor), and NONE exactly when none is on offer |
| Motors.RpmDivisor | src/main/flight/motors.c:158 | the divisor is the pole-pair count clamped to [1, 100]: 1 below two poles, 100 above 201 |
| Motors.RpmSourceInit | src/main/flight/motors.c:138-163 | every slot gets a source on offer that no other offered source outranks, and a divisor in [1, 100] equal to the clamped pole pairs |
| Motors.IsRpmSourceActive | src/main/flight/motors.c:75-82 | true exactly when every motor below the count has a source other than NONE, so true with no motors |
| Motors.ActiveAfterInit | src/main/flight/motors.c:75-82 | after initialisation, the source is active exactly when every motor in use has some sensor on offer |
| Motors.GetMotorErpm | src/main/flight/motors.c:115-136 | the reading of exactly the selected source, 0 for NONE, and for the ESC sensor the 16-bit `getEscSensorRPM` value |
| Motors.CalcMotorRpm | src/main/flight/motors.c:84-87 | `100 * erpm / div` truncated toward zero: the RPM brackets 100·erpm/div from the side of zero and keeps its sign |
| Motors.CalcMotorRpmOdd | src/main/flight/motors.c:84-87 | negating the eRPM negates the RPM exactly |
| Motors.EscReadingScales | src/main/flight/motors.c:84-87 | an ESC sensor reading never overflows `100 * erpm`, and its RPM is between 0 and 100·erpm |

## Left out

- Serial port setup in `escSensorInit` (esc_sensor.c:201-227), `serialRxBytesWaiting` and `serialRead`. The one effect of initialisation the model keeps is whether the age loop at 222-224 runs, which is the `portConfigured` parameter of `Store.InitialState`. The bytes waiting in the Hobbywing receive buffer are a `seq<byte>` parameter. KISS bytes arrive as `RxByte` events.
- The DMA `requestTelemetry` flag write (esc_sensor.c:318) is not a hardware effect here. Each write is appended to the `requests` log in the state, which is what the round-robin lemmas talk about.
- The floating-point conversions `calcTempHW` and `calcVoltHW`, the float part of `calcCurrHW`, and the `lrintf` rounding (esc_sensor.c:409-446, 493-501) are opaque functions in `Hw4Calibration`. Only the integer offset test of `calcCurrHW` and the zero-current rule are modelled.
- HandlePacket: the Hobbywing consumption integral (esc_sensor.c:537-542) is left out, because it is float arithmetic over wall-clock time. The model keeps record 0's consumption as it was, while the driver overwrites it on every tick.
- Hw4SensorProcess: does not model the consumption update at its end, for the same reason.
- The packet counter (bytes 1-3, esc_sensor.c:489) is not decoded. PWM and BEC temperature are decoded (`Hobbywing.Pwm`, `Hobbywing.RawTempBec`), but the driver only logs them, so nothing stores them.
- The biquad filter and the float RPM paths of motors.c (89-112, 160-171), including `rpmSourceUpdate`.
- Interleaving of the receive interrupt with the tick. Each received byte and each tick is an atomic step (`KissEvent`).
- All `DEBUG`/`DEBUG_SET` calls.
- `featureIsEnabled`, `escSensorConfig()`, `motorConfig()`, `getMotorCount()`, `motorIsEnabled()`, `isEscSensorActive()` and the source-availability queries of `rpmSourceInit` are parameters (`EscConfig`, `Availability`, `motorCount`, `portOpen`, `motorsEnabled`).
- `getNumberEscBytesRead` (esc_sensor.c:126-129) is the capture cursor, `FrameBuffer.position`. `isEscSensorActive` (131-134) is the `portOpen` parameter.
- Time wrap-around: times are unbounded naturals, so the 32-bit `cmp32` and `escTriggerTimestamp + ESC_REQUEST_TIMEOUT` wrap-around (esc_sensor.c:339, 478) is simplified away.
- esc_sensor.h is not part of this model. `ESC_DATA_INVALID` and `ESC_SENSOR_COMBINED` are taken as 255. The fields of `escSensorData_t` are unbounded integers, so the model does not reproduce any truncation of their stored widths or overflow of the combining sums.
- `MAX_SUPPORTED_MOTORS` is the length of the record and source sequences. The model assumes every `USE_FREQ_SENSOR`, `USE_DSHOT_TELEMETRY` and `USE_ESC_SENSOR` build option is enabled.
- CalcMotorRpm: requires that `100 * erpm` fits in a 32-bit `int`, because signed overflow is undefined behaviour in C.
- Kiss.KissSensorProcess: requires at least one motor (`KissWellFormed` puts the polled motor below the motor count). The zero-motor case is the finding below; the dispatcher runs `Kiss.KissSensorProcessGuarded` instead.
- Kiss.AgeAndAdvance: requires at least one motor, for the same reason.
- EscSensor.EscSensorProcess: with a motor count of 0 the KISS branch runs the guarded tick, which changes nothing; this is the corrected behaviour of the finding below, whereas esc_sensor.c:551-552 runs `kissSensorProcess` unguarded.
- EscSensor.KissStep, EscSensor.KissRun and the `KissInv` lemmas: describe the polling machine with at least one motor, since round-robin order over zero motors means nothing.

## Findings

| source | as written | input that shows it | evidently intended | confidence | as-written member | corrected member |
|---|---|---|---|---|---|---|
| src/main/sensors/esc_sensor.c:307-313 | `selectNextMotor` resets the index only when the incremented value equals `getMotorCount()`, and `escSensorProcess` (547-556) runs the KISS tick without checking the count | motor count 0, KISS selected, port open and motors enabled: after boot each timeout moves `escSensorMotor` to 1, 2, … past the last record, and `increaseDataAge` and `setRequest` index past `escSensorData` and the DMA outputs | no polling with zero motors, as `getEscSensorData` already declines to combine zero motors (152) | low, not executed; whether `motorIsEnabled()` can hold with zero motors is decided outside this model | Kiss.ZeroMotorsOverrun | Kiss.KissSensorProcessGuarded |
