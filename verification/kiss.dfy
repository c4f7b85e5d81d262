/** KISS telemetry: a 10-byte frame per request, checked by CRC-8, polled
    round-robin across the motors by a two-state machine with a boot delay
    and a request timeout. */
module Kiss {
  import opened Common
  import opened Crc
  import opened FrameCapture
  import opened Store

  /** `ESC_BOOTTIME`: no request before the ESCs have had 5 s to boot. */
  const EscBootTimeMs: nat := 5000
  /** `ESC_REQUEST_TIMEOUT`. */
  const EscRequestTimeoutMs: nat := 100

  datatype FrameState = FramePending | FrameComplete | FrameFailed

  /** Byte 9 of a frame is the CRC-8 of bytes 0..8. */
  predicate FrameCrcValid(f: seq<byte>)
    requires |f| >= TelemetryFrameSize as int
  {
    Crc8(f[..9]) == f[9]
  }

  /** Result of `decodeEscFrame()`. */
  datatype Decoded = Decoded(frameState: FrameState, next: EscState)

  /** `decodeEscFrame()`: a frame not yet complete is pending and changes
      nothing; a complete frame with a matching CRC stores temperature and
      the four big-endian 16-bit fields for the polled motor with age 0 and
      marks the combined record due; any other complete frame fails and
      changes nothing. */
  function DecodeEscFrame(s: EscState): (r: Decoded)
    requires s.motor < |s.records|
    requires |s.capture.data| == TelemetryFrameSize as int
    ensures !s.capture.IsComplete() ==> r == Decoded(FramePending, s)
    ensures s.capture.IsComplete() && !FrameCrcValid(s.capture.data) ==> r == Decoded(FrameFailed, s)
    ensures s.capture.IsComplete() && FrameCrcValid(s.capture.data) ==>
              var f := s.capture.data;
              && r.frameState == FrameComplete
              && r.next == s.(records := r.next.records, combinedDirty := true)
              && |r.next.records| == |s.records|
              && r.next.records[s.motor] == EscSensorData(
                   0,
                   f[0] as int,
                   f[1] as int * 256 + f[2] as int,
                   f[3] as int * 256 + f[4] as int,
                   f[5] as int * 256 + f[6] as int,
                   f[7] as int * 256 + f[8] as int)
              && forall i :: 0 <= i < |s.records| && i != s.motor as int ==>
                   r.next.records[i] == s.records[i]
  {
    if !s.capture.IsComplete() then
      Decoded(FramePending, s)
    else
      var f := s.capture.data;
      if Crc8(f[..TelemetryFrameSize - 1]) == f[TelemetryFrameSize - 1] then
        var d := EscSensorData(
          0,
          f[0] as int,
          BigEndian16(f[1], f[2]),
          BigEndian16(f[3], f[4]),
          BigEndian16(f[5], f[6]),
          BigEndian16(f[7], f[8]));
        Decoded(FrameComplete, s.(records := s.records[s.motor := d], combinedDirty := true))
      else
        Decoded(FrameFailed, s)
  }

  /** `selectNextMotor()`: `escSensorMotor++` on a `uint8_t`, back to 0 on
      reaching the motor count. Within range this is the successor modulo
      the motor count. */
  function SelectNextMotor(motor: uint8, motorCount: uint8): (r: uint8)
    ensures motor < motorCount ==> r < motorCount
  {
    var m := (motor + 1) % 0x100;
    if m == motorCount then 0 else m
  }

  /** The range facts behind `SelectNextMotor`'s contract. */
  lemma SelectNextMotorInRange(motor: uint8, motorCount: uint8)
    requires motor < motorCount
    ensures SelectNextMotor(motor, motorCount) == (motor + 1) % motorCount
  {
    SuccessorMod(motor, 0x100);
    SuccessorMod(motor, motorCount);
  }

  /** A new request cycle for motor `r.motor` started at `nowMs`: capture
      re-armed for a whole frame, the motor's ESC asked for telemetry, the
      machine waiting. */
  predicate Reissued(s: EscState, r: EscState, nowMs: nat)
  {
    && r.trigger == Pending
    && r.triggerTimestamp == nowMs
    && r.capture == FrameBuffer(s.capture.data, TelemetryFrameSize, 0)
    && r.requests == s.requests + [r.motor]
  }

  /** `setRequest(currentTimeMs)`. */
  function SetRequest(s: EscState, nowMs: nat): (r: EscState)
    requires |s.capture.data| == TelemetryFrameSize as int
    ensures Reissued(s, r, nowMs) && r.motor == s.motor
    ensures !r.capture.IsComplete() && r.capture.Valid()
    ensures r.records == s.records && r.combinedDirty == s.combinedDirty
    ensures r.timeoutCount == s.timeoutCount && r.crcErrorCount == s.crcErrorCount
    ensures r.combined == s.combined && r.stream == s.stream && r.dataUpdateUs == s.dataUpdateUs
  {
    s.(capture := StartEscDataRead(s.capture.data, TelemetryFrameSize),
       requests := s.requests + [s.motor],
       trigger := Pending,
       triggerTimestamp := nowMs)
  }

  /** What the polling machine needs of the state: the polled motor is in
      range and the capture buffer is `telemetryBuffer`. */
  predicate KissWellFormed(s: EscState, motorCount: uint8)
  {
    && s.motor < motorCount as int <= |s.records|
    && |s.capture.data| == TelemetryFrameSize as int
    && s.capture.Valid()
  }

  /** The state after a failed cycle: current motor aged, next motor selected,
      request reissued. */
  predicate AdvancedAfterFailure(s: EscState, r: EscState, nowMs: nat, motorCount: uint8)
    requires KissWellFormed(s, motorCount)
  {
    && AgedOnly(s.records, r.records, s.motor)
    && r.motor == (s.motor + 1) % motorCount
    && Reissued(s, r, nowMs)
  }

  /** `increaseDataAge(); selectNextMotor(); setRequest(currentTimeMs);`,
      the recovery shared by a timeout and a CRC failure. */
  function AgeAndAdvance(s: EscState, nowMs: nat, motorCount: uint8): (r: EscState)
    requires KissWellFormed(s, motorCount)
    ensures KissWellFormed(r, motorCount)
    ensures AdvancedAfterFailure(s, r, nowMs, motorCount)
    ensures r.records != s.records ==> r.combinedDirty
    ensures s.combinedDirty ==> r.combinedDirty
    ensures r.timeoutCount == s.timeoutCount && r.crcErrorCount == s.crcErrorCount
    ensures r.combined == s.combined && r.stream == s.stream && r.dataUpdateUs == s.dataUpdateUs
  {
    SelectNextMotorInRange(s.motor, motorCount);
    var s1 := IncreaseDataAge(s);
    SetRequest(s1.(motor := SelectNextMotor(s1.motor, motorCount)), nowMs)
  }

  /** `kissSensorProcess(currentTimeUs)`: one tick of the polling machine.
      The per-branch transitions are stated by the `KissTick` lemmas below. */
  function KissSensorProcess(s: EscState, nowUs: nat, motorCount: uint8): (r: EscState)
    requires KissWellFormed(s, motorCount)
    ensures KissWellFormed(r, motorCount)
    // the Hobbywing cursor and the stored combined record are never touched
    ensures r.stream == s.stream && r.dataUpdateUs == s.dataUpdateUs && r.combined == s.combined
    // any change to a record marks the combined record due
    ensures r.records != s.records ==> r.combinedDirty
    ensures s.combinedDirty ==> r.combinedDirty
  {
    var nowMs := nowUs / 1000;
    match s.trigger
    case Startup =>
      if nowMs >= EscBootTimeMs then SetRequest(s, nowMs) else s
    case Pending =>
      if nowMs < s.triggerTimestamp + EscRequestTimeoutMs then
        var d := DecodeEscFrame(s);
        match d.frameState
        case FrameComplete =>
          SelectNextMotorInRange(s.motor, motorCount);
          SetRequest(d.next.(motor := SelectNextMotor(d.next.motor, motorCount)), nowMs)
        case FrameFailed =>
          AgeAndAdvance(d.next, nowMs, motorCount).(crcErrorCount := Inc32(s.crcErrorCount))
        case FramePending =>
          d.next
      else
        AgeAndAdvance(s, nowMs, motorCount).(timeoutCount := Inc32(s.timeoutCount))
  }

  // ---------------------------------------------------------------------
  // Zero motors

  /** `selectNextMotor()` applied `k` times, starting from `motor`. */
  function AdvanceTimes(motor: uint8, motorCount: uint8, k: nat): uint8
    decreases k
  {
    if k == 0 then motor else SelectNextMotor(AdvanceTimes(motor, motorCount, k - 1), motorCount)
  }

  /** With a motor count of 0, `selectNextMotor()` never resets the index: after `k` failed
      cycles (k < 256) from motor 0, the polled index is `k`. Once `k` is the number of
      records, the next `increaseDataAge()` and `setRequest()` index past the record array. */
  lemma {:induction false} ZeroMotorsOverrun(k: nat)
    requires k < 0x100
    ensures AdvanceTimes(0, 0, k) == k
    decreases k
  {
    if k > 0 {
      ZeroMotorsOverrun(k - 1);
    }
  }

  /** What the guarded tick needs: the polled motor is a record for any motor count, and
      in range of a non-zero count. With a non-zero count this is `KissWellFormed`. */
  predicate KissSafe(s: EscState, motorCount: uint8)
  {
    && motorCount as int <= |s.records|
    && s.motor < |s.records|
    && (motorCount > 0 ==> s.motor < motorCount)
    && |s.capture.data| == TelemetryFrameSize as int
    && s.capture.Valid()
  }

  /** The KISS tick with a guard for zero motors, as `getEscSensorData` has for the
      combined record: with no motors there is nothing to poll, so the tick changes
      nothing and the polled index never leaves the record array. */
  function KissSensorProcessGuarded(s: EscState, nowUs: nat, motorCount: uint8): (r: EscState)
    requires KissSafe(s, motorCount)
    ensures KissSafe(r, motorCount) && r.motor < |r.records|
    ensures motorCount == 0 ==> r == s
    ensures motorCount > 0 ==> r == KissSensorProcess(s, nowUs, motorCount)
  {
    if motorCount == 0 then s else KissSensorProcess(s, nowUs, motorCount)
  }

  /** Boot gate: before 5000 ms a tick in Startup changes nothing (in
      particular, issues no request). */
  lemma KissTickBeforeBoot(s: EscState, nowUs: nat, motorCount: uint8)
    requires KissWellFormed(s, motorCount)
    requires s.trigger == Startup && nowUs / 1000 < EscBootTimeMs
    ensures KissSensorProcess(s, nowUs, motorCount) == s
  {
  }

  /** From 5000 ms on, a tick in Startup requests telemetry from the current
      motor and waits; records and counters are untouched. */
  lemma KissTickAfterBoot(s: EscState, nowUs: nat, motorCount: uint8)
    requires KissWellFormed(s, motorCount)
    requires s.trigger == Startup && nowUs / 1000 >= EscBootTimeMs
    ensures var r := KissSensorProcess(s, nowUs, motorCount);
            && Reissued(s, r, nowUs / 1000) && r.motor == s.motor
            && r.records == s.records
            && r.timeoutCount == s.timeoutCount && r.crcErrorCount == s.crcErrorCount
  {
  }

  /** Timeout: once 100 ms have passed since the request, the current
      motor's data is aged, the next motor is requested, and the timeout
      counter goes up by exactly one (modulo 2^32). */
  lemma KissTickTimeout(s: EscState, nowUs: nat, motorCount: uint8)
    requires KissWellFormed(s, motorCount)
    requires s.trigger == Pending && nowUs / 1000 >= s.triggerTimestamp + EscRequestTimeoutMs
    ensures var r := KissSensorProcess(s, nowUs, motorCount);
            && AdvancedAfterFailure(s, r, nowUs / 1000, motorCount)
            && r.timeoutCount == Inc32(s.timeoutCount)
            && r.crcErrorCount == s.crcErrorCount
  {
  }

  /** Within the window, a frame still arriving leaves the whole state
      unchanged. */
  lemma KissTickFramePending(s: EscState, nowUs: nat, motorCount: uint8)
    requires KissWellFormed(s, motorCount)
    requires s.trigger == Pending && nowUs / 1000 < s.triggerTimestamp + EscRequestTimeoutMs
    requires !s.capture.IsComplete()
    ensures KissSensorProcess(s, nowUs, motorCount) == s
  {
  }

  /** Within the window, a complete frame with a bad CRC ages the current
      motor's data, requests the next motor, and adds exactly one CRC error. */
  lemma KissTickFrameFailed(s: EscState, nowUs: nat, motorCount: uint8)
    requires KissWellFormed(s, motorCount)
    requires s.trigger == Pending && nowUs / 1000 < s.triggerTimestamp + EscRequestTimeoutMs
    requires s.capture.IsComplete() && !FrameCrcValid(s.capture.data)
    ensures var r := KissSensorProcess(s, nowUs, motorCount);
            && AdvancedAfterFailure(s, r, nowUs / 1000, motorCount)
            && r.crcErrorCount == Inc32(s.crcErrorCount)
            && r.timeoutCount == s.timeoutCount
  {
  }

  /** Within the window, a complete frame with a good CRC is stored for the
      current motor and the next motor is requested; no counter changes. */
  lemma KissTickFrameComplete(s: EscState, nowUs: nat, motorCount: uint8)
    requires KissWellFormed(s, motorCount)
    requires s.trigger == Pending && nowUs / 1000 < s.triggerTimestamp + EscRequestTimeoutMs
    requires s.capture.IsComplete() && FrameCrcValid(s.capture.data)
    ensures var r := KissSensorProcess(s, nowUs, motorCount);
            && r.records == DecodeEscFrame(s).next.records
            && r.records[s.motor].dataAge == 0
            && r.motor == (s.motor + 1) % motorCount
            && Reissued(s, r, nowUs / 1000)
            && r.crcErrorCount == s.crcErrorCount && r.timeoutCount == s.timeoutCount
  {
    SelectNextMotorInRange(s.motor, motorCount);
  }

  // ---------------------------------------------------------------------
  // Frames as an ESC sends them

  /** The frame an ESC sends: nine payload bytes followed by their CRC-8. */
  function EncodeFrame(payload: seq<byte>): (f: seq<byte>)
    requires |payload| == TelemetryFrameSize as int - 1
    ensures |f| == TelemetryFrameSize as int && f[..9] == payload
    ensures FrameCrcValid(f)
  {
    var f := payload + [Crc8(payload)];
    assert f[..9] == payload;
    f
  }

  /** Round trip: a complete capture of an encoded frame decodes, for the
      polled motor and with age 0, to readings from which the payload bytes
      are recovered exactly — temperature is byte 0, and each 16-bit reading
      splits back into its high and low byte. */
  lemma DecodeEncodedFrame(s: EscState, payload: seq<byte>)
    requires s.motor < |s.records|
    requires |payload| == TelemetryFrameSize as int - 1
    requires s.capture.data == EncodeFrame(payload)
    requires s.capture.IsComplete()
    ensures DecodeEscFrame(s).frameState == FrameComplete
    ensures var d := DecodeEscFrame(s).next.records[s.motor];
            && d.dataAge == 0
            && d.temperature == payload[0] as int
            && d.voltage / 256 == payload[1] as int && d.voltage % 256 == payload[2] as int
            && d.current / 256 == payload[3] as int && d.current % 256 == payload[4] as int
            && d.consumption / 256 == payload[5] as int && d.consumption % 256 == payload[6] as int
            && d.rpm / 256 == payload[7] as int && d.rpm % 256 == payload[8] as int
  {
    var f := s.capture.data;
    assert f[1] == payload[1] && f[2] == payload[2];
    assert f[3] == payload[3] && f[4] == payload[4];
    assert f[5] == payload[5] && f[6] == payload[6];
    assert f[7] == payload[7] && f[8] == payload[8];
  }

  /** A frame with a valid CRC in which one byte among 0..8 is corrupted
      (in particular any single flipped bit) fails, leaving the state as it
      was. */
  lemma CorruptedFrameFails(s: EscState, good: seq<byte>, k: nat)
    requires s.motor < |s.records|
    requires |good| == TelemetryFrameSize as int && FrameCrcValid(good)
    requires |s.capture.data| == TelemetryFrameSize as int && s.capture.IsComplete()
    requires k < 9 && s.capture.data[k] != good[k]
    requires forall i :: 0 <= i < TelemetryFrameSize as int && i != k ==> s.capture.data[i] == good[i]
    ensures DecodeEscFrame(s) == Decoded(FrameFailed, s)
  {
    var f := s.capture.data;
    Crc8DetectsSingleByteChange(f[..9], good[..9], k);
  }

  /** A sample frame: bytes 50, 0x00 0x96, 0x00 0x32, 0x00 0x0A,
      0x01 0x2C and their CRC decode to temperature 50, voltage 150,
      current 50, consumption 10 and rpm 300. */
  lemma DecodeSampleFrame(s: EscState)
    requires s.motor < |s.records|
    requires s.capture.data == EncodeFrame([50, 0x00, 0x96, 0x00, 0x32, 0x00, 0x0A, 0x01, 0x2C])
    requires s.capture.IsComplete()
    ensures DecodeEscFrame(s).frameState == FrameComplete
    ensures DecodeEscFrame(s).next.records[s.motor] == EscSensorData(0, 50, 150, 50, 10, 300)
  {
    var f := s.capture.data;
    assert f[..9] == [50, 0x00, 0x96, 0x00, 0x32, 0x00, 0x0A, 0x01, 0x2C];
    assert f[0] == 50 && f[1] == 0 && f[2] == 0x96 && f[3] == 0 && f[4] == 0x32;
    assert f[5] == 0 && f[6] == 0x0A && f[7] == 0x01 && f[8] == 0x2C;
  }
}
