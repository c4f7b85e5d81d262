/** Hobbywing V4 telemetry: packets found by the stream synchroniser are
    screened by a plausibility filter in place of a checksum and decoded
    into record 0. */
module Hobbywing {
  import opened Common
  import opened Hw4Stream
  import opened Store

  /** Record 0 ages once per 250 ms without an accepted packet. */
  const DataAgeWindowUs: nat := 250000
  /** The raw RPM field is divided by 100 before it is stored. */
  const RpmScale: nat := 100
  /** Below these the ESC's current reading is stale and is replaced by 0. */
  const StaleCurrentRpm: nat := 100
  const StaleCurrentThrottle: nat := 50

  /** The conversions from raw ADC codes to stored units, done in floating
      point by the driver and rounded with `lrintf`: temperature in degrees,
      voltage and current in hundredths. `currentOf` receives the code above
      the configured `hw4_current_offset`. */
  datatype Hw4Calibration = Hw4Calibration(
    currentOffset: nat,
    temperatureOf: uint16 -> int,
    voltageOf: uint16 -> int,
    currentOf: nat -> int)

  // Packet layout: 0 sync, 1-3 counter, 4-5 throttle, 6-7 PWM, 8-10 RPM,
  // 11-12 voltage, 13-14 current, 15-16 FET temperature, 17-18 BEC temperature.

  function Throttle(p: seq<byte>): uint16 requires |p| >= PacketLength { BigEndian16(p[4], p[5]) }
  function Pwm(p: seq<byte>): uint16 requires |p| >= PacketLength { BigEndian16(p[6], p[7]) }
  function RawRpm(p: seq<byte>): nat requires |p| >= PacketLength { BigEndian24(p[8], p[9], p[10]) }
  function RawVoltage(p: seq<byte>): uint16 requires |p| >= PacketLength { BigEndian16(p[11], p[12]) }
  function RawCurrent(p: seq<byte>): uint16 requires |p| >= PacketLength { BigEndian16(p[13], p[14]) }
  function RawTempFet(p: seq<byte>): uint16 requires |p| >= PacketLength { BigEndian16(p[15], p[16]) }
  function RawTempBec(p: seq<byte>): uint16 requires |p| >= PacketLength { BigEndian16(p[17], p[18]) }

  /** The seven high-byte checks that stand in for a checksum. */
  predicate Plausible(p: seq<byte>)
    requires |p| >= PacketLength
  {
    && p[4] < 4 && p[6] < 4 && p[8] < 4
    && p[11] < 0xF && p[13] < 0xF && p[15] < 0xF && p[17] < 0xF
  }

  /** What the filter admits, in terms of the decoded fields: throttle and
      PWM below 1024, raw RPM below 2^18, and the four ADC codes below
      0xF00. */
  lemma PlausibleMeansInRange(p: seq<byte>)
    requires |p| >= PacketLength
    ensures Plausible(p) <==>
              && Throttle(p) < 0x400 && Pwm(p) < 0x400 && RawRpm(p) < 0x4_0000
              && RawVoltage(p) < 0xF00 && RawCurrent(p) < 0xF00
              && RawTempFet(p) < 0xF00 && RawTempBec(p) < 0xF00
  {
    assert RawRpm(p) < 0x4_0000 <==> BigEndian16(p[8], p[9]) < 0x400;
  }

  /** `calcCurrHW`: nothing below the zero offset, otherwise the calibrated
      value of the code above it. */
  function CalcCurrent(cal: Hw4Calibration, raw: uint16): (c: int)
    ensures raw <= cal.currentOffset ==> c == 0
    ensures raw > cal.currentOffset ==> c == cal.currentOf(raw - cal.currentOffset)
  {
    if raw > cal.currentOffset then cal.currentOf(raw - cal.currentOffset) else 0
  }

  /** The record an accepted packet leaves in slot 0. Consumption is kept. */
  function PacketRecord(p: seq<byte>, cal: Hw4Calibration, old0: EscSensorData): (d: EscSensorData)
    requires |p| >= PacketLength
  {
    var current := if RawRpm(p) < StaleCurrentRpm || Throttle(p) < StaleCurrentThrottle
                   then 0 else CalcCurrent(cal, RawCurrent(p));
    old0.(dataAge := 0,
          temperature := cal.temperatureOf(RawTempFet(p)),
          voltage := cal.voltageOf(RawVoltage(p)),
          current := current,
          rpm := RawRpm(p) / RpmScale)
  }

  /** One delivered packet, as the body of the `if (processHW4TelemetryStream(..))`
      block handles it. */
  function HandlePacket(s: EscState, p: seq<byte>, cal: Hw4Calibration, nowUs: nat): (r: EscState)
    requires |s.records| > 0 && |p| >= PacketLength
    ensures |r.records| == |s.records|
    // accepted: record 0 fresh, RPM scaled, stale current forced to zero
    ensures Plausible(p) ==>
              var d := r.records[0];
              && d.dataAge == 0
              && d.rpm == RawRpm(p) / RpmScale && d.rpm < 2622
              && d.temperature == cal.temperatureOf(RawTempFet(p))
              && d.voltage == cal.voltageOf(RawVoltage(p))
              && (RawRpm(p) < StaleCurrentRpm || Throttle(p) < StaleCurrentThrottle ==> d.current == 0)
              && (RawRpm(p) >= StaleCurrentRpm && Throttle(p) >= StaleCurrentThrottle ==>
                    d.current == CalcCurrent(cal, RawCurrent(p)))
              && d.consumption == s.records[0].consumption
              && r == s.(records := s.records[0 := d], dataUpdateUs := nowUs)
    // rejected: only the error counter moves
    ensures !Plausible(p) ==> r == s.(crcErrorCount := Inc32(s.crcErrorCount))
  {
    if Plausible(p) then
      PlausibleMeansInRange(p);
      s.(records := s.records[0 := PacketRecord(p, cal, s.records[0])], dataUpdateUs := nowUs)
    else
      s.(crcErrorCount := Inc32(s.crcErrorCount))
  }

  /** What the Hobbywing path needs of the state. */
  predicate Hw4WellFormed(s: EscState)
  {
    s.motor < |s.records| && s.stream.Valid()
  }

  /** One iteration of the drain loop: synchronise on the byte, handle the
      packet if one is complete. */
  function Hw4Byte(s: EscState, b: byte, cal: Hw4Calibration, nowUs: nat): (r: EscState)
    requires Hw4WellFormed(s)
    ensures Hw4WellFormed(r) && |r.records| == |s.records|
  {
    var st := ProcessHw4TelemetryStream(s.stream, b);
    var s1 := s.(stream := st.cursor);
    if st.packetReady then HandlePacket(s1, st.cursor.hwData[..PacketLength], cal, nowUs) else s1
  }

  /** The drain loop over every byte waiting in the receive buffer. */
  function Hw4Bytes(s: EscState, bytes: seq<byte>, cal: Hw4Calibration, nowUs: nat): (r: EscState)
    requires Hw4WellFormed(s)
    ensures Hw4WellFormed(r) && |r.records| == |s.records|
    decreases |bytes|
  {
    if |bytes| == 0 then s else Hw4Bytes(Hw4Byte(s, bytes[0], cal, nowUs), bytes[1..], cal, nowUs)
  }

  /** Packets handled one after another. */
  function ApplyPackets(s: EscState, ps: seq<seq<byte>>, cal: Hw4Calibration, nowUs: nat): (r: EscState)
    requires |s.records| > 0
    requires forall i :: 0 <= i < |ps| ==> |ps[i]| == PacketLength
    ensures |r.records| == |s.records| && r.stream == s.stream
    decreases |ps|
  {
    if |ps| == 0 then s else ApplyPackets(HandlePacket(s, ps[0], cal, nowUs), ps[1..], cal, nowUs)
  }

  /** The interleaved drain loop is the synchroniser run over the bytes,
      followed by handling the packets it delivered, in order. */
  lemma {:induction false} DrainIsSyncThenDecode(s: EscState, bytes: seq<byte>, cal: Hw4Calibration, nowUs: nat)
    requires Hw4WellFormed(s)
    ensures var run := SyncAll(s.stream, bytes);
            && (forall i :: 0 <= i < |run.packets| ==> |run.packets[i]| == PacketLength)
            && Hw4Bytes(s, bytes, cal, nowUs) == ApplyPackets(s.(stream := run.cursor), run.packets, cal, nowUs)
    decreases |bytes|
  {
    var run := SyncAll(s.stream, bytes);
    if |bytes| == 0 {
    } else {
      var st := ProcessHw4TelemetryStream(s.stream, bytes[0]);
      var s1 := s.(stream := st.cursor);
      var rest := SyncAll(st.cursor, bytes[1..]);
      var s2 := Hw4Byte(s, bytes[0], cal, nowUs);
      DrainIsSyncThenDecode(s2, bytes[1..], cal, nowUs);
      if st.packetReady {
        var p := st.cursor.hwData[..PacketLength];
        assert run.packets == [p] + rest.packets;
        assert run.cursor == rest.cursor;
        assert s2 == HandlePacket(s1, p, cal, nowUs);
        assert s2.stream == st.cursor;
        var t := s.(stream := run.cursor);
        assert HandlePacket(t, p, cal, nowUs) == s2.(stream := run.cursor);
        assert ([p] + rest.packets)[1..] == rest.packets;
      } else {
        assert run.packets == rest.packets;
        assert run.cursor == rest.cursor;
        assert s2 == s1;
        assert s1.(stream := rest.cursor) == s.(stream := run.cursor);
      }
    }
  }

  /** An accepted packet anywhere in the batch leaves record 0 fresh at the
      end: a later rejected packet does not age it. */
  lemma {:induction false} AcceptedPacketRefreshes(s: EscState, ps: seq<seq<byte>>, cal: Hw4Calibration, nowUs: nat, k: nat)
    requires |s.records| > 0
    requires forall i :: 0 <= i < |ps| ==> |ps[i]| == PacketLength
    requires k < |ps| && Plausible(ps[k])
    ensures ApplyPackets(s, ps, cal, nowUs).records[0].dataAge == 0
    ensures ApplyPackets(s, ps, cal, nowUs).dataUpdateUs == nowUs
    decreases |ps|
  {
    var s1 := HandlePacket(s, ps[0], cal, nowUs);
    if k == 0 {
      FreshStaysFresh(s1, ps[1..], cal, nowUs);
    } else {
      AcceptedPacketRefreshes(s1, ps[1..], cal, nowUs, k - 1);
    }
  }

  /** Packets only ever leave record 0 at age 0 once it is there. */
  lemma {:induction false} FreshStaysFresh(s: EscState, ps: seq<seq<byte>>, cal: Hw4Calibration, nowUs: nat)
    requires |s.records| > 0 && s.records[0].dataAge == 0 && s.dataUpdateUs == nowUs
    requires forall i :: 0 <= i < |ps| ==> |ps[i]| == PacketLength
    ensures ApplyPackets(s, ps, cal, nowUs).records[0].dataAge == 0
    ensures ApplyPackets(s, ps, cal, nowUs).dataUpdateUs == nowUs
    decreases |ps|
  {
    if |ps| > 0 {
      FreshStaysFresh(HandlePacket(s, ps[0], cal, nowUs), ps[1..], cal, nowUs);
    }
  }

  /** `hw4SensorProcess(currentTimeUs)` without the consumption integral:
      age the record if nothing was accepted for more than 250 ms, then
      drain the receive buffer. The polling machine's state is untouched. */
  function Hw4SensorProcess(s: EscState, nowUs: nat, rx: seq<byte>, cal: Hw4Calibration): (r: EscState)
    requires Hw4WellFormed(s) && |s.records| > 0
    ensures Hw4WellFormed(r) && |r.records| == |s.records|
    ensures r.capture == s.capture && r.trigger == s.trigger && r.triggerTimestamp == s.triggerTimestamp
    ensures r.motor == s.motor && r.requests == s.requests && r.timeoutCount == s.timeoutCount
    ensures r.combined == s.combined
    ensures r.stream == SyncAll(s.stream, rx).cursor
  {
    var s1 := if nowUs - s.dataUpdateUs > DataAgeWindowUs
              then IncreaseDataAge(s).(dataUpdateUs := nowUs) else s;
    DrainIsSyncThenDecode(s1, rx, cal, nowUs);
    PacketsKeepPollState(s1.(stream := SyncAll(s1.stream, rx).cursor), SyncAll(s1.stream, rx).packets, cal, nowUs);
    Hw4Bytes(s1, rx, cal, nowUs)
  }

  /** Handling packets never touches the polling machine's state. */
  lemma {:induction false} PacketsKeepPollState(s: EscState, ps: seq<seq<byte>>, cal: Hw4Calibration, nowUs: nat)
    requires |s.records| > 0
    requires forall i :: 0 <= i < |ps| ==> |ps[i]| == PacketLength
    ensures var r := ApplyPackets(s, ps, cal, nowUs);
            && r.capture == s.capture && r.trigger == s.trigger && r.triggerTimestamp == s.triggerTimestamp
            && r.motor == s.motor && r.requests == s.requests && r.timeoutCount == s.timeoutCount
            && r.combined == s.combined && r.combinedDirty == s.combinedDirty
    decreases |ps|
  {
    if |ps| > 0 {
      PacketsKeepPollState(HandlePacket(s, ps[0], cal, nowUs), ps[1..], cal, nowUs);
    }
  }

  /** End to end: from between packets, noise followed by a plausible packet
      leaves that packet's decoded values in record 0, with age 0. */
  lemma Hw4DeliversAfterNoise(s: EscState, junk: seq<byte>, p: seq<byte>, cal: Hw4Calibration, nowUs: nat)
    requires Hw4WellFormed(s) && |s.records| > 0 && s.stream.Idle()
    requires nowUs - s.dataUpdateUs <= DataAgeWindowUs
    requires forall i :: 0 <= i < |junk| ==> junk[i] != SyncByte
    requires |p| == PacketLength && p[0] == SyncByte && p[1] != SyncByte && Plausible(p)
    ensures var r := Hw4SensorProcess(s, nowUs, junk + p, cal);
            && r.records[0] == PacketRecord(p, cal, s.records[0])
            && r.stream.Idle()
  {
    Resynchronises(s.stream, junk, p);
    DrainIsSyncThenDecode(s, junk + p, cal, nowUs);
    var run := SyncAll(s.stream, junk + p);
    var t := s.(stream := run.cursor);
    assert ApplyPackets(t, [p], cal, nowUs) == ApplyPackets(HandlePacket(t, p, cal, nowUs), [], cal, nowUs);
  }

  /** The age gate: a tick that delivers no packet ages record 0 (through
      `increaseDataAge`) and restarts the window when more than 250 ms have
      passed since the last update, and leaves the records alone otherwise. */
  lemma Hw4SilentTick(s: EscState, nowUs: nat, rx: seq<byte>, cal: Hw4Calibration)
    requires Hw4WellFormed(s) && |s.records| > 0
    requires SyncAll(s.stream, rx).packets == []
    ensures var r := Hw4SensorProcess(s, nowUs, rx, cal);
            && (nowUs - s.dataUpdateUs > DataAgeWindowUs ==>
                  AgedOnly(s.records, r.records, s.motor) && r.dataUpdateUs == nowUs)
            && (nowUs - s.dataUpdateUs <= DataAgeWindowUs ==>
                  r.records == s.records && r.dataUpdateUs == s.dataUpdateUs)
  {
    var s1 := if nowUs - s.dataUpdateUs > DataAgeWindowUs
              then IncreaseDataAge(s).(dataUpdateUs := nowUs) else s;
    DrainIsSyncThenDecode(s1, rx, cal, nowUs);
  }
}
