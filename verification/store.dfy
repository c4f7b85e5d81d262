/** The sensor data store: one record per motor, the lazily recomputed
    combined record with its dirty flag, the failure counters, and the rest
    of the driver's static state gathered into one immutable value. */
module Store {
  import opened Common
  import opened FrameCapture
  import opened Hw4Stream

  /** Saturation value of `dataAge`, meaning "no valid data". */
  const EscDataInvalid: nat := 255
  /** Pseudo motor index that selects the combined record. */
  const EscSensorCombined: uint8 := 255
  /** Length of the KISS frame and of `telemetryBuffer`. */
  const TelemetryFrameSize: uint8 := 10

  /** `escSensorData_t`. */
  datatype EscSensorData = EscSensorData(
    dataAge: nat,
    temperature: int,
    voltage: int,
    current: int,
    consumption: int,
    rpm: int)

  const ZeroData := EscSensorData(0, 0, 0, 0, 0, 0)

  datatype TriggerState = Startup | Pending

  /** The driver's static state, except the Hobbywing consumption integral
      and the serial port handle.
      `requests` lists, in order, the motors whose ESC was asked for
      telemetry (each write of the DMA `requestTelemetry` flag). */
  datatype EscState = EscState(
    capture: FrameBuffer,
    trigger: TriggerState,
    triggerTimestamp: nat,
    motor: uint8,
    records: seq<EscSensorData>,
    combined: EscSensorData,
    combinedDirty: bool,
    timeoutCount: uint32,
    crcErrorCount: uint32,
    requests: seq<uint8>,
    stream: StreamCursor,
    dataUpdateUs: nat)

  /** No record is older than the invalid sentinel. */
  predicate AgesBounded(records: seq<EscSensorData>)
  {
    forall i :: 0 <= i < |records| ==> records[i].dataAge <= EscDataInvalid
  }

  /** The state after `escSensorInit()` for `capacity` motor slots: nothing
      captured, the combined record due. Only when a serial port is
      configured for the ESC sensor does initialisation reach the loop that
      marks every record invalid; otherwise it returns early and the records
      keep their zero-initialised age 0. */
  function InitialState(capacity: nat, portConfigured: bool): (s: EscState)
    ensures |s.records| == capacity && AgesBounded(s.records)
    ensures portConfigured ==> forall i :: 0 <= i < capacity ==> s.records[i].dataAge == EscDataInvalid
    ensures !portConfigured ==> forall i :: 0 <= i < capacity ==> s.records[i] == ZeroData
    ensures s.trigger == Startup && s.motor == 0 && s.requests == []
    ensures s.capture.Valid() && |s.capture.data| == TelemetryFrameSize as int
    ensures s.stream.Valid() && s.stream.Idle()
    ensures s.combinedDirty
  {
    EscState(
      FrameBuffer(seq(TelemetryFrameSize, _ => 0), 0, 0),
      Startup, 0, 0,
      seq(capacity, _ => if portConfigured then ZeroData.(dataAge := EscDataInvalid) else ZeroData),
      ZeroData, true, 0, 0, [],
      InitialCursor(), 0)
  }

  /** `after` is `before` with the age of record `m` advanced by one unless it
      is already invalid; nothing else differs. */
  predicate AgedOnly(before: seq<EscSensorData>, after: seq<EscSensorData>, m: nat)
    requires m < |before|
  {
    && |after| == |before|
    && after[m] == before[m].(dataAge := if before[m].dataAge < EscDataInvalid
                                         then before[m].dataAge + 1 else before[m].dataAge)
    && forall i :: 0 <= i < |before| && i != m ==> after[i] == before[i]
  }

  /** `increaseDataAge()`: ages the current motor's record, saturating at the
      invalid sentinel, and marks the combined record due only when the age
      actually moved. */
  function IncreaseDataAge(s: EscState): (r: EscState)
    requires s.motor < |s.records|
    ensures AgedOnly(s.records, r.records, s.motor)
    ensures r.combinedDirty <==> s.combinedDirty || s.records[s.motor].dataAge < EscDataInvalid
    ensures r.records != s.records ==> r.combinedDirty
    ensures AgesBounded(s.records) ==> AgesBounded(r.records)
    ensures r == s.(records := r.records, combinedDirty := r.combinedDirty)
  {
    var d := s.records[s.motor];
    if d.dataAge < EscDataInvalid then
      s.(records := s.records[s.motor := d.(dataAge := d.dataAge + 1)], combinedDirty := true)
    else
      s
  }

  /** `getEscSensorRPM(motor)`: the stored RPM as the `uint16_t` the
      accessor returns. */
  function GetEscSensorRpm(records: seq<EscSensorData>, motor: uint8): (r: uint16)
    requires motor < |records|
    ensures 0 <= records[motor].rpm < 0x1_0000 ==> r == records[motor].rpm
    ensures (r - records[motor].rpm) % 0x1_0000 == 0
  {
    records[motor].rpm % 0x1_0000
  }

  // ---------------------------------------------------------------------
  // The combined record

  /** One iteration of the combining loop. */
  function Accumulate(acc: EscSensorData, x: EscSensorData): EscSensorData
  {
    EscSensorData(
      Max(acc.dataAge, x.dataAge),
      Max(acc.temperature, x.temperature),
      acc.voltage + x.voltage,
      acc.current + x.current,
      acc.consumption + x.consumption,
      acc.rpm + x.rpm)
  }

  /** The summed fields. */
  datatype Field = Voltage | Current | Consumption | Rpm

  function FieldOf(d: EscSensorData, f: Field): int
  {
    match f
    case Voltage => d.voltage
    case Current => d.current
    case Consumption => d.consumption
    case Rpm => d.rpm
  }

  /** Reference sum of one field over the records. */
  function Sum(rs: seq<EscSensorData>, f: Field): int
    decreases |rs|
  {
    if |rs| == 0 then 0 else FieldOf(rs[0], f) + Sum(rs[1..], f)
  }

  lemma {:induction false} SumSnoc(rs: seq<EscSensorData>, x: EscSensorData, f: Field)
    ensures Sum(rs + [x], f) == Sum(rs, f) + FieldOf(x, f)
    decreases |rs|
  {
    if |rs| == 0 {
      assert (rs + [x])[1..] == [];
    } else {
      assert (rs + [x])[1..] == rs[1..] + [x];
      SumSnoc(rs[1..], x, f);
    }
  }

  /** The combining loop run over `rs` from the all-zero record: ages and
      temperatures are the maximum (never below zero, since the loop starts
      from zero), the other fields are sums. */
  function AccumulateAll(rs: seq<EscSensorData>): (a: EscSensorData)
    ensures forall i :: 0 <= i < |rs| ==> rs[i].dataAge <= a.dataAge
    ensures a.dataAge == 0 || exists i :: 0 <= i < |rs| && rs[i].dataAge == a.dataAge
    ensures a.temperature >= 0
    ensures forall i :: 0 <= i < |rs| ==> rs[i].temperature <= a.temperature
    ensures a.temperature == 0 || exists i :: 0 <= i < |rs| && rs[i].temperature == a.temperature
    ensures a.voltage == Sum(rs, Voltage) && a.current == Sum(rs, Current)
    ensures a.consumption == Sum(rs, Consumption) && a.rpm == Sum(rs, Rpm)
    decreases |rs|
  {
    if |rs| == 0 then ZeroData
    else
      var init := rs[..|rs| - 1];
      var last := rs[|rs| - 1];
      assert rs == init + [last];
      SumSnoc(init, last, Voltage);
      SumSnoc(init, last, Current);
      SumSnoc(init, last, Consumption);
      SumSnoc(init, last, Rpm);
      var prev := AccumulateAll(init);
      assert forall i :: 0 <= i < |init| ==> init[i] == rs[i];
      Accumulate(prev, last)
  }

  /** The combined record of the first `n` motors, as the aggregate read
      computes it: maximum age and temperature, voltage and RPM averaged with
      C's truncating division, current and consumption summed. */
  function Combine(rs: seq<EscSensorData>): (c: EscSensorData)
    requires |rs| > 0
    ensures forall i :: 0 <= i < |rs| ==> rs[i].dataAge <= c.dataAge
    ensures c.dataAge == 0 || exists i :: 0 <= i < |rs| && rs[i].dataAge == c.dataAge
    ensures c.temperature >= 0
    ensures forall i :: 0 <= i < |rs| ==> rs[i].temperature <= c.temperature
    ensures c.temperature == 0 || exists i :: 0 <= i < |rs| && rs[i].temperature == c.temperature
    ensures c.voltage == CDiv(Sum(rs, Voltage), |rs|)
    ensures c.current == Sum(rs, Current)
    ensures c.consumption == Sum(rs, Consumption)
    ensures c.rpm == CDiv(Sum(rs, Rpm), |rs|)
  {
    var a := AccumulateAll(rs);
    a.(voltage := CDiv(a.voltage, |rs|), rpm := CDiv(a.rpm, |rs|))
  }

  /** The memoisation contract: when the dirty flag is clear, the stored
      combined record is the combination of the first `n` records. */
  predicate CombinedFresh(s: EscState, n: nat)
    requires 0 < n <= |s.records|
  {
    !s.combinedDirty ==> s.combined == Combine(s.records[..n])
  }
}
