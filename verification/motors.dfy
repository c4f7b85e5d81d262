/** The integer part of the RPM-source layer: which sensor feeds each
    motor's RPM, the pole-pair divisor, and eRPM to RPM scaling. */
module Motors {
  import opened Common
  import opened Store

  /** `int` on the flight controller. */
  type int32 = x: int | -0x8000_0000 <= x < 0x8000_0000

  /** `rpmSource_e`. */
  datatype RpmSource = SrcNone | SrcDshotTelem | SrcFreqSensor | SrcEscSensor

  /** What `rpmSourceInit` finds for one motor: a frequency sensor with an
      initialised port, DShot telemetry enabled on a DShot protocol, and an
      enabled, active ESC sensor. */
  datatype Availability = Availability(freqSensor: bool, dshotTelemetry: bool, escSensor: bool)

  /** Whether `src` is a source `a` offers; `SrcNone` is always there. */
  predicate Offers(a: Availability, src: RpmSource)
  {
    match src
    case SrcNone => true
    case SrcFreqSensor => a.freqSensor
    case SrcDshotTelem => a.dshotTelemetry
    case SrcEscSensor => a.escSensor
  }

  /** Preference order: frequency sensor, then DShot telemetry, then ESC
      sensor, then nothing. */
  function Rank(src: RpmSource): nat
  {
    match src
    case SrcFreqSensor => 3
    case SrcDshotTelem => 2
    case SrcEscSensor => 1
    case SrcNone => 0
  }

  /** The source chosen for one motor: the most preferred one on offer. */
  function SelectSource(a: Availability): (r: RpmSource)
    ensures Offers(a, r)
    ensures forall src: RpmSource :: Offers(a, src) ==> Rank(src) <= Rank(r)
    ensures r == SrcNone <==> !a.freqSensor && !a.dshotTelemetry && !a.escSensor
  {
    if a.freqSensor then SrcFreqSensor
    else if a.dshotTelemetry then SrcDshotTelem
    else if a.escSensor then SrcEscSensor
    else SrcNone
  }

  /** `constrain(motorPoleCount / 2, 1, 100)`: the pole pairs, kept to a
      divisor in [1, 100]. */
  function RpmDivisor(poleCount: uint8): (d: uint8)
    ensures 1 <= d <= 100
    ensures 2 <= poleCount <= 201 ==> d == poleCount / 2
    ensures poleCount < 2 ==> d == 1
    ensures poleCount > 201 ==> d == 100
  {
    Constrain(poleCount / 2, 1, 100)
  }

  /** `rpmSourceInit()` over the motor slots: each slot gets its preferred
      source and its clamped divisor. */
  method RpmSourceInit(avail: seq<Availability>, poleCounts: seq<uint8>)
    returns (sources: seq<RpmSource>, divs: seq<uint8>)
    requires |avail| == |poleCounts|
    ensures |sources| == |avail| && |divs| == |avail|
    ensures forall i :: 0 <= i < |avail| ==>
              && Offers(avail[i], sources[i])
              && (forall src: RpmSource :: Offers(avail[i], src) ==> Rank(src) <= Rank(sources[i]))
    ensures forall i :: 0 <= i < |avail| ==> 1 <= divs[i] <= 100
    ensures forall i :: 0 <= i < |avail| ==> divs[i] == RpmDivisor(poleCounts[i])
  {
    sources := [];
    divs := [];
    var i := 0;
    while i < |avail|
      invariant 0 <= i <= |avail|
      invariant |sources| == i && |divs| == i
      invariant forall k :: 0 <= k < i ==> sources[k] == SelectSource(avail[k])
      invariant forall k :: 0 <= k < i ==> divs[k] == RpmDivisor(poleCounts[k])
    {
      sources := sources + [SelectSource(avail[i])];
      divs := divs + [RpmDivisor(poleCounts[i])];
      i := i + 1;
    }
  }

  /** Every one of the first `motorCount` motors has a source. */
  predicate AllSourced(sources: seq<RpmSource>, motorCount: nat)
    requires motorCount <= |sources|
  {
    forall i :: 0 <= i < motorCount ==> sources[i] != SrcNone
  }

  /** `isRpmSourceActive()`: true exactly when no motor in use lacks a
      source, and so vacuously true with no motors. */
  method IsRpmSourceActive(sources: seq<RpmSource>, motorCount: uint8) returns (active: bool)
    requires motorCount as int <= |sources|
    ensures active <==> AllSourced(sources, motorCount as int)
  {
    var i := 0;
    while i < motorCount as int
      invariant 0 <= i <= motorCount as int
      invariant forall k :: 0 <= k < i ==> sources[k] != SrcNone
    {
      if sources[i] == SrcNone {
        return false;
      }
      i := i + 1;
    }
    return true;
  }

  /** After initialisation, the RPM source is active exactly when every
      motor in use has at least one sensor on offer. */
  lemma ActiveAfterInit(avail: seq<Availability>, sources: seq<RpmSource>, motorCount: nat)
    requires motorCount <= |avail| == |sources|
    requires forall i :: 0 <= i < |avail| ==> sources[i] == SelectSource(avail[i])
    ensures AllSourced(sources, motorCount) <==>
              forall i :: 0 <= i < motorCount ==>
                avail[i].freqSensor || avail[i].dshotTelemetry || avail[i].escSensor
  {
  }

  /** The sensor readings `getMotorERPM` can consult for one motor. */
  datatype Readings = Readings(freqRpm: int32, dshotErpm: int32)

  /** `getMotorERPM(motor)`: the reading of the selected source, 0 for none.
      The ESC sensor reading is `getEscSensorRPM(motor)`. */
  function GetMotorErpm(source: RpmSource, rd: Readings, records: seq<EscSensorData>, motor: uint8): (erpm: int32)
    requires source == SrcEscSensor ==> motor as int < |records|
    ensures source == SrcNone ==> erpm == 0
    ensures source == SrcFreqSensor ==> erpm == rd.freqRpm
    ensures source == SrcDshotTelem ==> erpm == rd.dshotErpm
    ensures source == SrcEscSensor ==> 0 <= erpm < 0x1_0000 && erpm == GetEscSensorRpm(records, motor)
  {
    match source
    case SrcFreqSensor => rd.freqRpm
    case SrcDshotTelem => rd.dshotErpm
    case SrcEscSensor => GetEscSensorRpm(records, motor)
    case SrcNone => 0
  }

  /** No signed overflow in `100 * erpm`. */
  predicate ScalesWithoutOverflow(erpm: int)
  {
    -0x8000_0000 <= 100 * erpm < 0x8000_0000
  }

  /** `calcMotorRPM(motor, erpm)`: `100 * erpm / div` in C's arithmetic,
      truncating toward zero for either sign of `erpm`. */
  function CalcMotorRpm(erpm: int32, div: uint8): (rpm: int32)
    requires 1 <= div <= 100
    requires ScalesWithoutOverflow(erpm)
    ensures erpm >= 0 ==> 0 <= rpm && rpm * div <= 100 * erpm < rpm * div + div
    ensures erpm < 0 ==> rpm <= 0 && rpm * div - div < 100 * erpm <= rpm * div
  {
    CDivShrinks(100 * erpm, div);
    CDiv(100 * erpm, div)
  }

  /** Negating the eRPM negates the RPM exactly: C truncation is symmetric
      where Euclidean division is not. */
  lemma CalcMotorRpmOdd(erpm: int32, div: uint8)
    requires 1 <= div <= 100 && ScalesWithoutOverflow(erpm) && erpm > -0x8000_0000
    ensures ScalesWithoutOverflow(-erpm)
    ensures CalcMotorRpm(-erpm, div) == -CalcMotorRpm(erpm, div)
  {
    CDivNegate(100 * erpm, div);
  }

  /** A reading from the ESC sensor always scales without overflow, and the
      result is the eRPM times 100 over the divisor, rounded down. */
  lemma EscReadingScales(records: seq<EscSensorData>, motor: uint8, div: uint8, rd: Readings)
    requires motor as int < |records| && 1 <= div <= 100
    ensures var erpm := GetMotorErpm(SrcEscSensor, rd, records, motor);
            && ScalesWithoutOverflow(erpm)
            && 0 <= CalcMotorRpm(erpm, div) <= 100 * erpm
  {
    var erpm := GetMotorErpm(SrcEscSensor, rd, records, motor);
    CDivShrinks(100 * erpm, div);
  }
}
