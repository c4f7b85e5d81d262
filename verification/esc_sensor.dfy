/** The driver's public face: the per-motor and combined reads, the
    dispatcher that runs one protocol per tick, and the KISS machine run
    against an arbitrary interleaving of received bytes and ticks. */
module EscSensor {
  import opened Common
  import opened FrameCapture
  import opened Hw4Stream
  import opened Store
  import opened Kiss
  import opened Hobbywing

  /** `escSensorConfig()->protocol`; `ProtoOther` is any other value. */
  datatype Protocol = ProtoKiss | ProtoHw4 | ProtoOther

  /** The configuration the driver consults: `FEATURE_ESC_SENSOR`, the
      protocol, and the Hobbywing calibration. */
  datatype EscConfig = EscConfig(featureEnabled: bool, protocol: Protocol, calibration: Hw4Calibration)

  /** A read returns a record or NULL, and may refresh the combined record. */
  datatype Read = Read(data: Option<EscSensorData>, next: EscState)

  /** `getEscSensorData(motorNumber)` with `getMotorCount()` as
      `motorCount`. */
  function GetEscSensorData(s: EscState, cfg: EscConfig, motorCount: uint8, motorNumber: uint8): (r: Read)
    requires 0 < |s.records| && motorCount as int <= |s.records|
    // only the combined record and its flag can change
    ensures r.next == s.(combined := r.next.combined, combinedDirty := r.next.combinedDirty)
    ensures !cfg.featureEnabled ==> r == Read(None, s)
    ensures cfg.featureEnabled && cfg.protocol == ProtoHw4 ==> r == Read(Some(s.records[0]), s)
    ensures cfg.featureEnabled && cfg.protocol == ProtoOther ==> r == Read(None, s)
    ensures cfg.featureEnabled && cfg.protocol == ProtoKiss ==>
              if motorNumber < motorCount then r == Read(Some(s.records[motorNumber]), s)
              else if motorNumber != EscSensorCombined then r == Read(None, s)
              else if motorCount == 0 then r == Read(Some(s.combined), s)
              else && r.data == Some(r.next.combined) && !r.next.combinedDirty
                   && (s.combinedDirty ==> r.next.combined == Combine(s.records[..motorCount]))
                   && (!s.combinedDirty ==> r.next == s)
                   // memoisation: a clean flag over a fresh record still yields the combination
                   && (CombinedFresh(s, motorCount as int) ==>
                         r.next.combined == Combine(s.records[..motorCount]))
  {
    if !cfg.featureEnabled then Read(None, s)
    else match cfg.protocol
      case ProtoKiss =>
        if motorNumber < motorCount then Read(Some(s.records[motorNumber]), s)
        else if motorNumber == EscSensorCombined then
          if s.combinedDirty && motorCount > 0 then
            var c := Combine(s.records[..motorCount]);
            Read(Some(c), s.(combined := c, combinedDirty := false))
          else Read(Some(s.combined), s)
        else Read(None, s)
      case ProtoHw4 => Read(Some(s.records[0]), s)
      case ProtoOther => Read(None, s)
  }

  /** Reads are stable: reading again returns the same record and changes
      nothing, because the first read leaves the combined record clean. */
  lemma ReadTwiceStable(s: EscState, cfg: EscConfig, motorCount: uint8, motorNumber: uint8)
    requires 0 < |s.records| && motorCount as int <= |s.records|
    ensures var r1 := GetEscSensorData(s, cfg, motorCount, motorNumber);
            GetEscSensorData(r1.next, cfg, motorCount, motorNumber) == r1
  {
  }

  // ---------------------------------------------------------------------
  // The dispatcher

  /** `escSensorProcess(currentTimeUs)`: nothing while the port is closed or
      the motors are disabled; otherwise exactly the configured protocol's
      routine runs. `rx` is what the Hobbywing drain loop finds in the
      receive buffer; the KISS path receives its bytes through the callback
      instead (see `KissStep`). The KISS tick is the guarded one, so a motor
      count of zero is harmless. */
  function EscSensorProcess(s: EscState, cfg: EscConfig, portOpen: bool, motorsEnabled: bool,
                            nowUs: nat, motorCount: uint8, rx: seq<byte>): (r: EscState)
    requires cfg.protocol == ProtoKiss ==> KissSafe(s, motorCount)
    requires cfg.protocol == ProtoHw4 ==> Hw4WellFormed(s) && 0 < |s.records|
    ensures !portOpen || !motorsEnabled || cfg.protocol == ProtoOther ==> r == s
    // with the port open and the motors enabled, the configured routine runs
    ensures portOpen && motorsEnabled && cfg.protocol == ProtoKiss && motorCount > 0 ==>
              r == KissSensorProcess(s, nowUs, motorCount)
    ensures portOpen && motorsEnabled && cfg.protocol == ProtoHw4 ==>
              r == Hw4SensorProcess(s, nowUs, rx, cfg.calibration)
    // the KISS machine never touches the Hobbywing cursor or its timestamp,
    // and with no motors it does nothing
    ensures cfg.protocol == ProtoKiss ==>
              && KissSafe(r, motorCount)
              && r.stream == s.stream && r.dataUpdateUs == s.dataUpdateUs
              && (motorCount == 0 ==> r == s)
    // the Hobbywing path never touches the polling machine
    ensures cfg.protocol == ProtoHw4 ==>
              && Hw4WellFormed(r)
              && r.capture == s.capture && r.trigger == s.trigger
              && r.triggerTimestamp == s.triggerTimestamp && r.motor == s.motor
              && r.requests == s.requests && r.timeoutCount == s.timeoutCount
  {
    if !portOpen || !motorsEnabled then s
    else match cfg.protocol
      case ProtoKiss => KissSensorProcessGuarded(s, nowUs, motorCount)
      case ProtoHw4 => Hw4SensorProcess(s, nowUs, rx, cfg.calibration)
      case ProtoOther => s
  }

  // ---------------------------------------------------------------------
  // The KISS machine over time

  /** What can happen between two observations: the receive callback
      delivers a character, or the scheduler ticks the machine. */
  datatype KissEvent = RxByte(c: bv16) | Tick(nowUs: nat)

  function KissStep(s: EscState, e: KissEvent, motorCount: uint8): (r: EscState)
    requires KissWellFormed(s, motorCount)
    ensures KissWellFormed(r, motorCount)
  {
    match e
    case RxByte(c) => s.(capture := EscSensorDataReceive(s.capture, c))
    case Tick(nowUs) => KissSensorProcess(s, nowUs, motorCount)
  }

  function KissRun(s: EscState, es: seq<KissEvent>, motorCount: uint8): (r: EscState)
    requires KissWellFormed(s, motorCount)
    ensures KissWellFormed(r, motorCount)
    decreases |es|
  {
    if |es| == 0 then s else KissRun(KissStep(s, es[0], motorCount), es[1..], motorCount)
  }

  /** Requests go to motors 0, 1, ..., n-1, 0, 1, ... in turn. */
  predicate RoundRobin(requests: seq<uint8>, n: nat)
    requires n > 0
  {
    forall i :: 0 <= i < |requests| ==> requests[i] == i % n
  }

  /** The invariant of the KISS machine with `n` motors: requests so far
      went round-robin and the polled motor is the one last asked; the
      machine is in Startup exactly until the first request; no age exceeds
      the sentinel; and a clean combined record is the true combination. */
  predicate KissInv(s: EscState, n: uint8)
  {
    && KissWellFormed(s, n)
    && RoundRobin(s.requests, n as int)
    && (s.trigger == Startup <==> |s.requests| == 0)
    && (if |s.requests| == 0 then s.motor == 0 else s.motor == (|s.requests| - 1) % n as int)
    && AgesBounded(s.records)
    && CombinedFresh(s, n as int)
  }

  /** The driver starts in the invariant, whether or not a port was configured. */
  lemma InitialKissInv(capacity: nat, portConfigured: bool, n: uint8)
    requires 0 < n as int <= capacity
    ensures KissInv(InitialState(capacity, portConfigured), n)
  {
  }

  /** Without a configured port the driver never polls, yet the feature flag
      alone lets reads through: each motor's record reads as all zeros with
      age 0, indistinguishable from a frame just received, not as invalid. */
  lemma UnconfiguredReadLooksFresh(capacity: nat, cfg: EscConfig, motorCount: uint8, motor: uint8)
    requires 0 < capacity && motorCount as int <= capacity
    requires cfg.featureEnabled && cfg.protocol != ProtoOther
    requires cfg.protocol == ProtoKiss ==> motor < motorCount
    ensures var r := GetEscSensorData(InitialState(capacity, false), cfg, motorCount, motor);
            && r.data == Some(ZeroData)
            && r.data.value.dataAge == 0 < EscDataInvalid
  {
  }

  /** A reissued request keeps the round-robin log when it goes to the motor
      after the previous one. */
  lemma {:induction false} AppendKeepsRoundRobin(s: EscState, r: EscState, n: uint8, nowMs: nat)
    requires KissInv(s, n) && |s.requests| > 0
    requires Reissued(s, r, nowMs) && r.motor == (s.motor + 1) % n as int
    ensures RoundRobin(r.requests, n as int)
    ensures r.motor == (|r.requests| - 1) % n as int
  {
    ModNext(|s.requests| - 1, n as int);
    assert forall i :: 0 <= i < |s.requests| ==> r.requests[i] == s.requests[i];
  }

  /** A tick that moves on to the next motor keeps the invariant, provided
      it keeps the ages bounded and marks any record change. */
  lemma AdvanceKeepsInv(s: EscState, r: EscState, n: uint8, nowMs: nat)
    requires KissInv(s, n) && s.trigger == Pending
    requires Reissued(s, r, nowMs) && r.motor == (s.motor + 1) % n as int
    requires KissWellFormed(r, n) && AgesBounded(r.records)
    requires r.records != s.records ==> r.combinedDirty
    requires s.combinedDirty ==> r.combinedDirty
    requires r.combined == s.combined
    ensures KissInv(r, n)
  {
    AppendKeepsRoundRobin(s, r, n, nowMs);
  }

  /** A successful decode keeps the ages bounded: it writes age 0. */
  lemma DecodeKeepsAgesBounded(s: EscState)
    requires s.motor < |s.records| && |s.capture.data| == TelemetryFrameSize as int
    requires AgesBounded(s.records)
    ensures AgesBounded(DecodeEscFrame(s).next.records)
  {
  }

  /** The invariant across a tick in Startup. */
  lemma StartupTickKeepsInv(s: EscState, nowUs: nat, n: uint8)
    requires KissInv(s, n) && s.trigger == Startup
    ensures KissInv(KissSensorProcess(s, nowUs, n), n)
    ensures s.requests <= KissSensorProcess(s, nowUs, n).requests
  {
    var r := KissSensorProcess(s, nowUs, n);
    if nowUs / 1000 >= EscBootTimeMs {
      KissTickAfterBoot(s, nowUs, n);
      assert r.requests == [0];
    } else {
      KissTickBeforeBoot(s, nowUs, n);
    }
  }

  /** The invariant across a tick that finds the request timed out. */
  lemma TimeoutTickKeepsInv(s: EscState, nowUs: nat, n: uint8)
    requires KissInv(s, n) && s.trigger == Pending
    requires nowUs / 1000 >= s.triggerTimestamp + EscRequestTimeoutMs
    ensures KissInv(KissSensorProcess(s, nowUs, n), n)
    ensures s.requests <= KissSensorProcess(s, nowUs, n).requests
  {
    KissTickTimeout(s, nowUs, n);
    AdvanceKeepsInv(s, KissSensorProcess(s, nowUs, n), n, nowUs / 1000);
  }

  /** The invariant across a tick that finds a good frame in time. */
  lemma GoodFrameTickKeepsInv(s: EscState, nowUs: nat, n: uint8)
    requires KissInv(s, n) && s.trigger == Pending
    requires nowUs / 1000 < s.triggerTimestamp + EscRequestTimeoutMs
    requires s.capture.IsComplete() && FrameCrcValid(s.capture.data)
    ensures KissInv(KissSensorProcess(s, nowUs, n), n)
    ensures s.requests <= KissSensorProcess(s, nowUs, n).requests
  {
    KissTickFrameComplete(s, nowUs, n);
    DecodeKeepsAgesBounded(s);
    AdvanceKeepsInv(s, KissSensorProcess(s, nowUs, n), n, nowUs / 1000);
  }

  /** The invariant across a tick that finds a corrupted frame in time. */
  lemma BadFrameTickKeepsInv(s: EscState, nowUs: nat, n: uint8)
    requires KissInv(s, n) && s.trigger == Pending
    requires nowUs / 1000 < s.triggerTimestamp + EscRequestTimeoutMs
    requires s.capture.IsComplete() && !FrameCrcValid(s.capture.data)
    ensures KissInv(KissSensorProcess(s, nowUs, n), n)
    ensures s.requests <= KissSensorProcess(s, nowUs, n).requests
  {
    KissTickFrameFailed(s, nowUs, n);
    AdvanceKeepsInv(s, KissSensorProcess(s, nowUs, n), n, nowUs / 1000);
  }

  /** Every step keeps the invariant, and the request log only grows. */
  lemma KissStepKeepsInv(s: EscState, e: KissEvent, n: uint8)
    requires KissInv(s, n)
    ensures KissInv(KissStep(s, e, n), n)
    ensures s.requests <= KissStep(s, e, n).requests
  {
    match e
    case RxByte(c) =>
    case Tick(nowUs) =>
      if s.trigger == Startup {
        StartupTickKeepsInv(s, nowUs, n);
      } else if nowUs / 1000 >= s.triggerTimestamp + EscRequestTimeoutMs {
        TimeoutTickKeepsInv(s, nowUs, n);
      } else if !s.capture.IsComplete() {
        KissTickFramePending(s, nowUs, n);
      } else if FrameCrcValid(s.capture.data) {
        GoodFrameTickKeepsInv(s, nowUs, n);
      } else {
        BadFrameTickKeepsInv(s, nowUs, n);
      }
  }

  /** The invariant holds after any sequence of events. */
  lemma {:induction false} KissRunKeepsInv(s: EscState, es: seq<KissEvent>, n: uint8)
    requires KissInv(s, n)
    ensures KissInv(KissRun(s, es, n), n)
    ensures s.requests <= KissRun(s, es, n).requests
    decreases |es|
  {
    if |es| > 0 {
      KissStepKeepsInv(s, es[0], n);
      KissRunKeepsInv(KissStep(s, es[0], n), es[1..], n);
    }
  }

  /** Fairness: any `n` consecutive requests ask every motor, and ask each
      only once, so one silent ESC cannot starve the others. */
  lemma EachMotorOncePerWindow(s: EscState, n: uint8, j: nat)
    requires KissInv(s, n) && j + n as int <= |s.requests|
    ensures var w := s.requests[j..j + n as int];
            && (forall m: uint8 :: m < n ==> m in w)
            && (forall t1, t2 :: 0 <= t1 < t2 < |w| ==> w[t1] != w[t2])
  {
    var w := s.requests[j..j + n as int];
    forall m: uint8 | m < n
      ensures m in w
    {
      ModReach(j, m, n as int);
      var t := if m >= j % n as int then m - j % n as int else m + n as int - j % n as int;
      assert w[t] == s.requests[j + t] == m;
    }
    forall t1, t2 | 0 <= t1 < t2 < |w|
      ensures w[t1] != w[t2]
    {
      ModShiftDistinct(j + t1, t2 - t1, n as int);
      assert w[t1] == s.requests[j + t1] && w[t2] == s.requests[j + t2];
    }
  }

  /** Consecutive requests go to a motor and the one `selectNextMotor`
      picks after it: increasing order, wrapping after the last motor. */
  lemma RequestsFollowSelectNextMotor(s: EscState, n: uint8, i: nat)
    requires KissInv(s, n) && i + 1 < |s.requests|
    ensures s.requests[i + 1] == SelectNextMotor(s.requests[i], n)
  {
    SelectNextMotorInRange(s.requests[i], n);
    ModNext(i, n as int);
  }

  /** Boot gate over time: while every tick comes before 5000 ms, no request
      is issued and no record changes, however many bytes arrive. */
  lemma {:induction false} NoRequestBeforeBoot(s: EscState, es: seq<KissEvent>, n: uint8)
    requires KissWellFormed(s, n) && s.trigger == Startup
    requires forall i :: 0 <= i < |es| && es[i].Tick? ==> es[i].nowUs / 1000 < EscBootTimeMs
    ensures var r := KissRun(s, es, n);
            r.trigger == Startup && r.requests == s.requests && r.records == s.records
    decreases |es|
  {
    if |es| > 0 {
      if es[0].Tick? {
        KissTickBeforeBoot(s, es[0].nowUs, n);
      }
      NoRequestBeforeBoot(KissStep(s, es[0], n), es[1..], n);
    }
  }

  /** The combined read under the invariant returns the true combination of
      the motors' records and keeps the invariant. */
  lemma ReadCombinedUnderInv(s: EscState, cfg: EscConfig, n: uint8)
    requires KissInv(s, n) && cfg.featureEnabled && cfg.protocol == ProtoKiss
    ensures var r := GetEscSensorData(s, cfg, n, EscSensorCombined);
            && r.data == Some(Combine(s.records[..n]))
            && KissInv(r.next, n)
  {
  }
}
