// The globals of the safety layer and the code that updates them in place (board/safety.h,
// board/safety/safety_toyota.h, board/main.c), against the step functions.
module SafetyLayer {
  import opened Wrappers
  import opened Arith
  import opened CanPacket
  import opened Samples
  import opened Steering
  import opened SafetyState
  import opened RxChecks
  import opened SafetySteps
  import T = ToyotaHooks

  datatype TorqueWindows = TorqueWindows(meas: seq<int>, driver: seq<int>, extremes: T.Extremes)

  const NO_SAMPLES := TorqueWindows([], [], T.Extremes(0, 0, 0, 0))

  // Both torques of the frame are the newest samples, and the extremes are those of the last six; the
  // motor torque is widened by one on both sides.
  ghost predicate SampledTorque(flags: Flags, m: CANPacket, before: TorqueWindows, after: TorqueWindows) {
    && after.meas == before.meas + [T.MeasuredTorque(flags, m)]
    && IsMin(after.extremes.measMin + 1, Window(after.meas))
    && IsMax(after.extremes.measMax - 1, Window(after.meas))
    && after.driver == before.driver + [ToSigned16(Word16(m, 1))]
    && IsMin(after.extremes.driverMin, Window(after.driver))
    && IsMax(after.extremes.driverMax, Window(after.driver))
  }

  // What a received frame does to the torque samples: in the Toyota mode, processed torque frames
  // add to them and all others leave them alone. Hooks that are not modelled may do anything.
  ghost predicate WindowsFollow(hooks: Hooks, valid: bool, m: CANPacket, before: TorqueWindows, after: TorqueWindows) {
    if !valid || hooks.NoOutput? || (hooks.Toyota? && !(m.bus == 0 && m.addr == 0x260)) then after == before
    else hooks.Toyota? ==> SampledTorque(hooks.flags, m, before, after)
  }

  // The motor and driver torques of a run of frames, each valid or not.
  function TorqueSamples(flags: Flags, frames: seq<(bool, CANPacket)>): (seq<int>, seq<int>) {
    if frames == [] then ([], [])
    else
      var (valid, m) := frames[|frames| - 1];
      var (meas, driver) := TorqueSamples(flags, frames[..|frames| - 1]);
      if valid && m.bus == 0 && m.addr == 0x260
      then (meas + [T.MeasuredTorque(flags, m)], driver + [ToSigned16(Word16(m, 1))])
      else (meas, driver)
  }

  // The kept extremes are those of the last six samples, one wider for the motor torque.
  ghost predicate ExtremesFollow(w: TorqueWindows)
    requires w.meas != [] && w.driver != []
  {
    && IsMin(w.extremes.measMin + 1, Window(w.meas)) && IsMax(w.extremes.measMax - 1, Window(w.meas))
    && IsMin(w.extremes.driverMin, Window(w.driver)) && IsMax(w.extremes.driverMax, Window(w.driver))
  }

  // Over any run of frames since the mode was set, the samples are those of the valid torque frames
  // and the extremes follow them.
  lemma {:induction false} WindowsRun(flags: Flags, frames: seq<(bool, CANPacket)>, ws: seq<TorqueWindows>)
    requires |ws| == |frames| + 1 && ws[0].meas == ws[0].driver == []
    requires forall i :: 0 <= i < |frames| ==>
      WindowsFollow(Toyota(flags), frames[i].0, frames[i].1, ws[i], ws[i + 1])
    ensures
      var w := ws[|frames|];
      && (w.meas, w.driver) == TorqueSamples(flags, frames) && |w.meas| == |w.driver|
      && if w.meas == [] then w.extremes == ws[0].extremes else ExtremesFollow(w)
  {
    hide IsMin, IsMax, Window, T.MeasuredTorque;
    if frames != [] {
      var k := |frames| - 1;
      WindowsRun(flags, frames[..k], ws[..k + 1]);
      assert WindowsFollow(Toyota(flags), frames[k].0, frames[k].1, ws[k], ws[k + 1]);
    }
  }

  class Panda {
    const debug: bool
    const steer: SteerTorque

    // The vehicle state: controls_allowed, relay_malfunction, gas_pressed and the other flags.
    var core: Core
    var currentSafetyMode: Mode
    var currentSafetyParam: Param
    var currentHooks: Hooks
    var config: Config
    var rxStatus: seq<RxStatus>
    var safetyModeCnt: nat
    var safetyRxChecksInvalid: bool
    var busSetup: BusSetup
    var alternativeExperience: Param

    // The heartbeat state: its counter and flags, and the count of mismatches.
    var beat: Heartbeat

    predicate DisengageOnGasOff()
      reads this`alternativeExperience
    {
      alternativeExperience % 2 == 1
    }

    function State(): Safety
      reads this
    {
      Safety(currentSafetyMode, currentSafetyParam, currentHooks, config, rxStatus,
             core, safetyModeCnt, safetyRxChecksInvalid,
             busSetup, alternativeExperience, beat)
    }

    // The torque samples seen since the mode was set, and the extremes kept of the last six.
    ghost function Windows(): TorqueWindows
      reads steer.torqueMeas, steer.torqueDriver
    {
      TorqueWindows(steer.torqueMeas.history, steer.torqueDriver.history, CurrentExtremes())
    }

    ghost predicate Valid()
      reads this, steer, steer.torqueMeas, steer.torqueMeas.values, steer.torqueDriver, steer.torqueDriver.values
    {
      Consistent(State()) && steer.Valid()
    }

    constructor (debug: bool)
      ensures Valid() && State() == BOOT && this.debug == debug
      ensures steer.State() == ResetState(0) && fresh(steer)
      ensures fresh(steer.torqueMeas) && fresh(steer.torqueMeas.values)
      ensures fresh(steer.torqueDriver) && fresh(steer.torqueDriver.values)
    {
      this.debug := debug;
      steer := new SteerTorque();
      core, beat := CLEARED, Heartbeat(0, false, false, false, 0);
      currentSafetyMode, currentSafetyParam := SAFETY_SILENT, 0;
      currentHooks, config, rxStatus := NoOutput, Config([], []), [];
      safetyModeCnt, safetyRxChecksInvalid, alternativeExperience := 0, false, 0;
      busSetup := BusSetup(false, true);
    }

    // ---- Checks shared by the car modes ----

    method PcmCruiseCheck(cruiseEngaged: bool)
      modifies this`core
      ensures core == T.PcmCruise(old(core), cruiseEngaged)
    {
      if !cruiseEngaged {
        core := core.(controlsAllowed := false);
      }
      if cruiseEngaged && !core.cruiseEngagedPrev {
        core := core.(controlsAllowed := true);
      }
      core := core.(cruiseEngagedPrev := cruiseEngaged);
    }

    method GenericRxChecks(stockEcuDetected: bool)
      modifies this`core
      ensures core == T.GenericChecks(old(core), DisengageOnGasOff(), safetyModeCnt, stockEcuDetected)
    {
      hide DisengageOnGasOff, T.GasCheck, T.BrakeCheck, T.RegenCheck, T.RelayCheck;
      CheckGas();
      CheckBrake();
      CheckRegen();
      CheckRelay(stockEcuDetected);
    }

    // The relay is closed, yet the part of the bus behind it still hears the stock unit.
    method CheckRelay(stockEcuDetected: bool)
      modifies this`core
      ensures core == T.RelayCheck(old(core), safetyModeCnt, stockEcuDetected)
    {
      if safetyModeCnt > T.RELAY_TRNS_TIMEOUT && stockEcuDetected {
        core := core.(relayMalfunction := true);
      }
    }

    method CheckGas()
      modifies this`core
      ensures core == T.GasCheck(old(core), DisengageOnGasOff())
    {
      hide DisengageOnGasOff;
      if core.gasPressed && !core.gasPressedPrev && !DisengageOnGasOff() {
        core := core.(controlsAllowed := false);
      }
      core := core.(gasPressedPrev := core.gasPressed);
    }

    method CheckBrake()
      modifies this`core
      ensures core == T.BrakeCheck(old(core))
    {
      if core.brakePressed && (!core.brakePressedPrev || core.vehicleMoving) {
        core := core.(controlsAllowed := false);
      }
      core := core.(brakePressedPrev := core.brakePressed);
    }

    method CheckRegen()
      modifies this`core
      ensures core == T.RegenCheck(old(core))
    {
      if core.regenBraking && (!core.regenBrakingPrev || core.vehicleMoving) {
        core := core.(controlsAllowed := false);
      }
      core := core.(regenBrakingPrev := core.regenBraking);
    }

    // ---- Receiving ----

    // Find the monitored entry a frame belongs to, and note which alternative the car sends.
    method GetAddrCheckIndex(m: CANPacket) returns (index: int)
      requires SaneStatus(config, rxStatus)
      modifies this`rxStatus
      ensures match FindEntry(config, old(rxStatus), m, 0)
        case None => index == -1 && rxStatus == old(rxStatus)
        case Some((i, j)) =>
          index == i && rxStatus == old(rxStatus)[i := old(rxStatus)[i].(msgSeen := true, index := j)]
    {
      index := -1;
      var i := 0;
      while i < |rxStatus|
        invariant 0 <= i <= |rxStatus| && rxStatus == old(rxStatus)
        invariant FindEntry(config, rxStatus, m, 0) == FindEntry(config, rxStatus, m, i)
      {
        var entry := config.rxChecks[i];
        if !rxStatus[i].msgSeen {
          var j := 0;
          while j < |entry| && !Matches(entry[j], m)
            invariant 0 <= j <= |entry|
            invariant FirstMatch(entry, m, 0) == FirstMatch(entry, m, j)
          {
            j := j + 1;
          }
          if j < |entry| {
            rxStatus := rxStatus[i := rxStatus[i].(index := j, msgSeen := true)];
          }
        }
        if rxStatus[i].msgSeen && Matches(entry[rxStatus[i].index], m) {
          index := i;
          return;
        }
        i := i + 1;
      }
    }

    method RxMsgSafetyCheck(m: CANPacket, ts: Timestamp, env: OtherRx) returns (valid: bool)
      requires SaneStatus(config, rxStatus)
      modifies this`rxStatus, this`core
      ensures (rxStatus, valid) == CheckedFrame(old(State()), m, ts, env)
      ensures core == old(core).(controlsAllowed := old(core.controlsAllowed) && valid)
    {
      hide FirstMatch, FindEntry, Matches, T.Checksum, T.QualityFlagValid;
      var index := GetAddrCheckIndex(m);
      if index != -1 {
        var st := rxStatus[index].(lastTimestamp := ts);
        st := CheckedStatus(config.rxChecks[index][st.index], st, m, env);
        rxStatus := rxStatus[index := st];
        assert rxStatus == old(rxStatus)[index := st];
      }
      valid := true;
      if index != -1 && !IsMsgValid(rxStatus[index]) {
        valid := false;
        core := core.(controlsAllowed := false);
      }
    }

    // What a frame leaves in the status of its entry.
    method CheckedStatus(check: CanMsgCheck, status: RxStatus, m: CANPacket, env: OtherRx) returns (st: RxStatus)
      requires status.msgSeen
      ensures st == NextStatus(check, status, status.index, status.lastTimestamp, RxVerdict(currentHooks, m, env))
    {
      hide T.Checksum, T.QualityFlagValid, CountWrong;
      st := status;
      var verdict := RxVerdict(currentHooks, m, env);
      if check.checkChecksum {
        if currentHooks.Toyota? && m.Len() > 0 {
          var computed := T.ToyotaComputeChecksum(m);
          st := st.(validChecksum := T.GetChecksum(m) == computed);
        } else {
          st := st.(validChecksum := verdict.checksum);
        }
      } else {
        st := st.(validChecksum := true);
      }
      if check.maxCounter > 0 && verdict.counter.Some? {
        st := CountWrong(st, check.maxCounter, verdict.counter.value);
      } else {
        st := st.(wrongCounters := 0);
      }
      st := st.(validQualityFlag := !check.qualityFlag || verdict.quality);
    }

    // Returns whether the frame was valid.
    method SafetyRxHook(m: CANPacket, ts: Timestamp, env: OtherRx) returns (valid: bool)
      requires Valid()
      modifies this, steer.torqueMeas, steer.torqueMeas.values, steer.torqueDriver, steer.torqueDriver.values
      ensures Valid() && State() == OnRx(old(State()), m, ts, env)
      ensures valid == Processed(old(State()), m, ts, env)
      ensures WindowsFollow(currentHooks, valid, m, old(Windows()), Windows())
    {
      hide CheckedFrame, FrameCore, Processed, Consistent, DisengageOnGasOff, SaneStatus;
      ConsistentTables(State());
      RxKeepsConsistent(State(), m, ts, env);
      var controlsAllowedPrev := core.controlsAllowed;
      valid := CheckAndHook(m, ts, env);
      if core.controlsAllowed && !controlsAllowedPrev {
        beat := beat.(mismatches := 0);
      }
    }

    method CheckAndHook(m: CANPacket, ts: Timestamp, env: OtherRx) returns (valid: bool)
      requires SaneStatus(config, rxStatus) && steer.Valid()
      modifies this`rxStatus, this`core,
        steer.torqueMeas, steer.torqueMeas.values, steer.torqueDriver, steer.torqueDriver.values
      ensures steer.Valid() && valid == Processed(old(State()), m, ts, env)
      ensures rxStatus == CheckedFrame(old(State()), m, ts, env).0
      ensures core == FrameCore(old(State()), m, ts, env)
      ensures WindowsFollow(currentHooks, valid, m, old(Windows()), Windows())
    {
      hide CheckedFrame, HookedCore, DisengageOnGasOff, SaneStatus, WindowsFollow;
      SameControls(core);
      valid := RxMsgSafetyCheck(m, ts, env);
      if valid {
        HookIgnoresStatus(old(State()), State(), m, env);
        RunRxHook(m, env);
      } else {
        NothingSampled(currentHooks, m, Windows());
      }
    }

    method RunRxHook(m: CANPacket, env: OtherRx)
      requires steer.Valid()
      modifies this`core, steer.torqueMeas, steer.torqueMeas.values, steer.torqueDriver, steer.torqueDriver.values
      ensures steer.Valid()
      ensures core == HookedCore(old(State()), m, env)
      ensures WindowsFollow(currentHooks, true, m, old(Windows()), Windows())
    {
      hide T.RxHook;
      match currentHooks
      case NoOutput =>
      case Toyota(flags) => ToyotaRxHook(flags, m);
      case Other =>
        core := env.core;
    }

    method ToyotaRxHook(flags: Flags, m: CANPacket)
      requires steer.Valid()
      modifies this`core, steer.torqueMeas, steer.torqueMeas.values, steer.torqueDriver, steer.torqueDriver.values
      ensures steer.Valid()
      ensures core == T.RxHook(flags, DisengageOnGasOff(), safetyModeCnt, old(core), m)
      ensures WindowsFollow(Toyota(flags), true, m, old(Windows()), Windows())
    {
      hide T.GenericChecks, T.Signals, DisengageOnGasOff, SampledTorque;
      if m.bus == 0 {
        if m.addr == 0x260 {
          SampleTorque(flags, m);
        }
        ReadSignals(flags, m);
        var stockEcuDetected := m.addr == 0x2E4;
        if !flags.stockLongitudinal && m.addr == 0x343 {
          stockEcuDetected := true;
        }
        GenericRxChecks(stockEcuDetected);
      }
    }

    method ReadSignals(flags: Flags, m: CANPacket)
      modifies this`core
      ensures core == T.Signals(flags, old(core), m)
    {
      hide BitAt, T.Moving;
      var addr := m.addr;
      if addr == 0x1D2 {
        PcmCruiseCheck(BitAt(m, 5));
        core := core.(gasPressed := !BitAt(m, 4));
      }
      if addr == 0xaa {
        var speed := WheelSpeeds(m);
        core := core.(vehicleMoving := speed != 0);
      }
      // cars differ in which of the two frames carries the brake pedal
      if (addr == 0x224 && flags.altBrake) || (addr == 0x226 && !flags.altBrake) {
        core := core.(brakePressed := if addr == 0x224 then BitAt(m, 5) else BitAt(m, 37));
      }
    }

    // The sum of the four wheel speeds, relative to standstill.
    method WheelSpeeds(m: CANPacket) returns (speed: int)
      ensures (speed != 0) == T.Moving(m)
    {
      hide Word16;
      speed := 0;
      var i := 0;
      while i < 8
        invariant i in {0, 2, 4, 6, 8}
        invariant speed == (if i > 0 then Word16(m, 0) - 6767 else 0) + (if i > 2 then Word16(m, 2) - 6767 else 0)
                         + (if i > 4 then Word16(m, 4) - 6767 else 0) + (if i > 6 then Word16(m, 6) - 6767 else 0)
        decreases 8 - i
      {
        var wheelSpeed: int := Word16(m, i);
        speed := speed + (wheelSpeed - 6767);
        i := i + 2;
      }
    }

    method SampleTorque(flags: Flags, m: CANPacket)
      requires steer.Valid()
      modifies steer.torqueMeas, steer.torqueMeas.values, steer.torqueDriver, steer.torqueDriver.values
      ensures steer.Valid()
      ensures SampledTorque(flags, m, old(Windows()), Windows())
    {
      hide Window, IsMin, IsMax, Word16;
      var torqueMeasNew := TruncDiv(ToSigned16(Word16(m, 5)) * flags.epsFactor, 100);
      steer.torqueMeas.Update(torqueMeasNew);
      steer.torqueMeas.min := steer.torqueMeas.min - 1;
      steer.torqueMeas.max := steer.torqueMeas.max + 1;
      steer.torqueDriver.Update(ToSigned16(Word16(m, 1)));
    }

    // ---- Sending ----

    method IsMsgAllowed(m: CANPacket, list: seq<CanMsg>) returns (allowed: bool)
      ensures allowed == MsgAllowed(m, list)
    {
      var i := 0;
      while i < |list|
        invariant 0 <= i <= |list| && !MsgAllowed(m, list[..i])
      {
        if m.addr == list[i].addr && m.bus == list[i].bus && m.Len() == list[i].len {
          assert list[i] == CanMsg(m.addr, m.bus, m.Len());
          return true;
        }
        assert list[..i + 1] == list[..i] + [list[i]];
        i := i + 1;
      }
      assert list[..i] == list;
      return false;
    }

    // The torque frame of a 0x2E4 message, as the torque check sees it.
    function TorqueFrame(m: CANPacket, ts: Timestamp): Frame
      reads this, steer.torqueMeas, steer.torqueDriver
    {
      steer.Command(T.DesiredTorque(m), if T.SteerRequest(m) then 1 else 0, ts, core.controlsAllowed)
    }

    function CurrentExtremes(): T.Extremes
      reads steer.torqueMeas, steer.torqueDriver
    {
      T.Extremes(steer.torqueMeas.min, steer.torqueMeas.max, steer.torqueDriver.min, steer.torqueDriver.max)
    }

    // What the transmit decision depends on beside the state.
    function Environment(flags: Flags, m: CANPacket, ts: Timestamp, angleViolation: bool, other: bool): TxEnv
      reads this, steer, steer.torqueMeas, steer.torqueDriver
    {
      TxEnv(CurrentExtremes(),
            T.ChecksTorque(flags, m) && Violation(T.TOYOTA_LIMITS, steer.State(), TorqueFrame(m, ts)),
            angleViolation, other)
    }

    // Whether a frame may be sent; the torque state is the only thing that changes.
    method SafetyTxHook(m: CANPacket, ts: Timestamp, angleViolation: bool, other: bool) returns (allowed: bool)
      modifies steer
      ensures var flags := if currentHooks.Toyota? then currentHooks.flags else T.InitFlags(0);
        allowed == TxAllowed(State(), m, old(Environment(flags, m, ts, angleViolation, other)))
      ensures steer.State() == if currentHooks.Toyota? && T.ChecksTorque(currentHooks.flags, m)
        then After(T.TOYOTA_LIMITS, old(steer.State()), old(TorqueFrame(m, ts))) else old(steer.State())
    {
      hide T.TxHook, Violation, After, MsgAllowed, T.InitFlags, T.TOYOTA_LIMITS;
      var whitelisted := IsMsgAllowed(m, config.txMsgs);
      if currentSafetyMode == SAFETY_ALLOUTPUT || currentSafetyMode == SAFETY_ELM327 {
        whitelisted := true;
      }
      var safetyAllowed := false;
      match currentHooks {
        case NoOutput =>
        case Toyota(flags) => safetyAllowed := ToyotaTxHook(flags, m, ts, angleViolation);
        case Other => safetyAllowed := other;
      }
      allowed := !core.relayMalfunction && whitelisted && safetyAllowed;
    }

    method ToyotaTxHook(flags: Flags, m: CANPacket, ts: Timestamp, angleViolation: bool) returns (tx: bool)
      modifies steer
      ensures tx == T.TxHook(flags, core, m, old(CurrentExtremes()),
                             T.ChecksTorque(flags, m)
                             && Violation(T.TOYOTA_LIMITS, old(steer.State()), old(TorqueFrame(m, ts))),
                             angleViolation)
      ensures steer.State() == if T.ChecksTorque(flags, m)
        then After(T.TOYOTA_LIMITS, old(steer.State()), old(TorqueFrame(m, ts))) else old(steer.State())
    {
      hide Violation, After, T.TOYOTA_LIMITS, T.AccelOk, T.LtaOk, T.AebOk, T.TesterPresent, BitAt, ToSigned16, Word16;
      tx := true;
      if m.bus == 0 {
        if m.addr == 0x343 {
          var violation := AccelViolation(flags, m);
          if violation {
            tx := false;
          }
        }
        if m.addr == 0x283 {
          var block := AebBlock(m);
          if block {
            tx := false;
          }
        }
        if m.addr == 0x191 {
          var ok := LtaCheck(flags, m, angleViolation);
          if !ok {
            tx := false;
          }
        }
        if m.addr == 0x2E4 {
          var desiredTorque, steerReq := ToSigned16(Word16(m, 1)), BitAt(m, 0);
          if !flags.lta {
            var violation := steer.SteerTorqueCmdChecks(desiredTorque, if steerReq then 1 else 0,
                                                        T.TOYOTA_LIMITS, ts, core.controlsAllowed);
            if violation {
              tx := false;
            }
          } else if desiredTorque != 0 || steerReq {
            tx := false;
          }
        }
      }
      if m.addr == 0x750 {
        var invalid := UdsInvalid(m);
        if invalid {
          tx := false;
        }
      }
    }

    method AccelViolation(flags: Flags, m: CANPacket) returns (violation: bool)
      ensures violation == !T.AccelOk(flags, core, m)
    {
      hide BitAt, ToSigned16, Word16;
      var desiredAccel := ToSigned16(Word16(m, 0));
      var allowed := core.controlsAllowed && !core.gasPressedPrev;
      var accelValid := allowed && !MaxLimitCheck(desiredAccel, T.MAX_ACCEL, T.MIN_ACCEL);
      var accelInactive := desiredAccel == T.INACTIVE_ACCEL;
      violation := !(accelValid || accelInactive);
      if flags.stockLongitudinal {
        var cancelReq := BitAt(m, 24);
        if !cancelReq {
          violation := true;
        }
        if desiredAccel != T.INACTIVE_ACCEL {
          violation := true;
        }
      }
    }

    // A little-endian word of the data.
    function GetBytes4(m: CANPacket, start: nat): (w: nat)
      requires start + 4 <= 64
      ensures w == 0 <==> forall i :: start <= i < start + 4 ==> m.data[i] == 0
    {
      m.data[start] + 0x100 * m.data[start + 1] as int + 0x1_0000 * m.data[start + 2] as int
        + 0x100_0000 * m.data[start + 3] as int
    }

    method AebBlock(m: CANPacket) returns (block: bool)
      ensures block == !T.AebOk(m)
    {
      block := GetBytes4(m, 0) != 0 || m.data[4] != 0 || m.data[5] != 0;
    }

    method UdsInvalid(m: CANPacket) returns (invalid: bool)
      ensures invalid == !T.TesterPresent(m)
    {
      invalid := GetBytes4(m, 0) != 0x003E020F || GetBytes4(m, 4) != 0;
      assert m.data[..8] == [m.data[0], m.data[1], m.data[2], m.data[3], m.data[4], m.data[5], m.data[6], m.data[7]];
    }

    method LtaCheck(flags: Flags, m: CANPacket, angleViolation: bool) returns (tx: bool)
      ensures tx == T.LtaOk(flags, m, CurrentExtremes(), angleViolation)
    {
      hide BitAt, ToSigned16, Word16;
      tx := true;
      var ltaRequest, ltaRequest2, torqueWindDown := BitAt(m, 0), BitAt(m, 25), m.data[5];
      var ltaAngle := ToSigned16(Word16(m, 1));
      var steerControlEnabled := ltaRequest || ltaRequest2;
      if !flags.lta {
        // torque mode: the angle message may not act
        if steerControlEnabled || ltaAngle != 0 || torqueWindDown != 0 {
          tx := false;
        }
      } else {
        if angleViolation {
          tx := false;
        }
        if ltaRequest != ltaRequest2 {
          tx := false;
        }
        if !steerControlEnabled && torqueWindDown != 0 {
          tx := false;
        }
        if torqueWindDown != 0 && torqueWindDown != 100 {
          tx := false;
        }
        var driverTorque := Min(Abs(steer.torqueDriver.min), Abs(steer.torqueDriver.max));
        if driverTorque > T.LTA_MAX_DRIVER_TORQUE && torqueWindDown != 0 {
          tx := false;
        }
        var epsTorque := Min(Abs(steer.torqueMeas.min), Abs(steer.torqueMeas.max));
        if epsTorque > T.LTA_MAX_MEAS_TORQUE && torqueWindDown != 0 {
          tx := false;
        }
      }
    }

    // ---- Setting the mode ----

    method SetSafetyHooks(mode: Mode, param: Param, env: OtherInit) returns (found: bool)
      requires steer.Valid()
      modifies this, steer, steer.torqueMeas, steer.torqueMeas.values, steer.torqueDriver, steer.torqueDriver.values
      ensures steer.Valid() && steer.State() == ResetState(0)
      ensures Windows() == NO_SAMPLES
      ensures found == Registered(debug, mode)
      ensures found ==>
        && currentSafetyMode == mode && currentSafetyParam == param
        && currentHooks == HooksOf(mode, param) && config == ConfigOf(currentHooks, env)
        && rxStatus == seq(|config.rxChecks|, _ => UNSEEN)
        && core == CLEARED.(controlsAllowed := mode == SAFETY_ALLOUTPUT)
        && safetyModeCnt == 0 && !safetyRxChecksInvalid
      ensures !found ==>
        && currentSafetyMode == old(currentSafetyMode) && currentSafetyParam == old(currentSafetyParam)
        && currentHooks == old(currentHooks) && config == Config([], []) && rxStatus == []
        && core == CLEARED && safetyModeCnt == 0 && !safetyRxChecksInvalid
      ensures busSetup == old(busSetup)
      ensures beat == old(beat) && alternativeExperience == old(alternativeExperience)
    {
      hide Registered, HooksOf, ConfigOf, DisengageOnGasOff, SteerTorque.Valid, SteerTorque.State, ResetState;
      ClearState();
      found := false;
      if Registered(debug, mode) {
        currentHooks, currentSafetyMode, currentSafetyParam := HooksOf(mode, param), mode, param;
        found := true;
      }
      if found {
        InitHooks(env);
      }
    }

    // The part of a mode change that does not depend on the mode.
    method ClearState()
      requires steer.Valid()
      modifies this`safetyModeCnt, this`core, this`safetyRxChecksInvalid, this`config, this`rxStatus,
        steer, steer.torqueMeas, steer.torqueMeas.values, steer.torqueDriver, steer.torqueDriver.values
      ensures steer.Valid() && steer.State() == ResetState(0)
      ensures Windows() == NO_SAMPLES
      ensures core == CLEARED && safetyModeCnt == 0 && !safetyRxChecksInvalid
      ensures config == Config([], []) && rxStatus == []
    {
      safetyModeCnt := 0;
      core := CLEARED;
      steer.ResetForMode();
      safetyRxChecksInvalid := false;
      config, rxStatus := Config([], []), [];
    }

    // The tables of the mode; only the debug mode that sends everything starts with controls.
    method InitHooks(env: OtherInit)
      modifies this`config, this`rxStatus, this`core
      ensures config == ConfigOf(currentHooks, env) && rxStatus == seq(|config.rxChecks|, _ => UNSEEN)
      ensures core == if currentSafetyMode == SAFETY_ALLOUTPUT then old(core).(controlsAllowed := true) else old(core)
    {
      config := ConfigOf(currentHooks, env);
      if currentSafetyMode == SAFETY_ALLOUTPUT {
        core := core.(controlsAllowed := true);
      }
      rxStatus := seq(|config.rxChecks|, _ => UNSEEN);
    }

    // A registered mode, or SILENT in its place; no tick and no frame leaves SILENT.
    method SetSafetyMode(mode: Mode, param: Param, env: OtherInit)
      requires Valid() && SaneConfig(env.config)
      modifies this, steer, steer.torqueMeas, steer.torqueMeas.values, steer.torqueDriver, steer.torqueDriver.values
      ensures Valid() && State() == WithSafetyMode(debug, old(State()), mode, param, env)
      ensures steer.State() == ResetState(0)
      ensures Windows() == NO_SAMPLES
    {
      hide Registered, HooksOf, ConfigOf, DisengageOnGasOff, Consistent;
      ModeKeepsConsistent(debug, State(), mode, param, env);
      var modeCopy := mode;
      var found := SetSafetyHooks(modeCopy, param, env);
      if !found {
        modeCopy := SAFETY_SILENT;
        found := SetSafetyHooks(modeCopy, 0, env);
        // silence can always be set
        assert found by { SilentRegistered(debug); }
      }
      if modeCopy == SAFETY_SILENT {
        busSetup := BusSetup(false, true);
      } else if modeCopy == SAFETY_NOOUTPUT {
        busSetup := BusSetup(false, false);
      } else if modeCopy == SAFETY_ELM327 {
        busSetup := BusSetup(false, false);
        beat := beat.(counter := 0, lost := false);
      } else {
        busSetup := BusSetup(true, false);
        beat := beat.(counter := 0, lost := false);
      }
    }

    // ---- The 1 Hz tick ----

    // Going silent clears the torque state and the samples; nothing else in a tick touches them.
    ghost predicate TorqueKept(modeBefore: Mode, before: TorqueState, windows: TorqueWindows)
      reads this`currentSafetyMode, steer, steer.torqueMeas, steer.torqueDriver
    {
      if currentSafetyMode == modeBefore then steer.State() == before && Windows() == windows
      else steer.State() == ResetState(0) && Windows() == NO_SAMPLES
    }

    method TickHandler1Hz(started: bool, ts: Timestamp)
      requires Valid()
      modifies this, steer, steer.torqueMeas, steer.torqueMeas.values, steer.torqueDriver, steer.torqueDriver.values
      ensures Valid() && State() == OnTick(old(State()), started, ts)
      ensures TorqueKept(old(currentSafetyMode), old(steer.State()), old(Windows()))
    {
      hide BeforeLag, CheckLag, CountSeconds, GoSilent, Consistent, DisengageOnGasOff;
      ghost var before := State();
      ConsistentBeforeLag(before, started);
      StepKeepsConsistent(debug, before, Tick(started, ts));
      SecondsKeepConsistent(before);
      CountHeartbeat();
      if !beat.disabled && beat.counter >= (if started then HEARTBEAT_CNT_ON else HEARTBEAT_CNT_OFF) {
        HeartbeatMissing();
      }
      safetyModeCnt := (safetyModeCnt + 1) % U32;
      BeforeLagSteps(before, started);
      SafetyTick(ts);
    }

    method CountHeartbeat()
      modifies this`beat, this`core
      ensures State() == CountSeconds(old(State()))
    {
      hide CountBeat, CountUnused, DisengageOnGasOff;
      CountBeatInPlace();
      CountUnusedInPlace();
    }

    method CountBeatInPlace()
      modifies this`beat
      ensures beat == CountBeat(old(beat), IsCarMode(currentSafetyMode))
    {
      hide IsCarMode;
      if beat.counter < U32 - 1 {
        beat := beat.(counter := beat.counter + 1);
      }
      if IsCarMode(currentSafetyMode) {
        beat := beat.(disabled := false);
      }
    }

    method CountUnusedInPlace()
      modifies this`beat, this`core
      ensures var (b, expired) := CountUnused(old(core).controlsAllowed, old(beat));
        beat == b && core == old(core).(controlsAllowed := old(core).controlsAllowed && !expired)
    {
      SameControls(core);
      if core.controlsAllowed && !beat.engaged {
        AddMismatch();
        if beat.mismatches >= MAX_MISMATCHES {
          core := core.(controlsAllowed := false);
        }
      } else {
        beat := beat.(mismatches := 0);
      }
    }

    method AddMismatch()
      modifies this`beat
      ensures beat == old(beat).(mismatches := (old(beat).mismatches + 1) % U32)
    {
      beat := beat.(mismatches := (beat.mismatches + 1) % U32);
    }

    // The state after a tick that finds the heartbeat lost.
    method HeartbeatMissing()
      requires Valid()
      modifies this, steer, steer.torqueMeas, steer.torqueMeas.values, steer.torqueDriver, steer.torqueDriver.values
      ensures Valid() && State() == GoSilent(old(State()))
      ensures TorqueKept(old(currentSafetyMode), old(steer.State()), old(Windows()))
    {
      hide IsCarMode, Registered, DisengageOnGasOff, HooksOf, ConfigOf, Consistent;
      SilentRegistered(debug);
      SilenceKeepsConsistent(State());
      if IsCarMode(currentSafetyMode) {
        beat := beat.(lost := true);
      }
      beat := beat.(engaged := false);
      if currentSafetyMode != SAFETY_SILENT {
        SetSafetyMode(SAFETY_SILENT, 0, OtherInit(Config([], [])));
      }
    }

    // Every monitored entry is looked at once; one late or invalid entry is enough to end the controls.
    method SafetyTick(ts: Timestamp)
      requires Consistent(State())
      modifies this`rxStatus, this`core, this`safetyRxChecksInvalid
      ensures State() == CheckLag(old(State()), ts)
    {
      hide CheckLag, Marked, AllFine, Consistent;
      ghost var s := State();
      safetyRxChecksInvalid := MarkEntries(ts);
      AfterMarking(s, ts);
    }

    method MarkEntries(ts: Timestamp) returns (rxChecksInvalid: bool)
      requires Consistent(State())
      modifies this`rxStatus, this`core
      ensures State() == Marked(old(State()), ts) && rxChecksInvalid == !AllFine(rxStatus)
    {
      hide Lagging, IsMsgValid, MarkLagging, AllFine, SaneConfig, SaneStatus, Consistent, DisengageOnGasOff,
        WithControls;
      ConsistentTables(State());
      rxChecksInvalid := false;
      ghost var before, marked := rxStatus, MarkLagging(config, rxStatus, ts);
      BothControls(core, true, true);
      NothingLate();
      SameLength(config, before);
      SameLength(config, marked);
      var i := 0;
      while i < |config.rxChecks|
        modifies this`rxStatus, this`core
        invariant 0 <= i <= |config.rxChecks| == |marked|
        invariant rxStatus == marked[..i] + before[i..]
        invariant !rxChecksInvalid <==> AllFine(marked[..i])
        invariant core == WithControls(old(core), AllFine(marked[..i]))
      {
        FineNext(marked, i);
        var bad := TickEntry(i, ts, before);
        BothControls(old(core), AllFine(marked[..i]), !bad);
        if bad {
          rxChecksInvalid := true;
        }
        i := i + 1;
      }
      assert rxStatus == marked && marked[..i] == marked;
    }

    // One monitored entry: late or invalid messages end the controls.
    method TickEntry(i: nat, ts: Timestamp, ghost before: seq<RxStatus>) returns (bad: bool)
      requires SaneConfig(config) && SaneStatus(config, before) && i < |before|
      requires rxStatus == MarkLagging(config, before, ts)[..i] + before[i..]
      modifies this`rxStatus, this`core
      ensures var marked := MarkLagging(config, before, ts);
        rxStatus == marked[..i + 1] + before[i + 1..] && bad == (marked[i].lagging || !IsMsgValid(marked[i]))
      ensures core == WithControls(old(core), !bad)
    {
      hide Lagging, IsMsgValid, MarkLagging;
      MarkedAt(config, before, ts, i);
      OneMarked(MarkLagging(config, before, ts), before, i);
      SameControls(core);
      bad := false;
      var st := rxStatus[i];
      var lagging := Lagging(config.rxChecks[i][st.index], st, ts);
      rxStatus := rxStatus[i := st.(lagging := lagging)];
      if lagging {
        core := core.(controlsAllowed := false);
        bad := true;
      } else if !IsMsgValid(rxStatus[i]) {
        core := core.(controlsAllowed := false);
        bad := true;
      }
    }

    // ---- Requests of the host ----

    method HeartbeatReceived(param1: Param)
      requires Valid()
      modifies this`beat
      ensures Valid() && State() == OnHeartbeat(old(State()), param1)
    {
      hide SaneConfig, SaneStatus;
      beat := beat.(counter := 0);
      beat := beat.(lost := false);
      beat := beat.(disabled := false);
      beat := beat.(engaged := param1 == 1);
    }

    method HeartbeatChecksOff()
      requires Valid()
      modifies this`beat
      ensures Valid() && State() == OnDisableHeartbeat(old(State()))
    {
      hide SaneConfig, SaneStatus;
      if !IsCarMode(currentSafetyMode) {
        beat := beat.(disabled := true);
      }
    }

    method SetAlternativeExperience(param1: Param)
      requires Valid()
      modifies this`alternativeExperience
      ensures Valid() && State() == OnAlternativeExperience(old(State()), param1)
    {
      hide SaneConfig, SaneStatus;
      if !IsCarMode(currentSafetyMode) {
        alternativeExperience := param1;
      }
    }
  }

  lemma HookIgnoresStatus(s: Safety, t: Safety, m: CANPacket, env: OtherRx)
    requires s.hooks == t.hooks && s.core == t.core
    requires s.NoDisengageOnGas() == t.NoDisengageOnGas() && s.modeCnt == t.modeCnt
    ensures HookedCore(s, m, env) == HookedCore(t, m, env)
  {
  }

  lemma ConsistentTables(s: Safety)
    requires Consistent(s)
    ensures SaneConfig(s.config) && SaneStatus(s.config, s.status)
  {
  }

  // The state once every monitored entry has been looked at.
  function Marked(s: Safety, ts: Timestamp): Safety
    requires Consistent(s)
  {
    var status := MarkLagging(s.config, s.status, ts);
    s.(status := status, core := WithControls(s.core, AllFine(status)))
  }

  lemma AfterMarking(s: Safety, ts: Timestamp)
    requires Consistent(s)
    ensures var t := Marked(s, ts); CheckLag(s, ts) == t.(rxChecksInvalid := !AllFine(t.status))
  {
    hide MarkLagging, AllFine;
  }

  lemma OneMarked(marked: seq<RxStatus>, before: seq<RxStatus>, i: nat)
    requires |marked| == |before| && i < |before|
    ensures var s := marked[..i] + before[i..];
      s[i] == before[i] && s[i := marked[i]] == marked[..i + 1] + before[i + 1..]
  {
  }

  lemma SameLength(c: Config, status: seq<RxStatus>)
    requires SaneStatus(c, status)
    ensures |status| == |c.rxChecks|
  {
  }

  lemma NothingLate()
    ensures AllFine([])
  {
  }

  lemma FineNext(status: seq<RxStatus>, i: nat)
    requires i < |status|
    ensures AllFine(status[..i + 1]) <==> AllFine(status[..i]) && !status[i].lagging && IsMsgValid(status[i])
  {
    hide IsMsgValid;
    assert status[..i + 1] == status[..i] + [status[i]];
  }

  // Controls survive only under the condition.
  function WithControls(c: Core, kept: bool): Core {
    c.(controlsAllowed := c.controlsAllowed && kept)
  }

  lemma BothControls(c: Core, a: bool, b: bool)
    ensures WithControls(c, true) == c && WithControls(WithControls(c, a), b) == WithControls(c, a && b)
  {
  }

  lemma SameControls(c: Core)
    ensures c.(controlsAllowed := c.controlsAllowed) == c
  {
  }

  lemma NothingSampled(hooks: Hooks, m: CANPacket, w: TorqueWindows)
    ensures WindowsFollow(hooks, false, m, w, w)
  {
  }

  lemma MarkedAt(c: Config, status: seq<RxStatus>, ts: Timestamp, i: nat)
    requires SaneConfig(c) && SaneStatus(c, status) && i < |status|
    ensures MarkLagging(c, status, ts)[i]
         == status[i].(lagging := Lagging(c.rxChecks[i][status[i].index], status[i], ts))
  {
    hide Lagging;
  }

  lemma SecondsKeepConsistent(s: Safety)
    requires Consistent(s)
    ensures Consistent(CountSeconds(s))
  {
    hide IsCarMode;
  }

  lemma SilentRegistered(debug: bool)
    ensures Registered(debug, SAFETY_SILENT)
  {
  }

  lemma SilenceKeepsConsistent(s: Safety)
    requires Consistent(s)
    ensures Consistent(GoSilent(s))
    ensures Consistent(s.(beat := s.beat.(lost := s.beat.lost || IsCarMode(s.mode), engaged := false)))
    ensures SaneConfig(Config([], []))
  {
    hide IsCarMode;
  }

  lemma BeforeLagSteps(s: Safety, started: bool)
    ensures
      var t := CountSeconds(s);
      var u := if HeartbeatGone(t, started) then GoSilent(t) else t;
      BeforeLag(s, started) == u.(modeCnt := (u.modeCnt + 1) % U32)
  {
  }
}
