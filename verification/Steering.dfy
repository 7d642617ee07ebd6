// Torque steering limits (board/safety.h): the check of one frame and its state.
module Steering {
  import opened Arith
  import opened Samples

  type Timestamp = x: int | 0 <= x < U32

  datatype ControlType = TorqueMotorLimited | TorqueDriverLimited

  datatype Limits = Limits(
    maxSteer: int, maxRateUp: int, maxRateDown: int, maxRtDelta: int, maxRtInterval: Timestamp,
    controlType: ControlType,
    driverTorqueAllowance: int, driverTorqueFactor: int,
    maxTorqueError: int,
    minValidRequestFrames: int, maxInvalidRequestFrames: int,
    minValidRequestRtInterval: Timestamp, hasSteerReqTolerance: bool)

  datatype TorqueState = TorqueState(
    desiredTorqueLast: int, rtTorqueLast: int,
    validSteerReqCount: int, invalidSteerReqCount: int,
    tsTorqueCheckLast: Timestamp, tsSteerReqMismatchLast: Timestamp)

  // One torque command and everything the check reads beside its own state. `now` is unbounded
  // real time in microseconds; the firmware sees it through its 32-bit timer.
  datatype Frame = Frame(
    desired: int, steerReq: int, now: nat, controlsAllowed: bool,
    measMin: int, measMax: int, driverMin: int, driverMax: int)
  {
    function Ts(): Timestamp { now % U32 }
    // The request bit is low although torque is requested.
    predicate Mismatch() { steerReq == 0 && desired != 0 }
  }

  function Abs(a: int): nat { if a < 0 then -a else a }

  // Unsigned 32-bit subtraction of two timer values.
  function TsElapsed(ts: Timestamp, last: Timestamp): Timestamp { (ts - last) % U32 }

  predicate MaxLimitCheck(val: int, maxVal: int, minVal: int) {
    val > maxVal || val < minVal
  }

  predicate DistToMeasCheck(val: int, valLast: int, measMin: int, measMax: int,
                            maxRateUp: int, maxRateDown: int, maxError: int)
  {
    var highestRl := Max(valLast, 0) + maxRateUp;
    var lowestRl := Min(valLast, 0) - maxRateUp;
    var highest := Min(highestRl, Max(valLast - maxRateDown, Max(measMax, 0) + maxError));
    var lowest := Max(lowestRl, Min(valLast + maxRateDown, Min(measMin, 0) - maxError));
    MaxLimitCheck(val, highest, lowest)
  }

  function DriverMaxLimit(L: Limits, driverMax: int): int {
    L.maxSteer + (L.driverTorqueAllowance + driverMax) * L.driverTorqueFactor
  }

  function DriverMinLimit(L: Limits, driverMin: int): int {
    -L.maxSteer + (-L.driverTorqueAllowance + driverMin) * L.driverTorqueFactor
  }

  predicate DriverLimitCheck(L: Limits, val: int, valLast: int, driverMin: int, driverMax: int) {
    var highestRl := Max(valLast, 0) + L.maxRateUp;
    var lowestRl := Min(valLast, 0) - L.maxRateUp;
    var highest := Min(highestRl, Max(valLast - L.maxRateDown, Max(DriverMaxLimit(L, driverMax), 0)));
    var lowest := Max(lowestRl, Min(valLast + L.maxRateDown, Min(DriverMinLimit(L, driverMin), 0)));
    MaxLimitCheck(val, highest, lowest)
  }

  predicate RtRateLimitCheck(val: int, valLast: int, maxRtDelta: int) {
    MaxLimitCheck(val, Max(valLast, 0) + maxRtDelta, Min(valLast, 0) - maxRtDelta)
  }

  predicate RateViolation(L: Limits, valLast: int, val: int,
                          measMin: int, measMax: int, driverMin: int, driverMax: int)
  {
    if L.controlType.TorqueDriverLimited? then
      DriverLimitCheck(L, val, valLast, driverMin, driverMax)
    else
      DistToMeasCheck(val, valLast, measMin, measMax, L.maxRateUp, L.maxRateDown, L.maxTorqueError)
  }

  // A torque cut: the request bit may be low only seldom and briefly.
  predicate CutViolation(L: Limits, s: TorqueState, mismatch: bool, ts: Timestamp) {
    mismatch &&
    (!L.hasSteerReqTolerance ||
     if s.invalidSteerReqCount == 0 then
       || s.validSteerReqCount < L.minValidRequestFrames
       || TsElapsed(ts, s.tsSteerReqMismatchLast) < L.minValidRequestRtInterval
     else
       s.invalidSteerReqCount >= L.maxInvalidRequestFrames)
  }

  // When one frame must not be sent.
  predicate Violation(L: Limits, s: TorqueState, f: Frame) {
    || (f.controlsAllowed &&
        (|| MaxLimitCheck(f.desired, L.maxSteer, -L.maxSteer)
         || RateViolation(L, s.desiredTorqueLast, f.desired, f.measMin, f.measMax, f.driverMin, f.driverMax)
         || RtRateLimitCheck(f.desired, s.rtTorqueLast, L.maxRtDelta)))
    || (!f.controlsAllowed && f.desired != 0)
    || CutViolation(L, s, f.Mismatch(), f.Ts())
  }

  // A frame that is refused, or arrives without controls, clears the state.
  predicate Resets(L: Limits, s: TorqueState, f: Frame) {
    Violation(L, s, f) || !f.controlsAllowed
  }

  function ResetState(ts: Timestamp): TorqueState {
    TorqueState(0, 0, 0, 0, ts, ts)
  }

  // The state after one frame.
  function After(L: Limits, s: TorqueState, f: Frame): TorqueState {
    if Resets(L, s, f) then ResetState(f.Ts())
    else
      var checkpoint := TsElapsed(f.Ts(), s.tsTorqueCheckLast) > L.maxRtInterval;
      var cut := L.hasSteerReqTolerance && f.Mismatch();
      var match' := L.hasSteerReqTolerance && !f.Mismatch();
      TorqueState(
        f.desired,
        if checkpoint then f.desired else s.rtTorqueLast,
        if cut then 0
        else if match' then Min(s.validSteerReqCount + 1, L.minValidRequestFrames)
        else s.validSteerReqCount,
        if cut then Min(s.invalidSteerReqCount + 1, L.maxInvalidRequestFrames)
        else if match' then 0
        else s.invalidSteerReqCount,
        if checkpoint then f.Ts() else s.tsTorqueCheckLast,
        if cut then f.Ts() else s.tsSteerReqMismatchLast)
  }

  // The globals the torque check keeps between frames.
  class SteerTorque {
    var desiredTorqueLast: int
    var rtTorqueLast: int
    var validSteerReqCount: int
    var invalidSteerReqCount: int
    var tsTorqueCheckLast: Timestamp
    var tsSteerReqMismatchLast: Timestamp
    const torqueMeas: Sample
    const torqueDriver: Sample

    function State(): TorqueState
      reads this
    {
      TorqueState(desiredTorqueLast, rtTorqueLast, validSteerReqCount, invalidSteerReqCount,
                  tsTorqueCheckLast, tsSteerReqMismatchLast)
    }

    ghost predicate Valid()
      reads this, torqueMeas, torqueMeas.values, torqueDriver, torqueDriver.values
    {
      && torqueMeas.Valid() && torqueDriver.Valid()
      && torqueMeas != torqueDriver && torqueMeas.values != torqueDriver.values
    }

    constructor ()
      ensures Valid() && State() == ResetState(0)
      ensures fresh(torqueMeas) && fresh(torqueMeas.values)
      ensures fresh(torqueDriver) && fresh(torqueDriver.values)
      ensures torqueMeas.history == [] && torqueDriver.history == []
    {
      desiredTorqueLast, rtTorqueLast := 0, 0;
      validSteerReqCount, invalidSteerReqCount := 0, 0;
      tsTorqueCheckLast, tsSteerReqMismatchLast := 0, 0;
      torqueMeas := new Sample();
      torqueDriver := new Sample();
    }

    // The torque part of set_safety_hooks.
    method ResetForMode()
      requires Valid()
      modifies this, torqueMeas, torqueMeas.values, torqueDriver, torqueDriver.values
      ensures Valid() && State() == ResetState(0)
      ensures torqueMeas.history == [] && torqueMeas.min == torqueMeas.max == 0
      ensures torqueDriver.history == [] && torqueDriver.min == torqueDriver.max == 0
    {
      desiredTorqueLast, rtTorqueLast := 0, 0;
      tsTorqueCheckLast, tsSteerReqMismatchLast := 0, 0;
      validSteerReqCount, invalidSteerReqCount := 0, 0;
      torqueMeas.Reset();
      torqueDriver.Reset();
    }

    function Command(desired: int, steerReq: int, ts: Timestamp, controlsAllowed: bool): Frame
      reads torqueMeas, torqueDriver
    {
      Frame(desired, steerReq, ts, controlsAllowed,
            torqueMeas.min, torqueMeas.max, torqueDriver.min, torqueDriver.max)
    }

    method SteerTorqueCmdChecks(desired: int, steerReq: int, limits: Limits, ts: Timestamp,
                                controlsAllowed: bool) returns (violation: bool)
      modifies this
      ensures var f := Command(desired, steerReq, ts, controlsAllowed);
              && violation == Violation(limits, old(State()), f)
              && State() == After(limits, old(State()), f)
    {
      hide MaxLimitCheck, RateViolation, RtRateLimitCheck, TsElapsed, Min;
      violation := false;
      if controlsAllowed {
        violation := CheckLimits(desired, limits, ts);
      }

      if !controlsAllowed && desired != 0 {
        violation := true;
      }

      var badCut := CheckRequestBit(desired, steerReq, limits, ts);
      violation := violation || badCut;

      if violation || !controlsAllowed {
        validSteerReqCount := 0;
        invalidSteerReqCount := 0;
        desiredTorqueLast := 0;
        rtTorqueLast := 0;
        tsTorqueCheckLast := ts;
        tsSteerReqMismatchLast := ts;
      }
    }

    // The limits that apply while controls are allowed.
    method CheckLimits(desired: int, limits: Limits, ts: Timestamp) returns (violation: bool)
      modifies this`desiredTorqueLast, this`rtTorqueLast, this`tsTorqueCheckLast
      ensures var s := old(State());
              var checkpoint := TsElapsed(ts, s.tsTorqueCheckLast) > limits.maxRtInterval;
              && violation == (|| MaxLimitCheck(desired, limits.maxSteer, -limits.maxSteer)
                               || RateViolation(limits, s.desiredTorqueLast, desired, torqueMeas.min, torqueMeas.max,
                                                torqueDriver.min, torqueDriver.max)
                               || RtRateLimitCheck(desired, s.rtTorqueLast, limits.maxRtDelta))
              && State() == s.(desiredTorqueLast := desired,
                               rtTorqueLast := if checkpoint then desired else s.rtTorqueLast,
                               tsTorqueCheckLast := if checkpoint then ts else s.tsTorqueCheckLast)
    {
      hide MaxLimitCheck, DriverLimitCheck, DistToMeasCheck, RtRateLimitCheck, TsElapsed;
      violation := MaxLimitCheck(desired, limits.maxSteer, -limits.maxSteer);

      if limits.controlType == TorqueDriverLimited {
        if DriverLimitCheck(limits, desired, desiredTorqueLast, torqueDriver.min, torqueDriver.max) {
          violation := true;
        }
      } else {
        if DistToMeasCheck(desired, desiredTorqueLast, torqueMeas.min, torqueMeas.max,
                           limits.maxRateUp, limits.maxRateDown, limits.maxTorqueError) {
          violation := true;
        }
      }
      desiredTorqueLast := desired;

      if RtRateLimitCheck(desired, rtTorqueLast, limits.maxRtDelta) {
        violation := true;
      }

      if TsElapsed(ts, tsTorqueCheckLast) > limits.maxRtInterval {
        rtTorqueLast := desired;
        tsTorqueCheckLast := ts;
      }
    }

    // A request bit that is low under torque uses up a budget: the three conditions below bound how
    // early, how often and how long it may be low.
    method CheckRequestBit(desired: int, steerReq: int, limits: Limits, ts: Timestamp)
      returns (violation: bool)
      modifies this`validSteerReqCount, this`invalidSteerReqCount, this`tsSteerReqMismatchLast
      ensures var mismatch := steerReq == 0 && desired != 0;
              && violation == CutViolation(limits, old(State()), mismatch, ts)
              && var cut := limits.hasSteerReqTolerance && mismatch;
              && var match' := limits.hasSteerReqTolerance && !mismatch;
              && State() == old(State()).(
                   validSteerReqCount :=
                     if cut then 0
                     else if match' then Min(old(validSteerReqCount) + 1, limits.minValidRequestFrames)
                     else old(validSteerReqCount),
                   invalidSteerReqCount :=
                     if cut then Min(old(invalidSteerReqCount) + 1, limits.maxInvalidRequestFrames)
                     else if match' then 0
                     else old(invalidSteerReqCount),
                   tsSteerReqMismatchLast := if cut then ts else old(tsSteerReqMismatchLast))
    {
      hide TsElapsed, Min;
      violation := false;
      var steerReqMismatch := steerReq == 0 && desired != 0;
      if !limits.hasSteerReqTolerance {
        if steerReqMismatch {
          violation := true;
        }
      } else {
        if steerReqMismatch {
          if invalidSteerReqCount == 0 {
            if validSteerReqCount < limits.minValidRequestFrames {
              violation := true;
            }
            if TsElapsed(ts, tsSteerReqMismatchLast) < limits.minValidRequestRtInterval {
              violation := true;
            }
          } else {
            if invalidSteerReqCount >= limits.maxInvalidRequestFrames {
              violation := true;
            }
          }
          validSteerReqCount := 0;
          tsSteerReqMismatchLast := ts;
          invalidSteerReqCount := Min(invalidSteerReqCount + 1, limits.maxInvalidRequestFrames);
        } else {
          validSteerReqCount := Min(validSteerReqCount + 1, limits.minValidRequestFrames);
          invalidSteerReqCount := 0;
        }
      }
    }
  }
}
