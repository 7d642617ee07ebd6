// The torque budget over runs of everything that happens to the safety layer: frames received and
// sent, ticks and requests (board/safety.h, board/safety/safety_toyota.h, board/main.c).
module TorqueRuns {
  import opened Arith
  import opened CanPacket
  import opened Steering
  import opened SafetyState
  import opened Samples
  import opened SafetySteps
  import opened ToyotaBytes
  import opened SafetyLayer
  import opened SafetyRuns
  import opened SteeringRuns
  import T = ToyotaHooks

  // The state of the safety layer with the torque state and the torque samples.
  datatype Whole = Whole(safety: Safety, torque: TorqueState, windows: TorqueWindows)

  const POWER_ON := Whole(BOOT, ResetState(0), NO_SAMPLES)

  // An event and the unbounded real time, in microseconds, at which it happens.
  datatype Timed = Timed(event: Event, now: nat)

  predicate ReadsTimer(e: Timed) {
    match e.event
    case Rx(_, ts, _) => ts == e.now % U32
    case Tick(_, ts) => ts == e.now % U32
    case _ => true
  }

  // The torque command of a 0x2E4 message as the check sees it.
  function CommandFrame(w: Whole, m: CANPacket, now: nat): Frame {
    var x := w.windows.extremes;
    Frame(T.DesiredTorque(m), if T.SteerRequest(m) then 1 else 0, now, w.safety.core.controlsAllowed,
          x.measMin, x.measMax, x.driverMin, x.driverMax)
  }

  // What the transmit decision depends on beside the safety state.
  function TxSurroundings(w: Whole, m: CANPacket, now: nat, angleViolation: bool, other: bool): TxEnv {
    TxEnv(w.windows.extremes, Violation(T.TOYOTA_LIMITS, w.torque, CommandFrame(w, m, now)), angleViolation, other)
  }

  // The event runs the Toyota torque check.
  predicate Commands(w: Whole, e: Timed) {
    e.event.Tx? && w.safety.hooks.Toyota? && T.ChecksTorque(w.safety.hooks.flags, e.event.packet)
  }

  // The event sets a mode, or is a tick that silences the device.
  predicate Clears(debug: bool, w: Whole, e: Timed)
    requires Consistent(w.safety)
  {
    SetsMode(e.event) || Step(debug, w.safety, e.event).mode != w.safety.mode
  }

  // What one event does. Modes other than Toyota may do anything with torques and samples.
  ghost predicate Follows(debug: bool, w: Whole, e: Timed, w': Whole) {
    && Consistent(w.safety) && Sane(e.event) && ReadsTimer(e)
    && w'.safety == Step(debug, w.safety, e.event)
    && if Clears(debug, w, e) then w'.torque == ResetState(0) && w'.windows == NO_SAMPLES
       else w.safety.hooks.Other? || (TorqueFollows(w, e, w'.torque) && SamplesFollow(w, e, w'.windows))
  }

  predicate TorqueFollows(w: Whole, e: Timed, torque: TorqueState) {
    torque == if Commands(w, e)
              then After(T.TOYOTA_LIMITS, w.torque, CommandFrame(w, e.event.packet, e.now)) else w.torque
  }

  ghost predicate SamplesFollow(w: Whole, e: Timed, windows: TorqueWindows)
    requires Consistent(w.safety)
  {
    if e.event.Rx? then
      var valid := Processed(w.safety, e.event.packet, e.event.ts, e.event.rxEnv);
      WindowsFollow(w.safety.hooks, valid, e.event.packet, w.windows, windows)
    else windows == w.windows
  }

  // One state before each event and one after the last. Steps keep states consistent.
  ghost predicate Lined(es: seq<Timed>, ws: seq<Whole>) {
    |ws| == |es| + 1 && forall i :: 0 <= i < |es| ==> Consistent(ws[i].safety)
  }

  // The states ws passed through from power-on during the events es.
  ghost predicate Trace(debug: bool, start: nat, es: seq<Timed>, ws: seq<Whole>) {
    && Lined(es, ws) && ws[0] == POWER_ON
    && (forall i :: 0 <= i < |es| ==> Follows(debug, ws[i], es[i], ws[i + 1]))
    && (forall i :: 0 <= i < |es| ==> Now(start, es, i) <= es[i].now)
  }

  // Real time after n events.
  function Now(start: nat, es: seq<Timed>, n: nat): nat
    requires n <= |es|
  {
    if n == 0 then start else es[n - 1].now
  }

  // The torque check sees real time only through the timer.
  lemma TimerOnly(s: TorqueState, f: Frame)
    ensures var g := f.(now := f.Ts());
      Violation(T.TOYOTA_LIMITS, s, f) == Violation(T.TOYOTA_LIMITS, s, g)
      && After(T.TOYOTA_LIMITS, s, f) == After(T.TOYOTA_LIMITS, s, g)
  {
    hide RateViolation, T.TOYOTA_LIMITS;
  }

  // ---- Resets and window moves along a run ----

  // The event leaves the torque state cleared.
  predicate ResetsTorque(debug: bool, w: Whole, e: Timed)
    requires Consistent(w.safety)
  {
    || Clears(debug, w, e)
    || (Commands(w, e) && Resets(T.TOYOTA_LIMITS, w.torque, CommandFrame(w, e.event.packet, e.now)))
  }

  // Real time of the last event among the first n that did, or the start.
  ghost function LastCleared(debug: bool, start: nat, es: seq<Timed>, ws: seq<Whole>, n: nat): nat
    requires Lined(es, ws) && n <= |es|
  {
    if n == 0 then start
    else if ResetsTorque(debug, ws[n - 1], es[n - 1]) then es[n - 1].now
    else LastCleared(debug, start, es, ws, n - 1)
  }

  // How often the real-time window moved since then, and when it last did.
  ghost function Moves(debug: bool, start: nat, es: seq<Timed>, ws: seq<Whole>, n: nat): (nat, nat)
    requires Lined(es, ws) && n <= |es|
  {
    if n == 0 then (0, start)
    else
      var w, e := ws[n - 1], es[n - 1];
      var (moves, at) := Moves(debug, start, es, ws, n - 1);
      if ResetsTorque(debug, w, e) then (0, e.now)
      else if Commands(w, e) && MovesWindow(w, e.now) then (moves + 1, e.now)
      else (moves, at)
  }

  predicate MovesWindow(w: Whole, now: nat) {
    TsElapsed(now % U32, w.torque.tsTorqueCheckLast) > T.TOYOTA_LIMITS.maxRtInterval
  }

  // In the Toyota mode, the window is as wide as its moves since the last clearing allow.
  ghost predicate Budgeted(w: Whole, t0: nat, moves: nat, at: nat) {
    w.safety.hooks.Toyota? ==> ModeWindow(T.TOYOTA_LIMITS, w.torque, t0, moves, at)
  }

  // Only events that set a mode or silence the device change the hooks.
  lemma HooksStay(debug: bool, s: Safety, e: Event)
    requires Consistent(s) && Sane(e) && !SetsMode(e) && Step(debug, s, e).mode == s.mode
    ensures Step(debug, s, e).hooks.Toyota? ==> s.hooks.Toyota?
  {
    hide CheckedFrame, FrameCore, Consistent, OnTick;
    StepKeepsConsistent(debug, s, e);
    ToyotaMode(s);
    ToyotaMode(Step(debug, s, e));
  }

  lemma BudgetedStep(debug: bool, w: Whole, e: Timed, w': Whole, t0: nat, moves: nat, at: nat)
    requires Follows(debug, w, e, w') && Budgeted(w, t0, moves, at) && at <= e.now
    ensures
      if ResetsTorque(debug, w, e) then Budgeted(w', e.now, 0, e.now)
      else if Commands(w, e) && MovesWindow(w, e.now) then Budgeted(w', t0, moves + 1, e.now)
      else Budgeted(w', t0, moves, at)
  {
    hide Step, Consistent, After, Resets, ModeWindow, TsElapsed, T.ChecksTorque, T.DesiredTorque, T.SteerRequest,
      SamplesFollow, Sane;
    if Clears(debug, w, e) {
      ModeWindowStart(T.TOYOTA_LIMITS, 0, e.now);
    } else {
      HooksStay(debug, w.safety, e.event);
      if Commands(w, e) {
        var f := CommandFrame(w, e.event.packet, e.now);
        if Resets(T.TOYOTA_LIMITS, w.torque, f) {
          ResetStep(T.TOYOTA_LIMITS, w.torque, f);
          ModeWindowStart(T.TOYOTA_LIMITS, f.Ts(), e.now);
        } else {
          ModeWindowStep(T.TOYOTA_LIMITS, w.torque, f, t0, moves, at);
        }
      }
    }
  }

  lemma {:induction false} BudgetedRun(debug: bool, start: nat, es: seq<Timed>, ws: seq<Whole>, n: nat)
    requires Trace(debug, start, es, ws) && n <= |es|
    ensures var (moves, at) := Moves(debug, start, es, ws, n);
      Budgeted(ws[n], LastCleared(debug, start, es, ws, n), moves, at) && at <= Now(start, es, n)
  {
    hide Follows, ResetsTorque, Commands, MovesWindow, Budgeted, Consistent, POWER_ON;
    if n == 0 {
      BudgetedAtPowerOn(start);
    } else {
      BudgetedRun(debug, start, es, ws, n - 1);
      var (moves, at) := Moves(debug, start, es, ws, n - 1);
      BudgetedStep(debug, ws[n - 1], es[n - 1], ws[n], LastCleared(debug, start, es, ws, n - 1), moves, at);
    }
  }

  lemma BudgetedAtPowerOn(start: nat)
    ensures Budgeted(POWER_ON, start, 0, start)
  {
  }

  lemma {:induction false} ToyotaAlong(debug: bool, start: nat, es: seq<Timed>, ws: seq<Whole>, n: nat)
    requires Trace(debug, start, es, ws) && n <= |es|
    ensures Consistent(ws[n].safety) && ToyotaInvariant(ws[n].safety)
  {
    hide Step, Consistent, ToyotaInvariant, TorqueFollows, SamplesFollow, Clears, Now, Sane;
    if n == 0 {
      ConsistentAtPowerOn();
    } else {
      var s, e := ws[n - 1].safety, es[n - 1].event;
      ToyotaAlong(debug, start, es, ws, n - 1);
      assert Follows(debug, ws[n - 1], es[n - 1], ws[n]);
      StepKeepsConsistent(debug, s, e);
      StepKeepsToyotaInvariant(debug, s, e);
    }
  }

  lemma ConsistentAtPowerOn()
    ensures Consistent(BOOT) && ToyotaInvariant(BOOT)
  {
  }

  // ---- Samples and the last command along a run ----

  // The event brings a torque sample of the motor and the driver.
  predicate BringsSample(w: Whole, e: Timed)
    requires Consistent(w.safety)
  {
    e.event.Rx? && w.safety.hooks.Toyota? && e.event.packet.bus == 0 && e.event.packet.addr == 0x260
    && Processed(w.safety, e.event.packet, e.event.ts, e.event.rxEnv)
  }

  // The motor torques received since the mode was set, oldest first.
  ghost function MotorSamples(debug: bool, es: seq<Timed>, ws: seq<Whole>, n: nat): seq<int>
    requires Lined(es, ws) && n <= |es|
  {
    if n == 0 || Clears(debug, ws[n - 1], es[n - 1]) then []
    else
      var past := MotorSamples(debug, es, ws, n - 1);
      if BringsSample(ws[n - 1], es[n - 1])
      then past + [MotorTorque(ws[n - 1].safety.hooks.flags, es[n - 1].event.packet)] else past
  }

  // The torque of the last command that was let through since the torque state was last cleared.
  ghost function LastCommand(debug: bool, es: seq<Timed>, ws: seq<Whole>, n: nat): int
    requires Lined(es, ws) && n <= |es|
  {
    if n == 0 || ResetsTorque(debug, ws[n - 1], es[n - 1]) then 0
    else if Commands(ws[n - 1], es[n - 1]) then Commanded(es[n - 1].event.packet)
    else LastCommand(debug, es, ws, n - 1)
  }

  function Commanded(m: CANPacket): int {
    SignedBytes(m.data[1], m.data[2])
  }

  // In the Toyota mode, the state knows the samples, their extremes and the last command.
  ghost predicate Knows(w: Whole, samples: seq<int>, last: int) {
    w.safety.hooks.Toyota? ==>
      && w.torque.desiredTorqueLast == last && w.windows.meas == samples && |w.windows.driver| == |samples|
      && if samples == [] then w.windows.extremes == NO_SAMPLES.extremes else ExtremesFollow(w.windows)
  }

  lemma KnowsStep(debug: bool, w: Whole, e: Timed, w': Whole, samples: seq<int>, last: int)
    requires Follows(debug, w, e, w') && Knows(w, samples, last)
    ensures
      var samples' := if Clears(debug, w, e) then []
                      else if BringsSample(w, e) then samples + [MotorTorque(w.safety.hooks.flags, e.event.packet)]
                      else samples;
      var last' := if ResetsTorque(debug, w, e) then 0
                   else if Commands(w, e) then Commanded(e.event.packet) else last;
      Knows(w', samples', last')
  {
    hide Step, Consistent, After, Resets, IsMin, IsMax, Window, T.ChecksTorque, T.DesiredTorque, T.SteerRequest, Sane,
      T.MeasuredTorque, MotorTorque, Processed, ToSigned16, Word16, SignedBytes;
    if !Clears(debug, w, e) {
      HooksStay(debug, w.safety, e.event);
      if Commands(w, e) {
        var f := CommandFrame(w, e.event.packet, e.now);
        CommandBytes(e.event.packet);
        if Resets(T.TOYOTA_LIMITS, w.torque, f) {
          ResetStep(T.TOYOTA_LIMITS, w.torque, f);
        } else {
          AcceptedStep(T.TOYOTA_LIMITS, w.torque, f);
        }
      }
      if BringsSample(w, e) {
        MeasuredBytes(w.safety.hooks.flags, e.event.packet);
      }
    }
  }

  lemma {:induction false} KnowsAlong(debug: bool, start: nat, es: seq<Timed>, ws: seq<Whole>, n: nat)
    requires Trace(debug, start, es, ws) && n <= |es|
    ensures Knows(ws[n], MotorSamples(debug, es, ws, n), LastCommand(debug, es, ws, n))
  {
    hide Follows, ResetsTorque, Commands, BringsSample, Clears, Commanded, Knows, Consistent, POWER_ON, MotorTorque;
    if n == 0 {
      KnownAtPowerOn();
    } else {
      KnowsAlong(debug, start, es, ws, n - 1);
      KnowsStep(debug, ws[n - 1], es[n - 1], ws[n],
                MotorSamples(debug, es, ws, n - 1), LastCommand(debug, es, ws, n - 1));
    }
  }

  lemma KnownAtPowerOn()
    ensures Knows(POWER_ON, [], 0)
  {
  }

  // ---- What is sent ----

  // The Toyota mode lets a torque through that is not zero.
  ghost predicate LetsTorqueThrough(w: Whole, e: Timed, angleViolation: bool, other: bool) {
    && e.event.Tx? && w.safety.hooks.Toyota? && e.event.packet.bus == 0 && e.event.packet.addr == 0x2E4
    && Commanded(e.event.packet) != 0
    && TxAllowed(w.safety, e.event.packet, TxSurroundings(w, e.event.packet, e.now, angleViolation, other))
  }

  // Over any run of events from power-on: a torque that the Toyota mode lets through is at most 450 *
  // (2 + t / 250001), when t microseconds have passed since the torque state was last cleared, and
  // at most 1500; controls are allowed, the stock cruise control is engaged, and the brake does not
  // hold a moving car.
  lemma AcceptedTorqueInRun(debug: bool, start: nat, es: seq<Timed>, ws: seq<Whole>, i: nat,
                            angleViolation: bool, other: bool)
    requires Trace(debug, start, es, ws) && i < |es| && LetsTorqueThrough(ws[i], es[i], angleViolation, other)
    ensures
      var torque, t0 := Abs(Commanded(es[i].event.packet)), LastCleared(debug, start, es, ws, i);
      t0 <= es[i].now && torque <= 450 * (2 + (es[i].now - t0) / 250001) && torque <= 1500
    ensures
      var c := ws[i].safety.core;
      && c.controlsAllowed && !c.relayMalfunction && c.cruiseEngagedPrev && !(c.brakePressed && c.vehicleMoving)
  {
    hide Follows, Consistent, TxAllowed, Violation, T.DesiredTorque, T.SteerRequest, LastCleared, Moves, ModeWindow;
    var w, m := ws[i], es[i].event.packet;
    var f := CommandFrame(w, m, es[i].now);
    CommandBytes(m);
    NonZero(m.data[1], m.data[2]);
    ToyotaAlong(debug, start, es, ws, i);
    BudgetedRun(debug, start, es, ws, i);
    TorqueCommand(w.safety, m, TxSurroundings(w, m, es[i].now, angleViolation, other), w.torque, f);
    LetThrough(w, m, es[i].now, angleViolation, other);
    var (moves, at) := Moves(debug, start, es, ws, i);
    WithinBudget(w.torque, f, LastCleared(debug, start, es, ws, i), moves, at);
  }

  // And it follows the motor: unless it came down by 25 since the last command, it is at most 350 beyond
  // the largest of the last six motor torques, and 1 for rounding, with samples not yet received
  // counted as 0; and the same below. It is at most 15 beyond the last command.
  lemma AcceptedTorqueFollowsMotor(debug: bool, start: nat, es: seq<Timed>, ws: seq<Whole>, i: nat,
                                   angleViolation: bool, other: bool, top: int, bottom: int)
    requires Trace(debug, start, es, ws) && i < |es| && LetsTorqueThrough(ws[i], es[i], angleViolation, other)
    requires var samples := MotorSamples(debug, es, ws, i);
             IsMax(top, Window(samples)) && IsMin(bottom, Window(samples))
    ensures
      var torque, last := Commanded(es[i].event.packet), LastCommand(debug, es, ws, i);
      && Min(last + 25, Min(bottom - 1, 0) - 350) <= torque <= Max(last - 25, Max(top + 1, 0) + 350)
      && Min(last, 0) - 15 <= torque <= Max(last, 0) + 15
  {
    hide Follows, Consistent, TxAllowed, Violation, T.DesiredTorque, T.SteerRequest, LastCommand, MotorSamples, Window,
      IsMin, IsMax, T.TOYOTA_LIMITS;
    var w, m := ws[i], es[i].event.packet;
    var f := CommandFrame(w, m, es[i].now);
    CommandBytes(m);
    NonZero(m.data[1], m.data[2]);
    ToyotaAlong(debug, start, es, ws, i);
    KnowsAlong(debug, start, es, ws, i);
    TorqueCommand(w.safety, m, TxSurroundings(w, m, es[i].now, angleViolation, other), w.torque, f);
    LetThrough(w, m, es[i].now, angleViolation, other);
    NearMotor(w.torque, f);
    SameExtremes(w.windows, MotorSamples(debug, es, ws, i), top, bottom);
  }

  lemma NearMotor(s: TorqueState, f: Frame)
    requires !Violation(T.TOYOTA_LIMITS, s, f) && f.controlsAllowed
    ensures
      var last := s.desiredTorqueLast;
      && Min(last + 25, Min(f.measMin, 0) - 350) <= f.desired <= Max(last - 25, Max(f.measMax, 0) + 350)
      && Min(last, 0) - 15 <= f.desired <= Max(last, 0) + 15
  {
    hide Violation;
    AcceptedExactly(T.TOYOTA_LIMITS, s, f);
  }

  lemma SameExtremes(w: TorqueWindows, samples: seq<int>, top: int, bottom: int)
    requires w.meas == samples && |w.driver| == |samples|
    requires if samples == [] then w.extremes == NO_SAMPLES.extremes else ExtremesFollow(w)
    requires IsMax(top, Window(samples)) && IsMin(bottom, Window(samples))
    ensures w.extremes.measMax <= top + 1 && w.extremes.measMin >= bottom - 1
  {
    if samples == [] {
      assert Window(samples)[0] == 0;
    }
  }

  // The torque check runs for these frames alone.
  lemma ChecksTorqueExactly(w: Whole, e: Timed)
    ensures Commands(w, e) <==>
      && e.event.Tx? && w.safety.hooks.Toyota? && !w.safety.hooks.flags.lta
      && e.event.packet.bus == 0 && e.event.packet.addr == 0x2E4
  {
  }

  // The check in numbers: with controls, a torque is let through exactly if it is within 1500, within 15
  // of the last one, within 450 of the window and, unless it comes down by 25, within 350 of the motor,
  // and the request bit is set, or cut for one frame after at least 18 set ones and 0.17 seconds.
  lemma ToyotaTorqueExactly(s: TorqueState, f: Frame)
    requires s.invalidSteerReqCount >= 0 && f.controlsAllowed
    ensures !Violation(T.TOYOTA_LIMITS, s, f) <==>
      && -1500 <= f.desired <= 1500
      && Min(s.desiredTorqueLast, 0) - 15 <= f.desired <= Max(s.desiredTorqueLast, 0) + 15
      && Min(s.rtTorqueLast, 0) - 450 <= f.desired <= Max(s.rtTorqueLast, 0) + 450
      && f.desired <= Max(s.desiredTorqueLast - 25, Max(f.measMax, 0) + 350)
      && f.desired >= Min(s.desiredTorqueLast + 25, Min(f.measMin, 0) - 350)
      && (f.desired == 0 || f.steerReq != 0 ||
            (&& s.invalidSteerReqCount == 0 && s.validSteerReqCount >= 18
             && TsElapsed(f.Ts(), s.tsSteerReqMismatchLast) >= 170000))
  {
    hide TsElapsed, Violation;
    AcceptedExactly(T.TOYOTA_LIMITS, s, f);
  }

  // A frame that is let through has passed the torque check.
  lemma LetThrough(w: Whole, m: CANPacket, now: nat, angleViolation: bool, other: bool)
    requires w.safety.hooks.Toyota? && !w.safety.hooks.flags.lta && m.bus == 0 && m.addr == 0x2E4
    requires TxAllowed(w.safety, m, TxSurroundings(w, m, now, angleViolation, other))
    ensures !Violation(T.TOYOTA_LIMITS, w.torque, CommandFrame(w, m, now))
  {
    hide Violation, MsgAllowed, T.TOYOTA_LIMITS, T.DesiredTorque, T.SteerRequest;
  }

  lemma WithinBudget(s: TorqueState, f: Frame, t0: nat, moves: nat, at: nat)
    requires !Violation(T.TOYOTA_LIMITS, s, f) && f.desired != 0
    requires ModeWindow(T.TOYOTA_LIMITS, s, t0, moves, at) && at <= f.now
    ensures t0 <= f.now && Abs(f.desired) <= 450 * (2 + (f.now - t0) / 250001)
  {
    hide Violation, Resets, After, ModeWindow;
    ModeBudget(T.TOYOTA_LIMITS, s, t0, moves, at, f.now);
    AcceptedTorque(T.TOYOTA_LIMITS, s, f);
    AcceptedStep(T.TOYOTA_LIMITS, s, f);
  }
}
