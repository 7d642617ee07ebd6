// What the torque check guarantees over whole runs of frames (board/safety.h).
module SteeringRuns {
  import opened Arith
  import opened Steering
  import Samples

  // The state after a run of frames.
  function StateAfter(L: Limits, s: TorqueState, run: seq<Frame>): TorqueState {
    if run == [] then s
    else After(L, StateAfter(L, s, run[..|run| - 1]), run[|run| - 1])
  }

  // Frame i of the run is let through.
  predicate Accepted(L: Limits, s: TorqueState, run: seq<Frame>, i: nat)
    requires i < |run|
  {
    !Violation(L, StateAfter(L, s, run[..i]), run[i])
  }

  // Real time does not run backwards. The content of a frame is otherwise arbitrary: controls,
  // samples and the command may change in any way between frames.
  ghost predicate InOrder(start: nat, run: seq<Frame>) {
    && (forall i :: 0 <= i < |run| ==> start <= run[i].now)
    && (forall i, j :: 0 <= i <= j < |run| ==> run[i].now <= run[j].now)
  }

  // The state left by a resetting frame at real time `start`, and by set_safety_hooks when `start`
  // is the last moment the timer wrapped.
  predicate Fresh(s: TorqueState, start: nat) {
    s == ResetState(start % U32)
  }

  predicate LastFrameResets(L: Limits, s: TorqueState, run: seq<Frame>)
    requires run != []
  {
    Resets(L, StateAfter(L, s, run[..|run| - 1]), run[|run| - 1])
  }

  // Real time of the last frame that cleared the state, or the start of the run.
  function LastReset(L: Limits, s: TorqueState, start: nat, run: seq<Frame>): nat {
    if run == [] then start
    else if LastFrameResets(L, s, run) then run[|run| - 1].now
    else LastReset(L, s, start, run[..|run| - 1])
  }

  // How many frames came after the last one that cleared the state; all of them were accepted.
  function FramesSinceReset(L: Limits, s: TorqueState, run: seq<Frame>): nat {
    if run == [] || LastFrameResets(L, s, run) then 0
    else FramesSinceReset(L, s, run[..|run| - 1]) + 1
  }

  // What one frame that does not reset does to the torque.
  lemma AcceptedStep(L: Limits, s: TorqueState, f: Frame)
    requires !Resets(L, s, f)
    ensures After(L, s, f).desiredTorqueLast == f.desired
    ensures Abs(f.desired) <= L.maxSteer
    ensures L.maxRateUp >= 0 ==> Abs(f.desired) <= Abs(s.desiredTorqueLast) + L.maxRateUp
    ensures L.maxRtDelta >= 0 ==> Abs(f.desired) <= Abs(s.rtTorqueLast) + L.maxRtDelta
    ensures var moved := TsElapsed(f.Ts(), s.tsTorqueCheckLast) > L.maxRtInterval;
            && After(L, s, f).rtTorqueLast == (if moved then f.desired else s.rtTorqueLast)
            && After(L, s, f).tsTorqueCheckLast == (if moved then f.Ts() else s.tsTorqueCheckLast)
  {
    hide DriverMaxLimit, DriverMinLimit, TsElapsed;
  }

  lemma ResetStep(L: Limits, s: TorqueState, f: Frame)
    requires Resets(L, s, f)
    ensures After(L, s, f) == ResetState(f.Ts())
  {
  }

  // An accepted frame without controls carries no torque.
  lemma AcceptedTorque(L: Limits, s: TorqueState, f: Frame)
    requires !Violation(L, s, f)
    ensures f.desired == 0 || !Resets(L, s, f)
  {
    hide DriverMaxLimit, DriverMinLimit, TsElapsed, RateViolation, CutViolation;
  }

  lemma OneMore(a: int, n: int)
    ensures a * (n + 1) == a * n + a
  {
  }

  // A frame with controls is accepted exactly when its torque is within the maximum, the rate, the
  // real-time window and what the samples leave free, and its request bit may be as it is. Without
  // controls it is accepted exactly when it asks for no torque.
  lemma AcceptedExactly(L: Limits, s: TorqueState, f: Frame)
    ensures f.controlsAllowed ==>
      (!Violation(L, s, f) <==>
        && -L.maxSteer <= f.desired <= L.maxSteer
        && Min(s.desiredTorqueLast, 0) - L.maxRateUp <= f.desired <= Max(s.desiredTorqueLast, 0) + L.maxRateUp
        && Min(s.rtTorqueLast, 0) - L.maxRtDelta <= f.desired <= Max(s.rtTorqueLast, 0) + L.maxRtDelta
        && WithinSamples(L, s.desiredTorqueLast, f)
        && !CutViolation(L, s, f.Mismatch(), f.Ts()))
    ensures !f.controlsAllowed ==> (!Violation(L, s, f) <==> f.desired == 0)
  {
    hide TsElapsed, RateViolation, WithinSamples;
    RateExactly(L, s, f);
  }

  lemma RateExactly(L: Limits, s: TorqueState, f: Frame)
    ensures
      var last := s.desiredTorqueLast;
      !RateViolation(L, last, f.desired, f.measMin, f.measMax, f.driverMin, f.driverMax) <==>
        Min(last, 0) - L.maxRateUp <= f.desired <= Max(last, 0) + L.maxRateUp && WithinSamples(L, last, f)
  {
    hide DriverMaxLimit, DriverMinLimit;
    DriverBounds(L, f);
  }

  lemma DriverBounds(L: Limits, f: Frame)
    ensures DriverMaxLimit(L, f.driverMax)
            == L.maxSteer + (L.driverTorqueAllowance + f.driverMax) * L.driverTorqueFactor
    ensures DriverMinLimit(L, f.driverMin)
            == -L.maxSteer - (L.driverTorqueAllowance - f.driverMin) * L.driverTorqueFactor
  {
    assert (-L.driverTorqueAllowance + f.driverMin) * L.driverTorqueFactor
        == -((L.driverTorqueAllowance - f.driverMin) * L.driverTorqueFactor);
  }

  // Beyond what the samples leave free, the torque has come down by a full step: the motor may not
  // lag more than the error behind the command, the driver may not push against it beyond the
  // allowance.
  predicate WithinSamples(L: Limits, last: int, f: Frame) {
    if L.controlType.TorqueMotorLimited? then
      && f.desired <= Max(last - L.maxRateDown, Max(f.measMax, 0) + L.maxTorqueError)
      && f.desired >= Min(last + L.maxRateDown, Min(f.measMin, 0) - L.maxTorqueError)
    else
      var top := L.maxSteer + (L.driverTorqueAllowance + f.driverMax) * L.driverTorqueFactor;
      var bottom := -L.maxSteer - (L.driverTorqueAllowance - f.driverMin) * L.driverTorqueFactor;
      f.desired <= Max(last - L.maxRateDown, Max(top, 0)) && f.desired >= Min(last + L.maxRateDown, Min(bottom, 0))
  }

  // Over any run, a torque that has not come down by a full step since the last accepted one is within
  // the error of the largest and smallest motor torque, or the allowance of the driver.
  lemma AcceptedWithinSamples(L: Limits, s: TorqueState, run: seq<Frame>, i: nat)
    requires i < |run| && Accepted(L, s, run, i) && run[i].controlsAllowed
    ensures WithinSamples(L, LastTorque(L, s, run[..i]), run[i])
  {
    hide Violation, WithinSamples;
    LastTorqueKept(L, s, run[..i]);
    AcceptedExactly(L, StateAfter(L, s, run[..i]), run[i]);
  }

  // The torque of the last frame of a run that was let through with controls, or 0 after a reset.
  function LastTorque(L: Limits, s: TorqueState, run: seq<Frame>): int {
    if run == [] then s.desiredTorqueLast
    else if LastFrameResets(L, s, run) then 0
    else run[|run| - 1].desired
  }

  lemma LastTorqueKept(L: Limits, s: TorqueState, run: seq<Frame>)
    ensures StateAfter(L, s, run).desiredTorqueLast == LastTorque(L, s, run)
  {
    hide Violation;
  }

  // ---- Torque growth in real time ----

  // How often the real-time window moved since the last reset, and when it last did.
  ghost function Checkpoint(L: Limits, s: TorqueState, start: nat, run: seq<Frame>): (nat, nat) {
    if run == [] then (0, start)
    else
      var k := |run| - 1;
      var before := StateAfter(L, s, run[..k]);
      var (moves, at) := Checkpoint(L, s, start, run[..k]);
      if Resets(L, before, run[k]) then (0, run[k].now)
      else if TsElapsed(run[k].Ts(), before.tsTorqueCheckLast) > L.maxRtInterval then (moves + 1, run[k].now)
      else (moves, at)
  }

  // The wrapped timer never measures more than the real time that passed.
  lemma ElapsedWithin(now: nat, last: nat)
    requires last <= now
    ensures TsElapsed(now % U32, last % U32) <= now - last
  {
    var q := now / U32 - last / U32;
    assert now - last == now % U32 - last % U32 + q * U32;
  }

  // It measures real time exactly up to whole turns of the timer.
  lemma ElapsedExactly(now: nat, last: nat)
    requires last <= now
    ensures TsElapsed(now % U32, last % U32) == (now - last) % U32
    ensures now < last + U32 ==> TsElapsed(now % U32, last % U32) == now - last
  {
    var d := now % U32 - last % U32;
    assert now - last == d + (now / U32 - last / U32) * U32;
    SameRemainder(now - last, d, now / U32 - last / U32, U32);
  }

  lemma SameRemainder(x: int, y: int, k: int, n: int)
    requires n > 0 && x == y + k * n
    ensures x % n == y % n
  {
    CongFrom(x, y, n, k);
    CongRemainder(x, y, n);
  }

  // The window moves to the torque of the first accepted frame more than an interval after it last
  // moved, and stays until then.
  lemma WindowMovesExactly(L: Limits, s: TorqueState, f: Frame, at: nat)
    requires s.tsTorqueCheckLast == at % U32 && at <= f.now < at + U32 && !Resets(L, s, f)
    ensures var t := After(L, s, f);
      if f.now - at > L.maxRtInterval then t.rtTorqueLast == f.desired && t.tsTorqueCheckLast == f.now % U32
      else t.rtTorqueLast == s.rtTorqueLast && t.tsTorqueCheckLast == s.tsTorqueCheckLast
  {
    hide TsElapsed, Resets;
    ElapsedExactly(f.now, at);
  }

  // The window last moved at real time `at`, for the moves-th time since t0, and is that wide.
  ghost predicate RtWindow(L: Limits, st: TorqueState, t0: nat, moves: nat, at: nat) {
    && st.tsTorqueCheckLast == at % U32
    && t0 + moves * (L.maxRtInterval + 1) <= at
    && Abs(st.rtTorqueLast) <= L.maxRtDelta * moves
  }

  lemma WindowStep(L: Limits, st: TorqueState, f: Frame, t0: nat, moves: nat, at: nat)
    requires RtWindow(L, st, t0, moves, at) && at <= f.now && L.maxRtDelta >= 0 && !Resets(L, st, f)
    ensures if TsElapsed(f.Ts(), st.tsTorqueCheckLast) > L.maxRtInterval
            then RtWindow(L, After(L, st, f), t0, moves + 1, f.now)
            else RtWindow(L, After(L, st, f), t0, moves, at)
  {
    hide Resets, After, TsElapsed;
    AcceptedStep(L, st, f);
    ElapsedWithin(f.now, at);
    OneMore(L.maxRtDelta, moves);
    OneMore(L.maxRtInterval + 1, moves);
  }

  lemma WindowStart(L: Limits, t0: nat)
    ensures RtWindow(L, ResetState(t0 % U32), t0, 0, t0)
  {
    assert Abs(0) == L.maxRtDelta * 0;
  }

  lemma {:induction false} CheckpointInvariant(L: Limits, s: TorqueState, start: nat, run: seq<Frame>)
    requires Fresh(s, start) && InOrder(start, run) && L.maxRtDelta >= 0
    ensures var (moves, at) := Checkpoint(L, s, start, run);
            && RtWindow(L, StateAfter(L, s, run), LastReset(L, s, start, run), moves, at)
            && at <= (if run == [] then start else run[|run| - 1].now)
  {
    hide After, Resets, TsElapsed, RtWindow;
    if run == [] {
      WindowStart(L, start);
    } else {
      var k := |run| - 1;
      var f := run[k];
      assert InOrder(start, run[..k]);
      CheckpointInvariant(L, s, start, run[..k]);
      var before := StateAfter(L, s, run[..k]);
      var (moves, at) := Checkpoint(L, s, start, run[..k]);
      assert at <= f.now;
      if Resets(L, before, f) {
        ResetStep(L, before, f);
        WindowStart(L, f.now);
      } else {
        WindowStep(L, before, f, LastReset(L, s, start, run[..k]), moves, at);
      }
    }
  }

  // The torque the real-time window allows when so much real time has passed.
  function RtBudget(L: Limits, elapsed: nat): int {
    L.maxRtDelta * (1 + elapsed / (L.maxRtInterval + 1))
  }

  // Every accepted torque is within the real-time budget since the last reset, although the timer
  // the check reads wraps every 2^32 microseconds.
  lemma RealTimeBound(L: Limits, s: TorqueState, start: nat, run: seq<Frame>, i: nat)
    requires Fresh(s, start) && InOrder(start, run) && L.maxRtDelta >= 0
    requires i < |run| && Accepted(L, s, run, i)
    ensures var t0 := LastReset(L, s, start, run[..i]);
            && t0 <= run[i].now
            && Abs(run[i].desired) <= RtBudget(L, run[i].now - t0)
  {
    hide Violation, Resets, After, RtWindow, RtBudget;
    var past, f := run[..i], run[i];
    var st := StateAfter(L, s, past);
    assert InOrder(start, past);
    CheckpointInvariant(L, s, start, past);
    var (moves, at) := Checkpoint(L, s, start, past);
    WindowBudget(L, st, LastReset(L, s, start, past), moves, at, f.now);
    AcceptedTorque(L, st, f);
    if f.desired != 0 {
      AcceptedStep(L, st, f);
    }
  }

  lemma WindowBudget(L: Limits, st: TorqueState, t0: nat, moves: nat, at: nat, now: nat)
    requires RtWindow(L, st, t0, moves, at) && at <= now && L.maxRtDelta >= 0
    ensures t0 <= now
    ensures 0 <= Abs(st.rtTorqueLast) + L.maxRtDelta <= RtBudget(L, now - t0)
  {
    assert moves * (L.maxRtInterval + 1) >= 0;
    BudgetBound(L.maxRtDelta, moves, L.maxRtInterval + 1, now - t0);
  }

  lemma BudgetBound(delta: nat, moves: nat, interval: nat, elapsed: int)
    requires interval > 0 && moves * interval <= elapsed
    ensures 0 <= delta * moves + delta <= delta * (1 + elapsed / interval)
  {
    QuotientAtLeast(moves, interval, elapsed);
    assert delta * (elapsed / interval - moves) >= 0;
    OneMore(delta, elapsed / interval);
  }

  lemma QuotientAtLeast(m: nat, n: nat, x: nat)
    requires n > 0 && m * n <= x
    ensures m <= x / n
  {
    assert x == n * (x / n) + x % n;
    MultipleOrder(x / n + 1, m, n);
  }

  lemma MultipleOrder(a: int, b: int, n: nat)
    ensures a <= b ==> a * n <= b * n
  {
    if a <= b {
      assert (b - a) * n >= 0;
    }
  }

  // ---- Torque growth after a mode change ----

  // Setting a mode at any real time t0 leaves the check time at 0, so that the first frame may move
  // the window at once. Every later move is a full interval after the one before.
  ghost predicate ModeWindow(L: Limits, st: TorqueState, t0: nat, moves: nat, at: nat) {
    && t0 <= at
    && Abs(st.rtTorqueLast) <= L.maxRtDelta * moves
    && (moves > 0 ==> st.tsTorqueCheckLast == at % U32 && t0 + (moves - 1) * (L.maxRtInterval + 1) <= at)
  }

  lemma ModeWindowStart(L: Limits, ts: Timestamp, t0: nat)
    ensures ModeWindow(L, ResetState(ts), t0, 0, t0)
  {
    assert Abs(0) == L.maxRtDelta * 0;
  }

  lemma ModeWindowStep(L: Limits, st: TorqueState, f: Frame, t0: nat, moves: nat, at: nat)
    requires ModeWindow(L, st, t0, moves, at) && at <= f.now && L.maxRtDelta >= 0 && !Resets(L, st, f)
    ensures if TsElapsed(f.Ts(), st.tsTorqueCheckLast) > L.maxRtInterval
            then ModeWindow(L, After(L, st, f), t0, moves + 1, f.now)
            else ModeWindow(L, After(L, st, f), t0, moves, at)
  {
    hide Resets, After, TsElapsed;
    AcceptedStep(L, st, f);
    OneMore(L.maxRtDelta, moves);
    if moves > 0 {
      ElapsedWithin(f.now, at);
      OneMore(L.maxRtInterval + 1, moves - 1);
    } else {
      assert moves * (L.maxRtInterval + 1) == 0;
    }
  }

  lemma {:induction false} ModeWindowInvariant(L: Limits, start: nat, run: seq<Frame>)
    requires InOrder(start, run) && L.maxRtDelta >= 0
    ensures var (moves, at) := Checkpoint(L, ResetState(0), start, run);
            && ModeWindow(L, StateAfter(L, ResetState(0), run), LastReset(L, ResetState(0), start, run), moves, at)
            && at <= (if run == [] then start else run[|run| - 1].now)
  {
    hide After, Resets, TsElapsed, ModeWindow;
    var s := ResetState(0);
    if run == [] {
      ModeWindowStart(L, 0, start);
    } else {
      var k := |run| - 1;
      var f := run[k];
      assert InOrder(start, run[..k]);
      ModeWindowInvariant(L, start, run[..k]);
      var before := StateAfter(L, s, run[..k]);
      var (moves, at) := Checkpoint(L, s, start, run[..k]);
      assert at <= f.now;
      if Resets(L, before, f) {
        ResetStep(L, before, f);
        ModeWindowStart(L, f.Ts(), f.now);
      } else {
        ModeWindowStep(L, before, f, LastReset(L, s, start, run[..k]), moves, at);
      }
    }
  }

  // From a mode change at real time `start` on, the budget since the change or the last reset is
  // exceeded by at most one window move.
  lemma BudgetAfterModeChange(L: Limits, start: nat, run: seq<Frame>, i: nat)
    requires InOrder(start, run) && L.maxRtDelta >= 0
    requires i < |run| && Accepted(L, ResetState(0), run, i)
    ensures var t0 := LastReset(L, ResetState(0), start, run[..i]);
            && t0 <= run[i].now
            && Abs(run[i].desired) <= RtBudget(L, run[i].now - t0) + L.maxRtDelta
  {
    hide Violation, Resets, After, ModeWindow, RtBudget;
    var past, f := run[..i], run[i];
    var st := StateAfter(L, ResetState(0), past);
    assert InOrder(start, past);
    ModeWindowInvariant(L, start, past);
    var (moves, at) := Checkpoint(L, ResetState(0), start, past);
    ModeBudget(L, st, LastReset(L, ResetState(0), start, past), moves, at, f.now);
    AcceptedTorque(L, st, f);
    if f.desired != 0 {
      AcceptedStep(L, st, f);
    }
  }

  lemma ModeBudget(L: Limits, st: TorqueState, t0: nat, moves: nat, at: nat, now: nat)
    requires ModeWindow(L, st, t0, moves, at) && at <= now && L.maxRtDelta >= 0
    ensures t0 <= now
    ensures 0 <= Abs(st.rtTorqueLast) + L.maxRtDelta <= RtBudget(L, now - t0) + L.maxRtDelta
  {
    if moves > 0 {
      BudgetBound(L.maxRtDelta, moves - 1, L.maxRtInterval + 1, now - t0);
      OneMore(L.maxRtDelta, moves - 1);
    } else {
      BudgetBound(L.maxRtDelta, 0, L.maxRtInterval + 1, now - t0);
    }
  }

  // ---- Ramp per frame and absolute limit ----

  lemma {:induction false} RampInvariant(L: Limits, s: TorqueState, start: nat, run: seq<Frame>)
    requires Fresh(s, start) && L.maxRateUp >= 0
    ensures Abs(StateAfter(L, s, run).desiredTorqueLast) <= L.maxRateUp * FramesSinceReset(L, s, run)
  {
    hide After, Resets;
    if run == [] {
      assert Abs(0) <= L.maxRateUp * 0;
    } else {
      var k := |run| - 1;
      RampInvariant(L, s, start, run[..k]);
      var before := StateAfter(L, s, run[..k]);
      var n := FramesSinceReset(L, s, run[..k]);
      OneMore(L.maxRateUp, n);
      if Resets(L, before, run[k]) {
        ResetStep(L, before, run[k]);
      } else {
        AcceptedStep(L, before, run[k]);
      }
    }
  }

  // After k accepted frames the torque is at most k rate steps, and never above the maximum.
  lemma RampBound(L: Limits, s: TorqueState, start: nat, run: seq<Frame>, i: nat)
    requires Fresh(s, start) && L.maxRateUp >= 0 && L.maxSteer >= 0
    requires i < |run| && Accepted(L, s, run, i)
    ensures Abs(run[i].desired) <= Min(L.maxSteer, L.maxRateUp * (FramesSinceReset(L, s, run[..i]) + 1))
  {
    hide Violation, Resets, After;
    var st := StateAfter(L, s, run[..i]);
    RampInvariant(L, s, start, run[..i]);
    OneMore(L.maxRateUp, FramesSinceReset(L, s, run[..i]));
    AcceptedTorque(L, st, run[i]);
    if run[i].desired != 0 {
      AcceptedStep(L, st, run[i]);
    }
  }

  // ---- Winding down ----

  predicate NonNegative(L: Limits) {
    L.maxSteer >= 0 && L.maxRateUp >= 0 && L.maxRateDown >= 0 && L.maxRtDelta >= 0 && L.maxTorqueError >= 0
  }

  // The last torque is within the maximum and the real-time window around rt_torque_last.
  predicate Reachable(L: Limits, s: TorqueState) {
    && Abs(s.desiredTorqueLast) <= L.maxSteer
    && !RtRateLimitCheck(s.desiredTorqueLast, s.rtTorqueLast, L.maxRtDelta)
  }

  lemma {:induction false} ReachableInvariant(L: Limits, s: TorqueState, start: nat, run: seq<Frame>)
    requires NonNegative(L) && Fresh(s, start)
    ensures Reachable(L, StateAfter(L, s, run))
  {
    if run != [] {
      ReachableInvariant(L, s, start, run[..|run| - 1]);
    }
  }

  // One full step towards zero, stopping there.
  function WindDown(last: int, step: int): int {
    if last > 0 then Max(last - step, 0) else Min(last + step, 0)
  }

  // A full step towards zero is accepted whatever the samples are and whenever it comes.
  lemma WindDownAccepted(L: Limits, s: TorqueState, f: Frame)
    requires NonNegative(L) && Reachable(L, s)
    requires f.controlsAllowed && f.steerReq != 0 && f.desired == WindDown(s.desiredTorqueLast, L.maxRateDown)
    ensures !Violation(L, s, f) && After(L, s, f).desiredTorqueLast == f.desired
    ensures Reachable(L, After(L, s, f))
  {
    hide DriverMaxLimit, DriverMinLimit, TsElapsed;
  }

  // The highest magnitude the samples leave free, on the side of the last torque.
  function Ceiling(L: Limits, last: int, f: Frame): int {
    if L.controlType.TorqueDriverLimited? then
      if last > 0 then Max(DriverMaxLimit(L, f.driverMax), 0) else -Min(DriverMinLimit(L, f.driverMin), 0)
    else
      if last > 0 then Max(f.measMax, 0) + L.maxTorqueError else -Min(f.measMin, 0) + L.maxTorqueError
  }

  predicate TowardsZero(last: int, val: int) {
    if last > 0 then 0 <= val <= last else last <= val <= 0
  }

  // A smaller step towards zero is not always accepted: it is exactly when the new torque is below
  // what the samples allow, or the step was a full one after all.
  lemma PartialWindDown(L: Limits, s: TorqueState, f: Frame)
    requires NonNegative(L) && Reachable(L, s)
    requires f.controlsAllowed && f.steerReq != 0
    requires TowardsZero(s.desiredTorqueLast, f.desired)
    ensures !Violation(L, s, f) <==>
      Abs(f.desired) <= Max(Abs(s.desiredTorqueLast) - L.maxRateDown, Ceiling(L, s.desiredTorqueLast, f))
  {
    hide DriverMaxLimit, DriverMinLimit, TsElapsed;
  }

  // A step by less than the full amount that the measured torque refuses.
  lemma PartialWindDownRefused()
    ensures var L := Limits(1500, 15, 25, 450, 250000, TorqueMotorLimited, 0, 0, 350, 18, 1, 170000, true);
            var s := TorqueState(700, 700, 18, 0, 0, 0);
            var f := Frame(690, 1, 1000, true, 0, 0, 0, 0);
            && NonNegative(L) && Reachable(L, s)
            && Abs(f.desired) < Abs(s.desiredTorqueLast) && Violation(L, s, f)
            && !Violation(L, s, f.(desired := 675))
  {
  }

  // Frame i of the run asks for one more full step towards zero with the request bit set.
  ghost predicate WindsDown(L: Limits, s: TorqueState, run: seq<Frame>) {
    forall i :: 0 <= i < |run| ==>
      && run[i].controlsAllowed && run[i].steerReq != 0
      && run[i].desired == WindDown(StateAfter(L, s, run[..i]).desiredTorqueLast, L.maxRateDown)
  }

  lemma WindsDownBefore(L: Limits, s: TorqueState, run: seq<Frame>)
    requires run != [] && WindsDown(L, s, run)
    ensures
      var past, f := run[..|run| - 1], run[|run| - 1];
      && WindsDown(L, s, past) && f.controlsAllowed && f.steerReq != 0
      && f.desired == WindDown(StateAfter(L, s, past).desiredTorqueLast, L.maxRateDown)
  {
    hide After, WindDown;
    var past := run[..|run| - 1];
    forall i | 0 <= i < |past| ensures past[..i] == run[..i] && past[i] == run[i] {
    }
  }

  lemma StartMagnitude(a: nat, d: nat)
    ensures Max(a - 0 * d, 0) == a
  {
  }

  lemma WindDownMagnitude(last: int, step: nat)
    ensures Abs(WindDown(last, step)) == Max(Abs(last) - step, 0)
  {
  }

  lemma StepsLeft(a: nat, d: nat, k: nat)
    ensures Max(Max(a - k * d, 0) - d, 0) == Max(a - (k + 1) * d, 0)
  {
    OneMore(d, k);
  }

  // Winding down always succeeds: every frame is accepted, and the torque is zero after
  // ceil(|last| / max_rate_down) frames.
  lemma {:induction false} WindDownRun(L: Limits, s: TorqueState, run: seq<Frame>)
    requires NonNegative(L) && Reachable(L, s) && WindsDown(L, s, run)
    ensures forall i :: 0 <= i < |run| ==> Accepted(L, s, run, i)
    ensures Reachable(L, StateAfter(L, s, run))
    ensures Abs(StateAfter(L, s, run).desiredTorqueLast)
         == Max(Abs(s.desiredTorqueLast) - |run| * L.maxRateDown, 0)
  {
    hide Violation, After, Reachable, Max, WindsDown, WindDown;
    if run == [] {
      StartMagnitude(Abs(s.desiredTorqueLast), L.maxRateDown);
    } else {
      var k := |run| - 1;
      var past := run[..k];
      WindsDownBefore(L, s, run);
      WindDownRun(L, s, past);
      forall i | 0 <= i < k ensures Accepted(L, s, run, i) {
        assert Accepted(L, s, past, i) && past[i] == run[i] && past[..i] == run[..i];
      }
      WindDownAccepted(L, StateAfter(L, s, past), run[k]);
      WindDownMagnitude(StateAfter(L, s, past).desiredTorqueLast, L.maxRateDown);
      StepsLeft(Abs(s.desiredTorqueLast), L.maxRateDown, k);
    }
  }

  lemma WindDownReachesZero(L: Limits, s: TorqueState, run: seq<Frame>)
    requires NonNegative(L) && L.maxRateDown > 0 && Reachable(L, s) && WindsDown(L, s, run)
    requires |run| >= (Abs(s.desiredTorqueLast) + L.maxRateDown - 1) / L.maxRateDown
    ensures StateAfter(L, s, run).desiredTorqueLast == 0
  {
    hide Violation, After, Reachable, WindsDown;
    WindDownRun(L, s, run);
    EnoughSteps(Abs(s.desiredTorqueLast), L.maxRateDown, |run|);
  }

  lemma EnoughSteps(a: nat, d: nat, n: nat)
    requires d > 0 && n >= (a + d - 1) / d
    ensures n * d >= a
  {
    var q := (a + d - 1) / d;
    assert a + d - 1 == q * d + (a + d - 1) % d;
    assert (n - q) * d >= 0;
  }

  // ---- Opposing driver ----

  // While the driver opposes hard enough in every frame, accepted torque only shrinks, by at least
  // max_rate_down a frame.
  lemma {:induction false} OpposingDriver(L: Limits, s: TorqueState, run: seq<Frame>, i: nat)
    requires L.controlType.TorqueDriverLimited? && L.maxRateDown >= 0
    requires forall j :: 0 <= j < |run| ==> DriverMaxLimit(L, run[j].driverMax) <= 0
    requires i < |run| && Accepted(L, s, run, i)
    ensures run[i].desired <= Max(s.desiredTorqueLast - (i + 1) * L.maxRateDown, 0)
  {
    hide Violation, After, DriverMaxLimit;
    LastTorqueShrinks(L, s, run[..i]);
    OneMore(L.maxRateDown, i);
    OpposedStep(L, StateAfter(L, s, run[..i]), run[i]);
  }

  lemma OpposedStep(L: Limits, s: TorqueState, f: Frame)
    requires L.controlType.TorqueDriverLimited? && L.maxRateDown >= 0 && DriverMaxLimit(L, f.driverMax) <= 0
    ensures After(L, s, f).desiredTorqueLast <= Max(s.desiredTorqueLast - L.maxRateDown, 0)
    ensures !Violation(L, s, f) ==> f.desired <= Max(s.desiredTorqueLast - L.maxRateDown, 0)
  {
    hide DriverMaxLimit, DriverMinLimit, TsElapsed;
  }

  lemma {:induction false} LastTorqueShrinks(L: Limits, s: TorqueState, run: seq<Frame>)
    requires L.controlType.TorqueDriverLimited? && L.maxRateDown >= 0
    requires forall j :: 0 <= j < |run| ==> DriverMaxLimit(L, run[j].driverMax) <= 0
    ensures StateAfter(L, s, run).desiredTorqueLast <= Max(s.desiredTorqueLast - |run| * L.maxRateDown, 0)
  {
    hide Violation, After, DriverMaxLimit;
    if run != [] {
      var k := |run| - 1;
      LastTorqueShrinks(L, s, run[..k]);
      OneMore(L.maxRateDown, k);
      OpposedStep(L, StateAfter(L, s, run[..k]), run[k]);
    }
  }

  // Negating torque and samples mirrors the check, so the same holds for negative torque.
  function Mirror(f: Frame): Frame {
    f.(desired := -f.desired, measMin := -f.measMax, measMax := -f.measMin,
       driverMin := -f.driverMax, driverMax := -f.driverMin)
  }

  function MirrorState(s: TorqueState): TorqueState {
    s.(desiredTorqueLast := -s.desiredTorqueLast, rtTorqueLast := -s.rtTorqueLast)
  }

  lemma MirrorStep(L: Limits, s: TorqueState, f: Frame)
    ensures Violation(L, MirrorState(s), Mirror(f)) == Violation(L, s, f)
    ensures After(L, MirrorState(s), Mirror(f)) == MirrorState(After(L, s, f))
  {
    MirrorRate(L, s.desiredTorqueLast, f.desired, f.measMin, f.measMax, f.driverMin, f.driverMax);
    hide RateViolation, TsElapsed;
  }

  lemma MirrorRate(L: Limits, last: int, val: int, measMin: int, measMax: int, driverMin: int, driverMax: int)
    ensures RateViolation(L, -last, -val, -measMax, -measMin, -driverMax, -driverMin)
         == RateViolation(L, last, val, measMin, measMax, driverMin, driverMax)
  {
    MirrorLimit(L, driverMin, driverMax);
    hide DriverMaxLimit, DriverMinLimit;
  }

  lemma MirrorLimit(L: Limits, driverMin: int, driverMax: int)
    ensures DriverMaxLimit(L, -driverMin) == -DriverMinLimit(L, driverMin)
    ensures DriverMinLimit(L, -driverMax) == -DriverMaxLimit(L, driverMax)
  {
    assert (L.driverTorqueAllowance - driverMin) * L.driverTorqueFactor
        == -((-L.driverTorqueAllowance + driverMin) * L.driverTorqueFactor);
    assert (-L.driverTorqueAllowance - driverMax) * L.driverTorqueFactor
        == -((L.driverTorqueAllowance + driverMax) * L.driverTorqueFactor);
  }

  function MirrorRun(run: seq<Frame>): (m: seq<Frame>)
    ensures |m| == |run|
  {
    seq(|run|, i requires 0 <= i < |run| => Mirror(run[i]))
  }

  lemma {:induction false} MirrorRuns(L: Limits, s: TorqueState, run: seq<Frame>)
    ensures StateAfter(L, MirrorState(s), MirrorRun(run)) == MirrorState(StateAfter(L, s, run))
  {
    if run != [] {
      var k := |run| - 1;
      assert MirrorRun(run)[..k] == MirrorRun(run[..k]);
      MirrorRuns(L, s, run[..k]);
      MirrorStep(L, StateAfter(L, s, run[..k]), run[k]);
    }
  }

  lemma OpposingDriverMirrored(L: Limits, s: TorqueState, run: seq<Frame>, i: nat)
    requires L.controlType.TorqueDriverLimited? && L.maxRateDown >= 0
    requires forall j :: 0 <= j < |run| ==> DriverMinLimit(L, run[j].driverMin) >= 0
    requires i < |run| && Accepted(L, s, run, i)
    ensures run[i].desired >= Min(s.desiredTorqueLast + (i + 1) * L.maxRateDown, 0)
  {
    var m := MirrorRun(run);
    forall j | 0 <= j < |m| ensures DriverMaxLimit(L, m[j].driverMax) <= 0 {
      MirrorLimit(L, run[j].driverMin, run[j].driverMax);
    }
    assert m[..i] == MirrorRun(run[..i]);
    MirrorRuns(L, s, run[..i]);
    MirrorStep(L, StateAfter(L, s, run[..i]), run[i]);
    OpposingDriver(L, MirrorState(s), m, i);
  }

  // The hypothesis of OpposingDriver in terms of the driver: six samples at or below the torque
  // that uses up the allowance.
  lemma OpposingSamples(L: Limits, history: seq<int>, driverMax: int, bound: int)
    requires L.driverTorqueFactor >= 0 && |history| >= 6
    requires Samples.IsMax(driverMax, Samples.Window(history))
    requires forall k :: |history| - 6 <= k < |history| ==> history[k] <= bound
    requires L.maxSteer + (L.driverTorqueAllowance + bound) * L.driverTorqueFactor <= 0
    ensures DriverMaxLimit(L, driverMax) <= 0
  {
    Samples.WindowIsLastSix(history, driverMax);
    assert driverMax <= bound;
    assert (bound - driverMax) * L.driverTorqueFactor >= 0;
  }

  // ---- Request-bit tolerance ----

  // The last frame counts as a torque cut: it was accepted with the request bit low.
  predicate LastFrameCuts(L: Limits, s: TorqueState, run: seq<Frame>)
    requires run != []
  {
    !LastFrameResets(L, s, run) && run[|run| - 1].Mismatch()
  }

  // Consecutive accepted frames with a matching request bit at the end of the run.
  function MatchStreak(L: Limits, s: TorqueState, run: seq<Frame>): nat {
    if run == [] || LastFrameResets(L, s, run) || LastFrameCuts(L, s, run) then 0
    else MatchStreak(L, s, run[..|run| - 1]) + 1
  }

  // Consecutive accepted cuts at the end of the run.
  function CutStreak(L: Limits, s: TorqueState, run: seq<Frame>): nat {
    if run == [] || !LastFrameCuts(L, s, run) then 0
    else CutStreak(L, s, run[..|run| - 1]) + 1
  }

  // Real time of the last cut or reset.
  function LastCutOrReset(L: Limits, s: TorqueState, start: nat, run: seq<Frame>): nat {
    if run == [] then start
    else if LastFrameResets(L, s, run) || LastFrameCuts(L, s, run) then run[|run| - 1].now
    else LastCutOrReset(L, s, start, run[..|run| - 1])
  }

  lemma {:induction false} StreakInvariant(L: Limits, s: TorqueState, start: nat, run: seq<Frame>)
    requires Fresh(s, start) && InOrder(start, run)
    requires L.hasSteerReqTolerance && L.minValidRequestFrames >= 1 && L.maxInvalidRequestFrames >= 1
    ensures var st := StateAfter(L, s, run);
            var at := LastCutOrReset(L, s, start, run);
            && st.validSteerReqCount == Min(L.minValidRequestFrames, MatchStreak(L, s, run))
            && st.invalidSteerReqCount == CutStreak(L, s, run) <= L.maxInvalidRequestFrames
            && st.tsSteerReqMismatchLast == at % U32
            && at <= (if run == [] then start else run[|run| - 1].now)
  {
    if run != [] {
      var k := |run| - 1;
      assert InOrder(start, run[..k]);
      StreakInvariant(L, s, start, run[..k]);
    }
  }

  // Every accepted cut that starts a new streak comes after enough consecutive matching frames and
  // enough real time without a cut or reset, and no streak of cuts is longer than allowed.
  lemma CutsAreRare(L: Limits, s: TorqueState, start: nat, run: seq<Frame>, i: nat)
    requires Fresh(s, start) && InOrder(start, run)
    requires L.hasSteerReqTolerance && L.minValidRequestFrames >= 1 && L.maxInvalidRequestFrames >= 1
    requires i < |run| && Accepted(L, s, run, i) && run[i].Mismatch()
    ensures run[i].controlsAllowed
    ensures CutStreak(L, s, run[..i]) == 0 ==>
      && MatchStreak(L, s, run[..i]) >= L.minValidRequestFrames
      && run[i].now - LastCutOrReset(L, s, start, run[..i]) >= L.minValidRequestRtInterval
    ensures CutStreak(L, s, run[..i]) + 1 <= L.maxInvalidRequestFrames
    ensures run[..i + 1] != [] && LastFrameCuts(L, s, run[..i + 1])
  {
    var past := run[..i];
    assert InOrder(start, past);
    StreakInvariant(L, s, start, past);
    ElapsedWithin(run[i].now, LastCutOrReset(L, s, start, past));
    assert run[..i + 1][..i] == past;
  }

  // Which cuts the tolerance lets through, exactly: with controls, a frame with the request bit low
  // under torque is accepted if and only if it would be with the bit set, and either it continues a
  // streak that is not too long, or it starts one after enough matching frames and enough time. Time
  // is real time up to whole turns of the timer.
  lemma CutsExactly(L: Limits, s: TorqueState, start: nat, run: seq<Frame>, i: nat)
    requires Fresh(s, start) && InOrder(start, run)
    requires L.hasSteerReqTolerance && L.minValidRequestFrames >= 1 && L.maxInvalidRequestFrames >= 1
    requires i < |run| && run[i].controlsAllowed && run[i].Mismatch()
    ensures Accepted(L, s, run, i) <==>
      && !Violation(L, StateAfter(L, s, run[..i]), run[i].(steerReq := 1))
      && if CutStreak(L, s, run[..i]) > 0 then CutStreak(L, s, run[..i]) < L.maxInvalidRequestFrames
         else && MatchStreak(L, s, run[..i]) >= L.minValidRequestFrames
              && (run[i].now - LastCutOrReset(L, s, start, run[..i])) % U32 >= L.minValidRequestRtInterval
  {
    hide RateViolation, TsElapsed, StateAfter, Resets, After, CutStreak, MatchStreak, LastCutOrReset;
    var past := run[..i];
    assert InOrder(start, past);
    StreakInvariant(L, s, start, past);
    ElapsedExactly(run[i].now, LastCutOrReset(L, s, start, past));
  }

  // Without tolerance, no accepted frame has the request bit low under torque.
  lemma NoCutsWithoutTolerance(L: Limits, s: TorqueState, f: Frame)
    requires !L.hasSteerReqTolerance && !Violation(L, s, f)
    ensures f.steerReq == 0 ==> f.desired == 0
  {
    hide RateViolation, TsElapsed;
  }
}
