// What the safety layer guarantees over whole runs of frames, ticks and requests.
module SafetyRuns {
  import opened Arith
  import opened CanPacket
  import opened Steering
  import opened SafetyState
  import opened RxChecks
  import opened SafetySteps
  import opened ToyotaBytes
  import T = ToyotaHooks
  import Torque = SteeringRuns

  predicate SetsMode(e: Event) {
    e.SetMode? || e.HarnessChange?
  }

  // ---- Controls in the Toyota mode ----

  // Between steps, controls are on only with the stock cruise control engaged and not against the
  // brake of a moving car; gas and brake have been looked at.
  predicate ToyotaCore(c: Core) {
    && (c.controlsAllowed ==> c.cruiseEngagedPrev && !(c.brakePressed && c.vehicleMoving))
    && c.gasPressedPrev == c.gasPressed
    && c.brakePressedPrev == c.brakePressed
    && !c.regenBraking && !c.regenBrakingPrev
  }

  predicate ToyotaInvariant(s: Safety) {
    s.hooks.Toyota? ==> ToyotaCore(s.core) && s.config == T.InitConfig(s.hooks.flags)
  }

  lemma ToyotaMode(s: Safety)
    requires Consistent(s)
    ensures s.mode == SAFETY_TOYOTA <==> s.hooks.Toyota?
  {
  }

  lemma HookKeepsToyotaCore(flags: Flags, noDisengageOnGas: bool, modeCnt: nat, c: Core, m: CANPacket)
    requires ToyotaCore(c)
    ensures ToyotaCore(T.RxHook(flags, noDisengageOnGas, modeCnt, c, m))
  {
    hide T.CruiseActive, T.Moving, T.BrakeOn, T.StockEcu, BitAt, T.GenericChecks;
    T.GenericOutcome(T.Signals(flags, c, m), noDisengageOnGas, modeCnt, T.StockEcu(flags, m.addr));
  }

  predicate SameMode(s: Safety, t: Safety) {
    t.hooks == s.hooks && t.config == s.config && t.mode == s.mode
  }

  predicate Silenced(t: Safety) {
    t.core == CLEARED && t.hooks == NoOutput && t.mode == SAFETY_SILENT
  }

  lemma CountSecondsKeepsCore(s: Safety)
    ensures
      var t := CountSeconds(s);
      SameMode(s, t) && t.core == s.core.(controlsAllowed := t.core.controlsAllowed)
    ensures CountSeconds(s).core.controlsAllowed ==> s.core.controlsAllowed
  {
  }

  lemma GoSilentSilences(s: Safety)
    ensures
      var t := GoSilent(s);
      if s.mode == SAFETY_SILENT then SameMode(s, t) && t.core == s.core else Silenced(t)
  {
    hide IsCarMode;
  }

  lemma BeforeLagKeepsCore(s: Safety, started: bool)
    ensures
      var t := BeforeLag(s, started);
      Silenced(t) || (SameMode(s, t) && t.core == s.core.(controlsAllowed := t.core.controlsAllowed))
    ensures BeforeLag(s, started).core.controlsAllowed ==> s.core.controlsAllowed
  {
    hide HeartbeatGone, CountSeconds, GoSilent, CLEARED;
    CountSecondsKeepsCore(s);
    GoSilentSilences(CountSeconds(s));
    assert !CLEARED.controlsAllowed by { ClearedHasNoControls(); }
  }

  lemma ClearedHasNoControls()
    ensures !CLEARED.controlsAllowed
  {
  }

  // A tick takes controls away or silences the device; the vehicle state stays as it is.
  lemma TickKeepsCore(s: Safety, started: bool, ts: Timestamp)
    requires Consistent(s)
    ensures
      var t := OnTick(s, started, ts);
      Silenced(t) || (SameMode(s, t) && t.core == s.core.(controlsAllowed := t.core.controlsAllowed))
    ensures OnTick(s, started, ts).core.controlsAllowed ==> s.core.controlsAllowed
  {
    hide AllFine, MarkLagging, Consistent, BeforeLag;
    ConsistentBeforeLag(s, started);
    BeforeLagKeepsCore(s, started);
  }

  lemma RxKeepsToyotaInvariant(s: Safety, m: CANPacket, ts: Timestamp, env: OtherRx)
    requires Consistent(s) && ToyotaInvariant(s)
    ensures ToyotaInvariant(OnRx(s, m, ts, env))
  {
    hide CheckedFrame, T.RxHook, Consistent;
    if s.hooks.Toyota? {
      HookKeepsToyotaCore(s.hooks.flags, s.NoDisengageOnGas(), s.modeCnt, s.core, m);
    }
  }

  lemma StepKeepsToyotaInvariant(debug: bool, s: Safety, e: Event)
    requires Consistent(s) && ToyotaInvariant(s)
    ensures ToyotaInvariant(Step(debug, s, e))
  {
    hide OnRx, OnTick, T.InitConfig, T.InitFlags, Consistent, Registered;
    match e
    case Rx(m, ts, env) => RxKeepsToyotaInvariant(s, m, ts, env);
    case Tick(started, ts) => TickKeepsCore(s, started, ts);
    case _ =>
  }

  lemma {:induction false} ToyotaReachable(debug: bool, s: Safety, es: seq<Event>)
    requires Consistent(s) && ToyotaInvariant(s) && SaneRun(es)
    ensures ToyotaInvariant(Run(debug, s, es))
  {
    hide Step, ToyotaInvariant;
    if es != [] {
      var k := |es| - 1;
      ToyotaReachable(debug, s, es[..k]);
      StepKeepsToyotaInvariant(debug, Run(debug, s, es[..k]), es[k]);
    }
  }

  // A valid frame in which the stock cruise control goes from not engaged to engaged.
  predicate CruiseEdge(s: Safety, e: Event)
    requires Consistent(s)
  {
    && e.Rx? && e.packet.bus == 0 && e.packet.addr == 0x1D2
    && Processed(s, e.packet, e.ts, e.rxEnv)
    && !s.core.cruiseEngagedPrev && T.CruiseActive(e.packet)
  }

  lemma HookEngages(flags: Flags, noDisengageOnGas: bool, modeCnt: nat, c: Core, m: CANPacket)
    requires !c.controlsAllowed && T.RxHook(flags, noDisengageOnGas, modeCnt, c, m).controlsAllowed
    ensures m.bus == 0 && m.addr == 0x1D2 && !c.cruiseEngagedPrev && T.CruiseActive(m)
  {
    hide T.Signals, T.StockEcu, T.GenericChecks;
    SignalsEngage(flags, c, m);
    T.GenericOutcome(T.Signals(flags, c, m), noDisengageOnGas, modeCnt, T.StockEcu(flags, m.addr));
  }

  lemma SignalsEngage(flags: Flags, c: Core, m: CANPacket)
    requires !c.controlsAllowed
    ensures T.Signals(flags, c, m).controlsAllowed ==>
      m.addr == 0x1D2 && !c.cruiseEngagedPrev && T.CruiseActive(m)
  {
    hide T.CruiseActive, T.Moving, T.BrakeOn, T.IsBrakeMsg, BitAt, POWERS, Word16, T.PcmCruise;
    if m.addr == 0x1D2 {
      CruiseEngages(c, T.CruiseActive(m));
    }
  }

  lemma CruiseEngages(c: Core, cruiseEngaged: bool)
    ensures T.PcmCruise(c, cruiseEngaged).controlsAllowed <==>
      cruiseEngaged && (c.controlsAllowed || !c.cruiseEngagedPrev)
  {
  }

  // Nothing but such an edge gives controls.
  lemma OnlyCruiseEdgesEngage(debug: bool, s: Safety, e: Event)
    requires Consistent(s) && s.hooks.Toyota? && !SetsMode(e)
    requires !s.core.controlsAllowed && Step(debug, s, e).core.controlsAllowed
    ensures CruiseEdge(s, e)
  {
    hide CheckedFrame, T.RxHook, T.CruiseActive, OnTick, Consistent;
    match e
    case Rx(m, ts, env) => HookEngages(s.hooks.flags, s.NoDisengageOnGas(), s.modeCnt, s.core, m);
    case Tick(started, ts) => TickKeepsCore(s, started, ts);
    case _ =>
  }

  lemma HookEngagesExactly(flags: Flags, noDisengageOnGas: bool, modeCnt: nat, c: Core, m: CANPacket)
    requires ToyotaCore(c) && !c.controlsAllowed
    ensures T.RxHook(flags, noDisengageOnGas, modeCnt, c, m).controlsAllowed <==>
      && m.bus == 0 && m.addr == 0x1D2 && !c.cruiseEngagedPrev && T.CruiseActive(m)
      && (BitAt(m, 4) || c.gasPressed || noDisengageOnGas)
      && !(c.brakePressed && c.vehicleMoving)
  {
    hide T.StockEcu, T.GenericChecks, T.Moving, T.BrakeOn, T.CruiseActive, T.PcmCruise, BitAt;
    CruiseEngages(c, T.CruiseActive(m));
    T.GenericOutcome(T.Signals(flags, c, m), noDisengageOnGas, modeCnt, T.StockEcu(flags, m.addr));
  }

  // And such an edge does give controls, unless the gas goes down with it or the brake holds a moving car.
  lemma EngagesExactly(debug: bool, s: Safety, e: Event)
    requires Consistent(s) && ToyotaInvariant(s) && s.hooks.Toyota? && !SetsMode(e) && !s.core.controlsAllowed
    ensures Step(debug, s, e).core.controlsAllowed <==>
      && CruiseEdge(s, e)
      && (BitAt(e.packet, 4) || s.core.gasPressed || s.NoDisengageOnGas())
      && !(s.core.brakePressed && s.core.vehicleMoving)
  {
    hide CheckedFrame, T.RxHook, T.CruiseActive, OnTick, Consistent, ToyotaCore, BitAt;
    match e
    case Rx(m, ts, env) => HookEngagesExactly(s.hooks.flags, s.NoDisengageOnGas(), s.modeCnt, s.core, m);
    case Tick(started, ts) => TickKeepsCore(s, started, ts);
    case _ =>
  }

  predicate NoModeChange(es: seq<Event>) {
    forall e <- es :: !SetsMode(e)
  }

  // The mode stays while nobody sets it, or the heartbeat loss silences it.
  lemma StepMode(debug: bool, s: Safety, e: Event)
    requires Consistent(s) && !SetsMode(e)
    ensures SameMode(s, Step(debug, s, e)) || Silenced(Step(debug, s, e))
    ensures s.mode == SAFETY_SILENT ==> Step(debug, s, e).mode == SAFETY_SILENT
  {
    hide CheckedFrame, HookedCore, OnTick, Consistent;
    if e.Tick? {
      TickKeepsCore(s, e.started, e.ts);
    }
  }

  lemma {:induction false} RunMode(debug: bool, s: Safety, es: seq<Event>)
    requires Consistent(s) && SaneRun(es) && NoModeChange(es)
    ensures var t := Run(debug, s, es); t.mode == s.mode || t.mode == SAFETY_SILENT
    ensures var t := Run(debug, s, es); s.hooks.Toyota? ==> t.hooks == s.hooks || t.hooks.NoOutput?
  {
    hide Step, Consistent;
    if es != [] {
      var k := |es| - 1;
      RunMode(debug, s, es[..k]);
      StepKeepsConsistent(debug, s, es[k]);
      StepMode(debug, Run(debug, s, es[..k]), es[k]);
    }
  }

  // ---- After the brake ----

  // Event i of the run is such an edge, in the state it meets.
  ghost predicate EdgeAt(debug: bool, s: Safety, es: seq<Event>, i: nat)
    requires Consistent(s) && SaneRun(es) && i < |es|
  {
    CruiseEdge(Run(debug, s, es[..i]), es[i])
  }

  // Such an edge, with controls ever since.
  ghost predicate EngagedSince(debug: bool, s: Safety, es: seq<Event>, i: nat)
    requires Consistent(s) && SaneRun(es) && i < |es|
  {
    EdgeAt(debug, s, es, i) && forall j :: i < j <= |es| ==> Run(debug, s, es[..j]).core.controlsAllowed
  }

  lemma SilentHasNoControls(s: Safety)
    requires Consistent(s) && s.hooks.NoOutput?
    ensures !s.core.controlsAllowed
  {
  }

  // Without controls at the start of a run, they are there at its end only if the run has a cruise
  // edge since which they stayed.
  lemma {:induction false} ControlsNeedEdge(debug: bool, s: Safety, es: seq<Event>)
    requires Consistent(s) && s.hooks.Toyota? && SaneRun(es) && NoModeChange(es)
    requires !s.core.controlsAllowed && Run(debug, s, es).core.controlsAllowed
    ensures exists i :: 0 <= i < |es| && EngagedSince(debug, s, es, i)
  {
    hide Step, CruiseEdge, Consistent, SetsMode;
    var k := |es| - 1;
    var past := es[..k];
    var before, after := Run(debug, s, past), Run(debug, s, es);
    assert es[..|es|] == es;
    RunMode(debug, s, past);
    StepMode(debug, before, es[k]);
    if after.hooks.NoOutput? {
      SilentHasNoControls(after);
    }
    if before.core.controlsAllowed {
      ControlsNeedEdge(debug, s, past);
      var i :| 0 <= i < |past| && EngagedSince(debug, s, past, i);
      forall j | i < j <= |es| ensures Run(debug, s, es[..j]).core.controlsAllowed {
        if j <= k {
          assert es[..j] == past[..j];
        }
      }
      assert es[..i] == past[..i];
      assert EngagedSince(debug, s, es, i);
    } else {
      OnlyCruiseEdgesEngage(debug, before, es[k]);
      assert EngagedSince(debug, s, es, k);
    }
  }

  lemma HookBrakeEdge(flags: Flags, noDisengageOnGas: bool, modeCnt: nat, c: Core, m: CANPacket)
    requires ToyotaCore(c) && !c.brakePressed
    ensures var d := T.RxHook(flags, noDisengageOnGas, modeCnt, c, m); d.brakePressed ==> !d.controlsAllowed
  {
    hide T.CruiseActive, T.Moving, T.BrakeOn, T.StockEcu, BitAt, POWERS, Word16, T.GenericChecks;
    T.GenericOutcome(T.Signals(flags, c, m), noDisengageOnGas, modeCnt, T.StockEcu(flags, m.addr));
  }

  // The brake going down ends the controls.
  lemma BrakeEdgeEnds(debug: bool, s: Safety, e: Event)
    requires Consistent(s) && ToyotaInvariant(s) && s.hooks.Toyota? && !SetsMode(e)
    requires !s.core.brakePressed && Step(debug, s, e).core.brakePressed
    ensures !Step(debug, s, e).core.controlsAllowed && Step(debug, s, e).hooks == s.hooks
  {
    hide CheckedFrame, T.RxHook, OnTick, Consistent, ToyotaCore;
    match e
    case Rx(m, ts, env) => HookBrakeEdge(s.hooks.flags, s.NoDisengageOnGas(), s.modeCnt, s.core, m);
    case Tick(started, ts) => TickKeepsCore(s, started, ts);
    case _ =>
  }

  // After the brake went down, controls come back only with a later cruise edge.
  lemma AfterBrake(debug: bool, s: Safety, e: Event, es: seq<Event>)
    requires Consistent(s) && ToyotaInvariant(s) && s.hooks.Toyota? && !SetsMode(e)
    requires Sane(e) && SaneRun(es) && NoModeChange(es)
    requires !s.core.brakePressed && Step(debug, s, e).core.brakePressed
    requires Consistent(Step(debug, s, e)) && Run(debug, Step(debug, s, e), es).core.controlsAllowed
    ensures exists i :: 0 <= i < |es| && EngagedSince(debug, Step(debug, s, e), es, i)
  {
    hide Step, Consistent, EngagedSince, ToyotaInvariant;
    BrakeEdgeEnds(debug, s, e);
    ControlsNeedEdge(debug, Step(debug, s, e), es);
  }

  // ---- Missing messages ----

  lemma ValidityIgnoresLag(st: RxStatus, lagging: bool)
    ensures IsMsgValid(st.(lagging := lagging)) == IsMsgValid(st)
  {
  }

  // ---- What may be sent ----

  lemma AccelListed(flags: Flags, m: CANPacket)
    requires m.bus == 0 && m.addr == 0x343
    ensures MsgAllowed(m, T.InitConfig(flags).txMsgs) <==> m.Len() == 8
  {
    assert T.COMMON_TX_MSGS[3] == CanMsg(0x343, 0, 8);
    assert T.LONG_TX_MSGS[3] == CanMsg(0x343, 0, 8);
  }

  // An acceleration command is sent exactly when it is inactive, or controls are allowed, the gas is
  // not pressed and the value is in range; with stock longitudinal control only a cancel request is.
  lemma AccelCommand(s: Safety, m: CANPacket, env: TxEnv)
    requires Consistent(s) && ToyotaInvariant(s) && s.hooks.Toyota?
    requires m.bus == 0 && m.addr == 0x343
    ensures TxAllowed(s, m, env) <==>
      && !s.core.relayMalfunction && m.Len() == 8
      && var a := SignedBytes(m.data[0], m.data[1]);
         if a == 0 then s.hooks.flags.stockLongitudinal ==> m.data[3] % 2 == 1
         else && !s.hooks.flags.stockLongitudinal
              && s.core.controlsAllowed && !s.core.gasPressed
              && -3500 <= a <= 2000
  {
    hide T.InitConfig, BitAt, T.DesiredAccel, MsgAllowed, SignedBytes;
    AccelListed(s.hooks.flags, m);
    CommandBytes(m);
    SignalBytes(s.hooks.flags, m);
  }

  // In every reachable state, an accepted command to accelerate or brake has all of these.
  lemma AcceptedAccel(debug: bool, s: Safety, es: seq<Event>, m: CANPacket, env: TxEnv)
    requires Consistent(s) && ToyotaInvariant(s) && SaneRun(es)
    requires m.bus == 0 && m.addr == 0x343 && (m.data[0] != 0 || m.data[1] != 0)
    requires var t := Run(debug, s, es); t.hooks.Toyota? && TxAllowed(t, m, env)
    ensures
      var c := Run(debug, s, es).core;
      && c.controlsAllowed && c.cruiseEngagedPrev && !c.gasPressed && !(c.brakePressed && c.vehicleMoving)
      && !c.relayMalfunction && -3500 <= SignedBytes(m.data[0], m.data[1]) <= 2000
  {
    hide Run, TxAllowed, Consistent, T.InitConfig;
    ToyotaReachable(debug, s, es);
    AccelCommand(Run(debug, s, es), m, env);
  }

  lemma TorqueListed(flags: Flags, m: CANPacket)
    requires m.bus == 0 && m.addr == 0x2E4
    ensures MsgAllowed(m, T.InitConfig(flags).txMsgs) <==> m.Len() == 5
  {
    assert T.COMMON_TX_MSGS[0] == CanMsg(0x2E4, 0, 5);
    assert T.LONG_TX_MSGS[0] == CanMsg(0x2E4, 0, 5);
  }

  lemma TorqueCommand(s: Safety, m: CANPacket, env: TxEnv, st: TorqueState, f: Frame)
    requires Consistent(s) && ToyotaInvariant(s) && s.hooks.Toyota? && m.bus == 0 && m.addr == 0x2E4
    requires f.controlsAllowed == s.core.controlsAllowed && f.desired == T.DesiredTorque(m)
    requires env.torqueViolation == Violation(T.TOYOTA_LIMITS, st, f)
    requires TxAllowed(s, m, env) && (m.data[1] != 0 || m.data[2] != 0)
    ensures s.core.controlsAllowed && !s.core.relayMalfunction
    ensures !s.hooks.flags.lta && m.Len() == 5 && -1500 <= SignedBytes(m.data[1], m.data[2]) <= 1500
  {
    CommandBytes(m);
    NonZero(m.data[1], m.data[2]);
    hide T.InitConfig, T.DesiredTorque, SignedBytes, MsgAllowed, RateViolation, CutViolation,
      RtRateLimitCheck, ToyotaCore;
    TorqueListed(s.hooks.flags, m);
  }

  // In every reachable state, a torque is sent only with all of these, whatever the torque state is.
  lemma AcceptedTorqueCommand(debug: bool, s: Safety, es: seq<Event>, m: CANPacket, env: TxEnv,
                              st: TorqueState, f: Frame)
    requires Consistent(s) && ToyotaInvariant(s) && SaneRun(es)
    requires m.bus == 0 && m.addr == 0x2E4 && (m.data[1] != 0 || m.data[2] != 0)
    requires f.controlsAllowed == Run(debug, s, es).core.controlsAllowed && f.desired == T.DesiredTorque(m)
    requires env.torqueViolation == Violation(T.TOYOTA_LIMITS, st, f)
    requires var t := Run(debug, s, es); t.hooks.Toyota? && TxAllowed(t, m, env)
    ensures
      var t := Run(debug, s, es);
      && t.core.controlsAllowed && t.core.cruiseEngagedPrev && !(t.core.brakePressed && t.core.vehicleMoving)
      && !t.core.relayMalfunction && !t.hooks.flags.lta && m.Len() == 5
      && -1500 <= SignedBytes(m.data[1], m.data[2]) <= 1500
  {
    hide Run, TxAllowed, Consistent, T.InitConfig, T.DesiredTorque, Violation;
    ToyotaReachable(debug, s, es);
    TorqueCommand(Run(debug, s, es), m, env, st, f);
  }

  // What the torque limits mean on this car: at most 450 units per started quarter of a second since
  // the last reset, and 15 units per frame, whatever else the frames contain.
  lemma ToyotaTorqueBudget(st: TorqueState, start: nat, run: seq<Frame>, i: nat)
    requires Torque.Fresh(st, start) && Torque.InOrder(start, run)
    requires i < |run| && Torque.Accepted(T.TOYOTA_LIMITS, st, run, i)
    ensures
      var t0 := Torque.LastReset(T.TOYOTA_LIMITS, st, start, run[..i]);
      t0 <= run[i].now && Abs(run[i].desired) <= 450 * (1 + (run[i].now - t0) / 250001)
    ensures Abs(run[i].desired) <= Min(1500, 15 * (Torque.FramesSinceReset(T.TOYOTA_LIMITS, st, run[..i]) + 1))
  {
    hide Torque.Fresh, Torque.InOrder, Torque.Accepted, Torque.LastReset, Torque.FramesSinceReset;
    Torque.RealTimeBound(T.TOYOTA_LIMITS, st, start, run, i);
    Torque.RampBound(T.TOYOTA_LIMITS, st, start, run, i);
  }

  // The same from the moment the mode is set, with one more window move.
  lemma ToyotaBudgetAfterModeChange(start: nat, run: seq<Frame>, i: nat)
    requires Torque.InOrder(start, run)
    requires i < |run| && Torque.Accepted(T.TOYOTA_LIMITS, ResetState(0), run, i)
    ensures
      var t0 := Torque.LastReset(T.TOYOTA_LIMITS, ResetState(0), start, run[..i]);
      t0 <= run[i].now && Abs(run[i].desired) <= 450 * (2 + (run[i].now - t0) / 250001)
  {
    hide Torque.InOrder, Torque.Accepted, Torque.LastReset;
    Torque.BudgetAfterModeChange(T.TOYOTA_LIMITS, start, run, i);
  }

  // ---- Losing the heartbeat ----

  function Ticks(es: seq<Event>): nat {
    if es == [] then 0 else Ticks(es[..|es| - 1]) + (if es[|es| - 1].Tick? then 1 else 0)
  }

  predicate NoHeartbeat(es: seq<Event>) {
    forall e <- es :: !e.HeartbeatRequest?
  }

  // One event in a car mode, without a heartbeat.
  lemma QuietStep(debug: bool, s: Safety, e: Event)
    requires Consistent(s) && IsCarMode(s.mode) && !SetsMode(e) && !e.HeartbeatRequest?
    ensures var t := Step(debug, s, e);
      t.mode == SAFETY_SILENT ||
      (t.mode == s.mode && t.beat.counter >= s.beat.counter
       && (e.Tick? && s.beat.counter < 5 ==> t.beat.counter == s.beat.counter + 1 && t.beat.counter < 5)
       && (e.Tick? ==> s.beat.counter < 5))
  {
    hide CheckedFrame, HookedCore, MarkLagging, AllFine;
    if e.Tick? {
      ConsistentBeforeLag(s, e.started);
    }
  }

  lemma {:induction false} QuietRun(debug: bool, s: Safety, es: seq<Event>)
    requires Consistent(s) && IsCarMode(s.mode) && SaneRun(es) && NoModeChange(es) && NoHeartbeat(es)
    ensures var t := Run(debug, s, es);
      t.mode == SAFETY_SILENT || (t.mode == s.mode && Ticks(es) < HEARTBEAT_CNT_ON && t.beat.counter >= Ticks(es))
  {
    hide Step, Consistent, SetsMode, IsCarMode;
    if es != [] {
      var k := |es| - 1;
      QuietRun(debug, s, es[..k]);
      var t := Run(debug, s, es[..k]);
      StepMode(debug, t, es[k]);
      if t.mode != SAFETY_SILENT {
        QuietStep(debug, t, es[k]);
      }
    }
  }

  predicate NoModeSet(es: seq<Event>) {
    forall e <- es :: !e.SetMode?
  }

  // A harness change sets the current mode again, which is silence.
  lemma SilentStep(debug: bool, s: Safety, e: Event)
    requires Consistent(s) && s.mode == SAFETY_SILENT && !e.SetMode?
    ensures Step(debug, s, e).mode == SAFETY_SILENT
  {
    hide CheckedFrame, HookedCore, OnTick, Consistent;
    if e.Tick? {
      TickKeepsCore(s, e.started, e.ts);
    }
  }

  lemma SilentSendsNothing(s: Safety, m: CANPacket, env: TxEnv)
    requires Consistent(s) && s.mode == SAFETY_SILENT
    ensures !TxAllowed(s, m, env) && s.bus.canSilent && !s.bus.interceptRelay
  {
  }

  // Silence lasts until a mode is set, harness changes included. Nothing is sent in it, and the CAN
  // controllers only listen.
  lemma {:induction false} SilentRun(debug: bool, s: Safety, es: seq<Event>)
    requires Consistent(s) && s.mode == SAFETY_SILENT && SaneRun(es) && NoModeSet(es)
    ensures Run(debug, s, es).mode == SAFETY_SILENT && Run(debug, s, es).bus == BusSetup(false, true)
    ensures forall m, env :: !TxAllowed(Run(debug, s, es), m, env)
  {
    hide Step, TxAllowed;
    if es != [] {
      SilentRun(debug, s, es[..|es| - 1]);
      SilentStep(debug, Run(debug, s, es[..|es| - 1]), es[|es| - 1]);
    }
    forall m, env ensures !TxAllowed(Run(debug, s, es), m, env) {
      SilentSendsNothing(Run(debug, s, es), m, env);
    }
  }

  // Five ticks of any car mode without a heartbeat: the device is silent, and refuses to send
  // anything, whatever happens later, until a mode is set.
  lemma FiveTicksSilence(debug: bool, s: Safety, es: seq<Event>, later: seq<Event>)
    requires Consistent(s) && IsCarMode(s.mode) && SaneRun(es) && NoModeChange(es) && NoHeartbeat(es)
    requires Ticks(es) >= 5 && SaneRun(later) && NoModeSet(later)
    ensures Run(debug, s, es).mode == SAFETY_SILENT
    ensures forall m, env :: !TxAllowed(Run(debug, Run(debug, s, es), later), m, env)
  {
    hide Run, Consistent, TxAllowed;
    QuietRun(debug, s, es);
    SilentRun(debug, Run(debug, s, es), later);
  }

  // ---- Controls nobody uses ----

  // The mismatch counter never gets past three, nor to three with controls.
  predicate MismatchInvariant(s: Safety) {
    s.mode != SAFETY_ALLOUTPUT && s.beat.mismatches <= MAX_MISMATCHES
    && (s.core.controlsAllowed ==> s.beat.mismatches < MAX_MISMATCHES)
  }

  lemma StepKeepsMismatchInvariant(debug: bool, s: Safety, e: Event)
    requires Consistent(s) && MismatchInvariant(s)
    requires e.SetMode? ==> !debug || e.mode != SAFETY_ALLOUTPUT
    ensures MismatchInvariant(Step(debug, s, e))
  {
    hide CheckedFrame, HookedCore, MarkLagging, AllFine, ConfigOf, HooksOf;
    if e.Tick? {
      ConsistentBeforeLag(s, e.started);
    }
  }

  // In a release build it holds in every state reachable from power-on, whatever happens.
  lemma {:induction false} MismatchReachable(es: seq<Event>)
    requires SaneRun(es)
    ensures Consistent(BOOT) && MismatchInvariant(Run(false, BOOT, es))
  {
    hide Step, Consistent, MismatchInvariant;
    BootState();
    if es != [] {
      MismatchReachable(es[..|es| - 1]);
      StepKeepsMismatchInvariant(false, Run(false, BOOT, es[..|es| - 1]), es[|es| - 1]);
    }
  }

  lemma BootState()
    ensures Consistent(BOOT) && ToyotaInvariant(BOOT) && MismatchInvariant(BOOT)
  {
  }

  // Controls are allowed at every point of the run, and every tick meets a state in which the host
  // does not say it uses them. Between ticks the host may say anything.
  ghost predicate Unused(debug: bool, s: Safety, es: seq<Event>)
    requires Consistent(s) && SaneRun(es)
  {
    && (forall j :: 0 <= j <= |es| ==> Run(debug, s, es[..j]).core.controlsAllowed)
    && (forall j :: 0 <= j < |es| && es[j].Tick? ==> !Run(debug, s, es[..j]).beat.engaged)
  }

  lemma UnusedSecond(s: Safety)
    requires s.core.controlsAllowed && !s.beat.engaged && s.beat.mismatches < MAX_MISMATCHES
    ensures CountSeconds(s).core.controlsAllowed ==>
      CountSeconds(s).beat.mismatches == s.beat.mismatches + 1 < MAX_MISMATCHES
  {
    hide IsCarMode;
  }

  lemma UnusedTick(s: Safety, started: bool)
    requires s.core.controlsAllowed && !s.beat.engaged && s.beat.mismatches < MAX_MISMATCHES
    ensures var t := BeforeLag(s, started);
      t.core.controlsAllowed ==> t.beat.mismatches == s.beat.mismatches + 1 < MAX_MISMATCHES
  {
    hide HeartbeatGone, CountSeconds, IsCarMode, ConfigOf, HooksOf;
    UnusedSecond(s);
    CountSecondsKeepsCore(s);
  }

  lemma UnusedStep(debug: bool, s: Safety, e: Event)
    requires Consistent(s) && s.core.controlsAllowed && s.beat.mismatches < MAX_MISMATCHES
    requires e.Tick? ==> !s.beat.engaged
    requires Step(debug, s, e).core.controlsAllowed
    ensures Step(debug, s, e).beat.mismatches == s.beat.mismatches + (if e.Tick? then 1 else 0)
    ensures Step(debug, s, e).beat.mismatches < MAX_MISMATCHES
  {
    hide CheckedFrame, HookedCore, MarkLagging, AllFine, ConfigOf, HooksOf, BeforeLag, Consistent, Registered;
    if e.Tick? {
      ConsistentBeforeLag(s, e.started);
      UnusedTick(s, e.started);
    }
  }

  // Controls do not outlive three unused ticks. Nothing resets the mismatch count in such a run: that
  // takes a rising edge of controls, or a tick that finds them used or gone.
  lemma {:induction false} UnusedControlsExpire(debug: bool, s: Safety, es: seq<Event>)
    requires Consistent(s) && s.beat.mismatches < MAX_MISMATCHES && SaneRun(es) && Unused(debug, s, es)
    ensures Run(debug, s, es).beat.mismatches == s.beat.mismatches + Ticks(es) < MAX_MISMATCHES
  {
    hide Step, Consistent;
    assert es[..|es|] == es;
    if es == [] {
      assert es[..0] == [];
    } else {
      var k := |es| - 1;
      var past := es[..k];
      forall j | 0 <= j <= k ensures past[..j] == es[..j] {
      }
      assert Unused(debug, s, past);
      UnusedControlsExpire(debug, s, past);
      assert past[..|past|] == past;
      UnusedStep(debug, Run(debug, s, past), es[k]);
    }
  }
}
