// One step of the safety layer as a function of its state (board/safety.h, board/main.c).
module SafetySteps {
  import opened Wrappers
  import opened Arith
  import opened CanPacket
  import opened Steering
  import opened SafetyState
  import opened RxChecks
  import T = ToyotaHooks

  const HEARTBEAT_CNT_ON := 5
  const HEARTBEAT_CNT_OFF := 2
  const MAX_MISMATCHES := 3

  // ---- safety_rx_hook ----

  function RxVerdict(hooks: Hooks, m: CANPacket, env: OtherRx): Verdict {
    match hooks
    case NoOutput => Verdict(true, None, true)
    case Toyota(_) => Verdict(m.Len() > 0 && T.GetChecksum(m) == T.Checksum(m), None, T.QualityFlagValid(m))
    case Other => Verdict(env.checksum, if env.hasCounter then Some(env.counter) else None, env.quality)
  }

  function HookedCore(s: Safety, m: CANPacket, env: OtherRx): Core {
    match s.hooks
    case NoOutput => s.core
    case Toyota(flags) => T.RxHook(flags, s.NoDisengageOnGas(), s.modeCnt, s.core, m)
    case Other => env.core
  }

  function CheckedFrame(s: Safety, m: CANPacket, ts: Timestamp, env: OtherRx): (seq<RxStatus>, bool)
    requires SaneStatus(s.config, s.status)
  {
    Checked(s.config, s.status, m, ts, RxVerdict(s.hooks, m, env))
  }

  // The frame passed the checks and reaches the hook of the mode.
  predicate Processed(s: Safety, m: CANPacket, ts: Timestamp, env: OtherRx)
    requires SaneStatus(s.config, s.status)
  {
    CheckedFrame(s, m, ts, env).1
  }

  // The vehicle state after a frame: an invalid one only ends the controls.
  function FrameCore(s: Safety, m: CANPacket, ts: Timestamp, env: OtherRx): Core
    requires SaneStatus(s.config, s.status)
  {
    if Processed(s, m, ts, env) then HookedCore(s, m, env) else s.core.(controlsAllowed := false)
  }

  function OnRx(s: Safety, m: CANPacket, ts: Timestamp, env: OtherRx): Safety
    requires SaneStatus(s.config, s.status)
  {
    var status := CheckedFrame(s, m, ts, env).0;
    var core := FrameCore(s, m, ts, env);
    var rising := core.controlsAllowed && !s.core.controlsAllowed;
    s.(status := status, core := core, beat := if rising then s.beat.(mismatches := 0) else s.beat)
  }

  // ---- safety_tx_hook ----

  predicate MsgAllowed(m: CANPacket, list: seq<CanMsg>) {
    CanMsg(m.addr, m.bus, m.Len()) in list
  }

  // What the transmit check depends on beside the state: the torque and angle checks, and other modes.
  datatype TxEnv = TxEnv(extremes: T.Extremes, torqueViolation: bool, angleViolation: bool, other: bool)

  predicate TxAllowed(s: Safety, m: CANPacket, env: TxEnv) {
    && !s.core.relayMalfunction
    && (MsgAllowed(m, s.config.txMsgs) || s.mode == SAFETY_ALLOUTPUT || s.mode == SAFETY_ELM327)
    && match s.hooks
       case NoOutput => false
       case Toyota(flags) => T.TxHook(flags, s.core, m, env.extremes, env.torqueViolation, env.angleViolation)
       case Other => env.other
  }

  // ---- set_safety_hooks and set_safety_mode ----

  function HooksOf(mode: Mode, param: Param): Hooks {
    if mode == SAFETY_SILENT || mode == SAFETY_NOOUTPUT then NoOutput
    else if mode == SAFETY_TOYOTA then Toyota(T.InitFlags(param))
    else Other
  }

  function ConfigOf(hooks: Hooks, env: OtherInit): Config {
    match hooks
    case NoOutput => Config([], [])
    case Toyota(flags) => T.InitConfig(flags)
    case Other => env.config
  }

  // A mode with registered hooks.
  function WithMode(s: Safety, mode: Mode, param: Param, env: OtherInit): Safety {
    var hooks := HooksOf(mode, param);
    var config := ConfigOf(hooks, env);
    s.(mode := mode, param := param, hooks := hooks, config := config,
       status := seq(|config.rxChecks|, _ => UNSEEN),
       core := CLEARED.(controlsAllowed := mode == SAFETY_ALLOUTPUT),
       modeCnt := 0, rxChecksInvalid := false, bus := BusFor(mode))
  }

  // The heartbeat counter starts again for every mode in which the bus is driven.
  function BeatFor(mode: Mode, beat: Heartbeat): Heartbeat {
    if mode == SAFETY_SILENT || mode == SAFETY_NOOUTPUT then beat else beat.(counter := 0, lost := false)
  }

  // Modes without hooks fall back to silence.
  function WithSafetyMode(debug: bool, s: Safety, mode: Mode, param: Param, env: OtherInit): Safety {
    if Registered(debug, mode) then WithMode(s, mode, param, env).(beat := BeatFor(mode, s.beat))
    else WithMode(s, SAFETY_SILENT, 0, env)
  }

  // ---- The 1 Hz tick ----

  // One more second without a heartbeat; in a car mode the check cannot be off.
  function CountBeat(b: Heartbeat, carMode: bool): Heartbeat {
    b.(counter := if b.counter < U32 - 1 then b.counter + 1 else b.counter, disabled := b.disabled && !carMode)
  }

  // One more second of controls that the host does not say it uses, and whether they end.
  function CountUnused(controlsAllowed: bool, b: Heartbeat): (Heartbeat, bool) {
    var mismatches := if controlsAllowed && !b.engaged then (b.mismatches + 1) % U32 else 0;
    (b.(mismatches := mismatches), mismatches >= MAX_MISMATCHES)
  }

  function CountSeconds(s: Safety): Safety {
    var (b, expired) := CountUnused(s.core.controlsAllowed, CountBeat(s.beat, IsCarMode(s.mode)));
    s.(beat := b, core := s.core.(controlsAllowed := s.core.controlsAllowed && !expired))
  }

  predicate HeartbeatGone(s: Safety, started: bool) {
    !s.beat.disabled && s.beat.counter >= (if started then HEARTBEAT_CNT_ON else HEARTBEAT_CNT_OFF)
  }

  function GoSilent(s: Safety): Safety {
    var t := s.(beat := s.beat.(lost := s.beat.lost || IsCarMode(s.mode), engaged := false));
    if s.mode == SAFETY_SILENT then t else WithMode(t, SAFETY_SILENT, 0, OtherInit(Config([], [])))
  }

  // safety_tick: monitored messages that are late or invalid end the controls.
  function CheckLag(s: Safety, ts: Timestamp): Safety
    requires Consistent(s)
  {
    var status := MarkLagging(s.config, s.status, ts);
    s.(status := status, rxChecksInvalid := !AllFine(status),
       core := s.core.(controlsAllowed := s.core.controlsAllowed && AllFine(status)))
  }

  function BeforeLag(s: Safety, started: bool): Safety {
    var t := CountSeconds(s);
    var u := if HeartbeatGone(t, started) then GoSilent(t) else t;
    u.(modeCnt := (u.modeCnt + 1) % U32)
  }

  function OnTick(s: Safety, started: bool, ts: Timestamp): (t: Safety)
    requires Consistent(s)
  {
    ConsistentBeforeLag(s, started);
    CheckLag(BeforeLag(s, started), ts)
  }

  lemma ConsistentBeforeLag(s: Safety, started: bool)
    requires Consistent(s)
    ensures Consistent(BeforeLag(s, started))
  {
  }

  // ---- Requests of the host ----

  function OnHeartbeat(s: Safety, param1: Param): Safety {
    s.(beat := s.beat.(counter := 0, lost := false, disabled := false, engaged := param1 == 1))
  }

  function OnDisableHeartbeat(s: Safety): Safety {
    if IsCarMode(s.mode) then s else s.(beat := s.beat.(disabled := true))
  }

  function OnAlternativeExperience(s: Safety, param1: Param): Safety {
    if IsCarMode(s.mode) then s else s.(alternativeExperience := param1)
  }

  // ---- Runs ----

  datatype Event =
    | Rx(packet: CANPacket, ts: Timestamp, rxEnv: OtherRx)
    | Tx(packet: CANPacket)
    | Tick(started: bool, ts: Timestamp)
    | SetMode(mode: Mode, param: Param, init: OtherInit)
    | HarnessChange(init: OtherInit)
    | HeartbeatRequest(param1: Param)
    | DisableHeartbeat
    | AlternativeExperience(param1: Param)

  // The tables of a mode that is not modelled are sane.
  predicate Sane(e: Event) {
    match e
    case SetMode(_, _, init) => SaneConfig(init.config)
    case HarnessChange(init) => SaneConfig(init.config)
    case _ => true
  }

  function Step(debug: bool, s: Safety, e: Event): Safety
    requires Consistent(s)
  {
    match e
    case Rx(m, ts, env) => OnRx(s, m, ts, env)
    case Tx(_) => s
    case Tick(started, ts) => OnTick(s, started, ts)
    case SetMode(mode, param, init) => WithSafetyMode(debug, s, mode, param, init)
    case HarnessChange(init) => WithSafetyMode(debug, s, s.mode, s.param, init)
    case HeartbeatRequest(p) => OnHeartbeat(s, p)
    case DisableHeartbeat => OnDisableHeartbeat(s)
    case AlternativeExperience(p) => OnAlternativeExperience(s, p)
  }

  lemma RxKeepsConsistent(s: Safety, m: CANPacket, ts: Timestamp, env: OtherRx)
    requires Consistent(s)
    ensures Consistent(OnRx(s, m, ts, env))
  {
    hide RxVerdict, Checked, T.RxHook, SaneConfig;
  }

  lemma ModeKeepsConsistent(debug: bool, s: Safety, mode: Mode, param: Param, init: OtherInit)
    requires Consistent(s) && SaneConfig(init.config)
    ensures Consistent(WithSafetyMode(debug, s, mode, param, init))
  {
    hide T.InitFlags, T.InitConfig;
    assert SaneConfig(Config([], []));
  }

  lemma StepKeepsConsistent(debug: bool, s: Safety, e: Event)
    requires Consistent(s) && Sane(e)
    ensures Consistent(Step(debug, s, e))
  {
    hide OnRx, WithSafetyMode, BeforeLag, MarkLagging, AllFine;
    match e
    case Rx(m, ts, env) => RxKeepsConsistent(s, m, ts, env);
    case SetMode(mode, param, init) => ModeKeepsConsistent(debug, s, mode, param, init);
    case HarnessChange(init) => ModeKeepsConsistent(debug, s, s.mode, s.param, init);
    case Tick(started, ts) => ConsistentBeforeLag(s, started);
    case _ =>
  }

  // The state after a run of events.
  ghost predicate SaneRun(es: seq<Event>) {
    forall e <- es :: Sane(e)
  }

  ghost function Run(debug: bool, s: Safety, es: seq<Event>): (t: Safety)
    requires Consistent(s) && SaneRun(es)
    ensures Consistent(t)
  {
    if es == [] then s
    else
      var t := Run(debug, s, es[..|es| - 1]);
      StepKeepsConsistent(debug, t, es[|es| - 1]);
      Step(debug, t, es[|es| - 1])
  }
}
