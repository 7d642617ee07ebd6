// Modes and the heartbeat over runs of events, told by what happened (board/main.c, board/safety.h,
// board/main_comms.h).
module HeartbeatRuns {
  import opened Arith
  import opened CanPacket
  import opened Steering
  import opened SafetyState
  import opened RxChecks
  import opened SafetySteps
  import opened SafetyRuns

  // ---- Setting a mode ----

  // The modes a release build knows, and those a debug build adds.
  predicate Known(debug: bool, mode: Mode) {
    || mode <= 4 || mode == 6 || mode == 8 || mode == 9 || mode == 11 || 13 <= mode <= 15 || mode == 19 || mode == 20
    || mode == 23 || mode == 27 || mode == 28
    || (debug && (mode == 10 || mode == 17 || mode == 21 || mode == 22))
  }

  lemma KnownModes(debug: bool, mode: Mode)
    ensures Registered(debug, mode) <==> Known(debug, mode)
  {
  }

  // The whole state after a mode was set: unknown modes end in silence; nothing of the vehicle is
  // remembered, no message counts as seen, and controls are there only with the mode that sends
  // everything. The relay is switched in unless the mode is silent, diagnostic or sends nothing.
  lemma ModeSetExactly(debug: bool, s: Safety, mode: Mode, param: Param, init: OtherInit)
    requires Consistent(s) && SaneConfig(init.config)
    ensures
      var t := WithSafetyMode(debug, s, mode, param, init);
      && t.mode == (if Known(debug, mode) then mode else 0) && t.param == (if Known(debug, mode) then param else 0)
      && t.core == Core(t.mode == 17, false, false, false, false, false, false, false, false, false)
      && t.modeCnt == 0 && !t.rxChecksInvalid
      && t.bus == BusSetup(t.mode != 0 && t.mode != 3 && t.mode != 19, t.mode == 0)
      && |t.status| == |t.config.rxChecks|
      && (forall i :: 0 <= i < |t.status| ==> t.status[i] == RxStatus(false, 0, false, 0, false, 0, 0, false))
      && t.alternativeExperience == s.alternativeExperience
      && t.beat == (if t.mode == 0 || t.mode == 19 then s.beat else s.beat.(counter := 0, lost := false))
      && (t.mode == 0 || t.mode == 19 ==> t.config == Config([], []))
      && (t.mode == 2 ==> t.hooks.Toyota?)
  {
    hide Registered, Consistent, SaneConfig;
    KnownModes(debug, mode);
    KnownModes(debug, SAFETY_SILENT);
  }

  // The parameter of the Toyota mode: the torque factor in its low byte, and three flags above it.
  lemma ToyotaParameter(debug: bool, s: Safety, param: Param, init: OtherInit)
    requires Consistent(s) && SaneConfig(init.config)
    ensures
      var t := WithSafetyMode(debug, s, 2, param, init);
      && t.hooks.Toyota? && t.hooks.flags.epsFactor < 256
      && param % 2048 == t.hooks.flags.epsFactor + (if t.hooks.flags.altBrake then 256 else 0)
                         + (if t.hooks.flags.stockLongitudinal then 512 else 0)
                         + (if t.hooks.flags.lta then 1024 else 0)
  {
    hide WithMode, SaneConfig, Consistent;
    KnownModes(debug, 2);
    ModeSetExactly(debug, s, 2, param, init);
    ToyotaHooksOf(s, param, init);
    ParameterBits(param);
  }

  lemma ToyotaHooksOf(s: Safety, param: Param, init: OtherInit)
    ensures WithMode(s, 2, param, init).hooks
         == Toyota(Flags((param / 256) % 2 == 1, (param / 512) % 2 == 1, (param / 1024) % 2 == 1, param % 256))
  {
  }

  lemma ParameterBits(p: nat)
    ensures p % 2048 == p % 256 + 256 * ((p / 256) % 2) + 512 * ((p / 512) % 2) + 1024 * ((p / 1024) % 2)
  {
    Bit8(p);
    Bit9(p);
    Bit10(p);
  }

  lemma Bit8(p: nat)
    ensures p % 512 == p % 256 + 256 * ((p / 256) % 2)
  {
  }

  lemma Bit9(p: nat)
    ensures p % 1024 == p % 512 + 512 * ((p / 512) % 2)
  {
  }

  lemma Bit10(p: nat)
    ensures p % 2048 == p % 1024 + 1024 * ((p / 1024) % 2)
  {
  }

  // Power-on: silent, listening, no controls, nothing configured, no heartbeat missed.
  lemma PowerOnState()
    ensures BOOT.mode == 0 && BOOT.param == 0 && BOOT.hooks.NoOutput?
            && BOOT.config == Config([], []) && BOOT.status == []
    ensures BOOT.core == Core(false, false, false, false, false, false, false, false, false, false)
    ensures BOOT.modeCnt == 0 && !BOOT.rxChecksInvalid && BOOT.bus == BusSetup(false, true)
    ensures BOOT.alternativeExperience == 0 && BOOT.beat == Heartbeat(0, false, false, false, 0)
  {
  }

  // ---- One tick ----

  predicate CarMode(mode: Mode) {
    mode != 0 && mode != 3 && mode != 17 && mode != 19
  }

  // A tick finds so many ticks without a heartbeat, this one included, that the limit is reached; the
  // check may be off, but not in a car mode.
  predicate Loses(s: Safety, e: Event) {
    e.Tick? && s.beat.counter + 1 >= (if e.started then 5 else 2) && (CarMode(s.mode) || !s.beat.disabled)
  }

  // A tick that loses the heartbeat ends in silence, as if the silent mode had been set; others leave
  // mode, hooks and tables alone and count the age of the mode.
  lemma TickOutcome(s: Safety, started: bool, ts: Timestamp)
    requires Consistent(s)
    ensures
      var t := OnTick(s, started, ts);
      if Loses(s, Tick(started, ts)) && s.mode != 0 then
        && t.mode == 0 && t.param == 0 && t.hooks.NoOutput? && t.status == [] && t.modeCnt == 1
        && t.core == Core(false, false, false, false, false, false, false, false, false, false)
        && t.bus == BusSetup(false, true)
      else
        t.mode == s.mode && t.param == s.param && t.hooks == s.hooks && t.bus == s.bus
        && t.modeCnt == (s.modeCnt + 1) % U32
  {
    hide MarkLagging, AllFine;
    ConsistentBeforeLag(s, started);
    SilentTables(s);
  }

  lemma SilentTables(s: Safety)
    requires Consistent(s)
    ensures s.mode == SAFETY_SILENT ==> s.hooks.NoOutput? && s.status == []
  {
  }

  // ---- The heartbeat state as a history ----

  // A mode was set in which the bus is driven.
  ghost predicate Drives(debug: bool, s: Safety, e: Event)
    requires Consistent(s)
  {
    SetsMode(e) && Step(debug, s, e).mode != 0 && Step(debug, s, e).mode != 19
  }

  // Ticks since the last heartbeat, or since such a mode was set.
  ghost function TicksSince(debug: bool, s: Safety, es: seq<Event>): nat
    requires Consistent(s) && SaneRun(es)
  {
    if es == [] then s.beat.counter
    else
      var past, e := es[..|es| - 1], es[|es| - 1];
      if e.HeartbeatRequest? || Drives(debug, Run(debug, s, past), e) then 0
      else TicksSince(debug, s, past) + if e.Tick? then 1 else 0
  }

  // The host said in its last heartbeat that it uses the controls, and the heartbeat was not lost since.
  ghost predicate SaysEngaged(debug: bool, s: Safety, es: seq<Event>)
    requires Consistent(s) && SaneRun(es)
  {
    if es == [] then s.beat.engaged
    else
      var past, e := es[..|es| - 1], es[|es| - 1];
      if e.HeartbeatRequest? then e.param1 == 1
      else SaysEngaged(debug, s, past) && !Loses(Run(debug, s, past), e)
  }

  // A heartbeat was lost in a car mode, and none came since, nor was such a mode set.
  ghost predicate WasLost(debug: bool, s: Safety, es: seq<Event>)
    requires Consistent(s) && SaneRun(es)
  {
    if es == [] then s.beat.lost
    else
      var past, e := es[..|es| - 1], es[|es| - 1];
      var t := Run(debug, s, past);
      if e.HeartbeatRequest? || Drives(debug, t, e) then false
      else WasLost(debug, s, past) || (Loses(t, e) && CarMode(t.mode))
  }

  // The check was switched off outside car modes, and no heartbeat and no tick in a car mode came since.
  ghost predicate SwitchedOff(debug: bool, s: Safety, es: seq<Event>)
    requires Consistent(s) && SaneRun(es)
  {
    if es == [] then s.beat.disabled
    else
      var past, e := es[..|es| - 1], es[|es| - 1];
      var t := Run(debug, s, past);
      if e.HeartbeatRequest? || (e.Tick? && CarMode(t.mode)) then false
      else SwitchedOff(debug, s, past) || (e.DisableHeartbeat? && !CarMode(t.mode))
  }

  // Ticks in a row that found controls the host does not say it uses, since controls last appeared
  // with a frame.
  ghost function UnusedTicks(debug: bool, s: Safety, es: seq<Event>): nat
    requires Consistent(s) && SaneRun(es)
  {
    if es == [] then s.beat.mismatches
    else
      var past, e := es[..|es| - 1], es[|es| - 1];
      var t := Run(debug, s, past);
      if e.Rx? && Step(debug, t, e).core.controlsAllowed && !t.core.controlsAllowed then 0
      else if e.Tick? then if t.core.controlsAllowed && !t.beat.engaged then UnusedTicks(debug, s, past) + 1 else 0
      else UnusedTicks(debug, s, past)
  }

  // The heartbeat state after one event.
  ghost predicate BeatAfter(debug: bool, s: Safety, e: Event, t: Safety)
    requires Consistent(s)
  {
    var b := t.beat;
    && b.counter == (if e.HeartbeatRequest? || Drives(debug, s, e) then 0
                     else Min(0xFFFF_FFFF, s.beat.counter + if e.Tick? then 1 else 0))
    && b.engaged == (if e.HeartbeatRequest? then e.param1 == 1 else s.beat.engaged && !Loses(s, e))
    && b.lost == (if e.HeartbeatRequest? || Drives(debug, s, e) then false
                  else s.beat.lost || (Loses(s, e) && CarMode(s.mode)))
    && b.disabled == (if e.HeartbeatRequest? || (e.Tick? && CarMode(s.mode)) then false
                      else s.beat.disabled || (e.DisableHeartbeat? && !CarMode(s.mode)))
    && b.mismatches ==
         (if e.Rx? && t.core.controlsAllowed && !s.core.controlsAllowed then 0
          else if e.Tick? then if s.core.controlsAllowed && !s.beat.engaged then (s.beat.mismatches + 1) % U32 else 0
          else s.beat.mismatches)
  }

  lemma BeatStep(debug: bool, s: Safety, e: Event)
    requires Consistent(s) && Sane(e)
    ensures BeatAfter(debug, s, e, Step(debug, s, e))
  {
    hide OnRx, OnTick, WithSafetyMode, Consistent, Loses;
    BeatInRange(s);
    OnlyTicksLose(s, e);
    match e
    case Rx(m, ts, env) => RxBeat(s, m, ts, env);
    case Tick(started, ts) => TickBeat(s, started, ts);
    case SetMode(mode, param, init) => ModeSetExactly(debug, s, mode, param, init);
    case HarnessChange(init) => ModeSetExactly(debug, s, s.mode, s.param, init);
    case _ =>
  }

  lemma OnlyTicksLose(s: Safety, e: Event)
    ensures Loses(s, e) ==> e.Tick?
  {
  }

  lemma RxBeat(s: Safety, m: CANPacket, ts: Timestamp, env: OtherRx)
    requires Consistent(s)
    ensures
      var t := OnRx(s, m, ts, env);
      t.beat == if t.core.controlsAllowed && !s.core.controlsAllowed then s.beat.(mismatches := 0) else s.beat
  {
    hide CheckedFrame, FrameCore, Consistent;
  }

  lemma TickBeat(s: Safety, started: bool, ts: Timestamp)
    requires Consistent(s)
    ensures
      var b, loses := OnTick(s, started, ts).beat, Loses(s, Tick(started, ts));
      && b.counter == Min(0xFFFF_FFFF, s.beat.counter + 1) && b.engaged == (s.beat.engaged && !loses)
      && b.lost == (s.beat.lost || (loses && CarMode(s.mode))) && b.disabled == (s.beat.disabled && !CarMode(s.mode))
      && b.mismatches == if s.core.controlsAllowed && !s.beat.engaged then (s.beat.mismatches + 1) % U32 else 0
  {
    hide MarkLagging, AllFine, SaneConfig, SaneStatus;
    ConsistentBeforeLag(s, started);
  }

  // At every point of a run, the heartbeat state is what these say about the events so far.
  lemma BeatIsHistory(debug: bool, s: Safety, es: seq<Event>)
    requires Consistent(s) && SaneRun(es)
    ensures
      var b := Run(debug, s, es).beat;
      && b.counter == Min(0xFFFF_FFFF, TicksSince(debug, s, es)) && b.mismatches == UnusedTicks(debug, s, es) % U32
      && b.engaged == SaysEngaged(debug, s, es) && b.lost == WasLost(debug, s, es)
      && b.disabled == SwitchedOff(debug, s, es)
  {
    hide Run, TicksSince, UnusedTicks, SaysEngaged, WasLost, SwitchedOff, Consistent, SaneRun;
    CountsAreHistory(debug, s, es);
    FlagsAreHistory(debug, s, es);
  }

  lemma {:induction false} CountsAreHistory(debug: bool, s: Safety, es: seq<Event>)
    requires Consistent(s) && SaneRun(es)
    ensures
      var b := Run(debug, s, es).beat;
      b.counter == Min(0xFFFF_FFFF, TicksSince(debug, s, es)) && b.mismatches == UnusedTicks(debug, s, es) % U32
  {
    hide Step, Loses, Drives, CarMode, Consistent, Sane;
    if es == [] {
      BeatInRange(s);
    } else {
      var past := es[..|es| - 1];
      CountsAreHistory(debug, s, past);
      BeatInRange(Run(debug, s, past));
      WrapNext(UnusedTicks(debug, s, past));
      BeatStep(debug, Run(debug, s, past), es[|es| - 1]);
    }
  }

  lemma {:induction false} FlagsAreHistory(debug: bool, s: Safety, es: seq<Event>)
    requires Consistent(s) && SaneRun(es)
    ensures
      var b := Run(debug, s, es).beat;
      && b.engaged == SaysEngaged(debug, s, es) && b.lost == WasLost(debug, s, es)
      && b.disabled == SwitchedOff(debug, s, es)
  {
    hide Step, Loses, Drives, CarMode, Consistent, Sane;
    if es != [] {
      var past := es[..|es| - 1];
      FlagsAreHistory(debug, s, past);
      BeatStep(debug, Run(debug, s, past), es[|es| - 1]);
    }
  }

  lemma BeatInRange(s: Safety)
    requires Consistent(s)
    ensures s.beat.counter <= 0xFFFF_FFFF && s.beat.mismatches < U32
  {
  }

  lemma WrapNext(n: nat)
    ensures (n % U32 + 1) % U32 == (n + 1) % U32
  {
  }
}
