// Missing and damaged messages over runs of everything that happens to the safety layer, in real time
// (board/safety.h, board/safety/safety_toyota.h, board/main.c).
module MessageRuns {
  import opened Wrappers
  import opened Arith
  import opened CanPacket
  import opened Steering
  import opened SteeringRuns
  import opened SafetyState
  import opened RxChecks
  import opened SafetySteps
  import opened SafetyRuns
  import opened ToyotaFrames
  import opened TorqueRuns
  import T = ToyotaHooks

  // ---- One tick ----

  // The heartbeat counter reaches the limit with this tick.
  predicate HeartbeatEnds(s: Safety, started: bool) {
    s.beat.counter + 1 >= if started then 5 else 2
  }

  // Controls survive a tick exactly if the heartbeat is not lost, the host uses them or has not left
  // them unused for three ticks, and every monitored message came within the last second and was valid.
  lemma TickKeepsControls(s: Safety, started: bool, ts: Timestamp)
    requires Consistent(s) && ToyotaInvariant(s) && s.hooks.Toyota?
    ensures |s.status| == 4
    ensures OnTick(s, started, ts).core.controlsAllowed <==>
      && s.core.controlsAllowed && !HeartbeatEnds(s, started)
      && (s.beat.engaged || (s.beat.mismatches + 1) % U32 < 3)
      && forall i :: 0 <= i < 4 ==> InTime(s.status[i], ts) && IsMsgValid(s.status[i])
  {
    hide Consistent, ToyotaInvariant, BeforeLag, IsMsgValid, InTime, AllFine, HeartbeatEnds;
    ConsistentBeforeLag(s, started);
    ToyotaEntries(s);
    SecondsOutcome(s, started);
    if BeforeLag(s, started).core.controlsAllowed {
      FineInToyota(BeforeLag(s, started), ts);
    }
  }

  predicate InTime(st: RxStatus, ts: Timestamp) {
    TsElapsed(ts, st.lastTimestamp) <= 1000000
  }

  lemma SecondsOutcome(s: Safety, started: bool)
    requires Consistent(s) && s.hooks.Toyota?
    ensures var t := BeforeLag(s, started);
      && (t.core.controlsAllowed <==>
            s.core.controlsAllowed && !HeartbeatEnds(s, started)
            && (s.beat.engaged || (s.beat.mismatches + 1) % U32 < 3))
      && (t.core.controlsAllowed ==>
            t.status == s.status && t.config == s.config && t.hooks == s.hooks && Consistent(t)
            && (ToyotaInvariant(s) ==> ToyotaInvariant(t)))
  {
    hide CLEARED, CountSeconds, GoSilent, HeartbeatGone, Consistent, ToyotaInvariant;
    ConsistentBeforeLag(s, started);
    CountOutcome(s, started);
    GoSilentSilences(CountSeconds(s));
    if BeforeLag(s, started).core.controlsAllowed {
      InvariantStays(s, BeforeLag(s, started));
    }
    assert !CLEARED.controlsAllowed by { ClearedHasNoControls(); }
  }

  lemma CountOutcome(s: Safety, started: bool)
    requires Consistent(s) && s.hooks.Toyota?
    ensures var t := CountSeconds(s);
      && (t.core.controlsAllowed <==> s.core.controlsAllowed && (s.beat.engaged || (s.beat.mismatches + 1) % U32 < 3))
      && (HeartbeatGone(t, started) <==> HeartbeatEnds(s, started))
      && t.status == s.status && SameMode(s, t) && t.mode != SAFETY_SILENT
      && t.core == s.core.(controlsAllowed := t.core.controlsAllowed)
  {
    ToyotaMode(s);
  }

  // Taking controls away keeps the vehicle invariant.
  lemma InvariantStays(s: Safety, t: Safety)
    requires s.hooks == t.hooks && s.config == t.config
    requires t.core == s.core.(controlsAllowed := t.core.controlsAllowed)
             && (t.core.controlsAllowed ==> s.core.controlsAllowed)
    ensures ToyotaInvariant(s) ==> ToyotaInvariant(t)
  {
    hide T.InitConfig;
  }

  lemma FineInToyota(s: Safety, ts: Timestamp)
    requires Consistent(s) && ToyotaInvariant(s) && s.hooks.Toyota?
    ensures |s.status| == 4
    ensures AllFine(MarkLagging(s.config, s.status, ts)) <==>
      forall i :: 0 <= i < 4 ==> InTime(s.status[i], ts) && IsMsgValid(s.status[i])
  {
    hide Consistent, ToyotaInvariant, IsMsgValid, TsElapsed;
    ToyotaEntries(s);
    var marked := MarkLagging(s.config, s.status, ts);
    forall i | 0 <= i < 4
      ensures marked[i].lagging <==> !InTime(s.status[i], ts)
      ensures IsMsgValid(marked[i]) == IsMsgValid(s.status[i])
    {
      var lagging := Lagging(s.config.rxChecks[i][s.status[i].index], s.status[i], ts);
      ValidityIgnoresLag(s.status[i], lagging);
      OneSecond(s.hooks.flags.lta, i, s.status[i], ts);
    }
  }

  // The slowest monitored message comes 33 times a second, so the limit is a second for all.
  lemma OneSecond(lta: bool, i: nat, st: RxStatus, ts: Timestamp)
    requires i < 4 && st.index < |T.RxEntries(lta)[i]|
    ensures Lagging(T.RxEntries(lta)[i][st.index], st, ts) <==> !InTime(st, ts)
  {
    hide TsElapsed;
  }

  // For any monitored message and in real time, up to whole turns of the timer: it is late after a
  // second in which ten of it were due.
  lemma LaggingExactly(c: CanMsgCheck, st: RxStatus, now: nat, last: nat)
    requires c.frequency > 0 && last <= now && st.lastTimestamp == last % U32
    ensures Lagging(c, st, now % U32) <==>
      (now - last) % U32 > 1000000 && (now - last) % U32 > 10 * (1000000 / c.frequency)
  {
    hide TsElapsed;
    ElapsedExactly(now, last);
  }

  // ---- Messages along a run ----

  // The last event among the first n, since the mode was set, whose frame entry i took.
  ghost function LastTaken(debug: bool, es: seq<Timed>, ws: seq<Whole>, n: nat, i: nat): (r: Option<nat>)
    requires Lined(es, ws) && n <= |es|
    ensures r.Some? ==> r.value < n && es[r.value].event.Rx?
  {
    if n == 0 || Clears(debug, ws[n - 1], es[n - 1]) then None
    else if es[n - 1].event.Rx? && Takes(ws[n - 1].safety, es[n - 1].event.packet, i) then Some(n - 1)
    else LastTaken(debug, es, ws, n - 1, i)
  }

  predicate Takes(s: Safety, m: CANPacket, i: nat)
    requires Consistent(s)
  {
    var r := FindEntry(s.config, s.status, m, 0);
    r.Some? && r.value.0 == i
  }

  // A frame that entry i of the Toyota mode stands for.
  predicate IsEntry(i: nat, m: CANPacket) {
    m.bus == 0 && m.Len() == 8 &&
    m.addr in (if i == 0 then {0xaa} else if i == 1 then {0x260} else if i == 2 then {0x1D2} else {0x224, 0x226})
  }

  // Its sum is right where it has one, and with angle control the angle is initialised.
  predicate IsSound(flags: Flags, m: CANPacket) {
    m.addr in {0x260, 0x1D2} ==> RightSum(m) && (m.addr == 0x260 && flags.lta ==> (m.data[0] / 8) % 2 == 0)
  }

  // What an entry remembers of the frame it took last.
  ghost predicate Remembers(flags: Flags, st: RxStatus, es: seq<Timed>, i: nat, last: Option<nat>) {
    match last
    case None => !IsMsgValid(st)
    case Some(j) =>
      && j < |es| && es[j].event.Rx?
      && st.lastTimestamp == es[j].now % U32 && IsEntry(i, es[j].event.packet)
      && (IsMsgValid(st) <==> IsSound(flags, es[j].event.packet))
  }

  lemma TakenFrame(s: Safety, m: CANPacket, ts: Timestamp, env: OtherRx, i: nat)
    requires Consistent(s) && ToyotaInvariant(s) && s.hooks.Toyota? && i < 4
    ensures |s.status| == 4 && |OnRx(s, m, ts, env).status| == 4
    ensures
      var st := OnRx(s, m, ts, env).status[i];
      if Takes(s, m, i) then
        st.lastTimestamp == ts && IsEntry(i, m) && (IsMsgValid(st) <==> IsSound(s.hooks.flags, m))
      else st == s.status[i]
  {
    hide Consistent, ToyotaInvariant, FindEntry, MatchEntry, IsMsgValid, RightSum, RxVerdict;
    ToyotaEntries(s);
    TakenBy(s, m);
    ProcessedExactly(s, m, ts, env);
  }

  lemma UnseenInvalid()
    ensures !IsMsgValid(UNSEEN)
  {
  }

  lemma SetModeForgets(debug: bool, s: Safety, mode: Mode, param: Param, init: OtherInit, i: nat)
    requires Consistent(s) && SaneConfig(init.config) && i < |WithSafetyMode(debug, s, mode, param, init).status|
    ensures WithSafetyMode(debug, s, mode, param, init).status[i] == UNSEEN
  {
    hide ConfigOf, HooksOf, UNSEEN;
  }

  lemma TickRemembers(s: Safety, started: bool, ts: Timestamp, i: nat)
    requires Consistent(s) && OnTick(s, started, ts).mode == s.mode && s.hooks.Toyota? && i < |s.status|
    ensures |OnTick(s, started, ts).status| == |s.status|
    ensures
      var st := OnTick(s, started, ts).status[i];
      st.lastTimestamp == s.status[i].lastTimestamp && IsMsgValid(st) == IsMsgValid(s.status[i])
  {
    hide Lagging, IsMsgValid;
    ConsistentBeforeLag(s, started);
    ValidityIgnoresLag(s.status[i], Lagging(s.config.rxChecks[i][s.status[i].index], s.status[i], ts));
  }

  lemma RemembersStep(debug: bool, w: Whole, e: Timed, w': Whole, es: seq<Timed>, n: nat, i: nat, last: Option<nat>)
    requires Follows(debug, w, e, w') && Consistent(w'.safety) && n < |es| && es[n] == e && i < 4
    requires ToyotaInvariant(w.safety) && ToyotaInvariant(w'.safety) && w'.safety.hooks.Toyota?
    requires |w'.safety.status| == 4
    requires w.safety.hooks.Toyota? ==>
      |w.safety.status| == 4 && Remembers(w.safety.hooks.flags, w.safety.status[i], es, i, last)
    ensures
      var now := if Clears(debug, w, e) then None
                 else if e.event.Rx? && Takes(w.safety, e.event.packet, i) then Some(n) else last;
      Remembers(w'.safety.hooks.flags, w'.safety.status[i], es, i, now)
  {
    hide Consistent, ToyotaInvariant, OnRx, OnTick, WithSafetyMode, Takes, IsMsgValid, IsSound, IsEntry,
      TorqueFollows, SamplesFollow, Sane;
    UnseenInvalid();
    if Clears(debug, w, e) {
      ClearedStatus(debug, w, e, i);
    } else {
      HooksStay(debug, w.safety, e.event);
      FlagsStay(debug, w.safety, e.event);
      match e.event
      case Rx(m, ts, env) => TakenFrame(w.safety, m, ts, env, i);
      case Tick(started, ts) => TickRemembers(w.safety, started, ts, i);
      case _ =>
    }
  }

  lemma FlagsStay(debug: bool, s: Safety, e: Event)
    requires Consistent(s) && s.hooks.Toyota? && !SetsMode(e) && Step(debug, s, e).mode == s.mode
    ensures Step(debug, s, e).hooks == s.hooks
  {
    hide Consistent, Step;
    StepMode(debug, s, e);
    ToyotaMode(s);
  }

  lemma ClearedStatus(debug: bool, w: Whole, e: Timed, i: nat)
    requires Consistent(w.safety) && Sane(e.event) && Clears(debug, w, e)
    requires Step(debug, w.safety, e.event).hooks.Toyota? && i < |Step(debug, w.safety, e.event).status|
    ensures Step(debug, w.safety, e.event).status[i] == UNSEEN
  {
    hide Consistent, OnRx, OnTick, WithSafetyMode;
    match e.event
    case SetMode(mode, param, init) => SetModeForgets(debug, w.safety, mode, param, init, i);
    case HarnessChange(init) => SetModeForgets(debug, w.safety, w.safety.mode, w.safety.param, init, i);
    case _ => StepMode(debug, w.safety, e.event);
  }

  lemma {:induction false} RemembersAlong(debug: bool, start: nat, es: seq<Timed>, ws: seq<Whole>, n: nat, i: nat)
    requires Trace(debug, start, es, ws) && n <= |es| && i < 4 && ws[n].safety.hooks.Toyota?
    ensures |ws[n].safety.status| == 4
    ensures Remembers(ws[n].safety.hooks.flags, ws[n].safety.status[i], es, i, LastTaken(debug, es, ws, n, i))
  {
    hide Follows, Remembers, Consistent, ToyotaInvariant, Takes, Clears, Now;
    ToyotaAlong(debug, start, es, ws, n);
    ToyotaEntries(ws[n].safety);
    if n > 0 {
      ToyotaAlong(debug, start, es, ws, n - 1);
      if ws[n - 1].safety.hooks.Toyota? {
        RemembersAlong(debug, start, es, ws, n - 1, i);
      }
      RemembersStep(debug, ws[n - 1], es[n - 1], ws[n], es, n - 1, i, LastTaken(debug, es, ws, n - 1, i));
    }
  }

  // If controls survive a tick in the Toyota mode, every monitored message came within the last second
  // of real time, up to whole turns of the timer, and the last one that came was sound.
  lemma ControlsNeedFreshMessages(debug: bool, start: nat, es: seq<Timed>, ws: seq<Whole>, n: nat, i: nat)
    requires Trace(debug, start, es, ws) && n < |es| && i < 4 && es[n].event.Tick?
    requires ws[n].safety.hooks.Toyota? && ws[n + 1].safety.core.controlsAllowed
    ensures
      var j := LastTaken(debug, es, ws, n, i);
      && j.Some? && IsEntry(i, es[j.value].event.packet) && IsSound(ws[n].safety.hooks.flags, es[j.value].event.packet)
      && es[j.value].now <= es[n].now && (es[n].now - es[j.value].now) % U32 <= 1000000
  {
    hide Consistent, ToyotaInvariant, IsMsgValid, OnTick, IsSound, IsEntry, LastTaken, SamplesFollow, TorqueFollows,
      Clears, TsElapsed, Sane;
    ToyotaAlong(debug, start, es, ws, n);
    RemembersAlong(debug, start, es, ws, n, i);
    assert Follows(debug, ws[n], es[n], ws[n + 1]);
    TickKeepsControls(ws[n].safety, es[n].event.started, es[n].event.ts);
    var j := LastTaken(debug, es, ws, n, i);
    assert IsMsgValid(ws[n].safety.status[i]) && InTime(ws[n].safety.status[i], es[n].event.ts);
    TimeOrder(debug, start, es, ws, j.value, n);
    ElapsedExactly(es[n].now, es[j.value].now);
  }

  lemma {:induction false} TimeOrder(debug: bool, start: nat, es: seq<Timed>, ws: seq<Whole>, j: nat, n: nat)
    requires Trace(debug, start, es, ws) && j <= n < |es|
    ensures es[j].now <= es[n].now
    decreases n
  {
    if j < n {
      TimeOrder(debug, start, es, ws, j, n - 1);
      assert Now(start, es, n) <= es[n].now;
    }
  }
}
