// What the Toyota mode takes from and lets out to the bus, in terms of the bytes of a frame
// (board/safety/safety_toyota.h, board/safety.h).
module ToyotaFrames {
  import opened Wrappers
  import opened Arith
  import opened Bytes
  import opened CanPacket
  import opened Steering
  import opened SafetyState
  import opened RxChecks
  import opened SafetySteps
  import opened SafetyRuns
  import opened ToyotaBytes
  import T = ToyotaHooks

  // ---- Which frames are valid ----

  function FirstSeven(m: CANPacket): nat {
    var a: nat, b: nat, c: nat, d: nat := m.data[0], m.data[1], m.data[2], m.data[3];
    a + b + c + d + m.data[4] + m.data[5] + m.data[6]
  }

  // The last byte of a frame of eight is the sum of the others, the address bytes and the length.
  predicate RightSum(m: CANPacket) {
    m.data[7] == (m.addr / 256 + m.addr + 8 + FirstSeven(m)) % 256
  }

  lemma SumOfSeven(m: CANPacket)
    ensures T.Sum(m.data[..7]) == FirstSeven(m)
  {
    var d := m.data;
    assert d[..0] == [];
    SumNext(d, 0); SumNext(d, 1); SumNext(d, 2); SumNext(d, 3); SumNext(d, 4); SumNext(d, 5); SumNext(d, 6);
    hide T.Sum;
  }

  lemma SumNext(d: Payload, i: nat)
    requires i < 7
    ensures T.Sum(d[..i + 1]) == T.Sum(d[..i]) + d[i]
    ensures T.Sum([]) == 0
  {
    assert d[..i + 1][..i] == d[..i];
  }

  lemma SumIsRight(m: CANPacket)
    requires m.Len() == 8
    ensures T.GetChecksum(m) == T.Checksum(m) <==> RightSum(m)
  {
    hide T.Sum, FirstSeven;
    SumOfSeven(m);
    BytesOfSum(m.addr, m.addr / 256, 8 + FirstSeven(m));
  }

  lemma BytesOfSum(a: nat, b: nat, s: nat)
    ensures (a % 256 + b % 256 + s) % 256 == (b + a + s) % 256
  {
  }

  // Status of the entries in the Toyota mode: the first three have one message each.
  lemma ToyotaEntries(s: Safety)
    requires Consistent(s) && ToyotaInvariant(s) && s.hooks.Toyota?
    ensures |s.status| == |s.config.rxChecks| == 4 && s.config.rxChecks == T.RxEntries(s.hooks.flags.lta)
    ensures s.status[0].index == s.status[1].index == s.status[2].index == 0 && s.status[3].index <= 1
  {
    hide SaneConfig, ToyotaCore;
    assert |s.config.rxChecks[0]| == |s.config.rxChecks[1]| == |s.config.rxChecks[2]| == 1;
  }

  // Which entry takes a frame, if any.
  lemma TakenBy(s: Safety, m: CANPacket)
    requires Consistent(s) && ToyotaInvariant(s) && s.hooks.Toyota?
    ensures
      var r := FindEntry(s.config, s.status, m, 0);
      var listed := m.bus == 0 && m.Len() == 8;
      && (r.Some? && r.value.0 == 0 <==> listed && m.addr == 0xaa)
      && (r.Some? && r.value.0 == 1 <==> listed && m.addr == 0x260)
      && (r.Some? && r.value.0 == 2 <==> listed && m.addr == 0x1D2)
      && (r.Some? && r.value.0 == 3 ==> listed && m.addr in {0x224, 0x226})
      && (listed && m.addr in {0x224, 0x226} && !s.status[3].msgSeen ==> r.Some?)
      && (r.Some? ==> MatchEntry(s.config.rxChecks[r.value.0], s.status[r.value.0], m) == Some(r.value.1))
  {
    hide ToyotaInvariant, Consistent, FindEntry, FirstMatch;
    ToyotaEntries(s);
    var r := FindEntry(s.config, s.status, m, 0);
    OneMessage(s.config.rxChecks[0], s.status[0], m);
    OneMessage(s.config.rxChecks[1], s.status[1], m);
    OneMessage(s.config.rxChecks[2], s.status[2], m);
    TwoMessages(s.config.rxChecks[3], s.status[3], m);
  }

  lemma OneMessage(entry: seq<CanMsgCheck>, st: RxStatus, m: CANPacket)
    requires |entry| == 1 && st.index == 0
    ensures MatchEntry(entry, st, m) == if Matches(entry[0], m) then Some(0) else None
  {
  }

  lemma TwoMessages(entry: seq<CanMsgCheck>, st: RxStatus, m: CANPacket)
    requires |entry| == 2 && st.index <= 1
    ensures MatchEntry(entry, st, m).Some? ==> Matches(entry[0], m) || Matches(entry[1], m)
    ensures !st.msgSeen ==> (MatchEntry(entry, st, m).Some? <==> Matches(entry[0], m) || Matches(entry[1], m))
  {
  }

  // A frame is processed unless it is one of the two that carry a checksum and its sum is wrong, or,
  // with torque angle control, its steering angle is not initialised yet.
  lemma ProcessedExactly(s: Safety, m: CANPacket, ts: Timestamp, env: OtherRx)
    requires Consistent(s) && ToyotaInvariant(s) && s.hooks.Toyota?
    ensures Processed(s, m, ts, env) <==>
      (m.bus == 0 && m.Len() == 8 && m.addr in {0x260, 0x1D2} ==>
         RightSum(m) && (m.addr == 0x260 && s.hooks.flags.lta ==> (m.data[0] / 8) % 2 == 0))
  {
    hide Consistent, ToyotaInvariant, FindEntry, MatchEntry, RightSum, T.Checksum, BitAt, CountWrong;
    ToyotaEntries(s);
    TakenBy(s, m);
    SignalBytes(s.hooks.flags, m);
    if m.Len() == 8 {
      SumIsRight(m);
    }
  }

  // A frame with a wrong sum leaves no controls.
  lemma WrongSumEndsControls(s: Safety, m: CANPacket, ts: Timestamp, env: OtherRx)
    requires Consistent(s) && ToyotaInvariant(s) && s.hooks.Toyota?
    requires m.bus == 0 && m.Len() == 8 && m.addr in {0x260, 0x1D2} && !RightSum(m)
    ensures !OnRx(s, m, ts, env).core.controlsAllowed
  {
    hide Consistent, ToyotaInvariant, Processed, CheckedFrame, RightSum;
    ProcessedExactly(s, m, ts, env);
  }

  // ---- What a frame does ----

  // The vehicle state after a frame on bus 0 that was processed, field by field.
  lemma VehicleAfterFrame(s: Safety, m: CANPacket, ts: Timestamp, env: OtherRx)
    requires Consistent(s) && ToyotaInvariant(s) && s.hooks.Toyota? && m.bus == 0 && Processed(s, m, ts, env)
    ensures
      var flags, c, d := s.hooks.flags, s.core, OnRx(s, m, ts, env).core;
      && d.gasPressed == (if m.addr == 0x1D2 then (m.data[0] / 16) % 2 == 0 else c.gasPressed)
      && d.cruiseEngagedPrev == (if m.addr == 0x1D2 then (m.data[0] / 32) % 2 == 1 else c.cruiseEngagedPrev)
      && d.brakePressed ==
           (if m.addr == 0x224 && flags.altBrake then (m.data[0] / 32) % 2 == 1
            else if m.addr == 0x226 && !flags.altBrake then (m.data[4] / 32) % 2 == 1
            else c.brakePressed)
      && d.vehicleMoving == (if m.addr == 0xaa then AnySpeed(m) else c.vehicleMoving)
      && d.relayMalfunction ==
           (c.relayMalfunction || (s.modeCnt > 1 && (m.addr == 0x2E4 || (m.addr == 0x343 && !flags.stockLongitudinal))))
      && (d.controlsAllowed <==>
            && (c.controlsAllowed || (m.addr == 0x1D2 && !c.cruiseEngagedPrev)) && d.cruiseEngagedPrev
            && (d.gasPressed && !c.gasPressed ==> s.alternativeExperience % 2 == 1)
            && (d.brakePressed ==> c.brakePressed && !d.vehicleMoving))
  {
    hide Consistent, CheckedFrame, Processed, T.RxHook, BitAt, T.Moving, T.BrakeOn, T.CruiseActive, AnySpeed;
    SignalBytes(s.hooks.flags, m);
    SpeedBytes(m);
    SignalsOnly(s.hooks.flags, s.core, m);
    HookOutcome(s.hooks.flags, s.NoDisengageOnGas(), s.modeCnt, s.core, m);
  }

  lemma SignalsOnly(flags: Flags, c: Core, m: CANPacket)
    requires ToyotaCore(c)
    ensures
      var d := T.Signals(flags, c, m);
      && d.gasPressed == (if m.addr == 0x1D2 then !BitAt(m, 4) else c.gasPressed)
      && d.cruiseEngagedPrev == (if m.addr == 0x1D2 then T.CruiseActive(m) else c.cruiseEngagedPrev)
      && d.vehicleMoving == (if m.addr == 0xaa then T.Moving(m) else c.vehicleMoving)
      && d.brakePressed == (if T.IsBrakeMsg(flags, m.addr) then T.BrakeOn(flags, m) else c.brakePressed)
      && d.relayMalfunction == c.relayMalfunction && !d.regenBraking
      && (d.controlsAllowed <==>
            (c.controlsAllowed || (m.addr == 0x1D2 && !c.cruiseEngagedPrev)) && d.cruiseEngagedPrev)
  {
    hide BitAt, T.CruiseActive, T.Moving, T.BrakeOn;
  }

  lemma HookOutcome(flags: Flags, noDisengageOnGas: bool, modeCnt: nat, c: Core, m: CANPacket)
    requires ToyotaCore(c) && m.bus == 0
    ensures
      var e, d := T.Signals(flags, c, m), T.RxHook(flags, noDisengageOnGas, modeCnt, c, m);
      && SameSignals(e, d)
      && d.relayMalfunction == (e.relayMalfunction || (modeCnt > 1 && T.StockEcu(flags, m.addr)))
      && (d.controlsAllowed <==>
            && e.controlsAllowed
            && (e.gasPressed && !c.gasPressed ==> noDisengageOnGas)
            && (e.brakePressed ==> c.brakePressed && !e.vehicleMoving))
  {
    hide BitAt, T.CruiseActive, T.Moving, T.BrakeOn, T.StockEcu, T.IsBrakeMsg, T.GenericChecks, T.PcmCruise;
    T.GenericOutcome(T.Signals(flags, c, m), noDisengageOnGas, modeCnt, T.StockEcu(flags, m.addr));
  }

  predicate SameSignals(c: Core, d: Core) {
    && d.gasPressed == c.gasPressed && d.brakePressed == c.brakePressed
    && d.cruiseEngagedPrev == c.cruiseEngagedPrev && d.vehicleMoving == c.vehicleMoving
  }

  // Frames on other buses, and frames that fail their checks, leave the vehicle state alone but for
  // the controls.
  lemma OtherFrames(s: Safety, m: CANPacket, ts: Timestamp, env: OtherRx)
    requires Consistent(s) && ToyotaInvariant(s) && s.hooks.Toyota?
    requires m.bus != 0 || !Processed(s, m, ts, env)
    ensures OnRx(s, m, ts, env).core ==
      if Processed(s, m, ts, env) then s.core else s.core.(controlsAllowed := false)
    ensures m.bus != 0 ==> Processed(s, m, ts, env)
  {
    hide Consistent, CheckedFrame, Processed, ToyotaInvariant;
    ProcessedExactly(s, m, ts, env);
  }

  // Controls are gained exactly with a frame 0x1D2 on bus 0 whose cruise bit goes up, and whose sum
  // is right if it has eight bytes, unless the gas goes down with it or the brake holds a moving car.
  lemma EngagesOnBytes(debug: bool, s: Safety, e: Event)
    requires Consistent(s) && ToyotaInvariant(s) && s.hooks.Toyota? && !SetsMode(e) && !s.core.controlsAllowed
    ensures Step(debug, s, e).core.controlsAllowed <==>
      && e.Rx? && e.packet.bus == 0 && e.packet.addr == 0x1D2
      && (e.packet.Len() == 8 ==> RightSum(e.packet))
      && !s.core.cruiseEngagedPrev && (e.packet.data[0] / 32) % 2 == 1
      && ((e.packet.data[0] / 16) % 2 == 1 || s.core.gasPressed || s.alternativeExperience % 2 == 1)
      && !(s.core.brakePressed && s.core.vehicleMoving)
  {
    hide Consistent, ToyotaInvariant, Step, Processed, BitAt, T.CruiseActive, RightSum;
    EngagesExactly(debug, s, e);
    if e.Rx? {
      ProcessedExactly(s, e.packet, e.ts, e.rxEnv);
      SignalBytes(s.hooks.flags, e.packet);
    }
  }

  // ---- What may be sent ----

  // Address and length of the messages for bus 0 and bus 1; with stock longitudinal control only the
  // first five.
  const STEERING_MSGS: set<(int, int)> := {(0x2E4, 5), (0x191, 8), (0x412, 8), (0x343, 8), (0x1D2, 8)}
  const LONGITUDINAL_MSGS: set<(int, int)> := {
    (0x283, 7), (0x2E6, 8), (0x2E7, 8), (0x33E, 7), (0x344, 8), (0x365, 7), (0x366, 7), (0x4CB, 8),
    (0x411, 8), (0x750, 8)}
  const BUS1_MSGS: set<(int, int)> := {(0x128, 6), (0x141, 4), (0x160, 8), (0x161, 7), (0x470, 4)}

  predicate Listed(flags: Flags, m: CANPacket) {
    var x := (m.addr, m.Len());
    || (m.bus == 0 && (x in STEERING_MSGS || (x in LONGITUDINAL_MSGS && !flags.stockLongitudinal)))
    || (m.bus == 1 && x in BUS1_MSGS && !flags.stockLongitudinal)
  }

  lemma ListedMessages(flags: Flags, m: CANPacket)
    ensures MsgAllowed(m, T.InitConfig(flags).txMsgs) <==> Listed(flags, m)
  {
    var x := CanMsg(m.addr, m.bus, m.Len());
    assert x in T.COMMON_TX_MSGS <==> m.bus == 0 && (m.addr, m.Len()) in STEERING_MSGS;
    assert x in T.LONG_TX_MSGS <==>
      || x in T.COMMON_TX_MSGS
      || (m.bus == 0 && (m.addr, m.Len()) in LONGITUDINAL_MSGS) || (m.bus == 1 && (m.addr, m.Len()) in BUS1_MSGS);
  }

  // Exactly which messages are sent, by address.
  lemma SentExactly(s: Safety, m: CANPacket, env: TxEnv)
    requires Consistent(s) && ToyotaInvariant(s) && s.hooks.Toyota?
    ensures TxAllowed(s, m, env) <==>
      && !s.core.relayMalfunction && Listed(s.hooks.flags, m)
      && (m.addr == 0x343 ==> AccelBytesOk(s, m))
      && (m.addr == 0x2E4 ==> TorqueBytesOk(s, m, env))
      && (m.addr == 0x191 ==> AngleBytesOk(s, m, env))
      && (m.addr == 0x283 ==> forall i :: 0 <= i < 6 ==> m.data[i] == 0)
      && (m.addr == 0x750 ==> m.data[0] == 0x0F && m.data[1] == 2 && m.data[2] == 0x3E
                              && forall i :: 3 <= i < 8 ==> m.data[i] == 0)
  {
    hide Consistent, T.InitConfig, MsgAllowed, Listed, BitAt, T.DesiredAccel, T.DesiredTorque, T.SteerRequest,
      SignedBytes, ToSigned16, Word16;
    ToyotaMode(s);
    ListedMessages(s.hooks.flags, m);
    CommandBytes(m);
    AngleBytes(m);
    SignalBytes(s.hooks.flags, m);
    Diagnostics(m);
    if m.addr in {0x343, 0x2E4, 0x191, 0x283} {
      OnBusZero(s.hooks.flags, m);
    }
  }

  lemma OnBusZero(flags: Flags, m: CANPacket)
    requires m.addr in {0x343, 0x2E4, 0x191, 0x283}
    ensures Listed(flags, m) ==> m.bus == 0
  {
  }

  lemma Diagnostics(m: CANPacket)
    ensures T.TesterPresent(m) <==>
      m.data[0] == 0x0F && m.data[1] == 2 && m.data[2] == 0x3E && forall i :: 3 <= i < 8 ==> m.data[i] == 0
  {
    var d := m.data[..8];
    assert T.TesterPresent(m) ==>
      d[0] == 0x0F && d[1] == 2 && d[2] == 0x3E && d[3] == d[4] == d[5] == d[6] == d[7] == 0;
  }

  lemma AngleBytes(m: CANPacket)
    ensures ToSigned16(Word16(m, 1)) == SignedBytes(m.data[1], m.data[2])
    ensures BitAt(m, 0) <==> m.data[0] % 2 == 1
  {
  }

  // An acceleration: none, or in range with controls and without gas; with stock longitudinal control
  // only a request to cancel.
  predicate AccelBytesOk(s: Safety, m: CANPacket)
    requires s.hooks.Toyota?
  {
    var a := SignedBytes(m.data[0], m.data[1]);
    && (a != 0 ==> s.core.controlsAllowed && !s.core.gasPressed && -3500 <= a <= 2000)
    && (s.hooks.flags.stockLongitudinal ==> a == 0 && m.data[3] % 2 == 1)
  }

  // A torque: what the torque check says, or none at all with angle control.
  predicate TorqueBytesOk(s: Safety, m: CANPacket, env: TxEnv)
    requires s.hooks.Toyota?
  {
    if s.hooks.flags.lta then SignedBytes(m.data[1], m.data[2]) == 0 && m.data[0] % 2 == 0
    else !env.torqueViolation
  }

  // An angle: none without angle control; with it, both request bits agree, and the torque may be
  // wound down fully, or not at all, and fully only on request and with little torque around.
  predicate AngleBytesOk(s: Safety, m: CANPacket, env: TxEnv)
    requires s.hooks.Toyota?
  {
    var request, request2 := m.data[0] % 2 == 1, (m.data[3] / 2) % 2 == 1;
    var x := env.extremes;
    if !s.hooks.flags.lta then
      !request && !request2 && SignedBytes(m.data[1], m.data[2]) == 0 && m.data[5] == 0
    else
      && !env.angleViolation && request == request2
      && (m.data[5] == 0 ||
            (&& m.data[5] == 100 && request
             && (-150 <= x.driverMin <= 150 || -150 <= x.driverMax <= 150)
             && (-1500 <= x.measMin <= 1500 || -1500 <= x.measMax <= 1500)))
  }
}
