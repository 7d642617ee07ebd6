// The hooks of the Toyota mode (board/safety/safety_toyota.h) and the generic checks they call (board/safety.h).
module ToyotaHooks {
  import opened Arith
  import opened Bytes
  import opened CanPacket
  import opened Steering
  import opened SafetyState

  const TOYOTA_LIMITS := Limits(1500, 15, 25, 450, 250000, TorqueMotorLimited, 0, 0, 350, 18, 1, 170000, true)

  const MAX_ACCEL := 2000
  const MIN_ACCEL := -3500
  const INACTIVE_ACCEL := 0
  const LTA_MAX_MEAS_TORQUE := 1500
  const LTA_MAX_DRIVER_TORQUE := 150
  const RELAY_TRNS_TIMEOUT := 1

  const COMMON_TX_MSGS := [
    CanMsg(0x2E4, 0, 5), CanMsg(0x191, 0, 8), CanMsg(0x412, 0, 8), CanMsg(0x343, 0, 8), CanMsg(0x1D2, 0, 8)]

  const LONG_TX_MSGS := COMMON_TX_MSGS + [
    CanMsg(0x283, 0, 7), CanMsg(0x2E6, 0, 8), CanMsg(0x2E7, 0, 8), CanMsg(0x33E, 0, 7), CanMsg(0x344, 0, 8),
    CanMsg(0x365, 0, 7), CanMsg(0x366, 0, 7), CanMsg(0x4CB, 0, 8),
    CanMsg(0x128, 1, 6), CanMsg(0x141, 1, 4), CanMsg(0x160, 1, 8), CanMsg(0x161, 1, 7), CanMsg(0x470, 1, 4),
    CanMsg(0x411, 0, 8), CanMsg(0x750, 0, 8)]

  function RxEntries(lta: bool): seq<seq<CanMsgCheck>> {
    [[CanMsgCheck(0xaa, 0, 8, false, 0, false, 83)],
     [CanMsgCheck(0x260, 0, 8, true, 0, lta, 50)],
     [CanMsgCheck(0x1D2, 0, 8, true, 0, false, 33)],
     [CanMsgCheck(0x224, 0, 8, false, 0, false, 40), CanMsgCheck(0x226, 0, 8, false, 0, false, 40)]]
  }

  // ---- toyota_init ----

  function InitFlags(param: Param): Flags {
    Flags((param / 0x100) % 2 == 1, (param / 0x200) % 2 == 1, (param / 0x400) % 2 == 1, param % 0x100)
  }

  function InitConfig(flags: Flags): (c: Config)
    ensures SaneConfig(c)
  {
    Config(RxEntries(flags.lta), if flags.stockLongitudinal then COMMON_TX_MSGS else LONG_TX_MSGS)
  }

  // ---- Checksum ----

  function Sum(s: seq<Byte>): nat {
    if s == [] then 0 else Sum(s[..|s| - 1]) + s[|s| - 1]
  }

  // Address, length and all bytes but the last, modulo 256.
  function Checksum(m: CANPacket): Byte {
    (m.addr % 256 + (m.addr / 256) % 256 + m.Len() + Sum(m.data[..Max(m.Len() - 1, 0)])) % 256
  }

  lemma AddBytes(x: nat, b: nat)
    ensures (x % 256 + b) % 256 == (x + b) % 256
  {
  }

  method ToyotaComputeChecksum(m: CANPacket) returns (checksum: Byte)
    ensures checksum == Checksum(m)
  {
    var len := m.Len();
    var start := m.addr % 256 + (m.addr / 256) % 256 + len;
    checksum := start % 256;
    var i := 0;
    while i < len - 1
      invariant 0 <= i <= Max(len - 1, 0)
      invariant checksum == (start + Sum(m.data[..i])) % 256
    {
      assert m.data[..i + 1][..i] == m.data[..i];
      AddBytes(start + Sum(m.data[..i]), m.data[i]);
      checksum := (checksum + m.data[i]) % 256;
      i := i + 1;
    }
  }

  function GetChecksum(m: CANPacket): Byte
    requires m.Len() > 0
  {
    m.data[m.Len() - 1]
  }

  predicate QualityFlagValid(m: CANPacket) {
    m.addr == 0x260 && !BitAt(m, 3)
  }

  // ---- Checks shared by the car modes ----

  // Controls follow the edges of the stock cruise control.
  function PcmCruise(c: Core, cruiseEngaged: bool): Core {
    c.(controlsAllowed := cruiseEngaged && (c.controlsAllowed || !c.cruiseEngagedPrev),
       cruiseEngagedPrev := cruiseEngaged)
  }

  // Exit controls on the rising edge of the gas.
  function GasCheck(c: Core, noDisengageOnGas: bool): Core {
    var exit := c.gasPressed && !c.gasPressedPrev && !noDisengageOnGas;
    c.(controlsAllowed := c.controlsAllowed && !exit, gasPressedPrev := c.gasPressed)
  }

  // Exit controls on the rising edge of the brake, and on the brake of a moving car.
  function BrakeCheck(c: Core): Core {
    var exit := c.brakePressed && (!c.brakePressedPrev || c.vehicleMoving);
    c.(controlsAllowed := c.controlsAllowed && !exit, brakePressedPrev := c.brakePressed)
  }

  // The same for the regen paddle.
  function RegenCheck(c: Core): Core {
    var exit := c.regenBraking && (!c.regenBrakingPrev || c.vehicleMoving);
    c.(controlsAllowed := c.controlsAllowed && !exit, regenBrakingPrev := c.regenBraking)
  }

  // Look for the stock ECU on the bus the harness broke.
  function RelayCheck(c: Core, modeCnt: nat, stockEcuDetected: bool): Core {
    c.(relayMalfunction := c.relayMalfunction || (modeCnt > RELAY_TRNS_TIMEOUT && stockEcuDetected))
  }

  function GenericChecks(c: Core, noDisengageOnGas: bool, modeCnt: nat, stockEcuDetected: bool): Core {
    RelayCheck(RegenCheck(BrakeCheck(GasCheck(c, noDisengageOnGas))), modeCnt, stockEcuDetected)
  }

  // The signals a check only reads.
  predicate SameSignals(c: Core, d: Core) {
    && d.gasPressed == c.gasPressed && d.brakePressed == c.brakePressed && d.regenBraking == c.regenBraking
    && d.cruiseEngagedPrev == c.cruiseEngagedPrev && d.vehicleMoving == c.vehicleMoving
  }

  lemma GasOutcome(c: Core, noDisengageOnGas: bool)
    ensures
      var d := GasCheck(c, noDisengageOnGas);
      && (d.controlsAllowed <==> c.controlsAllowed && (c.gasPressed && !c.gasPressedPrev ==> noDisengageOnGas))
      && d.gasPressedPrev == c.gasPressed && d.brakePressedPrev == c.brakePressedPrev
      && d.regenBrakingPrev == c.regenBrakingPrev && d.relayMalfunction == c.relayMalfunction && SameSignals(c, d)
  {
  }

  lemma BrakeOutcome(c: Core)
    ensures
      var d := BrakeCheck(c);
      && (d.controlsAllowed <==> c.controlsAllowed && (c.brakePressed ==> c.brakePressedPrev && !c.vehicleMoving))
      && d.gasPressedPrev == c.gasPressedPrev && d.brakePressedPrev == c.brakePressed
      && d.regenBrakingPrev == c.regenBrakingPrev && d.relayMalfunction == c.relayMalfunction && SameSignals(c, d)
  {
  }

  lemma RegenOutcome(c: Core)
    ensures
      var d := RegenCheck(c);
      && (d.controlsAllowed <==> c.controlsAllowed && (c.regenBraking ==> c.regenBrakingPrev && !c.vehicleMoving))
      && d.gasPressedPrev == c.gasPressedPrev && d.brakePressedPrev == c.brakePressedPrev
      && d.regenBrakingPrev == c.regenBraking && d.relayMalfunction == c.relayMalfunction && SameSignals(c, d)
  {
  }

  // What the checks amount to.
  lemma GenericOutcome(c: Core, noDisengageOnGas: bool, modeCnt: nat, stockEcuDetected: bool)
    ensures
      var d := GenericChecks(c, noDisengageOnGas, modeCnt, stockEcuDetected);
      && (d.controlsAllowed <==>
          && c.controlsAllowed
          && (c.gasPressed && !c.gasPressedPrev ==> noDisengageOnGas)
          && (c.brakePressed ==> c.brakePressedPrev && !c.vehicleMoving)
          && (c.regenBraking ==> c.regenBrakingPrev && !c.vehicleMoving))
      && d.gasPressedPrev == c.gasPressed && d.brakePressedPrev == c.brakePressed
      && d.regenBrakingPrev == c.regenBraking
      && d.relayMalfunction == (c.relayMalfunction || (modeCnt > RELAY_TRNS_TIMEOUT && stockEcuDetected))
      && SameSignals(c, d)
  {
    hide GasCheck, BrakeCheck, RegenCheck;
    GasOutcome(c, noDisengageOnGas);
    BrakeOutcome(GasCheck(c, noDisengageOnGas));
    RegenOutcome(BrakeCheck(GasCheck(c, noDisengageOnGas)));
  }

  // ---- toyota_rx_hook ----

  predicate CruiseActive(m: CANPacket) { BitAt(m, 5) }

  // The car moves when the four wheel speeds do not cancel out to zero.
  predicate Moving(m: CANPacket) {
    Word16(m, 0) + Word16(m, 2) + Word16(m, 4) + Word16(m, 6) - 4 * 6767 != 0
  }

  predicate IsBrakeMsg(flags: Flags, addr: int) {
    addr == if flags.altBrake then 0x224 else 0x226
  }

  predicate BrakeOn(flags: Flags, m: CANPacket) {
    BitAt(m, if flags.altBrake then 5 else 37)
  }

  predicate StockEcu(flags: Flags, addr: int) {
    addr == 0x2E4 || (addr == 0x343 && !flags.stockLongitudinal)
  }

  // The signals a frame on bus 0 carries.
  function Signals(flags: Flags, c: Core, m: CANPacket): Core {
    var d := PcmCruise(c, CruiseActive(m));
    c.(controlsAllowed := if m.addr == 0x1D2 then d.controlsAllowed else c.controlsAllowed,
       cruiseEngagedPrev := if m.addr == 0x1D2 then d.cruiseEngagedPrev else c.cruiseEngagedPrev,
       gasPressed := if m.addr == 0x1D2 then !BitAt(m, 4) else c.gasPressed,
       vehicleMoving := if m.addr == 0xaa then Moving(m) else c.vehicleMoving,
       brakePressed := if IsBrakeMsg(flags, m.addr) then BrakeOn(flags, m) else c.brakePressed)
  }

  function RxHook(flags: Flags, noDisengageOnGas: bool, modeCnt: nat, c: Core, m: CANPacket): Core {
    if m.bus != 0 then c
    else GenericChecks(Signals(flags, c, m), noDisengageOnGas, modeCnt, StockEcu(flags, m.addr))
  }

  // The motor torque sample of an 0x260 frame.
  function MeasuredTorque(flags: Flags, m: CANPacket): int {
    TruncDiv(ToSigned16(Word16(m, 5)) * flags.epsFactor, 100)
  }

  // ---- toyota_tx_hook ----

  predicate LongitudinalAllowed(c: Core) {
    c.controlsAllowed && !c.gasPressedPrev
  }

  function DesiredAccel(m: CANPacket): int { ToSigned16(Word16(m, 0)) }
  function DesiredTorque(m: CANPacket): int { ToSigned16(Word16(m, 1)) }
  predicate SteerRequest(m: CANPacket) { BitAt(m, 0) }

  predicate AccelOk(flags: Flags, c: Core, m: CANPacket) {
    var a := DesiredAccel(m);
    && (a == INACTIVE_ACCEL || (LongitudinalAllowed(c) && MIN_ACCEL <= a <= MAX_ACCEL))
    && (flags.stockLongitudinal ==> BitAt(m, 24) && a == INACTIVE_ACCEL)
  }

  // Everything but the checksum byte is zero.
  predicate AebOk(m: CANPacket) {
    forall i :: 0 <= i < 6 ==> m.data[i] == 0
  }

  // Both torque windows leave room to wind the torque down.
  datatype Extremes = Extremes(measMin: int, measMax: int, driverMin: int, driverMax: int)

  predicate LtaOk(flags: Flags, m: CANPacket, e: Extremes, angleViolation: bool) {
    var request, request2, angle, windDown := BitAt(m, 0), BitAt(m, 25), ToSigned16(Word16(m, 1)), m.data[5];
    if !flags.lta then
      !request && !request2 && angle == 0 && windDown == 0
    else
      && !angleViolation
      && request == request2
      && (windDown == 0 ||
          (&& request && windDown == 100
           && Min(Abs(e.driverMin), Abs(e.driverMax)) <= LTA_MAX_DRIVER_TORQUE
           && Min(Abs(e.measMin), Abs(e.measMax)) <= LTA_MAX_MEAS_TORQUE))
  }

  predicate SteerOk(flags: Flags, m: CANPacket, torqueViolation: bool) {
    if flags.lta then DesiredTorque(m) == 0 && !SteerRequest(m) else !torqueViolation
  }

  // Only tester present to the radar.
  predicate TesterPresent(m: CANPacket) {
    m.data[..8] == [0x0F, 0x02, 0x3E, 0x00, 0x00, 0x00, 0x00, 0x00]
  }

  predicate TxHook(flags: Flags, c: Core, m: CANPacket, e: Extremes, torqueViolation: bool, angleViolation: bool) {
    && (m.bus == 0 && m.addr == 0x343 ==> AccelOk(flags, c, m))
    && (m.bus == 0 && m.addr == 0x283 ==> AebOk(m))
    && (m.bus == 0 && m.addr == 0x191 ==> LtaOk(flags, m, e, angleViolation))
    && (m.bus == 0 && m.addr == 0x2E4 ==> SteerOk(flags, m, torqueViolation))
    && (m.addr == 0x750 ==> TesterPresent(m))
  }

  // The torque check runs for a frame.
  predicate ChecksTorque(flags: Flags, m: CANPacket) {
    m.bus == 0 && m.addr == 0x2E4 && !flags.lta
  }
}
