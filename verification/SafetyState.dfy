// The state of the safety layer and its static tables (board/safety.h, board/safety_declarations.h).
module SafetyState {
  import opened Arith
  import opened Bytes
  import opened CanPacket
  import opened Steering

  const SAFETY_SILENT := 0
  const SAFETY_TOYOTA := 2
  const SAFETY_ELM327 := 3
  const SAFETY_ALLOUTPUT := 17
  const SAFETY_NOOUTPUT := 19

  type Mode = x: int | 0 <= x < 0x1_0000
  type Param = x: int | 0 <= x < 0x1_0000

  // The modes with an entry in the hook registry, without and with the debug-only entries.
  const RELEASE_MODES: set<int> := {0, 1, 2, 3, 4, 8, 9, 11, 13, 14, 15, 6, 19, 20, 23, 27, 28}
  const DEBUG_MODES: set<int> := {10, 17, 21, 22}

  predicate Registered(debug: bool, mode: Mode) {
    mode in RELEASE_MODES || (debug && mode in DEBUG_MODES)
  }

  predicate IsCarMode(mode: Mode) {
    mode != SAFETY_SILENT && mode != SAFETY_NOOUTPUT && mode != SAFETY_ALLOUTPUT && mode != SAFETY_ELM327
  }

  // ---- Reading a packet ----

  predicate BitAt(m: CANPacket, b: nat)
    requires b < 512
  {
    (m.data[b / 8] / POWERS[b % 8]) % 2 == 1
  }

  const POWERS: seq<nat> := [1, 2, 4, 8, 16, 32, 64, 128]

  // Two bytes, most significant first.
  function Word16(m: CANPacket, i: nat): (w: nat)
    requires i < 63
    ensures w < 0x1_0000
  {
    var high: nat := m.data[i];
    256 * high + m.data[i + 1]
  }

  // The value of a two's complement number with so many bits.
  function ToSigned(d: int, bits: nat): int {
    if d >= Pow(2, if bits > 0 then bits - 1 else 0) then d - Pow(2, bits) else d
  }

  // For every width, the result is the one number in the signed range congruent to the raw value.
  lemma SignedValue(d: int, bits: nat, v: int)
    requires bits > 0 && 0 <= d < Pow(2, bits)
    ensures -Pow(2, bits - 1) <= ToSigned(d, bits) < Pow(2, bits - 1)
    ensures -Pow(2, bits - 1) <= v < Pow(2, bits - 1) && (v - d) % Pow(2, bits) == 0 <==> v == ToSigned(d, bits)
  {
    var h := Pow(2, bits - 1);
    var n := Pow(2, bits);
    assert n == 2 * h;
    MultipleMod(-1, n);
    MultipleMod(0, n);
    if (v - d) % n == 0 && -h <= v < h {
      var k := (v - d) / n;
      assert v - d == n * k;
      NoSmallMultiple(n, k);
      NoSmallMultiple(n, k + 1);
      assert n * (k + 1) == n * k + n;
    }
  }

  // A signed 16-bit field.
  function ToSigned16(d: nat): (v: int)
    requires d < 0x1_0000
    ensures v == ToSigned(d, 16) && -0x8000 <= v < 0x8000
  {
    assert Pow(2, 15) == 0x8000 && Pow(2, 16) == 0x1_0000 by {
      assert Pow(2, 4) == 16;
      PowAdd(2, 4, 4);
      PowAdd(2, 8, 4);
      PowAdd(2, 12, 3);
    }
    if d >= 0x8000 then d - 0x1_0000 else d
  }

  // Division that truncates toward zero.
  function TruncDiv(a: int, b: int): int
    requires b > 0
  {
    if a >= 0 then a / b else -((-a) / b)
  }

  // ---- What is monitored ----

  datatype CanMsg = CanMsg(addr: int, bus: int, len: int)

  datatype CanMsgCheck = CanMsgCheck(
    addr: int, bus: int, len: int,
    checkChecksum: bool, maxCounter: Byte, qualityFlag: bool, frequency: nat)

  datatype RxStatus = RxStatus(
    msgSeen: bool, index: nat, validChecksum: bool, wrongCounters: int,
    validQualityFlag: bool, lastCounter: Byte, lastTimestamp: Timestamp, lagging: bool)

  const UNSEEN := RxStatus(false, 0, false, 0, false, 0, 0, false)

  datatype Config = Config(rxChecks: seq<seq<CanMsgCheck>>, txMsgs: seq<CanMsg>)

  // Every monitored entry lists at least one message, each with a known rate.
  predicate SaneConfig(c: Config) {
    forall i :: 0 <= i < |c.rxChecks| ==>
      |c.rxChecks[i]| > 0 && forall j :: 0 <= j < |c.rxChecks[i]| ==> c.rxChecks[i][j].frequency > 0
  }

  predicate SaneStatus(c: Config, status: seq<RxStatus>) {
    |status| == |c.rxChecks| && forall i :: 0 <= i < |status| ==> status[i].index < |c.rxChecks[i]|
  }

  // ---- The state ----

  datatype Core = Core(
    controlsAllowed: bool, relayMalfunction: bool,
    gasPressed: bool, gasPressedPrev: bool,
    brakePressed: bool, brakePressedPrev: bool,
    regenBraking: bool, regenBrakingPrev: bool,
    cruiseEngagedPrev: bool, vehicleMoving: bool)

  const CLEARED := Core(false, false, false, false, false, false, false, false, false, false)

  datatype Flags = Flags(altBrake: bool, stockLongitudinal: bool, lta: bool, epsFactor: nat)

  // The hooks of the mode; Other stands for every mode whose hooks are not modelled.
  datatype Hooks = NoOutput | Toyota(flags: Flags) | Other

  datatype Heartbeat = Heartbeat(counter: nat, lost: bool, disabled: bool, engaged: bool, mismatches: nat)

  datatype Safety = Safety(
    mode: Mode, param: Param, hooks: Hooks, config: Config, status: seq<RxStatus>,
    core: Core, modeCnt: nat, rxChecksInvalid: bool,
    bus: BusSetup, alternativeExperience: Param, beat: Heartbeat)
  {
    // Bit 0 of the parameter.
    predicate NoDisengageOnGas() { alternativeExperience % 2 == 1 }
  }

  // Whether the relay is switched in, and whether the CAN controllers only listen.
  datatype BusSetup = BusSetup(interceptRelay: bool, canSilent: bool)

  function BusFor(mode: Mode): BusSetup {
    BusSetup(mode != SAFETY_SILENT && mode != SAFETY_NOOUTPUT && mode != SAFETY_ELM327, mode == SAFETY_SILENT)
  }

  // What a mode that is not modelled does with a frame, or as it is set.
  datatype OtherRx = OtherRx(checksum: bool, counter: Byte, hasCounter: bool, quality: bool, core: Core)
  datatype OtherInit = OtherInit(config: Config)

  const BOOT := Safety(SAFETY_SILENT, 0, NoOutput, Config([], []), [], CLEARED, 0, false,
                       BusSetup(false, true), 0, Heartbeat(0, false, false, false, 0))

  // The parts that belong together.
  predicate Consistent(s: Safety) {
    && SaneConfig(s.config) && SaneStatus(s.config, s.status)
    && (s.mode in {SAFETY_SILENT, SAFETY_NOOUTPUT} <==> s.hooks.NoOutput?)
    && (s.mode == SAFETY_TOYOTA <==> s.hooks.Toyota?)
    && (s.hooks.NoOutput? ==> s.config == Config([], []) && !s.core.controlsAllowed)
    && s.bus == BusFor(s.mode)
    && s.beat.counter < U32 && s.beat.mismatches < U32 && s.modeCnt < U32
  }
}
