// The numbers and flags the Toyota mode reads, in terms of the bytes of a frame
// (board/safety/safety_toyota.h).
module ToyotaBytes {
  import opened Arith
  import opened Bytes
  import opened CanPacket
  import opened SafetyState
  import T = ToyotaHooks

  // A signed 16-bit number, most significant byte first.
  function SignedBytes(high: int, low: int): int {
    if high >= 0x80 then 256 * (high - 256) + low else 256 * high + low
  }

  lemma NonZero(high: Byte, low: Byte)
    ensures SignedBytes(high, low) == 0 <==> high == 0 && low == 0
  {
  }

  lemma CommandBytes(m: CANPacket)
    ensures T.DesiredAccel(m) == SignedBytes(m.data[0], m.data[1])
    ensures T.DesiredTorque(m) == SignedBytes(m.data[1], m.data[2])
    ensures T.SteerRequest(m) <==> m.data[0] % 2 == 1
  {
  }

  // The motor torque is the number in bytes 5 and 6 in hundredths of the factor, towards zero.
  function MotorTorque(flags: Flags, m: CANPacket): int {
    var x := SignedBytes(m.data[5], m.data[6]) * flags.epsFactor;
    if x >= 0 then x / 100 else -(-x / 100)
  }

  lemma MeasuredBytes(flags: Flags, m: CANPacket)
    ensures T.MeasuredTorque(flags, m) == MotorTorque(flags, m)
    ensures ToSigned16(Word16(m, 1)) == SignedBytes(m.data[1], m.data[2])
  {
  }

  // Bit 8 i + k of a frame is bit k of byte i.
  lemma BitPlace(m: CANPacket, i: nat, k: nat)
    requires i < 64 && k < 8
    ensures Pow(2, k) > 0 && (BitAt(m, 8 * i + k) <==> (m.data[i] / Pow(2, k)) % 2 == 1)
  {
    assert (8 * i + k) / 8 == i && (8 * i + k) % 8 == k;
    assert Pow(2, 1) == 2 && Pow(2, 2) == 4 && Pow(2, 3) == 8 && Pow(2, 4) == 16 && Pow(2, 5) == 32 && Pow(2, 6) == 64;
    assert POWERS[k] == Pow(2, k);
  }

  lemma SignalBytes(flags: Flags, m: CANPacket)
    ensures T.CruiseActive(m) <==> (m.data[0] / 32) % 2 == 1
    ensures BitAt(m, 4) <==> (m.data[0] / 16) % 2 == 1
    ensures T.BrakeOn(flags, m) <==> ((if flags.altBrake then m.data[0] else m.data[4]) / 32) % 2 == 1
    ensures BitAt(m, 3) <==> (m.data[0] / 8) % 2 == 1
    ensures BitAt(m, 24) <==> m.data[3] % 2 == 1
    ensures BitAt(m, 25) <==> (m.data[3] / 2) % 2 == 1
  {
  }

  // The raw values of the four wheel speeds, 6767 at standstill, do not sum to standstill.
  predicate AnySpeed(m: CANPacket) {
    SignedSpeed(m.data[0], m.data[1]) + SignedSpeed(m.data[2], m.data[3])
    + SignedSpeed(m.data[4], m.data[5]) + SignedSpeed(m.data[6], m.data[7]) != 0
  }

  function SignedSpeed(high: int, low: int): int {
    256 * high + low - 6767
  }

  lemma SpeedBytes(m: CANPacket)
    ensures T.Moving(m) <==> AnySpeed(m)
  {
  }
}
