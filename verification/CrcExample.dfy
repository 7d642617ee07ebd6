// The check values of the three checksums: what they give for the nine bytes "123456789", as published
// for CRC-8/SAE-J1850, CRC-8/AUTOSAR and CRC-16/XMODEM.
module CrcExample {
  import opened Crc

  const DIGITS: seq<bv8> := [0x31, 0x32, 0x33, 0x34, 0x35, 0x36, 0x37, 0x38, 0x39]

  // A byte in the upper end of the register moves through it.
  function EightSteps8(poly: bv8, x: bv8): bv8 {
    var a := BitStep8(poly, BitStep8(poly, BitStep8(poly, BitStep8(poly, x, false), false), false), false);
    BitStep8(poly, BitStep8(poly, BitStep8(poly, BitStep8(poly, a, false), false), false), false)
  }

  function EightSteps16(poly: bv16, x: bv16): bv16 {
    var a := BitStep16(poly, BitStep16(poly, BitStep16(poly, BitStep16(poly, x, false), false), false), false);
    BitStep16(poly, BitStep16(poly, BitStep16(poly, BitStep16(poly, a, false), false), false), false)
  }

  lemma NextShift8(poly: bv8, x: bv8, k: nat)
    ensures Shift8(poly, x, 0) == x && Shift8(poly, x, k + 1) == BitStep8(poly, Shift8(poly, x, k), false)
  {
  }

  lemma Unrolled8(poly: bv8, x: bv8)
    ensures Shift8(poly, x, 8) == EightSteps8(poly, x)
  {
    hide BitStep8, Shift8;
    NextShift8(poly, x, 0); NextShift8(poly, x, 1); NextShift8(poly, x, 2); NextShift8(poly, x, 3);
    NextShift8(poly, x, 4); NextShift8(poly, x, 5); NextShift8(poly, x, 6); NextShift8(poly, x, 7);
  }

  lemma NextShift16(poly: bv16, x: bv16, k: nat)
    ensures Shift16(poly, x, 0) == x && Shift16(poly, x, k + 1) == BitStep16(poly, Shift16(poly, x, k), false)
  {
  }

  lemma Unrolled16(poly: bv16, x: bv16)
    ensures Shift16(poly, x, 8) == EightSteps16(poly, x)
  {
    hide BitStep16, Shift16;
    NextShift16(poly, x, 0); NextShift16(poly, x, 1); NextShift16(poly, x, 2); NextShift16(poly, x, 3);
    NextShift16(poly, x, 4); NextShift16(poly, x, 5); NextShift16(poly, x, 6); NextShift16(poly, x, 7);
  }

  lemma Digit8(poly: bv8, init: bv8, i: nat, before: bv8, after: bv8)
    requires i < 9 && Crc8(poly, init, Bits(DIGITS[..i])) == before
    requires EightSteps8(poly, Xor8(before, DIGITS[i])) == after
    ensures Crc8(poly, init, Bits(DIGITS[..i + 1])) == after
  {
    hide Crc8, Bits, BitStep8;
    assert DIGITS[..i + 1] == DIGITS[..i] + [DIGITS[i]];
    NextByte8(poly, init, DIGITS[..i], DIGITS[i]);
    Unrolled8(poly, Xor8(before, DIGITS[i]));
  }

  lemma Digit16(poly: bv16, init: bv16, i: nat, before: bv16, after: bv16)
    requires i < 9 && Crc16(poly, init, Bits(DIGITS[..i])) == before
    requires Lookup16(before, EightSteps16(poly, High(Index16(before, DIGITS[i])))) == after
    ensures Crc16(poly, init, Bits(DIGITS[..i + 1])) == after
  {
    hide Crc16, Bits, BitStep16;
    assert DIGITS[..i + 1] == DIGITS[..i] + [DIGITS[i]];
    NextByte16(poly, init, DIGITS[..i], DIGITS[i]);
    Unrolled16(poly, High(Index16(before, DIGITS[i])));
  }

  lemma FirstDigitsSaeJ1850()
    ensures Crc8(0x1D, 0xFF, Bits(DIGITS[..5])) == 0x89
  {
    hide Crc8, Bits;
    NoBits8(0x1D, 0xFF);
    assert DIGITS[..0] == [];
    Digit8(0x1D, 0xFF, 0, 0xFF, 0x93);
    Digit8(0x1D, 0xFF, 1, 0x93, 0xBC);
    Digit8(0x1D, 0xFF, 2, 0xBC, 0x9D);
    Digit8(0x1D, 0xFF, 3, 0x9D, 0x54);
    Digit8(0x1D, 0xFF, 4, 0x54, 0x89);
  }

  lemma CheckSaeJ1850()
    ensures Crc8(0x1D, 0xFF, Bits(DIGITS)) == 0xB4 && !(0xB4 as bv8) == 0x4B
  {
    hide Crc8, Bits;
    FirstDigitsSaeJ1850();
    assert DIGITS[..9] == DIGITS;
    Digit8(0x1D, 0xFF, 5, 0x89, 0xD7);
    Digit8(0x1D, 0xFF, 6, 0xD7, 0xB2);
    Digit8(0x1D, 0xFF, 7, 0xB2, 0xF4);
    Digit8(0x1D, 0xFF, 8, 0xF4, 0xB4);
  }

  lemma FirstDigitsAutosar()
    ensures Crc8(0x2F, 0xFF, Bits(DIGITS[..5])) == 0x6D
  {
    hide Crc8, Bits;
    NoBits8(0x2F, 0xFF);
    assert DIGITS[..0] == [];
    Digit8(0x2F, 0xFF, 0, 0xFF, 0xB0);
    Digit8(0x2F, 0xFF, 1, 0xB0, 0xBD);
    Digit8(0x2F, 0xFF, 2, 0xBD, 0x56);
    Digit8(0x2F, 0xFF, 3, 0x56, 0xCB);
    Digit8(0x2F, 0xFF, 4, 0xCB, 0x6D);
  }

  lemma CheckAutosar()
    ensures Crc8(0x2F, 0xFF, Bits(DIGITS)) == 0x20 && !(0x20 as bv8) == 0xDF
  {
    hide Crc8, Bits;
    FirstDigitsAutosar();
    assert DIGITS[..9] == DIGITS;
    Digit8(0x2F, 0xFF, 5, 0x6D, 0x6E);
    Digit8(0x2F, 0xFF, 6, 0x6E, 0x30);
    Digit8(0x2F, 0xFF, 7, 0x30, 0x57);
    Digit8(0x2F, 0xFF, 8, 0x57, 0x20);
  }

  lemma CheckXmodem()
    ensures Crc16(0x1021, 0, Bits(DIGITS)) == 0x31C3
  {
    hide Crc16, Bits;
    NoBits16(0x1021, 0);
    assert DIGITS[..0] == [] && DIGITS[..9] == DIGITS;
    Digit16(0x1021, 0x0000, 0, 0x0000, 0x2672);
    Digit16(0x1021, 0x0000, 1, 0x2672, 0x20B5);
    Digit16(0x1021, 0x0000, 2, 0x20B5, 0x9752);
    Digit16(0x1021, 0x0000, 3, 0x9752, 0xD789);
    Digit16(0x1021, 0x0000, 4, 0xD789, 0x546C);
    Digit16(0x1021, 0x0000, 5, 0x546C, 0x20E4);
    Digit16(0x1021, 0x0000, 6, 0x20E4, 0x86D6);
    Digit16(0x1021, 0x0000, 7, 0x86D6, 0x9015);
    Digit16(0x1021, 0x0000, 8, 0x9015, 0x31C3);
  }
}
