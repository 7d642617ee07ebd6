// Table-driven and disguised cyclic redundancy checks against the plain bit-by-bit form
// (board/safety.h, board/safety/safety_chrysler.h, safety_hyundai_common.h, safety_volkswagen_mqb.h).
module Crc {
  // ---- The plain definition: shift in one message bit at a time ----

  function Xor8(a: bv8, b: bv8): bv8 { a ^ b }
  function Shl8(a: bv8): bv8 { a << 1 }
  predicate Top8(a: bv8) { a & 0x80 != 0 }

  function Xor16(a: bv16, b: bv16): bv16 { a ^ b }
  function Shl16(a: bv16): bv16 { a << 1 }
  predicate Top16(a: bv16) { a & 0x8000 != 0 }

  function BitStep8(poly: bv8, crc: bv8, bit: bool): bv8 {
    if Top8(crc) != bit then Xor8(Shl8(crc), poly) else Shl8(crc)
  }

  function BitStep16(poly: bv16, crc: bv16, bit: bool): bv16 {
    if Top16(crc) != bit then Xor16(Shl16(crc), poly) else Shl16(crc)
  }

  // The bits of a byte, most significant first.
  function BitsOf(b: bv8): (s: seq<bool>)
    ensures |s| == 8
  {
    [b & 0x80 != 0, b & 0x40 != 0, b & 0x20 != 0, b & 0x10 != 0,
     b & 0x08 != 0, b & 0x04 != 0, b & 0x02 != 0, b & 0x01 != 0]
  }

  function Bits(msg: seq<bv8>): seq<bool> {
    if msg == [] then [] else Bits(msg[..|msg| - 1]) + BitsOf(msg[|msg| - 1])
  }

  // The register after a whole bit string.
  function Crc8(poly: bv8, init: bv8, bits: seq<bool>): bv8 {
    if bits == [] then init
    else BitStep8(poly, Crc8(poly, init, bits[..|bits| - 1]), bits[|bits| - 1])
  }

  function Crc16(poly: bv16, init: bv16, bits: seq<bool>): bv16 {
    if bits == [] then init
    else BitStep16(poly, Crc16(poly, init, bits[..|bits| - 1]), bits[|bits| - 1])
  }

  lemma {:induction false} Crc8Concat(poly: bv8, init: bv8, s: seq<bool>, t: seq<bool>)
    ensures Crc8(poly, init, s + t) == Crc8(poly, Crc8(poly, init, s), t)
  {
    hide BitStep8;
    if t == [] {
      assert s + t == s;
    } else {
      var k := |t| - 1;
      assert (s + t)[..|s + t| - 1] == s + t[..k];
      Crc8Concat(poly, init, s, t[..k]);
    }
  }

  lemma {:induction false} Crc16Concat(poly: bv16, init: bv16, s: seq<bool>, t: seq<bool>)
    ensures Crc16(poly, init, s + t) == Crc16(poly, Crc16(poly, init, s), t)
  {
    hide BitStep16;
    if t == [] {
      assert s + t == s;
    } else {
      var k := |t| - 1;
      assert (s + t)[..|s + t| - 1] == s + t[..k];
      Crc16Concat(poly, init, s, t[..k]);
    }
  }

  lemma {:induction false} BitsConcat(s: seq<bv8>, t: seq<bv8>)
    ensures Bits(s + t) == Bits(s) + Bits(t)
  {
    hide BitsOf;
    if t == [] {
      assert s + t == s;
    } else {
      var k := |t| - 1;
      assert (s + t)[..|s + t| - 1] == s + t[..k];
      BitsConcat(s, t[..k]);
    }
  }

  lemma BitsOne(b: bv8)
    ensures Bits([b]) == BitsOf(b)
  {
    hide BitsOf;
    assert [b][..0] == [];
    assert [] + BitsOf(b) == BitsOf(b);
  }

  // ---- One byte at a time ----

  // k steps with zero message bits: what the table generators compute.
  function Shift8(poly: bv8, x: bv8, k: nat): bv8 {
    if k == 0 then x else BitStep8(poly, Shift8(poly, x, k - 1), false)
  }

  function Shift16(poly: bv16, x: bv16, k: nat): bv16 {
    if k == 0 then x else BitStep16(poly, Shift16(poly, x, k - 1), false)
  }

  // Message bits still to come can be added to the register in advance.
  lemma Absorb8(poly: bv8, c: bv8, m: bv8)
    ensures BitStep8(poly, Xor8(c, m), false) == Xor8(BitStep8(poly, c, Top8(m)), Shl8(m))
  {
    assert (c ^ m) << 1 == (c << 1) ^ (m << 1);
    assert (c ^ m) & 0x80 == (c & 0x80) ^ (m & 0x80);
    assert m & 0x80 == 0 || m & 0x80 == 0x80;
    assert c & 0x80 == 0 || c & 0x80 == 0x80;
  }

  lemma Absorb16(poly: bv16, c: bv16, m: bv16)
    ensures BitStep16(poly, Xor16(c, m), false) == Xor16(BitStep16(poly, c, Top16(m)), Shl16(m))
  {
    XorTop16(c, m);
    XorShl16(c, m);
    XorThree16(Shl16(c), Shl16(m), poly);
    hide Xor16, Shl16, Top16;
  }

  // Without message bits a step is linear.
  lemma Linear16(poly: bv16, x: bv16, y: bv16)
    ensures BitStep16(poly, Xor16(x, y), false)
         == Xor16(BitStep16(poly, x, false), BitStep16(poly, y, false))
  {
    XorTop16(x, y);
    XorShl16(x, y);
    XorThree16(Shl16(x), Shl16(y), poly);
    hide Xor16, Shl16, Top16;
  }

  lemma XorTop16(x: bv16, y: bv16)
    ensures Top16(Xor16(x, y)) == (Top16(x) != Top16(y))
  {
    assert (x ^ y) & 0x8000 == (x & 0x8000) ^ (y & 0x8000);
    TopValue16(x);
    TopValue16(y);
  }

  lemma TopValue16(x: bv16)
    ensures x & 0x8000 == 0 || x & 0x8000 == 0x8000
  {
  }

  lemma XorShl16(x: bv16, y: bv16)
    ensures Shl16(Xor16(x, y)) == Xor16(Shl16(x), Shl16(y))
  {
  }

  lemma XorThree16(a: bv16, b: bv16, p: bv16)
    ensures Xor16(Xor16(a, p), b) == Xor16(Xor16(a, b), p) == Xor16(a, Xor16(b, p))
    ensures Xor16(Xor16(a, p), Xor16(b, p)) == Xor16(a, b)
  {
    XorSwap16(a, p, b);
    XorAssociates16(a, b, p);
    XorCancels16(a, b, p);
    hide Xor16;
  }

  lemma XorSwap16(a: bv16, b: bv16, c: bv16)
    ensures Xor16(Xor16(a, b), c) == Xor16(Xor16(a, c), b)
  {
  }

  lemma XorAssociates16(a: bv16, b: bv16, c: bv16)
    ensures Xor16(Xor16(a, b), c) == Xor16(a, Xor16(b, c))
  {
  }

  lemma XorCancels16(a: bv16, b: bv16, p: bv16)
    ensures Xor16(Xor16(a, p), Xor16(b, p)) == Xor16(a, b)
  {
    hide Xor16;
    XorAssociates16(Xor16(a, p), b, p);
    XorSwap16(a, p, b);
    XorTwice16(Xor16(a, b), p);
  }

  lemma XorTwice16(x: bv16, p: bv16)
    ensures Xor16(Xor16(x, p), p) == x
  {
  }

  // The byte moved up by k bits.
  function Up8(b: bv8, k: nat): bv8 {
    if k == 0 then b else Shl8(Up8(b, k - 1))
  }

  function Up16(b: bv16, k: nat): bv16 {
    if k == 0 then b else Shl16(Up16(b, k - 1))
  }

  lemma UpStep8(b: bv8, k: nat)
    ensures Up8(b, 0) == b && Up8(b, k + 1) == Shl8(Up8(b, k))
  {
  }

  lemma UpStep16(b: bv16, k: nat)
    ensures Up16(b, 0) == b && Up16(b, k + 1) == Shl16(Up16(b, k))
  {
  }

  lemma ShiftsOut8(b: bv8)
    ensures Shl8(Shl8(Shl8(Shl8(Shl8(Shl8(Shl8(Shl8(b)))))))) == 0
  {
  }

  lemma ShiftsOut16(b: bv16)
    ensures Shl16(Shl16(Shl16(Shl16(Shl16(Shl16(Shl16(Shl16(b)))))))) == b << 8
  {
  }

  lemma UpAll8(b: bv8)
    ensures Up8(b, 8) == 0
  {
    hide Shl8;
    UpStep8(b, 0); UpStep8(b, 1); UpStep8(b, 2); UpStep8(b, 3);
    UpStep8(b, 4); UpStep8(b, 5); UpStep8(b, 6); UpStep8(b, 7);
    ShiftsOut8(b);
    hide Up8;
  }

  lemma UpAll16(b: bv16)
    ensures Up16(b, 8) == b << 8
  {
    hide Shl16;
    UpStep16(b, 0); UpStep16(b, 1); UpStep16(b, 2); UpStep16(b, 3);
    UpStep16(b, 4); UpStep16(b, 5); UpStep16(b, 6); UpStep16(b, 7);
    ShiftsOut16(b);
    hide Up16;
  }

  // The message byte in the upper half of the register.
  function High(b: bv8): bv16 { (b as bv16) << 8 }

  // Moving a byte up by one moves its bits up by one.
  lemma NextTop8(b: bv8)
    ensures BitsOf(b)[0] == Top8(b)
    ensures forall k :: 0 <= k < 7 ==> BitsOf(Shl8(b))[k] == BitsOf(b)[k + 1]
  {
  }

  lemma NextTop16(b: bv8)
    ensures Top16(High(b)) == Top8(b) && Shl16(High(b)) == High(Shl8(b))
  {
  }

  lemma {:induction false} TopBit8(b: bv8, k: nat)
    requires k < 8
    ensures BitsOf(b)[k] == Top8(Up8(b, k))
    decreases k
  {
    hide BitsOf, Top8, Shl8;
    NextTop8(b);
    if k > 0 {
      TopBit8(Shl8(b), k - 1);
      UpFront8(b, k - 1);
    }
  }

  lemma {:induction false} UpFront8(b: bv8, k: nat)
    ensures Up8(Shl8(b), k) == Up8(b, k + 1)
  {
    hide Shl8;
    UpStep8(b, k);
    if k > 0 {
      UpFront8(b, k - 1);
    }
  }

  lemma {:induction false} UpHigh(b: bv8, k: nat)
    ensures Up16(High(b), k) == High(Up8(b, k))
  {
    hide Shl8, Shl16, High;
    if k > 0 {
      UpHigh(b, k - 1);
      NextTop16(Up8(b, k - 1));
    }
  }

  lemma {:induction false} BytePrefix8(poly: bv8, c: bv8, b: bv8, k: nat)
    requires k <= 8
    ensures Shift8(poly, Xor8(c, b), k) == Xor8(Crc8(poly, c, BitsOf(b)[..k]), Up8(b, k))
  {
    hide BitStep8, BitsOf, Xor8, Shl8, Top8;
    if k > 0 {
      BytePrefix8(poly, c, b, k - 1);
      TopBit8(b, k - 1);
      assert BitsOf(b)[..k][..k - 1] == BitsOf(b)[..k - 1];
      Absorb8(poly, Crc8(poly, c, BitsOf(b)[..k - 1]), Up8(b, k - 1));
    }
  }

  lemma XorZero8(x: bv8)
    ensures Xor8(x, 0) == x
  {
  }

  // Eight message bits are one table lookup: lut[crc ^ byte].
  lemma ByteStep8(poly: bv8, c: bv8, b: bv8)
    ensures Crc8(poly, c, BitsOf(b)) == Shift8(poly, Xor8(c, b), 8)
  {
    hide BitStep8, BitsOf, Shift8, Crc8, Xor8, Up8;
    BytePrefix8(poly, c, b, 8);
    UpAll8(b);
    XorZero8(Crc8(poly, c, BitsOf(b)));
    assert BitsOf(b)[..8] == BitsOf(b);
  }

  lemma {:induction false} BytePrefix16(poly: bv16, c: bv16, b: bv8, k: nat)
    requires k <= 8
    ensures Shift16(poly, Xor16(c, High(b)), k) == Xor16(Crc16(poly, c, BitsOf(b)[..k]), Up16(High(b), k))
  {
    hide BitStep16, BitsOf, High, Xor16, Shl16, Top16, Top8;
    if k > 0 {
      BytePrefix16(poly, c, b, k - 1);
      TopBit8(b, k - 1);
      UpHigh(b, k - 1);
      NextTop16(Up8(b, k - 1));
      assert BitsOf(b)[..k][..k - 1] == BitsOf(b)[..k - 1];
      Absorb16(poly, Crc16(poly, c, BitsOf(b)[..k - 1]), Up16(High(b), k - 1));
    }
  }

  lemma {:induction false} ShiftLinear16(poly: bv16, x: bv16, y: bv16, k: nat)
    ensures Shift16(poly, Xor16(x, y), k) == Xor16(Shift16(poly, x, k), Shift16(poly, y, k))
  {
    hide BitStep16, Xor16;
    if k > 0 {
      ShiftLinear16(poly, x, y, k - 1);
      Linear16(poly, Shift16(poly, x, k - 1), Shift16(poly, y, k - 1));
    }
  }

  // A register whose upper half is zero only moves up.
  predicate LowByte(x: bv16, k: nat) {
    k <= 8 && x & UpperMask(k) == 0
  }

  function UpperMask(k: nat): bv16
    requires k <= 8
  {
    [0xff00, 0xfe00, 0xfc00, 0xf800, 0xf000, 0xe000, 0xc000, 0x8000, 0][k]
  }

  lemma {:induction false} LowHalf16(poly: bv16, x: bv16, k: nat)
    requires x & 0xff00 == 0 && k <= 8
    ensures Shift16(poly, x, k) == Up16(x, k) && LowByte(Up16(x, k), k)
  {
    hide BitStep16, Shl16, LowByte;
    if k == 0 {
      LowStart(x);
    } else {
      LowHalf16(poly, x, k - 1);
      LowStep(poly, Up16(x, k - 1), k - 1);
    }
  }

  lemma LowStart(x: bv16)
    ensures LowByte(x, 0) <==> x & 0xff00 == 0
  {
  }

  lemma LowStep(poly: bv16, x: bv16, k: nat)
    requires k < 8 && LowByte(x, k)
    ensures BitStep16(poly, x, false) == Shl16(x) && LowByte(Shl16(x), k + 1)
  {
    hide Shl16, Top16, Xor16, UpperMask;
    NextMask(k);
    ClearTop(x, UpperMask(k));
  }

  lemma NextMask(k: nat)
    requires k < 8
    ensures UpperMask(k) & 0x8000 == 0x8000 && UpperMask(k + 1) == Shl16(UpperMask(k))
  {
  }

  // A register that is zero under a mask with the top bit moves up without feedback.
  lemma ClearTop(x: bv16, m: bv16)
    requires x & m == 0 && m & 0x8000 == 0x8000
    ensures !Top16(x) && Shl16(x) & Shl16(m) == 0
  {
  }

  // The index of the 16-bit table: the upper half of the register and the message byte.
  function Index16(c: bv16, b: bv8): bv8 {
    ((c >> 8) as bv8) ^ b
  }

  // One table lookup: (crc << 8) ^ lut[(crc >> 8) ^ byte].
  function Lookup16(c: bv16, entry: bv16): bv16 {
    (c << 8) ^ entry
  }

  function Low(c: bv16): bv16 { c & 0xff }
  function Upper(c: bv16): bv16 { c & 0xff00 }

  lemma SplitRegister16(c: bv16, b: bv8)
    ensures Xor16(c, High(b)) == Xor16(High(Index16(c, b)), Low(c))
  {
    HighOfIndex(c, b);
    UpperLow(c);
    XorThree16(Upper(c), High(b), Low(c));
    XorThree16(Upper(c), Low(c), High(b));
    hide Xor16, High, Index16, Low, Upper;
  }

  lemma HighOfIndex(c: bv16, b: bv8)
    ensures High(Index16(c, b)) == Xor16(Upper(c), High(b))
  {
  }

  lemma UpperLow(c: bv16)
    ensures c == Xor16(Upper(c), Low(c))
  {
  }

  lemma LowerHalf(c: bv16, b: bv8)
    ensures Low(c) & 0xff00 == 0 && Low(c) << 8 == c << 8 && High(b) << 8 == 0
  {
  }

  lemma ByteStep16(poly: bv16, c: bv16, b: bv8)
    ensures Crc16(poly, c, BitsOf(b)) == Lookup16(c, Shift16(poly, High(Index16(c, b)), 8))
  {
    SplitRegister16(c, b);
    LowerHalf(c, b);
    hide BitStep16, BitsOf, Shift16, Crc16, High, Index16, Xor16, Up16, Lookup16, Low;
    BytePrefix16(poly, c, b, 8);
    UpAll16(High(b));
    assert BitsOf(b)[..8] == BitsOf(b);
    ShiftLinear16(poly, High(Index16(c, b)), Low(c), 8);
    LowHalf16(poly, Low(c), 8);
    UpAll16(Low(c));
    LookupIsXor(c, Shift16(poly, High(Index16(c, b)), 8), Crc16(poly, c, BitsOf(b)));
  }

  lemma LookupIsXor(c: bv16, entry: bv16, z: bv16)
    ensures Xor16(entry, c << 8) == Lookup16(c, entry) && Xor16(z, 0) == z
  {
  }

  // ---- Table generators ----

  ghost predicate IsTable8(poly: bv8, lut: seq<bv8>) {
    |lut| == 256 && forall i :: 0 <= i < 256 ==> lut[i] == Shift8(poly, i as bv8, 8)
  }

  ghost predicate IsTable16(poly: bv16, lut: seq<bv16>) {
    |lut| == 256 && forall i :: 0 <= i < 256 ==> lut[i] == Shift16(poly, High(i as bv8), 8)
  }

  // The entry of the table for an index given as bits.
  lemma Entry8(poly: bv8, lut: seq<bv8>, x: bv8)
    requires IsTable8(poly, lut)
    ensures lut[x as int] == Shift8(poly, x, 8)
  {
    BackToBits(x);
  }

  lemma Entry16(poly: bv16, lut: seq<bv16>, x: bv8)
    requires IsTable16(poly, lut)
    ensures lut[x as int] == Shift16(poly, High(x), 8)
  {
    BackToBits(x);
  }

  method GenCrcLookupTable8(poly: bv8, lut: array<bv8>)
    requires lut.Length == 256
    modifies lut
    ensures IsTable8(poly, lut[..])
  {
    hide Shift8;
    var i := 0;
    while i < 256
      invariant 0 <= i <= 256
      invariant forall k :: 0 <= k < i ==> lut[k] == Shift8(poly, k as bv8, 8)
    {
      var crc := TableEntry8(poly, i as bv8);
      lut[i] := crc;
      i := i + 1;
    }
  }

  lemma BackToBits(x: bv8)
    ensures (x as int) as bv8 == x
  {
  }

  method TableEntry8(poly: bv8, x: bv8) returns (crc: bv8)
    ensures crc == Shift8(poly, x, 8)
  {
    hide Top8, Xor8, Shl8;
    crc := x;
    var j := 0;
    while j < 8
      invariant 0 <= j <= 8 && crc == Shift8(poly, x, j)
    {
      if Top8(crc) {
        crc := Xor8(Shl8(crc), poly);
      } else {
        crc := Shl8(crc);
      }
      j := j + 1;
    }
  }

  method GenCrcLookupTable16(poly: bv16, lut: array<bv16>)
    requires lut.Length == 256
    modifies lut
    ensures IsTable16(poly, lut[..])
  {
    hide Shift16, High;
    var i := 0;
    while i < 256
      invariant 0 <= i <= 256
      invariant forall k :: 0 <= k < i ==> lut[k] == Shift16(poly, High(k as bv8), 8)
    {
      var crc := TableEntry16(poly, High(i as bv8));
      lut[i] := crc;
      i := i + 1;
    }
  }

  method TableEntry16(poly: bv16, x: bv16) returns (crc: bv16)
    ensures crc == Shift16(poly, x, 8)
  {
    hide Top16, Xor16, Shl16;
    crc := x;
    var j := 0;
    while j < 8
      invariant 0 <= j <= 8 && crc == Shift16(poly, x, j)
    {
      if Top16(crc) {
        crc := Xor16(Shl16(crc), poly);
      } else {
        crc := Shl16(crc);
      }
      j := j + 1;
    }
  }

  // ---- The checksums of three makes ----

  lemma NextByte8(poly: bv8, init: bv8, msg: seq<bv8>, b: bv8)
    ensures Crc8(poly, init, Bits(msg + [b])) == Shift8(poly, Xor8(Crc8(poly, init, Bits(msg)), b), 8)
  {
    hide BitStep8, BitsOf, Shift8, Crc8, Xor8;
    BitsConcat(msg, [b]);
    BitsOne(b);
    Crc8Concat(poly, init, Bits(msg), BitsOf(b));
    ByteStep8(poly, Crc8(poly, init, Bits(msg)), b);
  }

  lemma NextByte16(poly: bv16, init: bv16, msg: seq<bv8>, b: bv8)
    ensures var c := Crc16(poly, init, Bits(msg));
            Crc16(poly, init, Bits(msg + [b])) == Lookup16(c, Shift16(poly, High(Index16(c, b)), 8))
  {
    hide BitStep16, BitsOf, Shift16, Crc16, High, Index16, Lookup16;
    BitsConcat(msg, [b]);
    BitsOne(b);
    Crc16Concat(poly, init, Bits(msg), BitsOf(b));
    ByteStep16(poly, Crc16(poly, init, Bits(msg)), b);
  }

  // A CAN frame: the data buffer, of which the first len bytes are used.
  datatype CanFrame = CanFrame(addr: nat, data: seq<bv8>, len: nat)
  {
    ghost predicate Valid() { |data| == 64 && len <= 64 }
  }

  const MSG_LH_EPS_03 := 0x09F
  const MSG_ESP_05 := 0x106
  const MSG_TSK_06 := 0x120
  const MSG_MOTOR_20 := 0x121
  const MSG_GRA_ACC_01 := 0x12B

  // The byte that stands for the address and the counter at the end of the message.
  function MagicByte(addr: nat, counter: nat): bv8
    requires counter < 16
  {
    if addr == MSG_LH_EPS_03 then 0xF5
    else if addr == MSG_ESP_05 then 0x07
    else if addr == MSG_TSK_06 then
      [0xC4, 0xE2, 0x4F, 0xE4, 0xF8, 0x2F, 0x56, 0x81, 0x9F, 0xE5, 0x83, 0x44, 0x05, 0x3F, 0x97, 0xDF][counter]
    else if addr == MSG_MOTOR_20 then
      [0xE9, 0x65, 0xAE, 0x6B, 0x7B, 0x35, 0xE5, 0x5F, 0x4E, 0xC7, 0x86, 0xA2, 0xBB, 0xDD, 0xEB, 0xB4][counter]
    else if addr == MSG_GRA_ACC_01 then
      [0x6A, 0x38, 0xB4, 0x27, 0x22, 0xEF, 0xE1, 0xBB, 0xF8, 0x80, 0x84, 0x49, 0xC7, 0x9E, 0x1E, 0x2B][counter]
    else 0
  }

  function MqbCounter(f: CanFrame): (c: nat)
    requires f.Valid()
    ensures c < 16
  {
    LowNibble(f.data[1]);
    (f.data[1] & 0xF) as int
  }

  lemma LowNibble(b: bv8)
    ensures (b & 0xF) as int < 16
  {
    assert b & 0xF < 16;
  }

  function From(f: CanFrame, start: nat): seq<bv8>
    requires f.Valid()
  {
    if start <= f.len then f.data[start..f.len] else []
  }

  // What the three checksums are, in terms of the plain definition.
  function MqbCrc(f: CanFrame): bv8
    requires f.Valid()
  {
    Xor8(Crc8(0x2F, 0xFF, Bits(From(f, 1) + [MagicByte(f.addr, MqbCounter(f))])), 0xFF)
  }

  function CanfdChecksum(f: CanFrame): bv16
    requires f.Valid()
  {
    Xor16(Crc16(0x1021, 0, Bits(From(f, 2) + [AddrLow(f.addr), AddrHigh(f.addr)])), LengthMask(f.len))
  }

  function ChryslerChecksum(f: CanFrame): bv8
    requires f.Valid()
  {
    !Crc8(0x1D, 0xFF, Bits(f.data[..if f.len == 0 then 0 else f.len - 1]))
  }

  // CRC-8 with polynomial 0x2F over the payload and the magic byte, started at FF and inverted.
  method VolkswagenMqbComputeCrc(lut: array<bv8>, f: CanFrame) returns (r: bv8)
    requires f.Valid() && IsTable8(0x2F, lut[..])
    ensures r == MqbCrc(f)
  {
    hide Shift8, Crc8, BitsOf, MagicByte, MqbCounter, Bits, Xor8;
    var crc: bv8 := 0xFF;
    NoBits8(0x2F, 0xFF);
    var i := 1;
    assert f.data[1..1] == [];
    while i < f.len
      invariant 1 <= i && (i <= f.len || (f.len == 0 && i == 1))
      invariant crc == Crc8(0x2F, 0xFF, Bits(f.data[1..i]))
    {
      NextByte8(0x2F, 0xFF, f.data[1..i], f.data[i]);
      assert f.data[1..i] + [f.data[i]] == f.data[1..i + 1];
      crc := Xor8(crc, f.data[i]);
      Entry8(0x2F, lut[..], crc);
      crc := lut[..][crc as int];
      i := i + 1;
    }
    assert f.data[1..i] == From(f, 1);
    NextByte8(0x2F, 0xFF, From(f, 1), MagicByte(f.addr, MqbCounter(f)));
    crc := Xor8(crc, MagicByte(f.addr, MqbCounter(f)));
    Entry8(0x2F, lut[..], crc);
    crc := lut[..][crc as int];
    r := Xor8(crc, 0xFF);
  }

  lemma NoBits8(poly: bv8, init: bv8)
    ensures Crc8(poly, init, Bits([])) == init
  {
  }

  lemma NoBits16(poly: bv16, init: bv16)
    ensures Crc16(poly, init, Bits([])) == init
  {
  }

  // The constant that depends on the length only.
  function LengthMask(len: nat): bv16 {
    if len == 24 then 0x819d else if len == 32 then 0x9f5b else 0
  }

  function AddrLow(addr: nat): bv8 { (addr % 256) as bv8 }
  function AddrHigh(addr: nat): bv8 { ((addr / 256) % 256) as bv8 }

  // CRC-16 with polynomial 0x1021 over the payload from byte 2 and the low address bytes.
  method HyundaiCanfdComputeChecksum(lut: array<bv16>, f: CanFrame) returns (crc: bv16)
    requires f.Valid() && IsTable16(0x1021, lut[..])
    ensures crc == CanfdChecksum(f)
  {
    hide Shift16, Crc16, BitsOf, AddrLow, AddrHigh, Bits, High, Index16, Lookup16, Xor16;
    crc := 0;
    NoBits16(0x1021, 0);
    var i := 2;
    assert f.data[2..2] == [];
    while i < f.len
      invariant 2 <= i && (i <= f.len || i == 2)
      invariant crc == Crc16(0x1021, 0, Bits(f.data[2..i]))
    {
      NextByte16(0x1021, 0, f.data[2..i], f.data[i]);
      assert f.data[2..i] + [f.data[i]] == f.data[2..i + 1];
      Entry16(0x1021, lut[..], Index16(crc, f.data[i]));
      crc := Lookup16(crc, lut[..][Index16(crc, f.data[i]) as int]);
      i := i + 1;
    }
    var payload := From(f, 2);
    assert f.data[2..i] == payload;
    var low, high := AddrLow(f.addr), AddrHigh(f.addr);
    NextByte16(0x1021, 0, payload, low);
    Entry16(0x1021, lut[..], Index16(crc, low));
    crc := Lookup16(crc, lut[..][Index16(crc, low) as int]);
    NextByte16(0x1021, 0, payload + [low], high);
    Entry16(0x1021, lut[..], Index16(crc, high));
    crc := Lookup16(crc, lut[..][Index16(crc, high) as int]);
    assert payload + [low] + [high] == payload + [low, high];
    if f.len == 24 {
      crc := Xor16(crc, 0x819d);
    } else if f.len == 32 {
      crc := Xor16(crc, 0x9f5b);
    } else {
      LookupIsXor(0, 0, crc);
    }
  }

  // One bit of the branchy checksum code is one CRC step with polynomial 0x1D.
  method ChryslerBit(checksum: bv8, bit: bool) returns (r: bv8)
    ensures r == BitStep8(0x1D, checksum, bit)
  {
    var bitSum: bv8 := 0;
    var tempChk := checksum & 0x80;
    if bit {
      bitSum := 0x1C;
      if tempChk != 0 {
        bitSum := 1;
      }
      tempChk := (checksum << 1) | 1;
      bitSum := bitSum ^ tempChk;
    } else {
      if tempChk != 0 {
        bitSum := 0x1D;
      }
      bitSum := bitSum ^ (checksum << 1);
    }
    r := bitSum;
  }

  // CRC-8 with polynomial 0x1D, started at FF and complemented, over all bytes but the last.
  method ChryslerComputeChecksum(f: CanFrame) returns (r: bv8)
    requires f.Valid()
    ensures r == ChryslerChecksum(f)
  {
    hide BitStep8, BitsOf;
    var checksum: bv8 := 0xFF;
    NoBits8(0x1D, 0xFF);
    assert f.data[..0] == [];
    var j := 0;
    while j < f.len - 1
      invariant 0 <= j && (j <= f.len - 1 || j == 0)
      invariant checksum == Crc8(0x1D, 0xFF, Bits(f.data[..j]))
    {
      checksum := ChryslerByte(checksum, f.data[j]);
      assert f.data[..j + 1] == f.data[..j] + [f.data[j]];
      BitsConcat(f.data[..j], [f.data[j]]);
      BitsOne(f.data[j]);
      Crc8Concat(0x1D, 0xFF, Bits(f.data[..j]), BitsOf(f.data[j]));
      j := j + 1;
    }
    r := !checksum;
  }

  method ChryslerByte(start: bv8, curr: bv8) returns (checksum: bv8)
    ensures checksum == Crc8(0x1D, start, BitsOf(curr))
  {
    hide BitStep8, BitsOf, MaskAt;
    checksum := start;
    var shift: bv8 := 0x80;
    MaskStart();
    var i := 0;
    while i < 8
      invariant 0 <= i <= 8 && shift == MaskAt(i)
      invariant checksum == Crc8(0x1D, start, BitsOf(curr)[..i])
    {
      MaskBit(curr, i);
      checksum := ChryslerBit(checksum, curr & shift != 0);
      assert BitsOf(curr)[..i + 1][..i] == BitsOf(curr)[..i];
      shift := shift >> 1;
      i := i + 1;
    }
    assert BitsOf(curr)[..8] == BitsOf(curr);
  }

  lemma MaskStart()
    ensures MaskAt(0) == 0x80
  {
  }

  function MaskAt(i: nat): bv8
    requires i <= 8
  {
    [0x80, 0x40, 0x20, 0x10, 0x08, 0x04, 0x02, 0x01, 0x00][i]
  }

  lemma MaskBit(b: bv8, i: nat)
    requires i < 8
    ensures BitsOf(b)[i] == (b & MaskAt(i) != 0) && MaskAt(i) >> 1 == MaskAt(i + 1)
  {
  }

  // ---- Error detection ----

  // With an odd polynomial no step loses information.
  lemma StepInjective8(poly: bv8, c: bv8, d: bv8, bit: bool)
    requires poly & 1 == 1 && BitStep8(poly, c, bit) == BitStep8(poly, d, bit)
    ensures c == d
  {
  }

  lemma StepInjective16(poly: bv16, c: bv16, d: bv16, bit: bool)
    requires poly & 1 == 1 && BitStep16(poly, c, bit) == BitStep16(poly, d, bit)
    ensures c == d
  {
    // The lowest bit of the result tells whether the polynomial was added.
    LowBits16(Shl16(c), Shl16(d), poly);
    ShlLow16(c);
    ShlLow16(d);
    XorBack16(Shl16(c), Shl16(d), poly);
    ShlInjective16(c, d);
    hide Xor16, Shl16, Top16;
  }

  lemma ShlLow16(c: bv16)
    ensures Shl16(c) & 1 == 0
  {
  }

  lemma LowBits16(x: bv16, y: bv16, p: bv16)
    requires p & 1 == 1
    ensures x & 1 == 0 && y & 1 == 0 ==> Xor16(x, p) != y && x != Xor16(y, p)
  {
    assert (x ^ p) & 1 == (x & 1) ^ (p & 1);
    assert (y ^ p) & 1 == (y & 1) ^ (p & 1);
  }

  lemma XorBack16(x: bv16, y: bv16, p: bv16)
    ensures Xor16(x, p) == Xor16(y, p) ==> x == y
  {
    assert (x ^ p) ^ p == x && (y ^ p) ^ p == y;
  }

  lemma ShlInjective16(c: bv16, d: bv16)
    ensures Shl16(c) == Shl16(d) && Top16(c) == Top16(d) ==> c == d
  {
    TopValue16(c);
    TopValue16(d);
    assert c == ((c << 1) >> 1) | (c & 0x8000);
    assert d == ((d << 1) >> 1) | (d & 0x8000);
  }

  lemma {:induction false} RegisterInjective8(poly: bv8, c: bv8, d: bv8, bits: seq<bool>)
    requires poly & 1 == 1 && Crc8(poly, c, bits) == Crc8(poly, d, bits)
    ensures c == d
  {
    hide BitStep8;
    if bits != [] {
      var k := |bits| - 1;
      StepInjective8(poly, Crc8(poly, c, bits[..k]), Crc8(poly, d, bits[..k]), bits[k]);
      RegisterInjective8(poly, c, d, bits[..k]);
    }
  }

  lemma {:induction false} RegisterInjective16(poly: bv16, c: bv16, d: bv16, bits: seq<bool>)
    requires poly & 1 == 1 && Crc16(poly, c, bits) == Crc16(poly, d, bits)
    ensures c == d
  {
    hide BitStep16;
    if bits != [] {
      var k := |bits| - 1;
      StepInjective16(poly, Crc16(poly, c, bits[..k]), Crc16(poly, d, bits[..k]), bits[k]);
      RegisterInjective16(poly, c, d, bits[..k]);
    }
  }

  lemma {:induction false} ShiftInjective8(poly: bv8, x: bv8, y: bv8, k: nat)
    requires poly & 1 == 1 && Shift8(poly, x, k) == Shift8(poly, y, k)
    ensures x == y
  {
    hide BitStep8;
    if k > 0 {
      StepInjective8(poly, Shift8(poly, x, k - 1), Shift8(poly, y, k - 1), false);
      ShiftInjective8(poly, x, y, k - 1);
    }
  }

  lemma {:induction false} ShiftInjective16(poly: bv16, x: bv16, y: bv16, k: nat)
    requires poly & 1 == 1 && Shift16(poly, x, k) == Shift16(poly, y, k)
    ensures x == y
  {
    hide BitStep16;
    if k > 0 {
      StepInjective16(poly, Shift16(poly, x, k - 1), Shift16(poly, y, k - 1), false);
      ShiftInjective16(poly, x, y, k - 1);
    }
  }

  // Changing one byte of a message always changes the 8-bit CRC.
  lemma OneByteChange8(poly: bv8, init: bv8, pre: seq<bv8>, a: bv8, b: bv8, post: seq<bv8>)
    requires poly & 1 == 1 && a != b
    ensures Crc8(poly, init, Bits(pre + [a] + post)) != Crc8(poly, init, Bits(pre + [b] + post))
  {
    hide BitStep8, BitsOf, Shift8, Crc8, Xor8;
    var c := Crc8(poly, init, Bits(pre));
    BitsConcat(pre + [a], post);
    BitsConcat(pre + [b], post);
    Crc8Concat(poly, init, Bits(pre + [a]), Bits(post));
    Crc8Concat(poly, init, Bits(pre + [b]), Bits(post));
    NextByte8(poly, init, pre, a);
    NextByte8(poly, init, pre, b);
    if Crc8(poly, init, Bits(pre + [a] + post)) == Crc8(poly, init, Bits(pre + [b] + post)) {
      RegisterInjective8(poly, Crc8(poly, init, Bits(pre + [a])), Crc8(poly, init, Bits(pre + [b])), Bits(post));
      ShiftInjective8(poly, Xor8(c, a), Xor8(c, b), 8);
      XorCancel8(c, a, b);
    }
  }

  lemma XorCancel8(c: bv8, a: bv8, b: bv8)
    ensures Xor8(c, a) == Xor8(c, b) <==> a == b
  {
  }

  // Changing one byte of a message always changes the 16-bit CRC.
  lemma OneByteChange16(poly: bv16, init: bv16, pre: seq<bv8>, a: bv8, b: bv8, post: seq<bv8>)
    requires poly & 1 == 1 && a != b
    ensures Crc16(poly, init, Bits(pre + [a] + post)) != Crc16(poly, init, Bits(pre + [b] + post))
  {
    hide BitStep16, BitsOf, Shift16, Crc16, High, Index16, Lookup16;
    var c := Crc16(poly, init, Bits(pre));
    BitsConcat(pre + [a], post);
    BitsConcat(pre + [b], post);
    Crc16Concat(poly, init, Bits(pre + [a]), Bits(post));
    Crc16Concat(poly, init, Bits(pre + [b]), Bits(post));
    NextByte16(poly, init, pre, a);
    NextByte16(poly, init, pre, b);
    if Crc16(poly, init, Bits(pre + [a] + post)) == Crc16(poly, init, Bits(pre + [b] + post)) {
      RegisterInjective16(poly, Crc16(poly, init, Bits(pre + [a])), Crc16(poly, init, Bits(pre + [b])), Bits(post));
      var x, y := High(Index16(c, a)), High(Index16(c, b));
      LookupCancel16(c, Shift16(poly, x, 8), Shift16(poly, y, 8));
      ShiftInjective16(poly, x, y, 8);
      IndexInjective(c, a, b);
    }
  }

  lemma LookupCancel16(c: bv16, a: bv16, b: bv16)
    ensures Lookup16(c, a) == Lookup16(c, b) <==> a == b
  {
  }

  lemma IndexInjective(c: bv16, a: bv8, b: bv8)
    ensures High(Index16(c, a)) == High(Index16(c, b)) <==> a == b
  {
  }

  // ---- Consequences for received frames ----

  // The covered bytes before and after byte i, and what is appended to them.
  lemma AroundByte(d: seq<bv8>, from: nat, i: nat, n: nat, b: bv8, tail: seq<bv8>)
    requires from <= i < n <= |d|
    ensures d[from..n] + tail == d[from..i] + [d[i]] + (d[i + 1..n] + tail)
    ensures d[i := b][from..n] + tail == d[from..i] + [b] + (d[i + 1..n] + tail)
  {
    assert d[from..n] == d[from..i] + [d[i]] + d[i + 1..n];
    assert d[i := b][from..n] == d[from..i] + [b] + d[i + 1..n];
  }

  // Any change confined to one covered byte changes the checksum.
  lemma ChryslerDetects(f: CanFrame, i: nat, b: bv8)
    requires f.Valid() && i < f.len - 1 && b != f.data[i]
    ensures ChryslerChecksum(f.(data := f.data[i := b])) != ChryslerChecksum(f)
  {
    hide Crc8, Bits;
    var n := f.len - 1;
    var pre, post := f.data[..i], f.data[i + 1..n];
    AroundByte(f.data, 0, i, n, b, []);
    assert f.data[0..n] + [] == f.data[..n] && f.data[i := b][0..n] + [] == f.data[i := b][..n];
    assert post + [] == post && f.data[0..i] == pre;
    OneByteChange8(0x1D, 0xFF, pre, f.data[i], b, post);
    NotInjective8(Crc8(0x1D, 0xFF, Bits(pre + [f.data[i]] + post)), Crc8(0x1D, 0xFF, Bits(pre + [b] + post)));
  }

  lemma NotInjective8(a: bv8, b: bv8)
    ensures !a == !b <==> a == b
  {
  }

  lemma HyundaiDetects(f: CanFrame, i: nat, b: bv8)
    requires f.Valid() && 2 <= i < f.len && b != f.data[i]
    ensures CanfdChecksum(f.(data := f.data[i := b])) != CanfdChecksum(f)
  {
    hide Crc16, Bits, AddrLow, AddrHigh, Xor16;
    var tail := [AddrLow(f.addr), AddrHigh(f.addr)];
    var pre, post := f.data[2..i], f.data[i + 1..f.len];
    AroundByte(f.data, 2, i, f.len, b, tail);
    OneByteChange16(0x1021, 0, pre, f.data[i], b, post + tail);
    XorBack16(Crc16(0x1021, 0, Bits(pre + [f.data[i]] + (post + tail))),
              Crc16(0x1021, 0, Bits(pre + [b] + (post + tail))), LengthMask(f.len));
  }

  // For the MQB checksum the same holds as long as the change leaves the counter alone, on which
  // the magic byte depends.
  lemma VolkswagenDetects(f: CanFrame, i: nat, b: bv8)
    requires f.Valid() && 1 <= i < f.len && b != f.data[i]
    requires MqbCounter(f.(data := f.data[i := b])) == MqbCounter(f)
    ensures MqbCrc(f.(data := f.data[i := b])) != MqbCrc(f)
  {
    hide Crc8, Bits, MagicByte, MqbCounter, Xor8;
    var tail := [MagicByte(f.addr, MqbCounter(f))];
    var pre, post := f.data[1..i], f.data[i + 1..f.len];
    AroundByte(f.data, 1, i, f.len, b, tail);
    OneByteChange8(0x2F, 0xFF, pre, f.data[i], b, post + tail);
    XorBack8(Crc8(0x2F, 0xFF, Bits(pre + [f.data[i]] + (post + tail))),
             Crc8(0x2F, 0xFF, Bits(pre + [b] + (post + tail))), 0xFF);
  }

  lemma XorBack8(x: bv8, y: bv8, p: bv8)
    ensures Xor8(x, p) == Xor8(y, p) ==> x == y
  {
  }
}
