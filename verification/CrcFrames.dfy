// What a receiver checks: the frames of the three checksums end in the residue of their CRC
// (board/safety/safety_chrysler.h, safety_hyundai_common.h, safety_volkswagen_mqb.h).
module CrcFrames {
  import opened Crc
  import opened CrcExample

  lemma Complement(x: bv8)
    ensures Xor8(x, !x) == 0xFF && Xor8(x, Xor8(x, 0xFF)) == 0xFF
  {
  }

  // The covered bytes and the checksum that follows them leave the residue C4 of CRC-8/SAE-J1850.
  lemma ChryslerResidue(f: CanFrame)
    requires f.Valid() && f.len > 0
    ensures Crc8(0x1D, 0xFF, Bits(f.data[..f.len - 1] + [ChryslerChecksum(f)])) == 0xC4
    ensures ChryslerChecksum(f.(len := 0)) == 0
  {
    hide Crc8, Bits, Xor8, Shift8;
    var covered := f.data[..f.len - 1];
    NextByte8(0x1D, 0xFF, covered, ChryslerChecksum(f));
    Complement(Crc8(0x1D, 0xFF, Bits(covered)));
    assert f.data[..0] == [];
    NoBits8(0x1D, 0xFF);
    Residues();
  }

  lemma Residues()
    ensures Shift8(0x1D, 0xFF, 8) == 0xC4 && Shift8(0x2F, 0xFF, 8) == 0x42
  {
    hide Shift8;
    Unrolled8(0x1D, 0xFF);
    Unrolled8(0x2F, 0xFF);
  }

  // The payload from byte 1, the magic byte and the checksum leave the residue 42 of CRC-8/AUTOSAR.
  lemma MqbResidue(f: CanFrame)
    requires f.Valid() && f.len > 0
    ensures Crc8(0x2F, 0xFF, Bits(f.data[1..f.len] + [MagicByte(f.addr, f.data[1] as int % 16)] + [MqbCrc(f)])) == 0x42
  {
    hide Crc8, Bits, Xor8, Shift8, MagicByte, MqbCounter;
    CounterValue(f);
    var covered := f.data[1..f.len] + [MagicByte(f.addr, MqbCounter(f))];
    assert From(f, 1) == f.data[1..f.len];
    NextByte8(0x2F, 0xFF, covered, MqbCrc(f));
    Complement(Crc8(0x2F, 0xFF, Bits(covered)));
    Residues();
  }

  lemma CounterValue(f: CanFrame)
    requires f.Valid()
    ensures MqbCounter(f) == f.data[1] as int % 16
  {
    LowNibbleValue(f.data[1]);
  }

  lemma LowNibbleValue(b: bv8)
    ensures (b & 0xF) as int == b as int % 16
  {
    assert b & 0xF == b % 16;
  }

  // Of the five messages, two have one magic byte each, and three another one for every counter.
  lemma MagicBytes(addr: nat, c: nat, d: nat)
    requires c < d < 16
    ensures addr == 0x9F ==> MagicByte(addr, c) == 0xF5
    ensures addr == 0x106 ==> MagicByte(addr, c) == 0x07
    ensures addr in {0x120, 0x121, 0x12B} ==> MagicByte(addr, c) != MagicByte(addr, d)
    ensures addr !in {0x9F, 0x106, 0x120, 0x121, 0x12B} ==> MagicByte(addr, c) == 0
  {
    hide MagicByte;
    OtherMagic(addr, c);
    Tsk06Magic(c, d);
    Motor20Magic(c, d);
    GraAcc01Magic(c, d);
  }

  lemma OtherMagic(addr: nat, c: nat)
    requires c < 16
    ensures addr == 0x9F ==> MagicByte(addr, c) == 0xF5
    ensures addr == 0x106 ==> MagicByte(addr, c) == 0x07
    ensures addr !in {0x9F, 0x106, 0x120, 0x121, 0x12B} ==> MagicByte(addr, c) == 0
  {
  }

  lemma Tsk06Magic(c: nat, d: nat)
    requires c < d < 16
    ensures MagicByte(0x120, c) != MagicByte(0x120, d)
  {
  }

  lemma Motor20Magic(c: nat, d: nat)
    requires c < d < 16
    ensures MagicByte(0x121, c) != MagicByte(0x121, d)
  {
  }

  lemma GraAcc01Magic(c: nat, d: nat)
    requires c < d < 16
    ensures MagicByte(0x12B, c) != MagicByte(0x12B, d)
  {
  }

  // The payload from byte 2, the two low address bytes, and the checksum, freed of the constant for the
  // length and most significant byte first, leave nothing.
  lemma CanfdResidue(f: CanFrame)
    requires f.Valid() && f.len >= 2
    ensures
      var mask: bv16 := if f.len == 24 then 0x819D else if f.len == 32 then 0x9F5B else 0;
      var low, high := (f.addr % 256) as bv8, ((f.addr / 256) % 256) as bv8;
      var crc := CanfdChecksum(f) ^ mask;
      Crc16(0x1021, 0, Bits(f.data[2..f.len] + [low, high] + [(crc >> 8) as bv8] + [(crc & 0xFF) as bv8])) == 0
  {
    hide Crc16, Bits, Shift16;
    var covered := f.data[2..f.len] + [AddrLow(f.addr), AddrHigh(f.addr)];
    assert From(f, 2) == f.data[2..f.len];
    var crc := Crc16(0x1021, 0, Bits(covered));
    MaskBack(crc, LengthMask(f.len));
    Emptied(covered, crc);
  }

  lemma MaskBack(x: bv16, m: bv16)
    ensures Xor16(x, m) ^ m == x
  {
  }

  // A register shifted into itself is empty.
  lemma Emptied(covered: seq<bv8>, crc: bv16)
    requires Crc16(0x1021, 0, Bits(covered)) == crc
    ensures Crc16(0x1021, 0, Bits(covered + [(crc >> 8) as bv8] + [(crc & 0xFF) as bv8])) == 0
  {
    hide Crc16, Bits, BitStep16, High, Index16, Lookup16;
    var h, l := (crc >> 8) as bv8, (crc & 0xFF) as bv8;
    NextByte16(0x1021, 0, covered, h);
    ZeroEntry();
    UpperOut(crc);
    NextByte16(0x1021, 0, covered + [h], l);
  }

  lemma ZeroEntry()
    ensures High(0) == 0 && Shift16(0x1021, 0, 8) == 0
  {
    hide Shift16;
    Unrolled16(0x1021, 0);
  }

  lemma UpperOut(crc: bv16)
    ensures Index16(crc, (crc >> 8) as bv8) == 0
    ensures var c := Lookup16(crc, 0); Index16(c, (crc & 0xFF) as bv8) == 0 && Lookup16(c, 0) == 0
  {
    assert crc << 8 == (crc & 0xFF) << 8 && ((crc << 8) >> 8) == crc & 0xFF;
  }
}
