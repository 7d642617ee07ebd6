// The CAN packet structure with 64 data bytes and its byte layout (board/can_declarations.h).
module CanPacket {
  import opened Bytes

  const CANPACKET_HEAD_SIZE := 6
  const CANPACKET_DATA_SIZE_MAX := 64
  const DLC_TO_LEN: seq<nat> := [0, 1, 2, 3, 4, 5, 6, 7, 8, 12, 16, 20, 24, 32, 48, 64]

  type Dlc = x: int | 0 <= x < 16
  type BusField = x: int | 0 <= x < 8
  type Address = x: int | 0 <= x < 0x2000_0000
  type Payload = s: seq<Byte> | |s| == 64 witness Zeros(64)

  datatype CANPacket = CANPacket(
    reserved: bool, bus: BusField, dataLenCode: Dlc,
    rejected: bool, returned: bool, extended: bool, addr: Address,
    checksum: Byte, data: Payload)
  {
    function Len(): (n: nat)
      ensures n <= 64
    {
      DLC_TO_LEN[dataLenCode]
    }

    // What GET_LEN(p) selects of the data.
    function Body(): seq<Byte> { data[..Len()] }
  }

  function Bit(b: bool): nat { if b then 1 else 0 }

  // The first six bytes of the structure: bit fields from the least significant bit up, then the
  // 32-bit word with the address in its upper 29 bits, then the checksum.
  function Header(p: CANPacket): (h: seq<Byte>)
    ensures |h| == CANPACKET_HEAD_SIZE
  {
    var w := p.addr * 8 + Bit(p.extended) * 4 + Bit(p.returned) * 2 + Bit(p.rejected);
    [p.dataLenCode * 16 + p.bus * 2 + Bit(p.reserved),
     w % 256, (w / 256) % 256, (w / 0x1_0000) % 256, w / 0x100_0000, p.checksum]
  }

  // The bytes the firmware exchanges with the host: the header and the used part of the data.
  function Wire(p: CANPacket): (w: seq<Byte>)
    ensures |w| == CANPACKET_HEAD_SIZE + p.Len()
  {
    Header(p) + p.Body()
  }

  // How long the packet starting with this byte is on the wire.
  function WireLen(first: Byte): (n: nat)
    ensures CANPACKET_HEAD_SIZE <= n <= CANPACKET_HEAD_SIZE + CANPACKET_DATA_SIZE_MAX
  {
    CANPACKET_HEAD_SIZE + DLC_TO_LEN[first / 16]
  }

  predicate IsWire(w: seq<Byte>) {
    w != [] && |w| == WireLen(w[0])
  }

  function HeaderWord(h: seq<Byte>): (w: nat)
    requires |h| >= CANPACKET_HEAD_SIZE
    ensures w < 0x1_0000_0000
  {
    var b1: int, b2: int, b3: int, b4: int := h[1], h[2], h[3], h[4];
    b1 + b2 * 256 + b3 * 0x1_0000 + b4 * 0x100_0000
  }

  // Copying wire bytes over a zeroed structure.
  function FromWire(w: seq<Byte>): (p: CANPacket)
    requires IsWire(w)
  {
    var first: int := w[0];
    var h := HeaderWord(w);
    CANPacket(first % 2 == 1, (first / 2) % 8, first / 16,
              h % 2 == 1, (h / 2) % 2 == 1, (h / 4) % 2 == 1, h / 8,
              w[5], w[6..] + Zeros(70 - |w|))
  }

  // The part of the structure beyond the data length holds zeros.
  predicate ZeroTail(p: CANPacket) {
    p.data[p.Len()..] == Zeros(64 - p.Len())
  }

  lemma WireOfFromWire(w: seq<Byte>)
    requires IsWire(w)
    ensures Wire(FromWire(w)) == w && ZeroTail(FromWire(w))
  {
    var p := FromWire(w);
    HeaderOfFromWire(w);
    hide Header, HeaderWord, FromWire;
    assert p.data == w[6..] + Zeros(70 - |w|) && p.dataLenCode == w[0] / 16 by { DataOfFromWire(w); }
    assert p.Body() == w[6..];
    assert w == w[..6] + w[6..];
    assert p.data[p.Len()..] == Zeros(70 - |w|);
  }

  lemma DataOfFromWire(w: seq<Byte>)
    requires IsWire(w)
    ensures FromWire(w).data == w[6..] + Zeros(70 - |w|) && FromWire(w).dataLenCode == w[0] / 16
  {
  }

  lemma HeaderOfFromWire(w: seq<Byte>)
    requires IsWire(w)
    ensures Header(FromWire(w)) == w[..6]
  {
    SplitFirst(w[0]);
    SplitWord(HeaderWord(w));
    WordBytes(w[1], w[2], w[3], w[4]);
  }

  lemma SplitFirst(first: nat)
    ensures (first / 16) * 16 + ((first / 2) % 8) * 2 + Bit(first % 2 == 1) == first
  {
    assert first / 16 == (first / 2) / 8;
  }

  lemma SplitWord(h: nat)
    ensures (h / 8) * 8 + Bit((h / 4) % 2 == 1) * 4 + Bit((h / 2) % 2 == 1) * 2 + Bit(h % 2 == 1) == h
  {
    assert h / 4 == (h / 2) / 2;
    assert h / 8 == (h / 4) / 2;
  }

  lemma JoinFirst(dlc: nat, bus: nat, reserved: bool)
    requires bus < 8
    ensures var b := dlc * 16 + bus * 2 + Bit(reserved);
            b / 16 == dlc && (b / 2) % 8 == bus && (b % 2 == 1 <==> reserved)
  {
    var b := dlc * 16 + bus * 2 + Bit(reserved);
    Halve(dlc * 8 + bus, reserved);
    assert b / 16 == (b / 2) / 8;
  }

  lemma JoinWord(addr: nat, extended: bool, returned: bool, rejected: bool)
    ensures var h := addr * 8 + Bit(extended) * 4 + Bit(returned) * 2 + Bit(rejected);
            && h / 8 == addr && ((h / 4) % 2 == 1 <==> extended)
            && ((h / 2) % 2 == 1 <==> returned) && (h % 2 == 1 <==> rejected)
  {
    var h := addr * 8 + Bit(extended) * 4 + Bit(returned) * 2 + Bit(rejected);
    Halve(addr * 4 + Bit(extended) * 2 + Bit(returned), rejected);
    Halve(addr * 2 + Bit(extended), returned);
    Halve(addr, extended);
    assert h / 4 == (h / 2) / 2 && h / 8 == (h / 4) / 2;
  }

  lemma Halve(x: nat, b: bool)
    ensures (x * 2 + Bit(b)) / 2 == x && ((x * 2 + Bit(b)) % 2 == 1 <==> b)
  {
  }

  lemma WordBytes(b1: int, b2: int, b3: int, b4: int)
    requires 0 <= b1 < 256 && 0 <= b2 < 256 && 0 <= b3 < 256 && 0 <= b4 < 256
    ensures var w := b1 + b2 * 256 + b3 * 0x1_0000 + b4 * 0x100_0000;
            && w % 256 == b1 && (w / 256) % 256 == b2
            && (w / 0x1_0000) % 256 == b3 && w / 0x100_0000 == b4
  {
    var w := b1 + b2 * 256 + b3 * 0x1_0000 + b4 * 0x100_0000;
    assert w / 256 == b2 + b3 * 256 + b4 * 0x1_0000;
    assert w / 0x1_0000 == b3 + b4 * 256;
  }

  lemma BytesWord(w: nat)
    requires w < 0x1_0000_0000
    ensures w == w % 256 + ((w / 256) % 256) * 256 + ((w / 0x1_0000) % 256) * 0x1_0000
                 + (w / 0x100_0000) * 0x100_0000
  {
    assert w / 0x1_0000 == (w / 256) / 256;
    assert w / 0x100_0000 == (w / 0x1_0000) / 256;
  }

  lemma FromWireOfWire(p: CANPacket)
    requires ZeroTail(p)
    ensures IsWire(Wire(p)) && FromWire(Wire(p)) == p
  {
    var w := Wire(p);
    WordOfHeader(p, w);
    hide Header, HeaderWord;
    assert w[6..] == p.Body();
    assert p.data == p.Body() + p.data[p.Len()..];
    assert w[6..] + Zeros(70 - |w|) == p.data;
  }

  // Reading the header of a packet back gives its fields.
  lemma WordOfHeader(p: CANPacket, w: seq<Byte>)
    requires |w| >= 6 && w[..6] == Header(p)
    ensures var h := HeaderWord(w);
            && h / 8 == p.addr && ((h / 4) % 2 == 1 <==> p.extended)
            && ((h / 2) % 2 == 1 <==> p.returned) && (h % 2 == 1 <==> p.rejected)
    ensures w[0] / 16 == p.dataLenCode && (w[0] / 2) % 8 == p.bus && (w[0] % 2 == 1 <==> p.reserved)
    ensures w[5] == p.checksum
  {
    var h := p.addr * 8 + Bit(p.extended) * 4 + Bit(p.returned) * 2 + Bit(p.rejected);
    assert w[0] == Header(p)[0] && w[5] == Header(p)[5];
    assert w[1] == Header(p)[1] && w[2] == Header(p)[2] && w[3] == Header(p)[3] && w[4] == Header(p)[4];
    BytesWord(h);
    assert HeaderWord(w) == h;
    JoinFirst(p.dataLenCode, p.bus, p.reserved);
    JoinWord(p.addr, p.extended, p.returned, p.rejected);
  }

  // ---- Streams of packets ----

  function WireAll(ps: seq<CANPacket>): seq<Byte> {
    if ps == [] then [] else WireAll(ps[..|ps| - 1]) + Wire(ps[|ps| - 1])
  }

  lemma {:induction false} WireAllConcat(ps: seq<CANPacket>, qs: seq<CANPacket>)
    ensures WireAll(ps + qs) == WireAll(ps) + WireAll(qs)
  {
    hide Wire, Header;
    if qs == [] {
      assert ps + qs == ps;
    } else {
      var k := |qs| - 1;
      assert (ps + qs)[..|ps + qs| - 1] == ps + qs[..k];
      WireAllConcat(ps, qs[..k]);
      assert WireAll(ps) + WireAll(qs) == (WireAll(ps) + WireAll(qs[..k])) + Wire(qs[k]);
    }
  }

  datatype Parsed = Parsed(packets: seq<CANPacket>, rest: seq<Byte>)

  // One parse of a whole byte stream: complete packets, and the bytes of an unfinished one.
  function Parse(s: seq<Byte>): Parsed
    decreases |s|
  {
    if s == [] || |s| < WireLen(s[0]) then Parsed([], s)
    else
      var n := WireLen(s[0]);
      var tail := Parse(s[n..]);
      Parsed([FromWire(s[..n])] + tail.packets, tail.rest)
  }

  // Parsing continues where it stopped: the unfinished bytes are all that has to be kept.
  lemma {:induction false} ParseContinues(s: seq<Byte>, t: seq<Byte>)
    ensures Parse(s + t) == Parsed(Parse(s).packets + Parse(Parse(s).rest + t).packets,
                                   Parse(Parse(s).rest + t).rest)
    decreases |s|
  {
    hide FromWire, WireLen;
    if s == [] || |s| < WireLen(s[0]) {
      assert [] + Parse(s + t).packets == Parse(s + t).packets;
    } else {
      var n := WireLen(s[0]);
      assert (s + t)[..n] == s[..n] && (s + t)[n..] == s[n..] + t;
      ParseContinues(s[n..], t);
      var p := FromWire(s[..n]);
      var x, y := Parse(s[n..]).packets, Parse(Parse(s[n..]).rest + t).packets;
      assert ([p] + x) + y == [p] + (x + y);
    }
  }

  lemma {:induction false} ParseWireAll(ps: seq<CANPacket>)
    requires forall p :: p in ps ==> ZeroTail(p)
    ensures Parse(WireAll(ps)) == Parsed(ps, [])
  {
    hide Wire, ZeroTail, Parse;
    ParseEmpty();
    if ps != [] {
      var k := |ps| - 1;
      ParseWireAll(ps[..k]);
      ParseContinues(WireAll(ps[..k]), Wire(ps[k]));
      ParseOne(ps[k]);
      assert ps == ps[..k] + [ps[k]];
      assert [] + Wire(ps[k]) == Wire(ps[k]);
    }
  }

  lemma ParseEmpty()
    ensures Parse([]) == Parsed([], [])
  {
  }

  lemma ParseOne(p: CANPacket)
    requires ZeroTail(p)
    ensures Parse(Wire(p)) == Parsed([p], [])
  {
    var w := Wire(p);
    FromWireOfWire(p);
    assert w[..|w|] == w && w[|w|..] == [];
    assert Parse([]) == Parsed([], []);
  }

  // ---- Checksums ----

  method CalculateChecksum(dat: seq<Byte>) returns (checksum: Byte)
    ensures checksum == XorFold(0, dat)
  {
    hide Xor;
    checksum := 0;
    for i := 0 to |dat|
      invariant checksum == XorFold(0, dat[..i])
    {
      assert dat[..i + 1][..i] == dat[..i];
      checksum := Xor(checksum, dat[i]);
    }
    assert dat[..|dat|] == dat;
  }

  // can_set_checksum: the xor over the packet with the checksum field cleared.
  function SetChecksum(p: CANPacket): CANPacket {
    p.(checksum := XorFold(0, Wire(p.(checksum := 0))))
  }

  predicate CheckChecksum(p: CANPacket) {
    XorFold(0, Wire(p)) == 0
  }

  // The checksum makes the xor over the whole packet vanish.
  lemma SetChecksumChecks(p: CANPacket)
    ensures CheckChecksum(SetChecksum(p))
  {
    var q, z := SetChecksum(p), p.(checksum := 0);
    var h, b := Header(z)[..5], p.Body();
    assert Wire(z) == h + [0] + b;
    assert Wire(q) == h + [q.checksum] + b;
    ChecksumByte(h, 0, b);
    ChecksumByte(h, q.checksum, b);
    XorNeutral(XorFold(0, h + b));
    XorZero(XorFold(0, h + b), q.checksum);
  }

  // A single byte can be taken out of an xor sum.
  lemma ChecksumByte(h: seq<Byte>, c: Byte, b: seq<Byte>)
    ensures XorFold(0, h + [c] + b) == Xor(XorFold(0, h + b), c)
  {
    var x, y := XorFold(0, h), XorFold(0, b);
    XorFoldAppend(0, h, [c]);
    assert XorFold(x, [c]) == Xor(x, c) by {
      assert [c][..0] == [];
    }
    XorFoldAppend(0, h + [c], b);
    XorFoldSeed(Xor(x, c), b);
    XorFoldAppend(0, h, b);
    XorFoldSeed(x, b);
    XorAssociates(x, c, y);
    XorCommutes(c, y);
    XorAssociates(x, y, c);
  }
}
