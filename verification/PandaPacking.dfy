// The host's side of the packet stream: packing and unpacking (python/__init__.py).
module PandaPacking {
  import opened Arith
  import opened Bytes
  import opened CanPacket
  import opened CanComms

  datatype Msg = Msg(address: nat, dat: seq<Byte>, bus: nat)

  datatype PackResult = Packed(chunks: seq<seq<Byte>>) | BadLength | ValueError
  datatype UnpackResult = Unpacked(msgs: seq<Msg>, rest: seq<Byte>) | ChecksumIncorrect

  predicate LegalLen(n: nat) {
    n <= 8 || n == 12 || n == 16 || n == 20 || n == 24 || n == 32 || n == 48 || n == 64
  }

  // The table LEN_TO_DLC.
  function LenToDlc(n: nat): (dlc: Dlc)
    requires LegalLen(n)
    ensures DLC_TO_LEN[dlc] == n
  {
    if n <= 8 then n
    else if n == 12 then 9 else if n == 16 then 10 else if n == 20 then 11
    else if n == 24 then 12 else if n == 32 then 13 else if n == 48 then 14 else 15
  }

  // The widths of the header fields: 29 bits of address and 3 of bus.
  predicate FitsHeader(m: Msg) {
    m.address < 0x2000_0000 && m.bus < 8
  }

  // What the host can serialise at all: the first header byte has to be a byte.
  predicate Sendable(m: Msg) {
    m.bus < 128 && LegalLen(|m.dat|)
  }

  predicate Packable(m: Msg) {
    FitsHeader(m) && Sendable(m)
  }

  predicate AllSendable(ms: seq<Msg>) {
    forall m :: m in ms ==> Sendable(m)
  }

  predicate AllPackable(ms: seq<Msg>)
    ensures AllPackable(ms) ==> AllSendable(ms)
  {
    forall m :: m in ms ==> Packable(m)
  }

  // (data_len_code << 4) | (bus << 1): buses of 8 and above spill into the length code.
  function FirstByte(dlc: Dlc, bus: nat): (b: Byte)
    requires bus < 128
    ensures bus < 8 ==> b == dlc * 16 + bus * 2
  {
    assert Pow(2, 4) == 16;
    OrBound(dlc, bus / 8, 4);
    OrNeutral(dlc);
    OrNat(dlc, bus / 8) * 16 + (bus % 8) * 2
  }

  // The first five header bytes.
  function PackHeader(m: Msg): (h: seq<Byte>)
    requires Sendable(m)
    ensures |h| == 5
  {
    var extended := if m.address >= 0x800 then 1 else 0;
    var word := m.address * 8 + extended * 4;
    [FirstByte(LenToDlc(|m.dat|), m.bus),
     word % 256, (word / 256) % 256, (word / 0x1_0000) % 256, (word / 0x100_0000) % 256]
  }

  // One message as the host serialises it.
  function PackMsg(m: Msg): (w: seq<Byte>)
    requires Sendable(m)
    ensures 6 <= |w| <= 70
  {
    PackHeader(m) + [XorFold(0, PackHeader(m) + m.dat)] + m.dat
  }

  function PackAll(ms: seq<Msg>): seq<Byte>
    requires AllSendable(ms)
  {
    if ms == [] then [] else PackAll(ms[..|ms| - 1]) + PackMsg(ms[|ms| - 1])
  }

  // The structure the firmware ends up with for a message.
  function PacketOf(m: Msg): CANPacket
    requires Packable(m)
  {
    SetChecksum(Unsealed(m))
  }

  function Unsealed(m: Msg): (z: CANPacket)
    requires Packable(m)
    ensures z.Body() == m.dat && ZeroTail(z) && HostMsg(z) == m && z.checksum == 0
  {
    CANPacket(false, m.bus, LenToDlc(|m.dat|), false, false, m.address >= 0x800, m.address,
              0, m.dat + Zeros(64 - |m.dat|))
  }

  function PacketsOf(ms: seq<Msg>): (ps: seq<CANPacket>)
    requires AllPackable(ms)
    ensures |ps| == |ms|
  {
    seq(|ms|, i requires 0 <= i < |ms| => PacketOf(ms[i]))
  }

  // What the host sees of a packet: flags are folded into the bus number.
  function HostMsg(p: CANPacket): Msg {
    Msg(p.addr, p.Body(), p.bus + Bit(p.returned) * 128 + Bit(p.rejected) * 192)
  }

  function HostMsgs(ps: seq<CANPacket>): (ms: seq<Msg>)
    ensures |ms| == |ps|
  {
    seq(|ps|, i requires 0 <= i < |ps| => HostMsg(ps[i]))
  }

  // The host packs exactly the bytes of the structure, with a checksum the firmware accepts.
  lemma PackMsgIsWire(m: Msg)
    requires Packable(m)
    ensures var p := PacketOf(m);
            PackMsg(m) == Wire(p) && ZeroTail(p) && CheckChecksum(p) && HostMsg(p) == m
  {
    var z := Unsealed(m);
    PackedHeader(m, z);
    hide Header, PackHeader, XorFold, Wire, CheckChecksum, Unsealed;
    SealedWire(z, PackHeader(m));
    SetChecksumChecks(z);
  }

  // The bytes of a packet after can_set_checksum.
  lemma SealedWire(z: CANPacket, h: seq<Byte>)
    requires |h| == 5 && Header(z) == h + [0] && z.checksum == 0
    ensures Wire(SetChecksum(z)) == h + [XorFold(0, h + z.Body())] + z.Body()
  {
    var b := z.Body();
    ChecksumByte(h, 0, b);
    XorNeutral(XorFold(0, h + b));
    var p := SetChecksum(z);
    HeaderChecksum(z, p.checksum);
  }

  lemma HeaderChecksum(z: CANPacket, c: Byte)
    ensures Header(z.(checksum := c)) == Header(z)[..5] + [c]
  {
  }

  lemma PackedHeader(m: Msg, z: CANPacket)
    requires Packable(m)
    requires !z.reserved && z.bus == m.bus && z.dataLenCode == LenToDlc(|m.dat|) && !z.rejected && !z.returned
    requires z.extended == (m.address >= 0x800) && z.addr == m.address && z.checksum == 0
    ensures Header(z) == PackHeader(m) + [0]
  {
    var word := m.address * 8 + Bit(z.extended) * 4;
    assert word / 0x100_0000 < 256;
  }

  lemma {:induction false} PackAllIsWire(ms: seq<Msg>)
    requires AllPackable(ms)
    ensures PackAll(ms) == WireAll(PacketsOf(ms))
    ensures HostMsgs(PacketsOf(ms)) == ms
    ensures forall p :: p in PacketsOf(ms) ==> ZeroTail(p) && CheckChecksum(p)
  {
    hide Wire, CheckChecksum, ZeroTail, PacketOf, PackMsg, HostMsg;
    forall i | 0 <= i < |ms| ensures var p := PacketOf(ms[i]); ZeroTail(p) && CheckChecksum(p) && HostMsg(p) == ms[i] {
      PackMsgIsWire(ms[i]);
    }
    if ms != [] {
      var k := |ms| - 1;
      PackAllIsWire(ms[..k]);
      PackMsgIsWire(ms[k]);
      assert PacketsOf(ms)[..k] == PacketsOf(ms[..k]);
    }
  }

  // Feeding the firmware chunk by chunk, keeping only the unfinished bytes in between.
  function Feed(chunks: seq<seq<Byte>>): Parsed {
    if chunks == [] then Parsed([], [])
    else
      var before := Feed(chunks[..|chunks| - 1]);
      var now := Parse(before.rest + chunks[|chunks| - 1]);
      Parsed(before.packets + now.packets, now.rest)
  }

  // Chunk boundaries make no difference.
  lemma {:induction false} FeedIsParse(chunks: seq<seq<Byte>>)
    ensures Feed(chunks) == Parse(Concat(chunks))
  {
    hide Parse;
    if chunks == [] {
      ParseEmpty();
    } else {
      var k := |chunks| - 1;
      FeedIsParse(chunks[..k]);
      ParseContinues(Concat(chunks[..k]), chunks[k]);
    }
  }

  // Packing and then streaming is the identity, however the bytes are cut into chunks.
  lemma PackThenStream(ms: seq<Msg>, chunks: seq<seq<Byte>>)
    requires AllPackable(ms)
    requires Concat(chunks) == PackAll(ms)
    ensures var fed := Feed(chunks);
            && HostMsgs(fed.packets) == ms && fed.rest == []
            && forall p :: p in fed.packets ==> CheckChecksum(p)
  {
    hide CheckChecksum, Parse, PackAll, Feed, PacketsOf, HostMsgs;
    PackAllIsWire(ms);
    FeedIsParse(chunks);
    ParseWireAll(PacketsOf(ms));
  }

  // pack_can_buffer: chunks that end with a whole packet and are closed above 256 bytes.
  method PackCanBuffer(arr: seq<Msg>) returns (r: PackResult)
    ensures r.Packed? <==> AllSendable(arr)
    ensures r.Packed? ==> Concat(r.chunks) == PackAll(arr) && r.chunks != []
    // every chunk but the last went over 256 bytes with its last message; the last one did not
    ensures r.Packed? ==> forall c :: 0 <= c < |r.chunks| - 1 ==> 256 < |r.chunks[c]| <= 326
    ensures r.Packed? ==> |r.chunks[|r.chunks| - 1]| <= 256
    // the first message that cannot be serialised fails: by its length, or else by its bus
    ensures !r.Packed? ==> exists i :: 0 <= i < |arr| && !Sendable(arr[i]) && AllSendable(arr[..i])
                                       && r == if LegalLen(|arr[i].dat|) then ValueError else BadLength
  {
    hide PackMsg, LegalLen;
    var snds: seq<seq<Byte>> := [[]];
    var i := 0;
    assert snds[..0] == [] && Concat(snds) == [] + [];
    while i < |arr|
      invariant 0 <= i <= |arr| && snds != []
      invariant AllSendable(arr[..i])
      invariant Concat(snds) == PackAll(arr[..i])
      invariant forall c :: 0 <= c < |snds| - 1 ==> 256 < |snds[c]| <= 326
      invariant |snds[|snds| - 1]| <= 256
    {
      assert arr[i] in arr;
      if !LegalLen(|arr[i].dat|) {
        return BadLength;
      }
      if arr[i].bus >= 128 {
        return ValueError;
      }
      var last := |snds| - 1;
      var w := PackMsg(arr[i]);
      ConcatExtend(snds, w);
      assert arr[..i + 1][..i] == arr[..i];
      snds := snds[last := snds[last] + w];
      if |snds[last]| > 256 {
        ConcatExtendEmpty(snds);
        snds := snds + [[]];
      }
      i := i + 1;
    }
    assert arr[..i] == arr;
    return Packed(snds);
  }

  lemma ConcatExtend(snds: seq<seq<Byte>>, w: seq<Byte>)
    requires snds != []
    ensures Concat(snds[|snds| - 1 := snds[|snds| - 1] + w]) == Concat(snds) + w
  {
    var k := |snds| - 1;
    var t := snds[k := snds[k] + w];
    assert t[..k] == snds[..k];
    assert Concat(snds[..k]) + (snds[k] + w) == (Concat(snds[..k]) + snds[k]) + w;
  }

  lemma ConcatExtendEmpty(snds: seq<seq<Byte>>)
    ensures Concat(snds + [[]]) == Concat(snds)
  {
    assert (snds + [[]])[..|snds|] == snds;
    assert Concat(snds) + [] == Concat(snds);
  }

  // ---- Unpacking ----

  // The message at the front of dat, read from the header bytes.
  function FrontMsg(dat: seq<Byte>): Msg
    requires dat != [] && |dat| >= WireLen(dat[0])
  {
    var first: int, flags: int := dat[0], dat[1];
    var bus := (first / 2) % 8
             + (if (flags / 2) % 2 == 1 then 128 else 0)
             + (if flags % 2 == 1 then 192 else 0);
    Msg(HeaderWord(dat) / 8, dat[6..WireLen(dat[0])], bus)
  }

  // Specification of unpack_can_buffer: messages of complete packets and the bytes left over.
  function Unpack(dat: seq<Byte>): UnpackResult
    decreases |dat|
  {
    if dat == [] || |dat| < WireLen(dat[0]) then Unpacked([], dat)
    else
      var n := WireLen(dat[0]);
      if XorFold(0, dat[..n]) != 0 then ChecksumIncorrect
      else
        match Unpack(dat[n..])
        case Unpacked(ms, rest) => Unpacked([FrontMsg(dat)] + ms, rest)
        case ChecksumIncorrect => ChecksumIncorrect
  }

  method UnpackCanBuffer(data: seq<Byte>) returns (r: UnpackResult)
    ensures r == Unpack(data)
  {
    hide XorFold, FrontMsg;
    var ret: seq<Msg> := [];
    var dat := data;
    while |dat| >= CANPACKET_HEAD_SIZE
      invariant Unpack(data) == Prepend(ret, Unpack(dat))
      decreases |dat|
    {
      var first: int := dat[0];
      var dataLen := DLC_TO_LEN[first / 16];
      if dataLen > |dat| - CANPACKET_HEAD_SIZE {
        break;
      }
      var n := CANPACKET_HEAD_SIZE + dataLen;
      if XorFold(0, dat[..n]) != 0 {
        return ChecksumIncorrect;
      }
      var m := FrontMsg(dat);
      PrependMore(ret, m, Unpack(dat[n..]));
      dat := dat[n..];
      ret := ret + [m];
    }
    assert ret + [] == ret;
    return Unpacked(ret, dat);
  }

  function Prepend(ms: seq<Msg>, r: UnpackResult): UnpackResult {
    match r
    case Unpacked(more, rest) => Unpacked(ms + more, rest)
    case ChecksumIncorrect => ChecksumIncorrect
  }

  lemma PrependMore(ms: seq<Msg>, m: Msg, r: UnpackResult)
    ensures Prepend(ms, Prepend([m], r)) == Prepend(ms + [m], r)
  {
    if r.Unpacked? {
      assert ms + ([m] + r.msgs) == (ms + [m]) + r.msgs;
    }
  }

  // Unpacking a buffer in two pieces, carrying the remainder over, is unpacking it whole.
  lemma {:induction false} UnpackContinues(s: seq<Byte>, t: seq<Byte>)
    ensures Unpack(s + t) == match Unpack(s)
                             case Unpacked(ms, rest) => Prepend(ms, Unpack(rest + t))
                             case ChecksumIncorrect => ChecksumIncorrect
    decreases |s|
  {
    hide XorFold, WireLen;
    if s == [] || |s| < WireLen(s[0]) {
      assert Prepend([], Unpack(s + t)) == Unpack(s + t) by {
        if Unpack(s + t).Unpacked? {
          assert [] + Unpack(s + t).msgs == Unpack(s + t).msgs;
        }
      }
    } else {
      var n := WireLen(s[0]);
      assert (s + t)[..n] == s[..n] && (s + t)[n..] == s[n..] + t;
      UnpackContinues(s[n..], t);
      SameFront(s, s + t);
      match Unpack(s[n..])
      case Unpacked(ms, rest) =>
        PrependFront(FrontMsg(s), ms, Unpack(rest + t));
      case ChecksumIncorrect =>
    }
  }

  lemma PrependFront(m: Msg, ms: seq<Msg>, r: UnpackResult)
    ensures Prepend([m], Prepend(ms, r)) == Prepend([m] + ms, r)
  {
    if r.Unpacked? {
      assert [m] + (ms + r.msgs) == ([m] + ms) + r.msgs;
    }
  }

  lemma SameFront(s: seq<Byte>, u: seq<Byte>)
    requires s != [] && |s| >= WireLen(s[0]) && |u| >= |s| && u[..|s|] == s
    ensures u[0] == s[0] && FrontMsg(u) == FrontMsg(s)
  {
    forall i | 0 <= i < 6 ensures u[i] == s[i] {
      assert u[..|s|][i] == s[i];
    }
    var n := WireLen(s[0]);
    forall i | 6 <= i < n ensures u[i] == s[i] {
      assert u[..|s|][i] == s[i];
    }
    assert u[6..n] == s[6..n];
  }

  lemma UnpackOne(p: CANPacket)
    requires CheckChecksum(p)
    ensures Unpack(Wire(p)) == Unpacked([HostMsg(p)], [])
  {
    var w := Wire(p);
    assert w[..6] == Header(p);
    WordOfHeader(p, w);
    FlagBits(w);
    assert w[..|w|] == w && w[|w|..] == [] && w[6..] == p.Body();
    assert Unpack([]) == Unpacked([], []);
    assert FrontMsg(w) == HostMsg(p);
  }

  // The flags the host reads from byte 1 are the low bits of the header word.
  lemma FlagBits(w: seq<Byte>)
    requires |w| >= 6
    ensures HeaderWord(w) % 2 == w[1] % 2 && (HeaderWord(w) / 2) % 2 == (w[1] / 2) % 2
  {
    var b2: int, b3: int, b4: int := w[2], w[3], w[4];
    LowBits(w[1], b2 * 64 + b3 * 0x4000 + b4 * 0x40_0000);
  }

  lemma LowBits(b: nat, high: nat)
    ensures (b + 4 * high) % 2 == b % 2 && ((b + 4 * high) / 2) % 2 == (b / 2) % 2
  {
    assert (b + 4 * high) / 2 == b / 2 + 2 * high;
  }

  // The host reads back exactly the packets the firmware serialised.
  lemma {:induction false} UnpackWireAll(ps: seq<CANPacket>)
    requires forall p :: p in ps ==> CheckChecksum(p)
    ensures Unpack(WireAll(ps)) == Unpacked(HostMsgs(ps), [])
  {
    hide Wire, Unpack, CheckChecksum, HostMsg;
    if ps == [] {
      UnpackNothing();
    } else {
      var k := |ps| - 1;
      UnpackWireAll(ps[..k]);
      UnpackContinues(WireAll(ps[..k]), Wire(ps[k]));
      assert [] + Wire(ps[k]) == Wire(ps[k]);
      UnpackOne(ps[k]);
      assert HostMsgs(ps) == HostMsgs(ps[..k]) + [HostMsg(ps[k])];
    }
  }

  lemma UnpackNothing()
    ensures Unpack([]) == Unpacked([], [])
  {
  }

  // Unpacking undoes packing.
  lemma UnpackUndoesPack(ms: seq<Msg>)
    requires AllPackable(ms)
    ensures Unpack(PackAll(ms)) == Unpacked(ms, [])
  {
    hide CheckChecksum, Unpack, PackAll, PacketsOf, HostMsgs;
    PackAllIsWire(ms);
    UnpackWireAll(PacketsOf(ms));
  }

  // What the host reads always fits the header fields, flags apart.
  lemma {:induction false} UnpackFits(dat: seq<Byte>, m: Msg)
    requires Unpack(dat).Unpacked? && m in Unpack(dat).msgs
    ensures m.address < 0x2000_0000 && (m.bus < 8 || m.bus >= 128)
    decreases |dat|
  {
    hide XorFold;
    var n := WireLen(dat[0]);
    if m != FrontMsg(dat) {
      UnpackFits(dat[n..], m);
    }
  }

  // So the round trip fails exactly for messages with an address or a bus beyond the header fields,
  // which the host serialises without complaint.
  lemma RoundTripExactly(ms: seq<Msg>)
    requires AllSendable(ms)
    ensures Unpack(PackAll(ms)) == Unpacked(ms, []) <==> forall m :: m in ms ==> FitsHeader(m)
  {
    hide Unpack, PackAll;
    if Unpack(PackAll(ms)) == Unpacked(ms, []) {
      forall m | m in ms ensures FitsHeader(m) {
        UnpackFits(PackAll(ms), m);
      }
    }
    if forall m :: m in ms ==> FitsHeader(m) {
      UnpackUndoesPack(ms);
    }
  }

  // ---- What the host reads about its own messages ----

  // Of a packet that went out on a bus, the host reads address and data, with 128 added to the bus;
  // of one the safety hooks refused, with 192 added.
  lemma HostReadsAnswers(p: CANPacket, bus: nat, stale: CANPacket)
    requires bus < BUS_CNT
    ensures Unpack(Wire(Echo(p, bus, stale))) == Unpacked([Msg(p.addr, p.Body(), bus + 128)], [])
    ensures Unpack(Wire(Bounced(p))) == Unpacked([Msg(p.addr, p.Body(), p.bus + 192)], [])
  {
    hide Unpack, Wire, CheckChecksum, Echo, Bounced;
    UnpackOne(Echo(p, bus, stale));
    UnpackOne(Bounced(p));
  }
}
