// The SPI request/response protocol: the device machine (board/drivers/spi.h) and the host side (python/spi.py).
module Spi {
  import opened Wrappers
  import opened Arith
  import opened Bytes

  const CHECKSUM_START: Byte := 0xAB
  const SYNC: Byte := 0x5A
  const HACK: Byte := 0x79
  const DACK: Byte := 0x85
  const NACK: Byte := 0x1F
  const HEADER_SIZE := 7
  const BUF_SIZE := 2048
  const CONTROL_PACKET_SIZE := 7

  // The text "VERSION".
  const VERSION: seq<Byte> := [86, 69, 82, 83, 73, 79, 78]

  // What the host uses for its transfers.
  const XFER_SIZE := 0x40 * 31
  const USBPACKET_MAX_SIZE := 0x40
  const PREREAD_LEN := USBPACKET_MAX_SIZE + 1

  // ---- Checksums ----

  function Checksum(s: seq<Byte>): Byte {
    XorFold(CHECKSUM_START, s)
  }

  predicate Checks(s: seq<Byte>) {
    Checksum(s) == 0
  }

  // A byte string checks exactly when its last byte is the checksum of the rest.
  lemma LastByteChecks(s: seq<Byte>, c: Byte)
    ensures Checks(s + [c]) <==> c == Checksum(s)
  {
    assert (s + [c])[..|s|] == s;
    XorZero(Checksum(s), c);
  }

  lemma {:induction false} FoldChanges(seed: Byte, s: seq<Byte>, i: nat, b: Byte)
    requires i < |s| && b != s[i]
    ensures XorFold(seed, s[i := b]) != XorFold(seed, s)
  {
    hide XorFold;
    var n := |s| - 1;
    var t := s[i := b];
    LastOfFold(seed, s);
    LastOfFold(seed, t);
    if i == n {
      assert t[..n] == s[..n];
      XorInjective(XorFold(seed, s[..n]), s[n], b);
    } else {
      assert t[..n] == s[..n][i := b];
      FoldChanges(seed, s[..n], i, b);
      XorCommutes(XorFold(seed, s[..n]), s[n]);
      XorCommutes(XorFold(seed, t[..n]), s[n]);
      XorInjective(s[n], XorFold(seed, s[..n]), XorFold(seed, t[..n]));
    }
  }

  lemma LastOfFold(seed: Byte, s: seq<Byte>)
    requires s != []
    ensures XorFold(seed, s) == Xor(XorFold(seed, s[..|s| - 1]), s[|s| - 1])
  {
  }

  lemma {:induction false} XorInjective(x: nat, y: nat, z: nat)
    requires y != z
    ensures XorNat(x, y) != XorNat(x, z)
  {
    hide XorNat;
    if XorNat(x, y) == XorNat(x, z) {
      XorAssociates(x, x, y);
      XorAssociates(x, x, z);
      XorZero(x, x);
      XorNeutral(y);
      XorNeutral(z);
    }
  }

  // No single damaged byte passes for a valid string.
  lemma OneByteChange(s: seq<Byte>, i: nat, b: Byte)
    requires i < |s| && b != s[i] && Checks(s)
    ensures !Checks(s[i := b])
  {
    FoldChanges(CHECKSUM_START, s, i, b);
  }

  // The device's checksum loop.
  method ValidateChecksum(data: array<Byte>, start: nat, len: nat) returns (valid: bool)
    requires start + len <= data.Length
    ensures valid == Checks(data[start..start + len])
  {
    hide Xor;
    var checksum := CHECKSUM_START;
    for i := 0 to len
      invariant checksum == Checksum(data[start..start + i])
    {
      assert data[start..start + i + 1][..i] == data[start..start + i];
      checksum := Xor(checksum, data[start + i]);
    }
    valid := checksum == 0;
  }

  // The host's checksum loop.
  method CalcChecksum(data: seq<Byte>) returns (cksum: Byte)
    ensures cksum == Checksum(data)
  {
    hide Xor;
    cksum := CHECKSUM_START;
    for i := 0 to |data|
      invariant cksum == Checksum(data[..i])
    {
      assert data[..i + 1][..i] == data[..i];
      cksum := Xor(cksum, data[i]);
    }
    assert data[..|data|] == data;
  }

  // ---- Frames on the wire ----

  function U16(lo: Byte, hi: Byte): nat { 256 * hi + lo }

  function Bytes16(x: nat): (s: seq<Byte>)
    requires x < 0x1_0000
    ensures |s| == 2 && U16(s[0], s[1]) == x
  {
    [x % 256, x / 256]
  }

  type Header = h: seq<Byte> | |h| == HEADER_SIZE witness VERSION

  predicate HeaderOk(h: Header) {
    h[0] == SYNC && Checks(h)
  }

  function Endpoint(h: Header): Byte { h[1] }
  function MosiLen(h: Header): nat { U16(h[2], h[3]) }
  function MisoLen(h: Header): nat { U16(h[4], h[5]) }

  // The header the host packs.
  function PackHeader(endpoint: Byte, mosi: nat, miso: nat): (h: Header)
    requires mosi < 0x1_0000 && miso < 0x1_0000
    ensures HeaderOk(h) && Endpoint(h) == endpoint && MosiLen(h) == mosi && MisoLen(h) == miso
  {
    var p := [SYNC, endpoint] + Bytes16(mosi) + Bytes16(miso);
    LastByteChecks(p, Checksum(p));
    p + [Checksum(p)]
  }

  // A successful response: data acknowledge, length, payload, checksum.
  function Frame(payload: seq<Byte>): (f: seq<Byte>)
    requires |payload| < 0x1_0000
    ensures |f| == |payload| + 4
  {
    var p := [DACK] + Bytes16(|payload|) + payload;
    p + [Checksum(p)]
  }

  // The bytes of headers, responses and the device's answers to a header.
  lemma WireBytes(endpoint: Byte, mosi: nat, miso: nat, payload: seq<Byte>)
    requires mosi < 0x1_0000 && miso < 0x1_0000 && |payload| < 0x1_0000
    ensures
      var h := [0x5A, endpoint, mosi % 256, mosi / 256, miso % 256, miso / 256];
      PackHeader(endpoint, mosi, miso) == h + [XorFold(0xAB, h)]
    ensures
      var f := [0x85, |payload| % 256, |payload| / 256] + payload;
      Frame(payload) == f + [XorFold(0xAB, f)]
  {
    hide XorFold;
    assert [SYNC, endpoint] + Bytes16(mosi) + Bytes16(miso)
        == [0x5A, endpoint, mosi % 256, mosi / 256, miso % 256, miso / 256];
    assert [DACK] + Bytes16(|payload|) + payload == [0x85, |payload| % 256, |payload| / 256] + payload;
  }

  // Any seven bytes are the version request, or a header that starts with 0x5A and cancels to zero, or
  // refused.
  lemma HeaderAnswers(h: Header, version: seq<Byte>)
    ensures
      var text := "VERSION";
      OnHeader(h, version) ==
        if forall i :: 0 <= i < 7 ==> h[i] == text[i] as int then (HEADER_NACK, version)
        else if h[0] == 0x5A && XorFold(0xAB, h) == 0 then (HEADER_ACK, [0x79])
        else (HEADER_NACK, [0x1F])
  {
    hide XorFold;
    var text := "VERSION";
    assert VERSION == seq(7, i requires 0 <= i < 7 => text[i] as int);
    assert h == VERSION <==> forall i :: 0 <= i < 7 ==> h[i] == VERSION[i];
  }

  // ---- What a request asks for ----

  datatype Call =
    | Control(packet: seq<Byte>)
    | CanRead(maxLen: nat)
    | Serial(data: seq<Byte>)
    | CanWrite(data: seq<Byte>)
    | Test(len: nat)

  // The handler an intact request goes to, if any.
  function Dispatch(h: Header, data: seq<Byte>, canTxReady: bool): Option<Call> {
    var endpoint := Endpoint(h);
    if endpoint == 0 then
      if |data| >= CONTROL_PACKET_SIZE then Some(Control(data[..CONTROL_PACKET_SIZE])) else None
    else if endpoint == 1 || endpoint == 0x81 then
      if |data| == 0 then Some(CanRead(MisoLen(h))) else None
    else if endpoint == 2 then
      Some(Serial(data))
    else if endpoint == 3 then
      if |data| > 0 && canTxReady then Some(CanWrite(data)) else None
    else if endpoint == 0xAB then
      Some(Test(MisoLen(h)))
    else
      None
  }

  // A request whose data part, with its checksum byte, arrived as body.
  function Accepted(h: Header, body: seq<Byte>, canTxReady: bool): Option<Call> {
    if HeaderOk(h) && |body| == MosiLen(h) + 1 && Checks(body)
    then Dispatch(h, body[..|body| - 1], canTxReady)
    else None
  }

  // Which handler an intact request reaches, and with what: by its endpoint alone, each with its own
  // condition on the data, and the data as they came.
  lemma HandlerOf(h: Header, data: seq<Byte>, ready: bool)
    requires HeaderOk(h) && MosiLen(h) == |data|
    ensures
      var a, e := Accepted(h, data + [Checksum(data)], ready), Endpoint(h);
      && (e == 0 && |data| >= 7 ==> a == Some(Control(data[..7])))
      && ((e == 1 || e == 0x81) && data == [] ==> a == Some(CanRead(MisoLen(h))))
      && (e == 2 ==> a == Some(Serial(data)))
      && (e == 3 && data != [] && ready ==> a == Some(CanWrite(data)))
      && (e == 0xAB ==> a == Some(Test(MisoLen(h))))
      && (a.Some? ==>
            || (e == 0 && |data| >= 7) || ((e == 1 || e == 0x81) && data == []) || e == 2
            || (e == 3 && data != [] && ready) || e == 0xAB)
  {
    hide HeaderOk, Checks, Checksum, MosiLen, MisoLen;
    AcceptedWhenIntact(h, data, ready);
  }

  // CAN data are refused while there is no room to send them, whatever else arrived.
  lemma NoRoomNoCanData(h: Header, body: seq<Byte>)
    ensures Endpoint(h) == 3 ==> Accepted(h, body, false) == None
  {
    hide HeaderOk, Checks, MosiLen;
  }

  // A request whose data part has the wrong length or fails its checksum reaches no handler.
  lemma DamagedReachesNone(h: Header, body: seq<Byte>, ready: bool)
    requires !HeaderOk(h) || |body| != MosiLen(h) + 1 || !Checks(body)
    ensures Accepted(h, body, ready) == None
  {
    hide HeaderOk, Checks, MosiLen, Dispatch;
  }

  // The payload of the response; the test endpoint sends back whatever was in the buffer.
  function Payload(call: Call, reply: seq<Byte>, stale: seq<Byte>): seq<Byte>
    requires call.Test? ==> call.len <= |stale|
  {
    match call
    case Control(_) => reply
    case CanRead(_) => reply
    case Serial(_) => []
    case CanWrite(_) => []
    case Test(len) => stale[..len]
  }

  // ---- What fits the buffers ----

  // What the handler of a call may write behind the three bytes that start a response: a control
  // handler at most one USB packet, a CAN read as many of the bytes asked for as are queued.
  predicate MayReply(call: Call, reply: seq<Byte>) {
    match call
    case Control(_) => |reply| <= USBPACKET_MAX_SIZE
    case CanRead(maxLen) => |reply| <= maxLen
    case _ => reply == []
  }

  // How many bytes of the transmit buffer a response takes.
  function ResponseSize(call: Call, reply: seq<Byte>): nat {
    match call
    case Control(_) => |reply| + 4
    case CanRead(_) => |reply| + 4
    case Serial(_) => 4
    case CanWrite(_) => 4
    case Test(len) => len + 4
  }

  predicate Overruns(accepted: Option<Call>, reply: seq<Byte>) {
    accepted.Some? && ResponseSize(accepted.value, reply) > BUF_SIZE
  }

  // Whatever follows a header, the bytes received for it and the bytes written in response stay
  // inside the buffers.
  ghost predicate Fits(h: Header) {
    && HEADER_SIZE + MosiLen(h) + 1 <= BUF_SIZE
    && forall body, ready, reply :: Answerable(h, body, ready, reply) ==> !Overruns(Accepted(h, body, ready), reply)
  }

  predicate Answerable(h: Header, body: seq<Byte>, ready: bool, reply: seq<Byte>) {
    var a := Accepted(h, body, ready);
    a.Some? && MayReply(a.value, reply)
  }

  // The request makes the device send back as much as was asked for.
  predicate SizedByHost(h: Header) {
    Endpoint(h) == 0xAB || ((Endpoint(h) == 1 || Endpoint(h) == 0x81) && MosiLen(h) == 0)
  }

  // Nothing in the device compares announced lengths with its buffers, so this is what a host has to
  // observe.
  lemma FitsExactly(h: Header)
    requires HeaderOk(h)
    ensures Fits(h) <==> MosiLen(h) <= 2040 && (SizedByHost(h) ==> MisoLen(h) <= 2044)
  {
    hide Checks, HeaderOk, MosiLen, MisoLen;
    if MosiLen(h) <= 2040 && SizedByHost(h) && MisoLen(h) > 2044 {
      var data, reply := Zeros(MosiLen(h)), if Endpoint(h) == 0xAB then [] else Zeros(MisoLen(h));
      AcceptedWhenIntact(h, data, true);
      assert Answerable(h, data + [Checksum(data)], true, reply);
    }
  }

  // Every header with a right checksum is acknowledged, whether or not what it announces fits. The
  // sizes of the host's own transfers do.
  lemma AnnouncedSizes(endpoint: Byte, mosi: nat, miso: nat, version: seq<Byte>)
    requires mosi < 0x1_0000 && miso < 0x1_0000
    ensures
      var h := PackHeader(endpoint, mosi, miso);
      && OnHeader(h, version) == (HEADER_ACK, [HACK])
      && (mosi <= XFER_SIZE && miso <= XFER_SIZE ==> Fits(h))
  {
    hide Checks, Checksum, HeaderOk, MosiLen, MisoLen, Fits;
    var h := PackHeader(endpoint, mosi, miso);
    NotVersion(h);
    FitsExactly(h);
  }

  // A CAN read of 65535 bytes with 2045 of them queued runs past the transmit buffer.
  lemma LongReadOverruns(ready: bool)
    ensures
      var h := PackHeader(1, 0, 0xFFFF);
      var a := Accepted(h, [] + [Checksum([])], ready);
      a == Some(CanRead(0xFFFF)) && MayReply(a.value, Zeros(2045)) && Overruns(a, Zeros(2045)) && !Fits(h)
  {
    hide Checks, Checksum, HeaderOk, MosiLen, MisoLen, Fits, Accepted, PackHeader;
    var h := PackHeader(1, 0, 0xFFFF);
    FitsExactly(h);
    AcceptedWhenIntact(h, [], ready);
  }

  // 2041 bytes of CAN data run past the receive buffer.
  lemma LongWriteOverruns(data: seq<Byte>)
    requires |data| == 2041
    ensures
      var h := PackHeader(3, |data|, 0);
      Accepted(h, data + [Checksum(data)], true) == Some(CanWrite(data)) && !Fits(h)
  {
    hide Checks, Checksum, HeaderOk, MosiLen, MisoLen, Fits, Accepted, PackHeader;
    var h := PackHeader(3, |data|, 0);
    FitsExactly(h);
    AcceptedWhenIntact(h, data, true);
  }

  // ---- The device ----

  datatype State = HEADER | HEADER_ACK | HEADER_NACK | DATA_RX | DATA_RX_ACK | DATA_TX

  datatype Dma = Receive(at: nat, len: nat) | Send(len: nat)

  // One handler call and the request that caused it.
  datatype Entry = Entry(header: Header, body: seq<Byte>, call: Call)

  predicate Justified(e: Entry) {
    && HeaderOk(e.header)
    && |e.body| == MosiLen(e.header) + 1
    && Checks(e.body)
    && Dispatch(e.header, e.body[..|e.body| - 1], true) == Some(e.call)
  }

  predicate AllJustified(log: seq<Entry>) {
    forall e <- log :: Justified(e)
  }

  lemma NotVersion(h: Header)
    requires HeaderOk(h)
    ensures h != VERSION
  {
    hide Checks;
    assert VERSION[0] != SYNC;
  }

  // Every recorded handler call belongs to a header and a body that both passed.
  lemma RecordedCallsChecked(log: seq<Entry>, e: Entry)
    requires AllJustified(log) && e in log
    ensures e.header[0] == 0x5A && XorFold(0xAB, e.header) == 0
    ensures XorFold(0xAB, e.body) == 0 && |e.body| == MosiLen(e.header) + 1
    ensures Accepted(e.header, e.body, true) == Some(e.call)
  {
    hide XorFold, Dispatch;
  }

  lemma JustifyAccepted(h: Header, body: seq<Byte>, ready: bool)
    ensures var a := Accepted(h, body, ready);
      a.Some? ==> forall log :: AllJustified(log) ==> AllJustified(log + [Entry(h, body, a.value)])
  {
    hide Checks, HeaderOk, MosiLen, MisoLen;
  }

  predicate Framed(f: seq<Byte>) {
    4 <= |f| < 0x1_0000 && f == Frame(f[3..|f| - 1])
  }

  lemma FramedPayload(f: seq<Byte>)
    ensures forall p: seq<Byte> :: |p| <= BUF_SIZE && f == Frame(p) ==> f[3..|f| - 1] == p && Framed(f)
  {
  }

  // The next state and the response to seven header bytes.
  function OnHeader(h: Header, version: seq<Byte>): (State, seq<Byte>) {
    if h == VERSION then (HEADER_NACK, version)
    else if HeaderOk(h) then (HEADER_ACK, [HACK])
    else (HEADER_NACK, [NACK])
  }

  // The next state and the response to the data part of a request.
  function OnData(accepted: Option<Call>, reply: seq<Byte>, stale: seq<Byte>): (State, seq<Byte>)
    requires !Overruns(accepted, reply) && |stale| + 3 == BUF_SIZE
  {
    match accepted
    case None => (HEADER_NACK, [NACK])
    case Some(call) => (DATA_TX, Frame(Payload(call, reply, stale)))
  }

  class Device {
    const rx: array<Byte>
    const tx: array<Byte>
    var state: State
    var dma: Dma
    var dataLenMosi: nat
    var canTxReady: bool
    var checksumErrorCount: nat
    ghost var log: seq<Entry>

    ghost predicate Structure() {
      rx.Length == BUF_SIZE && tx.Length == BUF_SIZE && rx != tx
    }

    function ReceivedHeader(): (h: Header)
      requires Structure()
      reads rx
    {
      rx[..HEADER_SIZE]
    }

    // The data part in the buffer, with its checksum byte.
    function ReceivedBody(): seq<Byte>
      requires Structure() && HEADER_SIZE + dataLenMosi + 1 <= BUF_SIZE
      reads this`dataLenMosi, rx
    {
      rx[HEADER_SIZE..HEADER_SIZE + dataLenMosi + 1]
    }

    function Sent(): seq<Byte>
      requires Structure() && dma.Send? && dma.len <= BUF_SIZE
      reads this`dma, tx
    {
      tx[..dma.len]
    }

    // The header in the buffer passed its checks and is the one being served.
    ghost predicate HeaderHeld()
      requires Structure()
      reads this`dataLenMosi, rx
    {
      HeaderOk(ReceivedHeader()) && dataLenMosi == MosiLen(ReceivedHeader())
    }

    // Which transfer runs in which state.
    ghost predicate Phase()
      requires Structure()
      reads this`state, this`dma, this`dataLenMosi, rx, tx
    {
      match state
      case HEADER => dma == Receive(0, HEADER_SIZE)
      case DATA_RX => HeaderHeld() && dma == Receive(HEADER_SIZE, dataLenMosi + 1)
      case HEADER_ACK => HeaderHeld() && dma == Send(1) && Sent() == [HACK]
      case HEADER_NACK => dma.Send? && 0 < dma.len <= BUF_SIZE
      case DATA_TX => dma.Send? && dma.len <= BUF_SIZE && Framed(Sent())
      case DATA_RX_ACK => false
    }

    ghost predicate Valid()
      reads this, rx, tx
    {
      Structure() && Phase() && checksumErrorCount < 0x1_0000 && AllJustified(log)
    }

    constructor ()
      ensures Valid() && state == HEADER && log == [] && !canTxReady
      ensures fresh(rx) && fresh(tx)
    {
      rx := new Byte[BUF_SIZE];
      tx := new Byte[BUF_SIZE];
      state := HEADER;
      dma := Receive(0, HEADER_SIZE);
      dataLenMosi := 0;
      canTxReady := false;
      checksumErrorCount := 0;
      log := [];
    }

    // Bytes are put into the transmit buffer, all others stay. In this and the following methods an
    // overrun means that a byte past the end of a buffer is touched; nothing is known after that.
    method FillTx(at: nat, data: seq<Byte>) returns (overrun: bool)
      requires Structure() && at <= BUF_SIZE
      modifies tx
      ensures overrun <==> at + |data| > BUF_SIZE
      ensures !overrun ==>
        forall k :: 0 <= k < BUF_SIZE ==> tx[k] == if at <= k < at + |data| then data[k - at] else old(tx[k])
    {
      for i := 0 to |data|
        invariant at + i <= BUF_SIZE
        invariant forall k :: 0 <= k < BUF_SIZE ==> tx[k] == if at <= k < at + i then data[k - at] else old(tx[k])
      {
        if at + i >= BUF_SIZE {
          return true;
        }
        tx[at + i] := data[i];
      }
      overrun := false;
    }

    // The requested number of bytes has arrived from the host.
    method Arrive(data: seq<Byte>) returns (overrun: bool)
      requires Valid() && dma.Receive? && |data| == dma.len
      modifies rx
      ensures overrun <==> dma.at + dma.len > BUF_SIZE
      ensures overrun ==> state == DATA_RX && MosiLen(old(ReceivedHeader())) > 2040
      ensures !overrun ==> Valid()
      ensures !overrun && state == HEADER ==> ReceivedHeader() == data
      ensures !overrun && state == DATA_RX ==>
        dataLenMosi + 1 == |data| && ReceivedHeader() == old(ReceivedHeader()) && ReceivedBody() == data
    {
      hide HeaderOk, MosiLen, MisoLen, AllJustified;
      var at := dma.at;
      for i := 0 to |data|
        invariant at + i <= BUF_SIZE
        invariant forall k :: 0 <= k < BUF_SIZE ==> rx[k] == if at <= k < at + i then data[k - at] else old(rx[k])
      {
        if at + i >= BUF_SIZE {
          return true;
        }
        rx[at + i] := data[i];
      }
      overrun := false;
      assert at > 0 ==> ReceivedHeader() == old(ReceivedHeader());
      assert rx[at..at + |data|] == data;
    }

    // spi_rx_done: version is the version packet, reply what a handler writes, and resumed says
    // whether writing CAN data made room for more.
    method RxDone(version: seq<Byte>, reply: seq<Byte>, resumed: bool) returns (overrun: bool)
      requires Valid() && dma.Receive? && dma.at + dma.len <= BUF_SIZE && 0 < |version| <= BUF_SIZE
      modifies this, tx
      ensures overrun <==>
        old(state) == DATA_RX && Overruns(Accepted(ReceivedHeader(), old(ReceivedBody()), old(canTxReady)), reply)
      ensures !overrun ==> Valid() && dma.Send?
      ensures !overrun && old(state) == HEADER ==>
        (state, Sent()) == OnHeader(ReceivedHeader(), version) && log == old(log) && canTxReady == old(canTxReady)
      ensures !overrun && old(state) == DATA_RX ==>
        Answered(old(canTxReady), reply, old(tx[3..]), resumed, old(log), old(ReceivedBody()))
      ensures !overrun ==>
        var intact :=
          if old(state) == DATA_RX then Checks(old(ReceivedBody()))
          else ReceivedHeader() != VERSION && Checks(ReceivedHeader());
        checksumErrorCount == if intact || old(checksumErrorCount) == 0xFFFF then old(checksumErrorCount)
                              else old(checksumErrorCount) + 1
    {
      hide Checks, AllJustified, Payload, Frame, MosiLen, MisoLen, Accepted, HeaderOk, VERSION, OnHeader, OnData,
        Noted, Overruns;
      LengthField();
      dataLenMosi := U16(rx[2], rx[3]);
      var nextRxState, responseLen, checksumValid;
      nextRxState, responseLen, checksumValid, overrun := Respond(version, reply, resumed);
      if overrun {
        return;
      }
      if responseLen == 0 {
        // every branch has a response
        assert false;
      }
      SendOut(nextRxState, responseLen, checksumValid);
    }

    method Respond(version: seq<Byte>, reply: seq<Byte>, resumed: bool)
      returns (nextRxState: State, responseLen: nat, checksumValid: bool, overrun: bool)
      requires Structure() && 0 < |version| <= BUF_SIZE
      requires state == HEADER || (state == DATA_RX && HeaderHeld() && HEADER_SIZE + dataLenMosi + 1 <= BUF_SIZE)
      modifies this`canTxReady, this`log, tx
      ensures overrun <==>
        state == DATA_RX && Overruns(Accepted(ReceivedHeader(), ReceivedBody(), old(canTxReady)), reply)
      ensures !overrun ==> 0 < responseLen <= BUF_SIZE
      ensures state == HEADER ==>
        && (nextRxState, tx[..responseLen]) == OnHeader(ReceivedHeader(), version)
        && log == old(log) && canTxReady == old(canTxReady)
      ensures !overrun && state == DATA_RX ==>
        var a := Accepted(ReceivedHeader(), ReceivedBody(), old(canTxReady));
        && (nextRxState, tx[..responseLen]) == OnData(a, reply, old(tx[3..]))
        && Noted(a, old(canTxReady), resumed, old(log), ReceivedBody())
      ensures !overrun ==>
        checksumValid ==
          if state == DATA_RX then Checks(ReceivedBody()) else ReceivedHeader() != VERSION && Checks(ReceivedHeader())
      ensures !overrun && AllJustified(old(log)) ==> AllJustified(log)
      ensures !overrun ==>
        match nextRxState
        case HEADER_ACK => state == HEADER && HeaderOk(ReceivedHeader()) && tx[..responseLen] == [HACK]
        case DATA_TX => Framed(tx[..responseLen])
        case HEADER_NACK => true
        case _ => false
    {
      hide Checks, AllJustified, MosiLen, MisoLen, Accepted, HeaderOk, VERSION, Overruns, OnData, Noted, Framed;
      if state == DATA_RX {
        NotVersion(ReceivedHeader());
      }
      nextRxState, checksumValid, overrun := HEADER_NACK, false, false;
      if rx[..7] == VERSION {
        overrun := FillTx(0, version);
        responseLen := |version|;
        assert tx[..responseLen] == version;
      } else if state == HEADER {
        responseLen := 1;
        checksumValid, nextRxState := RespondToHeader();
      } else if state == DATA_RX {
        checksumValid := ValidateChecksum(rx, HEADER_SIZE, dataLenMosi + 1);
        nextRxState, responseLen, overrun := RespondToData(checksumValid, reply, resumed);
      } else {
        // no other state waits for bytes
        assert false;
      }
    }

    method SendOut(nextRxState: State, responseLen: nat, checksumValid: bool)
      requires checksumErrorCount < 0x1_0000
      modifies this`dma, this`state, this`checksumErrorCount
      ensures dma == Send(responseLen) && state == nextRxState
      ensures checksumErrorCount == if checksumValid || old(checksumErrorCount) == 0xFFFF then old(checksumErrorCount)
                                    else old(checksumErrorCount) + 1
    {
      dma := Send(responseLen);
      state := nextRxState;
      if !checksumValid && checksumErrorCount < 0xFFFF {
        checksumErrorCount := checksumErrorCount + 1;
      }
    }

    // What a data part leads to, in terms of the state before it.
    ghost predicate Answered(ready: bool, reply: seq<Byte>, stale: seq<Byte>, resumed: bool,
                             earlier: seq<Entry>, body: seq<Byte>)
      requires Structure() && dma.Send? && dma.len <= BUF_SIZE && |stale| + 3 == BUF_SIZE
      reads this, rx, tx
    {
      var a := Accepted(ReceivedHeader(), body, ready);
      && !Overruns(a, reply)
      && (state, Sent()) == OnData(a, reply, stale)
      && Noted(a, ready, resumed, earlier, body)
    }

    // The record of handler calls and the flow control flag after a request.
    ghost predicate Noted(a: Option<Call>, ready: bool, resumed: bool, earlier: seq<Entry>, body: seq<Byte>)
      requires Structure()
      reads this`log, this`canTxReady, rx
    {
      && log == (if a.Some? then earlier + [Entry(ReceivedHeader(), body, a.value)] else earlier)
      && canTxReady == (if a.Some? && a.value.CanWrite? then resumed else ready)
    }

    lemma LengthField()
      requires Structure()
      ensures U16(rx[2], rx[3]) == MosiLen(ReceivedHeader())
    {
    }

    lemma BodyData()
      requires Structure() && HEADER_SIZE + dataLenMosi + 1 <= BUF_SIZE
      ensures ReceivedBody()[..dataLenMosi] == rx[HEADER_SIZE..HEADER_SIZE + dataLenMosi]
      ensures dataLenMosi >= CONTROL_PACKET_SIZE ==>
        ReceivedBody()[..dataLenMosi][..CONTROL_PACKET_SIZE] == rx[HEADER_SIZE..HEADER_SIZE + CONTROL_PACKET_SIZE]
    {
    }

    method RespondToHeader() returns (checksumValid: bool, nextRxState: State)
      requires Structure()
      modifies tx
      ensures checksumValid == Checks(ReceivedHeader())
      ensures nextRxState == if HeaderOk(ReceivedHeader()) then HEADER_ACK else HEADER_NACK
      ensures tx[..1] == if HeaderOk(ReceivedHeader()) then [HACK] else [NACK]
    {
      hide Checks;
      checksumValid := ValidateChecksum(rx, 0, HEADER_SIZE);
      if rx[0] == SYNC && checksumValid {
        tx[0] := HACK;
        nextRxState := HEADER_ACK;
      } else {
        tx[0] := NACK;
        nextRxState := HEADER_NACK;
      }
    }

    method RespondToData(checksumValid: bool, reply: seq<Byte>, resumed: bool)
      returns (nextRxState: State, responseLen: nat, overrun: bool)
      requires Structure() && HeaderHeld() && HEADER_SIZE + dataLenMosi + 1 <= BUF_SIZE
      requires checksumValid == Checks(ReceivedBody())
      modifies this`canTxReady, this`log, tx
      ensures overrun <==> Overruns(Accepted(ReceivedHeader(), ReceivedBody(), old(canTxReady)), reply)
      ensures !overrun ==>
        var a := Accepted(ReceivedHeader(), ReceivedBody(), old(canTxReady));
        && 0 < responseLen <= BUF_SIZE
        && (nextRxState, tx[..responseLen]) == OnData(a, reply, old(tx[3..]))
        && Noted(a, old(canTxReady), resumed, old(log), ReceivedBody())
      ensures !overrun ==> nextRxState == HEADER_NACK || (nextRxState == DATA_TX && Framed(tx[..responseLen]))
      ensures !overrun && AllJustified(old(log)) ==> AllJustified(log)
    {
      hide Checks, HeaderOk, MosiLen, MisoLen, Dispatch, Payload, Frame, AllJustified, ResponseSize;
      JustifyAccepted(ReceivedHeader(), ReceivedBody(), canTxReady);
      var responseAck := false;
      nextRxState, overrun := HEADER_NACK, false;
      if checksumValid {
        responseAck, responseLen, overrun := CallHandler(reply, resumed);
        if overrun {
          return;
        }
      }
      if !responseAck {
        tx[0] := NACK;
        responseLen := 1;
        assert tx[..1] == [NACK];
      } else {
        responseLen, overrun := BuildResponse(responseLen);
        nextRxState := DATA_TX;
        if !overrun {
          FramedPayload(tx[..responseLen]);
        }
      }
    }

    // One request with both checksums right goes to the handler of its endpoint, or to none.
    method CallHandler(reply: seq<Byte>, resumed: bool) returns (ack: bool, responseLen: nat, overrun: bool)
      requires Structure() && HeaderHeld() && HEADER_SIZE + dataLenMosi + 1 <= BUF_SIZE
      modifies this`canTxReady, this`log, tx
      ensures var a := Dispatch(ReceivedHeader(), ReceivedBody()[..dataLenMosi], old(canTxReady));
        && ack == a.Some?
        && (overrun ==> Overruns(a, reply))
        && (ack && !overrun ==> responseLen + 4 == ResponseSize(a.value, reply))
        && (ack && !Overruns(a, reply) ==> tx[3..3 + responseLen] == Payload(a.value, reply, old(tx[3..])))
        && Noted(a, old(canTxReady), resumed, old(log), ReceivedBody())
    {
      hide Checks, HeaderOk, MosiLen, OnData, Payload, ResponseSize;
      var endpoint, dataLenMiso := rx[1], U16(rx[4], rx[5]);
      BodyData();
      ack, responseLen, overrun := false, 0, false;
      if endpoint == 0 {
        if dataLenMosi >= CONTROL_PACKET_SIZE {
          ack := true;
          responseLen, overrun := Handle(Control(rx[HEADER_SIZE..HEADER_SIZE + CONTROL_PACKET_SIZE]), reply, resumed);
        }
      } else if endpoint == 1 || endpoint == 0x81 {
        if dataLenMosi == 0 {
          ack := true;
          responseLen, overrun := Handle(CanRead(dataLenMiso), reply, resumed);
        }
      } else if endpoint == 2 {
        ack := true;
        responseLen, overrun := Handle(Serial(rx[HEADER_SIZE..HEADER_SIZE + dataLenMosi]), reply, resumed);
      } else if endpoint == 3 {
        if dataLenMosi > 0 {
          if canTxReady {
            ack := true;
            responseLen, overrun := Handle(CanWrite(rx[HEADER_SIZE..HEADER_SIZE + dataLenMosi]), reply, resumed);
          }
        }
      } else if endpoint == 0xAB {
        ack := true;
        responseLen, overrun := Handle(Test(dataLenMiso), reply, resumed);
      }
    }

    // What one handler writes behind the start of the response, and how long it says that is.
    method Handle(call: Call, reply: seq<Byte>, resumed: bool) returns (responseLen: nat, overrun: bool)
      requires Structure() && HEADER_SIZE + dataLenMosi + 1 <= BUF_SIZE
      modifies this`canTxReady, this`log, tx
      ensures overrun ==> Overruns(Some(call), reply)
      ensures !overrun ==> responseLen + 4 == ResponseSize(call, reply)
      ensures !Overruns(Some(call), reply) ==> tx[3..3 + responseLen] == Payload(call, reply, old(tx[3..]))
      ensures Noted(Some(call), old(canTxReady), resumed, old(log), ReceivedBody())
    {
      log := log + [Entry(ReceivedHeader(), ReceivedBody(), call)];
      responseLen, overrun := 0, false;
      match call {
        case Control(_) => responseLen, overrun := WriteReply(reply);
        case CanRead(_) => responseLen, overrun := WriteReply(reply);
        case Serial(_) =>
        case CanWrite(_) =>
          canTxReady := false;
          if resumed {
            CanTxCommsResume();
          }
        case Test(len) => responseLen := len;
      }
    }

    method WriteReply(reply: seq<Byte>) returns (responseLen: nat, overrun: bool)
      requires Structure()
      modifies tx
      ensures responseLen == |reply| && (overrun <==> 3 + |reply| > BUF_SIZE)
      ensures !overrun ==> tx[3..3 + |reply|] == reply
    {
      overrun := FillTx(3, reply);
      responseLen := |reply|;
    }

    method CanTxCommsResume()
      modifies this`canTxReady
      ensures canTxReady
    {
      canTxReady := true;
    }

    // Header, length and checksum around the payload that is already in place.
    method BuildResponse(payloadLen: nat) returns (responseLen: nat, overrun: bool)
      requires Structure()
      modifies tx
      ensures overrun <==> payloadLen + 4 > BUF_SIZE
      ensures !overrun ==> responseLen == payloadLen + 4 && tx[..responseLen] == Frame(old(tx[3..3 + payloadLen]))
    {
      hide Xor;
      responseLen, overrun := payloadLen + 4, payloadLen + 4 > BUF_SIZE;
      if overrun {
        return;
      }
      tx[0] := DACK;
      tx[1] := payloadLen % 256;
      tx[2] := payloadLen / 256;
      var checksum := CHECKSUM_START;
      for i := 0 to payloadLen + 3
        invariant checksum == Checksum(tx[..i])
      {
        assert tx[..i + 1][..i] == tx[..i];
        checksum := Xor(checksum, tx[i]);
      }
      ghost var p := tx[..payloadLen + 3];
      assert p == [DACK] + Bytes16(payloadLen) + old(tx[3..3 + payloadLen]);
      tx[payloadLen + 3] := checksum;
      assert tx[..responseLen] == p + [checksum];
    }

    // spi_tx_done: the response has been clocked out, or the transfer was given up.
    method TxDone(reset: bool)
      requires Valid() && dma.Send?
      modifies this`state, this`dma
      ensures Valid() && dma.Receive?
      ensures state == if old(state) == HEADER_ACK && !reset then DATA_RX else HEADER
    {
      hide HeaderOk, MosiLen, MisoLen, Frame, Justified;
      if state == HEADER_NACK || reset {
        state := HEADER;
        dma := Receive(0, HEADER_SIZE);
      } else if state == HEADER_ACK {
        state := DATA_RX;
        dma := Receive(HEADER_SIZE, dataLenMosi + 1);
      } else if state == DATA_TX {
        state := HEADER;
        dma := Receive(0, HEADER_SIZE);
      } else {
        // no other state transmits
        assert false;
      }
    }
  }

  // ---- The host ----

  datatype HostResult = Data(payload: seq<Byte>) | NackResponse | MissingAck | BadChecksum | TooLong

  // A poll that ends the wait for an acknowledge.
  predicate Decisive(poll: seq<Byte>, ack: Byte) {
    poll != [] && (poll[0] == NACK || poll[0] == ack)
  }

  predicate FirstDecisive(polls: seq<seq<Byte>>, k: nat, ack: Byte)
    requires k < |polls|
  {
    Decisive(polls[k], ack) && forall j :: 0 <= j < k ==> !Decisive(polls[j], ack)
  }

  // _wait_for_ack, given what each poll reads until the timeout.
  method WaitForAck(polls: seq<seq<Byte>>, ack: Byte) returns (found: Option<seq<Byte>>)
    ensures found.None? ==> forall p <- polls :: p != [] ==> p[0] != 0x1F && p[0] != ack
    ensures found.Some? ==> found.value != [] && (found.value[0] == 0x1F || found.value[0] == ack)
    ensures found.Some? ==> exists k :: 0 <= k < |polls| && polls[k] == found.value && FirstDecisive(polls, k, ack)
  {
    for i := 0 to |polls|
      invariant forall j :: 0 <= j < i ==> !Decisive(polls[j], ack)
    {
      var dat := polls[i];
      if dat != [] && (dat[0] == NACK || dat[0] == ack) {
        assert FirstDecisive(polls, i, ack);
        return Some(dat);
      }
    }
    return None;
  }

  // What the host makes of the bytes on the line, starting at the data acknowledge.
  function Decoded(line: seq<Byte>, maxRxLen: nat): HostResult
    requires |line| >= 3 && (U16(line[1], line[2]) <= maxRxLen ==> |line| >= U16(line[1], line[2]) + 4)
  {
    var n := U16(line[1], line[2]);
    if n > maxRxLen then TooLong
    else if !Checks(line[..n + 4]) then BadChecksum
    else Data(line[3..n + 3])
  }

  // The rest of a response is read only as far as needed, then the whole is trimmed.
  method ReadResponse(first: seq<Byte>, more: seq<Byte>, maxRxLen: nat) returns (r: HostResult)
    requires |first| == 3 + 65
    requires |more| == Max(0, U16(first[1], first[2]) + 1 - 65)
    ensures r == Decoded(first + more, maxRxLen)
  {
    hide Checksum;
    var responseLen := U16(first[1], first[2]);
    if responseLen > maxRxLen {
      return TooLong;
    }
    var dat := first;
    var remaining := responseLen + 1 - PREREAD_LEN;
    if remaining > 0 {
      dat := dat + more;
    }
    assert dat == first + more;
    dat := dat[..3 + responseLen + 1];
    var cksum := CalcChecksum(dat);
    if cksum != 0 {
      return BadChecksum;
    }
    r := Data(dat[3..|dat| - 1]);
    assert dat[3..|dat| - 1] == (first + more)[3..responseLen + 3];
  }

  // Whatever follows on the line, the host gets exactly the payload of the response.
  lemma HostRecovers(payload: seq<Byte>, filler: seq<Byte>, maxRxLen: nat)
    requires |payload| < 0x1_0000 && |payload| <= maxRxLen
    ensures Decoded(Frame(payload) + filler, maxRxLen) == Data(payload)
  {
    hide Checks, Checksum;
    var line := Frame(payload) + filler;
    FrameParts(payload);
    assert line[..|payload| + 4] == Frame(payload);
    assert line[3..|payload| + 3] == Frame(payload)[3..|payload| + 3];
  }

  lemma FrameParts(payload: seq<Byte>)
    requires |payload| < 0x1_0000
    ensures var f := Frame(payload);
      Checks(f) && f[0] == DACK && U16(f[1], f[2]) == |payload| && f[3..|payload| + 3] == payload
  {
    hide Checksum;
    var p := [DACK] + Bytes16(|payload|) + payload;
    LastByteChecks(p, Checksum(p));
  }

  // One damaged byte after the length field is always noticed.
  lemma HostNoticesDamage(payload: seq<Byte>, filler: seq<Byte>, maxRxLen: nat, i: nat, b: Byte)
    requires |payload| < 0x1_0000 && |payload| <= maxRxLen
    requires 3 <= i < |payload| + 4 && b != Frame(payload)[i]
    ensures Decoded(Frame(payload)[i := b] + filler, maxRxLen) == BadChecksum
  {
    hide Checks, Checksum;
    FrameParts(payload);
    OneByteChange(Frame(payload), i, b);
    assert (Frame(payload)[i := b] + filler)[..|payload| + 4] == Frame(payload)[i := b];
  }

  // The device refuses a request with one damaged byte, in either part.
  lemma DeviceNoticesDamage(h: Header, body: seq<Byte>, ready: bool, i: nat, b: Byte)
    requires HeaderOk(h) && Checks(body)
    ensures i < HEADER_SIZE && b != h[i] ==> !HeaderOk(h[i := b])
    ensures i < |body| && b != body[i] ==> Accepted(h, body[i := b], ready) == None
  {
    hide Checksum;
    if i < HEADER_SIZE && b != h[i] {
      OneByteChange(h, i, b);
    }
    if i < |body| && b != body[i] {
      OneByteChange(body, i, b);
    }
  }

  // ---- A whole transfer ----

  // What the host should get for a request: the payload of the one handler it reaches, or a refusal.
  ghost predicate Fulfilled(r: HostResult, accepted: Option<Call>, reply: seq<Byte>) {
    match accepted
    case None => r == NackResponse
    case Some(Control(_)) => r == Data(reply)
    case Some(CanRead(_)) => r == Data(reply)
    case Some(Serial(_)) => r == Data([])
    case Some(CanWrite(_)) => r == Data([])
    case Some(Test(n)) => r.Data? && |r.payload| == n
  }

  // The host's result by what it asked for.
  lemma ResultByEndpoint(r: HostResult, h: Header, data: seq<Byte>, ready: bool, reply: seq<Byte>)
    requires Fulfilled(r, Dispatch(h, data, ready), reply)
    ensures
      var n, e := |data|, Endpoint(h);
      var readsCan := e == 1 || e == 0x81;
      && ((e == 0 && n >= 7) || (readsCan && n == 0) ==> r == Data(reply))
      && (e == 2 || (e == 3 && n > 0 && ready) ==> r == Data([]))
      && (e == 0xAB ==> r.Data? && |r.payload| == MisoLen(h))
      && ((e == 0 && n < 7) || (readsCan && n > 0) || (e == 3 && (n == 0 || !ready)) ==> r == NackResponse)
      && (e !in {0, 1, 2, 3, 0x81, 0xAB} ==> r == NackResponse)
  {
    hide MisoLen;
  }

  // _transfer_spidev against the device over an undisturbed line. The idle polls are what the host
  // reads before the device answers, and the filler what it reads past the end of an answer.
  method Transfer(dev: Device, endpoint: Byte, data: seq<Byte>, maxLen: nat,
                  idleHeader: seq<seq<Byte>>, idleData: seq<seq<Byte>>, filler: Byte,
                  version: seq<Byte>, reply: seq<Byte>, resumed: bool) returns (r: HostResult)
    requires dev.Valid() && dev.state == HEADER
    requires |data| <= XFER_SIZE && maxLen <= XFER_SIZE
    requires forall p <- idleHeader :: !Decisive(p, HACK)
    requires forall p <- idleData :: !Decisive(p, DACK)
    requires 0 < |version| <= BUF_SIZE && |reply| <= Max(USBPACKET_MAX_SIZE, maxLen)
    modifies dev, dev.rx, dev.tx
    ensures dev.Valid() && dev.state == HEADER
    ensures
      var h := PackHeader(endpoint, |data|, Max(USBPACKET_MAX_SIZE, maxLen));
      var accepted := Dispatch(h, data, old(dev.canTxReady));
      && Fulfilled(r, accepted, reply)
      && dev.log == (if accepted.Some? then old(dev.log) + [Entry(h, data + [Checksum(data)], accepted.value)]
                     else old(dev.log))
      && dev.canTxReady == (if accepted.Some? && accepted.value.CanWrite? then resumed else old(dev.canTxReady))
    ensures endpoint == 3 && !old(dev.canTxReady) ==> r == NackResponse && dev.log == old(dev.log) && !dev.canTxReady
    ensures endpoint == 0xAB ==> r.Data? && |r.payload| == Max(64, maxLen)
  {
    hide Checks, Checksum, HeaderOk, MosiLen, MisoLen, Dispatch, Frame, Justified, Accepted;
    var maxRxLen := Max(USBPACKET_MAX_SIZE, maxLen);
    var h := PackHeader(endpoint, |data|, maxRxLen);
    SendHeader(dev, h, idleHeader, version);
    var cksum := CalcChecksum(data);
    AcceptedWhenIntact(h, data, dev.canTxReady);
    NoRoomNoCanData(h, data + [cksum]);
    r := ExchangeData(dev, data + [cksum], idleData, filler, maxRxLen, version, reply, resumed);
    ResultByEndpoint(r, h, data, old(dev.canTxReady), reply);
  }

  lemma AcceptedWhenIntact(h: Header, data: seq<Byte>, ready: bool)
    requires HeaderOk(h) && MosiLen(h) == |data|
    ensures Accepted(h, data + [Checksum(data)], ready) == Dispatch(h, data, ready)
  {
    hide HeaderOk, MosiLen, Checksum, Checks, Dispatch;
    LastByteChecks(data, Checksum(data));
    assert (data + [Checksum(data)])[..|data|] == data;
  }

  method SendHeader(dev: Device, h: Header, idle: seq<seq<Byte>>, version: seq<Byte>)
    requires dev.Valid() && dev.state == HEADER && HeaderOk(h) && 0 < |version| <= BUF_SIZE
    requires forall p <- idle :: !Decisive(p, HACK)
    modifies dev, dev.rx, dev.tx
    ensures dev.Valid() && dev.state == DATA_RX && dev.ReceivedHeader() == h && dev.dataLenMosi == MosiLen(h)
    ensures dev.log == old(dev.log) && dev.canTxReady == old(dev.canTxReady)
  {
    hide Checks, HeaderOk, MosiLen, MisoLen, AllJustified;
    var overrun := dev.Arrive(h);
    overrun := dev.RxDone(version, [], false);
    NotVersion(h);
    var polls := idle + [dev.Sent()];
    var ack := WaitForAck(polls, HACK);
    assert polls[|idle|] == [HACK] && Decisive([HACK], HACK);
    assert ack == Some([HACK]);
    dev.TxDone(false);
  }

  method ExchangeData(dev: Device, body: seq<Byte>, idle: seq<seq<Byte>>, filler: Byte, maxRxLen: nat,
                      version: seq<Byte>, reply: seq<Byte>, resumed: bool) returns (r: HostResult)
    requires dev.Valid() && dev.state == DATA_RX && |body| == dev.dataLenMosi + 1 && HEADER_SIZE + |body| <= BUF_SIZE
    requires forall p <- idle :: !Decisive(p, DACK)
    requires 0 < |version| <= BUF_SIZE && |reply| <= maxRxLen && maxRxLen + 4 <= BUF_SIZE
    requires MisoLen(dev.ReceivedHeader()) == maxRxLen
    modifies dev, dev.rx, dev.tx
    ensures dev.Valid() && dev.state == HEADER
    ensures
      var h := old(dev.ReceivedHeader());
      var accepted := Accepted(h, body, old(dev.canTxReady));
      && Fulfilled(r, accepted, reply)
      && dev.log == (if accepted.Some? then old(dev.log) + [Entry(h, body, accepted.value)] else old(dev.log))
      && dev.canTxReady == (if accepted.Some? && accepted.value.CanWrite? then resumed else old(dev.canTxReady))
  {
    hide Checks, HeaderOk, MosiLen, MisoLen, AllJustified, Accepted, Frame;
    ghost var h, stale := dev.ReceivedHeader(), dev.tx[3..];
    ghost var accepted := Accepted(h, body, dev.canTxReady);
    var overrun := dev.Arrive(body);
    PayloadFits(h, body, old(dev.canTxReady), reply, stale);
    overrun := dev.RxDone(version, reply, resumed);
    ghost var answer := if accepted.Some? then Some(Payload(accepted.value, reply, stale)) else None;
    r := ReceiveAnswer(dev.Sent(), idle, filler, maxRxLen, answer);
    dev.TxDone(false);
  }

  lemma PayloadFits(h: Header, body: seq<Byte>, ready: bool, reply: seq<Byte>, stale: seq<Byte>)
    requires MisoLen(h) <= |stale| && |reply| <= MisoLen(h)
    ensures var a := Accepted(h, body, ready);
      a.Some? ==>
        && ResponseSize(a.value, reply) <= MisoLen(h) + 4
        && (a.value.Test? ==> a.value.len == MisoLen(h)) && |Payload(a.value, reply, stale)| <= MisoLen(h)
  {
    hide Checks, HeaderOk, MosiLen, MisoLen;
  }

  // The host's reading of the device's answer to the data part.
  method ReceiveAnswer(sent: seq<Byte>, idle: seq<seq<Byte>>, filler: Byte, maxRxLen: nat,
                       ghost answer: Option<seq<Byte>>) returns (r: HostResult)
    requires forall p <- idle :: !Decisive(p, DACK)
    requires answer.Some? ==> |answer.value| <= maxRxLen && |answer.value| < 0x1_0000 && sent == Frame(answer.value)
    requires answer.None? ==> sent == [NACK]
    ensures r == if answer.Some? then Data(answer.value) else NackResponse
  {
    hide Checks, Checksum, Frame, Decoded;
    var line := sent + seq(0x1_0100, _ => filler);
    var first := line[..3 + PREREAD_LEN];
    if answer.Some? {
      FrameParts(answer.value);
    }
    var polls := idle + [first];
    var found := WaitForAck(polls, DACK);
    assert polls[|idle|] == first && Decisive(first, DACK);
    assert found == Some(first);
    if first[0] == NACK {
      return NackResponse;
    }
    var n := Max(0, U16(first[1], first[2]) + 1 - PREREAD_LEN);
    var more := line[3 + PREREAD_LEN..3 + PREREAD_LEN + n];
    r := ReadResponse(first, more, maxRxLen);
    ghost var rest := (first + more)[|answer.value| + 4..];
    assert first + more == Frame(answer.value) + rest;
    HostRecovers(answer.value, rest, maxRxLen);
  }
}
