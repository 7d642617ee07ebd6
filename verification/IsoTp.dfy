// ISO-TP segmentation and reassembly (IsoTpMessage in python/uds.py).
module IsoTp {
  import opened Bytes

  type CanData = seq<Byte>

  // The fields of one IsoTpMessage.
  datatype Endpoint = Endpoint(
    maxLen: nat, singleFrameMode: bool, separationTime: Byte,
    txDat: seq<Byte>, txLen: nat, txIdx: nat, txDone: bool,
    rxDat: seq<Byte>, rxLen: nat, rxIdx: nat, rxDone: bool)

  // What a received frame leads to: its type, or the exception the code raises.
  datatype Status =
    | Single | First | Consecutive | Flow
    | AssertionError | IndexError | InvalidFrameType
  {
    predicate Failed() { AssertionError? || IndexError? || InvalidFrameType? }
  }

  datatype Reaction = Reaction(status: Status, state: Endpoint, out: seq<CanData>)

  function LJust(s: seq<Byte>, n: nat): (r: seq<Byte>) {
    if |s| < n then s + Zeros(n - |s|) else s
  }

  // Python slicing: bounds beyond the end are clamped.
  function Slice(s: seq<Byte>, i: nat, j: nat): (r: seq<Byte>)
    ensures |r| <= if i < j then j - i else 0
  {
    var hi := if j < |s| then j else |s|;
    if i < hi then s[i..hi] else []
  }

  function FlowControlMsg(e: Endpoint): CanData {
    LJust([0x30, if e.singleFrameMode then 1 else 0, e.separationTime], e.maxLen)
  }

  // ---- Sending ----

  // send() up to and including the first frame.
  function StartState(e: Endpoint, dat: seq<Byte>): Endpoint {
    e.(txDat := dat, txLen := |dat|, txIdx := 0, txDone := |dat| < e.maxLen,
       rxDat := [], rxLen := 0, rxIdx := 0, rxDone := false)
  }

  // The 16-bit word 0x1000 | n, for which n has to fit 16 bits.
  function LengthWord(n: nat): (w: nat)
    requires n < 0x1_0000
    ensures w < 0x1_0000
    ensures n < 0x1000 ==> w == 0x1000 + n
  {
    if (n / 0x1000) % 2 == 1 then n else n + 0x1000
  }

  // The frame type and the length a receiver reads from the word.
  function AnnouncedType(n: nat): nat
    requires n < 0x1_0000
  {
    LengthWord(n) / 0x1000
  }

  function AnnouncedLength(n: nat): nat
    requires n < 0x1_0000
  {
    LengthWord(n) % 0x1000
  }

  // A first frame announces its payload exactly when the length fits 12 bits. Longer payloads below
  // 2^16 go out under a wrong length, from 2^13 on under a wrong frame type too.
  lemma LongPayloads(n: nat)
    requires n < 0x1_0000
    ensures AnnouncedType(n) == 1 && AnnouncedLength(n) == n <==> n <= 4095
    ensures AnnouncedType(n) == 1 <==> n < 0x2000
  {
  }

  function FirstFrame(maxLen: nat, dat: seq<Byte>): CanData
    requires 3 < maxLen <= 8 && |dat| < 0x1_0000
  {
    if |dat| < maxLen then LJust([|dat|] + dat, maxLen)
    else LJust([LengthWord(|dat|) / 256, |dat| % 256] + dat[..maxLen - 2], maxLen - 2)
  }

  // Where the data of consecutive frame j + 1 starts: maxLen - 2 + j * (maxLen - 1).
  function Offset(maxLen: nat, j: nat): (o: nat)
    requires maxLen >= 2
    ensures o >= j
  {
    if j == 0 then maxLen - 2 else Offset(maxLen, j - 1) + maxLen - 1
  }

  lemma {:induction false} OffsetValue(maxLen: nat, j: nat)
    requires maxLen >= 2
    ensures Offset(maxLen, j) == maxLen - 2 + j * (maxLen - 1)
  {
    if j > 0 {
      OffsetValue(maxLen, j - 1);
      assert j * (maxLen - 1) == (j - 1) * (maxLen - 1) + (maxLen - 1);
    }
  }

  lemma OffsetAdd(maxLen: nat, j: nat, c: nat)
    requires maxLen >= 2
    ensures Offset(maxLen, j + c) == Offset(maxLen, j) + c * (maxLen - 1)
  {
    OffsetValue(maxLen, j);
    OffsetValue(maxLen, j + c);
    Distribute(j, c, maxLen - 1);
  }

  lemma Distribute(j: nat, c: nat, k: nat)
    ensures (j + c) * k == j * k + c * k
  {
  }

  lemma {:induction false} OffsetMonotone(maxLen: nat, i: nat, j: nat)
    requires maxLen >= 2 && i <= j
    ensures Offset(maxLen, i) <= Offset(maxLen, j)
    decreases j
  {
    if i < j {
      OffsetMonotone(maxLen, i, j - 1);
    }
  }

  // Consecutive frame number idx, counted from 1; its sequence number wraps modulo 16.
  function ConsecutiveFrame(maxLen: nat, dat: seq<Byte>, idx: nat): (f: CanData)
    requires maxLen >= 2 && idx > 0
    ensures |f| == maxLen && f[0] == 0x20 + idx % 16
  {
    var start := Offset(maxLen, idx - 1);
    LJust([0x20 + idx % 16] + Slice(dat, start, start + maxLen - 1), maxLen)
  }

  // The consecutive frames idx + 1, idx + 2, ... whose data starts before end.
  function Emitted(maxLen: nat, dat: seq<Byte>, idx: nat, end: nat): seq<CanData>
    requires maxLen >= 2
    decreases if Offset(maxLen, idx) < end then end - Offset(maxLen, idx) else 0
  {
    if Offset(maxLen, idx) >= end then []
    else [ConsecutiveFrame(maxLen, dat, idx + 1)] + Emitted(maxLen, dat, idx + 1, end)
  }

  // Where the data of a block of count frames ends; a block of size 0 is the whole rest.
  function BlockEnd(e: Endpoint, count: Byte): nat
    requires e.maxLen >= 2
  {
    if count > 0 then Offset(e.maxLen, e.txIdx) + count * (e.maxLen - 1) else e.txLen
  }

  // Reaction of the sender to a flow control frame.
  function OnFlow(e: Endpoint, f: CanData): Reaction
    requires f != [] && e.maxLen >= 2
  {
    if e.txDone || f[0] == 0x32 || (f[0] != 0x30 && f[0] != 0x31) then Reaction(AssertionError, e, [])
    else if f[0] == 0x31 then Reaction(Flow, e, [])
    else if |f| < 3 then Reaction(IndexError, e, [])
    else
      var end := BlockEnd(e, f[1]);
      var out := Emitted(e.maxLen, e.txDat, e.txIdx, end);
      Reaction(Flow, e.(txIdx := e.txIdx + |out|, txDone := end >= e.txLen), out)
  }

  // ---- Receiving ----

  function OnSingle(e: Endpoint, f: CanData): Reaction
    requires f != []
  {
    if e.rxDat != [] && !e.rxDone then Reaction(AssertionError, e, [])
    else
      var n := f[0] % 16;
      if n >= e.maxLen then Reaction(AssertionError, e.(rxLen := n), [])
      else Reaction(Single, e.(rxLen := n, rxDat := Slice(f, 1, 1 + n), rxIdx := 0, rxDone := true), [])
  }

  function OnFirst(e: Endpoint, f: CanData): Reaction
    requires f != []
  {
    if e.rxDat != [] && !e.rxDone then Reaction(AssertionError, e, [])
    else if |f| < 2 then Reaction(IndexError, e, [])
    else
      var high: int := f[0] % 16;
      var n := high * 256 + f[1];
      if n < e.maxLen || |f| != e.maxLen then Reaction(AssertionError, e.(rxLen := n), [])
      else Reaction(First, e.(rxLen := n, rxDat := f[2..], rxIdx := 0, rxDone := false), [FlowControlMsg(e)])
  }

  function OnConsecutive(e: Endpoint, f: CanData): Reaction
    requires f != [] && InStep(e)
  {
    if e.rxDone then Reaction(AssertionError, e, [])
    else if (e.rxIdx + 1) % 16 != f[0] % 16 then Reaction(AssertionError, e.(rxIdx := e.rxIdx + 1), [])
    else
      var dat := e.rxDat + Slice(f, 1, 1 + e.rxLen - |e.rxDat|);
      var done := |dat| == e.rxLen;
      Reaction(Consecutive, e.(rxIdx := e.rxIdx + 1, rxDat := dat, rxDone := done),
               if !done && e.singleFrameMode then [FlowControlMsg(e)] else [])
  }

  // No more data than announced while a message is being received.
  predicate InStep(e: Endpoint) {
    e.rxDone || |e.rxDat| <= e.rxLen
  }

  // Reaction of an endpoint to one frame.
  function RxNext(e: Endpoint, f: CanData): (r: Reaction)
    requires e.maxLen >= 2 && InStep(e)
    ensures InStep(r.state) && r.state.maxLen == e.maxLen
  {
    if f == [] then Reaction(IndexError, e, []) else
    var frameType := f[0] / 16;
    if frameType == 0 then OnSingle(e, f)
    else if frameType == 1 then OnFirst(e, f)
    else if frameType == 2 then OnConsecutive(e, f)
    else if frameType == 3 then OnFlow(e, f)
    else Reaction(InvalidFrameType, e, [])
  }

  datatype SendResult = Frame(msg: CanData) | StructError

  // ---- The class ----

  class IsoTpMessage {
    const maxLen: nat
    const singleFrameMode: bool
    const separationTime: Byte
    var txDat: seq<Byte>
    var txLen: nat
    var txIdx: nat
    var txDone: bool
    var rxDat: seq<Byte>
    var rxLen: nat
    var rxIdx: nat
    var rxDone: bool

    function State(): Endpoint
      reads this
    {
      Endpoint(maxLen, singleFrameMode, separationTime, txDat, txLen, txIdx, txDone, rxDat, rxLen, rxIdx, rxDone)
    }

    ghost predicate Valid()
      reads this
    {
      3 < maxLen <= 8 && InStep(State())
    }

    constructor (maxLen: nat, singleFrameMode: bool, separationTime: Byte)
      requires 3 < maxLen <= 8
      ensures Valid()
    {
      this.maxLen, this.singleFrameMode, this.separationTime := maxLen, singleFrameMode, separationTime;
      txDat, txLen, txIdx, txDone := [], 0, 0, false;
      rxDat, rxLen, rxIdx, rxDone := [], 0, 0, false;
    }

    // Packing a length beyond 16 bits raises an exception after the transfer state has been set up.
    method Send(dat: seq<Byte>) returns (sent: SendResult)
      requires Valid()
      modifies this
      ensures Valid() && State() == StartState(old(State()), dat)
      ensures txDat == dat && txLen == |dat| && txIdx == 0 && (txDone <==> |dat| < maxLen)
      ensures rxDat == [] && rxLen == 0 && rxIdx == 0 && !rxDone
      ensures sent == if |dat| < 0x1_0000 then Frame(FirstFrame(maxLen, dat)) else StructError
    {
      txDat, txLen, txIdx, txDone := dat, |dat|, 0, false;
      rxDat, rxLen, rxIdx, rxDone := [], 0, 0, false;
      if txLen < maxLen {
        sent := Frame(LJust([txLen] + txDat, maxLen));
        txDone := true;
      } else if txLen < 0x1_0000 {
        sent := Frame(LJust([LengthWord(txLen) / 256, txLen % 256] + txDat[..maxLen - 2], maxLen - 2));
      } else {
        sent := StructError;
      }
    }

    method IsotpRxNext(rxData: CanData) returns (status: Status, out: seq<CanData>)
      requires Valid()
      modifies this
      ensures Valid() && Reaction(status, State(), out) == RxNext(old(State()), rxData)
    {
      hide OnSingle, OnFirst, OnConsecutive, OnFlow;
      if rxData == [] {
        return IndexError, [];
      }
      var frameType := rxData[0] / 16;
      if frameType == 0 {
        status := ReceiveSingle(rxData);
        out := [];
      } else if frameType == 1 {
        status, out := ReceiveFirst(rxData);
      } else if frameType == 2 {
        status, out := ReceiveConsecutive(rxData);
      } else if frameType == 3 {
        status, out := ReceiveFlow(rxData);
      } else {
        status, out := InvalidFrameType, [];
      }
    }

    method ReceiveSingle(rxData: CanData) returns (status: Status)
      requires Valid() && rxData != []
      modifies this`rxDat, this`rxLen, this`rxIdx, this`rxDone
      ensures Valid() && Reaction(status, State(), []) == OnSingle(old(State()), rxData)
    {
      if rxDat != [] && !rxDone {
        return AssertionError;
      }
      rxLen := rxData[0] % 16;
      if rxLen >= maxLen {
        return AssertionError;
      }
      rxDat := Slice(rxData, 1, 1 + rxLen);
      rxIdx := 0;
      rxDone := true;
      return Single;
    }

    method ReceiveFirst(rxData: CanData) returns (status: Status, out: seq<CanData>)
      requires Valid() && rxData != []
      modifies this`rxDat, this`rxLen, this`rxIdx, this`rxDone
      ensures Valid() && Reaction(status, State(), out) == OnFirst(old(State()), rxData)
    {
      out := [];
      if rxDat != [] && !rxDone {
        return AssertionError, [];
      }
      if |rxData| < 2 {
        return IndexError, [];
      }
      var high: int := rxData[0] % 16;
      rxLen := high * 256 + rxData[1];
      if rxLen < maxLen || |rxData| != maxLen {
        return AssertionError, [];
      }
      rxDat := rxData[2..];
      rxIdx := 0;
      rxDone := false;
      return First, [FlowControlMsg(State())];
    }

    method ReceiveConsecutive(rxData: CanData) returns (status: Status, out: seq<CanData>)
      requires Valid() && rxData != []
      modifies this`rxDat, this`rxLen, this`rxIdx, this`rxDone
      ensures Valid() && Reaction(status, State(), out) == OnConsecutive(old(State()), rxData)
    {
      hide LJust, Slice;
      out := [];
      if rxDone {
        return AssertionError, [];
      }
      rxIdx := rxIdx + 1;
      if rxIdx % 16 != rxData[0] % 16 {
        return AssertionError, [];
      }
      var rxSize := rxLen - |rxDat|;
      rxDat := rxDat + Slice(rxData, 1, 1 + rxSize);
      if rxLen == |rxDat| {
        rxDone := true;
      } else if singleFrameMode {
        out := [FlowControlMsg(State())];
      }
      return Consecutive, out;
    }

    method ReceiveFlow(rxData: CanData) returns (status: Status, out: seq<CanData>)
      requires Valid() && rxData != []
      modifies this`txIdx, this`txDone
      ensures Valid() && Reaction(status, State(), out) == OnFlow(old(State()), rxData)
    {
      hide ConsecutiveFrame, BlockEnd, Offset, Emitted;
      out := [];
      if txDone || rxData[0] == 0x32 || (rxData[0] != 0x30 && rxData[0] != 0x31) {
        return AssertionError, [];
      }
      if rxData[0] == 0x30 {
        if |rxData| < 3 {
          return IndexError, [];
        }
        var start, end := BlockBounds(rxData[1]);
        out := ConsecutiveFrames(start, end);
        if end >= txLen {
          txDone := true;
        }
      }
      return Flow, out;
    }

    method BlockBounds(count: Byte) returns (start: nat, end: nat)
      requires Valid()
      ensures start == Offset(maxLen, txIdx) && end == BlockEnd(State(), count)
    {
      hide Offset;
      var numBytes := maxLen - 1;
      start := maxLen - 2 + txIdx * numBytes;
      end := if count > 0 then start + count * numBytes else txLen;
      OffsetValue(maxLen, txIdx);
    }

    method ConsecutiveFrames(start: nat, end: nat) returns (txMsgs: seq<CanData>)
      requires Valid() && start == Offset(maxLen, txIdx)
      modifies this`txIdx
      ensures txMsgs == Emitted(maxLen, txDat, old(txIdx), end) && txIdx == old(txIdx) + |txMsgs|
    {
      hide ConsecutiveFrame;
      var i := start;
      txMsgs := [];
      while i < end
        modifies this`txIdx
        invariant i == Offset(maxLen, txIdx) && txIdx == old(txIdx) + |txMsgs|
        invariant txMsgs + Emitted(maxLen, txDat, txIdx, end) == Emitted(maxLen, txDat, old(txIdx), end)
        decreases end - i
      {
        ghost var rest := Emitted(maxLen, txDat, txIdx + 1, end);
        txIdx := txIdx + 1;
        var msg := ConsecutiveFrame(maxLen, txDat, txIdx);
        assert txMsgs + ([msg] + rest) == (txMsgs + [msg]) + rest;
        txMsgs := txMsgs + [msg];
        i := i + (maxLen - 1);
      }
      assert txMsgs + [] == txMsgs;
    }
  }
}
