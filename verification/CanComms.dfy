// Streaming of CAN packets between host and firmware over chunks of any size (board/can_comms.h).
module CanComms {
  import opened Arith
  import opened Bytes
  import opened CanPacket
  import opened CanRing

  const ASM_BUFFER_SIZE := 72

  // Copy src into dst from position pos on.
  method MemCpy(dst: array<Byte>, pos: nat, src: seq<Byte>)
    requires pos + |src| <= dst.Length
    modifies dst
    ensures forall k :: pos + |src| <= k < dst.Length ==> dst[k] == old(dst[k])
    ensures dst[..pos + |src|] == old(dst[..pos]) + src
  {
    var i := 0;
    while i < |src|
      invariant 0 <= i <= |src|
      invariant forall k :: 0 <= k < pos ==> dst[k] == old(dst[k])
      invariant forall k :: 0 <= k < i ==> dst[pos + k] == src[k]
      invariant forall k :: pos + i <= k < dst.Length ==> dst[k] == old(dst[k])
    {
      dst[pos + i] := src[i];
      i := i + 1;
    }
  }

  // The same at the start of dst.
  method MemCpyStart(dst: array<Byte>, src: seq<Byte>)
    requires |src| <= dst.Length
    modifies dst
    ensures dst[..|src|] == src
  {
    MemCpy(dst, 0, src);
    assert old(dst[..0]) + src == src;
  }

  lemma Rejoin(a: seq<Byte>, w: seq<Byte>, k: nat)
    requires k <= |w|
    ensures (a + w[..k]) + w[k..] == a + w
  {
  }

  lemma Split(s: seq<Byte>, i: nat, j: nat)
    requires i <= j <= |s|
    ensures s[..j] == s[..i] + s[i..j] && s[i..|s|] == s[i..] && s[..|s|] == s
  {
  }

  lemma Assoc(a: seq<Byte>, b: seq<Byte>, c: seq<Byte>)
    ensures (a + b) + c == a + (b + c)
  {
  }

  class Comms {
    const rxQueue: Ring
    const readData: array<Byte>
    var readPtr: nat
    const writeData: array<Byte>
    var writePtr: nat
    var writeTailSize: nat

    // The transmit queues, one a bus, by their contents, and the counters of lost packets.
    var txQueues: seq<seq<CANPacket>>
    var txBufferOverflow: nat
    var rxBufferOverflow: nat
    var safetyTxBlocked: nat

    // Since power-on: the packets passed to can_send, what became of each, and what the controller of
    // each bus has taken.
    ghost var offered: seq<CANPacket>
    ghost var outcomes: seq<Outcome>
    ghost var taken: seq<seq<CANPacket>>

    // Since the last reset: the bytes handed to the host, the packets accepted into the receive
    // queue, the bytes received from the host, and the packets passed to can_send.
    ghost var emitted: seq<Byte>
    ghost var accepted: seq<CANPacket>
    ghost var received: seq<Byte>
    ghost var sent: seq<CANPacket>

    ghost predicate ReadStructure()
      reads this`readPtr, rxQueue
    {
      rxQueue.Valid() && readData.Length == ASM_BUFFER_SIZE && readPtr <= ASM_BUFFER_SIZE
    }

    ghost predicate Structure()
      reads this`readPtr, this`writePtr, rxQueue
    {
      ReadStructure() && writeData.Length == ASM_BUFFER_SIZE && readData != writeData && writePtr <= ASM_BUFFER_SIZE
    }

    // What the host can still read: the tail of a packet, then the queued packets.
    ghost function Pending(): seq<Byte>
      requires ReadStructure()
      reads this`readPtr, rxQueue, rxQueue.elems, readData
    {
      readData[..readPtr] + WireAll(rxQueue.Contents())
    }

    // Nothing is lost, duplicated or reordered on the way to the host.
    ghost predicate ReadValid()
      requires ReadStructure()
      reads this`readPtr, this`emitted, this`accepted, rxQueue, rxQueue.elems, readData
    {
      emitted + Pending() == WireAll(accepted)
    }

    // The packets sent are those of one parse of all bytes received, and the overflow buffer holds
    // exactly the bytes of the unfinished packet and how many are missing.
    ghost predicate WriteValid()
      requires Structure()
      reads this, rxQueue, writeData
    {
      Parse(received) == Parsed(sent, writeData[..writePtr]) && BufferInStep()
    }

    ghost predicate BufferInStep()
      requires Structure()
      reads this, rxQueue, writeData
    {
      && (writePtr == 0 ==> writeTailSize == 0)
      && (writePtr != 0 ==> writePtr + writeTailSize == WireLen(writeData[0]) && writeTailSize > 0)
    }

    // Conservation on the way to the bus: on each bus, what was taken and what is queued are the
    // packets that were queued there, in the order in which they were offered.
    ghost predicate TxValid()
      reads this`offered, this`outcomes, this`taken, this`txQueues, this`txBufferOverflow, this`safetyTxBlocked
    {
      && |outcomes| == |offered| && |txQueues| == |taken| == BUS_CNT
      && (forall b :: 0 <= b < BUS_CNT ==>
            |txQueues[b]| < TX_BUFFER_SIZE && taken[b] + txQueues[b] == OnBus(offered, outcomes, b))
      && txBufferOverflow == Count(outcomes, Overflowed) % U32
      && safetyTxBlocked == Count(outcomes, Blocked) % U32
    }

    ghost predicate Valid()
      reads this, rxQueue, rxQueue.elems, readData, writeData
    {
      Structure() && ReadValid() && WriteValid() && TxValid()
    }

    constructor (queueSize: nat)
      requires queueSize > 0
      ensures Valid() && fresh(rxQueue) && fresh(rxQueue.elems) && fresh(readData) && fresh(writeData)
      ensures emitted == [] && accepted == [] && received == [] && sent == []
    {
      hide Wire, WireAll, Parse, WireLen, Ring.Contents;
      rxQueue := new Ring(queueSize);
      readData, writeData := new Byte[ASM_BUFFER_SIZE], new Byte[ASM_BUFFER_SIZE];
      readPtr, writePtr, writeTailSize := 0, 0, 0;
      emitted, accepted, received, sent := [], [], [], [];
      txQueues, taken := [[], [], []], [[], [], []];
      txBufferOverflow, rxBufferOverflow, safetyTxBlocked := 0, 0, 0;
      offered, outcomes := [], [];
      new;
      ParseEmpty();
      assert WireAll([]) == [] by { WireNothing(); }
      assert readData[..0] == [] && writeData[..0] == [];
    }

    // Start of a connection: partial packets are dropped, queued ones are kept.
    method Reset()
      requires Valid()
      modifies this`writePtr, this`writeTailSize, this`readPtr, this`emitted, this`accepted, this`received, this`sent
      ensures Valid()
      ensures emitted == [] && accepted == rxQueue.Contents() && received == [] && sent == []
      ensures rxQueue.Contents() == old(rxQueue.Contents())
    {
      hide Wire, WireAll, Parse, WireLen, Comms.TxValid, Ring.Contents;
      writePtr, writeTailSize := 0, 0;
      readPtr := 0;
      RestartLogs();
      ParseEmpty();
      assert writeData[..0] == [];
      assert readData[..0] + WireAll(accepted) == WireAll(accepted);
      assert emitted + Pending() == Pending();
    }

    ghost method RestartLogs()
      requires rxQueue.Valid()
      modifies this`emitted, this`accepted, this`received, this`sent
      ensures emitted == [] && accepted == rxQueue.Contents() && received == [] && sent == []
    {
      emitted, accepted, received, sent := [], rxQueue.Contents(), [], [];
    }

    // A packet from the bus, or one bounced by the safety hooks, enters the receive queue.
    method Receive(p: CANPacket) returns (ret: bool)
      requires Structure() && ReadValid()
      modifies this`accepted, rxQueue, rxQueue.elems
      ensures Structure() && ReadValid()
      ensures ret <==> |old(rxQueue.Contents())| < rxQueue.elems.Length - 1
      ensures accepted == if ret then old(accepted) + [p] else old(accepted)
      ensures rxQueue.Contents() == if ret then old(rxQueue.Contents()) + [p] else old(rxQueue.Contents())
    {
      hide Wire, Parse, WireAll, Ring.Contents, Comms.TxValid;
      ghost var queued, pending := rxQueue.Contents(), Pending();
      ret := rxQueue.Push(p);
      if ret {
        WireAllLast(queued, p);
        WireAllLast(accepted, p);
        accepted := accepted + [p];
        Assoc(readData[..readPtr], WireAll(queued), Wire(p));
        Assoc(emitted, pending, Wire(p));
      }
    }

    // Fill data with up to maxLen bytes; fewer only when nothing is left.
    method CanRead(data: array<Byte>, maxLen: nat) returns (pos: nat)
      requires Valid() && maxLen <= data.Length && data != readData && data != writeData
      modifies data, readData, this`readPtr, this`emitted, rxQueue
      ensures Valid()
      ensures pos <= maxLen && forall k :: pos <= k < data.Length ==> data[k] == old(data[k])
      ensures emitted == old(emitted) + data[..pos]
      ensures old(Pending()) == data[..pos] + Pending()
      ensures pos == Min(maxLen, |old(Pending())|)
      ensures pos < maxLen ==> readPtr == 0 && rxQueue.Contents() == []
    {
      hide Wire, Parse, WireAll, Ring.Contents, Comms.TxValid;
      ghost var before := Pending();
      pos := 0;
      if readPtr > 0 {
        pos := SendTail(data, maxLen);
      }
      assert data[..0] + readData[..readPtr] == readData[..readPtr];
      if readPtr == 0 {
        pos := FillFromQueue(data, pos, maxLen);
      }
      Assoc(data[..pos], readData[..readPtr], WireAll(rxQueue.Contents()));
      WireNothing();
      assert before == data[..pos] + Pending();
      Assoc(emitted, data[..pos], Pending());
      emitted := emitted + data[..pos];
    }

    method FillFromQueue(data: array<Byte>, start: nat, maxLen: nat) returns (pos: nat)
      requires Structure() && readPtr == 0 && start <= maxLen <= data.Length
      requires data != readData && data != writeData
      modifies data, readData, this`readPtr, rxQueue
      ensures Structure() && start <= pos <= maxLen
      ensures pos < maxLen ==> readPtr == 0 && rxQueue.Contents() == []
      ensures data[..pos] + readData[..readPtr] + WireAll(rxQueue.Contents())
           == old(data[..start] + readData[..readPtr] + WireAll(rxQueue.Contents()))
      ensures forall k :: pos <= k < data.Length ==> data[k] == old(data[k])
    {
      hide Wire, Parse, WireAll, Ring.Contents, Comms.TxValid;
      pos := start;
      while pos < maxLen
        modifies data, readData, this`readPtr, rxQueue
        invariant Structure() && start <= pos <= maxLen
        invariant pos < maxLen ==> readPtr == 0
        invariant data[..pos] + readData[..readPtr] + WireAll(rxQueue.Contents())
               == old(data[..start] + readData[..readPtr] + WireAll(rxQueue.Contents()))
        invariant forall k :: pos <= k < data.Length ==> data[k] == old(data[k])
        decreases |rxQueue.Contents()|
      {
        ghost var out := data[..pos];
        assert out + readData[..0] == out;
        var ok, p := rxQueue.Pop();
        if !ok {
          break;
        }
        WireAllFirst(p, rxQueue.Contents());
        pos := CopyPacket(p, data, pos, maxLen);
        Assoc(out, Wire(p), WireAll(rxQueue.Contents()));
      }
    }

    method SendTail(data: array<Byte>, maxLen: nat) returns (pos: nat)
      requires Structure() && maxLen <= data.Length && data != readData && data != writeData
      modifies data, readData, this`readPtr
      ensures Structure() && pos <= maxLen && (pos < maxLen ==> readPtr == 0)
      ensures data[..pos] + readData[..readPtr] == old(readData[..readPtr])
      ensures forall k :: pos <= k < data.Length ==> data[k] == old(data[k])
    {
      pos := if maxLen < readPtr then maxLen else readPtr;
      var head, rest := readData[..pos], readData[pos..readPtr];
      assert readData[..readPtr] == head + rest;
      assert data[..0] + head == head && readData[..0] + rest == rest;
      MemCpy(data, 0, head);
      MemCpy(readData, 0, rest);
      readPtr := readPtr - pos;
    }

    method CopyPacket(p: CANPacket, data: array<Byte>, pos: nat, maxLen: nat) returns (pos': nat)
      requires Structure() && readPtr == 0 && pos < maxLen <= data.Length
      requires data != readData && data != writeData
      modifies data, readData, this`readPtr
      ensures Structure() && pos' <= maxLen && (pos' < maxLen ==> readPtr == 0)
      ensures data[..pos'] + readData[..readPtr] == old(data[..pos]) + Wire(p)
      ensures pos <= pos' && forall k :: pos' <= k < data.Length ==> data[k] == old(data[k])
    {
      hide Wire, Comms.Structure, Comms.ReadStructure;
      var w := Wire(p);
      if pos + |w| <= maxLen {
        MemCpy(data, pos, w);
        pos' := pos + |w|;
        assert readData[..readPtr] == [];
        assert data[..pos'] + [] == data[..pos'];
      } else {
        KeepTail(w, data, pos, maxLen);
        pos' := maxLen;
      }
    }

    // The part of a packet that fits, and the rest for the next read.
    method KeepTail(w: seq<Byte>, data: array<Byte>, pos: nat, maxLen: nat)
      requires Structure() && readPtr == 0 && pos < maxLen <= data.Length
      requires maxLen < pos + |w| && |w| <= 70 && data != readData && data != writeData
      modifies data, readData, this`readPtr
      ensures Structure() && data[..maxLen] + readData[..readPtr] == old(data[..pos]) + w
      ensures forall k :: maxLen <= k < data.Length ==> data[k] == old(data[k])
    {
      hide Ring.Valid;
      var room := maxLen - pos;
      var head, rest := w[..room], w[room..];
      Rejoin(data[..pos], w, room);
      MemCpy(data, pos, head);
      readPtr := readPtr + |w| - room;
      MemCpyStart(readData, rest);
    }

    // Take in a chunk of any size.
    method CanWrite(data: seq<Byte>)
      requires Valid()
      modifies this, writeData, rxQueue, rxQueue.elems
      ensures Valid()
      ensures received == old(received) + data
      ensures old(sent) <= sent && old(accepted) <= accepted
      ensures emitted == old(emitted) && readPtr == old(readPtr)
    {
      hide Wire, Parse, WireAll, WireLen, FromWire, Ring.Contents, Comms.TxValid;
      var pos := 0;
      if writePtr != 0 {
        pos := Assemble(data);
      }
      assert received + data[..0] == received;

      while pos < |data|
        invariant 0 <= pos <= |data| && Structure() && ReadValid() && TxValid()
        invariant pos < |data| ==> writePtr == 0
        invariant BufferInStep()
        invariant Parse(received + data[..pos]) == Parsed(sent, writeData[..writePtr])
        invariant received == old(received) && emitted == old(emitted) && readPtr == old(readPtr)
        invariant old(sent) <= sent && old(accepted) <= accepted
      {
        pos := TakePacket(data, pos);
      }
      assert data[..pos] == data;
      received := received + data;
    }

    // One packet, or the unfinished last one, from position pos of a chunk.
    method TakePacket(data: seq<Byte>, pos: nat) returns (pos': nat)
      requires Structure() && ReadValid() && TxValid() && pos < |data| && writePtr == 0 && writeTailSize == 0
      requires Parse(received + data[..pos]) == Parsed(sent, [])
      modifies this`writePtr, this`writeTailSize, this`sent, this`accepted, writeData, rxQueue, rxQueue.elems,
        this`txQueues, this`taken, this`offered, this`outcomes,
        this`txBufferOverflow, this`rxBufferOverflow, this`safetyTxBlocked
      ensures Structure() && ReadValid() && TxValid() && pos < pos' <= |data|
      ensures pos' < |data| ==> writePtr == 0
      ensures BufferInStep()
      ensures Parse(received + data[..pos']) == Parsed(sent, writeData[..writePtr])
      ensures old(sent) <= sent && old(accepted) <= accepted
    {
      hide Wire, Parse, WireAll, WireLen, FromWire, Ring.Contents, Ring.Valid, Comms.TxValid, Comms.ReadValid,
        Comms.Delivered, Comms.Full, OutcomeOf, QueuesAfter, Answer;
      var pcktLen := WireLen(data[pos]);
      ghost var s := received + data[..pos];
      if pos + pcktLen <= |data| {
        var w := data[pos..pos + pcktLen];
        Split(data, pos, pos + pcktLen);
        Assoc(received, data[..pos], w);
        assert [] + w == w;
        ParseFull(s, w);
        var allowed: bool, io: Controller := *, *;
        CanSend(FromWire(w), allowed, io);
        pos' := pos + pcktLen;
        assert writeData[..0] == [];
      } else {
        var t := data[pos..];
        Split(data, pos, |data|);
        Assoc(received, data[..pos], t);
        assert [] + t == t;
        ParsePartial(s, t);
        assert writeData[..0] + t == t;
        MemCpy(writeData, 0, t);
        writePtr := |data| - pos;
        writeTailSize := pcktLen - writePtr;
        assert writeData[..writePtr][0] == t[0];
        pos' := pos + writePtr;
      }
    }

    // Continue the packet in the overflow buffer.
    method Assemble(data: seq<Byte>) returns (pos: nat)
      requires Valid() && writePtr != 0
      modifies this`writePtr, this`writeTailSize, this`sent, this`accepted, writeData, rxQueue, rxQueue.elems,
        this`txQueues, this`taken, this`offered, this`outcomes,
        this`txBufferOverflow, this`rxBufferOverflow, this`safetyTxBlocked
      ensures Structure() && ReadValid() && TxValid() && pos <= |data|
      ensures pos < |data| ==> writePtr == 0
      ensures BufferInStep()
      ensures Parse(received + data[..pos]) == Parsed(sent, writeData[..writePtr])
      ensures old(sent) <= sent && old(accepted) <= accepted
    {
      hide Wire, Parse, WireAll, WireLen, FromWire, Ring.Contents, Ring.Valid, Comms.TxValid, Comms.ReadValid,
        Comms.Delivered, Comms.Full, OutcomeOf, QueuesAfter, Answer;
      ghost var buffered := writeData[..writePtr];
      assert buffered[0] == writeData[0];
      if writeTailSize <= |data| {
        pos := writeTailSize;
        MemCpy(writeData, writePtr, data[..pos]);
        writePtr := writePtr + writeTailSize;
        ParseFull(received, data[..pos]);
        var allowed: bool, io: Controller := *, *;
        CanSend(FromWire(writeData[..writePtr]), allowed, io);
        writePtr, writeTailSize := 0, 0;
        assert writeData[..0] == [];
      } else {
        Extend(data);
        pos := |data|;
        assert data[..pos] == data;
      }
    }

    // Not enough to complete the stored packet.
    method Extend(data: seq<Byte>)
      requires Structure() && WriteValid() && writePtr != 0 && |data| < writeTailSize
      modifies this`writePtr, this`writeTailSize, writeData
      ensures Structure() && BufferInStep() && writePtr != 0
      ensures Parse(received + data) == Parsed(sent, writeData[..writePtr])
    {
      hide Parse, WireLen, Ring.Valid;
      ghost var buffered := writeData[..writePtr];
      assert buffered[0] == writeData[0];
      MemCpy(writeData, writePtr, data);
      writeTailSize := writeTailSize - |data|;
      writePtr := writePtr + |data|;
      assert writeData[..writePtr][0] == buffered[0];
      ParsePartial(received, data);
    }

    // can_send: an allowed packet is queued on its bus, if there is such a bus and room, and the
    // controller may take one at once; one that the safety hooks refuse comes back to the host, marked
    // as rejected and with a new checksum. The verdict of the hooks and the controller can be any.
    method CanSend(p: CANPacket, allowed: bool, io: Controller)
      requires Structure() && ReadValid() && TxValid()
      modifies this`sent, this`accepted, rxQueue, rxQueue.elems,
        this`txQueues, this`taken, this`offered, this`outcomes,
        this`txBufferOverflow, this`rxBufferOverflow, this`safetyTxBlocked
      ensures Structure() && ReadValid() && TxValid()
      ensures sent == old(sent) + [p] && offered == old(offered) + [p] && old(accepted) <= accepted
      ensures outcomes == old(outcomes) + [OutcomeOf(p, allowed, old(txQueues))]
      ensures txQueues == QueuesAfter(p, allowed, io, old(txQueues))
      ensures Delivered(old(accepted), old(rxBufferOverflow), old(Full()), Answer(p, allowed, io, old(txQueues)))
    {
      hide Comms.TxValid, Comms.ReadValid, Comms.Structure, Comms.Full, Bounced, Echoes, Enqueued, Tail;
      sent := sent + [p];
      if allowed {
        Transmit(p, io);
      } else {
        CountBlocked(p);
        ToHost(Bounced(p));
      }
    }

    method Transmit(p: CANPacket, io: Controller)
      requires Structure() && ReadValid() && TxValid()
      modifies this`accepted, rxQueue, rxQueue.elems,
        this`txQueues, this`taken, this`offered, this`outcomes, this`txBufferOverflow, this`rxBufferOverflow
      ensures Structure() && ReadValid() && TxValid()
      ensures offered == old(offered) + [p] && outcomes == old(outcomes) + [OutcomeOf(p, true, old(txQueues))]
      ensures txQueues == QueuesAfter(p, true, io, old(txQueues))
      ensures Delivered(old(accepted), old(rxBufferOverflow), old(Full()), Answer(p, true, io, old(txQueues)))
    {
      hide Comms.TxValid, Comms.ReadValid, Comms.Structure, Comms.Full, Echoes, Enqueued, Tail, Bounced;
      if p.bus < BUS_CNT {
        var n := QueueLength(p.bus);
        Enqueue(p);
        ProcessCan(p.bus, io);
      } else {
        Ignore(p);
      }
    }

    // No room is left for another packet to the host.
    ghost predicate Full()
      requires rxQueue.Valid()
      reads rxQueue, rxQueue.elems
    {
      |rxQueue.Contents()| >= rxQueue.elems.Length - 1
    }

    // At most one packet went to the host: it was accepted, or counted as lost if there was no room.
    ghost predicate Delivered(earlier: seq<CANPacket>, lost: nat, full: bool, ps: seq<CANPacket>)
      reads this`accepted, this`rxBufferOverflow
    {
      && accepted == (if full then earlier else earlier + ps)
      && rxBufferOverflow == (if full && ps != [] then (lost + 1) % U32 else lost)
    }

    method ToHost(p: CANPacket)
      requires Structure() && ReadValid()
      modifies this`accepted, this`rxBufferOverflow, rxQueue, rxQueue.elems
      ensures Structure() && ReadValid()
      ensures Delivered(old(accepted), old(rxBufferOverflow), old(Full()), [p])
      ensures
        if |old(rxQueue.Contents())| + 1 < rxQueue.elems.Length
        then accepted == old(accepted) + [p] && rxBufferOverflow == old(rxBufferOverflow)
        else accepted == old(accepted) && rxBufferOverflow == (old(rxBufferOverflow) + 1) % 0x1_0000_0000
    {
      hide Comms.ReadValid, Ring.Contents;
      var pushed := Receive(p);
      if !pushed {
        rxBufferOverflow := (rxBufferOverflow + 1) % U32;
      }
    }

    method CountBlocked(p: CANPacket)
      requires TxValid()
      modifies this`offered, this`outcomes, this`safetyTxBlocked
      ensures TxValid() && |txQueues| == BUS_CNT
      ensures offered == old(offered) + [p] && outcomes == old(outcomes) + [Blocked]
    {
      hide OnBus, Count;
      Offer(p, Blocked);
      safetyTxBlocked := (safetyTxBlocked + 1) % U32;
      WrapAdd(Count(old(outcomes), Blocked));
    }

    // A packet for a bus that does not exist.
    ghost method Ignore(p: CANPacket)
      requires TxValid() && p.bus >= BUS_CNT
      modifies this`offered, this`outcomes
      ensures TxValid() && |txQueues| == BUS_CNT
      ensures offered == old(offered) + [p] && outcomes == old(outcomes) + [NoBus]
    {
      hide OnBus, Count;
      Offer(p, NoBus);
    }

    method Enqueue(p: CANPacket)
      requires TxValid() && p.bus < BUS_CNT
      modifies this`txQueues, this`offered, this`outcomes, this`txBufferOverflow
      ensures TxValid() && offered == old(offered) + [p]
      ensures outcomes == old(outcomes) + [OutcomeOf(p, true, old(txQueues))]
      ensures txQueues == old(txQueues)[p.bus := Enqueued(p, old(txQueues)[p.bus])]
    {
      hide OnBus, Count;
      if |txQueues[p.bus]| < TX_BUFFER_SIZE - 1 {
        Offer(p, Queued);
        txQueues := txQueues[p.bus := txQueues[p.bus] + [p]];
        assert taken[p.bus] + txQueues[p.bus] == (taken[p.bus] + old(txQueues)[p.bus]) + [p];
      } else {
        Offer(p, Overflowed);
        txBufferOverflow := (txBufferOverflow + 1) % U32;
        WrapAdd(Count(old(outcomes), Overflowed));
      }
    }

    // Record a packet and what becomes of it.
    ghost method Offer(p: CANPacket, o: Outcome)
      requires |outcomes| == |offered|
      modifies this`offered, this`outcomes
      ensures offered == old(offered) + [p] && outcomes == old(outcomes) + [o]
      ensures forall b ::
        OnBus(offered, outcomes, b)
        == OnBus(old(offered), old(outcomes), b) + (if o == Queued && p.bus == b then [p] else [])
      ensures forall x :: Count(outcomes, x) == Count(old(outcomes), x) + (if x == o then 1 else 0)
    {
      offered, outcomes := offered + [p], outcomes + [o];
      assert offered[..|offered| - 1] == old(offered) && outcomes[..|outcomes| - 1] == old(outcomes);
    }

    // process_can: a controller with a free mailbox takes the oldest packet of its queue. One with a
    // right checksum goes out, and a copy marked as returned goes to the host.
    method ProcessCan(bus: nat, io: Controller)
      requires Structure() && ReadValid() && TxValid() && bus < BUS_CNT
      modifies this`txQueues, this`taken, this`accepted, this`rxBufferOverflow, rxQueue, rxQueue.elems
      ensures Structure() && ReadValid() && TxValid()
      ensures txQueues == old(txQueues)[bus := if io.free then Tail(old(txQueues)[bus]) else old(txQueues)[bus]]
      ensures Delivered(old(accepted), old(rxBufferOverflow), old(Full()), Echoes(bus, io, old(txQueues)[bus]))
    {
      hide Comms.Structure, Comms.ReadValid, Comms.TxValid, Comms.Full, CheckChecksum, Echo;
      var n := QueueLength(bus);
      assert txQueues[bus := txQueues[bus]] == txQueues;
      if io.free && n > 0 {
        var toSend := Take(bus);
        if CheckChecksum(toSend) {
          ToHost(Echo(toSend, bus, io.stale));
        }
      }
    }

    function QueueLength(bus: nat): (n: nat)
      requires TxValid() && bus < BUS_CNT
      reads this`offered, this`outcomes, this`taken, this`txQueues, this`txBufferOverflow, this`safetyTxBlocked
      ensures |txQueues| == BUS_CNT && n == |txQueues[bus]|
    {
      |txQueues[bus]|
    }

    method Take(bus: nat) returns (p: CANPacket)
      requires TxValid() && bus < BUS_CNT && txQueues[bus] != []
      modifies this`txQueues, this`taken
      ensures TxValid() && p == old(txQueues)[bus][0]
      ensures txQueues == old(txQueues)[bus := old(txQueues)[bus][1..]]
    {
      hide OnBus, Count;
      p := txQueues[bus][0];
      taken := taken[bus := taken[bus] + [p]];
      txQueues := txQueues[bus := txQueues[bus][1..]];
      assert taken[bus] + txQueues[bus] == old(taken)[bus] + old(txQueues)[bus];
    }
  }

  lemma WireNothing()
    ensures WireAll([]) == []
  {
  }

  const BUS_CNT := 3
  const TX_BUFFER_SIZE := 416

  datatype Outcome = Queued | Overflowed | NoBus | Blocked

  // Whether the controller has a free mailbox, and what is left on the stack where the copy for the
  // host is put together.
  datatype Controller = Controller(free: bool, stale: CANPacket)

  function OutcomeOf(p: CANPacket, allowed: bool, queues: seq<seq<CANPacket>>): Outcome
    requires |queues| == BUS_CNT
  {
    if !allowed then Blocked
    else if p.bus >= BUS_CNT then NoBus
    else if |queues[p.bus]| < TX_BUFFER_SIZE - 1 then Queued
    else Overflowed
  }

  function Enqueued(p: CANPacket, queue: seq<CANPacket>): seq<CANPacket> {
    if |queue| < TX_BUFFER_SIZE - 1 then queue + [p] else queue
  }

  function Tail(queue: seq<CANPacket>): seq<CANPacket> {
    if queue == [] then [] else queue[1..]
  }

  // The transmit queues after one packet was handed over.
  function QueuesAfter(p: CANPacket, allowed: bool, io: Controller, queues: seq<seq<CANPacket>>): seq<seq<CANPacket>>
    requires |queues| == BUS_CNT
  {
    if !allowed || p.bus >= BUS_CNT then queues
    else
      var queue := Enqueued(p, queues[p.bus]);
      queues[p.bus := if io.free then Tail(queue) else queue]
  }

  // What the host hears of the packet a controller takes from a queue.
  function Echoes(bus: nat, io: Controller, queue: seq<CANPacket>): seq<CANPacket>
    requires bus < BUS_CNT
  {
    if io.free && queue != [] && CheckChecksum(queue[0]) then [Echo(queue[0], bus, io.stale)] else []
  }

  // What the host hears of handing over one packet.
  function Answer(p: CANPacket, allowed: bool, io: Controller, queues: seq<seq<CANPacket>>): seq<CANPacket>
    requires |queues| == BUS_CNT
  {
    if !allowed then [Bounced(p)]
    else if p.bus >= BUS_CNT then []
    else Echoes(p.bus, io, Enqueued(p, queues[p.bus]))
  }

  // What becomes of one packet, in full: refused and returned; ignored for want of such a bus; or put
  // behind the packets waiting for its bus, unless 415 wait there, whereupon a free mailbox takes the
  // oldest of them, and an echo of that one goes to the host if its checksum is right.
  lemma HandedOver(p: CANPacket, allowed: bool, io: Controller, queues: seq<seq<CANPacket>>)
    requires |queues| == 3
    ensures
      var outcome, after := OutcomeOf(p, allowed, queues), QueuesAfter(p, allowed, io, queues);
      var answer := Answer(p, allowed, io, queues);
      if !allowed then outcome == Blocked && after == queues && answer == [Bounced(p)]
      else if p.bus >= 3 then outcome == NoBus && after == queues && answer == []
      else
        var room := |queues[p.bus]| < 415;
        var waiting := if room then queues[p.bus] + [p] else queues[p.bus];
        && outcome == (if room then Queued else Overflowed)
        && after == queues[p.bus := if io.free then waiting[1..] else waiting]
        && answer == if io.free && CheckChecksum(waiting[0]) then [Echo(waiting[0], p.bus, io.stale)] else []
  {
    hide CheckChecksum, Echo, Bounced;
  }

  // The same CAN frame, whatever the other fields of the packet say.
  predicate SameFrame(p: CANPacket, q: CANPacket) {
    p.addr == q.addr && p.extended == q.extended && p.dataLenCode == q.dataLenCode && p.Body() == q.Body()
  }

  // The copy of a sent packet. Its reserved bit and the unused part of its data are never written.
  function Echo(p: CANPacket, bus: nat, stale: CANPacket): (e: CANPacket)
    requires bus < BUS_CNT
    ensures e.returned && !e.rejected && e.bus == bus && SameFrame(e, p) && CheckChecksum(e)
  {
    var e := CANPacket(stale.reserved, bus, p.dataLenCode, false, true, p.extended, p.addr, 0,
                       p.Body() + stale.data[p.Len()..]);
    SetChecksumChecks(e);
    SetChecksum(e)
  }

  // The packets queued on one bus, in order.
  ghost function OnBus(ps: seq<CANPacket>, os: seq<Outcome>, bus: int): seq<CANPacket>
    requires |ps| == |os|
  {
    if ps == [] then []
    else
      var k := |ps| - 1;
      OnBus(ps[..k], os[..k], bus) + if os[k] == Queued && ps[k].bus == bus then [ps[k]] else []
  }

  ghost function Count(os: seq<Outcome>, o: Outcome): nat {
    if os == [] then 0 else Count(os[..|os| - 1], o) + if os[|os| - 1] == o then 1 else 0
  }

  // Every packet handed over is counted once: as queued on one of the buses, lost, ignored or refused.
  lemma {:induction false} AllAccounted(ps: seq<CANPacket>, os: seq<Outcome>)
    requires |ps| == |os| && forall i :: 0 <= i < |os| && os[i] == Queued ==> ps[i].bus < 3
    ensures
      |ps| == |OnBus(ps, os, 0)| + |OnBus(ps, os, 1)| + |OnBus(ps, os, 2)|
              + Count(os, Overflowed) + Count(os, NoBus) + Count(os, Blocked)
  {
    if ps == [] {
      NothingCounted();
    } else {
      hide OnBus, Count;
      var k := |ps| - 1;
      AllAccounted(ps[..k], os[..k]);
      LastOnBus(ps, os, 0);
      LastOnBus(ps, os, 1);
      LastOnBus(ps, os, 2);
      LastCounted(os, Overflowed);
      LastCounted(os, NoBus);
      LastCounted(os, Blocked);
    }
  }

  lemma NothingCounted()
    ensures forall b :: OnBus([], [], b) == []
    ensures forall o :: Count([], o) == 0
  {
  }

  lemma LastOnBus(ps: seq<CANPacket>, os: seq<Outcome>, bus: nat)
    requires |ps| == |os| > 0
    ensures
      var k := |ps| - 1;
      |OnBus(ps, os, bus)| == |OnBus(ps[..k], os[..k], bus)| + if os[k] == Queued && ps[k].bus == bus then 1 else 0
  {
  }

  lemma LastCounted(os: seq<Outcome>, o: Outcome)
    requires os != []
    ensures Count(os, o) == Count(os[..|os| - 1], o) + if os[|os| - 1] == o then 1 else 0
  {
  }

  // The packets queued on a bus are among those handed over for it, and none of those is missing.
  lemma {:induction false} QueuedOnBus(ps: seq<CANPacket>, os: seq<Outcome>, bus: nat, p: CANPacket)
    requires |ps| == |os|
    ensures p in OnBus(ps, os, bus) <==> exists i :: 0 <= i < |ps| && ps[i] == p && os[i] == Queued && p.bus == bus
  {
    if ps != [] {
      var k := |ps| - 1;
      QueuedOnBus(ps[..k], os[..k], bus, p);
      if p in OnBus(ps[..k], os[..k], bus) {
        var i :| 0 <= i < k && ps[..k][i] == p && os[..k][i] == Queued && p.bus == bus;
        assert ps[i] == p && os[i] == Queued;
      }
    }
  }

  // Later packets queue behind earlier ones.
  lemma {:induction false} QueuesInOrder(ps: seq<CANPacket>, os: seq<Outcome>, n: nat, bus: int)
    requires |ps| == |os| && n <= |ps|
    ensures OnBus(ps[..n], os[..n], bus) <= OnBus(ps, os, bus)
  {
    if n == |ps| {
      assert ps[..n] == ps && os[..n] == os;
    } else {
      var k := |ps| - 1;
      QueuesInOrder(ps[..k], os[..k], n, bus);
      assert ps[..k][..n] == ps[..n] && os[..k][..n] == os[..n];
    }
  }

  lemma WrapAdd(n: nat)
    ensures (n % U32 + 1) % U32 == (n + 1) % U32
  {
  }

  function Bounced(p: CANPacket): (b: CANPacket)
    ensures b.rejected && !b.returned && b.bus == p.bus && SameFrame(b, p) && CheckChecksum(b)
  {
    SetChecksumChecks(p.(returned := false, rejected := true));
    SetChecksum(p.(returned := false, rejected := true))
  }

  lemma WireAllLast(ps: seq<CANPacket>, p: CANPacket)
    ensures WireAll(ps + [p]) == WireAll(ps) + Wire(p)
  {
    hide Wire;
    assert (ps + [p])[..|ps + [p]| - 1] == ps;
  }

  lemma {:induction false} WireAllFirst(p: CANPacket, ps: seq<CANPacket>)
    ensures WireAll([p] + ps) == Wire(p) + WireAll(ps)
  {
    hide Wire;
    WireAllConcat([p], ps);
    assert [p][..0] == [];
    assert WireAll([p]) == [] + Wire(p) == Wire(p);
  }

  // A chunk that completes the unfinished packet.
  lemma ParseFull(s: seq<Byte>, t: seq<Byte>)
    requires IsWire(Parse(s).rest + t)
    ensures Parse(s + t) == Parsed(Parse(s).packets + [FromWire(Parse(s).rest + t)], [])
  {
    hide FromWire;
    var w := Parse(s).rest + t;
    ParseContinues(s, t);
    assert w[..|w|] == w && w[|w|..] == [];
    ParseEmpty();
    assert Parse(w) == Parsed([FromWire(w)] + [], []);
  }

  // A chunk that does not.
  lemma ParsePartial(s: seq<Byte>, t: seq<Byte>)
    requires var w := Parse(s).rest + t; w == [] || |w| < WireLen(w[0])
    ensures Parse(s + t) == Parsed(Parse(s).packets, Parse(s).rest + t)
  {
    ParseContinues(s, t);
  }
}
