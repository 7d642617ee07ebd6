// The interrupt-safe packet queue (board/drivers/can_common.h). One slot always stays free, so that
// equal pointers mean an empty queue. Each operation runs inside a critical section, so it is one step.
module CanRing {
  import opened Bytes
  import opened CanPacket

  const EMPTY_PACKET := CANPacket(false, 0, 0, false, false, false, 0, 0, Zeros(64))

  class Ring {
    const elems: array<CANPacket>
    var wPtr: nat
    var rPtr: nat

    ghost predicate Valid()
      reads this
    {
      wPtr < elems.Length && rPtr < elems.Length
    }

    // The queued packets, oldest first.
    ghost function Contents(): (s: seq<CANPacket>)
      requires Valid()
      reads this, elems
    {
      if rPtr <= wPtr then elems[rPtr..wPtr] else elems[rPtr..] + elems[..wPtr]
    }

    constructor (fifoSize: nat)
      requires fifoSize > 0
      ensures Valid() && fresh(elems) && elems.Length == fifoSize && Contents() == []
    {
      elems := new CANPacket[fifoSize](_ => EMPTY_PACKET);
      wPtr, rPtr := 0, 0;
    }

    method Pop() returns (ret: bool, elem: CANPacket)
      requires Valid()
      modifies this
      ensures Valid()
      ensures ret <==> old(Contents()) != []
      ensures ret ==> old(Contents()) == [elem] + Contents()
      ensures !ret ==> Contents() == old(Contents())
    {
      ret, elem := false, EMPTY_PACKET;
      if wPtr != rPtr {
        elem := elems[rPtr];
        if rPtr + 1 == elems.Length {
          rPtr := 0;
        } else {
          rPtr := rPtr + 1;
        }
        ret := true;
      }
    }

    method Push(elem: CANPacket) returns (ret: bool)
      requires Valid()
      modifies this, elems
      ensures Valid()
      ensures ret <==> |old(Contents())| < elems.Length - 1
      ensures Contents() == if ret then old(Contents()) + [elem] else old(Contents())
    {
      ret := false;
      var nextWPtr := if wPtr + 1 == elems.Length then 0 else wPtr + 1;
      if nextWPtr != rPtr {
        elems[wPtr] := elem;
        wPtr := nextWPtr;
        ret := true;
      }
    }

    method SlotsEmpty() returns (ret: nat)
      requires Valid()
      ensures ret == elems.Length - 1 - |Contents()|
    {
      if wPtr >= rPtr {
        ret := elems.Length - 1 - wPtr + rPtr;
      } else {
        ret := rPtr - wPtr - 1;
      }
    }

    method Clear()
      requires Valid()
      modifies this
      ensures Valid() && Contents() == []
    {
      wPtr, rPtr := 0, 0;
    }
  }
}
