// Frames that an ISO-TP endpoint refuses or ignores, and messages with lost, doubled or reordered
// consecutive frames (python/uds.py).
module IsoTpFaults {
  import opened Bytes
  import opened IsoTp
  import opened IsoTpTransfer

  // ---- Single frames out of place ----

  // A consecutive frame with any other number than the next one is refused and adds nothing.
  lemma WrongNumberRefused(e: Endpoint, f: CanData)
    requires e.maxLen >= 2 && InStep(e) && f != [] && f[0] / 16 == 2 && f[0] % 16 != (e.rxIdx + 1) % 16
    ensures
      var r := RxNext(e, f);
      r.status == AssertionError && r.out == [] && r.state.rxDat == e.rxDat && r.state.rxDone == e.rxDone
  {
  }

  // A new message does not replace one in progress, and no consecutive frame extends a finished one.
  lemma OutOfPlaceRefused(e: Endpoint, f: CanData)
    requires e.maxLen >= 2 && InStep(e) && f != []
    requires if e.rxDone then f[0] / 16 == 2 else e.rxDat != [] && f[0] / 16 <= 1
    ensures RxNext(e, f) == Reaction(AssertionError, e, [])
  {
  }

  // A first frame is taken exactly if it has full length and announces more than one frame holds; the
  // receiver answers with the one flow control frame it ever sends.
  lemma FirstFrameTaken(e: Endpoint, f: CanData)
    requires e.maxLen >= 2 && InStep(e) && |f| >= 2 && f[0] / 16 == 1 && (e.rxDat == [] || e.rxDone)
    ensures
      var first: int := f[0];
      var n, r := (first - 16) * 256 + f[1], RxNext(e, f);
      if n >= e.maxLen && |f| == e.maxLen then
        && r.status == First && r.state == e.(rxLen := n, rxDat := f[2..], rxIdx := 0, rxDone := false)
        && |r.out| == 1 && r.out[0][..3] == [0x30, if e.singleFrameMode then 1 else 0, e.separationTime]
      else r.status == AssertionError && r.out == [] && r.state == e.(rxLen := n)
  {
  }

  // A single frame is taken exactly if its length fits; it carries that many bytes, if it has them.
  lemma SingleFrameTaken(e: Endpoint, f: CanData)
    requires e.maxLen >= 2 && InStep(e) && f != [] && f[0] < 16 && (e.rxDat == [] || e.rxDone)
    ensures
      var r := RxNext(e, f);
      && r.out == []
      && if f[0] < e.maxLen then
           && r.status == Single && r.state.rxDone
           && (|f| > f[0] ==> r.state.rxDat == f[1..1 + f[0]]) && (|f| <= f[0] ==> r.state.rxDat == f[1..])
         else r.status == AssertionError && r.state == e.(rxLen := f[0])
  {
  }

  // A wait frame sends nothing and changes nothing; every other flow control frame but clear-to-send,
  // and any of them when everything has been sent, is refused.
  lemma FlowOutcomes(e: Endpoint, f: CanData)
    requires e.maxLen >= 2 && InStep(e) && IsFlow(f)
    ensures f[0] == 0x31 && !e.txDone ==> RxNext(e, f) == Reaction(Flow, e, [])
    ensures e.txDone || (f[0] != 0x30 && f[0] != 0x31) ==> RxNext(e, f) == Reaction(AssertionError, e, [])
    ensures f[0] == 0x30 && !e.txDone && |f| < 3 ==> RxNext(e, f) == Reaction(IndexError, e, [])
  {
  }

  // Frames of no known type, and empty ones, are refused and change nothing.
  lemma UnknownFrames(e: Endpoint, f: CanData)
    requires e.maxLen >= 2 && InStep(e)
    ensures f == [] ==> RxNext(e, f) == Reaction(IndexError, e, [])
    ensures f != [] && f[0] >= 0x40 ==> RxNext(e, f) == Reaction(InvalidFrameType, e, [])
  {
  }

  // ---- Lost, doubled and reordered frames ----

  // A receiver of p after its first frame and k consecutive frames in order.
  ghost predicate Receiving(b: Endpoint, p: seq<Byte>, k: nat) {
    && 3 < b.maxLen <= 8 && |p| >= b.maxLen && InStep(b)
    && b.rxLen == |p| && b.rxIdx == k && b.rxDat == p[..Progress(b.maxLen, |p|, k)] && b.rxDone == (b.rxDat == p)
  }

  type FrameNumber = j: nat | j > 0 witness 1

  datatype Delivery = Delivery(receiver: Endpoint, failed: bool)

  // Consecutive frames of p arrive with these numbers, counted from 1, until the receiver fails.
  function Deliver(b: Endpoint, p: seq<Byte>, js: seq<FrameNumber>): (d: Delivery)
    requires b.maxLen >= 2 && InStep(b)
    ensures d.receiver.maxLen == b.maxLen && InStep(d.receiver)
  {
    if js == [] then Delivery(b, false)
    else
      var d := Deliver(b, p, js[..|js| - 1]);
      if d.failed then d
      else
        var r := RxNext(d.receiver, ConsecutiveFrame(b.maxLen, p, js[|js| - 1]));
        Delivery(r.state, r.status.Failed())
  }

  // Frame number i of a message still carries data.
  predicate Needed(m: nat, p: seq<Byte>, n: nat)
    requires m >= 2
  {
    n == 0 || Offset(m, n - 1) < |p|
  }

  lemma NeededBefore(m: nat, p: seq<Byte>, n: nat)
    requires m >= 2 && n > 0 && Needed(m, p, n)
    ensures Needed(m, p, n - 1)
  {
    if n > 1 {
      OffsetMonotone(m, n - 2, n - 1);
    }
  }

  // A receiver that has k frames takes any frame whose number agrees modulo 16 as the next one, and
  // fails at all others.
  lemma NextNumber(b: Endpoint, p: seq<Byte>, k: nat, j: nat)
    requires Receiving(b, p, k) && Offset(b.maxLen, k) < |p| && j > 0
    ensures
      var r := RxNext(b, ConsecutiveFrame(b.maxLen, p, j));
      && r.status == (if j % 16 == (k + 1) % 16 then Consecutive else AssertionError)
      && (r.status == AssertionError ==> r.state.rxDat == b.rxDat && r.state.rxDone == b.rxDone)
      && (j == k + 1 ==> Receiving(r.state, p, k + 1))
  {
    hide Progress, Slice, LJust;
    NotDoneYet(b, p, k);
    NumberOfFrame(b.maxLen, p, j);
    if j == k + 1 {
      Accept(b, p);
    }
  }

  lemma NotDoneYet(b: Endpoint, p: seq<Byte>, k: nat)
    requires Receiving(b, p, k) && Offset(b.maxLen, k) < |p|
    ensures !b.rxDone
  {
  }

  lemma NumberOfFrame(m: nat, p: seq<Byte>, j: FrameNumber)
    requires 3 < m <= 8
    ensures var f := ConsecutiveFrame(m, p, j); f != [] && f[0] / 16 == 2 && f[0] % 16 == j % 16
  {
    hide LJust, Slice;
  }

  // As long as the frames arrive in order, the receiver has a prefix; at the first frame that is less
  // than 16 places off, because one was lost, doubled or overtaken, it fails with that prefix.
  lemma {:induction false} FaultsDetected(b: Endpoint, p: seq<Byte>, js: seq<FrameNumber>)
    requires Receiving(b, p, 0) && Needed(b.maxLen, p, |js|)
    requires forall i :: 0 <= i < |js| ==> -16 < js[i] - (i + 1) < 16
    ensures
      var d := Deliver(b, p, js);
      && (d.failed <==> exists i :: 0 <= i < |js| && js[i] != i + 1)
      && (!d.failed ==> Receiving(d.receiver, p, |js|))
      && d.receiver.rxDat <= p && (d.receiver.rxDone ==> d.receiver.rxDat == p)
  {
    hide RxNext, ConsecutiveFrame, Receiving;
    ReceivedPrefix(b, p, 0);
    if js != [] {
      var n := |js| - 1;
      var past := js[..n];
      NeededBefore(b.maxLen, p, |js|);
      FaultsDetected(b, p, past);
      var d := Deliver(b, p, past);
      assert d.failed ==> exists i :: 0 <= i < n && past[i] != i + 1 && js[i] == past[i];
      if !d.failed {
        assert forall i :: 0 <= i < n ==> js[i] == past[i] == i + 1;
        NextNumber(d.receiver, p, n, js[n]);
        SameModulo(js[n], n + 1);
        ReceivedPrefix(d.receiver, p, n);
        if js[n] == n + 1 {
          ReceivedPrefix(Deliver(b, p, js).receiver, p, n + 1);
        }
      }
    }
  }

  lemma SameModulo(x: nat, y: nat)
    requires -16 < x - y < 16
    ensures x % 16 == y % 16 <==> x == y
  {
  }

  lemma ReceivedPrefix(b: Endpoint, p: seq<Byte>, k: nat)
    requires Receiving(b, p, k)
    ensures b.maxLen >= 2 && InStep(b) && b.rxDat <= p && (b.rxDone ==> b.rxDat == p)
  {
  }

  // The first frame of a message puts any idle receiver into that position.
  lemma FirstFrameStarts(b: Endpoint, p: seq<Byte>)
    requires 3 < b.maxLen <= 8 && b.maxLen <= |p| <= 4095 && InStep(b) && (b.rxDat == [] || b.rxDone)
    ensures var r := RxNext(b, FirstFrame(b.maxLen, p)); r.status == First && Receiving(r.state, p, 0)
  {
    var m := b.maxLen;
    var f := FirstFrame(m, p);
    assert f == [0x10 + |p| / 256, |p| % 256] + p[..m - 2];
    assert f[2..] == p[..m - 2];
  }

  // Sixteen frames lost in a row are not noticed: the receiver takes the frame after them as the next
  // one. So a check modulo 16 cannot do better.
  lemma SixteenLostUnnoticed(b: Endpoint, p: seq<Byte>)
    requires Receiving(b, p, 0)
    ensures !Deliver(b, p, [17]).failed
  {
    hide RxNext, ConsecutiveFrame;
    assert Offset(b.maxLen, 0) < |p|;
    NextNumber(b, p, 0, 17);
    assert [17][..0] == [];
  }
}
