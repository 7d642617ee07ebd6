// Whole transfers between two ISO-TP endpoints over in-order channels (python/uds.py).
module IsoTpTransfer {
  import opened Bytes
  import opened IsoTp

  // Endpoint a sends, b receives; the channels hold the frames in flight, oldest first.
  datatype System = System(a: Endpoint, b: Endpoint, ab: seq<CanData>, ba: seq<CanData>, failed: bool)

  // Deliver the oldest frame towards b.
  function ToB(s: System): System
    requires s.ab != [] && s.ab[0] != [] && s.b.maxLen >= 2 && InStep(s.b)
  {
    var r := RxNext(s.b, s.ab[0]);
    s.(b := r.state, ab := s.ab[1..], ba := s.ba + r.out, failed := s.failed || r.status.Failed())
  }

  // Deliver the oldest frame towards a.
  function ToA(s: System): System
    requires s.ba != [] && s.ba[0] != [] && s.a.maxLen >= 2 && InStep(s.a)
  {
    var r := RxNext(s.a, s.ba[0]);
    s.(a := r.state, ba := s.ba[1..], ab := s.ab + r.out, failed := s.failed || r.status.Failed())
  }

  // How much of the payload the receiver has after j consecutive frames.
  function Progress(maxLen: nat, n: nat, j: nat): (k: nat)
    requires maxLen >= 2
    ensures k <= n
  {
    if Offset(maxLen, j) < n then Offset(maxLen, j) else n
  }

  // The consecutive frames from number i + 1 to number j.
  function Frames(maxLen: nat, p: seq<Byte>, i: nat, j: nat): (fs: seq<CanData>)
    requires maxLen >= 2 && i <= j
    ensures |fs| == j - i
  {
    seq(j - i, k requires 0 <= k < j - i => ConsecutiveFrame(maxLen, p, i + 1 + k))
  }

  // The receiver takes block size 1 or 0 from its single frame mode.
  predicate Compatible(a: Endpoint, b: Endpoint, p: seq<Byte>) {
    && 3 < a.maxLen <= 8 && b.maxLen == a.maxLen && |p| <= 4095
    && InStep(b) && (b.rxDat == [] || b.rxDone)
  }

  // a has called send(p); b has no message in progress.
  function Initial(a: Endpoint, b: Endpoint, p: seq<Byte>): System
    requires Compatible(a, b, p)
  {
    System(StartState(a, p), b, [FirstFrame(a.maxLen, p)], [], false)
  }

  ghost predicate SenderHolds(s: System, p: seq<Byte>) {
    && !s.failed
    && 3 < s.a.maxLen <= 8 && s.b.maxLen == s.a.maxLen
    && InStep(s.a) && InStep(s.b)
    && s.a.txDat == p && s.a.txLen == |p| <= 4095
  }

  // The first frame is still on its way.
  ghost predicate Starting(s: System, p: seq<Byte>)
    requires SenderHolds(s, p)
  {
    && s.ab == [FirstFrame(s.a.maxLen, p)] && s.ba == []
    && (s.b.rxDat == [] || s.b.rxDone)
    && s.a.txIdx == 0 && s.a.txDone == (|p| < s.a.maxLen)
  }

  // A single frame was delivered.
  ghost predicate SingleDone(s: System, p: seq<Byte>)
    requires SenderHolds(s, p)
  {
    |p| < s.a.maxLen && s.ab == [] && s.ba == [] && s.a.txDone && s.b.rxDone && s.b.rxDat == p
  }

  // The receiver has an exact prefix; the frames in flight are the next ones; no frame without
  // data was ever sent; the done flags say exactly what is complete.
  ghost predicate Transferring(s: System, p: seq<Byte>)
    requires SenderHolds(s, p)
  {
    var m, n := s.a.maxLen, |p|;
    && n >= m
    && s.b.rxLen == n
    && s.b.rxDat == p[..Progress(m, n, s.b.rxIdx)]
    && s.b.rxDone == (s.b.rxDat == p)
    && s.b.rxIdx <= s.a.txIdx
    && (s.a.txIdx > 0 ==> Offset(m, s.a.txIdx - 1) < n)
    && s.a.txDone == (Offset(m, s.a.txIdx) >= n)
    && s.ab == Frames(m, p, s.b.rxIdx, s.a.txIdx)
    && (s.ba == [] || (s.ba == [FlowControlMsg(s.b)] && s.ab == [] && !s.a.txDone))
    && (s.ba == [] && s.ab == [] ==> s.a.txDone)
    && (s.b.singleFrameMode ==> |s.ab| <= 1)
    && (!s.b.singleFrameMode && s.ba == [] ==> s.a.txDone)
  }

  ghost predicate Invariant(s: System, p: seq<Byte>) {
    SenderHolds(s, p) && (Starting(s, p) || SingleDone(s, p) || Transferring(s, p))
  }

  lemma InitialInvariant(a: Endpoint, b: Endpoint, p: seq<Byte>)
    requires Compatible(a, b, p)
    ensures Invariant(Initial(a, b, p), p)
  {
    hide FirstFrame;
  }

  // A single frame carries the whole payload.
  lemma SingleStep(s: System, p: seq<Byte>)
    requires SenderHolds(s, p) && Starting(s, p) && |p| < s.a.maxLen
    ensures s.ab[0] != [] && SenderHolds(ToB(s), p) && SingleDone(ToB(s), p)
  {
    var f := FirstFrame(s.a.maxLen, p);
    assert f == [|p|] + p + Zeros(s.a.maxLen - 1 - |p|);
    assert f[0] == |p|;
    assert Slice(f, 1, 1 + |p|) == p;
    assert s.ab[1..] == [];
  }

  // The first frame of a longer message announces its length and carries the first bytes.
  lemma FirstStep(s: System, p: seq<Byte>)
    requires SenderHolds(s, p) && Starting(s, p) && |p| >= s.a.maxLen
    ensures s.ab[0] != [] && SenderHolds(ToB(s), p) && Transferring(ToB(s), p)
  {
    var m := s.a.maxLen;
    var f := FirstFrame(m, p);
    assert f == [0x10 + |p| / 256, |p| % 256] + p[..m - 2];
    assert f[0] / 16 == 1 && f[0] % 16 == |p| / 256;
    assert f[2..] == p[..m - 2];
    assert Offset(m, 0) == m - 2;
    var t := ToB(s);
    assert t.ab == [] == Frames(m, p, 0, 0);
    assert t.b.rxDat != p;
    assert t.ba == [FlowControlMsg(s.b)];
  }

  // What the data part of consecutive frame j + 1 gives a receiver that has j of them.
  lemma FrameData(m: nat, p: seq<Byte>, j: nat)
    requires 3 < m <= 8 && Offset(m, j) < |p|
    ensures var f := ConsecutiveFrame(m, p, j + 1);
            var have := Progress(m, |p|, j);
            && f[0] / 16 == 2 && f[0] % 16 == (j + 1) % 16
            && p[..have] + Slice(f, 1, 1 + |p| - have) == p[..Progress(m, |p|, j + 1)]
  {
    var f := ConsecutiveFrame(m, p, j + 1);
    var o := Offset(m, j);
    var hi := Progress(m, |p|, j + 1);
    assert Offset(m, j + 1) == o + m - 1;
    var part := Slice(p, o, o + m - 1);
    assert part == p[o..hi];
    assert f == [0x20 + (j + 1) % 16] + part + Zeros(m - 1 - |part|);
    PaddedSlice(f, part, 0x20 + (j + 1) % 16, |p| - o);
    assert p[..o] + p[o..hi] == p[..hi];
  }

  lemma PaddedSlice(f: seq<Byte>, part: seq<Byte>, first: Byte, want: nat)
    requires |f| >= 1 + |part| && f[..1 + |part|] == [first] + part
    requires |part| <= want && (|part| < want ==> |f| == 1 + |part|)
    ensures Slice(f, 1, 1 + want) == part
  {
    assert f[1..1 + |part|] == f[..1 + |part|][1..] == part;
  }

  lemma FramesTail(m: nat, p: seq<Byte>, i: nat, j: nat)
    requires m >= 2 && i < j
    ensures Frames(m, p, i, j)[0] == ConsecutiveFrame(m, p, i + 1)
    ensures Frames(m, p, i, j)[1..] == Frames(m, p, i + 1, j)
  {
  }

  // One consecutive frame reaches the receiver.
  lemma ConsecutiveStep(s: System, p: seq<Byte>)
    requires SenderHolds(s, p) && Transferring(s, p) && s.ab != []
    ensures s.ab[0] != [] && SenderHolds(ToB(s), p) && Transferring(ToB(s), p)
    ensures |ToB(s).b.rxDat| > |s.b.rxDat|
  {
    hide ConsecutiveFrame, FlowControlMsg, Slice, RxNext, Progress, Offset, Frames, FirstFrame;
    var m, n, r := s.a.maxLen, |p|, s.b.rxIdx;
    FramesTail(m, p, r, s.a.txIdx);
    OffsetMonotone(m, r, s.a.txIdx - 1);
    Accept(s.b, p);
    ProgressValue(m, n, r);
    ProgressValue(m, n, r + 1);
    var t := ToB(s);
    assert s.ba == [];
    assert t.ba == [] + t.ba;
    if r + 1 == s.a.txIdx {
      assert t.ab == [];
    }
  }

  lemma ProgressValue(m: nat, n: nat, j: nat)
    requires m >= 2
    ensures Progress(m, n, j) == if Offset(m, j) < n then Offset(m, j) else n
    ensures Progress(m, n, j + 1) == n <==> Offset(m, j + 1) >= n
  {
  }

  // The receiver's side of one consecutive frame.
  lemma Accept(b: Endpoint, p: seq<Byte>)
    requires 3 < b.maxLen <= 8 && InStep(b) && Offset(b.maxLen, b.rxIdx) < |p|
    requires b.rxLen == |p| && b.rxDat == p[..Progress(b.maxLen, |p|, b.rxIdx)] && b.rxDone == (b.rxDat == p)
    ensures var next := Progress(b.maxLen, |p|, b.rxIdx + 1);
            var r := RxNext(b, ConsecutiveFrame(b.maxLen, p, b.rxIdx + 1));
            && r.status == Consecutive
            && r.state == b.(rxIdx := b.rxIdx + 1, rxDat := p[..next], rxDone := next == |p|)
            && r.out == (if b.singleFrameMode && next != |p| then [FlowControlMsg(r.state)] else [])
            && |p[..next]| > |b.rxDat| && (p[..next] == p <==> next == |p|)
            && FlowControlMsg(r.state) == FlowControlMsg(b)
  {
    hide ConsecutiveFrame, LJust, Slice, OnSingle, OnFirst, OnFlow;
    FrameData(b.maxLen, p, b.rxIdx);
    var next := Progress(b.maxLen, |p|, b.rxIdx + 1);
    assert Offset(b.maxLen, b.rxIdx + 1) == Offset(b.maxLen, b.rxIdx) + b.maxLen - 1;
    assert next == |p| ==> p[..next] == p;
  }

  // The emitted block as frame numbers; each of its frames starts before the end of the block.
  lemma {:induction false} EmittedShape(m: nat, p: seq<Byte>, idx: nat, end: nat)
    requires m >= 2
    ensures var out := Emitted(m, p, idx, end);
            && out == Frames(m, p, idx, idx + |out|)
            && Offset(m, idx + |out|) >= end
            && (out != [] ==> Offset(m, idx + |out| - 1) < end)
    decreases if Offset(m, idx) < end then end - Offset(m, idx) else 0
  {
    hide ConsecutiveFrame;
    if Offset(m, idx) < end {
      EmittedShape(m, p, idx + 1, end);
      var rest := Emitted(m, p, idx + 1, end);
      FramesTail(m, p, idx, idx + 1 + |rest|);
    }
  }

  // The blocks the receiver asks for, of size 0 or 1, never reach beyond the payload.
  lemma FlowStep(s: System, p: seq<Byte>)
    requires SenderHolds(s, p) && Transferring(s, p) && s.ba != []
    ensures s.ba[0] != [] && SenderHolds(ToA(s), p) && Transferring(ToA(s), p)
    ensures ToA(s).ab != []
  {
    hide ConsecutiveFrame, Emitted, OnSingle, OnFirst, OnConsecutive;
    var m, n, j := s.a.maxLen, |p|, s.a.txIdx;
    var f := FlowControlMsg(s.b);
    var block: Byte := if s.b.singleFrameMode then 1 else 0;
    assert |f| >= 3 && f[0] == 0x30 && f[1] == block && f[0] / 16 == 3;
    assert s.ba == [f] && s.ab == [] && !s.a.txDone;
    assert s.b.rxIdx == j && Offset(m, j) < n;
    var end := BlockEnd(s.a, block);
    assert end == if block == 1 then Offset(m, j + 1) else n;
    EmittedShape(m, p, j, end);
    var out := Emitted(m, p, j, end);
    var t := ToA(s);
    assert t.ab == [] + out == out && t.ba == [];
    assert out != [];
    if block == 1 {
      assert |out| == 1 by {
        if |out| > 1 {
          OffsetMonotone(m, j + 1, j + |out| - 1);
        }
      }
    }
  }

  // ---- Whole runs ----

  // One delivery; `towardsA` chooses the channel when both hold frames.
  function Step(s: System, towardsA: bool): System
    requires Deliverable(s)
  {
    if s.ba != [] && (towardsA || s.ab == []) then ToA(s)
    else if s.ab != [] then ToB(s)
    else s
  }

  predicate Deliverable(s: System) {
    && s.a.maxLen >= 2 && InStep(s.a) && s.b.maxLen >= 2 && InStep(s.b)
    && (s.ab != [] ==> s.ab[0] != []) && (s.ba != [] ==> s.ba[0] != [])
  }

  // Bounds the number of deliveries still to come.
  ghost function Measure(s: System, p: seq<Byte>): nat
    requires SenderHolds(s, p)
  {
    if Starting(s, p) then 2 * |p| + 2
    else if |s.b.rxDat| <= |p| then 2 * (|p| - |s.b.rxDat|) + |s.ba|
    else 0
  }

  lemma StartedOnce(s: System, p: seq<Byte>)
    requires SenderHolds(s, p) && Transferring(s, p)
    ensures !Starting(s, p)
  {
    hide ConsecutiveFrame;
    if s.ab != [] && |p| >= s.a.maxLen {
      FramesTail(s.a.maxLen, p, s.b.rxIdx, s.a.txIdx);
      assert s.ab[0][0] >= 0x20;
      assert FirstFrame(s.a.maxLen, p)[0] < 0x20;
    }
  }

  // Every delivery keeps the invariant, fails no assertion, and makes progress.
  lemma StepKeeps(s: System, p: seq<Byte>, towardsA: bool)
    requires Invariant(s, p)
    ensures Deliverable(s) && Invariant(Step(s, towardsA), p)
    ensures s.ab != [] || s.ba != [] ==> Measure(Step(s, towardsA), p) < Measure(s, p)
    ensures s.ab == [] && s.ba == [] ==> Step(s, towardsA) == s
  {
    hide FirstFrame, ConsecutiveFrame, FlowControlMsg, RxNext;
    if Starting(s, p) {
      if |p| < s.a.maxLen {
        SingleStep(s, p);
        var t := ToB(s);
        assert t.ab == [];
      } else {
        FirstStep(s, p);
        StartedOnce(ToB(s), p);
      }
    } else if Transferring(s, p) {
      if s.ab != [] {
        ConsecutiveStep(s, p);
        StartedOnce(ToB(s), p);
      } else if s.ba != [] {
        FlowStep(s, p);
        StartedOnce(ToA(s), p);
      }
    }
  }

  // Any schedule of deliveries.
  ghost function Run(s: System, p: seq<Byte>, schedule: seq<bool>): (t: System)
    requires Invariant(s, p)
    ensures Invariant(t, p)
    decreases |schedule|
  {
    if schedule == [] then s
    else
      StepKeeps(s, p, schedule[0]);
      Run(Step(s, schedule[0]), p, schedule[1..])
  }

  // With nothing in flight the transfer is complete, on both sides.
  lemma QuietMeansDone(s: System, p: seq<Byte>)
    requires Invariant(s, p) && s.ab == [] && s.ba == []
    ensures s.a.txDone && s.b.rxDone && s.b.rxDat == p && !s.failed
  {
    if Transferring(s, p) {
      var m, n := s.a.maxLen, |p|;
      assert s.b.rxIdx == s.a.txIdx;
      assert Progress(m, n, s.b.rxIdx) == n;
      assert p[..n] == p;
    }
  }

  lemma {:induction false} RunFinishes(s: System, p: seq<Byte>, schedule: seq<bool>)
    requires Invariant(s, p) && |schedule| >= Measure(s, p)
    ensures var t := Run(s, p, schedule); t.ab == [] && t.ba == []
    decreases |schedule|
  {
    hide Invariant, Step, Measure;
    if schedule != [] {
      StepKeeps(s, p, schedule[0]);
      if s.ab == [] && s.ba == [] {
        QuietStays(s, p, schedule);
      } else {
        RunFinishes(Step(s, schedule[0]), p, schedule[1..]);
      }
    } else {
      StepKeeps(s, p, false);
    }
  }

  lemma {:induction false} QuietStays(s: System, p: seq<Byte>, schedule: seq<bool>)
    requires Invariant(s, p) && s.ab == [] && s.ba == []
    ensures Run(s, p, schedule) == s
    decreases |schedule|
  {
    hide Invariant, Measure;
    if schedule != [] {
      StepKeeps(s, p, schedule[0]);
      QuietStays(s, p, schedule[1..]);
    }
  }

  // Every payload of up to 4095 bytes arrives unchanged under every schedule, within a bounded
  // number of deliveries, without any assertion failing on the way.
  lemma TransferCompletes(a: Endpoint, b: Endpoint, p: seq<Byte>, schedule: seq<bool>)
    requires Compatible(a, b, p) && |schedule| >= 2 * |p| + 2
    ensures Invariant(Initial(a, b, p), p)
    ensures var t := Run(Initial(a, b, p), p, schedule);
            t.a.txDone && t.b.rxDone && t.b.rxDat == p && !t.failed
  {
    InitialInvariant(a, b, p);
    var s := Initial(a, b, p);
    assert Starting(s, p);
    RunFinishes(s, p, schedule);
    QuietMeansDone(Run(s, p, schedule), p);
  }

  // ---- Other block sizes ----

  // A sender and everything it has sent after its first frame.
  datatype Fed = Fed(sender: Endpoint, out: seq<CanData>)

  // The sender receives flow control frames, of any content, one after the other.
  function FeedFlow(e: Endpoint, frames: seq<CanData>): (fed: Fed)
    requires e.maxLen >= 2 && InStep(e)
    ensures fed.sender.maxLen == e.maxLen && InStep(fed.sender)
  {
    if frames == [] then Fed(e, [])
    else
      var before := FeedFlow(e, frames[..|frames| - 1]);
      var r := RxNext(before.sender, frames[|frames| - 1]);
      Fed(r.state, before.out + r.out)
  }

  predicate IsFlow(f: CanData) {
    f != [] && f[0] / 16 == 3
  }

  // Where a sender stands after its first frame and any flow control frames.
  ghost predicate Emitting(fed: Fed, m: nat, p: seq<Byte>)
    requires m >= 2
  {
    && fed.sender.maxLen == m && fed.sender.txDat == p && fed.sender.txLen == |p|
    && fed.out == Frames(m, p, 0, fed.sender.txIdx)
    && (fed.sender.txDone <==> Offset(m, fed.sender.txIdx) >= |p|)
  }

  lemma FramesJoin(m: nat, p: seq<Byte>, i: nat, j: nat, k: nat)
    requires m >= 2 && i <= j <= k
    ensures Frames(m, p, i, j) + Frames(m, p, j, k) == Frames(m, p, i, k)
  {
  }

  lemma EmitsBlock(fed: Fed, m: nat, p: seq<Byte>, f: CanData)
    requires 3 < m <= 8 && InStep(fed.sender) && Emitting(fed, m, p) && IsFlow(f)
    ensures var r := RxNext(fed.sender, f); Emitting(Fed(r.state, fed.out + r.out), m, p)
  {
    hide ConsecutiveFrame, Emitted, BlockEnd, Frames, OnSingle, OnFirst, OnConsecutive;
    var e := fed.sender;
    if !e.txDone && f[0] == 0x30 && |f| >= 3 {
      var out := Emitted(m, p, e.txIdx, BlockEnd(e, f[1]));
      if f[1] > 0 {
        BlockCount(e, f[1]);
      } else {
        EmittedShape(m, p, e.txIdx, BlockEnd(e, 0));
        WholeRest(e);
      }
      FramesJoin(m, p, 0, e.txIdx, e.txIdx + |out|);
    } else {
      assert fed.out + [] == fed.out;
    }
  }

  lemma WholeRest(e: Endpoint)
    requires e.maxLen >= 2
    ensures BlockEnd(e, 0) == e.txLen
  {
  }

  lemma {:induction false} EmittingRun(e: Endpoint, p: seq<Byte>, frames: seq<CanData>)
    requires 3 < e.maxLen <= 8 && |p| >= e.maxLen && forall f <- frames :: IsFlow(f)
    ensures Emitting(FeedFlow(StartState(e, p), frames), e.maxLen, p)
  {
    hide RxNext;
    if frames == [] {
      assert Offset(e.maxLen, 0) < |p|;
    } else {
      var past := frames[..|frames| - 1];
      EmittingRun(e, p, past);
      EmitsBlock(FeedFlow(StartState(e, p), past), e.maxLen, p, frames[|frames| - 1]);
    }
  }

  // Whatever block sizes and waits the peer asks for, in whatever order: the sender emits the
  // consecutive frames one after the other without gap or repetition, is done exactly when they
  // reach the end of the payload, and by then their data starts with the whole payload.
  lemma BlocksCarryPayload(e: Endpoint, p: seq<Byte>, frames: seq<CanData>)
    requires 3 < e.maxLen <= 8 && |p| >= e.maxLen && forall f <- frames :: IsFlow(f)
    ensures
      var fed := FeedFlow(StartState(e, p), frames);
      && fed.out == Frames(e.maxLen, p, 0, fed.sender.txIdx)
      && (fed.sender.txDone <==> Offset(e.maxLen, fed.sender.txIdx) >= |p|)
      && (fed.sender.txDone ==> p <= Carried(e.maxLen, p, fed.sender.txIdx))
  {
    hide FeedFlow, Frames, Carried;
    EmittingRun(e, p, frames);
    CarriedIsPrefix(e.maxLen, p, FeedFlow(StartState(e, p), frames).sender.txIdx);
  }

  // The bytes the first frame and the frames up to number j carry, padding included.
  function Carried(m: nat, p: seq<Byte>, j: nat): seq<Byte>
    requires 3 < m <= 8 && |p| >= m
  {
    if j == 0 then p[..m - 2] else Carried(m, p, j - 1) + ConsecutiveFrame(m, p, j)[1..]
  }

  // What the frames up to number j carry is the payload up to there, padded with zeros past its end.
  lemma {:induction false} CarriedIsPrefix(m: nat, p: seq<Byte>, j: nat)
    requires 3 < m <= 8 && |p| >= m
    ensures Carried(m, p, j) == Padded(p, Offset(m, j))
  {
    hide ConsecutiveFrame, Padded;
    if j == 0 {
      PaddedShort(p, m - 2);
    } else {
      CarriedIsPrefix(m, p, j - 1);
      FrameCarries(m, p, j);
      PaddedExtends(p, Offset(m, j - 1), m - 1);
    }
  }

  // The first o bytes of p, padded with zeros when p is shorter.
  function Padded(p: seq<Byte>, o: nat): (s: seq<Byte>) {
    if o <= |p| then p[..o] else p + Zeros(o - |p|)
  }

  lemma PaddedShort(p: seq<Byte>, o: nat)
    requires o <= |p|
    ensures Padded(p, o) == p[..o]
  {
  }

  lemma PaddedExtends(p: seq<Byte>, o: nat, k: nat)
    ensures var part := Slice(p, o, o + k);
            Padded(p, o) + (part + Zeros(k - |part|)) == Padded(p, o + k)
  {
  }

  lemma FrameCarries(m: nat, p: seq<Byte>, j: nat)
    requires 3 < m <= 8 && j > 0
    ensures var part := Slice(p, Offset(m, j - 1), Offset(m, j - 1) + m - 1);
            ConsecutiveFrame(m, p, j)[1..] == part + Zeros(m - 1 - |part|)
  {
    var part := Slice(p, Offset(m, j - 1), Offset(m, j - 1) + m - 1);
    var head: seq<Byte> := [0x20 + j % 16];
    assert ConsecutiveFrame(m, p, j) == head + part + Zeros(m - 1 - |part|);
  }

  // A block of size c >= 1 emits exactly c frames; some of them carry no data iff the payload ends
  // before the last of them starts.
  lemma SurplusFrames(e: Endpoint, f: CanData)
    requires 3 < e.maxLen <= 8 && !e.txDone && |f| >= 3 && f[0] == 0x30 && f[1] > 0
    requires e.txLen == |e.txDat|
    ensures var r := OnFlow(e, f);
            var j, c := e.txIdx, f[1];
            && r.out == Frames(e.maxLen, e.txDat, j, j + c) && r.state.txIdx == j + c
            && (r.state.txDone <==> Offset(e.maxLen, j + c) >= |e.txDat|)
            && ((exists i :: j <= i < j + c && NoData(e.maxLen, e.txDat, i))
                <==> Offset(e.maxLen, j + c - 1) >= |e.txDat|)
  {
    hide ConsecutiveFrame, Emitted, BlockEnd, NoData;
    BlockCount(e, f[1]);
    EmptyInBlock(e.maxLen, e.txDat, e.txIdx, f[1]);
  }

  lemma BlockCount(e: Endpoint, c: Byte)
    requires e.maxLen >= 2 && c > 0
    ensures var out := Emitted(e.maxLen, e.txDat, e.txIdx, BlockEnd(e, c));
            && |out| == c && out == Frames(e.maxLen, e.txDat, e.txIdx, e.txIdx + c)
            && BlockEnd(e, c) == Offset(e.maxLen, e.txIdx + c)
  {
    hide ConsecutiveFrame, Emitted;
    var m, j := e.maxLen, e.txIdx;
    var end := BlockEnd(e, c);
    OffsetAdd(m, j, c);
    hide BlockEnd;
    EmittedShape(m, e.txDat, j, end);
    var out := Emitted(m, e.txDat, j, end);
    OffsetOrder(m, j + |out|, j + c);
    if out != [] {
      OffsetOrder(m, j + c, j + |out| - 1);
    }
  }

  // Offsets are ordered like their indices.
  lemma OffsetOrder(m: nat, i: nat, j: nat)
    requires m >= 2
    ensures i < j <==> Offset(m, i) < Offset(m, j)
  {
    if i < j {
      OffsetStrict(m, i, j);
    } else {
      OffsetMonotone(m, j, i);
    }
  }

  lemma EmptyInBlock(m: nat, p: seq<Byte>, j: nat, c: nat)
    requires 3 < m <= 8 && c > 0
    ensures (exists i :: j <= i < j + c && NoData(m, p, i)) <==> Offset(m, j + c - 1) >= |p|
  {
    if Offset(m, j + c - 1) >= |p| {
      assert NoData(m, p, j + c - 1);
    }
    if exists i :: j <= i < j + c && NoData(m, p, i) {
      var i :| j <= i < j + c && NoData(m, p, i);
      OffsetMonotone(m, i, j + c - 1);
    }
  }

  // Consecutive frame j + 1 carries no payload byte.
  predicate NoData(m: nat, p: seq<Byte>, j: nat)
    requires m >= 2
  {
    Slice(p, Offset(m, j), Offset(m, j + 1)) == []
  }

  lemma {:induction false} OffsetStrict(m: nat, i: nat, j: nat)
    requires m >= 2 && i < j
    ensures Offset(m, i) < Offset(m, j)
  {
    OffsetMonotone(m, i, j - 1);
  }

  // Frames delivered one after the other to a receiver, as long as it accepts them.
  function Receive(b: Endpoint, frames: seq<CanData>): (r: Reaction)
    requires b.maxLen >= 2 && InStep(b) && frames != []
    ensures InStep(r.state) && r.state.maxLen == b.maxLen
  {
    if |frames| == 1 then RxNext(b, frames[0])
    else RxNext(Receive(b, frames[..|frames| - 1]).state, frames[|frames| - 1])
  }

  // A surplus frame makes a receiver of this class fail: eight bytes, and a peer that asks for
  // blocks of two frames. The first frame and the first of the block complete the message; the
  // second, which carries no data, is refused.
  lemma SurplusFrameRejected(e: Endpoint, b: Endpoint)
    requires e.maxLen == 8 && b.maxLen == 8 && InStep(b) && (b.rxDat == [] || b.rxDone)
    ensures
      var p := [1, 2, 3, 4, 5, 6, 7, 8];
      var out := FeedFlow(StartState(e, p), [[0x30, 2, 0]]).out;
      && |out| == 2
      && Receive(b, [FirstFrame(8, p), out[0]]).status == Consecutive
      && Receive(b, [FirstFrame(8, p), out[0]]).state.rxDone
      && Receive(b, [FirstFrame(8, p), out[0]]).state.rxDat == p
      && Receive(b, [FirstFrame(8, p), out[0], out[1]]).status == AssertionError
  {
    hide StartState, FeedFlow, Receive, ConsecutiveFrame, FirstFrame;
    var p := [1, 2, 3, 4, 5, 6, 7, 8];
    BlockOfTwo(e, p);
    TwoFrames(b, p, ConsecutiveFrame(8, p, 1), ConsecutiveFrame(8, p, 2));
  }

  lemma BlockOfTwo(e: Endpoint, p: seq<Byte>)
    requires e.maxLen == 8 && |p| >= 8
    ensures FeedFlow(StartState(e, p), [[0x30, 2, 0]]).out == [ConsecutiveFrame(8, p, 1), ConsecutiveFrame(8, p, 2)]
  {
    hide ConsecutiveFrame, OnFlow, OnSingle, OnFirst, OnConsecutive;
    var s := StartState(e, p);
    var f: CanData := [0x30, 2, 0];
    SurplusFrames(s, f);
    assert [f][..0] == [];
    assert FeedFlow(s, [f]).out == [] + OnFlow(s, f).out;
  }

  lemma FirstOfEight(b: Endpoint, p: seq<Byte>)
    requires b.maxLen == 8 && InStep(b) && (b.rxDat == [] || b.rxDone) && |p| == 8
    ensures var c := RxNext(b, FirstFrame(8, p)).state;
      InStep(c) && c.rxDat == p[..6] && c.rxLen == 8 && c.rxIdx == 0 && !c.rxDone
  {
    var h := FirstFrame(8, p);
    assert h == [0x10, 8] + p[..6];
    assert h[2..] == p[..6];
  }

  lemma TwoFrames(b: Endpoint, p: seq<Byte>, f: CanData, g: CanData)
    requires b.maxLen == 8 && InStep(b) && (b.rxDat == [] || b.rxDone) && |p| == 8
    requires f == ConsecutiveFrame(8, p, 1) && g == ConsecutiveFrame(8, p, 2)
    ensures var r := Receive(b, [FirstFrame(8, p), f]);
      r.status == Consecutive && r.state.rxDone && r.state.rxDat == p
    ensures Receive(b, [FirstFrame(8, p), f, g]).status == AssertionError
  {
    hide ConsecutiveFrame, FirstFrame, RxNext, Receive;
    var h := FirstFrame(8, p);
    var c := RxNext(b, h).state;
    FirstOfEight(b, p);
    LastOfEight(c, p);
    ReceiveSteps(b, h, f, g);
    RefusedWhenDone(RxNext(c, f).state, g);
  }

  lemma LastOfEight(c: Endpoint, p: seq<Byte>)
    requires c.maxLen == 8 && InStep(c) && |p| == 8
    requires c.rxDat == p[..6] && c.rxLen == 8 && c.rxIdx == 0 && !c.rxDone
    ensures var r := RxNext(c, ConsecutiveFrame(8, p, 1));
      r.status == Consecutive && r.state.rxDone && r.state.rxDat == p
  {
    hide ConsecutiveFrame, RxNext;
    assert Offset(8, 0) == 6 && Offset(8, 1) == 13;
    Accept(c, p);
    assert p[..8] == p;
  }

  lemma ReceiveSteps(b: Endpoint, h: CanData, f: CanData, g: CanData)
    requires b.maxLen >= 2 && InStep(b)
    ensures var c := RxNext(b, h).state;
      Receive(b, [h, f]) == RxNext(c, f) && Receive(b, [h, f, g]) == RxNext(RxNext(c, f).state, g)
  {
    hide RxNext;
    assert [h, f][..1] == [h] && [h, f, g][..2] == [h, f];
  }

  lemma RefusedWhenDone(b: Endpoint, f: CanData)
    requires b.maxLen >= 2 && InStep(b) && b.rxDone && f != [] && f[0] / 16 == 2
    ensures RxNext(b, f).status == AssertionError
  {
  }
}
