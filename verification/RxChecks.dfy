// Which received frames count (board/safety.h): finding the monitored entry, its checksum, counter and quality.
module RxChecks {
  import opened Wrappers
  import opened Arith
  import opened Bytes
  import opened CanPacket
  import opened Steering
  import opened SafetyState

  const MAX_WRONG_COUNTERS := 5

  predicate IsMsgValid(st: RxStatus) {
    st.validChecksum && st.validQualityFlag && st.wrongCounters < MAX_WRONG_COUNTERS
  }

  predicate Matches(c: CanMsgCheck, m: CANPacket) {
    m.addr == c.addr && m.bus == c.bus && m.Len() == c.len
  }

  // The first alternative, from j on, that the frame is.
  function FirstMatch(entry: seq<CanMsgCheck>, m: CANPacket, j: nat): (r: Option<nat>)
    ensures r.Some? ==> j <= r.value < |entry| && Matches(entry[r.value], m)
    ensures r.Some? ==> forall k :: j <= k < r.value ==> !Matches(entry[k], m)
    ensures r.None? ==> forall k :: j <= k < |entry| ==> !Matches(entry[k], m)
    decreases |entry| - j
  {
    if j >= |entry| then None
    else if Matches(entry[j], m) then Some(j)
    else FirstMatch(entry, m, j + 1)
  }

  // Once one alternative has been seen, only that one counts.
  function MatchEntry(entry: seq<CanMsgCheck>, st: RxStatus, m: CANPacket): (r: Option<nat>)
    requires st.index < |entry|
    ensures r.Some? ==> r.value < |entry| && Matches(entry[r.value], m)
  {
    if !st.msgSeen then FirstMatch(entry, m, 0)
    else if Matches(entry[st.index], m) then Some(st.index)
    else None
  }

  // The first entry, from i on, that takes the frame, and the alternative it is.
  function FindEntry(c: Config, status: seq<RxStatus>, m: CANPacket, i: nat): (r: Option<(nat, nat)>)
    requires SaneStatus(c, status)
    ensures r.Some? ==> i <= r.value.0 < |status|
    ensures r.Some? ==> MatchEntry(c.rxChecks[r.value.0], status[r.value.0], m) == Some(r.value.1)
    ensures r.Some? ==> forall k :: i <= k < r.value.0 ==> MatchEntry(c.rxChecks[k], status[k], m) == None
    ensures r.None? ==> forall k :: i <= k < |status| ==> MatchEntry(c.rxChecks[k], status[k], m) == None
    decreases |status| - i
  {
    if i >= |status| then None
    else
      match MatchEntry(c.rxChecks[i], status[i], m)
      case Some(j) => Some((i, j))
      case None => FindEntry(c, status, m, i + 1)
  }

  function Clamp(x: int, lo: int, hi: int): int {
    if x < lo then lo else if x > hi then hi else x
  }

  // The count of wrong counters moves by one each time, between 0 and the maximum.
  function CountWrong(st: RxStatus, maxCounter: Byte, counter: Byte): RxStatus {
    var expected := (st.lastCounter + 1) % (maxCounter + 1);
    st.(wrongCounters := Clamp(st.wrongCounters + (if expected == counter then -1 else 1), 0, MAX_WRONG_COUNTERS),
        lastCounter := counter)
  }

  // What the hooks say about a frame.
  datatype Verdict = Verdict(checksum: bool, counter: Option<Byte>, quality: bool)

  // The entry after one of its frames.
  function NextStatus(c: CanMsgCheck, st: RxStatus, j: nat, ts: Timestamp, v: Verdict): RxStatus {
    var s := st.(msgSeen := true, index := j, lastTimestamp := ts,
                 validChecksum := !c.checkChecksum || v.checksum);
    (if c.maxCounter > 0 && v.counter.Some? then CountWrong(s, c.maxCounter, v.counter.value)
     else s.(wrongCounters := 0)).(validQualityFlag := !c.qualityFlag || v.quality)
  }

  // The entries after a frame, and whether the frame may be processed.
  function Checked(c: Config, status: seq<RxStatus>, m: CANPacket, ts: Timestamp, v: Verdict)
    : (r: (seq<RxStatus>, bool))
    requires SaneStatus(c, status)
    ensures SaneStatus(c, r.0)
  {
    match FindEntry(c, status, m, 0)
    case None => (status, true)
    case Some((i, j)) =>
      var st := NextStatus(c.rxChecks[i][j], status[i], j, ts, v);
      (status[i := st], IsMsgValid(st))
  }

  // Whether an entry is valid after one of its frames: the checks it asks for have passed, and a wrong
  // counter follows on fewer than four. A right one always leaves it valid, as far as counters go.
  lemma ValidAfterFrame(c: CanMsgCheck, st: RxStatus, j: nat, ts: Timestamp, v: Verdict)
    requires 0 <= st.wrongCounters <= 5
    ensures
      var t := NextStatus(c, st, j, ts, v);
      && (IsMsgValid(t) <==>
            && (c.checkChecksum ==> v.checksum) && (c.qualityFlag ==> v.quality)
            && (c.maxCounter >= 1 && v.counter.Some? && v.counter.value != (st.lastCounter + 1) % (c.maxCounter + 1) ==>
                st.wrongCounters < 4))
      && t.msgSeen && t.index == j && t.lastTimestamp == ts && 0 <= t.wrongCounters <= 5
      && (c.maxCounter == 0 || v.counter.None? ==> t.wrongCounters == 0)
  {
  }

  // ---- Lagging messages ----

  const MAX_MISSED_MSGS := 10

  predicate Lagging(c: CanMsgCheck, st: RxStatus, ts: Timestamp)
    requires c.frequency > 0
  {
    TsElapsed(ts, st.lastTimestamp) > Max(1000000 / c.frequency * MAX_MISSED_MSGS, 1000000)
  }

  function MarkLagging(c: Config, status: seq<RxStatus>, ts: Timestamp): (r: seq<RxStatus>)
    requires SaneConfig(c) && SaneStatus(c, status)
    ensures SaneStatus(c, r)
  {
    seq(|status|, i requires 0 <= i < |status| =>
      status[i].(lagging := Lagging(c.rxChecks[i][status[i].index], status[i], ts)))
  }

  // All monitored messages are there in time and valid.
  predicate AllFine(status: seq<RxStatus>) {
    forall i :: 0 <= i < |status| ==> !status[i].lagging && IsMsgValid(status[i])
  }

  // Five wrong counters in a row make any entry invalid, and it takes as many right ones to be sure again.
  function CountersAfter(st: RxStatus, maxCounter: Byte, counters: seq<Byte>): RxStatus {
    if counters == [] then st
    else CountWrong(CountersAfter(st, maxCounter, counters[..|counters| - 1]), maxCounter, counters[|counters| - 1])
  }

  // Counter i of the run is the one after its predecessor.
  predicate RightCounter(st: RxStatus, maxCounter: Byte, counters: seq<Byte>, i: nat)
    requires i < |counters|
  {
    counters[i] == ((if i == 0 then st.lastCounter else counters[i - 1]) + 1) % (maxCounter + 1)
  }

  lemma LastCounter(st: RxStatus, maxCounter: Byte, counters: seq<Byte>)
    ensures CountersAfter(st, maxCounter, counters).lastCounter
      == if counters == [] then st.lastCounter else counters[|counters| - 1]
  {
  }

  lemma {:induction false} WrongCountersInvalidate(st: RxStatus, maxCounter: Byte, counters: seq<Byte>)
    requires 0 <= st.wrongCounters <= MAX_WRONG_COUNTERS
    requires forall i :: 0 <= i < |counters| ==> !RightCounter(st, maxCounter, counters, i)
    ensures CountersAfter(st, maxCounter, counters).wrongCounters
      == if st.wrongCounters + |counters| > MAX_WRONG_COUNTERS then MAX_WRONG_COUNTERS
         else st.wrongCounters + |counters|
    ensures |counters| >= 5 ==> !IsMsgValid(CountersAfter(st, maxCounter, counters))
  {
    if counters != [] {
      var k := |counters| - 1;
      var past := counters[..k];
      assert !RightCounter(st, maxCounter, counters, k);
      forall i | 0 <= i < k ensures !RightCounter(st, maxCounter, past, i) {
        assert !RightCounter(st, maxCounter, counters, i);
      }
      WrongCountersInvalidate(st, maxCounter, past);
      LastCounter(st, maxCounter, past);
    }
  }

  lemma {:induction false} RightCountersRecover(st: RxStatus, maxCounter: Byte, counters: seq<Byte>)
    requires 0 <= st.wrongCounters <= MAX_WRONG_COUNTERS
    requires forall i :: 0 <= i < |counters| ==> RightCounter(st, maxCounter, counters, i)
    ensures CountersAfter(st, maxCounter, counters).wrongCounters
      == if |counters| > st.wrongCounters then 0 else st.wrongCounters - |counters|
  {
    if counters != [] {
      var k := |counters| - 1;
      var past := counters[..k];
      assert RightCounter(st, maxCounter, counters, k);
      forall i | 0 <= i < k ensures RightCounter(st, maxCounter, past, i) {
        assert RightCounter(st, maxCounter, counters, i);
      }
      RightCountersRecover(st, maxCounter, past);
      LastCounter(st, maxCounter, past);
    }
  }
}
