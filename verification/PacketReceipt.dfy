/** Arrival bookkeeping on the client: retransmission requests and per-packet feedback
    (crates/client-core/src/lib.rs, `ReceiveTask::record_arrival`). */
module PacketReceipt {
  import opened Wrappers
  import opened Arithmetic
  import opened ByteStrings
  import opened Datagram
  import opened ReassemblyModel

  const FEEDBACK_INTERVAL_US: nat := 50_000
  const MAX_BATCH: nat := 512
  const NACK_BUDGET_PER_SEC: nat := 150
  const NACK_MEMORY: nat := 512
  const NACK_REACH: nat := 64
  const SECOND_US: nat := 1_000_000

  /** Arrival times of one batch: sequence number and time after the first. */
  datatype Feedback = Feedback(baseArrivalUs: nat, samples: seq<(u32, u32)>)

  datatype Message =
    | Nack(seqs: seq<u32>)
    | PacketFeedback(feedback: Feedback)

  datatype ReceiverState = ReceiverState(
    feedbackBatch: seq<(u32, nat)>,
    lastFeedbackUs: nat,
    highestSeq: Option<u32>,
    nacked: seq<u32>,
    windowStart: nat,
    windowUsed: nat)

  function ReceiverStart(): ReceiverState {
    ReceiverState([], 0, None, [], 0, 0)
  }

  /** The n sequence numbers after high. */
  function After(high: u32, n: nat): (s: seq<u32>)
    ensures |s| == n
  {
    seq(n, i requires 0 <= i < n => (high + 1 + i) % U32_RANGE)
  }

  function NotIn(seqs: seq<u32>, nacked: seq<u32>): seq<u32> {
    if |seqs| == 0 then []
    else
      var last := seqs[|seqs| - 1];
      NotIn(seqs[..|seqs| - 1], nacked) + if last in nacked then [] else [last]
  }

  function Take<T>(s: seq<T>, n: nat): seq<T> {
    if n <= |s| then s[..n] else s
  }

  /** The bounded memory of requested numbers, oldest forgotten first. */
  function Remember(nacked: seq<u32>, more: seq<u32>): seq<u32>
    decreases |more|
  {
    if |more| == 0 then nacked
    else
      var kept := if |nacked| == NACK_MEMORY then nacked[1..] else nacked;
      Remember(kept + [more[0]], more[1..])
  }

  /** A gap worth asking about lies between the highest number so far and this one. */
  predicate Skips(s: ReceiverState, seqNo: u32) {
    s.highestSeq.Some? && 1 < Age(s.highestSeq.value, seqNo) <= NACK_REACH
  }

  function WindowAt(s: ReceiverState, now: nat): (nat, nat) {
    if Elapsed(now, s.windowStart) >= SECOND_US then (now, 0) else (s.windowStart, s.windowUsed)
  }

  /** The numbers requested on this arrival: the gap, less what was requested before, within the budget. */
  function Requests(s: ReceiverState, seqNo: u32, now: nat): seq<u32> {
    if !Skips(s, seqNo) then []
    else
      var used := WindowAt(s, now).1;
      var budget := if NACK_BUDGET_PER_SEC >= used then NACK_BUDGET_PER_SEC - used else 0;
      Take(NotIn(After(s.highestSeq.value, Age(s.highestSeq.value, seqNo) - 1), s.nacked), budget)
  }

  function Noted(s: ReceiverState, seqNo: u32, now: nat): ReceiverState {
    var missing := Requests(s, seqNo, now);
    var window := if Skips(s, seqNo) then WindowAt(s, now) else (s.windowStart, s.windowUsed);
    var ahead := if s.highestSeq.Some? then Age(s.highestSeq.value, seqNo) else 1;
    s.(windowStart := window.0,
       windowUsed := window.1 + |missing|,
       nacked := Remember(s.nacked, missing),
       highestSeq := if 1 <= ahead < HALF_RANGE then Some(seqNo) else s.highestSeq,
       feedbackBatch := s.feedbackBatch + [(seqNo, now)])
  }

  /** Arrival times relative to the first, cut to 32 bits. */
  function Samples(batch: seq<(u32, nat)>, base: nat): (s: seq<(u32, u32)>)
    ensures |s| == |batch|
  {
    seq(|batch|, i requires 0 <= i < |batch| => (batch[i].0, Elapsed(batch[i].1, base) % U32_RANGE))
  }

  predicate FeedbackDue(s: ReceiverState, now: nat) {
    |s.feedbackBatch| >= MAX_BATCH || Elapsed(now, s.lastFeedbackUs) >= FEEDBACK_INTERVAL_US
  }

  /** One arrival: the new state and the messages sent, none while the control channel is closed. */
  function Recorded(s: ReceiverState, seqNo: u32, now: nat, controlOpen: bool): (ReceiverState, seq<Message>) {
    var missing := Requests(s, seqNo, now);
    var noted := Noted(s, seqNo, now);
    var nack := if |missing| > 0 && controlOpen then [Nack(missing)] else [];
    if !FeedbackDue(noted, now) then (noted, nack)
    else
      var sent := noted.(lastFeedbackUs := now, feedbackBatch := []);
      if !controlOpen then (sent, nack)
      else
        var base := noted.feedbackBatch[0].1;
        (sent, nack + [PacketFeedback(Feedback(base, Samples(noted.feedbackBatch, base)))])
  }

  // ---------- The receive task ----------

  class ReceiveTask {
    var feedbackBatch: seq<(u32, nat)>
    var lastFeedbackUs: nat
    var highestSeq: Option<u32>
    var nacked: seq<u32>
    var nackWindow: (nat, nat)

    ghost function Abstract(): ReceiverState
      reads this
    {
      ReceiverState(feedbackBatch, lastFeedbackUs, highestSeq, nacked, nackWindow.0, nackWindow.1)
    }

    constructor ()
      ensures Abstract() == ReceiverStart()
    {
      feedbackBatch, lastFeedbackUs, highestSeq, nacked, nackWindow := [], 0, None, [], (0, 0);
    }

    /** Remember requested numbers one by one. */
    method RememberAll(missing: seq<u32>)
      modifies this`nacked
      ensures nacked == Remember(old(nacked), missing)
    {
      for i := 0 to |missing|
        invariant Remember(nacked, missing[i..]) == Remember(old(nacked), missing)
      {
        assert missing[i..][1..] == missing[i + 1..];
        if |nacked| == NACK_MEMORY {
          nacked := nacked[1..];
        }
        nacked := nacked + [missing[i]];
      }
    }

    /** Collect what is missing between high and high + ahead. */
    method CollectMissing(high: u32, ahead: nat, budget: nat) returns (missing: seq<u32>)
      requires ahead >= 1
      ensures missing == Take(NotIn(After(high, ahead - 1), nacked), budget)
    {
      var wanted := [];
      for i := 1 to ahead
        invariant wanted == NotIn(After(high, i - 1), nacked)
      {
        var s := (high + i) % U32_RANGE;
        assert After(high, i)[..i - 1] == After(high, i - 1);
        if s !in nacked {
          wanted := wanted + [s];
        }
      }
      missing := Take(wanted, budget);
    }

    /** Note the gap this arrival reveals. */
    method NoteGap(seqNo: u32, now: nat, controlOpen: bool) returns (messages: seq<Message>)
      modifies this
      ensures Abstract() == Noted(old(Abstract()), seqNo, now).(feedbackBatch := old(feedbackBatch))
      ensures messages ==
        var missing := Requests(old(Abstract()), seqNo, now);
        if |missing| > 0 && controlOpen then [Nack(missing)] else []
    {
      hide Age, After, NotIn, Remember, Take;
      RememberNothing(nacked);
      messages := [];
      if highestSeq.Some? {
        var high := highestSeq.value;
        var ahead := Age(high, seqNo);
        if ahead > 1 && ahead <= NACK_REACH {
          if Elapsed(now, nackWindow.0) >= SECOND_US {
            nackWindow := (now, 0);
          }
          var budget := if NACK_BUDGET_PER_SEC >= nackWindow.1 then NACK_BUDGET_PER_SEC - nackWindow.1 else 0;
          var missing := CollectMissing(high, ahead, budget);
          nackWindow := (nackWindow.0, nackWindow.1 + |missing|);
          if |missing| > 0 {
            RememberAll(missing);
            if controlOpen {
              messages := [Nack(missing)];
            }
          }
        }
        if 1 <= ahead < HALF_RANGE {
          highestSeq := Some(seqNo);
        }
      } else {
        highestSeq := Some(seqNo);
      }
    }

    /** One sequenced datagram. */
    method RecordArrival(datagram: Bytes, now: nat, controlOpen: bool) returns (messages: seq<Message>)
      modifies this
      ensures ReadSeq(datagram).Err? ==> Abstract() == old(Abstract()) && messages == []
      ensures ReadSeq(datagram).Ok? ==>
        (Abstract(), messages) == Recorded(old(Abstract()), ReadSeq(datagram).value, now, controlOpen)
    {
      hide Noted, Requests;
      var read := ReadSeq(datagram);
      if read.Err? {
        return [];
      }
      var seqNo := read.value;
      NotedBatch(Abstract(), seqNo, now);
      messages := NoteGap(seqNo, now, controlOpen);
      feedbackBatch := feedbackBatch + [(seqNo, now)];
      if |feedbackBatch| < MAX_BATCH && Elapsed(now, lastFeedbackUs) < FEEDBACK_INTERVAL_US {
        return;
      }
      lastFeedbackUs := now;
      var batch := feedbackBatch;
      feedbackBatch := [];
      if !controlOpen {
        return;
      }
      var base := batch[0].1;
      messages := messages + [PacketFeedback(Feedback(base, Samples(batch, base)))];
    }
  }

  lemma RememberNothing(nacked: seq<u32>)
    ensures Remember(nacked, []) == nacked
  {
  }

  lemma NotedBatch(s: ReceiverState, seqNo: u32, now: nat)
    ensures Noted(s, seqNo, now).feedbackBatch == s.feedbackBatch + [(seqNo, now)]
    ensures Noted(s, seqNo, now).lastFeedbackUs == s.lastFeedbackUs
  {
    hide Requests, Remember, Age;
  }

  // ---------- What is requested ----------

  /** Ages past high within 1..bound, ascending. */
  ghost predicate AscendingPast(high: u32, seqs: seq<u32>, bound: nat) {
    && (forall i :: 0 <= i < |seqs| ==> 1 <= Age(high, seqs[i]) <= bound)
    && (forall i, j :: 0 <= i < j < |seqs| ==> Age(high, seqs[i]) < Age(high, seqs[j]))
  }

  lemma AgeOfNext(high: u32, n: nat)
    requires n < U32_RANGE
    ensures Age(high, (high + n) % U32_RANGE) == n
  {
    AgeBelow(high, (high + n) % U32_RANGE);
  }

  lemma {:induction false} NotInAscends(high: u32, n: nat, nacked: seq<u32>)
    requires n < NACK_REACH
    ensures AscendingPast(high, NotIn(After(high, n), nacked), n)
  {
    hide Age;
    if n > 0 {
      NotInAscends(high, n - 1, nacked);
      assert After(high, n)[..n - 1] == After(high, n - 1);
      AgeOfNext(high, n);
      assert After(high, n)[n - 1] == (high + n) % U32_RANGE;
    }
  }

  /** The filter keeps exactly the numbers not remembered. */
  lemma {:induction false} NotInExact(seqs: seq<u32>, nacked: seq<u32>, x: u32)
    ensures x in NotIn(seqs, nacked) <==> x in seqs && x !in nacked
  {
    if |seqs| > 0 {
      NotInExact(seqs[..|seqs| - 1], nacked, x);
      assert seqs == seqs[..|seqs| - 1] + [seqs[|seqs| - 1]];
    }
  }

  /** Requested numbers lie strictly between the highest so far and this one, without repetition, and none of
      them is remembered as requested before. */
  lemma RequestsBetween(s: ReceiverState, seqNo: u32, now: nat)
    requires |Requests(s, seqNo, now)| > 0
    ensures Skips(s, seqNo)
    ensures AscendingPast(s.highestSeq.value, Requests(s, seqNo, now), Age(s.highestSeq.value, seqNo) - 1)
    ensures forall x :: x in Requests(s, seqNo, now) ==> x !in s.nacked
  {
    hide Age, NotIn, After;
    var gap := After(s.highestSeq.value, Age(s.highestSeq.value, seqNo) - 1);
    NotInAscends(s.highestSeq.value, Age(s.highestSeq.value, seqNo) - 1, s.nacked);
    forall x | x in Requests(s, seqNo, now) ensures x !in s.nacked {
      NotInExact(gap, s.nacked, x);
    }
  }

  lemma InAfter(high: u32, n: nat, x: u32)
    requires n < U32_RANGE
    ensures x in After(high, n) <==> 1 <= Age(high, x) <= n
  {
    var d := Age(high, x);
    AgeTo(high, x);
    hide Age;
    if 1 <= d <= n {
      assert After(high, n)[d - 1] == x;
    }
    if x in After(high, n) {
      var i :| 0 <= i < n && After(high, n)[i] == x;
      AgeOfNext(high, i + 1);
    }
  }

  lemma AgeTo(high: u32, x: u32)
    ensures x == (high + Age(high, x)) % U32_RANGE
  {
    AgeBelow(high, x);
  }

  /** Nothing in the gap is passed over: a number between the highest so far and this one is requested unless it is
      remembered, or the window's budget is used up and then by nearer ones. */
  lemma GapIsRequested(s: ReceiverState, seqNo: u32, now: nat, x: u32)
    requires Skips(s, seqNo) && 1 <= Age(s.highestSeq.value, x) < Age(s.highestSeq.value, seqNo)
    ensures x in Requests(s, seqNo, now) || x in s.nacked || Noted(s, seqNo, now).windowUsed >= NACK_BUDGET_PER_SEC
    ensures x in Requests(s, seqNo, now) || x in s.nacked
      || forall y :: y in Requests(s, seqNo, now) ==> Age(s.highestSeq.value, y) < Age(s.highestSeq.value, x)
  {
    hide Age, NotIn, After, Remember;
    var high, n := s.highestSeq.value, Age(s.highestSeq.value, seqNo) - 1;
    var gap := After(high, n);
    InAfter(high, n, x);
    NotInExact(gap, s.nacked, x);
    NotInAscends(high, n, s.nacked);
    if x !in s.nacked && x !in Requests(s, seqNo, now) {
      var all := NotIn(gap, s.nacked);
      var k :| 0 <= k < |all| && all[k] == x;
      assert |Requests(s, seqNo, now)| <= k;
      forall y | y in Requests(s, seqNo, now) ensures Age(high, y) < Age(high, x) {
        var i :| 0 <= i < |Requests(s, seqNo, now)| && Requests(s, seqNo, now)[i] == y;
        assert all[i] == y;
      }
    }
  }

  /** What is requested is put on the wire while the control channel is up, in one message. */
  lemma RequestIsSent(s: ReceiverState, seqNo: u32, now: nat, controlOpen: bool)
    ensures controlOpen && |Requests(s, seqNo, now)| > 0 ==>
      Nack(Requests(s, seqNo, now)) in Recorded(s, seqNo, now, controlOpen).1
    ensures forall seqs :: Nack(seqs) in Recorded(s, seqNo, now, controlOpen).1 ==>
      controlOpen && seqs == Requests(s, seqNo, now) && |seqs| > 0
  {
    hide Requests, Noted, FeedbackDue, Samples;
    NotedBatch(s, seqNo, now);
  }

  lemma BudgetKept(s: ReceiverState, seqNo: u32, now: nat)
    requires s.windowUsed <= NACK_BUDGET_PER_SEC
    ensures Noted(s, seqNo, now).windowUsed <= NACK_BUDGET_PER_SEC
  {
    hide Age, NotIn, After, Remember;
  }

  // ---------- Whole runs, in unwrapped packet numbers ----------

  /** An arriving packet: its place in the send order, the clock, and whether the control channel is up. */
  datatype Packet = Packet(number: nat, now: nat, controlOpen: bool)

  /** requested: packet numbers asked for, in order; arrivedBy[i]: packets arrived when requested[i] was asked for. */
  datatype ReceiptRun = ReceiptRun(
    state: ReceiverState, highest: Option<nat>, requested: seq<nat>, arrivedBy: seq<nat>, messages: seq<Message>)

  ghost function RequestedNumbers(r: ReceiptRun, p: Packet): (n: seq<nat>)
    ensures |n| == |Requests(r.state, p.number % U32_RANGE, p.now)|
  {
    var missing := Requests(r.state, p.number % U32_RANGE, p.now);
    seq(|missing|, i requires 0 <= i < |missing| => RequestedNumber(r, missing[i]))
  }

  ghost function RequestedNumber(r: ReceiptRun, seqNo: u32): nat {
    if r.highest.Some? && r.state.highestSeq.Some? then r.highest.value + Age(r.state.highestSeq.value, seqNo)
    else seqNo
  }

  ghost function Received(r: ReceiptRun, p: Packet, count: nat): ReceiptRun {
    var numbers := RequestedNumbers(r, p);
    var (s, messages) := Recorded(r.state, p.number % U32_RANGE, p.now, p.controlOpen);
    ReceiptRun(
      s,
      Some(if r.highest.Some? && r.highest.value >= p.number then r.highest.value else p.number),
      r.requested + numbers,
      r.arrivedBy + seq(|numbers|, _ => count),
      r.messages + messages)
  }

  ghost function RunReceipt(packets: seq<Packet>): ReceiptRun {
    if |packets| == 0 then ReceiptRun(ReceiverStart(), None, [], [], [])
    else
      Received(RunReceipt(packets[..|packets| - 1]), packets[|packets| - 1], |packets|)
  }

  /** A packet within half the sequence range of the highest so far. */
  ghost predicate Plausible(highest: Option<nat>, number: nat) {
    highest.Some? ==> number < highest.value + HALF_RANGE && highest.value <= number + 0x8000_0000
  }

  ghost predicate PlausibleRun(packets: seq<Packet>) {
    && (forall i :: 0 <= i < |packets| ==> Plausible(RunReceipt(packets[..i]).highest, packets[i].number))
    && (forall i :: 0 < i < |packets| ==> packets[i - 1].now <= packets[i].now)
  }

  ghost function LastNow(packets: seq<Packet>): nat {
    if |packets| == 0 then 0 else packets[|packets| - 1].now
  }

  ghost predicate InvariantState(r: ReceiptRun, packets: seq<Packet>) {
    && r.state.highestSeq == (if r.highest.None? then None else Some(r.highest.value % U32_RANGE))
    && (|packets| > 0 ==> r.highest.Some?)
    && (forall i :: 0 <= i < |packets| ==> r.highest.Some? && packets[i].number <= r.highest.value)
    && r.state.windowUsed <= NACK_BUDGET_PER_SEC
    && r.state.windowStart <= LastNow(packets)
    && |r.requested| <= NACK_BUDGET_PER_SEC * (r.state.windowStart / SECOND_US) + r.state.windowUsed
  }

  ghost predicate InvariantRequests(r: ReceiptRun, packets: seq<Packet>) {
    && |r.arrivedBy| == |r.requested|
    && (forall i :: 0 <= i < |r.arrivedBy| ==> r.arrivedBy[i] <= |packets|)
    && Increasing(r.requested)
    && (forall i :: 0 <= i < |r.requested| ==> r.highest.Some? && r.requested[i] < r.highest.value)
    && (forall i, j :: 0 <= i < |r.requested| && 0 <= j < |packets| && j < r.arrivedBy[i] ==>
          packets[j].number != r.requested[i])
  }

  /** Age of packet numbers that are near each other. */
  lemma AgeOfNumbers(h: nat, n: nat)
    requires n < h + HALF_RANGE && h <= n + 0x8000_0000
    ensures Age(h % U32_RANGE, n % U32_RANGE) == if h <= n then n - h else n + U32_RANGE - h
  {
    var q, p := h / U32_RANGE, n / U32_RANGE;
    assert h == U32_RANGE * q + h % U32_RANGE && n == U32_RANGE * p + n % U32_RANGE;
    AgeBelow(h % U32_RANGE, n % U32_RANGE);
  }

  lemma ReceivedState(r: ReceiptRun, p: Packet, packets: seq<Packet>)
    requires InvariantState(r, packets) && Plausible(r.highest, p.number) && LastNow(packets) <= p.now
    ensures InvariantState(Received(r, p, |packets| + 1), packets + [p])
  {
    hide Age, Requests, Remember;
    var seqNo := p.number % U32_RANGE;
    if r.highest.Some? {
      AgeOfNumbers(r.highest.value, p.number);
    }
    BudgetKept(r.state, seqNo, p.now);
    WindowGrowth(r.state, seqNo, p.now, |r.requested|);
  }

  /** The running total stays within 150 per started second. */
  lemma WindowGrowth(s: ReceiverState, seqNo: u32, now: nat, total: nat)
    requires total <= NACK_BUDGET_PER_SEC * (s.windowStart / SECOND_US) + s.windowUsed
    requires s.windowUsed <= NACK_BUDGET_PER_SEC && s.windowStart <= now
    ensures total + |Requests(s, seqNo, now)|
      <= NACK_BUDGET_PER_SEC * (Noted(s, seqNo, now).windowStart / SECOND_US) + Noted(s, seqNo, now).windowUsed
    ensures Noted(s, seqNo, now).windowStart <= now
  {
    hide Age, NotIn, After, Remember;
    if Skips(s, seqNo) && Elapsed(now, s.windowStart) >= SECOND_US {
      assert now / SECOND_US >= s.windowStart / SECOND_US + 1;
    }
  }

  lemma NewRequests(r: ReceiptRun, p: Packet, packets: seq<Packet>)
    requires InvariantState(r, packets) && Plausible(r.highest, p.number)
    ensures Increasing(RequestedNumbers(r, p))
    ensures forall i :: 0 <= i < |RequestedNumbers(r, p)| ==>
      r.highest.Some? && r.highest.value < RequestedNumbers(r, p)[i] < p.number
  {
    hide Age, Requests;
    var seqNo := p.number % U32_RANGE;
    if |Requests(r.state, seqNo, p.now)| > 0 {
      RequestsBetween(r.state, seqNo, p.now);
      AgeOfNumbers(r.highest.value, p.number);
    }
  }

  /** The unwrapped request numbers stand for the sequence numbers put on the wire. */
  lemma RequestedNumbersTruncate(r: ReceiptRun, p: Packet, packets: seq<Packet>, i: nat)
    requires InvariantState(r, packets) && i < |RequestedNumbers(r, p)|
    ensures RequestedNumbers(r, p)[i] % U32_RANGE == Requests(r.state, p.number % U32_RANGE, p.now)[i]
  {
    hide Age, Requests;
    var m := Requests(r.state, p.number % U32_RANGE, p.now)[i];
    RequestsBetween(r.state, p.number % U32_RANGE, p.now);
    AgeAdds(r.highest.value, m);
  }

  lemma AgeAdds(h: nat, m: u32)
    ensures (h + Age(h % U32_RANGE, m)) % U32_RANGE == m
  {
    var q := h / U32_RANGE;
    assert h == U32_RANGE * q + h % U32_RANGE;
    AgeBelow(h % U32_RANGE, m);
  }

  lemma ReceivedRequests(r: ReceiptRun, p: Packet, packets: seq<Packet>)
    requires InvariantState(r, packets) && InvariantRequests(r, packets) && Plausible(r.highest, p.number)
    ensures InvariantRequests(Received(r, p, |packets| + 1), packets + [p])
  {
    hide Age, Requests, Recorded, RequestedNumbers;
    NewRequests(r, p, packets);
  }

  /** Over every plausible run with a monotone clock the two invariants hold: requested packet numbers
      strictly ascend, so none is requested twice, and none had arrived when it was requested. */
  lemma {:induction false} RequestsAreSound(packets: seq<Packet>)
    requires PlausibleRun(packets)
    ensures InvariantState(RunReceipt(packets), packets)
    ensures InvariantRequests(RunReceipt(packets), packets)
  {
    hide Received, Plausible, PlausibleRun, InvariantRequests, InvariantState;
    if |packets| == 0 {
      EmptyRun(packets);
    } else {
      var n := |packets| - 1;
      LastPlausible(packets, n);
      RequestsAreSound(packets[..n]);
      assert packets == packets[..n] + [packets[n]];
      ReceivedState(RunReceipt(packets[..n]), packets[n], packets[..n]);
      ReceivedRequests(RunReceipt(packets[..n]), packets[n], packets[..n]);
    }
  }

  /** At most 150 requests per started second of the clock. */
  lemma RequestBudget(packets: seq<Packet>)
    requires PlausibleRun(packets)
    ensures |RunReceipt(packets).requested| <= NACK_BUDGET_PER_SEC * (1 + LastNow(packets) / SECOND_US)
  {
    hide RunReceipt, PlausibleRun, InvariantRequests;
    RequestsAreSound(packets);
    assert RunReceipt(packets).state.windowStart / SECOND_US <= LastNow(packets) / SECOND_US;
  }

  lemma EmptyRun(packets: seq<Packet>)
    requires |packets| == 0
    ensures InvariantState(RunReceipt(packets), packets)
    ensures InvariantRequests(RunReceipt(packets), packets)
  {
  }

  lemma LastPlausible(packets: seq<Packet>, n: nat)
    requires PlausibleRun(packets) && n + 1 == |packets|
    ensures PlausibleRun(packets[..n])
    ensures Plausible(RunReceipt(packets[..n]).highest, packets[n].number)
    ensures LastNow(packets[..n]) <= packets[n].now
  {
    hide Plausible, RunReceipt;
    forall i | 0 <= i < n ensures Plausible(RunReceipt(packets[..n][..i]).highest, packets[..n][i].number) {
      assert packets[..n][..i] == packets[..i];
      assert Plausible(RunReceipt(packets[..i]).highest, packets[i].number);
    }
  }

  // ---------- The memory of requests, over any run ----------

  /** Every sequence number requested over a run, in order. */
  ghost function AllRequests(packets: seq<Packet>): seq<u32> {
    if |packets| == 0 then []
    else
      var n := |packets| - 1;
      AllRequests(packets[..n])
      + Requests(RunReceipt(packets[..n]).state, packets[n].number % U32_RANGE, packets[n].now)
  }

  ghost function LastRemembered(all: seq<u32>): seq<u32> {
    if |all| > NACK_MEMORY then all[|all| - NACK_MEMORY..] else all
  }

  /** No request repeats one of the 512 before it. */
  ghost predicate NoneRepeats(all: seq<u32>) {
    forall i, j :: 0 <= i < j < |all| && j - i <= NACK_MEMORY ==> all[i] != all[j]
  }

  lemma {:induction false} RememberIsLast(all: seq<u32>, more: seq<u32>)
    ensures Remember(LastRemembered(all), more) == LastRemembered(all + more)
    decreases |more|
  {
    hide LastRemembered;
    if |more| == 0 {
      assert all + more == all;
    } else {
      OneRemembered(all, more[0]);
      RememberIsLast(all + [more[0]], more[1..]);
      FirstOver(all, more);
    }
  }

  lemma FirstOver<T>(all: seq<T>, more: seq<T>)
    requires |more| > 0
    ensures (all + [more[0]]) + more[1..] == all + more
  {
  }

  lemma OneRemembered(all: seq<u32>, x: u32)
    ensures var nacked := LastRemembered(all);
      (if |nacked| == NACK_MEMORY then nacked[1..] else nacked) + [x] == LastRemembered(all + [x])
  {
  }

  /** Adding different numbers, none of them remembered. */
  lemma NoneRepeatsGrows(all: seq<u32>, more: seq<u32>)
    requires NoneRepeats(all)
    requires forall i, j :: 0 <= i < j < |more| ==> more[i] != more[j]
    requires forall x :: x in more ==> x !in LastRemembered(all)
    ensures NoneRepeats(all + more)
  {
    var both := all + more;
    forall i, j | 0 <= i < j < |both| && j - i <= NACK_MEMORY ensures both[i] != both[j] {
      if i < |all| <= j {
        var kept := LastRemembered(all);
        assert both[j] == more[j - |all|] && both[j] in more;
        assert kept[i - (|all| - |kept|)] == both[i];
      }
    }
  }

  lemma NotedMemory(s: ReceiverState, seqNo: u32, now: nat, controlOpen: bool)
    ensures Recorded(s, seqNo, now, controlOpen).0.nacked == Remember(s.nacked, Requests(s, seqNo, now))
  {
    hide Requests, Remember, Skips, WindowAt, FeedbackDue;
  }

  /** Over every run, whatever arrives and whatever the clock does: the memory is the last 512 requests, no request
      repeats one of the 512 before it, and so the memory never holds a number twice. */
  lemma {:induction false} RequestsRemembered(packets: seq<Packet>)
    ensures RunReceipt(packets).state.nacked == LastRemembered(AllRequests(packets))
    ensures NoneRepeats(AllRequests(packets))
    ensures forall i, j :: 0 <= i < j < |RunReceipt(packets).state.nacked| ==>
      RunReceipt(packets).state.nacked[i] != RunReceipt(packets).state.nacked[j]
  {
    hide Recorded, Requests, Remember, LastRemembered, NoneRepeats;
    if |packets| == 0 {
      NothingRemembered();
    } else {
      var n := |packets| - 1;
      var before, p := packets[..n], packets[n];
      RequestsRemembered(before);
      var s := RunReceipt(before).state;
      var more := Requests(s, p.number % U32_RANGE, p.now);
      NotedMemory(s, p.number % U32_RANGE, p.now, p.controlOpen);
      RememberIsLast(AllRequests(before), more);
      NewOnes(s, p.number % U32_RANGE, p.now);
      NoneRepeatsGrows(AllRequests(before), more);
    }
    MemoryDistinct(AllRequests(packets));
  }

  lemma NothingRemembered()
    ensures LastRemembered([]) == [] && NoneRepeats([])
  {
  }

  lemma MemoryDistinct(all: seq<u32>)
    requires NoneRepeats(all)
    ensures var kept := LastRemembered(all);
      forall i, j :: 0 <= i < j < |kept| ==> kept[i] != kept[j]
  {
    var kept := LastRemembered(all);
    forall i, j | 0 <= i < j < |kept| ensures kept[i] != kept[j] {
      var k := |all| - |kept|;
      assert kept[i] == all[k + i] && kept[j] == all[k + j];
    }
  }

  lemma NewOnes(s: ReceiverState, seqNo: u32, now: nat)
    ensures var more := Requests(s, seqNo, now);
      && (forall i, j :: 0 <= i < j < |more| ==> more[i] != more[j])
      && (forall x :: x in more ==> x !in s.nacked)
  {
    hide Requests, Age;
    if |Requests(s, seqNo, now)| > 0 {
      RequestsBetween(s, seqNo, now);
    }
  }

  // ---------- Every gap is asked about ----------

  /** The requests the window counts are the last ones, made since the window began. */
  ghost predicate WindowCounted(r: ReceiptRun, packets: seq<Packet>) {
    && r.state.windowUsed <= |r.arrivedBy|
    && (forall i :: |r.arrivedBy| - r.state.windowUsed <= i < |r.arrivedBy| ==>
          1 <= r.arrivedBy[i] <= |packets| && r.state.windowStart <= packets[r.arrivedBy[i] - 1].now)
  }

  lemma ReceivedCounted(r: ReceiptRun, p: Packet, packets: seq<Packet>)
    requires WindowCounted(r, packets) && r.state.windowStart <= p.now
    ensures WindowCounted(Received(r, p, |packets| + 1), packets + [p])
  {
    hide Age, Requests, Remember, Skips, FeedbackDue, RequestedNumber, Samples;
  }

  lemma {:induction false} RunCounted(packets: seq<Packet>)
    requires PlausibleRun(packets)
    ensures WindowCounted(RunReceipt(packets), packets)
  {
    hide Received, Plausible, PlausibleRun, WindowCounted;
    if |packets| == 0 {
      NothingCounted(packets);
    } else {
      var n := |packets| - 1;
      LastPlausible(packets, n);
      RunCounted(packets[..n]);
      assert packets == packets[..n] + [packets[n]];
      RequestsAreSound(packets[..n]);
      ReceivedCounted(RunReceipt(packets[..n]), packets[n], packets[..n]);
    }
  }

  lemma NothingCounted(packets: seq<Packet>)
    requires |packets| == 0
    ensures WindowCounted(RunReceipt(packets), packets)
  {
  }

  /** The budget is used up: the last 150 requests were all made within the second before now. */
  ghost predicate SpentWithin(r: ReceiptRun, packets: seq<Packet>, now: nat) {
    && |r.arrivedBy| >= NACK_BUDGET_PER_SEC
    && (forall i :: |r.arrivedBy| - NACK_BUDGET_PER_SEC <= i < |r.arrivedBy| ==>
          1 <= r.arrivedBy[i] <= |packets| && now < packets[r.arrivedBy[i] - 1].now + SECOND_US)
  }

  lemma SpentMeans(r: ReceiptRun, packets: seq<Packet>, now: nat)
    requires WindowCounted(r, packets) && r.state.windowUsed >= NACK_BUDGET_PER_SEC
    requires now < r.state.windowStart + SECOND_US
    ensures SpentWithin(r, packets, now)
  {
  }

  lemma WindowRecent(s: ReceiverState, seqNo: u32, now: nat, controlOpen: bool)
    requires Skips(s, seqNo)
    ensures var t := Recorded(s, seqNo, now, controlOpen).0;
      now < t.windowStart + SECOND_US && t.windowUsed == Noted(s, seqNo, now).windowUsed
  {
    hide Requests, Remember, Skips, Samples;
  }

  /** The wire numbers requested over a run, and the packets they stand for. */
  lemma {:induction false} AllRequestsAre(packets: seq<Packet>)
    requires PlausibleRun(packets)
    ensures |AllRequests(packets)| == |RunReceipt(packets).requested|
    ensures forall i :: 0 <= i < |AllRequests(packets)| ==>
      AllRequests(packets)[i] == RunReceipt(packets).requested[i] % U32_RANGE
  {
    hide Received, Requests, PlausibleRun, Plausible, InvariantState, InvariantRequests, RequestedNumbers, RunReceipt;
    if |packets| == 0 {
      NoPackets();
    } else {
      var n := |packets| - 1;
      LastPlausible(packets, n);
      AllRequestsAre(packets[..n]);
      RequestsAreSound(packets[..n]);
      assert packets[..n] + [packets[n]] == packets;
      RunGrows(packets[..n], packets[n]);
      RequestsAppended(RunReceipt(packets[..n]), packets[n], packets[..n]);
    }
  }

  lemma RequestsAppended(r: ReceiptRun, p: Packet, packets: seq<Packet>)
    requires InvariantState(r, packets)
    ensures var numbers, missing := RequestedNumbers(r, p), Requests(r.state, p.number % U32_RANGE, p.now);
      && Received(r, p, |packets| + 1).requested == r.requested + numbers && |numbers| == |missing|
      && forall i :: 0 <= i < |numbers| ==> missing[i] == numbers[i] % U32_RANGE
  {
    hide Recorded, Requests, InvariantState, RequestedNumbers;
    var numbers := RequestedNumbers(r, p);
    forall i | 0 <= i < |numbers|
      ensures Requests(r.state, p.number % U32_RANGE, p.now)[i] == numbers[i] % U32_RANGE {
      RequestedNumbersTruncate(r, p, packets, i);
    }
  }

  /** One of the last 512 requests was for a packet a multiple of 2^32 before this one. */
  ghost predicate OldNumberRemembered(r: ReceiptRun, x: nat) {
    exists i: nat :: i < |r.requested| <= i + NACK_MEMORY && SameNumber(r.requested[i], x)
  }

  ghost predicate SameNumber(a: nat, b: nat) {
    a % U32_RANGE == b % U32_RANGE
  }

  lemma RememberedMeans(packets: seq<Packet>, x: nat)
    requires PlausibleRun(packets)
    ensures x % U32_RANGE in RunReceipt(packets).state.nacked <==> OldNumberRemembered(RunReceipt(packets), x)
  {
    hide PlausibleRun, RunReceipt, AllRequests, LastRemembered;
    RequestsRemembered(packets);
    AllRequestsAre(packets);
    LastIn(AllRequests(packets), x % U32_RANGE);
    var all, r := AllRequests(packets), RunReceipt(packets);
    if x % U32_RANGE in r.state.nacked {
      var i: nat :| i < |all| <= i + NACK_MEMORY && all[i] == x % U32_RANGE;
      assert SameNumber(r.requested[i], x);
    }
    if OldNumberRemembered(r, x) {
      var i: nat :| i < |r.requested| <= i + NACK_MEMORY && SameNumber(r.requested[i], x);
      assert all[i] == x % U32_RANGE;
    }
  }

  lemma LastIn(all: seq<u32>, m: u32)
    ensures m in LastRemembered(all) <==> exists i: nat :: i < |all| <= i + NACK_MEMORY && all[i] == m
  {
    var kept := LastRemembered(all);
    var k := |all| - |kept|;
    assert kept == all[k..];
    if m in kept {
      var j: nat :| j < |kept| && kept[j] == m;
      assert all[k + j] == m;
    }
    if i: nat :| i < |all| <= i + NACK_MEMORY && all[i] == m {
      assert kept[i - k] == m;
    }
  }

  lemma NumbersHold(r: ReceiptRun, p: Packet, packets: seq<Packet>, x: nat)
    requires InvariantState(r, packets) && Plausible(r.highest, p.number)
    requires r.highest.Some? && r.highest.value < x < p.number
    ensures x in RequestedNumbers(r, p) <==> x % U32_RANGE in Requests(r.state, p.number % U32_RANGE, p.now)
  {
    hide Requests, Age;
    var missing := Requests(r.state, p.number % U32_RANGE, p.now);
    var numbers := RequestedNumbers(r, p);
    AgeOfNumbers(r.highest.value, x);
    if x % U32_RANGE in missing {
      var i :| 0 <= i < |missing| && missing[i] == x % U32_RANGE;
      assert numbers[i] == x;
    }
    if x in numbers {
      var i :| 0 <= i < |numbers| && numbers[i] == x;
      RequestedNumbersTruncate(r, p, packets, i);
    }
  }

  /** Over every plausible run, a packet skipped by a gap of at most 64 is requested when the gap shows, unless the
      budget of the second is used up. It is then requested exactly when none of the last 512 requests was for a packet
      with the same wire number; and on an open channel it is in a message sent. */
  lemma SkippedIsRequested(packets: seq<Packet>, x: nat)
    requires PlausibleRun(packets) && |packets| > 0
    requires var r, p := RunReceipt(packets[..|packets| - 1]), packets[|packets| - 1];
      r.highest.Some? && r.highest.value < x < p.number <= r.highest.value + NACK_REACH
    ensures var r, q, p := RunReceipt(packets[..|packets| - 1]), RunReceipt(packets), packets[|packets| - 1];
      && |r.requested| <= |q.requested|
      && (SpentWithin(q, packets, p.now)
          || (x in q.requested[|r.requested|..] <==> !OldNumberRemembered(r, x)))
      && (x in q.requested[|r.requested|..] && p.controlOpen ==>
            exists seqs :: Nack(seqs) in q.messages && x % U32_RANGE in seqs)
  {
    hide PlausibleRun, Plausible, InvariantRequests, WindowCounted, Requests, Age, Recorded, Noted, SpentWithin,
         OldNumberRemembered;
    var n := |packets| - 1;
    var before, p := packets[..n], packets[n];
    var r, q, seqNo := RunReceipt(before), RunReceipt(packets), p.number % U32_RANGE;
    LastPlausible(packets, n);
    RequestsAreSound(before);
    AgeOfNumbers(r.highest.value, p.number);
    AgeOfNumbers(r.highest.value, x);
    GapIsRequested(r.state, seqNo, p.now, x % U32_RANGE);
    if |Requests(r.state, seqNo, p.now)| > 0 {
      RequestsBetween(r.state, seqNo, p.now);
    }
    RequestIsSent(r.state, seqNo, p.now, p.controlOpen);
    NumbersHold(r, p, before, x);
    assert q.requested[|r.requested|..] == RequestedNumbers(r, p);
    RememberedMeans(before, x);
    RunCounted(packets);
    WindowRecent(r.state, seqNo, p.now, p.controlOpen);
    if q.state.windowUsed >= NACK_BUDGET_PER_SEC {
      SpentMeans(q, packets, p.now);
    }
  }

  lemma RunGrows(packets: seq<Packet>, p: Packet)
    ensures RunReceipt(packets + [p]) == Received(RunReceipt(packets), p, |packets| + 1)
  {
    hide Received;
    assert (packets + [p])[..|packets|] == packets;
  }

  lemma OneMorePacket(packets: seq<Packet>, p: Packet)
    requires PlausibleRun(packets) && Plausible(RunReceipt(packets).highest, p.number) && LastNow(packets) <= p.now
    ensures PlausibleRun(packets + [p])
    ensures RunReceipt(packets + [p]) == Received(RunReceipt(packets), p, |packets| + 1)
  {
    hide Plausible, PlausibleRun, RunReceipt, Received;
    RunGrows(packets, p);
    forall i | 0 <= i <= |packets|
      ensures Plausible(RunReceipt((packets + [p])[..i]).highest, (packets + [p])[i].number) {
      PlausibleAt(packets, p, i);
    }
    GrownPlausible(packets, p);
  }

  lemma PlausibleAt(packets: seq<Packet>, p: Packet, i: nat)
    requires PlausibleRun(packets) && Plausible(RunReceipt(packets).highest, p.number) && i <= |packets|
    ensures Plausible(RunReceipt((packets + [p])[..i]).highest, (packets + [p])[i].number)
  {
    hide Plausible, RunReceipt;
    assert (packets + [p])[..i] == packets[..i];
    assert packets[..|packets|] == packets;
  }

  lemma GrownPlausible(packets: seq<Packet>, p: Packet)
    requires PlausibleRun(packets) && LastNow(packets) <= p.now
    requires forall i :: 0 <= i <= |packets| ==>
      Plausible(RunReceipt((packets + [p])[..i]).highest, (packets + [p])[i].number)
    ensures PlausibleRun(packets + [p])
  {
    hide Plausible, RunReceipt;
  }

  /** A jump ahead of more than 64 asks for nothing. */
  lemma JumpAhead(packets: seq<Packet>, number: nat)
    requires PlausibleRun(packets) && |packets| > 0 && LastNow(packets) == 0
    requires RunReceipt(packets).highest.value + NACK_REACH < number < RunReceipt(packets).highest.value + HALF_RANGE
    ensures var r, more := RunReceipt(packets), packets + [Packet(number, 0, false)];
      && PlausibleRun(more) && LastNow(more) == 0
      && RunReceipt(more).requested == r.requested && RunReceipt(more).highest == Some(number)
      && RunReceipt(more).state.windowUsed == r.state.windowUsed
  {
    hide PlausibleRun, RunReceipt, Requests, Remember, Age, Samples, FeedbackDue, RequestedNumber, InvariantRequests;
    var r, p := RunReceipt(packets), Packet(number, 0, false);
    OneMorePacket(packets, p);
    RequestsAreSound(packets);
    AgeOfNumbers(r.highest.value, number);
    NoGapNoRequest(r.state, number % U32_RANGE, 0);
  }

  lemma NoGapNoRequest(s: ReceiverState, seqNo: u32, now: nat)
    requires !Skips(s, seqNo)
    ensures Requests(s, seqNo, now) == []
  {
  }

  /** Packet 1 is lost and requested, and the numbers then wrap around with no other loss noticed. */
  ghost function WrapRun(): seq<Packet> {
    [Packet(0, 0, false), Packet(2, 0, false)] + [Packet(0x7000_0000, 0, false)] + [Packet(0xe000_0000, 0, false)]
    + [Packet(0x1_0000_0000, 0, false)]
  }

  lemma FirstLoss()
    ensures var two := [Packet(0, 0, false), Packet(2, 0, false)];
      && PlausibleRun(two) && RunReceipt(two).requested == [1] && RunReceipt(two).highest == Some(2)
      && RunReceipt(two).state.windowUsed == 1
  {
    hide PlausibleRun, RunReceipt, Received;
    var p, q := Packet(0, 0, false), Packet(2, 0, false);
    NoPackets();
    OneMorePacket([], p);
    assert [] + [p] == [p] && [p] + [q] == [p, q];
    AfterFirst();
    OneMorePacket([p], q);
    AfterSecond();
  }

  lemma NoPackets()
    ensures PlausibleRun([]) && RunReceipt([]) == ReceiptRun(ReceiverStart(), None, [], [], [])
  {
  }

  ghost function FirstState(): ReceiverState {
    ReceiverState([(0, 0)], 0, Some(0), [], 0, 0)
  }

  lemma AfterFirst()
    ensures Received(ReceiptRun(ReceiverStart(), None, [], [], []), Packet(0, 0, false), 1)
         == ReceiptRun(FirstState(), Some(0), [], [], [])
  {
  }

  lemma AfterSecond()
    ensures var r := Received(ReceiptRun(FirstState(), Some(0), [], [], []), Packet(2, 0, false), 2);
      r.requested == [1] && r.highest == Some(2) && r.state.windowUsed == 1
  {
    hide Samples, FeedbackDue, Remember;
    assert Age(0, 2) == 2 && Age(0, 1) == 1;
    assert After(0, 1) == [1] && [1][..0] == [];
    assert NotIn([], []) == [];
    assert NotIn([1], []) == [1];
    assert Requests(FirstState(), 2, 0) == [1];
  }

  /** Then packet 2^32 + 1 is lost and, though the budget is far from used up, not requested: its number is in the
      memory. */
  lemma OldNumberBlocks()
    ensures var run := WrapRun() + [Packet(0x1_0000_0002, 0, false)];
      && PlausibleRun(run)
      && RunReceipt(WrapRun()).highest == Some(0x1_0000_0000)
      && RunReceipt(run).requested == [1]
  {
    hide PlausibleRun, RunReceipt, Requests, Received, Age;
    var two := [Packet(0, 0, false), Packet(2, 0, false)];
    FirstLoss();
    JumpAhead(two, 0x7000_0000);
    JumpAhead(two + [Packet(0x7000_0000, 0, false)], 0xe000_0000);
    JumpAhead(two + [Packet(0x7000_0000, 0, false)] + [Packet(0xe000_0000, 0, false)], 0x1_0000_0000);
    var r, p := RunReceipt(WrapRun()), Packet(0x1_0000_0002, 0, false);
    var run := WrapRun() + [p];
    OneMorePacket(WrapRun(), p);
    assert run[..|run| - 1] == WrapRun();
    LastGapBlocked(run);
  }

  lemma LastGapBlocked(run: seq<Packet>)
    requires |run| > 0 && PlausibleRun(run) && run[|run| - 1] == Packet(0x1_0000_0002, 0, false)
    requires var r := RunReceipt(run[..|run| - 1]);
      r.requested == [1] && r.highest == Some(0x1_0000_0000)
    ensures RunReceipt(run).requested == [1]
  {
    hide PlausibleRun, Requests, Age, InvariantState, InvariantRequests, Recorded, RequestedNumbers;
    var n := |run| - 1;
    var r, q, p := RunReceipt(run[..n]), RunReceipt(run), run[n];
    SkippedIsRequested(run, 0x1_0000_0001);
    assert SameNumber(r.requested[0], 0x1_0000_0001);
    LastPlausible(run, n);
    RequestsAreSound(run);
    RequestsAreSound(run[..n]);
    NewRequests(r, p, run[..n]);
    FirstsAscend(RequestedNumbers(r, p));
    SameCount(run);
    assert q.requested[1..] == RequestedNumbers(r, p);
  }

  lemma FirstsAscend(numbers: seq<nat>)
    requires Increasing(numbers)
    ensures |numbers| > 0 ==> numbers[0] in numbers
    ensures |numbers| > 1 ==> numbers[0] < numbers[1]
  {
  }

  lemma SameCount(packets: seq<Packet>)
    requires PlausibleRun(packets)
    ensures |RunReceipt(packets).arrivedBy| == |RunReceipt(packets).requested|
  {
    hide PlausibleRun, RunReceipt;
    RequestsAreSound(packets);
  }

  // ---------- Feedback over whole runs ----------

  ghost function TimesOf(fb: Feedback): seq<(u32, nat)> {
    seq(|fb.samples|, i requires 0 <= i < |fb.samples| => (fb.samples[i].0, fb.baseArrivalUs + fb.samples[i].1))
  }

  /** What the feedback messages say, in order. */
  ghost function ReportedArrivals(messages: seq<Message>): seq<(u32, nat)> {
    if |messages| == 0 then []
    else
      ReportedArrivals(messages[..|messages| - 1]) + Says(messages[|messages| - 1])
  }

  ghost function Says(m: Message): seq<(u32, nat)> {
    match m
    case Nack(_) => []
    case PacketFeedback(fb) => TimesOf(fb)
  }

  ghost function ArrivalLog(packets: seq<Packet>): seq<(u32, nat)> {
    seq(|packets|, i requires 0 <= i < |packets| => (packets[i].number % U32_RANGE, packets[i].now))
  }

  /** The clock is monotone and no silence reaches the range of a 32-bit time difference. */
  ghost predicate NoLongSilence(packets: seq<Packet>) {
    forall i :: 0 < i < |packets| ==>
      packets[i - 1].now <= packets[i].now < packets[i - 1].now + U32_RANGE - FEEDBACK_INTERVAL_US
  }

  /** Unsent arrivals came after the last report, within one feedback interval. */
  ghost predicate BatchRecent(s: ReceiverState, last: nat) {
    && |s.feedbackBatch| < MAX_BATCH
    && s.lastFeedbackUs <= last
    && (|s.feedbackBatch| > 0 ==> last < s.lastFeedbackUs + FEEDBACK_INTERVAL_US)
    && (forall i :: 0 <= i < |s.feedbackBatch| ==> s.lastFeedbackUs <= s.feedbackBatch[i].1 <= last)
    && (forall i :: 0 <= i < |s.feedbackBatch| ==> s.feedbackBatch[0].1 <= s.feedbackBatch[i].1)
  }

  lemma SamplesExact(batch: seq<(u32, nat)>, base: nat)
    requires forall i :: 0 <= i < |batch| ==> base <= batch[i].1 < base + U32_RANGE
    ensures TimesOf(Feedback(base, Samples(batch, base))) == batch
  {
  }

  lemma {:induction false} ReportedAppend(a: seq<Message>, b: seq<Message>)
    ensures ReportedArrivals(a + b) == ReportedArrivals(a) + ReportedArrivals(b)
  {
    hide Says;
    if |b| == 0 {
      assert a + b == a;
    } else {
      assert (a + b)[..|a + b| - 1] == a + b[..|b| - 1];
      ReportedAppend(a, b[..|b| - 1]);
    }
  }

  lemma ReportedSingle(m: Message)
    ensures ReportedArrivals([m]) == Says(m)
  {
    hide Says;
    assert [m][..0] == [];
    assert [] + Says(m) == Says(m);
  }

  /** The arrival joins the unsent batch. */
  lemma NotedRecent(s: ReceiverState, seqNo: u32, now: nat, last: nat)
    requires BatchRecent(s, last) && last <= now
    ensures var noted := Noted(s, seqNo, now);
      && noted.feedbackBatch == s.feedbackBatch + [(seqNo, now)]
      && noted.lastFeedbackUs == s.lastFeedbackUs
      && (!FeedbackDue(noted, now) ==> BatchRecent(noted, now))
  {
    hide Requests, Remember, Skips, WindowAt;
  }

  /** A batch's samples give back its times. */
  lemma BatchExact(s: ReceiverState, seqNo: u32, now: nat, last: nat)
    requires BatchRecent(s, last) && last <= now
    requires |s.feedbackBatch| > 0 ==> now < last + U32_RANGE - FEEDBACK_INTERVAL_US
    ensures var batch := s.feedbackBatch + [(seqNo, now)];
      TimesOf(Feedback(batch[0].1, Samples(batch, batch[0].1))) == batch
  {
    var batch := s.feedbackBatch + [(seqNo, now)];
    SamplesExact(batch, batch[0].1);
  }

  /** One arrival with the control channel up: nothing is dropped, added or mistimed. */
  lemma RecordedReports(s: ReceiverState, seqNo: u32, now: nat, last: nat)
    requires BatchRecent(s, last) && last <= now
    requires |s.feedbackBatch| > 0 ==> now < last + U32_RANGE - FEEDBACK_INTERVAL_US
    ensures var (after, messages) := Recorded(s, seqNo, now, true);
      ReportedArrivals(messages) + after.feedbackBatch == s.feedbackBatch + [(seqNo, now)]
    ensures BatchRecent(Recorded(s, seqNo, now, true).0, now)
  {
    hide Requests, Noted, BatchRecent, ReportedArrivals, TimesOf, Samples, FeedbackDue;
    var missing := Requests(s, seqNo, now);
    var noted := Noted(s, seqNo, now);
    NotedRecent(s, seqNo, now, last);
    ReportedSingle(Nack(missing));
    Nothing();
    if FeedbackDue(noted, now) {
      BatchExact(s, seqNo, now, last);
      var base := noted.feedbackBatch[0].1;
      var m := PacketFeedback(Feedback(base, Samples(noted.feedbackBatch, base)));
      ReportedSingle(m);
      ReportedAppend(if |missing| > 0 then [Nack(missing)] else [], [m]);
      SentRecent(noted, now);
    }
  }

  lemma Nothing()
    ensures ReportedArrivals([]) == []
  {
  }

  lemma SentRecent(s: ReceiverState, now: nat)
    ensures BatchRecent(s.(lastFeedbackUs := now, feedbackBatch := []), now)
  {
  }

  /** Over a run with the control channel up, the feedback messages and the unsent batch together are
      exactly the arrivals, in order, each once and with its own time. */
  lemma {:induction false} EveryArrivalReported(packets: seq<Packet>)
    requires NoLongSilence(packets) && forall i :: 0 <= i < |packets| ==> packets[i].controlOpen
    ensures var r := RunReceipt(packets);
      && ReportedArrivals(r.messages) + r.state.feedbackBatch == ArrivalLog(packets)
      && BatchRecent(r.state, LastNow(packets))
  {
    hide Recorded, ReportedArrivals, BatchRecent, ArrivalLog;
    if |packets| == 0 {
      Nothing();
      EmptyLog();
    } else {
      var before := packets[..|packets| - 1];
      var p := packets[|packets| - 1];
      EveryArrivalReported(before);
      var r := RunReceipt(before);
      var messages := Recorded(r.state, p.number % U32_RANGE, p.now, true).1;
      assert |before| == 0 ==> r.state.feedbackBatch == [];
      RecordedReports(r.state, p.number % U32_RANGE, p.now, LastNow(before));
      ReportedAppend(r.messages, messages);
      LogGrows(before, p);
      Regroup(ReportedArrivals(r.messages), r.state.feedbackBatch, [(p.number % U32_RANGE, p.now)],
        ReportedArrivals(messages), RunReceipt(packets).state.feedbackBatch);
      assert packets == before + [p];
    }
  }

  lemma EmptyLog()
    ensures ArrivalLog([]) == [] && BatchRecent(ReceiverStart(), 0)
  {
  }

  lemma LogGrows(before: seq<Packet>, p: Packet)
    ensures ArrivalLog(before + [p]) == ArrivalLog(before) + [(p.number % U32_RANGE, p.now)]
  {
  }

  lemma Regroup<T>(a: seq<T>, b: seq<T>, c: seq<T>, d: seq<T>, e: seq<T>)
    requires d + e == b + c
    ensures (a + d) + e == (a + b) + c
  {
    assert (a + d) + e == a + (d + e);
    assert (a + b) + c == a + (b + c);
  }

  // ---------- How often feedback is sent ----------

  /** Reports of full batches, and reports sent for the time that passed. */
  ghost function FullReports(messages: seq<Message>): nat {
    if |messages| == 0 then 0
    else
      var m := messages[|messages| - 1];
      FullReports(messages[..|messages| - 1])
      + if m.PacketFeedback? && |m.feedback.samples| >= MAX_BATCH then 1 else 0
  }

  ghost function TimedReports(messages: seq<Message>): nat {
    if |messages| == 0 then 0
    else
      var m := messages[|messages| - 1];
      TimedReports(messages[..|messages| - 1])
      + if m.PacketFeedback? && |m.feedback.samples| < MAX_BATCH then 1 else 0
  }

  lemma ReportsOf(messages: seq<Message>, missing: seq<u32>, fb: Feedback, nack: bool, due: bool)
    ensures var more := messages + (if nack then [Nack(missing)] else []) + if due then [PacketFeedback(fb)] else [];
      && FullReports(more) == FullReports(messages) + (if due && |fb.samples| >= MAX_BATCH then 1 else 0)
      && TimedReports(more) == TimedReports(messages) + (if due && |fb.samples| < MAX_BATCH then 1 else 0)
  {
    var nacked := messages + if nack then [Nack(missing)] else [];
    if nack {
      assert nacked[..|nacked| - 1] == messages;
    } else {
      assert nacked == messages;
    }
    var more := nacked + if due then [PacketFeedback(fb)] else [];
    if due {
      assert more[..|more| - 1] == nacked;
    } else {
      assert more == nacked;
    }
  }

  /** Full reports use up 512 arrivals each, the others 50 ms of the clock each. */
  ghost predicate ReportsPaid(r: ReceiptRun, arrived: nat, last: nat) {
    && MAX_BATCH * FullReports(r.messages) + |r.state.feedbackBatch| <= arrived
    && FEEDBACK_INTERVAL_US * TimedReports(r.messages) <= r.state.lastFeedbackUs <= last
  }

  lemma ReceivedPaid(r: ReceiptRun, p: Packet, arrived: nat, last: nat)
    requires ReportsPaid(r, arrived, last) && last <= p.now
    ensures ReportsPaid(Received(r, p, arrived + 1), arrived + 1, p.now)
  {
    hide Requests, Noted, RequestedNumbers, FullReports, TimedReports;
    var seqNo := p.number % U32_RANGE;
    var missing, noted := Requests(r.state, seqNo, p.now), Noted(r.state, seqNo, p.now);
    NotedBatch(r.state, seqNo, p.now);
    var base := noted.feedbackBatch[0].1;
    var fb := Feedback(base, Samples(noted.feedbackBatch, base));
    var nack, due := |missing| > 0 && p.controlOpen, FeedbackDue(noted, p.now) && p.controlOpen;
    ReportsOf(r.messages, missing, fb, nack, due);
    assert Received(r, p, arrived + 1).messages
        == r.messages + (if nack then [Nack(missing)] else []) + if due then [PacketFeedback(fb)] else [];
  }

  /** Over every run with a monotone clock the feedback messages number at most one per 512 arrivals and one per
      50 ms. */
  lemma {:induction false} FeedbackRate(packets: seq<Packet>)
    requires forall i :: 0 < i < |packets| ==> packets[i - 1].now <= packets[i].now
    ensures ReportsPaid(RunReceipt(packets), |packets|, LastNow(packets))
  {
    hide Received, ReportsPaid;
    if |packets| == 0 {
      NothingPaid();
    } else {
      var n := |packets| - 1;
      FeedbackRate(packets[..n]);
      ReceivedPaid(RunReceipt(packets[..n]), packets[n], n, LastNow(packets[..n]));
    }
  }

  lemma NothingPaid()
    ensures ReportsPaid(RunReceipt([]), 0, 0)
  {
  }
}
