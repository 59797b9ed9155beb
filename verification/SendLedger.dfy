/** Every packet's record over whole runs of sends and feedback batches
    (crates/session/src/pipeline.rs, crates/session/src/bwe_driver.rs, crates/session/src/service.rs). */
module SendLedger {
  import opened Wrappers
  import opened Arithmetic
  import opened Datagram
  import opened PacketReceipt
  import opened SendRecords

  // ---------- Where every record is ----------

  /** A packet goes out, or a feedback batch comes in. */
  datatype Event =
    | Sends(sentUs: nat, bytes: u32, padding: bool, cluster: Option<nat>)
    | Batch(fb: Feedback, now: nat)

  /** pushed: all records in send order; entered: number of batches before a record left the history;
      received and lost: batch and arrival time, or batch and time of the loss report. */
  datatype Ledger = Ledger(
    pushed: seq<SendRecord>,
    history: seq<SendRecord>,
    evicted: set<u32>,
    pending: map<u32, SendRecord>,
    received: map<u32, (nat, nat)>,
    lost: map<u32, (nat, nat)>,
    entered: map<u32, nat>,
    batches: seq<Feedback>)

  ghost function LedgerStart(): Ledger {
    Ledger([], [], {}, map[], map[], map[], map[], [])
  }

  function Numbers(records: seq<SendRecord>): set<u32> {
    set i | 0 <= i < |records| :: records[i].seqNo
  }

  ghost function ArrivalsOf(fb: Feedback): map<u32, nat> {
    Arrivals(fb.baseArrivalUs, fb.samples)
  }

  /** Stamp, record, and evict when the history is full. */
  ghost function AfterSend(l: Ledger, e: Event): Ledger
    requires e.Sends? && |l.pushed| < U32_RANGE
  {
    var r := SendRecord(|l.pushed|, e.sentUs, e.bytes, e.padding, e.cluster);
    l.(pushed := l.pushed + [r],
       history := HistoryPush(l.history, r),
       evicted := if |l.history| == SEND_HISTORY_CAP then l.evicted + {l.history[0].seqNo} else l.evicted)
  }

  /** Records up to the batch's last number leave the history; the batch is joined with all pending ones. */
  ghost function AfterBatch(l: Ledger, fb: Feedback, now: nat): Ledger {
    if |fb.samples| == 0 then l
    else
      var n := UptoCount(l.history, fb.samples[|fb.samples| - 1].0);
      var sent := l.history[..n];
      var all := WithPending(l.pending, sent);
      var arrivals := ArrivalsOf(fb);
      var matched := Matched(all, arrivals);
      var rest := all - matched;
      var expired := Expired(rest, now);
      var b := |l.batches|;
      l.(history := l.history[n..],
         pending := PendingAfter(l.pending, sent, fb, now),
         received := l.received + map s | s in matched :: (b, arrivals[s]),
         lost := l.lost + map s | s in expired :: (b, now),
         entered := l.entered + map s | s in Numbers(sent) :: b,
         batches := l.batches + [fb])
  }

  /** Packets sent so far. */
  ghost function SendCount(events: seq<Event>): nat {
    if |events| == 0 then 0
    else SendCount(events[..|events| - 1]) + Once(events[|events| - 1].Sends?)
  }

  ghost predicate FewPackets(events: seq<Event>) {
    SendCount(events) <= U32_RANGE
  }

  ghost function RunLedger(events: seq<Event>): (l: Ledger)
    requires FewPackets(events)
    ensures |l.pushed| == SendCount(events)
  {
    if |events| == 0 then LedgerStart()
    else
      var l := RunLedger(events[..|events| - 1]);
      match events[|events| - 1]
      case Sends(_, _, _, _) => AfterSend(l, events[|events| - 1])
      case Batch(fb, now) => AfterBatch(l, fb, now)
  }

  ghost predicate InHistory(l: Ledger, s: u32) {
    |l.pushed| - |l.history| <= s < |l.pushed|
  }

  ghost function Once(b: bool): nat {
    if b then 1 else 0
  }

  /** A pushed record is in exactly one place; a number not yet used is nowhere. */
  ghost predicate AccountedOnce(l: Ledger, s: u32) {
    Once(InHistory(l, s)) + Once(s in l.evicted) + Once(s in l.pending) + Once(s in l.received) + Once(s in l.lost)
      == Once(s < |l.pushed|)
  }

  /** No batch from the given one up to before the end names the record. */
  ghost predicate Unreported(batches: seq<Feedback>, s: u32, from: nat, end: nat)
    requires end <= |batches|
  {
    forall j :: from <= j < end ==> s !in ArrivalsOf(batches[j])
  }

  ghost predicate RecordsInPlace(l: Ledger) {
    && |l.history| <= |l.pushed| <= U32_RANGE
    && (forall i :: 0 <= i < |l.pushed| ==> l.pushed[i].seqNo == i)
    && l.history == l.pushed[|l.pushed| - |l.history|..]
    && (forall s :: s in l.pending ==> s < |l.pushed| && l.pending[s] == l.pushed[s])
  }

  ghost predicate PendingUnreported(l: Ledger) {
    forall s :: s in l.pending ==>
      s in l.entered && l.entered[s] <= |l.batches| && Unreported(l.batches, s, l.entered[s], |l.batches|)
  }

  /** Reported received with the time its batch gives. */
  ghost predicate ReceivedRight(l: Ledger) {
    forall s :: s in l.received ==>
      l.received[s].0 < |l.batches| && s in ArrivalsOf(l.batches[l.received[s].0])
      && l.received[s].1 == ArrivalsOf(l.batches[l.received[s].0])[s]
  }

  /** Reported lost only past the grace period, and named by no batch while pending. */
  ghost predicate LostRightly(l: Ledger, s: u32)
    requires s in l.lost
  {
    && s < |l.pushed| && s in l.entered && l.entered[s] <= l.lost[s].0 < |l.batches|
    && l.lost[s].1 > l.pushed[s].sentUs + LOST_GRACE_US
    && Unreported(l.batches, s, l.entered[s], l.lost[s].0 + 1)
  }

  ghost predicate LostRight(l: Ledger) {
    forall s :: s in l.lost ==> LostRightly(l, s)
  }

  ghost predicate Balanced(l: Ledger) {
    && RecordsInPlace(l)
    && (forall s: u32 :: AccountedOnce(l, s))
    && PendingUnreported(l)
    && ReceivedRight(l)
    && LostRight(l)
  }

  // ---------- Keeping the balance ----------

  lemma AfterSendBalanced(l: Ledger, e: Event)
    requires e.Sends? && |l.pushed| < U32_RANGE && Balanced(l)
    ensures Balanced(AfterSend(l, e))
  {
    hide Unreported, ArrivalsOf;
    var l' := AfterSend(l, e);
    assert l'.history == l'.pushed[|l'.pushed| - |l'.history|..];
    forall s: u32 ensures AccountedOnce(l', s) {
      assert AccountedOnce(l, s);
    }
  }

  /** Merging consecutive records into the pending map. */
  lemma {:induction false} WithPendingIs(pending: map<u32, SendRecord>, pushed: seq<SendRecord>, lo: nat, n: nat,
                                         s: u32)
    requires lo + n <= |pushed| <= U32_RANGE
    requires forall i :: 0 <= i < |pushed| ==> pushed[i].seqNo == i
    ensures var all := WithPending(pending, pushed[lo..lo + n]);
      && (s in all <==> s in pending || lo <= s < lo + n)
      && (s in all ==> all[s] == if lo <= s < lo + n then pushed[s] else pending[s])
  {
    if n > 0 {
      WithPendingIs(pending, pushed, lo, n - 1, s);
      var sent := pushed[lo..lo + n];
      assert sent[..|sent| - 1] == pushed[lo..lo + n - 1];
      assert sent[|sent| - 1] == pushed[lo + n - 1];
    }
  }

  lemma NumbersAre(pushed: seq<SendRecord>, lo: nat, n: nat, s: u32)
    requires lo + n <= |pushed| && forall i :: 0 <= i < |pushed| ==> pushed[i].seqNo == i
    ensures s in Numbers(pushed[lo..lo + n]) <==> lo <= s < lo + n
  {
    var sent := pushed[lo..lo + n];
    if lo <= s < lo + n {
      assert sent[s - lo].seqNo == s;
    }
  }

  /** The record leaves the history with this batch. */
  ghost predicate Taken(l: Ledger, fb: Feedback, s: u32) {
    |fb.samples| > 0 && InHistory(l, s) && s <= fb.samples[|fb.samples| - 1].0
  }

  /** The record is joined with this batch. */
  ghost predicate Open(l: Ledger, fb: Feedback, s: u32) {
    s < |l.pushed| && (Taken(l, fb, s) || s in l.pending)
  }

  ghost predicate Overdue(l: Ledger, now: nat, s: u32)
    requires s < |l.pushed|
  {
    now > l.pushed[s].sentUs + LOST_GRACE_US
  }

  ghost predicate NowReceived(l: Ledger, fb: Feedback, s: u32) {
    Open(l, fb, s) && s in ArrivalsOf(fb)
  }

  ghost predicate NowLost(l: Ledger, fb: Feedback, now: nat, s: u32) {
    Open(l, fb, s) && s !in ArrivalsOf(fb) && Overdue(l, now, s)
  }

  /** The history keeps exactly the numbers above the batch's last one. */
  lemma TakenIs(l: Ledger, fb: Feedback, s: u32)
    requires RecordsInPlace(l) && |fb.samples| > 0
    ensures var n := UptoCount(l.history, fb.samples[|fb.samples| - 1].0);
      var lo := |l.pushed| - |l.history|;
      && l.history[..n] == l.pushed[lo..lo + n]
      && l.history[n..] == l.pushed[lo + n..]
      && (Taken(l, fb, s) <==> lo <= s < lo + n)
  {
    hide UptoCount;
    var lo := |l.pushed| - |l.history|;
    if InHistory(l, s) {
      assert l.history[s - lo].seqNo == s;
    }
    var n := UptoCount(l.history, fb.samples[|fb.samples| - 1].0);
    if n < |l.history| {
      assert l.history[n].seqNo == lo + n;
    }
  }

  /** Where a batch moves one record. */
  ghost predicate Moved(l: Ledger, l': Ledger, fb: Feedback, now: nat, s: u32) {
    && (InHistory(l', s) <==> InHistory(l, s) && !Taken(l, fb, s))
    && (s in l'.received <==> s in l.received || NowReceived(l, fb, s))
    && (s in l'.lost <==> s in l.lost || NowLost(l, fb, now, s))
    && (s in l'.pending <==> Open(l, fb, s) && s !in ArrivalsOf(fb) && !Overdue(l, now, s))
  }

  /** What is noted about it. */
  ghost predicate NotedAbout(l: Ledger, l': Ledger, fb: Feedback, now: nat, s: u32) {
    && (s in l'.entered <==> s in l.entered || Taken(l, fb, s))
    && (s in l'.entered ==> l'.entered[s] == if Taken(l, fb, s) then |l.batches| else l.entered[s])
    && (NowReceived(l, fb, s) ==> s in l'.received && l'.received[s] == (|l.batches|, ArrivalsOf(fb)[s]))
    && (s in l.received && !NowReceived(l, fb, s) ==> s in l'.received && l'.received[s] == l.received[s])
    && (NowLost(l, fb, now, s) ==> s in l'.lost && l'.lost[s] == (|l.batches|, now))
    && (s in l.lost && !NowLost(l, fb, now, s) ==> s in l'.lost && l'.lost[s] == l.lost[s])
    && (s in l'.pending ==> s < |l.pushed| && l'.pending[s] == l.pushed[s])
  }

  lemma JoinIs(all: map<u32, SendRecord>, arrivals: map<u32, nat>, now: nat, s: u32)
    ensures var matched := Matched(all, arrivals);
      var rest := all - matched;
      var expired := Expired(rest, now);
      && (s in matched <==> s in all && s in arrivals)
      && (s in expired <==> s in all && s !in arrivals && now > all[s].sentUs + LOST_GRACE_US)
      && (s in rest - expired <==> s in all && s !in arrivals && s !in expired)
      && (s in rest - expired ==> (rest - expired)[s] == all[s])
  {
  }

  lemma BatchMovesTo(l: Ledger, fb: Feedback, now: nat, s: u32)
    requires RecordsInPlace(l) && |fb.samples| > 0
    ensures Moved(l, AfterBatch(l, fb, now), fb, now, s)
  {
    hide Arrivals, WithPending, UptoCount, Numbers, Taken, RecordsInPlace, Matched, Expired, Elapsed;
    TakenIs(l, fb, s);
    Pieces(l, fb, s);
    var sent := l.history[..UptoCount(l.history, fb.samples[|fb.samples| - 1].0)];
    JoinIs(WithPending(l.pending, sent), ArrivalsOf(fb), now, s);
  }

  lemma BatchNotes(l: Ledger, fb: Feedback, now: nat, s: u32)
    requires RecordsInPlace(l) && |fb.samples| > 0
    ensures NotedAbout(l, AfterBatch(l, fb, now), fb, now, s)
  {
    hide Arrivals, WithPending, UptoCount, Numbers, Taken, RecordsInPlace, Matched, Expired, Elapsed, InHistory;
    TakenIs(l, fb, s);
    Pieces(l, fb, s);
    var sent := l.history[..UptoCount(l.history, fb.samples[|fb.samples| - 1].0)];
    JoinIs(WithPending(l.pending, sent), ArrivalsOf(fb), now, s);
  }

  lemma BatchMoves(l: Ledger, fb: Feedback, now: nat, s: u32)
    requires RecordsInPlace(l) && |fb.samples| > 0
    ensures var l' := AfterBatch(l, fb, now);
      Moved(l, l', fb, now, s) && NotedAbout(l, l', fb, now, s)
  {
    hide AfterBatch, Moved, NotedAbout, RecordsInPlace;
    BatchMovesTo(l, fb, now, s);
    BatchNotes(l, fb, now, s);
  }

  lemma Pieces(l: Ledger, fb: Feedback, s: u32)
    requires RecordsInPlace(l) && |fb.samples| > 0
    ensures var sent := l.history[..UptoCount(l.history, fb.samples[|fb.samples| - 1].0)];
      var all := WithPending(l.pending, sent);
      && (s in Numbers(sent) <==> Taken(l, fb, s))
      && (s in all <==> Open(l, fb, s))
      && (s in all ==> all[s] == l.pushed[s])
  {
    hide WithPending, UptoCount, Numbers, Taken;
    TakenIs(l, fb, s);
    var n := UptoCount(l.history, fb.samples[|fb.samples| - 1].0);
    var lo := |l.pushed| - |l.history|;
    WithPendingIs(l.pending, l.pushed, lo, n, s);
    NumbersAre(l.pushed, lo, n, s);
  }

  lemma AfterBatchInPlace(l: Ledger, fb: Feedback, now: nat)
    requires RecordsInPlace(l) && |fb.samples| > 0
    ensures RecordsInPlace(AfterBatch(l, fb, now))
  {
    hide ArrivalsOf, WithPending, UptoCount, Numbers, Matched, Expired, PendingAfter, Taken, Open;
    var l' := AfterBatch(l, fb, now);
    TakenIs(l, fb, 0);
    forall s | s in l'.pending ensures s < |l.pushed| && l'.pending[s] == l.pushed[s] {
      BatchMoves(l, fb, now, s);
    }
  }

  lemma MovedOnce(l: Ledger, l': Ledger, fb: Feedback, now: nat, s: u32)
    requires l'.pushed == l.pushed && l'.evicted == l.evicted
    requires AccountedOnce(l, s) && Moved(l, l', fb, now, s)
    ensures AccountedOnce(l', s)
  {
    hide ArrivalsOf;
  }

  lemma AfterBatchAccounts(l: Ledger, fb: Feedback, now: nat)
    requires RecordsInPlace(l) && |fb.samples| > 0 && forall s: u32 :: AccountedOnce(l, s)
    ensures forall s: u32 :: AccountedOnce(AfterBatch(l, fb, now), s)
  {
    hide ArrivalsOf, WithPending, UptoCount, Numbers, Matched, Expired, PendingAfter, Taken, Open, InHistory, Moved,
         NotedAbout;
    forall s: u32 ensures AccountedOnce(AfterBatch(l, fb, now), s) {
      hide AccountedOnce, RecordsInPlace;
      BatchMoves(l, fb, now, s);
      MovedOnce(l, AfterBatch(l, fb, now), fb, now, s);
    }
  }

  lemma AfterBatchReceived(l: Ledger, fb: Feedback, now: nat)
    requires RecordsInPlace(l) && |fb.samples| > 0 && ReceivedRight(l)
    ensures ReceivedRight(AfterBatch(l, fb, now))
  {
    hide ArrivalsOf, WithPending, UptoCount, Numbers, Matched, Expired, PendingAfter, Taken, Open, RecordsInPlace;
    var l' := AfterBatch(l, fb, now);
    forall s | s in l'.received ensures l'.received[s].0 < |l'.batches| && s in ArrivalsOf(l'.batches[l'.received[s].0])
        && l'.received[s].1 == ArrivalsOf(l'.batches[l'.received[s].0])[s] {
      BatchMoves(l, fb, now, s);
    }
  }

  lemma AfterBatchPending(l: Ledger, fb: Feedback, now: nat)
    requires RecordsInPlace(l) && |fb.samples| > 0 && PendingUnreported(l)
    ensures PendingUnreported(AfterBatch(l, fb, now))
  {
    hide ArrivalsOf, WithPending, UptoCount, Numbers, Matched, Expired, PendingAfter, Taken, RecordsInPlace;
    var l' := AfterBatch(l, fb, now);
    forall s | s in l'.pending ensures s in l'.entered && l'.entered[s] <= |l'.batches|
        && Unreported(l'.batches, s, l'.entered[s], |l'.batches|) {
      BatchMoves(l, fb, now, s);
    }
  }

  lemma LostStays(l: Ledger, l': Ledger, fb: Feedback, now: nat, s: u32)
    requires l'.pushed == l.pushed && l'.batches == l.batches + [fb]
    requires AccountedOnce(l, s) && Moved(l, l', fb, now, s) && NotedAbout(l, l', fb, now, s)
    requires PendingUnreported(l) && LostRight(l) && s in l'.lost
    ensures LostRightly(l', s)
  {
    hide ArrivalsOf, InHistory;
    if NowLost(l, fb, now, s) {
      if Taken(l, fb, s) {
        assert l'.entered[s] == |l.batches|;
      } else {
        assert Unreported(l.batches, s, l.entered[s], |l.batches|);
      }
    } else {
      assert LostRightly(l, s);
      assert !Taken(l, fb, s);
    }
  }

  lemma AfterBatchLost(l: Ledger, fb: Feedback, now: nat)
    requires RecordsInPlace(l) && |fb.samples| > 0 && PendingUnreported(l) && LostRight(l)
    requires forall s: u32 :: AccountedOnce(l, s)
    ensures LostRight(AfterBatch(l, fb, now))
  {
    hide ArrivalsOf, WithPending, UptoCount, Numbers, Matched, Expired, PendingAfter, Taken, RecordsInPlace,
         LostRightly, PendingUnreported, AccountedOnce, Moved, NotedAbout;
    var l' := AfterBatch(l, fb, now);
    forall s | s in l'.lost ensures LostRightly(l', s) {
      BatchMoves(l, fb, now, s);
      LostStays(l, l', fb, now, s);
    }
  }

  /** Records are conserved over every run of fewer than 2^32 packets. */
  lemma {:induction false} RunBalanced(events: seq<Event>)
    requires FewPackets(events)
    ensures Balanced(RunLedger(events))
  {
    if |events| > 0 {
      hide AfterSend, AfterBatch, RecordsInPlace, PendingUnreported, ReceivedRight, LostRight, AccountedOnce;
      var before := events[..|events| - 1];
      var l := RunLedger(before);
      RunBalanced(before);
      match events[|events| - 1]
      case Sends(_, _, _, _) => AfterSendBalanced(l, events[|events| - 1]);
      case Batch(fb, now) => AfterBatchBalanced(l, fb, now);
    }
  }

  lemma AfterBatchBalanced(l: Ledger, fb: Feedback, now: nat)
    requires Balanced(l)
    ensures Balanced(AfterBatch(l, fb, now))
  {
    hide RecordsInPlace, PendingUnreported, ReceivedRight, LostRight, AccountedOnce, WithPending, Matched, Expired,
         PendingAfter, Numbers, UptoCount;
    if |fb.samples| > 0 {
      AfterBatchInPlace(l, fb, now);
      AfterBatchAccounts(l, fb, now);
      AfterBatchPending(l, fb, now);
      AfterBatchReceived(l, fb, now);
      AfterBatchLost(l, fb, now);
    }
  }

  // ---------- Which reported records are reported received ----------

  /** A record still in the history or pending is reported received by a batch exactly when the batch names it
      and it is pending already or does not exceed the batch's last number. */
  lemma AnsweredExactlyWhen(events: seq<Event>, fb: Feedback, now: nat, s: u32)
    requires FewPackets(events) && |fb.samples| > 0
    requires var l := RunLedger(events); InHistory(l, s) || s in l.pending
    ensures var l := RunLedger(events);
      s in AfterBatch(l, fb, now).received <==>
        s in ArrivalsOf(fb) && (s in l.pending || s <= fb.samples[|fb.samples| - 1].0)
  {
    hide AfterBatch, RunLedger, ArrivalsOf, PendingUnreported, ReceivedRight, LostRight, NotedAbout;
    RunBalanced(events);
    var l := RunLedger(events);
    BatchMoves(l, fb, now, s);
    assert AccountedOnce(l, s);
  }

  /** The batch's last number is its largest. */
  ghost predicate LargestLast(fb: Feedback) {
    forall i :: 0 <= i < |fb.samples| ==> fb.samples[i].0 <= fb.samples[|fb.samples| - 1].0
  }

  /** Every batch ends with its largest number and names sent packets only. */
  ghost predicate OrderedFeedback(events: seq<Event>) {
    |events| == 0 ||
    (OrderedFeedback(events[..|events| - 1])
      && (events[|events| - 1].Batch? ==> InOrderAndSent(events[|events| - 1].fb, SendCount(events[..|events| - 1]))))
  }

  ghost predicate InOrderAndSent(fb: Feedback, sent: nat) {
    LargestLast(fb) && forall i :: 0 <= i < |fb.samples| ==> fb.samples[i].0 < sent
  }

  /** A record named by batch j: received no later than j, or given up before. */
  ghost predicate Answered(l: Ledger, j: nat, s: u32) {
    || (s in l.received && l.received[s].0 <= j)
    || (s in l.lost && l.lost[s].0 < j)
    || s in l.evicted
  }

  ghost predicate AllAnswered(l: Ledger) {
    forall j, s :: 0 <= j < |l.batches| && s in ArrivalsOf(l.batches[j]) ==> Answered(l, j, s)
  }

  lemma {:induction false} ArrivalsAmong(base: nat, samples: seq<(u32, u32)>, s: u32)
    ensures s in Arrivals(base, samples) <==> exists i :: 0 <= i < |samples| && samples[i].0 == s
  {
    if |samples| > 0 {
      var front := samples[..|samples| - 1];
      ArrivalsAmong(base, front, s);
      if s in Arrivals(base, front) {
        var i :| 0 <= i < |front| && front[i].0 == s;
        assert samples[i].0 == s;
      }
      if i :| 0 <= i < |samples| && samples[i].0 == s {
        assert i < |samples| - 1 ==> front[i].0 == s;
      }
    }
  }

  lemma NamedByThis(l: Ledger, fb: Feedback, now: nat, s: u32)
    requires Balanced(l) && |fb.samples| > 0 && InOrderAndSent(fb, |l.pushed|) && s in ArrivalsOf(fb)
    ensures Answered(AfterBatch(l, fb, now), |l.batches|, s)
  {
    hide AfterBatch, PendingUnreported, RecordsInPlace, Arrivals, Unreported;
    ArrivalsAmong(fb.baseArrivalUs, fb.samples, s);
    BatchMoves(l, fb, now, s);
    BatchKeeps(l, fb, now);
    assert AccountedOnce(l, s);
    assert s in l.lost ==> LostRightly(l, s);
  }

  lemma BatchKeeps(l: Ledger, fb: Feedback, now: nat)
    requires |fb.samples| > 0
    ensures var l' := AfterBatch(l, fb, now);
      l'.evicted == l.evicted && l'.batches == l.batches + [fb] && l'.pushed == l.pushed
  {
  }

  lemma NamedBefore(l: Ledger, fb: Feedback, now: nat, j: nat, s: u32)
    requires Balanced(l) && |fb.samples| > 0 && Answered(l, j, s)
    ensures Answered(AfterBatch(l, fb, now), j, s)
  {
    hide AfterBatch, PendingUnreported, RecordsInPlace, ReceivedRight, LostRight, ArrivalsOf;
    BatchMoves(l, fb, now, s);
    BatchKeeps(l, fb, now);
    assert AccountedOnce(l, s);
  }

  /** When every batch ends with its largest number, each reported packet is reported received by the first
      batch that names it while its record is kept, unless it was evicted or given up before. */
  lemma {:induction false} RunAnswered(events: seq<Event>)
    requires FewPackets(events) && OrderedFeedback(events)
    ensures AllAnswered(RunLedger(events))
  {
    if |events| > 0 {
      hide AfterBatch, ArrivalsOf, Answered, Balanced, InOrderAndSent;
      var before := events[..|events| - 1];
      var l := RunLedger(before);
      RunAnswered(before);
      RunBalanced(before);
      match events[|events| - 1]
      case Sends(_, _, _, _) => SendAnswered(l, events[|events| - 1]);
      case Batch(fb, now) => BatchAnswered(l, fb, now);
    }
  }

  lemma SendAnswered(l: Ledger, e: Event)
    requires e.Sends? && |l.pushed| < U32_RANGE && AllAnswered(l)
    ensures AllAnswered(AfterSend(l, e))
  {
    hide ArrivalsOf;
    var l' := AfterSend(l, e);
    forall j, s | 0 <= j < |l'.batches| && s in ArrivalsOf(l'.batches[j]) ensures Answered(l', j, s) {
      assert Answered(l, j, s);
    }
  }

  lemma BatchAnswered(l: Ledger, fb: Feedback, now: nat)
    requires Balanced(l) && InOrderAndSent(fb, |l.pushed|) && AllAnswered(l)
    ensures AllAnswered(AfterBatch(l, fb, now))
  {
    hide AfterBatch, ArrivalsOf, Answered, Balanced, InOrderAndSent;
    var l' := AfterBatch(l, fb, now);
    if |fb.samples| == 0 {
      EmptyBatch(l, fb, now);
    } else {
      BatchKeeps(l, fb, now);
      forall j, s | 0 <= j < |l'.batches| && s in ArrivalsOf(l'.batches[j]) ensures Answered(l', j, s) {
        if j < |l.batches| {
          NamedBefore(l, fb, now, j, s);
        } else {
          NamedByThis(l, fb, now, s);
        }
      }
    }
  }

  lemma EmptyBatch(l: Ledger, fb: Feedback, now: nat)
    requires |fb.samples| == 0
    ensures AfterBatch(l, fb, now) == l
  {
  }

  /** The ledger after two sends. */
  ghost function TwoSends(): seq<Event> {
    [Sends(0, 100, false, None), Sends(0, 100, false, None)]
  }

  /** A batch whose last number is not its largest leaves a reported packet unmatched. */
  lemma UnorderedBatchMisses()
    ensures FewPackets(TwoSends())
    ensures var l := RunLedger(TwoSends());
      var fb := Feedback(1000, [(1, 0), (0, 5)]);
      && 1 in ArrivalsOf(fb)
      && 1 !in AfterBatch(l, fb, 0).received
  {
    var e := Sends(0, 100, false, None);
    assert TwoSends()[..1] == [e] && [e][..0] == [];
    assert SendCount([e]) == 1 && SendCount(TwoSends()) == 2;
    var l := RunLedger(TwoSends());
    assert RunLedger([e]).history == [SendRecord(0, 0, 100, false, None)];
    assert |l.history| == 2;
    var fb := Feedback(1000, [(1, 0), (0, 5)]);
    ArrivalsAmong(1000, fb.samples, 1);
    assert fb.samples[0].0 == 1;
    AnsweredExactlyWhen(TwoSends(), fb, 0, 1);
    RunBalanced(TwoSends());
    assert AccountedOnce(l, 1);
  }

  // ---------- Times across the wire ----------

  /** The last arrival of a number in a batch. */
  ghost predicate LastOf(batch: seq<(u32, nat)>, i: nat) {
    i < |batch| && forall j :: i < j < |batch| ==> batch[j].0 != batch[i].0
  }

  lemma {:induction false} ArrivalsLast(base: nat, samples: seq<(u32, u32)>, i: nat)
    requires i < |samples| && forall j :: i < j < |samples| ==> samples[j].0 != samples[i].0
    ensures samples[i].0 in Arrivals(base, samples)
    ensures Arrivals(base, samples)[samples[i].0] == base + samples[i].1
  {
    if i < |samples| - 1 {
      var front := samples[..|samples| - 1];
      assert forall j :: i < j < |front| ==> front[j].0 == samples[j].0;
      ArrivalsLast(base, front, i);
    }
  }

  /** The sender reads back the arrival time the client measured. */
  lemma ArrivalSurvives(s: ReceiverState, seqNo: u32, now: nat, last: nat, i: nat)
    requires BatchRecent(s, last) && last <= now
    requires |s.feedbackBatch| > 0 ==> now < last + U32_RANGE - FEEDBACK_INTERVAL_US
    requires LastOf(s.feedbackBatch + [(seqNo, now)], i)
    ensures var batch := s.feedbackBatch + [(seqNo, now)];
      var arrivals := ArrivalsOf(Feedback(batch[0].1, Samples(batch, batch[0].1)));
      batch[i].0 in arrivals && arrivals[batch[i].0] == batch[i].1
  {
    hide Arrivals, BatchRecent;
    var batch := s.feedbackBatch + [(seqNo, now)];
    var base := batch[0].1;
    var samples := Samples(batch, base);
    BatchExact(s, seqNo, now, last);
    assert TimesOf(Feedback(base, samples))[i] == batch[i];
    ArrivalsLast(base, samples, i);
  }
}
