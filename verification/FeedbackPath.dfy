/** Arrival times from the client's feedback to the sender's reports, over whole runs of both
    (crates/client-core/src/lib.rs, `record_arrival`; crates/session/src/service.rs, the feedback join;
    crates/session/src/bwe_driver.rs, `on_feedback`). */
module FeedbackPath {
  import opened Arithmetic
  import opened Datagram
  import opened PacketReceipt
  import opened SendRecords
  import opened SendLedger

  /** The feedback batches among the client's messages, in order. */
  ghost function Feedbacks(messages: seq<Message>): seq<Feedback> {
    if |messages| == 0 then []
    else
      var front := Feedbacks(messages[..|messages| - 1]);
      match messages[|messages| - 1]
      case Nack(_) => front
      case PacketFeedback(fb) => front + [fb]
  }

  ghost function Flattened(fbs: seq<Feedback>): seq<(u32, nat)> {
    if |fbs| == 0 then [] else Flattened(fbs[..|fbs| - 1]) + TimesOf(fbs[|fbs| - 1])
  }

  lemma {:induction false} FeedbacksSay(messages: seq<Message>)
    ensures Flattened(Feedbacks(messages)) == ReportedArrivals(messages)
  {
    hide TimesOf;
    if |messages| > 0 {
      FeedbacksSay(messages[..|messages| - 1]);
      match messages[|messages| - 1]
      case Nack(_) =>
      case PacketFeedback(fb) =>
        var front := Feedbacks(messages[..|messages| - 1]);
        assert (front + [fb])[..|front|] == front;
    }
  }

  /** Earlier batches are an earlier part of the times. */
  lemma {:induction false} FlattenedPrefix(fbs: seq<Feedback>, n: nat)
    requires n <= |fbs|
    ensures |Flattened(fbs[..n])| <= |Flattened(fbs)|
    ensures Flattened(fbs)[..|Flattened(fbs[..n])|] == Flattened(fbs[..n])
    decreases |fbs|
  {
    hide TimesOf;
    if n < |fbs| {
      FlattenedPrefix(fbs[..|fbs| - 1], n);
      assert fbs[..|fbs| - 1][..n] == fbs[..n];
    } else {
      assert fbs[..n] == fbs;
    }
  }

  /** A batch's own times, in place. */
  lemma BatchInPlace(fbs: seq<Feedback>, j: nat)
    requires j < |fbs|
    ensures var from := |Flattened(fbs[..j])|;
      && from + |fbs[j].samples| <= |Flattened(fbs)|
      && Flattened(fbs)[from..from + |fbs[j].samples|] == TimesOf(fbs[j])
  {
    FlattenedPrefix(fbs, j + 1);
    var upto := fbs[..j + 1];
    assert upto[..j] == fbs[..j] && upto[j] == fbs[j];
    BatchLast(upto);
    var from, end := |Flattened(fbs[..j])|, |Flattened(upto)|;
    assert Flattened(fbs)[from..end] == Flattened(fbs)[..end][from..];
  }

  lemma BatchLast(fbs: seq<Feedback>)
    requires |fbs| > 0
    ensures var from := |Flattened(fbs[..|fbs| - 1])|;
      && |Flattened(fbs)| == from + |fbs[|fbs| - 1].samples|
      && Flattened(fbs)[from..] == TimesOf(fbs[|fbs| - 1])
  {
  }

  /** The batch and sample that hold the q-th time. */
  lemma {:induction false} FindSample(fbs: seq<Feedback>, q: nat) returns (j: nat, i: nat)
    requires q < |Flattened(fbs)|
    ensures j < |fbs| && i < |fbs[j].samples| && Flattened(fbs)[q] == TimesOf(fbs[j])[i]
  {
    hide TimesOf;
    var n := |fbs| - 1;
    if q < |Flattened(fbs[..n])| {
      j, i := FindSample(fbs[..n], q);
    } else {
      j, i := n, q - |Flattened(fbs[..n])|;
      TimesLength(fbs[n]);
    }
  }

  lemma TimesLength(fb: Feedback)
    ensures |TimesOf(fb)| == |fb.samples|
  {
  }

  /** A joined arrival time is the time of some sample with that number. */
  lemma {:induction false} ArrivalFrom(base: nat, samples: seq<(u32, u32)>, s: u32) returns (i: nat)
    requires s in Arrivals(base, samples)
    ensures i < |samples| && samples[i].0 == s && base + samples[i].1 == Arrivals(base, samples)[s]
  {
    var n := |samples| - 1;
    if samples[n].0 == s {
      i := n;
    } else {
      i := ArrivalFrom(base, samples[..n], s);
    }
  }

  // ---------- Client and sender together ----------

  /** The client's run: control channel up, no silence as long as a 32-bit time difference. */
  ghost predicate Client(packets: seq<Packet>) {
    NoLongSilence(packets) && forall i :: 0 <= i < |packets| ==> packets[i].controlOpen
  }

  /** The sender has taken in the first batches the client sent, in order. */
  ghost predicate Joined(packets: seq<Packet>, events: seq<Event>)
    requires FewPackets(events)
  {
    RunLedger(events).batches <= Feedbacks(RunReceipt(packets).messages)
  }

  /** The times in the client's batches are its arrivals, in order. */
  lemma BatchesAreArrivals(packets: seq<Packet>, batches: seq<Feedback>)
    requires Client(packets) && batches <= Feedbacks(RunReceipt(packets).messages)
    ensures |Flattened(batches)| <= |packets|
    ensures forall q :: 0 <= q < |Flattened(batches)| ==>
      Flattened(batches)[q] == (packets[q].number % U32_RANGE, packets[q].now)
  {
    hide RunReceipt, Feedbacks, Flattened, ReportedArrivals, NoLongSilence;
    var r := RunReceipt(packets);
    var fbs := Feedbacks(r.messages);
    EveryArrivalReported(packets);
    FeedbacksSay(r.messages);
    assert fbs[..|batches|] == batches;
    FlattenedPrefix(fbs, |batches|);
    var log := ReportedArrivals(r.messages) + r.state.feedbackBatch;
    forall q | 0 <= q < |Flattened(batches)|
      ensures q < |packets| && Flattened(batches)[q] == (packets[q].number % U32_RANGE, packets[q].now)
    {
      assert Flattened(batches)[q] == Flattened(fbs)[..|Flattened(batches)|][q] == log[q] == ArrivalLog(packets)[q];
    }
    assert |Flattened(batches)| <= |log| == |packets|;
  }

  /** Every time reported to the estimator was measured by the client for a packet of that number. */
  lemma ReceivedIsMeasured(packets: seq<Packet>, events: seq<Event>, s: u32) returns (q: nat)
    requires Client(packets) && FewPackets(events) && Joined(packets, events) && s in RunLedger(events).received
    ensures q < |packets| && packets[q].number % U32_RANGE == s && packets[q].now == RunLedger(events).received[s].1
  {
    hide RunReceipt, RunLedger, Feedbacks, Flattened, Client, Arrivals, RecordsInPlace, PendingUnreported, LostRight;
    var l := RunLedger(events);
    RunBalanced(events);
    var b := l.received[s].0;
    var fb := l.batches[b];
    var i := ArrivalFrom(fb.baseArrivalUs, fb.samples, s);
    BatchesAreArrivals(packets, l.batches);
    BatchInPlace(l.batches, b);
    var from := |Flattened(l.batches[..b])|;
    q := from + i;
    assert Flattened(l.batches)[q] == Flattened(l.batches)[from..from + |fb.samples|][i] == TimesOf(fb)[i];
  }

  // ---------- Packets that arrive in order ----------

  ghost predicate ArrivesInOrder(packets: seq<Packet>) {
    && (forall i :: 0 <= i < |packets| ==> packets[i].number < U32_RANGE)
    && (forall i, j :: 0 <= i < j < |packets| ==> packets[i].number < packets[j].number)
  }

  /** Arrivals in order give batches that end with their largest number. */
  lemma InOrderLargestLast(packets: seq<Packet>, batches: seq<Feedback>, j: nat)
    requires Client(packets) && ArrivesInOrder(packets)
    requires batches <= Feedbacks(RunReceipt(packets).messages) && j < |batches|
    ensures LargestLast(batches[j])
  {
    hide RunReceipt, Feedbacks, Flattened, Client;
    BatchesAreArrivals(packets, batches);
    BatchInPlace(batches, j);
    var fb := batches[j];
    var from, len := |Flattened(batches[..j])|, |batches[j].samples|;
    forall i | 0 <= i < len ensures fb.samples[i].0 == packets[from + i].number {
      assert Flattened(batches)[from + i] == Flattened(batches)[from..from + len][i] == TimesOf(fb)[i];
    }
  }

  /** No batch names a packet before it was sent. */
  ghost predicate Causal(events: seq<Event>) {
    |events| == 0 ||
    (Causal(events[..|events| - 1])
      && (events[|events| - 1].Batch? ==> NamesSent(events[|events| - 1].fb, SendCount(events[..|events| - 1]))))
  }

  ghost predicate NamesSent(fb: Feedback, sent: nat) {
    forall i :: 0 <= i < |fb.samples| ==> fb.samples[i].0 < sent
  }

  lemma LedgerBatches(l: Ledger, fb: Feedback, now: nat)
    ensures AfterBatch(l, fb, now).batches == if |fb.samples| == 0 then l.batches else l.batches + [fb]
  {
  }

  lemma LastBatch(events: seq<Event>)
    requires |events| > 0 && FewPackets(events)
    ensures var l, e := RunLedger(events[..|events| - 1]), events[|events| - 1];
      RunLedger(events).batches == if e.Batch? && |e.fb.samples| > 0 then l.batches + [e.fb] else l.batches
  {
    hide AfterBatch;
    var l, e := RunLedger(events[..|events| - 1]), events[|events| - 1];
    if e.Batch? {
      LedgerBatches(l, e.fb, e.now);
    }
  }

  lemma {:induction false} OrderedByBatches(events: seq<Event>)
    requires FewPackets(events) && Causal(events)
    requires forall j :: 0 <= j < |RunLedger(events).batches| ==> LargestLast(RunLedger(events).batches[j])
    ensures OrderedFeedback(events)
  {
    if |events| > 0 {
      hide RunLedger, LargestLast, OrderedFeedback, Causal, FewPackets;
      var n := |events| - 1;
      CausalBefore(events);
      LastBatch(events);
      var before, after := RunLedger(events[..n]).batches, RunLedger(events).batches;
      forall j | 0 <= j < |before| ensures LargestLast(before[j]) {
        assert after[j] == before[j];
      }
      OrderedByBatches(events[..n]);
      if events[n].Batch? && |events[n].fb.samples| > 0 {
        assert after[|before|] == events[n].fb;
      } else if events[n].Batch? {
        EmptyLargestLast(events[n].fb);
      }
      OrderedGrows(events);
    }
  }

  lemma CausalBefore(events: seq<Event>)
    requires |events| > 0 && FewPackets(events) && Causal(events)
    ensures FewPackets(events[..|events| - 1]) && Causal(events[..|events| - 1])
  {
  }

  lemma OrderedGrows(events: seq<Event>)
    requires |events| > 0 && Causal(events) && OrderedFeedback(events[..|events| - 1])
    requires events[|events| - 1].Batch? ==> LargestLast(events[|events| - 1].fb)
    ensures OrderedFeedback(events)
  {
    hide LargestLast;
  }

  lemma EmptyLargestLast(fb: Feedback)
    requires |fb.samples| == 0
    ensures LargestLast(fb)
  {
  }

  /** From the client's clock to the estimator: when packets arrive in order, each one in a batch the sender has
      taken in is reported received with exactly the time it arrived, unless its record was evicted or given up. */
  lemma ArrivalsReachEstimator(packets: seq<Packet>, events: seq<Event>, q: nat)
    requires Client(packets) && ArrivesInOrder(packets)
    requires FewPackets(events) && Causal(events) && Joined(packets, events)
    requires q < |Flattened(RunLedger(events).batches)|
    ensures q < |packets|
    ensures var l, s := RunLedger(events), packets[q].number;
      if s in l.received then l.received[s].1 == packets[q].now else s in l.lost || s in l.evicted
  {
    hide RunReceipt, RunLedger, Feedbacks, Flattened, Client, Arrivals, LargestLast, OrderedFeedback, Causal;
    var l := RunLedger(events);
    BatchesAreArrivals(packets, l.batches);
    forall j | 0 <= j < |l.batches| ensures LargestLast(l.batches[j]) {
      InOrderLargestLast(packets, l.batches, j);
    }
    OrderedByBatches(events);
    RunAnswered(events);
    var s := packets[q].number;
    var j, i := FindSample(l.batches, q);
    SampleNamed(l.batches[j], i, s);
    assert Answered(l, j, s);
    if s in l.received {
      var p := ReceivedIsMeasured(packets, events, s);
    }
  }

  lemma SampleNamed(fb: Feedback, i: nat, s: u32)
    requires i < |fb.samples| && TimesOf(fb)[i].0 == s
    ensures s in ArrivalsOf(fb)
  {
    hide Arrivals;
    ArrivalsAmong(fb.baseArrivalUs, fb.samples, s);
    assert fb.samples[i].0 == s;
  }
}
