/** Sequence numbers and retransmission in the sender task: every video datagram is stamped, recorded, kept for
    a while, and sent again when the client asks for its number
    (crates/session/src/pipeline.rs, sender loop and `run_probe`). */
module Retransmission {
  import opened Wrappers
  import opened Arithmetic
  import opened GaloisField
  import opened ByteStrings
  import opened Datagram
  import opened SendRecords

  const RING_CAP: nat := 2048
  const PADDING_HEADER_LEN: nat := 5
  const PROBE_SIZE_MAX: nat := 1200

  /** Position of the first entry with the number, or the length. */
  function FirstWith(ring: seq<(u32, Bytes)>, s: u32): (i: nat)
    ensures i <= |ring|
    ensures i < |ring| ==> ring[i].0 == s
    ensures forall j :: 0 <= j < i ==> ring[j].0 != s
  {
    if |ring| == 0 || ring[0].0 == s then 0 else 1 + FirstWith(ring[1..], s)
  }

  function Answer(ring: seq<(u32, Bytes)>, s: u32): seq<Bytes> {
    var i := FirstWith(ring, s);
    if i < |ring| then [ring[i].1] else []
  }

  /** What goes out again for a request, in the order asked for. */
  function Answers(ring: seq<(u32, Bytes)>, seqs: seq<u32>): seq<Bytes> {
    if |seqs| == 0 then [] else Answers(ring, seqs[..|seqs| - 1]) + Answer(ring, seqs[|seqs| - 1])
  }

  function RingPush(ring: seq<(u32, Bytes)>, s: u32, d: Bytes): seq<(u32, Bytes)> {
    (if |ring| == RING_CAP then ring[1..] else ring) + [(s, d)]
  }

  /** Every request gets its own answer, in its place among the others. */
  lemma {:induction false} AnswersEach(ring: seq<(u32, Bytes)>, before: seq<u32>, s: u32, after: seq<u32>)
    ensures Answers(ring, before + [s] + after) == Answers(ring, before) + Answer(ring, s) + Answers(ring, after)
    decreases |after|
  {
    hide Answer;
    var all := before + [s] + after;
    if |after| == 0 {
      assert all[..|all| - 1] == before && all[|all| - 1] == s;
    } else {
      var n := |after| - 1;
      AnswersEach(ring, before, s, after[..n]);
      assert all[..|all| - 1] == before + [s] + after[..n];
    }
  }

  lemma StepBack(s: u32)
    ensures ((s + 1) % U32_RANGE + U32_RANGE - 1) % U32_RANGE == s
  {
  }

  class SenderTask {
    var nextSeq: u32
    var ring: seq<(u32, Bytes)>
    const history: SendHistory

    constructor ()
      ensures nextSeq == 0 && ring == [] && fresh(history) && history.inner == []
    {
      nextSeq, ring := 0, [];
      history := new SendHistory();
    }

    /** Stamp, record, keep and send one video datagram. */
    method SendVideo(d: array<Byte>, nowUs: nat) returns (wire: Bytes)
      requires SEQ_OFFSET + 4 <= d.Length
      modifies this, history, d
      ensures wire == d[..] == Stamped(old(d[..]), old(nextSeq))
      ensures nextSeq == (old(nextSeq) + 1) % U32_RANGE
      ensures ring == RingPush(old(ring), old(nextSeq), wire)
      ensures history.inner ==
        HistoryPush(old(history.inner), SendRecord(old(nextSeq), nowUs, d.Length % U32_RANGE, false, None))
    {
      hide Stamped, HistoryPush;
      StampSeq(d, nextSeq);
      history.Push(SendRecord(nextSeq, nowUs, d.Length % U32_RANGE, false, None));
      nextSeq := (nextSeq + 1) % U32_RANGE;
      StepBack(old(nextSeq));
      if |ring| == RING_CAP {
        ring := ring[1..];
      }
      ring := ring + [((nextSeq + U32_RANGE - 1) % U32_RANGE, d[..])];
      wire := d[..];
    }

    /** One padding datagram of a probe: numbered and recorded, never kept. */
    method SendPadding(size: nat, nowUs: nat, cluster: nat) returns (length: u32)
      requires size <= PROBE_SIZE_MAX
      modifies this`nextSeq, history
      ensures length == Max(size, PADDING_HEADER_LEN)
      ensures nextSeq == (old(nextSeq) + 1) % U32_RANGE
      ensures history.inner ==
        HistoryPush(old(history.inner), SendRecord(old(nextSeq), nowUs, length, true, Some(cluster)))
    {
      length := Max(size, PADDING_HEADER_LEN);
      history.Push(SendRecord(nextSeq, nowUs, length, true, Some(cluster)));
      nextSeq := (nextSeq + 1) % U32_RANGE;
    }

    method Find(s: u32) returns (found: Option<Bytes>)
      ensures Answer(ring, s) == match found case Some(d) => [d] case None => []
    {
      for i := 0 to |ring|
        invariant FirstWith(ring, s) >= i
      {
        if ring[i].0 == s {
          return Some(ring[i].1);
        }
      }
      found := None;
    }

    method Retransmit(seqs: seq<u32>) returns (resent: seq<Bytes>)
      ensures resent == Answers(ring, seqs)
    {
      resent := [];
      for i := 0 to |seqs|
        invariant resent == Answers(ring, seqs[..i])
      {
        assert seqs[..i + 1][..i] == seqs[..i];
        var found := Find(seqs[i]);
        if found.Some? {
          resent := resent + [found.value];
        }
      }
      assert seqs[..|seqs|] == seqs;
    }
  }

  // ---------- Whole runs ----------

  datatype Event =
    | Video(datagram: Bytes)
    | Padding

  /** A video datagram as it went out: its place in the send order and its stamped bytes. */
  datatype Sent = Sent(number: nat, bytes: Bytes)

  datatype SenderRun = SenderRun(count: nat, nextSeq: u32, ring: seq<(u32, Bytes)>, video: seq<Sent>)

  ghost predicate Stampable(events: seq<Event>) {
    forall i :: 0 <= i < |events| && events[i].Video? ==> SEQ_OFFSET + 4 <= |events[i].datagram|
  }

  ghost function AfterPadding(r: SenderRun): SenderRun {
    r.(count := r.count + 1, nextSeq := (r.nextSeq + 1) % U32_RANGE)
  }

  ghost function AfterVideo(r: SenderRun, d: Bytes): SenderRun
    requires SEQ_OFFSET + 4 <= |d|
  {
    var wire := Stamped(d, r.nextSeq);
    SenderRun(
      r.count + 1, (r.nextSeq + 1) % U32_RANGE, RingPush(r.ring, r.nextSeq, wire), r.video + [Sent(r.count, wire)])
  }

  ghost function RunSender(events: seq<Event>): SenderRun
    requires Stampable(events)
  {
    if |events| == 0 then SenderRun(0, 0, [], [])
    else
      var r := RunSender(events[..|events| - 1]);
      match events[|events| - 1]
      case Padding => AfterPadding(r)
      case Video(d) => AfterVideo(r, d)
  }

  /** Video datagrams no longer kept. */
  ghost function Forgotten(r: SenderRun): nat {
    if |r.video| > RING_CAP then |r.video| - RING_CAP else 0
  }

  ghost predicate RingHoldsLast(r: SenderRun) {
    && r.nextSeq == r.count % U32_RANGE
    && |r.ring| == |r.video| - Forgotten(r)
    && (forall i :: 0 <= i < |r.ring| ==>
          r.ring[i] == (r.video[Forgotten(r) + i].number % U32_RANGE, r.video[Forgotten(r) + i].bytes))
  }

  ghost predicate NumbersAscend(r: SenderRun) {
    && (forall i :: 0 <= i < |r.video| ==> r.video[i].number < r.count)
    && (forall i, j :: 0 <= i < j < |r.video| ==> r.video[i].number < r.video[j].number)
  }

  /** The stamp a receiver reads is the packet's number. */
  ghost predicate StampsRight(r: SenderRun) {
    forall i :: 0 <= i < |r.video| ==> ReadSeq(r.video[i].bytes) == Ok(r.video[i].number % U32_RANGE)
  }

  lemma StampRead(d: Bytes, s: u32)
    requires SEQ_OFFSET + 4 <= |d|
    ensures ReadSeq(Stamped(d, s)) == Ok(s)
  {
    hide U32Bytes, U32At;
    var w := Stamped(d, s);
    assert w[SEQ_OFFSET..SEQ_OFFSET + 4] == U32Bytes(s);
    U32RoundTrip(s, w, SEQ_OFFSET);
  }

  ghost predicate Kept(r: SenderRun) {
    RingHoldsLast(r) && NumbersAscend(r) && StampsRight(r)
  }

  lemma CounterSteps(n: nat)
    ensures (n % U32_RANGE + 1) % U32_RANGE == (n + 1) % U32_RANGE
  {
  }

  lemma VideoKeeps(r: SenderRun, d: Bytes)
    requires Kept(r) && SEQ_OFFSET + 4 <= |d|
    ensures Kept(AfterVideo(r, d))
  {
    hide Stamped, ReadSeq;
    CounterSteps(r.count);
    StampRead(d, r.nextSeq);
    RingSteps(r, AfterVideo(r, d), Stamped(d, r.nextSeq));
  }

  lemma PaddingKeeps(r: SenderRun)
    requires Kept(r)
    ensures Kept(AfterPadding(r))
  {
    hide ReadSeq;
    CounterSteps(r.count);
  }

  lemma RingSteps(r: SenderRun, s: SenderRun, wire: Bytes)
    requires RingHoldsLast(r)
    requires s.nextSeq == s.count % U32_RANGE
    requires s.ring == RingPush(r.ring, r.nextSeq, wire) && s.video == r.video + [Sent(r.count, wire)]
    ensures RingHoldsLast(s)
  {
    var f := Forgotten(s);
    forall i | 0 <= i < |s.ring| ensures s.ring[i] == (s.video[f + i].number % U32_RANGE, s.video[f + i].bytes) {
      if i == |s.ring| - 1 {
        assert f + i == |r.video|;
      } else {
        assert f + i < |r.video|;
        assert s.ring[i] == r.ring[f - Forgotten(r) + i];
      }
    }
  }

  /** Over every run, across wrap-around of the counter: the ring is exactly the last 2048 video datagrams. */
  lemma {:induction false} RunKeepsLast(events: seq<Event>)
    requires Stampable(events)
    ensures Kept(RunSender(events))
  {
    if |events| > 0 {
      hide Kept, AfterVideo, AfterPadding;
      RunKeepsLast(events[..|events| - 1]);
      var r := RunSender(events[..|events| - 1]);
      match events[|events| - 1]
      case Padding => PaddingKeeps(r);
      case Video(d) => VideoKeeps(r, d);
    }
  }

  /** Kept datagrams have different sequence numbers. */
  ghost predicate Distinct(r: SenderRun) {
    |r.video| > 0 ==> r.count <= r.video[Forgotten(r)].number + U32_RANGE
  }

  /** The request is answered with the datagram that carried this number, if it is still kept. */
  ghost predicate Keeps(r: SenderRun, s: u32, d: Bytes) {
    exists k :: Forgotten(r) <= k < |r.video| && r.video[k].number % U32_RANGE == s && r.video[k].bytes == d
  }

  /** A request for one number is answered exactly by the datagram that carried it, byte for byte as it was
      first sent, and only while it is among the last 2048. */
  lemma AnswerIsOriginal(events: seq<Event>, s: u32, d: Bytes)
    requires Stampable(events) && Distinct(RunSender(events))
    ensures Answer(RunSender(events).ring, s) == [d] <==> Keeps(RunSender(events), s, d)
    ensures Answer(RunSender(events).ring, s) == [d] ==> ReadSeq(d) == Ok(s)
  {
    hide ReadSeq, RunSender, FirstWith;
    RunKeepsLast(events);
    var r := RunSender(events);
    var f := Forgotten(r);
    var i := FirstWith(r.ring, s);
    if k :| f <= k < |r.video| && r.video[k].number % U32_RANGE == s && r.video[k].bytes == d {
      assert r.ring[k - f] == (s, d);
      SameResidue(r.video[f + i].number, r.video[k].number, r.video[f].number);
    }
    if i < |r.ring| {
      assert Keeps(r, s, r.video[f + i].bytes);
    }
  }

  lemma SameResidue(a: nat, b: nat, low: nat)
    requires low <= a < low + U32_RANGE && low <= b < low + U32_RANGE
    requires a % U32_RANGE == b % U32_RANGE
    ensures a == b
  {
    var q, p := a / U32_RANGE, b / U32_RANGE;
    assert a == U32_RANGE * q + a % U32_RANGE && b == U32_RANGE * p + b % U32_RANGE;
  }
}
