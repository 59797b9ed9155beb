/** The sender's per-packet records: the bounded send history and the feedback join
    (crates/session/src/pipeline.rs, `SendHistory`; crates/session/src/bwe_driver.rs, `on_feedback`). */
module SendRecords {
  import opened Wrappers
  import opened Arithmetic
  import opened Datagram
  import opened PacketReceipt

  const SEND_HISTORY_CAP: nat := 8192
  const LOST_GRACE_US: nat := 500_000

  datatype SendRecord = SendRecord(seqNo: u32, sentUs: nat, bytes: u32, padding: bool, cluster: Option<nat>)

  /** What the bandwidth estimator is told about one record. */
  datatype Report =
    | ReportReceived(record: SendRecord, sentAt: nat, now: nat, remote: nat)
    | ReportLost(record: SendRecord, sentAt: nat)

  // ---------- Send history ----------

  function HistoryPush(history: seq<SendRecord>, record: SendRecord): seq<SendRecord> {
    (if |history| == SEND_HISTORY_CAP then history[1..] else history) + [record]
  }

  /** Leading records with numbers up to maxSeq. */
  function UptoCount(history: seq<SendRecord>, maxSeq: u32): (n: nat)
    ensures n <= |history|
    ensures forall i :: 0 <= i < n ==> history[i].seqNo <= maxSeq
    ensures n < |history| ==> history[n].seqNo > maxSeq
  {
    if |history| == 0 || history[0].seqNo > maxSeq then 0 else 1 + UptoCount(history[1..], maxSeq)
  }

  /** Consecutive packets, the first with the given unwrapped number. */
  ghost predicate Numbered(history: seq<SendRecord>, first: nat) {
    |history| <= SEND_HISTORY_CAP && forall i :: 0 <= i < |history| ==> history[i].seqNo == (first + i) % U32_RANGE
  }

  lemma ModWithin(x: nat, q: nat)
    requires U32_RANGE * q <= x < U32_RANGE * q + U32_RANGE
    ensures x % U32_RANGE == x - U32_RANGE * q && x / U32_RANGE == q
  {
  }

  /** Sequence numbers of packets less than a history apart. */
  lemma SeqNear(a: nat, b: nat)
    requires a <= b < a + SEND_HISTORY_CAP
    ensures a / U32_RANGE == b / U32_RANGE ==> b % U32_RANGE - a % U32_RANGE == b - a
    ensures a / U32_RANGE != b / U32_RANGE ==> b % U32_RANGE < a % U32_RANGE
  {
    var q := a / U32_RANGE;
    assert a == U32_RANGE * q + a % U32_RANGE;
    if b < U32_RANGE * q + U32_RANGE {
      ModWithin(b, q);
    } else {
      ModWithin(b, q + 1);
    }
  }

  /** What a batch that ends with packet `last` takes, across wrap-around of the numbers: nothing when the numbers
      wrap between the front and that packet, everything when they wrap right after it, and else the packets up to
      it. */
  lemma TakenAcrossWrap(history: seq<SendRecord>, first: nat, last: nat)
    requires Numbered(history, first) && first <= last < first + |history|
    ensures UptoCount(history, last % U32_RANGE) ==
      if first / U32_RANGE != last / U32_RANGE then 0
      else if (last + 1) % U32_RANGE == 0 then |history|
      else last - first + 1
  {
    hide UptoCount;
    var n := UptoCount(history, last % U32_RANGE);
    SeqNear(first, last);
    if first / U32_RANGE != last / U32_RANGE {
      assert history[0].seqNo == first % U32_RANGE;
    } else {
      if n < |history| {
        var x := first + n;
        assert history[n].seqNo == x % U32_RANGE;
        if x <= last {
          Between(first, x, last);
          SeqNear(x, last);
        }
      }
      if (last + 1) % U32_RANGE != 0 && last - first + 1 < |history| {
        var k := last - first + 1;
        assert history[k].seqNo == (last + 1) % U32_RANGE;
        NextSeq(last);
      } else if n < |history| {
        LastSeq(last);
      }
    }
  }

  lemma Between(a: nat, x: nat, b: nat)
    requires a <= x <= b && a / U32_RANGE == b / U32_RANGE
    ensures x / U32_RANGE == a / U32_RANGE
  {
    var q := a / U32_RANGE;
    assert U32_RANGE * q <= a && b < U32_RANGE * q + U32_RANGE;
    ModWithin(x, q);
  }

  lemma NextSeq(x: nat)
    requires (x + 1) % U32_RANGE != 0
    ensures (x + 1) % U32_RANGE == x % U32_RANGE + 1
  {
    var q := x / U32_RANGE;
    assert x == U32_RANGE * q + x % U32_RANGE;
    if x + 1 == U32_RANGE * (q + 1) {
      ModWithin(x + 1, q + 1);
    } else {
      ModWithin(x + 1, q);
    }
  }

  lemma LastSeq(x: nat)
    requires (x + 1) % U32_RANGE == 0
    ensures x % U32_RANGE == U32_RANGE - 1
  {
    var q := x / U32_RANGE;
    assert x == U32_RANGE * q + x % U32_RANGE;
    if x + 1 < U32_RANGE * (q + 1) {
      ModWithin(x + 1, q);
    }
  }

  /** A batch takes exactly the packets up to its last one if and only if the numbers do not wrap before that packet,
      nor right after it with more packets following. */
  lemma TakesUptoExactlyWhen(history: seq<SendRecord>, first: nat, last: nat)
    requires Numbered(history, first) && first <= last < first + |history|
    ensures UptoCount(history, last % U32_RANGE) == last - first + 1 <==>
      && first / U32_RANGE == last / U32_RANGE
      && ((last + 1) % U32_RANGE != 0 || last + 1 == first + |history|)
  {
    hide UptoCount, Numbered;
    TakenAcrossWrap(history, first, last);
  }

  /** Packets 2^32 - 1 and 2^32, both named by a batch that ends with the later one: nothing is taken. */
  lemma WrapTakesNothing(a: SendRecord, b: SendRecord)
    requires a.seqNo == 0xffff_ffff && b.seqNo == 0
    ensures Numbered([a, b], 0xffff_ffff) && UptoCount([a, b], 0) == 0
  {
  }

  class SendHistory {
    var inner: seq<SendRecord>

    constructor ()
      ensures inner == []
    {
      inner := [];
    }

    method Push(record: SendRecord)
      modifies this
      ensures inner == HistoryPush(old(inner), record)
    {
      if |inner| == SEND_HISTORY_CAP {
        inner := inner[1..];
      }
      inner := inner + [record];
    }

    /** Take the records up to maxSeq from the front. */
    method TakeUpto(maxSeq: u32) returns (out: seq<SendRecord>)
      modifies this
      ensures out == old(inner)[..UptoCount(old(inner), maxSeq)]
      ensures inner == old(inner)[UptoCount(old(inner), maxSeq)..]
    {
      out := [];
      ghost var all := inner;
      while |inner| > 0 && inner[0].seqNo <= maxSeq
        invariant |out| <= |all| && out == all[..|out|] && inner == all[|out|..]
        invariant |out| + UptoCount(inner, maxSeq) == UptoCount(all, maxSeq)
        decreases |inner|
      {
        var front := inner[0];
        out := out + [front];
        inner := inner[1..];
      }
    }
  }

  // ---------- Joining feedback with pending records ----------

  /** Arrival time per sequence number; a repeated number keeps its last time. */
  function Arrivals(base: nat, samples: seq<(u32, u32)>): map<u32, nat> {
    if |samples| == 0 then map[]
    else
      var last := samples[|samples| - 1];
      Arrivals(base, samples[..|samples| - 1])[last.0 := base + last.1]
  }

  function WithPending(pending: map<u32, SendRecord>, sent: seq<SendRecord>): map<u32, SendRecord> {
    if |sent| == 0 then pending
    else
      var last := sent[|sent| - 1];
      WithPending(pending, sent[..|sent| - 1])[last.seqNo := last]
  }

  function Matched(pending: map<u32, SendRecord>, arrivals: map<u32, nat>): set<u32> {
    set s | s in pending && s in arrivals
  }

  function Expired(pending: map<u32, SendRecord>, now: nat): set<u32> {
    set s | s in pending && Elapsed(now, pending[s].sentUs) > LOST_GRACE_US
  }

  /** The pending records after one batch. */
  function PendingAfter(pending: map<u32, SendRecord>, sent: seq<SendRecord>, fb: Feedback, now: nat)
      : map<u32, SendRecord>
  {
    var all := WithPending(pending, sent);
    var rest := all - Matched(all, Arrivals(fb.baseArrivalUs, fb.samples));
    rest - Expired(rest, now)
  }

  /** A media packet the estimator is told about, with its send instant. */
  datatype MediaSent = MediaSent(bytes: u32, at: nat)

  /** Media packets told to the estimator before a batch, and the estimator's clock after them. */
  function MediaOf(sent: seq<SendRecord>, epoch: nat, lastNow: nat): (seq<MediaSent>, nat) {
    if |sent| == 0 then ([], lastNow)
    else
      var (told, clock) := MediaOf(sent[..|sent| - 1], epoch, lastNow);
      var r := sent[|sent| - 1];
      if r.padding then (told, clock)
      else
        var at := Max(clock, Elapsed(r.sentUs, epoch));
        (told + [MediaSent(r.bytes, at)], at)
  }

  /** The clock never runs backwards, and each media packet is told no earlier than its own send time. */
  lemma {:induction false} MediaClock(sent: seq<SendRecord>, epoch: nat, lastNow: nat)
    ensures var (told, clock) := MediaOf(sent, epoch, lastNow);
      && clock >= lastNow
      && (forall i :: 0 <= i < |told| ==> lastNow <= told[i].at <= clock)
      && (forall i, j :: 0 <= i < j < |told| ==> told[i].at <= told[j].at)
      && (forall i :: 0 <= i < |sent| && !sent[i].padding ==> Elapsed(sent[i].sentUs, epoch) <= clock)
  {
    if |sent| > 0 {
      MediaClock(sent[..|sent| - 1], epoch, lastNow);
    }
  }

  /** Records of media packets, as against padding. */
  ghost function MediaCount(sent: seq<SendRecord>): (n: nat)
    ensures n <= |sent|
  {
    if |sent| == 0 then 0 else MediaCount(sent[..|sent| - 1]) + if sent[|sent| - 1].padding then 0 else 1
  }

  /** The latest of the clock before the batch and the send instants of the first n records that are media. */
  ghost predicate LatestSend(at: nat, sent: seq<SendRecord>, n: nat, epoch: nat, lastNow: nat)
    requires n <= |sent|
  {
    && lastNow <= at
    && (forall k :: 0 <= k < n && !sent[k].padding ==> Elapsed(sent[k].sentUs, epoch) <= at)
    && (at == lastNow || exists k :: 0 <= k < n && !sent[k].padding && Elapsed(sent[k].sentUs, epoch) == at)
  }

  /** The record has its entry, at its rank among the media records, with its bytes and time. */
  ghost predicate ToldOf(told: seq<MediaSent>, sent: seq<SendRecord>, j: nat, epoch: nat, lastNow: nat)
    requires j < |sent|
  {
    var i := MediaCount(sent[..j]);
    i < |told| && told[i].bytes == sent[j].bytes && LatestSend(told[i].at, sent, j + 1, epoch, lastNow)
  }

  /** The estimator is told of every media packet and of nothing else, in order: as many entries as media records, each
      with its record's bytes, at the latest send instant so far. */
  lemma {:induction false} MediaToldExactly(sent: seq<SendRecord>, epoch: nat, lastNow: nat)
    ensures var (told, clock) := MediaOf(sent, epoch, lastNow);
      && |told| == MediaCount(sent)
      && LatestSend(clock, sent, |sent|, epoch, lastNow)
      && (forall j :: 0 <= j < |sent| && !sent[j].padding ==> ToldOf(told, sent, j, epoch, lastNow))
  {
    hide LatestSend, ToldOf;
    if |sent| == 0 {
      NoneSent(lastNow, epoch);
    } else {
      var n := |sent| - 1;
      MediaToldExactly(sent[..n], epoch, lastNow);
      var (before, clock) := MediaOf(sent[..n], epoch, lastNow);
      LatestGrows(clock, sent, epoch, lastNow);
      var (told, at) := MediaOf(sent, epoch, lastNow);
      forall j | 0 <= j < |sent| && !sent[j].padding ensures ToldOf(told, sent, j, epoch, lastNow) {
        if j < n {
          ToldKept(before, told, sent, j, epoch, lastNow);
        } else {
          ToldLast(told, sent, epoch, lastNow);
        }
      }
    }
  }

  lemma NoneSent(lastNow: nat, epoch: nat)
    ensures LatestSend(lastNow, [], 0, epoch, lastNow)
  {
  }

  lemma ToldKept(before: seq<MediaSent>, told: seq<MediaSent>, sent: seq<SendRecord>, j: nat, epoch: nat, lastNow: nat)
    requires before <= told && j + 1 < |sent| && ToldOf(before, sent[..|sent| - 1], j, epoch, lastNow)
    ensures ToldOf(told, sent, j, epoch, lastNow)
  {
    hide LatestSend, MediaCount;
    assert sent[..|sent| - 1][..j] == sent[..j];
    LatestSame(told[MediaCount(sent[..j])].at, sent, j + 1, epoch, lastNow);
  }

  lemma ToldLast(told: seq<MediaSent>, sent: seq<SendRecord>, epoch: nat, lastNow: nat)
    requires |sent| > 0 && |told| == MediaCount(sent[..|sent| - 1]) + 1
    requires told[|told| - 1].bytes == sent[|sent| - 1].bytes
    requires LatestSend(told[|told| - 1].at, sent, |sent|, epoch, lastNow)
    ensures ToldOf(told, sent, |sent| - 1, epoch, lastNow)
  {
    hide LatestSend, MediaCount;
  }

  lemma LatestSame(at: nat, sent: seq<SendRecord>, n: nat, epoch: nat, lastNow: nat)
    requires n < |sent|
    ensures LatestSend(at, sent[..|sent| - 1], n, epoch, lastNow) <==> LatestSend(at, sent, n, epoch, lastNow)
  {
    hide Elapsed;
    var front := sent[..|sent| - 1];
    assert forall k :: 0 <= k < n ==> front[k] == sent[k];
  }

  lemma LatestGrows(at: nat, sent: seq<SendRecord>, epoch: nat, lastNow: nat)
    requires |sent| > 0 && LatestSend(at, sent[..|sent| - 1], |sent| - 1, epoch, lastNow)
    ensures var r := sent[|sent| - 1];
      LatestSend(if r.padding then at else Max(at, Elapsed(r.sentUs, epoch)), sent, |sent|, epoch, lastNow)
  {
    hide Elapsed;
    var n := |sent| - 1;
    LatestSame(at, sent, n, epoch, lastNow);
  }

  ghost predicate Least(s: set<u32>, m: u32) {
    m in s && forall x :: x in s ==> m <= x
  }

  /** The elements in ascending order. */
  ghost predicate AscendingOf(keys: seq<u32>, s: set<u32>) {
    && (forall i, j :: 0 <= i < j < |keys| ==> keys[i] < keys[j])
    && (forall i :: 0 <= i < |keys| ==> keys[i] in s)
    && (forall x :: x in s ==> x in keys)
  }

  class BweDriver {
    var pending: map<u32, SendRecord>
    /** Estimator time, in microseconds after the anchor; it never runs backwards. */
    var lastNow: nat
    const epochAgentUs: nat

    /** The estimator clock starts at a second clock reading, taken after the anchor's. */
    constructor (now: nat, lag: nat)
      ensures pending == map[] && lastNow == lag && epochAgentUs == now
    {
      pending, lastNow, epochAgentUs := map[], lag, now;
    }

    function InstantAt(us: nat): nat {
      Elapsed(us, epochAgentUs)
    }

    method Mono(i: nat) returns (now: nat)
      modifies this`lastNow
      ensures lastNow == now == Max(old(lastNow), i)
    {
      lastNow := Max(lastNow, i);
      now := lastNow;
    }

    /** Sorted keys, as an ordered map iterates them. */
    method InOrder(s: set<u32>) returns (keys: seq<u32>)
      ensures AscendingOf(keys, s)
    {
      keys := [];
      var left := s;
      while left != {}
        invariant left <= s
        invariant forall i, j :: 0 <= i < j < |keys| ==> keys[i] < keys[j]
        invariant forall i :: 0 <= i < |keys| ==> keys[i] in s && keys[i] !in left
        invariant forall x :: x in s && x !in left ==> x in keys
        invariant forall i, y :: 0 <= i < |keys| && y in left ==> keys[i] < y
        decreases |left|
      {
        var m := LeastOf(left);
        left := left - {m};
        keys := keys + [m];
      }
    }

    method LeastOf(s: set<u32>) returns (m: u32)
      requires s != {}
      ensures Least(s, m)
    {
      m :| m in s;
      var left := s - {m};
      while left != {}
        invariant left <= s && m in s
        invariant forall x :: x in s && x !in left ==> m <= x
        decreases |left|
      {
        var x :| x in left;
        left := left - {x};
        if x < m {
          m := x;
        }
      }
    }

    method AddPending(sent: seq<SendRecord>) returns (told: seq<MediaSent>)
      modifies this
      ensures pending == WithPending(old(pending), sent)
      ensures (told, lastNow) == MediaOf(sent, epochAgentUs, old(lastNow))
    {
      told := [];
      for i := 0 to |sent|
        invariant pending == WithPending(old(pending), sent[..i])
        invariant (told, lastNow) == MediaOf(sent[..i], epochAgentUs, old(lastNow))
      {
        assert sent[..i + 1][..i] == sent[..i];
        var r := sent[i];
        if !r.padding {
          var at := Mono(InstantAt(r.sentUs));
          told := told + [MediaSent(r.bytes, at)];
        }
        pending := pending[r.seqNo := r];
      }
      assert sent[..|sent|] == sent;
    }

    /** Report and forget the matched records. */
    method TakeMatched(keys: seq<u32>, arrivals: map<u32, nat>, now: nat) returns (reports: seq<Report>)
      requires AscendingOf(keys, Matched(pending, arrivals))
      modifies this`pending
      ensures pending == old(pending) - Matched(old(pending), arrivals)
      ensures ReceivedReports(reports, keys, old(pending), arrivals, epochAgentUs, now)
    {
      ghost var all := pending;
      reports := [];
      for i := 0 to |keys|
        invariant pending == all - (set s | s in keys[..i])
        invariant ReceivedReports(reports, keys[..i], all, arrivals, epochAgentUs, now)
      {
        var s := keys[i];
        assert s in all && s !in keys[..i];
        assert keys[..i + 1] == keys[..i] + [s];
        var r := pending[s];
        pending := pending - {s};
        reports := reports + [ReportReceived(r, InstantAt(r.sentUs), now, arrivals[s])];
      }
      assert keys[..|keys|] == keys;
      assert (set s | s in keys) == Matched(all, arrivals);
    }

    /** Report as lost and forget the records past the grace period. */
    method TakeExpired(keys: seq<u32>, nowAgentUs: nat) returns (reports: seq<Report>)
      requires AscendingOf(keys, Expired(pending, nowAgentUs))
      modifies this`pending
      ensures pending == old(pending) - Expired(old(pending), nowAgentUs)
      ensures LostReports(reports, keys, old(pending), epochAgentUs)
    {
      ghost var all := pending;
      reports := [];
      for i := 0 to |keys|
        invariant pending == all - (set s | s in keys[..i])
        invariant LostReports(reports, keys[..i], all, epochAgentUs)
      {
        var s := keys[i];
        assert s in all && s !in keys[..i];
        assert keys[..i + 1] == keys[..i] + [s];
        var r := pending[s];
        pending := pending - {s};
        reports := reports + [ReportLost(r, InstantAt(r.sentUs))];
      }
      assert keys[..|keys|] == keys;
      assert (set s | s in keys) == Expired(all, nowAgentUs);
    }

    /** Feed one batch: the estimator is told the media sent; matched records are reported received and records
        unmatched past the grace period lost, both in sequence order. */
    method OnFeedback(sent: seq<SendRecord>, fb: Feedback, nowAgentUs: nat)
        returns (told: seq<MediaSent>, reports: seq<Report>, ghost received: seq<u32>, ghost lost: seq<u32>)
      modifies this
      ensures pending == PendingAfter(old(pending), sent, fb, nowAgentUs)
      ensures told == MediaOf(sent, epochAgentUs, old(lastNow)).0
      ensures lastNow == Max(MediaOf(sent, epochAgentUs, old(lastNow)).1, InstantAt(nowAgentUs))
      ensures var all := WithPending(old(pending), sent);
        var arrivals := Arrivals(fb.baseArrivalUs, fb.samples);
        var rest := all - Matched(all, arrivals);
        && AscendingOf(received, Matched(all, arrivals))
        && AscendingOf(lost, Expired(rest, nowAgentUs))
        && |reports| == |received| + |lost|
        && ReceivedReports(reports[..|received|], received, all, arrivals, epochAgentUs, lastNow)
        && LostReports(reports[|received|..], lost, rest, epochAgentUs)
    {
      hide WithPending, Arrivals, AscendingOf, Matched, Expired, MediaOf;
      told := AddPending(sent);
      var arrivals := Arrivals(fb.baseArrivalUs, fb.samples);
      var now := Mono(InstantAt(nowAgentUs));
      var matched := InOrder(Matched(pending, arrivals));
      var first := TakeMatched(matched, arrivals, now);
      var expired := InOrder(Expired(pending, nowAgentUs));
      var second := TakeExpired(expired, nowAgentUs);
      reports := first + second;
      received, lost := matched, expired;
      assert reports[..|received|] == first && reports[|received|..] == second;
    }
  }

  ghost predicate ReceivedReports(
      reports: seq<Report>, keys: seq<u32>, all: map<u32, SendRecord>, arrivals: map<u32, nat>, epoch: nat, now: nat) {
    && |reports| == |keys|
    && (forall i :: 0 <= i < |keys| ==> keys[i] in all && keys[i] in arrivals)
    && (forall i :: 0 <= i < |keys| ==> IsReceived(reports[i], all[keys[i]], epoch, now, arrivals[keys[i]]))
  }

  ghost predicate IsReceived(report: Report, r: SendRecord, epoch: nat, now: nat, remote: nat) {
    report == ReportReceived(r, Elapsed(r.sentUs, epoch), now, remote)
  }

  ghost predicate LostReports(reports: seq<Report>, keys: seq<u32>, all: map<u32, SendRecord>, epoch: nat) {
    && |reports| == |keys|
    && (forall i :: 0 <= i < |keys| ==> keys[i] in all)
    && (forall i :: 0 <= i < |keys| ==> IsLost(reports[i], all[keys[i]], epoch))
  }

  ghost predicate IsLost(report: Report, r: SendRecord, epoch: nat) {
    report == ReportLost(r, Elapsed(r.sentUs, epoch))
  }
}
