/** A lost shard's way back: the client asks for its number, the sender answers from its ring, and the shard reaches
    its slot (crates/client-core/src/lib.rs, `record_arrival`; crates/session/src/pipeline.rs, sender loop;
    crates/client-core/src/reassembly.rs, `push`). */
module RetransmissionPath {
  import opened Wrappers
  import opened Arithmetic
  import opened ByteStrings
  import opened Datagram
  import opened Chunker
  import opened ReassemblyModel
  import opened ReassemblyBounds
  import opened PacketReceipt
  import opened EndToEnd
  import Ring = Retransmission

  /** Shard j of frame id as the chunker made it. */
  ghost predicate IsShard(sent: map<u32, SentFrame>, d: Bytes, id: u32, j: nat)
    requires GoodSender(sent)
  {
    id in sent && j < |Sent(sent[id]).all| && d == Sent(sent[id]).all[j]
  }

  /** The sender task sends shards of the frames, and padding. */
  ghost predicate SendsFrames(sent: map<u32, SentFrame>, events: seq<Ring.Event>)
    requires GoodSender(sent)
  {
    forall i :: 0 <= i < |events| && events[i].Video? ==> exists id, j: nat :: IsShard(sent, events[i].datagram, id, j)
  }

  lemma ShardLong(sent: map<u32, SentFrame>, d: Bytes, id: u32, j: nat)
    requires GoodSender(sent) && IsShard(sent, d, id, j)
    ensures SEQ_OFFSET + 4 <= |d|
  {
    hide Encode, ChunkCount, ParityCount, GroupsFit, ShardPayload, HeaderFor;
    var f := sent[id];
    var c := CutOf(f);
    EncodeLength(HeaderFor(f.template, |f.data|, c.k, c.m, j), PayloadOf(c, j));
  }

  lemma FramesStampable(sent: map<u32, SentFrame>, events: seq<Ring.Event>)
    requires GoodSender(sent) && SendsFrames(sent, events)
    ensures Ring.Stampable(events)
  {
    hide GoodSender, IsShard;
    forall i | 0 <= i < |events| && events[i].Video? ensures SEQ_OFFSET + 4 <= |events[i].datagram| {
      var id, j: nat :| IsShard(sent, events[i].datagram, id, j);
      ShardLong(sent, events[i].datagram, id, j);
    }
  }

  /** A video datagram that went out is some frame's shard with its own number stamped on. */
  ghost predicate StampedShard(sent: map<u32, SentFrame>, v: Ring.Sent, id: u32, j: nat)
    requires GoodSender(sent)
  {
    && id in sent && j < |Sent(sent[id]).all| && SEQ_OFFSET + 4 <= |Sent(sent[id]).all[j]|
    && v.bytes == Stamped(Sent(sent[id]).all[j], v.number % U32_RANGE)
  }

  lemma {:induction false} VideoIsShards(sent: map<u32, SentFrame>, events: seq<Ring.Event>, k: nat)
      returns (id: u32, j: nat)
    requires GoodSender(sent) && SendsFrames(sent, events) && Ring.Stampable(events)
    requires k < |Ring.RunSender(events).video|
    ensures StampedShard(sent, Ring.RunSender(events).video[k], id, j)
  {
    hide GoodSender, Stamped, Sent;
    var n := |events| - 1;
    var r := Ring.RunSender(events[..n]);
    if k < |r.video| {
      id, j := VideoIsShards(sent, events[..n], k);
    } else {
      Ring.RunKeepsLast(events[..n]);
      assert r.nextSeq == r.count % U32_RANGE;
      id, j :| IsShard(sent, events[n].datagram, id, j);
      ShardLong(sent, events[n].datagram, id, j);
    }
  }

  /** Every answer to every request is a datagram of a sent frame. */
  lemma {:induction false} AnswersFromSender(sent: map<u32, SentFrame>, events: seq<Ring.Event>, seqs: seq<u32>)
    requires GoodSender(sent) && SendsFrames(sent, events) && Ring.Stampable(events)
    ensures forall d :: d in Ring.Answers(Ring.RunSender(events).ring, seqs) ==> FromSender(sent, d)
  {
    hide GoodSender, FromSender, SendsFrames, Ring.RunSender, Ring.Answer;
    if |seqs| > 0 {
      AnswersFromSender(sent, events, seqs[..|seqs| - 1]);
      AnswerFromSender(sent, events, seqs[|seqs| - 1]);
    }
  }

  lemma AnswerFromSender(sent: map<u32, SentFrame>, events: seq<Ring.Event>, s: u32)
    requires GoodSender(sent) && SendsFrames(sent, events) && Ring.Stampable(events)
    ensures forall d :: d in Ring.Answer(Ring.RunSender(events).ring, s) ==> FromSender(sent, d)
  {
    hide GoodSender, SendsFrames, Sent, Stamped, Ring.RunSender, Ring.FirstWith, ReadSeq;
    var r := Ring.RunSender(events);
    Ring.RunKeepsLast(events);
    var i := Ring.FirstWith(r.ring, s);
    if i < |r.ring| {
      var id, j := VideoIsShards(sent, events, Ring.Forgotten(r) + i);
    }
  }

  /** A stamped shard parses to its frame, index and payload. */
  lemma ShardParsed(sent: map<u32, SentFrame>, v: Ring.Sent, id: u32, j: nat)
    requires GoodSender(sent) && StampedShard(sent, v, id, j)
    ensures FromSender(sent, v.bytes) && Parse(v.bytes).Ok?
    ensures var (h, payload) := Parse(v.bytes).value;
      && ValidHeader(h) && h.frameId == id && h.chunkIndex == j && h.transportSeq == v.number % U32_RANGE
      && Genuine(sent, Arrival(h, payload))
      && payload == PayloadOf(CutOf(sent[id]), j)
  {
    hide ChunkCount, ParityCount, GroupsFit, ShardPayload, Stamped, Parse, Encode;
    var f := sent[id];
    var c := CutOf(f);
    var h := HeaderFor(f.template, |f.data|, c.k, c.m, j);
    StampedParses(h, PayloadOf(c, j), v.number % U32_RANGE);
  }

  /** Pushed while its frame is live, the shard is in its slot. */
  lemma ShardFillsSlot(sent: map<u32, SentFrame>, s: State, v: Ring.Sent, id: u32, j: nat)
    requires GoodSender(sent) && Faithful(sent, s) && StampedShard(sent, v, id, j)
    ensures Parse(v.bytes).Ok?
    ensures var (h, payload) := Parse(v.bytes).value;
      && ValidHeader(h) && j < |Entry(s, h, payload).shards|
      && Entry(s, h, payload).shards[j] == Some(PayloadOf(CutOf(sent[id]), j))
  {
    hide GoodSender, Parse, Stamped, Entry, PayloadOf, CutOf, Sent, Genuine;
    ShardParsed(sent, v, id, j);
    var (h, payload) := Parse(v.bytes).value;
    EntryFaithful(sent, s, Arrival(h, payload));
    SlotTaken(s, h, payload);
    SlotRight(sent, s, h, payload);
  }

  lemma SlotTaken(s: State, h: VideoHeader, payload: Bytes)
    requires ValidHeader(h)
    ensures Entry(s, h, payload).shards[h.chunkIndex].Some?
  {
  }

  lemma SlotRight(sent: map<u32, SentFrame>, s: State, h: VideoHeader, payload: Bytes)
    requires GoodSender(sent) && ValidHeader(h) && Genuine(sent, Arrival(h, payload))
    requires FaithfulEntry(sent[h.frameId], Entry(s, h, payload)) && Entry(s, h, payload).shards[h.chunkIndex].Some?
    ensures var c := CutOf(sent[h.frameId]);
      h.chunkIndex < c.k + c.m && Entry(s, h, payload).shards[h.chunkIndex].value == PayloadOf(c, h.chunkIndex)
  {
    hide Entry, PayloadOf, CutOf, Sent;
  }

  /** The datagram is shard j of frame id, and pushing it in this state leaves the shard in its slot. */
  ghost predicate FillsSlot(sent: map<u32, SentFrame>, s: State, d: Bytes, id: u32, j: nat)
    requires GoodSender(sent)
  {
    && id in sent && Parse(d).Ok?
    && var (h, payload) := Parse(d).value;
       var c := CutOf(sent[id]);
       && ValidHeader(h) && h.frameId == id && h.chunkIndex == j < c.k + c.m
       && j < |Entry(s, h, payload).shards| && Entry(s, h, payload).shards[j] == Some(PayloadOf(c, j))
  }

  /** The q-th number the client asked for. */
  ghost predicate Asked(r: ReceiptRun, q: nat, number: nat) {
    q < |r.requested| && r.requested[q] == number
  }

  ghost predicate NotArrivedWhenAsked(packets: seq<Packet>, q: nat, number: nat) {
    && q < |RunReceipt(packets).arrivedBy| && RunReceipt(packets).arrivedBy[q] <= |packets|
    && forall i :: 0 <= i < RunReceipt(packets).arrivedBy[q] ==> packets[i].number != number
  }

  lemma AskedInTime(packets: seq<Packet>, q: nat, number: nat)
    requires PlausibleRun(packets) && Asked(RunReceipt(packets), q, number)
    ensures NotArrivedWhenAsked(packets, q, number)
  {
    hide PlausibleRun, RunReceipt;
    RequestsAreSound(packets);
  }

  /** The k-th video datagram carried this number and is still kept. */
  ghost predicate KeptVideo(r: Ring.SenderRun, k: nat, number: nat) {
    Ring.Forgotten(r) <= k < |r.video| && r.video[k].number == number
  }

  lemma KeptAnswers(events: seq<Ring.Event>, k: nat, number: nat)
    requires Ring.Stampable(events) && Ring.Distinct(Ring.RunSender(events))
    requires KeptVideo(Ring.RunSender(events), k, number)
    ensures Ring.Answer(Ring.RunSender(events).ring, number % U32_RANGE) == [Ring.RunSender(events).video[k].bytes]
  {
    hide Ring.RunSender, Ring.Answer, Ring.Distinct, ReadSeq;
    var r := Ring.RunSender(events);
    assert Ring.Keeps(r, number % U32_RANGE, r.video[k].bytes);
    Ring.AnswerIsOriginal(events, number % U32_RANGE, r.video[k].bytes);
  }

  /** Client and sender together: a packet the client asks for had not arrived when it did; if it is a video datagram
      among the last 2048, the sender answers with exactly that datagram, which is a shard of a sent frame; and
      whenever the answer comes while the frame is live, the shard is in its slot. */
  lemma RequestedShardReturns(sent: map<u32, SentFrame>, packets: seq<Packet>, q: nat, number: nat,
                              events: seq<Ring.Event>, k: nat, s: State)
      returns (id: u32, j: nat)
    requires PlausibleRun(packets) && Asked(RunReceipt(packets), q, number)
    requires GoodSender(sent) && SendsFrames(sent, events) && Ring.Stampable(events) && Faithful(sent, s)
    requires Ring.Distinct(Ring.RunSender(events)) && KeptVideo(Ring.RunSender(events), k, number)
    ensures NotArrivedWhenAsked(packets, q, number)
    ensures Ring.Answer(Ring.RunSender(events).ring, number % U32_RANGE) == [Ring.RunSender(events).video[k].bytes]
    ensures FromSender(sent, Ring.RunSender(events).video[k].bytes)
    ensures FillsSlot(sent, s, Ring.RunSender(events).video[k].bytes, id, j)
  {
    hide GoodSender, SendsFrames, Sent, Stamped, Ring.RunSender, Ring.Answer, Ring.Distinct, RunReceipt, PlausibleRun;
    hide Parse, Entry, PayloadOf, FromSender, Genuine, Faithful, NotArrivedWhenAsked, Asked;
    AskedInTime(packets, q, number);
    KeptAnswers(events, k, number);
    id, j := VideoIsShards(sent, events, k);
    var v := Ring.RunSender(events).video[k];
    ShardParsed(sent, v, id, j);
    ShardFillsSlot(sent, s, v, id, j);
    SlotInRange(sent, v, id, j);
  }

  /** From loss to repair: a shard's packet skipped by a gap of at most 64 is requested when the gap shows, and comes
      back into its slot, unless the request budget of the second is used up, one of the last 512 requests was for
      a packet with the same wire number, or 2048 video datagrams have gone out since. */
  lemma SkippedShardReturns(sent: map<u32, SentFrame>, packets: seq<Packet>, number: nat, events: seq<Ring.Event>,
                            k: nat, s: State)
      returns (id: u32, j: nat)
    requires PlausibleRun(packets) && |packets| > 0
    requires var r, p := RunReceipt(packets[..|packets| - 1]), packets[|packets| - 1];
      && r.highest.Some? && r.highest.value < number < p.number <= r.highest.value + NACK_REACH
      && !SpentWithin(RunReceipt(packets), packets, p.now) && !OldNumberRemembered(r, number)
    requires GoodSender(sent) && SendsFrames(sent, events) && Ring.Stampable(events) && Faithful(sent, s)
    requires Ring.Distinct(Ring.RunSender(events)) && KeptVideo(Ring.RunSender(events), k, number)
    ensures packets[|packets| - 1].controlOpen ==>
      exists seqs :: Nack(seqs) in RunReceipt(packets).messages && number % U32_RANGE in seqs
    ensures Ring.Answer(Ring.RunSender(events).ring, number % U32_RANGE) == [Ring.RunSender(events).video[k].bytes]
    ensures FillsSlot(sent, s, Ring.RunSender(events).video[k].bytes, id, j)
  {
    hide GoodSender, SendsFrames, Ring.RunSender, Ring.Answer, Ring.Distinct, RunReceipt, PlausibleRun, FromSender,
         Faithful, FillsSlot, SpentWithin, OldNumberRemembered;
    SkippedIsRequested(packets, number);
    var r, q := RunReceipt(packets[..|packets| - 1]), RunReceipt(packets);
    var i :| 0 <= i < |q.requested[|r.requested|..]| && q.requested[|r.requested|..][i] == number;
    assert Asked(q, |r.requested| + i, number);
    id, j := RequestedShardReturns(sent, packets, |r.requested| + i, number, events, k, s);
  }

  lemma SlotInRange(sent: map<u32, SentFrame>, v: Ring.Sent, id: u32, j: nat)
    requires GoodSender(sent) && StampedShard(sent, v, id, j)
    ensures var c := CutOf(sent[id]);
      j < c.k + c.m
  {
    hide Sent;
  }
}
