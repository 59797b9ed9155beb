/** When a frame gets through: over a whole run of one frame's datagrams, delivery is decided by which of them
    arrived (crates/protocol/src/datagram.rs, crates/client-core/src/reassembly.rs). */
module FrameDelivery {
  import opened Wrappers
  import opened Arithmetic
  import opened ErasureCode
  import opened GroupLayout
  import opened Datagram
  import opened ReassemblyModel
  import opened FrameRebuild
  import opened ReassemblyBounds
  import opened EndToEnd

  ghost predicate AllGenuine(sent: map<u32, SentFrame>, arrivals: seq<Arrival>)
    requires GoodSender(sent)
  {
    forall i :: 0 <= i < |arrivals| ==> Genuine(sent, arrivals[i])
  }

  /** Some copy of shard i arrived. */
  ghost predicate Got(arrivals: seq<Arrival>, i: nat) {
    exists j :: 0 <= j < |arrivals| && arrivals[j].header.chunkIndex == i
  }

  /** The shards that arrived, each in its slot. */
  ghost function Collected(c: Cut, arrivals: seq<Arrival>): (s: Slots)
    requires ValidCut(c)
    ensures |s| == c.k + c.m
    ensures forall i :: 0 <= i < c.k + c.m ==> s[i] == if Got(arrivals, i) then Some(PayloadOf(c, i)) else None
  {
    seq(c.k + c.m, i requires 0 <= i < c.k + c.m => if Got(arrivals, i) then Some(PayloadOf(c, i)) else None)
  }

  /** Every group has as many of its shards as it has data shards. */
  ghost predicate Enough(c: Cut, arrivals: seq<Arrival>)
    requires ValidCut(c)
  {
    EveryGroupHasEnough(Collected(c, arrivals), c.k)
  }

  ghost function FrameOf(id: u32, f: SentFrame): CompletedFrame {
    CompletedFrame(id, f.template.kind, f.template.captureTs, f.data)
  }

  // ---------- The collected shards grow ----------

  lemma GotMore(arrivals: seq<Arrival>, a: Arrival, i: nat)
    ensures Got(arrivals + [a], i) <==> Got(arrivals, i) || a.header.chunkIndex == i
  {
    var more := arrivals + [a];
    if j :| 0 <= j < |arrivals| && arrivals[j].header.chunkIndex == i {
      assert more[j].header.chunkIndex == i;
    }
    if a.header.chunkIndex == i {
      assert more[|arrivals|].header.chunkIndex == i;
    }
    if j :| 0 <= j < |more| && more[j].header.chunkIndex == i {
      assert j < |arrivals| ==> arrivals[j].header.chunkIndex == i;
    }
  }

  lemma CollectedMore(c: Cut, arrivals: seq<Arrival>, a: Arrival)
    requires ValidCut(c) && a.header.chunkIndex < c.k + c.m
    ensures var i := a.header.chunkIndex;
      Collected(c, arrivals + [a]) == Collected(c, arrivals)[i := Some(PayloadOf(c, i))]
  {
    hide ValidCut, PayloadOf, Got;
    forall i | 0 <= i < c.k + c.m ensures Got(arrivals + [a], i) <==> Got(arrivals, i) || a.header.chunkIndex == i {
      GotMore(arrivals, a, i);
    }
  }

  lemma {:induction false} PresentGrows(s: Slots, t: Slots, lo: nat, hi: nat)
    requires |s| == |t| && lo <= hi <= |s|
    requires forall i :: lo <= i < hi && s[i].Some? ==> t[i].Some?
    ensures Present(s, lo, hi) <= Present(t, lo, hi)
    decreases hi
  {
    if lo < hi {
      PresentGrows(s, t, lo, hi - 1);
    }
  }

  /** More shards never hurt. */
  lemma EnoughStays(c: Cut, arrivals: seq<Arrival>, a: Arrival)
    requires ValidCut(c) && a.header.chunkIndex < c.k + c.m && Enough(c, arrivals)
    ensures Enough(c, arrivals + [a])
  {
    hide ValidCut, PayloadOf, Collected, Present, GroupAt, GroupCount;
    CollectedMore(c, arrivals, a);
    var s, t := Collected(c, arrivals), Collected(c, arrivals + [a]);
    forall g | 0 <= g < GroupCount(c.k) ensures GroupPresent(t, c.k, g) >= GroupAt(c.k, |t| - c.k, g).dataLen {
      assert GroupPresent(s, c.k, g) >= GroupAt(c.k, |s| - c.k, g).dataLen;
      LayoutTiles(c.k, |s| - c.k, g);
      var group := GroupAt(c.k, |s| - c.k, g);
      PresentGrows(s, t, group.dataStart, group.dataStart + group.dataLen);
      PresentGrows(s, t, group.parityStart, group.parityStart + group.parityLen);
    }
  }

  lemma NothingIsNotEnough(c: Cut)
    requires ValidCut(c)
    ensures !Enough(c, [])
  {
    hide PayloadOf, Present, GroupAt, GroupCount;
    var s := Collected(c, []);
    assert forall i :: 0 <= i < |s| ==> !Got([], i);
    GroupDataBounds(c.k, c.m, 0);
    LayoutTiles(c.k, c.m, 0);
    var group := GroupAt(c.k, c.m, 0);
    PresentNone(s, group.dataStart, group.dataStart + group.dataLen);
    PresentNone(s, group.parityStart, group.parityStart + group.parityLen);
    assert GroupPresent(s, c.k, 0) == 0;
  }

  // ---------- The two phases of a run ----------

  /** Still collecting: one entry, holding exactly what arrived. */
  ghost predicate Collecting(sent: map<u32, SentFrame>, id: u32, arrivals: seq<Arrival>, s: State,
                             out: seq<CompletedFrame>)
    requires GoodSender(sent) && id in sent
  {
    && out == [] && s.held == [] && s.latest == None
    && s.pending.Keys == (if |arrivals| == 0 then {} else {id})
    && (|arrivals| > 0 ==>
          FaithfulEntry(sent[id], s.pending[id]) && s.pending[id].shards == Collected(CutOf(sent[id]), arrivals))
  }

  /** Delivered: the frame went out once and nothing is left. */
  ghost predicate Delivered(sent: map<u32, SentFrame>, id: u32, s: State, out: seq<CompletedFrame>)
    requires GoodSender(sent) && id in sent
  {
    out == [FrameOf(id, sent[id])] && s.held == [] && s.latest == Some(id) && s.pending.Keys == {}
  }

  ghost predicate Phase(sent: map<u32, SentFrame>, id: u32, arrivals: seq<Arrival>, s: State, out: seq<CompletedFrame>)
    requires GoodSender(sent) && id in sent
  {
    if Enough(CutOf(sent[id]), arrivals) then Delivered(sent, id, s, out) else Collecting(sent, id, arrivals, s, out)
  }

  /** The entry after one more shard holds exactly what has arrived. */
  lemma EntryCollects(sent: map<u32, SentFrame>, id: u32, arrivals: seq<Arrival>, s: State, out: seq<CompletedFrame>,
                      a: Arrival)
    requires GoodSender(sent) && id in sent && Genuine(sent, a) && a.header.frameId == id && ValidHeader(a.header)
    requires Collecting(sent, id, arrivals, s, out)
    ensures FaithfulEntry(sent[id], Entry(s, a.header, a.payload))
    ensures Entry(s, a.header, a.payload).shards == Collected(CutOf(sent[id]), arrivals + [a])
  {
    hide CutOf, PayloadOf, WellFormed, Sent, ValidCut, SlotsOf, Collected;
    var h, f := a.header, sent[id];
    var c := CutOf(f);
    GenuineHeader(sent, a);
    StartsFaithful(sent, id, arrivals, s, out);
    EntryFaithful(sent, s, a);
    CollectedMore(c, arrivals, a);
    if |arrivals| == 0 {
      NothingCollected(c, arrivals, NewPending(h).shards);
    }
  }

  lemma NothingCollected(c: Cut, arrivals: seq<Arrival>, none: Slots)
    requires ValidCut(c) && |arrivals| == 0 && |none| == c.k + c.m && forall i :: 0 <= i < |none| ==> none[i].None?
    ensures Collected(c, arrivals) == none
  {
    hide ValidCut, PayloadOf;
  }

  lemma StartsFaithful(sent: map<u32, SentFrame>, id: u32, arrivals: seq<Arrival>, s: State, out: seq<CompletedFrame>)
    requires GoodSender(sent) && id in sent && Collecting(sent, id, arrivals, s, out)
    ensures Faithful(sent, s)
  {
    hide FaithfulEntry, Collected, CutOf, GoodSender;
    assert forall i :: i in s.pending ==> i in s.pending.Keys;
  }

  /** Draining with nothing pending releases a lone held frame. */
  lemma LoneFrameDrains(s: State, f: CompletedFrame)
    requires s.held == [f] && s.pending.Keys == {}
    ensures var (t, out) := Drained(s);
      out == [f] && t.held == [] && t.latest == Some(f.frameId) && t.pending.Keys == {}
  {
    hide Older;
    assert !Blocked(s, f.frameId) by {
      assert forall p :: p in s.pending ==> p in s.pending.Keys;
    }
    var t := Released(s);
    assert Drained(t) == (t, []);
    assert forall p :: p in t.pending ==> p in s.pending.Keys;
  }

  lemma ShardWhileCollecting(sent: map<u32, SentFrame>, id: u32, arrivals: seq<Arrival>, s: State, a: Arrival)
    requires GoodSender(sent) && id in sent && Genuine(sent, a) && a.header.frameId == id && ValidHeader(a.header)
    requires Collecting(sent, id, arrivals, s, [])
    ensures var (t, out) := Pushed(s, a.header, a.payload);
      Phase(sent, id, arrivals + [a], t, out)
  {
    hide Entry, CutOf, WellFormed, Completes, CompleteDirect, Reconstructed, Assembled, EveryGroupHasEnough, PayloadOf,
         ValidCut, SlotsOf, Sent, IsVictim, Collected, Drained, FaithfulEntry;
    var h, f := a.header, sent[id];
    var c := CutOf(f);
    GenuineHeader(sent, a);
    EntryCollects(sent, id, arrivals, s, [], a);
    var p := Entry(s, h, a.payload);
    EntryFacts(f, p);
    CompletesExactlyWhen(c, p);
    var stored := s.pending[h.frameId := p];
    assert stored.Keys == {id};
    if Completes(p) {
      CompletedBytes(c, p);
      assert Inserted([], FrameOf(id, f)) == [FrameOf(id, f)];
      assert (stored - {id}).Keys == {};
      LoneFrameDrains(Absorbed(s, h, a.payload), FrameOf(id, f));
    } else {
      assert |stored.Keys| == 1 == |stored|;
      NothingHeld(Absorbed(s, h, a.payload));
    }
  }

  lemma EntryFacts(f: SentFrame, p: Pending)
    requires Sent(f).Datagrams? && |f.data| < U32_RANGE && FaithfulEntry(f, p)
    ensures EntryOf(CutOf(f), p) && WellFormed(p)
  {
    hide WellFormed, CutOf, Sent;
  }

  lemma ShardAfterDelivery(sent: map<u32, SentFrame>, id: u32, s: State, out: seq<CompletedFrame>, a: Arrival)
    requires GoodSender(sent) && id in sent && a.header.frameId == id && ValidHeader(a.header)
    requires Delivered(sent, id, s, out)
    ensures Pushed(s, a.header, a.payload) == (s, [])
  {
    assert Age(id, id) == 0;
  }

  lemma PhaseStep(sent: map<u32, SentFrame>, id: u32, arrivals: seq<Arrival>, s: State, out: seq<CompletedFrame>,
                  a: Arrival)
    requires GoodSender(sent) && id in sent && Genuine(sent, a) && a.header.frameId == id && ValidHeader(a.header)
    requires Phase(sent, id, arrivals, s, out)
    ensures var (t, more) := Pushed(s, a.header, a.payload);
      Phase(sent, id, arrivals + [a], t, out + more)
  {
    hide Pushed, CutOf, Enough, Sent, Genuine, FaithfulEntry, Collected;
    if Enough(CutOf(sent[id]), arrivals) {
      IndexInRange(sent, id, a);
      EnoughStays(CutOf(sent[id]), arrivals, a);
      ShardAfterDelivery(sent, id, s, out, a);
      assert out + [] == out;
    } else {
      ShardWhileCollecting(sent, id, arrivals, s, a);
      assert [] + Pushed(s, a.header, a.payload).1 == Pushed(s, a.header, a.payload).1;
    }
  }

  lemma StartsCollecting(sent: map<u32, SentFrame>, id: u32)
    requires GoodSender(sent) && id in sent
    ensures Phase(sent, id, [], InitialState(), [])
  {
    hide CutOf, Enough, Sent;
    NothingIsNotEnough(CutOf(sent[id]));
  }

  lemma {:induction false} RunPhase(sent: map<u32, SentFrame>, id: u32, arrivals: seq<Arrival>)
    requires GoodSender(sent) && sent.Keys == {id} && ValidArrivals(arrivals) && AllGenuine(sent, arrivals)
    ensures Phase(sent, id, arrivals, Run(arrivals).0, Run(arrivals).1)
  {
    hide Pushed, Sent, GoodSender, Genuine, Phase;
    if |arrivals| == 0 {
      StartsCollecting(sent, id);
    } else {
      var n := |arrivals| - 1;
      var before, a := arrivals[..n], arrivals[n];
      assert arrivals == before + [a];
      RunPhase(sent, id, before);
      OnlyFrame(sent, id, a);
      PhaseStep(sent, id, before, Run(before).0, Run(before).1, a);
    }
  }

  /** Over any run of one frame's datagrams, in any order and with any repeats: the frame is released, once and as
      sent, exactly when every group has at least as many of its shards among the arrivals as it has data shards. */
  lemma DeliveredExactlyWhen(sent: map<u32, SentFrame>, id: u32, arrivals: seq<Arrival>)
    requires GoodSender(sent) && sent.Keys == {id} && ValidArrivals(arrivals) && AllGenuine(sent, arrivals)
    ensures Run(arrivals).1 == if Enough(CutOf(sent[id]), arrivals) then [FrameOf(id, sent[id])] else []
  {
    hide Run, CutOf, Enough, Sent, AllGenuine, FaithfulEntry, Collected;
    RunPhase(sent, id, arrivals);
  }

  lemma OnlyFrame(sent: map<u32, SentFrame>, id: u32, a: Arrival)
    requires GoodSender(sent) && sent.Keys == {id} && Genuine(sent, a)
    ensures a.header.frameId == id
  {
    assert a.header.frameId in sent.Keys;
  }

  lemma IndexInRange(sent: map<u32, SentFrame>, id: u32, a: Arrival)
    requires GoodSender(sent) && id in sent && Genuine(sent, a) && a.header.frameId == id
    ensures var c := CutOf(sent[id]);
      a.header.chunkIndex < c.k + c.m
  {
    hide CutOf, Sent;
  }
}
