/** Delivery over runs that interleave many frames: a frame is finished exactly when one of its shards completes it
    while it is live, and a frame that collects enough shards while its entry lives is finished, once
    (crates/protocol/src/datagram.rs, crates/client-core/src/reassembly.rs). */
module InterleavedDelivery {
  import opened Wrappers
  import opened Arithmetic
  import opened ByteStrings
  import opened Datagram
  import opened ReassemblyModel
  import opened FrameRebuild
  import opened ReassemblyBounds
  import opened ReassemblyOrder
  import opened EndToEnd
  import opened FrameDelivery

  /** Everything finished in a run: released, then still held. */
  ghost function Finished(arrivals: seq<Arrival>): seq<CompletedFrame>
    requires ValidArrivals(arrivals)
  {
    Run(arrivals).1 + Run(arrivals).0.held
  }

  // ---------- Draining and pending entries ----------

  /** Draining only moves frames from held to the output. */
  lemma {:induction false} DrainedMoves(s: State)
    ensures s.held == Drained(s).1 + Drained(s).0.held
    decreases |s.held|
  {
    hide Blocked, Forced, Older;
    if |s.held| > 0 && !(Blocked(s, s.held[0].frameId) && !Forced(s)) {
      DrainedMoves(Released(s));
    }
  }

  /** Draining only drops pending entries. */
  lemma {:induction false} DrainedPending(s: State, id: u32)
    ensures id in Drained(s).0.pending ==> id in s.pending && Drained(s).0.pending[id] == s.pending[id]
    decreases |s.held|
  {
    hide Blocked, Forced, Older;
    if |s.held| > 0 && !(Blocked(s, s.held[0].frameId) && !Forced(s)) {
      DrainedPending(Released(s), id);
    }
  }

  /** No pending frame is stale or held. */
  ghost predicate LiveEntries(s: State) {
    forall id :: id in s.pending ==> !Ignored(s, id)
  }

  lemma HeldHas(held: seq<CompletedFrame>, i: nat)
    requires i < |held|
    ensures InHeld(held, held[i].frameId)
  {
  }

  lemma TailIds(held: seq<CompletedFrame>, id: u32)
    requires |held| > 0
    ensures InHeld(held[1..], id) ==> InHeld(held, id)
  {
    if i :| 0 <= i < |held[1..]| && held[1..][i].frameId == id {
      HeldHas(held, i + 1);
    }
  }

  lemma ReleasedLive(s: State)
    requires LiveEntries(s) && |s.held| > 0
    ensures LiveEntries(Released(s))
  {
    hide Age, InHeld;
    var head := s.held[0].frameId;
    HeldHas(s.held, 0);
    assert head !in s.pending;
    forall id | id in Released(s).pending ensures !Ignored(Released(s), id) {
      assert !Ignored(s, id) && !Older(id, head) && id != head;
      AgeZero(id, head);
      TailIds(s.held, id);
    }
  }

  lemma AgeZero(a: u32, b: u32)
    ensures Age(a, b) == 0 <==> a == b
  {
    AgeBelow(a, b);
  }

  lemma {:induction false} DrainedLive(s: State)
    requires LiveEntries(s)
    ensures LiveEntries(Drained(s).0)
    decreases |s.held|
  {
    hide Blocked, Forced, LiveEntries, Released;
    if |s.held| > 0 && !(Blocked(s, s.held[0].frameId) && !Forced(s)) {
      ReleasedLive(s);
      DrainedLive(Released(s));
    }
  }

  lemma InsertedIds(held: seq<CompletedFrame>, f: CompletedFrame, id: u32)
    ensures InHeld(Inserted(held, f), id) ==> InHeld(held, id) || id == f.frameId
  {
    hide InsertPosition;
    InsertedElements(held, f);
    var all := Inserted(held, f);
    if i :| 0 <= i < |all| && all[i].frameId == id {
      if all[i] != f {
        assert all[i] in held;
      }
    }
  }

  /** The shard's frame joined held and left pending, or held is as before. */
  ghost predicate HeldAs(s: State, t: State, h: VideoHeader, data: Bytes) {
    t.held == Inserted(s.held, CompletedFrame(h.frameId, h.kind, h.captureTs, data)) && h.frameId !in t.pending
  }

  lemma AbsorbedShape(s: State, h: VideoHeader, payload: Bytes)
    requires ValidHeader(h)
    ensures var t := Absorbed(s, h, payload);
      && t.latest == s.latest
      && (forall id :: id in t.pending ==> id == h.frameId || (id in s.pending && t.pending[id] == s.pending[id]))
      && (h.frameId in t.pending ==> t.pending[h.frameId] == Entry(s, h, payload))
      && (t.held == s.held || exists data :: HeldAs(s, t, h, data))
  {
    hide Entry, Completes, CompleteDirect, Reconstructed, Assembled, Inserted, IsVictim;
    var p := Entry(s, h, payload);
    var t := Absorbed(s, h, payload);
    if Completes(p) {
      var data := if CompleteDirect(p) then Some(Assembled(p.shards, p.dataCount)) else Reconstructed(p);
      if data.Some? {
        assert HeldAs(s, t, h, data.value);
      }
    }
  }

  lemma AbsorbedLive(s: State, h: VideoHeader, payload: Bytes)
    requires ValidHeader(h) && LiveEntries(s) && !Ignored(s, h.frameId)
    ensures LiveEntries(Absorbed(s, h, payload))
  {
    hide Absorbed, Inserted, Stale, InHeld;
    AbsorbedShape(s, h, payload);
    var t := Absorbed(s, h, payload);
    forall id | id in t.pending ensures !Ignored(t, id) {
      if t.held != s.held {
        var data :| HeldAs(s, t, h, data);
        InsertedIds(s.held, CompletedFrame(h.frameId, h.kind, h.captureTs, data), id);
      }
    }
  }

  lemma PushedLive(s: State, h: VideoHeader, payload: Bytes)
    requires ValidHeader(h) && LiveEntries(s)
    ensures LiveEntries(Pushed(s, h, payload).0)
  {
    hide LiveEntries, Absorbed, Drained, Ignored;
    if !Ignored(s, h.frameId) {
      AbsorbedLive(s, h, payload);
      DrainedLive(Absorbed(s, h, payload));
    }
  }

  lemma {:induction false} RunLive(arrivals: seq<Arrival>)
    requires ValidArrivals(arrivals)
    ensures LiveEntries(Run(arrivals).0)
  {
    hide Pushed, Ignored;
    if |arrivals| > 0 {
      var n := |arrivals| - 1;
      RunLive(arrivals[..n]);
      PushedLive(Run(arrivals[..n]).0, arrivals[n].header, arrivals[n].payload);
    }
  }

  lemma {:induction false} RunFaithful(sent: map<u32, SentFrame>, arrivals: seq<Arrival>)
    requires GoodSender(sent) && ValidArrivals(arrivals) && AllGenuine(sent, arrivals)
    ensures Faithful(sent, Run(arrivals).0)
  {
    hide GoodSender, Pushed, Genuine, IsSent, FaithfulEntry;
    if |arrivals| > 0 {
      var n := |arrivals| - 1;
      RunFaithful(sent, arrivals[..n]);
      PushedFaithful(sent, Run(arrivals[..n]).0, arrivals[n]);
    }
  }

  // ---------- Finished exactly when completed ----------

  /** This shard completes its frame: the frame is neither passed nor held, and its entry now has enough. */
  ghost predicate CompletesNow(sent: map<u32, SentFrame>, s: State, a: Arrival)
    requires GoodSender(sent) && Genuine(sent, a) && ValidHeader(a.header)
  {
    GenuineHeader(sent, a);
    && !Ignored(s, a.header.frameId)
    && EveryGroupHasEnough(Entry(s, a.header, a.payload).shards, CutOf(sent[a.header.frameId]).k)
  }

  lemma InsertedHas(held: seq<CompletedFrame>, f: CompletedFrame, g: CompletedFrame)
    ensures Contains(Inserted(held, f), g) <==> g == f || Contains(held, g)
  {
    hide InsertPosition;
    InsertedContains(held, f);
    InsertedElements(held, f);
    var at := InsertPosition(held, f.frameId);
    var all := Inserted(held, f);
    if i :| 0 <= i < |held| && held[i] == g {
      assert all[if i < at then i else i + 1] == g;
    }
    if i :| 0 <= i < |all| && all[i] == g {
      if g != f {
        assert all[i] in held;
        InContains(held, g);
      }
    }
  }

  lemma InContains(held: seq<CompletedFrame>, g: CompletedFrame)
    ensures g in held <==> Contains(held, g)
  {
  }

  lemma ContainsEither(a: seq<CompletedFrame>, b: seq<CompletedFrame>, g: CompletedFrame)
    ensures Contains(a + b, g) <==> Contains(a, g) || Contains(b, g)
  {
    InContains(a, g);
    InContains(b, g);
    InContains(a + b, g);
  }

  /** One push: held and released together gain at most the completed frame. */
  lemma PushedGains(sent: map<u32, SentFrame>, s: State, a: Arrival, g: CompletedFrame)
    requires GoodSender(sent) && Faithful(sent, s) && Genuine(sent, a) && ValidHeader(a.header)
    ensures var (t, out) := Pushed(s, a.header, a.payload);
      Contains(out + t.held, g) <==>
        Contains(s.held, g) || (CompletesNow(sent, s, a) && g == FrameOf(a.header.frameId, sent[a.header.frameId]))
  {
    hide Absorbed, Drained, Ignored, Entry, CutOf, Sent, Faithful, EveryGroupHasEnough, Contains, Inserted;
    GenuineHeader(sent, a);
    if Ignored(s, a.header.frameId) {
      assert [] + s.held == s.held;
    } else {
      DrainedMoves(Absorbed(s, a.header, a.payload));
      AbsorbedFaithful(sent, s, a);
      InsertedHas(s.held, FrameOf(a.header.frameId, sent[a.header.frameId]), g);
    }
  }

  lemma FinishedStep(sent: map<u32, SentFrame>, arrivals: seq<Arrival>, g: CompletedFrame)
    requires GoodSender(sent) && ValidArrivals(arrivals) && AllGenuine(sent, arrivals) && |arrivals| > 0
    ensures var n := |arrivals| - 1;
      Contains(Finished(arrivals), g) <==>
        Contains(Finished(arrivals[..n]), g)
        || (CompletesNow(sent, Run(arrivals[..n]).0, arrivals[n])
            && g == FrameOf(arrivals[n].header.frameId, sent[arrivals[n].header.frameId]))
  {
    hide Pushed, GoodSender, Genuine, Contains, CompletesNow, FrameOf;
    var n := |arrivals| - 1;
    var (s, out) := Run(arrivals[..n]);
    RunFaithful(sent, arrivals[..n]);
    PushedGains(sent, s, arrivals[n], g);
    var (t, more) := Pushed(s, arrivals[n].header, arrivals[n].payload);
    assert Finished(arrivals) == out + (more + t.held);
    ContainsEither(out, more + t.held, g);
    ContainsEither(out, s.held, g);
  }

  ghost predicate CompletesAt(sent: map<u32, SentFrame>, arrivals: seq<Arrival>, id: u32, n: nat)
    requires GoodSender(sent) && ValidArrivals(arrivals) && AllGenuine(sent, arrivals) && n < |arrivals|
  {
    arrivals[n].header.frameId == id && CompletesNow(sent, Run(arrivals[..n]).0, arrivals[n])
  }

  /** Over any interleaving of many frames: a frame is released, or held for release, exactly when one of its shards
      completed it. */
  lemma {:induction false} FinishedExactlyWhen(sent: map<u32, SentFrame>, arrivals: seq<Arrival>, id: u32)
    requires GoodSender(sent) && ValidArrivals(arrivals) && AllGenuine(sent, arrivals) && id in sent
    ensures Contains(Finished(arrivals), FrameOf(id, sent[id])) <==>
      exists n: nat :: n < |arrivals| && CompletesAt(sent, arrivals, id, n)
  {
    hide GoodSender, Genuine, CompletesNow, Run, Finished, Contains;
    if |arrivals| == 0 {
      NothingFinished(FrameOf(id, sent[id]));
    } else {
      var last := |arrivals| - 1;
      var before := arrivals[..last];
      FinishedExactlyWhen(sent, before, id);
      FinishedStep(sent, arrivals, FrameOf(id, sent[id]));
      forall n: nat | n < last ensures CompletesAt(sent, before, id, n) <==> CompletesAt(sent, arrivals, id, n) {
        assert before[..n] == arrivals[..n] && before[n] == arrivals[n];
      }
      if n: nat :| n < last && CompletesAt(sent, before, id, n) {
        assert CompletesAt(sent, arrivals, id, n);
      }
      if CompletesNow(sent, Run(before).0, arrivals[last]) && arrivals[last].header.frameId == id {
        assert CompletesAt(sent, arrivals, id, last);
      }
      if n: nat :| n < |arrivals| && CompletesAt(sent, arrivals, id, n) {
        if n < last {
          assert CompletesAt(sent, before, id, n);
        }
      }
    }
  }

  lemma NothingFinished(g: CompletedFrame)
    ensures !Contains(Finished([]), g)
  {
  }

  // ---------- What a living entry collects ----------

  /** The arrivals of one frame. */
  ghost function Of(id: u32, arrivals: seq<Arrival>): seq<Arrival> {
    if |arrivals| == 0 then []
    else
      var front := Of(id, arrivals[..|arrivals| - 1]);
      if arrivals[|arrivals| - 1].header.frameId == id then front + [arrivals[|arrivals| - 1]] else front
  }

  /** Opened by arrival m and pending ever since, up to before arrival n. */
  ghost predicate LivesFrom(arrivals: seq<Arrival>, id: u32, m: nat, n: nat)
    requires ValidArrivals(arrivals)
  {
    && m <= n <= |arrivals| && m < |arrivals|
    && arrivals[m].header.frameId == id
    && id !in Run(arrivals[..m]).0.pending && !Ignored(Run(arrivals[..m]).0, id)
    && (forall k :: m < k <= n ==> id in Run(arrivals[..k]).0.pending)
  }

  /** A pushed shard leaves a surviving entry alone unless it is its own. */
  lemma PushedPending(s: State, a: Arrival, id: u32)
    requires ValidHeader(a.header) && LiveEntries(s) && id in Pushed(s, a.header, a.payload).0.pending
    ensures var t := Pushed(s, a.header, a.payload).0;
      if a.header.frameId != id then id in s.pending && t.pending[id] == s.pending[id]
      else !Ignored(s, id) && t.pending[id] == Entry(s, a.header, a.payload)
  {
    hide Absorbed, Drained, Ignored, Entry;
    if !Ignored(s, a.header.frameId) {
      DrainedPending(Absorbed(s, a.header, a.payload), id);
      AbsorbedShape(s, a.header, a.payload);
    }
  }

  /** The shards stored by an arrival, on top of those collected. */
  lemma EntryAdds(sent: map<u32, SentFrame>, s: State, a: Arrival, collected: seq<Arrival>)
    requires GoodSender(sent) && Faithful(sent, s) && Genuine(sent, a) && ValidHeader(a.header)
    requires var id := a.header.frameId; var c := CutOf(sent[id]);
      if id in s.pending then s.pending[id].shards == Collected(c, collected) else collected == []
    ensures Entry(s, a.header, a.payload).shards == Collected(CutOf(sent[a.header.frameId]), collected + [a])
  {
    hide CutOf, PayloadOf, WellFormed, Sent, ValidCut, SlotsOf, Collected;
    var id := a.header.frameId;
    var c := CutOf(sent[id]);
    GenuineHeader(sent, a);
    CollectedMore(c, collected, a);
    if id in s.pending {
      EntryMatches(sent, s, a);
    } else {
      NothingCollected(c, collected, NewPending(a.header).shards);
    }
  }

  lemma EntryMatches(sent: map<u32, SentFrame>, s: State, a: Arrival)
    requires GoodSender(sent) && Faithful(sent, s) && Genuine(sent, a) && ValidHeader(a.header)
    requires a.header.frameId in s.pending
    ensures Matches(s.pending[a.header.frameId], a.header)
  {
    hide CutOf, PayloadOf, WellFormed, Sent, ValidCut;
    GenuineHeader(sent, a);
    assert FaithfulEntry(sent[a.header.frameId], s.pending[a.header.frameId]);
  }

  lemma OfGrows(id: u32, arrivals: seq<Arrival>, m: nat, n: nat)
    requires m <= n < |arrivals|
    ensures Of(id, arrivals[m..n + 1]) ==
      if arrivals[n].header.frameId == id then Of(id, arrivals[m..n]) + [arrivals[n]] else Of(id, arrivals[m..n])
  {
    var part := arrivals[m..n + 1];
    assert part[..|part| - 1] == arrivals[m..n] && part[|part| - 1] == arrivals[n];
  }

  lemma LivesBefore(arrivals: seq<Arrival>, id: u32, m: nat, n: nat)
    requires ValidArrivals(arrivals) && LivesFrom(arrivals, id, m, n) && m < n
    ensures n <= |arrivals|
    ensures LivesFrom(arrivals, id, m, n - 1) && id in Run(arrivals[..n]).0.pending
  {
    hide Run, Ignored;
  }

  lemma RunLast(arrivals: seq<Arrival>, n: nat)
    requires ValidArrivals(arrivals) && n < |arrivals|
    ensures Run(arrivals[..n + 1]).0 == Pushed(Run(arrivals[..n]).0, arrivals[n].header, arrivals[n].payload).0
  {
    hide Pushed;
    assert arrivals[..n + 1][..n] == arrivals[..n];
  }

  /** One arrival of a living entry's run. */
  lemma SurvivorCollects(sent: map<u32, SentFrame>, s: State, a: Arrival, id: u32, collected: seq<Arrival>)
    requires GoodSender(sent) && Faithful(sent, s) && LiveEntries(s) && Genuine(sent, a) && ValidHeader(a.header)
    requires id in sent
    requires if id in s.pending then s.pending[id].shards == Collected(CutOf(sent[id]), collected)
             else collected == [] && a.header.frameId == id
    requires id in Pushed(s, a.header, a.payload).0.pending
    ensures Pushed(s, a.header, a.payload).0.pending[id].shards
      == Collected(CutOf(sent[id]), if a.header.frameId == id then collected + [a] else collected)
  {
    hide CutOf, Sent, Collected, Pushed, Genuine, Entry, Faithful, LiveEntries;
    PushedPending(s, a, id);
    if a.header.frameId == id {
      EntryAdds(sent, s, a, collected);
    }
  }

  /** A living entry holds exactly the shards of its frame that arrived since it was opened. */
  lemma {:induction false} LivingEntryCollects(sent: map<u32, SentFrame>, arrivals: seq<Arrival>, id: u32, m: nat,
                                               n: nat)
    requires GoodSender(sent) && ValidArrivals(arrivals) && AllGenuine(sent, arrivals) && id in sent
    requires LivesFrom(arrivals, id, m, n) && m < n
    ensures id in Run(arrivals[..n]).0.pending
    ensures Run(arrivals[..n]).0.pending[id].shards == Collected(CutOf(sent[id]), Of(id, arrivals[m..n]))
    decreases n
  {
    hide CutOf, Sent, Collected, Run, Pushed, Ignored, Entry, Faithful, LiveEntries, Of, AllGenuine, LivesFrom;
    var k := n - 1;
    LivesBefore(arrivals, id, m, n);
    StateBefore(sent, arrivals, k);
    OfGrows(id, arrivals, m, k);
    if m < k {
      LivingEntryCollects(sent, arrivals, id, m, k);
    } else {
      NoneYet(id, arrivals, m);
      OpenedAt(arrivals, id, m, k);
    }
    SurvivorCollects(sent, Run(arrivals[..k]).0, arrivals[k], id, Of(id, arrivals[m..k]));
  }

  lemma OpenedAt(arrivals: seq<Arrival>, id: u32, m: nat, n: nat)
    requires ValidArrivals(arrivals) && LivesFrom(arrivals, id, m, n)
    ensures arrivals[m].header.frameId == id && id !in Run(arrivals[..m]).0.pending
  {
    hide Run, Ignored;
  }

  /** What holds when arrival k comes. */
  lemma StateBefore(sent: map<u32, SentFrame>, arrivals: seq<Arrival>, k: nat)
    requires GoodSender(sent) && ValidArrivals(arrivals) && AllGenuine(sent, arrivals) && k < |arrivals|
    ensures LiveEntries(Run(arrivals[..k]).0) && Faithful(sent, Run(arrivals[..k]).0)
    ensures Genuine(sent, arrivals[k]) && ValidHeader(arrivals[k].header)
    ensures Run(arrivals[..k + 1]).0 == Pushed(Run(arrivals[..k]).0, arrivals[k].header, arrivals[k].payload).0
  {
    hide Run, Pushed, Genuine, Faithful, LiveEntries;
    RunLast(arrivals, k);
    RunLive(arrivals[..k]);
    RunFaithful(sent, arrivals[..k]);
  }

  lemma NoneYet(id: u32, arrivals: seq<Arrival>, m: nat)
    requires m <= |arrivals|
    ensures Of(id, arrivals[m..m]) == []
  {
  }

  /** A frame whose entry lives until a shard of its own brings the arrivals since it was opened to enough for every
      group, not pruned and not passed before, is released or held for release with the sent bytes. */
  lemma EnoughWhileLiving(sent: map<u32, SentFrame>, arrivals: seq<Arrival>, id: u32, m: nat, n: nat)
    requires GoodSender(sent) && ValidArrivals(arrivals) && AllGenuine(sent, arrivals) && id in sent
    requires LivesFrom(arrivals, id, m, n) && n < |arrivals| && arrivals[n].header.frameId == id
    requires Enough(CutOf(sent[id]), Of(id, arrivals[m..n + 1]))
    ensures CompletesAt(sent, arrivals, id, n)
    ensures Contains(Finished(arrivals), FrameOf(id, sent[id]))
  {
    hide CutOf, Sent, Collected, Run, Pushed, Genuine, Entry, Faithful, EveryGroupHasEnough, Finished, Contains;
    var s, a := Run(arrivals[..n]).0, arrivals[n];
    StateBefore(sent, arrivals, n);
    OfGrows(id, arrivals, m, n);
    if m < n {
      LivingEntryCollects(sent, arrivals, id, m, n);
    } else {
      NoneYet(id, arrivals, m);
    }
    EntryAdds(sent, s, a, Of(id, arrivals[m..n]));
    FinishedExactlyWhen(sent, arrivals, id);
  }

  /** Released and held frames carry strictly ascending frame numbers: none is finished twice. */
  lemma FinishedOnce(arrivals: seq<Arrival>, bases: seq<nat>, base: nat)
    requires ValidArrivals(arrivals) && Tracks(arrivals, bases)
    requires |bases| > 0 ==> base == bases[|bases| - 1]
    ensures var numbers := ReleasedNumbers(arrivals, bases) + Numbers(base, Run(arrivals).0.held);
      && |numbers| == |Finished(arrivals)|
      && Increasing(numbers)
      && forall i :: 0 <= i < |numbers| ==> numbers[i] % U32_RANGE == Finished(arrivals)[i].frameId
  {
    hide Number, Fits, Near, Run, ReleasedNumbers, Increasing, EachNewer, Live, InWindow;
    RunOrdered(arrivals, bases, base);
    var s := Run(arrivals).0;
    var released, held := ReleasedNumbers(arrivals, bases), Numbers(base, s.held);
    NumbersIncreasing(base, s.held);
    ExtendIncreasing(released, held);
    forall i | 0 <= i < |held| ensures held[i] % U32_RANGE == s.held[i].frameId {
      NumberTruncates(base, s.held[i].frameId);
    }
  }
}
