/** Delivery among other frames, decided by the arrivals alone: with few enough frames around, no entry is pruned and
    no newer frame passes (crates/client-core/src/reassembly.rs). */
module CrowdedDelivery {
  import opened Datagram
  import opened ReassemblyModel
  import opened ReassemblyBounds
  import opened ReassemblyOrder
  import opened EndToEnd
  import opened FrameDelivery
  import opened InterleavedDelivery

  // ---------- Draining spares an entry with few newer frames ----------

  lemma {:induction false} DistinctWithin(ids: seq<u32>, within: set<u32>)
    requires forall i :: 0 <= i < |ids| ==> ids[i] in within
    requires forall i, j :: 0 <= i < j < |ids| ==> ids[i] != ids[j]
    ensures |ids| <= |within|
  {
    if |ids| > 0 {
      var n := |ids| - 1;
      forall i | 0 <= i < n ensures ids[..n][i] in within - {ids[n]} {
        assert ids[i] != ids[n];
      }
      DistinctWithin(ids[..n], within - {ids[n]});
    }
  }

  /** Held frames newer than id are among few, and no keyframes. */
  ghost predicate FewNewer(s: State, id: u32, newer: set<u32>) {
    && |newer| <= HOLD_LIMIT
    && forall i :: 0 <= i < |s.held| && Older(id, s.held[i].frameId) ==>
         s.held[i].frameId in newer && s.held[i].kind != Idr
  }

  lemma HeadWaits(s: State, id: u32, newer: set<u32>, base: nat)
    requires Ordered(s, base) && id in s.pending && FewNewer(s, id, newer)
    requires |s.held| > 0 && Older(id, s.held[0].frameId)
    ensures Blocked(s, s.held[0].frameId) && !Forced(s)
  {
    hide Number, Older;
    var ids := seq(|s.held|, i requires 0 <= i < |s.held| => s.held[i].frameId);
    OlderIsLess(base, id, s.held[0].frameId);
    forall i | 0 <= i < |ids| ensures ids[i] in newer {
      OlderIsLess(base, id, s.held[i].frameId);
    }
    forall i, j | 0 <= i < j < |ids| ensures ids[i] != ids[j] {
      assert Number(base, s.held[i].frameId) < Number(base, s.held[j].frameId);
    }
    DistinctWithin(ids, newer);
  }

  lemma {:induction false} DrainedSpares(s: State, id: u32, newer: set<u32>, base: nat)
    requires Ordered(s, base) && id in s.pending && FewNewer(s, id, newer)
    ensures id in Drained(s).0.pending
    decreases |s.held|
  {
    hide Ordered, Blocked, Forced, Older;
    if |s.held| > 0 && !(Blocked(s, s.held[0].frameId) && !Forced(s)) {
      if Older(id, s.held[0].frameId) {
        HeadWaits(s, id, newer, base);
      } else {
        ReleasedOrdered(s, base);
        ReleasedSpares(s, id, newer);
        DrainedSpares(Released(s), id, newer, base);
      }
    }
  }

  lemma ReleasedSpares(s: State, id: u32, newer: set<u32>)
    requires |s.held| > 0 && id in s.pending && FewNewer(s, id, newer) && !Older(id, s.held[0].frameId)
    ensures id in Released(s).pending && FewNewer(Released(s), id, newer)
  {
    hide Older;
  }

  // ---------- One arrival ----------

  /** The frames in flight with this one. */
  ghost function InFlight(s: State, a: Arrival): set<u32> {
    s.pending.Keys + {a.header.frameId}
  }

  /** The arriving shard completes its frame's entry. */
  ghost predicate CompletesWith(s: State, a: Arrival)
    requires ValidHeader(a.header)
  {
    Completes(Entry(s, a.header, a.payload))
  }

  lemma AbsorbedSpares(s: State, a: Arrival, id: u32)
    requires ValidHeader(a.header) && |InFlight(s, a)| <= MAX_PENDING
    requires id in s.pending || a.header.frameId == id
    requires a.header.frameId == id ==> !CompletesWith(s, a)
    ensures id in Absorbed(s, a.header, a.payload).pending
  {
    hide Entry, Completes, CompleteDirect, Reconstructed, Assembled, Inserted, IsVictim;
    var stored := s.pending[a.header.frameId := Entry(s, a.header, a.payload)];
    assert stored.Keys == InFlight(s, a) && |stored| == |stored.Keys|;
  }

  /** The frames newer than id that are held or just arriving. */
  ghost predicate FewAround(sent: map<u32, SentFrame>, s: State, a: Arrival, id: u32, newer: set<u32>) {
    && |newer| <= HOLD_LIMIT
    && (forall x :: x in newer && x in sent ==> sent[x].template.kind != Idr)
    && (forall i :: 0 <= i < |s.held| && Older(id, s.held[i].frameId) ==> s.held[i].frameId in newer)
    && (Older(id, a.header.frameId) ==> a.header.frameId in newer)
  }

  lemma PushedSpares(sent: map<u32, SentFrame>, s: State, a: Arrival, id: u32, newer: set<u32>, base: nat)
    requires GoodSender(sent) && Faithful(sent, s) && Genuine(sent, a) && ValidHeader(a.header)
    requires Ordered(s, base) && LiveEntries(s) && InWindow(base, a.header.frameId)
    requires id in s.pending || (a.header.frameId == id && !Ignored(s, id))
    requires |InFlight(s, a)| <= MAX_PENDING && FewAround(sent, s, a, id, newer)
    requires a.header.frameId == id ==> !CompletesWith(s, a)
    ensures id in Pushed(s, a.header, a.payload).0.pending
  {
    hide Absorbed, Drained, Ignored, Entry, Ordered, GoodSender, Genuine, CompletesWith, InWindow, Faithful, FewAround;
    if !Ignored(s, a.header.frameId) {
      AbsorbedSpares(s, a, id);
      AbsorbedOrdered(s, a.header, a.payload, base);
      AbsorbedFaithful(sent, s, a);
      AbsorbedFew(sent, s, a, id, newer);
      DrainedSpares(Absorbed(s, a.header, a.payload), id, newer, base);
    }
  }

  lemma AbsorbedFew(sent: map<u32, SentFrame>, s: State, a: Arrival, id: u32, newer: set<u32>)
    requires GoodSender(sent) && ValidHeader(a.header) && Faithful(sent, Absorbed(s, a.header, a.payload))
    requires FewAround(sent, s, a, id, newer)
    ensures FewNewer(Absorbed(s, a.header, a.payload), id, newer)
  {
    hide Absorbed, Older, Inserted, FaithfulEntry;
    AbsorbedShape(s, a.header, a.payload);
    var t := Absorbed(s, a.header, a.payload);
    forall i | 0 <= i < |t.held| && Older(id, t.held[i].frameId)
      ensures t.held[i].frameId in newer && t.held[i].kind != Idr
    {
      assert IsSent(sent, t.held[i]);
      if t.held != s.held {
        var data :| HeldAs(s, t, a.header, data);
        InsertedElements(s.held, CompletedFrame(a.header.frameId, a.header.kind, a.header.captureTs, data));
        if t.held[i] in s.held {
          var j :| 0 <= j < |s.held| && s.held[j] == t.held[i];
        }
      }
    }
  }

  // ---------- Where the ids of a run are ----------

  ghost function Ids(arrivals: seq<Arrival>): set<u32> {
    set i | 0 <= i < |arrivals| :: arrivals[i].header.frameId
  }

  /** Everything a state remembers arrived. */
  ghost predicate Within(s: State, ids: set<u32>) {
    && s.pending.Keys <= ids
    && (forall i :: 0 <= i < |s.held| ==> s.held[i].frameId in ids)
    && (s.latest.Some? ==> s.latest.value in ids)
  }

  lemma {:induction false} DrainedWithin(s: State, ids: set<u32>)
    requires Within(s, ids)
    ensures Within(Drained(s).0, ids)
    decreases |s.held|
  {
    hide Blocked, Forced, Older;
    if |s.held| > 0 && !(Blocked(s, s.held[0].frameId) && !Forced(s)) {
      DrainedWithin(Released(s), ids);
    }
  }

  lemma AbsorbedWithin(s: State, a: Arrival, ids: set<u32>)
    requires ValidHeader(a.header) && Within(s, ids) && a.header.frameId in ids
    ensures Within(Absorbed(s, a.header, a.payload), ids)
  {
    hide Absorbed, Inserted;
    AbsorbedShape(s, a.header, a.payload);
    var t := Absorbed(s, a.header, a.payload);
    assert forall x :: x in t.pending.Keys ==> x in t.pending;
    forall i | 0 <= i < |t.held| ensures t.held[i].frameId in ids {
      if t.held != s.held {
        var data :| HeldAs(s, t, a.header, data);
        InsertedElements(s.held, CompletedFrame(a.header.frameId, a.header.kind, a.header.captureTs, data));
        if t.held[i] in s.held {
          var j :| 0 <= j < |s.held| && s.held[j] == t.held[i];
        }
      }
    }
  }

  lemma WithinMore(s: State, ids: set<u32>, more: set<u32>)
    requires Within(s, ids) && ids <= more
    ensures Within(s, more)
  {
  }

  lemma IdsGrow(arrivals: seq<Arrival>, m: nat, n: nat)
    requires m <= n <= |arrivals|
    ensures Ids(arrivals[..m]) <= Ids(arrivals[..n])
    ensures m < n ==> arrivals[m].header.frameId in Ids(arrivals[..n])
  {
    forall x | x in Ids(arrivals[..m]) ensures x in Ids(arrivals[..n]) {
      var i :| 0 <= i < m && arrivals[..m][i].header.frameId == x;
      assert arrivals[..n][i].header.frameId == x;
    }
    if m < n {
      assert arrivals[..n][m] == arrivals[m];
    }
  }

  lemma {:induction false} RunWithin(arrivals: seq<Arrival>, n: nat)
    requires ValidArrivals(arrivals) && n <= |arrivals|
    ensures Within(Run(arrivals[..n]).0, Ids(arrivals[..n]))
  {
    hide Pushed, Within, Ids;
    if n == 0 {
      NothingWithin(Ids(arrivals[..0]));
    } else {
      RunWithin(arrivals, n - 1);
      RunLast(arrivals, n - 1);
      IdsGrow(arrivals, n - 1, n);
      WithinMore(Run(arrivals[..n - 1]).0, Ids(arrivals[..n - 1]), Ids(arrivals[..n]));
      PushedWithin(Run(arrivals[..n - 1]).0, arrivals[n - 1], Ids(arrivals[..n]));
    }
  }

  lemma NothingWithin(ids: set<u32>)
    ensures Within(InitialState(), ids)
  {
  }

  lemma PushedWithin(s: State, a: Arrival, ids: set<u32>)
    requires ValidHeader(a.header) && Within(s, ids) && a.header.frameId in ids
    ensures Within(Pushed(s, a.header, a.payload).0, ids)
  {
    hide Absorbed, Drained, Within, Ignored;
    if !Ignored(s, a.header.frameId) {
      AbsorbedWithin(s, a, ids);
      DrainedWithin(Absorbed(s, a.header, a.payload), ids);
    }
  }

  // ---------- A frame with few others around ----------

  ghost function NewerThan(id: u32, ids: set<u32>): set<u32> {
    set x | x in ids && Older(id, x)
  }

  /** The frame's first shard is arrival m, nothing newer came before it, and among the first n arrivals there are at
      most eight frames, at most three of them newer and none of those a keyframe. */
  ghost predicate FewFrames(sent: map<u32, SentFrame>, arrivals: seq<Arrival>, id: u32, m: nat, n: nat) {
    && m < n <= |arrivals| && arrivals[m].header.frameId == id
    && (forall i :: 0 <= i < m ==> arrivals[i].header.frameId != id && !Older(id, arrivals[i].header.frameId))
    && |Ids(arrivals[..n])| <= MAX_PENDING
    && |NewerThan(id, Ids(arrivals[..n]))| <= HOLD_LIMIT
    && (forall x :: x in NewerThan(id, Ids(arrivals[..n])) && x in sent ==> sent[x].template.kind != Idr)
  }

  /** Its first shard opens an entry. */
  lemma OpensFresh(sent: map<u32, SentFrame>, arrivals: seq<Arrival>, id: u32, m: nat, n: nat)
    requires ValidArrivals(arrivals) && FewFrames(sent, arrivals, id, m, n)
    ensures id !in Run(arrivals[..m]).0.pending && !Ignored(Run(arrivals[..m]).0, id)
  {
    hide Run;
    RunWithin(arrivals, m);
    var s := Run(arrivals[..m]).0;
    forall x | x in Ids(arrivals[..m]) ensures x != id && !Older(id, x) {
      var i :| 0 <= i < m && arrivals[..m][i].header.frameId == x;
      assert arrivals[i].header.frameId == x;
    }
    if s.latest.Some? {
      AgeZero(id, s.latest.value);
    }
  }

  lemma SubsetSize(a: set<u32>, b: set<u32>)
    requires a <= b
    ensures |a| <= |b|
  {
    assert b == a + (b - a);
  }

  /** What the bound on frames means when arrival k comes. */
  lemma AroundAt(sent: map<u32, SentFrame>, arrivals: seq<Arrival>, id: u32, m: nat, n: nat, k: nat)
    requires ValidArrivals(arrivals) && FewFrames(sent, arrivals, id, m, n) && k < n
    ensures var s := Run(arrivals[..k]).0;
      && |InFlight(s, arrivals[k])| <= MAX_PENDING
      && FewAround(sent, s, arrivals[k], id, NewerThan(id, Ids(arrivals[..n])))
  {
    hide Run, Older, Ids;
    var s := Run(arrivals[..k]).0;
    RunWithin(arrivals, k);
    IdsGrow(arrivals, k, n);
    SubsetSize(InFlight(s, arrivals[k]), Ids(arrivals[..n]));
  }

  lemma OrderedAt(arrivals: seq<Arrival>, bases: seq<nat>, k: nat)
    requires ValidArrivals(arrivals) && Tracks(arrivals, bases) && k < |arrivals|
    ensures k < |bases|
    ensures Ordered(Run(arrivals[..k]).0, bases[k]) && InWindow(bases[k], arrivals[k].header.frameId)
  {
    hide Run, Ordered, InWindow, Live, Near, InRelease;
    TracksPrefix(arrivals, bases, k);
    var s := Run(arrivals[..k]).0;
    assert Fits(s, arrivals[k], bases[k]);
    if k == 0 {
      RunOrdered(arrivals[..k], bases[..k], bases[k]);
    } else {
      RunOrdered(arrivals[..k], bases[..k], bases[k - 1]);
      OrderedSlides(s, bases[k - 1], bases[k]);
    }
  }

  /** The entry lives as long as its shards are not enough. */
  lemma {:induction false} LivesUntilEnough(sent: map<u32, SentFrame>, arrivals: seq<Arrival>, bases: seq<nat>, id: u32,
                                            m: nat, n: nat, k: nat)
    requires GoodSender(sent) && ValidArrivals(arrivals) && AllGenuine(sent, arrivals) && id in sent
    requires Tracks(arrivals, bases) && FewFrames(sent, arrivals, id, m, n) && m <= k <= n
    requires !Enough(CutOf(sent[id]), Of(id, arrivals[m..k]))
    ensures LivesFrom(arrivals, id, m, k)
    decreases k
  {
    hide Run, CutOf, Sent, Enough, Of, AllGenuine, Tracks, Ignored, FewFrames;
    OpensAt(sent, arrivals, id, m, n);
    if k > m {
      LessIsNotEnough(sent, arrivals, id, m, k - 1);
      LivesUntilEnough(sent, arrivals, bases, id, m, n, k - 1);
      LivesOneMore(sent, arrivals, bases, id, m, n, k - 1);
    }
  }

  lemma OpensAt(sent: map<u32, SentFrame>, arrivals: seq<Arrival>, id: u32, m: nat, n: nat)
    requires ValidArrivals(arrivals) && FewFrames(sent, arrivals, id, m, n)
    ensures m < n <= |arrivals| && LivesFrom(arrivals, id, m, m)
  {
    hide Run, Ignored;
    OpensFresh(sent, arrivals, id, m, n);
  }

  lemma LessIsNotEnough(sent: map<u32, SentFrame>, arrivals: seq<Arrival>, id: u32, m: nat, k: nat)
    requires GoodSender(sent) && ValidArrivals(arrivals) && AllGenuine(sent, arrivals) && id in sent
    requires m <= k < |arrivals|
    ensures Enough(CutOf(sent[id]), Of(id, arrivals[m..k])) ==> Enough(CutOf(sent[id]), Of(id, arrivals[m..k + 1]))
  {
    hide CutOf, Sent, Enough, Of;
    OfGrows(id, arrivals, m, k);
    if arrivals[k].header.frameId == id && Enough(CutOf(sent[id]), Of(id, arrivals[m..k])) {
      IndexInRange(sent, id, arrivals[k]);
      EnoughStays(CutOf(sent[id]), Of(id, arrivals[m..k]), arrivals[k]);
    }
  }

  /** An arrival that does not complete the frame leaves its entry in place. */
  lemma LivesOneMore(sent: map<u32, SentFrame>, arrivals: seq<Arrival>, bases: seq<nat>, id: u32, m: nat, n: nat,
                     k: nat)
    requires GoodSender(sent) && ValidArrivals(arrivals) && AllGenuine(sent, arrivals) && id in sent
    requires Tracks(arrivals, bases) && FewFrames(sent, arrivals, id, m, n) && m <= k < n
    requires LivesFrom(arrivals, id, m, k) && !Enough(CutOf(sent[id]), Of(id, arrivals[m..k + 1]))
    ensures LivesFrom(arrivals, id, m, k + 1)
  {
    hide Run, CutOf, Sent, Enough, Of, AllGenuine, Tracks, Ignored, FewFrames, Ordered, InWindow, InFlight, FewAround;
    hide LiveEntries, Faithful, Genuine, Pushed, CompletesWith, NewerThan, Ids;
    OpensAt(sent, arrivals, id, m, n);
    StateBefore(sent, arrivals, k);
    OrderedAt(arrivals, bases, k);
    AroundAt(sent, arrivals, id, m, n, k);
    NotYet(sent, arrivals, id, m, k);
    PushedSpares(sent, Run(arrivals[..k]).0, arrivals[k], id, NewerThan(id, Ids(arrivals[..n])), bases[k]);
  }

  ghost predicate CompletesOn(arrivals: seq<Arrival>, k: nat)
    requires ValidArrivals(arrivals) && k < |arrivals|
  {
    CompletesWith(Run(arrivals[..k]).0, arrivals[k])
  }

  /** Its own shard does not complete it while they are too few. */
  lemma NotYet(sent: map<u32, SentFrame>, arrivals: seq<Arrival>, id: u32, m: nat, k: nat)
    requires GoodSender(sent) && ValidArrivals(arrivals) && AllGenuine(sent, arrivals) && id in sent
    requires k < |arrivals| && LivesFrom(arrivals, id, m, k)
    requires !Enough(CutOf(sent[id]), Of(id, arrivals[m..k + 1]))
    ensures arrivals[k].header.frameId == id ==> !CompletesOn(arrivals, k)
  {
    hide Run, CutOf, Sent, Of, Collected, Completes, Entry, Faithful, LiveEntries, EveryGroupHasEnough, Pushed;
    StateBefore(sent, arrivals, k);
    if arrivals[k].header.frameId == id {
      var s, a := Run(arrivals[..k]).0, arrivals[k];
      EntryAt(sent, arrivals, id, m, k);
      EntryFaithful(sent, s, a);
      EntryFacts(sent[id], Entry(s, a.header, a.payload));
      CompletesExactlyWhen(CutOf(sent[id]), Entry(s, a.header, a.payload));
    }
  }

  /** The entry after its own shard holds what arrived since it was opened. */
  lemma EntryAt(sent: map<u32, SentFrame>, arrivals: seq<Arrival>, id: u32, m: nat, k: nat)
    requires GoodSender(sent) && ValidArrivals(arrivals) && AllGenuine(sent, arrivals) && id in sent
    requires k < |arrivals| && LivesFrom(arrivals, id, m, k) && arrivals[k].header.frameId == id
    ensures ValidHeader(arrivals[k].header)
    ensures Entry(Run(arrivals[..k]).0, arrivals[k].header, arrivals[k].payload).shards
      == Collected(CutOf(sent[id]), Of(id, arrivals[m..k + 1]))
  {
    hide Run, CutOf, Sent, Of, Collected, Entry, Faithful, LiveEntries, Pushed, Genuine, Ignored;
    StateBefore(sent, arrivals, k);
    OfGrows(id, arrivals, m, k);
    if m < k {
      LivingEntryCollects(sent, arrivals, id, m, k);
    } else {
      NoneYet(id, arrivals, m);
    }
    EntryAdds(sent, Run(arrivals[..k]).0, arrivals[k], Of(id, arrivals[m..k]));
  }

  // ---------- Finished exactly when enough arrived ----------

  lemma {:induction false} MoreIsEnough(sent: map<u32, SentFrame>, arrivals: seq<Arrival>, id: u32, m: nat, j: nat,
                                        k: nat)
    requires GoodSender(sent) && ValidArrivals(arrivals) && AllGenuine(sent, arrivals) && id in sent
    requires m <= j <= k <= |arrivals| && Enough(CutOf(sent[id]), Of(id, arrivals[m..j]))
    ensures Enough(CutOf(sent[id]), Of(id, arrivals[m..k]))
    decreases k
  {
    hide CutOf, Sent, Enough, Of, AllGenuine;
    if j < k {
      MoreIsEnough(sent, arrivals, id, m, j, k - 1);
      LessIsNotEnough(sent, arrivals, id, m, k - 1);
    }
  }

  /** The arrival that makes the shards enough is one of the frame's own. */
  lemma {:induction false} FirstEnough(sent: map<u32, SentFrame>, arrivals: seq<Arrival>, id: u32, m: nat, k: nat)
      returns (j: nat)
    requires GoodSender(sent) && ValidArrivals(arrivals) && AllGenuine(sent, arrivals) && id in sent
    requires m <= k <= |arrivals| && Enough(CutOf(sent[id]), Of(id, arrivals[m..k]))
    ensures m <= j < k && arrivals[j].header.frameId == id
    ensures !Enough(CutOf(sent[id]), Of(id, arrivals[m..j])) && Enough(CutOf(sent[id]), Of(id, arrivals[m..j + 1]))
    decreases k
  {
    hide CutOf, Sent, Enough, Of, AllGenuine;
    if k == m {
      NoneYet(id, arrivals, m);
      NothingIsNotEnough(CutOf(sent[id]));
      j := m;
    } else if Enough(CutOf(sent[id]), Of(id, arrivals[m..k - 1])) {
      j := FirstEnough(sent, arrivals, id, m, k - 1);
    } else {
      OfGrows(id, arrivals, m, k - 1);
      j := k - 1;
    }
  }

  lemma EnoughFinishes(sent: map<u32, SentFrame>, arrivals: seq<Arrival>, bases: seq<nat>, id: u32, m: nat)
    requires GoodSender(sent) && ValidArrivals(arrivals) && AllGenuine(sent, arrivals) && id in sent
    requires Tracks(arrivals, bases) && FewFrames(sent, arrivals, id, m, |arrivals|)
    requires Enough(CutOf(sent[id]), Of(id, arrivals[m..|arrivals|]))
    ensures Contains(Finished(arrivals), FrameOf(id, sent[id]))
  {
    hide CutOf, Sent, Enough, Of, AllGenuine, Tracks, FewFrames, LivesFrom, Finished, Contains;
    OpensAt(sent, arrivals, id, m, |arrivals|);
    var k := FirstEnough(sent, arrivals, id, m, |arrivals|);
    LivesUntilEnough(sent, arrivals, bases, id, m, |arrivals|, k);
    EnoughWhileLiving(sent, arrivals, id, m, k);
  }

  lemma CompletedHasEnough(sent: map<u32, SentFrame>, arrivals: seq<Arrival>, bases: seq<nat>, id: u32, m: nat, k: nat)
    requires GoodSender(sent) && ValidArrivals(arrivals) && AllGenuine(sent, arrivals) && id in sent
    requires Tracks(arrivals, bases) && FewFrames(sent, arrivals, id, m, |arrivals|)
    requires k < |arrivals| && CompletesAt(sent, arrivals, id, k)
    ensures m <= |arrivals| && Enough(CutOf(sent[id]), Of(id, arrivals[m..|arrivals|]))
  {
    hide CutOf, Sent, Of, Tracks, LivesFrom, Collected, Entry, Run, EveryGroupHasEnough, Ignored, Ids, NewerThan;
    assert m <= k;
    if !Enough(CutOf(sent[id]), Of(id, arrivals[m..k])) {
      LivesUntilEnough(sent, arrivals, bases, id, m, |arrivals|, k);
      EntryAt(sent, arrivals, id, m, k);
      MoreIsEnough(sent, arrivals, id, m, k + 1, |arrivals|);
    } else {
      MoreIsEnough(sent, arrivals, id, m, k, |arrivals|);
    }
  }

  /** Over any run of at most eight frames in any interleaving, a frame with at most three newer ones, none of those a
      keyframe, is released or held for release exactly when every group has as many of its shards among the arrivals
      as it has data shards. */
  lemma FinishedAmongFew(sent: map<u32, SentFrame>, arrivals: seq<Arrival>, bases: seq<nat>, id: u32, m: nat)
    requires GoodSender(sent) && ValidArrivals(arrivals) && AllGenuine(sent, arrivals) && id in sent
    requires Tracks(arrivals, bases) && FewFrames(sent, arrivals, id, m, |arrivals|)
    ensures m <= |arrivals|
    ensures Contains(Finished(arrivals), FrameOf(id, sent[id])) <==>
      Enough(CutOf(sent[id]), Of(id, arrivals[m..|arrivals|]))
  {
    hide CutOf, Sent, Of, Tracks, LivesFrom, Enough, FewFrames, Finished, Contains, CompletesAt, FrameOf, AllGenuine;
    OpensAt(sent, arrivals, id, m, |arrivals|);
    if Enough(CutOf(sent[id]), Of(id, arrivals[m..|arrivals|])) {
      EnoughFinishes(sent, arrivals, bases, id, m);
    }
    if Contains(Finished(arrivals), FrameOf(id, sent[id])) {
      FinishedExactlyWhen(sent, arrivals, id);
      var k: nat :| k < |arrivals| && CompletesAt(sent, arrivals, id, k);
      CompletedHasEnough(sent, arrivals, bases, id, m, k);
    }
  }
}
