/** Bounded memory and conservation of frame entries over every run of the reassembler
    (crates/client-core/src/reassembly.rs). */
module ReassemblyBounds {
  import opened Wrappers
  import opened Arithmetic
  import opened ByteStrings
  import opened Datagram
  import opened ReassemblyModel

  /** One parsed datagram as it reaches the reassembler. */
  datatype Arrival = Arrival(header: VideoHeader, payload: Bytes)

  ghost predicate ValidArrivals(arrivals: seq<Arrival>) {
    forall i :: 0 <= i < |arrivals| ==> ValidHeader(arrivals[i].header)
  }

  /** The state after a run and everything released during it. */
  ghost function Run(arrivals: seq<Arrival>): (r: (State, seq<CompletedFrame>))
    requires ValidArrivals(arrivals)
  {
    if |arrivals| == 0 then (InitialState(), [])
    else
      var n := |arrivals| - 1;
      var (s, before) := Run(arrivals[..n]);
      var (s', out) := Pushed(s, arrivals[n].header, arrivals[n].payload);
      (s', before + out)
  }

  // ---------- Bounds ----------

  ghost predicate Bounded(s: State) {
    && |s.pending| <= MAX_PENDING
    && |s.held| <= HOLD_LIMIT
    && (|s.held| > 0 ==> s.held[0].kind != Idr && Blocked(s, s.held[0].frameId))
  }

  lemma {:induction false} DrainedBounded(s: State)
    requires |s.pending| <= MAX_PENDING
    ensures Bounded(Drained(s).0)
    decreases |s.held|
  {
    hide Blocked, Older;
    if |s.held| > 0 && !(Blocked(s, s.held[0].frameId) && !Forced(s)) {
      PruneCounts(s.pending, s.held[0].frameId);
      DrainedBounded(Released(s));
    }
  }

  lemma InsertedCount(pending: map<u32, Pending>, id: u32, p: Pending)
    ensures |pending[id := p]| == |pending| + if id in pending then 0 else 1
  {
    var after := pending[id := p];
    if id in pending {
      assert after.Keys == pending.Keys;
    } else {
      assert after.Keys == pending.Keys + {id};
    }
    assert |after.Keys| == |after| && |pending.Keys| == |pending|;
  }

  lemma RemovedCount(pending: map<u32, Pending>, id: u32)
    requires id in pending
    ensures |pending - {id}| == |pending| - 1
  {
    var after := pending - {id};
    assert pending.Keys == after.Keys + {id};
    assert |after.Keys| == |after| && |pending.Keys| == |pending|;
  }

  // ---------- Conservation ----------

  /** Entries accounted for in a state: in flight, held, and dropped. */
  ghost function Accounted(s: State): nat {
    |s.pending| + |s.held| + s.dropped
  }

  ghost predicate Opens(s: State, h: VideoHeader) {
    !Ignored(s, h.frameId) && h.frameId !in s.pending
  }

  lemma {:induction false} DrainedAccounts(s: State)
    ensures Accounted(Drained(s).0) + |Drained(s).1| == Accounted(s)
    decreases |s.held|
  {
    hide Blocked, Older;
    if |s.held| > 0 && !(Blocked(s, s.held[0].frameId) && !Forced(s)) {
      PruneCounts(s.pending, s.held[0].frameId);
      DrainedAccounts(Released(s));
    }
  }

  lemma AbsorbedAccounts(s: State, h: VideoHeader, payload: Bytes)
    requires ValidHeader(h) && |s.pending| <= MAX_PENDING
    ensures |Absorbed(s, h, payload).pending| <= MAX_PENDING
    ensures Accounted(Absorbed(s, h, payload)) == Accounted(s) + if h.frameId in s.pending then 0 else 1
  {
    hide Completes, CompleteDirect, Reconstructed, Assembled, Entry, InsertPosition, IsNewest, Age;
    var p := Entry(s, h, payload);
    var stored := s.pending[h.frameId := p];
    InsertedCount(s.pending, h.frameId, p);
    RemovedCount(stored, h.frameId);
    if !Completes(p) && |stored| > MAX_PENDING {
      assert |stored.Keys| > 0;
      RemovedCount(stored, Victim(stored.Keys));
    }
  }

  /** One shard keeps the bounds, and accounts for every entry it opens, releases or drops. */
  lemma PushedBoundedAndAccounted(s: State, h: VideoHeader, payload: Bytes)
    requires ValidHeader(h) && Bounded(s)
    ensures Bounded(Pushed(s, h, payload).0)
    ensures Accounted(Pushed(s, h, payload).0) + |Pushed(s, h, payload).1|
         == Accounted(s) + if Opens(s, h) then 1 else 0
  {
    hide Absorbed, Drained, Ignored, Accounted;
    if !Ignored(s, h.frameId) {
      AbsorbedAccounts(s, h, payload);
      DrainedBounded(Absorbed(s, h, payload));
      DrainedAccounts(Absorbed(s, h, payload));
    }
  }

  /** Entries opened over a run. */
  ghost function OpenedCount(arrivals: seq<Arrival>): nat
    requires ValidArrivals(arrivals)
  {
    if |arrivals| == 0 then 0
    else
      var n := |arrivals| - 1;
      OpenedCount(arrivals[..n]) + if Opens(Run(arrivals[..n]).0, arrivals[n].header) then 1 else 0
  }

  /** After every run: at most 8 entries in flight and 3 frames held, a held head waits for an older
      entry, and opened == in flight + held + released + dropped. */
  lemma {:induction false} RunBoundedAndAccounted(arrivals: seq<Arrival>)
    requires ValidArrivals(arrivals)
    ensures Bounded(Run(arrivals).0)
    ensures var (s, released) := Run(arrivals);
      OpenedCount(arrivals) == |s.pending| + |s.held| + |released| + s.dropped
  {
    hide Pushed, Opens, Blocked;
    if |arrivals| > 0 {
      var n := |arrivals| - 1;
      RunBoundedAndAccounted(arrivals[..n]);
      PushedBoundedAndAccounted(Run(arrivals[..n]).0, arrivals[n].header, arrivals[n].payload);
    }
  }

  // ---------- Which entry the bound sacrifices ----------

  ghost predicate IsOldest(ids: set<u32>, v: u32) {
    v in ids && forall id :: id in ids && id != v ==> Older(v, id)
  }

  lemma OlderWithoutModulus(a: u32, b: u32)
    ensures Older(a, b) <==> if a <= b then 0 < b - a < HALF_RANGE else b + U32_RANGE - a < HALF_RANGE
  {
    AgeBelow(a, b);
  }

  /** The pruned entry has the numerically smallest id; it is the wrap-aware oldest exactly when the smallest and
      the largest pending id are less than half the id space apart. */
  lemma PrunesOldestExactlyWhen(ids: set<u32>, v: u32, n: u32)
    requires IsVictim(ids, v) && IsNewest(ids, n)
    ensures forall id :: id in ids ==> v <= id <= n
    ensures IsOldest(ids, v) <==> n - v < HALF_RANGE
  {
    hide Age;
    var m :| IsNewest(ids, m) && forall id :: id in ids ==> Age(id, m) <= Age(v, m);
    assert m == n;
    forall id | id in ids ensures v <= id {
      AgeBelow(id, n);
      AgeBelow(v, n);
    }
    forall id | id in ids ensures Older(v, id) <==> 0 < id - v < HALF_RANGE {
      OlderWithoutModulus(v, id);
    }
  }

  // ---------- Nine open frames across the wrap ----------

  const FIRST_OPEN: u32 := 0xffff_fff8

  ghost function OpenId(i: nat): u32 {
    (FIRST_OPEN + i) % U32_RANGE
  }

  /** The first of two data shards of frame i. */
  ghost function OpeningShard(i: nat): Arrival {
    Arrival(VideoHeader(0, 0, OpenId(i), P, 0, 2, 0, 2, 0), [])
  }

  ghost function OpeningRun(n: nat): (a: seq<Arrival>)
    ensures |a| == n && ValidArrivals(a)
  {
    seq(n, i requires 0 <= i < n => OpeningShard(i))
  }

  /** The ids of the first n frames. */
  ghost function OpenIds(n: nat): set<u32> {
    set i: nat | i < n :: OpenId(i)
  }

  /** Frames open, none complete. */
  ghost predicate OnlyOpen(s: State, ids: set<u32>) {
    s.pending.Keys == ids && s.held == [] && s.latest == None && s.dropped == 0
  }

  lemma ShardNotEnough(s: State, i: nat)
    requires OpenId(i) !in s.pending
    ensures !Completes(Entry(s, OpeningShard(i).header, []))
  {
    hide OpenId, Recoverable;
    var p := Entry(s, OpeningShard(i).header, []);
    assert p.receivedData == 1 && p.receivedTotal == 1 && p.dataCount == 2;
  }

  lemma NothingHeld(s: State)
    requires s.held == []
    ensures Drained(s) == (s, [])
  {
  }

  lemma OpensAnother(s: State, ids: set<u32>, i: nat)
    requires OnlyOpen(s, ids) && OpenId(i) !in ids
    ensures var (t, out) := Pushed(s, OpeningShard(i).header, OpeningShard(i).payload);
      && out == []
      && (|ids| < MAX_PENDING ==> OnlyOpen(t, ids + {OpenId(i)}))
      && (|ids| == MAX_PENDING ==>
            t.pending.Keys == ids + {OpenId(i)} - {Victim(ids + {OpenId(i)})} && t.dropped == 1)
  {
    hide OpenId, IsVictim, Completes, Entry, Drained;
    var h := OpeningShard(i).header;
    assert h.frameId !in s.pending.Keys;
    ShardNotEnough(s, i);
    var stored := s.pending[h.frameId := Entry(s, h, [])];
    assert stored.Keys == ids + {OpenId(i)};
    assert |stored| == |stored.Keys| == |ids| + 1;
    NothingHeld(Absorbed(s, h, []));
  }

  lemma IdsGrow(n: nat)
    requires n < 9
    ensures OpenIds(n + 1) == OpenIds(n) + {OpenId(n)} && OpenId(n) !in OpenIds(n)
    ensures |OpenIds(n + 1)| == |OpenIds(n)| + 1
  {
    assert forall i: nat :: i < 8 ==> OpenId(i) == FIRST_OPEN + i;
    assert OpenId(8) == 0;
  }

  lemma {:induction false} EightOpen(n: nat)
    requires n <= MAX_PENDING
    ensures OnlyOpen(Run(OpeningRun(n)).0, OpenIds(n)) && Run(OpeningRun(n)).1 == [] && |OpenIds(n)| == n
  {
    hide Pushed, OpenId;
    if n == 0 {
      assert OpenIds(0) == {};
    } else {
      EightOpen(n - 1);
      IdsGrow(n - 1);
      assert OpeningRun(n)[..n - 1] == OpeningRun(n - 1);
      OpensAnother(Run(OpeningRun(n - 1)).0, OpenIds(n - 1), n - 1);
    }
  }

  lemma OpenIdsAre(i: nat)
    requires i <= 8
    ensures OpenId(i) == if i < 8 then FIRST_OPEN + i else 0
    ensures i < 8 ==> Older(OpenId(i), 0)
  {
    if i < 8 {
      OlderWithoutModulus(OpenId(i), 0);
    }
  }

  lemma NineIds(v: u32)
    ensures v in OpenIds(9) <==> v == 0 || FIRST_OPEN <= v <= 0xffff_ffff
  {
    hide OpenId;
    forall i: nat | i <= 8 ensures OpenId(i) == if i < 8 then FIRST_OPEN + i else 0 {
      OpenIdsAre(i);
    }
    if FIRST_OPEN <= v <= 0xffff_ffff {
      assert OpenId(v - FIRST_OPEN) == v;
    }
    assert OpenId(8) == 0;
  }

  lemma NewestIsVictim(v: u32)
    requires IsVictim(OpenIds(9), v)
    ensures v == 0
  {
    hide OpenIds, IsVictim, Older;
    forall id: u32 ensures id in OpenIds(9) <==> id == 0 || FIRST_OPEN <= id <= 0xffff_ffff {
      NineIds(id);
    }
    assert 0xffff_ffff in OpenIds(9) && 0 in OpenIds(9);
    PrunesOldestExactlyWhen(OpenIds(9), v, 0xffff_ffff);
  }

  /** Of nine open frames numbered 0xfffffff8 to 0, the one thrown away is the newest, opened last. */
  lemma NewestThrownAway()
    ensures var (s, released) := Run(OpeningRun(9));
      && released == [] && s.dropped == 1
      && OpenId(8) == 0 && 0 !in s.pending
      && (forall i: nat :: i < 8 ==> OpenId(i) in s.pending && Older(OpenId(i), 0))
  {
    hide Pushed, Run, IsVictim, OpenIds, Older, OpenId, OnlyOpen;
    EightOpen(8);
    IdsGrow(8);
    RunNine();
    OpenIdsAre(8);
    var s := Run(OpeningRun(8)).0;
    OpensAnother(s, OpenIds(8), 8);
    assert OpenIds(9) == OpenIds(8) + {OpenId(8)};
    NewestIsVictim(Victim(OpenIds(9)));
    var t := Run(OpeningRun(9)).0;
    assert t.pending.Keys == OpenIds(9) - {0};
    forall i: nat | i < 8 ensures OpenId(i) in t.pending && Older(OpenId(i), 0) {
      OpenIdsAre(i);
      NineIds(OpenId(i));
      assert OpenId(i) in t.pending.Keys;
    }
    assert 0 !in t.pending.Keys;
  }

  lemma RunNine()
    ensures Run(OpeningRun(9)) ==
      (Pushed(Run(OpeningRun(8)).0, OpeningShard(8).header, OpeningShard(8).payload).0,
       Run(OpeningRun(8)).1 + Pushed(Run(OpeningRun(8)).0, OpeningShard(8).header, OpeningShard(8).payload).1)
  {
    hide Pushed, OpenId;
    assert OpeningRun(9)[..8] == OpeningRun(8);
  }

  // ---------- A shard of another epoch or geometry ----------

  /** A stored shard in another slot survives the arrival exactly when the arrival has the entry's epoch and
      geometry; otherwise the entry is restarted and holds the arrival alone. */
  lemma ShardsSurviveExactlyWhen(s: State, h: VideoHeader, payload: Bytes, j: nat)
    requires ValidHeader(h) && h.frameId in s.pending
    requires j < |s.pending[h.frameId].shards| && s.pending[h.frameId].shards[j].Some? && j != h.chunkIndex
    ensures var p, q := s.pending[h.frameId], Entry(s, h, payload);
      && (j < |q.shards| && q.shards[j] == p.shards[j] <==> SameCut(p, h))
      && SameCut(q, h)
      && (!SameCut(p, h) ==>
            && q.shards[h.chunkIndex] == Some(payload)
            && forall i :: 0 <= i < |q.shards| && i != h.chunkIndex ==> q.shards[i].None?)
  {
  }

  /** The entry's epoch, shard counts and frame length are those of the header. */
  ghost predicate SameCut(p: Pending, h: VideoHeader) {
    && p.epoch == h.sessionEpoch && p.frameLen == h.frameLen
    && p.dataCount == h.chunkCount && |p.shards| == h.chunkCount + h.parityCount
  }

  /** Shard i of three of frame 5, in an epoch. */
  ghost function EpochShard(epoch: u8, i: u16): Arrival
    requires i < 3
  {
    Arrival(VideoHeader(0, epoch, 5, P, i, 3, 0, 3, 0), [])
  }

  lemma RunTwo(a: Arrival, b: Arrival)
    requires ValidHeader(a.header) && ValidHeader(b.header)
    ensures ValidArrivals([a, b])
    ensures Run([a, b]).0 == Pushed(Pushed(InitialState(), a.header, a.payload).0, b.header, b.payload).0
  {
    hide Pushed;
    assert [a, b][..1] == [a] && [a][..0] == [];
    assert Run([a]).0 == Pushed(Run([]).0, a.header, a.payload).0;
  }

  /** One shard of an unknown frame leaves it pending. */
  lemma FirstOfThree(epoch: u8)
    ensures var a := EpochShard(epoch, 0);
      var s := Pushed(InitialState(), a.header, a.payload).0;
      && s.held == [] && s.latest == None && |s.pending| == 1 && 5 in s.pending
      && s.pending[5] == StoreShard(NewPending(a.header), a.header, [])
  {
    hide Recoverable, Drained;
    var a := EpochShard(epoch, 0);
    var p := Entry(InitialState(), a.header, []);
    assert p.receivedData == 1 && p.receivedTotal == 1 && p.dataCount == 3;
    NothingHeld(Absorbed(InitialState(), a.header, []));
    var first: map<u32, Pending> := InitialState().pending[5 := p];
    assert first.Keys == {5} && |first| == |first.Keys|;
  }

  /** A late shard of the earlier epoch throws away what the newer epoch collected. */
  lemma LateEpochRestarts()
    ensures var arrivals := [EpochShard(1, 0), EpochShard(0, 1)];
      && ValidArrivals(arrivals) && 5 in Run(arrivals).0.pending
      && Run(arrivals).0.pending[5].epoch == 0
      && |Run(arrivals).0.pending[5].shards| == 3 && Run(arrivals).0.pending[5].shards[0].None?
  {
    hide Recoverable, Drained, Pushed, Run;
    var a, b := EpochShard(1, 0), EpochShard(0, 1);
    RunTwo(a, b);
    FirstOfThree(1);
    var s := Pushed(InitialState(), a.header, a.payload).0;
    SecondRestarts(s);
  }

  lemma SecondRestarts(s: State)
    requires s.held == [] && s.latest == None && |s.pending| == 1 && 5 in s.pending
    requires s.pending[5] == StoreShard(NewPending(EpochShard(1, 0).header), EpochShard(1, 0).header, [])
    ensures var b := EpochShard(0, 1);
      var t := Pushed(s, b.header, b.payload).0;
      5 in t.pending && t.pending[5].epoch == 0 && |t.pending[5].shards| == 3 && t.pending[5].shards[0].None?
  {
    hide Recoverable, Drained;
    var b := EpochShard(0, 1);
    var q := Entry(s, b.header, []);
    assert q.receivedData == 1 && q.receivedTotal == 1 && q.dataCount == 3;
    assert s.pending[5 := q].Keys == s.pending.Keys;
    NothingHeld(Absorbed(s, b.header, []));
  }
}
