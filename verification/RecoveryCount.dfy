/** What the reassembler's counter of recovered frames counts
    (crates/client-core/src/reassembly.rs). */
module RecoveryCount {
  import opened Datagram
  import opened ReassemblyModel
  import opened FrameRebuild
  import opened ReassemblyBounds

  /** The arriving shard finishes its frame: one frame more is held, before any is released. */
  ghost predicate Finishes(s: State, a: Arrival)
    requires ValidHeader(a.header)
  {
    !Ignored(s, a.header.frameId) && |Absorbed(s, a.header, a.payload).held| > |s.held|
  }

  /** Some of the frame's data shards have not arrived, counting this one. */
  ghost predicate LacksData(s: State, a: Arrival)
    requires ValidHeader(a.header)
  {
    var p := Entry(s, a.header, a.payload);
    exists i :: 0 <= i < p.dataCount && p.shards[i].None?
  }

  /** Frames finished over a run: with data shards missing, and with all of them there. */
  ghost function FinishedLacking(arrivals: seq<Arrival>): nat
    requires ValidArrivals(arrivals)
  {
    if |arrivals| == 0 then 0
    else
      var n := |arrivals| - 1;
      var s, a := Run(arrivals[..n]).0, arrivals[n];
      FinishedLacking(arrivals[..n]) + if Finishes(s, a) && LacksData(s, a) then 1 else 0
  }

  ghost function FinishedWhole(arrivals: seq<Arrival>): nat
    requires ValidArrivals(arrivals)
  {
    if |arrivals| == 0 then 0
    else
      var n := |arrivals| - 1;
      var s, a := Run(arrivals[..n]).0, arrivals[n];
      FinishedWhole(arrivals[..n]) + if Finishes(s, a) && !LacksData(s, a) then 1 else 0
  }

  lemma {:induction false} DrainedCounts(s: State)
    ensures Drained(s).0.recovered == s.recovered
    ensures |Drained(s).0.held| + |Drained(s).1| == |s.held|
    decreases |s.held|
  {
    hide Blocked, Forced, OlderThan;
    if |s.held| > 0 && !(Blocked(s, s.held[0].frameId) && !Forced(s)) {
      DrainedCounts(Released(s));
    }
  }

  lemma AbsorbedCounts(s: State, a: Arrival)
    requires ValidHeader(a.header) && AllWellFormed(s)
    ensures var t := Absorbed(s, a.header, a.payload);
      && |s.held| <= |t.held| <= |s.held| + 1
      && t.recovered == s.recovered + if |t.held| > |s.held| && LacksData(s, a) then 1 else 0
  {
    hide Entry, InsertPosition, Victim, Reconstructed, Assembled, AllWellFormed, Recoverable;
    EntryWellFormed(s, a.header, a.payload);
    var p := Entry(s, a.header, a.payload);
    PresentFull(p.shards, 0, p.dataCount);
  }

  lemma PushedCounts(s: State, a: Arrival)
    requires ValidHeader(a.header) && AllWellFormed(s)
    ensures var (t, out) := Pushed(s, a.header, a.payload);
      && t.recovered == s.recovered + (if Finishes(s, a) && LacksData(s, a) then 1 else 0)
      && |t.held| + |out| == |s.held| + (if Finishes(s, a) then 1 else 0)
  {
    hide Absorbed, LacksData, Ignored, Drained;
    if !Ignored(s, a.header.frameId) {
      AbsorbedCounts(s, a);
      DrainedCounts(Absorbed(s, a.header, a.payload));
    }
  }

  /** Over every run the counter is the number of frames finished with data shards missing; and those and the frames
      finished whole are exactly the frames released or held. */
  lemma {:induction false} RecoveredExactly(arrivals: seq<Arrival>)
    requires ValidArrivals(arrivals)
    ensures var (s, released) := Run(arrivals);
      && AllWellFormed(s)
      && s.recovered == FinishedLacking(arrivals)
      && |released| + |s.held| == FinishedLacking(arrivals) + FinishedWhole(arrivals)
  {
    hide Pushed, Finishes, LacksData, AllWellFormed;
    if |arrivals| == 0 {
      StartWellFormed();
    } else {
      var n := |arrivals| - 1;
      RecoveredExactly(arrivals[..n]);
      var s := Run(arrivals[..n]).0;
      PushedCounts(s, arrivals[n]);
      PushedWellFormed(s, arrivals[n].header, arrivals[n].payload);
    }
  }

  lemma StartWellFormed()
    ensures AllWellFormed(InitialState())
  {
  }
}
