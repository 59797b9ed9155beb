/** Release order across the 32-bit id wrap, over every run whose live frame numbers stay close
    together (crates/client-core/src/reassembly.rs). */
module ReassemblyOrder {
  import opened Wrappers
  import opened Arithmetic
  import opened ByteStrings
  import opened Datagram
  import opened ReassemblyModel
  import opened ReassemblyBounds

  /** Greatest span of frame numbers alive at one time. */
  const WINDOW: nat := 0x4000_0000

  /** The one frame number in base..base + 2^32 that a wire id stands for. */
  function Number(base: nat, id: u32): (n: nat)
    ensures base <= n < base + U32_RANGE
  {
    base + (id - base) % U32_RANGE
  }

  predicate InWindow(base: nat, id: u32) {
    Number(base, id) < base + WINDOW
  }

  lemma NumberIs(base: nat, id: u32) returns (q: int)
    ensures Number(base, id) == id + U32_RANGE * q
  {
    q := -((id - base) / U32_RANGE);
  }

  lemma NumberTruncates(base: nat, id: u32)
    ensures Number(base, id) % U32_RANGE == id
  {
    var q := NumberIs(base, id);
  }

  /** Inside a window the wrap-aware comparisons are the comparisons of frame numbers. */
  lemma OlderIsLess(base: nat, a: u32, b: u32)
    requires InWindow(base, a) && InWindow(base, b)
    ensures Older(a, b) <==> Number(base, a) < Number(base, b)
    ensures Stale(b, a) <==> Number(base, a) <= Number(base, b)
    ensures a == b <==> Number(base, a) == Number(base, b)
  {
    hide Number;
    var p := NumberIs(base, a);
    var q := NumberIs(base, b);
    var d := Number(base, b) - Number(base, a);
    var k := p - q;
    assert b - a == d + U32_RANGE * k;
    if d >= 0 {
      assert (b - a) % U32_RANGE == d;
    } else {
      assert (b - a) % U32_RANGE == d + U32_RANGE;
    }
  }

  /** A live id keeps its number when the window slides. */
  lemma NumberStable(base: nat, base': nat, id: u32)
    requires InWindow(base, id) && InWindow(base', id)
    requires base' < base + 0x8000_0000 && base < base' + 0x8000_0000
    ensures Number(base, id) == Number(base', id)
  {
    hide Number;
    var p := NumberIs(base, id);
    var q := NumberIs(base', id);
  }

  // ---------- The order invariant ----------

  ghost predicate Live(s: State, base: nat) {
    && (forall id :: id in s.pending ==> InWindow(base, id))
    && (forall i :: 0 <= i < |s.held| ==> InWindow(base, s.held[i].frameId))
    && (s.latest.Some? ==> InWindow(base, s.latest.value))
  }

  ghost predicate Sorted(held: seq<CompletedFrame>, base: nat) {
    forall i, j :: 0 <= i < j < |held| ==> Number(base, held[i].frameId) < Number(base, held[j].frameId)
  }

  /** Held frames ascend without repetition, no frame is both held and pending, and both are newer than
      the last release. */
  ghost predicate Ordered(s: State, base: nat) {
    && Live(s, base)
    && Sorted(s.held, base)
    && (forall i :: 0 <= i < |s.held| ==> s.held[i].frameId !in s.pending)
    && (s.latest.Some? ==>
        && (forall id :: id in s.pending ==> Number(base, s.latest.value) < Number(base, id))
        && (forall i :: 0 <= i < |s.held| ==> Number(base, s.latest.value) < Number(base, s.held[i].frameId)))
  }

  /** Frames released in one go: ascending, after the earlier release, the last one remembered. */
  ghost predicate Chain(before: Option<u32>, out: seq<CompletedFrame>, after: Option<u32>, base: nat) {
    && Sorted(out, base)
    && (forall i :: 0 <= i < |out| ==> InWindow(base, out[i].frameId))
    && (before.Some? ==> forall i :: 0 <= i < |out| ==> Number(base, before.value) < Number(base, out[i].frameId))
    && after == if |out| == 0 then before else Some(out[|out| - 1].frameId)
  }

  lemma ReleasedOrdered(s: State, base: nat)
    requires Ordered(s, base) && |s.held| > 0
    ensures Ordered(Released(s), base)
    ensures Released(s).latest == Some(s.held[0].frameId) && Released(s).held == s.held[1..]
  {
    hide Number, Older;
    var head := s.held[0].frameId;
    var s' := Released(s);
    forall id | id in s'.pending ensures InWindow(base, id) && Number(base, head) < Number(base, id) {
      OlderIsLess(base, id, head);
      assert id != head;
    }
  }

  lemma {:induction false} DrainedOrdered(s: State, base: nat)
    requires Ordered(s, base)
    ensures Ordered(Drained(s).0, base)
    ensures Chain(s.latest, Drained(s).1, Drained(s).0.latest, base)
    decreases |s.held|
  {
    hide Ordered, Blocked, Forced, Released;
    if |s.held| > 0 && !(Blocked(s, s.held[0].frameId) && !Forced(s)) {
      ReleasedOrdered(s, base);
      DrainedOrdered(Released(s), base);
      ChainExtend(s, base, Drained(Released(s)).1, Drained(s).0.latest);
    }
  }

  lemma ChainExtend(s: State, base: nat, out: seq<CompletedFrame>, after: Option<u32>)
    requires Ordered(s, base) && |s.held| > 0
    requires Chain(Some(s.held[0].frameId), out, after, base)
    ensures Chain(s.latest, [s.held[0]] + out, after, base)
  {
    hide Number;
  }

  /** A frame not held yet goes to its place in the order. */
  lemma {:induction false} InsertPositionSplits(held: seq<CompletedFrame>, id: u32, base: nat)
    requires InWindow(base, id) && Sorted(held, base) && !InHeld(held, id)
    requires forall i :: 0 <= i < |held| ==> InWindow(base, held[i].frameId)
    ensures var at := InsertPosition(held, id);
      && (forall i :: 0 <= i < at ==> Number(base, held[i].frameId) < Number(base, id))
      && (forall i :: at <= i < |held| ==> Number(base, id) < Number(base, held[i].frameId))
    decreases |held|
  {
    hide Number, Older;
    if |held| > 0 {
      OlderIsLess(base, id, held[0].frameId);
      assert held[0].frameId != id;
      if !Older(id, held[0].frameId) {
        assert !InHeld(held[1..], id) by {
          assert forall i :: 0 <= i < |held[1..]| ==> held[1..][i] == held[i + 1];
        }
        InsertPositionSplits(held[1..], id, base);
        forall i | 0 < i < |held| ensures held[i] == held[1..][i - 1] {
        }
      }
    }
  }

  lemma InsertedSorted(held: seq<CompletedFrame>, f: CompletedFrame, base: nat)
    requires InWindow(base, f.frameId) && Sorted(held, base) && !InHeld(held, f.frameId)
    requires forall i :: 0 <= i < |held| ==> InWindow(base, held[i].frameId)
    ensures Sorted(Inserted(held, f), base)
    ensures forall g :: g in Inserted(held, f) <==> g == f || g in held
  {
    hide Number, InsertPosition;
    InsertPositionSplits(held, f.frameId, base);
  }

  lemma AbsorbedOrdered(s: State, h: VideoHeader, payload: Bytes, base: nat)
    requires ValidHeader(h) && Ordered(s, base) && InWindow(base, h.frameId) && !Ignored(s, h.frameId)
    ensures Ordered(Absorbed(s, h, payload), base)
    ensures Absorbed(s, h, payload).latest == s.latest
  {
    hide Number, Completes, CompleteDirect, Reconstructed, Assembled, Entry, Inserted, Older, Stale, IsVictim,
         PrunedOldest;
    if s.latest.Some? {
      OlderIsLess(base, h.frameId, s.latest.value);
    }
    var p := Entry(s, h, payload);
    var stored := s.(pending := s.pending[h.frameId := p]);
    assert Ordered(stored, base);
    if !Completes(p) {
      PrunedOldestOrdered(stored, base);
    } else {
      CompletedOrdered(s, h, payload, base);
    }
  }

  lemma PrunedOldestOrdered(s: State, base: nat)
    requires Ordered(s, base)
    ensures Ordered(PrunedOldest(s), base) && PrunedOldest(s).latest == s.latest
  {
    hide Number, IsVictim;
  }

  lemma CompletedOrdered(s: State, h: VideoHeader, payload: Bytes, base: nat)
    requires ValidHeader(h) && Ordered(s, base) && InWindow(base, h.frameId) && !InHeld(s.held, h.frameId)
    requires s.latest.Some? ==> Number(base, s.latest.value) < Number(base, h.frameId)
    requires Completes(Entry(s, h, payload))
    ensures Ordered(Absorbed(s, h, payload), base)
    ensures Absorbed(s, h, payload).latest == s.latest
  {
    hide Number, CompleteDirect, Reconstructed, Assembled, Entry, Inserted, Completes;
    var s' := Absorbed(s, h, payload);
    var p := Entry(s, h, payload);
    assert s'.pending == s.pending[h.frameId := p] - {h.frameId};
    if s'.held != s.held {
      var data := if CompleteDirect(p) then Some(Assembled(p.shards, p.dataCount)) else Reconstructed(p);
      var f := CompletedFrame(h.frameId, h.kind, h.captureTs, data.value);
      InsertedSorted(s.held, f, base);
      forall i | 0 <= i < |s'.held|
        ensures InWindow(base, s'.held[i].frameId) && s'.held[i].frameId !in s'.pending
        ensures s.latest.Some? ==> Number(base, s.latest.value) < Number(base, s'.held[i].frameId)
      {
        assert s'.held[i] in s'.held;
      }
    }
  }

  /** One shard keeps the order; what it releases ascends past the earlier releases. */
  lemma PushedOrdered(s: State, h: VideoHeader, payload: Bytes, base: nat)
    requires ValidHeader(h) && Ordered(s, base) && InWindow(base, h.frameId)
    ensures Ordered(Pushed(s, h, payload).0, base)
    ensures Chain(s.latest, Pushed(s, h, payload).1, Pushed(s, h, payload).0.latest, base)
  {
    hide Ordered, Absorbed, Drained, Ignored, Number;
    if !Ignored(s, h.frameId) {
      AbsorbedOrdered(s, h, payload, base);
      DrainedOrdered(Absorbed(s, h, payload), base);
    }
  }

  // ---------- Whole runs ----------

  ghost predicate Near(base: nat, base': nat) {
    base' < base + 0x8000_0000 && base < base' + 0x8000_0000
  }

  /** The arrival and everything alive before it lie in the window starting at base. */
  ghost predicate Fits(s: State, a: Arrival, base: nat) {
    InWindow(base, a.header.frameId) && Live(s, base)
  }

  /** Each arrival comes with the start of a window that holds its frame number and all live ones; the
      window slides by less than 2^31 at a time. */
  ghost predicate Tracks(arrivals: seq<Arrival>, bases: seq<nat>)
    requires ValidArrivals(arrivals)
  {
    && |bases| == |arrivals|
    && (forall i :: 0 <= i < |arrivals| ==> Fits(Run(arrivals[..i]).0, arrivals[i], bases[i]))
    && (forall i :: 0 < i < |bases| ==> Near(bases[i - 1], bases[i]))
  }

  ghost function Numbers(base: nat, out: seq<CompletedFrame>): (n: seq<nat>)
    ensures |n| == |out|
  {
    seq(|out|, i requires 0 <= i < |out| => Number(base, out[i].frameId))
  }

  /** Frame numbers of everything released over a run, in release order. */
  ghost function ReleasedNumbers(arrivals: seq<Arrival>, bases: seq<nat>): seq<nat>
    requires ValidArrivals(arrivals) && |bases| == |arrivals|
  {
    if |arrivals| == 0 then []
    else
      var n := |arrivals| - 1;
      ReleasedNumbers(arrivals[..n], bases[..n])
      + Numbers(bases[n], Pushed(Run(arrivals[..n]).0, arrivals[n].header, arrivals[n].payload).1)
  }

  /** Each frame is newer than the one before it, in the code's own wrap-aware order. */
  ghost predicate EachNewer(frames: seq<CompletedFrame>) {
    forall i :: 0 < i < |frames| ==> Older(frames[i - 1].frameId, frames[i].frameId)
  }

  /** The frame numbers fit the released frames, ascend, and end at the last release. */
  ghost predicate InRelease(frames: seq<CompletedFrame>, numbers: seq<nat>, latest: Option<u32>, base: nat) {
    && |numbers| == |frames|
    && (forall i :: 0 <= i < |frames| ==> numbers[i] % U32_RANGE == frames[i].frameId)
    && Increasing(numbers)
    && EachNewer(frames)
    && latest == (if |frames| == 0 then None else Some(frames[|frames| - 1].frameId))
    && (latest.Some? ==> numbers[|numbers| - 1] == Number(base, latest.value))
  }

  lemma OrderedSlides(s: State, base: nat, base': nat)
    requires Ordered(s, base) && Live(s, base') && Near(base, base')
    ensures Ordered(s, base')
    ensures s.latest.Some? ==> Number(base, s.latest.value) == Number(base', s.latest.value)
  {
    hide Number, InWindow;
    forall id | id in s.pending ensures Number(base, id) == Number(base', id) {
      NumberStable(base, base', id);
    }
    forall i | 0 <= i < |s.held| ensures Number(base, s.held[i].frameId) == Number(base', s.held[i].frameId) {
      NumberStable(base, base', s.held[i].frameId);
    }
    if s.latest.Some? {
      NumberStable(base, base', s.latest.value);
    }
  }

  lemma InReleaseExtends(frames: seq<CompletedFrame>, numbers: seq<nat>, latest: Option<u32>, base: nat,
                         out: seq<CompletedFrame>, after: Option<u32>)
    requires InRelease(frames, numbers, latest, base) && Chain(latest, out, after, base)
    requires latest.Some? ==> InWindow(base, latest.value)
    ensures InRelease(frames + out, numbers + Numbers(base, out), after, base)
  {
    hide Number, EachNewer, Sorted, InWindow, Increasing;
    var more := Numbers(base, out);
    forall i | 0 <= i < |out| ensures more[i] % U32_RANGE == out[i].frameId {
      NumberTruncates(base, out[i].frameId);
    }
    EachNewerExtends(frames, latest, out, after, base);
    NumbersIncreasing(base, out);
    ExtendIncreasing(numbers, more);
  }

  lemma NumbersIncreasing(base: nat, out: seq<CompletedFrame>)
    requires Sorted(out, base)
    ensures Increasing(Numbers(base, out))
  {
    hide Number;
  }

  lemma EachNewerExtends(frames: seq<CompletedFrame>, latest: Option<u32>, out: seq<CompletedFrame>,
                         after: Option<u32>, base: nat)
    requires EachNewer(frames) && Chain(latest, out, after, base)
    requires latest == if |frames| == 0 then None else Some(frames[|frames| - 1].frameId)
    requires latest.Some? ==> InWindow(base, latest.value)
    ensures EachNewer(frames + out)
  {
    hide Number, Older, InWindow;
    var all := frames + out;
    forall i | 0 < i < |all| ensures Older(all[i - 1].frameId, all[i].frameId) {
      if i == |frames| {
        OlderIsLess(base, latest.value, out[0].frameId);
      } else if i > |frames| {
        OlderIsLess(base, out[i - 1 - |frames|].frameId, out[i - |frames|].frameId);
      }
    }
  }

  lemma ExtendIncreasing(a: seq<nat>, b: seq<nat>)
    requires Increasing(a) && Increasing(b)
    requires |a| > 0 ==> forall i :: 0 <= i < |b| ==> a[|a| - 1] < b[i]
    ensures Increasing(a + b)
  {
    forall i, j | 0 <= i < j < |a + b| ensures (a + b)[i] < (a + b)[j] {
      if i < |a| <= j {
        assert a[i] <= a[|a| - 1] < b[j - |a|];
      }
    }
  }

  lemma TracksPrefix(arrivals: seq<Arrival>, bases: seq<nat>, n: nat)
    requires ValidArrivals(arrivals) && Tracks(arrivals, bases) && n <= |arrivals|
    ensures ValidArrivals(arrivals[..n]) && Tracks(arrivals[..n], bases[..n])
  {
    hide Fits, Near, Run;
    forall i | 0 <= i < n ensures Fits(Run(arrivals[..n][..i]).0, arrivals[..n][i], bases[..n][i]) {
      assert arrivals[..n][..i] == arrivals[..i];
      assert Fits(Run(arrivals[..i]).0, arrivals[i], bases[i]);
    }
  }

  lemma InitiallyOrdered(base: nat)
    ensures Ordered(InitialState(), base)
    ensures InRelease([], [], None, base)
  {
  }

  /** Over every such run: releases strictly ascend by frame number (so no frame is released twice), each
      is wrap-aware newer than the one before, held stays sorted without duplicates, and everything held
      or pending is newer than the last release and in only one of the two. */
  lemma {:induction false} RunOrdered(arrivals: seq<Arrival>, bases: seq<nat>, base: nat)
    requires ValidArrivals(arrivals) && Tracks(arrivals, bases)
    requires |bases| > 0 ==> base == bases[|bases| - 1]
    ensures Ordered(Run(arrivals).0, base)
    ensures InRelease(Run(arrivals).1, ReleasedNumbers(arrivals, bases), Run(arrivals).0.latest, base)
  {
    hide Ordered, InRelease, Pushed, Numbers, Chain, Near, Live, InWindow;
    if |arrivals| == 0 {
      InitiallyOrdered(base);
    } else {
      var n := |arrivals| - 1;
      TracksPrefix(arrivals, bases, n);
      var (s, before) := Run(arrivals[..n]);
      assert Fits(s, arrivals[n], base);
      var previous := if n == 0 then base else bases[n - 1];
      RunOrdered(arrivals[..n], bases[..n], previous);
      Advance(s, arrivals[n], before, ReleasedNumbers(arrivals[..n], bases[..n]), previous, base);
    }
  }

  lemma Advance(s: State, a: Arrival, before: seq<CompletedFrame>, numbers: seq<nat>, previous: nat, base: nat)
    requires ValidHeader(a.header) && Fits(s, a, base)
    requires previous == base || Near(previous, base)
    requires Ordered(s, previous) && InRelease(before, numbers, s.latest, previous)
    ensures Ordered(Pushed(s, a.header, a.payload).0, base)
    ensures var (s', out) := Pushed(s, a.header, a.payload);
      InRelease(before + out, numbers + Numbers(base, out), s'.latest, base)
  {
    hide Number, Pushed, Sorted, Increasing, EachNewer, InWindow, Numbers;
    if previous != base {
      OrderedSlides(s, previous, base);
    }
    PushedOrdered(s, a.header, a.payload, base);
    var (s', out) := Pushed(s, a.header, a.payload);
    InReleaseExtends(before, numbers, s.latest, base, out, s'.latest);
  }
}
