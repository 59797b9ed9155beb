/** Presentation health: cadence breaks, freezes and episodes
    (crates/client-core/src/stats.rs, `PresentStats::on_presented`, `percentile`). */
module PresentHealth {
  import opened Wrappers
  import opened Arithmetic
  import opened Datagram

  const WINDOW: nat := 3600
  const EPISODE_GAP_US: nat := 1_000_000
  const WARMUP_US: nat := 2_000_000
  const EPISODE_MIN_BREAKS: nat := 3
  const STUTTER_FACTOR: nat := 2
  const STUTTER_MIN_US: nat := 40_000
  const FREEZE_US: nat := 250_000
  const SOURCE_GAP_MAX_US: nat := 10_000_000

  // ---------- Percentiles ----------

  function Insert(x: u32, s: seq<u32>): (r: seq<u32>)
    ensures |r| == |s| + 1
  {
    if |s| == 0 || x <= s[0] then [x] + s else [s[0]] + Insert(x, s[1..])
  }

  function Ascending(s: seq<u32>): (r: seq<u32>)
    ensures |r| == |s|
  {
    if |s| == 0 then [] else Insert(s[0], Ascending(s[1..]))
  }

  function Percentile(samples: seq<u32>, p: nat): Option<u32>
    requires p <= 100
  {
    if |samples| == 0 then None
    else
      RankBelow(p, |samples|);
      Some(Ascending(samples)[p * (|samples| - 1) / 100])
  }

  lemma RankBelow(p: nat, n: nat)
    requires p <= 100 && n > 0
    ensures 0 <= p * (n - 1) / 100 < n
  {
    MulMonotone(p, 100, n - 1, n - 1);
  }

  ghost predicate Sorted(s: seq<u32>) {
    forall i, j :: 0 <= i < j < |s| ==> s[i] <= s[j]
  }

  lemma {:induction false} InsertKeeps(x: u32, s: seq<u32>)
    ensures multiset(Insert(x, s)) == multiset(s) + multiset{x}
  {
    if |s| > 0 && s[0] < x {
      InsertKeeps(x, s[1..]);
      assert s == [s[0]] + s[1..];
    }
  }

  lemma {:induction false} InsertAbove(x: u32, s: seq<u32>, low: u32)
    requires low <= x && forall i :: 0 <= i < |s| ==> low <= s[i]
    ensures forall i :: 0 <= i < |Insert(x, s)| ==> low <= Insert(x, s)[i]
  {
    if |s| > 0 && s[0] < x {
      InsertAbove(x, s[1..], low);
    }
  }

  lemma {:induction false} InsertSorts(x: u32, s: seq<u32>)
    requires Sorted(s)
    ensures Sorted(Insert(x, s))
  {
    if |s| > 0 && s[0] < x {
      InsertSorts(x, s[1..]);
      InsertAbove(x, s[1..], s[0]);
    }
  }

  /** A percentile is a sample of that rank: the samples in ascending order, as many of each as before. */
  lemma {:induction false} AscendingSorts(s: seq<u32>)
    ensures Sorted(Ascending(s)) && multiset(Ascending(s)) == multiset(s)
  {
    if |s| > 0 {
      AscendingSorts(s[1..]);
      InsertSorts(s[0], Ascending(s[1..]));
      InsertKeeps(s[0], Ascending(s[1..]));
      assert s == [s[0]] + s[1..];
    }
  }

  /** Samples less than v. */
  ghost function Below(s: seq<u32>, v: u32): (n: nat)
    ensures n <= |s|
  {
    if |s| == 0 then 0 else Below(s[1..], v) + if s[0] < v then 1 else 0
  }

  /** Samples not greater than v. */
  ghost function UpTo(s: seq<u32>, v: u32): (n: nat)
    ensures n <= |s|
  {
    if |s| == 0 then 0 else UpTo(s[1..], v) + if s[0] <= v then 1 else 0
  }

  lemma {:induction false} InsertCounts(x: u32, s: seq<u32>, v: u32)
    ensures Below(Insert(x, s), v) == Below(s, v) + (if x < v then 1 else 0)
    ensures UpTo(Insert(x, s), v) == UpTo(s, v) + (if x <= v then 1 else 0)
  {
    if |s| > 0 && s[0] < x {
      InsertCounts(x, s[1..], v);
    } else {
      assert Insert(x, s)[1..] == s;
    }
  }

  lemma {:induction false} AscendingCounts(s: seq<u32>, v: u32)
    ensures Below(Ascending(s), v) == Below(s, v) && UpTo(Ascending(s), v) == UpTo(s, v)
  {
    if |s| > 0 {
      AscendingCounts(s[1..], v);
      InsertCounts(s[0], Ascending(s[1..]), v);
    }
  }

  /** At place r of a sorted list: at most r samples are less, more than r are not greater. */
  lemma {:induction false} SortedCounts(s: seq<u32>, r: nat)
    requires Sorted(s) && r < |s|
    ensures Below(s, s[r]) <= r < UpTo(s, s[r])
  {
    if r == 0 {
      NoneBelow(s, s[0]);
    } else {
      SortedCounts(s[1..], r - 1);
    }
  }

  lemma {:induction false} NoneBelow(s: seq<u32>, v: u32)
    requires forall i :: 0 <= i < |s| ==> v <= s[i]
    ensures Below(s, v) == 0
  {
    if |s| > 0 {
      NoneBelow(s[1..], v);
    }
  }

  /** The sample v has the rank of percentile p: it is one of the samples, at most p hundredths of the way through them
      are less than v, and more than that are not greater. */
  ghost predicate HasRank(samples: seq<u32>, p: nat, v: u32) {
    v in samples && 100 * Below(samples, v) <= p * (|samples| - 1) < 100 * UpTo(samples, v)
  }

  /** A percentile exists exactly for a nonempty list, and is the sample of its rank. */
  lemma PercentileRank(samples: seq<u32>, p: nat)
    requires p <= 100
    ensures Percentile(samples, p).None? <==> samples == []
    ensures |samples| > 0 ==> HasRank(samples, p, Percentile(samples, p).value)
  {
    if |samples| > 0 {
      RankBelow(p, |samples|);
      var sorted, r := Ascending(samples), p * (|samples| - 1) / 100;
      var v := sorted[r];
      AscendingSorts(samples);
      AscendingCounts(samples, v);
      SortedCounts(sorted, r);
      assert v in multiset(sorted);
    }
  }

  /** The rank leaves no choice. */
  lemma RankUnique(samples: seq<u32>, p: nat, v: u32, w: u32)
    requires HasRank(samples, p, v) && HasRank(samples, p, w)
    ensures v == w
  {
    if v < w {
      LessThan(samples, v, w);
    } else if w < v {
      LessThan(samples, w, v);
    }
  }

  lemma {:induction false} LessThan(s: seq<u32>, v: u32, w: u32)
    requires v < w
    ensures UpTo(s, v) <= Below(s, w)
  {
    if |s| > 0 {
      LessThan(s[1..], v, w);
    }
  }

  // ---------- One presented frame ----------

  datatype BreakKind = Steady | Stutter | Freeze

  /** A cadence break: presented at `at`, the frame before at `prev`. */
  datatype Break = Break(prev: nat, at: nat, hard: bool)

  datatype Tracker = Tracker(episodes: nat, worst: nat, breaks: nat, start: nat, lastBreak: nat, counted: bool)

  datatype Cadence = Cadence(frametimes: seq<u32>, stutters: nat, freezes: nat, freezeTotal: nat, tracker: Tracker)

  datatype Health = Health(
    presented: nat,
    latencies: seq<u32>,
    sourceStutters: nat,
    lastCapture: Option<u32>,
    firstPresent: Option<nat>,
    lastPresent: Option<nat>,
    cadence: Cadence)

  function Start(): Health {
    Health(0, [], 0, None, None, None, Cadence([], 0, 0, 0, Tracker(0, 0, 0, 0, 0, false)))
  }

  function PushCapped(buf: seq<u32>, v: u32): seq<u32> {
    (if |buf| == WINDOW then buf[1..] else buf) + [v]
  }

  function Gap(prev: nat, now: nat): u32 {
    Min(Elapsed(now, prev), U32_RANGE - 1)
  }

  function KindOf(gaps: seq<u32>, first: nat, gap: u32, now: nat): BreakKind {
    if Elapsed(now, first) <= WARMUP_US then Steady
    else if gap >= FREEZE_US then Freeze
    else
      match Percentile(gaps, 50)
      case None => Steady
      case Some(m) =>
        if gap > Min(m * STUTTER_FACTOR, U32_RANGE - 1) && gap > STUTTER_MIN_US then Stutter else Steady
  }

  function AfterBreak(t: Tracker, b: Break): Tracker {
    var fresh0 := Elapsed(b.at, t.lastBreak) > EPISODE_GAP_US;
    var breaks := (if fresh0 then 0 else t.breaks) + 1;
    var start := if fresh0 then b.prev else t.start;
    var before := !fresh0 && t.counted;
    var counted := before || breaks >= EPISODE_MIN_BREAKS || b.hard;
    Tracker(
      t.episodes + (if counted && !before then 1 else 0),
      if counted then Max(t.worst, Elapsed(b.at, start)) else t.worst,
      breaks, start, b.at, counted)
  }

  function SourceStutter(last: Option<u32>, captureTs: u32): bool {
    last.Some? && STUTTER_MIN_US < (captureTs + U32_RANGE - last.value) % U32_RANGE < SOURCE_GAP_MAX_US
  }

  function AfterGap(c: Cadence, first: nat, prev: nat, now: nat): Cadence {
    var gap := Gap(prev, now);
    var kind := KindOf(c.frametimes, first, gap, now);
    Cadence(
      PushCapped(c.frametimes, gap),
      c.stutters + (if kind.Stutter? then 1 else 0),
      c.freezes + (if kind.Freeze? then 1 else 0),
      c.freezeTotal + (if kind.Freeze? then gap else 0),
      if kind.Steady? then c.tracker else AfterBreak(c.tracker, Break(prev, now, kind.Freeze?)))
  }

  function Presented(h: Health, latency: Option<u32>, captureTs: u32, now: nat): Health {
    var first := if h.firstPresent.Some? then h.firstPresent.value else now;
    Health(
      h.presented + 1,
      if latency.Some? then PushCapped(h.latencies, latency.value) else h.latencies,
      h.sourceStutters + (if SourceStutter(h.lastCapture, captureTs) then 1 else 0),
      Some(captureTs),
      Some(first),
      Some(now),
      if h.lastPresent.None? then h.cadence else AfterGap(h.cadence, first, h.lastPresent.value, now))
  }

  /** Gaps less than half this one. */
  ghost function LessThanHalf(gaps: seq<u32>, gap: u32): (n: nat)
    ensures n <= |gaps|
  {
    if |gaps| == 0 then 0 else LessThanHalf(gaps[1..], gap) + if 2 * gaps[0] < gap then 1 else 0
  }

  lemma {:induction false} HalfAgainst(gaps: seq<u32>, gap: u32, m: u32)
    ensures 2 * m < gap ==> UpTo(gaps, m) <= LessThanHalf(gaps, gap)
    ensures 2 * m >= gap ==> LessThanHalf(gaps, gap) <= Below(gaps, m)
  {
    if |gaps| > 0 {
      HalfAgainst(gaps[1..], gap, m);
    }
  }

  /** What a present is: nothing within two seconds of the first; then a freeze from a quarter second on; and a stutter
      over 40 ms when at least half of the gaps before it, and there are some, are less than half of this one. */
  lemma KindMeans(gaps: seq<u32>, first: nat, gap: u32, now: nat)
    ensures KindOf(gaps, first, gap, now).Freeze? <==> now > first + 2_000_000 && gap >= 250_000
    ensures KindOf(gaps, first, gap, now).Stutter? <==>
      && now > first + 2_000_000 && 40_000 < gap < 250_000
      && 0 < |gaps| <= 2 * LessThanHalf(gaps, gap)
  {
    hide Percentile, Below, UpTo, LessThanHalf;
    PercentileRank(gaps, 50);
    if |gaps| > 0 {
      HalfAgainst(gaps, gap, Percentile(gaps, 50).value);
    }
  }

  class PresentStats {
    var presented: nat
    var lastPresentUs: Option<nat>
    var frametimesUs: seq<u32>
    var latenciesUs: seq<u32>
    var stutters: nat
    var srcStutters: nat
    var lastCaptureTs: Option<u32>
    var freezes: nat
    var freezeUsTotal: nat
    var episodes: nat
    var worstEpisodeUs: nat
    var firstPresentUs: Option<nat>
    var epBreaks: nat
    var epStartUs: nat
    var epLastBreakUs: nat
    var epCounted: bool

    ghost function EpisodeState(): Tracker
      reads this`episodes, this`worstEpisodeUs, this`epBreaks, this`epStartUs, this`epLastBreakUs, this`epCounted
    {
      Tracker(episodes, worstEpisodeUs, epBreaks, epStartUs, epLastBreakUs, epCounted)
    }

    ghost function Pace(): Cadence
      reads this`frametimesUs, this`stutters, this`freezes, this`freezeUsTotal
      reads this`episodes, this`worstEpisodeUs, this`epBreaks, this`epStartUs, this`epLastBreakUs, this`epCounted
    {
      Cadence(frametimesUs, stutters, freezes, freezeUsTotal, EpisodeState())
    }

    ghost function Abstract(): Health
      reads this
    {
      Health(presented, latenciesUs, srcStutters, lastCaptureTs, firstPresentUs, lastPresentUs, Pace())
    }

    constructor ()
      ensures Abstract() == Start()
    {
      presented, lastPresentUs, frametimesUs, latenciesUs := 0, None, [], [];
      stutters, srcStutters, lastCaptureTs := 0, 0, None;
      freezes, freezeUsTotal, firstPresentUs := 0, 0, None;
      episodes, worstEpisodeUs, epBreaks, epStartUs, epLastBreakUs, epCounted := 0, 0, 0, 0, 0, false;
    }

    method NoteBreak(prev: nat, nowUs: nat, hard: bool)
      modifies this`episodes, this`worstEpisodeUs, this`epBreaks, this`epStartUs, this`epLastBreakUs, this`epCounted
      ensures EpisodeState() == AfterBreak(old(EpisodeState()), Break(prev, nowUs, hard))
    {
      hide Elapsed, Max;
      if Elapsed(nowUs, epLastBreakUs) > EPISODE_GAP_US {
        epBreaks, epStartUs, epCounted := 0, prev, false;
      }
      epBreaks := epBreaks + 1;
      epLastBreakUs := nowUs;
      if (epBreaks >= EPISODE_MIN_BREAKS || hard) && !epCounted {
        episodes := episodes + 1;
        epCounted := true;
      }
      if epCounted {
        worstEpisodeUs := Max(worstEpisodeUs, Elapsed(nowUs, epStartUs));
      }
    }

    /** The cadence part of a present that is not the first. */
    method NoteGap(prev: nat, nowUs: nat)
      requires firstPresentUs.Some?
      modifies this`stutters, this`freezes, this`freezeUsTotal, this`frametimesUs
      modifies this`episodes, this`worstEpisodeUs, this`epBreaks, this`epStartUs, this`epLastBreakUs, this`epCounted
      ensures Pace() == AfterGap(old(Pace()), firstPresentUs.value, prev, nowUs)
    {
      hide Percentile, AfterBreak, Gap, PushCapped, Min, Elapsed;
      var warm := Elapsed(nowUs, firstPresentUs.value) > WARMUP_US;
      var gap := Gap(prev, nowUs);
      var median := Percentile(frametimesUs, 50);
      var brk, hard := false, false;
      if !warm {
      } else if gap >= FREEZE_US {
        freezes := freezes + 1;
        freezeUsTotal := freezeUsTotal + gap;
        brk, hard := true, true;
      } else if median.Some? && gap > Min(median.value * STUTTER_FACTOR, U32_RANGE - 1) && gap > STUTTER_MIN_US {
        stutters := stutters + 1;
        brk := true;
      }
      if brk {
        NoteBreak(prev, nowUs, hard);
      }
      frametimesUs := PushCapped(frametimesUs, gap);
    }

    /** A gap between captures is a hitch of what is streamed. */
    method NoteSource(captureTsUs: u32)
      modifies this`srcStutters, this`lastCaptureTs
      ensures srcStutters == old(srcStutters) + (if SourceStutter(old(lastCaptureTs), captureTsUs) then 1 else 0)
      ensures lastCaptureTs == Some(captureTsUs)
    {
      if lastCaptureTs.Some? {
        var srcGap := (captureTsUs + U32_RANGE - lastCaptureTs.value) % U32_RANGE;
        if srcGap > STUTTER_MIN_US && srcGap < SOURCE_GAP_MAX_US {
          srcStutters := srcStutters + 1;
        }
      }
      lastCaptureTs := Some(captureTsUs);
    }

    method OnPresented(latencyUs: Option<u32>, captureTsUs: u32, nowUs: nat)
      modifies this
      ensures Abstract() == Presented(old(Abstract()), latencyUs, captureTsUs, nowUs)
    {
      hide AfterGap, PushCapped, SourceStutter, Pace;
      NoteSource(captureTsUs);
      presented := presented + 1;
      if latencyUs.Some? {
        latenciesUs := PushCapped(latenciesUs, latencyUs.value);
      }
      if firstPresentUs.None? {
        firstPresentUs := Some(nowUs);
      }
      if lastPresentUs.Some? {
        NoteGap(lastPresentUs.value, nowUs);
      }
      lastPresentUs := Some(nowUs);
    }
  }

  // ---------- Whole runs, read off the presentation times ----------

  datatype Frame = Frame(latency: Option<u32>, captureTs: u32, at: nat)

  ghost function RunPresents(frames: seq<Frame>): Health {
    if |frames| == 0 then Start()
    else
      var f := frames[|frames| - 1];
      Presented(RunPresents(frames[..|frames| - 1]), f.latency, f.captureTs, f.at)
  }

  /** Gaps between consecutive presents. */
  ghost function GapsOf(frames: seq<Frame>): seq<u32> {
    if |frames| == 0 then []
    else seq(|frames| - 1, i requires 0 <= i < |frames| - 1 => Gap(frames[i].at, frames[i + 1].at))
  }

  ghost function Latest(gaps: seq<u32>): seq<u32> {
    if |gaps| > WINDOW then gaps[|gaps| - WINDOW..] else gaps
  }

  ghost function LastGaps(frames: seq<Frame>): seq<u32> {
    Latest(GapsOf(frames))
  }

  /** What the i-th present is, judged by the cadence of the 3600 gaps before it. */
  ghost function KindAt(frames: seq<Frame>, i: nat): BreakKind
    requires 0 < i < |frames|
  {
    KindOf(LastGaps(frames[..i]), frames[0].at, Gap(frames[i - 1].at, frames[i].at), frames[i].at)
  }

  /** All breaks of a run, in order. */
  ghost function BreaksOf(frames: seq<Frame>): seq<Break> {
    if |frames| <= 1 then []
    else
      var n := |frames| - 1;
      BreaksOf(frames[..n]) +
      if KindAt(frames, n).Steady? then [] else [Break(frames[n - 1].at, frames[n].at, KindAt(frames, n).Freeze?)]
  }

  ghost function Tracked(breaks: seq<Break>): Tracker {
    if |breaks| == 0 then Start().cadence.tracker
    else AfterBreak(Tracked(breaks[..|breaks| - 1]), breaks[|breaks| - 1])
  }

  /** Close enough to belong to the same episode. */
  ghost predicate Joined(a: Break, b: Break) {
    Elapsed(b.at, a.at) <= EPISODE_GAP_US
  }

  ghost predicate InRun(b: seq<Break>, i: nat, j: nat) {
    i <= j < |b| && forall k: nat :: i < k <= j ==> Joined(b[k - 1], b[k])
  }

  /** A maximal run of joined breaks begins here. */
  ghost predicate RunStart(b: seq<Break>, i: nat) {
    i < |b| && (i > 0 ==> !Joined(b[i - 1], b[i]))
  }

  ghost predicate HasFreeze(b: seq<Break>, i: nat) {
    exists j: nat :: InRun(b, i, j) && b[j].hard
  }

  /** The run starting here is an episode: at least three breaks, or a freeze among them. */
  ghost predicate Episode(b: seq<Break>, i: nat) {
    RunStart(b, i) && (InRun(b, i, i + EPISODE_MIN_BREAKS - 1) || HasFreeze(b, i))
  }

  ghost function Episodes(b: seq<Break>): set<nat> {
    set i: nat | i < |b| && Episode(b, i)
  }

  // ---------- The counters against the break list ----------

  /** The tracker after a list of breaks whose last run begins at c. */
  ghost predicate Follows(t: Tracker, b: seq<Break>, c: nat) {
    && RunStart(b, c) && InRun(b, c, |b| - 1)
    && t.breaks == |b| - c
    && t.start == b[c].prev
    && t.lastBreak == b[|b| - 1].at
    && t.counted == Episode(b, c)
    && t.episodes == |Episodes(b)|
  }

  lemma InRunExtended(b: seq<Break>, x: Break, i: nat, j: nat)
    requires j < |b|
    ensures InRun(b + [x], i, j) <==> InRun(b, i, j)
  {
    var e := b + [x];
    assert forall k: nat :: k < |b| ==> e[k] == b[k];
    if InRun(e, i, j) {
      forall k: nat | i < k <= j ensures Joined(b[k - 1], b[k]) {
        assert Joined(e[k - 1], e[k]);
      }
    }
  }

  /** A run that the new break does not join keeps its verdict. */
  lemma EpisodeKept(b: seq<Break>, x: Break, i: nat)
    requires i < |b| && !InRun(b + [x], i, |b|)
    ensures Episode(b + [x], i) <==> Episode(b, i)
  {
    hide Joined;
    var e := b + [x];
    forall j: nat | j < |b| ensures InRun(e, i, j) <==> InRun(b, i, j) {
      InRunExtended(b, x, i, j);
    }
    hide InRun;
    assert RunStart(e, i) <==> RunStart(b, i);
    if HasFreeze(b, i) {
      var j: nat :| InRun(b, i, j) && b[j].hard;
      InRunInside(b, i, j);
      assert InRun(e, i, j) && e[j].hard;
    }
    if HasFreeze(e, i) {
      var j: nat :| InRun(e, i, j) && e[j].hard;
      InRunInside(e, i, j);
      assert InRun(b, i, j) && b[j].hard;
    }
    InRunBound(b, i, i + EPISODE_MIN_BREAKS - 1);
    InRunBound(e, i, i + EPISODE_MIN_BREAKS - 1);
  }

  lemma InRunInside(b: seq<Break>, i: nat, j: nat)
    requires InRun(b, i, j)
    ensures i <= j < |b|
  {
  }

  lemma InRunBound(b: seq<Break>, i: nat, j: nat)
    ensures InRun(b, i, j) ==> j < |b|
  {
  }

  lemma NewRun(b: seq<Break>, x: Break)
    requires |b| > 0 ==> !Joined(b[|b| - 1], x)
    ensures Episode(b + [x], |b|) <==> x.hard
    ensures Episodes(b + [x]) == Episodes(b) + if x.hard then {|b|} else {}
    ensures RunStart(b + [x], |b|) && InRun(b + [x], |b|, |b|)
  {
    hide Episode;
    var e := b + [x];
    forall i: nat | i < |b| ensures Episode(e, i) <==> Episode(b, i) {
      assert !Joined(e[|b| - 1], e[|b|]);
      EpisodeKept(b, x, i);
    }
    LoneEpisode(b, x);
  }

  lemma LoneEpisode(b: seq<Break>, x: Break)
    requires |b| > 0 ==> !Joined(b[|b| - 1], x)
    ensures Episode(b + [x], |b|) <==> x.hard
    ensures RunStart(b + [x], |b|) && InRun(b + [x], |b|, |b|)
  {
    hide Joined;
    var e := b + [x];
    assert InRun(e, |b|, |b|) && e[|b|] == x;
  }

  lemma SameRun(b: seq<Break>, x: Break, c: nat)
    requires |b| > 0 && Joined(b[|b| - 1], x) && RunStart(b, c) && InRun(b, c, |b| - 1)
    ensures var e := b + [x];
      && RunStart(e, c) && InRun(e, c, |b|)
      && (Episode(e, c) <==> Episode(b, c) || x.hard || |b| - c >= 2)
      && Episodes(e) == Episodes(b) + if Episode(e, c) then {c} else {}
  {
    hide Joined, Episode;
    var e := b + [x];
    GrownEpisode(b, x, c);
    forall i: nat | i <= |b| && i != c ensures Episode(e, i) <==> i < |b| && Episode(b, i) {
      OtherRuns(b, x, c, i);
    }
    assert Episode(b, c) ==> Episode(e, c);
  }

  lemma GrownEpisode(b: seq<Break>, x: Break, c: nat)
    requires |b| > 0 && Joined(b[|b| - 1], x) && RunStart(b, c) && InRun(b, c, |b| - 1)
    ensures var e := b + [x];
      && RunStart(e, c) && InRun(e, c, |b|)
      && (Episode(e, c) <==> Episode(b, c) || x.hard || |b| - c >= 2)
  {
    hide Joined;
    var e := b + [x];
    assert forall k: nat :: k < |b| ==> e[k] == b[k];
    assert InRun(e, c, |b|);
    forall j: nat | c <= j <= |b| ensures InRun(e, c, j) && (j < |b| ==> InRun(b, c, j)) {
    }
    if HasFreeze(b, c) {
      var j: nat :| InRun(b, c, j) && b[j].hard;
      assert InRun(e, c, j) && e[j].hard;
    }
    if HasFreeze(e, c) {
      var j: nat :| InRun(e, c, j) && e[j].hard;
      if j < |b| {
        assert InRun(b, c, j) && b[j].hard;
      }
    }
  }

  lemma OtherRuns(b: seq<Break>, x: Break, c: nat, i: nat)
    requires |b| > 0 && Joined(b[|b| - 1], x) && RunStart(b, c) && InRun(b, c, |b| - 1)
    requires i <= |b| && i != c
    ensures Episode(b + [x], i) <==> i < |b| && Episode(b, i)
  {
    hide Joined;
    var e := b + [x];
    assert forall k: nat :: k < |b| ==> e[k] == b[k];
    if i == |b| {
      assert Joined(e[i - 1], e[i]);
    } else if i < c {
      assert !Joined(e[c - 1], e[c]);
      EpisodeKept(b, x, i);
    } else {
      assert Joined(b[i - 1], b[i]);
      assert Joined(e[i - 1], e[i]);
    }
  }

  lemma EpisodesBelow(b: seq<Break>)
    ensures forall i :: i in Episodes(b) ==> i < |b|
  {
  }

  lemma Counted(s: set<nat>, n: nat, add: bool)
    ensures |s + if add then {n} else {}| == |s| + if add && n !in s then 1 else 0
  {
    if add {
      if n in s {
        assert s + {n} == s;
      } else {
        assert s * {n} == {};
      }
    } else {
      assert s + {} == s;
    }
  }

  /** One more break. */
  lemma FollowsStep(t: Tracker, b: seq<Break>, c: nat, x: Break) returns (c': nat)
    requires |b| > 0 && Follows(t, b, c)
    ensures Follows(AfterBreak(t, x), b + [x], c')
  {
    hide Episode, Episodes, RunStart, InRun;
    EpisodesBelow(b);
    if Joined(b[|b| - 1], x) {
      c' := c;
      InRunInside(b, c, |b| - 1);
      SameRun(b, x, c);
      EpisodeMember(b, c);
      Counted(Episodes(b), c, Episode(b + [x], c));
    } else {
      c' := |b|;
      NewRun(b, x);
      Counted(Episodes(b), |b|, x.hard);
    }
  }

  lemma EpisodeMember(b: seq<Break>, c: nat)
    requires c < |b|
    ensures c in Episodes(b) <==> Episode(b, c)
  {
  }

  /** The incremental counter is the number of maximal runs that qualify. */
  lemma {:induction false} TrackerCounts(b: seq<Break>) returns (c: nat)
    requires |b| > 0 && b[0].at > EPISODE_GAP_US
    ensures Follows(Tracked(b), b, c)
  {
    hide Follows, AfterBreak;
    if |b| == 1 {
      c := 0;
      assert b == [b[0]] && b[..0] == [];
      FirstBreak(b[0]);
    } else {
      var before := b[..|b| - 1];
      var d := TrackerCounts(before);
      c := FollowsStep(Tracked(before), before, d, b[|b| - 1]);
      assert b == before + [b[|b| - 1]];
    }
  }

  lemma FirstBreak(x: Break)
    requires x.at > EPISODE_GAP_US
    ensures Follows(AfterBreak(Start().cadence.tracker, x), [x], 0)
  {
    hide Episode, Episodes, RunStart, InRun;
    NewRun([], x);
    assert [] + [x] == [x];
    NoEpisodes();
    Counted({}, 0, x.hard);
  }

  lemma NoEpisodes()
    ensures Episodes([]) == {}
  {
  }

  // ---------- The worst episode ----------

  /** Presents in time order. */
  ghost predicate TimesAscend(b: seq<Break>) {
    && (forall i: nat :: i < |b| ==> b[i].prev <= b[i].at)
    && (forall i: nat, j: nat :: i < j < |b| ==> b[i].at <= b[j].prev)
  }

  /** From the present before a run's first break to one of its breaks. */
  ghost function Span(b: seq<Break>, i: nat, j: nat): nat {
    if i < |b| && j < |b| then Elapsed(b[j].at, b[i].prev) else 0
  }

  ghost predicate EpisodeSpan(b: seq<Break>, i: nat, j: nat) {
    Episode(b, i) && InRun(b, i, j)
  }

  /** The longest span of any episode. */
  ghost predicate LongestSpan(b: seq<Break>, w: nat) {
    && (forall i: nat, j: nat :: EpisodeSpan(b, i, j) ==> Span(b, i, j) <= w)
    && (w == 0 || exists i: nat, j: nat :: EpisodeSpan(b, i, j) && w == Span(b, i, j))
  }

  /** The episodes after one more break: the earlier ones, and the current run if it qualifies. */
  lemma SpansGrow(t: Tracker, b: seq<Break>, c: nat, x: Break, i: nat, j: nat)
    requires |b| > 0 && Follows(t, b, c)
    ensures var e := b + [x];
      var d := if Joined(b[|b| - 1], x) then c else |b|;
      && RunStart(e, d) && InRun(e, d, |b|)
      && (EpisodeSpan(e, i, j) ==> EpisodeSpan(b, i, j) || (i == d && Episode(e, d) && j <= |b|))
      && (EpisodeSpan(b, i, j) ==> EpisodeSpan(e, i, j))
  {
    hide Joined, Episode;
    var e := b + [x];
    if EpisodeSpan(b, i, j) || j < |b| {
      InRunExtended(b, x, i, j);
    }
    if Joined(b[|b| - 1], x) {
      SameRun(b, x, c);
      if i <= |b| && i != c {
        OtherRuns(b, x, c, i);
        if i < |b| && EpisodeSpan(e, i, j) && j == |b| {
          RunsApart(e, c, i);
        }
      }
    } else {
      NewRun(b, x);
      if i < |b| {
        assert !Joined(e[|b| - 1], e[|b|]);
        EpisodeKept(b, x, i);
      }
    }
  }

  /** Two runs that reach the same break start at the same place. */
  lemma RunsApart(b: seq<Break>, c: nat, i: nat)
    requires RunStart(b, c) && InRun(b, c, |b| - 1) && Episode(b, i) && InRun(b, i, |b| - 1)
    ensures i == c
  {
    hide Joined;
  }

  lemma LongestStep(t: Tracker, b: seq<Break>, c: nat, x: Break)
    requires |b| > 0 && Follows(t, b, c) && LongestSpan(b, t.worst) && TimesAscend(b + [x])
    ensures LongestSpan(b + [x], AfterBreak(t, x).worst)
  {
    hide Episode, InRun, RunStart, Follows, EpisodeSpan;
    var e := b + [x];
    var d := if Joined(b[|b| - 1], x) then c else |b|;
    var w := AfterBreak(t, x).worst;
    TrackerStep(t, b, c, x);
    forall i: nat, j: nat | EpisodeSpan(e, i, j) ensures Span(e, i, j) <= w {
      SpansGrow(t, b, c, x, i, j);
      SpanInside(e, i, j);
      SpanInside(b, i, j);
    }
    SpansGrow(t, b, c, x, d, |b|);
    if Episode(e, d) {
      CurrentSpan(e, d);
    }
    if t.worst != 0 {
      var i: nat, j: nat :| EpisodeSpan(b, i, j) && t.worst == Span(b, i, j);
      SpansGrow(t, b, c, x, i, j);
      SpanInside(b, i, j);
      assert EpisodeSpan(e, i, j) && t.worst == Span(e, i, j);
    }
  }

  lemma SpanInside(b: seq<Break>, i: nat, j: nat)
    ensures EpisodeSpan(b, i, j) ==> i <= j < |b|
  {
  }

  lemma CurrentSpan(b: seq<Break>, d: nat)
    requires |b| > 0 && Episode(b, d) && InRun(b, d, |b| - 1)
    ensures EpisodeSpan(b, d, |b| - 1)
  {
  }

  /** What the tracker records about the current run. */
  lemma TrackerStep(t: Tracker, b: seq<Break>, c: nat, x: Break)
    requires |b| > 0 && Follows(t, b, c)
    ensures var e := b + [x];
      var d := if Joined(b[|b| - 1], x) then c else |b|;
      && d <= |b|
      && (AfterBreak(t, x).counted <==> Episode(e, d))
      && AfterBreak(t, x).worst == if Episode(e, d) then Max(t.worst, Span(e, d, |b|)) else t.worst
  {
    hide Episode, Episodes, RunStart, InRun;
    InRunInside(b, c, |b| - 1);
    if Joined(b[|b| - 1], x) {
      SameRun(b, x, c);
    } else {
      NewRun(b, x);
    }
  }

  lemma {:induction false} WorstIsLongest(b: seq<Break>)
    requires TimesAscend(b) && (|b| > 0 ==> b[0].at > EPISODE_GAP_US)
    ensures LongestSpan(b, Tracked(b).worst)
  {
    hide AfterBreak, Follows, LongestSpan;
    if |b| == 0 {
      NoSpans();
    } else if |b| == 1 {
      assert b == [b[0]] && b[..0] == [];
      FirstSpan(b[0]);
    } else {
      var before := b[..|b| - 1];
      assert b == before + [b[|b| - 1]];
      WorstIsLongest(before);
      var c := TrackerCounts(before);
      LongestStep(Tracked(before), before, c, b[|b| - 1]);
    }
  }

  lemma NoSpans()
    ensures LongestSpan([], 0)
  {
  }

  lemma FirstSpan(x: Break)
    requires x.at > EPISODE_GAP_US
    ensures LongestSpan([x], AfterBreak(Start().cadence.tracker, x).worst)
  {
    hide RunStart, HasFreeze, Episode;
    NewRun([], x);
    assert [] + [x] == [x];
    forall i: nat, j: nat | EpisodeSpan([x], i, j) ensures i == 0 && j == 0 {
    }
    if x.hard {
      CurrentSpan([x], 0);
    }
  }

  // ---------- Whole runs ----------

  ghost predicate Monotone(frames: seq<Frame>) {
    forall i, j :: 0 <= i < j < |frames| ==> frames[i].at <= frames[j].at
  }

  ghost function Hard(b: seq<Break>): nat {
    if |b| == 0 then 0 else Hard(b[..|b| - 1]) + if b[|b| - 1].hard then 1 else 0
  }

  lemma LatestGrows(gaps: seq<u32>, g: u32)
    ensures Latest(gaps + [g]) == PushCapped(Latest(gaps), g)
  {
    var more := gaps + [g];
    if |gaps| >= WINDOW {
      var from := |gaps| - WINDOW;
      assert Latest(gaps) == gaps[from..];
      assert more[from + 1..] == gaps[from..][1..] + [g];
    }
  }

  lemma GapsGrow(frames: seq<Frame>)
    requires |frames| > 1
    ensures var n := |frames| - 1;
      LastGaps(frames) == PushCapped(LastGaps(frames[..n]), Gap(frames[n - 1].at, frames[n].at))
  {
    hide Gap, Latest, PushCapped;
    var n := |frames| - 1;
    assert GapsOf(frames) == GapsOf(frames[..n]) + [Gap(frames[n - 1].at, frames[n].at)];
    LatestGrows(GapsOf(frames[..n]), Gap(frames[n - 1].at, frames[n].at));
  }

  /** Latencies of the presents that have one. */
  ghost function LatenciesOf(frames: seq<Frame>): seq<u32> {
    if |frames| == 0 then []
    else
      var l := frames[|frames| - 1].latency;
      LatenciesOf(frames[..|frames| - 1]) + if l.Some? then [l.value] else []
  }

  /** More than 40 ms and less than 10 s from one capture to the next, across the wrap of their 32-bit times. */
  ghost predicate CaptureGap(a: u32, b: u32) {
    if a <= b then 40_000 < b - a < 10_000_000 else 40_000 < b + U32_RANGE - a < 10_000_000
  }

  /** Presents whose capture came late. */
  ghost function LateCaptures(frames: seq<Frame>): set<nat> {
    set i: nat | i < |frames| && LateAt(frames, i)
  }

  ghost predicate LateAt(frames: seq<Frame>, i: nat) {
    0 < i < |frames| && CaptureGap(frames[i - 1].captureTs, frames[i].captureTs)
  }

  /** Time from the present before, summed over the hard breaks. */
  ghost function FrozenTime(b: seq<Break>): nat {
    if |b| == 0 then 0
    else
      var x := b[|b| - 1];
      FrozenTime(b[..|b| - 1]) + if x.hard then Gap(x.prev, x.at) else 0
  }

  lemma LateCapturesGrow(frames: seq<Frame>)
    requires |frames| > 1
    ensures var n := |frames| - 1;
      |LateCaptures(frames)| == |LateCaptures(frames[..n])|
        + if CaptureGap(frames[n - 1].captureTs, frames[n].captureTs) then 1 else 0
  {
    hide CaptureGap;
    var n := |frames| - 1;
    var before, late := frames[..n], CaptureGap(frames[n - 1].captureTs, frames[n].captureTs);
    assert forall i: nat :: i < n ==> LateAt(frames, i) == LateAt(before, i);
    assert LateCaptures(frames) == LateCaptures(before) + if late then {n} else {};
    Counted(LateCaptures(before), n, late);
  }

  lemma SourceStutterMeans(a: u32, b: u32)
    ensures SourceStutter(Some(a), b) <==> CaptureGap(a, b)
  {
  }

  lemma LatenciesGrow(frames: seq<Frame>)
    requires |frames| > 0
    ensures var l := frames[|frames| - 1].latency;
      var before := Latest(LatenciesOf(frames[..|frames| - 1]));
      Latest(LatenciesOf(frames)) == if l.Some? then PushCapped(before, l.value) else before
  {
    hide Latest, PushCapped;
    var before, l := LatenciesOf(frames[..|frames| - 1]), frames[|frames| - 1].latency;
    if l.Some? {
      LatestGrows(before, l.value);
    } else {
      assert LatenciesOf(frames) == before;
    }
  }

  /** What does not depend on the cadence: the number of presents, the last 3600 latencies, the late captures. */
  ghost predicate CountsOff(h: Health, frames: seq<Frame>) {
    && h.presented == |frames|
    && h.latencies == Latest(LatenciesOf(frames))
    && h.sourceStutters == |LateCaptures(frames)|
    && h.lastCapture == if |frames| == 0 then None else Some(frames[|frames| - 1].captureTs)
  }

  lemma {:induction false} RunCountsOff(frames: seq<Frame>)
    ensures CountsOff(RunPresents(frames), frames)
  {
    hide SourceStutter, CaptureGap, AfterGap, PushCapped, Latest, LatenciesOf, LateCaptures;
    if |frames| == 0 {
      NothingCounted(frames);
    } else {
      RunCountsOff(frames[..|frames| - 1]);
      LatenciesGrow(frames);
      if |frames| == 1 {
        NothingCounted(frames[..0]);
        OneCapture(frames);
      } else {
        LateCapturesGrow(frames);
        SourceStutterMeans(frames[|frames| - 2].captureTs, frames[|frames| - 1].captureTs);
      }
    }
  }

  lemma NothingCounted(frames: seq<Frame>)
    requires |frames| == 0
    ensures LatenciesOf(frames) == [] && Latest([]) == [] && LateCaptures(frames) == {}
    ensures SourceStutter(None, 0) == false
  {
  }

  lemma OneCapture(frames: seq<Frame>)
    requires |frames| == 1
    ensures LateCaptures(frames) == {} && !SourceStutter(None, frames[0].captureTs)
  {
  }

  /** The state a run reaches, read off the presentation times alone. */
  ghost predicate ReadsOff(h: Health, frames: seq<Frame>) {
    && |frames| > 0
    && h.firstPresent == Some(frames[0].at)
    && h.lastPresent == Some(frames[|frames| - 1].at)
    && h.cadence.frametimes == LastGaps(frames)
    && h.cadence.tracker == Tracked(BreaksOf(frames))
    && h.cadence.freezes == Hard(BreaksOf(frames))
    && h.cadence.freezeTotal == FrozenTime(BreaksOf(frames))
    && h.cadence.stutters + h.cadence.freezes == |BreaksOf(frames)|
  }

  lemma BreaksGrow(b: seq<Break>, x: Break)
    ensures Tracked(b + [x]) == AfterBreak(Tracked(b), x)
    ensures Hard(b + [x]) == Hard(b) + if x.hard then 1 else 0
    ensures FrozenTime(b + [x]) == FrozenTime(b) + if x.hard then Gap(x.prev, x.at) else 0
  {
    assert (b + [x])[..|b|] == b;
  }

  lemma {:induction false} RunReadsOff(frames: seq<Frame>)
    requires |frames| > 0
    ensures ReadsOff(RunPresents(frames), frames)
  {
    hide KindOf, AfterBreak, Gap, PushCapped, LastGaps, Tracked, Hard, FrozenTime;
    if |frames| == 1 {
      assert frames[..0] == [];
      assert BreaksOf(frames) == [];
      NoBreaks(frames);
    } else {
      var n := |frames| - 1;
      RunReadsOff(frames[..n]);
      GapsGrow(frames);
      BreaksGrow(BreaksOf(frames[..n]), Break(frames[n - 1].at, frames[n].at, KindAt(frames, n).Freeze?));
      assert BreaksOf(frames[..n]) + [] == BreaksOf(frames[..n]);
    }
  }

  lemma NoBreaks(frames: seq<Frame>)
    requires |frames| == 1
    ensures Tracked([]) == Start().cadence.tracker && LastGaps(frames) == []
    ensures Hard([]) == 0 && FrozenTime([]) == 0
  {
  }

  lemma WarmAt(frames: seq<Frame>, n: nat)
    requires 0 < n < |frames|
    ensures !KindAt(frames, n).Steady? ==> frames[n].at > WARMUP_US
  {
    hide Percentile, LastGaps, Gap;
  }

  ghost predicate Warm(b: seq<Break>) {
    forall i: nat :: i < |b| ==> b[i].at > WARMUP_US
  }

  lemma {:induction false} BreaksWarm(frames: seq<Frame>)
    ensures Warm(BreaksOf(frames))
  {
    if |frames| > 1 {
      hide KindAt;
      var n := |frames| - 1;
      BreaksWarm(frames[..n]);
      WarmAt(frames, n);
    }
  }

  ghost predicate AscendTo(b: seq<Break>, last: nat) {
    TimesAscend(b) && forall i: nat :: i < |b| ==> b[i].at <= last
  }

  lemma AscendsFurther(b: seq<Break>, prev: nat, x: Break)
    requires AscendTo(b, prev) && x.prev == prev <= x.at
    ensures AscendTo(b + [x], x.at)
  {
  }

  lemma AscendsLater(b: seq<Break>, prev: nat, now: nat)
    requires AscendTo(b, prev) && prev <= now
    ensures AscendTo(b, now)
  {
  }

  lemma MonotonePrefix(frames: seq<Frame>)
    requires |frames| > 1 && Monotone(frames)
    ensures Monotone(frames[..|frames| - 1]) && frames[|frames| - 2].at <= frames[|frames| - 1].at
  {
  }

  lemma {:induction false} BreaksAscend(frames: seq<Frame>)
    requires |frames| > 0 && Monotone(frames)
    ensures AscendTo(BreaksOf(frames), frames[|frames| - 1].at)
  {
    if |frames| > 1 {
      hide KindAt, AscendTo, Monotone;
      var n := |frames| - 1;
      MonotonePrefix(frames);
      BreaksAscend(frames[..n]);
      var b := BreaksOf(frames[..n]);
      if KindAt(frames, n).Steady? {
        assert BreaksOf(frames) == b;
        AscendsLater(b, frames[n - 1].at, frames[n].at);
      } else {
        AscendsFurther(b, frames[n - 1].at, Break(frames[n - 1].at, frames[n].at, KindAt(frames, n).Freeze?));
      }
    }
  }

  /** The freeze total fits in the time since the first present. */
  lemma {:induction false} FreezesFit(frames: seq<Frame>)
    requires |frames| > 0 && Monotone(frames)
    ensures RunPresents(frames).cadence.freezeTotal <= frames[|frames| - 1].at - frames[0].at
  {
    hide KindOf, AfterBreak, PushCapped, ReadsOff;
    if |frames| == 1 {
      assert frames[..0] == [];
    } else {
      var n := |frames| - 1;
      FreezesFit(frames[..n]);
      RunReadsOff(frames[..n]);
      LastIs(RunPresents(frames[..n]), frames[..n]);
    }
  }

  lemma LastIs(h: Health, frames: seq<Frame>)
    requires ReadsOff(h, frames)
    ensures |frames| > 0 && h.lastPresent == Some(frames[|frames| - 1].at)
  {
  }

  /** The counters kept frame by frame are those of the whole run's break list: `episodes` is the number of
      maximal runs of breaks at most a second apart that hold three breaks or a freeze. */
  lemma EpisodesCounted(frames: seq<Frame>)
    ensures RunPresents(frames).cadence.tracker.episodes == |Episodes(BreaksOf(frames))|
  {
    hide Presented, BreaksOf, Episodes, Tracked, LastGaps;
    if |frames| == 0 {
      NoFrames();
      NoEpisodes();
    } else {
      RunReadsOff(frames);
      BreaksWarm(frames);
      var b := BreaksOf(frames);
      if |b| == 0 {
        NoEpisodes();
        NoTrack();
      } else {
        var c := TrackerCounts(b);
      }
    }
  }

  lemma NoFrames()
    ensures BreaksOf([]) == []
  {
  }

  lemma NoTrack()
    ensures Tracked([]) == Start().cadence.tracker
  {
  }

  /** With a monotone clock the worst episode is the longest one, measured from the present before it. */
  lemma WorstEpisode(frames: seq<Frame>)
    requires |frames| > 0 && Monotone(frames)
    ensures LongestSpan(BreaksOf(frames), RunPresents(frames).cadence.tracker.worst)
  {
    hide RunPresents, BreaksOf, Tracked, LongestSpan, LastGaps;
    RunReadsOff(frames);
    BreaksWarm(frames);
    BreaksAscend(frames);
    WorstIsLongest(BreaksOf(frames));
  }
}
