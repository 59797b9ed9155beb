/** The reassembler as a state machine over values: what one arriving shard does
    (crates/client-core/src/reassembly.rs). */
module ReassemblyModel {
  import opened Wrappers
  import opened Arithmetic
  import opened ByteStrings
  import opened ErasureCode
  import opened GroupLayout
  import opened Datagram

  const HALF_RANGE: nat := 0x7fff_ffff   // u32::MAX / 2
  const HOLD_LIMIT: nat := 3
  const MAX_PENDING: nat := 8

  datatype CompletedFrame = CompletedFrame(frameId: u32, kind: FrameKind, captureTs: u32, data: Bytes)

  datatype Pending = Pending(
    shards: Slots,
    dataCount: nat,
    receivedData: nat,
    receivedTotal: u16,
    frameLen: u32,
    epoch: u8)

  datatype State = State(
    pending: map<u32, Pending>,
    held: seq<CompletedFrame>,
    dropped: nat,
    recovered: nat,
    latest: Option<u32>)

  function InitialState(): State {
    State(map[], [], 0, 0, None)
  }

  // ---------- One frame in flight ----------

  function NewPending(h: VideoHeader): Pending {
    Pending(seq(TotalShards(h.chunkCount, h.parityCount), _ => None), h.chunkCount, 0, 0, h.frameLen, h.sessionEpoch)
  }

  predicate Matches(p: Pending, h: VideoHeader) {
    && p.epoch == h.sessionEpoch
    && p.dataCount == h.chunkCount
    && |p.shards| == TotalShards(h.chunkCount, h.parityCount)
    && p.frameLen == h.frameLen
  }

  /** Store a shard in its empty slot; the u16 total wraps. */
  function StoreShard(p: Pending, h: VideoHeader, payload: Bytes): Pending
    requires h.chunkIndex < |p.shards|
  {
    if p.shards[h.chunkIndex].Some? then p
    else
      p.(shards := p.shards[h.chunkIndex := Some(payload)],
         receivedTotal := (p.receivedTotal + 1) % 0x1_0000,
         receivedData := p.receivedData + if h.chunkIndex < h.chunkCount then 1 else 0)
  }

  /** Filled slots in lo..hi. */
  function Present(shards: Slots, lo: nat, hi: nat): (n: nat)
    requires lo <= hi <= |shards|
    ensures n <= hi - lo
    decreases hi
  {
    if lo == hi then 0 else Present(shards, lo, hi - 1) + if shards[hi - 1].Some? then 1 else 0
  }

  predicate GroupRecoverable(shards: Slots, k: nat, g: nat)
    requires k <= |shards| && g < GroupCount(k)
  {
    LayoutTiles(k, |shards| - k, g);
    var group := GroupAt(k, |shards| - k, g);
    var data := Present(shards, group.dataStart, group.dataStart + group.dataLen);
    || data == group.dataLen
    || data + Present(shards, group.parityStart, group.parityStart + group.parityLen) >= group.dataLen
  }

  predicate Recoverable(p: Pending)
    requires p.dataCount <= |p.shards|
  {
    forall g :: 0 <= g < GroupCount(p.dataCount) ==> GroupRecoverable(p.shards, p.dataCount, g)
  }

  function SlotBytes(slot: Option<Shard>): Bytes {
    if slot.Some? then slot.value else []
  }

  /** The first n slots concatenated. */
  function Assembled(shards: Slots, n: nat): Bytes
    requires n <= |shards|
  {
    if n == 0 then [] else Assembled(shards, n - 1) + SlotBytes(shards[n - 1])
  }

  // ---------- Reconstruction of a frame with losses ----------

  /** Longest of the first n present shards, leaving out slot skip. */
  function LongestBut(shards: Slots, skip: int, n: nat): Option<nat>
    requires n <= |shards|
  {
    if n == 0 then None
    else
      var before := LongestBut(shards, skip, n - 1);
      if shards[n - 1].None? || n - 1 == skip then before
      else if before.None? || before.value <= |shards[n - 1].value| then Some(|shards[n - 1].value|)
      else before
  }

  /** Pad to the uniform length; a shard of another length counts as lost, except that slot last may be short. */
  function PadSlot(slot: Option<Shard>, len: nat, isLast: bool): Option<Shard> {
    if slot.None? || |slot.value| > len || (|slot.value| < len && !isLast) then None
    else Some(Padded(slot.value, len))
  }

  function PadSlots(shards: Slots, len: nat, last: int): (r: Slots)
    ensures |r| == |shards|
  {
    seq(|shards|, i requires 0 <= i < |shards| => PadSlot(shards[i], len, i == last))
  }

  ghost function GroupSlots(shards: Slots, k: nat, g: nat): (s: Slots)
    requires k <= |shards| && g < GroupCount(k)
    ensures |s| == GroupAt(k, |shards| - k, g).dataLen + GroupAt(k, |shards| - k, g).parityLen
  {
    LayoutTiles(k, |shards| - k, g);
    var group := GroupAt(k, |shards| - k, g);
    shards[group.dataStart..group.dataStart + group.dataLen]
    + shards[group.parityStart..group.parityStart + group.parityLen]
  }

  predicate AllSome(shards: Slots) {
    forall i :: 0 <= i < |shards| ==> shards[i].Some?
  }

  function Values(shards: Slots): (v: seq<Shard>)
    requires AllSome(shards)
    ensures |v| == |shards|
  {
    seq(|shards|, i requires 0 <= i < |shards| => shards[i].value)
  }

  /** Group g's data shards, recovered if need be. */
  ghost function GroupData(shards: Slots, k: nat, g: nat): (r: Option<seq<Shard>>)
    requires k <= |shards| && g < GroupCount(k)
    ensures r.Some? ==> |r.value| == GroupAt(k, |shards| - k, g).dataLen
  {
    LayoutTiles(k, |shards| - k, g);
    var group := GroupAt(k, |shards| - k, g);
    var data := shards[group.dataStart..group.dataStart + group.dataLen];
    if AllSome(data) then Some(Values(data)) else Decode(GroupSlots(shards, k, g), group.dataLen)
  }

  /** Data shards of the first n groups, None when one of them cannot be recovered. */
  ghost function FirstGroups(shards: Slots, k: nat, n: nat): (r: Option<seq<Shard>>)
    requires k <= |shards| && n <= GroupCount(k)
    ensures r.Some? ==> |r.value| == GroupAt(k, |shards| - k, n).dataStart
  {
    if n == 0 then
      PartStartZero(k, GroupCount(k));
      Some([])
    else
      LayoutTiles(k, |shards| - k, n - 1);
      var before, group := FirstGroups(shards, k, n - 1), GroupData(shards, k, n - 1);
      if before.None? || group.None? then None else Some(before.value + group.value)
  }

  function Truncated(s: Bytes, len: nat): Bytes {
    if len <= |s| then s[..len] else s
  }

  /** The frame rebuilt with the help of parity, or None on inconsistent shards. */
  ghost function Reconstructed(p: Pending): Option<Bytes>
    requires 1 <= p.dataCount <= |p.shards|
  {
    var k := p.dataCount;
    if |p.shards| == k then None
    else
      var longest := LongestBut(p.shards, k - 1, |p.shards|);
      if longest.None? || longest.value == 0 then None
      else
        var data := FirstGroups(PadSlots(p.shards, longest.value, k - 1), k, GroupCount(k));
        if data.None? then None else Some(Truncated(Concat(data.value), p.frameLen))
  }

  // ---------- Order of frame ids across the 32-bit wrap ----------

  function Age(from: u32, to: u32): nat {
    (to - from) % U32_RANGE
  }

  predicate Older(a: u32, b: u32) {
    0 < Age(a, b) < HALF_RANGE
  }

  /** A shard at or before the last delivered frame. */
  predicate Stale(latest: u32, id: u32) {
    Age(id, latest) < HALF_RANGE
  }

  // ---------- Transitions ----------

  function OlderThan(pending: map<u32, Pending>, completed: u32): set<u32> {
    set id | id in pending && Older(id, completed)
  }

  function PrunedOlderThan(s: State, completed: u32): State {
    var gone := OlderThan(s.pending, completed);
    s.(pending := s.pending - gone, dropped := s.dropped + |gone|)
  }

  ghost predicate IsNewest(ids: set<u32>, n: u32) {
    n in ids && forall id :: id in ids ==> id <= n
  }

  /** The pending id the code calls oldest: farthest below the numerically largest one. */
  ghost predicate IsVictim(ids: set<u32>, v: u32) {
    v in ids && exists n :: IsNewest(ids, n) && forall id :: id in ids ==> Age(id, n) <= Age(v, n)
  }

  ghost predicate Blocked(s: State, id: u32) {
    exists p :: p in s.pending && Older(p, id)
  }

  ghost predicate Forced(s: State)
    requires |s.held| > 0
  {
    s.held[0].kind == Idr || |s.held| > HOLD_LIMIT
  }

  /** Take the head of held out and forget what is older. */
  function Released(s: State): (r: State)
    requires |s.held| > 0
    ensures |r.held| == |s.held| - 1
  {
    PrunedOlderThan(s.(held := s.held[1..], latest := Some(s.held[0].frameId)), s.held[0].frameId)
  }

  /** Release held frames in order while nothing older can still complete, or when forced. */
  ghost function Drained(s: State): (r: (State, seq<CompletedFrame>))
    decreases |s.held|
  {
    if |s.held| == 0 || (Blocked(s, s.held[0].frameId) && !Forced(s)) then (s, [])
    else
      var (next, out) := Drained(Released(s));
      (next, [s.held[0]] + out)
  }

  /** First position whose frame is newer, else the end. */
  function InsertPosition(held: seq<CompletedFrame>, id: u32): (at: nat)
    ensures at <= |held|
  {
    if |held| == 0 || Older(id, held[0].frameId) then 0 else 1 + InsertPosition(held[1..], id)
  }

  function Inserted(held: seq<CompletedFrame>, f: CompletedFrame): seq<CompletedFrame> {
    var at := InsertPosition(held, f.frameId);
    held[..at] + [f] + held[at..]
  }

  predicate InHeld(held: seq<CompletedFrame>, id: u32) {
    exists i :: 0 <= i < |held| && held[i].frameId == id
  }

  predicate Ignored(s: State, id: u32) {
    (s.latest.Some? && Stale(s.latest.value, id)) || InHeld(s.held, id)
  }

  /** The frame's entry after the shard is stored; an entry of other geometry or epoch is restarted. */
  function Entry(s: State, h: VideoHeader, payload: Bytes): (p: Pending)
    requires ValidHeader(h)
    ensures p.dataCount == h.chunkCount && |p.shards| == TotalShards(h.chunkCount, h.parityCount)
  {
    var current :=
      if h.frameId in s.pending && Matches(s.pending[h.frameId], h) then s.pending[h.frameId] else NewPending(h);
    StoreShard(current, h, payload)
  }

  predicate CompleteDirect(p: Pending) {
    p.receivedData == p.dataCount
  }

  predicate Completes(p: Pending)
    requires p.dataCount <= |p.shards|
  {
    CompleteDirect(p) || (p.receivedTotal >= p.dataCount && Recoverable(p))
  }

  ghost function Victim(ids: set<u32>): (v: u32)
    requires |ids| > 0
    ensures IsVictim(ids, v)
  {
    VictimExists(ids);
    var v :| IsVictim(ids, v);
    v
  }

  ghost function PrunedOldest(s: State): State {
    if |s.pending| == 0 then s
    else
      assert |s.pending.Keys| > 0;
      s.(pending := s.pending - {Victim(s.pending.Keys)}, dropped := s.dropped + 1)
  }

  /** The state before draining: the shard stored, and the frame moved to held if it is complete. */
  ghost function Absorbed(s: State, h: VideoHeader, payload: Bytes): State
    requires ValidHeader(h)
  {
    var p := Entry(s, h, payload);
    var stored := s.(pending := s.pending[h.frameId := p]);
    if !Completes(p) then
      if |stored.pending| > MAX_PENDING then PrunedOldest(stored) else stored
    else
      var closed := s.(pending := stored.pending - {h.frameId});
      var data := if CompleteDirect(p) then Some(Assembled(p.shards, p.dataCount)) else Reconstructed(p);
      if data.None? then closed.(dropped := s.dropped + 1)
      else
        closed.(held := Inserted(s.held, CompletedFrame(h.frameId, h.kind, h.captureTs, data.value)),
                recovered := s.recovered + if CompleteDirect(p) then 0 else 1)
  }

  /** One arriving shard: the new state and the frames released. */
  ghost function Pushed(s: State, h: VideoHeader, payload: Bytes): (State, seq<CompletedFrame>)
    requires ValidHeader(h)
  {
    if Ignored(s, h.frameId) then (s, []) else Drained(Absorbed(s, h, payload))
  }

  lemma PruneCounts(pending: map<u32, Pending>, completed: u32)
    ensures var gone := OlderThan(pending, completed);
      |pending - gone| + |gone| == |pending|
  {
    hide Older;
    var gone := OlderThan(pending, completed);
    var kept := pending - gone;
    assert pending.Keys == kept.Keys + gone;
    assert |pending.Keys| == |kept.Keys| + |gone|;
  }

  // ---------- The victim exists and is unique ----------

  lemma {:induction false} NewestExists(ids: set<u32>) returns (n: u32)
    requires |ids| > 0
    ensures IsNewest(ids, n)
    decreases |ids|
  {
    var x :| x in ids;
    if ids == {x} {
      n := x;
    } else {
      assert ids - {x} != {};
      var rest := NewestExists(ids - {x});
      n := if rest <= x then x else rest;
      forall id | id in ids ensures id <= n {
        if id != x {
          assert id in ids - {x};
        }
      }
    }
  }

  lemma {:induction false} FarthestExists(ids: set<u32>, n: u32) returns (v: u32)
    requires |ids| > 0
    ensures v in ids && forall id :: id in ids ==> Age(id, n) <= Age(v, n)
    decreases |ids|
  {
    var x :| x in ids;
    if ids == {x} {
      v := x;
    } else {
      assert ids - {x} != {};
      var rest := FarthestExists(ids - {x}, n);
      v := if Age(rest, n) <= Age(x, n) then x else rest;
      forall id | id in ids ensures Age(id, n) <= Age(v, n) {
        if id != x {
          assert id in ids - {x};
        }
      }
    }
  }

  lemma VictimExists(ids: set<u32>)
    requires |ids| > 0
    ensures exists v :: IsVictim(ids, v)
  {
    var n := NewestExists(ids);
    var v := FarthestExists(ids, n);
    assert IsVictim(ids, v);
  }

  lemma AgeInjective(a: u32, b: u32, n: u32)
    requires Age(a, n) == Age(b, n)
    ensures a == b
  {
    AgeBelow(a, n);
    AgeBelow(b, n);
  }

  /** Age without the modulus. */
  lemma AgeBelow(a: u32, b: u32)
    ensures Age(a, b) == if a <= b then b - a else b - a + U32_RANGE
  {
  }

  lemma VictimUnique(ids: set<u32>, v: u32, w: u32)
    requires IsVictim(ids, v) && IsVictim(ids, w)
    ensures v == w
  {
    var n :| IsNewest(ids, n) && forall id :: id in ids ==> Age(id, n) <= Age(v, n);
    var n' :| IsNewest(ids, n') && forall id :: id in ids ==> Age(id, n') <= Age(w, n');
    assert n == n';
    AgeInjective(v, w, n);
  }
}
