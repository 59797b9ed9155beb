/** Shard counters of a frame in flight, and rebuilding its bytes
    (crates/client-core/src/reassembly.rs). */
module FrameRebuild {
  import opened Wrappers
  import opened ByteStrings
  import opened ErasureCode
  import opened GroupLayout
  import opened Datagram
  import opened ReassemblyModel

  // ---------- Counters agree with the slots ----------

  ghost predicate WellFormed(p: Pending) {
    && 1 <= p.dataCount <= |p.shards|
    && p.receivedData == Present(p.shards, 0, p.dataCount)
    && p.receivedTotal == Present(p.shards, 0, |p.shards|) % 0x1_0000
  }

  ghost predicate AllWellFormed(s: State) {
    forall id :: id in s.pending ==> WellFormed(s.pending[id])
  }

  lemma {:induction false} PresentUpdate(shards: Slots, i: nat, payload: Shard, lo: nat, hi: nat)
    requires lo <= hi <= |shards| && i < |shards| && shards[i].None?
    ensures Present(shards[i := Some(payload)], lo, hi) == Present(shards, lo, hi) + if lo <= i < hi then 1 else 0
    decreases hi
  {
    if lo < hi {
      PresentUpdate(shards, i, payload, lo, hi - 1);
    }
  }

  lemma {:induction false} PresentNone(shards: Slots, lo: nat, hi: nat)
    requires lo <= hi <= |shards| && forall i :: lo <= i < hi ==> shards[i].None?
    ensures Present(shards, lo, hi) == 0
    decreases hi
  {
    if lo < hi {
      PresentNone(shards, lo, hi - 1);
    }
  }

  /** A full count means every slot is filled. */
  lemma {:induction false} PresentFull(shards: Slots, lo: nat, hi: nat)
    requires lo <= hi <= |shards|
    ensures Present(shards, lo, hi) == hi - lo <==> forall i :: lo <= i < hi ==> shards[i].Some?
    decreases hi
  {
    if lo < hi {
      PresentFull(shards, lo, hi - 1);
    }
  }

  /** Storing a shard keeps both counters equal to the number of filled slots. */
  lemma StoredWellFormed(p: Pending, h: VideoHeader, payload: Bytes)
    requires WellFormed(p) && Matches(p, h) && ValidHeader(h)
    ensures WellFormed(StoreShard(p, h, payload))
  {
    if p.shards[h.chunkIndex].None? {
      PresentUpdate(p.shards, h.chunkIndex, payload, 0, p.dataCount);
      PresentUpdate(p.shards, h.chunkIndex, payload, 0, |p.shards|);
      WrapSuccessor(Present(p.shards, 0, |p.shards|));
    }
  }

  lemma WrapSuccessor(n: nat)
    ensures (n % 0x1_0000 + 1) % 0x1_0000 == (n + 1) % 0x1_0000
  {
  }

  lemma NewWellFormed(h: VideoHeader)
    requires ValidHeader(h)
    ensures WellFormed(NewPending(h)) && Matches(NewPending(h), h)
  {
    var p := NewPending(h);
    PresentNone(p.shards, 0, p.dataCount);
    PresentNone(p.shards, 0, |p.shards|);
  }

  lemma EntryWellFormed(s: State, h: VideoHeader, payload: Bytes)
    requires AllWellFormed(s) && ValidHeader(h)
    ensures WellFormed(Entry(s, h, payload))
  {
    hide WellFormed, StoreShard, NewPending, Matches;
    NewWellFormed(h);
    if h.frameId in s.pending && Matches(s.pending[h.frameId], h) {
      StoredWellFormed(s.pending[h.frameId], h, payload);
    } else {
      StoredWellFormed(NewPending(h), h, payload);
    }
  }

  lemma {:induction false} DrainedWellFormed(s: State)
    requires AllWellFormed(s)
    ensures AllWellFormed(Drained(s).0)
    decreases |s.held|
  {
    hide WellFormed, Blocked, Forced;
    if |s.held| > 0 && !(Blocked(s, s.held[0].frameId) && !Forced(s)) {
      DrainedWellFormed(Released(s));
    }
  }

  /** Every arriving shard keeps every entry's counters right. */
  lemma PushedWellFormed(s: State, h: VideoHeader, payload: Bytes)
    requires AllWellFormed(s) && ValidHeader(h)
    ensures AllWellFormed(Absorbed(s, h, payload))
    ensures AllWellFormed(Pushed(s, h, payload).0)
  {
    hide WellFormed, Completes, Reconstructed, Assembled, Drained, Entry, Inserted, CompleteDirect;
    EntryWellFormed(s, h, payload);
    DrainedWellFormed(Absorbed(s, h, payload));
  }

  // ---------- Building the frame ----------

  /** All data shards present: concatenate them as they are. */
  method AssembleData(done: Pending) returns (frame: Bytes)
    requires done.dataCount <= |done.shards| && forall i :: 0 <= i < done.dataCount ==> done.shards[i].Some?
    ensures frame == Assembled(done.shards, done.dataCount)
  {
    frame := [];
    for i := 0 to done.dataCount
      invariant frame == Assembled(done.shards, i)
    {
      frame := frame + done.shards[i].value;
    }
  }

  /** Move slots lo..hi out, leaving them empty. */
  method Take(slots: array<Option<Shard>>, lo: nat, hi: nat) returns (taken: Slots)
    requires lo <= hi <= slots.Length
    modifies slots
    ensures taken == old(slots[lo..hi])
    ensures forall j :: 0 <= j < slots.Length ==> slots[j] == if lo <= j < hi then None else old(slots[j])
  {
    taken := [];
    for i := lo to hi
      invariant taken == old(slots[lo..i])
      invariant forall j :: 0 <= j < slots.Length ==> slots[j] == if lo <= j < i then None else old(slots[j])
    {
      taken := taken + [slots[i]];
      slots[i] := None;
    }
  }

  method WriteBack(slots: array<Option<Shard>>, lo: nat, data: Slots)
    requires lo + |data| <= slots.Length
    modifies slots
    ensures slots[lo..lo + |data|] == data
    ensures forall j :: 0 <= j < slots.Length && !(lo <= j < lo + |data|) ==> slots[j] == old(slots[j])
  {
    for i := 0 to |data|
      invariant forall j :: 0 <= j < slots.Length ==>
        slots[j] == if lo <= j < lo + i then data[j - lo] else old(slots[j])
    {
      slots[lo + i] := data[i];
    }
  }

  /** Decode one group's slots in an array of their own. */
  method DecodeGroup(taken: Slots, dataLen: nat) returns (r: Option<Slots>)
    requires dataLen <= |taken|
    ensures r.Some? <==> Decodable(taken, dataLen)
    ensures r.Some? <==> Decode(taken, dataLen).Some?
    ensures r.Some? ==> r.value == AllPresent(Decode(taken, dataLen).value)
  {
    hide Decode, Decodable;
    var part := new Option<Shard>[|taken|](i requires 0 <= i < |taken| => taken[i]);
    assert part[..] == taken;
    var ok := ReconstructData(part, dataLen);
    if !ok {
      return None;
    }
    assert part[..dataLen] == AllPresent(Decode(taken, dataLen).value);
    return Some(part[..dataLen]);
  }

  /** The slots of group g still hold what they held before. */
  ghost predicate GroupUntouched(now: Slots, before: Slots, group: FecGroup)
    requires |now| == |before|
    requires group.dataStart + group.dataLen <= |before| && group.parityStart + group.parityLen <= |before|
  {
    && now[group.dataStart..group.dataStart + group.dataLen] == before[group.dataStart..group.dataStart + group.dataLen]
    && now[group.parityStart..group.parityStart + group.parityLen]
         == before[group.parityStart..group.parityStart + group.parityLen]
  }

  /** The group's data shards are all there, or its slots pass everything the decoder checks. */
  ghost predicate GroupSolvable(padded: Slots, k: nat, g: nat)
    requires k <= |padded| && g < GroupCount(k)
  {
    LayoutTiles(k, |padded| - k, g);
    var group := GroupAt(k, |padded| - k, g);
    || AllSome(padded[group.dataStart..group.dataStart + group.dataLen])
    || Decodable(GroupSlots(padded, k, g), group.dataLen)
  }

  /** What a rebuild asks of the shards. */
  ghost predicate Buildable(p: Pending)
    requires 1 <= p.dataCount <= |p.shards|
  {
    var k := p.dataCount;
    var longest := LongestBut(p.shards, k - 1, |p.shards|);
    && |p.shards| > k && longest.Some? && longest.value > 0
    && AllSolvable(PadSlots(p.shards, longest.value, k - 1), k)
  }

  ghost predicate AllSolvable(padded: Slots, k: nat)
    requires k <= |padded|
  {
    forall g :: 0 <= g < GroupCount(k) ==> GroupSolvable(padded, k, g)
  }

  /** One group: its slots are taken out, decoded, and the data slots written back. */
  method RecoverGroup(slots: array<Option<Shard>>, ghost before: Slots, k: nat, g: nat, group: FecGroup)
      returns (ok: bool)
    requires k <= slots.Length == |before| && g < GroupCount(k) && group == GroupAt(k, |before| - k, g)
    requires group.dataStart + group.dataLen <= k <= group.parityStart
    requires group.parityStart + group.parityLen <= |before|
    requires GroupUntouched(slots[..], before, group)
    modifies slots
    ensures ok <==> GroupData(before, k, g).Some?
    ensures ok <==> GroupSolvable(before, k, g)
    ensures ok ==> slots[group.dataStart..group.dataStart + group.dataLen] == AllPresent(GroupData(before, k, g).value)
    ensures forall j :: 0 <= j < group.dataStart ==> slots[j] == old(slots[j])
    ensures forall j :: group.dataStart + group.dataLen <= j < group.parityStart ==> slots[j] == old(slots[j])
    ensures forall j :: group.parityStart + group.parityLen <= j < slots.Length ==> slots[j] == old(slots[j])
  {
    hide Decode, Decodable, GroupAt, GroupCount;
    var dataEnd, parityEnd := group.dataStart + group.dataLen, group.parityStart + group.parityLen;
    assert slots[group.dataStart..dataEnd] == slots[..][group.dataStart..dataEnd];
    assert slots[group.parityStart..parityEnd] == slots[..][group.parityStart..parityEnd];
    if AllSome(slots[group.dataStart..dataEnd]) {
      assert slots[group.dataStart..dataEnd] == AllPresent(Values(slots[group.dataStart..dataEnd]));
      return true;
    }
    var data := Take(slots, group.dataStart, dataEnd);
    var parity := Take(slots, group.parityStart, parityEnd);
    assert parity == old(slots[group.parityStart..parityEnd]);
    assert data + parity == GroupSlots(before, k, g);
    var decoded := DecodeGroup(data + parity, group.dataLen);
    if decoded.None? {
      return false;
    }
    WriteBack(slots, group.dataStart, decoded.value);
    ok := true;
  }

  /** Groups below g are recovered in place, the others untouched. */
  ghost predicate RecoveredUpTo(now: Slots, before: Slots, k: nat, g: nat)
    requires k <= |before| && g <= GroupCount(k)
  {
    var at := GroupAt(k, |before| - k, g);
    && |now| == |before|
    && FirstGroups(before, k, g).Some?
    && at.dataStart <= k && k <= at.parityStart <= |before|
    && (forall i :: 0 <= i < at.dataStart ==> now[i] == Some(FirstGroups(before, k, g).value[i]))
    && (forall i :: at.dataStart <= i < k ==> now[i] == before[i])
    && (forall i :: at.parityStart <= i < |before| ==> now[i] == before[i])
  }

  lemma RecoveredStart(before: Slots, k: nat)
    requires k <= |before|
    ensures RecoveredUpTo(before, before, k, 0)
  {
    hide GroupCount;
    LayoutTiles(k, |before| - k, 0);
  }

  lemma RecoveredUntouched(now: Slots, before: Slots, k: nat, g: nat)
    requires k <= |before| && g < GroupCount(k) && RecoveredUpTo(now, before, k, g)
    ensures var group := GroupAt(k, |before| - k, g);
      group.dataStart + group.dataLen <= k <= group.parityStart && group.parityStart + group.parityLen <= |before|
      && GroupUntouched(now, before, group)
  {
    hide GroupAt, GroupCount, FirstGroups;
    LayoutTiles(k, |before| - k, g);
  }

  lemma RecoveredStep(now: Slots, after: Slots, before: Slots, k: nat, g: nat)
    requires k <= |before| && g < GroupCount(k) && RecoveredUpTo(now, before, k, g) && |after| == |before|
    requires GroupData(before, k, g).Some?
    requires GroupAt(k, |before| - k, g).dataStart + GroupAt(k, |before| - k, g).dataLen <= |before|
    requires var group := GroupAt(k, |before| - k, g);
      after[group.dataStart..group.dataStart + group.dataLen] == AllPresent(GroupData(before, k, g).value)
    requires var group := GroupAt(k, |before| - k, g);
      && (forall j :: 0 <= j < group.dataStart ==> after[j] == now[j])
      && (forall j :: group.dataStart + group.dataLen <= j < group.parityStart && j < |after| ==> after[j] == now[j])
      && (forall j :: group.parityStart + group.parityLen <= j < |after| ==> after[j] == now[j])
    ensures RecoveredUpTo(after, before, k, g + 1)
  {
    hide GroupAt, GroupCount, GroupData;
    LayoutTiles(k, |before| - k, g);
    var group, data := GroupAt(k, |before| - k, g), GroupData(before, k, g).value;
    forall i | group.dataStart <= i < group.dataStart + group.dataLen
      ensures after[i] == Some(data[i - group.dataStart])
    {
      assert after[i] == after[group.dataStart..group.dataStart + group.dataLen][i - group.dataStart];
    }
  }

  /** Rebuild the frame group by group. */
  method Reconstruct(done: Pending) returns (r: Option<Bytes>)
    requires 1 <= done.dataCount <= |done.shards|
    ensures r == Reconstructed(done)
    ensures r.Some? <==> Buildable(done)
  {
    hide FirstGroups, RecoveredUpTo, GroupData, GroupAt, GroupCount, LongestBut, PadSlots, GroupUntouched,
         GroupSolvable;
    var k := done.dataCount;
    var m := |done.shards| - k;
    if m == 0 {
      return None;
    }
    var longest := LongestBut(done.shards, k - 1, |done.shards|);
    if longest.None? || longest.value == 0 {
      return None;
    }
    var padded := PadSlots(done.shards, longest.value, k - 1);
    var slots := new Option<Shard>[|padded|](i requires 0 <= i < |padded| => padded[i]);
    assert slots[..] == padded;
    var layout := Layout(k, m);
    RecoveredStart(padded, k);
    for g := 0 to |layout|
      invariant RecoveredUpTo(slots[..], padded, k, g)
      invariant forall i :: 0 <= i < g ==> GroupSolvable(padded, k, i)
    {
      ghost var now := slots[..];
      RecoveredUntouched(now, padded, k, g);
      var ok := RecoverGroup(slots, padded, k, g, layout[g]);
      FirstGroupsStep(padded, k, g);
      if !ok {
        FirstGroupsFail(padded, k, g, GroupCount(k));
        return None;
      }
      assert slots[..][layout[g].dataStart..layout[g].dataStart + layout[g].dataLen]
          == slots[layout[g].dataStart..layout[g].dataStart + layout[g].dataLen];
      RecoveredStep(now, slots[..], padded, k, g);
    }
    var frame := Join(slots[..], padded, k);
    r := Some(Truncated(frame, done.frameLen));
  }

  lemma FirstGroupsStep(shards: Slots, k: nat, g: nat)
    requires k <= |shards| && g < GroupCount(k)
    ensures GroupData(shards, k, g).None? ==> FirstGroups(shards, k, g + 1).None?
  {
    hide GroupAt, GroupCount, GroupData;
  }

  /** Once a group fails the whole frame does. */
  lemma {:induction false} FirstGroupsFail(shards: Slots, k: nat, g: nat, n: nat)
    requires k <= |shards| && g < n <= GroupCount(k) && GroupData(shards, k, g).None?
    ensures FirstGroups(shards, k, n).None?
    decreases n
  {
    hide GroupAt, GroupCount, GroupData;
    if g + 1 < n {
      FirstGroupsFail(shards, k, g, n - 1);
    }
  }

  method Join(slots: Slots, ghost before: Slots, k: nat) returns (frame: Bytes)
    requires k <= |slots| == |before| && RecoveredUpTo(slots, before, k, GroupCount(k))
    ensures FirstGroups(before, k, GroupCount(k)).Some?
    ensures frame == Concat(FirstGroups(before, k, GroupCount(k)).value)
  {
    hide GroupAt, GroupCount, FirstGroups;
    ghost var all := FirstGroups(before, k, GroupCount(k)).value;
    GroupCountPositive(k);
    LayoutTiles(k, |before| - k, GroupCount(k) - 1);
    frame := [];
    for i := 0 to k
      invariant frame == Concat(all[..i])
    {
      assert all[..i + 1][..i] == all[..i];
      frame := frame + slots[i].value;
    }
    assert all[..k] == all;
  }

  lemma GroupCountPositive(k: nat)
    ensures GroupCount(k) >= 1
  {
  }
}
