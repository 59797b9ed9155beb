/** A frame rebuilt from whatever shards arrived, consistent or not
    (crates/client-core/src/reassembly.rs, `reconstruct`). */
module AnyShards {
  import opened Wrappers
  import opened Arithmetic
  import opened GaloisField
  import opened ByteStrings
  import opened ErasureCode
  import opened GroupLayout
  import opened ReassemblyModel
  import opened FrameRebuild
  import opened EndToEnd

  /** The length of the longest shard present, leaving out the last data shard, which may be short. */
  ghost predicate CommonLength(shards: Slots, k: nat, len: nat) {
    && (exists i :: 0 <= i < |shards| && CountsToward(shards, k, i) && |shards[i].value| == len)
    && (forall i :: 0 <= i < |shards| && CountsToward(shards, k, i) ==> |shards[i].value| <= len)
  }

  ghost predicate CountsToward(shards: Slots, k: nat, i: nat)
    requires i < |shards|
  {
    i != k - 1 && shards[i].Some?
  }

  lemma {:induction false} LongestIsCommon(shards: Slots, k: nat, n: nat)
    requires n <= |shards|
    ensures var longest := LongestBut(shards, k - 1, n);
      if longest.Some? then CommonLength(shards[..n], k, longest.value)
      else forall i :: 0 <= i < n ==> !CountsToward(shards, k, i)
  {
    if n > 0 {
      LongestIsCommon(shards, k, n - 1);
      var longest, s := LongestBut(shards, k - 1, n), shards[..n];
      if longest.Some? {
        var before := LongestBut(shards, k - 1, n - 1);
        if before.Some? {
          var i :| 0 <= i < n - 1 && CountsToward(shards[..n - 1], k, i)
            && |shards[..n - 1][i].value| == before.value;
          assert CountsToward(s, k, i) && |s[i].value| == before.value;
        }
        assert CountsToward(shards, k, n - 1) ==> CountsToward(s, k, n - 1);
        forall i | 0 <= i < n && CountsToward(s, k, i) ensures |s[i].value| <= longest.value {
          assert i < n - 1 ==> CountsToward(shards[..n - 1], k, i);
          assert i < n - 1 ==> CountsToward(shards, k, i);
        }
      }
    }
  }

  /** A shard that takes part: of the common length, or a last data shard that is not longer. */
  ghost predicate Usable(shards: Slots, k: nat, len: nat, i: nat)
    requires i < |shards|
  {
    shards[i].Some? && (|shards[i].value| == len || (i == k - 1 && |shards[i].value| < len))
  }

  /** Usable shards in lo..hi. */
  ghost function UsableIn(shards: Slots, k: nat, len: nat, lo: nat, hi: nat): (n: nat)
    requires lo <= hi <= |shards|
    ensures n <= hi - lo
    decreases hi
  {
    if lo == hi then 0 else UsableIn(shards, k, len, lo, hi - 1) + if Usable(shards, k, len, hi - 1) then 1 else 0
  }

  lemma {:induction false} PaddedPresent(shards: Slots, k: nat, len: nat, lo: nat, hi: nat)
    requires lo <= hi <= |shards|
    ensures Present(PadSlots(shards, len, k - 1), lo, hi) == UsableIn(shards, k, len, lo, hi)
    decreases hi
  {
    if lo < hi {
      PaddedPresent(shards, k, len, lo, hi - 1);
    }
  }

  /** The group has a usable shard for each of its data shards, and needs no others or is small enough to decode. */
  ghost predicate GroupEnough(shards: Slots, k: nat, len: nat, g: nat)
    requires k <= |shards| && g < GroupCount(k)
  {
    LayoutTiles(k, |shards| - k, g);
    var group := GroupAt(k, |shards| - k, g);
    var data := UsableIn(shards, k, len, group.dataStart, group.dataStart + group.dataLen);
    var parity := UsableIn(shards, k, len, group.parityStart, group.parityStart + group.parityLen);
    data == group.dataLen || (data + parity >= group.dataLen && group.dataLen + group.parityLen <= 255)
  }

  // ---------- One group ----------

  /** The data shards of a group after it was decoded: all there, the present ones unchanged. */
  ghost predicate Keeps(data: seq<Shard>, padded: Slots, from: nat, len: nat)
    requires from + |data| <= |padded|
  {
    && EqualLengths(data, len)
    && forall j :: 0 <= j < |data| && padded[from + j].Some? ==> data[j] == padded[from + j].value
  }

  /** Present shards of a group's slots, counted in the frame's slots. */
  lemma GroupCounts(padded: Slots, k: nat, g: nat)
    requires k <= |padded| && g < GroupCount(k)
    ensures var group, slots := GroupAt(k, |padded| - k, g), GroupSlots(padded, k, g);
      && group.dataStart + group.dataLen <= k <= group.parityStart
      && group.parityStart + group.parityLen <= |padded|
      && |Missing(slots, group.dataLen)|
         == group.dataLen - Present(padded, group.dataStart, group.dataStart + group.dataLen)
      && |PresentParity(slots, group.dataLen, |slots|)|
         == Present(padded, group.parityStart, group.parityStart + group.parityLen)
  {
    hide GroupAt, GroupCount, Missing, PresentParity;
    var group, slots := GroupAt(k, |padded| - k, g), GroupSlots(padded, k, g);
    LayoutTiles(k, |padded| - k, g);
    MissingCount(slots, group.dataLen);
    PresentParityCount(slots, group.dataLen, |slots|);
    PresentShift(padded, group.dataStart, slots, 0, group.dataLen);
    PresentShift(padded, group.parityStart, slots, group.dataLen, group.parityLen);
  }

  lemma DecodeKeeps(slots: Slots, n: nat, len: nat)
    requires n <= |slots| && UniformLength(slots, len) && Decode(slots, n).Some?
    ensures Keeps(Decode(slots, n).value, slots, 0, len)
    ensures Decodable(slots, n)
  {
    hide PresentParity, ParityShard;
    var m := Missing(slots, n);
    if |m| > 0 {
      var rows := PresentParity(slots, n, |slots|);
      assert slots[n + rows[0]].Some?;
      FirstLengthUniform(slots, len, n + rows[0]);
    } else {
      assert forall i :: 0 <= i < n ==> slots[i].None? ==> i in m;
    }
  }

  /** A group that was decoded had enough shards. */
  ghost predicate DecodedFrom(padded: Slots, k: nat, g: nat)
    requires k <= |padded| && g < GroupCount(k)
  {
    LayoutTiles(k, |padded| - k, g);
    var group := GroupAt(k, |padded| - k, g);
    var data := Present(padded, group.dataStart, group.dataStart + group.dataLen);
    || data == group.dataLen
    || (data + Present(padded, group.parityStart, group.parityStart + group.parityLen) >= group.dataLen
        && group.dataLen + group.parityLen <= 255)
  }

  lemma GroupCounted(padded: Slots, k: nat, g: nat, len: nat)
    requires 1 <= k <= |padded| && g < GroupCount(k) && UniformLength(padded, len) && GroupData(padded, k, g).Some?
    ensures DecodedFrom(padded, k, g)
  {
    hide GroupAt, GroupCount, Missing, PresentParity, Decode, Present;
    var group, slots := GroupAt(k, |padded| - k, g), GroupSlots(padded, k, g);
    GroupCounts(padded, k, g);
    var data := padded[group.dataStart..group.dataStart + group.dataLen];
    if AllSome(data) {
      AllThere(padded, group.dataStart, group.dataStart + group.dataLen);
    } else {
      SlotsUniform(padded, k, g, len);
      DecodeKeeps(slots, group.dataLen, len);
    }
  }

  lemma SlotsUniform(padded: Slots, k: nat, g: nat, len: nat)
    requires k <= |padded| && g < GroupCount(k) && UniformLength(padded, len)
    ensures var group, slots := GroupAt(k, |padded| - k, g), GroupSlots(padded, k, g);
      && group.dataStart + group.dataLen <= |padded|
      && UniformLength(slots, len)
      && forall j :: 0 <= j < group.dataLen ==> slots[j] == padded[group.dataStart + j]
  {
    hide GroupAt, GroupCount;
    LayoutTiles(k, |padded| - k, g);
  }

  lemma GroupKeeps(padded: Slots, k: nat, g: nat, len: nat)
    requires 1 <= k <= |padded| && g < GroupCount(k) && UniformLength(padded, len) && GroupData(padded, k, g).Some?
    ensures var group := GroupAt(k, |padded| - k, g);
      && group.dataStart + group.dataLen <= |padded|
      && Keeps(GroupData(padded, k, g).value, padded, group.dataStart, len)
  {
    hide GroupAt, GroupCount, Decode, Decodable;
    var group, slots := GroupAt(k, |padded| - k, g), GroupSlots(padded, k, g);
    SlotsUniform(padded, k, g, len);
    LayoutTiles(k, |padded| - k, g);
    var data := padded[group.dataStart..group.dataStart + group.dataLen];
    if !AllSome(data) {
      DecodeKeeps(slots, group.dataLen, len);
    }
  }

  lemma {:induction false} AllThere(shards: Slots, lo: nat, hi: nat)
    requires lo <= hi <= |shards| && AllSome(shards[lo..hi])
    ensures Present(shards, lo, hi) == hi - lo
    decreases hi
  {
    if lo < hi {
      assert shards[lo..hi][hi - 1 - lo] == shards[hi - 1];
      assert shards[lo..hi - 1] == shards[lo..hi][..hi - 1 - lo];
      AllThere(shards, lo, hi - 1);
    }
  }

  // ---------- All groups ----------

  lemma {:induction false} FirstGroupsKeep(padded: Slots, k: nat, n: nat, len: nat)
    requires 1 <= k <= |padded| && n <= GroupCount(k) && UniformLength(padded, len)
    requires FirstGroups(padded, k, n).Some?
    ensures |FirstGroups(padded, k, n).value| <= k && Keeps(FirstGroups(padded, k, n).value, padded, 0, len)
    ensures forall g :: 0 <= g < n ==> GroupData(padded, k, g).Some?
  {
    hide GroupAt, GroupCount, GroupData, UniformLength;
    if n > 0 {
      FirstGroupsKeep(padded, k, n - 1, len);
      GroupKeeps(padded, k, n - 1, len);
      LayoutTiles(k, |padded| - k, n - 1);
    }
  }

  lemma {:induction false} ConcatAt(pieces: seq<Bytes>, len: nat, i: nat, b: nat)
    requires EqualLengths(pieces, len)
    ensures |Concat(pieces)| == |pieces| * len
    ensures i < |pieces| && b < len ==>
      0 <= i * len + b < |Concat(pieces)| && Concat(pieces)[i * len + b] == pieces[i][b]
  {
    if |pieces| > 0 {
      var n := |pieces| - 1;
      ConcatAt(pieces[..n], len, i, b);
      assert |pieces| * len == n * len + len;
      if i < n {
        MulMonotone(i + 1, n, len, len);
      }
    }
  }

  /** The shard's bytes, zero-filled to the common length, stand at this place of the frame, as far as it goes. */
  ghost predicate InPlace(frame: Bytes, at: nat, shard: Shard, len: nat) {
    forall b :: 0 <= b < len && at + b < |frame| ==> frame[at + b] == if b < |shard| then shard[b] else ZERO
  }

  lemma PaddedUniform(shards: Slots, k: nat, len: nat)
    ensures UniformLength(PadSlots(shards, len, k - 1), len)
  {
  }

  lemma PaddedSlotIs(shards: Slots, k: nat, len: nat, i: nat, b: nat)
    requires i < |shards| && Usable(shards, k, len, i) && b < len
    ensures PadSlots(shards, len, k - 1)[i].Some?
    ensures var v := PadSlots(shards, len, k - 1)[i].value;
      |v| == len && v[b] == if b < |shards[i].value| then shards[i].value[b] else ZERO
  {
  }

  lemma ShardInPlace(shards: Slots, k: nat, len: nat, data: seq<Shard>, frameLen: nat, i: nat)
    requires i < k == |data| <= |shards| && Usable(shards, k, len, i)
    requires Keeps(data, PadSlots(shards, len, k - 1), 0, len)
    ensures InPlace(Truncated(Concat(data), frameLen), i * len, shards[i].value, len)
  {
    hide PadSlots, Concat;
    var frame := Truncated(Concat(data), frameLen);
    forall b | 0 <= b < len && i * len + b < |frame|
      ensures frame[i * len + b] == if b < |shards[i].value| then shards[i].value[b] else ZERO {
      ConcatAt(data, len, i, b);
      PaddedSlotIs(shards, k, len, i, b);
    }
  }

  lemma GroupsHaveEnough(shards: Slots, k: nat, len: nat, g: nat)
    requires 1 <= k <= |shards| && g < GroupCount(k)
    requires GroupData(PadSlots(shards, len, k - 1), k, g).Some?
    ensures GroupEnough(shards, k, len, g)
  {
    hide GroupAt, GroupCount, GroupData, PadSlots, Present;
    var padded := PadSlots(shards, len, k - 1);
    PaddedUniform(shards, k, len);
    GroupCounted(padded, k, g, len);
    LayoutTiles(k, |shards| - k, g);
    var group := GroupAt(k, |shards| - k, g);
    PaddedPresent(shards, k, len, group.dataStart, group.dataStart + group.dataLen);
    PaddedPresent(shards, k, len, group.parityStart, group.parityStart + group.parityLen);
  }

  ghost predicate KeptInPlace(frame: Bytes, shards: Slots, k: nat, len: nat, i: nat)
    requires i < |shards|
  {
    Usable(shards, k, len, i) ==> InPlace(frame, i * len, shards[i].value, len)
  }

  /** There was parity to use; every group had a usable shard for each of its data shards; the frame is as long as the
      header says, as far as the shards reach; and every usable data shard stands in its place. */
  ghost predicate BuiltFrom(frame: Bytes, shards: Slots, k: nat, len: nat, frameLen: nat) {
    && k < |shards| && len > 0 && CommonLength(shards, k, len)
    && (forall g :: 0 <= g < GroupCount(k) ==> GroupEnough(shards, k, len, g))
    && |frame| == Min(frameLen, k * len)
    && (forall i :: 0 <= i < k ==> KeptInPlace(frame, shards, k, len, i))
  }

  /** Whatever shards arrived, a frame that is rebuilt is built from them. */
  lemma RebuiltFromAny(p: Pending) returns (len: nat)
    requires 1 <= p.dataCount <= |p.shards| && Reconstructed(p).Some?
    ensures BuiltFrom(Reconstructed(p).value, p.shards, p.dataCount, len, p.frameLen)
  {
    hide GroupAt, GroupCount, GroupData, PadSlots, FirstGroups, LongestBut, CommonLength, GroupEnough, Keeps, Usable,
         InPlace, Concat;
    var k, shards := p.dataCount, p.shards;
    LongestIsCommon(shards, k, |shards|);
    assert shards[..|shards|] == shards;
    len := LongestBut(shards, k - 1, |shards|).value;
    var padded, groups := PadSlots(shards, len, k - 1), GroupCount(k);
    PaddedUniform(shards, k, len);
    FirstGroupsKeep(padded, k, groups, len);
    LayoutTiles(k, |shards| - k, 0);
    var data := FirstGroups(padded, k, groups).value;
    forall g | 0 <= g < groups ensures GroupEnough(shards, k, len, g) {
      GroupsHaveEnough(shards, k, len, g);
    }
    KeptLength(data, padded, len);
    forall i | 0 <= i < k ensures KeptInPlace(Reconstructed(p).value, shards, k, len, i) {
      if Usable(shards, k, len, i) {
        ShardInPlace(shards, k, len, data, p.frameLen, i);
      }
    }
  }

  lemma KeptLength(data: seq<Shard>, padded: Slots, len: nat)
    requires |data| <= |padded| && Keeps(data, padded, 0, len)
    ensures |Concat(data)| == |data| * len
  {
    ConcatAt(data, len, 0, 0);
  }

  // ---------- Exactly when it is rebuilt ----------

  /** Enough present shards pass all the decoder's checks. */
  lemma EnoughSolves(padded: Slots, k: nat, g: nat, len: nat)
    requires 1 <= k <= |padded| && g < GroupCount(k) && UniformLength(padded, len) && len > 0
    ensures GroupSolvable(padded, k, g) <==> DecodedFrom(padded, k, g)
  {
    hide GroupAt, GroupCount, Missing, PresentParity, Present;
    var group, slots := GroupAt(k, |padded| - k, g), GroupSlots(padded, k, g);
    LayoutTiles(k, |padded| - k, g);
    GroupDataBounds(k, |padded| - k, g);
    GroupCounts(padded, k, g);
    SlotsUniform(padded, k, g, len);
    var rows := PresentParity(slots, group.dataLen, |slots|);
    if |rows| > 0 {
      assert slots[group.dataLen + rows[0]].Some?;
      FirstLengthUniform(slots, len, group.dataLen + rows[0]);
    }
    var data := padded[group.dataStart..group.dataStart + group.dataLen];
    if AllSome(data) {
      AllThere(padded, group.dataStart, group.dataStart + group.dataLen);
    } else {
      var j :| 0 <= j < |data| && data[j].None?;
      assert slots[j].None? && j in Missing(slots, group.dataLen);
    }
  }

  lemma SolvableMeans(shards: Slots, k: nat, len: nat, g: nat)
    requires 1 <= k <= |shards| && g < GroupCount(k) && len > 0
    ensures GroupSolvable(PadSlots(shards, len, k - 1), k, g) <==> GroupEnough(shards, k, len, g)
  {
    hide GroupAt, GroupCount, PadSlots, Present, GroupSolvable;
    var padded := PadSlots(shards, len, k - 1);
    PaddedUniform(shards, k, len);
    EnoughSolves(padded, k, g, len);
    LayoutTiles(k, |shards| - k, g);
    var group := GroupAt(k, |shards| - k, g);
    PaddedPresent(shards, k, len, group.dataStart, group.dataStart + group.dataLen);
    PaddedPresent(shards, k, len, group.parityStart, group.parityStart + group.parityLen);
  }

  lemma CommonUnique(shards: Slots, k: nat, a: nat, b: nat)
    requires CommonLength(shards, k, a) && CommonLength(shards, k, b)
    ensures a == b
  {
  }

  /** Shards of this common length can be built from. */
  ghost predicate EnoughOf(shards: Slots, k: nat, len: nat)
    requires k <= |shards|
  {
    && len > 0 && CommonLength(shards, k, len)
    && forall g :: 0 <= g < GroupCount(k) ==> GroupEnough(shards, k, len, g)
  }

  /** Which shards a rebuild asks for, consistent or not: there is parity, and with the length of the longest shard, not
      zero, every group has as many usable shards as data shards. */
  lemma BuildableExactlyWhen(p: Pending)
    requires 1 <= p.dataCount <= |p.shards|
    ensures Buildable(p) <==> |p.shards| > p.dataCount && exists len :: EnoughOf(p.shards, p.dataCount, len)
  {
    hide GroupAt, GroupCount, AllSolvable, PadSlots, LongestBut, CommonLength, GroupEnough, CountsToward;
    var k, shards := p.dataCount, p.shards;
    var longest := LongestBut(shards, k - 1, |shards|);
    LongestIsCommon(shards, k, |shards|);
    assert shards[..|shards|] == shards;
    forall len | EnoughOf(shards, k, len) ensures longest == Some(len) {
      LongestFound(shards, k, len);
      CommonUnique(shards, k, longest.value, len);
    }
    if longest.Some? && longest.value > 0 {
      AllSolvableMeans(shards, k, longest.value);
      assert CommonLength(shards, k, longest.value);
      assert AllSolvable(PadSlots(shards, longest.value, k - 1), k) <==> EnoughOf(shards, k, longest.value);
    }
  }

  lemma AllSolvableMeans(shards: Slots, k: nat, len: nat)
    requires 1 <= k <= |shards| && len > 0
    ensures AllSolvable(PadSlots(shards, len, k - 1), k) <==>
      forall g :: 0 <= g < GroupCount(k) ==> GroupEnough(shards, k, len, g)
  {
    hide GroupCount, GroupSolvable, PadSlots, GroupEnough;
    var padded := PadSlots(shards, len, k - 1);
    forall g | 0 <= g < GroupCount(k) ensures GroupSolvable(padded, k, g) <==> GroupEnough(shards, k, len, g) {
      SolvableMeans(shards, k, len, g);
    }
  }

  lemma LongestFound(shards: Slots, k: nat, len: nat)
    requires CommonLength(shards, k, len)
    ensures LongestBut(shards, k - 1, |shards|).Some?
  {
    LongestIsCommon(shards, k, |shards|);
  }
}
