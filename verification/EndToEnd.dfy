/** From the sender's chunker through a lossy network to the reassembler: what is released is what
    was sent (crates/protocol/src/datagram.rs, crates/client-core/src/reassembly.rs). */
module EndToEnd {
  import opened Wrappers
  import opened ByteStrings
  import opened ErasureCode
  import opened GroupLayout
  import opened Datagram
  import opened Chunker
  import opened ReassemblyModel
  import opened FrameRebuild
  import opened ReassemblyBounds

  // ---------- A frame as cut by the sender ----------

  /** Frame bytes with their shard geometry. */
  datatype Cut = Cut(frame: Bytes, maxPayload: nat, k: nat, m: nat)

  ghost predicate ValidCut(c: Cut) {
    && c.maxPayload > 0
    && 1 <= c.k == ChunkCount(|c.frame|, c.maxPayload)
    && c.k + c.m <= 0xffff && c.m <= 255
    && GroupsFit(c.k, c.m)
    && |c.frame| < 0x1_0000_0000
    && (c.m > 0 ==> |c.frame| > 0)
  }

  ghost function PayloadOf(c: Cut, i: nat): Bytes
    requires ValidCut(c) && i < c.k + c.m
  {
    ShardPayload(c.frame, c.maxPayload, c.k, c.m, i)
  }

  /** Slots holding only shards of this frame, each in its place. */
  ghost predicate SlotsOf(c: Cut, shards: Slots)
    requires ValidCut(c)
  {
    && |shards| == c.k + c.m
    && forall i :: 0 <= i < |shards| && shards[i].Some? ==> shards[i].value == PayloadOf(c, i)
  }

  ghost predicate EntryOf(c: Cut, p: Pending)
    requires ValidCut(c)
  {
    && SlotsOf(c, p.shards)
    && p.dataCount == c.k
    && p.frameLen == |c.frame|
  }

  // ---------- Direct completion ----------

  lemma {:induction false} AssembledIsConcat(c: Cut, shards: Slots, n: nat)
    requires ValidCut(c) && SlotsOf(c, shards) && n <= c.k
    requires forall i :: 0 <= i < n ==> shards[i].Some?
    ensures Assembled(shards, n) == Concat(DataShards(c.frame, c.maxPayload, n))
  {
    hide DataShard, GroupsFit, ChunkCount;
    if n > 0 {
      AssembledIsConcat(c, shards, n - 1);
      var s := DataShards(c.frame, c.maxPayload, n);
      assert s[..n - 1] == DataShards(c.frame, c.maxPayload, n - 1);
    }
  }

  lemma AssembledIsFrame(c: Cut, p: Pending)
    requires ValidCut(c) && EntryOf(c, p) && WellFormed(p) && CompleteDirect(p)
    ensures Assembled(p.shards, p.dataCount) == c.frame
  {
    hide SlotsOf, Assembled, GroupsFit, ChunkCount, DataShard;
    PresentFull(p.shards, 0, p.dataCount);
    AssembledIsConcat(c, p.shards, p.dataCount);
    DataCoversFrame(c.frame, c.maxPayload);
  }

  // ---------- Shard lengths ----------

  /** Every shard but the last data shard has the common length; the last is at most that long. */
  lemma PayloadLength(c: Cut, i: nat)
    requires ValidCut(c) && i < c.k + c.m && |c.frame| > 0
    ensures i != c.k - 1 ==> |PayloadOf(c, i)| == ShardLen(c.frame, c.maxPayload)
    ensures |PayloadOf(c, i)| <= ShardLen(c.frame, c.maxPayload)
  {
    hide ChunkCount, GroupsFit, GroupAt, DataShard, GroupParity;
    ChunkCountBounds(|c.frame|, c.maxPayload);
    if i + 1 < c.k {
      FullShard(c.frame, c.maxPayload, i, c.k);
    }
  }

  lemma {:induction false} LongestOf(c: Cut, shards: Slots, n: nat)
    requires ValidCut(c) && SlotsOf(c, shards) && n <= |shards| && |c.frame| > 0
    ensures var longest := LongestBut(shards, c.k - 1, n);
      && (longest.Some? ==> longest.value == ShardLen(c.frame, c.maxPayload))
      && (longest.Some? <==> exists i :: 0 <= i < n && i != c.k - 1 && shards[i].Some?)
  {
    hide ValidCut, PayloadOf, ShardLen;
    if n > 0 {
      LongestOf(c, shards, n - 1);
      PayloadLength(c, n - 1);
    }
  }

  /** Padding a present slot yields the shard the parity was computed over. */
  ghost function FullPayload(c: Cut, i: nat): Bytes
    requires ValidCut(c) && i < c.k + c.m
  {
    if i < c.k then PaddedShard(c.frame, c.maxPayload, i) else PayloadOf(c, i)
  }

  ghost function Len(c: Cut): nat {
    ShardLen(c.frame, c.maxPayload)
  }

  lemma PaddedSlot(c: Cut, shards: Slots, i: nat)
    requires ValidCut(c) && SlotsOf(c, shards) && i < |shards| && |c.frame| > 0
    ensures PadSlots(shards, Len(c), c.k - 1)[i] == if shards[i].Some? then Some(FullPayload(c, i)) else None
  {
    hide ValidCut, DataShard, ShardLen, GroupParity;
    PayloadLength(c, i);
    if shards[i].Some? {
      PayloadCases(c, i);
      PaddedIs(shards[i].value, Len(c));
    }
  }

  lemma PayloadCases(c: Cut, i: nat)
    requires ValidCut(c) && i < c.k + c.m
    ensures i < c.k ==> PayloadOf(c, i) == DataShard(c.frame, c.maxPayload, i)
  {
    hide DataShard, GroupsFit, ChunkCount;
  }

  // ---------- One group ----------

  ghost function GroupPieces(c: Cut, g: nat): (d: seq<Shard>)
    requires g < GroupCount(c.k)
    ensures |d| == GroupAt(c.k, c.m, g).dataLen && EqualLengths(d, Len(c))
  {
    PaddedShards(c.frame, c.maxPayload, GroupAt(c.k, c.m, g).dataStart, GroupAt(c.k, c.m, g).dataLen)
  }

  ghost predicate PaddedOf(c: Cut, shards: Slots, padded: Slots)
    requires ValidCut(c)
  {
    && |padded| == |shards| == c.k + c.m
    && forall i :: 0 <= i < |shards| ==> padded[i] == if shards[i].Some? then Some(FullPayload(c, i)) else None
  }

  lemma GroupDataSlot(c: Cut, shards: Slots, padded: Slots, g: nat, i: nat)
    requires ValidCut(c) && PaddedOf(c, shards, padded) && g < GroupCount(c.k)
    requires i < GroupAt(c.k, c.m, g).dataLen && GroupSlots(padded, c.k, g)[i].Some?
    ensures GroupSlots(padded, c.k, g)[i].value == GroupPieces(c, g)[i]
  {
    hide GroupAt, GroupCount, PaddedShard, ChunkCount, ShardPayload;
    LayoutTiles(c.k, c.m, g);
    assert GroupSlots(padded, c.k, g)[i] == padded[GroupAt(c.k, c.m, g).dataStart + i];
  }

  lemma GroupParitySlot(c: Cut, shards: Slots, padded: Slots, g: nat, j: nat)
    requires ValidCut(c) && PaddedOf(c, shards, padded) && g < GroupCount(c.k)
    requires j < GroupAt(c.k, c.m, g).parityLen
    requires GroupSlots(padded, c.k, g)[GroupAt(c.k, c.m, g).dataLen + j].Some?
    ensures GroupAt(c.k, c.m, g).dataLen + j < 256
    ensures GroupSlots(padded, c.k, g)[GroupAt(c.k, c.m, g).dataLen + j].value
         == ParityShard(GroupPieces(c, g), Len(c), j)
  {
    hide GroupAt, GroupCount, PaddedShards, ChunkCount, ShardPayload, ParityShard;
    LayoutTiles(c.k, c.m, g);
    var group := GroupAt(c.k, c.m, g);
    assert GroupSlots(padded, c.k, g)[group.dataLen + j] == padded[group.parityStart + j];
    GroupParityIs(c.frame, c.maxPayload, c.k, c.m, g, j);
  }

  lemma GroupSlotsErased(c: Cut, shards: Slots, padded: Slots, g: nat)
    requires ValidCut(c) && PaddedOf(c, shards, padded) && g < GroupCount(c.k)
    ensures Erased(GroupSlots(padded, c.k, g), GroupPieces(c, g), Len(c))
  {
    hide GroupAt, GroupCount, PaddedShards, ParityShard, ChunkCount, FullPayload;
    GroupDataBounds(c.k, c.m, g);
    var slots, pieces := GroupSlots(padded, c.k, g), GroupPieces(c, g);
    forall i | 0 <= i < |pieces| && slots[i].Some? ensures slots[i].value == pieces[i] {
      GroupDataSlot(c, shards, padded, g, i);
    }
    forall j | 0 <= j < |slots| - |pieces| && slots[|pieces| + j].Some?
      ensures slots[|pieces| + j].value == ParityShard(pieces, Len(c), j)
    {
      GroupParitySlot(c, shards, padded, g, j);
    }
  }

  lemma {:induction false} MissingCount(shards: Slots, n: nat)
    requires n <= |shards|
    ensures |Missing(shards, n)| == n - Present(shards, 0, n)
  {
    if n > 0 {
      MissingCount(shards, n - 1);
    }
  }

  lemma {:induction false} PresentParityCount(shards: Slots, k: nat, n: nat)
    requires k <= n <= |shards|
    ensures |PresentParity(shards, k, n)| == Present(shards, k, n)
  {
    if n > k {
      PresentParityCount(shards, k, n - 1);
    }
  }

  /** Counting the same presence at shifted positions. */
  lemma {:induction false} PresentShift(a: Slots, lo: nat, b: Slots, at: nat, n: nat)
    requires lo + n <= |a| && at + n <= |b|
    requires forall i :: at <= i < at + n ==> (b[i].Some? <==> a[i - at + lo].Some?)
    ensures Present(a, lo, lo + n) == Present(b, at, at + n)
  {
    if n > 0 {
      PresentShift(a, lo, b, at, n - 1);
      assert b[at + n - 1].Some? <==> a[lo + n - 1].Some?;
    }
  }

  lemma GroupMissingCount(c: Cut, shards: Slots, padded: Slots, g: nat)
    requires ValidCut(c) && PaddedOf(c, shards, padded) && g < GroupCount(c.k)
    requires GroupAt(c.k, c.m, g).dataStart + GroupAt(c.k, c.m, g).dataLen <= c.k
    ensures var group, slots := GroupAt(c.k, c.m, g), GroupSlots(padded, c.k, g);
      |Missing(slots, group.dataLen)|
        == group.dataLen - Present(shards, group.dataStart, group.dataStart + group.dataLen)
  {
    hide GroupAt, GroupCount, FullPayload, Missing, ValidCut;
    var group, slots := GroupAt(c.k, c.m, g), GroupSlots(padded, c.k, g);
    LayoutTiles(c.k, c.m, g);
    MissingCount(slots, group.dataLen);
    forall i | 0 <= i < 0 + group.dataLen ensures slots[i].Some? <==> shards[i - 0 + group.dataStart].Some? {
      assert slots[i] == padded[group.dataStart + i];
    }
    PresentShift(shards, group.dataStart, slots, 0, group.dataLen);
  }

  lemma GroupParityCount(c: Cut, shards: Slots, padded: Slots, g: nat)
    requires ValidCut(c) && PaddedOf(c, shards, padded) && g < GroupCount(c.k)
    requires GroupAt(c.k, c.m, g).parityStart + GroupAt(c.k, c.m, g).parityLen <= |shards|
    ensures var group, slots := GroupAt(c.k, c.m, g), GroupSlots(padded, c.k, g);
      |PresentParity(slots, group.dataLen, |slots|)|
        == Present(shards, group.parityStart, group.parityStart + group.parityLen)
  {
    hide GroupAt, GroupCount, FullPayload, PresentParity, ValidCut;
    var group, slots := GroupAt(c.k, c.m, g), GroupSlots(padded, c.k, g);
    LayoutTiles(c.k, c.m, g);
    PresentParityCount(slots, group.dataLen, |slots|);
    forall i | group.dataLen <= i < group.dataLen + group.parityLen
      ensures slots[i].Some? <==> shards[i - group.dataLen + group.parityStart].Some?
    {
      assert slots[i] == padded[i - group.dataLen + group.parityStart];
    }
    PresentShift(shards, group.parityStart, slots, group.dataLen, group.parityLen);
  }

  /** A group is decoded exactly when enough of its shards are present, and then to the sender's shards. */
  lemma GroupDataIs(c: Cut, shards: Slots, padded: Slots, g: nat)
    requires ValidCut(c) && PaddedOf(c, shards, padded) && g < GroupCount(c.k) && |c.frame| > 0
    ensures GroupData(padded, c.k, g) == if GroupRecoverable(shards, c.k, g) then Some(GroupPieces(c, g)) else None
  {
    hide GroupAt, GroupCount, FullPayload, Decode, PaddedShards, Erased, Missing, PresentParity, ChunkCount, GroupsFit;
    var group, slots, pieces := GroupAt(c.k, c.m, g), GroupSlots(padded, c.k, g), GroupPieces(c, g);
    LayoutTiles(c.k, c.m, g);
    GroupSlotsErased(c, shards, padded, g);
    GroupMissingCount(c, shards, padded, g);
    GroupParityCount(c, shards, padded, g);
    assert |pieces| == group.dataLen && Len(c) > 0;
    AnyKOfN(slots, pieces, Len(c));
    var data := padded[group.dataStart..group.dataStart + group.dataLen];
    if AllSome(data) {
      AllPresentGroup(c, shards, padded, g);
    }
  }

  lemma AllPresentGroup(c: Cut, shards: Slots, padded: Slots, g: nat)
    requires ValidCut(c) && PaddedOf(c, shards, padded) && g < GroupCount(c.k)
    requires GroupAt(c.k, c.m, g).dataStart + GroupAt(c.k, c.m, g).dataLen <= c.k
    requires var group := GroupAt(c.k, c.m, g); AllSome(padded[group.dataStart..group.dataStart + group.dataLen])
    ensures var group := GroupAt(c.k, c.m, g);
      && Values(padded[group.dataStart..group.dataStart + group.dataLen]) == GroupPieces(c, g)
      && Present(shards, group.dataStart, group.dataStart + group.dataLen) == group.dataLen
  {
    hide GroupAt, GroupCount, PaddedShard, ChunkCount, GroupsFit;
    var group := GroupAt(c.k, c.m, g);
    var data := padded[group.dataStart..group.dataStart + group.dataLen];
    forall i | group.dataStart <= i < group.dataStart + group.dataLen ensures shards[i].Some? {
      assert data[i - group.dataStart].Some?;
    }
    PresentFull(shards, group.dataStart, group.dataStart + group.dataLen);
    forall i | 0 <= i < group.dataLen ensures Values(data)[i] == GroupPieces(c, g)[i] {
      assert data[i] == padded[group.dataStart + i];
    }
  }

  // ---------- The whole frame ----------

  ghost predicate RecoverableUpTo(shards: Slots, k: nat, n: nat)
    requires k <= |shards| && n <= GroupCount(k)
  {
    forall g :: 0 <= g < n ==> GroupRecoverable(shards, k, g)
  }

  lemma {:induction false} FirstGroupsIs(c: Cut, shards: Slots, padded: Slots, n: nat)
    requires ValidCut(c) && PaddedOf(c, shards, padded) && n <= GroupCount(c.k) && |c.frame| > 0
    ensures FirstGroups(padded, c.k, n) ==
      if RecoverableUpTo(shards, c.k, n)
      then Some(PaddedShards(c.frame, c.maxPayload, 0, GroupAt(c.k, c.m, n).dataStart)) else None
  {
    hide GroupAt, GroupCount, GroupData, GroupRecoverable, PaddedOf, PaddedShard, ValidCut;
    LayoutTiles(c.k, c.m, 0);
    if n > 0 {
      FirstGroupsIs(c, shards, padded, n - 1);
      GroupDataIs(c, shards, padded, n - 1);
      LayoutTiles(c.k, c.m, n - 1);
      var start, len := GroupAt(c.k, c.m, n - 1).dataStart, GroupAt(c.k, c.m, n - 1).dataLen;
      assert PaddedShards(c.frame, c.maxPayload, 0, start) + PaddedShards(c.frame, c.maxPayload, start, len)
          == PaddedShards(c.frame, c.maxPayload, 0, start + len);
    }
  }

  /** Padding only lengthens the last piece, past the end of the frame. */
  lemma {:induction false} PaddedShardsConcat(c: Cut, n: nat)
    requires ValidCut(c) && |c.frame| > 0 && n < c.k
    ensures Concat(PaddedShards(c.frame, c.maxPayload, 0, n)) == Concat(DataShards(c.frame, c.maxPayload, n))
  {
    hide ChunkCount, GroupsFit, DataShard, ShardLen;
    if n > 0 {
      PaddedShardsConcat(c, n - 1);
      ChunkCountBounds(|c.frame|, c.maxPayload);
      FullShard(c.frame, c.maxPayload, n - 1, c.k);
      PaddedIs(DataShard(c.frame, c.maxPayload, n - 1), Len(c));
      var p, d := PaddedShards(c.frame, c.maxPayload, 0, n), DataShards(c.frame, c.maxPayload, n);
      assert p[..n - 1] == PaddedShards(c.frame, c.maxPayload, 0, n - 1);
      assert d[..n - 1] == DataShards(c.frame, c.maxPayload, n - 1);
    }
  }

  lemma TrimmedIsFrame(c: Cut)
    requires ValidCut(c) && |c.frame| > 0
    ensures Truncated(Concat(PaddedShards(c.frame, c.maxPayload, 0, c.k)), |c.frame|) == c.frame
  {
    hide ChunkCount, GroupsFit, DataShard;
    var n := c.k - 1;
    PaddedShardsConcat(c, n);
    DataCoversFrame(c.frame, c.maxPayload);
    var p, d := PaddedShards(c.frame, c.maxPayload, 0, c.k), DataShards(c.frame, c.maxPayload, c.k);
    assert p[..n] == PaddedShards(c.frame, c.maxPayload, 0, n);
    assert d[..n] == DataShards(c.frame, c.maxPayload, n);
    PaddedIs(DataShard(c.frame, c.maxPayload, n), Len(c));
    assert c.frame == Concat(d[..n]) + DataShard(c.frame, c.maxPayload, n);
  }

  /** With data missing and no parity at hand, some group cannot be recovered. */
  lemma NoParityNotRecoverable(shards: Slots, k: nat, missing: nat)
    requires missing < k <= |shards| && shards[missing].None?
    requires forall i :: k <= i < |shards| ==> shards[i].None?
    ensures exists g :: 0 <= g < GroupCount(k) && !GroupRecoverable(shards, k, g)
  {
    hide GroupCount, PartStart, PartLen;
    var m := |shards| - k;
    PartStartEnd(k, GroupCount(k));
    var g := PartOf(k, GroupCount(k), missing, GroupCount(k));
    LayoutTiles(k, m, g);
    var group := GroupAt(k, m, g);
    PresentFull(shards, group.dataStart, group.dataStart + group.dataLen);
    PresentNone(shards, group.parityStart, group.parityStart + group.parityLen);
    assert !GroupRecoverable(shards, k, g);
  }

  lemma SomethingMissing(c: Cut, p: Pending)
    requires ValidCut(c) && EntryOf(c, p) && WellFormed(p) && !CompleteDirect(p)
    ensures exists i :: 0 <= i < c.k && p.shards[i].None?
  {
    PresentFull(p.shards, 0, c.k);
  }

  /** Rebuilding a frame with data missing succeeds exactly when every group is recoverable, and then
      yields the sender's bytes. */
  lemma ReconstructedIs(c: Cut, p: Pending)
    requires ValidCut(c) && EntryOf(c, p) && WellFormed(p) && !CompleteDirect(p)
    ensures Reconstructed(p) == if Recoverable(p) then Some(c.frame) else None
  {
    hide GroupRecoverable, FirstGroups, LongestBut, PadSlots, GroupCount, PaddedShards, Present, SlotsOf, ValidCut,
         Truncated;
    SomethingMissing(c, p);
    var missing :| 0 <= missing < c.k && p.shards[missing].None?;
    var longest := LongestBut(p.shards, c.k - 1, |p.shards|);
    if forall i :: c.k <= i < |p.shards| ==> p.shards[i].None? {
      NoParityNotRecoverable(p.shards, c.k, missing);
    }
    if |p.shards| > c.k {
      FrameNonempty(c);
      SlotsOfLength(c, p.shards);
      LongestOf(c, p.shards, |p.shards|);
      if longest.Some? {
        var padded := PadSlots(p.shards, Len(c), c.k - 1);
        PaddedIsPadded(c, p.shards);
        FirstGroupsIs(c, p.shards, padded, GroupCount(c.k));
        LayoutTiles(c.k, c.m, GroupCount(c.k) - 1);
        TrimmedIsFrame(c);
      }
    }
  }

  lemma FrameNonempty(c: Cut)
    requires ValidCut(c)
    ensures c.m > 0 ==> |c.frame| > 0
    ensures c.k >= 1
  {
  }

  lemma SlotsOfLength(c: Cut, shards: Slots)
    requires ValidCut(c) && SlotsOf(c, shards)
    ensures |shards| == c.k + c.m && Len(c) > 0
  {
  }

  lemma PaddedIsPadded(c: Cut, shards: Slots)
    requires ValidCut(c) && SlotsOf(c, shards) && |c.frame| > 0
    ensures PaddedOf(c, shards, PadSlots(shards, Len(c), c.k - 1))
  {
    hide FullPayload, PadSlots, ValidCut;
    SlotsOfLength(c, shards);
    PadSlotsLength(shards, Len(c), c.k - 1);
    forall i | 0 <= i < |shards|
      ensures PadSlots(shards, Len(c), c.k - 1)[i] == if shards[i].Some? then Some(FullPayload(c, i)) else None
    {
      PaddedSlot(c, shards, i);
    }
  }

  lemma PadSlotsLength(shards: Slots, len: nat, last: int)
    ensures |PadSlots(shards, len, last)| == |shards|
  {
  }

  // ---------- When an entry completes ----------

  lemma {:induction false} PresentSplit(shards: Slots, lo: nat, mid: nat, hi: nat)
    requires lo <= mid <= hi <= |shards|
    ensures Present(shards, lo, hi) == Present(shards, lo, mid) + Present(shards, mid, hi)
    decreases hi
  {
    if mid < hi {
      PresentSplit(shards, lo, mid, hi - 1);
    }
  }

  /** Enough shards in each of the first n groups add up to enough shards. */
  lemma {:induction false} RecoverableCounts(shards: Slots, k: nat, n: nat)
    requires k <= |shards| && n <= GroupCount(k) && RecoverableUpTo(shards, k, n)
    requires GroupAt(k, |shards| - k, n).dataStart <= k <= GroupAt(k, |shards| - k, n).parityStart <= |shards|
    ensures Present(shards, 0, GroupAt(k, |shards| - k, n).dataStart)
          + Present(shards, k, GroupAt(k, |shards| - k, n).parityStart) >= GroupAt(k, |shards| - k, n).dataStart
  {
    hide GroupAt, GroupCount, Present;
    var m := |shards| - k;
    if n == 0 {
      LayoutTiles(k, m, 0);
    } else {
      LayoutTiles(k, m, n - 1);
      RecoverableCounts(shards, k, n - 1);
      var group := GroupAt(k, m, n - 1);
      assert GroupRecoverable(shards, k, n - 1);
      PresentSplit(shards, 0, group.dataStart, group.dataStart + group.dataLen);
      PresentSplit(shards, k, group.parityStart, group.parityStart + group.parityLen);
    }
  }

  /** A recoverable frame has received at least as many shards as it has data shards. */
  lemma RecoverableImpliesCount(shards: Slots, k: nat)
    requires k <= |shards| && RecoverableUpTo(shards, k, GroupCount(k))
    ensures Present(shards, 0, |shards|) >= k
  {
    hide GroupAt, GroupCount, Present, RecoverableUpTo;
    FrameRebuild.GroupCountPositive(k);
    LayoutTiles(k, |shards| - k, GroupCount(k) - 1);
    RecoverableCounts(shards, k, GroupCount(k));
    PresentSplit(shards, 0, k, |shards|);
  }

  /** The number of shards of a group that are in. */
  ghost function GroupPresent(shards: Slots, k: nat, g: nat): nat
    requires k <= |shards| && g < GroupCount(k)
  {
    LayoutTiles(k, |shards| - k, g);
    var group := GroupAt(k, |shards| - k, g);
    Present(shards, group.dataStart, group.dataStart + group.dataLen)
    + Present(shards, group.parityStart, group.parityStart + group.parityLen)
  }

  ghost predicate EveryGroupHasEnough(shards: Slots, k: nat)
    requires k <= |shards|
  {
    forall g :: 0 <= g < GroupCount(k) ==> GroupPresent(shards, k, g) >= GroupAt(k, |shards| - k, g).dataLen
  }

  lemma RecoverableIsEnough(shards: Slots, k: nat)
    requires k <= |shards|
    ensures RecoverableUpTo(shards, k, GroupCount(k)) <==> EveryGroupHasEnough(shards, k)
  {
    hide GroupAt, GroupCount, Present;
    forall g | 0 <= g < GroupCount(k)
      ensures GroupRecoverable(shards, k, g) <==> GroupPresent(shards, k, g) >= GroupAt(k, |shards| - k, g).dataLen
    {
      LayoutTiles(k, |shards| - k, g);
    }
  }

  lemma AllDataIsRecoverable(shards: Slots, k: nat)
    requires k <= |shards| && forall i :: 0 <= i < k ==> shards[i].Some?
    ensures RecoverableUpTo(shards, k, GroupCount(k))
  {
    hide GroupAt, GroupCount, Present;
    forall g | 0 <= g < GroupCount(k) ensures GroupRecoverable(shards, k, g) {
      LayoutTiles(k, |shards| - k, g);
      var group := GroupAt(k, |shards| - k, g);
      PresentFull(shards, group.dataStart, group.dataStart + group.dataLen);
    }
  }

  /** An entry completes exactly when every group has enough of its shards: the count filter in front of
      the group check never delays it. */
  lemma CompletesExactlyWhen(c: Cut, p: Pending)
    requires ValidCut(c) && EntryOf(c, p) && WellFormed(p)
    ensures Completes(p) <==> EveryGroupHasEnough(p.shards, c.k)
  {
    hide GroupCount, Present, GroupRecoverable, EveryGroupHasEnough, ValidCut;
    SlotsOfLength(c, p.shards);
    CutBounds(c);
    RecoverableIsEnough(p.shards, c.k);
    if RecoverableUpTo(p.shards, c.k, GroupCount(c.k)) {
      RecoverableImpliesCount(p.shards, c.k);
      PresentAtMost(p.shards);
    }
    if CompleteDirect(p) {
      PresentFull(p.shards, 0, c.k);
      AllDataIsRecoverable(p.shards, c.k);
    }
  }

  lemma CutBounds(c: Cut)
    requires ValidCut(c)
    ensures c.k + c.m <= 0xffff
  {
  }

  lemma PresentAtMost(shards: Slots)
    ensures Present(shards, 0, |shards|) <= |shards|
  {
  }

  /** A complete entry of a frame yields the frame's bytes. */
  lemma CompletedBytes(c: Cut, p: Pending)
    requires ValidCut(c) && EntryOf(c, p) && WellFormed(p)
    ensures CompleteDirect(p) ==> Assembled(p.shards, p.dataCount) == c.frame
    ensures Completes(p) && !CompleteDirect(p) ==> Reconstructed(p) == Some(c.frame)
  {
    hide ValidCut, SlotsOf, Recoverable, Reconstructed, Assembled, Present;
    if CompleteDirect(p) {
      AssembledIsFrame(c, p);
    } else if Completes(p) {
      ReconstructedIs(c, p);
    }
  }

  // ---------- Sender, network, receiver ----------

  datatype SentFrame = SentFrame(data: Bytes, template: VideoHeader, maxDatagram: nat, permille: nat)

  ghost function Sent(f: SentFrame): ChunkOutcome {
    Chunked(f.template, f.data, f.maxDatagram, f.permille)
  }

  /** Frames that were chunked into datagrams, under their own wire ids. */
  ghost predicate GoodSender(sent: map<u32, SentFrame>) {
    forall id :: id in sent ==>
      sent[id].template.frameId == id && Sent(sent[id]).Datagrams? && |sent[id].data| < 0x1_0000_0000
  }

  ghost function CutOf(f: SentFrame): (c: Cut)
    requires Sent(f).Datagrams? && |f.data| < 0x1_0000_0000
    ensures ValidCut(c) && |Sent(f).all| == c.k + c.m
  {
    var maxPayload := MaxPayload(f.maxDatagram);
    ChunkCountPositive(|f.data|, maxPayload);
    var k := ChunkCount(|f.data|, maxPayload);
    ChosenGroupsFit(k, f.permille);
    Cut(f.data, maxPayload, k, ParityCount(k, f.permille))
  }

  /** A parsed datagram that one of the sent frames produced, whatever its sequence number. */
  ghost predicate Genuine(sent: map<u32, SentFrame>, a: Arrival)
    requires GoodSender(sent)
  {
    && a.header.frameId in sent
    && var f := sent[a.header.frameId];
       var c := CutOf(f);
       && a.header.chunkIndex < c.k + c.m
       && a.header ==
            HeaderFor(f.template, |f.data|, c.k, c.m, a.header.chunkIndex).(transportSeq := a.header.transportSeq)
       && a.payload == PayloadOf(c, a.header.chunkIndex)
  }

  /** Exactly the sent bytes, kind and capture time. */
  ghost predicate IsSent(sent: map<u32, SentFrame>, f: CompletedFrame) {
    && f.frameId in sent
    && f.data == sent[f.frameId].data
    && f.kind == sent[f.frameId].template.kind
    && f.captureTs == sent[f.frameId].template.captureTs
  }

  ghost predicate FaithfulEntry(f: SentFrame, p: Pending)
    requires Sent(f).Datagrams? && |f.data| < 0x1_0000_0000
  {
    EntryOf(CutOf(f), p) && p.epoch == f.template.sessionEpoch && WellFormed(p)
  }

  ghost predicate Faithful(sent: map<u32, SentFrame>, s: State)
    requires GoodSender(sent)
  {
    && (forall id :: id in s.pending ==> id in sent && FaithfulEntry(sent[id], s.pending[id]))
    && (forall i :: 0 <= i < |s.held| ==> IsSent(sent, s.held[i]))
  }

  lemma GenuineHeader(sent: map<u32, SentFrame>, a: Arrival)
    requires GoodSender(sent) && Genuine(sent, a)
    ensures var f := sent[a.header.frameId];
      var c := CutOf(f);
      && ValidHeader(a.header)
      && a.header.chunkCount == c.k && a.header.parityCount == c.m && a.header.frameLen == |f.data|
      && a.header.sessionEpoch == f.template.sessionEpoch && a.header.kind == f.template.kind
      && a.header.captureTs == f.template.captureTs
      && c.frame == f.data
  {
    hide ChunkCount, ParityCount, GroupsFit, PayloadOf, ShardPayload;
  }

  /** Storing a genuine shard keeps the entry faithful, and never restarts it. */
  lemma EntryFaithful(sent: map<u32, SentFrame>, s: State, a: Arrival)
    requires GoodSender(sent) && Faithful(sent, s) && Genuine(sent, a) && ValidHeader(a.header)
    ensures FaithfulEntry(sent[a.header.frameId], Entry(s, a.header, a.payload))
  {
    hide CutOf, PayloadOf, WellFormed, Sent, ValidCut;
    GenuineHeader(sent, a);
    var h, f := a.header, sent[a.header.frameId];
    assert AllWellFormed(s);
    EntryWellFormed(s, h, a.payload);
    if h.frameId in s.pending {
      assert FaithfulEntry(f, s.pending[h.frameId]);
    }
  }

  lemma {:induction false} DrainedFaithful(sent: map<u32, SentFrame>, s: State)
    requires GoodSender(sent) && Faithful(sent, s)
    ensures Faithful(sent, Drained(s).0)
    ensures forall i :: 0 <= i < |Drained(s).1| ==> IsSent(sent, Drained(s).1[i])
    decreases |s.held|
  {
    hide IsSent, FaithfulEntry, Blocked, Forced, GoodSender, Older;
    if |s.held| > 0 && !(Blocked(s, s.held[0].frameId) && !Forced(s)) {
      DrainedFaithful(sent, Released(s));
    }
  }

  ghost predicate Contains(held: seq<CompletedFrame>, f: CompletedFrame) {
    exists i :: 0 <= i < |held| && held[i] == f
  }

  lemma InsertedContains(held: seq<CompletedFrame>, f: CompletedFrame)
    ensures Contains(Inserted(held, f), f)
  {
    hide InsertPosition;
    assert Inserted(held, f)[InsertPosition(held, f.frameId)] == f;
  }

  /** A genuine shard completes its frame exactly when every group now has enough shards; the completed
      frame then carries the sent bytes. */
  lemma AbsorbedFaithful(sent: map<u32, SentFrame>, s: State, a: Arrival)
    requires GoodSender(sent) && Faithful(sent, s) && Genuine(sent, a) && ValidHeader(a.header)
    ensures Faithful(sent, Absorbed(s, a.header, a.payload))
    ensures var f := sent[a.header.frameId];
      var frame := CompletedFrame(a.header.frameId, f.template.kind, f.template.captureTs, f.data);
      EveryGroupHasEnough(Entry(s, a.header, a.payload).shards, CutOf(f).k) ==>
        Absorbed(s, a.header, a.payload).held == Inserted(s.held, frame)
        && Contains(Absorbed(s, a.header, a.payload).held, frame)
        && a.header.frameId !in Absorbed(s, a.header, a.payload).pending
        && Absorbed(s, a.header, a.payload).dropped == s.dropped
    ensures !EveryGroupHasEnough(Entry(s, a.header, a.payload).shards, CutOf(sent[a.header.frameId]).k) ==>
      Absorbed(s, a.header, a.payload).held == s.held
  {
    hide Entry, CutOf, WellFormed, Completes, CompleteDirect, Reconstructed, Assembled, Inserted, EveryGroupHasEnough,
         PayloadOf, ValidCut, SlotsOf, Sent, IsVictim;
    var h, f := a.header, sent[a.header.frameId];
    GenuineHeader(sent, a);
    EntryFaithful(sent, s, a);
    var p := Entry(s, h, a.payload);
    CompletesExactlyWhen(CutOf(f), p);
    if Completes(p) {
      CompletedBytes(CutOf(f), p);
      var frame := CompletedFrame(h.frameId, h.kind, h.captureTs, f.data);
      InsertedContains(s.held, frame);
      InsertedElements(s.held, frame);
      assert Absorbed(s, h, a.payload).held == Inserted(s.held, frame);
    }
  }

  lemma InsertedElements(held: seq<CompletedFrame>, f: CompletedFrame)
    ensures forall i :: 0 <= i < |Inserted(held, f)| ==> Inserted(held, f)[i] == f || Inserted(held, f)[i] in held
  {
    hide InsertPosition;
  }

  lemma PushedFaithful(sent: map<u32, SentFrame>, s: State, a: Arrival)
    requires GoodSender(sent) && Faithful(sent, s) && Genuine(sent, a) && ValidHeader(a.header)
    ensures Faithful(sent, Pushed(s, a.header, a.payload).0)
    ensures forall i :: 0 <= i < |Pushed(s, a.header, a.payload).1| ==>
      IsSent(sent, Pushed(s, a.header, a.payload).1[i])
  {
    hide Faithful, IsSent, Absorbed, Drained, Ignored, Genuine, GoodSender, Entry;
    if !Ignored(s, a.header.frameId) {
      AbsorbedFaithful(sent, s, a);
      DrainedFaithful(sent, Absorbed(s, a.header, a.payload));
    }
  }

  /** A copy of a datagram of one of the frames, stamped with any sequence number. */
  ghost predicate FromSender(sent: map<u32, SentFrame>, d: Bytes)
    requires GoodSender(sent)
  {
    exists id, i, s: u32 :: id in sent && 0 <= i < |Sent(sent[id]).all| && SEQ_OFFSET + 4 <= |Sent(sent[id]).all[i]|
      && d == Stamped(Sent(sent[id]).all[i], s)
  }

  /** What the receive loop feeds to the reassembler: the datagrams that parse, in arrival order. */
  ghost function Parsed(wire: seq<Bytes>): (a: seq<Arrival>)
    ensures ValidArrivals(a)
  {
    if |wire| == 0 then []
    else
      var d := wire[|wire| - 1];
      var before := Parsed(wire[..|wire| - 1]);
      if Parse(d).Ok? then
        ParseEncode(d, Parse(d).value.0, Parse(d).value.1);
        before + [Arrival(Parse(d).value.0, Parse(d).value.1)]
      else before
  }

  lemma FromSenderIsGenuine(sent: map<u32, SentFrame>, d: Bytes)
    requires GoodSender(sent) && FromSender(sent, d)
    ensures Parse(d).Ok? && Genuine(sent, Arrival(Parse(d).value.0, Parse(d).value.1))
  {
    hide ChunkCount, ParityCount, GroupsFit, ShardPayload, Stamped, Parse, Encode;
    var id, i, s: u32 :| id in sent && 0 <= i < |Sent(sent[id]).all| && SEQ_OFFSET + 4 <= |Sent(sent[id]).all[i]|
      && d == Stamped(Sent(sent[id]).all[i], s);
    var f := sent[id];
    var c := CutOf(f);
    var h := HeaderFor(f.template, |f.data|, c.k, c.m, i);
    StampedParses(h, PayloadOf(c, i), s);
  }

  /** One more datagram: nothing new for the reassembler, or one more arrival. */
  lemma ParsedStep(wire: seq<Bytes>)
    requires |wire| > 0
    ensures var d, before := wire[|wire| - 1], Parsed(wire[..|wire| - 1]);
      if Parse(d).Ok?
      then Parsed(wire) == before + [Arrival(Parse(d).value.0, Parse(d).value.1)]
      else Parsed(wire) == before
  {
    hide Parse;
  }

  lemma RunStep(arrivals: seq<Arrival>, a: Arrival)
    requires ValidArrivals(arrivals) && ValidHeader(a.header)
    ensures ValidArrivals(arrivals + [a])
    ensures var (s', out) := Pushed(Run(arrivals).0, a.header, a.payload);
      Run(arrivals + [a]) == (s', Run(arrivals).1 + out)
  {
    hide Pushed;
    var all := arrivals + [a];
    assert all[..|all| - 1] == arrivals;
  }

  /** For any frames, and any interleaving, reordering, duplication, retransmission and loss of their
      datagrams, mixed with datagrams that do not parse: every released frame is one that was sent. */
  lemma {:induction false} ReleasedIsSent(sent: map<u32, SentFrame>, wire: seq<Bytes>)
    requires GoodSender(sent)
    requires forall i :: 0 <= i < |wire| ==> FromSender(sent, wire[i]) || Parse(wire[i]).Err?
    ensures Faithful(sent, Run(Parsed(wire)).0)
    ensures forall i :: 0 <= i < |Run(Parsed(wire)).1| ==> IsSent(sent, Run(Parsed(wire)).1[i])
  {
    hide GoodSender, Parse, Pushed, IsSent, Genuine, FromSender, Parsed, Run;
    if |wire| == 0 {
      NothingReceived(wire);
    } else {
      var n := |wire| - 1;
      ReleasedIsSent(sent, wire[..n]);
      ParsedStep(wire);
      if Parse(wire[n]).Ok? {
        FromSenderIsGenuine(sent, wire[n]);
        var a := Arrival(Parse(wire[n]).value.0, Parse(wire[n]).value.1);
        ParseEncode(wire[n], a.header, a.payload);
        RunStep(Parsed(wire[..n]), a);
        PushedFaithful(sent, Run(Parsed(wire[..n])).0, a);
      }
    }
  }

  lemma NothingReceived(wire: seq<Bytes>)
    requires |wire| == 0
    ensures Run(Parsed(wire)) == (InitialState(), [])
  {
  }
}
