/** Splitting one encoded frame into data and parity datagrams
    (crates/protocol/src/datagram.rs, `chunk_video_frame`). */
module Chunker {
  import opened Wrappers
  import opened Arithmetic
  import opened GaloisField
  import opened ByteStrings
  import opened ErasureCode
  import opened GroupLayout
  import opened Datagram

  datatype ChunkError = DatagramTooSmall | TooManyChunks(count: nat)

  /** Panicked: the code takes the last element of an empty list. */
  datatype ChunkOutcome = Datagrams(all: seq<Bytes>) | Rejected(error: ChunkError) | Panicked

  function MaxPayload(maxDatagram: nat): nat {
    if maxDatagram <= VIDEO_HEADER_LEN then 0 else maxDatagram - VIDEO_HEADER_LEN
  }

  /** Data shards of a frame, at least one. */
  function ChunkCount(frameLen: nat, maxPayload: nat): nat
    requires maxPayload > 0
  {
    Max(DivCeil(frameLen, maxPayload), 1)
  }

  /** Parity shards for a frame of count data shards, within the wire and field limits. */
  function ParityCount(count: nat, permille: nat): (m: nat)
    requires 1 <= count <= 0xffff
    ensures m <= 255 && count + m <= 0xffff
    ensures count <= MAX_GROUP_DATA ==> count + m <= 255
  {
    var wanted := if permille == 0 then 0 else Max(DivCeil(count * permille, 1000), 1);
    var capped := Min(Min(wanted, 255), 0xffff - count);
    if count <= MAX_GROUP_DATA && count + capped > 255 then 0 else capped
  }

  // ---------- Shard contents ----------

  /** The i-th piece of at most maxPayload bytes. */
  function DataShard(frame: Bytes, maxPayload: nat, i: nat): (s: Bytes)
    ensures |s| <= maxPayload && |s| <= |frame|
  {
    var lo, hi := Min(i * maxPayload, |frame|), Min(i * maxPayload + maxPayload, |frame|);
    frame[lo..hi]
  }

  /** Common length of the shards the parity is computed over. */
  function ShardLen(frame: Bytes, maxPayload: nat): nat {
    Max(Min(|frame|, maxPayload), 1)
  }

  function PaddedShard(frame: Bytes, maxPayload: nat, i: nat): (s: Bytes)
    ensures |s| == ShardLen(frame, maxPayload)
  {
    Padded(DataShard(frame, maxPayload, i), ShardLen(frame, maxPayload))
  }

  ghost function PaddedShards(frame: Bytes, maxPayload: nat, start: nat, n: nat): (s: seq<Bytes>)
    ensures |s| == n && EqualLengths(s, ShardLen(frame, maxPayload))
  {
    var s := seq(n, c requires 0 <= c < n => PaddedShard(frame, maxPayload, start + c));
    assert forall c :: 0 <= c < n ==> s[c] == PaddedShard(frame, maxPayload, start + c);
    s
  }

  ghost predicate InParityGroup(k: nat, m: nat, i: nat, g: nat) {
    && g < GroupCount(k)
    && GroupAt(k, m, g).parityStart <= i < GroupAt(k, m, g).parityStart + GroupAt(k, m, g).parityLen
  }

  /** The group a parity index belongs to. */
  ghost function ParityGroup(k: nat, m: nat, i: nat): (g: nat)
    requires k <= i < k + m
    ensures InParityGroup(k, m, i, g)
  {
    ParityGroupExists(k, m, i);
    var g :| InParityGroup(k, m, i, g);
    g
  }

  lemma ParityGroupExists(k: nat, m: nat, i: nat)
    requires k <= i < k + m
    ensures exists g :: InParityGroup(k, m, i, g)
  {
    var groups := GroupCount(k);
    PartStartEnd(m, groups);
    var g := PartOf(m, groups, i - k, groups);
    assert InParityGroup(k, m, i, g);
  }

  lemma ParityGroupIs(k: nat, m: nat, g: nat, j: nat)
    requires g < GroupCount(k) && j < GroupAt(k, m, g).parityLen
    ensures var i := GroupAt(k, m, g).parityStart + j; k <= i < k + m && ParityGroup(k, m, i) == g
  {
    hide PartStart, PartLen, GroupCount;
    LayoutTiles(k, m, g);
    var i := GroupAt(k, m, g).parityStart + j;
    var h := ParityGroup(k, m, i);
    if h < g {
      PartStartNext(m, GroupCount(k), h);
      PartStartMonotone(m, GroupCount(k), h + 1, g);
    } else if g < h {
      PartStartNext(m, GroupCount(k), g);
      PartStartMonotone(m, GroupCount(k), g + 1, h);
    }
  }

  /** Every group fits the code's 255 shards. */
  ghost predicate GroupsFit(k: nat, m: nat) {
    forall g :: 0 <= g < GroupCount(k) ==> GroupAt(k, m, g).dataLen + GroupAt(k, m, g).parityLen <= 255
  }

  /** Parity shard j of group g. */
  ghost function GroupParity(frame: Bytes, maxPayload: nat, k: nat, m: nat, g: nat, j: nat): (p: Bytes)
    requires g < GroupCount(k) && GroupAt(k, m, g).dataLen + j < 256
    ensures |p| == ShardLen(frame, maxPayload)
  {
    var group := GroupAt(k, m, g);
    ParityShard(PaddedShards(frame, maxPayload, group.dataStart, group.dataLen), ShardLen(frame, maxPayload), j)
  }

  /** Payload of shard i of a frame cut into k data and m parity shards. */
  ghost function ShardPayload(frame: Bytes, maxPayload: nat, k: nat, m: nat, i: nat): (p: Bytes)
    requires i < k + m && GroupsFit(k, m)
  {
    if i < k then DataShard(frame, maxPayload, i)
    else
      var g := ParityGroup(k, m, i);
      GroupParity(frame, maxPayload, k, m, g, i - GroupAt(k, m, g).parityStart)
  }

  function HeaderFor(template: VideoHeader, frameLen: nat, k: nat, m: nat, i: nat): VideoHeader
    requires i < 0x1_0000 && k < 0x1_0000 && m < 0x100
  {
    template.(chunkIndex := i, chunkCount := k, parityCount := m, frameLen := frameLen % 0x1_0000_0000)
  }

  /** The parity count chosen for a frame keeps every group inside the code. */
  lemma ChosenGroupsFit(count: nat, permille: nat)
    requires 1 <= count <= 0xffff
    ensures GroupsFit(count, ParityCount(count, permille))
  {
    hide GroupCount, GroupAt, ParityCount;
    var m := ParityCount(count, permille);
    forall g | 0 <= g < GroupCount(count)
      ensures GroupAt(count, m, g).dataLen + GroupAt(count, m, g).parityLen <= 255
    {
      GroupDataBounds(count, m, g);
      if count <= MAX_GROUP_DATA {
        SmallFrameIsOneGroup(count, m);
      } else {
        ParityPerGroup(count, m, g);
      }
    }
  }

  /** What chunking yields: an error, a panic, or one datagram per shard in index order. */
  ghost function Chunked(template: VideoHeader, frame: Bytes, maxDatagram: nat, permille: nat): ChunkOutcome {
    var maxPayload := MaxPayload(maxDatagram);
    if maxPayload == 0 then Rejected(DatagramTooSmall)
    else
      var k := ChunkCount(|frame|, maxPayload);
      if k > 0xffff then Rejected(TooManyChunks(k))
      else
        var m := ParityCount(k, permille);
        if |frame| == 0 && m > 0 then Panicked
        else
          ChosenGroupsFit(k, permille);
          Datagrams(seq(k + m, i requires 0 <= i < k + m =>
            Encode(HeaderFor(template, |frame|, k, m, i), ShardPayload(frame, maxPayload, k, m, i))))
  }

  /** Chunking panics exactly on an empty frame for which parity is due. */
  lemma PanicsExactlyWhen(template: VideoHeader, frame: Bytes, maxDatagram: nat, permille: nat)
    ensures Chunked(template, frame, maxDatagram, permille).Panicked?
       <==> frame == [] && maxDatagram > VIDEO_HEADER_LEN && 0 < permille <= 254_000
  {
    hide ChunkCount, GroupsFit, ParityCount, Encode, HeaderFor, ShardPayload;
    if frame == [] && maxDatagram > VIDEO_HEADER_LEN {
      EmptyFrameIsOneChunk(MaxPayload(maxDatagram));
      SingleShardParity(permille);
    }
  }

  lemma SingleShardParity(permille: nat)
    ensures ParityCount(1, permille) > 0 <==> 0 < permille <= 254_000
  {
  }

  // ---------- The chunker ----------

  lemma ChunkCountBounds(frameLen: nat, maxPayload: nat)
    requires maxPayload > 0
    ensures var k := ChunkCount(frameLen, maxPayload);
      frameLen <= k * maxPayload && (frameLen > 0 ==> (k - 1) * maxPayload < frameLen)
  {
    var k := DivCeil(frameLen, maxPayload);
    var r := (frameLen + maxPayload - 1) % maxPayload;
    assert frameLen + maxPayload - 1 == maxPayload * k + r;
    assert maxPayload * k == k * maxPayload;
    assert k > 0 ==> (k - 1) * maxPayload == k * maxPayload - maxPayload;
  }

  /** The frame cut into pieces of maxPayload bytes, the last one shorter; an empty frame has none. */
  method Pieces(frame: Bytes, maxPayload: nat) returns (pieces: seq<Bytes>)
    requires maxPayload > 0
    ensures |pieces| == if |frame| == 0 then 0 else ChunkCount(|frame|, maxPayload)
    ensures forall i :: 0 <= i < |pieces| ==> pieces[i] == DataShard(frame, maxPayload, i)
  {
    hide ChunkCount, DataShard;
    pieces := [];
    var pos := 0;
    while pos < |frame|
      invariant pos == |pieces| * maxPayload
      invariant |pieces| > 0 ==> (|pieces| - 1) * maxPayload < |frame|
      invariant forall i :: 0 <= i < |pieces| ==> pieces[i] == DataShard(frame, maxPayload, i)
      decreases |frame| - pos
    {
      var i := |pieces|;
      var piece := frame[pos..Min(pos + maxPayload, |frame|)];
      PieceIs(frame, maxPayload, i);
      pieces := pieces + [piece];
      pos := pos + maxPayload;
      NextMultiple(i, maxPayload);
    }
    PiecesCounted(|frame|, maxPayload, |pieces|);
  }

  lemma PieceIs(frame: Bytes, maxPayload: nat, i: nat)
    requires i * maxPayload < |frame|
    ensures frame[i * maxPayload..Min(i * maxPayload + maxPayload, |frame|)] == DataShard(frame, maxPayload, i)
  {
  }

  lemma NextMultiple(i: nat, maxPayload: nat)
    ensures (i + 1) * maxPayload == i * maxPayload + maxPayload
  {
  }

  lemma PiecesCounted(len: nat, maxPayload: nat, n: nat)
    requires maxPayload > 0 && len <= n * maxPayload && (n > 0 ==> (n - 1) * maxPayload < len)
    ensures n == if len == 0 then 0 else ChunkCount(len, maxPayload)
  {
    hide ChunkCount;
    if len > 0 {
      ChunkCountBounds(len, maxPayload);
      ChunkCountPositive(len, maxPayload);
      IndexBelow(n - 1, ChunkCount(len, maxPayload), maxPayload, len);
      IndexBelow(ChunkCount(len, maxPayload) - 1, n, maxPayload, len);
    }
  }

  /** The data datagrams: one per piece, one empty piece for an empty frame. */
  method SendData(template: VideoHeader, frame: Bytes, maxPayload: nat, k: nat, m: nat) returns (out: seq<Bytes>)
    requires maxPayload > 0 && k == ChunkCount(|frame|, maxPayload) <= 0xffff && m < 0x100 && k + m <= 0xffff
    ensures |out| == k
    ensures forall i :: 0 <= i < k ==>
      out[i] == Encode(HeaderFor(template, |frame|, k, m, i), DataShard(frame, maxPayload, i))
  {
    hide Encode, HeaderFor, ChunkCount, DataShard;
    out := [];
    if |frame| == 0 {
      EmptyFrameIsOneChunk(maxPayload);
      var d := EncodeWithPayload(HeaderFor(template, 0, k, m, 0), []);
      out := [d];
    } else {
      var pieces := Pieces(frame, maxPayload);
      for i := 0 to k
        invariant |out| == i
        invariant forall j :: 0 <= j < i ==>
          out[j] == Encode(HeaderFor(template, |frame|, k, m, j), DataShard(frame, maxPayload, j))
      {
        var d := EncodeWithPayload(HeaderFor(template, |frame|, k, m, i), pieces[i]);
        out := out + [d];
      }
    }
  }

  lemma EmptyFrameIsOneChunk(maxPayload: nat)
    requires maxPayload > 0
    ensures ChunkCount(0, maxPayload) == 1
    ensures DataShard([], maxPayload, 0) == []
  {
  }

  lemma IndexBelow(i: nat, k: nat, maxPayload: nat, len: nat)
    requires i * maxPayload < len <= k * maxPayload
    ensures i < k
  {
    if i >= k {
      MulMonotone(k, i, maxPayload, maxPayload);
    }
  }

  /** All but the last piece are full, so padding the last one makes the lengths equal. None is the panic: a short
      last piece is to be replaced in a list that has no pieces. */
  method EqualSizeShards(frame: Bytes, maxPayload: nat) returns (r: Option<seq<Bytes>>)
    requires maxPayload > 0
    ensures r.None? <==> |frame| == 0
    ensures r.Some? ==> |r.value| == ChunkCount(|frame|, maxPayload)
    ensures r.Some? ==> forall i :: 0 <= i < |r.value| ==> r.value[i] == PaddedShard(frame, maxPayload, i)
  {
    hide ChunkCount, Padded, DataShard;
    ChunkCountBounds(|frame|, maxPayload);
    ChunkCountPositive(|frame|, maxPayload);
    var shardLen := ShardLen(frame, maxPayload);
    var shards := Pieces(frame, maxPayload);
    var last := if |shards| > 0 then shards[|shards| - 1] else [];
    PaddedIs(last, shardLen);
    if |last| < shardLen {
      if |shards| == 0 {
        return None;
      }
      shards := shards[|shards| - 1 := last + seq(shardLen - |last|, _ => ZERO)];
    }
    forall i | 0 <= i < |shards| - 1 ensures shards[i] == PaddedShard(frame, maxPayload, i) {
      FullShard(frame, maxPayload, i, |shards|);
      PaddedIs(DataShard(frame, maxPayload, i), shardLen);
    }
    r := Some(shards);
  }

  lemma PaddedIs(s: Bytes, len: nat)
    requires |s| <= len
    ensures Padded(s, len) == s + seq(len - |s|, _ => ZERO)
    ensures |s| == len ==> Padded(s, len) == s
  {
  }

  /** A piece before the last is full. */
  lemma FullShard(frame: Bytes, maxPayload: nat, i: nat, k: nat)
    requires maxPayload > 0 && i + 1 < k && (k - 1) * maxPayload < |frame|
    ensures |DataShard(frame, maxPayload, i)| == maxPayload == ShardLen(frame, maxPayload)
  {
    assert (i + 1) * maxPayload == i * maxPayload + maxPayload;
    MulMonotone(i + 1, k - 1, maxPayload, maxPayload);
  }

  /** The data datagrams followed by the parity datagrams, group after group; None is the panic. */
  method SendParity(template: VideoHeader, frame: Bytes, maxPayload: nat, k: nat, m: nat, data: seq<Bytes>)
      returns (r: Option<seq<Bytes>>)
    requires maxPayload > 0 && k == ChunkCount(|frame|, maxPayload) && m < 0x100 && k + m <= 0xffff
    requires GroupsFit(k, m) && |data| == k
    ensures r.None? <==> |frame| == 0
    ensures r.Some? ==> |r.value| == k + m && r.value[..k] == data
    ensures r.Some? ==> forall i :: k <= i < k + m ==>
      r.value[i] == Encode(HeaderFor(template, |frame|, k, m, i), ShardPayload(frame, maxPayload, k, m, i))
  {
    hide Encode, HeaderFor, ChunkCount, ShardPayload, GroupAt, PaddedShard, ParityShard;
    ChunkCountPositive(|frame|, maxPayload);
    var padded := EqualSizeShards(frame, maxPayload);
    if padded.None? {
      return None;
    }
    var shards := padded.value;
    var layout := Layout(k, m);
    var out := data;
    LayoutTiles(k, m, 0);
    for g := 0 to |layout|
      invariant |out| == GroupAt(k, m, g).parityStart <= k + m
      invariant k <= |out| && out[..k] == data
      invariant forall i :: k <= i < |out| ==>
        out[i] == Encode(HeaderFor(template, |frame|, k, m, i), ShardPayload(frame, maxPayload, k, m, i))
    {
      var group := layout[g];
      LayoutTiles(k, m, g);
      if group.parityLen != 0 {
        var part := shards[group.dataStart..group.dataStart + group.dataLen];
        GroupNonempty(k, m, g);
        assert part == PaddedShards(frame, maxPayload, group.dataStart, group.dataLen);
        var parity := EncodeParity(part, group.parityLen);
        for p := 0 to group.parityLen
          invariant |out| == group.parityStart + p
          invariant k <= |out| && out[..k] == data
          invariant forall i :: k <= i < |out| ==>
            out[i] == Encode(HeaderFor(template, |frame|, k, m, i), ShardPayload(frame, maxPayload, k, m, i))
        {
          GroupParityIs(frame, maxPayload, k, m, g, p);
          var d := EncodeWithPayload(HeaderFor(template, |frame|, k, m, group.parityStart + p), parity[p]);
          out := out + [d];
        }
      }
    }
    LayoutTiles(k, m, |layout| - 1);
    r := Some(out);
  }

  lemma GroupNonempty(k: nat, m: nat, g: nat)
    requires k >= 1 && g < GroupCount(k)
    ensures GroupAt(k, m, g).dataLen >= 1
  {
    GroupDataBounds(k, m, g);
  }

  lemma GroupParityIs(frame: Bytes, maxPayload: nat, k: nat, m: nat, g: nat, p: nat)
    requires GroupsFit(k, m) && g < GroupCount(k) && p < GroupAt(k, m, g).parityLen
    ensures var i := GroupAt(k, m, g).parityStart + p;
      k <= i < k + m && ShardPayload(frame, maxPayload, k, m, i) == GroupParity(frame, maxPayload, k, m, g, p)
  {
    hide GroupAt, GroupCount, GroupParity, ParityGroup;
    ParityGroupIs(k, m, g, p);
  }

  /** Split one frame into datagrams. */
  method ChunkVideoFrame(template: VideoHeader, frame: Bytes, maxDatagram: nat, permille: nat)
      returns (r: ChunkOutcome)
    ensures r == Chunked(template, frame, maxDatagram, permille)
  {
    hide Encode, HeaderFor, ChunkCount, ShardPayload, DataShard, ParityCount, GroupsFit;
    var maxPayload := MaxPayload(maxDatagram);
    if maxPayload == 0 {
      return Rejected(DatagramTooSmall);
    }
    ChunkCountPositive(|frame|, maxPayload);
    var k := ChunkCount(|frame|, maxPayload);
    if k > 0xffff {
      return Rejected(TooManyChunks(k));
    }
    var m := ParityCount(k, permille);
    ChosenGroupsFit(k, permille);
    var out := SendData(template, frame, maxPayload, k, m);
    DataPayloads(frame, maxPayload, k, m);
    if m > 0 {
      var sent := SendParity(template, frame, maxPayload, k, m, out);
      if sent.None? {
        return Panicked;
      }
      out := sent.value;
    }
    r := Datagrams(out);
    ghost var all := Chunked(template, frame, maxDatagram, permille).all;
    forall i | 0 <= i < k + m ensures out[i] == all[i] {
      if i < k {
        assert out[i] == out[..k][i];
      }
    }
    assert out == all;
  }

  lemma ChunkCountPositive(frameLen: nat, maxPayload: nat)
    requires maxPayload > 0
    ensures ChunkCount(frameLen, maxPayload) >= 1
  {
  }

  lemma DataPayloads(frame: Bytes, maxPayload: nat, k: nat, m: nat)
    requires GroupsFit(k, m)
    ensures forall i :: 0 <= i < k ==> ShardPayload(frame, maxPayload, k, m, i) == DataShard(frame, maxPayload, i)
  {
    hide DataShard;
  }

  // ---------- What the datagrams promise ----------

  /** Datagram i fits the limit and parses to the frame's header with its own index and shard. */
  ghost predicate ParsesAs(template: VideoHeader, frame: Bytes, maxDatagram: nat, d: Bytes, i: nat, total: nat) {
    && |d| <= maxDatagram
    && Parse(d).Ok?
    && var (h, payload) := Parse(d).value;
       && h == HeaderFor(template, |frame|, h.chunkCount, h.parityCount, h.chunkIndex)
       && h.chunkIndex == i && TotalShards(h.chunkCount, h.parityCount) == total
       && GroupsFit(h.chunkCount, h.parityCount)
       && maxDatagram > VIDEO_HEADER_LEN && h.chunkCount > 0 && i < total
       && payload == ShardPayload(frame, MaxPayload(maxDatagram), h.chunkCount, h.parityCount, i)
  }

  lemma DatagramsParse(template: VideoHeader, frame: Bytes, maxDatagram: nat, permille: nat)
    ensures var r := Chunked(template, frame, maxDatagram, permille);
      r.Datagrams? ==>
        forall i :: 0 <= i < |r.all| ==> ParsesAs(template, frame, maxDatagram, r.all[i], i, |r.all|)
  {
    hide ParsesAs, Encode, ChunkCount, ShardPayload, ParityCount, GroupsFit, Parse;
    var r := Chunked(template, frame, maxDatagram, permille);
    if r.Datagrams? {
      forall i | 0 <= i < |r.all| ensures ParsesAs(template, frame, maxDatagram, r.all[i], i, |r.all|) {
        DatagramParses(template, frame, maxDatagram, permille, i);
      }
    }
  }

  lemma DatagramParses(template: VideoHeader, frame: Bytes, maxDatagram: nat, permille: nat, i: nat)
    requires Chunked(template, frame, maxDatagram, permille).Datagrams?
    requires i < |Chunked(template, frame, maxDatagram, permille).all|
    ensures var all := Chunked(template, frame, maxDatagram, permille).all;
      ParsesAs(template, frame, maxDatagram, all[i], i, |all|)
  {
    hide Encode, ChunkCount, ShardPayload, ParityCount, GroupsFit, Parse;
    var maxPayload := MaxPayload(maxDatagram);
    ChunkCountPositive(|frame|, maxPayload);
    var k := ChunkCount(|frame|, maxPayload);
    var m := ParityCount(k, permille);
    ChosenGroupsFit(k, permille);
    var h := HeaderFor(template, |frame|, k, m, i);
    var payload := ShardPayload(frame, maxPayload, k, m, i);
    ParseEncode(Encode(h, payload), h, payload);
    PayloadFits(frame, maxPayload, k, m, i);
    EncodeLength(h, payload);
  }

  lemma EncodeLength(h: VideoHeader, payload: Bytes)
    ensures |Encode(h, payload)| == VIDEO_HEADER_LEN + |payload|
  {
  }

  lemma PayloadFits(frame: Bytes, maxPayload: nat, k: nat, m: nat, i: nat)
    requires maxPayload > 0 && i < k + m && GroupsFit(k, m)
    ensures |ShardPayload(frame, maxPayload, k, m, i)| <= maxPayload
  {
    hide GroupAt, GroupCount, DataShard;
  }

  /** k is the least number of pieces, at least one, that hold the frame at what the header leaves of a datagram. */
  ghost predicate FewestPieces(frameLen: nat, maxDatagram: nat, k: nat) {
    && maxDatagram > VIDEO_HEADER_LEN && k >= 1
    && frameLen <= k * (maxDatagram - VIDEO_HEADER_LEN)
    && (k > 1 ==> (k - 1) * (maxDatagram - VIDEO_HEADER_LEN) < frameLen)
  }

  /** No parity when none is asked for, or when a frame of one group would outgrow the code. Else at least one shard,
      and the fewest that make up the asked share of the data shards, unless the count field or the index field
      is full. */
  ghost predicate ParityDue(k: nat, m: nat, permille: nat) {
    if permille == 0 || (k <= MAX_GROUP_DATA && 1000 * (255 - k) < k * permille) then m == 0
    else
      && (1000 * m >= k * permille || m == 255 || k + m == 0xffff)
      && (m > 1 ==> 1000 * (m - 1) < k * permille)
      && (m >= 1 || k == 0xffff)
  }

  lemma ParityCountDue(k: nat, permille: nat)
    requires 1 <= k <= 0xffff
    ensures ParityDue(k, ParityCount(k, permille), permille)
  {
    hide DivCeil;
    ShareRoundedUp(k * permille);
    if permille > 0 {
      MulMonotone(1, k, 1, permille);
      CapsKept(k, k * permille, DivCeil(k * permille, 1000));
    }
  }

  lemma CapsKept(k: nat, share: nat, w: nat)
    requires 1 <= k <= 0xffff && share > 0 && w > 0
    requires share <= 1000 * w && 1000 * (w - 1) < share
    ensures var capped := Min(Min(w, 255), 0xffff - k);
      var m := if k <= MAX_GROUP_DATA && k + capped > 255 then 0 else capped;
      && (k <= MAX_GROUP_DATA && 1000 * (255 - k) < share ==> m == 0)
      && (k > MAX_GROUP_DATA || 1000 * (255 - k) >= share ==>
            && (1000 * m >= share || m == 255 || k + m == 0xffff)
            && (m > 1 ==> 1000 * (m - 1) < share)
            && (m >= 1 || k == 0xffff))
  {
  }

  /** Within the two field limits this leaves one choice. */
  lemma ParityDueUnique(k: nat, m: nat, n: nat, permille: nat)
    requires ParityDue(k, m, permille) && m <= 255 && k + m <= 0xffff
    requires ParityDue(k, n, permille) && n <= 255 && k + n <= 0xffff
    ensures m == n
  {
  }

  lemma ShareRoundedUp(x: nat)
    ensures var w := DivCeil(x, 1000);
      x <= 1000 * w && (w > 0 ==> 1000 * (w - 1) < x) && (x > 0 ==> w > 0)
  {
  }

  /** The datagram repeats the frame's own fields and announces a frame cut as asked into total shards. */
  ghost predicate AnnouncesAsAsked(
      template: VideoHeader, frame: Bytes, maxDatagram: nat, permille: nat, d: Bytes, total: nat) {
    && Parse(d).Ok?
    && var h := Parse(d).value.0;
       && h.frameId == template.frameId && h.kind == template.kind && h.captureTs == template.captureTs
       && h.sessionEpoch == template.sessionEpoch && h.transportSeq == template.transportSeq
       && h.frameLen == |frame| % U32_RANGE
       && FewestPieces(|frame|, maxDatagram, h.chunkCount)
       && ParityDue(h.chunkCount, h.parityCount, permille)
       && h.chunkCount + h.parityCount == total
  }

  /** Every datagram announces the fewest data shards and the parity asked for; a frame is refused exactly when
      nothing fits beside the header, or it needs more pieces than an index can count. */
  lemma CutAsAsked(template: VideoHeader, frame: Bytes, maxDatagram: nat, permille: nat)
    ensures var r := Chunked(template, frame, maxDatagram, permille);
      && (r.Datagrams? ==>
            |r.all| > 0
            && forall i :: 0 <= i < |r.all| ==>
                 AnnouncesAsAsked(template, frame, maxDatagram, permille, r.all[i], |r.all|))
      && (r == Rejected(DatagramTooSmall) <==> maxDatagram <= VIDEO_HEADER_LEN)
      && (r.Rejected? <==>
            maxDatagram <= VIDEO_HEADER_LEN || |frame| > 0xffff * (maxDatagram - VIDEO_HEADER_LEN))
  {
    hide Encode, ChunkCount, ShardPayload, ParityCount, GroupsFit, Parse, FewestPieces, ParityDue;
    var r := Chunked(template, frame, maxDatagram, permille);
    var maxPayload := MaxPayload(maxDatagram);
    if maxPayload > 0 {
      var k := ChunkCount(|frame|, maxPayload);
      ChunkCountPositive(|frame|, maxPayload);
      PiecesFewest(|frame|, maxDatagram, k);
      if k <= 0xffff {
        ParityCountDue(k, permille);
      }
      if r.Datagrams? {
        forall i | 0 <= i < |r.all|
          ensures AnnouncesAsAsked(template, frame, maxDatagram, permille, r.all[i], |r.all|)
        {
          DatagramAnnounces(template, frame, maxDatagram, permille, i);
        }
      }
    }
  }

  lemma PiecesFewest(frameLen: nat, maxDatagram: nat, k: nat)
    requires maxDatagram > VIDEO_HEADER_LEN && k == ChunkCount(frameLen, MaxPayload(maxDatagram))
    ensures FewestPieces(frameLen, maxDatagram, k)
    ensures k > 0xffff <==> frameLen > 0xffff * (maxDatagram - VIDEO_HEADER_LEN)
  {
    hide ChunkCount;
    var maxPayload := MaxPayload(maxDatagram);
    ChunkCountBounds(frameLen, maxPayload);
    ChunkCountPositive(frameLen, maxPayload);
    if frameLen == 0 {
      EmptyFrameIsOneChunk(maxPayload);
    }
    if k > 0xffff {
      MulMonotone(0xffff, k - 1, maxPayload, maxPayload);
    } else {
      MulMonotone(k, 0xffff, maxPayload, maxPayload);
    }
  }

  lemma DatagramAnnounces(template: VideoHeader, frame: Bytes, maxDatagram: nat, permille: nat, i: nat)
    requires Chunked(template, frame, maxDatagram, permille).Datagrams?
    requires i < |Chunked(template, frame, maxDatagram, permille).all|
    ensures var k := ChunkCount(|frame|, MaxPayload(maxDatagram));
      var d := Chunked(template, frame, maxDatagram, permille).all[i];
      && k <= 0xffff && Parse(d).Ok?
      && Parse(d).value.0 == HeaderFor(template, |frame|, k, ParityCount(k, permille), i)
  {
    hide Encode, ChunkCount, ShardPayload, ParityCount, GroupsFit, Parse;
    var maxPayload := MaxPayload(maxDatagram);
    ChunkCountPositive(|frame|, maxPayload);
    var k := ChunkCount(|frame|, maxPayload);
    var m := ParityCount(k, permille);
    ChosenGroupsFit(k, permille);
    var h := HeaderFor(template, |frame|, k, m, i);
    var payload := ShardPayload(frame, maxPayload, k, m, i);
    ParseEncode(Encode(h, payload), h, payload);
  }

  ghost function DataShards(frame: Bytes, maxPayload: nat, n: nat): (s: seq<Bytes>)
    ensures |s| == n
  {
    seq(n, i requires 0 <= i < n => DataShard(frame, maxPayload, i))
  }

  /** The first n pieces are the first n * maxPayload bytes. */
  lemma {:induction false} DataShardsConcat(frame: Bytes, maxPayload: nat, n: nat)
    ensures Concat(DataShards(frame, maxPayload, n)) == frame[..Min(n * maxPayload, |frame|)]
  {
    if n == 0 {
      assert 0 * maxPayload == 0;
    } else {
      DataShardsConcat(frame, maxPayload, n - 1);
      var s := DataShards(frame, maxPayload, n);
      assert s[..n - 1] == DataShards(frame, maxPayload, n - 1);
      assert n * maxPayload == (n - 1) * maxPayload + maxPayload;
    }
  }

  /** The data payloads concatenate to the frame. */
  lemma DataCoversFrame(frame: Bytes, maxPayload: nat)
    requires maxPayload > 0
    ensures Concat(DataShards(frame, maxPayload, ChunkCount(|frame|, maxPayload))) == frame
  {
    hide ChunkCount;
    ChunkCountBounds(|frame|, maxPayload);
    DataShardsConcat(frame, maxPayload, ChunkCount(|frame|, maxPayload));
  }
}
