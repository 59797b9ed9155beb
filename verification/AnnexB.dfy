/** NAL units between their two stream forms: length-prefixed on the codec side, start-code delimited on the wire
    (crates/encode-videotoolbox/src/imp.rs, `sample_to_annex_b`; crates/decode-videotoolbox/src/imp.rs,
    `split_annex_b` and the payload builder in `decode`). */
module AnnexB {
  import opened Wrappers
  import opened Arithmetic
  import opened GaloisField
  import opened ByteStrings
  import opened Datagram

  datatype Codec = H264 | Hevc

  const START_CODE: Bytes := [ZERO, ZERO, ZERO, ONE]

  function NalType(codec: Codec, b: Byte): nat {
    match codec
    case Hevc => Value(b) / 2 % 0x40
    case H264 => Value(b) % 0x20
  }

  predicate IsIdr(codec: Codec, nal: Bytes) {
    |nal| > 0 &&
    match codec
    case Hevc => NalType(codec, nal[0]) in {19, 20}
    case H264 => NalType(codec, nal[0]) == 5
  }

  predicate IsParamSet(codec: Codec, nal: Bytes) {
    |nal| > 0 &&
    match codec
    case Hevc => 32 <= NalType(codec, nal[0]) <= 34
    case H264 => NalType(codec, nal[0]) in {7, 8}
  }

  predicate IsAud(codec: Codec, nal: Bytes) {
    |nal| > 0 &&
    match codec
    case Hevc => NalType(codec, nal[0]) == 35
    case H264 => NalType(codec, nal[0]) == 9
  }

  /** The units meant, by the values of their first byte. */
  lemma UnitTypes(nal: Bytes)
    ensures IsIdr(H264, nal) <==> |nal| > 0 && Value(nal[0]) in {5, 37, 69, 101, 133, 165, 197, 229}
    ensures IsIdr(Hevc, nal) <==> |nal| > 0 && Value(nal[0]) in {38, 39, 40, 41, 166, 167, 168, 169}
    ensures IsParamSet(H264, nal) <==>
      |nal| > 0 && Value(nal[0]) in {7, 8, 39, 40, 71, 72, 103, 104, 135, 136, 167, 168, 199, 200, 231, 232}
    ensures IsParamSet(Hevc, nal) <==> |nal| > 0 && (64 <= Value(nal[0]) <= 69 || 192 <= Value(nal[0]) <= 197)
    ensures IsAud(H264, nal) <==> |nal| > 0 && Value(nal[0]) in {9, 41, 73, 105, 137, 169, 201, 233}
    ensures IsAud(Hevc, nal) <==> |nal| > 0 && Value(nal[0]) in {70, 71, 198, 199}
  {
    hide Value;
    if |nal| > 0 {
      var v := Value(nal[0]);
      ByteBound(nal[0]);
      LowFiveBits(v, 5);
      LowFiveBits(v, 7);
      LowFiveBits(v, 8);
      LowFiveBits(v, 9);
      MiddleSixBits(v, 19);
      MiddleSixBits(v, 20);
    }
  }

  lemma LowFiveBits(v: nat, t: nat)
    requires v < 256 && t < 32
    ensures v % 0x20 == t <==>
      v in {t, t + 32, t + 64, t + 96, t + 128, t + 160, t + 192, t + 224}
  {
    var h := v / 0x20;
    assert v == 0x20 * h + v % 0x20 && h < 8;
  }

  lemma MiddleSixBits(v: nat, t: nat)
    requires v < 256 && t < 64
    ensures v / 2 % 0x40 == t <==> v in {2 * t, 2 * t + 1, 2 * t + 128, 2 * t + 129}
    ensures v / 2 % 0x40 == if v < 128 then v / 2 else v / 2 - 64
  {
  }

  lemma ByteBound(b: Byte)
    ensures Value(b) < 256
  {
  }

  // ---------- The two stream forms ----------

  function Delimited(nals: seq<Bytes>): Bytes {
    if |nals| == 0 then [] else START_CODE + nals[0] + Delimited(nals[1..])
  }

  function Prefixed(nals: seq<Bytes>): Bytes {
    if |nals| == 0 then [] else U32Bytes(|nals[0]| % U32_RANGE) + nals[0] + Prefixed(nals[1..])
  }

  lemma {:induction false} DelimitedAppend(a: seq<Bytes>, n: Bytes)
    ensures Delimited(a + [n]) == Delimited(a) + START_CODE + n
  {
    if |a| == 0 {
      assert a + [n] == [n];
    } else {
      DelimitedAppend(a[1..], n);
      assert (a + [n])[1..] == a[1..] + [n];
    }
  }

  lemma DelimitedLength(nals: seq<Bytes>)
    ensures |Delimited(nals)| == 0 <==> nals == []
    ensures |nals| > 0 ==> |Delimited(nals)| >= 4
  {
  }

  lemma {:induction false} PrefixedAppend(a: seq<Bytes>, n: Bytes)
    ensures Prefixed(a + [n]) == Prefixed(a) + U32Bytes(|n| % U32_RANGE) + n
  {
    hide U32Bytes;
    if |a| == 0 {
      assert a + [n] == [n];
    } else {
      PrefixedAppend(a[1..], n);
      assert (a + [n])[1..] == a[1..] + [n];
    }
  }

  // ---------- Encoder side ----------

  /** NAL units from position i up to the first zero or overlong length. */
  function WalkFrom(data: Bytes, i: nat): seq<Bytes>
    decreases |data| - i
  {
    if i + 4 > |data| then []
    else
      var n := U32At(data, i);
      if n == 0 || i + 4 + n > |data| then []
      else [data[i + 4..i + 4 + n]] + WalkFrom(data, i + 4 + n)
  }

  ghost predicate HasIdr(codec: Codec, nals: seq<Bytes>) {
    exists k :: 0 <= k < |nals| && IsIdr(codec, nals[k])
  }

  method Walk(codec: Codec, data: Bytes) returns (slices: Bytes, isKeyframe: bool)
    ensures slices == Delimited(WalkFrom(data, 0))
    ensures isKeyframe <==> HasIdr(codec, WalkFrom(data, 0))
  {
    hide IsIdr, U32At, Delimited, HasIdr;
    slices, isKeyframe := [], false;
    var i := 0;
    ghost var done: seq<Bytes> := [];
    NoUnits(codec);
    assert [] + WalkFrom(data, 0) == WalkFrom(data, 0);
    while i + 4 <= |data|
      invariant WalkFrom(data, 0) == done + WalkFrom(data, i)
      invariant slices == Delimited(done)
      invariant isKeyframe <==> HasIdr(codec, done)
      decreases |data| - i
    {
      var nalLen := U32At(data, i);
      i := i + 4;
      if nalLen == 0 || i + nalLen > |data| {
        assert done + [] == done;
        return;
      }
      var nal := data[i..i + nalLen];
      if IsIdr(codec, nal) {
        isKeyframe := true;
      }
      DelimitedAppend(done, nal);
      MoreIdr(codec, done, nal);
      slices := slices + START_CODE;
      slices := slices + nal;
      i := i + nalLen;
      assert done + ([nal] + WalkFrom(data, i)) == (done + [nal]) + WalkFrom(data, i);
      done := done + [nal];
    }
    assert done + [] == done;
  }

  lemma NoUnits(codec: Codec)
    ensures Delimited([]) == [] && !HasIdr(codec, [])
  {
  }

  lemma MoreIdr(codec: Codec, nals: seq<Bytes>, nal: Bytes)
    ensures HasIdr(codec, nals + [nal]) <==> HasIdr(codec, nals) || IsIdr(codec, nal)
  {
    hide IsIdr;
    var more := nals + [nal];
    if k :| 0 <= k < |nals| && IsIdr(codec, nals[k]) {
      assert more[k] == nals[k];
    }
    if IsIdr(codec, nal) {
      assert more[|nals|] == nal;
    }
    if k :| 0 <= k < |more| && IsIdr(codec, more[k]) {
      assert k < |nals| ==> nals[k] == more[k];
    }
  }

  function NonEmpty(nals: seq<Bytes>): seq<Bytes> {
    if |nals| == 0 then []
    else
      var front := NonEmpty(nals[..|nals| - 1]);
      if |nals[|nals| - 1]| > 0 then front + [nals[|nals| - 1]] else front
  }

  /** What the encoder puts on the wire for a sample. */
  ghost function WireForm(codec: Codec, data: Bytes, paramSets: seq<Bytes>): Bytes {
    var nals := WalkFrom(data, 0);
    (if HasIdr(codec, nals) then Delimited(NonEmpty(paramSets)) else []) + Delimited(nals)
  }

  /** One compressed sample in wire form: parameter sets first on a keyframe. The parameter sets of the format
      description are an input, an absent one being empty. */
  method SampleToAnnexB(codec: Codec, data: Bytes, paramSets: seq<Bytes>) returns (r: Option<(FrameKind, Bytes)>)
    ensures r.None? <==> WalkFrom(data, 0) == []
    ensures r.Some? ==> (r.value.0 == Idr <==> HasIdr(codec, WalkFrom(data, 0))) && (r.value.0 == P || r.value.0 == Idr)
    ensures r.Some? ==> r.value.1 == WireForm(codec, data, paramSets)
  {
    hide Delimited, HasIdr, WalkFrom;
    var slices, isKeyframe := Walk(codec, data);
    NoUnits(codec);
    DelimitedLength(WalkFrom(data, 0));
    if |slices| == 0 {
      return None;
    }
    var out: Bytes := [];
    if isKeyframe {
      for idx := 0 to |paramSets|
        invariant out == Delimited(NonEmpty(paramSets[..idx]))
      {
        assert paramSets[..idx + 1][..idx] == paramSets[..idx];
        var ps := paramSets[idx];
        if |ps| > 0 {
          DelimitedAppend(NonEmpty(paramSets[..idx]), ps);
          out := out + START_CODE;
          out := out + ps;
        }
      }
      assert paramSets[..|paramSets|] == paramSets;
    }
    r := Some((if isKeyframe then Idr else P, out + slices));
  }

  // ---------- Decoder side ----------

  /** A three-byte start code at the position. */
  predicate StartsAt(data: Bytes, p: nat) {
    p + 3 <= |data| && data[p] == ZERO && data[p + 1] == ZERO && data[p + 2] == ONE
  }

  predicate LongStartsAt(data: Bytes, p: nat) {
    p + 4 <= |data| && data[p] == ZERO && data[p + 1] == ZERO && data[p + 2] == ZERO && data[p + 3] == ONE
  }

  /** The unit begun at start, if it is not empty. */
  function Piece(data: Bytes, start: Option<nat>, end: nat): seq<Bytes>
    requires end <= |data|
  {
    if start.Some? && start.value < end then [data[start.value..end]] else []
  }

  function SplitFrom(data: Bytes, i: nat, start: Option<nat>): seq<Bytes>
    requires i <= |data|
    decreases |data| - i
  {
    if i + 3 > |data| then Piece(data, start, |data|)
    else if LongStartsAt(data, i) then Piece(data, start, i) + SplitFrom(data, i + 4, Some(i + 4))
    else if StartsAt(data, i) then Piece(data, start, i) + SplitFrom(data, i + 3, Some(i + 3))
    else SplitFrom(data, i + 1, start)
  }

  function Split(data: Bytes): seq<Bytes> {
    SplitFrom(data, 0, None)
  }

  method SplitAnnexB(data: Bytes) returns (nals: seq<Bytes>)
    ensures nals == Split(data)
  {
    hide StartsAt, LongStartsAt, Piece;
    nals := [];
    var i := 0;
    var start: Option<nat> := None;
    while i + 3 <= |data|
      invariant i <= |data|
      invariant Split(data) == nals + SplitFrom(data, i, start)
    {
      LongFits(data, i);
      var (sc, len) := if LongStartsAt(data, i) then (true, 4) else if StartsAt(data, i) then (true, 3) else (false, 0);
      if sc {
        assert nals + (Piece(data, start, i) + SplitFrom(data, i + len, Some(i + len)))
            == (nals + Piece(data, start, i)) + SplitFrom(data, i + len, Some(i + len));
        PieceIs(data, start, i);
        assert nals + [] == nals;
        if start.Some? && start.value < i {
          nals := nals + [data[start.value..i]];
        }
        i := i + len;
        start := Some(i);
      } else {
        i := i + 1;
      }
    }
    PieceIs(data, start, |data|);
    assert nals + [] == nals;
    if start.Some? && start.value < |data| {
      assert data[start.value..] == data[start.value..|data|];
      nals := nals + [data[start.value..]];
    }
  }

  lemma LongFits(data: Bytes, i: nat)
    ensures LongStartsAt(data, i) ==> i + 4 <= |data|
  {
  }

  lemma PieceIs(data: Bytes, start: Option<nat>, end: nat)
    requires end <= |data|
    ensures Piece(data, start, end) == if start.Some? && start.value < end then [data[start.value..end]] else []
  {
  }

  function Kept(codec: Codec, nals: seq<Bytes>): seq<Bytes> {
    if |nals| == 0 then []
    else
      var last := nals[|nals| - 1];
      var front := Kept(codec, nals[..|nals| - 1]);
      if IsParamSet(codec, last) || IsAud(codec, last) then front else front + [last]
  }

  function ParamSets(codec: Codec, nals: seq<Bytes>): seq<Bytes> {
    if |nals| == 0 then []
    else
      var last := nals[|nals| - 1];
      var front := ParamSets(codec, nals[..|nals| - 1]);
      if IsParamSet(codec, last) then front + [last] else front
  }

  /** The parameter sets of an access unit and the length-prefixed rest. */
  method BuildPayload(codec: Codec, annexB: Bytes) returns (ps: seq<Bytes>, payload: Bytes)
    ensures ps == ParamSets(codec, Split(annexB))
    ensures payload == Prefixed(Kept(codec, Split(annexB)))
  {
    hide IsParamSet, IsAud, SplitFrom, Split, U32Bytes;
    var nals := SplitAnnexB(annexB);
    ps, payload := [], [];
    for k := 0 to |nals|
      invariant ps == ParamSets(codec, nals[..k])
    {
      assert nals[..k + 1][..k] == nals[..k];
      if IsParamSet(codec, nals[k]) {
        ps := ps + [nals[k]];
      }
    }
    for k := 0 to |nals|
      invariant payload == Prefixed(Kept(codec, nals[..k]))
    {
      assert nals[..k + 1][..k] == nals[..k];
      var nal := nals[k];
      if IsParamSet(codec, nal) || IsAud(codec, nal) {
        continue;
      }
      PrefixedAppend(Kept(codec, nals[..k]), nal);
      payload := payload + U32Bytes(|nal| % U32_RANGE);
      payload := payload + nal;
    }
    assert nals[..|nals|] == nals;
  }

  // ---------- Round trips ----------

  /** No start code inside. */
  ghost predicate StartFree(nal: Bytes) {
    forall p: nat :: !StartsAt(nal, p)
  }

  ghost predicate Clean(nals: seq<Bytes>) {
    forall k :: 0 <= k < |nals| ==> |nals[k]| > 0 && StartFree(nals[k])
  }

  /** A stretch without start codes is scanned through. */
  lemma {:induction false} ScanOver(data: Bytes, i: nat, j: nat, start: Option<nat>)
    requires i <= j <= |data| && (j + 3 <= |data| || j == |data|)
    requires forall p: nat :: i <= p < j ==> !StartsAt(data, p) && !LongStartsAt(data, p)
    ensures SplitFrom(data, i, start) == SplitFrom(data, j, start)
    decreases j - i
  {
    hide StartsAt, LongStartsAt;
    if i < j && i + 3 <= |data| {
      ScanOver(data, i + 1, j, start);
    }
  }

  /** A rest made of three parts, part by part. */
  lemma Peel(data: Bytes, i: nat, a: Bytes, b: Bytes, c: Bytes)
    requires i <= |data| && data[i..] == a + b + c
    ensures i + |a| + |b| <= |data|
    ensures data[i..i + |a|] == a
    ensures data[i + |a|..i + |a| + |b|] == b
    ensures data[i + |a| + |b|..] == c
  {
    var rest := data[i..];
    assert rest[..|a|] == a && rest[|a|..|a| + |b|] == b && rest[|a| + |b|..] == c;
  }

  /** A start code, of four bytes or of three. */
  function Code(long: bool): Bytes {
    if long then START_CODE else START_CODE[1..]
  }

  /** Units behind start codes of either length. */
  ghost function Coded(longs: seq<bool>, nals: seq<Bytes>): Bytes
    requires |longs| == |nals|
  {
    if |nals| == 0 then [] else Code(longs[0]) + nals[0] + Coded(longs[1..], nals[1..])
  }

  /** A short code after a zero reads as a long one. */
  ghost predicate EndsBefore(nal: Bytes, longs: seq<bool>) {
    |longs| > 0 && !longs[0] && |nal| > 0 ==> nal[|nal| - 1] != ZERO
  }

  ghost predicate Separable(longs: seq<bool>, nals: seq<Bytes>)
    requires |longs| == |nals|
  {
    forall k :: 0 <= k < |nals| ==> EndsBefore(nals[k], longs[k + 1..])
  }

  lemma SeparableRest(longs: seq<bool>, nals: seq<Bytes>)
    requires |longs| == |nals| > 0 && Separable(longs, nals)
    ensures EndsBefore(nals[0], longs[1..]) && Separable(longs[1..], nals[1..])
  {
    hide EndsBefore;
    var ls, ns := longs[1..], nals[1..];
    forall k | 0 <= k < |ns| ensures EndsBefore(ns[k], ls[k + 1..]) {
      assert ls[k + 1..] == longs[k + 2..] && ns[k] == nals[k + 1];
    }
  }

  lemma CodedFirst(longs: seq<bool>, nals: seq<Bytes>)
    requires |longs| == |nals| > 0
    ensures Coded(longs, nals) == Code(longs[0]) + nals[0] + Coded(longs[1..], nals[1..])
    ensures |Coded(longs, nals)| >= 3
    ensures Coded(longs, nals)[0] == ZERO && Coded(longs, nals)[1] == ZERO
    ensures Coded(longs, nals)[2] == if longs[0] then ZERO else ONE
  {
  }

  /** Before the next start code or the end, a start-free unit matches nowhere, unless it ends in a zero and a short
      code follows. */
  lemma NoFalseStart(data: Bytes, at: nat, nal: Bytes, longs: seq<bool>, rest: seq<Bytes>, p: nat)
    requires StartFree(nal) && at + |nal| <= |data| && data[at..at + |nal|] == nal
    requires |longs| == |rest| && data[at + |nal|..] == Coded(longs, rest) && EndsBefore(nal, longs)
    requires at <= p < at + |nal|
    ensures !StartsAt(data, p) && !LongStartsAt(data, p)
  {
    hide Coded, StartsAt, LongStartsAt, StartFree, Code;
    var e := at + |nal|;
    CodedHead(data, e, longs, rest);
    if p + 3 <= e {
      FreeInside(data, at, nal, p);
    }
    if p + 4 <= e {
      FreeInside(data, at, nal, p + 1);
    }
    assert nal[|nal| - 1] == data[e - 1];
    NoneAcross(data, p, e);
  }

  lemma FreeInside(data: Bytes, at: nat, nal: Bytes, p: nat)
    requires StartFree(nal) && at + |nal| <= |data| && data[at..at + |nal|] == nal
    requires at <= p && p + 3 <= at + |nal|
    ensures !StartsAt(data, p)
  {
    var q := p - at;
    assert nal[q] == data[p] && nal[q + 1] == data[p + 1] && nal[q + 2] == data[p + 2];
    assert !StartsAt(nal, q);
  }

  lemma CodedHead(data: Bytes, e: nat, longs: seq<bool>, rest: seq<Bytes>)
    requires e <= |data| && |longs| == |rest| && data[e..] == Coded(longs, rest)
    ensures e < |data| ==>
      && |rest| > 0 && e + 3 <= |data| && data[e] == ZERO && data[e + 1] == ZERO
      && data[e + 2] == if longs[0] then ZERO else ONE
  {
    hide Coded;
    CodedEnd(longs, rest);
    if |rest| > 0 {
      CodedFirst(longs, rest);
      var tail := data[e..];
      assert tail[0] == data[e] && tail[1] == data[e + 1] && tail[2] == data[e + 2];
    }
  }

  /** No start code reaches over the end of a unit. */
  lemma NoneAcross(data: Bytes, p: nat, e: nat)
    requires p < e <= |data|
    requires p + 3 <= e ==> !StartsAt(data, p)
    requires p + 4 <= e ==> !StartsAt(data, p + 1)
    requires e < |data| ==> e + 3 <= |data| && data[e] == ZERO && data[e + 1] == ZERO
    requires e < |data| && data[e + 2] != ZERO ==> data[e - 1] != ZERO
    ensures !StartsAt(data, p) && !LongStartsAt(data, p)
  {
    Different();
  }

  lemma Different()
    ensures ZERO != ONE
  {
  }

  lemma CodedEnd(longs: seq<bool>, nals: seq<Bytes>)
    requires |longs| == |nals|
    ensures |nals| == 0 ==> Coded(longs, nals) == []
  {
  }

  lemma CodeAt(data: Bytes, i: nat, long: bool)
    requires i + |Code(long)| <= |data| && data[i..i + |Code(long)|] == Code(long)
    ensures if long then LongStartsAt(data, i) else StartsAt(data, i) && !LongStartsAt(data, i)
  {
    var code := data[i..i + |Code(long)|];
    assert forall k :: 0 <= k < |code| ==> code[k] == data[i + k];
  }

  /** A unit behind a start code is found whole, and the scan goes on after it. */
  lemma OneUnit(data: Bytes, i: nat, start: Option<nat>, long: bool, nal: Bytes, longs: seq<bool>, rest: seq<Bytes>)
    requires var at := i + |Code(long)|;
      && at + |nal| <= |data| && data[i..at] == Code(long) && data[at..at + |nal|] == nal
      && |longs| == |rest| && data[at + |nal|..] == Coded(longs, rest)
    requires StartFree(nal) && EndsBefore(nal, longs)
    ensures var at := i + |Code(long)|;
      SplitFrom(data, i, start) == Piece(data, start, i) + SplitFrom(data, at + |nal|, Some(at))
  {
    hide StartsAt, LongStartsAt, StartFree, Piece, Coded, EndsBefore;
    var at := i + |Code(long)|;
    CodeAt(data, i, long);
    forall p: nat | at <= p < at + |nal| ensures !StartsAt(data, p) && !LongStartsAt(data, p) {
      NoFalseStart(data, at, nal, longs, rest, p);
    }
    CodedEnd(longs, rest);
    if |rest| > 0 {
      CodedFirst(longs, rest);
    }
    ScanOver(data, at, at + |nal|, Some(at));
  }

  lemma FirstUnit(data: Bytes, i: nat, start: Option<nat>, longs: seq<bool>, nals: seq<Bytes>) returns (e: nat)
    requires |longs| == |nals| > 0 && Clean(nals) && Separable(longs, nals)
    requires i <= |data| && data[i..] == Coded(longs, nals)
    ensures e <= |data| && data[e..] == Coded(longs[1..], nals[1..])
    ensures Clean(nals[1..]) && Separable(longs[1..], nals[1..])
    ensures var from := Some(e - |nals[0]|);
      && from.value >= 0 && Piece(data, from, e) == [nals[0]]
      && SplitFrom(data, i, start) == Piece(data, start, i) + SplitFrom(data, e, from)
  {
    hide SplitFrom, StartFree, Coded, Separable, EndsBefore, Code, Clean, Piece;
    var code, nal := Code(longs[0]), nals[0];
    var at := i + |code|;
    CodedFirst(longs, nals);
    SeparableRest(longs, nals);
    CleanRest(nals);
    Peel(data, i, code, nal, Coded(longs[1..], nals[1..]));
    e := at + |nal|;
    OneUnit(data, i, start, longs[0], nal, longs[1..], nals[1..]);
    PieceIs(data, Some(at), e);
  }

  lemma {:induction false} SplitCoded(data: Bytes, i: nat, start: Option<nat>, longs: seq<bool>, nals: seq<Bytes>)
    requires |longs| == |nals| && Clean(nals) && Separable(longs, nals)
    requires i <= |data| && data[i..] == Coded(longs, nals)
    ensures SplitFrom(data, i, start) == Piece(data, start, i) + nals
    decreases |nals|
  {
    hide StartFree, Coded, Separable, EndsBefore, Clean;
    if |nals| == 0 {
      CodedEnd(longs, nals);
      assert Piece(data, start, i) + nals == Piece(data, start, i);
    } else {
      hide SplitFrom, Piece;
      var e := FirstUnit(data, i, start, longs, nals);
      SplitCoded(data, e, Some(e - |nals[0]|), longs[1..], nals[1..]);
      assert [nals[0]] + nals[1..] == nals;
    }
  }

  lemma CleanRest(nals: seq<Bytes>)
    requires |nals| > 0 && Clean(nals)
    ensures |nals[0]| > 0 && StartFree(nals[0]) && Clean(nals[1..])
  {
    hide StartFree;
  }

  /** Start codes of either length, and bytes before the first: splitting returns the units, if none that ends in a zero
      is followed by a short code. */
  lemma SplitMixed(lead: Bytes, longs: seq<bool>, nals: seq<Bytes>)
    requires |longs| == |nals| && Clean(nals) && Separable(longs, nals)
    requires StartFree(lead) && EndsBefore(lead, longs)
    ensures Split(lead + Coded(longs, nals)) == nals
  {
    hide SplitFrom, StartsAt, LongStartsAt, StartFree, Coded, EndsBefore, Separable;
    var data, n := lead + Coded(longs, nals), |lead|;
    assert data[n..] == Coded(longs, nals) && data[0..0 + n] == lead;
    forall p: nat | 0 <= p < n ensures !StartsAt(data, p) && !LongStartsAt(data, p) {
      NoFalseStart(data, 0, lead, longs, nals, p);
    }
    CodedEnd(longs, nals);
    if |nals| > 0 {
      CodedFirst(longs, nals);
    }
    ScanOver(data, 0, n, None);
    SplitCoded(data, n, None, longs, nals);
    assert Piece(data, None, n) == [];
  }

  lemma {:induction false} DelimitedIsCoded(nals: seq<Bytes>, longs: seq<bool>)
    requires |longs| == |nals| && forall k :: 0 <= k < |longs| ==> longs[k]
    ensures Coded(longs, nals) == Delimited(nals)
    decreases |nals|
  {
    if |nals| > 0 {
      DelimitedIsCoded(nals[1..], longs[1..]);
    }
  }

  lemma DelimitedFirst(nals: seq<Bytes>)
    requires |nals| > 0
    ensures Delimited(nals) == START_CODE + nals[0] + Delimited(nals[1..])
  {
  }

  /** Whatever the input, every unit split off is nonempty and free of start codes. */
  lemma {:induction false} SplitIsClean(data: Bytes, i: nat, start: Option<nat>)
    requires i <= |data|
    requires start.Some? ==> start.value <= i && forall p: nat :: start.value <= p < i ==> !StartsAt(data, p)
    ensures Clean(SplitFrom(data, i, start))
    decreases |data| - i
  {
    if i + 3 > |data| {
      PieceClean(data, start, |data|);
    } else if LongStartsAt(data, i) {
      PieceClean(data, start, i);
      SplitIsClean(data, i + 4, Some(i + 4));
    } else if StartsAt(data, i) {
      PieceClean(data, start, i);
      SplitIsClean(data, i + 3, Some(i + 3));
    } else {
      SplitIsClean(data, i + 1, start);
    }
  }

  lemma PieceClean(data: Bytes, start: Option<nat>, end: nat)
    requires end <= |data|
    requires start.Some? ==> forall p: nat :: start.value <= p && p + 3 <= end ==> !StartsAt(data, p)
    ensures Clean(Piece(data, start, end))
  {
    if start.Some? && start.value < end {
      var nal := data[start.value..end];
      forall p: nat ensures !StartsAt(nal, p) {
        StartsInside(data, start.value, end, p);
      }
    }
  }

  lemma StartsInside(data: Bytes, at: nat, end: nat, p: nat)
    requires at <= end <= |data|
    ensures StartsAt(data[at..end], p) ==> StartsAt(data, at + p) && at + p + 3 <= end
  {
  }

  /** Delimiting then splitting returns the same units exactly when each is nonempty and start-free. */
  lemma SplitRoundTrip(nals: seq<Bytes>)
    ensures Split(Delimited(nals)) == nals <==> Clean(nals)
  {
    hide Clean, SplitFrom, Delimited, Coded;
    SplitIsClean(Delimited(nals), 0, None);
    if Clean(nals) {
      var longs := seq(|nals|, _ => true);
      DelimitedIsCoded(nals, longs);
      SplitMixed([], longs, nals);
      assert [] + Coded(longs, nals) == Delimited(nals);
    }
  }

  ghost predicate Walkable(nals: seq<Bytes>) {
    forall k :: 0 <= k < |nals| ==> |nals[k]| < U32_RANGE
  }

  lemma WalkStep(data: Bytes, i: nat, nal: Bytes)
    requires i + 4 + |nal| <= |data| && U32At(data, i) == |nal| > 0 && data[i + 4..i + 4 + |nal|] == nal
    ensures WalkFrom(data, i) == [nal] + WalkFrom(data, i + 4 + |nal|)
  {
    hide U32At;
  }

  lemma {:induction false} WalkPrefixed(data: Bytes, i: nat, nals: seq<Bytes>)
    requires Walkable(nals) && forall k :: 0 <= k < |nals| ==> |nals[k]| > 0
    requires i <= |data| && data[i..] == Prefixed(nals)
    ensures WalkFrom(data, i) == nals
    decreases |nals|
  {
    if |nals| > 0 {
      hide U32Bytes, U32At, WalkFrom, Prefixed;
      var nal, rest := nals[0], nals[1..];
      PrefixedFirst(nals);
      Peel(data, i, U32Bytes(|nal|), nal, Prefixed(rest));
      U32RoundTrip(|nal|, data, i);
      WalkStep(data, i, nal);
      WalkPrefixed(data, i + 4 + |nal|, rest);
      assert [nal] + rest == nals;
    }
  }

  lemma PrefixedFirst(nals: seq<Bytes>)
    requires |nals| > 0 && |nals[0]| < U32_RANGE
    ensures Prefixed(nals) == U32Bytes(|nals[0]|) + nals[0] + Prefixed(nals[1..])
  {
    hide U32Bytes;
  }

  lemma {:induction false} WalkNonEmpty(data: Bytes, i: nat)
    ensures forall k :: 0 <= k < |WalkFrom(data, i)| ==> |WalkFrom(data, i)[k]| > 0
    decreases |data| - i
  {
    hide U32At;
    if i + 4 <= |data| && U32At(data, i) != 0 && i + 4 + U32At(data, i) <= |data| {
      WalkNonEmpty(data, i + 4 + U32At(data, i));
    }
  }

  /** Length prefixes are walked back to the same units exactly when none is empty. */
  lemma WalkRoundTrip(nals: seq<Bytes>)
    requires Walkable(nals)
    ensures WalkFrom(Prefixed(nals), 0) == nals <==> forall k :: 0 <= k < |nals| ==> |nals[k]| > 0
  {
    hide WalkFrom, Prefixed;
    WalkNonEmpty(Prefixed(nals), 0);
    if forall k :: 0 <= k < |nals| ==> |nals[k]| > 0 {
      var data := Prefixed(nals);
      assert data[0..] == data;
      WalkPrefixed(data, 0, nals);
    }
  }

  /** On any sample, the units walked are exactly a length-prefixed beginning of it. */
  lemma {:induction false} WalkIsPrefix(data: Bytes, i: nat)
    requires i <= |data|
    ensures var w := Prefixed(WalkFrom(data, i));
      i + |w| <= |data| && data[i..i + |w|] == w
    decreases |data| - i
  {
    hide U32At, U32Bytes;
    if i + 4 <= |data| && U32At(data, i) != 0 && i + 4 + U32At(data, i) <= |data| {
      var n := U32At(data, i);
      var nal := data[i + 4..i + 4 + n];
      WalkIsPrefix(data, i + 4 + n);
      var rest := WalkFrom(data, i + 4 + n);
      assert WalkFrom(data, i) == [nal] + rest && ([nal] + rest)[1..] == rest;
      U32RoundTrip(n, data, i);
      assert Prefixed(WalkFrom(data, i)) == U32Bytes(n) + nal + Prefixed(rest);
    }
  }

  /** And it is the longest such beginning: the walk stops only where fewer than four bytes are left, or the length
      that follows is zero or reaches past the end. */
  lemma {:induction false} WalkStops(data: Bytes, i: nat)
    requires i <= |data|
    ensures var end := i + |Prefixed(WalkFrom(data, i))|;
      end + 4 <= |data| ==> U32At(data, end) == 0 || end + 4 + U32At(data, end) > |data|
    decreases |data| - i
  {
    hide U32At, U32Bytes;
    if i + 4 <= |data| && U32At(data, i) != 0 && i + 4 + U32At(data, i) <= |data| {
      var n := U32At(data, i);
      var nal := data[i + 4..i + 4 + n];
      WalkStops(data, i + 4 + n);
      var rest := WalkFrom(data, i + 4 + n);
      assert WalkFrom(data, i) == [nal] + rest && ([nal] + rest)[1..] == rest;
      assert Prefixed(WalkFrom(data, i)) == U32Bytes(n) + nal + Prefixed(rest);
      U32Length(n);
    }
  }

  lemma U32Length(n: u32)
    ensures |U32Bytes(n)| == 4
  {
  }

  // ---------- From the encoder's sample to the decoder's payload ----------

  ghost predicate Ordinary(codec: Codec, nals: seq<Bytes>) {
    forall k :: 0 <= k < |nals| ==> !IsParamSet(codec, nals[k]) && !IsAud(codec, nals[k])
  }

  ghost predicate AllParamSets(codec: Codec, nals: seq<Bytes>) {
    forall k :: 0 <= k < |nals| ==> IsParamSet(codec, nals[k])
  }

  lemma {:induction false} DelimitedConcat(a: seq<Bytes>, b: seq<Bytes>)
    ensures Delimited(a) + Delimited(b) == Delimited(a + b)
  {
    hide Delimited;
    if |b| == 0 {
      assert a + b == a;
      DelimitedLength(b);
    } else {
      var front := b[..|b| - 1];
      DelimitedConcat(a, front);
      DelimitedAppend(front, b[|b| - 1]);
      DelimitedAppend(a + front, b[|b| - 1]);
      assert (a + front) + [b[|b| - 1]] == a + b && front + [b[|b| - 1]] == b;
    }
  }

  lemma {:induction false} SortedOut(codec: Codec, ps: seq<Bytes>, nals: seq<Bytes>)
    requires AllParamSets(codec, ps) && Ordinary(codec, nals)
    ensures ParamSets(codec, ps + nals) == ps && Kept(codec, ps + nals) == nals
    decreases |ps| + |nals|
  {
    hide IsParamSet, IsAud;
    if |nals| > 0 {
      SortedOut(codec, ps, nals[..|nals| - 1]);
      assert (ps + nals)[..|ps + nals| - 1] == ps + nals[..|nals| - 1];
    } else if |ps| > 0 {
      assert ps + nals == ps;
      SortedOut(codec, ps[..|ps| - 1], []);
      assert ps[..|ps| - 1] + [] == ps[..|ps| - 1];
    }
  }

  lemma {:induction false} AllNonEmpty(nals: seq<Bytes>)
    requires forall k :: 0 <= k < |nals| ==> |nals[k]| > 0
    ensures NonEmpty(nals) == nals
  {
    if |nals| > 0 {
      AllNonEmpty(nals[..|nals| - 1]);
    }
  }

  /** Units chosen by a test, counted. */
  ghost function Among(nals: seq<Bytes>, test: Bytes -> bool): (n: nat)
    ensures n <= |nals|
  {
    if |nals| == 0 then 0 else Among(nals[..|nals| - 1], test) + if test(nals[|nals| - 1]) then 1 else 0
  }

  /** The units that pass the test, all of them and no others, in order. */
  ghost predicate Selection(out: seq<Bytes>, nals: seq<Bytes>, test: Bytes -> bool) {
    && |out| == Among(nals, test)
    && (forall j :: 0 <= j < |nals| && test(nals[j]) ==> PlacedAt(out, nals, test, j))
  }

  ghost predicate PlacedAt(out: seq<Bytes>, nals: seq<Bytes>, test: Bytes -> bool, j: nat)
    requires j < |nals|
  {
    var i := Among(nals[..j], test);
    i < |out| && out[i] == nals[j]
  }

  ghost function Carries(codec: Codec): Bytes -> bool {
    nal => !IsParamSet(codec, nal) && !IsAud(codec, nal)
  }

  ghost function Configures(codec: Codec): Bytes -> bool {
    nal => IsParamSet(codec, nal)
  }

  lemma SelectionGrows(out: seq<Bytes>, nals: seq<Bytes>, test: Bytes -> bool)
    requires |nals| > 0 && Selection(out, nals[..|nals| - 1], test)
    ensures var last := nals[|nals| - 1];
      Selection(if test(last) then out + [last] else out, nals, test)
  {
    hide Among;
    var n := |nals| - 1;
    var last := nals[n];
    var more := if test(last) then out + [last] else out;
    AmongGrows(nals, test);
    forall j | 0 <= j < |nals| && test(nals[j]) ensures PlacedAt(more, nals, test, j) {
      if j < n {
        assert nals[..n][..j] == nals[..j];
        assert PlacedAt(out, nals[..n], test, j);
      }
    }
  }

  lemma AmongGrows(nals: seq<Bytes>, test: Bytes -> bool)
    requires |nals| > 0
    ensures Among(nals, test) == Among(nals[..|nals| - 1], test) + if test(nals[|nals| - 1]) then 1 else 0
  {
  }

  /** The payload carries exactly the units that are neither parameter sets nor access unit delimiters, and the
      parameter sets are exactly the parameter sets, in order. */
  lemma {:induction false} SortsUnits(codec: Codec, nals: seq<Bytes>)
    ensures Selection(Kept(codec, nals), nals, Carries(codec))
    ensures Selection(ParamSets(codec, nals), nals, Configures(codec))
  {
    hide IsParamSet, IsAud, Selection;
    if |nals| == 0 {
      NothingSelected(nals, Carries(codec));
      NothingSelected(nals, Configures(codec));
    } else {
      SortsUnits(codec, nals[..|nals| - 1]);
      SelectionGrows(Kept(codec, nals[..|nals| - 1]), nals, Carries(codec));
      SelectionGrows(ParamSets(codec, nals[..|nals| - 1]), nals, Configures(codec));
    }
  }

  lemma NothingSelected(nals: seq<Bytes>, test: Bytes -> bool)
    requires |nals| == 0
    ensures Selection([], nals, test)
  {
  }

  lemma {:induction false} SortedApart(codec: Codec, ps: seq<Bytes>, nals: seq<Bytes>)
    requires AllParamSets(codec, ps)
    ensures ParamSets(codec, ps + nals) == ps + ParamSets(codec, nals)
    ensures Kept(codec, ps + nals) == Kept(codec, nals)
  {
    hide IsParamSet, IsAud;
    if |nals| == 0 {
      assert ps + nals == ps;
      assert Ordinary(codec, []);
      SortedOut(codec, ps, []);
    } else {
      var front := nals[..|nals| - 1];
      SortedApart(codec, ps, front);
      assert (ps + nals)[..|ps + nals| - 1] == ps + front;
    }
  }

  /** Whatever start-free units a sample holds, the decoder hands on the units that are neither parameter sets nor
      access unit delimiters, and collects the parameter sets: on a keyframe the stream's own first, then those in the
      sample. */
  lemma SampleSorted(codec: Codec, nals: seq<Bytes>, paramSets: seq<Bytes>)
    requires Walkable(nals) && Clean(nals)
    requires Clean(paramSets) && AllParamSets(codec, paramSets)
    ensures var wire := WireForm(codec, Prefixed(nals), paramSets);
      && Prefixed(Kept(codec, Split(wire))) == Prefixed(Kept(codec, nals))
      && ParamSets(codec, Split(wire)) == (if HasIdr(codec, nals) then paramSets else []) + ParamSets(codec, nals)
  {
    hide IsParamSet, IsAud, IsIdr, HasIdr, WalkFrom, SplitFrom, Split, Delimited, Prefixed, StartFree, NonEmpty,
         Kept, ParamSets, AllParamSets;
    WalkRoundTrip(nals);
    AllNonEmpty(paramSets);
    var front := if HasIdr(codec, nals) then paramSets else [];
    NoUnits(codec);
    DelimitedConcat(front, nals);
    SplitRoundTrip(front + nals);
    NoParamSets(codec);
    SortedApart(codec, front, nals);
  }

  /** So the very bytes the encoder produced are handed on when none of its units is of the two kinds, and on a
      keyframe the same parameter sets. */
  lemma PayloadRestored(codec: Codec, nals: seq<Bytes>, paramSets: seq<Bytes>)
    requires Walkable(nals) && Clean(nals) && Ordinary(codec, nals)
    requires Clean(paramSets) && AllParamSets(codec, paramSets)
    ensures var wire := WireForm(codec, Prefixed(nals), paramSets);
      && Prefixed(Kept(codec, Split(wire))) == Prefixed(nals)
      && ParamSets(codec, Split(wire)) == (if HasIdr(codec, nals) then paramSets else [])
  {
    hide IsParamSet, IsAud, HasIdr, WireForm, Split, Prefixed, Kept, ParamSets, AllParamSets, Clean, Ordinary;
    SampleSorted(codec, nals, paramSets);
    NoParamSets(codec);
    SortedOut(codec, [], nals);
    assert [] + nals == nals;
  }

  lemma NoParamSets(codec: Codec)
    ensures AllParamSets(codec, [])
  {
  }
}
