/** Wire format of video datagrams (crates/protocol/src/datagram.rs, crates/core/src/media.rs). */
module Datagram {
  import opened GaloisField
  import opened ByteStrings

  type u8 = n: nat | n < 0x100
  type u16 = n: nat | n < 0x1_0000
  type u32 = n: nat | n < 0x1_0000_0000

  datatype FrameKind = Idr | P | IntraRefresh | FecParity

  datatype DatagramType = Video | Audio | Padding

  datatype ProtocolError =
    | TooShort(got: nat, need: nat)
    | UnknownDatagramType(code: u8)
    | UnknownFrameKind(code: u8)
    | InvalidChunk(index: u16, count: u16)

  datatype Result<+T> = Ok(value: T) | Err(error: ProtocolError)

  datatype VideoHeader = VideoHeader(
    transportSeq: u32,
    sessionEpoch: u8,
    frameId: u32,
    kind: FrameKind,
    chunkIndex: u16,
    chunkCount: u16,
    parityCount: u8,
    frameLen: u32,
    captureTs: u32)

  const VIDEO_HEADER_LEN: nat := 24
  const SEQ_OFFSET: nat := 1

  function TotalShards(chunkCount: u16, parityCount: u8): nat {
    chunkCount + parityCount
  }

  function KindToWire(kind: FrameKind): u8 {
    match kind
    case Idr => 0
    case P => 1
    case IntraRefresh => 2
    case FecParity => 3
  }

  function KindFromWire(code: u8): Result<FrameKind> {
    if code == 0 then Ok(Idr)
    else if code == 1 then Ok(P)
    else if code == 2 then Ok(IntraRefresh)
    else if code == 3 then Ok(FecParity)
    else Err(UnknownFrameKind(code))
  }

  function TypeFromWire(code: u8): Result<DatagramType> {
    if code == 1 then Ok(Video)
    else if code == 2 then Ok(Audio)
    else if code == 3 then Ok(Padding)
    else Err(UnknownDatagramType(code))
  }

  // ---------- Big-endian integers ----------

  function U16Bytes(n: u16): (b: Bytes)
    ensures |b| == 2
  {
    [ToByte(n / 0x100), ToByte(n)]
  }

  function U16At(d: Bytes, at: nat): u16
    requires at + 2 <= |d|
  {
    Value(d[at]) * 0x100 + Value(d[at + 1])
  }

  function U32Bytes(n: u32): (b: Bytes)
    ensures |b| == 4
  {
    U16Bytes(n / 0x1_0000) + U16Bytes(n % 0x1_0000)
  }

  function U32At(d: Bytes, at: nat): u32
    requires at + 4 <= |d|
  {
    U16At(d, at) * 0x1_0000 + U16At(d, at + 2)
  }

  lemma U16RoundTrip(n: u16, d: Bytes, at: nat)
    requires at + 2 <= |d|
    ensures d[at..at + 2] == U16Bytes(n) <==> U16At(d, at) == n
  {
    hide Value, ToByte;
    ValueOfToByte(n / 0x100);
    ValueOfToByte(n);
    if U16At(d, at) == n {
      assert n / 0x100 == Value(d[at]) && n % 0x100 == Value(d[at + 1]);
      ValueInjective(d[at], ToByte(n / 0x100));
      ValueInjective(d[at + 1], ToByte(n));
    }
    if d[at..at + 2] == U16Bytes(n) {
      assert d[at] == d[at..at + 2][0] && d[at + 1] == d[at..at + 2][1];
    }
  }

  lemma U32RoundTrip(n: u32, d: Bytes, at: nat)
    requires at + 4 <= |d|
    ensures d[at..at + 4] == U32Bytes(n) <==> U32At(d, at) == n
  {
    hide U16Bytes, U16At;
    var hi, lo := n / 0x1_0000, n % 0x1_0000;
    U16RoundTrip(hi, d, at);
    U16RoundTrip(lo, d, at + 2);
    assert d[at..at + 4] == d[at..at + 2] + d[at + 2..at + 4];
    if d[at..at + 4] == U32Bytes(n) {
      assert d[at..at + 2] == U32Bytes(n)[..2] == U16Bytes(hi);
      assert d[at + 2..at + 4] == U32Bytes(n)[2..] == U16Bytes(lo);
    }
  }

  // ---------- Header encoding and parsing ----------

  /** A header that the parser accepts. */
  predicate ValidHeader(h: VideoHeader) {
    h.chunkCount != 0 && h.chunkIndex < TotalShards(h.chunkCount, h.parityCount)
  }

  function HeaderBytes(h: VideoHeader): (b: Bytes)
    ensures |b| == VIDEO_HEADER_LEN
  {
    [ToByte(1)] + U32Bytes(h.transportSeq) + [ToByte(h.sessionEpoch)] + U32Bytes(h.frameId)
    + [ToByte(KindToWire(h.kind))]
    + U16Bytes(h.chunkIndex) + U16Bytes(h.chunkCount) + [ToByte(h.parityCount)]
    + U32Bytes(h.frameLen) + U32Bytes(h.captureTs)
  }

  function Encode(h: VideoHeader, payload: Bytes): Bytes {
    HeaderBytes(h) + payload
  }

  /** Appends field after field, then the payload. */
  method EncodeWithPayload(h: VideoHeader, payload: Bytes) returns (out: Bytes)
    ensures out == Encode(h, payload)
  {
    hide ToByte, U32Bytes, U16Bytes;
    out := [ToByte(1)];
    out := out + U32Bytes(h.transportSeq);
    out := out + [ToByte(h.sessionEpoch)];
    out := out + U32Bytes(h.frameId);
    out := out + [ToByte(KindToWire(h.kind))];
    out := out + U16Bytes(h.chunkIndex);
    out := out + U16Bytes(h.chunkCount);
    out := out + [ToByte(h.parityCount)];
    out := out + U32Bytes(h.frameLen);
    out := out + U32Bytes(h.captureTs);
    assert out == HeaderBytes(h);
    out := out + payload;
  }

  function Parse(d: Bytes): Result<(VideoHeader, Bytes)> {
    if |d| < VIDEO_HEADER_LEN then Err(TooShort(|d|, VIDEO_HEADER_LEN))
    else
      match TypeFromWire(Value(d[0]))
      case Err(e) => Err(e)
      case Ok(ty) =>
        if ty != Video then Err(UnknownDatagramType(Value(d[0])))
        else
          match KindFromWire(Value(d[10]))
          case Err(e) => Err(e)
          case Ok(kind) =>
            var h := VideoHeader(U32At(d, 1), Value(d[5]), U32At(d, 6), kind, U16At(d, 11), U16At(d, 13),
                                 Value(d[15]), U32At(d, 16), U32At(d, 20));
            if h.chunkCount == 0 || h.chunkIndex >= TotalShards(h.chunkCount, h.parityCount) then
              Err(InvalidChunk(h.chunkIndex, h.chunkCount))
            else
              Ok((h, d[VIDEO_HEADER_LEN..]))
  }

  /** The header's fields sit at their offsets. */
  ghost predicate FieldsAt(d: Bytes, h: VideoHeader)
    requires |d| >= VIDEO_HEADER_LEN
  {
    && d[0] == ToByte(1) && d[1..5] == U32Bytes(h.transportSeq) && d[5] == ToByte(h.sessionEpoch)
    && d[6..10] == U32Bytes(h.frameId) && d[10] == ToByte(KindToWire(h.kind))
    && d[11..13] == U16Bytes(h.chunkIndex) && d[13..15] == U16Bytes(h.chunkCount) && d[15] == ToByte(h.parityCount)
    && d[16..20] == U32Bytes(h.frameLen) && d[20..24] == U32Bytes(h.captureTs)
  }

  /** Cutting 24 bytes at the field boundaries. */
  lemma CutFields(p: Bytes)
    requires |p| == VIDEO_HEADER_LEN
    ensures p == [p[0]] + p[1..5] + [p[5]] + p[6..10] + [p[10]] + p[11..13] + p[13..15] + [p[15]] + p[16..20]
                 + p[20..24]
  {
    assert p[..5] == [p[0]] + p[1..5];
    assert p[..6] == p[..5] + [p[5]];
    assert p[..10] == p[..6] + p[6..10];
    assert p[..11] == p[..10] + [p[10]];
    assert p[..13] == p[..11] + p[11..13];
    assert p[..15] == p[..13] + p[13..15];
    assert p[..16] == p[..15] + [p[15]];
    assert p[..20] == p[..16] + p[16..20];
    assert p[..24] == p[..20] + p[20..24] == p;
  }

  lemma HeaderBytesHaveFields(h: VideoHeader)
    ensures FieldsAt(HeaderBytes(h), h)
  {
    hide ToByte, U32Bytes, U16Bytes;
    var b := HeaderBytes(h);
    assert b[1..5] == U32Bytes(h.transportSeq);
    assert b[6..10] == U32Bytes(h.frameId);
    assert b[11..13] == U16Bytes(h.chunkIndex);
    assert b[13..15] == U16Bytes(h.chunkCount);
    assert b[16..20] == U32Bytes(h.frameLen);
    assert b[20..24] == U32Bytes(h.captureTs);
  }

  lemma HeaderBytesFields(d: Bytes, h: VideoHeader)
    requires |d| >= VIDEO_HEADER_LEN
    ensures d[..VIDEO_HEADER_LEN] == HeaderBytes(h) <==> FieldsAt(d, h)
  {
    hide ToByte, U32Bytes, U16Bytes;
    var p := d[..VIDEO_HEADER_LEN];
    assert p[1..5] == d[1..5] && p[6..10] == d[6..10] && p[11..13] == d[11..13] && p[13..15] == d[13..15]
        && p[16..20] == d[16..20] && p[20..24] == d[20..24];
    CutFields(p);
    HeaderBytesHaveFields(h);
  }

  lemma KindRoundTrip(code: u8, kind: FrameKind)
    ensures KindFromWire(code) == Ok(kind) <==> KindToWire(kind) == code
  {
  }

  lemma ByteIs(b: Byte, n: u8)
    ensures b == ToByte(n) <==> Value(b) == n
  {
    hide Value, ToByte;
    ValueOfToByte(n);
    ToByteOfValue(b);
  }

  /** Parsing and encoding are inverse: exactly the encodings of valid headers parse, each to its own
      header and payload. */
  lemma ParseEncode(d: Bytes, h: VideoHeader, payload: Bytes)
    ensures Parse(d) == Ok((h, payload)) <==> ValidHeader(h) && d == Encode(h, payload)
  {
    hide Value, ToByte, U32Bytes, U16Bytes, U32At, U16At, HeaderBytes, KindFromWire, KindToWire;
    if |d| >= VIDEO_HEADER_LEN {
      HeaderBytesFields(d, h);
      U32RoundTrip(h.transportSeq, d, 1);
      U32RoundTrip(h.frameId, d, 6);
      U16RoundTrip(h.chunkIndex, d, 11);
      U16RoundTrip(h.chunkCount, d, 13);
      U32RoundTrip(h.frameLen, d, 16);
      U32RoundTrip(h.captureTs, d, 20);
      KindRoundTrip(Value(d[10]), h.kind);
      ByteIs(d[0], 1);
      ByteIs(d[5], h.sessionEpoch);
      ByteIs(d[10], KindToWire(h.kind));
      ByteIs(d[15], h.parityCount);
      assert d == d[..VIDEO_HEADER_LEN] + d[VIDEO_HEADER_LEN..];
      if d == Encode(h, payload) {
        assert d[..VIDEO_HEADER_LEN] == HeaderBytes(h);
        assert d[VIDEO_HEADER_LEN..] == payload;
      }
    }
  }

  // ---------- Transport sequence number ----------

  function Stamped(d: Bytes, s: u32): (r: Bytes)
    requires SEQ_OFFSET + 4 <= |d|
    ensures |r| == |d|
  {
    d[..SEQ_OFFSET] + U32Bytes(s) + d[SEQ_OFFSET + 4..]
  }

  /** Overwrite the sequence number in an encoded datagram. */
  method StampSeq(d: array<Byte>, s: u32)
    requires SEQ_OFFSET + 4 <= d.Length
    modifies d
    ensures d[..] == Stamped(old(d[..]), s)
  {
    hide U32Bytes;
    var b := U32Bytes(s);
    for i := 0 to 4
      invariant forall j :: 0 <= j < d.Length ==>
        d[j] == if SEQ_OFFSET <= j < SEQ_OFFSET + i then b[j - SEQ_OFFSET] else old(d[j])
    {
      d[SEQ_OFFSET + i] := b[i];
    }
  }

  function ReadSeq(d: Bytes): Result<u32> {
    if |d| < SEQ_OFFSET + 4 then Err(TooShort(|d|, SEQ_OFFSET + 4)) else Ok(U32At(d, SEQ_OFFSET))
  }

  /** Stamping changes the sequence number a reader sees, and nothing else the parser sees. */
  lemma StampedParses(h: VideoHeader, payload: Bytes, s: u32)
    requires ValidHeader(h)
    ensures ReadSeq(Stamped(Encode(h, payload), s)) == Ok(s)
    ensures Parse(Stamped(Encode(h, payload), s)) == Ok((h.(transportSeq := s), payload))
  {
    hide Value, ToByte, U32Bytes, U16Bytes, U32At, U16At, KindToWire;
    var d := Stamped(Encode(h, payload), s);
    var g := h.(transportSeq := s);
    assert d == Encode(g, payload);
    ParseEncode(d, g, payload);
    assert d[1..5] == U32Bytes(s);
    U32RoundTrip(s, d, SEQ_OFFSET);
  }
}
