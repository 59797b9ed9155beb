/** Byte strings: padding and concatenation. */
module ByteStrings {
  import opened GaloisField

  type Bytes = seq<Byte>

  /** Zero-filled at the end to the given length. */
  function Padded(s: Bytes, len: nat): (r: Bytes)
    requires |s| <= len
    ensures |r| == len
  {
    s + seq(len - |s|, _ => ZERO)
  }

  ghost function Concat(pieces: seq<Bytes>): Bytes {
    if |pieces| == 0 then [] else Concat(pieces[..|pieces| - 1]) + pieces[|pieces| - 1]
  }
}
