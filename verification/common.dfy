/** Shared vocabulary of the three codecs: bytes, the failure type, and the
    big-endian integer fields written into compressed buffers. */
module Bytes {

  /** One element of a Node `Buffer`. */
  type byte = x: int | 0 <= x < 256

  /** The ways a codec call can fail in this model. Each stands for a
      condition in which the JavaScript code throws. */
  datatype CodecError =
    | MalformedHeader        // a Huffman header field lies past the end of the buffer
    | CorruptStream          // Huffman decoding steps to a missing child
    | FieldOutOfRange        // a value does not fit the unsigned field it is written to

  datatype Result<+T> = Success(value: T) | Failure(error: CodecError)

  /** A value or JavaScript's `null`. */
  datatype Option<+T> = None | Some(value: T)

  /** `v` repeated `n` times. */
  function Repeat(v: byte, n: nat): (r: seq<byte>)
    ensures |r| == n
    ensures forall k :: 0 <= k < n ==> r[k] == v
  {
    seq(n, _ => v)
  }

  /** `writeUInt16BE`: two bytes, most significant first. */
  function U16(x: nat): (r: seq<byte>)
    requires x < 0x1_0000
    ensures |r| == 2
    ensures ReadU16(r, 0) == x
  {
    [x / 256, x % 256]
  }

  /** `readUInt16BE` at `offset`. */
  function ReadU16(buf: seq<byte>, offset: nat): nat
    requires offset + 2 <= |buf|
  {
    (buf[offset] as int) * 256 + buf[offset + 1] as int
  }

  /** `writeUInt32BE`: four bytes, most significant first. */
  function U32(x: nat): (r: seq<byte>)
    requires x < 0x1_0000_0000
    ensures |r| == 4
    ensures ReadU32(r, 0) == x
  {
    var r := U16(x / 0x1_0000) + U16(x % 0x1_0000);
    assert ReadU16(r, 0) == x / 0x1_0000 && ReadU16(r, 2) == x % 0x1_0000;
    r
  }

  /** `readUInt32BE` at `offset`: the high and the low 16-bit halves. */
  function ReadU32(buf: seq<byte>, offset: nat): nat
    requires offset + 4 <= |buf|
  {
    ReadU16(buf, offset) * 0x1_0000 + ReadU16(buf, offset + 2)
  }

  /** Reading a field back is unaffected by bytes around it. */
  lemma ReadU32Shift(prefix: seq<byte>, field: seq<byte>, suffix: seq<byte>)
    requires |field| == 4
    ensures ReadU32(prefix + field + suffix, |prefix|) == ReadU32(field, 0)
  {
    var buf := prefix + field + suffix;
    assert buf[|prefix|..|prefix| + 4] == field;
  }
}
