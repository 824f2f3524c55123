/** Fixed-width unsigned integers as bit-vectors, and their host-order byte
    encodings. The C structures are read and written in host byte order; this
    model fixes that order to little-endian. */
module Bytes {

  type byte = bv8
  type u16 = bv16
  type u32 = bv32

  function EncodeU16(x: u16): (b: seq<byte>)
    ensures |b| == 2
  {
    [(x & 0xFF) as byte, (x >> 8) as byte]
  }

  function DecodeU16(b: seq<byte>): (x: u16)
    requires |b| >= 2
  {
    ((b[1] as u16) << 8) | (b[0] as u16)
  }

  function EncodeU32(x: u32): (b: seq<byte>)
    ensures |b| == 4
  {
    [(x & 0xFF) as byte, ((x >> 8) & 0xFF) as byte,
     ((x >> 16) & 0xFF) as byte, (x >> 24) as byte]
  }

  function DecodeU32(b: seq<byte>): (x: u32)
    requires |b| >= 4
  {
    ((b[3] as u32) << 24) | ((b[2] as u32) << 16) | ((b[1] as u32) << 8) | (b[0] as u32)
  }

  /** Decoding the two bytes written for `x` gives back `x`. */
  lemma DecodeEncodeU16(x: u16)
    ensures DecodeU16(EncodeU16(x)) == x
  {
  }

  /** Encoding the value read from two bytes writes those bytes again. */
  lemma EncodeDecodeU16(b: seq<byte>)
    requires |b| >= 2
    ensures EncodeU16(DecodeU16(b)) == b[..2]
  {
  }

  lemma DecodeEncodeU32(x: u32)
    ensures DecodeU32(EncodeU32(x)) == x
  {
  }

  lemma EncodeDecodeU32(b: seq<byte>)
    requires |b| >= 4
    ensures EncodeU32(DecodeU32(b)) == b[..4]
  {
  }
}
