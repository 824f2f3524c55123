/** The Netlink wire framing of sys/netlink/linux/netlink.h: the message
    header `struct nlmsghdr`, the message flags and control types, the 4-byte
    alignment macros, the attribute header `struct nlattr` and the bit split of
    its `nla_type` field. This is the message header and flag set of section
    2.3.2 of RFC 3549. */
module Netlink {
  import opened Bytes

  /** Netlink protocol number of Generic Netlink traffic, transcribed from
      the header; only the module bootstrap `genl_load`, which this model
      leaves out, uses it. */
  const NETLINK_GENERIC: int := 16

  /* ---------------------------------------------------------------------- */
  /* Message header                                                          */
  /* ---------------------------------------------------------------------- */

  /** `struct nlmsghdr`: total length including this header, message type,
      flags, sequence number and sending port id. */
  datatype NlMsgHdr = NlMsgHdr(len: u32, msgType: u16, flags: u16, sequence: u32, pid: u32)

  /** `sizeof(struct nlmsghdr)`: the field widths in declaration order. The
      fields are naturally aligned, so the compiler inserts no padding. */
  const SIZEOF_NLMSGHDR: u32 := 4 + 2 + 2 + 4 + 4

  /** The header as it lies in memory: the fields at offsets 0, 4, 6, 8, 12. */
  function EncodeNlMsgHdr(h: NlMsgHdr): (b: seq<byte>)
    ensures |b| == 16
  {
    EncodeU32(h.len) + EncodeU16(h.msgType) + EncodeU16(h.flags)
      + EncodeU32(h.sequence) + EncodeU32(h.pid)
  }

  /** Reading a `struct nlmsghdr` through a pointer cast of a buffer that holds
      at least `sizeof(struct nlmsghdr)` bytes. */
  function DecodeNlMsgHdr(b: seq<byte>): (h: NlMsgHdr)
    requires |b| >= 16
  {
    NlMsgHdr(DecodeU32(b[0..4]), DecodeU16(b[4..6]), DecodeU16(b[6..8]),
             DecodeU32(b[8..12]), DecodeU32(b[12..16]))
  }

  /** Reading back a written header yields every field that was written. */
  lemma DecodeEncodeNlMsgHdr(h: NlMsgHdr)
    ensures DecodeNlMsgHdr(EncodeNlMsgHdr(h)) == h
  {
    var b := EncodeNlMsgHdr(h);
    assert b[0..4] == EncodeU32(h.len);
    assert b[4..6] == EncodeU16(h.msgType);
    assert b[6..8] == EncodeU16(h.flags);
    assert b[8..12] == EncodeU32(h.sequence);
    assert b[12..16] == EncodeU32(h.pid);
    DecodeEncodeU32(h.len);
    DecodeEncodeU16(h.msgType);
    DecodeEncodeU16(h.flags);
    DecodeEncodeU32(h.sequence);
    DecodeEncodeU32(h.pid);
  }

  /** Writing back a header read from a buffer reproduces the buffer's first
      16 bytes: the header has no padding bytes that a round trip could lose. */
  lemma EncodeDecodeNlMsgHdr(b: seq<byte>)
    requires |b| >= 16
    ensures EncodeNlMsgHdr(DecodeNlMsgHdr(b)) == b[..16]
  {
    EncodeDecodeU32(b[0..4]);
    EncodeDecodeU16(b[4..6]);
    EncodeDecodeU16(b[6..8]);
    EncodeDecodeU32(b[8..12]);
    EncodeDecodeU32(b[12..16]);
    assert b[..16] == b[0..4] + b[4..6] + b[6..8] + b[8..12] + b[12..16];
  }

  /* ---------------------------------------------------------------------- */
  /* Message flags and control message types                                */
  /* ---------------------------------------------------------------------- */

  const NLM_F_REQUEST: u16 := 0x01
  const NLM_F_MULTI: u16 := 0x02
  const NLM_F_ACK: u16 := 0x04
  const NLM_F_ECHO: u16 := 0x08
  const NLM_F_DUMP_INTR: u16 := 0x10
  const NLM_F_DUMP_FILTERED: u16 := 0x20

  /* Modifiers to GET requests */
  const NLM_F_ROOT: u16 := 0x100
  const NLM_F_MATCH: u16 := 0x200
  const NLM_F_ATOMIC: u16 := 0x400
  const NLM_F_DUMP: u16 := NLM_F_ROOT | NLM_F_MATCH

  /* Modifiers to NEW requests */
  const NLM_F_REPLACE: u16 := 0x100
  const NLM_F_EXCL: u16 := 0x200
  const NLM_F_CREATE: u16 := 0x400
  const NLM_F_APPEND: u16 := 0x800

  /* Modifier to DELETE requests */
  const NLM_F_NONREC: u16 := 0x100

  /* Flags of ACK messages */
  const NLM_F_CAPPED: u16 := 0x100
  const NLM_F_ACK_TLVS: u16 := 0x200

  const NLMSG_NOOP: u16 := 0x1
  const NLMSG_ERROR: u16 := 0x2
  const NLMSG_DONE: u16 := 0x3
  const NLMSG_OVERRUN: u16 := 0x4

  /** Message types below this value are reserved for control messages. */
  const NLMSG_MIN_TYPE: u16 := 0x10

  /** A request asks for a dump exactly when both dump bits are set. */
  predicate IsDump(flags: u16)
  {
    flags & NLM_F_DUMP == NLM_F_DUMP
  }

  /** The composite dump flag is ROOT|MATCH, 0x300, and the flag values are
      reused per request kind: numerically it is also REPLACE|EXCL. */
  lemma DumpFlagValue()
    ensures NLM_F_DUMP == 0x300
    ensures NLM_F_DUMP == NLM_F_REPLACE | NLM_F_EXCL
    ensures IsDump(NLM_F_DUMP) && !IsDump(NLM_F_ROOT) && !IsDump(NLM_F_MATCH)
  {
  }

  /** The four control message types are 1 to 4 and lie in the reserved
      range below NLMSG_MIN_TYPE. */
  lemma ControlTypesReserved()
    ensures NLMSG_NOOP == 1 && NLMSG_ERROR == 2 && NLMSG_DONE == 3 && NLMSG_OVERRUN == 4
    ensures NLMSG_NOOP < NLMSG_MIN_TYPE && NLMSG_ERROR < NLMSG_MIN_TYPE
    ensures NLMSG_DONE < NLMSG_MIN_TYPE && NLMSG_OVERRUN < NLMSG_MIN_TYPE
  {
  }

  /* ---------------------------------------------------------------------- */
  /* Alignment                                                               */
  /* ---------------------------------------------------------------------- */

  const NLMSG_ALIGNTO: u32 := 4

  /** `NLMSG_ALIGN` on a 32-bit unsigned length: add ALIGNTO-1, then clear the
      low two bits. The result is a multiple of 4 at most 3 above `len`,
      counted modulo 2^32; the addition wraps, so `len <= r` needs the length
      to be at most 2^32-4. */
  function NlmsgAlign(len: u32): (r: u32)
    ensures r & 3 == 0
    ensures r - len <= 3
    ensures len <= 0xFFFF_FFFC ==> len <= r
  {
    var r := (len + 3) & !3;
    AlignMultipleOfFour(len);
    AlignDistance(len);
    AlignNoWrapAbove(len);
    r
  }

  /* The three facts behind NlmsgAlign's contract, one bit-vector fact per
     lemma so that the solver meets them one at a time. */
  lemma AlignMultipleOfFour(len: u32)
    ensures ((len + 3) & !3) & 3 == 0
  {
  }

  lemma AlignDistance(len: u32)
    ensures ((len + 3) & !3) - len <= 3
  {
  }

  lemma AlignNoWrapAbove(len: u32)
    ensures len <= 0xFFFF_FFFC ==> len <= (len + 3) & !3
  {
  }

  /** A length that is already a multiple of 4 is left unchanged. */
  lemma NlmsgAlignFixesAligned(len: u32)
    requires len & 3 == 0
    ensures NlmsgAlign(len) == len
  {
  }

  /** The body above is the macro with NLMSG_ALIGNTO substituted. */
  lemma NlmsgAlignIsMacro(len: u32)
    ensures NlmsgAlign(len) == (len + NLMSG_ALIGNTO - 1) & !(NLMSG_ALIGNTO - 1)
  {
  }

  /** Clearing the low two bits is subtracting the remainder modulo 4: the
      macro rounds `len` up to the next multiple of 4, modulo 2^32. */
  lemma NlmsgAlignRoundsUp(len: u32)
    ensures NlmsgAlign(len) == (len + 3) - (len + 3) % 4
    ensures NlmsgAlign(len) % 4 == 0
  {
    ClearLowBitsIsSubtractRemainder(len + 3);
  }

  lemma ClearLowBitsIsSubtractRemainder(x: u32)
    ensures x & !3 == x - x % 4
    ensures (x & !3) % 4 == 0
  {
  }

  /** Aligning twice is aligning once. */
  lemma NlmsgAlignIdempotent(len: u32)
    ensures NlmsgAlign(NlmsgAlign(len)) == NlmsgAlign(len)
  {
    NlmsgAlignFixesAligned(NlmsgAlign(len));
  }

  /** Past 2^32-4 the addition wraps: the bound `len <= NlmsgAlign(len)`
      really needs its precondition. */
  lemma NlmsgAlignWraps()
    ensures NlmsgAlign(0xFFFF_FFFD) == 0
  {
  }

  /** `NLMSG_HDRLEN`, the aligned header size cast to int; NlmsgHdrLen
      derives the value from the macro. */
  const NLMSG_HDRLEN: int := 16

  /** The header fields total 16 bytes, a size NLMSG_ALIGN leaves unchanged,
      and the encoding of any header fills exactly NLMSG_HDRLEN bytes. */
  lemma NlmsgHdrLen(h: NlMsgHdr)
    ensures NLMSG_HDRLEN == NlmsgAlign(SIZEOF_NLMSGHDR) as int
    ensures NLMSG_HDRLEN == SIZEOF_NLMSGHDR as int
    ensures |EncodeNlMsgHdr(h)| == NLMSG_HDRLEN
  {
  }

  /* ---------------------------------------------------------------------- */
  /* Attributes                                                              */
  /* ---------------------------------------------------------------------- */

  /** `struct nlattr`: attribute length (header included) and type. */
  datatype NlAttr = NlAttr(len: u16, attrType: u16)

  const SIZEOF_NLATTR: u32 := 2 + 2

  function EncodeNlAttr(a: NlAttr): (b: seq<byte>)
    ensures |b| == 4
  {
    EncodeU16(a.len) + EncodeU16(a.attrType)
  }

  function DecodeNlAttr(b: seq<byte>): (a: NlAttr)
    requires |b| >= 4
  {
    NlAttr(DecodeU16(b[0..2]), DecodeU16(b[2..4]))
  }

  lemma DecodeEncodeNlAttr(a: NlAttr)
    ensures DecodeNlAttr(EncodeNlAttr(a)) == a
  {
    var b := EncodeNlAttr(a);
    assert b[0..2] == EncodeU16(a.len);
    assert b[2..4] == EncodeU16(a.attrType);
    DecodeEncodeU16(a.len);
    DecodeEncodeU16(a.attrType);
  }

  /** Writing back an attribute header read from a buffer reproduces the
      buffer's first 4 bytes: `struct nlattr` has no padding. */
  lemma EncodeDecodeNlAttr(b: seq<byte>)
    requires |b| >= 4
    ensures EncodeNlAttr(DecodeNlAttr(b)) == b[..4]
  {
    EncodeDecodeU16(b[0..2]);
    EncodeDecodeU16(b[2..4]);
    assert b[..4] == b[0..2] + b[2..4];
  }

  const NLA_ALIGNTO: u32 := 4

  /** `NLA_ALIGN` on a C `int`, given as its 32-bit two's complement pattern:
      NLA_ALIGNTO is a plain int, so the arithmetic is signed, and the
      addition `len + 4` must not overflow INT_MAX (lengths 2^31-4 .. 2^31-1). The bit
      operations are those of NLMSG_ALIGN; the result is `len` moved up by at
      most 3 to a multiple of 4, for negative lengths as well. */
  function NlaAlign(len: u32): (r: u32)
    requires !(0x7FFF_FFFC <= len <= 0x7FFF_FFFF)
    ensures r & 3 == 0
    ensures r - len <= 3
    ensures len <= 0x7FFF_FFFB ==> len <= r <= 0x7FFF_FFFC
  {
    AlignMultipleOfFour(len);
    AlignDistance(len);
    AlignNoWrapAbove(len);
    AlignStaysNonNegative(len);
    (len + 3) & !3
  }

  lemma AlignStaysNonNegative(len: u32)
    ensures len <= 0x7FFF_FFFB ==> (len + 3) & !3 <= 0x7FFF_FFFC
  {
  }

  /** On non-negative lengths NLA_ALIGN and NLMSG_ALIGN agree. */
  lemma NlaAlignAgrees(len: u32)
    requires len <= 0x7FFF_FFFB
    ensures NlaAlign(len) == NlmsgAlign(len)
    ensures NlaAlign(len) == (len + NLA_ALIGNTO - 1) & !(NLA_ALIGNTO - 1)
  {
  }

  /** `NLA_HDRLEN`, the aligned attribute header size cast to int; NlaHdrLen
      derives the value from the macro. */
  const NLA_HDRLEN: int := 4

  /** The attribute header is 4 bytes, already aligned, and its encoding
      fills exactly NLA_HDRLEN bytes. */
  lemma NlaHdrLen(a: NlAttr)
    ensures NLA_HDRLEN == NlaAlign(SIZEOF_NLATTR) as int
    ensures NLA_HDRLEN == SIZEOF_NLATTR as int
    ensures |EncodeNlAttr(a)| == NLA_HDRLEN
  {
  }

  /* ---------------------------------------------------------------------- */
  /* The nla_type bit split                                                  */
  /* ---------------------------------------------------------------------- */

  /** Bit 15: the attribute carries nested attributes. */
  const NLA_F_NESTED: u16 := 1 << 15
  /** Bit 14: the payload is stored in network byte order. */
  const NLA_F_NET_BYTEORDER: u16 := 1 << 14
  /** The low 14 bits: the attribute type id. The C macro is an `int` whose
      upper 16 bits are also set; they vanish when it is and-ed with the 16-bit
      `nla_type`. */
  const NLA_TYPE_MASK: u16 := !(NLA_F_NESTED | NLA_F_NET_BYTEORDER)

  /** The three parts of an `nla_type`. */
  datatype NlaType = NlaType(nested: bool, netByteOrder: bool, id: u16)

  function SplitNlaType(t: u16): (f: NlaType)
    ensures f.id < 0x4000
  {
    MaskBelowFlags(t);
    NlaType(t & NLA_F_NESTED != 0, t & NLA_F_NET_BYTEORDER != 0, t & NLA_TYPE_MASK)
  }

  function JoinNlaType(f: NlaType): (t: u16)
    requires f.id < 0x4000
  {
    (if f.nested then NLA_F_NESTED else 0)
      | (if f.netByteOrder then NLA_F_NET_BYTEORDER else 0)
      | f.id
  }

  lemma MaskBelowFlags(t: u16)
    ensures t & NLA_TYPE_MASK < 0x4000
  {
  }

  /** The mask clears exactly bits 15 and 14: the type id and the two flags
      are disjoint and together give back the whole field. */
  lemma TypeMaskPartition(t: u16)
    ensures NLA_TYPE_MASK == 0x3FFF
    ensures t & NLA_TYPE_MASK < 0x4000
    ensures t == (t & NLA_TYPE_MASK) | (t & (NLA_F_NESTED | NLA_F_NET_BYTEORDER))
    ensures (t & NLA_TYPE_MASK) & (t & (NLA_F_NESTED | NLA_F_NET_BYTEORDER)) == 0
  {
  }

  /** Splitting then joining an `nla_type` gives it back. */
  lemma JoinSplitNlaType(t: u16)
    ensures JoinNlaType(SplitNlaType(t)) == t
  {
    TypeMaskPartition(t);
  }

  /** Joining then splitting gives back the flags and the id. */
  lemma SplitJoinNlaType(f: NlaType)
    requires f.id < 0x4000
    ensures SplitNlaType(JoinNlaType(f)) == f
  {
    var flags: u16 := (if f.nested then NLA_F_NESTED else 0)
      | (if f.netByteOrder then NLA_F_NET_BYTEORDER else 0);
    assert flags & NLA_TYPE_MASK == 0;
    assert f.nested <==> flags & NLA_F_NESTED != 0;
    assert f.netByteOrder <==> flags & NLA_F_NET_BYTEORDER != 0;
    FlagsAndIdSeparate(flags, f.id);
  }

  /** Or-ing flag bits onto an id below 0x4000 keeps both recoverable. */
  lemma FlagsAndIdSeparate(flags: u16, id: u16)
    requires flags & NLA_TYPE_MASK == 0 && id < 0x4000
    ensures (flags | id) & NLA_TYPE_MASK == id
    ensures (flags | id) & NLA_F_NESTED == flags & NLA_F_NESTED
    ensures (flags | id) & NLA_F_NET_BYTEORDER == flags & NLA_F_NET_BYTEORDER
  {
  }

  /** The N and O flags are mutually exclusive in a well-formed type. */
  predicate WellFormedNlaType(t: u16)
  {
    var f := SplitNlaType(t);
    !(f.nested && f.netByteOrder)
  }

  /** Well-formedness rules out exactly the types with both top bits set. */
  lemma WellFormedNlaTypeBits(t: u16)
    ensures WellFormedNlaType(t) <==> t & 0xC000 != 0xC000
  {
  }
}
