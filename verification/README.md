# Generic Netlink dispatch layer: a Dafny model

This project models the core of FreeBSD's Generic Netlink layer
(`sys/netlink/genetlink.c`) and the Netlink wire framing it relies on
(`sys/netlink/linux/netlink.h`), and proves properties of that model.

* **Wire framing** (`netlink.dfy`, module `Netlink`). It covers the message header
  `struct nlmsghdr` and its 16-byte host-order layout. It has the message flags,
  including the composite `NLM_F_DUMP`, and the control message types. It models
  the alignment macros `NLMSG_ALIGN` and `NLA_ALIGN` on 32-bit values, and the
  header sizes `NLMSG_HDRLEN` and `NLA_HDRLEN`. It covers the attribute header
  `struct nlattr` and the split of `nla_type` into the nested flag, the
  network-byte-order flag and a 14-bit type id. These are the message header and
  flags of section 2.3.2 of RFC 3549.
* **Family registry** (`genetlink.dfy`, module `Genetlink`). The kernel's
  head-inserted family list is a `seq<Family>` whose element 0 is the list head.
  A family pointer returned by a lookup is the family's position in the sequence.
  `Register` refuses a taken name with `EEXIST` and does not check ids.
  `Unregister` drops the first family with the given id, or returns `ENOENT`.
* **Receive path** (`Receive`, `ReceiveFamily`, `GetCmd` and the two handler stubs).
  The chain is: family lookup by `nlmsg_type` (`ENOENT`), then the minimum length
  check (`EBADMSG`), then the command lookup, then routing on the DUMP flag. As
  written, `genl_get_cmd` stores a match only in its own by-value copy of the
  `ops` pointer and always returns `ENOENT`. So every message that passes the
  length check ends in `EOPNOTSUPP`, and the `EINVAL` check and the routing are
  unreachable. The model keeps these branches and proves that they are dead.
* **Reply stamping** (`GenlmsgPut`). `nlmsg_put` is a function parameter that
  either fails or yields a header.
* **Properties** (`genetlink_props.dfy`, module `GenetlinkProps`). This module
  relates the operations to each other: lookups after register and unregister,
  the register/unregister inverse, what duplicate ids allow, and what happens
  when a built reply is parsed and received.

Helpers: `util.dfy` holds `Option` and the first-match list scan, and `bytes.dfy`
holds the fixed-width integers as bit-vectors with their byte encodings.

Behaviour of the code as written that differs from Linux Generic Netlink:

* A generic header that is too short gives `EBADMSG`, tested against
  `NLMSG_HDRLEN + GENL_HDRLEN` only. The `EINVAL` check at genetlink.c:113
  against the family header size is never reached.
* No command ever reaches its handler, not even one the family's table holds:
  the command lookup always fails, so every message with a registered type and
  enough length ends in `EOPNOTSUPP`.
* `nlmsg_len` is never compared with the buffer size.
* Once an id is unregistered, a lookup of it fails exactly when no later family
  carries the same id (`UnregisterThenFind`); with unique ids that is always the
  case (`UnregisterUniqueThenNotFound`). With a duplicate id the older family is
  found again (`UnregisterDuplicateIdStillFound`).

Modelling choices:

* Wire fields are bit-vectors (`bv8`, `bv16`, `bv32`), so unsigned wrap-around is
  explicit.
* The host byte order of the in-memory structures is taken to be little-endian.
* Error numbers use FreeBSD's values: `ENOENT` 2, `EEXIST` 17, `EINVAL` 22,
  `EOPNOTSUPP` 45, `EBADMSG` 89.
* `GENL_HDRLEN` (4) and `nlmsg_msg_size` (header length plus payload) take their
  Linux definitions. `net/genetlink.h` and `net/netlink.h` are not part of this
  model.
* `Receive` requires at least 16 bytes, as the comment above
  `genl_receive_message` states. It also requires a 17th byte when
  the family is found and `nlmsg_len` passes the length check, because only then
  does the code read past the netlink header, and then only the generic header's
  command byte, trusting `nlmsg_len`. An unknown type is answered without
  reading further (`ReceiveUnknownShortBuffer`), and a 17-byte message of a
  registered type claiming 100 bytes is answered `EOPNOTSUPP`
  (`ReceiveCommandByteOnly`).

## Model

| member | source | states |
|---|---|---|
| Netlink.DecodeEncodeNlMsgHdr | sys/netlink/linux/netlink.h:64-70 | reading back a written `nlmsghdr` gives all five fields back |
| Netlink.EncodeDecodeNlMsgHdr | sys/netlink/linux/netlink.h:64-70 | writing back a header read from a buffer reproduces the first 16 bytes, so the layout has no padding |
| Netlink.DumpFlagValue | sys/netlink/linux/netlink.h:86-94 | `NLM_F_DUMP` is ROOT\|MATCH = 0x300, numerically equal to REPLACE\|EXCL; it counts as a dump only when both bits are set |
| Netlink.ControlTypesReserved | sys/netlink/linux/netlink.h:105-110 | NOOP, ERROR, DONE and OVERRUN all lie below `NLMSG_MIN_TYPE` |
| Netlink.NlmsgAlign | sys/netlink/linux/netlink.h:112-113 | the result is a multiple of 4 and at most 3 above the length modulo 2^32; it is at least the length when the length is at most 2^32-4 |
| Netlink.NlmsgAlignIsMacro | sys/netlink/linux/netlink.h:112-113 | the model is the macro with `NLMSG_ALIGNTO` = 4 substituted |
| Netlink.NlmsgAlignFixesAligned | sys/netlink/linux/netlink.h:113 | a multiple of 4 is left unchanged |
| Netlink.NlmsgAlignRoundsUp | sys/netlink/linux/netlink.h:113 | clearing the low bits equals subtracting the remainder mod 4, i.e. rounding up to the next multiple of 4 |
| Netlink.NlmsgAlignIdempotent | sys/netlink/linux/netlink.h:113 | aligning twice equals aligning once |
| Netlink.NlmsgAlignWraps | sys/netlink/linux/netlink.h:113 | above 2^32-4 the addition wraps (0xFFFFFFFD aligns to 0), so the lower bound needs its precondition |
| Netlink.NlmsgHdrLen | sys/netlink/linux/netlink.h:114 | `NLMSG_HDRLEN` is the aligned `sizeof(struct nlmsghdr)` = 4+2+2+4+4 = 16, and every encoded header fills exactly that many bytes |
| Netlink.DecodeEncodeNlAttr | sys/netlink/linux/netlink.h:134-137 | reading back a written `nlattr` gives length and type back |
| Netlink.EncodeDecodeNlAttr | sys/netlink/linux/netlink.h:134-137 | writing back an `nlattr` read from a buffer reproduces its first 4 bytes, so the layout has no padding |
| Netlink.NlaAlign | sys/netlink/linux/netlink.h:153-154 | on a signed 32-bit length where `len + 4` does not overflow (not 2^31-4 .. 2^31-1): the result is a multiple of 4 and at most 3 above the length, and lengths 0 .. 2^31-5 are rounded up to at most 2^31-4 |
| Netlink.NlaAlignAgrees | sys/netlink/linux/netlink.h:153-154 | on lengths 0 .. 2^31-5, where `len + 4` does not overflow, `NLA_ALIGN` equals `NLMSG_ALIGN` and the macro with `NLA_ALIGNTO` substituted |
| Netlink.NlaHdrLen | sys/netlink/linux/netlink.h:155 | `NLA_HDRLEN` is the aligned `sizeof(struct nlattr)` = 4, and an encoded attribute header fills exactly that many bytes |
| Netlink.SplitNlaType | sys/netlink/linux/netlink.h:139-151 | the type id taken from an `nla_type` is below 0x4000 |
| Netlink.TypeMaskPartition | sys/netlink/linux/netlink.h:149-151 | `NLA_TYPE_MASK` is 0x3FFF on 16 bits; the masked id and the two flag bits are disjoint and together give back the field |
| Netlink.JoinSplitNlaType | sys/netlink/linux/netlink.h:139-151 | splitting an `nla_type` into flags and id and joining them again gives it back |
| Netlink.SplitJoinNlaType | sys/netlink/linux/netlink.h:139-151 | joining flags and an id below 0x4000 and splitting again gives them back |
| Netlink.WellFormedNlaTypeBits | sys/netlink/linux/netlink.h:147 | a type is well formed (N and O not both set) exactly when its top two bits are not both 1 |
| Genetlink.GenlHdrLen | sys/netlink/genetlink.c:180 | `GENL_HDRLEN` is the aligned size of cmd, version and reserved (4), and an encoded generic header fills it |
| Genetlink.DecodeEncodeGenlMsgHdr | sys/netlink/genetlink.c:183-186 | reading back a written generic header gives cmd, version and reserved back |
| Genetlink.EncodeDecodeGenlMsgHdr | sys/netlink/genetlink.c:183-186 | writing back a generic header read from a buffer reproduces its first 4 bytes |
| Util.FirstMatch | sys/netlink/genetlink.c:55-59 | the scan returns the first position whose element satisfies the test, no earlier element does, and None exactly when none does |
| Genetlink.FindById | sys/netlink/genetlink.c:51-60 | the result is the first list position with that id, so no earlier family has it; None exactly when no family has it |
| Genetlink.FindByName | sys/netlink/genetlink.c:62-71 | the result is the first list position with that name; None exactly when no family has it |
| Genetlink.Register | sys/netlink/genetlink.c:143-156 | EEXIST exactly when some family has the name, with the registry unchanged; otherwise 0 and the new family at the head in front of the old list; ids are not consulted |
| Genetlink.Unregister | sys/netlink/genetlink.c:157-168 | ENOENT exactly when no family has the id, with the registry unchanged; otherwise 0 and only the first family with that id is removed, the rest kept in order |
| Genetlink.ScanOps | sys/netlink/genetlink.c:77-80 | the loop's pointer ends at the last table entry with the command, or stays as it entered when no entry from the start position on matches |
| Genetlink.GetCmd | sys/netlink/genetlink.c:73-83 | every call returns ENOENT and leaves the caller's `ops` pointer as passed; the function's own copy ends at the last entry with the command when the table holds it, and otherwise stays as passed |
| Genetlink.ReceiveDumpit | sys/netlink/genetlink.c:85-90 | the dump handler stub answers EOPNOTSUPP |
| Genetlink.ReceiveDoit | sys/netlink/genetlink.c:92-97 | the single-request handler stub answers EOPNOTSUPP |
| Genetlink.ReceiveFamily | sys/netlink/genetlink.c:99-120 | every message reaching the family stage ends in EOPNOTSUPP: the EINVAL check and the DUMP routing are unreachable |
| Genetlink.GenlMinLen | sys/netlink/genetlink.c:136 | the length threshold `NLMSG_HDRLEN + GENL_HDRLEN` is 20 |
| GenetlinkProps.ReceiveCommandByteOnly | sys/netlink/genetlink.c:104-108 | a 17-byte message of a registered type claiming 100 bytes is answered EOPNOTSUPP, since only the command byte is read past the netlink header |
| GenetlinkProps.ReceiveUnknownShortBuffer | sys/netlink/genetlink.c:129-134 | a bare 16-byte header of an unregistered type claiming 100 bytes is answered ENOENT |
| Genetlink.Receive | sys/netlink/genetlink.c:122-141 | the result is ENOENT, EBADMSG or EOPNOTSUPP. ENOENT exactly when `nlmsg_type` is unregistered, whatever `nlmsg_len` is; EBADMSG exactly when it is registered and `nlmsg_len` < 20; EOPNOTSUPP otherwise |
| Genetlink.GenlmsgPut | sys/netlink/genetlink.c:170-189 | fails exactly when `nlmsg_put` fails for type = family id and payload = `GENL_HDRLEN` + hdrsize; otherwise keeps that header and stamps cmd, the family version and reserved = 0 |
| GenetlinkProps.RegisterThenFind | sys/netlink/genetlink.c:143-156 | after a successful register, both lookups find the new family at the head, shadowing an older family with the same id |
| GenetlinkProps.RegisterKeepsOtherLookups | sys/netlink/genetlink.c:152 | after a register, lookups of any other id or name find the same family as before, one position further down |
| GenetlinkProps.RegisterDuplicateName | sys/netlink/genetlink.c:146-148 | a second family with the same name is refused and the name still finds the first |
| GenetlinkProps.RegisterKeepsNamesUnique | sys/netlink/genetlink.c:146-152 | register preserves the invariant that no two families share a name |
| GenetlinkProps.RegisterAcceptsDuplicateId | sys/netlink/genetlink.c:149 | a fresh name with a taken id is accepted, after which ids are no longer unique |
| GenetlinkProps.RegisterUnregisterInverse | sys/netlink/genetlink.c:143-168 | unregistering a family right after registering it restores the registry exactly |
| GenetlinkProps.UnregisterThenFind | sys/netlink/genetlink.c:158-168 | after unregister the id is found again exactly when a later family carried it too, and that later family is the one found |
| GenetlinkProps.UnregisterUniqueThenNotFound | sys/netlink/genetlink.c:158-168 | with unique ids, an unregistered id is no longer found |
| GenetlinkProps.UnregisterKeepsOtherIds | sys/netlink/genetlink.c:160-162 | unregister leaves every other id's lookup finding the same family |
| GenetlinkProps.UnregisterDuplicateIdStillFound | sys/netlink/genetlink.c:149-162 | two families registered under id 16: removing one leaves the other findable |
| GenetlinkProps.GetCmdIgnoresMatch | sys/netlink/genetlink.c:77-82 | even when the family's table holds the command and the local copy finds it, the lookup fails and the caller's NULL pointer stays NULL |
| GenetlinkProps.RoutingIndifferentToDump | sys/netlink/genetlink.c:116-119 | the family-stage result does not depend on the DUMP flag, and both stubs answer alike |
| GenetlinkProps.BuildParseRoundTrip | sys/netlink/genetlink.c:179-188 | assuming `nlmsg_put` writes the requested type, parsing a built reply gives the family id as message type, plus the command, the family version and reserved = 0 |
| GenetlinkProps.BuiltReplyReceived | sys/netlink/genetlink.c:124-141 | a reply built for a registered family, once its length is set, is received as EBADMSG below 20 bytes and EOPNOTSUPP otherwise |
| GenetlinkProps.RegisterThenReceive | sys/netlink/genetlink.c:129-134 | once a family is registered, messages of its type are never refused as unknown |

## Left out

- Locking (`GENL_LOCK`, `genl_mtx`) and the use-after-unregister race between lookup and use: the registry is one sequential value.
- Memory management (`free(fam, M_GENETLINK)`, `MALLOC_DEFINE`): unregister just drops the list element.
- Module bootstrap (`genl_load`, `genl_unload`, `SYSINIT`, `nl_register_or_replace_handler`): kernel plumbing with no logic of its own.
- The `D()` debug logging: output only.
- The internals of `nlmsg_put` and `nlmsg_data` (defined in net/netlink.h, outside this model): `nlmsg_put` is a parameter, and `nlmsg_data` is the offset `NLMSG_HDRLEN` used when the generic header is read.
- The doit/dumpit handler pointers and permission flags of `struct genl_ops`: this layer never calls them.
- `struct sockaddr_nl`, the socket option constants, the other `NETLINK_*` protocol numbers and `struct nlmsgerr`: addressing and transport concerns, outside the dispatch core.
- The test client `sys/netlink/test/nltest.c`: socket I/O.
- Attribute iteration, attribute policies, permission checks, dump pagination and multicast do not exist in the code and are not invented here.
- `NLMSG_ALIGN` and `NLA_ALIGN` applied to a 64-bit `sizeof` (in `NLMSG_HDRLEN` and `NLA_HDRLEN`): only the unsigned 32-bit instantiation of `NLMSG_ALIGN` and the signed 32-bit instantiation of `NLA_ALIGN` are modelled. The header sizes they are applied to are small constants, so the width makes no difference there.
- Byte order: the host-native layout is fixed to little-endian. A big-endian host would only permute the bytes within each field.
- Names are compared as whole strings. `strcmp`'s stop at a NUL byte is not modelled.
- A 16-byte buffer of a registered type whose `nlmsg_len` is at least 20: the code reads one byte past the buffer end (the command byte), so `Receive` requires that byte to be present when the family is found and the length check passes. Every other buffer shorter than `nlmsg_len` is modelled.
- Genetlink.GenlmsgPut: does not state what `nlmsg_put` writes into the header (length, port id, sequence, flags), because that function is not part of this model.
