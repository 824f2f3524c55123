/** The Generic Netlink layer of sys/netlink/genetlink.c: the registry of
    families, the receive path that routes an inbound message to its family
    and command, and the stamping of a reply's headers.

    The registry is the kernel's head-inserted family list, held as a
    sequence whose element 0 is the list head. A family pointer returned by a
    lookup is modelled as the position of that family in the sequence. */
module Genetlink {
  import opened Util
  import opened Bytes
  import opened Netlink

  /* Error numbers, with the values of FreeBSD's errno.h. */
  const ENOENT: int := 2
  const EEXIST: int := 17
  const EINVAL: int := 22
  const EOPNOTSUPP: int := 45
  const EBADMSG: int := 89

  /* ---------------------------------------------------------------------- */
  /* Generic Netlink header                                                  */
  /* ---------------------------------------------------------------------- */

  /** `struct genlmsghdr`, which follows the netlink header: the command,
      the family's interface version and a reserved field. */
  datatype GenlMsgHdr = GenlMsgHdr(cmd: byte, version: byte, reserved: u16)

  /** `GENL_HDRLEN`, the aligned size of `struct genlmsghdr`. It is defined in
      net/genetlink.h, which is not part of this model; the value is the one
      Linux uses, and GenlHdrLen checks it against the structure. */
  const GENL_HDRLEN: int := 4

  function EncodeGenlMsgHdr(g: GenlMsgHdr): (b: seq<byte>)
    ensures |b| == 4
  {
    [g.cmd, g.version] + EncodeU16(g.reserved)
  }

  function DecodeGenlMsgHdr(b: seq<byte>): (g: GenlMsgHdr)
    requires |b| >= 4
  {
    GenlMsgHdr(b[0], b[1], DecodeU16(b[2..4]))
  }

  /** The generic header is 4 bytes, already aligned. */
  lemma GenlHdrLen(g: GenlMsgHdr)
    ensures GENL_HDRLEN == NlmsgAlign(1 + 1 + 2) as int
    ensures |EncodeGenlMsgHdr(g)| == GENL_HDRLEN
  {
  }

  lemma DecodeEncodeGenlMsgHdr(g: GenlMsgHdr)
    ensures DecodeGenlMsgHdr(EncodeGenlMsgHdr(g)) == g
  {
    assert EncodeGenlMsgHdr(g)[2..4] == EncodeU16(g.reserved);
    DecodeEncodeU16(g.reserved);
  }

  /** Writing back a generic header read from a buffer reproduces the
      buffer's first 4 bytes: `struct genlmsghdr` has no padding. */
  lemma EncodeDecodeGenlMsgHdr(b: seq<byte>)
    requires |b| >= 4
    ensures EncodeGenlMsgHdr(DecodeGenlMsgHdr(b)) == b[..4]
  {
    EncodeDecodeU16(b[2..4]);
    assert b[..4] == [b[0], b[1]] + b[2..4];
  }

  /* ---------------------------------------------------------------------- */
  /* Families and the registry                                               */
  /* ---------------------------------------------------------------------- */

  /** One entry of a family's command table. The doit/dumpit handler
      pointers are never called by this layer and are left out. */
  datatype GenlOps = GenlOps(cmd: byte)

  /** `struct genl_family`: numeric id (the netlink message type of its
      traffic), name, interface version, size of the family-specific header
      that follows the generic header, and command table (`ops`, `n_ops`). */
  datatype Family = Family(id: u16, name: string, version: byte, hdrsize: u16, ops: seq<GenlOps>)

  /** The family list, head first. */
  type Registry = seq<Family>

  /** `genl_find_family_by_id`: the first family in list order with this id,
      so the most recently registered one when ids repeat. */
  function FindById(reg: Registry, id: u16): (r: Option<nat>)
    ensures r.Some? ==> r.value < |reg| && reg[r.value].id == id
    ensures r.Some? ==> forall j :: 0 <= j < r.value ==> reg[j].id != id
    ensures r.None? <==> forall j :: 0 <= j < |reg| ==> reg[j].id != id
  {
    FirstMatch(reg, (f: Family) => f.id == id)
  }

  /** `genl_find_family_by_name`: the first family in list order whose name
      equals `name` (the C code compares with strcmp). */
  function FindByName(reg: Registry, name: string): (r: Option<nat>)
    ensures r.Some? ==> r.value < |reg| && reg[r.value].name == name
    ensures r.Some? ==> forall j :: 0 <= j < r.value ==> reg[j].name != name
    ensures r.None? <==> forall j :: 0 <= j < |reg| ==> reg[j].name != name
  {
    FirstMatch(reg, (f: Family) => f.name == name)
  }

  /** The status a registry operation returns with the registry after it. */
  datatype Update = Update(status: int, reg: Registry)

  /** `genl_register_family`: refuse a family whose name is already taken,
      otherwise insert it at the head. Ids are not checked for uniqueness. */
  function Register(reg: Registry, family: Family): (r: Update)
    ensures r.status == 0 || r.status == EEXIST
    ensures r.status == EEXIST <==> exists i :: 0 <= i < |reg| && reg[i].name == family.name
    ensures r.status == EEXIST ==> r.reg == reg
    ensures r.status == 0 ==> |r.reg| == |reg| + 1 && r.reg[0] == family && r.reg[1..] == reg
  {
    if FindByName(reg, family.name).Some? then Update(EEXIST, reg)
    else Update(0, [family] + reg)
  }

  /** `genl_unregister_family`: unlink the first family carrying the id of
      `family`, or report ENOENT. */
  function Unregister(reg: Registry, family: Family): (r: Update)
    ensures r.status == 0 || r.status == ENOENT
    ensures r.status == ENOENT <==> forall i :: 0 <= i < |reg| ==> reg[i].id != family.id
    ensures r.status == ENOENT ==> r.reg == reg
    ensures r.status == 0 ==> |r.reg| == |reg| - 1
    ensures r.status == 0 ==>
      var k := FindById(reg, family.id).value;
      r.reg[..k] == reg[..k] && r.reg[k..] == reg[k + 1..]
  {
    match FindById(reg, family.id)
    case None => Update(ENOENT, reg)
    case Some(k) => Update(0, reg[..k] + reg[k + 1..])
  }

  /* ---------------------------------------------------------------------- */
  /* Receive path                                                            */
  /* ---------------------------------------------------------------------- */

  /** Does the family's command table hold an entry for `cmd`? */
  predicate HasCmd(family: Family, cmd: byte)
  {
    exists i :: 0 <= i < |family.ops| && family.ops[i].cmd == cmd
  }

  /** What `genl_get_cmd` leaves behind: its status, the caller's `ops`
      pointer, and the value the function's own by-value copy of `ops` holds
      when the loop ends. Pointers into the command table are indices, None
      is NULL. */
  datatype CmdLookup = CmdLookup(status: int, ops: Option<nat>, local: Option<nat>)

  /** The loop of `genl_get_cmd` from entry `i` on, with `local` the current
      value of its copy of `ops`. There is no `break`, so a later match
      overwrites an earlier one: the loop ends at the last match, or with
      `local` untouched when nothing from `i` on matches. */
  function ScanOps(table: seq<GenlOps>, cmd: byte, i: nat, local: Option<nat>): (r: Option<nat>)
    requires i <= |table|
    ensures (forall j :: i <= j < |table| ==> table[j].cmd != cmd) ==> r == local
    ensures (exists j :: i <= j < |table| && table[j].cmd == cmd) ==>
      && r.Some? && i <= r.value < |table| && table[r.value].cmd == cmd
      && forall j :: r.value < j < |table| ==> table[j].cmd != cmd
    decreases |table| - i
  {
    if i == |table| then local
    else ScanOps(table, cmd, i + 1, if table[i].cmd == cmd then Some(i) else local)
  }

  /** `genl_get_cmd`. The loop stores the matching table entry only into the
      function's by-value copy of `ops`, and the function returns ENOENT after
      the loop whatever it found: every lookup fails and the caller's pointer
      is never set, even when the table holds the command. */
  function GetCmd(cmd: byte, family: Family, ops: Option<nat>): (r: CmdLookup)
    ensures r.status == ENOENT
    ensures r.ops == ops
    ensures HasCmd(family, cmd) ==>
      && r.local.Some? && r.local.value < |family.ops| && family.ops[r.local.value].cmd == cmd
      && forall j :: r.local.value < j < |family.ops| ==> family.ops[j].cmd != cmd
    ensures !HasCmd(family, cmd) ==> r.local == ops
  {
    var local := ScanOps(family.ops, cmd, 0, ops);
    CmdLookup(ENOENT, ops, local)
  }

  /** `genl_receive_message_dumpit`, a stub. */
  function ReceiveDumpit(ops: Option<nat>, nlh: NlMsgHdr): (r: int)
    ensures r == EOPNOTSUPP
  {
    EOPNOTSUPP
  }

  /** `genl_receive_message_doit`, a stub. */
  function ReceiveDoit(ops: Option<nat>, nlh: NlMsgHdr): (r: int)
    ensures r == EOPNOTSUPP
  {
    EOPNOTSUPP
  }

  /** `GENL_HDRLEN + family->hdrsize`: the generic header plus the family's
      own fixed header. */
  function GenlHdrLenOf(family: Family): (n: u32)
  {
    GENL_HDRLEN as u32 + family.hdrsize as u32
  }

  /** `nlmsg_msg_size`: the header length plus a payload length. It is
      defined in net/netlink.h, which is not part of this model; this is the
      Linux definition. */
  function NlmsgMsgSize(payload: u32): (n: u32)
  {
    NLMSG_HDRLEN as u32 + payload
  }

  /** `genl_receive_message_family`: command lookup, then the length check
      against the family header, then routing on the DUMP flag. Since the
      command lookup always fails, every call ends in EOPNOTSUPP: the EINVAL
      check and the routing are never reached. */
  function ReceiveFamily(family: Family, nlh: NlMsgHdr, cmd: byte): (r: int)
    ensures r == EOPNOTSUPP
  {
    var lookup := GetCmd(cmd, family, None);
    if lookup.status != 0 then EOPNOTSUPP
    else
      if nlh.len < NlmsgMsgSize(GenlHdrLenOf(family)) then EINVAL
      else if IsDump(nlh.flags) then ReceiveDumpit(lookup.ops, nlh)
      else ReceiveDoit(lookup.ops, nlh)
  }

  /** The smallest `nlmsg_len` the receive path accepts: a netlink header
      and a generic header. */
  const GENL_MIN_LEN: u32 := (NLMSG_HDRLEN + GENL_HDRLEN) as u32

  lemma GenlMinLen()
    ensures GENL_MIN_LEN == 20
  {
  }

  /** `genl_receive_message`, the callback the transport calls with a raw
      message. The buffer holds at least a netlink header. The family is looked
      up by `nlmsg_type` before `nlmsg_len` is checked. Of the generic header
      only its first byte, `cmd`, is then read, right after the netlink header
      and trusting `nlmsg_len`, so a message whose family is found and whose
      declared length passes the check must hold that one byte. */
  function Receive(reg: Registry, data: seq<byte>): (r: int)
    requires |data| >= NLMSG_HDRLEN
    requires (FindById(reg, DecodeNlMsgHdr(data).msgType).Some? && DecodeNlMsgHdr(data).len >= GENL_MIN_LEN)
      ==> |data| > NLMSG_HDRLEN
    ensures r == ENOENT || r == EBADMSG || r == EOPNOTSUPP
    ensures r == ENOENT <==> FindById(reg, DecodeNlMsgHdr(data).msgType).None?
    ensures r == EBADMSG <==>
      FindById(reg, DecodeNlMsgHdr(data).msgType).Some? && DecodeNlMsgHdr(data).len < GENL_MIN_LEN
    ensures r == EOPNOTSUPP <==>
      FindById(reg, DecodeNlMsgHdr(data).msgType).Some? && DecodeNlMsgHdr(data).len >= GENL_MIN_LEN
  {
    var nlmsg := DecodeNlMsgHdr(data);
    match FindById(reg, nlmsg.msgType)
    case None => ENOENT
    case Some(k) =>
      if nlmsg.len < GENL_MIN_LEN then EBADMSG
      else
        ReceiveFamily(reg[k], nlmsg, data[NLMSG_HDRLEN])
  }

  /* ---------------------------------------------------------------------- */
  /* Reply construction                                                      */
  /* ---------------------------------------------------------------------- */

  /** The arguments `genlmsg_put` hands to `nlmsg_put`: port id, sequence
      number, message type, payload length and flags. */
  datatype PutRequest = PutRequest(portid: u32, sequence: u32, msgType: u16, payload: u32, flags: int)

  /** The two headers of a reply under construction. */
  datatype GenlReply = GenlReply(nlh: NlMsgHdr, genl: GenlMsgHdr)

  /** `genlmsg_put`. `nlmsgPut` stands for `nlmsg_put`, whose body is not
      part of this model: it either fails (None) or yields the netlink header
      it reserved. On success the generic header is stamped with the command,
      the family's version and a zero reserved field. */
  function GenlmsgPut(nlmsgPut: PutRequest -> Option<NlMsgHdr>, portid: u32, sequence: u32,
                      family: Family, flags: int, cmd: byte): (r: Option<GenlReply>)
    ensures var req := PutRequest(portid, sequence, family.id, GenlHdrLenOf(family), flags);
      && (r.None? <==> nlmsgPut(req).None?)
      && (r.Some? ==> r.value.nlh == nlmsgPut(req).value)
    ensures r.Some? ==> r.value.genl == GenlMsgHdr(cmd, family.version, 0)
  {
    var nlh := nlmsgPut(PutRequest(portid, sequence, family.id, GenlHdrLenOf(family), flags));
    match nlh
    case None => None
    case Some(h) => Some(GenlReply(h, GenlMsgHdr(cmd, family.version, 0)))
  }

  /** The bytes of a reply's two headers as they lie in the buffer. */
  function EncodeGenlReply(m: GenlReply): (b: seq<byte>)
    ensures |b| == NLMSG_HDRLEN + GENL_HDRLEN
  {
    EncodeNlMsgHdr(m.nlh) + EncodeGenlMsgHdr(m.genl)
  }
}
