/** Properties relating the registry operations and the receive path of
    sys/netlink/genetlink.c to one another: what lookups see after a
    register or an unregister, the register/unregister inverse, the
    consequences of ids not being checked for uniqueness, and what happens
    to a reply built by `genlmsg_put` when it is parsed and received. */
module GenetlinkProps {
  import opened Util
  import opened Bytes
  import opened Netlink
  import opened Genetlink

  /** No two registered families share a name. */
  ghost predicate UniqueNames(reg: Registry)
  {
    forall i, j :: 0 <= i < |reg| && 0 <= j < |reg| && i != j ==> reg[i].name != reg[j].name
  }

  /** No two registered families share an id. */
  ghost predicate UniqueIds(reg: Registry)
  {
    forall i, j :: 0 <= i < |reg| && 0 <= j < |reg| && i != j ==> reg[i].id != reg[j].id
  }

  /* ---------------------------------------------------------------------- */
  /* Register                                                                */
  /* ---------------------------------------------------------------------- */

  /** A registered family is what both lookups find first: it sits at the
      head and shadows any older family with the same id. */
  lemma RegisterThenFind(reg: Registry, family: Family)
    requires Register(reg, family).status == 0
    ensures FindByName(Register(reg, family).reg, family.name) == Some(0)
    ensures FindById(Register(reg, family).reg, family.id) == Some(0)
  {
  }

  /** Registering leaves every other lookup pointing at the same family as
      before, one position further down the list. */
  lemma RegisterKeepsOtherLookups(reg: Registry, family: Family, id: u16, name: string)
    requires Register(reg, family).status == 0
    ensures id != family.id ==> FindById(Register(reg, family).reg, id) == Shift(FindById(reg, id))
    ensures name != family.name ==> FindByName(Register(reg, family).reg, name) == Shift(FindByName(reg, name))
  {
    assert Register(reg, family).reg == [family] + reg;
    if id != family.id {
      FirstMatchCons(family, reg, (f: Family) => f.id == id);
    }
    if name != family.name {
      FirstMatchCons(family, reg, (f: Family) => f.name == name);
    }
  }

  /** A second family with a taken name is refused, so name lookups keep
      finding the first one. */
  lemma RegisterDuplicateName(reg: Registry, first: Family, second: Family)
    requires Register(reg, first).status == 0
    requires second.name == first.name
    ensures Register(Register(reg, first).reg, second) == Update(EEXIST, Register(reg, first).reg)
    ensures FindByName(Register(Register(reg, first).reg, second).reg, second.name) == Some(0)
  {
    assert Register(reg, first).reg[0].name == second.name;
  }

  /** Register keeps names unique. */
  lemma RegisterKeepsNamesUnique(reg: Registry, family: Family)
    requires UniqueNames(reg)
    ensures UniqueNames(Register(reg, family).reg)
  {
    var r := Register(reg, family);
    if r.status == 0 {
      forall i, j | 0 <= i < |r.reg| && 0 <= j < |r.reg| && i != j
        ensures r.reg[i].name != r.reg[j].name
      {
        if i != 0 && j != 0 {
          assert r.reg[i] == reg[i - 1] && r.reg[j] == reg[j - 1];
        } else if i == 0 {
          assert r.reg[j] == reg[j - 1];
        } else {
          assert r.reg[i] == reg[i - 1];
        }
      }
    }
  }

  /** Ids are not checked: a family with a fresh name is accepted even when
      its id is taken, after which two families share the id. */
  lemma RegisterAcceptsDuplicateId(reg: Registry, family: Family)
    requires forall i :: 0 <= i < |reg| ==> reg[i].name != family.name
    requires exists i :: 0 <= i < |reg| && reg[i].id == family.id
    ensures Register(reg, family).status == 0
    ensures !UniqueIds(Register(reg, family).reg)
  {
    var i :| 0 <= i < |reg| && reg[i].id == family.id;
    var after := Register(reg, family).reg;
    assert after[0].id == after[i + 1].id;
  }

  /* ---------------------------------------------------------------------- */
  /* Unregister                                                              */
  /* ---------------------------------------------------------------------- */

  /** Unregistering a family right after registering it restores the
      registry exactly. */
  lemma RegisterUnregisterInverse(reg: Registry, family: Family)
    requires Register(reg, family).status == 0
    ensures Unregister(Register(reg, family).reg, family) == Update(0, reg)
  {
    var after := Register(reg, family).reg;
    assert FindById(after, family.id) == Some(0);
    assert after[1..] == reg;
  }

  /** After a successful unregister the id is still found exactly when a
      second family carried it; the one found is the next such family. */
  lemma UnregisterThenFind(reg: Registry, family: Family)
    requires Unregister(reg, family).status == 0
    ensures var k := FindById(reg, family.id).value;
      var r := FindById(Unregister(reg, family).reg, family.id);
      && (r.Some? <==> exists j :: k < j < |reg| && reg[j].id == family.id)
      && (r.Some? ==> Unregister(reg, family).reg[r.value] == reg[r.value + 1])
  {
    var k := FindById(reg, family.id).value;
    var after := Unregister(reg, family).reg;
    assert after == reg[..k] + reg[k + 1..];
    RemoveIndex(reg, k);
    var r := FindById(after, family.id);
    if r.Some? {
      assert reg[Skip(r.value, k)].id == family.id;
      assert r.value >= k;
      assert after[r.value] == reg[r.value + 1];
    } else {
      forall j | k < j < |reg| ensures reg[j].id != family.id {
        assert after[j - 1] == reg[Skip(j - 1, k)];
      }
    }
  }

  /** With unique ids, an unregistered id is no longer found. */
  lemma UnregisterUniqueThenNotFound(reg: Registry, family: Family)
    requires UniqueIds(reg)
    requires Unregister(reg, family).status == 0
    ensures FindById(Unregister(reg, family).reg, family.id).None?
  {
    UnregisterThenFind(reg, family);
  }

  /** Unregistering leaves the lookups of every other id finding the same
      family as before. */
  lemma UnregisterKeepsOtherIds(reg: Registry, family: Family, id: u16)
    requires Unregister(reg, family).status == 0
    requires id != family.id
    ensures var before := FindById(reg, id);
      var after := FindById(Unregister(reg, family).reg, id);
      && (before.Some? <==> after.Some?)
      && (before.Some? ==> Unregister(reg, family).reg[after.value] == reg[before.value])
  {
    var k := FindById(reg, family.id).value;
    assert Unregister(reg, family).reg == reg[..k] + reg[k + 1..];
    FindByIdAfterRemove(reg, k, id);
  }

  /** Dropping a family whose id differs from `id` does not change which
      family a lookup of `id` finds. */
  lemma FindByIdAfterRemove(reg: Registry, k: nat, id: u16)
    requires k < |reg| && reg[k].id != id
    ensures var rest := reg[..k] + reg[k + 1..];
      var before := FindById(reg, id);
      var after := FindById(rest, id);
      && (before.Some? <==> after.Some?)
      && (before.Some? ==> rest[after.value] == reg[before.value])
  {
    if FindById(reg, id).Some? {
      FoundAfterRemove(reg, k, id);
    } else {
      MissingAfterRemove(reg, k, id);
    }
  }

  /** Position `j` of the list with element `k` dropped, in the full list. */
  function Skip(j: nat, k: nat): (i: nat)
  {
    if j < k then j else j + 1
  }

  lemma RemoveIndex(reg: Registry, k: nat)
    requires k < |reg|
    ensures |reg[..k] + reg[k + 1..]| == |reg| - 1
    ensures forall j :: 0 <= j < |reg| - 1 ==> (reg[..k] + reg[k + 1..])[j] == reg[Skip(j, k)]
  {
  }

  lemma FoundAfterRemove(reg: Registry, k: nat, id: u16)
    requires k < |reg| && reg[k].id != id
    requires FindById(reg, id).Some?
    ensures FindById(reg[..k] + reg[k + 1..], id).Some?
    ensures (reg[..k] + reg[k + 1..])[FindById(reg[..k] + reg[k + 1..], id).value]
         == reg[FindById(reg, id).value]
  {
    var rest := reg[..k] + reg[k + 1..];
    RemoveIndex(reg, k);
    var b := FindById(reg, id).value;
    var a := if b < k then b else b - 1;
    assert Skip(a, k) == b;
    assert rest[a].id == id;
    var c := FindById(rest, id).value;
    assert reg[Skip(c, k)].id == id;
    assert Skip(c, k) >= b;
    assert c == a;
  }

  lemma MissingAfterRemove(reg: Registry, k: nat, id: u16)
    requires k < |reg|
    requires FindById(reg, id).None?
    ensures FindById(reg[..k] + reg[k + 1..], id).None?
  {
    var rest := reg[..k] + reg[k + 1..];
    RemoveIndex(reg, k);
    forall j | 0 <= j < |rest| ensures rest[j].id != id {
      assert rest[j] == reg[Skip(j, k)];
    }
  }

  /** Spelled out with two families under id 16: removing one leaves the
      other findable. */
  lemma UnregisterDuplicateIdStillFound()
    ensures var a := Family(16, "a", 1, 0, []);
      var b := Family(16, "b", 1, 0, []);
      var reg := Register(Register([], a).reg, b).reg;
      && Register([], a).status == 0 && Register([a], b).status == 0
      && Unregister(reg, b) == Update(0, [a])
      && FindById(Unregister(reg, b).reg, 16) == Some(0)
  {
    var a := Family(16, "a", 1, 0, []);
    var b := Family(16, "b", 1, 0, []);
    assert Register([], a).reg == [a];
    assert b.name != a.name;
    assert Register([a], b).reg == [b, a];
    assert FindById([b, a], 16) == Some(0);
    assert [b, a][1..] == [a];
  }

  /* ---------------------------------------------------------------------- */
  /* Receive and reply construction                                          */
  /* ---------------------------------------------------------------------- */

  /** `genl_get_cmd` finds a command that is in the family's table, since
      its own copy of `ops` ends up pointing at the entry, yet it reports
      failure and leaves the caller's NULL pointer NULL. */
  lemma GetCmdIgnoresMatch(family: Family, cmd: byte)
    requires HasCmd(family, cmd)
    ensures GetCmd(cmd, family, None).local.Some?
    ensures family.ops[GetCmd(cmd, family, None).local.value].cmd == cmd
    ensures GetCmd(cmd, family, None).status != 0
    ensures GetCmd(cmd, family, None).ops.None?
  {
  }

  /** The DUMP routing would not matter even if it were reached: both
      handlers answer EOPNOTSUPP for any flags. */
  lemma RoutingIndifferentToDump(family: Family, nlh: NlMsgHdr, cmd: byte, flags: u16)
    ensures ReceiveFamily(family, nlh.(flags := flags), cmd) == ReceiveFamily(family, nlh, cmd)
    ensures ReceiveDumpit(None, nlh) == ReceiveDoit(None, nlh)
  {
  }

  /** `nlmsg_put` as this layer relies on it: a header it yields carries the
      requested message type. */
  ghost predicate PutKeepsType(nlmsgPut: PutRequest -> Option<NlMsgHdr>)
  {
    forall req :: nlmsgPut(req).Some? ==> nlmsgPut(req).value.msgType == req.msgType
  }

  /** Building a reply and parsing its bytes back yields the family's id as
      message type, the command and the family's version. */
  lemma BuildParseRoundTrip(nlmsgPut: PutRequest -> Option<NlMsgHdr>, portid: u32, sequence: u32,
                            family: Family, flags: int, cmd: byte)
    requires PutKeepsType(nlmsgPut)
    requires GenlmsgPut(nlmsgPut, portid, sequence, family, flags, cmd).Some?
    ensures var b := EncodeGenlReply(GenlmsgPut(nlmsgPut, portid, sequence, family, flags, cmd).value);
      && DecodeNlMsgHdr(b).msgType == family.id
      && DecodeGenlMsgHdr(b[NLMSG_HDRLEN..]).cmd == cmd
      && DecodeGenlMsgHdr(b[NLMSG_HDRLEN..]).version == family.version
      && DecodeGenlMsgHdr(b[NLMSG_HDRLEN..]).reserved == 0
  {
    var m := GenlmsgPut(nlmsgPut, portid, sequence, family, flags, cmd).value;
    var b := EncodeGenlReply(m);
    DecodeEncodeNlMsgHdr(m.nlh);
    assert b[..16] == EncodeNlMsgHdr(m.nlh);
    assert DecodeNlMsgHdr(b) == DecodeNlMsgHdr(b[..16]);
    assert b[NLMSG_HDRLEN..] == EncodeGenlMsgHdr(m.genl);
    DecodeEncodeGenlMsgHdr(m.genl);
  }

  /** A reply built for a registered family, once its length is filled in,
      passes the family lookup when received: it is refused as too short
      below 20 bytes and otherwise ends in EOPNOTSUPP. */
  lemma BuiltReplyReceived(reg: Registry, nlmsgPut: PutRequest -> Option<NlMsgHdr>, portid: u32,
                           sequence: u32, family: Family, flags: int, cmd: byte, len: u32)
    requires PutKeepsType(nlmsgPut)
    requires FindById(reg, family.id).Some?
    requires GenlmsgPut(nlmsgPut, portid, sequence, family, flags, cmd).Some?
    ensures var m := GenlmsgPut(nlmsgPut, portid, sequence, family, flags, cmd).value;
      var b := EncodeGenlReply(m.(nlh := m.nlh.(len := len)));
      Receive(reg, b) == if len < GENL_MIN_LEN then EBADMSG else EOPNOTSUPP
  {
    var m := GenlmsgPut(nlmsgPut, portid, sequence, family, flags, cmd).value;
    assert m.nlh.msgType == family.id;
    ReceiveReply(reg, m.(nlh := m.nlh.(len := len)));
  }

  /** Receiving the two headers of a reply whose type is registered. */
  lemma ReceiveReply(reg: Registry, m: GenlReply)
    requires FindById(reg, m.nlh.msgType).Some?
    ensures Receive(reg, EncodeGenlReply(m)) == if m.nlh.len < GENL_MIN_LEN then EBADMSG else EOPNOTSUPP
  {
    var b := EncodeGenlReply(m);
    ParseReplyHeader(m);
    assert DecodeNlMsgHdr(b) == m.nlh;
    var found := FindById(reg, m.nlh.msgType);
    assert found.Some?;
    GenlMinLen();
  }

  /** The netlink header of an encoded reply reads back unchanged. */
  lemma ParseReplyHeader(m: GenlReply)
    ensures DecodeNlMsgHdr(EncodeGenlReply(m)) == m.nlh
  {
    var b := EncodeGenlReply(m);
    DecodeEncodeNlMsgHdr(m.nlh);
    assert b[..16] == EncodeNlMsgHdr(m.nlh);
    DecodeNlMsgHdrPrefix(b);
  }

  /** Decoding a header reads only the first 16 bytes. */
  lemma DecodeNlMsgHdrPrefix(b: seq<byte>)
    requires |b| >= 16
    ensures DecodeNlMsgHdr(b) == DecodeNlMsgHdr(b[..16])
  {
    var p := b[..16];
    assert b[0..4] == p[0..4] && b[4..6] == p[4..6] && b[6..8] == p[6..8];
    assert b[8..12] == p[8..12] && b[12..16] == p[12..16];
  }

  /** A bare 16-byte header of an unregistered type is answered ENOENT even
      when its `nlmsg_len` claims more bytes than the buffer holds: nothing
      past the netlink header is read. */
  lemma ReceiveUnknownShortBuffer()
    ensures Receive([], EncodeNlMsgHdr(NlMsgHdr(100, 7, 0, 0, 0))) == ENOENT
  {
    DecodeEncodeNlMsgHdr(NlMsgHdr(100, 7, 0, 0, 0));
  }

  /** A 17-byte message of a registered type whose `nlmsg_len` claims 100
      bytes is answered EOPNOTSUPP: the command byte at offset 16 is the only
      byte read past the netlink header. */
  lemma ReceiveCommandByteOnly()
    ensures Receive([Family(16, "a", 1, 0, [])], EncodeNlMsgHdr(NlMsgHdr(100, 16, 0, 0, 0)) + [0]) == EOPNOTSUPP
  {
    var data := EncodeNlMsgHdr(NlMsgHdr(100, 16, 0, 0, 0)) + [0];
    DecodeEncodeNlMsgHdr(NlMsgHdr(100, 16, 0, 0, 0));
    DecodeNlMsgHdrPrefix(data);
    assert data[..16] == EncodeNlMsgHdr(NlMsgHdr(100, 16, 0, 0, 0));
    GenlMinLen();
  }

  /** Once a family is registered, a message of its type is never refused
      as unknown. */
  lemma RegisterThenReceive(reg: Registry, family: Family, data: seq<byte>)
    requires Register(reg, family).status == 0
    requires |data| >= NLMSG_HDRLEN
    requires DecodeNlMsgHdr(data).len >= GENL_MIN_LEN ==> |data| > NLMSG_HDRLEN
    requires DecodeNlMsgHdr(data).msgType == family.id
    ensures Receive(Register(reg, family).reg, data) != ENOENT
  {
    RegisterThenFind(reg, family);
  }
}
