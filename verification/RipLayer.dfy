/** The RIP layer of one node, as the code runs it: loops over the table, in place. */
module RipLayerModel {
  import opened Words
  import opened RipTable
  import opened Topology
  import opened Network
  import opened IpHeader
  import opened RipWire

  /** A message handed to the network layer for interface `ifc`. */
  datatype Frame = Frame(ifc: nat, data: seq<byte>)

  function Announcement(cmd: uint16, vip: uint32, table: Table, id: nat): Frame {
    Frame(id, EncodeMsg(cmd, Advertise(table, vip)))
  }

  /** What `prepare_msg` hands over for the first `k` interfaces: one message for each that is up. */
  function Announcements(cmd: uint16, ifcs: seq<Ifc>, up: seq<bool>, table: Table, k: nat): seq<Frame>
    requires k <= |ifcs| == |up|
  {
    if k == 0 then []
    else if !up[k - 1] then Announcements(cmd, ifcs, up, table, k - 1)
    else Announcements(cmd, ifcs, up, table, k - 1) + [Announcement(cmd, ifcs[k - 1].localVip, table, k - 1)]
  }

  /** A frame for an interface that is up, which tells the table there, byte for byte. */
  ghost predicate Tells(f: Frame, cmd: uint16, ifcs: seq<Ifc>, up: seq<bool>, t: Table)
    requires |up| == |ifcs|
  {
    f.ifc < |ifcs| && up[f.ifc] && TellsTable(f.data, cmd, t, ifcs[f.ifc].localVip)
  }

  /** The interface numbers ascend strictly and are below `k`. */
  ghost predicate InOrder(fs: seq<Frame>, k: nat) {
    && (forall j :: 0 <= j < |fs| ==> fs[j].ifc < k)
    && (forall j, l :: 0 <= j < l < |fs| ==> fs[j].ifc < fs[l].ifc)
  }

  /** The frames tell the table exactly once on every interface that is up, in order, and on no other. */
  ghost predicate TellsAll(fs: seq<Frame>, cmd: uint16, ifcs: seq<Ifc>, up: seq<bool>, t: Table)
    requires |up| == |ifcs|
  {
    && InOrder(fs, |ifcs|)
    && (forall j :: 0 <= j < |fs| ==> Tells(fs[j], cmd, ifcs, up, t))
    && (forall i :: 0 <= i < |ifcs| && up[i] ==> exists j :: 0 <= j < |fs| && fs[j].ifc == i)
  }

  lemma AppendInOrder(fs: seq<Frame>, f: Frame)
    requires InOrder(fs, f.ifc)
    ensures InOrder(fs + [f], f.ifc + 1)
  {
  }

  lemma {:induction false} AnnouncedInOrder(cmd: uint16, ifcs: seq<Ifc>, up: seq<bool>, t: Table, k: nat)
    requires k <= |ifcs| == |up|
    ensures InOrder(Announcements(cmd, ifcs, up, t, k), k)
  {
    if k == 0 {
    } else {
      AnnouncedInOrder(cmd, ifcs, up, t, k - 1);
      AppendInOrder(Announcements(cmd, ifcs, up, t, k - 1), Announcement(cmd, ifcs[k - 1].localVip, t, k - 1));
    }
  }

  /** An interface that is up gets its frame. */
  lemma {:induction false} FrameFor(cmd: uint16, ifcs: seq<Ifc>, up: seq<bool>, t: Table, k: nat, i: nat)
    returns (j: nat)
    requires i < k <= |ifcs| == |up| && up[i]
    ensures var fs := Announcements(cmd, ifcs, up, t, k); j < |fs| && fs[j].ifc == i
  {
    if k == i + 1 {
      j := |Announcements(cmd, ifcs, up, t, k - 1)|;
    } else {
      j := FrameFor(cmd, ifcs, up, t, k - 1, i);
    }
  }

  lemma AnnouncedTells(cmd: uint16, ifcs: seq<Ifc>, up: seq<bool>, t: Table, f: Frame)
    requires |ifcs| == |up| && |t| < 65536 && KeysAgree(t) && f in Announcements(cmd, ifcs, up, t, |ifcs|)
    ensures Tells(f, cmd, ifcs, up, t)
  {
    AnnouncedBytes(cmd, ifcs, up, t, |ifcs|, f);
    TableBytes(cmd, t, ifcs[f.ifc].localVip);
  }

  /** What was appended to an outbox. */
  lemma Appended<T>(before: seq<T>, added: seq<T>)
    ensures (before + added)[|before|..] == added
  {
  }

  /** What is announced reaches every interface that is up, and no other. */
  lemma AnnouncementsTellAll(before: seq<Frame>, cmd: uint16, ifcs: seq<Ifc>, up: seq<bool>, t: Table)
    requires |ifcs| == |up| && |t| < 65536 && KeysAgree(t)
    ensures var after := before + Announcements(cmd, ifcs, up, t, |ifcs|);
      TellsAll(after[|before|..], cmd, ifcs, up, t)
  {
    var fs := Announcements(cmd, ifcs, up, t, |ifcs|);
    Appended(before, fs);
    AnnouncedInOrder(cmd, ifcs, up, t, |ifcs|);
    forall j | 0 <= j < |fs| ensures Tells(fs[j], cmd, ifcs, up, t) {
      AnnouncedTells(cmd, ifcs, up, t, fs[j]);
    }
    forall i | 0 <= i < |ifcs| && up[i] ensures exists j :: 0 <= j < |fs| && fs[j].ifc == i {
      var j := FrameFor(cmd, ifcs, up, t, |ifcs|, i);
    }
  }

  ghost predicate KeysAgree(t: Table) {
    forall a :: a in t ==> t[a].e.address == a
  }

  lemma {:induction false} MergeKeysAgree(t: Table, mine: seq<uint32>, es: seq<Entry>, hop: uint32, now: Time)
    requires KeysAgree(t)
    ensures KeysAgree(Merge(t, mine, es, hop, now))
  {
    if es == [] {
    } else {
      MergeKeysAgree(t, mine, es[..|es| - 1], hop, now);
    }
  }

  /** A message the code can process: it is as long as it says, and a request finds a table that fits into an answer. */
  predicate Processable(data: seq<byte>, table: Table) {
    && |data| >= 2
    && (FromBE16(data[..2]) == 1 ==> |table| <= MAX_ENTRIES)
    && (FromBE16(data[..2]) == 2 ==> WellSized(data[2..]))
  }

  /** Walking over `keys`, the first `i` visited: `dead` holds the doomed keys among those. */
  ghost predicate Swept(keys: seq<uint32>, i: nat, doomed: set<uint32>, dead: set<uint32>) {
    && i <= |keys| && dead <= doomed
    && (forall j :: 0 <= j < i && keys[j] in doomed ==> keys[j] in dead)
    && (forall j :: i <= j < |keys| ==> keys[j] !in dead)
  }

  /** The next key is still there, and erasing it or not keeps the walk's account. */
  lemma SweepStep(t: Table, keys: seq<uint32>, i: nat, doomed: set<uint32>, dead: set<uint32>)
    requires keys == SortedKeys(t.Keys) && i < |keys| && Swept(keys, i, doomed, dead)
    ensures keys[i] in t && keys[i] !in dead
    ensures keys[i] in doomed ==> Swept(keys, i + 1, doomed, dead + {keys[i]})
    ensures keys[i] !in doomed ==> Swept(keys, i + 1, doomed, dead)
    ensures t - (dead + {keys[i]}) == (t - dead) - {keys[i]}
  {
  }

  lemma SweepEnd(t: Table, keys: seq<uint32>, doomed: set<uint32>, dead: set<uint32>)
    requires keys == SortedKeys(t.Keys) && doomed <= t.Keys && Swept(keys, |keys|, doomed, dead)
    ensures dead == doomed
  {
    forall a | a in doomed ensures a in dead {
      var i := KeyIndex(t.Keys, a);
    }
  }

  ghost function StaleKeys(t: Table, mine: seq<uint32>, cur: Time): set<uint32> {
    set a | a in t && Stale(mine, a, t[a], cur)
  }

  lemma ExpireErases(t: Table, mine: seq<uint32>, cur: Time)
    ensures t - StaleKeys(t, mine, cur) == Expire(t, mine, cur)
  {
  }

  ghost function IfcKeys(t: Table, vip: uint32): set<uint32> {
    set a | a in t && (t[a].nextHop == vip || a == vip)
  }

  lemma RemoveIfcErases(t: Table, vip: uint32)
    ensures t - IfcKeys(t, vip) == RemoveIfc(t, vip)
  {
  }

  /** The table holds the local addresses, each at cost 0 over its own interface, and nothing else. */
  ghost predicate HoldsOwn(t: Table, ifcs: seq<Ifc>, now: Time) {
    && (forall i :: 0 <= i < |ifcs| ==> ifcs[i].localVip in t)
    && (forall a :: a in t ==> t[a] == Route(Entry(0, a, 0xFFFF_FFFF), a, now)
                               && exists i :: 0 <= i < |ifcs| && ifcs[i].localVip == a)
  }

  lemma OwnTableIs(ifcs: seq<Ifc>, now: Time)
    ensures HoldsOwn(OwnTable(Vips(ifcs), now), ifcs, now)
  {
    var vips := Vips(ifcs);
    forall i | 0 <= i < |ifcs| ensures ifcs[i].localVip in vips {
      assert vips[i] == ifcs[i].localVip;
    }
    forall a | a in vips ensures exists i :: 0 <= i < |ifcs| && ifcs[i].localVip == a {
      assert ifcs[FindVip(ifcs, a)].localVip == a;
    }
  }

  lemma OwnTableFits(ifcs: seq<Ifc>, now: Time)
    ensures |OwnTable(Vips(ifcs), now)| == |set a | a in Vips(ifcs)| && KeysAgree(OwnTable(Vips(ifcs), now))
  {
    assert OwnTable(Vips(ifcs), now).Keys == set a | a in Vips(ifcs);
  }

  class RipLayer {
    const ifcs: seq<Ifc>
    var up: seq<bool>
    var rtable: Table
    /** Messages handed to the network layer, oldest first. */
    var outbox: seq<Frame>

    ghost predicate Valid()
      reads this
    {
      |up| == |ifcs| && KeysAgree(rtable)
    }

    constructor (ifcs: seq<Ifc>, now: Time)
      requires |set a | a in Vips(ifcs)| <= MAX_ENTRIES
      ensures Valid() && this.ifcs == ifcs
      ensures NodeState(rtable, up, now) == InitNode(ifcs, now)
      ensures outbox == Announcements(1, ifcs, up, rtable, |ifcs|) && TellsAll(outbox, 1, ifcs, up, rtable)
      ensures (forall i :: 0 <= i < |ifcs| ==> up[i]) && HoldsOwn(rtable, ifcs, now)
    {
      this.ifcs := ifcs;
      up := seq(|ifcs|, i => true);
      rtable := map[];
      outbox := [];
      new;
      Initialize(now);
    }

    /** The body of the constructor. */
    method Initialize(now: Time)
      requires |up| == |ifcs| && rtable == map[] && outbox == [] && |set a | a in Vips(ifcs)| <= MAX_ENTRIES
      modifies this`rtable, this`outbox
      ensures Valid() && rtable == OwnTable(Vips(ifcs), now) && HoldsOwn(rtable, ifcs, now)
      ensures outbox == Announcements(1, ifcs, up, rtable, |ifcs|) && TellsAll(outbox, 1, ifcs, up, rtable)
    {
      AddOwnEntries(now);
      OwnTableIs(ifcs, now);
      OwnTableFits(ifcs, now);
      PrepareMsg(1);
      assert outbox[0..] == outbox;
    }

    /** The loop of the constructor. */
    method AddOwnEntries(now: Time)
      requires rtable == map[]
      modifies this`rtable
      ensures rtable == OwnTable(Vips(ifcs), now)
    {
      ghost var vips := Vips(ifcs);
      for i := 0 to |ifcs|
        invariant rtable == OwnTable(vips[..i], now)
      {
        rtable := rtable[ifcs[i].localVip := OwnRoute(ifcs[i].localVip, now)];
      }
      assert vips[..|ifcs|] == vips;
    }

    /** `is_my_interface` and `is_destined_to_me`. */
    method IsMyInterface(addr: uint32) returns (b: bool)
      ensures b <==> addr in Vips(ifcs)
    {
      for i := 0 to |ifcs|
        invariant addr !in Vips(ifcs)[..i]
      {
        if ifcs[i].localVip == addr {
          assert Vips(ifcs)[i] == addr;
          return true;
        }
      }
      return false;
    }

    /** `get_interface`: the index of the interface, or -1 for a null pointer. */
    method GetInterface(addr: uint32) returns (r: int)
      ensures r == FindVip(ifcs, addr)
    {
      for i := 0 to |ifcs|
        invariant FindVip(ifcs[..i], addr) == -1
      {
        if ifcs[i].localVip == addr {
          assert ifcs[..i + 1][..i] == ifcs[..i];
          FirstFound(ifcs, i + 1, addr);
          return i;
        }
        assert ifcs[..i + 1][..i] == ifcs[..i];
      }
      assert ifcs[..|ifcs|] == ifcs;
      return -1;
    }

    /** `update_route_table`: the body is a message without its command field. */
    method UpdateRouteTable(body: seq<byte>, next: uint32, now: Time)
      requires Valid() && WellSized(body)
      modifies this`rtable
      ensures Valid() && rtable == Merge(old(rtable), Vips(ifcs), DecodeBody(body), next, now)
      ensures ReadsBody(body, DecodeBody(body))
    {
      var nentries := FromBE16(body[..2]);
      var data := body[2..];
      ghost var mine := Vips(ifcs);
      for i := 0 to nentries
        invariant rtable == Merge(old(rtable), mine, DecodeEntries(data, i), next, now)
      {
        var cur := DecodeEntry(data[12 * i..12 * (i + 1)]);
        ghost var es := DecodeEntries(data, i + 1);
        assert es[..i] == DecodeEntries(data, i) && es[i] == cur;
        var isMine := IsMyInterface(cur.address);
        if !isMine && cur.cost != RIP_MAX_COST {
          var cost := SuccCost(cur.cost);
          if cur.address !in rtable {
            rtable := rtable[cur.address := Route(Entry(cost, cur.address, cur.mask), next, now)];
          } else if rtable[cur.address].e.cost > cost {
            rtable := rtable[cur.address := Route(Entry(cost, cur.address, cur.mask), next, now)];
          }
        }
      }
      MergeKeysAgree(old(rtable), mine, DecodeBody(body), next, now);
      BodyBytes(body);
    }

    method PrepareMsgIfc(cmd: uint16, id: nat)
      requires Valid() && id < |ifcs| && |rtable| <= MAX_ENTRIES
      modifies this`outbox
      ensures outbox == old(outbox) + [Announcement(cmd, ifcs[id].localVip, rtable, id)]
      ensures TellsTable(outbox[|old(outbox)|].data, cmd, rtable, ifcs[id].localVip) && outbox[|old(outbox)|].ifc == id
    {
      var neighbor := ifcs[id].localVip;
      var keys := SortedKeys(rtable.Keys);
      var entries: seq<Entry> := [];
      for i := 0 to |keys|
        invariant |entries| == i
        invariant forall j :: 0 <= j < i ==> keys[j] in rtable && entries[j] == Advert(rtable[keys[j]], neighbor)
      {
        assert keys[i] in rtable.Keys;
        var ets := rtable[keys[i]];
        var cost := if ets.e.address != neighbor && neighbor == ets.nextHop then RIP_MAX_COST else ets.e.cost;
        entries := entries + [Entry(cost, ets.e.address, ets.e.mask)];
      }
      assert entries == Advertise(rtable, neighbor);
      outbox := outbox + [Frame(id, EncodeMsg(cmd, entries))];
      TableBytes(cmd, rtable, neighbor);
    }

    method PrepareMsg(cmd: uint16)
      requires Valid() && |rtable| <= MAX_ENTRIES
      modifies this`outbox
      ensures outbox == old(outbox) + Announcements(cmd, ifcs, up, rtable, |ifcs|)
      ensures TellsAll(outbox[|old(outbox)|..], cmd, ifcs, up, rtable)
    {
      AnnouncementsTellAll(outbox, cmd, ifcs, up, rtable);
      for id := 0 to |ifcs|
        invariant outbox == old(outbox) + Announcements(cmd, ifcs, up, rtable, id)
      {
        ghost var said := Announcements(cmd, ifcs, up, rtable, id);
        if up[id] {
          PrepareMsgIfc(cmd, id);
          assert old(outbox) + said + [Announcement(cmd, ifcs[id].localVip, rtable, id)]
              == old(outbox) + (said + [Announcement(cmd, ifcs[id].localVip, rtable, id)]);
        }
      }
    }

    /** `refresh_route_table`: erases stale routes while walking over the keys. */
    method RefreshRouteTable(cur: Time)
      requires Valid()
      modifies this`rtable
      ensures Valid() && rtable == Expire(old(rtable), Vips(ifcs), cur)
    {
      var keys := SortedKeys(rtable.Keys);
      ghost var t0, dead := rtable, {};
      ghost var doomed := StaleKeys(t0, Vips(ifcs), cur);
      for i := 0 to |keys|
        invariant rtable == t0 - dead && Swept(keys, i, doomed, dead)
      {
        var k := keys[i];
        SweepStep(t0, keys, i, doomed, dead);
        var isMine := IsMyInterface(k);
        if !isMine && Age(cur, rtable[k].ts) > REFRESH_LIMIT {
          rtable := rtable - {k};
          dead := dead + {k};
        }
      }
      SweepEnd(t0, keys, doomed, dead);
      ExpireErases(t0, Vips(ifcs), cur);
    }

    /** `get_next_address`: a scan over all entries; the address is left alone if none matches. */
    method GetNextAddress(dest: uint32, defaultAddr: uint32) returns (next: uint32)
      requires Valid()
      ensures next == if dest in rtable then rtable[dest].nextHop else defaultAddr
    {
      next := defaultAddr;
      var keys := SortedKeys(rtable.Keys);
      for i := 0 to |keys|
        invariant next == defaultAddr || (dest in rtable && next == rtable[dest].nextHop)
        invariant forall j :: 0 <= j < i && keys[j] == dest ==> dest in rtable && next == rtable[dest].nextHop
      {
        assert keys[i] in rtable.Keys;
        if rtable[keys[i]].e.address == dest {
          next := rtable[keys[i]].nextHop;
        }
      }
      if dest in rtable {
        ghost var i := KeyIndex(rtable.Keys, dest);
      }
    }

    /** `remove_ifc_entry`: forgets the address and every route that leaves by its interface, then announces. */
    method RemoveIfcEntry(vip: uint32)
      requires Valid() && |rtable| <= MAX_ENTRIES
      modifies this`rtable, this`outbox
      ensures Valid() && rtable == RemoveIfc(old(rtable), vip)
      ensures forall a :: a in rtable <==> a in old(rtable) && a != vip && old(rtable)[a].nextHop != vip
      ensures forall a :: a in rtable ==> rtable[a] == old(rtable)[a]
      ensures outbox == old(outbox) + Announcements(2, ifcs, up, rtable, |ifcs|)
      ensures TellsAll(outbox[|old(outbox)|..], 2, ifcs, up, rtable)
    {
      var keys := SortedKeys(rtable.Keys);
      ghost var t0, dead := rtable, {};
      ghost var doomed := IfcKeys(t0, vip);
      for i := 0 to |keys|
        invariant rtable == t0 - dead && Swept(keys, i, doomed, dead) && outbox == old(outbox)
      {
        var k := keys[i];
        SweepStep(t0, keys, i, doomed, dead);
        if rtable[k].nextHop == vip || k == vip {
          rtable := rtable - {k};
          dead := dead + {k};
        }
      }
      SweepEnd(t0, keys, doomed, dead);
      RemoveIfcErases(t0, vip);
      SubsetSize(rtable.Keys, t0.Keys);
      PrepareMsg(2);
    }

    method AddIfcEntry(vip: uint32, now: Time)
      requires Valid()
      modifies this`rtable
      ensures Valid() && rtable == old(rtable)[vip := Route(Entry(0, vip, 0xFFFF_FFFF), vip, now)]
    {
      rtable := rtable[vip := Route(Entry(0, vip, RIP_MASK), vip, now)];
    }

    /** `down_cmd`: the interface goes down first, so nothing is announced on it. */
    method DownCmd(i: nat)
      requires Valid() && i < |ifcs| && |rtable| <= MAX_ENTRIES
      modifies this
      ensures Valid() && up == old(up)[i := false] && rtable == RemoveIfc(old(rtable), ifcs[i].localVip)
      ensures outbox == old(outbox) + Announcements(2, ifcs, up, rtable, |ifcs|)
      ensures TellsAll(outbox[|old(outbox)|..], 2, ifcs, up, rtable)
      ensures forall f :: f in outbox[|old(outbox)|..] ==> f.ifc != i
    {
      up := up[i := false];
      RemoveIfcEntry(ifcs[i].localVip);
      OnlyUp(2, ifcs, up, rtable, |ifcs|);
    }

    method UpCmd(i: nat, now: Time)
      requires Valid() && i < |ifcs|
      modifies this
      ensures Valid() && up == old(up)[i := true] && outbox == old(outbox)
      ensures rtable == old(rtable)[ifcs[i].localVip := OwnRoute(ifcs[i].localVip, now)]
      ensures rtable[ifcs[i].localVip] == Route(Entry(0, ifcs[i].localVip, 0xFFFF_FFFF), ifcs[i].localVip, now)
    {
      up := up[i := true];
      AddIfcEntry(ifcs[i].localVip, now);
    }

    /**
     `transfer_ip_to_rip`: a request is answered on all interfaces that are up, a response is merged, anything else
     ignored. The command is in the first two bytes.
     */
    method TransferIpToRip(data: seq<byte>, next: uint32, now: Time)
      requires Valid() && Processable(data, rtable)
      modifies this`rtable, this`outbox
      ensures Valid()
      ensures var cmd := 256 * (data[0] as int) + data[1];
        && (cmd == 1 ==> rtable == old(rtable)
                         && outbox == old(outbox) + Announcements(2, ifcs, up, rtable, |ifcs|)
                         && TellsAll(outbox[|old(outbox)|..], 2, ifcs, up, rtable))
        && (cmd == 2 ==> outbox == old(outbox) && ReadsBody(data[2..], DecodeBody(data[2..]))
                         && rtable == Merge(old(rtable), Vips(ifcs), DecodeBody(data[2..]), next, now))
        && (cmd != 1 && cmd != 2 ==> rtable == old(rtable) && outbox == old(outbox))
    {
      var cmdType := FromBE16(data[..2]);
      if cmdType == 1 {
        PrepareMsg(2);
      } else if cmdType == 2 {
        UpdateRouteTable(data[2..], next, now);
      }
    }
  }

  lemma {:induction false} FirstFound(ifcs: seq<Ifc>, k: nat, vip: uint32)
    requires k <= |ifcs| && FindVip(ifcs[..k], vip) >= 0
    ensures FindVip(ifcs, vip) == FindVip(ifcs[..k], vip)
  {
    if k == |ifcs| {
      assert ifcs[..k] == ifcs;
    } else {
      assert ifcs[..|ifcs| - 1][..k] == ifcs[..k];
      FirstFound(ifcs[..|ifcs| - 1], k, vip);
    }
  }

  lemma SubsetSize(x: set<uint32>, y: set<uint32>)
    requires x <= y
    ensures |x| <= |y|
  {
    assert y == x + (y - x);
  }

  lemma {:induction false} OnlyUp(cmd: uint16, ifcs: seq<Ifc>, up: seq<bool>, table: Table, k: nat)
    requires k <= |ifcs| == |up|
    ensures forall f :: f in Announcements(cmd, ifcs, up, table, k) ==> f.ifc < k && up[f.ifc]
  {
    if k == 0 {
    } else {
      OnlyUp(cmd, ifcs, up, table, k - 1);
    }
  }

  /**
   What another node reads in a frame announced by one node, by whatever command, is the message of the network model.
   */
  lemma AnnouncementsAreSends(cmd: uint16, ifcs: seq<Ifc>, up: seq<bool>, table: Table, f: Frame)
    requires |ifcs| == |up| && |table| <= MAX_ENTRIES
    requires f in Announcements(cmd, ifcs, up, table, |ifcs|)
    ensures f.ifc < |ifcs| && up[f.ifc] && |f.data| >= 2 && FromBE16(f.data[..2]) == cmd && WellSized(f.data[2..])
    ensures DecodeBody(f.data[2..]) == Advertise(table, ifcs[f.ifc].localVip)
  {
    AnnouncedBytes(cmd, ifcs, up, table, |ifcs|, f);
    MsgRoundTrip(cmd, Advertise(table, ifcs[f.ifc].localVip));
  }

  lemma {:induction false} AnnouncedBytes(cmd: uint16, ifcs: seq<Ifc>, up: seq<bool>, table: Table, k: nat, f: Frame)
    requires k <= |ifcs| == |up| && f in Announcements(cmd, ifcs, up, table, k)
    ensures f.ifc < k && up[f.ifc] && f == Announcement(cmd, ifcs[f.ifc].localVip, table, f.ifc)
  {
    if k > 0 && f in Announcements(cmd, ifcs, up, table, k - 1) {
      AnnouncedBytes(cmd, ifcs, up, table, k - 1, f);
    }
  }
}
