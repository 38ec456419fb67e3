/** The network layer of one node: packet buffers are built and rewritten in place. */
module NetworkLayerModel {
  import opened Words
  import opened RipTable
  import opened Topology
  import opened Network
  import opened Checksum
  import opened IpHeader
  import opened Forwarding
  import opened Reception
  import opened RipWire
  import opened RipLayerModel

  /** A packet queued for interface `ifc`. */
  datatype IpMsg = IpMsg(ifc: nat, packet: seq<byte>)

  /** `s` with the bytes from offset `off` on replaced by `bs`. */
  ghost function Splice(s: seq<byte>, off: nat, bs: seq<byte>): (r: seq<byte>)
    requires off + |bs| <= |s|
    ensures |r| == |s|
    ensures forall i :: 0 <= i < |s| ==> r[i] == if off <= i < off + |bs| then bs[i - off] else s[i]
  {
    s[..off] + bs + s[off + |bs|..]
  }

  /** `memcpy` of some bytes into a buffer at an offset. */
  method Store(a: array<byte>, off: nat, bs: seq<byte>)
    requires off + |bs| <= a.Length
    modifies a
    ensures forall i :: 0 <= i < a.Length ==> a[i] == if off <= i < off + |bs| then bs[i - off] else old(a[i])
  {
    for i := 0 to |bs|
      invariant forall k :: 0 <= k < a.Length ==> a[k] == if off <= k < off + i then bs[k - off] else old(a[k])
    {
      a[off + i] := bs[i];
    }
  }

  /** The same, within the header of a packet. */
  method StoreHdr(a: array<byte>, off: nat, bs: seq<byte>)
    requires off + |bs| <= 20 <= a.Length
    modifies a
    ensures a[..20] == Splice(old(a[..20]), off, bs) && a[20..] == old(a[20..])
  {
    Store(a, off, bs);
  }

  /** A RIP packet has a full header, and a payload that can be processed. */
  predicate GoodRip(packet: seq<byte>, table: Table) {
    && |packet| >= 20 && 20 <= HeaderLen(packet) <= |packet|
    && Processable(Payload(packet), table)
  }

  /** Four times the header-length field. */
  function HeaderLen(packet: seq<byte>): nat
    requires |packet| >= 20
  {
    4 * (packet[0] as int % 16)
  }

  /** What follows the header. */
  function Payload(packet: seq<byte>): seq<byte>
    requires |packet| >= 20 && HeaderLen(packet) <= |packet|
  {
    packet[HeaderLen(packet)..]
  }

  /** The packet that carries a RIP message across the link of interface `f`. */
  function RipPacket(h: Host, f: Ifc, data: seq<byte>): seq<byte> {
    Build(h, f.localVip, f.remoteVip, RIP_PROTO, |data|) + data
  }

  /** The command of a RIP message. */
  function Command(data: seq<byte>): int
    requires |data| >= 2
  {
    256 * (data[0] as int) + data[1]
  }

  /**
   What a RIP layer has done with a message that came in on the interface with address `next`: answered a request on
   every interface that is up, merged the entries its bytes tell, or ignored an unknown command.
   */
  ghost predicate RipTook(data: seq<byte>, ifcs: seq<Ifc>, up: seq<bool>, table: Table, outbox: seq<Frame>,
                          table': Table, outbox': seq<Frame>, next: uint32, now: Time)
    requires Processable(data, table) && |up| == |ifcs|
  {
    match Command(data)
    case 1 => table' == table && outbox <= outbox' && TellsAll(outbox'[|outbox|..], 2, ifcs, up, table)
    case 2 =>
      && outbox' == outbox && ReadsBody(data[2..], DecodeBody(data[2..]))
      && table' == Merge(table, Vips(ifcs), DecodeBody(data[2..]), next, now)
    case _ => table' == table && outbox' == outbox
  }

  lemma Resealed(h: Host, mid: Header, csum: uint16)
    requires csum == Csum(h, Zeroed(mid))
    ensures Splice(Zeroed(mid), 10, WordBytes(h, csum)) == Seal(h, mid)
  {
  }

  /** The header fields written one after the other make the header. */
  lemma UnsealedInPlace(before: Header, src: uint32, dst: uint32, proto: byte, datasz: nat)
    ensures var u := Unsealed(src, dst, proto, datasz);
      && Splice(Splice(Splice(before, 0, [0x45, 0] + BE16((20 + datasz) % 65536) + [0, 0, 0, 0]),
                       8, [INITIAL_TTL, proto, 0, 0]), 12, BE32(src) + BE32(dst)) == u
      && Zeroed(u) == u
  {
  }

  lemma SealedInPlace(h: Host, u: Header, csum: uint16)
    requires Zeroed(u) == u && csum == Csum(h, u)
    ensures Splice(u, 10, WordBytes(h, csum)) == Seal(h, u)
  {
  }

  lemma HeadAndTail(x: seq<byte>, len: nat)
    requires 20 <= len <= |x|
    ensures x[..len] == x[..20] + x[20..][..len - 20] && x[20..len] == x[20..][..len - 20]
  {
  }

  lemma SameTail(x: seq<byte>, y: seq<byte>, lo: nat, hi: nat)
    requires |x| == |y| && 20 <= lo <= hi <= |x| && x[20..] == y[20..]
    ensures x[lo..hi] == y[lo..hi]
  {
    forall i | lo <= i < hi ensures x[i] == y[i] {
      assert x[i] == x[20..][i - 20] && y[i] == y[20..][i - 20];
    }
  }

  /** A transit rewrite does not depend on the old checksum field. */
  lemma TransitIgnoresCheck(h: Host, hdr: Header)
    ensures TransitHeader(h, Zeroed(hdr)) == TransitHeader(h, hdr)
  {
    var z, b := Zeroed(hdr), WordBytes(h, Ntohs(h, Decremented(h, hdr[8])));
    forall i | 0 <= i < 20 ensures z[i] == if i == 10 || i == 11 then 0 else hdr[i] {}
    SealIgnoresCheck(h, hdr[..8] + b + hdr[10..], z[..8] + b + z[10..]);
  }

  lemma SealIgnoresCheck(h: Host, x: Header, y: Header)
    requires forall i :: 0 <= i < 20 && i != 10 && i != 11 ==> x[i] == y[i]
    ensures Seal(h, x) == Seal(h, y)
  {
    SameEnds(x, y, 10, 12);
  }

  class NetworkLayer {
    const host: Host
    const rip: RipLayer
    /** `_incomingqueue`: packets waiting for `process_in_queue`, oldest first. */
    var incoming: seq<IpMsg>

    constructor (host: Host, rip: RipLayer)
      ensures this.host == host && this.rip == rip && incoming == []
    {
      this.host, this.rip, incoming := host, rip, [];
    }

    /** `build_ip_packet`: header fields, checksum over the header, payload. */
    method BuildIpPacket(pkt: array<byte>, src: uint32, dest: uint32, proto: byte, data: seq<byte>)
      requires pkt.Length >= 20 + |data|
      modifies pkt
      ensures pkt[..20 + |data|] == Build(host, src, dest, proto, |data|) + data
      ensures |data| <= 65515 ==> Carries(pkt[..20 + |data|], src, dest, proto, data)
    {
      ghost var before := pkt[..20];
      StoreHdr(pkt, 0, [0x45, 0] + BE16((20 + |data|) % 65536) + [0, 0, 0, 0]);
      StoreHdr(pkt, 8, [INITIAL_TTL, proto, 0, 0]);
      StoreHdr(pkt, 12, BE32(src) + BE32(dest));
      ghost var u := Unsealed(src, dest, proto, |data|);
      UnsealedInPlace(before, src, dest, proto, |data|);
      var cksum := IpSum(host, pkt, 20);
      StoreHdr(pkt, 10, WordBytes(host, cksum));
      SealedInPlace(host, u, cksum);
      Store(pkt, 20, data);
      assert pkt[..20 + |data|] == Seal(host, u) + data;
      if |data| <= 65515 { BuiltPacket(host, src, dest, proto, data); }
    }

    /** `transfer_rip_to_ip`: a RIP message goes to the other end of the link, whatever the table says. */
    method TransferRipToIp(id: nat, data: seq<byte>)
      requires rip.Valid() && id < |rip.ifcs| && |data| <= 1024
      modifies this`incoming
      ensures incoming == old(incoming) + [IpMsg(id, RipPacket(host, rip.ifcs[id], data))]
      ensures Carries(RipPacket(host, rip.ifcs[id], data), rip.ifcs[id].localVip, rip.ifcs[id].remoteVip, 200, data)
    {
      var pkt := new byte[1044](_ => 0);
      BuildIpPacket(pkt, rip.ifcs[id].localVip, rip.ifcs[id].remoteVip, RIP_PROTO, data);
      incoming := incoming + [IpMsg(id, pkt[..20 + |data|])];
    }

    /** `transfer_application_to_ip`, with the destination in host order. */
    method TransferApplicationToIp(dest: uint32, proto: byte, data: seq<byte>) returns (i: int)
      requires rip.Valid() && |data| <= 1024
      modifies this`incoming
      ensures i == FindVip(rip.ifcs, if dest in rip.rtable then rip.rtable[dest].nextHop else 0xFFFF_FFFF)
      ensures i < 0 ==> incoming == old(incoming)
      ensures i >= 0 ==>
        && incoming == old(incoming) + [IpMsg(i, Build(host, rip.ifcs[i].localVip, dest, proto, |data|) + data)]
        && Carries(incoming[|old(incoming)|].packet, rip.ifcs[i].localVip, dest, proto, data)
    {
      var next := rip.GetNextAddress(dest, DEFAULT_ADDR);
      i := rip.GetInterface(next);
      if i < 0 { return; }
      var pkt := new byte[1044](_ => 0);
      BuildIpPacket(pkt, rip.ifcs[i].localVip, dest, proto, data);
      incoming := incoming + [IpMsg(i, pkt[..20 + |data|])];
    }

    /** `transfer_transit_data`. */
    method TransferTransitData(dest: uint32, data: array<byte>, len: nat) returns (i: int)
      requires rip.Valid() && len <= data.Length
      modifies this`incoming
      ensures i == FindVip(rip.ifcs, if dest in rip.rtable then rip.rtable[dest].nextHop else 0xFFFF_FFFF)
      ensures incoming == if i < 0 then old(incoming) else old(incoming) + [IpMsg(i, data[..len])]
    {
      var next := rip.GetNextAddress(dest, DEFAULT_ADDR);
      i := rip.GetInterface(next);
      if i < 0 { return; }
      incoming := incoming + [IpMsg(i, data[..len])];
    }

    /** The receiver's checksum test; it leaves the field zeroed. */
    method Verify(data: array<byte>) returns (ok: bool)
      requires data.Length >= 20
      modifies data
      ensures ok <==> Accepts(host, old(data[..20]))
      ensures data[..20] == Zeroed(old(data[..20])) && data[20..] == old(data[20..])
    {
      ghost var hdr: Header := data[..20];
      var orig := Word(host, data[10], data[11]);
      StoreHdr(data, 10, [0, 0]);
      assert data[..20] == Zeroed(hdr);
      var cur := IpSum(host, data, 20);
      ok := orig == cur;
    }

    /** The rewriting of a transit packet: TTL and protocol bytes, then the checksum. */
    method RewriteTransit(data: array<byte>) returns (alive: bool)
      requires data.Length >= 20
      modifies data
      ensures alive <==> TransitHeader(host, old(data[..20])).Forward?
      ensures alive ==> data[..20] == TransitHeader(host, old(data[..20])).hdr
      ensures data[20..] == old(data[20..])
    {
      ghost var hdr: Header := data[..20];
      var ttl := Decremented(host, data[8]);
      if ttl == 0 { return false; }
      StoreHdr(data, 8, WordBytes(host, Ntohs(host, ttl)));
      ghost var mid: Header := data[..20];
      assert mid == hdr[..8] + WordBytes(host, Ntohs(host, ttl)) + hdr[10..];
      StoreHdr(data, 10, [0, 0]);
      assert data[..20] == Zeroed(mid);
      var csum := IpSum(host, data, 20);
      StoreHdr(data, 10, WordBytes(host, csum));
      Resealed(host, mid, csum);
      alive := true;
    }

    /** The transit branch: rewrite, then look up the way on. */
    method ForwardTransit(dest: uint32, data: array<byte>, len: nat) returns (o: Outcome)
      requires rip.Valid() && 20 <= len <= data.Length
      modifies data, this`incoming
      ensures var x := TransitHeader(host, old(data[..20]));
        var i := OutIfc(rip.ifcs, rip.rtable, dest);
        && o == (if x.Dropped? then TtlExpired else if i < 0 then Unreachable else Forwarded(i, x.hdr))
        && incoming == (if o.Forwarded? then old(incoming) + [IpMsg(i, x.hdr + old(data[20..len]))] else old(incoming))
    {
      var alive := RewriteTransit(data);
      if !alive { return TtlExpired; }
      var i := TransferTransitData(dest, data, len);
      if i < 0 { return Unreachable; }
      HeadAndTail(data[..], len);
      HeadAndTail(old(data[..]), len);
      o := Forwarded(i, data[..20]);
    }

    /** The RIP branch: a message that comes in on an interface that is down is not looked at. */
    method ReceiveRip(data: array<byte>, datapos: nat, len: nat, next: uint32, now: Time)
      requires rip.Valid() && next in Vips(rip.ifcs) && len <= data.Length
      requires rip.up[FindVip(rip.ifcs, next)] ==> datapos <= len && Processable(data[datapos..len], rip.rtable)
      modifies rip`rtable, rip`outbox
      ensures rip.Valid()
      ensures !rip.up[FindVip(rip.ifcs, next)] ==> rip.rtable == old(rip.rtable) && rip.outbox == old(rip.outbox)
      ensures rip.up[FindVip(rip.ifcs, next)] ==>
        RipTook(data[datapos..len], rip.ifcs, rip.up, old(rip.rtable), old(rip.outbox), rip.rtable, rip.outbox,
                next, now)
    {
      var i := rip.GetInterface(next);
      if rip.up[i] {
        rip.TransferIpToRip(data[datapos..len], next, now);
      }
    }

    /**
     `transfer_data`: what becomes of a packet that arrived on the interface with local address `next`. A payload
     is read only if the checksum holds, the protocol is RIP and the interface is up.
     */
    method TransferData(data: array<byte>, len: nat, next: uint32, now: Time) returns (o: Outcome)
      requires rip.Valid() && 20 <= len < data.Length
      requires next in Vips(rip.ifcs)
      requires Accepts(host, data[..20]) && data[9] == RIP_PROTO && rip.up[FindVip(rip.ifcs, next)] ==>
        GoodRip(data[..len], rip.rtable)
      modifies data, this`incoming, rip`rtable, rip`outbox
      ensures rip.Valid()
      ensures o == Dispose(host, rip.ifcs, old(rip.rtable), old(data[..20]))
      ensures incoming == if o.Forwarded? then old(incoming) + [IpMsg(o.ifc, o.hdr + old(data[20..len]))]
                          else old(incoming)
      ensures !o.ToRip? || !rip.up[FindVip(rip.ifcs, next)] ==>
        rip.rtable == old(rip.rtable) && rip.outbox == old(rip.outbox)
      ensures o.ToRip? && rip.up[FindVip(rip.ifcs, next)] ==>
        RipTook(Payload(old(data[..len])), rip.ifcs, rip.up, old(rip.rtable), old(rip.outbox), rip.rtable, rip.outbox,
                next, now)
      ensures Decided(host, rip.ifcs, old(rip.rtable), old(data[..20]), o)
      ensures !Accepts(host, old(data[..20])) ==>
        o == BadChecksum && incoming == old(incoming) && rip.rtable == old(rip.rtable) && rip.outbox == old(rip.outbox)
      ensures o.Local? ==> data[len] == 0 && data[20..len] == old(data[20..len])
    {
      ghost var pkt, hdr: Header := data[..len], data[..20];
      var proto, dest, datapos := data[9], FromBE32(data[16..20]), HeaderLen(data[..len]);
      assert data[16..20] == hdr[16..20];
      DisposeDecides(host, rip.ifcs, rip.rtable, hdr);
      var ok := Verify(data);
      if !ok { return BadChecksum; }
      if proto == RIP_PROTO {
        if 20 <= datapos <= len {
          SameTail(data[..], old(data[..]), datapos, len);
          assert data[datapos..len] == pkt[datapos..];
        }
        ReceiveRip(data, datapos, len, next, now);
        return ToRip;
      }
      SameTail(data[..], old(data[..]), 20, len);
      assert data[20..len] == old(data[20..len]);
      var mine := rip.IsMyInterface(dest);
      if mine {
        data[len] := 0;
        return Local;
      }
      TransitIgnoresCheck(host, hdr);
      o := ForwardTransit(dest, data, len);
    }
  }

  // ---------------------------------------------------------------- announcements end to end

  lemma BuiltRipHeader(h: Host, f: Ifc, data: seq<byte>)
    ensures var hdr := Build(h, f.localVip, f.remoteVip, RIP_PROTO, |data|);
      hdr[0] == 0x45 && hdr[9] == RIP_PROTO && forall h': Host :: Accepts(h', hdr)
  {
    var u := Unsealed(f.localVip, f.remoteVip, RIP_PROTO, |data|);
    BuiltBytes(h, f.localVip, f.remoteVip, RIP_PROTO, |data|);
    forall h': Host ensures Accepts(h', Seal(h, u)) { SealAccepted(h, h', u); }
  }

  /** Every node, whatever its byte order and table, takes a packet with a RIP message to its RIP layer, unchanged. */
  lemma RipPacketIsTaken(h: Host, f: Ifc, data: seq<byte>, h': Host, ifcs: seq<Ifc>, table: Table)
    ensures var pkt := RipPacket(h, f, data);
      && |pkt| == 20 + |data| && HeaderLen(pkt) == 20 && Payload(pkt) == data
      && Dispose(h', ifcs, table, pkt[..20]) == ToRip
      && (GoodRip(pkt, table) <==> Processable(data, table))
  {
    var hdr := Build(h, f.localVip, f.remoteVip, RIP_PROTO, |data|);
    BuiltRipHeader(h, f, data);
    var pkt := RipPacket(h, f, data);
    assert pkt[..20] == hdr && pkt[20..] == data && pkt[0] == hdr[0];
    assert Accepts(h', hdr);
  }

  /** A delivered frame is merged with the address of the interface at the other end of its link. */
  lemma DeliveredTable(t: Topo, s: Net, m: Msg)
    requires WellFormed(t) && Inv(t, s) && Enabled(t, s, Deliver(m))
    ensures var n, j := t.ifcs[m.src][m.ifc].peerNode, t.ifcs[m.src][m.ifc].peerIfc;
      && n == Target(t, m) && IsIfc(t, n, j) && s.nodes[n].up[j]
      && Received(t, s, m).table
         == Merge(s.nodes[n].table, Vips(t.ifcs[n]), m.entries, t.ifcs[n][j].localVip, s.now)
  {
    ArrivalIsMirror(t, m.src, m.ifc);
  }

  /** What a packet that carries an announcement does to the table of its receiver. */
  lemma AnnouncementTaken(f: Ifc, table: Table, id: nat, data: seq<byte>, h: Host, h': Host, ifcs: seq<Ifc>, u: Table)
    requires |table| <= MAX_ENTRIES && data == Announcement(2, f.localVip, table, id).data
    ensures var pkt := RipPacket(h, f, data);
      && GoodRip(pkt, u) && Dispose(h', ifcs, u, pkt[..20]) == ToRip && Command(Payload(pkt)) == 2
      && DecodeBody(Payload(pkt)[2..]) == Advertise(table, f.localVip)
  {
    MsgRoundTrip(2, Advertise(table, f.localVip));
    RipPacketIsTaken(h, f, data, h', ifcs, u);
  }

  /** A packet with an announcement of any table is short enough to be handed over whole by the receive loop. */
  lemma AnnouncementIsReceived(h: Host, f: Ifc, table: Table, id: nat, data: seq<byte>, buf: seq<byte>, anyPort: nat,
                               port: nat, q: seq<Arrival>)
    requires |table| <= MAX_ENTRIES && data == Announcement(2, f.localVip, table, id).data && |buf| == RECV_MAX
    ensures var pkt := RipPacket(h, f, data);
      Whole(Drain(Progress(buf, 0, 0, anyPort), [Datagram(port, pkt)] + q), pkt)
  {
    MsgRoundTrip(2, Advertise(table, f.localVip));
    BuiltLength(h, f.localVip, f.remoteVip, RIP_PROTO, data);
    WholeIffShort(buf, anyPort, port, RipPacket(h, f, data), q);
  }

  /**
   From table to table: the frame announced on interface `i` of node `n`, put into a packet and given to the network
   layer of the node across the link, changes that node's table as the delivery step of the network does.
   */
  lemma AnnouncementCrosses(t: Topo, s: Net, n: nat, i: nat, s': Net, h: Host, h': Host, f: Frame, up: seq<bool>,
                            outbox: seq<Frame>, table': Table, outbox': seq<Frame>)
    requires WellFormed(t) && Inv(t, s) && Enabled(t, s, Send(n, i)) && |s.nodes[n].table| <= MAX_ENTRIES
    requires f in Announcements(2, t.ifcs[n], s.nodes[n].up, s.nodes[n].table, |t.ifcs[n]|) && f.ifc == i
    requires Inv(t, s') && Enabled(t, s', Deliver(MsgOf(t, s, n, i)))
    ensures var m, j := t.ifcs[n][i].peerNode, t.ifcs[n][i].peerIfc;
      && m == Target(t, MsgOf(t, s, n, i)) && IsIfc(t, m, j) && s'.nodes[m].up[j]
      && var pkt := RipPacket(h, t.ifcs[n][i], f.data);
         && GoodRip(pkt, s'.nodes[m].table)
         && Dispose(h', t.ifcs[m], s'.nodes[m].table, pkt[..20]) == ToRip
         && (|up| == |t.ifcs[m]| && RipTook(Payload(pkt), t.ifcs[m], up, s'.nodes[m].table, outbox, table', outbox',
                                            t.ifcs[m][j].localVip, s'.now) ==>
               table' == Received(t, s', MsgOf(t, s, n, i)).table && outbox' == outbox)
  {
    var g, m := t.ifcs[n][i], t.ifcs[n][i].peerNode;
    DeliveredTable(t, s', MsgOf(t, s, n, i));
    AnnouncedBytes(2, t.ifcs[n], s.nodes[n].up, s.nodes[n].table, |t.ifcs[n]|, f);
    AnnouncementTaken(g, s.nodes[n].table, i, f.data, h, h', t.ifcs[m], s'.nodes[m].table);
  }
}
