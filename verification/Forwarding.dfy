/** What the network layer decides about a packet, from its header and the node's table. */
module Forwarding {
  import opened Words
  import opened RipTable
  import opened Topology
  import opened Checksum
  import opened IpHeader

  const DEFAULT_ADDR: uint32 := 0xFFFF_FFFF

  datatype Outcome =
    | BadChecksum
    | ToRip
    | Local
    | TtlExpired
    | Unreachable
    | Forwarded(ifc: nat, hdr: Header)

  /** `get_next_address`: the next hop of the route to `dest`, or the default address. */
  function NextAddress(table: Table, dest: uint32): uint32 {
    if dest in table then table[dest].nextHop else DEFAULT_ADDR
  }

  /** The interface a packet for `dest` leaves by, or -1 if there is none. */
  function OutIfc(ifcs: seq<Ifc>, table: Table, dest: uint32): (i: int)
    ensures -1 <= i < |ifcs|
  {
    FindVip(ifcs, NextAddress(table, dest))
  }

  /** `transfer_data`: verify, hand to RIP, keep, or rewrite and forward. */
  function Dispose(h: Host, ifcs: seq<Ifc>, table: Table, hdr: Header): (o: Outcome)
    ensures o.Forwarded? ==> o.ifc < |ifcs|
  {
    if !Accepts(h, hdr) then BadChecksum
    else if hdr[9] == RIP_PROTO then ToRip
    else if Dest(hdr) in Vips(ifcs) then Local
    else match TransitHeader(h, hdr)
         case Dropped => TtlExpired
         case Forward(out) =>
           var i := OutIfc(ifcs, table, Dest(hdr));
           if i < 0 then Unreachable else Forwarded(i, out)
  }

  /**
   The decision told by the bytes of the header `b`: a bad checksum drops any packet; protocol 200 goes to RIP; own
   destinations stay; the rest is forwarded over the interface of the route, or of the default address, if there is
   one, except that a big-endian host drops TTL 1.
   */
  ghost predicate Decided(h: Host, ifcs: seq<Ifc>, table: Table, b: Header, o: Outcome) {
    var dest := Value32(b, 16);
    var i := FindVip(ifcs, if dest in table then table[dest].nextHop else 0xFFFF_FFFF);
    if !Accepts(h, b) then o == BadChecksum
    else if b[9] == 200 then o == ToRip
    else if exists j :: 0 <= j < |ifcs| && ifcs[j].localVip == dest then o == Local
    else if h.BigEndian? && b[8] == 1 then o == TtlExpired
    else if i < 0 then o == Unreachable
    else o.Forwarded? && o.ifc == i && Rewritten(h, b, o.hdr)
  }

  /** What a transit leaves of a header: TTL and protocol changed, a good checksum, the rest, both addresses, kept. */
  ghost predicate Rewritten(h: Host, b: Header, out: Header) {
    && (forall i :: (0 <= i < 8 || 12 <= i < 20) ==> out[i] == b[i])
    && out[8] == (if b[8] == 0 then 255 else if h.LittleEndian? then b[8] - 1 else 0)
    && out[9] == (if h.LittleEndian? || b[8] == 0 then 255 else b[8] - 1)
    && (forall h': Host :: Accepts(h', out))
  }

  lemma TransitRewrites(h: Host, b: Header)
    requires TransitHeader(h, b).Forward?
    ensures Rewritten(h, b, TransitHeader(h, b).hdr)
  {
    var out := TransitHeader(h, b).hdr;
    TransitBytes(h, b);
    assert forall i :: 0 <= i < 8 ==> out[i] == out[..8][i] && b[i] == b[..8][i];
    assert forall i :: 12 <= i < 20 ==> out[i] == out[12..][i - 12] && b[i] == b[12..][i - 12];
    forall h': Host ensures Accepts(h', out) { ForwardedAccepted(h, h', b); }
  }

  lemma DisposeDecides(h: Host, ifcs: seq<Ifc>, table: Table, b: Header)
    ensures Decided(h, ifcs, table, b, Dispose(h, ifcs, table, b))
  {
    FromBE32Value(b, 16);
    var dest := Dest(b);
    if dest in Vips(ifcs) {
      assert ifcs[FindVip(ifcs, dest)].localVip == dest;
    } else {
      assert forall j :: 0 <= j < |ifcs| ==> ifcs[j].localVip == Vips(ifcs)[j];
      TransitBytes(h, b);
      if TransitHeader(h, b).Forward? { TransitRewrites(h, b); }
    }
  }
}
