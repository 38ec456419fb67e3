/** Data packets: a packet's way through the network while the tables keep changing under it. */
module Delivery {
  import opened Words
  import opened Topology
  import opened Network
  import opened LoopFreedom
  import opened Checksum
  import opened IpHeader
  import opened Forwarding
  import opened Reception

  /** A whole packet that has crossed `hops` links and waits to be processed at node `at`, or how it ended. */
  datatype Trip =
    | InFlight(at: nat, hops: nat, hdr: Header)
    | Delivered(at: nat, hops: nat)
    | TakenByRip(at: nat, hops: nat)
    | Lost

  /**
   The frame crosses the link of interface `i`, unless that interface is down or the frame does not fit into the
   receive buffer at the other end (Reception.WholeIffShort).
   */
  function Cross(t: Topo, s: Net, n: nat, i: int, hops: nat, hdr: Header): Trip
    requires Shape(t, s) && n < |s.nodes| && i < |t.ifcs[n]|
  {
    if i >= 0 && s.nodes[n].up[i] && FrameLen(hdr) <= RECV_MAX then InFlight(t.ifcs[n][i].peerNode, hops + 1, hdr)
    else Lost
  }

  /** `transfer_application_to_ip` at node `n`. */
  function Launch(t: Topo, h: Host, s: Net, n: nat, dest: uint32, proto: byte, size: nat): Trip
    requires Shape(t, s) && n < |s.nodes|
  {
    var i := OutIfc(t.ifcs[n], s.nodes[n].table, dest);
    if i < 0 then Lost
    else Cross(t, s, n, i, 0, Build(h, t.ifcs[n][i].localVip, dest, proto, size))
  }

  /** `transfer_data` at the node the packet is at, and the link it crosses if it is forwarded. */
  function Process(t: Topo, hosts: seq<Host>, s: Net, p: Trip): Trip
    requires Shape(t, s) && |hosts| == |t.ifcs|
  {
    if !p.InFlight? then p
    else if p.at >= |s.nodes| then Lost
    else match Dispose(hosts[p.at], t.ifcs[p.at], s.nodes[p.at].table, p.hdr)
         case Local => Delivered(p.at, p.hops)
         case ToRip => TakenByRip(p.at, p.hops)
         case Forwarded(i, hdr) => Cross(t, s, p.at, i, p.hops, hdr)
         case _ => Lost
  }

  // ---------------------------------------------------------------- the header on its way

  /** The TTL byte after `j` transits of nodes of any mixture of byte orders. */
  predicate TtlOk(ttl: byte, j: nat) {
    ttl == 16 - j || ttl == 0 || ttl >= 255 - j
  }

  ghost predicate HdrOk(hdr: Header, j: nat, dest: uint32) {
    && (forall h: Host :: Accepts(h, hdr))
    && Dest(hdr) == dest && TtlOk(hdr[8], j) && hdr[9] != RIP_PROTO && FrameLen(hdr) <= RECV_MAX
  }

  lemma BuildMeans(h: Host, src: uint32, dest: uint32, proto: byte, size: nat)
    ensures var hdr := Build(h, src, dest, proto, size);
      && (forall h': Host :: Accepts(h', hdr))
      && Dest(hdr) == dest && hdr[8] == INITIAL_TTL && hdr[9] == proto
      && Big32At(hdr, 12, src) && Big32At(hdr, 16, dest)
      && (size <= 65515 ==> FrameLen(hdr) == 20 + size)
  {
    var u := Unsealed(src, dest, proto, size);
    forall h': Host ensures Accepts(h', Seal(h, u)) { SealAccepted(h, h', u); }
    BuiltBytes(h, src, dest, proto, size);
    BE32RoundTrip(dest);
    BE32Bytes(dest);
    if size <= 65515 { BuiltLength(h, src, dest, proto, seq(size, i => 0)); }
  }

  lemma BuildOk(h: Host, src: uint32, dest: uint32, proto: byte, size: nat)
    requires proto != RIP_PROTO && size <= MAX_PAYLOAD
    ensures HdrOk(Build(h, src, dest, proto, size), 0, dest)
  {
    BuildMeans(h, src, dest, proto, size);
  }

  lemma TransitKeepsDest(h: Host, hdr: Header)
    requires TransitHeader(h, hdr).Forward?
    ensures Dest(TransitHeader(h, hdr).hdr) == Dest(hdr)
  {
    TransitBytes(h, hdr);
    var out := TransitHeader(h, hdr).hdr;
    assert forall i :: 12 <= i < 20 ==> out[i] == out[12..][i - 12] && hdr[i] == hdr[12..][i - 12];
    assert out[16..20] == hdr[16..20];
  }

  lemma TransitTtl(h: Host, hdr: Header, j: nat)
    requires TtlOk(hdr[8], j) && j <= 14
    ensures TransitHeader(h, hdr).Forward?
    ensures TtlOk(TransitHeader(h, hdr).hdr[8], j + 1) && TransitHeader(h, hdr).hdr[9] != RIP_PROTO
  {
    TransitBytes(h, hdr);
  }

  /** Fifteen transits in a row, whatever the byte orders, neither drop a packet nor turn it into a RIP message. */
  lemma TransitOk(h: Host, hdr: Header, j: nat, dest: uint32)
    requires HdrOk(hdr, j, dest) && j <= 14
    ensures TransitHeader(h, hdr).Forward? && HdrOk(TransitHeader(h, hdr).hdr, j + 1, dest)
  {
    TransitTtl(h, hdr, j);
    TransitKeepsDest(h, hdr);
    TransitLength(h, hdr, []);
    forall h': Host ensures Accepts(h', TransitHeader(h, hdr).hdr) { ForwardedAccepted(h, h', hdr); }
  }

  // ---------------------------------------------------------------- delivery

  /** The packet is on course: what it has spent and what its node's route still costs stay within budget `c`. */
  ghost predicate OnCourse(s: Net, p: Trip, dest: uint32, c: nat, k: nat) {
    p.InFlight? ==>
      && p.hops == k + 1 && p.at < |s.nodes| && dest in s.nodes[p.at].table
      && p.hops + s.nodes[p.at].table[dest].e.cost <= c
      && HdrOk(p.hdr, k, dest)
  }

  /** Sending along a descending route costs one hop and gains at least one. */
  lemma CrossOnCourse(t: Topo, s: Net, n: nat, dest: uint32, hops: nat, hdr: Header, c: nat)
    requires Inv(t, s) && Descends(t, s) && n < |s.nodes| && dest in s.nodes[n].table && !Owns(t, n, dest)
    requires hops + s.nodes[n].table[dest].e.cost <= c && HdrOk(hdr, hops, dest)
    ensures var p := Cross(t, s, n, OutIfc(t.ifcs[n], s.nodes[n].table, dest), hops, hdr);
      p.InFlight? && OnCourse(s, p, dest, c, hops)
  {
    assert NodeOk(t, n, s.nodes[n], s.now);
    assert RouteOk(t, n, s.nodes[n].up, dest, s.nodes[n].table[dest]);
    assert RouteDescends(t, s, n, dest);
  }

  lemma LaunchOnCourse(t: Topo, h: Host, s: Net, n: nat, dest: uint32, proto: byte, size: nat)
    requires Inv(t, s) && Descends(t, s) && n < |s.nodes| && dest in s.nodes[n].table && !Owns(t, n, dest)
    requires proto != RIP_PROTO && size <= MAX_PAYLOAD
    ensures var c := s.nodes[n].table[dest].e.cost;
      var p := Launch(t, h, s, n, dest, proto, size);
      c <= 16 && p.InFlight? && OnCourse(s, p, dest, c, 0)
  {
    assert NodeOk(t, n, s.nodes[n], s.now);
    assert RouteOk(t, n, s.nodes[n].up, dest, s.nodes[n].table[dest]);
    var src := t.ifcs[n][OutIfc(t.ifcs[n], s.nodes[n].table, dest)].localVip;
    BuildOk(h, src, dest, proto, size);
    CrossOnCourse(t, s, n, dest, 0, Build(h, src, dest, proto, size), s.nodes[n].table[dest].e.cost);
  }

  /** What becomes of a launch: a packet of up to 1004 bytes of payload waits at the next node, a longer one is lost. */
  lemma LaunchMeans(t: Topo, h: Host, s: Net, n: nat, dest: uint32, proto: byte, size: nat)
    requires Inv(t, s) && n < |s.nodes| && dest in s.nodes[n].table && size <= 1024
    ensures var p := Launch(t, h, s, n, dest, proto, size);
      && FindVip(t.ifcs[n], s.nodes[n].table[dest].nextHop) >= 0
      && (size > MAX_PAYLOAD ==> p == Lost)
      && (size <= MAX_PAYLOAD ==> p.InFlight? && p.at == NextNode(t.ifcs[n], s.nodes[n].table[dest]) && p.hops == 1
                                  && (forall h': Host :: Accepts(h', p.hdr)) && p.hdr[9] == proto
                                  && Big32At(p.hdr, 12, t.ifcs[n][OutIfc(t.ifcs[n], s.nodes[n].table, dest)].localVip)
                                  && Big32At(p.hdr, 16, dest))
  {
    assert NodeOk(t, n, s.nodes[n], s.now);
    assert RouteOk(t, n, s.nodes[n].up, dest, s.nodes[n].table[dest]);
    BuildMeans(h, t.ifcs[n][OutIfc(t.ifcs[n], s.nodes[n].table, dest)].localVip, dest, proto, size);
  }

  /** Processing an accepted data packet that is not at its destination, and not dropped, is sending it on. */
  lemma ProcessIsCross(t: Topo, hosts: seq<Host>, s: Net, p: Trip)
    requires Shape(t, s) && |hosts| == |t.ifcs| && p.InFlight? && p.at < |s.nodes|
    requires Accepts(hosts[p.at], p.hdr) && p.hdr[9] != RIP_PROTO && !Owns(t, p.at, Dest(p.hdr))
    requires TransitHeader(hosts[p.at], p.hdr).Forward?
    ensures Process(t, hosts, s, p)
         == Cross(t, s, p.at, OutIfc(t.ifcs[p.at], s.nodes[p.at].table, Dest(p.hdr)), p.hops,
                  TransitHeader(hosts[p.at], p.hdr).hdr)
  {
  }

  /** Processing a packet that has a good header and is not at its destination is forwarding it. */
  lemma ProcessForwards(t: Topo, hosts: seq<Host>, s: Net, p: Trip, dest: uint32, j: nat)
    requires Shape(t, s) && |hosts| == |t.ifcs|
    requires p.InFlight? && p.at < |s.nodes| && HdrOk(p.hdr, j, dest) && j <= 14
    requires !Owns(t, p.at, dest)
    ensures var h := hosts[p.at];
      TransitHeader(h, p.hdr).Forward? && HdrOk(TransitHeader(h, p.hdr).hdr, j + 1, dest)
    ensures Process(t, hosts, s, p) == Cross(t, s, p.at, OutIfc(t.ifcs[p.at], s.nodes[p.at].table, dest), p.hops,
                                             TransitHeader(hosts[p.at], p.hdr).hdr)
  {
    assert Accepts(hosts[p.at], p.hdr);
    TransitOk(hosts[p.at], p.hdr, j, dest);
    ProcessIsCross(t, hosts, s, p);
  }

  lemma ProcessOnCourse(t: Topo, hosts: seq<Host>, s: Net, p: Trip, dest: uint32, c: nat, k: nat)
    requires Inv(t, s) && Descends(t, s) && p.InFlight? && OnCourse(s, p, dest, c, k) && c <= 16
    requires |hosts| == |t.ifcs|
    ensures var p' := Process(t, hosts, s, p);
      && !p'.Lost? && !p'.TakenByRip? && OnCourse(s, p', dest, c, k + 1)
      && (p'.Delivered? ==> Owns(t, p'.at, dest) && p'.hops <= c)
  {
    if Owns(t, p.at, dest) {
      assert Accepts(hosts[p.at], p.hdr);
    } else {
      assert 1 <= s.nodes[p.at].table[dest].e.cost by {
        assert NodeOk(t, p.at, s.nodes[p.at], s.now);
        assert RouteOk(t, p.at, s.nodes[p.at].up, dest, s.nodes[p.at].table[dest]);
      }
      ProcessForwards(t, hosts, s, p, dest, k);
      CrossOnCourse(t, s, p.at, dest, p.hops, TransitHeader(hosts[p.at], p.hdr).hdr, c);
    }
  }

  /** The states of a run in which a packet is launched and then processed, in the order of the run. */
  ghost predicate Schedule(t: Topo, r: Run, sched: seq<nat>) {
    && |sched| > 0
    && (forall i :: 0 <= i < |sched| ==> sched[i] < |r.states| && Shape(t, r.states[sched[i]]))
    && (forall i, j :: 0 <= i < j < |sched| ==> sched[i] <= sched[j])
  }

  /** The `k + 1`-th processing, which takes place in state `sched[k + 1]`. */
  ghost predicate HopAt(t: Topo, hosts: seq<Host>, r: Run, sched: seq<nat>, trips: seq<Trip>, k: nat) {
    && k + 1 < |sched| == |trips| && sched[k + 1] < |r.states| && Shape(t, r.states[sched[k + 1]])
    && |hosts| == |t.ifcs| && trips[k + 1] == Process(t, hosts, r.states[sched[k + 1]], trips[k])
  }

  /** A packet's way: `trips[k]` is the packet after its `k`-th processing; node `n` is a host of kind `hosts[n]`. */
  ghost predicate Journey(t: Topo, hosts: seq<Host>, r: Run, sched: seq<nat>, trips: seq<Trip>) {
    && |trips| == |sched| > 0
    && forall k: nat {:trigger HopAt(t, hosts, r, sched, trips, k)} ::
         k + 1 < |trips| ==> HopAt(t, hosts, r, sched, trips, k)
  }

  /** The way of a packet that node `n` launches in state `sched[0]`. */
  ghost predicate Launched(t: Topo, hosts: seq<Host>, r: Run, sched: seq<nat>, trips: seq<Trip>, n: nat, dest: uint32,
                           proto: byte, size: nat)
  {
    && Schedule(t, r, sched) && |hosts| == |t.ifcs| && n < |t.ifcs| && Journey(t, hosts, r, sched, trips)
    && trips[0] == Launch(t, hosts[n], r.states[sched[0]], n, dest, proto, size)
  }

  lemma ExtendedJourney(t: Topo, hosts: seq<Host>, r: Run, sched: seq<nat>, trips: seq<Trip>, x: nat)
    requires Journey(t, hosts, r, sched, trips) && x < |r.states| && Shape(t, r.states[x]) && |hosts| == |t.ifcs|
    ensures Journey(t, hosts, r, sched + [x], trips + [Process(t, hosts, r.states[x], trips[|trips| - 1])])
  {
    var trips' := trips + [Process(t, hosts, r.states[x], trips[|trips| - 1])];
    forall k: nat | k + 1 < |trips'| ensures HopAt(t, hosts, r, sched + [x], trips', k) {
      if k + 1 < |trips| { assert HopAt(t, hosts, r, sched, trips, k); }
    }
  }

  /** Every packet has its way on every schedule. */
  lemma {:induction false} JourneyExists(t: Topo, hosts: seq<Host>, r: Run, sched: seq<nat>, p: Trip)
    returns (trips: seq<Trip>)
    requires Schedule(t, r, sched) && |hosts| == |t.ifcs|
    ensures Journey(t, hosts, r, sched, trips) && trips[0] == p
  {
    var k := |sched| - 1;
    if k == 0 {
      trips := [p];
    } else {
      trips := JourneyExists(t, hosts, r, sched[..k], p);
      ExtendedJourney(t, hosts, r, sched[..k], trips, sched[k]);
      trips := trips + [Process(t, hosts, r.states[sched[k]], trips[k - 1])];
      assert sched[..k] + [sched[k]] == sched;
    }
  }

  lemma OnCourseLater(s: Net, s': Net, p: Trip, dest: uint32, c: nat, k: nat)
    requires OnCourse(s, p, dest, c, k) && Improves(s, s')
    ensures OnCourse(s', p, dest, c, k)
  {
  }

  /** The packet is not lost, on course if in flight, and within budget if delivered. */
  ghost predicate Arriving(t: Topo, s: Net, p: Trip, dest: uint32, c: nat, k: nat) {
    && c <= 16 && !p.Lost? && !p.TakenByRip? && OnCourse(s, p, dest, c, k)
    && (p.Delivered? ==> Owns(t, p.at, dest) && p.hops <= c)
  }

  lemma ArrivingMeans(t: Topo, s: Net, p: Trip, dest: uint32, c: nat, k: nat)
    requires Arriving(t, s, p, dest, c, k)
    ensures c <= 16 && !p.Lost? && !p.TakenByRip?
    ensures p.InFlight? ==> p.hops == k + 1 && p.hops <= c
    ensures p.Delivered? ==> Owns(t, p.at, dest) && p.hops <= c
    ensures k >= c ==> p.Delivered?
  {
  }

  /** Processing a packet in a later state of a run that erases nothing. */
  lemma ArrivingLater(t: Topo, hosts: seq<Host>, r: Run, i: nat, j: nat, p: Trip, dest: uint32, c: nat, k: nat)
    requires ValidRun(t, r) && EraseFree(r, 0) && i <= j < |r.states| && Shape(t, r.states[j])
    requires Arriving(t, r.states[i], p, dest, c, k) && |hosts| == |t.ifcs|
    ensures Arriving(t, r.states[j], Process(t, hosts, r.states[j], p), dest, c, k + 1)
  {
    if p.InFlight? {
      ImprovesOverTime(t, r, 0, i, j);
      OnCourseLater(r.states[i], r.states[j], p, dest, c, k);
      EraseFreeDescends(t, r, j);
      ProcessOnCourse(t, hosts, r.states[j], p, dest, c, k);
    }
  }

  lemma LaunchArriving(t: Topo, h: Host, r: Run, i: nat, n: nat, dest: uint32, proto: byte, size: nat)
    requires ValidRun(t, r) && EraseFree(r, 0) && i < |r.states| && Shape(t, r.states[i])
    requires n < |t.ifcs| && !Owns(t, n, dest) && dest in r.states[i].nodes[n].table
    requires proto != RIP_PROTO && size <= MAX_PAYLOAD
    ensures Arriving(t, r.states[i], Launch(t, h, r.states[i], n, dest, proto, size), dest,
                     r.states[i].nodes[n].table[dest].e.cost, 0)
  {
    EraseFreeDescends(t, r, i);
    LaunchOnCourse(t, h, r.states[i], n, dest, proto, size);
  }

  /** A schedule in a run that erases nothing. */
  ghost predicate CalmSchedule(t: Topo, r: Run, sched: seq<nat>) {
    ValidRun(t, r) && EraseFree(r, 0) && Schedule(t, r, sched)
  }

  lemma {:induction false} JourneyArriving(t: Topo, hosts: seq<Host>, r: Run, sched: seq<nat>, trips: seq<Trip>,
                                           dest: uint32, c: nat, k: nat)
    requires CalmSchedule(t, r, sched) && Journey(t, hosts, r, sched, trips) && k < |sched|
    requires Arriving(t, r.states[sched[0]], trips[0], dest, c, 0)
    ensures sched[k] < |r.states| && Arriving(t, r.states[sched[k]], trips[k], dest, c, k)
  {
    if k == 0 {
    } else {
      JourneyArriving(t, hosts, r, sched, trips, dest, c, k - 1);
      assert HopAt(t, hosts, r, sched, trips, k - 1);
      ArrivingLater(t, hosts, r, sched[k - 1], sched[k], trips[k - 1], dest, c, k - 1);
    }
  }

  /**
   How a packet fares that is launched for `dest` with budget `c` and has been processed `k` times. Too long a one is
   lost at once; one that claims to be a RIP message is taken by the RIP layer of the first neighbour, node `first`;
   any other arrives at the owner within the budget, and after `c` processing steps has arrived.
   */
  ghost predicate Fares(t: Topo, p: Trip, first: nat, dest: uint32, proto: byte, size: nat, c: nat, k: nat) {
    && (p.Lost? <==> size > MAX_PAYLOAD)
    && (p.TakenByRip? <==> size <= MAX_PAYLOAD && proto == RIP_PROTO && k > 0)
    && (p.TakenByRip? ==> p.at == first && p.hops == 1)
    && (p.InFlight? ==> p.hops == k + 1 && p.hops <= c)
    && (p.Delivered? ==> Owns(t, p.at, dest) && p.hops <= c)
    && (k >= c ==> (p.Delivered? <==> size <= MAX_PAYLOAD && proto != RIP_PROTO))
  }

  lemma ProcessEnded(t: Topo, hosts: seq<Host>, s: Net, p: Trip)
    requires Shape(t, s) && |hosts| == |t.ifcs| && !p.InFlight?
    ensures Process(t, hosts, s, p) == p
  {
  }

  /** A packet that claims to be a RIP message is taken where it is. */
  lemma ProcessTakes(t: Topo, hosts: seq<Host>, s: Net, p: Trip)
    requires Shape(t, s) && |hosts| == |t.ifcs|
    requires p.InFlight? && p.at < |t.ifcs| && p.hdr[9] == RIP_PROTO && forall h: Host :: Accepts(h, p.hdr)
    ensures Process(t, hosts, s, p) == TakenByRip(p.at, p.hops)
  {
    assert Accepts(hosts[p.at], p.hdr);
  }

  /** What has ended stays as it is. */
  lemma {:induction false} EndedStays(t: Topo, hosts: seq<Host>, r: Run, sched: seq<nat>, trips: seq<Trip>, j: nat,
                                      k: nat)
    requires Journey(t, hosts, r, sched, trips) && j <= k < |trips| && !trips[j].InFlight?
    ensures trips[k] == trips[j]
  {
    if k == j {
    } else {
      EndedStays(t, hosts, r, sched, trips, j, k - 1);
      assert HopAt(t, hosts, r, sched, trips, k - 1);
      ProcessEnded(t, hosts, r.states[sched[k]], trips[k - 1]);
    }
  }

  /** A packet that claims to be a RIP message is taken at its next processing and stays taken. */
  lemma RipTakes(t: Topo, hosts: seq<Host>, r: Run, sched: seq<nat>, trips: seq<Trip>, j: nat, k: nat)
    requires Journey(t, hosts, r, sched, trips) && j < k < |trips| && trips[j].InFlight? && trips[j].at < |t.ifcs|
    requires trips[j].hdr[9] == RIP_PROTO && forall h: Host :: Accepts(h, trips[j].hdr)
    ensures trips[k] == TakenByRip(trips[j].at, trips[j].hops)
  {
    assert HopAt(t, hosts, r, sched, trips, j);
    ProcessTakes(t, hosts, r.states[sched[j + 1]], trips[j]);
    EndedStays(t, hosts, r, sched, trips, j + 1, k);
  }

  /** All three ways to fare, given where the launched packet is and that it is on course unless RIP takes it. */
  lemma JourneyFares(t: Topo, hosts: seq<Host>, r: Run, sched: seq<nat>, trips: seq<Trip>, first: nat, dest: uint32,
                     proto: byte, size: nat, c: nat, k: nat)
    requires CalmSchedule(t, r, sched) && Journey(t, hosts, r, sched, trips) && k < |trips| && c > 0 && first < |t.ifcs|
    requires size > MAX_PAYLOAD ==> trips[0] == Lost
    requires size <= MAX_PAYLOAD ==>
      trips[0].InFlight? && trips[0].at == first && trips[0].hops == 1 && trips[0].hdr[9] == proto
    requires size <= MAX_PAYLOAD ==> forall h: Host :: Accepts(h, trips[0].hdr)
    requires size <= MAX_PAYLOAD && proto != RIP_PROTO ==> Arriving(t, r.states[sched[0]], trips[0], dest, c, 0)
    ensures Fares(t, trips[k], first, dest, proto, size, c, k)
  {
    if size > MAX_PAYLOAD {
      EndedStays(t, hosts, r, sched, trips, 0, k);
    } else if proto == RIP_PROTO {
      if k > 0 { RipTakes(t, hosts, r, sched, trips, 0, k); }
    } else {
      JourneyArriving(t, hosts, r, sched, trips, dest, c, k);
      ArrivingMeans(t, r.states[sched[k]], trips[k], dest, c, k);
    }
  }

  /**
   Delivery: in a run that erases nothing, a packet from a node whose route to a foreign address costs `c` is never
   lost while tables keep improving under it, on hosts of any mixture of byte orders, and reaches the owner in at
   most `c <= 16` hops, exactly if its payload has at most 1004 bytes and its protocol is not that of RIP. The send
   buffer holds 1024 bytes of payload.
   */
  lemma PacketsArrive(t: Topo, hosts: seq<Host>, r: Run, sched: seq<nat>, trips: seq<Trip>, n: nat, dest: uint32,
                      proto: byte, size: nat, k: nat)
    requires ValidRun(t, r) && EraseFree(r, 0) && Launched(t, hosts, r, sched, trips, n, dest, proto, size)
    requires k < |trips| && !Owns(t, n, dest) && size <= 1024
    requires dest in r.states[sched[0]].nodes[n].table
    ensures var route := r.states[sched[0]].nodes[n].table[dest];
      && route.e.cost <= 16 && FindVip(t.ifcs[n], route.nextHop) >= 0
      && Fares(t, trips[k], NextNode(t.ifcs[n], route), dest, proto, size, route.e.cost, k)
  {
    var s := r.states[sched[0]];
    var route := s.nodes[n].table[dest];
    ReachableInv(t, r, sched[0]);
    assert NodeOk(t, n, s.nodes[n], s.now) && RouteOk(t, n, s.nodes[n].up, dest, route);
    LaunchMeans(t, hosts[n], s, n, dest, proto, size);
    if size <= MAX_PAYLOAD && proto != RIP_PROTO {
      LaunchArriving(t, hosts[n], r, sched[0], n, dest, proto, size);
    }
    assert NextNode(t.ifcs[n], route) < |t.ifcs| by { assert Mirrored(t, n, FindVip(t.ifcs[n], route.nextHop)); }
    JourneyFares(t, hosts, r, sched, trips, NextNode(t.ifcs[n], route), dest, proto, size, route.e.cost, k);
  }

  /** A TTL taken down by one at each of `k` transits. */
  function IntendedTtl(k: nat): int {
    INITIAL_TTL - k
  }

  /**
   The intended decrement would do as well, in place of the one the code performs: whenever such a packet has been
   sent on `k` times, the initial TTL less one for each of these transits is still positive.
   */
  lemma IntendedTtlSuffices(t: Topo, hosts: seq<Host>, r: Run, sched: seq<nat>, trips: seq<Trip>, n: nat, dest: uint32,
                            proto: byte, size: nat, k: nat)
    requires ValidRun(t, r) && EraseFree(r, 0) && Launched(t, hosts, r, sched, trips, n, dest, proto, size)
    requires k < |trips| && !Owns(t, n, dest) && size <= 1024
    requires dest in r.states[sched[0]].nodes[n].table
    ensures trips[k].InFlight? ==> trips[k].hops == k + 1 && IntendedTtl(k) > 0
  {
    PacketsArrive(t, hosts, r, sched, trips, n, dest, proto, size, k);
  }

  /** A packet whose checksum does not hold is lost wherever it is, whatever its protocol and destination. */
  lemma BadChecksumIsLost(t: Topo, hosts: seq<Host>, s: Net, p: Trip)
    requires Shape(t, s) && |hosts| == |t.ifcs| && p.InFlight? && p.at < |s.nodes| && !Accepts(hosts[p.at], p.hdr)
    ensures Process(t, hosts, s, p) == Lost
  {
  }

  /**
   End to end: a packet that would be accepted, of which one word of the header was changed on the way, is lost at the
   next node unless the change is the one exchange that the checksum does not notice.
   */
  lemma DamagedIsLost(t: Topo, hosts: seq<Host>, s: Net, p: Trip, k: nat, w: uint16)
    requires Shape(t, s) && |hosts| == |t.ifcs| && p.InFlight? && p.at < |s.nodes| && Accepts(hosts[p.at], p.hdr)
    requires k < 10 && Noticed(hosts[p.at], p.hdr, k, w)
    ensures Process(t, hosts, s, p.(hdr := SetWord(hosts[p.at], p.hdr, k, w))) == Lost
  {
    NoticedIsRejected(hosts[p.at], p.hdr, k, w);
    BadChecksumIsLost(t, hosts, s, p.(hdr := SetWord(hosts[p.at], p.hdr, k, w)));
  }

  /** Without a route, and without an interface of the default address, nothing is launched. */
  lemma LaunchNeedsRoute(t: Topo, h: Host, s: Net, n: nat, dest: uint32, proto: byte, size: nat)
    requires Inv(t, s) && n < |s.nodes| && FindVip(t.ifcs[n], 0xFFFF_FFFF) < 0 && size <= MAX_PAYLOAD
    ensures Launch(t, h, s, n, dest, proto, size).Lost? <==> dest !in s.nodes[n].table
  {
    if dest in s.nodes[n].table {
      LaunchMeans(t, h, s, n, dest, proto, size);
    }
  }

  /** A transit node loses a good packet exactly if it has no route for it. */
  lemma LostIffNoRoute(t: Topo, hosts: seq<Host>, s: Net, p: Trip, dest: uint32, j: nat)
    requires Inv(t, s) && |hosts| == |t.ifcs|
    requires p.InFlight? && p.at < |s.nodes| && HdrOk(p.hdr, j, dest) && j <= 14
    requires !Owns(t, p.at, dest) && FindVip(t.ifcs[p.at], DEFAULT_ADDR) < 0
    ensures Process(t, hosts, s, p).Lost? <==> dest !in s.nodes[p.at].table
    ensures !Process(t, hosts, s, p).Delivered? && !Process(t, hosts, s, p).TakenByRip?
  {
    ProcessForwards(t, hosts, s, p, dest, j);
    assert NodeOk(t, p.at, s.nodes[p.at], s.now);
    if dest in s.nodes[p.at].table {
      assert RouteOk(t, p.at, s.nodes[p.at].up, dest, s.nodes[p.at].table[dest]);
    }
  }

  /**
   The exception: a packet for one of the node's own addresses is not delivered locally. It is sent out on that
   very interface, and the neighbour there, unless its RIP layer takes it, loses it exactly if it has no route back.
   */
  lemma OwnAddressDetour(t: Topo, hosts: seq<Host>, s: Net, n: nat, i: nat, proto: byte, size: nat)
    requires WellFormed(t) && Inv(t, s) && IsIfc(t, n, i) && s.nodes[n].up[i] && size <= 1024
    requires |hosts| == |t.ifcs|
    requires var m := t.ifcs[n][i].peerNode; m != n && m < |t.ifcs| && FindVip(t.ifcs[m], DEFAULT_ADDR) < 0
    ensures var dest := t.ifcs[n][i].localVip;
      var m := t.ifcs[n][i].peerNode;
      var p := Launch(t, hosts[n], s, n, dest, proto, size);
      var p' := Process(t, hosts, s, p);
      if size > MAX_PAYLOAD then p == Lost
      else
        && p.InFlight? && p.at == m && p.hops == 1
        && (p'.TakenByRip? <==> proto == RIP_PROTO)
        && (p'.Lost? <==> proto != RIP_PROTO && dest !in s.nodes[m].table)
        && !p'.Delivered?
  {
    var dest, m := t.ifcs[n][i].localVip, t.ifcs[n][i].peerNode;
    var p := Launch(t, hosts[n], s, n, dest, proto, size);
    OwnLaunch(t, hosts[n], s, n, i, proto, size);
    if size <= MAX_PAYLOAD && proto == RIP_PROTO {
      ProcessTakes(t, hosts, s, p);
    } else if size <= MAX_PAYLOAD {
      BuildOk(hosts[n], dest, dest, proto, size);
      assert !Owns(t, m, dest) by {
        if Owns(t, m, dest) { OneOwner(t, n, i, m); }
      }
      LostIffNoRoute(t, hosts, s, p, dest, 0);
    }
  }

  /**
   In a run that erases nothing such a packet comes back: if the neighbour's route to the address costs `c <= 15`,
   it fares like one launched with budget `1 + c`, and it is the very node that sent it that takes it in.
   */
  lemma OwnAddressReturns(t: Topo, hosts: seq<Host>, r: Run, sched: seq<nat>, trips: seq<Trip>, n: nat, i: nat,
                          proto: byte, size: nat, k: nat)
    requires ValidRun(t, r) && EraseFree(r, 0) && IsIfc(t, n, i)
    requires Launched(t, hosts, r, sched, trips, n, t.ifcs[n][i].localVip, proto, size)
    requires k < |trips| && r.states[sched[0]].nodes[n].up[i] && size <= 1024
    requires var s, m := r.states[sched[0]], t.ifcs[n][i].peerNode;
      m < |s.nodes| && t.ifcs[n][i].localVip in s.nodes[m].table
      && s.nodes[m].table[t.ifcs[n][i].localVip].e.cost <= 15
    ensures var dest, m := t.ifcs[n][i].localVip, t.ifcs[n][i].peerNode;
      var c := r.states[sched[0]].nodes[m].table[dest].e.cost;
      Fares(t, trips[k], m, dest, proto, size, 1 + c, k) && (trips[k].Delivered? ==> trips[k].at == n)
  {
    var s, dest, m := r.states[sched[0]], t.ifcs[n][i].localVip, t.ifcs[n][i].peerNode;
    var c := s.nodes[m].table[dest].e.cost;
    ReachableInv(t, r, sched[0]);
    OwnLaunch(t, hosts[n], s, n, i, proto, size);
    if size <= MAX_PAYLOAD && proto != RIP_PROTO {
      OwnLaunchArriving(t, hosts[n], s, n, i, proto, size);
    }
    JourneyFares(t, hosts, r, sched, trips, m, dest, proto, size, 1 + c, k);
    if trips[k].Delivered? {
      OneOwner(t, n, i, trips[k].at);
    }
  }

  lemma OneOwner(t: Topo, n: nat, i: nat, m: nat)
    requires WellFormed(t) && IsIfc(t, n, i) && Owns(t, m, t.ifcs[n][i].localVip)
    ensures m == n
  {
    assert SameVip(t, n, i, m, FindVip(t.ifcs[m], t.ifcs[n][i].localVip));
  }

  /** At the neighbour the packet is one hop and the neighbour's route from its own sender. */
  lemma OwnLaunchArriving(t: Topo, h: Host, s: Net, n: nat, i: nat, proto: byte, size: nat)
    requires WellFormed(t) && Inv(t, s) && IsIfc(t, n, i) && s.nodes[n].up[i]
    requires proto != RIP_PROTO && size <= MAX_PAYLOAD
    requires var m := t.ifcs[n][i].peerNode;
      m < |s.nodes| && t.ifcs[n][i].localVip in s.nodes[m].table
      && s.nodes[m].table[t.ifcs[n][i].localVip].e.cost <= 15
    ensures var dest, m := t.ifcs[n][i].localVip, t.ifcs[n][i].peerNode;
      Arriving(t, s, Launch(t, h, s, n, dest, proto, size), dest, 1 + s.nodes[m].table[dest].e.cost, 0)
  {
    OwnLaunch(t, h, s, n, i, proto, size);
    BuildOk(h, t.ifcs[n][i].localVip, t.ifcs[n][i].localVip, proto, size);
  }

  lemma OwnLaunch(t: Topo, h: Host, s: Net, n: nat, i: nat, proto: byte, size: nat)
    requires WellFormed(t) && Inv(t, s) && IsIfc(t, n, i) && s.nodes[n].up[i] && size <= 1024
    ensures var dest, m := t.ifcs[n][i].localVip, t.ifcs[n][i].peerNode;
      var p := Launch(t, h, s, n, dest, proto, size);
      && p == (if size > MAX_PAYLOAD then Lost else InFlight(m, 1, Build(h, dest, dest, proto, size)))
      && (size <= MAX_PAYLOAD ==> p.hdr[9] == proto && forall h': Host :: Accepts(h', p.hdr))
  {
    var dest := t.ifcs[n][i].localVip;
    FindVipOf(t, n, i);
    assert Vips(t.ifcs[n])[i] == dest;
    assert NodeOk(t, n, s.nodes[n], s.now);
    assert RouteOk(t, n, s.nodes[n].up, dest, s.nodes[n].table[dest]);
    BuildMeans(h, dest, dest, proto, size);
  }
}
