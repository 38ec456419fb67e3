/**
 Nodes whose routes to an address lead only to one another: how long such a trap stands, and what becomes of the packets
 caught in it.
 */
module Traps {
  import opened Words
  import opened RipTable
  import opened Topology
  import opened Network
  import opened LoopFreedom
  import opened Checksum
  import opened IpHeader
  import opened Forwarding
  import opened Reception
  import opened Delivery

  /** A set of nodes, none of them the owner of `dest`, whose routes to `dest` lead back into the set. */
  ghost predicate Trap(t: Topo, s: Net, trap: set<nat>, dest: uint32) {
    && Shape(t, s) && (forall n :: n in trap ==> n < |s.nodes|)
    && (forall n {:trigger LeadsInto(t, s, n, trap, dest)} :: n in trap ==> LeadsInto(t, s, n, trap, dest))
  }

  ghost predicate LeadsInto(t: Topo, s: Net, n: nat, trap: set<nat>, dest: uint32)
    requires Shape(t, s) && n < |s.nodes|
  {
    var i := OutIfc(t.ifcs[n], s.nodes[n].table, dest);
    && !Owns(t, n, dest) && dest in s.nodes[n].table
    && i >= 0 && s.nodes[n].up[i] && t.ifcs[n][i].peerNode in trap
  }

  /** The step makes no trapped node forget `dest`, and none of them learns a better route from outside. */
  ghost predicate KeepsTrap(t: Topo, s: Net, ev: Event, trap: set<nat>, dest: uint32) {
    && Enabled(t, s, ev)
    && (forall n {:trigger Erases(t, s, ev, n, dest)} :: n in trap ==> !Erases(t, s, ev, n, dest))
    && (ev.Deliver? && Target(t, ev.m) in trap && ev.m.src !in trap ==>
          forall e :: Adopted(t, s, ev.m, e) ==> e.address != dest)
  }

  /** Node `n` has a foreign route to `dest` that points into the trap. */
  ghost predicate RouteLeadsInto(t: Topo, s: Net, n: nat, trap: set<nat>, dest: uint32)
    requires Shape(t, s) && n < |s.nodes|
  {
    && !Owns(t, n, dest) && dest in s.nodes[n].table
    && FindVip(t.ifcs[n], s.nodes[n].table[dest].nextHop) >= 0
    && NextNode(t.ifcs[n], s.nodes[n].table[dest]) in trap
  }

  /** Every route leaves by an interface that is up, so it is the route that counts. */
  lemma RouteDecides(t: Topo, s: Net, n: nat, trap: set<nat>, dest: uint32)
    requires Inv(t, s) && n < |s.nodes|
    ensures LeadsInto(t, s, n, trap, dest) <==> RouteLeadsInto(t, s, n, trap, dest)
  {
    assert NodeOk(t, n, s.nodes[n], s.now);
    if dest in s.nodes[n].table {
      assert RouteOk(t, n, s.nodes[n].up, dest, s.nodes[n].table[dest]);
    }
  }

  lemma DeliveryLeadsInto(t: Topo, s: Net, m: Msg, n: nat, trap: set<nat>, dest: uint32)
    requires WellFormed(t) && Inv(t, s) && Enabled(t, s, Deliver(m)) && Shape(t, Next(t, s, Deliver(m)))
    requires n < |s.nodes| && RouteLeadsInto(t, s, n, trap, dest) && n in trap
    requires KeepsTrap(t, s, Deliver(m), trap, dest)
    ensures RouteLeadsInto(t, Next(t, s, Deliver(m)), n, trap, dest)
  {
    DeliveryImproves(t, s, m);
    if n == Target(t, m) {
      var _, _ := DeliveredRoute(t, s, m, dest);
    }
  }

  lemma OtherStepLeadsInto(t: Topo, s: Net, ev: Event, n: nat, trap: set<nat>, dest: uint32)
    requires WellFormed(t) && Inv(t, s) && Enabled(t, s, ev) && !ev.Deliver? && Shape(t, Next(t, s, ev))
    requires n < |s.nodes| && RouteLeadsInto(t, s, n, trap, dest) && !Erases(t, s, ev, n, dest)
    ensures RouteLeadsInto(t, Next(t, s, ev), n, trap, dest)
  {
    ErasesExact(t, s, ev, n, dest);
    KeptOrOwn(t, s, ev, n, dest);
  }

  /** A trapped node leads into the trap after a step if it keeps its route or learns one from inside. */
  lemma StillLeadsInto(t: Topo, s: Net, ev: Event, n: nat, trap: set<nat>, dest: uint32)
    requires WellFormed(t) && Inv(t, s) && Enabled(t, s, ev) && Inv(t, Next(t, s, ev))
    requires Trap(t, s, trap, dest) && n in trap && KeepsTrap(t, s, ev, trap, dest)
    ensures LeadsInto(t, Next(t, s, ev), n, trap, dest)
  {
    assert LeadsInto(t, s, n, trap, dest);
    RouteDecides(t, s, n, trap, dest);
    RouteDecides(t, Next(t, s, ev), n, trap, dest);
    if ev.Deliver? {
      DeliveryLeadsInto(t, s, ev.m, n, trap, dest);
    } else {
      OtherStepLeadsInto(t, s, ev, n, trap, dest);
    }
  }

  /** A step that makes a trapped node forget, or learn from outside, opens the trap. */
  lemma TrapOpens(t: Topo, s: Net, ev: Event, trap: set<nat>, dest: uint32)
    requires WellFormed(t) && Inv(t, s) && Enabled(t, s, ev) && Inv(t, Next(t, s, ev))
    requires Trap(t, s, trap, dest) && !KeepsTrap(t, s, ev, trap, dest)
    ensures !Trap(t, Next(t, s, ev), trap, dest)
  {
    var s' := Next(t, s, ev);
    if n :| n in trap && Erases(t, s, ev, n, dest) {
      assert LeadsInto(t, s, n, trap, dest);
      ErasesExact(t, s, ev, n, dest);
      assert !LeadsInto(t, s', n, trap, dest);
    } else {
      var e :| Adopted(t, s, ev.m, e) && e.address == dest;
      AdoptedCovers(t, s, ev.m, e);
      assert LeadsInto(t, s, Target(t, ev.m), trap, dest);
      var _, _ := DeliveredRoute(t, s, ev.m, dest);
      assert !LeadsInto(t, s', Target(t, ev.m), trap, dest);
    }
  }

  /** The exact condition for a trap to stand: no node in it forgets the address or learns it from outside. */
  lemma TrapStands(t: Topo, s: Net, ev: Event, trap: set<nat>, dest: uint32)
    requires WellFormed(t) && Inv(t, s) && Enabled(t, s, ev) && Inv(t, Next(t, s, ev)) && Trap(t, s, trap, dest)
    ensures Trap(t, Next(t, s, ev), trap, dest) <==> KeepsTrap(t, s, ev, trap, dest)
  {
    if KeepsTrap(t, s, ev, trap, dest) {
      forall n | n in trap ensures LeadsInto(t, Next(t, s, ev), n, trap, dest) {
        StillLeadsInto(t, s, ev, n, trap, dest);
      }
    } else {
      TrapOpens(t, s, ev, trap, dest);
    }
  }

  ghost predicate KeepsTrapAt(t: Topo, r: Run, k: nat, trap: set<nat>, dest: uint32) {
    k < |r.events| && k < |r.states| && KeepsTrap(t, r.states[k], r.events[k], trap, dest)
  }

  /** The trap stands in state `from`, and every later step keeps it. */
  ghost predicate SealedOff(t: Topo, r: Run, from: nat, trap: set<nat>, dest: uint32) {
    && from < |r.states| && Trap(t, r.states[from], trap, dest)
    && forall k: nat {:trigger KeepsTrapAt(t, r, k, trap, dest)} ::
         from <= k < |r.events| ==> KeepsTrapAt(t, r, k, trap, dest)
  }

  lemma TrapStandsAt(t: Topo, r: Run, k: nat, trap: set<nat>, dest: uint32)
    requires ValidRun(t, r) && k < |r.events| && Trap(t, r.states[k], trap, dest) && KeepsTrapAt(t, r, k, trap, dest)
    ensures Trap(t, r.states[k + 1], trap, dest)
  {
    ReachableInv(t, r, k);
    ReachableInv(t, r, k + 1);
    assert StepAt(t, r, k);
    TrapStands(t, r.states[k], r.events[k], trap, dest);
  }

  lemma {:induction false} StaysTrap(t: Topo, r: Run, from: nat, trap: set<nat>, dest: uint32, k: nat)
    requires ValidRun(t, r) && SealedOff(t, r, from, trap, dest) && from <= k < |r.states|
    ensures Trap(t, r.states[k], trap, dest)
  {
    if k == from {
      assert Trap(t, r.states[from], trap, dest);
    } else {
      StaysTrap(t, r, from, trap, dest, k - 1);
      assert KeepsTrapAt(t, r, k - 1, trap, dest);
      TrapStandsAt(t, r, k - 1, trap, dest);
    }
  }

  // ---------------------------------------------------------------- one hop

  /** A whole data packet for `dest` in the trap, with a header that every host accepts. */
  ghost predicate Trapped(p: Trip, trap: set<nat>, dest: uint32, hops: nat) {
    p.InFlight? && p.at in trap && p.hops == hops && Intact(p.hdr, dest) && p.hdr[9] != RIP_PROTO
  }

  ghost predicate Intact(hdr: Header, dest: uint32) {
    (forall h: Host :: Accepts(h, hdr)) && Dest(hdr) == dest && FrameLen(hdr) <= RECV_MAX
  }

  /** What becomes of a packet, told by its two fateful bytes alone. */
  datatype Fate =
    | Circles(ttl: byte) // a data packet with this TTL
    | Disguised          // passes for a RIP message
    | Taken              // has been taken by a RIP layer
    | Gone

  /** The TTL byte after a transit. */
  function NextTtl(h: Host, ttl: byte): byte {
    if ttl == 0 then 255 else if h.LittleEndian? then ttl - 1 else 0
  }

  /** A big-endian host drops the packet at TTL 1, and at TTL 201 writes the protocol number of RIP. */
  predicate Fatal(h: Host, ttl: byte) {
    h.BigEndian? && (ttl == 1 || ttl == 201)
  }

  /** What passing a host of kind `h` does. */
  function Pass(f: Fate, h: Host): Fate {
    match f
    case Circles(ttl) => if !Fatal(h, ttl) then Circles(NextTtl(h, ttl)) else if ttl == 1 then Gone else Disguised
    case Disguised => Taken
    case _ => f
  }

  /** What becomes of a packet of fate `f` that passes hosts of the kinds `ks`. */
  function PassAll(f: Fate, ks: seq<Host>): Fate {
    if ks == [] then f else Pass(PassAll(f, ks[..|ks| - 1]), ks[|ks| - 1])
  }

  /** The packet `p`, which has crossed `hops` links if it is still in flight, has fate `f`. */
  ghost predicate HasFate(p: Trip, f: Fate, trap: set<nat>, dest: uint32, hops: nat) {
    match f
    case Circles(ttl) => Trapped(p, trap, dest, hops) && p.hdr[8] == ttl
    case Disguised => p.InFlight? && p.at in trap && p.hops == hops && Intact(p.hdr, dest) && p.hdr[9] == RIP_PROTO
    case Taken => p.TakenByRip? && p.at in trap
    case Gone => p.Lost?
  }

  lemma TransitIntact(h: Host, hdr: Header, dest: uint32)
    requires Intact(hdr, dest) && TransitHeader(h, hdr).Forward?
    ensures Intact(TransitHeader(h, hdr).hdr, dest)
  {
    TransitKeepsDest(h, hdr);
    TransitLength(h, hdr, []);
    forall h': Host ensures Accepts(h', TransitHeader(h, hdr).hdr) { ForwardedAccepted(h, h', hdr); }
  }

  /** The two bytes after a transit. */
  lemma TransitFate(h: Host, hdr: Header)
    ensures TransitHeader(h, hdr).Dropped? <==> Pass(Circles(hdr[8]), h) == Gone
    ensures TransitHeader(h, hdr).Forward? ==>
      var out := TransitHeader(h, hdr).hdr;
      out[8] == NextTtl(h, hdr[8]) && (out[9] == RIP_PROTO <==> Pass(Circles(hdr[8]), h) == Disguised)
  {
    TransitBytes(h, hdr);
  }

  /** A data packet in a trap is sent on into the trap, if its header is sent on at all. */
  lemma CirclesOn(t: Topo, hosts: seq<Host>, s: Net, trap: set<nat>, dest: uint32, p: Trip, hops: nat)
    requires Trap(t, s, trap, dest) && |hosts| == |t.ifcs| && Trapped(p, trap, dest, hops)
    ensures var x, p' := TransitHeader(hosts[p.at], p.hdr), Process(t, hosts, s, p);
      if x.Dropped? then p'.Lost?
      else p'.InFlight? && p'.at in trap && p'.hops == hops + 1 && p'.hdr == x.hdr && Intact(x.hdr, dest)
  {
    assert Accepts(hosts[p.at], p.hdr);
    assert LeadsInto(t, s, p.at, trap, dest);
    if TransitHeader(hosts[p.at], p.hdr).Forward? {
      TransitIntact(hosts[p.at], p.hdr, dest);
      ProcessIsCross(t, hosts, s, p);
    }
  }

  /** One processing of a packet in a trap, exactly. */
  lemma FateStep(t: Topo, hosts: seq<Host>, s: Net, trap: set<nat>, dest: uint32, p: Trip, f: Fate, hops: nat)
    requires Trap(t, s, trap, dest) && |hosts| == |t.ifcs| && HasFate(p, f, trap, dest, hops)
    ensures HasFate(Process(t, hosts, s, p), if p.InFlight? then Pass(f, hosts[p.at]) else f, trap, dest, hops + 1)
  {
    match f
    case Circles(ttl) =>
      CirclesOn(t, hosts, s, trap, dest, p, hops);
      TransitFate(hosts[p.at], p.hdr);
    case Disguised => ProcessTakes(t, hosts, s, p);
    case _ => ProcessEnded(t, hosts, s, p);
  }

  // ---------------------------------------------------------------- any number of hops

  /** A run in which the trap stands from state `from` on, and a packet's way after that. */
  ghost predicate Circling(t: Topo, hosts: seq<Host>, r: Run, from: nat, trap: set<nat>, dest: uint32,
                           sched: seq<nat>, trips: seq<Trip>) {
    && ValidRun(t, r) && SealedOff(t, r, from, trap, dest) && |hosts| == |t.ifcs|
    && Schedule(t, r, sched) && from <= sched[0] && Journey(t, hosts, r, sched, trips)
  }

  /** The kinds of the hosts that have processed the packet in flight, the first `k` times. */
  function Passed(hosts: seq<Host>, trips: seq<Trip>, k: nat): seq<Host>
    requires k <= |trips|
  {
    if k == 0 then []
    else
      var last := trips[k - 1];
      Passed(hosts, trips, k - 1) + (if last.InFlight? && last.at < |hosts| then [hosts[last.at]] else [])
  }

  lemma PassOne(f: Fate, ks: seq<Host>, h: Host)
    ensures PassAll(f, ks + [h]) == Pass(PassAll(f, ks), h)
  {
    assert (ks + [h])[..|ks|] == ks;
  }

  lemma PassedFate(hosts: seq<Host>, trips: seq<Trip>, k: nat, f: Fate)
    requires 0 < k <= |trips| && (trips[k - 1].InFlight? ==> trips[k - 1].at < |hosts|)
    ensures var before := PassAll(f, Passed(hosts, trips, k - 1));
      PassAll(f, Passed(hosts, trips, k))
      == if trips[k - 1].InFlight? then Pass(before, hosts[trips[k - 1].at]) else before
  {
    var ks := Passed(hosts, trips, k - 1);
    if trips[k - 1].InFlight? {
      PassOne(f, ks, hosts[trips[k - 1].at]);
    } else {
      assert ks + [] == ks;
    }
  }

  lemma FateHop(t: Topo, hosts: seq<Host>, r: Run, from: nat, trap: set<nat>, dest: uint32, sched: seq<nat>,
                trips: seq<Trip>, f: Fate, hops: nat, k: nat)
    requires Circling(t, hosts, r, from, trap, dest, sched, trips) && 0 < k < |sched|
    requires HasFate(trips[k - 1], f, trap, dest, hops)
    ensures trips[k - 1].InFlight? ==> trips[k - 1].at < |hosts|
    ensures HasFate(trips[k], if trips[k - 1].InFlight? then Pass(f, hosts[trips[k - 1].at]) else f, trap, dest,
                    hops + 1)
  {
    StaysTrap(t, r, from, trap, dest, sched[k]);
    assert HopAt(t, hosts, r, sched, trips, k - 1);
    FateStep(t, hosts, r.states[sched[k]], trap, dest, trips[k - 1], f, hops);
  }

  /**
   The exact fate of a packet in a trap, whatever the byte orders of the nodes there, each hop in a state of its own,
   for as long as the trap stands: it is what the kinds of the hosts it has passed make of its first two fateful bytes.
   */
  lemma {:induction false} CircleFate(t: Topo, hosts: seq<Host>, r: Run, from: nat, trap: set<nat>, dest: uint32,
                                      sched: seq<nat>, trips: seq<Trip>, f: Fate, hops: nat, k: nat)
    requires Circling(t, hosts, r, from, trap, dest, sched, trips) && k < |sched|
    requires HasFate(trips[0], f, trap, dest, hops)
    ensures HasFate(trips[k], PassAll(f, Passed(hosts, trips, k)), trap, dest, hops + k)
  {
    if k == 0 {
    } else {
      CircleFate(t, hosts, r, from, trap, dest, sched, trips, f, hops, k - 1);
      var g := PassAll(f, Passed(hosts, trips, k - 1));
      FateHop(t, hosts, r, from, trap, dest, sched, trips, g, hops + k - 1, k);
      PassedFate(hosts, trips, k, f);
    }
  }

  // ---------------------------------------------------------------- which packets circle for ever

  /** The TTL byte after passing hosts of the kinds `ks`. */
  function TtlAfter(ttl: byte, ks: seq<Host>): byte {
    if ks == [] then ttl else NextTtl(ks[|ks| - 1], TtlAfter(ttl, ks[..|ks| - 1]))
  }

  predicate FatalAt(ttl: byte, ks: seq<Host>, i: nat)
    requires i < |ks|
  {
    Fatal(ks[i], TtlAfter(ttl, ks[..i]))
  }

  /** A data packet goes on circling exactly as long as it does not come to a big-endian host with TTL 1 or 201. */
  lemma {:induction false} CirclesIff(ttl: byte, ks: seq<Host>)
    ensures PassAll(Circles(ttl), ks).Circles? <==> forall i: nat :: i < |ks| ==> !FatalAt(ttl, ks, i)
    ensures PassAll(Circles(ttl), ks).Circles? ==> PassAll(Circles(ttl), ks) == Circles(TtlAfter(ttl, ks))
  {
    if ks == [] {
    } else {
      var k := |ks| - 1;
      CirclesIff(ttl, ks[..k]);
      forall i: nat | i < k ensures FatalAt(ttl, ks, i) <==> FatalAt(ttl, ks[..k], i) {
        assert ks[..k][..i] == ks[..i];
      }
      if i: nat :| i < k && FatalAt(ttl, ks[..k], i) { assert FatalAt(ttl, ks, i); }
      assert FatalAt(ttl, ks, k) <==> Fatal(ks[k], TtlAfter(ttl, ks[..k]));
    }
  }

  lemma NextTtlMod(x: int)
    ensures NextTtl(LittleEndian, x % 256) == (x - 1) % 256
  {
    StepMod(x);
  }

  /** The TTL after hosts the last `m` of which are little-endian. */
  lemma {:induction false} LittleTail(ttl: byte, ks: seq<Host>, m: nat)
    requires m <= |ks| && forall i :: |ks| - m <= i < |ks| ==> ks[i].LittleEndian?
    ensures TtlAfter(ttl, ks) == (TtlAfter(ttl, ks[..|ks| - m]) as int - m) % 256
  {
    if m == 0 {
      assert ks[..|ks|] == ks;
    } else {
      var k := |ks| - 1;
      LittleTail(ttl, ks[..k], m - 1);
      assert ks[..k][..k - (m - 1)] == ks[..|ks| - m];
      NextTtlMod(TtlAfter(ttl, ks[..|ks| - m]) as int - (m - 1));
    }
  }

  /** After a big-endian host that sends the packet on, the TTL is 0 or 255. */
  lemma BigResets(ttl: byte, ks: seq<Host>)
    requires |ks| > 0 && ks[|ks| - 1].BigEndian?
    ensures TtlAfter(ttl, ks) == if TtlAfter(ttl, ks[..|ks| - 1]) == 0 then 255 else 0
  {
  }

  /** The first big-endian host, after `m` little-endian ones, decides by the TTL that these leave. */
  lemma FirstBig(ttl: byte, ks: seq<Host>)
    requires |ks| > 0 && ks[|ks| - 1].BigEndian? && forall i :: 0 <= i < |ks| - 1 ==> ks[i].LittleEndian?
    ensures PassAll(Circles(ttl), ks) == Pass(Circles((ttl as int - (|ks| - 1)) % 256), BigEndian)
  {
    var m := |ks| - 1;
    CirclesIff(ttl, ks[..m]);
    LittleTail(ttl, ks[..m], m);
    assert ks[..m][..0] == [];
  }

  /** So it takes 71 little-endian hosts to make a RIP message of a packet launched with TTL 16, and 15 to end it. */
  lemma LaunchedFirstBig(ks: seq<Host>)
    requires |ks| > 0 && ks[|ks| - 1].BigEndian? && forall i :: 0 <= i < |ks| - 1 ==> ks[i].LittleEndian?
    ensures PassAll(Circles(INITIAL_TTL), ks) == Disguised <==> (|ks| - 1) % 256 == 71
    ensures PassAll(Circles(INITIAL_TTL), ks) == Gone <==> (|ks| - 1) % 256 == 15
  {
    FirstBig(INITIAL_TTL, ks);
  }

  ghost predicate Uniform(t: Topo, hosts: seq<Host>, h: Host) {
    |hosts| == |t.ifcs| && forall n :: 0 <= n < |hosts| ==> hosts[n] == h
  }

  /** Among hosts of one kind, the first decides. */
  lemma {:induction false} UniformFate(ttl: byte, ks: seq<Host>, h: Host)
    requires |ks| > 0 && forall i :: 0 <= i < |ks| ==> ks[i] == h
    ensures PassAll(Circles(ttl), ks).Circles? <==> !Fatal(h, ttl)
    ensures PassAll(Circles(ttl), ks).Circles? && h.BigEndian? ==> TtlAfter(ttl, ks) == 0 || TtlAfter(ttl, ks) == 255
    ensures PassAll(Circles(ttl), ks).Circles? ==> PassAll(Circles(ttl), ks) == Circles(TtlAfter(ttl, ks))
  {
    var k := |ks| - 1;
    if k == 0 {
      assert ks[..k] == [];
    } else {
      UniformFate(ttl, ks[..k], h);
    }
  }

  lemma {:induction false} PassedUniform(t: Topo, hosts: seq<Host>, h: Host, trips: seq<Trip>, k: nat)
    requires Uniform(t, hosts, h) && k <= |trips|
    ensures forall i :: 0 <= i < |Passed(hosts, trips, k)| ==> Passed(hosts, trips, k)[i] == h
    ensures k > 0 && trips[0].InFlight? && trips[0].at < |hosts| ==> |Passed(hosts, trips, k)| > 0
  {
    if k == 0 {
    } else {
      PassedUniform(t, hosts, h, trips, k - 1);
    }
  }

  /**
   Among hosts of one kind a trapped data packet is still on its way after any number of hops, unless they are
   big-endian and its TTL is 1 or 201 at first.
   */
  lemma PacketsCircle(t: Topo, hosts: seq<Host>, h: Host, r: Run, from: nat, trap: set<nat>, dest: uint32,
                      sched: seq<nat>, trips: seq<Trip>, hops: nat, k: nat)
    requires Circling(t, hosts, r, from, trap, dest, sched, trips) && Uniform(t, hosts, h) && 0 < k < |sched|
    requires Trapped(trips[0], trap, dest, hops)
    ensures Trapped(trips[k], trap, dest, hops + k) <==> !Fatal(h, trips[0].hdr[8])
  {
    var f := Circles(trips[0].hdr[8]);
    StaysTrap(t, r, from, trap, dest, sched[0]);
    CircleFate(t, hosts, r, from, trap, dest, sched, trips, f, hops, k);
    PassedUniform(t, hosts, h, trips, k);
    UniformFate(trips[0].hdr[8], Passed(hosts, trips, k), h);
  }

  // ---------------------------------------------------------------- packets that are launched in a trap

  /** The fate a packet starts with. */
  function LaunchFate(proto: byte, size: nat): Fate {
    if size > MAX_PAYLOAD then Gone else if proto == RIP_PROTO then Disguised else Circles(INITIAL_TTL)
  }

  lemma LaunchHasFate(t: Topo, h: Host, s: Net, n: nat, trap: set<nat>, dest: uint32, proto: byte, size: nat)
    requires Trap(t, s, trap, dest) && n in trap && size <= 1024
    ensures HasFate(Launch(t, h, s, n, dest, proto, size), LaunchFate(proto, size), trap, dest, 1)
  {
    assert LeadsInto(t, s, n, trap, dest);
    var i := OutIfc(t.ifcs[n], s.nodes[n].table, dest);
    BuildMeans(h, t.ifcs[n][i].localVip, dest, proto, size);
  }

  /** The fate of a packet launched at a node of the trap, in a state in which it stands. */
  lemma LaunchedInTrap(t: Topo, hosts: seq<Host>, r: Run, from: nat, trap: set<nat>, dest: uint32,
                       sched: seq<nat>, trips: seq<Trip>, n: nat, proto: byte, size: nat, k: nat)
    requires Circling(t, hosts, r, from, trap, dest, sched, trips) && k < |sched| && n in trap && size <= 1024
    requires Launched(t, hosts, r, sched, trips, n, dest, proto, size)
    ensures HasFate(trips[k], PassAll(LaunchFate(proto, size), Passed(hosts, trips, k)), trap, dest, k + 1)
  {
    StaysTrap(t, r, from, trap, dest, sched[0]);
    LaunchHasFate(t, hosts[n], r.states[sched[0]], n, trap, dest, proto, size);
    CircleFate(t, hosts, r, from, trap, dest, sched, trips, LaunchFate(proto, size), 1, k);
  }
}
