/** What holds of every table and every frame in every reachable state of every run. */
module RipSafety {
  import opened Words
  import opened RipTable
  import opened Topology
  import opened Network

  /**
   A stored cost is the length of a real walk to the owner of the address, and the walk starts on the interface
   the route names. So no table ever underestimates a distance, whatever was lost, reordered, expired or taken down.
   */
  lemma WalkSoundness(t: Topo, r: Run, k: nat, n: nat, a: uint32)
    requires ValidRun(t, r) && k < |r.states|
    requires n < |t.ifcs| && n < |r.states[k].nodes| && a in r.states[k].nodes[n].table
    ensures var route := r.states[k].nodes[n].table[a];
      && WalkTo(t, n, a, route.e.cost)
      && FindVip(t.ifcs[n], route.nextHop) >= 0
      && (route.e.cost > 0 ==> WalkTo(t, NextNode(t.ifcs[n], route), a, route.e.cost - 1))
      && (forall d: nat :: IsDistance(t, n, a, d) ==> d <= route.e.cost)
  {
    ReachableInv(t, r, k);
    var st := r.states[k].nodes[n];
    assert NodeOk(t, n, st, r.states[k].now);
    assert RouteOk(t, n, st.up, a, st.table[a]);
    assert IsIfc(t, n, FindVip(t.ifcs[n], st.table[a].nextHop));
    assert WalkTo(t, n, a, st.table[a].e.cost);
  }

  /** An address nobody owns, or whose owner is more than 16 links away, is never stored. */
  lemma NeverStored(t: Topo, r: Run, k: nat, n: nat, a: uint32)
    requires ValidRun(t, r) && k < |r.states|
    requires n < |t.ifcs| && n < |r.states[k].nodes|
    requires forall d: nat :: d <= RIP_MAX_COST ==> !WalkTo(t, n, a, d)
    ensures a !in r.states[k].nodes[n].table
  {
    if a in r.states[k].nodes[n].table {
      WalkSoundness(t, r, k, n, a);
      CostRange(t, r, k, n, a);
    }
  }

  /** Stored costs lie in 0..16, and 0 is the cost of exactly the node's own addresses. */
  lemma CostRange(t: Topo, r: Run, k: nat, n: nat, a: uint32)
    requires ValidRun(t, r) && k < |r.states|
    requires n < |t.ifcs| && n < |r.states[k].nodes| && a in r.states[k].nodes[n].table
    ensures var route := r.states[k].nodes[n].table[a];
      route.e.cost <= RIP_MAX_COST && (route.e.cost == 0 <==> Owns(t, n, a))
  {
    ReachableInv(t, r, k);
    assert NodeOk(t, n, r.states[k].nodes[n], r.states[k].now);
    assert RouteOk(t, n, r.states[k].nodes[n].up, a, r.states[k].nodes[n].table[a]);
  }

  /**
   Costs in flight lie in 0..16 as well, 0 only for the sender's own addresses, so adding one never wraps;
   and an address is only ever mentioned below 16 if some node owns it.
   */
  lemma FlightRange(t: Topo, r: Run, k: nat, m: Msg, e: Entry)
    requires ValidRun(t, r) && k < |r.states| && m in r.states[k].sent && e in m.entries
    ensures e.cost <= RIP_MAX_COST && SuccCost(e.cost) == e.cost + 1
    ensures e.cost == 0 ==> Owns(t, m.src, e.address)
    ensures e.cost < RIP_MAX_COST ==> WalkTo(t, m.src, e.address, e.cost)
  {
    ReachableInv(t, r, k);
    assert MsgOk(t, m, r.states[k].now);
    assert EntryOk(t, m.src, e);
  }

  /**
   The table of a node in any reachable state: keys and entries agree, an own address is present exactly while
   its interface is up, and every route leaves by an interface that exists and is up.
   */
  lemma TableInvariant(t: Topo, r: Run, k: nat, n: nat)
    requires ValidRun(t, r) && k < |r.states| && n < |t.ifcs| && n < |r.states[k].nodes|
    ensures var st := r.states[k].nodes[n];
      && |st.up| == |t.ifcs[n]|
      && (forall a :: a in st.table ==> st.table[a].e.address == a && HopUp(t.ifcs[n], st.up, st.table[a].nextHop))
      && (forall i :: 0 <= i < |st.up| ==> (t.ifcs[n][i].localVip in st.table <==> st.up[i]))
  {
    ReachableInv(t, r, k);
    var st := r.states[k].nodes[n];
    assert NodeOk(t, n, st, r.states[k].now);
    forall a | a in st.table ensures st.table[a].e.address == a && HopUp(t.ifcs[n], st.up, st.table[a].nextHop) {
      assert RouteOk(t, n, st.up, a, st.table[a]);
    }
  }

  /** Taking interface `i` down makes node `n` forget exactly the routes, its own included, that leave by it. */
  lemma DownForgets(t: Topo, s: Net, n: nat, i: nat, a: uint32)
    requires WellFormed(t) && Inv(t, s) && IsIfc(t, n, i) && a in s.nodes[n].table
    ensures Enabled(t, s, Down(n, i))
    ensures var s' := Next(t, s, Down(n, i));
      && (a in s'.nodes[n].table <==> FindVip(t.ifcs[n], s.nodes[n].table[a].nextHop) != i)
      && (a in s'.nodes[n].table ==> s'.nodes[n].table[a] == s.nodes[n].table[a])
  {
    FindVipOf(t, n, i);
    assert NodeOk(t, n, s.nodes[n], s.now);
    assert RouteOk(t, n, s.nodes[n].up, a, s.nodes[n].table[a]);
    assert Vips(t.ifcs[n])[i] == t.ifcs[n][i].localVip;
  }

  /**
   Taking interface `i` of node `n` up makes it up and puts its address into the table at cost 0, over the interface
   itself and stamped now; no other interface, route or node changes.
   */
  lemma UpRestores(t: Topo, s: Net, n: nat, i: nat)
    requires WellFormed(t) && Inv(t, s) && IsIfc(t, n, i)
    ensures Enabled(t, s, Up(n, i))
    ensures var s', vip := Next(t, s, Up(n, i)), t.ifcs[n][i].localVip;
      && s'.nodes[n].up[i] && (forall j :: 0 <= j < |s.nodes[n].up| && j != i ==> s'.nodes[n].up[j] == s.nodes[n].up[j])
      && vip in s'.nodes[n].table && s'.nodes[n].table[vip] == Route(Entry(0, vip, 0xFFFF_FFFF), vip, s.now)
      && (forall a :: a != vip ==> (a in s'.nodes[n].table <==> a in s.nodes[n].table))
      && (forall a :: a != vip && a in s.nodes[n].table ==> s'.nodes[n].table[a] == s.nodes[n].table[a])
      && |s'.nodes| == |s.nodes| && (forall m :: 0 <= m < |s.nodes| && m != n ==> s'.nodes[m] == s.nodes[m])
      && s'.sent == s.sent && s'.now == s.now
  {
  }

  // ---------------------------------------------------------------- masks

  ghost predicate TableMasks(t: Table) {
    forall a :: a in t ==> t[a].e.mask == 0xFFFF_FFFF
  }

  ghost predicate FrameMasks(m: Msg) {
    forall e :: e in m.entries ==> e.mask == 0xFFFF_FFFF
  }

  ghost predicate Masks(s: Net) {
    && (forall n :: 0 <= n < |s.nodes| ==> TableMasks(s.nodes[n].table))
    && (forall m :: m in s.sent ==> FrameMasks(m))
  }

  lemma SendMasks(t: Topo, s: Net, n: nat, i: nat)
    requires Masks(s) && Enabled(t, s, Send(n, i))
    ensures FrameMasks(MsgOf(t, s, n, i))
  {
    forall e | e in MsgOf(t, s, n, i).entries ensures e.mask == 0xFFFF_FFFF {
      var a := KeyOfAdvert(s.nodes[n].table, t.ifcs[n][i].localVip, e);
      assert TableMasks(s.nodes[n].table);
    }
  }

  lemma DeliverMasks(t: Topo, s: Net, m: Msg)
    requires WellFormed(t) && Inv(t, s) && Masks(s) && Enabled(t, s, Deliver(m))
    ensures TableMasks(Received(t, s, m).table)
  {
    var n, j := ArrivesOn(t, s, m);
    var mine, hop, tab := Vips(t.ifcs[n]), t.ifcs[n][j].localVip, Received(t, s, m).table;
    forall a | a in tab ensures tab[a].e.mask == 0xFFFF_FFFF {
      MergeRoute(s.nodes[n].table, mine, m.entries, hop, s.now, a);
      assert TableMasks(s.nodes[n].table) && FrameMasks(m);
    }
  }

  lemma StepTableMasks(t: Topo, s: Net, ev: Event, n: nat)
    requires WellFormed(t) && Inv(t, s) && Masks(s) && Enabled(t, s, ev) && n < |s.nodes|
    ensures TableMasks(Next(t, s, ev).nodes[n].table)
  {
    assert TableMasks(s.nodes[n].table);
    if ev.Deliver? { DeliverMasks(t, s, ev.m); }
  }

  lemma StepFrameMasks(t: Topo, s: Net, ev: Event, m: Msg)
    requires Masks(s) && Enabled(t, s, ev) && m in Next(t, s, ev).sent
    ensures FrameMasks(m)
  {
    if m !in s.sent { SendMasks(t, s, ev.n, ev.i); }
  }

  lemma StepMasks(t: Topo, s: Net, ev: Event)
    requires WellFormed(t) && Inv(t, s) && Masks(s) && Enabled(t, s, ev)
    ensures Masks(Next(t, s, ev))
  {
    var s' := Next(t, s, ev);
    forall n | 0 <= n < |s'.nodes| ensures TableMasks(s'.nodes[n].table) { StepTableMasks(t, s, ev, n); }
    forall m | m in s'.sent ensures FrameMasks(m) { StepFrameMasks(t, s, ev, m); }
  }

  lemma InitMasks(t: Topo, s: Net)
    requires Init(t, s)
    ensures Masks(s)
  {
  }

  lemma MasksOnce(t: Topo, r: Run, k: nat)
    requires ValidRun(t, r) && k < |r.events| && Masks(r.states[k])
    ensures Masks(r.states[k + 1])
  {
    ReachableInv(t, r, k);
    assert StepAt(t, r, k);
    StepMasks(t, r.states[k], r.events[k]);
  }

  /** Every mask that is ever stored or sent is 255.255.255.255: all routes are to single hosts. */
  lemma {:induction false} MaskInvariant(t: Topo, r: Run, k: nat)
    requires ValidRun(t, r) && k < |r.states|
    ensures Masks(r.states[k])
  {
    if k == 0 {
      InitMasks(t, r.states[0]);
    } else {
      MaskInvariant(t, r, k - 1);
      MasksOnce(t, r, k - 1);
    }
  }

  // ---------------------------------------------------------------- soundness over the links that are left

  /** The cost of the route is the length of a live walk that starts on the interface the route names. */
  ghost predicate LiveRoute(t: Topo, dead: Ends, n: nat, a: uint32, r: Route)
    requires n < |t.ifcs|
  {
    if r.e.cost == 0 then LiveWalk(t, dead, n, a, 0)
    else
      && FindVip(t.ifcs[n], r.nextHop) >= 0 && LiveLink(t, dead, n, FindVip(t.ifcs[n], r.nextHop))
      && LiveWalk(t, dead, NextNode(t.ifcs[n], r), a, r.e.cost - 1)
  }

  ghost predicate Sound(t: Topo, s: Net, dead: Ends) {
    forall n, a :: 0 <= n < |s.nodes| && a in s.nodes[n].table ==>
      n < |t.ifcs| && LiveRoute(t, dead, n, a, s.nodes[n].table[a])
  }

  lemma LiveRouteWalks(t: Topo, dead: Ends, n: nat, a: uint32, r: Route)
    requires n < |t.ifcs| && LiveRoute(t, dead, n, a, r)
    ensures LiveWalk(t, dead, n, a, r.e.cost)
  {
  }

  lemma GoodRouteIsLive(t: Topo, n: nat, up: seq<bool>, a: uint32, r: Route)
    requires n < |t.ifcs| && |up| == |t.ifcs[n]| && RouteOk(t, n, up, a, r)
    ensures LiveRoute(t, {}, n, a, r)
  {
    if Owns(t, n, a) {
      WalksAreLive(t, n, a, 0);
    } else {
      var i := FindVip(t.ifcs[n], r.nextHop);
      assert IsIfc(t, n, i) && LiveLink(t, {}, n, i);
      WalksAreLive(t, NextNode(t.ifcs[n], r), a, r.e.cost - 1);
    }
  }

  /** With nothing dead, every reachable state is sound. */
  lemma ReachableSound(t: Topo, r: Run, k: nat)
    requires ValidRun(t, r) && k < |r.states|
    ensures Sound(t, r.states[k], {})
  {
    ReachableInv(t, r, k);
    var s := r.states[k];
    forall n, a | 0 <= n < |s.nodes| && a in s.nodes[n].table
      ensures n < |t.ifcs| && LiveRoute(t, {}, n, a, s.nodes[n].table[a])
    {
      assert NodeOk(t, n, s.nodes[n], s.now);
      GoodRouteIsLive(t, n, s.nodes[n].up, a, s.nodes[n].table[a]);
    }
  }
}
