/** Runs in which no route is erased: costs only fall, and following next hops only goes down. */
module LoopFreedom {
  import opened Words
  import opened RipTable
  import opened Topology
  import opened Network

  /** Every address known in `s` is known in `s'` at the same or a smaller cost. */
  ghost predicate Improves(s: Net, s': Net) {
    && |s'.nodes| == |s.nodes|
    && forall n, a :: 0 <= n < |s.nodes| && a in s.nodes[n].table ==>
         a in s'.nodes[n].table && s'.nodes[n].table[a].e.cost <= s.nodes[n].table[a].e.cost
  }

  ghost predicate KeepsKeys(s: Net, s': Net) {
    && |s'.nodes| == |s.nodes|
    && forall n :: 0 <= n < |s.nodes| ==> s.nodes[n].table.Keys <= s'.nodes[n].table.Keys
  }

  ghost predicate KeepsKeysAt(r: Run, k: nat) {
    |r.states| == |r.events| + 1 && k < |r.events| && KeepsKeys(r.states[k], r.states[k + 1])
  }

  /** From state `from` on, no table loses an address. */
  ghost predicate EraseFree(r: Run, from: nat) {
    forall k: nat {:trigger KeepsKeysAt(r, k)} :: from <= k < |r.events| ==> KeepsKeysAt(r, k)
  }

  /** The neighbour a route points to knows the address at a strictly smaller cost. */
  ghost predicate RouteDescends(t: Topo, s: Net, n: nat, a: uint32)
    requires Shape(t, s) && n < |s.nodes| && a in s.nodes[n].table
  {
    var r := s.nodes[n].table[a];
    && FindVip(t.ifcs[n], r.nextHop) >= 0
    && var m := NextNode(t.ifcs[n], r);
       m < |s.nodes| && a in s.nodes[m].table && s.nodes[m].table[a].e.cost < r.e.cost
  }

  /** What a frame says is still at least matched by its sender. */
  ghost predicate Backed(s: Net, m: Msg) {
    m.src < |s.nodes|
    && forall e :: e in m.entries && e.cost != RIP_MAX_COST ==>
         e.address in s.nodes[m.src].table && s.nodes[m.src].table[e.address].e.cost <= e.cost
  }

  ghost predicate RoutesDescend(t: Topo, s: Net)
    requires Shape(t, s)
  {
    forall n, a :: 0 <= n < |s.nodes| && a in s.nodes[n].table && !Owns(t, n, a) ==> RouteDescends(t, s, n, a)
  }

  ghost predicate Descends(t: Topo, s: Net)
    requires Shape(t, s)
  {
    RoutesDescend(t, s) && forall m :: m in s.sent ==> Backed(s, m)
  }

  /** A delivery only ever improves. */
  lemma DeliveryImproves(t: Topo, s: Net, m: Msg)
    requires WellFormed(t) && Inv(t, s) && Enabled(t, s, Deliver(m))
    ensures Improves(s, Next(t, s, Deliver(m)))
  {
    var n, j := ArrivesOn(t, s, m);
    forall a | a in s.nodes[n].table
      ensures a in Received(t, s, m).table && Received(t, s, m).table[a].e.cost <= s.nodes[n].table[a].e.cost
    {
      MergeKeeps(s.nodes[n].table, Vips(t.ifcs[n]), m.entries, t.ifcs[n][j].localVip, s.now, a);
    }
  }

  lemma StepImproves(t: Topo, s: Net, ev: Event)
    requires WellFormed(t) && Inv(t, s) && Enabled(t, s, ev) && KeepsKeys(s, Next(t, s, ev))
    ensures Improves(s, Next(t, s, ev))
  {
    var s' := Next(t, s, ev);
    if ev.Deliver? {
      DeliveryImproves(t, s, ev.m);
    } else {
      forall n, a | 0 <= n < |s.nodes| && a in s.nodes[n].table
        ensures a in s'.nodes[n].table && s'.nodes[n].table[a].e.cost <= s.nodes[n].table[a].e.cost
      {
        KeptOrOwn(t, s, ev, n, a);
      }
    }
  }

  /** Routes that stay put keep descending while everyone improves. */
  lemma DescendsLater(t: Topo, s: Net, s': Net, n: nat, a: uint32)
    requires Shape(t, s) && Shape(t, s') && Improves(s, s')
    requires n < |s.nodes| && a in s.nodes[n].table && a in s'.nodes[n].table
    requires s'.nodes[n].table[a] == s.nodes[n].table[a] && RouteDescends(t, s, n, a)
    ensures RouteDescends(t, s', n, a)
  {
  }

  lemma BackedLater(s: Net, s': Net, m: Msg)
    requires Improves(s, s') && Backed(s, m)
    ensures Backed(s', m)
  {
  }

  lemma SendBacked(t: Topo, s: Net, n: nat, i: nat)
    requires Inv(t, s) && IsIfc(t, n, i)
    ensures Backed(s, MsgOf(t, s, n, i))
  {
    var tab, vip := s.nodes[n].table, t.ifcs[n][i].localVip;
    forall e | e in MsgOf(t, s, n, i).entries && e.cost != RIP_MAX_COST
      ensures e.address in tab && tab[e.address].e.cost <= e.cost
    {
      var a := KeyOfAdvert(tab, vip, e);
      assert NodeOk(t, n, s.nodes[n], s.now);
      assert RouteOk(t, n, s.nodes[n].up, a, tab[a]);
    }
  }

  /** The routes a node holds after a delivery descend. */
  lemma DeliverDescends(t: Topo, s: Net, m: Msg, a: uint32)
    requires WellFormed(t) && Inv(t, s) && Descends(t, s) && Enabled(t, s, Deliver(m))
    requires var s' := Next(t, s, Deliver(m));
      Improves(s, s') && Shape(t, s') && a in s'.nodes[Target(t, m)].table && !Owns(t, Target(t, m), a)
    ensures RouteDescends(t, Next(t, s, Deliver(m)), Target(t, m), a)
  {
    var s' := Next(t, s, Deliver(m));
    var n, j := ArrivesOn(t, s, m);
    var tab, tab' := s.nodes[n].table, s'.nodes[n].table;
    var mine, hop := Vips(t.ifcs[n]), t.ifcs[n][j].localVip;
    MergeRoute(tab, mine, m.entries, hop, s.now, a);
    if a in tab && tab'[a] == tab[a] {
      DescendsLater(t, s, s', n, a);
    } else {
      var k := LearnedEntry(mine, m.entries, hop, s.now, tab'[a]);
      LearnedDescends(t, s, s', n, j, m, m.entries[k]);
    }
  }

  lemma LearnedDescends(t: Topo, s: Net, s': Net, n: nat, j: nat, m: Msg, e: Entry)
    requires Shape(t, s') && Improves(s, s') && Backed(s, m) && MsgOk(t, m, s.now) && e in m.entries
    requires IsIfc(t, n, j) && t.ifcs[n][j].peerNode == m.src && FindVip(t.ifcs[n], t.ifcs[n][j].localVip) == j
    requires e.cost != RIP_MAX_COST && e.address in s'.nodes[n].table
    requires s'.nodes[n].table[e.address] == Learned(e, t.ifcs[n][j].localVip, s.now)
    ensures RouteDescends(t, s', n, e.address)
  {
    assert EntryOk(t, m.src, e);
    BackedLater(s, s', m);
  }

  /** A step that erases nothing and is no delivery changes no route, except to an own one. */
  lemma QuietStep(t: Topo, s: Net, ev: Event, n: nat, a: uint32)
    requires WellFormed(t) && Inv(t, s) && Enabled(t, s, ev) && !ev.Deliver? && n < |s.nodes|
    requires KeepsKeys(s, Next(t, s, ev))
    requires a in Next(t, s, ev).nodes[n].table && !Owns(t, n, a)
    ensures a in s.nodes[n].table && Next(t, s, ev).nodes[n].table[a] == s.nodes[n].table[a]
  {
    KeptOrOwn(t, s, ev, n, a);
  }

  lemma StepRouteDescends(t: Topo, s: Net, ev: Event, n: nat, a: uint32)
    requires WellFormed(t) && Inv(t, s) && Descends(t, s) && Enabled(t, s, ev) && KeepsKeys(s, Next(t, s, ev))
    requires Shape(t, Next(t, s, ev)) && Improves(s, Next(t, s, ev))
    requires n < |s.nodes| && a in Next(t, s, ev).nodes[n].table && !Owns(t, n, a)
    ensures RouteDescends(t, Next(t, s, ev), n, a)
  {
    if ev.Deliver? && n == Target(t, ev.m) {
      DeliverDescends(t, s, ev.m, a);
    } else {
      if !ev.Deliver? { QuietStep(t, s, ev, n, a); }
      DescendsLater(t, s, Next(t, s, ev), n, a);
    }
  }

  lemma StepBacked(t: Topo, s: Net, ev: Event, m: Msg)
    requires Inv(t, s) && Descends(t, s) && Enabled(t, s, ev) && Improves(s, Next(t, s, ev))
    requires m in Next(t, s, ev).sent
    ensures Backed(Next(t, s, ev), m)
  {
    if m !in s.sent {
      SendBacked(t, s, ev.n, ev.i);
    }
    BackedLater(s, Next(t, s, ev), m);
  }

  lemma StepDescends(t: Topo, s: Net, ev: Event)
    requires WellFormed(t) && Inv(t, s) && Descends(t, s) && Enabled(t, s, ev) && KeepsKeys(s, Next(t, s, ev))
    requires Shape(t, Next(t, s, ev))
    ensures Descends(t, Next(t, s, ev))
  {
    var s' := Next(t, s, ev);
    StepImproves(t, s, ev);
    forall n, a | 0 <= n < |s'.nodes| && a in s'.nodes[n].table && !Owns(t, n, a) ensures RouteDescends(t, s', n, a) {
      StepRouteDescends(t, s, ev, n, a);
    }
    forall m | m in s'.sent ensures Backed(s', m) {
      StepBacked(t, s, ev, m);
    }
  }

  /**
   Loop freedom: in a run that erases nothing, every route points to a neighbour with a strictly smaller cost,
   under any loss, duplication and reordering.
   */
  lemma {:induction false} EraseFreeDescends(t: Topo, r: Run, k: nat)
    requires ValidRun(t, r) && EraseFree(r, 0) && k < |r.states|
    ensures Inv(t, r.states[k]) && Descends(t, r.states[k])
  {
    if k == 0 {
      InitInv(t, r.states[0]);
    } else {
      EraseFreeDescends(t, r, k - 1);
      ReachableInv(t, r, k);
      assert StepAt(t, r, k - 1);
      assert KeepsKeysAt(r, k - 1);
      StepDescends(t, r.states[k - 1], r.events[k - 1]);
    }
  }

  lemma ImprovesOnce(t: Topo, r: Run, from: nat, k: nat)
    requires ValidRun(t, r) && EraseFree(r, from) && from <= k < |r.events|
    ensures Improves(r.states[k], r.states[k + 1])
  {
    ReachableInv(t, r, k);
    assert StepAt(t, r, k) && KeepsKeysAt(r, k);
    StepImproves(t, r.states[k], r.events[k]);
  }

  lemma ImprovesTransitive(s: Net, s': Net, s'': Net)
    requires Improves(s, s') && Improves(s', s'')
    ensures Improves(s, s'')
  {
  }

  /** Costs only fall along a stretch of a run that erases nothing. */
  lemma {:induction false} ImprovesOverTime(t: Topo, r: Run, from: nat, j: nat, k: nat)
    requires ValidRun(t, r) && EraseFree(r, from) && from <= j <= k < |r.states|
    ensures Improves(r.states[j], r.states[k])
  {
    if j == k {
    } else {
      ImprovesOverTime(t, r, from, j, k - 1);
      ImprovesOnce(t, r, from, k - 1);
      ImprovesTransitive(r.states[j], r.states[k - 1], r.states[k]);
    }
  }

  // ---------------------------------------------------------------- what ends it

  /** A step that is no delivery leaves a surviving route as it was, or makes it an own one. */
  lemma KeptOrOwn(t: Topo, s: Net, ev: Event, n: nat, a: uint32)
    requires WellFormed(t) && Inv(t, s) && Enabled(t, s, ev) && !ev.Deliver? && n < |s.nodes|
    requires a in Next(t, s, ev).nodes[n].table
    ensures var r := Next(t, s, ev).nodes[n].table[a];
      || (a in s.nodes[n].table && r == s.nodes[n].table[a])
      || (Owns(t, n, a) && r.e.cost == 0)
  {
    if ev.Up? && ev.n == n {
      assert Vips(t.ifcs[n])[ev.i] == t.ifcs[n][ev.i].localVip;
    }
  }

  /** The step makes node `n` forget address `a`: its route is stale, or leaves by the interface that goes down. */
  predicate Erases(t: Topo, s: Net, ev: Event, n: nat, a: uint32)
    requires Enabled(t, s, ev)
  {
    && n < |s.nodes| && a in s.nodes[n].table
    && var r := s.nodes[n].table[a];
       match ev
       case Refresh(m) => m == n && Stale(Vips(t.ifcs[n]), a, r, s.now)
       case Down(m, i) => m == n && (r.nextHop == t.ifcs[m][i].localVip || a == t.ifcs[m][i].localVip)
       case _ => false
  }

  /** The step makes the node to which `n` routes the foreign address `a` forget it, while `n` itself does not. */
  predicate Strands(t: Topo, s: Net, ev: Event, n: nat, a: uint32)
    requires Enabled(t, s, ev)
  {
    && n < |s.nodes| && a in s.nodes[n].table && !Owns(t, n, a) && !Erases(t, s, ev, n, a)
    && FindVip(t.ifcs[n], s.nodes[n].table[a].nextHop) >= 0
    && Erases(t, s, ev, NextNode(t.ifcs[n], s.nodes[n].table[a]), a)
  }

  lemma ErasesExact(t: Topo, s: Net, ev: Event, n: nat, a: uint32)
    requires WellFormed(t) && Inv(t, s) && Enabled(t, s, ev) && !ev.Deliver? && n < |s.nodes|
    ensures a in s.nodes[n].table ==> (a in Next(t, s, ev).nodes[n].table <==> !Erases(t, s, ev, n, a))
  {
  }

  /**
   Routes still descend after a refresh, an interface going down or any other step that is no delivery exactly if
   the step strands no route.
   */
  lemma DescentAfterErasure(t: Topo, s: Net, ev: Event)
    requires WellFormed(t) && Inv(t, s) && RoutesDescend(t, s) && Enabled(t, s, ev) && !ev.Deliver?
    requires Shape(t, Next(t, s, ev))
    ensures RoutesDescend(t, Next(t, s, ev)) <==> forall n: nat, a :: !Strands(t, s, ev, n, a)
  {
    var s' := Next(t, s, ev);
    if forall n: nat, a :: !Strands(t, s, ev, n, a) {
      forall n, a | 0 <= n < |s'.nodes| && a in s'.nodes[n].table && !Owns(t, n, a) ensures RouteDescends(t, s', n, a) {
        UnstrandedDescends(t, s, ev, n, a);
      }
    } else {
      var n: nat, a :| Strands(t, s, ev, n, a);
      ErasesExact(t, s, ev, n, a);
      ErasesExact(t, s, ev, NextNode(t.ifcs[n], s.nodes[n].table[a]), a);
      KeptOrOwn(t, s, ev, n, a);
      assert !RouteDescends(t, s', n, a);
    }
  }

  lemma UnstrandedDescends(t: Topo, s: Net, ev: Event, n: nat, a: uint32)
    requires WellFormed(t) && Inv(t, s) && RoutesDescend(t, s) && Enabled(t, s, ev) && !ev.Deliver?
    requires Shape(t, Next(t, s, ev)) && !Strands(t, s, ev, n, a)
    requires n < |s.nodes| && a in Next(t, s, ev).nodes[n].table && !Owns(t, n, a)
    ensures RouteDescends(t, Next(t, s, ev), n, a)
  {
    KeptOrOwn(t, s, ev, n, a);
    ErasesExact(t, s, ev, n, a);
    assert RouteDescends(t, s, n, a);
    var m := NextNode(t.ifcs[n], s.nodes[n].table[a]);
    ErasesExact(t, s, ev, m, a);
    KeptOrOwn(t, s, ev, m, a);
  }

  /** Entry `e` of frame `m` gives the receiver a new or a strictly cheaper route. */
  predicate Adopted(t: Topo, s: Net, m: Msg, e: Entry)
    requires Enabled(t, s, Deliver(m))
  {
    var n := Target(t, m);
    && e in m.entries && Usable(Vips(t.ifcs[n]), e)
    && (e.address in s.nodes[n].table ==> SuccCost(e.cost) < s.nodes[n].table[e.address].e.cost)
  }

  /** The sender of frame `m`, which is not its receiver, still has a route at least as cheap as `e` says. */
  predicate StillTrue(t: Topo, s: Net, m: Msg, e: Entry)
    requires Enabled(t, s, Deliver(m))
  {
    && m.src != Target(t, m) && m.src < |s.nodes|
    && e.address in s.nodes[m.src].table && s.nodes[m.src].table[e.address].e.cost <= e.cost
  }

  /** How the receiver's route to a foreign address comes out of a delivery: kept, or adopted from the sender. */
  lemma DeliveredRoute(t: Topo, s: Net, m: Msg, a: uint32) returns (kept: bool, e: Entry)
    requires WellFormed(t) && Inv(t, s) && Enabled(t, s, Deliver(m))
    requires a in Received(t, s, m).table
    ensures var n, r := Target(t, m), Received(t, s, m).table[a];
      && (kept ==> a in s.nodes[n].table && r == s.nodes[n].table[a])
      && (!kept ==> Adopted(t, s, m, e) && e.address == a && e.cost < RIP_MAX_COST && r.e.cost == e.cost + 1
                    && r.ts == s.now
                    && FindVip(t.ifcs[n], r.nextHop) >= 0 && NextNode(t.ifcs[n], r) == m.src)
  {
    var n, j := ArrivesOn(t, s, m);
    var tab, mine, hop := s.nodes[n].table, Vips(t.ifcs[n]), t.ifcs[n][j].localVip;
    var r := Received(t, s, m).table[a];
    MergeRoute(tab, mine, m.entries, hop, s.now, a);
    kept, e := a in tab && r == tab[a], Entry(0, 0, 0);
    if !kept {
      var k := LearnedEntry(mine, m.entries, hop, s.now, r);
      e := m.entries[k];
      assert MsgOk(t, m, s.now) && EntryOk(t, m.src, e);
    }
  }

  lemma AdoptedCovers(t: Topo, s: Net, m: Msg, e: Entry)
    requires WellFormed(t) && Inv(t, s) && Enabled(t, s, Deliver(m)) && Adopted(t, s, m, e)
    ensures e.address in Received(t, s, m).table && Received(t, s, m).table[e.address].e.cost <= e.cost + 1
    ensures e.address in s.nodes[Target(t, m)].table ==>
      Received(t, s, m).table[e.address].e.cost < s.nodes[Target(t, m)].table[e.address].e.cost
    ensures !Owns(t, Target(t, m), e.address)
  {
    var n, j := ArrivesOn(t, s, m);
    assert MsgOk(t, m, s.now) && EntryOk(t, m.src, e);
    MergeCovers(s.nodes[n].table, Vips(t.ifcs[n]), m.entries, t.ifcs[n][j].localVip, s.now, e);
  }

  /** Routes still descend after a delivery exactly if everything adopted from the frame is still true of its sender. */
  lemma DescentAfterDelivery(t: Topo, s: Net, m: Msg)
    requires WellFormed(t) && Inv(t, s) && RoutesDescend(t, s) && Enabled(t, s, Deliver(m))
    requires Shape(t, Next(t, s, Deliver(m)))
    ensures RoutesDescend(t, Next(t, s, Deliver(m))) <==> forall e :: Adopted(t, s, m, e) ==> StillTrue(t, s, m, e)
  {
    var s' := Next(t, s, Deliver(m));
    if forall e :: Adopted(t, s, m, e) ==> StillTrue(t, s, m, e) {
      forall n, a | 0 <= n < |s'.nodes| && a in s'.nodes[n].table && !Owns(t, n, a) ensures RouteDescends(t, s', n, a) {
        TrueDeliveryDescends(t, s, m, n, a);
      }
    }
    if RoutesDescend(t, s') {
      forall e | Adopted(t, s, m, e) ensures StillTrue(t, s, m, e) {
        DescentTellsTruth(t, s, m, e);
      }
    }
  }

  lemma TrueDeliveryDescends(t: Topo, s: Net, m: Msg, n: nat, a: uint32)
    requires WellFormed(t) && Inv(t, s) && RoutesDescend(t, s) && Enabled(t, s, Deliver(m))
    requires Shape(t, Next(t, s, Deliver(m)))
    requires forall e :: Adopted(t, s, m, e) ==> StillTrue(t, s, m, e)
    requires n < |s.nodes| && a in Next(t, s, Deliver(m)).nodes[n].table && !Owns(t, n, a)
    ensures RouteDescends(t, Next(t, s, Deliver(m)), n, a)
  {
    DeliveryImproves(t, s, m);
    if n != Target(t, m) {
      DescendsLater(t, s, Next(t, s, Deliver(m)), n, a);
    } else {
      var kept, _ := DeliveredRoute(t, s, m, a);
      if kept { DescendsLater(t, s, Next(t, s, Deliver(m)), n, a); }
    }
  }

  lemma DescentTellsTruth(t: Topo, s: Net, m: Msg, e: Entry)
    requires WellFormed(t) && Inv(t, s) && Enabled(t, s, Deliver(m)) && Adopted(t, s, m, e)
    requires Shape(t, Next(t, s, Deliver(m))) && RoutesDescend(t, Next(t, s, Deliver(m)))
    ensures StillTrue(t, s, m, e)
  {
    AdoptedCovers(t, s, m, e);
    var _, _ := DeliveredRoute(t, s, m, e.address);
    assert RouteDescends(t, Next(t, s, Deliver(m)), Target(t, m), e.address);
  }

  /** What a step must satisfy for descending routes to go on descending, told from the state before it. */
  ghost predicate KeepsDescent(t: Topo, s: Net, ev: Event)
    requires Enabled(t, s, ev)
  {
    match ev
    case Deliver(m) => forall e :: Adopted(t, s, m, e) ==> StillTrue(t, s, m, e)
    case _ => forall n: nat, a :: !Strands(t, s, ev, n, a)
  }

  ghost predicate DescendsAt(t: Topo, r: Run, k: nat) {
    k < |r.states| && Shape(t, r.states[k]) && RoutesDescend(t, r.states[k])
  }

  ghost predicate KeepsDescentAt(t: Topo, r: Run, k: nat) {
    StepAt(t, r, k) && KeepsDescent(t, r.states[k], r.events[k])
  }

  lemma DescentAfterStep(t: Topo, s: Net, ev: Event)
    requires WellFormed(t) && Inv(t, s) && RoutesDescend(t, s) && Enabled(t, s, ev) && Shape(t, Next(t, s, ev))
    ensures RoutesDescend(t, Next(t, s, ev)) <==> KeepsDescent(t, s, ev)
  {
    if ev.Deliver? {
      DescentAfterDelivery(t, s, ev.m);
    } else {
      DescentAfterErasure(t, s, ev);
    }
  }

  lemma DescentOnce(t: Topo, r: Run, k: nat)
    requires ValidRun(t, r) && k < |r.events| && DescendsAt(t, r, k)
    ensures DescendsAt(t, r, k + 1) <==> KeepsDescentAt(t, r, k)
  {
    ReachableInv(t, r, k);
    ReachableInv(t, r, k + 1);
    assert StepAt(t, r, k);
    DescentAfterStep(t, r.states[k], r.events[k]);
  }

  /** Routes descend in every state up to the `k`-th. */
  ghost predicate DescendsThrough(t: Topo, r: Run, k: nat) {
    forall j: nat :: j <= k ==> DescendsAt(t, r, j)
  }

  /** No step before the `k`-th state strands a route, or makes a node adopt what the sender no longer stands by. */
  ghost predicate KeepsDescentThrough(t: Topo, r: Run, k: nat) {
    forall j: nat :: j < k ==> KeepsDescentAt(t, r, j)
  }

  lemma OneMoreStep(t: Topo, r: Run, k: nat)
    requires k > 0
    ensures DescendsThrough(t, r, k) <==> DescendsThrough(t, r, k - 1) && DescendsAt(t, r, k)
    ensures KeepsDescentThrough(t, r, k) <==> KeepsDescentThrough(t, r, k - 1) && KeepsDescentAt(t, r, k - 1)
  {
  }

  lemma DescendsAtFirst(t: Topo, r: Run)
    requires ValidRun(t, r)
    ensures DescendsThrough(t, r, 0)
  {
    InitInv(t, r.states[0]);
  }

  /** Over whole runs, erasing ones included: routes go on descending exactly as long as every step keeps descent. */
  lemma {:induction false} DescentThroughout(t: Topo, r: Run, k: nat)
    requires ValidRun(t, r) && k < |r.states|
    ensures DescendsThrough(t, r, k) <==> KeepsDescentThrough(t, r, k)
  {
    if k == 0 {
      DescendsAtFirst(t, r);
    } else {
      DescentThroughout(t, r, k - 1);
      OneMoreStep(t, r, k);
      if DescendsThrough(t, r, k - 1) {
        assert DescendsAt(t, r, k - 1);
        DescentOnce(t, r, k - 1);
      }
    }
  }
}
