/**
 Why loop freedom stops at erasure: a run of four nodes, all refreshing every 12 seconds, in which two routes expire
 and at the end of which three nodes forward packets for an address in a circle, poisoned reverse notwithstanding.
 */
module RoutingLoop {
  import opened Words
  import opened RipTable
  import opened Topology
  import opened Network
  import Convergence
  import opened LoopFreedom
  import opened RipLayerModel
  import opened Checksum
  import opened Delivery
  import opened Traps
  import Aging

  // ---------------------------------------------------------------- one address in one announcement

  /** Entries about other addresses do not touch the route to `a`. */
  lemma {:induction false} MergeOthers(u: Table, mine: seq<uint32>, es: seq<Entry>, hop: uint32, now: Time, a: uint32)
    requires forall e :: e in es ==> e.address != a
    ensures var r := Merge(u, mine, es, hop, now); (a in r <==> a in u) && (a in u ==> r[a] == u[a])
  {
    if es == [] {
    } else {
      MergeOthers(u, mine, es[..|es| - 1], hop, now, a);
    }
  }

  /** A message with a single entry about `a` does to the route to `a` what that entry alone does. */
  lemma {:induction false} MergeSingle(u: Table, mine: seq<uint32>, es: seq<Entry>, hop: uint32, now: Time, k: nat)
    requires k < |es| && forall i :: 0 <= i < |es| && i != k ==> es[i].address != es[k].address
    ensures var a := es[k].address;
      var r, one := Merge(u, mine, es, hop, now), MergeOne(u, mine, es[k], hop, now);
      (a in r <==> a in one) && (a in one ==> r[a] == one[a])
  {
    var es', last := es[..|es| - 1], es[|es| - 1];
    if k == |es| - 1 {
      MergeOthers(u, mine, es', hop, now, es[k].address);
    } else {
      MergeSingle(u, mine, es', hop, now, k);
    }
  }

  /** What an announcement does to the receiver's route to `a`: the sender's one entry about it decides. */
  lemma MergeAnnouncement(u: Table, mine: seq<uint32>, t: Table, vip: uint32, hop: uint32, now: Time, a: uint32)
    requires KeysAgree(t) && a in t
    ensures var r, one := Merge(u, mine, Advertise(t, vip), hop, now), MergeOne(u, mine, Advert(t[a], vip), hop, now);
      (a in r <==> a in one) && (a in one ==> r[a] == one[a])
  {
    var keys, es := SortedKeys(t.Keys), Advertise(t, vip);
    var k := KeyIndex(t.Keys, a);
    forall i | 0 <= i < |es| ensures es[i].address == keys[i] {
      assert keys[i] in t;
    }
    MergeSingle(u, mine, es, hop, now, k);
  }

  // ---------------------------------------------------------------- runs by macro steps

  /** REFRESH_TIMER_VAL: the configured time between two refreshes, in microseconds. */
  const PERIOD := 12_000_000

  /** A run that ends in `s`, in which every node refreshes at least every 12 seconds and no frame is delayed. */
  ghost predicate EndsIn(t: Topo, r: Run, s: Net) {
    ValidRun(t, r) && r.states[|r.states| - 1] == s && Aging.Timely(r, PERIOD, 0)
  }

  ghost predicate Reachable(t: Topo, s: Net) {
    exists r :: EndsIn(t, r, s)
  }

  /** The step is in time. */
  ghost predicate OnTime(s: Net, ev: Event) {
    && (ev.Tick? ==> forall n :: 0 <= n < |s.nodes| ==> s.now + ev.d <= s.nodes[n].lastRefresh + PERIOD)
    && (ev.Deliver? ==> s.now <= ev.m.at)
  }

  lemma ReachInit(t: Topo, s: Net)
    requires WellFormed(t) && Init(t, s)
    ensures Reachable(t, s)
  {
    assert EndsIn(t, Run([s], []), s);
  }

  lemma ExtendedStep(t: Topo, r: Run, ev: Event, s: Net, k: nat)
    requires ValidRun(t, r) && IsStep(t, r.states[|r.states| - 1], ev, s) && k <= |r.events|
    ensures StepAt(t, Run(r.states + [s], r.events + [ev]), k)
  {
    if k < |r.events| { assert StepAt(t, r, k); }
  }

  lemma StepInTime(t: Topo, s: Net, ev: Event, n: nat)
    requires Enabled(t, s, ev) && OnTime(s, ev) && n < |s.nodes| && s.now <= s.nodes[n].lastRefresh + PERIOD
    ensures Next(t, s, ev).now <= Next(t, s, ev).nodes[n].lastRefresh + PERIOD
  {
  }

  lemma ExtendedTimely(t: Topo, r: Run, ev: Event, s: Net)
    requires ValidRun(t, r) && IsStep(t, r.states[|r.states| - 1], ev, s) && Aging.Timely(r, PERIOD, 0)
    requires OnTime(r.states[|r.states| - 1], ev)
    ensures Aging.Timely(Run(r.states + [s], r.events + [ev]), PERIOD, 0)
  {
    var r', last := Run(r.states + [s], r.events + [ev]), r.states[|r.states| - 1];
    forall k, n | 0 <= k < |r'.states| && 0 <= n < |r'.states[k].nodes|
      ensures r'.states[k].now <= r'.states[k].nodes[n].lastRefresh + PERIOD
    {
      if k == |r.states| {
        StepInTime(t, last, ev, n);
      } else {
        assert r'.states[k] == r.states[k];
      }
    }
    forall k | 0 <= k < |r'.events| && r'.events[k].Deliver? ensures r'.states[k].now <= r'.events[k].m.at + 0 {
      assert r'.states[k] == r.states[k];
    }
  }

  lemma ExtendedRun(t: Topo, r: Run, ev: Event, s: Net) returns (r': Run)
    requires ValidRun(t, r) && IsStep(t, r.states[|r.states| - 1], ev, s)
    ensures ValidRun(t, r') && r' == Run(r.states + [s], r.events + [ev])
  {
    r' := Run(r.states + [s], r.events + [ev]);
    forall k: nat | k < |r'.events| ensures StepAt(t, r', k) {
      ExtendedStep(t, r, ev, s, k);
    }
  }

  lemma ReachStep(t: Topo, s: Net, ev: Event)
    requires Reachable(t, s) && Enabled(t, s, ev) && OnTime(s, ev)
    ensures Reachable(t, Next(t, s, ev))
  {
    var r :| EndsIn(t, r, s);
    var r' := ExtendedRun(t, r, ev, Next(t, s, ev));
    ExtendedTimely(t, r, ev, Next(t, s, ev));
    assert EndsIn(t, r', Next(t, s, ev));
  }

  lemma ReachableIsGood(t: Topo, s: Net)
    requires Reachable(t, s)
    ensures WellFormed(t) && Inv(t, s)
  {
    var r :| EndsIn(t, r, s);
    ReachableInv(t, r, |r.states| - 1);
  }

  /** A reachable state with every interface up. */
  ghost predicate Good(t: Topo, s: Net) {
    Reachable(t, s) && Convergence.AllUp(s) && Shape(t, s)
  }

  /** Node `n` announces on interface `i`, and the frame arrives. */
  ghost function Exchange(t: Topo, s: Net, n: nat, i: nat): Net
    requires WellFormed(t) && Good(t, s) && IsIfc(t, n, i)
  {
    assert Enabled(t, s, Send(n, i));
    ReachStep(t, s, Send(n, i));
    ExchangeEnabled(t, s, n, i);
    Next(t, Next(t, s, Send(n, i)), Deliver(MsgOf(t, s, n, i)))
  }

  lemma ExchangeEnabled(t: Topo, s: Net, n: nat, i: nat)
    requires WellFormed(t) && Good(t, s) && IsIfc(t, n, i) && Enabled(t, s, Send(n, i))
    ensures Enabled(t, Next(t, s, Send(n, i)), Deliver(MsgOf(t, s, n, i)))
  {
    ArrivalIsMirror(t, n, i);
  }

  lemma TableKeysAgree(t: Topo, s: Net, n: nat)
    requires Inv(t, s) && n < |s.nodes|
    ensures KeysAgree(s.nodes[n].table)
  {
    assert NodeOk(t, n, s.nodes[n], s.now);
    forall k | k in s.nodes[n].table ensures s.nodes[n].table[k].e.address == k {
      assert RouteOk(t, n, s.nodes[n].up, k, s.nodes[n].table[k]);
    }
  }

  /** An exchange touches only the receiver's table. */
  lemma ExchangeFrame(t: Topo, s: Net, n: nat, i: nat)
    requires WellFormed(t) && Good(t, s) && IsIfc(t, n, i)
    ensures var s', m := Exchange(t, s, n, i), t.ifcs[n][i].peerNode;
      && Good(t, s') && s'.now == s.now && |s'.nodes| == |s.nodes|
      && (forall x :: 0 <= x < |s.nodes| && x != m ==> s'.nodes[x] == s.nodes[x])
      && m < |s.nodes| && s'.nodes[m].lastRefresh == s.nodes[m].lastRefresh
  {
    ArrivalIsMirror(t, n, i);
    ReachStep(t, s, Send(n, i));
    ExchangeEnabled(t, s, n, i);
    ReachStep(t, Next(t, s, Send(n, i)), Deliver(MsgOf(t, s, n, i)));
  }

  /** How the receiver's table comes out of an exchange. */
  lemma ExchangeTable(t: Topo, s: Net, n: nat, i: nat)
    requires WellFormed(t) && Good(t, s) && IsIfc(t, n, i)
    ensures var s', m, j := Exchange(t, s, n, i), t.ifcs[n][i].peerNode, t.ifcs[n][i].peerIfc;
      && IsIfc(t, m, j) && m < |s'.nodes|
      && s'.nodes[m].table == Merge(s.nodes[m].table, Vips(t.ifcs[m]),
                                    Advertise(s.nodes[n].table, t.ifcs[n][i].localVip), t.ifcs[m][j].localVip, s.now)
  {
    ReachStep(t, s, Send(n, i));
    ExchangeEnabled(t, s, n, i);
    ArrivalIsMirror(t, n, i);
  }

  /** The receiver's route to `a` after an exchange, as the sender's route to `a` decides it. */
  lemma ExchangeRoute(t: Topo, s: Net, n: nat, i: nat, a: uint32)
    requires WellFormed(t) && Good(t, s) && IsIfc(t, n, i) && a in s.nodes[n].table
    ensures var s', m, j := Exchange(t, s, n, i), t.ifcs[n][i].peerNode, t.ifcs[n][i].peerIfc;
      && IsIfc(t, m, j) && m < |s'.nodes|
      && var one := MergeOne(s.nodes[m].table, Vips(t.ifcs[m]), Advert(s.nodes[n].table[a], t.ifcs[n][i].localVip),
                             t.ifcs[m][j].localVip, s.now);
         (a in s'.nodes[m].table <==> a in one) && (a in one ==> s'.nodes[m].table[a] == one[a])
  {
    ExchangeTable(t, s, n, i);
    ReachableIsGood(t, s);
    TableKeysAgree(t, s, n);
    var m, j := t.ifcs[n][i].peerNode, t.ifcs[n][i].peerIfc;
    MergeAnnouncement(s.nodes[m].table, Vips(t.ifcs[m]), s.nodes[n].table, t.ifcs[n][i].localVip,
                      t.ifcs[m][j].localVip, s.now, a);
  }

  // ---------------------------------------------------------------- the network and the run

  /** Node 0 owns address 10 and is linked to node 1; nodes 1, 2 and 3 are linked to one another. */
  function Square(): Topo {
    Topo([5000, 5001, 5002, 5003],
         [[Ifc(10, 20, 5001, 1, 0)],
          [Ifc(20, 10, 5000, 0, 0), Ifc(21, 30, 5002, 2, 0), Ifc(22, 40, 5003, 3, 0)],
          [Ifc(30, 21, 5001, 1, 1), Ifc(31, 41, 5003, 3, 1)],
          [Ifc(40, 22, 5001, 1, 2), Ifc(41, 31, 5002, 2, 1)]])
  }

  lemma SquareWellFormed()
    ensures WellFormed(Square())
  {
    var t := Square();
    assert forall n, i :: IsIfc(t, n, i) ==> t.ifcs[n][i].localVip == 10 * (n + 1) + i;
    forall n, i, m, j | SameVip(t, n, i, m, j) ensures n == m && i == j {}
    forall n, i, j | SamePeer(t, n, i, j) ensures i == j {}
    forall n, i | IsIfc(t, n, i) ensures Mirrored(t, n, i) {}
  }

  /** Node `n` routes address 10 at cost `c` over interface `i`, since time `ts`. */
  ghost predicate Routes(s: Net, n: nat, c: nat, i: nat, ts: Time) {
    && n < |s.nodes| && IsIfc(Square(), n, i) && 10 in s.nodes[n].table
    && var r := s.nodes[n].table[10];
       r.e.address == 10 && r.e.cost == c && r.nextHop == Square().ifcs[n][i].localVip && r.ts == ts
  }

  ghost predicate Knows(s: Net, n: nat) {
    n < |s.nodes| && 10 in s.nodes[n].table
  }

  /** All four nodes refreshed last at time `at`. */
  ghost predicate Refreshed(s: Net, at: Time) {
    |s.nodes| == 4 && forall n :: 0 <= n < 4 ==> s.nodes[n].lastRefresh == at
  }

  /** Node `n`, which routes address 10 at cost `c`, has a neighbour by another interface that does not know it. */
  ghost predicate CanTell(s: Net, n: nat, c: nat, h: nat, ts: Time, i: nat) {
    && WellFormed(Square()) && Good(Square(), s) && Routes(s, n, c, h, ts) && IsIfc(Square(), n, i)
    && c < 15 && (i != h || n == 0)
    && var m := Square().ifcs[n][i].peerNode; m != n && m != 0 && !Knows(s, m)
  }

  lemma TellsTruth(s: Net, n: nat, c: nat, h: nat, ts: Time, i: nat)
    requires CanTell(s, n, c, h, ts, i)
    ensures Advert(s.nodes[n].table[10], Square().ifcs[n][i].localVip) == s.nodes[n].table[10].e
  {
  }

  lemma TellRoute(s: Net, n: nat, c: nat, h: nat, ts: Time, i: nat)
    requires CanTell(s, n, c, h, ts, i)
    ensures var f := Square().ifcs[n][i]; Routes(Exchange(Square(), s, n, i), f.peerNode, c + 1, f.peerIfc, s.now)
  {
    TellsTruth(s, n, c, h, ts, i);
    ExchangeRoute(Square(), s, n, i, 10);
    NotMine(Square().ifcs[n][i].peerNode);
  }

  /** It tells that neighbour. */
  lemma Tell(s: Net, n: nat, c: nat, h: nat, ts: Time, i: nat) returns (s': Net)
    requires CanTell(s, n, c, h, ts, i)
    ensures var f := Square().ifcs[n][i];
      && Good(Square(), s') && s'.now == s.now && |s'.nodes| == |s.nodes|
      && Routes(s', f.peerNode, c + 1, f.peerIfc, s.now)
      && (forall x :: 0 <= x < |s.nodes| && x != f.peerNode ==> s'.nodes[x] == s.nodes[x])
    ensures forall at {:trigger Refreshed(s', at)} :: Refreshed(s, at) ==> Refreshed(s', at)
  {
    s' := Exchange(Square(), s, n, i);
    ExchangeFrame(Square(), s, n, i);
    TellRoute(s, n, c, h, ts, i);
  }

  lemma NotMine(m: nat)
    requires 0 < m < 4
    ensures 10 !in Vips(Square().ifcs[m])
  {
  }

  lemma Later(s: Net, at: Time, d: nat) returns (s': Net)
    requires Good(Square(), s) && Refreshed(s, at) && s.now + d <= at + PERIOD < 0x1_0000_0000_0000_0000
    ensures Good(Square(), s') && s'.now == s.now + d && s'.nodes == s.nodes
  {
    ReachStep(Square(), s, Tick(d));
    s' := Next(Square(), s, Tick(d));
  }

  /** A refresh makes a node forget a foreign route older than 12 seconds, and keep any other. */
  lemma Forget(t: Topo, s: Net, n: nat, a: uint32) returns (s': Net)
    requires Good(t, s) && n < |s.nodes|
    ensures Good(t, s') && s' == Next(t, s, Refresh(n)) && s'.now == s.now && |s'.nodes| == |s.nodes|
    ensures a in s'.nodes[n].table <==>
      a in s.nodes[n].table && (Owns(t, n, a) || s.now <= s.nodes[n].table[a].ts + REFRESH_LIMIT)
    ensures a in s'.nodes[n].table ==> s'.nodes[n].table[a] == s.nodes[n].table[a]
    ensures s'.nodes[n].lastRefresh == s.now
    ensures forall x :: 0 <= x < |s.nodes| && x != n ==> s'.nodes[x] == s.nodes[x]
  {
    ReachStep(t, s, Refresh(n));
    ReachableIsGood(t, s);
    assert NodeOk(t, n, s.nodes[n], s.now);
    s' := Next(t, s, Refresh(n));
  }

  /** Node `n` of the four has refreshed: it keeps address 10 if it owns it or learned it at most 12 seconds ago. */
  ghost predicate HasRefreshed(s: Net, s': Net, n: nat) {
    && |s.nodes| == |s'.nodes| == 4 && n < 4 && s'.nodes[n].lastRefresh == s.now
    && (Knows(s', n) <==> Knows(s, n) && (n == 0 || s.now <= s.nodes[n].table[10].ts + REFRESH_LIMIT))
    && (Knows(s', n) ==> s'.nodes[n].table[10] == s.nodes[n].table[10])
  }

  lemma RefreshOne(s: Net, n: nat) returns (s': Net)
    requires Good(Square(), s) && |s.nodes| == 4 && n < 4
    ensures Good(Square(), s') && s'.now == s.now && HasRefreshed(s, s', n)
    ensures forall x :: 0 <= x < 4 && x != n ==> s'.nodes[x] == s.nodes[x]
  {
    s' := Forget(Square(), s, n, 10);
    if n == 0 {
      assert Vips(Square().ifcs[0])[0] == 10;
    } else {
      NotMine(n);
    }
  }

  /** Nodes 0 to `n` have refreshed, the others have done nothing. */
  ghost predicate RefreshedTo(s: Net, s': Net, n: nat) {
    && Good(Square(), s') && s'.now == s.now && |s.nodes| == |s'.nodes| == 4
    && (forall x {:trigger HasRefreshed(s, s', x)} :: 0 <= x <= n && x < 4 ==> HasRefreshed(s, s', x))
    && (forall x :: n < x < 4 ==> s'.nodes[x] == s.nodes[x])
  }

  lemma RefreshNext(s: Net, s': Net, n: nat) returns (s'': Net)
    requires RefreshedTo(s, s', n) && n < 3
    ensures RefreshedTo(s, s'', n + 1)
  {
    s'' := RefreshOne(s', n + 1);
    forall x | 0 <= x <= n + 1 ensures HasRefreshed(s, s'', x) {
      if x <= n { assert HasRefreshed(s, s', x); }
    }
  }

  /** All four nodes refresh. */
  lemma RefreshAll(s: Net) returns (s': Net)
    requires Good(Square(), s) && |s.nodes| == 4
    ensures Good(Square(), s') && s'.now == s.now && Refreshed(s', s.now)
    ensures HasRefreshed(s, s', 1) && HasRefreshed(s, s', 2) && HasRefreshed(s, s', 3)
  {
    s' := RefreshOne(s, 0);
    s' := RefreshNext(s, s', 0);
    s' := RefreshNext(s, s', 1);
    s' := RefreshNext(s, s', 2);
    forall n | 0 <= n < 4 ensures s'.nodes[n].lastRefresh == s.now {
      assert HasRefreshed(s, s', n);
    }
  }

  ghost function Start(): Net {
    Net([InitNode(Square().ifcs[0], 0), InitNode(Square().ifcs[1], 0), InitNode(Square().ifcs[2], 0),
         InitNode(Square().ifcs[3], 0)], {}, 0)
  }

  lemma StartIsGood()
    ensures WellFormed(Square()) && Good(Square(), Start()) && Routes(Start(), 0, 0, 0, 0) && Refreshed(Start(), 0)
    ensures !Knows(Start(), 1) && !Knows(Start(), 2) && !Knows(Start(), 3)
  {
    SquareWellFormed();
    ReachInit(Square(), Start());
    NotMine(1);
    NotMine(2);
    NotMine(3);
    assert Vips(Square().ifcs[0])[0] == 10;
  }

  /** Nodes 1 and 2 learn address 10 at once. */
  lemma Learn() returns (s: Net)
    ensures WellFormed(Square()) && Good(Square(), s) && s.now == 0 && Refreshed(s, 0)
    ensures Routes(s, 1, 1, 0, 0) && Routes(s, 2, 2, 0, 0) && !Knows(s, 3)
  {
    StartIsGood();
    s := Tell(Start(), 0, 0, 0, 0, 0);
    s := Tell(s, 1, 1, 0, 0, 1);
  }

  /** All nodes refresh after 12 seconds, which erases nothing, and node 3 learns address 10 a second later. */
  lemma Spread() returns (s: Net)
    ensures WellFormed(Square()) && Good(Square(), s) && s.now == 13_000_000 && Refreshed(s, 12_000_000)
    ensures Routes(s, 1, 1, 0, 0) && Routes(s, 2, 2, 0, 0) && Routes(s, 3, 2, 0, 13_000_000)
  {
    s := Learn();
    s := Later(s, 0, 12_000_000);
    s := RefreshAll(s);
    s := Later(s, 12_000_000, 1_000_000);
    s := Tell(s, 1, 1, 0, 0, 2);
  }

  /**
   All nodes refresh again after 24 seconds. The routes of nodes 1 and 2 expire, and node 3 spreads its own, which leads
   back to node 1.
   */
  lemma LoopAfterExpiry() returns (s: Net)
    ensures WellFormed(Square()) && Good(Square(), s) && s.now == 24_000_000
    ensures Routes(s, 1, 4, 1, 24_000_000) && Routes(s, 2, 3, 1, 24_000_000) && Routes(s, 3, 2, 0, 13_000_000)
  {
    s := Spread();
    s := Later(s, 12_000_000, 11_000_000);
    s := RefreshAll(s);
    s := Tell(s, 3, 2, 0, 13_000_000, 1);
    s := Tell(s, 2, 3, 1, 24_000_000, 0);
  }

  // ---------------------------------------------------------------- a packet in the loop

  lemma CircleTraps(s: Net)
    requires WellFormed(Square()) && Good(Square(), s)
    requires Routes(s, 1, 4, 1, 24_000_000) && Routes(s, 2, 3, 1, 24_000_000) && Routes(s, 3, 2, 0, 13_000_000)
    ensures Trap(Square(), s, {1, 2, 3}, 10)
  {
    FindVipOf(Square(), 1, 1);
    FindVipOf(Square(), 2, 1);
    FindVipOf(Square(), 3, 0);
    NotMine(1);
    NotMine(2);
    NotMine(3);
    assert LeadsInto(Square(), s, 1, {1, 2, 3}, 10);
    assert LeadsInto(Square(), s, 2, {1, 2, 3}, 10);
    assert LeadsInto(Square(), s, 3, {1, 2, 3}, 10);
  }

  /**
   The run comes through state `s`, the circle of nodes 1, 2 and 3 stands from there on, and `trips` is the way of a
   packet launched at node 2 after that.
   */
  ghost predicate InCircle(s: Net, hosts: seq<Host>, r: Run, from: nat, sched: seq<nat>, trips: seq<Trip>,
                           proto: byte, size: nat)
  {
    && Circling(Square(), hosts, r, from, {1, 2, 3}, 10, sched, trips)
    && from < |r.states| && r.states[from] == s && size <= 1024
    && Launched(Square(), hosts, r, sched, trips, 2, 10, proto, size)
  }

  lemma NeverArrives(s: Net, hosts: seq<Host>, r: Run, from: nat, sched: seq<nat>, trips: seq<Trip>, proto: byte,
                     size: nat, k: nat)
    requires InCircle(s, hosts, r, from, sched, trips, proto, size) && k < |trips|
    ensures HasFate(trips[k], PassAll(LaunchFate(proto, size), Passed(hosts, trips, k)), {1, 2, 3}, 10, k + 1)
    ensures !trips[k].Delivered?
  {
    LaunchedInTrap(Square(), hosts, r, from, {1, 2, 3}, 10, sched, trips, 2, proto, size, k);
  }

  /**
   Such a state is reachable: in whatever way the run goes on, as long as none of the three nodes forgets the address
   or hears of it from node 0, the fate of a packet launched at node 2, on hosts of any kinds, is that of a packet in
   the trap, and it never arrives.
   */
  lemma ForeverLost() returns (s: Net)
    ensures Reachable(Square(), s) && Trap(Square(), s, {1, 2, 3}, 10)
    ensures forall hosts, r, from: nat, sched, trips: seq<Trip>, proto, size: nat, k: nat
      {:trigger InCircle(s, hosts, r, from, sched, trips, proto, size), trips[k]} ::
      InCircle(s, hosts, r, from, sched, trips, proto, size) && k < |trips| ==>
        HasFate(trips[k], PassAll(LaunchFate(proto, size), Passed(hosts, trips, k)), {1, 2, 3}, 10, k + 1)
        && !trips[k].Delivered?
  {
    s := LoopAfterExpiry();
    CircleTraps(s);
    forall hosts, r, from: nat, sched, trips: seq<Trip>, proto, size: nat, k: nat
      | InCircle(s, hosts, r, from, sched, trips, proto, size) && k < |trips|
      ensures HasFate(trips[k], PassAll(LaunchFate(proto, size), Passed(hosts, trips, k)), {1, 2, 3}, 10, k + 1)
      ensures !trips[k].Delivered?
    {
      NeverArrives(s, hosts, r, from, sched, trips, proto, size, k);
    }
  }
}
