/**
 When links stay down: the tables forget what they knew through them within 17 epochs, by counting up if need be,
 and then hold nothing but lengths of walks over the links that are left; and within as many rounds as there are
 links on the way they hold the shortest ones.
 */
module LinkFailure {
  import opened Words
  import opened RipTable
  import opened Topology
  import opened Network
  import opened Aging
  import opened RipSafety
  import opened LoopFreedom
  import opened Convergence

  /** From state `from` on the interfaces in `dead`, given as node and number, are down. */
  ghost predicate StayDown(t: Topo, r: Run, dead: Ends, from: nat) {
    forall k: nat {:trigger DownIn(t, r.states[k], dead)} :: from <= k < |r.states| ==> DownIn(t, r.states[k], dead)
  }

  ghost predicate DownIn(t: Topo, s: Net, dead: Ends) {
    Shape(t, s) && forall n: nat, i: nat :: (n, i) in dead && IsIfc(t, n, i) ==> !s.nodes[n].up[i]
  }

  /** The length of an epoch: a route's longest life plus a frame's. */
  function Epoch(p: nat, l: nat): nat {
    REFRESH_LIMIT + p + l
  }

  /** The end of the `c`-th epoch. */
  function Due(t0: int, c: nat, p: nat, l: nat): int {
    if c == 0 then t0 else Due(t0, c - 1, p, l) + Epoch(p, l)
  }

  lemma {:induction false} DueIs(t0: int, c: nat, p: nat, l: nat)
    ensures Due(t0, c, p, l) == t0 + c * Epoch(p, l)
  {
    if c == 0 {
    } else {
      DueIs(t0, c - 1, p, l);
      assert c * Epoch(p, l) == (c - 1) * Epoch(p, l) + Epoch(p, l);
    }
  }

  lemma {:induction false} DueRises(t0: int, c: nat, j: nat, p: nat, l: nat)
    requires c < j
    ensures Due(t0, c, p, l) + Epoch(p, l) <= Due(t0, j, p, l)
  {
    if c + 1 == j {
    } else {
      DueRises(t0, c, j - 1, p, l);
    }
  }

  lemma DueLater(t0: int, c: nat, p: nat, l: nat)
    ensures t0 <= Due(t0, c, p, l)
  {
    if c > 0 { DueRises(t0, 0, c, p, l); }
  }

  /** A route follows a live walk of its cost, or is foreign and stamped within as many epochs from `t0` as it costs. */
  ghost predicate Settling(t: Topo, dead: Ends, n: nat, a: uint32, r: Route, t0: Time, p: nat, l: nat)
  {
    n < |t.ifcs| && (LiveRoute(t, dead, n, a, r) || (!Owns(t, n, a) && r.ts <= Due(t0, r.e.cost, p, l)))
  }

  /** So for what a frame says, allowing a route's longest life before it is said. */
  ghost predicate SaidInTime(t: Topo, dead: Ends, m: Msg, e: Entry, t0: Time, p: nat, l: nat) {
    || e.cost == RIP_MAX_COST
    || ((m.src, m.ifc) !in dead && LiveWalk(t, dead, m.src, e.address, e.cost))
    || m.at <= Due(t0, e.cost, p, l) + REFRESH_LIMIT + p
  }

  ghost predicate RoutesSettle(t: Topo, s: Net, dead: Ends, t0: Time, p: nat, l: nat) {
    forall n, a :: 0 <= n < |s.nodes| && a in s.nodes[n].table ==>
      Settling(t, dead, n, a, s.nodes[n].table[a], t0, p, l)
  }

  ghost predicate FramesSettle(t: Topo, s: Net, dead: Ends, t0: Time, p: nat, l: nat) {
    forall m, e :: m in s.sent && e in m.entries ==> SaidInTime(t, dead, m, e, t0, p, l)
  }

  // ---------------------------------------------------------------- one step

  /** An own address that is in the table has a live owner. */
  lemma OwnSettles(t: Topo, s: Net, dead: Ends, t0: Time, p: nat, l: nat, n: nat, a: uint32)
    requires Inv(t, s) && DownIn(t, s, dead) && n < |s.nodes| && a in s.nodes[n].table && Owns(t, n, a)
    ensures Settling(t, dead, n, a, s.nodes[n].table[a], t0, p, l)
  {
    assert NodeOk(t, n, s.nodes[n], s.now) && RouteOk(t, n, s.nodes[n].up, a, s.nodes[n].table[a]);
    assert LiveOwner(t, dead, n, FindVip(t.ifcs[n], a), a);
  }

  /** Every foreign route is at most `limit` old. */
  ghost predicate Young(t: Topo, s: Net, limit: nat) {
    forall n, a :: 0 <= n < |s.nodes| && a in s.nodes[n].table && !Owns(t, n, a) ==>
      s.now <= s.nodes[n].table[a].ts + limit
  }

  lemma SendSettles(t: Topo, s: Net, dead: Ends, t0: Time, p: nat, l: nat, n: nat, i: nat, e: Entry)
    requires Inv(t, s) && DownIn(t, s, dead) && RoutesSettle(t, s, dead, t0, p, l) && Enabled(t, s, Send(n, i))
    requires Young(t, s, REFRESH_LIMIT + p) && e in MsgOf(t, s, n, i).entries
    ensures SaidInTime(t, dead, MsgOf(t, s, n, i), e, t0, p, l)
  {
    var tab := s.nodes[n].table;
    var a := KeyOfAdvert(tab, t.ifcs[n][i].localVip, e);
    assert NodeOk(t, n, s.nodes[n], s.now) && RouteOk(t, n, s.nodes[n].up, a, tab[a]);
    assert Settling(t, dead, n, a, tab[a], t0, p, l);
    if LiveRoute(t, dead, n, a, tab[a]) { LiveRouteWalks(t, dead, n, a, tab[a]); }
  }

  /** The link a frame comes in on is the one it went out on, seen from the other end. */
  lemma ArrivalMirrors(t: Topo, s: Net, m: Msg) returns (n: nat, j: nat)
    requires WellFormed(t) && Inv(t, s) && Enabled(t, s, Deliver(m))
    ensures n == Target(t, m) && IsIfc(t, n, j) && s.nodes[n].up[j]
    ensures t.ifcs[n][j].peerNode == m.src && t.ifcs[n][j].peerIfc == m.ifc
  {
    n, j := ArrivesOn(t, s, m);
    assert Mirrored(t, n, j);
    assert SamePeer(t, m.src, m.ifc, t.ifcs[n][j].peerIfc);
  }

  /** A route learned from a frame that went out on a live end leaves by a live link. */
  lemma HeardOverLiveLink(t: Topo, s: Net, m: Msg, hop: int, dead: Ends)
    requires WellFormed(t) && Inv(t, s) && DownIn(t, s, dead) && Enabled(t, s, Deliver(m)) && (m.src, m.ifc) !in dead
    requires IsIfc(t, Target(t, m), hop) && t.ifcs[Target(t, m)][hop].peerNode == m.src
    ensures LiveLink(t, dead, Target(t, m), hop)
  {
    var n, j := ArrivalMirrors(t, s, m);
    assert SamePeer(t, n, j, hop);
  }

  /** A route that is heard is one live link longer than what the frame says, or stamped one epoch later. */
  lemma HeardSettles(t: Topo, s: Net, m: Msg, e: Entry, r: Route, dead: Ends, t0: Time, p: nat, l: nat)
    requires WellFormed(t) && Inv(t, s) && DownIn(t, s, dead) && Enabled(t, s, Deliver(m)) && s.now <= m.at + l
    requires SaidInTime(t, dead, m, e, t0, p, l) && e.cost < RIP_MAX_COST && !Owns(t, Target(t, m), e.address)
    requires FindVip(t.ifcs[Target(t, m)], r.nextHop) >= 0 && NextNode(t.ifcs[Target(t, m)], r) == m.src
    requires r.e.cost == e.cost + 1 && r.ts == s.now
    ensures Settling(t, dead, Target(t, m), e.address, r, t0, p, l)
  {
    if (m.src, m.ifc) !in dead && LiveWalk(t, dead, m.src, e.address, e.cost) {
      HeardOverLiveLink(t, s, m, FindVip(t.ifcs[Target(t, m)], r.nextHop), dead);
    } else {
      DueRises(t0, e.cost, e.cost + 1, p, l);
    }
  }

  lemma RouteSettles(t: Topo, s: Net, ev: Event, dead: Ends, t0: Time, p: nat, l: nat, n: nat, a: uint32)
    requires WellFormed(t) && Inv(t, s) && Enabled(t, s, ev) && (ev.Deliver? ==> s.now <= ev.m.at + l)
    requires DownIn(t, s, dead) && RoutesSettle(t, s, dead, t0, p, l) && FramesSettle(t, s, dead, t0, p, l)
    requires n < |s.nodes| && a in Next(t, s, ev).nodes[n].table && !Owns(t, n, a)
    ensures Settling(t, dead, n, a, Next(t, s, ev).nodes[n].table[a], t0, p, l)
  {
    var heard, e := RouteStep(t, s, ev, n, a);
    if heard {
      assert SaidInTime(t, dead, ev.m, e, t0, p, l);
      HeardSettles(t, s, ev.m, e, Next(t, s, ev).nodes[n].table[a], dead, t0, p, l);
    } else {
      assert Settling(t, dead, n, a, s.nodes[n].table[a], t0, p, l);
    }
  }

  /** What one step needs: a good state in which everything settles, and bounds on age and delay. */
  ghost predicate SettlingStep(t: Topo, s: Net, ev: Event, dead: Ends, t0: Time, p: nat, l: nat) {
    && WellFormed(t) && Inv(t, s) && Enabled(t, s, ev) && (ev.Deliver? ==> s.now <= ev.m.at + l)
    && Inv(t, Next(t, s, ev)) && DownIn(t, s, dead) && DownIn(t, Next(t, s, ev), dead)
    && RoutesSettle(t, s, dead, t0, p, l) && FramesSettle(t, s, dead, t0, p, l)
    && Young(t, s, REFRESH_LIMIT + p)
  }

  lemma StepSettlesRoute(t: Topo, s: Net, ev: Event, dead: Ends, t0: Time, p: nat, l: nat, n: nat, a: uint32)
    requires SettlingStep(t, s, ev, dead, t0, p, l) && n < |s.nodes| && a in Next(t, s, ev).nodes[n].table
    ensures Settling(t, dead, n, a, Next(t, s, ev).nodes[n].table[a], t0, p, l)
  {
    if Owns(t, n, a) {
      OwnSettles(t, Next(t, s, ev), dead, t0, p, l, n, a);
    } else {
      RouteSettles(t, s, ev, dead, t0, p, l, n, a);
    }
  }

  lemma StepSettlesEntry(t: Topo, s: Net, ev: Event, dead: Ends, t0: Time, p: nat, l: nat, m: Msg, e: Entry)
    requires SettlingStep(t, s, ev, dead, t0, p, l) && m in Next(t, s, ev).sent && e in m.entries
    ensures SaidInTime(t, dead, m, e, t0, p, l)
  {
    if m !in s.sent {
      SendSettles(t, s, dead, t0, p, l, ev.n, ev.i, e);
    }
  }

  lemma StepSettles(t: Topo, s: Net, ev: Event, dead: Ends, t0: Time, p: nat, l: nat)
    requires SettlingStep(t, s, ev, dead, t0, p, l)
    ensures RoutesSettle(t, Next(t, s, ev), dead, t0, p, l) && FramesSettle(t, Next(t, s, ev), dead, t0, p, l)
  {
    var s' := Next(t, s, ev);
    forall n, a | 0 <= n < |s'.nodes| && a in s'.nodes[n].table
      ensures Settling(t, dead, n, a, s'.nodes[n].table[a], t0, p, l)
    {
      StepSettlesRoute(t, s, ev, dead, t0, p, l, n, a);
    }
    forall m, e | m in s'.sent && e in m.entries ensures SaidInTime(t, dead, m, e, t0, p, l) {
      StepSettlesEntry(t, s, ev, dead, t0, p, l, m, e);
    }
  }

  // ---------------------------------------------------------------- runs

  lemma SettlingAtFirst(t: Topo, s: Net, dead: Ends, p: nat, l: nat)
    requires Inv(t, s) && DownIn(t, s, dead)
    ensures RoutesSettle(t, s, dead, s.now, p, l) && FramesSettle(t, s, dead, s.now, p, l)
  {
    forall n, a | 0 <= n < |s.nodes| && a in s.nodes[n].table
      ensures Settling(t, dead, n, a, s.nodes[n].table[a], s.now, p, l)
    {
      if Owns(t, n, a) {
        OwnSettles(t, s, dead, s.now, p, l, n, a);
      } else {
        assert NodeOk(t, n, s.nodes[n], s.now);
        DueLater(s.now, s.nodes[n].table[a].e.cost, p, l);
      }
    }
    forall m, e | m in s.sent && e in m.entries ensures SaidInTime(t, dead, m, e, s.now, p, l) {
      assert MsgOk(t, m, s.now);
      DueLater(s.now, e.cost, p, l);
    }
  }

  lemma YoungInRun(t: Topo, r: Run, p: nat, l: nat, k: nat)
    requires ValidRun(t, r) && Timely(r, p, l) && k < |r.states|
    ensures Young(t, r.states[k], REFRESH_LIMIT + p)
  {
    forall n, a | 0 <= n < |r.states[k].nodes| && a in r.states[k].nodes[n].table && !Owns(t, n, a)
      ensures r.states[k].now <= r.states[k].nodes[n].table[a].ts + REFRESH_LIMIT + p
    {
      AgeBound(t, r, p, l, k, n, a);
    }
  }

  lemma SettlingOnce(t: Topo, r: Run, p: nat, l: nat, dead: Ends, from: nat, k: nat)
    requires ValidRun(t, r) && Timely(r, p, l) && StayDown(t, r, dead, from) && from <= k < |r.events|
    requires RoutesSettle(t, r.states[k], dead, r.states[from].now, p, l)
    requires FramesSettle(t, r.states[k], dead, r.states[from].now, p, l)
    ensures RoutesSettle(t, r.states[k + 1], dead, r.states[from].now, p, l)
    ensures FramesSettle(t, r.states[k + 1], dead, r.states[from].now, p, l)
  {
    var s := r.states[k];
    ReachableInv(t, r, k);
    ReachableInv(t, r, k + 1);
    assert StepAt(t, r, k);
    assert DownIn(t, s, dead) && DownIn(t, r.states[k + 1], dead);
    assert Young(t, s, REFRESH_LIMIT + p) by { YoungInRun(t, r, p, l, k); }
    StepSettles(t, s, r.events[k], dead, r.states[from].now, p, l);
  }

  lemma {:induction false} SettlingThroughout(t: Topo, r: Run, p: nat, l: nat, dead: Ends, from: nat, k: nat)
    requires ValidRun(t, r) && Timely(r, p, l) && StayDown(t, r, dead, from) && from <= k < |r.states|
    ensures RoutesSettle(t, r.states[k], dead, r.states[from].now, p, l)
    ensures FramesSettle(t, r.states[k], dead, r.states[from].now, p, l)
  {
    if k == from {
      ReachableInv(t, r, k);
      assert DownIn(t, r.states[k], dead);
      SettlingAtFirst(t, r.states[k], dead, p, l);
    } else {
      SettlingThroughout(t, r, p, l, dead, from, k - 1);
      SettlingOnce(t, r, p, l, dead, from, k - 1);
    }
  }

  // ---------------------------------------------------------------- what is left

  /**
   More than `j` epochs after the interfaces in `dead` went down for good, every stored cost below `j` is the length
   of a walk over the links that are left, which starts on the interface the route names.
   */
  lemma LowCostsAreLive(t: Topo, r: Run, p: nat, l: nat, dead: Ends, from: nat, k: nat, j: nat, n: nat,
                        a: uint32)
    requires ValidRun(t, r) && Timely(r, p, l) && StayDown(t, r, dead, from) && from <= k < |r.states|
    requires r.states[k].now > r.states[from].now + j * Epoch(p, l)
    requires n < |r.states[k].nodes| && a in r.states[k].nodes[n].table && r.states[k].nodes[n].table[a].e.cost < j
    ensures var route := r.states[k].nodes[n].table[a];
      n < |t.ifcs| && LiveRoute(t, dead, n, a, route) && LiveWalk(t, dead, n, a, route.e.cost)
  {
    SettlingThroughout(t, r, p, l, dead, from, k);
    var route := r.states[k].nodes[n].table[a];
    assert Settling(t, dead, n, a, route, r.states[from].now, p, l);
    if LiveRoute(t, dead, n, a, route) {
      LiveRouteWalks(t, dead, n, a, route);
    } else {
      AgeBound(t, r, p, l, k, n, a);
      DueRises(r.states[from].now, route.e.cost, j, p, l);
      DueIs(r.states[from].now, j, p, l);
    }
  }

  /** The same for the frames that can still be delivered. */
  lemma LowClaimsAreLive(t: Topo, r: Run, p: nat, l: nat, dead: Ends, from: nat, k: nat, j: nat, m: Msg,
                         e: Entry)
    requires ValidRun(t, r) && Timely(r, p, l) && StayDown(t, r, dead, from) && from <= k < |r.states|
    requires r.states[k].now > r.states[from].now + j * Epoch(p, l)
    requires m in r.states[k].sent && r.states[k].now <= m.at + l && e in m.entries && e.cost < RIP_MAX_COST
    requires e.cost < j
    ensures (m.src, m.ifc) !in dead && LiveWalk(t, dead, m.src, e.address, e.cost)
  {
    SettlingThroughout(t, r, p, l, dead, from, k);
    assert SaidInTime(t, dead, m, e, r.states[from].now, p, l);
    DueRises(r.states[from].now, e.cost, j, p, l);
    DueIs(r.states[from].now, j, p, l);
  }

  /**
   Counting to infinity ends, wherever the network was cut: 17 epochs after the interfaces in `dead` went down for
   good, every route is the length of a walk over the links that are left.
   */
  lemma TablesSettle(t: Topo, r: Run, p: nat, l: nat, dead: Ends, from: nat, k: nat, n: nat, a: uint32)
    requires ValidRun(t, r) && Timely(r, p, l) && StayDown(t, r, dead, from) && from <= k < |r.states|
    requires r.states[k].now > r.states[from].now + 17 * Epoch(p, l)
    requires n < |r.states[k].nodes| && a in r.states[k].nodes[n].table
    ensures var route := r.states[k].nodes[n].table[a];
      n < |t.ifcs| && LiveRoute(t, dead, n, a, route) && LiveWalk(t, dead, n, a, route.e.cost)
  {
    assert |r.states[k].nodes| == |t.ifcs| by { ReachableInv(t, r, k); }
    CostRange(t, r, k, n, a);
    LowCostsAreLive(t, r, p, l, dead, from, k, 17, n, a);
  }

  /** No live link leads out of `part`, and none of its nodes is a live owner of `a`. */
  ghost predicate ClosedPart(t: Topo, dead: Ends, part: set<nat>, a: uint32) {
    && (forall n: nat, i: nat :: n in part && LiveLink(t, dead, n, i) ==> t.ifcs[n][i].peerNode in part)
    && (forall n: nat, i: nat :: n in part ==> !LiveOwner(t, dead, n, i, a))
  }

  lemma {:induction false} NoWalkOut(t: Topo, dead: Ends, part: set<nat>, n: nat, a: uint32, k: nat)
    requires ClosedPart(t, dead, part, a) && n in part
    ensures !LiveWalk(t, dead, n, a, k)
    decreases k
  {
    if k == 0 {
      assert forall i: nat :: !LiveOwner(t, dead, n, i, a);
    } else if LiveWalk(t, dead, n, a, k) {
      var i: nat :| LiveLink(t, dead, n, i) && LiveWalk(t, dead, t.ifcs[n][i].peerNode, a, k - 1);
      NoWalkOut(t, dead, part, t.ifcs[n][i].peerNode, a, k - 1);
    }
  }

  /** A part of the network that is cut off from the owner of an address forgets the address. */
  lemma CutOffForgets(t: Topo, r: Run, p: nat, l: nat, dead: Ends, from: nat, k: nat, part: set<nat>,
                      n: nat, a: uint32)
    requires ValidRun(t, r) && Timely(r, p, l) && StayDown(t, r, dead, from) && from <= k < |r.states|
    requires r.states[k].now > r.states[from].now + 17 * Epoch(p, l)
    requires n < |r.states[k].nodes| && n in part && ClosedPart(t, dead, part, a)
    ensures a !in r.states[k].nodes[n].table
  {
    if a in r.states[k].nodes[n].table {
      TablesSettle(t, r, p, l, dead, from, k, n, a);
      NoWalkOut(t, dead, part, n, a, r.states[k].nodes[n].table[a].e.cost);
    }
  }

  // ---------------------------------------------------------------- recovery

  lemma {:induction false} TimeAdvances(t: Topo, r: Run, i: nat, j: nat)
    requires ValidRun(t, r) && i <= j < |r.states|
    ensures r.states[i].now <= r.states[j].now
  {
    if i == j {
    } else {
      TimeAdvances(t, r, i, j - 1);
      assert StepAt(t, r, j - 1);
    }
  }

  lemma SettledIsSound(t: Topo, r: Run, p: nat, l: nat, dead: Ends, from: nat, k: nat)
    requires ValidRun(t, r) && Timely(r, p, l) && StayDown(t, r, dead, from) && from <= k < |r.states|
    requires r.states[k].now > r.states[from].now + 17 * Epoch(p, l)
    ensures Sound(t, r.states[k], dead)
  {
    var s := r.states[k];
    forall n, a | 0 <= n < |s.nodes| && a in s.nodes[n].table
      ensures n < |t.ifcs| && LiveRoute(t, dead, n, a, s.nodes[n].table[a])
    {
      TablesSettle(t, r, p, l, dead, from, k, n, a);
    }
  }

  /**
   The network recovers from a failure: 17 epochs after the interfaces in `dead` went down for good, while all others
   are up, `k` rounds over the links that are left, without erasure, make every node store the exact live distance of
   every address at live distance at most `k` and at most 16, and keep storing it.
   */
  lemma Recovers(t: Topo, r: Run, p: nat, l: nat, dead: Ends, from: nat, marks: seq<nat>, k: nat, n: nat, a: uint32,
                 d: nat, at: nat)
    requires ValidRun(t, r) && Timely(r, p, l) && StayDown(t, r, dead, from) && Rounds(t, r, dead, marks)
    requires from <= marks[0] && r.states[marks[0]].now > r.states[from].now + 17 * Epoch(p, l)
    requires EraseFree(r, marks[0]) && UpExcept(r.states[marks[0]], dead)
    requires d <= k < |marks| && d <= RIP_MAX_COST && marks[k] <= at < |r.states|
    requires IsLiveDistance(t, dead, n, a, d)
    ensures n < |r.states[at].nodes| && a in r.states[at].nodes[n].table
    ensures r.states[at].nodes[n].table[a].e.cost == d
  {
    forall j: nat | marks[0] <= j < |r.states| ensures Sound(t, r.states[j], dead) {
      TimeAdvances(t, r, marks[0], j);
      SettledIsSound(t, r, p, l, dead, from, j);
    }
    ConvergesOver(t, r, dead, marks, k, n, a, d, at);
  }

  // ---------------------------------------------------------------- the owner falls silent

  /** From state `from` on, no owner of `d` has `d` in its table: its interface is down and stays down. */
  ghost predicate Silent(t: Topo, r: Run, d: uint32, from: nat) {
    forall k, n :: from <= k < |r.states| && 0 <= n < |r.states[k].nodes| && Owns(t, n, d) ==>
      d !in r.states[k].nodes[n].table
  }

  /** The interfaces with address `d`. */
  ghost function Owners(t: Topo, d: uint32): Ends {
    set n: nat, i: nat | n < |t.ifcs| && i < |t.ifcs[n]| && t.ifcs[n][i].localVip == d :: (n, i)
  }

  lemma SilentIsDown(t: Topo, r: Run, d: uint32, from: nat)
    requires ValidRun(t, r) && Silent(t, r, d, from)
    ensures StayDown(t, r, Owners(t, d), from)
  {
    forall k: nat | from <= k < |r.states| ensures DownIn(t, r.states[k], Owners(t, d)) {
      var s := r.states[k];
      ReachableInv(t, r, k);
      forall n: nat, i: nat | (n, i) in Owners(t, d) ensures !s.nodes[n].up[i] {
        assert NodeOk(t, n, s.nodes[n], s.now);
        assert Vips(t.ifcs[n])[i] == d;
      }
    }
  }

  predicate IsNode(t: Topo, n: nat) {
    n < |t.ifcs|
  }

  ghost function AllNodes(t: Topo): set<nat> {
    set n: nat | n < |t.ifcs| && IsNode(t, n)
  }

  /** With its owner's interface down, the whole network is cut off from the address. */
  lemma NoOwnerIsClosed(t: Topo, d: uint32)
    requires WellFormed(t)
    ensures ClosedPart(t, Owners(t, d), AllNodes(t), d)
  {
    forall n: nat, i: nat | n in AllNodes(t) && LiveLink(t, Owners(t, d), n, i)
      ensures t.ifcs[n][i].peerNode in AllNodes(t)
    {
      assert Mirrored(t, n, i);
    }
  }

  lemma MentionedBySender(t: Topo, r: Run, k: nat, m: Msg, e: Entry)
    requires ValidRun(t, r) && k < |r.states| && m in r.states[k].sent && e in m.entries
    ensures m.src < |t.ifcs| && e.cost <= RIP_MAX_COST
  {
    ReachableInv(t, r, k);
    assert MsgOk(t, m, r.states[k].now) && EntryOk(t, m.src, e);
  }

  /**
   The least cost of a silent address rises with every epoch: more than `j` epochs after the silence, every table
   that still holds `d` has it at cost `j` or more, and so does every frame that can still be delivered.
   */
  lemma CostFloorRises(t: Topo, r: Run, p: nat, l: nat, d: uint32, from: nat, k: nat, j: nat)
    requires ValidRun(t, r) && Timely(r, p, l) && Silent(t, r, d, from) && from <= k < |r.states|
    requires r.states[k].now > r.states[from].now + j * Epoch(p, l)
    ensures forall n :: 0 <= n < |r.states[k].nodes| && d in r.states[k].nodes[n].table ==>
      r.states[k].nodes[n].table[d].e.cost >= j
    ensures forall m, e :: m in r.states[k].sent && r.states[k].now <= m.at + l && e in m.entries && e.address == d ==>
      e.cost == RIP_MAX_COST || e.cost >= j
  {
    var s, dead := r.states[k], Owners(t, d);
    SilentIsDown(t, r, d, from);
    NoOwnerIsClosed(t, d);
    assert |s.nodes| == |t.ifcs| by { ReachableInv(t, r, k); }
    forall n | 0 <= n < |s.nodes| && d in s.nodes[n].table ensures s.nodes[n].table[d].e.cost >= j {
      if s.nodes[n].table[d].e.cost < j {
        LowCostsAreLive(t, r, p, l, dead, from, k, j, n, d);
        NoWalkOut(t, dead, AllNodes(t), n, d, s.nodes[n].table[d].e.cost);
      }
    }
    forall m, e | m in s.sent && s.now <= m.at + l && e in m.entries && e.address == d
      ensures e.cost == RIP_MAX_COST || e.cost >= j
    {
      MentionedBySender(t, r, k, m, e);
      if e.cost < RIP_MAX_COST && e.cost < j {
        LowClaimsAreLive(t, r, p, l, dead, from, k, j, m, e);
        NoWalkOut(t, dead, AllNodes(t), m.src, d, e.cost);
      }
    }
  }

  /** After 17 epochs no table holds an address whose owner fell silent. */
  lemma CountingToInfinityEnds(t: Topo, r: Run, p: nat, l: nat, d: uint32, from: nat, k: nat, n: nat)
    requires ValidRun(t, r) && Timely(r, p, l) && Silent(t, r, d, from) && from <= k < |r.states|
    requires r.states[k].now > r.states[from].now + 17 * Epoch(p, l) && n < |r.states[k].nodes|
    ensures d !in r.states[k].nodes[n].table
  {
    SilentIsDown(t, r, d, from);
    NoOwnerIsClosed(t, d);
    assert |r.states[k].nodes| == |t.ifcs| by { ReachableInv(t, r, k); }
    CutOffForgets(t, r, p, l, Owners(t, d), from, k, AllNodes(t), n, d);
  }
}
