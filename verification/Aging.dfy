/**
 Timed runs: routes age out, and no foreign route lives for long.
 `p` bounds the time between two refreshes of a node, `l` the lifetime of a frame.
 */
module Aging {
  import opened Words
  import opened RipTable
  import opened Topology
  import opened Network
  import opened LoopFreedom
  import RipSafety

  /**
   What a refresh keeps: own addresses, and foreign ones aged at most 12 seconds. The age is an unsigned 64-bit
   difference, so a timestamp in the future counts as very old unless it wraps all the way round.
   */
  lemma ExpiryExact(t: Table, mine: seq<uint32>, cur: Time, a: uint32)
    requires a in t
    ensures a in Expire(t, mine, cur) <==>
      || a in mine
      || 0 <= cur - t[a].ts <= 12_000_000
      || t[a].ts - cur >= 0x1_0000_0000_0000_0000 - 12_000_000
    ensures a in Expire(t, mine, cur) ==> Expire(t, mine, cur)[a] == t[a]
  {
  }

  /** Every node refreshes at least every `p`, and no frame is delivered later than `l` after it was sent. */
  ghost predicate Timely(r: Run, p: nat, l: nat) {
    && |r.states| == |r.events| + 1
    && (forall k, n :: 0 <= k < |r.states| && 0 <= n < |r.states[k].nodes| ==>
          r.states[k].now <= r.states[k].nodes[n].lastRefresh + p)
    && (forall k :: 0 <= k < |r.events| && r.events[k].Deliver? ==> r.states[k].now <= r.events[k].m.at + l)
  }

  /** Every foreign route survived, or postdates, its node's last refresh. */
  ghost predicate Fresh(t: Topo, s: Net) {
    forall n, a :: 0 <= n < |s.nodes| && a in s.nodes[n].table && !Owns(t, n, a) ==>
      s.nodes[n].lastRefresh <= s.nodes[n].table[a].ts + REFRESH_LIMIT
  }

  /** How one step changes one foreign route: not at all, or to a strictly cheaper one heard at this moment. */
  lemma RouteStep(t: Topo, s: Net, ev: Event, n: nat, a: uint32) returns (heard: bool, e: Entry)
    requires WellFormed(t) && Inv(t, s) && Enabled(t, s, ev) && n < |s.nodes|
    requires a in Next(t, s, ev).nodes[n].table && !Owns(t, n, a)
    ensures var r' := Next(t, s, ev).nodes[n].table[a];
      && (!heard ==> a in s.nodes[n].table && r' == s.nodes[n].table[a])
      && (heard ==> ev.Deliver? && e in ev.m.entries && e.address == a && e.cost < RIP_MAX_COST
                    && r'.ts == s.now && r'.e.cost == e.cost + 1
                    && (a in s.nodes[n].table ==> r'.e.cost < s.nodes[n].table[a].e.cost)
                    && n == Target(t, ev.m)
                    && FindVip(t.ifcs[n], r'.nextHop) >= 0 && NextNode(t.ifcs[n], r') == ev.m.src)
  {
    heard, e := false, Entry(0, 0, 0);
    if ev.Deliver? && n == Target(t, ev.m) {
      var kept, entry := DeliveredRoute(t, s, ev.m, a);
      heard, e := !kept, entry;
    } else if !ev.Deliver? {
      KeptOrOwn(t, s, ev, n, a);
    }
  }

  lemma FreshRoute(t: Topo, s: Net, ev: Event, n: nat, a: uint32)
    requires WellFormed(t) && Inv(t, s) && Fresh(t, s) && Enabled(t, s, ev)
    requires n < |s.nodes| && a in Next(t, s, ev).nodes[n].table && !Owns(t, n, a)
    ensures Next(t, s, ev).nodes[n].lastRefresh <= Next(t, s, ev).nodes[n].table[a].ts + REFRESH_LIMIT
  {
    assert NodeOk(t, n, s.nodes[n], s.now);
    var _, _ := RouteStep(t, s, ev, n, a);
  }

  lemma FreshStep(t: Topo, s: Net, ev: Event)
    requires WellFormed(t) && Inv(t, s) && Fresh(t, s) && Enabled(t, s, ev)
    ensures Fresh(t, Next(t, s, ev))
  {
    var s' := Next(t, s, ev);
    forall n, a | 0 <= n < |s'.nodes| && a in s'.nodes[n].table && !Owns(t, n, a)
      ensures s'.nodes[n].lastRefresh <= s'.nodes[n].table[a].ts + REFRESH_LIMIT
    {
      FreshRoute(t, s, ev, n, a);
    }
  }

  lemma InitFresh(t: Topo, s: Net)
    requires Init(t, s)
    ensures Fresh(t, s)
  {
  }

  lemma FreshOnce(t: Topo, r: Run, k: nat)
    requires ValidRun(t, r) && k < |r.events| && Fresh(t, r.states[k])
    ensures Fresh(t, r.states[k + 1])
  {
    ReachableInv(t, r, k);
    assert StepAt(t, r, k);
    FreshStep(t, r.states[k], r.events[k]);
  }

  lemma {:induction false} ReachableFresh(t: Topo, r: Run, k: nat)
    requires ValidRun(t, r) && k < |r.states|
    ensures Fresh(t, r.states[k])
  {
    if k == 0 {
      InitFresh(t, r.states[0]);
    } else {
      ReachableFresh(t, r, k - 1);
      FreshOnce(t, r, k - 1);
    }
  }

  /** No foreign route is ever older than 12 seconds plus the refresh period. */
  lemma AgeBound(t: Topo, r: Run, p: nat, l: nat, k: nat, n: nat, a: uint32)
    requires ValidRun(t, r) && Timely(r, p, l) && k < |r.states| && n < |r.states[k].nodes|
    requires a in r.states[k].nodes[n].table && !Owns(t, n, a)
    ensures r.states[k].now <= r.states[k].nodes[n].table[a].ts + REFRESH_LIMIT + p
  {
    ReachableFresh(t, r, k);
  }

  // ---------------------------------------------------------------- no route survives

  /** Node `n` holds a route to the foreign address `a` in every state from `i` to `j`. */
  ghost predicate HeldThroughout(t: Topo, r: Run, i: nat, j: nat, n: nat, a: uint32)
    requires j < |r.states|
  {
    !Owns(t, n, a) && forall k :: i <= k <= j ==> n < |r.states[k].nodes| && a in r.states[k].nodes[n].table
  }

  /** One step of a held route: unchanged, or strictly cheaper and stamped with this moment. */
  lemma HeldStep(t: Topo, r: Run, k: nat, n: nat, a: uint32)
    requires ValidRun(t, r) && k < |r.events| && HeldThroughout(t, r, k, k + 1, n, a)
    ensures var y, z := r.states[k].nodes[n].table[a], r.states[k + 1].nodes[n].table[a];
      z == y || (z.e.cost < y.e.cost && z.ts == r.states[k].now)
  {
    ReachableInv(t, r, k);
    assert StepAt(t, r, k);
    var _, _ := RouteStep(t, r.states[k], r.events[k], n, a);
  }

  lemma LagStep(t0: int, c: int, y: int, z: int, ts: int, ts': int, life: nat)
    requires z < y && ts <= t0 + (c - y) * life && ts' <= ts + life
    ensures ts' <= t0 + (c - z) * life
  {
    MulStep(c - y, c - z, life);
  }

  /**
   A timestamp moves only when the cost strictly falls, so a route held without a gap from `i` to `j` has been
   restamped at most as often as its cost has fallen.
   */
  lemma {:induction false} StampLag(t: Topo, r: Run, p: nat, l: nat, i: nat, j: nat, n: nat, a: uint32)
    requires ValidRun(t, r) && Timely(r, p, l) && i <= j < |r.states| && HeldThroughout(t, r, i, j, n, a)
    ensures var x, y := r.states[i].nodes[n].table[a], r.states[j].nodes[n].table[a];
      y.e.cost <= x.e.cost && y.ts <= r.states[i].now + (x.e.cost - y.e.cost) * (REFRESH_LIMIT + p)
  {
    if i == j {
      ReachableInv(t, r, i);
      assert NodeOk(t, n, r.states[i].nodes[n], r.states[i].now);
    } else {
      StampLag(t, r, p, l, i, j - 1, n, a);
      AgeBound(t, r, p, l, j - 1, n, a);
      HeldStep(t, r, j - 1, n, a);
      var c := r.states[i].nodes[n].table[a].e.cost;
      var y, z := r.states[j - 1].nodes[n].table[a], r.states[j].nodes[n].table[a];
      if z != y {
        LagStep(r.states[i].now, c, y.e.cost, z.e.cost, y.ts, z.ts, REFRESH_LIMIT + p);
      }
    }
  }

  lemma {:induction false} MulStep(x: int, y: int, e: nat)
    requires x + 1 <= y
    ensures x * e + e <= y * e
    decreases y - x
  {
    if x + 1 == y {
      assert y * e == x * e + e;
    } else {
      MulStep(x, y - 1, e);
    }
  }

  lemma LifetimeBound(t0: int, now: int, ts: int, falls: nat, life: nat)
    requires ts <= t0 + falls * life && now <= ts + life && falls < 16
    ensures now <= t0 + (falls + 1) * life && now <= t0 + 16 * life
  {
    MulStep(falls, falls + 1, life);
    MulStep(falls, 16, life);
  }

  /**
   No foreign route survives, even in a stable network whose neighbours keep advertising it: held without a gap
   and at a constant cost it lasts at most 12 seconds plus the refresh period, and never more than 16 times that.
   */
  lemma RouteLifetime(t: Topo, r: Run, p: nat, l: nat, i: nat, j: nat, n: nat, a: uint32)
    requires ValidRun(t, r) && Timely(r, p, l) && i <= j < |r.states| && HeldThroughout(t, r, i, j, n, a)
    ensures var x, y := r.states[i].nodes[n].table[a], r.states[j].nodes[n].table[a];
      r.states[j].now <= r.states[i].now + (x.e.cost - y.e.cost + 1) * (REFRESH_LIMIT + p)
    ensures r.states[j].now <= r.states[i].now + 16 * (REFRESH_LIMIT + p)
  {
    StampLag(t, r, p, l, i, j, n, a);
    AgeBound(t, r, p, l, j, n, a);
    assert |r.states[i].nodes| == |r.states[j].nodes| == |t.ifcs| by {
      ReachableInv(t, r, i);
      ReachableInv(t, r, j);
    }
    RipSafety.CostRange(t, r, i, n, a);
    RipSafety.CostRange(t, r, j, n, a);
    var x, y := r.states[i].nodes[n].table[a], r.states[j].nodes[n].table[a];
    LifetimeBound(r.states[i].now, r.states[j].now, y.ts, x.e.cost - y.e.cost, REFRESH_LIMIT + p);
  }
}
