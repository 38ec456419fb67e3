/**
 How fast the tables become exact when nothing is erased, from whatever reachable state the network is in: over all
 links, or over those that are left when some stay down and what was known through them is forgotten.
 */
module Convergence {
  import opened Words
  import opened RipTable
  import opened Topology
  import opened Network
  import opened RipSafety
  import opened LoopFreedom

  /** Between states `a` and `b`, node `n` sends on interface `i` and that frame is delivered. */
  ghost predicate Exchanged(t: Topo, r: Run, a: nat, b: nat, n: nat, i: nat)
    requires |r.states| == |r.events| + 1 && b < |r.states|
  {
    exists p, q :: a <= p < q < b
      && r.events[p] == Send(n, i) && Enabled(t, r.states[p], Send(n, i))
      && r.events[q] == Deliver(MsgOf(t, r.states[p], n, i))
  }

  /** A round: every link with no end in `dead` gets one frame across in either direction. Anything else may happen. */
  ghost predicate Round(t: Topo, r: Run, dead: Ends, a: nat, b: nat) {
    && |r.states| == |r.events| + 1 && a <= b < |r.states|
    && forall n: nat, i: nat {:trigger Exchanged(t, r, a, b, n, i)} ::
         LiveLink(t, dead, n, i) ==> Exchanged(t, r, a, b, n, i)
  }

  ghost predicate RoundAt(t: Topo, r: Run, dead: Ends, marks: seq<nat>, j: nat) {
    j + 1 < |marks| && Round(t, r, dead, marks[j], marks[j + 1])
  }

  /** `marks` cuts the run into consecutive rounds. */
  ghost predicate Rounds(t: Topo, r: Run, dead: Ends, marks: seq<nat>) {
    && |marks| > 0 && marks[0] < |r.states|
    && forall j: nat {:trigger RoundAt(t, r, dead, marks, j)} :: j + 1 < |marks| ==> RoundAt(t, r, dead, marks, j)
  }

  ghost predicate AllUp(s: Net) {
    forall n, i :: 0 <= n < |s.nodes| && 0 <= i < |s.nodes[n].up| ==> s.nodes[n].up[i]
  }

  /** Every interface that is not in `dead` is up. */
  ghost predicate UpExcept(s: Net, dead: Ends) {
    forall n: nat, i: nat :: n < |s.nodes| && i < |s.nodes[n].up| && (n, i) !in dead ==> s.nodes[n].up[i]
  }

  ghost predicate SoundFrom(t: Topo, r: Run, dead: Ends, from: nat) {
    forall k: nat {:trigger Sound(t, r.states[k], dead)} :: from <= k < |r.states| ==> Sound(t, r.states[k], dead)
  }

  lemma {:induction false} MarksAscend(t: Topo, r: Run, dead: Ends, marks: seq<nat>, j: nat, k: nat)
    requires Rounds(t, r, dead, marks) && j <= k < |marks|
    ensures marks[j] <= marks[k] < |r.states|
  {
    if k > 0 { assert RoundAt(t, r, dead, marks, k - 1); }
    if j == k {
    } else {
      MarksAscend(t, r, dead, marks, j, k - 1);
    }
  }

  /**
   Poisoned reverse never hides a shortest route: a node whose route is exact tells a neighbour that is one
   link further away the true cost, where distances count the links that are left.
   */
  lemma PoisonNeverHides(t: Topo, s: Net, dead: Ends, m: nat, i: nat, a: uint32, d: nat)
    requires WellFormed(t) && Inv(t, s) && Sound(t, s, dead) && IsIfc(t, m, i) && d < RIP_MAX_COST
    requires IsLiveDistance(t, dead, t.ifcs[m][i].peerNode, a, d + 1)
    requires a in s.nodes[m].table && s.nodes[m].table[a].e.cost == d
    ensures Advert(s.nodes[m].table[a], t.ifcs[m][i].localVip) == s.nodes[m].table[a].e
    ensures s.nodes[m].table[a].e in MsgOf(t, s, m, i).entries
  {
    var r, vip := s.nodes[m].table[a], t.ifcs[m][i].localVip;
    assert NodeOk(t, m, s.nodes[m], s.now) && RouteOk(t, m, s.nodes[m].up, a, r);
    assert LiveRoute(t, dead, m, a, r);
    FindVipOf(t, m, i);
    AdvertOfKey(s.nodes[m].table, vip, a);
  }

  /** A usable entry of a delivered frame is matched by the receiver's table afterwards. */
  lemma Hears(t: Topo, s: Net, m: Msg, e: Entry)
    requires WellFormed(t) && Inv(t, s) && Enabled(t, s, Deliver(m))
    requires e in m.entries && e.cost != RIP_MAX_COST && !Owns(t, Target(t, m), e.address)
    ensures var s', n := Next(t, s, Deliver(m)), Target(t, m);
      e.address in s'.nodes[n].table && s'.nodes[n].table[e.address].e.cost <= e.cost + 1
  {
    var n, j := ArrivesOn(t, s, m);
    assert EntryOk(t, m.src, e) by { assert MsgOk(t, m, s.now); }
    MergeCovers(s.nodes[n].table, Vips(t.ifcs[n]), m.entries, t.ifcs[n][j].localVip, s.now, e);
  }

  /** Once an exactly known cost `d` has been sent to and received by a neighbour at `d + 1`, it knows `d + 1`. */
  lemma HeardIsKnown(t: Topo, r: Run, dead: Ends, p: nat, q: nat, m: nat, i: nat, a: uint32, d: nat)
    requires ValidRun(t, r) && p < q < |r.events| && IsIfc(t, m, i) && d < RIP_MAX_COST && Sound(t, r.states[p], dead)
    requires Enabled(t, r.states[p], Send(m, i)) && r.events[q] == Deliver(MsgOf(t, r.states[p], m, i))
    requires IsLiveDistance(t, dead, t.ifcs[m][i].peerNode, a, d + 1)
    requires a in r.states[p].nodes[m].table && r.states[p].nodes[m].table[a].e.cost == d
    ensures var n := t.ifcs[m][i].peerNode;
      n < |r.states[q + 1].nodes| && a in r.states[q + 1].nodes[n].table
      && r.states[q + 1].nodes[n].table[a].e.cost <= d + 1
  {
    ReachableInv(t, r, p);
    ReachableInv(t, r, q);
    var st, n := r.states[p].nodes[m], t.ifcs[m][i].peerNode;
    PoisonNeverHides(t, r.states[p], dead, m, i, a, d);
    assert st.table[a].e.address == a by { TableInvariant(t, r, p, m); }
    assert StepAt(t, r, q);
    assert !Owns(t, n, a) by {
      if Owns(t, n, a) { OwnerIsLive(t, dead, n, a, d + 1); }
    }
    Hears(t, r.states[q], MsgOf(t, r.states[p], m, i), st.table[a].e);
  }

  /** From then on it stores exactly `d + 1`. */
  lemma HeardIsExact(t: Topo, r: Run, dead: Ends, from: nat, p: nat, q: nat, m: nat, i: nat, a: uint32, d: nat, at: nat)
    requires ValidRun(t, r) && EraseFree(r, from) && SoundFrom(t, r, dead, from)
    requires from <= p < q < |r.events| && q < at < |r.states| && IsIfc(t, m, i) && d < RIP_MAX_COST
    requires Enabled(t, r.states[p], Send(m, i)) && r.events[q] == Deliver(MsgOf(t, r.states[p], m, i))
    requires IsLiveDistance(t, dead, t.ifcs[m][i].peerNode, a, d + 1)
    requires a in r.states[p].nodes[m].table && r.states[p].nodes[m].table[a].e.cost == d
    ensures var n := t.ifcs[m][i].peerNode;
      n < |r.states[at].nodes| && a in r.states[at].nodes[n].table && r.states[at].nodes[n].table[a].e.cost == d + 1
  {
    var n := t.ifcs[m][i].peerNode;
    assert Sound(t, r.states[p], dead);
    HeardIsKnown(t, r, dead, p, q, m, i, a, d);
    ImprovesOverTime(t, r, from, q + 1, at);
    assert Sound(t, r.states[at], dead);
    LiveRouteWalks(t, dead, n, a, r.states[at].nodes[n].table[a]);
  }

  /** A live own address is known at cost 0 from the start and for good. */
  lemma OwnIsKnown(t: Topo, r: Run, dead: Ends, from: nat, n: nat, a: uint32, at: nat)
    requires ValidRun(t, r) && from <= at < |r.states| && EraseFree(r, from) && UpExcept(r.states[from], dead)
    requires LiveWalk(t, dead, n, a, 0)
    ensures n < |r.states[at].nodes| && a in r.states[at].nodes[n].table
    ensures r.states[at].nodes[n].table[a].e.cost == 0
  {
    var s := r.states[from];
    var i: nat :| LiveOwner(t, dead, n, i, a);
    ReachableInv(t, r, from);
    assert NodeOk(t, n, s.nodes[n], s.now);
    assert Vips(t.ifcs[n])[i] == a && s.nodes[n].up[i];
    ImprovesOverTime(t, r, from, from, at);
    CostRange(t, r, at, n, a);
  }

  /**
   Convergence over the links that are left: if all interfaces but those in `dead` are up, every route is sound over
   the links that are left and nothing is erased from state `marks[0]` on, then after `k` rounds every node stores the
   exact live distance of every address at distance at most `k` and at most 16, and keeps storing it.
   */
  lemma {:induction false} ConvergesOver(t: Topo, r: Run, dead: Ends, marks: seq<nat>, k: nat, n: nat, a: uint32,
                                         d: nat, at: nat)
    requires ValidRun(t, r) && Rounds(t, r, dead, marks) && SoundFrom(t, r, dead, marks[0])
    requires EraseFree(r, marks[0]) && UpExcept(r.states[marks[0]], dead)
    requires d <= k < |marks| && d <= RIP_MAX_COST && marks[k] <= at < |r.states|
    requires IsLiveDistance(t, dead, n, a, d)
    ensures n < |r.states[at].nodes| && a in r.states[at].nodes[n].table
    ensures r.states[at].nodes[n].table[a].e.cost == d
    decreases d
  {
    MarksAscend(t, r, dead, marks, 0, d);
    MarksAscend(t, r, dead, marks, d, k);
    if d == 0 {
      OwnIsKnown(t, r, dead, marks[0], n, a, at);
    } else {
      MarksAscend(t, r, dead, marks, 0, d - 1);
      var i := CloserLiveNeighbour(t, dead, n, a, d);
      var m, j := t.ifcs[n][i].peerNode, t.ifcs[n][i].peerIfc;
      assert Mirrored(t, n, i);
      var p, q := FrameOfRound(t, r, dead, marks, d - 1, m, j);
      ConvergesOver(t, r, dead, marks, d - 1, m, a, d - 1, p);
      HeardIsExact(t, r, dead, marks[0], p, q, m, j, a, d - 1, at);
    }
  }

  lemma FrameOfRound(t: Topo, r: Run, dead: Ends, marks: seq<nat>, k: nat, n: nat, i: nat) returns (p: nat, q: nat)
    requires Rounds(t, r, dead, marks) && k + 1 < |marks| && LiveLink(t, dead, n, i)
    ensures marks[k] <= p < q < marks[k + 1] < |r.states| == |r.events| + 1
    ensures Enabled(t, r.states[p], Send(n, i)) && r.events[q] == Deliver(MsgOf(t, r.states[p], n, i))
  {
    assert RoundAt(t, r, dead, marks, k);
    assert Exchanged(t, r, marks[k], marks[k + 1], n, i);
    p, q :| marks[k] <= p < q < marks[k + 1]
      && r.events[p] == Send(n, i) && Enabled(t, r.states[p], Send(n, i))
      && r.events[q] == Deliver(MsgOf(t, r.states[p], n, i));
  }

  /**
   Convergence despite poisoned reverse: if all interfaces are up and nothing is erased from state `marks[0]` on,
   then after `k` rounds every node stores the exact hop distance of every address at distance at most
   `k` and at most 16, and keeps storing it.
   */
  lemma Converges(t: Topo, r: Run, marks: seq<nat>, k: nat, n: nat, a: uint32, d: nat, at: nat)
    requires ValidRun(t, r) && Rounds(t, r, {}, marks)
    requires EraseFree(r, marks[0]) && AllUp(r.states[marks[0]])
    requires d <= k < |marks| && d <= RIP_MAX_COST && marks[k] <= at < |r.states|
    requires IsDistance(t, n, a, d) && n < |t.ifcs|
    ensures n < |r.states[at].nodes| && a in r.states[at].nodes[n].table
    ensures r.states[at].nodes[n].table[a].e.cost == d
  {
    forall j: nat | marks[0] <= j < |r.states| ensures Sound(t, r.states[j], {}) {
      ReachableSound(t, r, j);
    }
    assert IsLiveDistance(t, {}, n, a, d) by {
      WalksAreLive(t, n, a, d);
      forall j: nat | j < d ensures !LiveWalk(t, {}, n, a, j) { WalksAreLive(t, n, a, j); }
    }
    ConvergesOver(t, r, {}, marks, k, n, a, d, at);
  }
}
