/** The configured network: every node's interfaces, how they are wired, and walks along the links. */
module Topology {
  import opened Words

  /**
   One interface as a link file configures it, plus the node and interface its remote address belongs to.
   */
  datatype Ifc = Ifc(localVip: uint32, remoteVip: uint32, remotePort: nat, peerNode: nat, peerIfc: nat)

  /** `ports[n]` is the UDP port of node `n`, `ifcs[n]` its interfaces in order. */
  datatype Topo = Topo(ports: seq<nat>, ifcs: seq<seq<Ifc>>)

  predicate IsIfc(t: Topo, n: int, i: int) {
    0 <= n < |t.ifcs| && 0 <= i < |t.ifcs[n]|
  }

  /**
   What the link files must agree on: ports identify nodes, link ends mirror each other, virtual addresses
   identify interfaces, and two nodes share at most one link.
   */
  ghost predicate WellFormed(t: Topo) {
    && |t.ports| == |t.ifcs|
    && (forall m, n :: 0 <= m < n < |t.ports| ==> t.ports[m] != t.ports[n])
    && (forall n, i {:trigger Mirrored(t, n, i)} :: IsIfc(t, n, i) ==> Mirrored(t, n, i))
    && (forall n, i, m, j {:trigger SameVip(t, n, i, m, j)} :: SameVip(t, n, i, m, j) ==> n == m && i == j)
    && (forall n, i, j {:trigger SamePeer(t, n, i, j)} :: SamePeer(t, n, i, j) ==> i == j)
  }

  predicate SameVip(t: Topo, n: int, i: int, m: int, j: int) {
    IsIfc(t, n, i) && IsIfc(t, m, j) && t.ifcs[n][i].localVip == t.ifcs[m][j].localVip
  }

  predicate SamePeer(t: Topo, n: int, i: int, j: int) {
    IsIfc(t, n, i) && IsIfc(t, n, j) && t.ifcs[n][i].peerNode == t.ifcs[n][j].peerNode
  }

  predicate Mirrored(t: Topo, n: int, i: int)
    requires IsIfc(t, n, i) && |t.ports| == |t.ifcs|
  {
    var f := t.ifcs[n][i];
    && IsIfc(t, f.peerNode, f.peerIfc)
    && f.remotePort == t.ports[f.peerNode]
    && var g := t.ifcs[f.peerNode][f.peerIfc];
       g.peerNode == n && g.peerIfc == i && f.remoteVip == g.localVip
  }

  function Vips(ifcs: seq<Ifc>): (r: seq<uint32>)
    ensures |r| == |ifcs| && forall i :: 0 <= i < |ifcs| ==> r[i] == ifcs[i].localVip
  {
    seq(|ifcs|, i requires 0 <= i < |ifcs| => ifcs[i].localVip)
  }

  predicate Owns(t: Topo, n: int, a: uint32) {
    0 <= n < |t.ifcs| && a in Vips(t.ifcs[n])
  }

  /** `get_interface`: the first interface with this local address, or -1. */
  function FindVip(ifcs: seq<Ifc>, vip: uint32): (r: int)
    ensures -1 <= r < |ifcs|
    ensures r >= 0 ==> ifcs[r].localVip == vip
    ensures r >= 0 <==> vip in Vips(ifcs)
    ensures r >= 0 ==> vip !in Vips(ifcs)[..r]
  {
    if ifcs == [] then -1
    else if FindVip(ifcs[..|ifcs| - 1], vip) >= 0 then
      var r := FindVip(ifcs[..|ifcs| - 1], vip);
      assert Vips(ifcs)[r] == vip;
      assert Vips(ifcs)[..r] == Vips(ifcs[..|ifcs| - 1])[..r];
      r
    else
      assert Vips(ifcs) == Vips(ifcs[..|ifcs| - 1]) + [ifcs[|ifcs| - 1].localVip];
      if ifcs[|ifcs| - 1].localVip == vip then |ifcs| - 1 else -1
  }

  /** `get_interfaceid_with_port`: the first interface whose remote end has this port, or -1. */
  function FindPort(ifcs: seq<Ifc>, port: nat): (r: int)
    ensures -1 <= r < |ifcs|
    ensures r >= 0 ==> ifcs[r].remotePort == port
    ensures r == -1 ==> forall i :: 0 <= i < |ifcs| ==> ifcs[i].remotePort != port
    ensures forall j :: 0 <= j < r ==> ifcs[j].remotePort != port
  {
    if ifcs == [] then -1
    else if FindPort(ifcs[..|ifcs| - 1], port) >= 0 then FindPort(ifcs[..|ifcs| - 1], port)
    else if ifcs[|ifcs| - 1].remotePort == port then |ifcs| - 1 else
      assert forall i :: 0 <= i < |ifcs| - 1 ==> ifcs[i] == ifcs[..|ifcs| - 1][i];
      -1
  }

  /** Looking the sender up by port finds the very link the frame was sent on. */
  lemma ArrivalIsMirror(t: Topo, n: int, i: int)
    requires WellFormed(t) && IsIfc(t, n, i)
    ensures var f := t.ifcs[n][i];
      IsIfc(t, f.peerNode, f.peerIfc) && FindPort(t.ifcs[f.peerNode], t.ports[n]) == f.peerIfc
  {
    assert Mirrored(t, n, i);
    var m, j := t.ifcs[n][i].peerNode, t.ifcs[n][i].peerIfc;
    assert Mirrored(t, m, j);
    var k := FindPort(t.ifcs[m], t.ports[n]);
    assert IsIfc(t, m, k) && Mirrored(t, m, k);
    assert SamePeer(t, m, j, k);
  }

  lemma FindVipOf(t: Topo, n: int, i: int)
    requires WellFormed(t) && IsIfc(t, n, i)
    ensures FindVip(t.ifcs[n], t.ifcs[n][i].localVip) == i
  {
    var v := t.ifcs[n][i].localVip;
    assert Vips(t.ifcs[n])[i] == v;
    assert SameVip(t, n, i, n, FindVip(t.ifcs[n], v));
  }

  // ---------------------------------------------------------------- walks and distance

  /** There is a walk of exactly `k` links from node `n` to the node that owns address `a`. */
  ghost predicate WalkTo(t: Topo, n: int, a: uint32, k: nat)
    decreases k
  {
    if k == 0 then Owns(t, n, a)
    else exists i :: IsIfc(t, n, i) && WalkTo(t, t.ifcs[n][i].peerNode, a, k - 1)
  }

  /** The hop distance from node `n` to the owner of `a` is `k`. */
  ghost predicate IsDistance(t: Topo, n: int, a: uint32, k: nat) {
    WalkTo(t, n, a, k) && forall j: nat :: j < k ==> !WalkTo(t, n, a, j)
  }

  /** A node at distance `k > 0` has a neighbour at distance `k - 1`. */
  lemma CloserNeighbour(t: Topo, n: int, a: uint32, k: nat) returns (i: int)
    requires IsDistance(t, n, a, k) && k > 0
    ensures IsIfc(t, n, i) && IsDistance(t, t.ifcs[n][i].peerNode, a, k - 1)
  {
    i :| IsIfc(t, n, i) && WalkTo(t, t.ifcs[n][i].peerNode, a, k - 1);
    forall j: nat | j < k - 1 ensures !WalkTo(t, t.ifcs[n][i].peerNode, a, j) {
      assert !WalkTo(t, n, a, j + 1);
    }
  }

  // ---------------------------------------------------------------- walks over the links that are left

  /** Ends of links, given as node and interface number. */
  type Ends = set<(nat, nat)>

  ghost predicate LiveOwner(t: Topo, dead: Ends, n: nat, i: nat, a: uint32) {
    IsIfc(t, n, i) && (n, i) !in dead && t.ifcs[n][i].localVip == a
  }

  ghost predicate LiveLink(t: Topo, dead: Ends, n: nat, i: nat) {
    IsIfc(t, n, i) && (n, i) !in dead && (t.ifcs[n][i].peerNode, t.ifcs[n][i].peerIfc) !in dead
  }

  /** There is a walk of `k` links with no end in `dead` to the owner of `a`, whose interface is not in `dead`. */
  ghost predicate LiveWalk(t: Topo, dead: Ends, n: nat, a: uint32, k: nat)
    decreases k
  {
    if k == 0 then exists i: nat :: LiveOwner(t, dead, n, i, a)
    else exists i: nat :: LiveLink(t, dead, n, i) && LiveWalk(t, dead, t.ifcs[n][i].peerNode, a, k - 1)
  }

  /** The hop distance from node `n` to the owner of `a` over the links that are left is `k`. */
  ghost predicate IsLiveDistance(t: Topo, dead: Ends, n: nat, a: uint32, k: nat) {
    LiveWalk(t, dead, n, a, k) && forall j: nat :: j < k ==> !LiveWalk(t, dead, n, a, j)
  }

  /** With nothing dead, every walk is live. */
  lemma {:induction false} WalksAreLive(t: Topo, n: nat, a: uint32, k: nat)
    ensures WalkTo(t, n, a, k) <==> LiveWalk(t, {}, n, a, k)
    decreases k
  {
    if k == 0 {
      if Owns(t, n, a) { assert LiveOwner(t, {}, n, FindVip(t.ifcs[n], a), a); }
      if i: nat :| LiveOwner(t, {}, n, i, a) { assert Vips(t.ifcs[n])[i] == a; }
    } else {
      if WalkTo(t, n, a, k) {
        var i :| IsIfc(t, n, i) && WalkTo(t, t.ifcs[n][i].peerNode, a, k - 1);
        WalksAreLive(t, t.ifcs[n][i].peerNode, a, k - 1);
        assert LiveLink(t, {}, n, i);
      }
      if i: nat :| LiveLink(t, {}, n, i) && LiveWalk(t, {}, t.ifcs[n][i].peerNode, a, k - 1) {
        WalksAreLive(t, t.ifcs[n][i].peerNode, a, k - 1);
      }
    }
  }

  /** A node at live distance `k > 0` has a neighbour at live distance `k - 1`. */
  lemma CloserLiveNeighbour(t: Topo, dead: Ends, n: nat, a: uint32, k: nat) returns (i: nat)
    requires IsLiveDistance(t, dead, n, a, k) && k > 0
    ensures LiveLink(t, dead, n, i) && IsLiveDistance(t, dead, t.ifcs[n][i].peerNode, a, k - 1)
  {
    i :| LiveLink(t, dead, n, i) && LiveWalk(t, dead, t.ifcs[n][i].peerNode, a, k - 1);
    forall j: nat | j < k - 1 ensures !LiveWalk(t, dead, t.ifcs[n][i].peerNode, a, j) {
      assert !LiveWalk(t, dead, n, a, j + 1);
    }
  }

  lemma {:induction false} LiveWalkEnds(t: Topo, dead: Ends, n: nat, a: uint32, k: nat) returns (m: nat, j: nat)
    requires LiveWalk(t, dead, n, a, k)
    ensures LiveOwner(t, dead, m, j, a)
    decreases k
  {
    if k == 0 {
      m := n;
      j :| LiveOwner(t, dead, n, j, a);
    } else {
      var i: nat :| LiveLink(t, dead, n, i) && LiveWalk(t, dead, t.ifcs[n][i].peerNode, a, k - 1);
      m, j := LiveWalkEnds(t, dead, t.ifcs[n][i].peerNode, a, k - 1);
    }
  }

  /** A node that owns an address to which some live walk leads is its live owner. */
  lemma OwnerIsLive(t: Topo, dead: Ends, n: nat, a: uint32, k: nat)
    requires WellFormed(t) && LiveWalk(t, dead, n, a, k) && Owns(t, n, a)
    ensures LiveWalk(t, dead, n, a, 0)
  {
    var m, j := LiveWalkEnds(t, dead, n, a, k);
    assert SameVip(t, n, FindVip(t.ifcs[n], a), m, j);
  }
}
