/**
 The whole network as a state machine. Each event is one atomic call of the code on one node. Frames that were
 ever sent stay in `sent`: delivering one any number of times, in any order, or never, is duplication,
 reordering and loss.
 */
module Network {
  import opened Words
  import opened RipTable
  import opened Topology

  /** `lastRefresh` is a history variable: the time of the node's last `refresh_route_table`. */
  datatype NodeState = NodeState(table: Table, up: seq<bool>, lastRefresh: Time)

  datatype Msg = Msg(src: nat, ifc: nat, entries: seq<Entry>, at: Time)

  datatype Net = Net(nodes: seq<NodeState>, sent: set<Msg>, now: Time)

  datatype Event =
    | Send(n: nat, i: nat)
    | Deliver(m: Msg)
    | Refresh(n: nat)
    | Down(n: nat, i: nat)
    | Up(n: nat, i: nat)
    | Tick(d: nat)

  datatype Run = Run(states: seq<Net>, events: seq<Event>)

  predicate Shape(t: Topo, s: Net) {
    && |s.nodes| == |t.ifcs|
    && forall n :: 0 <= n < |s.nodes| ==> |s.nodes[n].up| == |t.ifcs[n]|
  }

  function OwnTable(vips: seq<uint32>, now: Time): Table {
    map a | a in vips :: OwnRoute(a, now)
  }

  function InitNode(ifcs: seq<Ifc>, now: Time): NodeState {
    NodeState(OwnTable(Vips(ifcs), now), seq(|ifcs|, i => true), now)
  }

  ghost predicate Init(t: Topo, s: Net) {
    && |s.nodes| == |t.ifcs| && s.sent == {}
    && forall n :: 0 <= n < |s.nodes| ==> s.nodes[n] == InitNode(t.ifcs[n], s.now)
  }

  /** The node a frame sent by `src` on interface `ifc` reaches, and the interface it is attributed to there. */
  function Target(t: Topo, m: Msg): nat
    requires IsIfc(t, m.src, m.ifc)
  {
    t.ifcs[m.src][m.ifc].peerNode
  }

  predicate Deliverable(t: Topo, s: Net, m: Msg)
    requires Shape(t, s)
  {
    && m in s.sent && IsIfc(t, m.src, m.ifc) && m.src < |t.ports|
    && Target(t, m) < |s.nodes|
    && var j := FindPort(t.ifcs[Target(t, m)], t.ports[m.src]);
       j >= 0 && s.nodes[Target(t, m)].up[j]
  }

  predicate Enabled(t: Topo, s: Net, ev: Event) {
    && Shape(t, s)
    && match ev
       case Send(n, i) => IsIfc(t, n, i) && s.nodes[n].up[i]
       case Deliver(m) => Deliverable(t, s, m)
       case Refresh(n) => n < |s.nodes|
       case Down(n, i) => IsIfc(t, n, i)
       case Up(n, i) => IsIfc(t, n, i)
       case Tick(d) => s.now + d < 0x1_0000_0000_0000_0000
  }

  function SetNode(s: Net, n: nat, st: NodeState): Net
    requires n < |s.nodes|
  {
    s.(nodes := s.nodes[n := st])
  }

  function MsgOf(t: Topo, s: Net, n: nat, i: nat): Msg
    requires Shape(t, s) && IsIfc(t, n, i)
  {
    Msg(n, i, Advertise(s.nodes[n].table, t.ifcs[n][i].localVip), s.now)
  }

  function Received(t: Topo, s: Net, m: Msg): NodeState
    requires Shape(t, s) && Deliverable(t, s, m)
  {
    var n := Target(t, m);
    var hop := t.ifcs[n][FindPort(t.ifcs[n], t.ports[m.src])].localVip;
    s.nodes[n].(table := Merge(s.nodes[n].table, Vips(t.ifcs[n]), m.entries, hop, s.now))
  }

  function Next(t: Topo, s: Net, ev: Event): Net
    requires Enabled(t, s, ev)
  {
    match ev
    case Send(n, i) => s.(sent := s.sent + {MsgOf(t, s, n, i)})
    case Deliver(m) => SetNode(s, Target(t, m), Received(t, s, m))
    case Refresh(n) =>
      SetNode(s, n, s.nodes[n].(table := Expire(s.nodes[n].table, Vips(t.ifcs[n]), s.now), lastRefresh := s.now))
    case Down(n, i) =>
      SetNode(s, n, s.nodes[n].(up := s.nodes[n].up[i := false],
                                table := RemoveIfc(s.nodes[n].table, t.ifcs[n][i].localVip)))
    case Up(n, i) =>
      var vip := t.ifcs[n][i].localVip;
      SetNode(s, n, s.nodes[n].(up := s.nodes[n].up[i := true], table := s.nodes[n].table[vip := OwnRoute(vip, s.now)]))
    case Tick(d) => s.(now := s.now + d)
  }

  ghost predicate IsStep(t: Topo, s: Net, ev: Event, s': Net) {
    Enabled(t, s, ev) && s' == Next(t, s, ev)
  }

  ghost predicate StepAt(t: Topo, r: Run, k: nat) {
    |r.states| == |r.events| + 1 && k < |r.events| && IsStep(t, r.states[k], r.events[k], r.states[k + 1])
  }

  ghost predicate ValidRun(t: Topo, r: Run) {
    && WellFormed(t)
    && |r.states| == |r.events| + 1
    && Init(t, r.states[0])
    && forall k: nat {:trigger StepAt(t, r, k)} :: k < |r.events| ==> StepAt(t, r, k)
  }

  // ---------------------------------------------------------------- the invariant

  /** The interface a route leaves by is up. */
  predicate HopUp(ifcs: seq<Ifc>, up: seq<bool>, hop: uint32)
    requires |up| == |ifcs|
  {
    FindVip(ifcs, hop) >= 0 && up[FindVip(ifcs, hop)]
  }

  /** The node across the interface a route leaves by. */
  function NextNode(ifcs: seq<Ifc>, r: Route): nat
    requires FindVip(ifcs, r.nextHop) >= 0
  {
    ifcs[FindVip(ifcs, r.nextHop)].peerNode
  }

  ghost predicate RouteOk(t: Topo, n: nat, up: seq<bool>, a: uint32, r: Route)
    requires n < |t.ifcs| && |up| == |t.ifcs[n]|
  {
    && r.e.address == a
    && HopUp(t.ifcs[n], up, r.nextHop)
    && if Owns(t, n, a) then r.e.cost == 0 && r.nextHop == a
       else 1 <= r.e.cost <= RIP_MAX_COST && WalkTo(t, NextNode(t.ifcs[n], r), a, r.e.cost - 1)
  }

  ghost predicate NodeOk(t: Topo, n: nat, st: NodeState, now: Time)
    requires n < |t.ifcs| && |st.up| == |t.ifcs[n]|
  {
    && (forall i :: 0 <= i < |st.up| ==> (t.ifcs[n][i].localVip in st.table <==> st.up[i]))
    && (forall a :: a in st.table ==> RouteOk(t, n, st.up, a, st.table[a]) && st.table[a].ts <= now)
    && st.lastRefresh <= now
  }

  ghost predicate EntryOk(t: Topo, n: nat, e: Entry) {
    e.cost <= RIP_MAX_COST && (e.cost != RIP_MAX_COST ==> WalkTo(t, n, e.address, e.cost))
  }

  ghost predicate MsgOk(t: Topo, m: Msg, now: Time) {
    && IsIfc(t, m.src, m.ifc) && m.at <= now
    && forall e :: e in m.entries ==> EntryOk(t, m.src, e)
  }

  ghost predicate Inv(t: Topo, s: Net) {
    && Shape(t, s)
    && (forall n :: 0 <= n < |s.nodes| ==> NodeOk(t, n, s.nodes[n], s.now))
    && (forall m :: m in s.sent ==> MsgOk(t, m, s.now))
  }

  lemma InitInv(t: Topo, s: Net)
    requires WellFormed(t) && Init(t, s)
    ensures Inv(t, s)
  {
    forall n | 0 <= n < |s.nodes| ensures NodeOk(t, n, s.nodes[n], s.now) {
      var vips := Vips(t.ifcs[n]);
      forall i | 0 <= i < |vips| ensures vips[i] in s.nodes[n].table {}
    }
  }

  /** A node that is replaced by a good one, with everything else unchanged, keeps the invariant. */
  lemma SetNodeInv(t: Topo, s: Net, n: nat, st: NodeState)
    requires Inv(t, s) && n < |s.nodes| && |st.up| == |t.ifcs[n]| && NodeOk(t, n, st, s.now)
    ensures Inv(t, SetNode(s, n, st))
  {
  }

  /** A poisoned or true copy of a good route is a good thing to say. */
  lemma AdvertOk(t: Topo, s: Net, n: nat, i: nat, a: uint32)
    requires Inv(t, s) && IsIfc(t, n, i) && a in s.nodes[n].table
    ensures EntryOk(t, n, Advert(s.nodes[n].table[a], t.ifcs[n][i].localVip))
  {
    var r := s.nodes[n].table[a];
    assert RouteOk(t, n, s.nodes[n].up, a, r);
    assert IsIfc(t, n, FindVip(t.ifcs[n], r.nextHop));
  }

  lemma SendInv(t: Topo, s: Net, n: nat, i: nat)
    requires WellFormed(t) && Inv(t, s) && Enabled(t, s, Send(n, i))
    ensures Inv(t, Next(t, s, Send(n, i)))
  {
    var tab, vip := s.nodes[n].table, t.ifcs[n][i].localVip;
    var m := MsgOf(t, s, n, i);
    forall e | e in m.entries ensures EntryOk(t, n, e) {
      var a := KeyOfAdvert(tab, vip, e);
      AdvertOk(t, s, n, i, a);
    }
    assert MsgOk(t, m, s.now);
  }

  /** Where a delivered frame comes in: the mirror end of the link it went out on. */
  lemma ArrivesOn(t: Topo, s: Net, m: Msg) returns (n: nat, j: nat)
    requires WellFormed(t) && Inv(t, s) && Enabled(t, s, Deliver(m))
    ensures n == Target(t, m) && IsIfc(t, n, j) && s.nodes[n].up[j] && t.ifcs[n][j].peerNode == m.src
    ensures FindVip(t.ifcs[n], t.ifcs[n][j].localVip) == j
    ensures Received(t, s, m).table
         == Merge(s.nodes[n].table, Vips(t.ifcs[n]), m.entries, t.ifcs[n][j].localVip, s.now)
    ensures Received(t, s, m).up == s.nodes[n].up
  {
    n, j := Target(t, m), t.ifcs[m.src][m.ifc].peerIfc;
    ArrivalIsMirror(t, m.src, m.ifc);
    assert Mirrored(t, m.src, m.ifc);
    FindVipOf(t, n, j);
  }

  /**
   What can happen in a good state: a node can send on any interface that is up; any frame ever sent can be delivered,
   as long as the interface at the other end of its link is up; refreshes and switching are always possible, and time
   passes up to the end of its 64-bit word.
   */
  lemma EnabledExact(t: Topo, s: Net, ev: Event)
    requires WellFormed(t) && Inv(t, s)
    ensures Enabled(t, s, ev) <==>
      match ev
      case Send(n, i) => IsIfc(t, n, i) && s.nodes[n].up[i]
      case Deliver(m) =>
        m in s.sent && IsIfc(t, m.src, m.ifc)
        && var f := t.ifcs[m.src][m.ifc]; IsIfc(t, f.peerNode, f.peerIfc) && s.nodes[f.peerNode].up[f.peerIfc]
      case Refresh(n) => n < |t.ifcs|
      case Down(n, i) => IsIfc(t, n, i)
      case Up(n, i) => IsIfc(t, n, i)
      case Tick(d) => s.now + d <= 0xFFFF_FFFF_FFFF_FFFF
  {
    if ev.Deliver? && ev.m in s.sent {
      assert MsgOk(t, ev.m, s.now);
      ArrivalIsMirror(t, ev.m.src, ev.m.ifc);
    }
  }

  /** Whatever a node learns from a good message, on an interface that is up, is a good route. */
  lemma LearnedRouteOk(t: Topo, n: nat, j: nat, up: seq<bool>, src: nat, e: Entry, now: Time)
    requires IsIfc(t, n, j) && |up| == |t.ifcs[n]| && up[j] && t.ifcs[n][j].peerNode == src
    requires FindVip(t.ifcs[n], t.ifcs[n][j].localVip) == j
    requires EntryOk(t, src, e) && Usable(Vips(t.ifcs[n]), e)
    ensures RouteOk(t, n, up, e.address, Learned(e, t.ifcs[n][j].localVip, now))
  {
  }

  lemma ReceivedNodeOk(t: Topo, n: nat, j: nat, st: NodeState, m: Msg, now: Time)
    requires IsIfc(t, n, j) && |st.up| == |t.ifcs[n]| && st.up[j] && t.ifcs[n][j].peerNode == m.src
    requires FindVip(t.ifcs[n], t.ifcs[n][j].localVip) == j
    requires NodeOk(t, n, st, now) && MsgOk(t, m, now)
    ensures NodeOk(t, n, st.(table := Merge(st.table, Vips(t.ifcs[n]), m.entries, t.ifcs[n][j].localVip, now)), now)
  {
    var mine, hop := Vips(t.ifcs[n]), t.ifcs[n][j].localVip;
    var tab := Merge(st.table, mine, m.entries, hop, now);
    forall a | a in tab ensures RouteOk(t, n, st.up, a, tab[a]) && tab[a].ts <= now {
      MergeRoute(st.table, mine, m.entries, hop, now, a);
      if !(a in st.table && tab[a] == st.table[a]) {
        var k := LearnedEntry(mine, m.entries, hop, now, tab[a]);
        assert m.entries[k] in m.entries;
        LearnedRouteOk(t, n, j, st.up, m.src, m.entries[k], now);
      }
    }
    forall i | 0 <= i < |st.up| ensures t.ifcs[n][i].localVip in tab <==> st.up[i] {
      assert mine[i] in mine;
      MergeKeeps(st.table, mine, m.entries, hop, now, mine[i]);
    }
  }

  lemma DeliverInv(t: Topo, s: Net, m: Msg)
    requires WellFormed(t) && Inv(t, s) && Enabled(t, s, Deliver(m))
    ensures Inv(t, Next(t, s, Deliver(m)))
  {
    var n, j := ArrivesOn(t, s, m);
    assert MsgOk(t, m, s.now);
    ReceivedNodeOk(t, n, j, s.nodes[n], m, s.now);
    SetNodeInv(t, s, n, Received(t, s, m));
  }

  lemma RefreshInv(t: Topo, s: Net, n: nat)
    requires WellFormed(t) && Inv(t, s) && Enabled(t, s, Refresh(n))
    ensures Inv(t, Next(t, s, Refresh(n)))
  {
    var st' := Next(t, s, Refresh(n)).nodes[n];
    forall i | 0 <= i < |st'.up| ensures t.ifcs[n][i].localVip in st'.table <==> st'.up[i] {
      assert Vips(t.ifcs[n])[i] == t.ifcs[n][i].localVip;
    }
    SetNodeInv(t, s, n, st');
  }

  /** What stays after an interface went down leaves by another one. */
  lemma DownRouteOk(t: Topo, s: Net, n: nat, i: nat, a: uint32)
    requires WellFormed(t) && Inv(t, s) && Enabled(t, s, Down(n, i))
    requires var st' := Next(t, s, Down(n, i)).nodes[n]; a in st'.table
    ensures var st' := Next(t, s, Down(n, i)).nodes[n]; RouteOk(t, n, st'.up, a, st'.table[a])
  {
    FindVipOf(t, n, i);
    assert NodeOk(t, n, s.nodes[n], s.now) && RouteOk(t, n, s.nodes[n].up, a, s.nodes[n].table[a]);
  }

  lemma DownOwnOk(t: Topo, s: Net, n: nat, i: nat, k: nat)
    requires WellFormed(t) && Inv(t, s) && Enabled(t, s, Down(n, i)) && IsIfc(t, n, k)
    ensures var st' := Next(t, s, Down(n, i)).nodes[n]; t.ifcs[n][k].localVip in st'.table <==> st'.up[k]
  {
    var st, v := s.nodes[n], t.ifcs[n][k].localVip;
    FindVipOf(t, n, i);
    FindVipOf(t, n, k);
    assert NodeOk(t, n, st, s.now);
    if v in st.table {
      assert Vips(t.ifcs[n])[k] == v;
      assert RouteOk(t, n, st.up, v, st.table[v]);
    }
  }

  lemma DownInv(t: Topo, s: Net, n: nat, i: nat)
    requires WellFormed(t) && Inv(t, s) && Enabled(t, s, Down(n, i))
    ensures Inv(t, Next(t, s, Down(n, i)))
  {
    var st' := Next(t, s, Down(n, i)).nodes[n];
    forall a | a in st'.table ensures RouteOk(t, n, st'.up, a, st'.table[a]) && st'.table[a].ts <= s.now {
      DownRouteOk(t, s, n, i, a);
      assert NodeOk(t, n, s.nodes[n], s.now);
    }
    forall k | 0 <= k < |st'.up| ensures t.ifcs[n][k].localVip in st'.table <==> st'.up[k] {
      DownOwnOk(t, s, n, i, k);
    }
    SetNodeInv(t, s, n, st');
  }

  lemma UpInv(t: Topo, s: Net, n: nat, i: nat)
    requires WellFormed(t) && Inv(t, s) && Enabled(t, s, Up(n, i))
    ensures Inv(t, Next(t, s, Up(n, i)))
  {
    var st, st', vip := s.nodes[n], Next(t, s, Up(n, i)).nodes[n], t.ifcs[n][i].localVip;
    FindVipOf(t, n, i);
    assert Vips(t.ifcs[n])[i] == vip;
    forall a | a in st'.table ensures RouteOk(t, n, st'.up, a, st'.table[a]) && st'.table[a].ts <= s.now {
      if a != vip { assert RouteOk(t, n, st.up, a, st.table[a]); }
    }
    forall k | 0 <= k < |st'.up| ensures t.ifcs[n][k].localVip in st'.table <==> st'.up[k] {
      FindVipOf(t, n, k);
    }
    SetNodeInv(t, s, n, st');
  }

  lemma StepInv(t: Topo, s: Net, ev: Event)
    requires WellFormed(t) && Inv(t, s) && Enabled(t, s, ev)
    ensures Inv(t, Next(t, s, ev))
  {
    match ev
    case Send(n, i) => SendInv(t, s, n, i);
    case Deliver(m) => DeliverInv(t, s, m);
    case Refresh(n) => RefreshInv(t, s, n);
    case Down(n, i) => DownInv(t, s, n, i);
    case Up(n, i) => UpInv(t, s, n, i);
    case Tick(d) =>
      var s' := Next(t, s, ev);
      forall n | 0 <= n < |s'.nodes| ensures NodeOk(t, n, s'.nodes[n], s'.now) {
        assert NodeOk(t, n, s.nodes[n], s.now);
      }
  }

  lemma {:induction false} ReachableInv(t: Topo, r: Run, k: nat)
    requires ValidRun(t, r) && k < |r.states|
    ensures Inv(t, r.states[k])
  {
    if k == 0 {
      InitInv(t, r.states[0]);
    } else {
      ReachableInv(t, r, k - 1);
      assert StepAt(t, r, k - 1);
      StepInv(t, r.states[k - 1], r.events[k - 1]);
    }
  }
}
