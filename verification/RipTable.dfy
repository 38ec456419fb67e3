/**
 The routing table of one node and what each protocol step does to it, as functions on values.
 The class in RipLayer.dfy is proved against these functions.
 */
module RipTable {
  import opened Words

  /** RIP_MAX_COST: "infinity" in a message, but an ordinary cost in a table. */
  const RIP_MAX_COST: uint32 := 16
  const RIP_MASK: uint32 := 0xFFFF_FFFF
  /** REFRESH_TIMER_VAL, in microseconds. */
  const REFRESH_LIMIT: int := 12_000_000

  datatype Entry = Entry(cost: uint32, address: uint32, mask: uint32)

  /** `struct entry_wts`: an entry, the local address of the interface it was learned on, and a timestamp. */
  datatype Route = Route(e: Entry, nextHop: uint32, ts: Time)

  type Table = map<uint32, Route>

  // ---------------------------------------------------------------- key order

  predicate IsMin(s: set<uint32>, m: uint32) {
    m in s && forall k :: k in s ==> m <= k
  }

  /** The smallest element; `std::map` iterates its keys in ascending order. */
  function MinKey(s: set<uint32>): (m: uint32)
    requires s != {}
    ensures IsMin(s, m)
  {
    MinKeyExists(s);
    var m :| IsMin(s, m);
    m
  }

  lemma {:induction false} MinKeyExists(s: set<uint32>)
    requires s != {}
    ensures exists m :: IsMin(s, m)
  {
    var x :| x in s;
    var rest := s - {x};
    assert forall k :: k in s ==> k == x || k in rest;
    if rest == {} {
      assert IsMin(s, x);
    } else {
      MinKeyExists(rest);
      var y :| IsMin(rest, y);
      assert IsMin(s, if x <= y then x else y);
    }
  }

  ghost predicate Ascending(r: seq<uint32>) {
    forall i, j :: 0 <= i < j < |r| ==> r[i] < r[j]
  }

  function SortedKeys(s: set<uint32>): (r: seq<uint32>)
    ensures Ascending(r) && |r| == |s|
    ensures forall i :: 0 <= i < |r| ==> r[i] in s
  {
    if s == {} then []
    else
      var m := MinKey(s);
      [m] + SortedKeys(s - {m})
  }

  /** No key is missing. */
  lemma {:induction false} KeyIndex(s: set<uint32>, k: uint32) returns (i: nat)
    requires k in s
    ensures i < |SortedKeys(s)| && SortedKeys(s)[i] == k
  {
    var m := MinKey(s);
    if k == m {
      i := 0;
    } else {
      var j := KeyIndex(s - {m}, k);
      i := j + 1;
    }
  }

  // ---------------------------------------------------------------- the steps

  /** `cost + 1` in a 32-bit word. */
  function SuccCost(c: uint32): uint32 {
    if c == 0xFFFF_FFFF then 0 else c + 1
  }

  function OwnRoute(vip: uint32, now: Time): Route {
    Route(Entry(0, vip, RIP_MASK), vip, now)
  }

  function Learned(e: Entry, hop: uint32, now: Time): Route {
    Route(Entry(SuccCost(e.cost), e.address, e.mask), hop, now)
  }

  /** Whether a received entry is considered at all by a node with local addresses `mine`. */
  predicate Usable(mine: seq<uint32>, e: Entry) {
    e.address !in mine && e.cost != RIP_MAX_COST
  }

  /** One iteration of the loop that processes a response. */
  function MergeOne(t: Table, mine: seq<uint32>, e: Entry, hop: uint32, now: Time): Table {
    if !Usable(mine, e) then t
    else if e.address !in t || t[e.address].e.cost > SuccCost(e.cost) then
      t[e.address := Learned(e, hop, now)]
    else t
  }

  function Merge(t: Table, mine: seq<uint32>, es: seq<Entry>, hop: uint32, now: Time): Table
  {
    if es == [] then t
    else MergeOne(Merge(t, mine, es[..|es| - 1], hop, now), mine, es[|es| - 1], hop, now)
  }

  /** What is said about one route on the interface with local address `vip`: poisoned reverse. */
  function Advert(r: Route, vip: uint32): Entry {
    if r.e.address != vip && vip == r.nextHop then r.e.(cost := RIP_MAX_COST) else r.e
  }

  function Advertise(t: Table, vip: uint32): (es: seq<Entry>)
    ensures |es| == |t|
  {
    var keys := SortedKeys(t.Keys);
    seq(|keys|, i requires 0 <= i < |keys| => Advert(t[keys[i]], vip))
  }

  /** The unsigned 64-bit difference `cur - ts`. */
  function Age(cur: Time, ts: Time): Time {
    if ts <= cur then cur - ts else cur - ts + 0x1_0000_0000_0000_0000
  }

  predicate Stale(mine: seq<uint32>, a: uint32, r: Route, cur: Time) {
    a !in mine && Age(cur, r.ts) > REFRESH_LIMIT
  }

  function Expire(t: Table, mine: seq<uint32>, cur: Time): Table {
    map a | a in t && !Stale(mine, a, t[a], cur) :: t[a]
  }

  function RemoveIfc(t: Table, vip: uint32): Table {
    map a | a in t && t[a].nextHop != vip && a != vip :: t[a]
  }

  // ---------------------------------------------------------------- what a merge does

  /** Every route is spoken of, in a message on any interface. */
  lemma AdvertOfKey(t: Table, vip: uint32, a: uint32)
    requires a in t
    ensures Advert(t[a], vip) in Advertise(t, vip)
  {
    var keys := SortedKeys(t.Keys);
    var i := KeyIndex(t.Keys, a);
    assert Advertise(t, vip)[i] == Advert(t[a], vip);
  }

  /** Every entry of a message speaks of a route. */
  lemma KeyOfAdvert(t: Table, vip: uint32, e: Entry) returns (a: uint32)
    requires e in Advertise(t, vip)
    ensures a in t && e == Advert(t[a], vip)
  {
    var keys := SortedKeys(t.Keys);
    var i :| 0 <= i < |keys| && Advertise(t, vip)[i] == e;
    a := keys[i];
  }

  /** `r` was learned from some usable entry of `es`: one link further, with its address and mask, here and now. */
  ghost predicate LearnedFrom(mine: seq<uint32>, es: seq<Entry>, hop: uint32, now: Time, r: Route) {
    exists i :: 0 <= i < |es| && Usable(mine, es[i])
      && r == Route(Entry(SuccCost(es[i].cost), es[i].address, es[i].mask), hop, now)
  }

  lemma LearnedEntry(mine: seq<uint32>, es: seq<Entry>, hop: uint32, now: Time, r: Route) returns (k: nat)
    requires LearnedFrom(mine, es, hop, now, r)
    ensures k < |es| && Usable(mine, es[k]) && r == Learned(es[k], hop, now)
  {
    k :| k < |es| && Usable(mine, es[k])
      && r == Route(Entry(SuccCost(es[k].cost), es[k].address, es[k].mask), hop, now);
  }

  /** A merge never forgets an address, never worsens its cost, and learns nothing about the node's own. */
  lemma {:induction false} MergeKeeps(t: Table, mine: seq<uint32>, es: seq<Entry>, hop: uint32, now: Time, a: uint32)
    ensures var r := Merge(t, mine, es, hop, now);
      && (a in t ==> a in r && r[a].e.cost <= t[a].e.cost)
      && (a in mine ==> (a in r <==> a in t) && (a in t ==> r[a] == t[a]))
  {
    if es == [] {
    } else {
      MergeKeeps(t, mine, es[..|es| - 1], hop, now, a);
    }
  }

  /** A merge changes a route only to a strictly cheaper one it just heard. */
  lemma {:induction false} MergeRoute(t: Table, mine: seq<uint32>, es: seq<Entry>, hop: uint32, now: Time, a: uint32)
    requires a in Merge(t, mine, es, hop, now)
    ensures var r := Merge(t, mine, es, hop, now)[a];
      || (a in t && r == t[a])
      || (a !in mine && r.e.address == a && LearnedFrom(mine, es, hop, now, r)
          && (a in t ==> r.e.cost < t[a].e.cost))
  {
    if es == [] {
    } else {
      var es' := es[..|es| - 1];
      var m, r := Merge(t, mine, es', hop, now), Merge(t, mine, es, hop, now)[a];
      MergeKeeps(t, mine, es', hop, now, a);
      if a in m {
        MergeRoute(t, mine, es', hop, now, a);
      }
      if a in m && r == m[a] {
        if !(a in t && r == t[a]) {
          var i := LearnedEntry(mine, es', hop, now, r);
          assert es[i] == es'[i];
        }
      } else {
        assert Usable(mine, es[|es| - 1]) && r == Learned(es[|es| - 1], hop, now);
      }
    }
  }

  /** After a merge every usable entry is matched by a route at least as cheap. */
  lemma {:induction false} MergeCovers(t: Table, mine: seq<uint32>, es: seq<Entry>, hop: uint32, now: Time, e: Entry)
    requires e in es && Usable(mine, e)
    ensures var r := Merge(t, mine, es, hop, now);
      e.address in r && r[e.address].e.cost <= SuccCost(e.cost)
  {
    var es' := es[..|es| - 1];
    assert es == es' + [es[|es| - 1]];
    if e in es' {
      MergeCovers(t, mine, es', hop, now, e);
    }
  }

  // ---------------------------------------------------------------- merging is a pointwise minimum

  /** One received response: its entries, the receiving interface and the time of reception. */
  datatype Response = Response(es: seq<Entry>, hop: uint32, now: Time)

  function MergeAll(t: Table, mine: seq<uint32>, rs: seq<Response>): Table {
    if rs == [] then t
    else
      var last := rs[|rs| - 1];
      Merge(MergeAll(t, mine, rs[..|rs| - 1]), mine, last.es, last.hop, last.now)
  }

  /**
   The entries `es` offer the foreign address `a` at cost `c`, counted from the receiver. An entry at cost 16 is no
   offer, but one at the largest 32-bit cost is, and wraps to 0.
   */
  ghost predicate OffersIn(mine: seq<uint32>, es: seq<Entry>, a: uint32, c: uint32) {
    exists e :: e in es && e.address !in mine && e.cost != 16 && e.address == a
      && c == if e.cost == 0xFFFF_FFFF then 0 else e.cost + 1
  }

  ghost predicate Offers(mine: seq<uint32>, rs: seq<Response>, a: uint32, c: uint32) {
    exists r :: r in rs && OffersIn(mine, r.es, a, c)
  }

  /** `c` is the least of the old cost of `a`, if any, and everything offered for it. */
  ghost predicate LeastCost(t: Table, mine: seq<uint32>, rs: seq<Response>, a: uint32, c: uint32) {
    && ((a in t && t[a].e.cost == c) || Offers(mine, rs, a, c))
    && (a in t ==> c <= t[a].e.cost)
    && (forall c' :: Offers(mine, rs, a, c') ==> c <= c')
  }

  /** One response: the same statement for a single merge. */
  lemma MergeIsMinimum(m: Table, mine: seq<uint32>, last: Response, a: uint32)
    ensures var r := Merge(m, mine, last.es, last.hop, last.now);
      && (a in r <==> a in m || exists c :: OffersIn(mine, last.es, a, c))
      && (a in r ==> (a in m && r[a].e.cost == m[a].e.cost) || OffersIn(mine, last.es, a, r[a].e.cost))
      && (a in m ==> r[a].e.cost <= m[a].e.cost)
      && (forall c :: OffersIn(mine, last.es, a, c) ==> a in r && r[a].e.cost <= c)
  {
    var r := Merge(m, mine, last.es, last.hop, last.now);
    MergeKeeps(m, mine, last.es, last.hop, last.now, a);
    forall c | OffersIn(mine, last.es, a, c) ensures a in r && r[a].e.cost <= c {
      var e :| e in last.es && e.address !in mine && e.cost != 16 && e.address == a && c == SuccCost(e.cost);
      MergeCovers(m, mine, last.es, last.hop, last.now, e);
    }
    if a in r {
      MergeRoute(m, mine, last.es, last.hop, last.now, a);
      if !(a in m && r[a] == m[a]) {
        var i := LearnedEntry(mine, last.es, last.hop, last.now, r[a]);
        assert last.es[i] in last.es;
        assert OffersIn(mine, last.es, a, r[a].e.cost);
      }
    }
  }

  /**
   The table after any sequence of responses: an address is known exactly if it was known or offered,
   and its cost is the least of the old one and all the offers. Order, repetition and batching do not occur
   in the statement, so they do not matter.
   */
  lemma {:induction false} MergeIsPointwiseMinimum(t: Table, mine: seq<uint32>, rs: seq<Response>, a: uint32)
    ensures var r := MergeAll(t, mine, rs);
      && (a in r <==> a in t || exists c :: Offers(mine, rs, a, c))
      && (a in r ==> LeastCost(t, mine, rs, a, r[a].e.cost))
  {
    if rs == [] {
      assert forall c :: !Offers(mine, rs, a, c);
    } else {
      var rs', last := rs[..|rs| - 1], rs[|rs| - 1];
      assert rs == rs' + [last];
      assert forall c :: Offers(mine, rs, a, c) <==> Offers(mine, rs', a, c) || OffersIn(mine, last.es, a, c);
      MergeIsPointwiseMinimum(t, mine, rs', a);
      MergeIsMinimum(MergeAll(t, mine, rs'), mine, last, a);
    }
  }

  function Costs(t: Table): map<uint32, uint32> {
    map a | a in t :: t[a].e.cost
  }

  /** Two histories making the same offers, in whatever order and grouping, leave the same costs. */
  lemma MergeOrderIrrelevant(t: Table, mine: seq<uint32>, rs: seq<Response>, rs': seq<Response>)
    requires forall a, c :: Offers(mine, rs, a, c) <==> Offers(mine, rs', a, c)
    ensures Costs(MergeAll(t, mine, rs)) == Costs(MergeAll(t, mine, rs'))
  {
    var r, r' := MergeAll(t, mine, rs), MergeAll(t, mine, rs');
    forall a ensures (a in r <==> a in r') && (a in r ==> r[a].e.cost == r'[a].e.cost) {
      MergeIsPointwiseMinimum(t, mine, rs, a);
      MergeIsPointwiseMinimum(t, mine, rs', a);
    }
  }

  // ---------------------------------------------------------------- poisoned entries

  function DropPoisoned(es: seq<Entry>): seq<Entry> {
    if es == [] then []
    else DropPoisoned(es[..|es| - 1]) + (if es[|es| - 1].cost == RIP_MAX_COST then [] else [es[|es| - 1]])
  }

  /** Telling a neighbour about a poisoned route has the same effect as not telling it: split horizon. */
  lemma {:induction false} PoisonIsSilence(t: Table, mine: seq<uint32>, es: seq<Entry>, hop: uint32, now: Time)
    ensures Merge(t, mine, es, hop, now) == Merge(t, mine, DropPoisoned(es), hop, now)
  {
    if es == [] {
    } else {
      var es', e := es[..|es| - 1], es[|es| - 1];
      PoisonIsSilence(t, mine, es', hop, now);
      var ds := DropPoisoned(es);
      if e.cost == RIP_MAX_COST {
        assert ds == DropPoisoned(es');
      } else {
        assert ds[..|ds| - 1] == DropPoisoned(es') && ds[|ds| - 1] == e;
      }
    }
  }
}
