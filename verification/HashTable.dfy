/** The chained hash table of htable.c as a map from identifiers to data pointers. */
module HashTableModel {
  import opened Words
  import opened LinkedRing

  lemma Smaller<T>(m: map<nat, T>, id: nat)
    requires id in m
    ensures |m - {id}| == |m| - 1
  {
    assert (m - {id}).Keys == m.Keys - {id};
    assert |m.Keys - {id}| == |m.Keys| - 1;
  }

  class HashTable<D> {
    /** `ht_hash`: one list for each bucket. */
    var buckets: seq<Ring<D>>
    /** `ht_size`. */
    var size: nat
    /** The node of each identifier, and the map the table stands for. */
    ghost var node: map<nat, Link<D>>
    ghost var contents: map<nat, Option<D>>
    ghost var repr: set<object>

    /** Bucket `b` is a ring of its own, and its nodes are the ones recorded for identifiers that hash to `b`. */
    ghost predicate BucketOk(b: nat)
      requires b < |buckets|
      reads this, buckets[b], buckets[b].links
    {
      var r := buckets[b];
      && r.Valid()
      && (forall l :: l in r.links ==> l.home == r)
      && (forall l :: l in r.links && l != r.head ==> l.id % |buckets| == b && l.id in node && node[l.id] == l)
    }

    /** Identifier `id` is found at its node, in the bucket it hashes to. */
    ghost predicate NodeOk(id: nat)
      requires id in node && |buckets| > 0
      reads this, node[id], buckets[id % |buckets|]
    {
      var l, r := node[id], buckets[id % |buckets|];
      l in r.links && l != r.head && l.id == id && id in contents && contents[id] == l.data
    }

    ghost predicate Valid()
      reads this, repr
    {
      && |buckets| > 0 && this !in repr
      && (forall b :: 0 <= b < |buckets| ==> buckets[b] in repr)
      && (forall b, c :: 0 <= b < c < |buckets| ==> buckets[b] != buckets[c])
      && (forall b, l :: 0 <= b < |buckets| && l in buckets[b].links ==> l in repr)
      && (forall b {:trigger BucketOk(b)} :: 0 <= b < |buckets| ==> BucketOk(b))
      && (forall id :: id in node ==> node[id] in repr)
      && (forall id {:trigger NodeOk(id)} :: id in node ==> NodeOk(id))
      && contents.Keys == node.Keys && size == |contents|
    }

    /** `htable_init`. */
    constructor (cap: nat)
      requires cap > 0
      ensures Valid() && fresh(repr) && |buckets| == cap && contents == map[]
    {
      buckets, node, contents, repr, size := [], map[], map[], {}, 0;
      new;
      for i := 0 to cap
        invariant |buckets| == i && node == map[] && contents == map[] && size == 0
        invariant fresh(repr) && this !in repr
        invariant forall b :: 0 <= b < i ==> buckets[b] in repr && buckets[b].head in repr
        invariant forall b, c :: 0 <= b < c < i ==> buckets[b] != buckets[c]
        invariant forall b :: 0 <= b < i ==> buckets[b].Valid() && buckets[b].links == [buckets[b].head]
      {
        var r := new Ring<D>();
        buckets, repr := buckets + [r], repr + {r, r.head};
      }
      forall b | 0 <= b < |buckets| ensures BucketOk(b) {
        assert buckets[b].LinkOk(0);
      }
    }

    /** `__htable_lookup`: walks the ring of the identifier's bucket. */
    method Lookup(id: nat) returns (hn: Link?<D>)
      requires Valid()
      ensures hn == null <==> id !in contents
      ensures hn != null ==> id in node && hn == node[id]
    {
      var r := buckets[id % |buckets|];
      assert BucketOk(id % |buckets|);
      var link := r.head.next;
      ghost var n, p := |r.links|, 1;
      assert r.LinkOk(0) && (p < n ==> r.LinkOk(p));
      while link != r.head
        invariant 1 <= p <= n
        invariant p < n ==> link == r.links[p]
        invariant p == n <==> link == r.head
        invariant forall q :: 1 <= q < p ==> r.links[q].id != id
        decreases n - p
      {
        assert r.LinkOk(p);
        var next := link.next;
        if link.id == id { return link; }
        link, p := next, p + 1;
        assert p < n ==> r.LinkOk(p);
      }
      assert id in node ==> NodeOk(id);
      return null;
    }

    /** `htable_get`: the stored pointer, which may be null, or null. */
    method Get(id: nat) returns (r: Option<D>)
      requires Valid()
      ensures r == if id in contents then contents[id] else None
    {
      var hn := Lookup(id);
      if hn != null {
        assert NodeOk(id);
        return hn.data;
      }
      return None;
    }

    /** Bucket `c` has not been touched, except perhaps for the data pointers. */
    twostate predicate SameLinks(new c: nat)
      requires c < |buckets|
      reads this, buckets[c], buckets[c].links
    {
      && c < |old(buckets)| && buckets[c] == old(buckets[c]) && buckets[c].links == old(buckets[c].links)
      && forall l :: l in buckets[c].links ==>
           && l.next == old(l.next) && l.prev == old(l.prev) && l.live == old(l.live) && l.home == old(l.home)
           && l.id == old(l.id)
    }

    /** Bucket `c` has not been touched. */
    twostate predicate SameBucket(new c: nat)
      requires c < |buckets|
      reads this, buckets[c], buckets[c].links
    {
      SameLinks(c) && forall l :: l in buckets[c].links ==> l.data == old(l.data)
    }

    /** An untouched bucket stays good while the nodes recorded for it stay recorded. */
    twostate lemma KeepsBucket(new c: nat)
      requires old(Valid()) && c < |buckets| == |old(buckets)|
      requires SameLinks(c)
      requires forall k :: k in old(node) && k % |buckets| == c ==> k in node && node[k] == old(node)[k]
      ensures BucketOk(c)
    {
      assert old(BucketOk(c));
      var r := buckets[c];
      forall p | 0 <= p < |r.links| ensures r.LinkOk(p) {
        assert old(r.LinkOk(p));
      }
    }

    /** Nothing but bucket `b` has been touched, and there no identifier, pointer or home changed. */
    twostate predicate OnlyBucket(new b: nat)
      requires old(Valid()) && b < |old(buckets)|
      reads *
    {
      && buckets == old(buckets)
      && (forall c :: 0 <= c < |buckets| && c != b ==> SameBucket(c))
      && buckets[b].Valid()
      && forall l :: l in old(buckets[b].links) && l in buckets[b].links ==>
           l.id == old(l.id) && l.data == old(l.data) && l.home == old(l.home)
    }

    /** The new node `hn` is recorded and stands second in the ring of its bucket. */
    twostate predicate Grown(new b: nat, new hn: Link<D>)
      requires old(Valid()) && b < |old(buckets)|
      reads *
    {
      && OnlyBucket(b) && hn.home == buckets[b] && hn.id % |buckets| == b
      && buckets[b].links == WithSecond(old(buckets[b].links), hn)
      && node == old(node)[hn.id := hn] && contents == old(contents)[hn.id := hn.data]
      && repr == old(repr) + {hn} && size == old(size) + 1
    }

    twostate lemma GrownBuckets(new b: nat, new hn: Link<D>)
      requires old(Valid()) && b < |old(buckets)| && hn !in old(repr) && hn.id !in old(node)
      requires Grown(b, hn)
      ensures forall c {:trigger BucketOk(c)} :: 0 <= c < |buckets| ==> BucketOk(c)
      ensures forall c, l :: 0 <= c < |buckets| && l in buckets[c].links ==> l in repr
    {
      assert old(BucketOk(b));
      forall c | 0 <= c < |buckets| && c != b ensures BucketOk(c) {
        assert SameBucket(c);
        KeepsBucket(c);
      }
      forall c, l | 0 <= c < |buckets| && l in buckets[c].links ensures l in repr {
        assert c != b ==> SameBucket(c);
      }
    }

    twostate lemma GrownNodes(new b: nat, new hn: Link<D>)
      requires old(Valid()) && b < |old(buckets)| && hn !in old(repr) && hn.id !in old(node)
      requires Grown(b, hn)
      ensures forall id {:trigger NodeOk(id)} :: id in node ==> NodeOk(id)
    {
      assert old(BucketOk(b));
      forall id | id in node ensures NodeOk(id) {
        if id != hn.id {
          assert old(NodeOk(id));
          if id % |buckets| != b { assert SameBucket(id % |buckets|); }
        }
      }
    }

    /** Links a node in at the front of its bucket. */
    method LinkIn(b: nat, hn: Link<D>)
      requires Valid() && hn !in repr && hn.live && b == hn.id % |buckets|
      modifies this, repr, hn
      ensures hn.id == old(hn.id) && hn.data == old(hn.data) && Grown(b, hn)
    {
      node, contents, repr, size := node[hn.id := hn], contents[hn.id := hn.data], repr + {hn}, size + 1;
      assert old(BucketOk(b));
      buckets[b].InsertHead(hn);
      forall c | 0 <= c < |buckets| && c != b ensures SameBucket(c) {
        assert old(BucketOk(c));
      }
    }

    /** Allocates a node and links it in. */
    method Insert(id: nat, data: Option<D>)
      requires Valid() && id !in node
      modifies this, repr
      ensures Valid()
      ensures fresh(repr - old(repr)) && buckets == old(buckets)
      ensures contents == old(contents)[id := data]
    {
      var hn := new Link<D>(id);
      hn.data := data;
      label Linking:
      LinkIn(id % |buckets|, hn);
      GrownBuckets@Linking(id % |buckets|, hn);
      GrownNodes@Linking(id % |buckets|, hn);
    }

    twostate lemma DataNodes(new id: nat)
      requires old(Valid()) && id in old(node) && buckets == old(buckets) && node == old(node)
      requires forall c :: 0 <= c < |buckets| ==> SameLinks(c)
      requires contents == old(contents)[id := node[id].data]
      requires forall l :: l in old(repr) && l is Link<D> && l != node[id] ==>
        (l as Link<D>).data == old((l as Link<D>).data)
      ensures forall k {:trigger NodeOk(k)} :: k in node ==> NodeOk(k)
    {
      forall k | k in node ensures NodeOk(k) {
        assert old(NodeOk(k)) && old(NodeOk(id));
        assert SameLinks(k % |buckets|);
      }
    }

    /** `hn->hn_data = data`. */
    method SetData(id: nat, hn: Link<D>, data: Option<D>)
      requires Valid() && id in node && hn == node[id]
      modifies hn`data, this`contents
      ensures Valid()
      ensures contents == old(contents)[id := data]
    {
      hn.data := data;
      contents := contents[id := data];
      forall c | 0 <= c < |buckets| ensures BucketOk(c) {
        KeepsBucket(c);
      }
      DataNodes(id);
    }

    /** `htable_put`: overwrites the node's pointer, or links a new node in; returns the old pointer or null. */
    method Put(id: nat, data: Option<D>) returns (r: Option<D>)
      requires Valid()
      modifies this, repr
      ensures Valid()
      ensures fresh(repr - old(repr)) && buckets == old(buckets)
      ensures contents == old(contents)[id := data]
      ensures r == if id in old(contents) then old(contents)[id] else None
    {
      var hn := Lookup(id);
      if hn == null {
        Insert(id, data);
        r := None;
      } else {
        assert NodeOk(id);
        r := hn.data;
        SetData(id, hn, data);
      }
    }

    // ------------------------------------------------------------ removing

    /** The node that stood at position `p` of bucket `b` is gone, from the ring and from the record. */
    twostate predicate Shrunk(new b: nat, new p: nat)
      requires old(Valid()) && b < |old(buckets)| && 0 < p < |old(buckets[b].links)|
      reads *
    {
      var hn := old(buckets[b].links[p]);
      && OnlyBucket(b) && buckets[b].links == Without(old(buckets[b].links), p)
      && node == old(node) - {old(hn.id)} && contents == old(contents) - {old(hn.id)}
      && repr == old(repr) - {hn} && size == old(size) - 1
    }

    twostate lemma ShrunkBuckets(new b: nat, new p: nat)
      requires old(Valid()) && b < |old(buckets)| && 0 < p < |old(buckets[b].links)|
      requires Shrunk(b, p)
      ensures forall c {:trigger BucketOk(c)} :: 0 <= c < |buckets| ==> BucketOk(c)
      ensures forall c, l :: 0 <= c < |buckets| && l in buckets[c].links ==> l in repr
    {
      assert old(BucketOk(b));
      forall c | 0 <= c < |buckets| && c != b ensures BucketOk(c) {
        assert SameBucket(c);
        KeepsBucket(c);
      }
      forall c, l | 0 <= c < |buckets| && l in buckets[c].links ensures l in repr {
        assert c != b ==> SameBucket(c) && BucketOk(c);
      }
    }

    twostate lemma ShrunkNodes(new b: nat, new p: nat)
      requires old(Valid()) && b < |old(buckets)| && 0 < p < |old(buckets[b].links)|
      requires Shrunk(b, p)
      ensures forall id {:trigger NodeOk(id)} :: id in node ==> NodeOk(id)
      ensures forall id :: id in node ==> node[id] in repr
    {
      assert old(BucketOk(b));
      forall id | id in node ensures NodeOk(id) && node[id] in repr {
        assert old(NodeOk(id));
        if id % |buckets| != b { assert SameBucket(id % |buckets|); }
      }
    }

    method LinkOut(ghost b: nat, ghost p: nat, ring: Ring<D>, hn: Link<D>)
      requires Valid() && b < |buckets| && 0 < p < |buckets[b].links| && ring == buckets[b] && hn == ring.links[p]
      requires size > 0
      modifies this, repr
      ensures Shrunk(b, p)
    {
      assert old(BucketOk(b));
      node, contents, repr, size := node - {hn.id}, contents - {hn.id}, repr - {hn}, size - 1;
      ring.Remove(hn, p);
      forall c | 0 <= c < |buckets| && c != b ensures SameBucket(c) {
        assert old(BucketOk(c));
      }
    }

    /** Takes the node `hn` at position `p` of bucket `b` out of the table and frees it. */
    method TakeOut(ghost b: nat, ghost p: nat, ring: Ring<D>, hn: Link<D>)
      requires Valid() && b < |buckets| && 0 < p < |buckets[b].links| && ring == buckets[b] && hn == ring.links[p]
      modifies this, repr
      ensures Valid()
      ensures Shrunk(b, p)
    {
      ghost var m, id := contents, hn.id;
      assert BucketOk(b);
      Smaller(m, id);
      LinkOut(b, p, ring, hn);
      ShrunkBuckets(b, p);
      ShrunkNodes(b, p);
    }

    /** `htable_remove`: returns the pointer of the node it takes out, or null. */
    method Remove(id: nat) returns (r: Option<D>)
      requires Valid()
      modifies this, repr
      ensures Valid()
      ensures repr <= old(repr) && buckets == old(buckets)
      ensures contents == old(contents) - {id}
      ensures r == if id in old(contents) then old(contents)[id] else None
    {
      var hn := Lookup(id);
      if hn == null {
        assert contents == contents - {id};
        return None;
      }
      assert NodeOk(id);
      r := hn.data;
      var ring := buckets[id % |buckets|];
      assert BucketOk(id % |buckets|);
      ghost var p :| 0 <= p < |ring.links| && ring.links[p] == hn;
      TakeOut(id % |buckets|, p, ring, hn);
    }

    // ------------------------------------------------------------ iterating

    /** The nodes of bucket `b` from position `p` on carry the identifiers `ids`. */
    ghost predicate Carries(b: nat, p: nat, ids: seq<nat>)
      requires b < |buckets|
      reads this, buckets[b], buckets[b].links
    {
      var ls := buckets[b].links;
      p + |ids| == |ls| && forall j :: 0 <= j < |ids| ==> ls[p + j].id == ids[j]
    }

    /** The identifiers of the links from position `p` on. */
    static ghost function IdsFrom(ls: seq<Link<D>>, p: nat): (ids: seq<nat>)
      requires p <= |ls|
      reads ls
      ensures p + |ids| == |ls| && forall j :: 0 <= j < |ids| ==> ids[j] == ls[p + j].id
      decreases |ls| - p
    {
      if p == |ls| then [] else [ls[p].id] + IdsFrom(ls, p + 1)
    }

    /** The identifiers in each of the first `k` buckets. */
    ghost function IdLists(k: nat): (ids: seq<seq<nat>>)
      requires Valid() && k <= |buckets|
      reads this, repr
      ensures |ids| == k && forall b :: 0 <= b < k ==> Carries(b, 1, ids[b])
    {
      if k == 0 then []
      else
        assert BucketOk(k - 1);
        IdLists(k - 1) + [IdsFrom(buckets[k - 1].links, 1)]
    }

    /** The buckets from `i` on carry the identifiers listed in `ids`. */
    ghost predicate Waiting(i: nat, ids: seq<seq<nat>>)
      requires Valid()
      reads this, repr
    {
      |ids| == |buckets| && forall c {:trigger Carries(c, 1, ids[c])} :: i <= c < |buckets| ==> Carries(c, 1, ids[c])
    }

    /** Every identifier is listed once, in the bucket it hashes to. */
    lemma ListsOnce(ids: seq<seq<nat>>)
      requires Valid() && Waiting(0, ids)
      ensures Partition(ids, contents.Keys)
    {
      forall b, j | 0 <= b < |ids| && 0 <= j < |ids[b]| ensures ids[b][j] % |ids| == b && ids[b][j] in contents.Keys {
        assert BucketOk(b) && Carries(b, 1, ids[b]);
        assert buckets[b].links[1 + j] in buckets[b].links;
      }
      forall b | 0 <= b < |ids| ensures Distinct(ids[b]) {
        assert BucketOk(b) && Carries(b, 1, ids[b]);
        var ls := buckets[b].links;
        forall j, k | 0 <= j < k < |ids[b]| ensures ids[b][j] != ids[b][k] {
          assert ls[1 + j] in ls && ls[1 + k] in ls && ls[1 + j] != ls[1 + k];
        }
      }
      forall id | id in contents ensures id in ids[id % |ids|] {
        assert NodeOk(id);
        var b := id % |ids|;
        assert BucketOk(b) && Carries(b, 1, ids[b]);
        var p :| 0 <= p < |buckets[b].links| && buckets[b].links[p] == node[id];
        assert ids[b][p - 1] == id;
      }
    }

    lemma ListIds() returns (ids: seq<seq<nat>>)
      requires Valid()
      ensures Waiting(0, ids) && Partition(ids, contents.Keys)
    {
      ids := IdLists(|buckets|);
      ListsOnce(ids);
    }

    /** Taking out the node at position `p` leaves the identifiers after it, and those of other buckets, in place. */
    twostate lemma ShrunkCarries(new b: nat, new p: nat, new c: nat, new ids: seq<nat>)
      requires old(Valid()) && b < |old(buckets)| && 0 < p < |old(buckets[b].links)|
      requires Shrunk(b, p) && c < |buckets|
      ensures c == b && old(Carries(b, p, ids)) && ids != [] ==> Carries(b, p, ids[1..])
      ensures c != b && old(Carries(c, 1, ids)) ==> Carries(c, 1, ids)
    {
      assert c != b ==> SameBucket(c);
      assert old(BucketOk(b));
      var ls, ls' := old(buckets[b].links), buckets[b].links;
      forall k | p <= k < |ls'| ensures ls'[k] == ls[k + 1] && ls'[k].id == old(ls[k + 1].id) {
        assert ls'[k] in ls' && ls[k + 1] in ls;
      }
    }

    /** One turn of the loop over bucket `i`, at the node `link` in position `p`. */
    method Visit(i: nat, ghost p: nat, ring: Ring<D>, link: Link<D>, drop: set<nat>, ghost ids: seq<seq<nat>>,
                 ghost rest: seq<nat>)
      returns (key: nat, next: Link<D>, ghost p': nat)
      requires Valid() && i < |buckets| == |ids| && ring == buckets[i] && 0 < p < |ring.links| && link == ring.links[p]
      requires Carries(i, p, rest) && Waiting(i + 1, ids)
      modifies this, repr
      ensures Valid()
      ensures repr <= old(repr) && buckets == old(buckets) && 0 < p' <= |ring.links|
      ensures Carries(i, p', rest[1..]) && Waiting(i + 1, ids)
      ensures (p' == |ring.links| <==> next == ring.head) && (p' < |ring.links| ==> next == ring.links[p'])
      ensures key == rest[0]
      ensures contents == old(contents) - (if rest[0] in drop then {rest[0]} else {})
    {
      assert BucketOk(i);
      assert ring.LinkOk(p) && link in ring.links && link.id == rest[0];
      next, key := link.next, link.id;
      if key in drop {
        p' := p;
        TakeOut(i, p, ring, link);
        ShrunkCarries(i, p, i, rest);
        forall c | i < c < |buckets| ensures Carries(c, 1, ids[c]) {
          ShrunkCarries(i, p, c, ids[c]);
        }
      } else {
        p' := p + 1;
        assert contents == contents - {};
      }
    }

    /** `list_iterate_begin` over bucket `i`. */
    method IterateBucket(i: nat, drop: set<nat>, ghost ids: seq<seq<nat>>) returns (visited: seq<nat>)
      requires Valid() && i < |buckets|
      requires Waiting(i, ids)
      modifies this, repr
      ensures Valid()
      ensures repr <= old(repr) && buckets == old(buckets)
      ensures Waiting(i + 1, ids)
      ensures visited == ids[i] && contents == old(contents) - Dropped(visited, drop)
    {
      var ring := buckets[i];
      visited := [];
      ghost var p, rest := 1, ids[i];
      assert BucketOk(i);
      assert Carries(i, 1, ids[i]) && ring.LinkOk(0);
      var link := ring.head.next;
      while link != ring.head
        invariant Valid() && repr <= old(repr) && buckets == old(buckets)
        invariant Waiting(i + 1, ids)
        invariant 0 < p <= |ring.links| && Carries(i, p, rest)
        invariant (p == |ring.links| <==> link == ring.head) && (p < |ring.links| ==> link == ring.links[p])
        invariant Splits(visited, rest, ids[i])
        invariant contents == old(contents) - Dropped(visited, drop)
        decreases |rest|
      {
        var key;
        key, link, p := Visit(i, p, ring, link, drop, ids, rest);
        DropOne(old(contents), visited, drop, key);
        Advance(visited, rest, ids[i]);
        visited, rest := visited + [key], rest[1..];
      }
    }

    /**
     `htable_iterate_begin`: the body, for each identifier it is given, takes the current node out of the table
     and frees it if the identifier is in `drop`. Every identifier present at the start is visited exactly once.
     */
    method Iterate(drop: set<nat>) returns (visited: seq<nat>)
      requires Valid()
      modifies this, repr
      ensures Valid()
      ensures Distinct(visited) && forall id :: id in visited <==> id in old(contents)
      ensures contents == old(contents) - drop
    {
      ghost var m := contents;
      ghost var ids := ListIds();
      visited := [];
      for i := 0 to |buckets|
        invariant Valid() && repr <= old(repr) && buckets == old(buckets)
        invariant Waiting(i, ids)
        invariant visited + Flat(ids, i) == Flat(ids, 0)
        invariant contents == m - Dropped(visited, drop)
      {
        var more := IterateBucket(i, drop, ids);
        DropMore(m, visited, more, drop);
        FlatStep(ids, i, visited);
        visited := visited + more;
      }
      assert visited == Flat(ids, 0);
      FlatOnce(ids, m.Keys, 0);
      AllVisited(ids, m, visited, drop);
    }

    // ------------------------------------------------------------ destroying

    ghost function AllLinks(): set<Link<D>>
      reads this, buckets
    {
      set r, l | r in buckets && l in r.links :: l
    }

    ghost predicate NodesFreed(b: nat)
      requires b < |buckets|
      reads this, buckets[b], buckets[b].links
    {
      var r := buckets[b];
      |r.links| > 0 && r.head == r.links[0] && r.head.live && forall p :: 0 < p < |r.links| ==> !r.links[p].live
    }

    /** No link is in two buckets. */
    lemma Apart()
      requires Valid()
      ensures Separate() && forall b :: 0 <= b < |buckets| ==> Untouched(b)
    {
      forall b, c, l | 0 <= b < |buckets| && 0 <= c < |buckets| && b != c && l in buckets[b].links
        ensures l !in buckets[c].links
      {
        assert BucketOk(b) && BucketOk(c);
      }
      forall b | 0 <= b < |buckets| ensures Untouched(b) { assert BucketOk(b); }
    }

    ghost predicate Separate()
      reads this, buckets
    {
      forall b, c, l {:trigger l in buckets[b].links, l in buckets[c].links} ::
        0 <= b < |buckets| && 0 <= c < |buckets| && b != c && l in buckets[b].links ==> l !in buckets[c].links
    }

    ghost predicate Untouched(b: nat)
      requires b < |buckets|
      reads this, buckets[b], buckets[b].links
    {
      buckets[b].Valid()
    }

    ghost predicate Gone(b: nat)
      requires b < |buckets|
      reads this, buckets[b], buckets[b].links
    {
      forall l :: l in buckets[b].links ==> !l.live
    }

    /** A bucket none of whose links was freed in between is as it was. */
    twostate lemma StillTheSame(new b: nat)
      requires b < |old(buckets)| && buckets == old(buckets) && buckets[b].links == old(buckets[b].links)
      requires forall l :: l in buckets[b].links ==>
        l.live == old(l.live) && l.next == old(l.next) && l.prev == old(l.prev) && l.home == old(l.home)
      ensures old(Untouched(b)) ==> Untouched(b)
      ensures old(NodesFreed(b)) ==> NodesFreed(b)
      ensures old(Gone(b)) ==> Gone(b)
    {
      var r := buckets[b];
      if old(Untouched(b)) {
        forall p | 0 <= p < |r.links| ensures r.LinkOk(p) { assert old(r.LinkOk(p)); }
      }
      if old(NodesFreed(b)) {
        forall p | 0 < p < |r.links| ensures !r.links[p].live { assert r.links[p] in r.links; }
      }
    }

    /** Frees the nodes of bucket `i`; no other bucket is touched. */
    method FreeBucket(i: nat)
      requires i < |buckets| && Separate() && Untouched(i)
      modifies buckets[i].links`live
      ensures NodesFreed(i)
      ensures forall b :: 0 <= b < |buckets| && b != i ==>
        (old(Untouched(b)) ==> Untouched(b)) && (old(NodesFreed(b)) ==> NodesFreed(b))
    {
      buckets[i].FreeNodes();
      forall b | 0 <= b < |buckets| && b != i
        ensures (old(Untouched(b)) ==> Untouched(b)) && (old(NodesFreed(b)) ==> NodesFreed(b))
      {
        forall l | l in buckets[b].links ensures l !in buckets[i].links {}
        StillTheSame(b);
      }
    }

    /** Frees the head of bucket `i`, whose nodes are freed already. */
    method FreeHead(i: nat)
      requires i < |buckets| && Separate() && NodesFreed(i)
      modifies buckets[i].links`live
      ensures Gone(i)
      ensures forall b :: 0 <= b < |buckets| && b != i ==>
        (old(NodesFreed(b)) ==> NodesFreed(b)) && (old(Gone(b)) ==> Gone(b))
    {
      Free(buckets[i].head);
      forall b | 0 <= b < |buckets| && b != i
        ensures (old(NodesFreed(b)) ==> NodesFreed(b)) && (old(Gone(b)) ==> Gone(b))
      {
        forall l | l in buckets[b].links ensures l !in buckets[i].links {}
        StillTheSame(b);
      }
    }

    /** `htable_destroy`: frees every node, then the list heads; each of them is freed exactly once. */
    method Destroy()
      requires Valid()
      modifies AllLinks()`live
      ensures forall b :: 0 <= b < |buckets| ==> Gone(b)
    {
      Apart();
      for i := 0 to |buckets|
        invariant forall b :: 0 <= b < i ==> NodesFreed(b)
        invariant forall b :: i <= b < |buckets| ==> Untouched(b)
      {
        assert forall l :: l in buckets[i].links ==> buckets[i] in old(buckets) && l in old(AllLinks());
        FreeBucket(i);
      }
      for i := 0 to |buckets|
        invariant forall b :: 0 <= b < i ==> Gone(b)
        invariant forall b :: i <= b < |buckets| ==> NodesFreed(b)
      {
        assert forall l :: l in buckets[i].links ==> buckets[i] in old(buckets) && l in old(AllLinks());
        FreeHead(i);
      }
    }
  }

  ghost function Dropped(visited: seq<nat>, drop: set<nat>): set<nat> {
    set id | id in visited && id in drop
  }

  /** `all` is what has been visited followed by what is left. */
  ghost predicate Splits(visited: seq<nat>, rest: seq<nat>, all: seq<nat>)
    ensures Splits(visited, rest, all) && rest == [] ==> visited == all
    ensures visited == [] && rest == all ==> Splits(visited, rest, all)
  {
    visited + rest == all
  }

  lemma Advance(visited: seq<nat>, rest: seq<nat>, all: seq<nat>)
    requires Splits(visited, rest, all) && rest != []
    ensures Splits(visited + [rest[0]], rest[1..], all)
  {
    assert rest == [rest[0]] + rest[1..];
  }

  lemma DropOne<T>(m: map<nat, T>, visited: seq<nat>, drop: set<nat>, id: nat)
    ensures m - Dropped(visited + [id], drop) == (m - Dropped(visited, drop)) - (if id in drop then {id} else {})
  {
  }

  lemma DropMore<T>(m: map<nat, T>, visited: seq<nat>, more: seq<nat>, drop: set<nat>)
    ensures m - Dropped(visited + more, drop) == (m - Dropped(visited, drop)) - Dropped(more, drop)
  {
  }

  lemma AllVisited<T>(ids: seq<seq<nat>>, m: map<nat, T>, visited: seq<nat>, drop: set<nat>)
    requires Partition(ids, m.Keys) && visited == Flat(ids, 0)
    ensures forall id :: id in visited <==> id in m
    ensures m - Dropped(visited, drop) == m - drop
  {
    forall id ensures id in visited <==> id in m {
      FlatMembers(ids, m.Keys, 0, id);
    }
  }

  /** The lists `ids` hold exactly `keys`, each once, in the list it hashes to. */
  ghost predicate Partition(ids: seq<seq<nat>>, keys: set<nat>) {
    && |ids| > 0
    && (forall b :: 0 <= b < |ids| ==> Distinct(ids[b]))
    && (forall b, j :: 0 <= b < |ids| && 0 <= j < |ids[b]| ==> ids[b][j] % |ids| == b && ids[b][j] in keys)
    && (forall id :: id in keys ==> id in ids[id % |ids|])
  }

  /** The identifiers from list `b` on, in order. */
  ghost function Flat(ids: seq<seq<nat>>, b: nat): seq<nat>
    requires b <= |ids|
    decreases |ids| - b
  {
    if b == |ids| then [] else ids[b] + Flat(ids, b + 1)
  }

  lemma FlatStep(ids: seq<seq<nat>>, b: nat, before: seq<nat>)
    requires b < |ids|
    ensures before + Flat(ids, b) == (before + ids[b]) + Flat(ids, b + 1)
  {
  }

  lemma ListMembers(ids: seq<seq<nat>>, keys: set<nat>, b: nat, id: nat)
    requires Partition(ids, keys) && b < |ids|
    ensures id in ids[b] <==> id in keys && id % |ids| == b
  {
    if id in ids[b] {
      var j :| 0 <= j < |ids[b]| && ids[b][j] == id;
    }
  }

  lemma {:induction false} FlatMembers(ids: seq<seq<nat>>, keys: set<nat>, b: nat, id: nat)
    requires Partition(ids, keys) && b <= |ids|
    ensures id in Flat(ids, b) <==> id in keys && id % |ids| >= b
    decreases |ids| - b
  {
    if b == |ids| {
    } else {
      FlatMembers(ids, keys, b + 1, id);
      ListMembers(ids, keys, b, id);
    }
  }

  /** Listed bucket by bucket, the keys of a table appear once each. */
  lemma {:induction false} FlatOnce(ids: seq<seq<nat>>, keys: set<nat>, b: nat)
    requires Partition(ids, keys) && b <= |ids|
    ensures Distinct(Flat(ids, b))
    decreases |ids| - b
  {
    if b == |ids| {
    } else {
      FlatOnce(ids, keys, b + 1);
      var rest := Flat(ids, b + 1);
      forall j, k | 0 <= j < |ids[b]| && 0 <= k < |rest| ensures ids[b][j] != rest[k] {
        FlatMembers(ids, keys, b + 1, rest[k]);
      }
    }
  }
}
