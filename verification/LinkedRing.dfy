/** Circular doubly linked lists of list.h: a ring of links around a list head. */
module LinkedRing {
  import opened Words

  /**
   A list link together with the hash-table node that embeds it; a list head uses only the two pointers.
   The ghost fields name the ring the link is in and say whether it is still allocated.
   */
  class Link<D> {
    var next: Link?<D>
    var prev: Link?<D>
    var id: nat
    var data: Option<D>
    ghost var home: Ring?<D>
    ghost var live: bool

    constructor (id: nat)
      ensures this.id == id && data == None && home == null && live
    {
      next, prev, this.id, data, home, live := null, null, id, None, null, true;
    }
  }

  /** `list_insert_before`. */
  method InsertBefore<D>(old_: Link<D>, new_: Link<D>)
    requires old_.prev != null && new_ != old_ && new_ != old_.prev
    modifies new_`next, new_`prev, old_`prev, old_.prev`next
    ensures new_.next == old_ && new_.prev == old(old_.prev) && old_.prev == new_ && old(old_.prev).next == new_
  {
    new_.next := old_;
    new_.prev := old_.prev;
    old_.prev.next := new_;
    old_.prev := new_;
  }

  /** `list_remove`: the neighbours are joined and the link's own pointers cleared. */
  method Unlink<D>(ll: Link<D>)
    requires ll.prev != null && ll.next != null && ll.prev != ll && ll.next != ll
    modifies ll`next, ll`prev, ll.prev`next, ll.next`prev
    ensures old(ll.prev).next == old(ll.next) && old(ll.next).prev == old(ll.prev)
    ensures ll.next == null && ll.prev == null
  {
    var prev, next := ll.prev, ll.next;
    prev.next := next;
    next.prev := prev;
    ll.next, ll.prev := null, null;
  }

  /** `free`: legal once. */
  ghost method Free<D>(l: Link<D>)
    requires l.live
    modifies l`live
    ensures !l.live
  {
    l.live := false;
  }

  /** Following a link, which is legal only while it is allocated. */
  function Follow<D>(l: Link<D>): Link?<D>
    requires l.live
    reads l
  {
    l.next
  }

  function Succ(p: nat, n: nat): nat {
    if p + 1 == n then 0 else p + 1
  }

  function Pred(p: nat, n: nat): int {
    if p == 0 then n - 1 else p - 1
  }

  ghost predicate Distinct<T>(s: seq<T>) {
    forall p, q :: 0 <= p < q < |s| ==> s[p] != s[q]
  }

  ghost function Without<T>(s: seq<T>, p: nat): (r: seq<T>)
    requires p < |s|
    ensures |r| == |s| - 1 && forall q :: 0 <= q < |r| ==> r[q] == s[if q < p then q else q + 1]
    ensures Distinct(s) ==> Distinct(r)
    ensures Distinct(s) ==> (forall y :: y in r ==> y != s[p] && y in s) && (forall y :: y in s ==> y == s[p] || y in r)
  {
    assert s == s[..p] + [s[p]] + s[p + 1..];
    s[..p] + s[p + 1..]
  }

  ghost function WithSecond<T>(s: seq<T>, x: T): (r: seq<T>)
    ensures |s| > 0 ==>
      |r| == |s| + 1 && r[0] == s[0] && r[1] == x && forall q :: 2 <= q < |r| ==> r[q] == s[q - 1]
    ensures Distinct(s) && x !in s ==> Distinct(r)
    ensures x in r && (forall y :: y in r ==> y == x || y in s) && (forall y :: y in s ==> y in r)
  {
    if s == [] then [x] else
      assert s == [s[0]] + s[1..];
      [s[0], x] + s[1..]
  }

  class Ring<D> {
    const head: Link<D>
    /** The links in order, head first. */
    ghost var links: seq<Link<D>>

    ghost predicate LinkOk(p: nat)
      requires p < |links|
      reads this, links[p]
    {
      var l, n := links[p], |links|;
      l.next == links[Succ(p, n)] && l.prev == links[Pred(p, n)] && l.live && l.home == this
    }

    ghost predicate Valid()
      reads this, links
    {
      && |links| > 0 && links[0] == head && Distinct(links)
      && forall p {:trigger LinkOk(p)} :: 0 <= p < |links| ==> LinkOk(p)
    }

    /** `list_init`. */
    constructor ()
      ensures Valid() && fresh(head) && links == [head]
    {
      var h := new Link<D>(0);
      head, links := h, [h];
      new;
      h.next, h.prev, h.home := h, h, this;
    }

    /** `list_insert_head`. */
    method InsertHead(hn: Link<D>)
      requires Valid() && hn !in links && hn.live
      modifies this`links, links, hn
      ensures Valid() && links == WithSecond(old(links), hn)
      ensures hn.id == old(hn.id) && hn.data == old(hn.data) && hn.home == this
      ensures forall l :: l in old(links) ==> l.id == old(l.id) && l.data == old(l.data) && l.home == old(l.home)
    {
      ghost var n := |links|;
      assert LinkOk(0) && LinkOk(Succ(0, n));
      InsertBefore(head.next, hn);
      hn.home := this;
      links := WithSecond(links, hn);
      forall p | 0 <= p < |links| ensures LinkOk(p) {
        assert old(LinkOk(0)) && old(LinkOk(n - 1)) && (n > 1 ==> old(LinkOk(1)));
        if p > 1 { assert old(LinkOk(p - 1)); }
      }
    }

    /** The links to either side of position `p` have been joined. */
    twostate predicate Joined(new p: nat)
      requires old(Valid()) && 0 < p < |old(links)|
      reads *
    {
      var ls := old(links);
      var before, after := ls[p - 1], ls[Succ(p, |ls|)];
      forall l :: l in ls && l != ls[p] ==>
        && l.next == (if l == before then after else old(l.next))
        && l.prev == (if l == after then before else old(l.prev))
        && l.live == old(l.live) && l.home == old(l.home)
    }

    twostate lemma JoinedLinks(new p: nat)
      requires old(Valid()) && 0 < p < |old(links)|
      requires links == Without(old(links), p) && Joined(p)
      ensures forall q {:trigger LinkOk(q)} :: 0 <= q < |links| ==> LinkOk(q)
    {
      var ls, n := old(links), |old(links)|;
      forall q | 0 <= q < |links| ensures LinkOk(q) {
        var i := if q < p then q else q + 1;
        assert old(LinkOk(i)) && links[q] == ls[i] && ls[i] in ls;
      }
    }

    /**
     The loop of `htable_destroy` over one bucket: every node is freed once, and none is followed after that, as
     `Free` and `Follow` require an allocated link.
     */
    method FreeNodes()
      requires Valid()
      modifies links`live
      ensures head.live && forall p :: 0 < p < |links| ==> !links[p].live
    {
      assert LinkOk(0);
      var link := Follow(head);
      ghost var n, p := |links|, 1;
      assert p < n ==> LinkOk(p);
      forall q | 0 <= q < n ensures links[q].live { assert LinkOk(q); }
      while link != head
        invariant 0 < p <= n
        invariant (p == n <==> link == head) && (p < n ==> link == links[p])
        invariant head.live && (forall q :: 0 < q < p ==> !links[q].live) && (forall q :: p <= q < n ==> links[q].live)
        decreases n - p
      {
        assert old(LinkOk(p)) && (p + 1 < n ==> old(LinkOk(p + 1)));
        var next := Follow(link);
        Free(link);
        link, p := next, p + 1;
      }
    }

    /** `list_remove` of the link at position `p`, which is then freed. */
    method Remove(hn: Link<D>, ghost p: nat)
      requires Valid() && 0 < p < |links| && hn == links[p]
      modifies this`links, links
      ensures Valid() && links == Without(old(links), p) && !hn.live
      ensures forall l :: l in old(links) ==> l.id == old(l.id) && l.data == old(l.data) && l.home == old(l.home)
    {
      assert LinkOk(p) && LinkOk(Succ(p, |links|)) && LinkOk(p - 1);
      links := Without(links, p);
      Unlink(hn);
      Free(hn);
      JoinedLinks(p);
    }
  }
}
