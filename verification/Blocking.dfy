/** How one link can hold up all others: the queue thread waits for a slot that nobody empties. */
module Blocking {
  import opened Words
  import opened HandOff

  /** The queue thread waits for the slot of a link that is down, with its own thread polling. */
  predicate Blocked(s: State, i: nat) {
    && s.q.Wait? && s.q.item.ifc == i < |s.links|
    && s.links[i].ready && s.links[i].pc.Poll? && !s.links[i].up
  }

  /** No step ends that but the interface coming up. */
  lemma StaysBlocked(s: State, ev: Event, i: nat)
    requires Blocked(s, i) && Enabled(s, ev)
    ensures Blocked(Next(s, ev), i) <==> ev != SetUp(i, true)
  {
  }

  /** The interface can come up at any time, and its thread then finds the frame still in the slot. */
  lemma ComingUp(s: State, i: nat)
    requires Blocked(s, i)
    ensures Enabled(s, SetUp(i, true))
    ensures var l, l' := s.links[i], Next(s, SetUp(i, true)).links[i];
      l' == l.(up := true) && l'.pc == Poll && l'.ready && Next(s, SetUp(i, true)).q == s.q
  {
  }

  /** Meanwhile nothing is dealt with for any link, though the queue may grow. */
  lemma BlockedStep(s: State, ev: Event, i: nat)
    requires Blocked(s, i) && Enabled(s, ev)
    ensures Next(s, ev).log == s.log && s.queue <= Next(s, ev).queue
  {
  }

  /** The states from the `j`-th to the `k`-th are blocked by link `i`. */
  ghost predicate BlockedThroughout(r: Run, j: nat, k: nat, i: nat) {
    forall m: nat :: j <= m <= k && m < |r.states| ==> Blocked(r.states[m], i)
  }

  /**
   Once blocked by link `i`, the queue thread stays so exactly as long as the interface of the link does not come up.
   Until then no frame is stored or dropped for any link; all that is pushed stays in the queue.
   */
  lemma {:induction false} OneLinkBlocksAll(r: Run, j: nat, k: nat, i: nat)
    requires ValidRun(r) && j <= k < |r.states| && Blocked(r.states[j], i)
    ensures BlockedThroughout(r, j, k, i) <==> forall m :: j <= m < k ==> r.events[m] != SetUp(i, true)
    ensures BlockedThroughout(r, j, k, i) ==>
      r.states[k].log == r.states[j].log && r.states[j].queue <= r.states[k].queue
  {
    if j == k {
      assert BlockedThroughout(r, j, k, i);
    } else {
      OneLinkBlocksAll(r, j, k - 1, i);
      assert BlockedThroughout(r, j, k, i) <==> BlockedThroughout(r, j, k - 1, i) && Blocked(r.states[k], i);
      assert StepAt(r, k - 1);
      if BlockedThroughout(r, j, k - 1, i) {
        StaysBlocked(r.states[k - 1], r.events[k - 1], i);
        BlockedStep(r.states[k - 1], r.events[k - 1], i);
      }
    }
  }

  /** It does happen: with a frame still in the slot and another one waiting for it, the interface goes down. */
  lemma BlockedReachable(f: Bytes, g: Bytes) returns (r: Run, s: State)
    ensures EndsIn(r, s) && Blocked(s, 0) && s.q.item == Item(0, g)
  {
    r, s := OneFrameStored(f);
    r, s := Extend(r, s, Push(Item(0, g)));
    r, s := Extend(r, s, QueueStep);
    r, s := Extend(r, s, QueueStep);
    r, s := Extend(r, s, SetUp(0, false));
  }
}
