/** What either thread of the hand-off does in a round of its own, and which frames are dropped. */
module HandOffSteps {
  import opened Words
  import opened HandOff

  // ---------------------------------------------------------------- the test of the link

  /** In state `j` the queue thread tests the link of item `m`, finds it up or not, and goes on. */
  ghost predicate TestedAt(r: Run, j: nat, m: Item, up: bool) {
    && j < |r.events| && j < |r.states| && r.events[j] == QueueStep && r.states[j].q == Test(m)
    && m.ifc < |r.states[j].links| && r.states[j].links[m.ifc].up == up
  }

  /**
   The test decides: with the link down the item is logged as dropped, and the queue thread is back for the next one;
   with the link up it waits for that slot. Nothing else changes.
   */
  lemma TestDecides(r: Run, k: nat, m: Item, up: bool)
    requires ValidRun(r) && k < |r.events| && TestedAt(r, k, m, up)
    ensures var s, s' := r.states[k], r.states[k + 1];
      && s'.links == s.links && s'.queue == s.queue && s'.pushed == s.pushed
      && (!up ==> s'.q == Pop && s'.log == s.log + [Outcome(m, false)])
      && (up ==> s'.q == Wait(m) && s'.log == s.log)
  {
    assert StepAt(r, k);
  }

  /** The item in hand after the test, before it is logged. */
  predicate Passed(q: QueuePc) {
    q.Wait? || q.Copy? || q.Size? || q.Raise?
  }

  /** An item that is past its test was tested while its link was up, and nothing has been logged since. */
  lemma {:induction false} HeldWasUp(r: Run, k: nat) returns (j: nat)
    requires ValidRun(r) && k < |r.states| && Passed(r.states[k].q)
    ensures j < k && TestedAt(r, j, r.states[k].q.item, true) && r.states[j].log == r.states[k].log
  {
    if k == 0 {
      assert false;
    } else {
      assert StepAt(r, k - 1);
      if Passed(r.states[k - 1].q) {
        j := HeldWasUp(r, k - 1);
      } else {
        j := k - 1;
      }
    }
  }

  /** A step logs nothing, the item it finds at the test, or the item it has stored. */
  lemma LogStep(s: State, ev: Event)
    requires Enabled(s, ev)
    ensures var s' := Next(s, ev);
      || s'.log == s.log
      || (ev == QueueStep && s.q.Test? && !s.links[s.q.item.ifc].up && s'.log == s.log + [Outcome(s.q.item, false)])
      || (ev == QueueStep && s.q.Raise? && s'.log == s.log + [Outcome(s.q.item, true)])
  {
  }

  /**
   Over whole runs: every item that is logged was tested, right after the items logged before it, and it was taken if
   its link was up then, and dropped if it was down.
   */
  lemma {:induction false} LogTellsTest(r: Run, k: nat, l: nat) returns (j: nat)
    requires ValidRun(r) && k < |r.states| && l < |r.states[k].log|
    ensures j < k && TestedAt(r, j, r.states[k].log[l].item, r.states[k].log[l].taken)
    ensures r.states[j].log == r.states[k].log[..l]
  {
    if k == 0 {
      assert false;
    } else {
      var s := r.states[k - 1];
      assert StepAt(r, k - 1);
      LogStep(s, r.events[k - 1]);
      if l < |s.log| {
        j := LogTellsTest(r, k - 1, l);
      } else if s.q.Raise? {
        j := HeldWasUp(r, k - 1);
      } else {
        ReachableInv(r, k - 1);
        j := k - 1;
      }
    }
  }

  /** It does happen: a frame pushed for a link that is down is dropped. */
  lemma DropReachable(f: Bytes) returns (r: Run, s: State)
    ensures EndsIn(r, s) && s.log == [Outcome(Item(0, f), false)] && s.q == Pop && s.queue == []
    ensures |s.links| == 1 && s.links[0].buf == None && s.links[0].wire == []
  {
    s := State([], [], [], Pop, [FRESH_LINK]);
    r := Run([s], []);
    r, s := Extend(r, s, Push(Item(0, f)));
    r, s := Extend(r, s, SetUp(0, false));
    r, s := Extend(r, s, QueueStep);
    r, s := Extend(r, s, QueueStep);
  }

  // ---------------------------------------------------------------- one round of each thread

  /** `n` steps of the queue thread. */
  function QueueSteps(s: State, n: nat): State
    requires Addressed(s) && Accounted(s)
    decreases n
  {
    if n == 0 then s
    else
      QueueStepAccount(s);
      QueueSteps(QueueNext(s), n - 1)
  }

  /** From the pop to waiting for the slot, if the link is up. */
  lemma QueueRoundStarts(s: State)
    requires Inv(s) && s.q == Pop && s.queue != [] && s.links[s.queue[0].ifc].up
    ensures QueueSteps(s, 2) == s.(q := Wait(s.queue[0]), queue := s.queue[1..])
  {
    QueueStepAccount(s);
    QueueStepAccount(QueueNext(s));
    assert QueueSteps(QueueNext(s), 1) == QueueSteps(QueueNext(QueueNext(s)), 0);
  }

  /** From a free slot to the raised flag. */
  lemma QueueRoundEnds(s: State)
    requires Addressed(s) && Accounted(s) && s.q.Wait? && !s.links[s.q.item.ifc].ready
    ensures var m := s.q.item;
      var l := s.links[m.ifc].(buf := Some(m.frame), off := 0, sz := |m.frame|, ready := true);
      QueueSteps(s, 4) == SetLink(s.(q := Pop, log := s.log + [Outcome(m, true)]), m.ifc, l)
  {
    QueueStepAccount(s);
    var s1 := QueueNext(s);
    QueueStepAccount(s1);
    var s2 := QueueNext(s1);
    QueueStepAccount(s2);
    var s3 := QueueNext(s2);
    QueueStepAccount(s3);
    assert QueueSteps(s2, 2) == QueueNext(s3);
    assert QueueNext(s3).links
        == s.links[s.q.item.ifc := s.links[s.q.item.ifc].(buf := Some(s.q.item.frame), off := 0,
                                                          sz := |s.q.item.frame|, ready := true)];
  }

  /**
   Left alone, with the link of the first item in the queue up and its slot free, the queue thread takes six steps to
   put the frame into the slot, with its size, raise the flag, and log it.
   */
  lemma QueueRound(s: State)
    requires Inv(s) && s.q == Pop && s.queue != []
    requires s.links[s.queue[0].ifc].up && !s.links[s.queue[0].ifc].ready
    ensures var s2, m := QueueSteps(s, 2), s.queue[0];
      && Addressed(s2) && Accounted(s2)
      && var s' := QueueSteps(s2, 4);
      && s'.q == Pop && s'.queue == s.queue[1..] && s'.log == s.log + [Outcome(m, true)] && s'.pushed == s.pushed
      && |s'.links| == |s.links|
      && s'.links[m.ifc] == s.links[m.ifc].(buf := Some(m.frame), off := 0, sz := |m.frame|, ready := true)
      && (forall i :: 0 <= i < |s.links| && i != m.ifc ==> s'.links[i] == s.links[i])
  {
    QueueRoundStarts(s);
    TakeFirst(Items(s.log), s.queue);
    QueueRoundEnds(QueueSteps(s, 2));
  }

  /** The link after `n` bytes of its slot have been sent. */
  function Sent(l: Link, n: nat): Link
    requires l.pc.Sending? && l.buf.Some? && 0 <= l.off && l.off + l.pc.rem == |l.buf.value| && n <= l.pc.rem
  {
    l.(pc := Sending(l.pc.rem - n), off := l.off + n, wire := l.wire + l.buf.value[l.off..l.off + n])
  }

  lemma WireGrows(wire: Bytes, f: Bytes, a: nat, b: nat, c: nat)
    requires a <= b <= c <= |f|
    ensures (wire + f[a..b]) + f[b..c] == wire + f[a..c]
  {
    assert f[a..b] + f[b..c] == f[a..c];
    Associate(wire, f[a..b], f[b..c]);
  }

  /** Sends of any sizes add up: after `a` bytes a send of `n` more makes `a + n`. */
  lemma SendsAddUp(l: Link, a: nat, n: nat)
    requires l.pc.Sending? && l.buf.Some? && 0 <= l.off && l.off + l.pc.rem == |l.buf.value|
    requires 0 < n && a + n <= l.pc.rem
    ensures CanSend(Sent(l, a), n) && LinkNext(Sent(l, a), n) == Sent(l, a + n)
  {
    WireGrows(l.wire, l.buf.value, l.off, l.off + a, l.off + a + n);
  }

  /**
   Left alone, with its interface up and a frame in its slot, the link thread takes three steps to come to sending;
   once sends of whatever sizes have sent it all, three more free the buffer at the pointer it was allocated at, lower
   the flag and go back to polling: the frame is on the wire, and the slot is free for the next one.
   */
  lemma LinkRound(l: Link)
    requires l.up && l.ready && l.pc == Poll && l.buf.Some? && l.off == 0 && l.sz == |l.buf.value|
    ensures var first := LinkNext(LinkNext(LinkNext(l, 0), 0), 0);
      && first == l.(pc := Sending(l.sz))
      && var done := LinkNext(LinkNext(LinkNext(Sent(first, l.sz), 0), 0), 0);
         done == l.(wire := l.wire + l.buf.value, buf := None, off := 0, ready := false, pc := Poll)
  {
    assert l.buf.value[0..|l.buf.value|] == l.buf.value;
  }

  /** A socket that cannot be written to sends the thread back to polling with the frame still whole in its slot. */
  lemma UnwritableKeeps(s: State, i: nat)
    requires Enabled(s, Unwritable(i))
    ensures var l, l' := s.links[i], Next(s, Unwritable(i)).links[i];
      l'.pc == Poll && l'.wire == l.wire && l'.buf == l.buf && l'.ready == l.ready && Unsent(l') == Unsent(l)
  {
  }
}
