/** The hand-off when sends fail: what still reaches the wire, and what is freed. */
module SendFailure {
  import opened Words
  import opened HandOff

  // ---------------------------------------------------------------- what is lost

  /** The frames stored in the slot of link `i`, in order. */
  function Frames(log: seq<Outcome>, i: nat): seq<Bytes> {
    if log == [] then []
    else
      var last := log[|log| - 1];
      Frames(log[..|log| - 1], i) + (if last.taken && last.item.ifc == i then [last.item.frame] else [])
  }

  /** The `j`-th cut is a position in the `j`-th frame. */
  predicate Fits(frames: seq<Bytes>, cuts: seq<nat>) {
    |frames| == |cuts| && forall j :: 0 <= j < |frames| ==> cuts[j] <= |frames[j]|
  }

  /** The frames, each up to its cut, one after the other. */
  function Prefixes(frames: seq<Bytes>, cuts: seq<nat>): Bytes
    requires Fits(frames, cuts)
  {
    if frames == [] then []
    else
      var k := |frames| - 1;
      Prefixes(frames[..k], cuts[..k]) + frames[k][..cuts[k]]
  }

  /** How many frames are cut short. */
  function Shortened(frames: seq<Bytes>, cuts: seq<nat>): nat
    requires Fits(frames, cuts)
  {
    if frames == [] then 0
    else
      var k := |frames| - 1;
      Shortened(frames[..k], cuts[..k]) + if cuts[k] < |frames[k]| then 1 else 0
  }

  /** The slot holds a frame that has not failed. */
  predicate Pending(l: Link) {
    l.ready && l.buf.Some? && (l.pc.Poll? || l.pc.Check? || l.pc.Load? || l.pc.Sending?)
  }

  /**
   What is on the wire and what is still to be sent are the frames stored for the link up to their cuts, of which
   `fails` are short; a pending frame is the last one, and whole.
   */
  ghost predicate SentUpTo(l: Link, frames: seq<Bytes>, cuts: seq<nat>, fails: nat) {
    && Fits(frames, cuts)
    && l.wire + Unsent(l) == Prefixes(frames, cuts)
    && Shortened(frames, cuts) == fails
    && (Pending(l) ==> |frames| > 0 && frames[|frames| - 1] == l.buf.value && cuts[|cuts| - 1] == |l.buf.value|)
  }

  /** How many sends on link `i` have failed. */
  function Fails(events: seq<Event>, i: nat): nat {
    if events == [] then 0
    else Fails(events[..|events| - 1], i) + if events[|events| - 1] == SendFails(i) then 1 else 0
  }

  lemma FramesAppend(log: seq<Outcome>, o: Outcome, i: nat)
    ensures Frames(log + [o], i) == Frames(log, i) + if o.taken && o.item.ifc == i then [o.item.frame] else []
  {
    assert (log + [o])[..|log|] == log;
  }

  lemma PrefixesAppend(frames: seq<Bytes>, cuts: seq<nat>, f: Bytes, c: nat)
    requires Fits(frames, cuts) && c <= |f|
    ensures Fits(frames + [f], cuts + [c])
    ensures Prefixes(frames + [f], cuts + [c]) == Prefixes(frames, cuts) + f[..c]
    ensures Shortened(frames + [f], cuts + [c]) == Shortened(frames, cuts) + if c < |f| then 1 else 0
  {
    var fs, cs := frames + [f], cuts + [c];
    assert fs[..|frames|] == frames && cs[..|frames|] == cuts;
    assert Fits(fs, cs) by { assert forall j :: 0 <= j < |frames| ==> fs[j] == frames[j] && cs[j] == cuts[j]; }
  }

  /** What a step of the queue thread adds to the frames of link `i`. */
  function HandedFrames(q: QueuePc, i: nat): seq<Bytes> {
    if q.Raise? && q.item.ifc == i then [q.item.frame] else []
  }

  lemma NothingAdded<T>(s: seq<T>)
    ensures s + [] == s
  {
  }

  lemma QueueStepFrames(s: State, i: nat)
    requires s.q != Pop ==> s.q.item.ifc < |s.links|
    ensures Frames(QueueNext(s).log, i) == Frames(s.log, i) + HandedFrames(s.q, i)
  {
    NothingAdded(Frames(s.log, i));
    match s.q
    case Test(m) => FramesAppend(s.log, Outcome(m, false), i);
    case Raise(m) => FramesAppend(s.log, Outcome(m, true), i);
    case _ =>
  }

  lemma HandedSent(frames: seq<Bytes>, cuts: seq<nat>, q: QueuePc, i: nat) returns (cuts': seq<nat>)
    requires Fits(frames, cuts)
    ensures Fits(frames + HandedFrames(q, i), cuts')
    ensures Prefixes(frames + HandedFrames(q, i), cuts') == Prefixes(frames, cuts) + Handed(q, i)
    ensures Shortened(frames + HandedFrames(q, i), cuts') == Shortened(frames, cuts)
    ensures cuts' == cuts + if HandedFrames(q, i) == [] then [] else [|Handed(q, i)|]
  {
    if HandedFrames(q, i) == [] {
      cuts' := cuts;
      NothingAdded(frames);
      NothingAdded(Prefixes(frames, cuts));
    } else {
      var f := q.item.frame;
      cuts' := cuts + [|f|];
      PrefixesAppend(frames, cuts, f, |f|);
      assert f[..|f|] == f;
    }
  }

  lemma QueueStepPending(s: State, i: nat)
    requires Inv(s) && i < |s.links| && Pending(QueueNext(s).links[i])
    ensures var l, l' := s.links[i], QueueNext(s).links[i];
      if HandedFrames(s.q, i) == [] then Pending(l) && l'.buf == l.buf else l'.buf == Some(Handed(s.q, i))
  {
    assert SlotOk(s.links[i], s.q, i);
  }

  lemma SentGrows(l: Link, l': Link, frames: seq<Bytes>, cuts: seq<nat>, fails: nat,
                  frames': seq<Bytes>, cuts': seq<nat>, handed: Bytes)
    requires SentUpTo(l, frames, cuts, fails)
    requires Fits(frames', cuts') && Shortened(frames', cuts') == Shortened(frames, cuts)
    requires Prefixes(frames', cuts') == Prefixes(frames, cuts) + handed
    requires l'.wire == l.wire && Unsent(l') == Unsent(l) + handed
    requires Pending(l') ==>
      |frames'| > 0 && frames'[|frames'| - 1] == l'.buf.value && cuts'[|cuts'| - 1] == |l'.buf.value|
    ensures SentUpTo(l', frames', cuts', fails)
  {
    Associate(l.wire, Unsent(l), handed);
  }

  /** Raising the flag adds the whole frame. */
  lemma QueueStepSent(s: State, i: nat, cuts: seq<nat>, fails: nat) returns (cuts': seq<nat>)
    requires Inv(s) && i < |s.links| && SentUpTo(s.links[i], Frames(s.log, i), cuts, fails)
    ensures SentUpTo(QueueNext(s).links[i], Frames(QueueNext(s).log, i), cuts', fails)
  {
    var l, l', frames, frames' := s.links[i], QueueNext(s).links[i], Frames(s.log, i), Frames(QueueNext(s).log, i);
    QueueStepFrames(s, i);
    QueueStepUnsent(s, i);
    cuts' := HandedSent(frames, cuts, s.q, i);
    if Pending(l') {
      QueueStepPending(s, i);
      PendingLast(l, l', frames, cuts, fails, s.q, i, cuts');
    }
    SentGrows(l, l', frames, cuts, fails, frames', cuts', Handed(s.q, i));
  }

  lemma PendingLast(l: Link, l': Link, frames: seq<Bytes>, cuts: seq<nat>, fails: nat, q: QueuePc, i: nat,
                    cuts': seq<nat>)
    requires SentUpTo(l, frames, cuts, fails) && Pending(l')
    requires if HandedFrames(q, i) == [] then Pending(l) && l'.buf == l.buf else l'.buf == Some(Handed(q, i))
    requires cuts' == cuts + if HandedFrames(q, i) == [] then [] else [|Handed(q, i)|]
    ensures var frames' := frames + HandedFrames(q, i);
      |frames'| == |cuts'| > 0 && frames'[|frames'| - 1] == l'.buf.value && cuts'[|cuts'| - 1] == |l'.buf.value|
  {
  }

  /** A step that moves no byte and puts nothing into the slot. */
  lemma SentSame(l: Link, l': Link, frames: seq<Bytes>, cuts: seq<nat>, fails: nat)
    requires SentUpTo(l, frames, cuts, fails)
    requires l'.wire + Unsent(l') == l.wire + Unsent(l) && (Pending(l') ==> Pending(l) && l'.buf == l.buf)
    ensures SentUpTo(l', frames, cuts, fails)
  {
  }

  lemma LinkStepSent(l: Link, n: nat, q: QueuePc, i: nat, frames: seq<Bytes>, cuts: seq<nat>, fails: nat)
    requires SlotOk(l, q, i) && CanSend(l, n) && SentUpTo(l, frames, cuts, fails)
    ensures SentUpTo(LinkNext(l, n), frames, cuts, fails)
  {
    LinkStepConserves(l, n, q, i);
    SentSame(l, LinkNext(l, n), frames, cuts, fails);
  }

  lemma Cancel(wire: Bytes, before: Bytes, f: Bytes, off: nat)
    requires off <= |f| && wire + f[off..] == before + f
    ensures wire == before + f[..off]
  {
    assert |wire| == |before| + off;
    assert wire == (wire + f[off..])[..|wire|];
    assert (before + f)[..|wire|] == before + f[..off];
  }

  /** Moving the last cut. */
  lemma Recut(frames: seq<Bytes>, cuts: seq<nat>, c: nat) returns (before: Bytes)
    requires Fits(frames, cuts) && |frames| > 0 && c <= |frames[|frames| - 1]|
    ensures var k := |frames| - 1;
      var f, cuts' := frames[k], cuts[..k] + [c];
      && Fits(frames, cuts')
      && Prefixes(frames, cuts) == before + f[..cuts[k]] && Prefixes(frames, cuts') == before + f[..c]
      && Shortened(frames, cuts') - (if c < |f| then 1 else 0)
         == Shortened(frames, cuts) - if cuts[k] < |f| then 1 else 0
  {
    var k := |frames| - 1;
    assert (cuts[..k] + [c])[..k] == cuts[..k];
    before := Prefixes(frames[..k], cuts[..k]);
  }

  /** A failed send cuts its frame where the send stopped; the frame has been whole so far. */
  lemma FailureLosesRest(l: Link, q: QueuePc, i: nat, frames: seq<Bytes>, cuts: seq<nat>, fails: nat)
    returns (cuts': seq<nat>)
    requires SlotOk(l, q, i) && l.pc.Sending? && l.pc.rem > 0 && SentUpTo(l, frames, cuts, fails)
    ensures SentUpTo(l.(pc := Release(l.pc.rem)), frames, cuts', fails + 1)
    ensures |cuts'| > 0 && cuts' == cuts[..|cuts| - 1] + [l.off] && cuts[|cuts| - 1] == l.off + l.pc.rem
  {
    var f := l.buf.value;
    cuts' := cuts[..|cuts| - 1] + [l.off];
    var before := Recut(frames, cuts, l.off);
    assert f[..|f|] == f;
    Cancel(l.wire, before, f, l.off);
    NothingAdded(l.wire);
  }

  /** What a step of neither the queue thread nor the link's own thread does to the link. */
  lemma OthersKeepOff(s: State, ev: Event, i: nat)
    requires Enabled(s, ev) && i < |s.links|
    requires !ev.QueueStep? && (ev.LinkStep? || ev.SendFails? ==> ev.i != i)
    ensures i < |Next(s, ev).links| && Next(s, ev).log == s.log
    ensures var l, l' := s.links[i], Next(s, ev).links[i];
      l'.wire == l.wire && Unsent(l') == Unsent(l) && l'.buf == l.buf && (Pending(l') ==> Pending(l))
  {
  }

  lemma SentOnce(s: State, ev: Event, i: nat, cuts: seq<nat>, fails: nat) returns (cuts': seq<nat>)
    requires Inv(s) && Enabled(s, ev) && i < |s.links| && SentUpTo(s.links[i], Frames(s.log, i), cuts, fails)
    ensures i < |Next(s, ev).links|
    ensures SentUpTo(Next(s, ev).links[i], Frames(Next(s, ev).log, i), cuts',
                     fails + if ev == SendFails(i) then 1 else 0)
  {
    var l, frames := s.links[i], Frames(s.log, i);
    cuts' := cuts;
    if ev.QueueStep? {
      cuts' := QueueStepSent(s, i, cuts, fails);
    } else if ev == SendFails(i) {
      cuts' := FailureLosesRest(l, s.q, i, frames, cuts, fails);
    } else if ev.LinkStep? && ev.i == i {
      LinkStepSent(l, ev.n, s.q, i, frames, cuts, fails);
    } else {
      OthersKeepOff(s, ev, i);
      SentSame(l, Next(s, ev).links[i], frames, cuts, fails);
    }
  }

  lemma FailsAppend(events: seq<Event>, k: nat, i: nat)
    requires k < |events|
    ensures Fails(events[..k + 1], i) == Fails(events[..k], i) + if events[k] == SendFails(i) then 1 else 0
  {
    assert events[..k + 1][..k] == events[..k];
  }

  /** `SentUpTo` for link `i` in state `k` of a run. */
  ghost predicate SentAt(r: Run, k: nat, i: nat, cuts: seq<nat>) {
    && k < |r.states| && k <= |r.events| && i < |r.states[k].links|
    && SentUpTo(r.states[k].links[i], Frames(r.states[k].log, i), cuts, Fails(r.events[..k], i))
  }

  lemma SentAtFirst(r: Run, i: nat)
    requires ValidRun(r) && i < |r.states[0].links|
    ensures SentAt(r, 0, i, [])
  {
    assert r.states[0].links[i] == FRESH_LINK && r.events[..0] == [];
  }

  lemma SentHop(r: Run, k: nat, i: nat, cuts: seq<nat>) returns (cuts': seq<nat>)
    requires ValidRun(r) && k < |r.events| && SentAt(r, k, i, cuts)
    ensures SentAt(r, k + 1, i, cuts')
  {
    ReachableInv(r, k);
    assert StepAt(r, k);
    cuts' := SentOnce(r.states[k], r.events[k], i, cuts, Fails(r.events[..k], i));
    FailsAppend(r.events, k, i);
  }

  /**
   In every interleaving, failures included, what has been and will be sent on a link is one prefix of each frame
   stored for it, in order; and exactly as many frames are cut short as sends have failed.
   */
  lemma {:induction false} SentPrefixes(r: Run, k: nat, i: nat) returns (cuts: seq<nat>)
    requires ValidRun(r) && k < |r.states| && i < |r.states[0].links|
    ensures SentAt(r, k, i, cuts)
  {
    if k == 0 {
      cuts := [];
      SentAtFirst(r, i);
    } else {
      cuts := SentPrefixes(r, k - 1, i);
      cuts := SentHop(r, k - 1, i, cuts);
    }
  }

  // ---------------------------------------------------------------- what is freed

  /** A buffer has been freed at another pointer than it was allocated at, or is about to be. */
  predicate Misfreed(l: Link) {
    l.badFree || (l.pc.Release? && l.pc.rem > 0)
  }

  lemma MisfreedStep(s: State, ev: Event, i: nat)
    requires Inv(s) && Enabled(s, ev) && i < |s.links|
    ensures i < |Next(s, ev).links|
    ensures Misfreed(Next(s, ev).links[i]) <==> Misfreed(s.links[i]) || ev == SendFails(i)
  {
    assert SlotOk(s.links[i], s.q, i);
  }

  /**
   `send_data` moves its pointer back by the size of the frame, not by what was sent. So the link thread frees, or is
   about to free, a pointer it did not get from `malloc` exactly if a send on its link has failed.
   */
  lemma {:induction false} FreeAfterFailure(r: Run, k: nat, i: nat)
    requires ValidRun(r) && k < |r.states| && i < |r.states[0].links|
    ensures i < |r.states[k].links|
    ensures Misfreed(r.states[k].links[i]) <==> exists j :: 0 <= j < k && r.events[j] == SendFails(i)
  {
    if k == 0 {
      assert r.states[0].links[i] == FRESH_LINK;
    } else {
      FreeAfterFailure(r, k - 1, i);
      ReachableInv(r, k - 1);
      assert StepAt(r, k - 1);
      MisfreedStep(r.states[k - 1], r.events[k - 1], i);
    }
  }

  /** It does happen: a non-empty frame whose first send fails, and a bad pointer freed. */
  lemma BadFreeReachable(f: Bytes) returns (r: Run, s: State)
    requires f != []
    ensures EndsIn(r, s) && |s.links| == 1 && s.links[0].badFree && s.links[0].wire == []
  {
    r, s := OneFrameStored(f);
    r, s := Extend(r, s, LinkStep(0, 0));
    r, s := Extend(r, s, LinkStep(0, 0));
    r, s := Extend(r, s, LinkStep(0, 0));
    assert s.links[0] == Slot(f, true, Sending(|f|));
    r, s := Extend(r, s, SendFails(0));
    r, s := Extend(r, s, LinkStep(0, 0));
  }
}
