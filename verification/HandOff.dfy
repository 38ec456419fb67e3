/**
 From the network layer's queue to a link's one-slot send buffer: the queue thread and one thread for each link,
 interleaved at every access to a shared variable.
 */
module HandOff {
  import opened Words

  type Bytes = seq<byte>

  datatype Item = Item(ifc: nat, frame: Bytes)

  /** What the queue thread did with an item: stored it in the slot, or dropped it because the link was down. */
  datatype Outcome = Outcome(item: Item, taken: bool)

  /** Where `process_in_queue` and `send_frame` are: about to pop, to test the socket, to wait for the slot, to copy
      the frame, to store its size, to raise the flag. */
  datatype QueuePc = Pop | Test(item: Item) | Wait(item: Item) | Copy(item: Item) | Size(item: Item) | Raise(item: Item)

  /** Where `send_and_receive` and `send_data` are: about to test the socket, to test the flag, to load the size,
      to send `rem` more bytes, to free the buffer with `rem` bytes unsent, to lower the flag. */
  datatype LinkPc = Poll | Check | Load | Sending(rem: nat) | Release(rem: nat) | Lower

  /**
   `buf` is the allocated buffer or null, `off` the offset of `_sbuffer` in it. `wire` and `badFree` are history:
   the bytes sent, and whether `free` was ever given another pointer than `malloc` returned.
   */
  datatype Link = Link(
    up: bool, buf: Option<Bytes>, off: int, sz: nat, ready: bool, pc: LinkPc, wire: Bytes, badFree: bool)

  /** `pushed` and `log` are history. */
  datatype State = State(pushed: seq<Item>, queue: seq<Item>, log: seq<Outcome>, q: QueuePc, links: seq<Link>)

  datatype Event =
    | Push(item: Item)
    | QueueStep
    | LinkStep(i: nat, n: nat)
    | Unwritable(i: nat)
    | SendFails(i: nat)
    | SetUp(i: nat, up: bool)

  const FRESH_LINK := Link(true, None, 0, 0, false, Poll, [], false)

  ghost predicate Init(s: State) {
    && s.pushed == [] && s.queue == [] && s.log == [] && s.q == Pop
    && forall i :: 0 <= i < |s.links| ==> s.links[i] == FRESH_LINK
  }

  function SetLink(s: State, i: nat, l: Link): State
    requires i < |s.links|
  {
    s.(links := s.links[i := l])
  }

  /** One access of the queue thread. */
  function QueueNext(s: State): State
    requires s.q != Pop ==> s.q.item.ifc < |s.links|
  {
    match s.q
    case Pop => if s.queue == [] then s else s.(q := Test(s.queue[0]), queue := s.queue[1..])
    case Test(m) =>
      if s.links[m.ifc].up then s.(q := Wait(m)) else s.(q := Pop, log := s.log + [Outcome(m, false)])
    case Wait(m) => if s.links[m.ifc].ready then s else s.(q := Copy(m))
    case Copy(m) => SetLink(s.(q := Size(m)), m.ifc, s.links[m.ifc].(buf := Some(m.frame), off := 0))
    case Size(m) => SetLink(s.(q := Raise(m)), m.ifc, s.links[m.ifc].(sz := |m.frame|))
    case Raise(m) =>
      SetLink(s.(q := Pop, log := s.log + [Outcome(m, true)]), m.ifc, s.links[m.ifc].(ready := true))
  }

  /** If the next access is a send, it can transmit `n` bytes: as many are left, and in the buffer. */
  predicate CanSend(l: Link, n: nat) {
    l.pc.Sending? && l.pc.rem > 0 ==>
      0 < n <= l.pc.rem && l.buf.Some? && 0 <= l.off && l.off + n <= |l.buf.value|
  }

  /**
   One access of a link thread; a send transmits `n` of the remaining bytes. That the socket was not writable, which
   sends the thread from the test of the flag back to polling, and that a send fails are events of their own.
   */
  function LinkNext(l: Link, n: nat): Link
    requires CanSend(l, n)
  {
    match l.pc
    case Poll => if l.up then l.(pc := Check) else l
    case Check => l.(pc := if l.ready then Load else Poll)
    case Load => l.(pc := Sending(l.sz))
    case Sending(rem) =>
      if rem == 0 then l.(pc := Release(0))
      else l.(pc := Sending(rem - n), off := l.off + n, wire := l.wire + l.buf.value[l.off..l.off + n])
    case Release(rem) => l.(pc := Lower, off := 0, buf := None, badFree := l.badFree || l.off - l.sz != 0)
    case Lower => l.(pc := Poll, ready := false)
  }

  predicate Enabled(s: State, ev: Event) {
    match ev
    case Push(m) => m.ifc < |s.links|
    case QueueStep => s.q != Pop ==> s.q.item.ifc < |s.links|
    case LinkStep(i, n) =>
      i < |s.links| && CanSend(s.links[i], n)
    case Unwritable(i) => i < |s.links| && s.links[i].pc.Check?
    case SendFails(i) => i < |s.links| && s.links[i].pc.Sending? && s.links[i].pc.rem > 0
    case SetUp(i, _) => i < |s.links|
  }

  function Next(s: State, ev: Event): State
    requires Enabled(s, ev)
  {
    match ev
    case Push(m) => s.(pushed := s.pushed + [m], queue := s.queue + [m])
    case QueueStep => QueueNext(s)
    case LinkStep(i, n) => SetLink(s, i, LinkNext(s.links[i], n))
    case Unwritable(i) => SetLink(s, i, s.links[i].(pc := Poll))
    case SendFails(i) => SetLink(s, i, s.links[i].(pc := Release(s.links[i].pc.rem)))
    case SetUp(i, up) => SetLink(s, i, s.links[i].(up := up))
  }

  // ---------------------------------------------------------------- the account

  function Items(log: seq<Outcome>): seq<Item> {
    seq(|log|, i requires 0 <= i < |log| => log[i].item)
  }

  /** The frames stored in the slot of link `i`, one after the other. */
  function Stored(log: seq<Outcome>, i: nat): Bytes {
    if log == [] then []
    else
      var last := log[|log| - 1];
      if last.taken && last.item.ifc == i then Stored(log[..|log| - 1], i) + last.item.frame
      else Stored(log[..|log| - 1], i)
  }

  /** The item the queue thread holds. */
  function InHand(q: QueuePc): seq<Item> {
    if q == Pop then [] else [q.item]
  }

  /** The part of the slot that is still to be sent. */
  function Unsent(l: Link): Bytes {
    if !l.ready || l.buf.None? then []
    else match l.pc
         case Sending(rem) => if 0 <= l.off <= |l.buf.value| then l.buf.value[l.off..] else []
         case Release(rem) => []
         case _ => l.buf.value
  }

  /** The queue thread is between the wait and raising the flag of link `i`. */
  predicate Filling(q: QueuePc, i: nat) {
    (q.Copy? || q.Size? || q.Raise?) && q.item.ifc == i
  }

  /** While one thread owns the slot the other keeps off: how flag, buffer and program counters fit together. */
  predicate SlotOk(l: Link, q: QueuePc, i: nat) {
    && (l.pc.Load? || l.pc.Sending? || l.pc.Release? || l.pc.Lower? ==> l.ready)
    && (Filling(q, i) ==> !l.ready)
    && (l.ready && !l.pc.Lower? ==> l.buf.Some? && l.sz == |l.buf.value|)
    && (!l.ready && !Filling(q, i) ==> l.buf.None?)
    && (l.pc.Lower? ==> l.buf.None?)
    && (Filling(q, i) && q.Copy? ==> l.buf.None?)
    && (Filling(q, i) && !q.Copy? ==> l.buf == Some(q.item.frame) && l.off == 0)
    && (Filling(q, i) && q.Raise? ==> l.sz == |q.item.frame|)
    && (l.ready && (l.pc.Poll? || l.pc.Check? || l.pc.Load?) ==> l.off == 0)
    && (l.pc.Sending? ==> l.off == l.sz - l.pc.rem && 0 <= l.off)
    && (l.pc.Release? ==> l.off == l.sz - l.pc.rem)
  }

  /** All that was pushed: dealt with, in hand, or in the queue, in this order. */
  ghost predicate Accounted(s: State) {
    s.pushed == Items(s.log) + (InHand(s.q) + s.queue)
  }

  ghost predicate Addressed(s: State) {
    && (s.q != Pop ==> s.q.item.ifc < |s.links|)
    && (forall m :: m in s.queue ==> m.ifc < |s.links|)
  }

  ghost predicate Inv(s: State) {
    Addressed(s) && Accounted(s) && forall i :: 0 <= i < |s.links| ==> SlotOk(s.links[i], s.q, i)
  }

  /** Everything stored for link `i` is on the wire or still in its slot. */
  ghost predicate Conserved(s: State, i: nat) {
    i < |s.links| && Stored(s.log, i) == s.links[i].wire + Unsent(s.links[i])
  }

  lemma QueueStepSlot(s: State, i: nat)
    requires Inv(s) && i < |s.links|
    ensures var s' := QueueNext(s); |s'.links| == |s.links| && SlotOk(s'.links[i], s'.q, i)
  {
    assert SlotOk(s.links[i], s.q, i);
  }

  /** Logging the item in hand keeps the account. */
  lemma Logged(log: seq<Outcome>, o: Outcome, queue: seq<Item>)
    ensures Items(log) + ([o.item] + queue) == Items(log + [o]) + ([] + queue)
  {
    assert Items(log + [o]) == Items(log) + [o.item];
  }

  lemma TakeFirst<T>(a: seq<T>, queue: seq<T>)
    requires queue != []
    ensures a + ([] + queue) == a + ([queue[0]] + queue[1..])
  {
    assert queue == [queue[0]] + queue[1..];
  }

  lemma QueueStepAccount(s: State)
    requires Addressed(s) && Accounted(s)
    ensures Accounted(QueueNext(s)) && Addressed(QueueNext(s))
  {
    match s.q
    case Pop =>
      if s.queue != [] { TakeFirst(Items(s.log), s.queue); }
    case Test(m) => Logged(s.log, Outcome(m, false), s.queue);
    case Raise(m) => Logged(s.log, Outcome(m, true), s.queue);
    case _ =>
  }

  lemma QueueStepInv(s: State)
    requires Inv(s)
    ensures Inv(QueueNext(s))
  {
    QueueStepAccount(s);
    var s' := QueueNext(s);
    forall i | 0 <= i < |s'.links| ensures SlotOk(s'.links[i], s'.q, i) {
      QueueStepSlot(s, i);
    }
  }

  lemma LinkStepSlot(l: Link, n: nat, q: QueuePc, i: nat)
    requires SlotOk(l, q, i)
    requires CanSend(l, n)
    ensures SlotOk(LinkNext(l, n), q, i)
  {
  }

  lemma PushAccounted<T>(a: seq<T>, b: seq<T>, c: seq<T>, x: T)
    ensures (a + (b + c)) + [x] == a + (b + (c + [x]))
  {
  }

  /** A send never reads outside the buffer: that part of its guard always holds. */
  lemma SendStaysInBuffer(s: State, i: nat, n: nat)
    requires Inv(s) && i < |s.links| && s.links[i].pc.Sending? && 0 < n <= s.links[i].pc.rem
    ensures Enabled(s, LinkStep(i, n))
  {
    assert SlotOk(s.links[i], s.q, i);
  }

  /** Which accesses can come next in a good state: neither thread is ever stuck but for waiting. */
  lemma EnabledExact(s: State, ev: Event)
    requires Inv(s)
    ensures Enabled(s, ev) <==>
      match ev
      case Push(m) => m.ifc < |s.links|
      case QueueStep => true
      case LinkStep(i, n) =>
        i < |s.links| && (s.links[i].pc.Sending? && s.links[i].pc.rem > 0 ==> 0 < n <= s.links[i].pc.rem)
      case Unwritable(i) => i < |s.links| && s.links[i].pc.Check?
      case SendFails(i) => i < |s.links| && s.links[i].pc.Sending? && s.links[i].pc.rem > 0
      case SetUp(i, _) => i < |s.links|
  {
    if ev.LinkStep? && ev.i < |s.links| {
      assert SlotOk(s.links[ev.i], s.q, ev.i);
    }
  }

  lemma StepInv(s: State, ev: Event)
    requires Inv(s) && Enabled(s, ev)
    ensures Inv(Next(s, ev))
  {
    match ev
    case Push(m) =>
      PushAccounted(Items(s.log), InHand(s.q), s.queue, m);
    case QueueStep => QueueStepInv(s);
    case LinkStep(i, n) => LinkStepSlot(s.links[i], n, s.q, i);
    case Unwritable(i) =>
    case SendFails(i) =>
    case SetUp(i, up) =>
  }

  // ---------------------------------------------------------------- conservation

  lemma MoveBytes(wire: Bytes, f: Bytes, off: nat, n: nat)
    requires off + n <= |f|
    ensures (wire + f[off..off + n]) + f[off + n..] == wire + f[off..]
  {
    assert f[off..] == f[off..off + n] + f[off + n..];
  }

  lemma SlotKept(l: Link, n: nat, q: QueuePc, i: nat)
    requires SlotOk(l, q, i) && !(l.pc.Sending? && l.pc.rem > 0)
    ensures LinkNext(l, n).wire == l.wire && Unsent(LinkNext(l, n)) == Unsent(l)
  {
    if l.pc.Load? {
      assert l.buf.value[0..] == l.buf.value;
    } else if l.pc.Sending? {
      assert l.buf.value[|l.buf.value|..] == [];
    }
  }

  /** A link thread moves bytes from the slot to the wire and neither loses nor repeats any. */
  lemma LinkStepConserves(l: Link, n: nat, q: QueuePc, i: nat)
    requires SlotOk(l, q, i)
    requires CanSend(l, n)
    ensures var l' := LinkNext(l, n); l'.wire + Unsent(l') == l.wire + Unsent(l)
  {
    var l' := LinkNext(l, n);
    if l.pc.Sending? && l.pc.rem > 0 {
      MoveBytes(l.wire, l.buf.value, l.off, n);
    } else {
      SlotKept(l, n, q, i);
    }
  }

  lemma StoredAppend(log: seq<Outcome>, o: Outcome, i: nat)
    ensures Stored(log + [o], i) == Stored(log, i) + (if o.taken && o.item.ifc == i then o.item.frame else [])
  {
    assert (log + [o])[..|log|] == log;
  }

  /** What a step of the queue thread hands to link `i`. */
  function Handed(q: QueuePc, i: nat): Bytes {
    if q.Raise? && q.item.ifc == i then q.item.frame else []
  }

  lemma QueueStepStored(s: State, i: nat)
    requires s.q != Pop ==> s.q.item.ifc < |s.links|
    ensures Stored(QueueNext(s).log, i) == Stored(s.log, i) + Handed(s.q, i)
  {
    match s.q
    case Test(m) => StoredAppend(s.log, Outcome(m, false), i);
    case Raise(m) => StoredAppend(s.log, Outcome(m, true), i);
    case _ => assert Stored(s.log, i) + [] == Stored(s.log, i);
  }

  lemma QueueStepUnsent(s: State, i: nat)
    requires Inv(s) && i < |s.links|
    ensures var l, l' := s.links[i], QueueNext(s).links[i];
      l'.wire == l.wire && Unsent(l') == Unsent(l) + Handed(s.q, i)
  {
    assert SlotOk(s.links[i], s.q, i);
  }

  lemma Associate<T>(a: seq<T>, b: seq<T>, c: seq<T>)
    ensures (a + b) + c == a + (b + c)
  {
  }

  /** The queue thread adds to the slot of a link exactly what it logs as stored. */
  lemma QueueStepConserves(s: State, i: nat)
    requires Inv(s) && Conserved(s, i)
    ensures Conserved(QueueNext(s), i)
  {
    QueueStepStored(s, i);
    QueueStepUnsent(s, i);
    Associate(s.links[i].wire, Unsent(s.links[i]), Handed(s.q, i));
  }

  lemma StepConserves(s: State, ev: Event, i: nat)
    requires Inv(s) && Conserved(s, i) && Enabled(s, ev) && !ev.SendFails?
    ensures Conserved(Next(s, ev), i)
  {
    match ev
    case QueueStep => QueueStepConserves(s, i);
    case LinkStep(j, n) => LinkStepConserves(s.links[j], n, s.q, j);
    case _ =>
  }

  datatype Run = Run(states: seq<State>, events: seq<Event>)

  ghost predicate StepAt(r: Run, k: nat) {
    && |r.states| == |r.events| + 1 && k < |r.events|
    && Enabled(r.states[k], r.events[k]) && r.states[k + 1] == Next(r.states[k], r.events[k])
  }

  ghost predicate ValidRun(r: Run) {
    && |r.states| == |r.events| + 1 && Init(r.states[0])
    && forall k: nat {:trigger StepAt(r, k)} :: k < |r.events| ==> StepAt(r, k)
  }

  lemma {:induction false} ReachableInv(r: Run, k: nat)
    requires ValidRun(r) && k < |r.states|
    ensures Inv(r.states[k]) && |r.states[k].links| == |r.states[0].links|
  {
    if k == 0 {
      assert Inv(r.states[0]);
    } else {
      ReachableInv(r, k - 1);
      assert StepAt(r, k - 1);
      StepInv(r.states[k - 1], r.events[k - 1]);
    }
  }

  /**
   Conservation and order. In every interleaving in which no send fails, the bytes sent on a link followed by what is
   left in its slot are the frames stored for it, in queue order: nothing is lost, overwritten or sent twice. The log,
   the item in hand and the queue make up all that was pushed, in order; and the buffer is free whenever it is filled.
   */
  lemma {:induction false} HandOffConserves(r: Run, k: nat, i: nat)
    requires ValidRun(r) && k < |r.states| && i < |r.states[0].links|
    requires forall j :: 0 <= j < k ==> !r.events[j].SendFails?
    ensures Conserved(r.states[k], i)
    ensures var s := r.states[k];
      && s.pushed == Items(s.log) + (InHand(s.q) + s.queue)
      && (s.q.Copy? && s.q.item.ifc == i ==> s.links[i].buf.None? && !s.links[i].ready)
  {
    ReachableInv(r, k);
    assert SlotOk(r.states[k].links[i], r.states[k].q, i);
    if k == 0 {
      assert r.states[0].links[i] == FRESH_LINK;
    } else {
      HandOffConserves(r, k - 1, i);
      ReachableInv(r, k - 1);
      assert StepAt(r, k - 1);
      StepConserves(r.states[k - 1], r.events[k - 1], i);
    }
  }

  // ---------------------------------------------------------------- concrete runs

  ghost predicate EndsIn(r: Run, s: State) {
    ValidRun(r) && r.states[|r.states| - 1] == s
  }

  lemma Extend(r: Run, s: State, ev: Event) returns (r': Run, s': State)
    requires EndsIn(r, s) && Enabled(s, ev)
    ensures s' == Next(s, ev) && EndsIn(r', s') && r'.events == r.events + [ev]
  {
    s' := Next(s, ev);
    r' := Run(r.states + [s'], r.events + [ev]);
    forall k: nat | k < |r'.events| ensures StepAt(r', k) {
      if k < |r.events| { assert StepAt(r, k); }
    }
  }

  function Slot(f: Bytes, ready: bool, pc: LinkPc): Link {
    Link(true, Some(f), 0, |f|, ready, pc, [], false)
  }

  /** One link, to which a frame has been handed. */
  lemma OneFrameStored(f: Bytes) returns (r: Run, s: State)
    ensures EndsIn(r, s) && s.links == [Slot(f, true, Poll)] && s.q == Pop && s.queue == []
  {
    s := State([], [], [], Pop, [FRESH_LINK]);
    r := Run([s], []);
    r, s := Extend(r, s, Push(Item(0, f)));
    r, s := Extend(r, s, QueueStep);
    r, s := Extend(r, s, QueueStep);
    r, s := Extend(r, s, QueueStep);
    r, s := Extend(r, s, QueueStep);
    r, s := Extend(r, s, QueueStep);
    r, s := Extend(r, s, QueueStep);
  }
}
