/** RIP messages on the wire: big-endian fields, twelve bytes an entry. */
module RipWire {
  import opened Words
  import opened RipTable
  import opened IpHeader

  const MAX_ENTRIES := 64

  function EncodeEntry(e: Entry): (b: seq<byte>)
    ensures |b| == 12
  {
    BE32(e.cost) + BE32(e.address) + BE32(e.mask)
  }

  function DecodeEntry(b: seq<byte>): Entry
    requires |b| == 12
  {
    Entry(FromBE32(b[..4]), FromBE32(b[4..8]), FromBE32(b[8..12]))
  }

  function EncodeEntries(es: seq<Entry>): (b: seq<byte>)
    ensures |b| == 12 * |es|
  {
    if es == [] then [] else EncodeEntries(es[..|es| - 1]) + EncodeEntry(es[|es| - 1])
  }

  /** The first `n` entries found in `b`. */
  function DecodeEntries(b: seq<byte>, n: nat): (es: seq<Entry>)
    requires |b| >= 12 * n
    ensures |es| == n
  {
    if n == 0 then [] else DecodeEntries(b, n - 1) + [DecodeEntry(b[12 * (n - 1)..12 * n])]
  }

  function EncodeMsg(cmd: uint16, es: seq<Entry>): seq<byte> {
    BE16(cmd) + BE16(|es| % 65536) + EncodeEntries(es)
  }

  /** A message body, after the command field, holds the number of entries it announces. */
  predicate WellSized(body: seq<byte>) {
    |body| >= 2 && |body| >= 2 + 12 * FromBE16(body[..2])
  }

  function DecodeBody(body: seq<byte>): seq<Entry>
    requires WellSized(body)
  {
    DecodeEntries(body[2..], FromBE16(body[..2]))
  }

  lemma EntryRoundTrip(e: Entry)
    ensures DecodeEntry(EncodeEntry(e)) == e
  {
    var b := EncodeEntry(e);
    assert b[..4] == BE32(e.cost) && b[4..8] == BE32(e.address) && b[8..12] == BE32(e.mask);
    BE32RoundTrip(e.cost);
    BE32RoundTrip(e.address);
    BE32RoundTrip(e.mask);
  }

  lemma SliceOfFirst(b: seq<byte>, c: seq<byte>, lo: nat, hi: nat)
    requires lo <= hi <= |b|
    ensures (b + c)[lo..hi] == b[lo..hi]
  {
  }

  /** Decoding looks at the first `12 * n` bytes only. */
  lemma {:induction false} DecodePrefix(b: seq<byte>, c: seq<byte>, n: nat)
    requires |b| >= 12 * n
    ensures DecodeEntries(b + c, n) == DecodeEntries(b, n)
  {
    if n == 0 {
    } else {
      DecodePrefix(b, c, n - 1);
      SliceOfFirst(b, c, 12 * (n - 1), 12 * n);
    }
  }

  lemma LastSlice(b: seq<byte>, c: seq<byte>, n: nat)
    requires |b| == 12 * n && |c| == 12
    ensures (b + c)[12 * n..12 * (n + 1)] == c
  {
  }

  lemma {:induction false} EntriesRoundTrip(es: seq<Entry>)
    ensures DecodeEntries(EncodeEntries(es), |es|) == es
  {
    if es == [] {
    } else {
      var es', e := es[..|es| - 1], es[|es| - 1];
      var b, c := EncodeEntries(es'), EncodeEntry(e);
      EntriesRoundTrip(es');
      DecodePrefix(b, c, |es'|);
      LastSlice(b, c, |es'|);
      EntryRoundTrip(e);
      assert DecodeEntries(b + c, |es'| + 1) == es' + [e];
    }
  }

  lemma MsgRoundTrip(cmd: uint16, es: seq<Entry>)
    requires |es| < 65536
    ensures var b := EncodeMsg(cmd, es);
      |b| == 4 + 12 * |es| && FromBE16(b[..2]) == cmd && WellSized(b[2..]) && DecodeBody(b[2..]) == es
  {
    var b := EncodeMsg(cmd, es);
    assert b[..2] == BE16(cmd) && b[2..][..2] == BE16(|es|) && b[2..][2..] == EncodeEntries(es);
    BE16RoundTrip(cmd);
    BE16RoundTrip(|es|);
    EntriesRoundTrip(es);
  }

  /** `es` lists table `t` in key order, with the routes learned on the interface with address `vip` at cost 16. */
  ghost predicate ListsTable(es: seq<Entry>, t: Table, vip: uint32) {
    && |es| == |t|
    && forall i :: 0 <= i < |es| ==> ListsRoute(es[i], t, SortedKeys(t.Keys)[i], vip)
  }

  predicate ListsRoute(e: Entry, t: Table, a: uint32, vip: uint32) {
    && a in t && e.address == t[a].e.address && e.mask == t[a].e.mask
    && e.cost == if t[a].nextHop == vip && e.address != vip then 16 else t[a].e.cost
  }

  lemma AdvertiseListsTable(t: Table, vip: uint32)
    ensures ListsTable(Advertise(t, vip), t, vip)
  {
    var es := Advertise(t, vip);
    forall i | 0 <= i < |es| ensures ListsRoute(es[i], t, SortedKeys(t.Keys)[i], vip) {
      assert SortedKeys(t.Keys)[i] in t.Keys;
    }
  }

  /**
   A table announced on the interface with address `vip` and read back by a receiver lists the sender's table,
   and merging it has the same effect as merging a message without the poisoned routes.
   */
  lemma AnnouncementRoundTrip(t: Table, vip: uint32, cmd: uint16, u: Table, mine: seq<uint32>, hop: uint32, now: Time)
    requires |t| <= MAX_ENTRIES
    ensures var b := EncodeMsg(cmd, Advertise(t, vip));
      && |b| >= 2 && WellSized(b[2..])
      && ListsTable(DecodeBody(b[2..]), t, vip)
      && Merge(u, mine, DecodeBody(b[2..]), hop, now) == Merge(u, mine, DropPoisoned(DecodeBody(b[2..])), hop, now)
  {
    AdvertiseListsTable(t, vip);
    MsgRoundTrip(cmd, Advertise(t, vip));
    PoisonIsSilence(u, mine, Advertise(t, vip), hop, now);
  }

  // ---------------------------------------------------------------- the layout, byte by byte

  /** An entry at offset `off`: four bytes each of cost, address and mask, in this order, high byte first. */
  predicate EntryAt(b: seq<byte>, off: nat, cost: uint32, address: uint32, mask: uint32) {
    Big32At(b, off, cost) && Big32At(b, off + 4, address) && Big32At(b, off + 8, mask)
  }

  /** The `k`-th entry of a message that tells table `t` on the interface with address `vip`, for the `k`-th key. */
  predicate TellsKey(b: seq<byte>, k: nat, t: Table, a: uint32, vip: uint32) {
    && a in t
    && EntryAt(b, 4 + 12 * k, if t[a].nextHop == vip && a != vip then 16 else t[a].e.cost, a, t[a].e.mask)
  }

  /**
   A message on the wire: two bytes command, two bytes number of entries, and twelve bytes for every key of the table
   in ascending order, with routes learned on that interface at cost 16.
   */
  ghost predicate TellsTable(b: seq<byte>, cmd: uint16, t: Table, vip: uint32) {
    && |b| == 4 + 12 * |t| && Big16At(b, 0, cmd) && Big16At(b, 2, |t|)
    && forall k {:trigger SortedKeys(t.Keys)[k]} :: 0 <= k < |t| ==> TellsKey(b, k, t, SortedKeys(t.Keys)[k], vip)
  }

  lemma EntryBytes(e: Entry)
    ensures EntryAt(EncodeEntry(e), 0, e.cost, e.address, e.mask)
  {
    var b := EncodeEntry(e);
    assert b[0..4] == BE32(e.cost) && b[4..8] == BE32(e.address) && b[8..12] == BE32(e.mask);
    BE32Bytes(e.cost);
    BE32Bytes(e.address);
    BE32Bytes(e.mask);
    Shift32(b, 0, e.cost, BE32(e.cost));
    Shift32(b, 4, e.address, BE32(e.address));
    Shift32(b, 8, e.mask, BE32(e.mask));
  }

  lemma ShiftEntry(b: seq<byte>, off: nat, c: seq<byte>, cost: uint32, address: uint32, mask: uint32)
    requires off + 12 <= |b| && b[off..off + 12] == c && EntryAt(c, 0, cost, address, mask)
    ensures EntryAt(b, off, cost, address, mask)
  {
    assert forall i {:trigger c[i]} :: 0 <= i < 12 ==> c[i] == b[off + i];
  }

  lemma {:induction false} EntriesSlice(es: seq<Entry>, k: nat)
    requires k < |es|
    ensures EncodeEntries(es)[12 * k..12 * k + 12] == EncodeEntry(es[k])
  {
    var es', last := es[..|es| - 1], EncodeEntry(es[|es| - 1]);
    if k == |es| - 1 {
      LastSlice(EncodeEntries(es'), last, k);
    } else {
      EntriesSlice(es', k);
      SliceOfFirst(EncodeEntries(es'), last, 12 * k, 12 * k + 12);
    }
  }

  lemma MsgHeadBytes(cmd: uint16, es: seq<Entry>)
    requires |es| < 65536
    ensures var b := EncodeMsg(cmd, es); Big16At(b, 0, cmd) && Big16At(b, 2, |es|)
  {
    BE16Bytes(cmd);
    BE16Bytes(|es|);
  }

  lemma MsgEntryBytes(cmd: uint16, es: seq<Entry>, k: nat)
    requires |es| < 65536 && k < |es|
    ensures EntryAt(EncodeMsg(cmd, es), 4 + 12 * k, es[k].cost, es[k].address, es[k].mask)
  {
    var b, c := EncodeMsg(cmd, es), EncodeEntries(es);
    EntriesSlice(es, k);
    assert b[4 + 12 * k..4 + 12 * k + 12] == c[12 * k..12 * k + 12];
    EntryBytes(es[k]);
    ShiftEntry(b, 4 + 12 * k, EncodeEntry(es[k]), es[k].cost, es[k].address, es[k].mask);
  }

  /** What is written for a table is its message, byte for byte. */
  lemma TableBytes(cmd: uint16, t: Table, vip: uint32)
    requires |t| < 65536 && forall a :: a in t ==> t[a].e.address == a
    ensures TellsTable(EncodeMsg(cmd, Advertise(t, vip)), cmd, t, vip)
  {
    var es, keys := Advertise(t, vip), SortedKeys(t.Keys);
    MsgHeadBytes(cmd, es);
    forall k | 0 <= k < |t| ensures TellsKey(EncodeMsg(cmd, es), k, t, keys[k], vip) {
      assert keys[k] in t.Keys;
      MsgEntryBytes(cmd, es, k);
      AdvertiseListsTable(t, vip);
      assert ListsRoute(es[k], t, keys[k], vip);
    }
  }

  /** What a reader takes the `k`-th entry of a message body to be. */
  predicate ReadsEntry(body: seq<byte>, k: nat, e: Entry) {
    && 2 + 12 * k + 12 <= |body|
    && e.cost == Value32(body, 2 + 12 * k) && e.address == Value32(body, 2 + 12 * k + 4)
    && e.mask == Value32(body, 2 + 12 * k + 8)
  }

  /** The entries of a message body, after the command: two bytes tell how many, and twelve bytes each one. */
  ghost predicate ReadsBody(body: seq<byte>, es: seq<Entry>) {
    && |body| >= 2 && |es| == 256 * (body[0] as int) + body[1]
    && forall k {:trigger es[k]} :: 0 <= k < |es| ==> ReadsEntry(body, k, es[k])
  }

  lemma DecodedBytes(b: seq<byte>)
    requires |b| == 12
    ensures DecodeEntry(b) == Entry(Value32(b, 0), Value32(b, 4), Value32(b, 8))
  {
    FromBE32Value(b, 0);
    FromBE32Value(b, 4);
    FromBE32Value(b, 8);
  }

  lemma {:induction false} DecodedEntry(b: seq<byte>, n: nat, k: nat)
    requires |b| >= 12 * n && k < n
    ensures DecodeEntries(b, n)[k] == DecodeEntry(b[12 * k..12 * (k + 1)])
  {
    if k == n - 1 {
    } else {
      DecodedEntry(b, n - 1, k);
    }
  }

  lemma SliceValue(b: seq<byte>, c: seq<byte>, off: nat, j: nat)
    requires off + 12 <= |b| && c == b[off..off + 12] && j + 4 <= 12
    ensures Value32(c, j) == Value32(b, off + j)
  {
    assert forall i {:trigger c[i]} :: 0 <= i < 12 ==> c[i] == b[off + i];
  }

  /** What is decoded from a body is what its bytes say. */
  lemma BodyBytes(body: seq<byte>)
    requires WellSized(body)
    ensures ReadsBody(body, DecodeBody(body))
  {
    var es := DecodeBody(body);
    forall k | 0 <= k < |es| ensures ReadsEntry(body, k, es[k]) {
      DecodedEntry(body[2..], |es|, k);
      var c := body[2..][12 * k..12 * (k + 1)];
      assert c == body[2 + 12 * k..2 + 12 * k + 12];
      DecodedBytes(c);
      SliceValue(body, c, 2 + 12 * k, 0);
      SliceValue(body, c, 2 + 12 * k, 4);
      SliceValue(body, c, 2 + 12 * k, 8);
    }
  }
}
