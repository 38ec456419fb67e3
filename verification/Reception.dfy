/** How a link layer reads a frame off its socket: the loop of `recv_data`, datagram by datagram. */
module Reception {
  import opened Words
  import opened Checksum
  import opened IpHeader

  /** MAXBUFF, the size of the receive buffer. */
  const RECV_MAX := 1024

  /** One return of `recvfrom`: an error, or a datagram and the port it came from. */
  datatype Arrival = Failed | Datagram(port: nat, bytes: seq<byte>)

  /** The loop under way: buffer, `totalbytes`, `frame_length`, and the port of the last datagram. */
  datatype Progress = Progress(buf: seq<byte>, total: int, want: uint16, port: nat)

  /** What the loop comes to: it still waits, or hands over the first `total` bytes from `buf` on. */
  datatype Reading =
    | Waiting(p: Progress)
    | HandedOver(buf: seq<byte>, total: int, port: nat, rest: seq<Arrival>)

  /** A datagram is cut off at the end of the buffer. */
  function Stored(d: seq<byte>): (r: seq<byte>)
    ensures |r| <= RECV_MAX
  {
    if |d| <= RECV_MAX then d else d[..RECV_MAX]
  }

  /** Every datagram is stored at the beginning of the buffer, over what was there. */
  function Overwrite(buf: seq<byte>, d: seq<byte>): (r: seq<byte>)
    requires |d| <= |buf|
    ensures |r| == |buf| && r[..|d|] == d && r[|d|..] == buf[|d|..]
  {
    d + buf[|d|..]
  }

  function ReadOne(p: Progress, a: Arrival): (p': Progress)
    requires |p.buf| == RECV_MAX
    ensures |p'.buf| == RECV_MAX
  {
    var buf := if a.Failed? then p.buf else Overwrite(p.buf, Stored(a.bytes));
    Progress(buf, p.total + if a.Failed? then -1 else |Stored(a.bytes)|,
             if p.total == 0 then FromBE16(buf[2..4]) else p.want, if a.Failed? then p.port else a.port)
  }

  function Drain(p: Progress, q: seq<Arrival>): (r: Reading)
    requires |p.buf| == RECV_MAX
    ensures r.HandedOver? ==> |r.buf| == RECV_MAX
    decreases |q|
  {
    if q == [] then Waiting(p)
    else
      var p' := ReadOne(p, q[0]);
      if p'.total >= p'.want then HandedOver(p'.buf, p'.total, p'.port, q[1..]) else Drain(p', q[1..])
  }

  /** `recv_data`, up to the hand-over to the network layer; `q` is what its socket returns. */
  method RecvData(buf: array<byte>, q: seq<Arrival>, anyPort: nat) returns (r: Reading)
    requires buf.Length == RECV_MAX
    modifies buf
    ensures r == Drain(Progress(old(buf[..]), 0, 0, anyPort), q)
  {
    var total, want: uint16, port, i := 0, 0, anyPort, 0;
    while i < |q|
      invariant 0 <= i <= |q|
      invariant Drain(Progress(buf[..], total, want, port), q[i..]) == Drain(Progress(old(buf[..]), 0, 0, anyPort), q)
    {
      ghost var p := Progress(buf[..], total, want, port);
      var n := -1;
      if q[i].Datagram? {
        n := StoreDatagram(buf, q[i].bytes);
        port := q[i].port;
      }
      if total == 0 {
        want := FromBE16(buf[2..4]);
        assert buf[2..4] == buf[..][2..4];
      }
      total := total + n;
      assert Progress(buf[..], total, want, port) == ReadOne(p, q[i]);
      assert q[i..][1..] == q[i + 1..];
      i := i + 1;
      if total >= want {
        return HandedOver(buf[..], total, port, q[i..]);
      }
    }
    return Waiting(Progress(buf[..], total, want, port));
  }

  /** A successful `recvfrom`. */
  method StoreDatagram(buf: array<byte>, d: seq<byte>) returns (n: nat)
    requires buf.Length == RECV_MAX
    modifies buf
    ensures n == |Stored(d)| && buf[..] == Overwrite(old(buf[..]), Stored(d))
  {
    n := if |d| <= RECV_MAX then |d| else RECV_MAX;
    for i := 0 to n
      invariant forall k :: 0 <= k < RECV_MAX ==> buf[k] == if k < i then d[k] else old(buf[k])
    {
      buf[i] := d[i];
    }
    assert d[..n] == Stored(d);
  }

  // ---------------------------------------------------------------- which frames come through

  /** The length field of the frame is its length. */
  predicate Truthful(f: seq<byte>) {
    |f| >= 20 && FromBE16(f[2..4]) == |f|
  }

  /** Exactly the frame is handed over. */
  predicate Whole(r: Reading, f: seq<byte>) {
    r.HandedOver? && r.total == |f| <= |r.buf| && r.buf[..|f|] == f
  }

  /** A frame that fits is handed over at once, under its sender's port, and the loop reads no further. */
  lemma ShortFrame(buf: seq<byte>, anyPort: nat, port: nat, f: seq<byte>, q: seq<Arrival>)
    requires |buf| == RECV_MAX && Truthful(f) && |f| <= RECV_MAX
    ensures Drain(Progress(buf, 0, 0, anyPort), [Datagram(port, f)] + q) == HandedOver(Overwrite(buf, f), |f|, port, q)
  {
    var q' := [Datagram(port, f)] + q;
    assert q'[0] == Datagram(port, f) && q'[1..] == q;
    assert Overwrite(buf, f)[2..4] == f[2..4];
  }

  /**
   A frame that does not fit is swallowed: the loop waits for another datagram, stores it over the beginning of the
   frame, and hands it over in the name of its own sender, as if it were 1024 bytes longer.
   */
  lemma LongFrame(buf: seq<byte>, anyPort: nat, port: nat, f: seq<byte>, port': nat, g: seq<byte>, q: seq<Arrival>)
    requires |buf| == RECV_MAX && Truthful(f) && RECV_MAX < |f| <= RECV_MAX + |Stored(g)|
    ensures Drain(Progress(buf, 0, 0, anyPort), [Datagram(port, f)]).Waiting?
    ensures Drain(Progress(buf, 0, 0, anyPort), [Datagram(port, f), Datagram(port', g)] + q)
         == HandedOver(Overwrite(Stored(f), Stored(g)), RECV_MAX + |Stored(g)|, port', q)
  {
    var p := Progress(buf, 0, 0, anyPort);
    var p' := Progress(Stored(f), RECV_MAX, |f|, port);
    var q1, q2 := [Datagram(port, f)], [Datagram(port, f), Datagram(port', g)] + q;
    assert Overwrite(buf, Stored(f)) == Stored(f) && Stored(f)[2..4] == f[2..4];
    assert ReadOne(p, Datagram(port, f)) == p';
    assert q1[1..] == [] && q2[1..] == [Datagram(port', g)] + q && q2[1..][1..] == q;
    assert Drain(p, q2) == Drain(p', q2[1..]);
  }

  /** Whatever is in the buffer and whatever follows, a frame is handed over whole iff it is at most 1024 bytes. */
  lemma WholeIffShort(buf: seq<byte>, anyPort: nat, port: nat, f: seq<byte>, q: seq<Arrival>)
    requires |buf| == RECV_MAX && Truthful(f)
    ensures Whole(Drain(Progress(buf, 0, 0, anyPort), [Datagram(port, f)] + q), f) <==> |f| <= RECV_MAX
  {
    if |f| <= RECV_MAX {
      ShortFrame(buf, anyPort, port, f, q);
    }
  }

  /**
   An error before the frame makes the loop count one byte short and wait for whatever length the buffer happened to
   hold: the frame's own length field is never read, and even if the frame is handed over at once, its last byte is not.
   */
  lemma FrameAfterError(buf: seq<byte>, anyPort: nat, port: nat, f: seq<byte>, q: seq<Arrival>)
    requires |buf| == RECV_MAX && 20 <= |f| <= RECV_MAX
    ensures var stale := 256 * (buf[2] as int) + buf[3];
      var r := Drain(Progress(buf, 0, 0, anyPort), [Failed, Datagram(port, f)] + q);
      && (|f| - 1 >= stale ==> r == HandedOver(Overwrite(buf, f), |f| - 1, port, q))
      && (|f| - 1 < stale ==> r == Drain(Progress(Overwrite(buf, f), |f| - 1, stale, port), q))
  {
    var p, q' := Progress(buf, 0, 0, anyPort), [Failed, Datagram(port, f)] + q;
    var stale := FromBE16(buf[2..4]);
    assert ReadOne(p, Failed) == Progress(buf, -1, stale, anyPort);
    assert q'[1..] == [Datagram(port, f)] + q && q'[1..][1..] == q;
    assert ReadOne(Progress(buf, -1, stale, anyPort), Datagram(port, f))
        == Progress(Overwrite(buf, f), |f| - 1, stale, port);
    assert Drain(p, q') == Drain(Progress(buf, -1, stale, anyPort), q'[1..]);
  }

  // ---------------------------------------------------------------- the packets of this stack

  /** The length field of a header. */
  function FrameLen(hdr: Header): uint16 {
    FromBE16(hdr[2..4])
  }

  /** The largest payload that comes through. */
  const MAX_PAYLOAD := 1004

  /** A packet that is built is truthful, as long as its length fits into the length field. */
  lemma BuiltLength(h: Host, src: uint32, dst: uint32, proto: byte, data: seq<byte>)
    requires |data| <= 65515
    ensures FrameLen(Build(h, src, dst, proto, |data|)) == 20 + |data|
    ensures Truthful(Build(h, src, dst, proto, |data|) + data)
  {
    var b, len := Build(h, src, dst, proto, |data|), 20 + |data|;
    BuiltBytes(h, src, dst, proto, |data|);
    assert len % 65536 == len;
    BE16RoundTrip(len);
    LengthField(b, data);
  }

  lemma LengthField(b: Header, data: seq<byte>)
    ensures (b + data)[2..4] == b[2..4] && |b + data| == 20 + |data|
  {
  }

  /** So is a packet that was rewritten in transit. */
  lemma TransitLength(h: Host, hdr: Header, data: seq<byte>)
    requires TransitHeader(h, hdr).Forward?
    ensures FrameLen(TransitHeader(h, hdr).hdr) == FrameLen(hdr)
    ensures Truthful(hdr + data) ==> Truthful(TransitHeader(h, hdr).hdr + data)
  {
    TransitBytes(h, hdr);
    var out := TransitHeader(h, hdr).hdr;
    assert out[2..4] == out[..8][2..4] == hdr[..8][2..4] == hdr[2..4];
    assert (out + data)[2..4] == out[2..4] && (hdr + data)[2..4] == hdr[2..4];
  }
}
