/** The 20-byte IP header: how it is built, checked and rewritten in transit, byte for byte. */
module IpHeader {
  import opened Words
  import opened Checksum

  const RIP_PROTO: byte := 200
  /** MAX_COST, the initial TTL. */
  const INITIAL_TTL: byte := 16

  type Header = h: seq<byte> | |h| == 20 witness seq(20, i => 0)

  function BE16(x: uint16): (b: seq<byte>)
    ensures |b| == 2
  {
    [x / 256, x % 256]
  }

  function BE32(x: uint32): (b: seq<byte>)
    ensures |b| == 4
  {
    [x / 0x100_0000, x / 0x1_0000 % 256, x / 256 % 256, x % 256]
  }

  function FromBE16(b: seq<byte>): uint16
    requires |b| == 2
  {
    Word(BigEndian, b[0], b[1])
  }

  function FromBE32(b: seq<byte>): uint32
    requires |b| == 4
  {
    0x1_0000 * Word(BigEndian, b[0], b[1]) + Word(BigEndian, b[2], b[3])
  }

  // ---------------------------------------------------------------- single bytes, high byte first

  /** `x` is written at offset `off` in two bytes. */
  predicate Big16At(b: seq<byte>, off: nat, x: int) {
    off + 2 <= |b| && b[off] == x / 256 && b[off + 1] == x % 256
  }

  /** `x` is written at offset `off` in four bytes. */
  predicate Big32At(b: seq<byte>, off: nat, x: int) {
    && off + 4 <= |b|
    && b[off] == x / 0x100_0000 && b[off + 1] == x / 0x1_0000 % 256 && b[off + 2] == x / 256 % 256
    && b[off + 3] == x % 256
  }

  /** What a reader finds in four bytes. */
  function Value32(b: seq<byte>, off: nat): uint32
    requires off + 4 <= |b|
  {
    0x100_0000 * (b[off] as int) + 0x1_0000 * (b[off + 1] as int) + 0x100 * (b[off + 2] as int) + b[off + 3]
  }

  lemma BE16Bytes(x: uint16)
    ensures Big16At(BE16(x), 0, x)
  {
  }

  lemma BE32Bytes(x: uint32)
    ensures Big32At(BE32(x), 0, x)
  {
  }

  lemma Shift32(b: seq<byte>, lo: nat, x: int, c: seq<byte>)
    requires lo + 4 <= |b| && b[lo..lo + 4] == c && Big32At(c, 0, x)
    ensures Big32At(b, lo, x)
  {
    assert c[0] == b[lo] && c[1] == b[lo + 1] && c[2] == b[lo + 2] && c[3] == b[lo + 3];
  }

  lemma FromBE32Value(b: seq<byte>, off: nat)
    requires off + 4 <= |b|
    ensures FromBE32(b[off..off + 4]) == Value32(b, off)
  {
  }

  lemma BE32RoundTrip(x: uint32)
    ensures FromBE32(BE32(x)) == x
  {
    var a, b := x / 256, x / 0x1_0000;
    assert b == a / 256 && x / 0x100_0000 == b / 256;
    assert x == 256 * a + x % 256 && a == 256 * b + a % 256 && b == 256 * (b / 256) + b % 256;
  }

  lemma BE16RoundTrip(x: uint16)
    ensures FromBE16(BE16(x)) == x
  {
  }

  /** `ntohs` and `htons`: the same byte swap, or nothing. */
  function Ntohs(h: Host, w: uint16): uint16 {
    match h
    case LittleEndian => w / 256 + 256 * (w % 256)
    case BigEndian => w
  }

  function Zeroed(hdr: Header): Header {
    hdr[..10] + [0, 0] + hdr[12..]
  }

  /** The header with its checksum recomputed and stored by host `h`. */
  function Seal(h: Host, hdr: Header): Header {
    hdr[..10] + WordBytes(h, Csum(h, Zeroed(hdr))) + hdr[12..]
  }

  function CheckField(h: Host, hdr: Header): uint16 {
    Word(h, hdr[10], hdr[11])
  }

  /** The receiver's test: zero the field, recompute, compare. */
  predicate Accepts(h: Host, hdr: Header) {
    CheckField(h, hdr) == Csum(h, Zeroed(hdr))
  }

  /** The test of RFC 1071: the sum over the whole header, checksum included, is all ones. */
  predicate AllOnes(h: Host, hdr: Header) {
    OnesSum(RawSum(h, hdr)) == 65535
  }

  function Dest(hdr: Header): uint32 {
    FromBE32(hdr[16..20])
  }

  function Unsealed(src: uint32, dst: uint32, proto: byte, datasz: nat): Header {
    [0x45, 0] + BE16((20 + datasz) % 65536) + [0, 0, 0, 0, INITIAL_TTL, proto, 0, 0] + BE32(src) + BE32(dst)
  }

  /** `build_ip_packet`, the header part. */
  function Build(h: Host, src: uint32, dst: uint32, proto: byte, datasz: nat): Header {
    Seal(h, Unsealed(src, dst, proto, datasz))
  }

  lemma SealKeeps(h: Host, hdr: Header)
    ensures forall i :: 0 <= i < 20 && !(10 <= i < 12) ==> Seal(h, hdr)[i] == hdr[i]
  {
  }

  lemma UnsealedBytes(src: uint32, dst: uint32, proto: byte, datasz: nat)
    ensures var u := Unsealed(src, dst, proto, datasz);
      && u[0] == 0x45 && u[8] == INITIAL_TTL && u[9] == proto
      && u[2..4] == BE16((20 + datasz) % 65536) && u[12..16] == BE32(src) && u[16..20] == BE32(dst)
      && u[1] == u[4] == u[5] == u[6] == u[7] == 0
  {
  }

  /** What a built header says. */
  lemma BuiltBytes(h: Host, src: uint32, dst: uint32, proto: byte, datasz: nat)
    ensures var b := Build(h, src, dst, proto, datasz);
      && b[0] == 0x45 && b[1] == b[4] == b[5] == b[6] == b[7] == 0 && b[8] == 16 && b[9] == proto
      && b[2..4] == BE16((20 + datasz) % 65536) && b[16..20] == BE32(dst)
      && Big32At(b, 12, src) && Big32At(b, 16, dst)
  {
    var u, b := Unsealed(src, dst, proto, datasz), Build(h, src, dst, proto, datasz);
    SealKeeps(h, u);
    UnsealedBytes(src, dst, proto, datasz);
    assert b[2..4] == u[2..4] && b[12..16] == u[12..16] && b[16..20] == u[16..20];
    BE32Bytes(src);
    BE32Bytes(dst);
    Shift32(b, 12, src, BE32(src));
    Shift32(b, 16, dst, BE32(dst));
  }

  /**
   A whole packet, byte by byte: version and header length, type of service 0, total length, identification and
   fragment 0, TTL 16, protocol, a checksum that every host accepts, source, destination, and the payload.
   */
  ghost predicate Carries(p: seq<byte>, src: uint32, dst: uint32, proto: byte, data: seq<byte>) {
    && |p| == 20 + |data| && p[20..] == data
    && p[0] == 0x45 && p[1] == 0 && Big16At(p, 2, 20 + |data|) && p[4] == p[5] == p[6] == p[7] == 0
    && p[8] == 16 && p[9] == proto && Big32At(p, 12, src) && Big32At(p, 16, dst)
    && forall h: Host :: Accepts(h, p[..20])
  }

  lemma WithPayload(b: Header, data: seq<byte>)
    ensures var p := b + data;
      |p| == 20 + |data| && p[..20] == b && p[20..] == data && forall i :: 0 <= i < 20 ==> p[i] == b[i]
  {
  }

  lemma BuiltPacket(h: Host, src: uint32, dst: uint32, proto: byte, data: seq<byte>)
    requires |data| <= 65515
    ensures Carries(Build(h, src, dst, proto, |data|) + data, src, dst, proto, data)
  {
    var b := Build(h, src, dst, proto, |data|);
    WithPayload(b, data);
    BuiltBytes(h, src, dst, proto, |data|);
    assert (20 + |data|) % 65536 == 20 + |data|;
    BE16Bytes(20 + |data|);
    assert b[2] == b[2..4][0] && b[3] == b[2..4][1];
    forall h': Host ensures Accepts(h', b) { SealAccepted(h, h', Unsealed(src, dst, proto, |data|)); }
  }

  // ---------------------------------------------------------------- transit

  /** The 16-bit value computed from the 8-bit TTL: `ntohs(ttl) - 1`, wrapping. */
  function Decremented(h: Host, ttl: byte): uint16 {
    var w := Ntohs(h, ttl);
    if w == 0 then 65535 else w - 1
  }

  datatype Transit = Dropped | Forward(hdr: Header)

  /** What a transit node does to a header: two bytes are written over TTL and protocol, then it is resealed. */
  function TransitHeader(h: Host, hdr: Header): Transit {
    var v := Decremented(h, hdr[8]);
    if v == 0 then Dropped
    else Forward(Seal(h, hdr[..8] + WordBytes(h, Ntohs(h, v)) + hdr[10..]))
  }

  /**
   The bytes a transit node leaves behind. A little-endian one takes one off the TTL, modulo 256, and turns the
   protocol into 255; a big-endian one writes the high byte 0 over the TTL and TTL - 1 over the protocol, except
   that TTL 0 becomes 255, 255. Only a big-endian host ever drops, and only at TTL 1.
   */
  lemma TransitBytes(h: Host, hdr: Header)
    ensures TransitHeader(h, hdr).Dropped? <==> h.BigEndian? && hdr[8] == 1
    ensures TransitHeader(h, hdr).Forward? ==>
      var out := TransitHeader(h, hdr).hdr;
      && out[8] == (if hdr[8] == 0 then 255 else if h.LittleEndian? then hdr[8] - 1 else 0)
      && out[9] == (if h.LittleEndian? || hdr[8] == 0 then 255 else hdr[8] - 1)
      && out[..8] == hdr[..8] && out[12..] == hdr[12..]
  {
    var v := Decremented(h, hdr[8]);
    DecrementedBytes(h, hdr[8]);
    StoredBig(h, v);
    SealedTransit(h, hdr, [v / 256, v % 256]);
  }

  lemma SealedTransit(h: Host, hdr: Header, b: seq<byte>)
    requires |b| == 2
    ensures var out := Seal(h, hdr[..8] + b + hdr[10..]);
      out[8] == b[0] && out[9] == b[1] && out[..8] == hdr[..8] && out[12..] == hdr[12..]
  {
  }

  lemma DecrementedBytes(h: Host, ttl: byte)
    ensures Decremented(h, ttl) == 0 <==> h.BigEndian? && ttl == 1
    ensures Decremented(h, ttl) / 256 == (if ttl == 0 then 255 else if h.LittleEndian? then ttl - 1 else 0)
    ensures Decremented(h, ttl) % 256 == (if h.LittleEndian? || ttl == 0 then 255 else ttl - 1)
  {
    if h.LittleEndian? && ttl > 0 {
      assert Decremented(h, ttl) == 256 * (ttl - 1) + 255;
      DivMod256(ttl - 1, 255);
    }
  }

  lemma StoredBig(h: Host, v: uint16)
    ensures WordBytes(h, Ntohs(h, v)) == [v / 256, v % 256]
  {
    if h.LittleEndian? {
      DivMod256(v % 256, v / 256);
    }
  }

  /** The header after `k` transits of little-endian nodes. */
  function AfterTransits(hdr: Header, k: nat): Transit {
    if k == 0 then Forward(hdr)
    else OneMore(AfterTransits(hdr, k - 1))
  }

  function OneMore(x: Transit): Transit {
    match x
    case Dropped => Dropped
    case Forward(mid) => TransitHeader(LittleEndian, mid)
  }

  predicate AtTtl(x: Transit, ttl: int) {
    x.Forward? && x.hdr[8] == ttl % 256
  }

  lemma OneMoreTtl(x: Transit, ttl: int)
    requires AtTtl(x, ttl)
    ensures AtTtl(OneMore(x), ttl - 1)
  {
    TransitBytes(LittleEndian, x.hdr);
    StepMod(ttl);
  }

  lemma StepMod(ttl: int)
    ensures (ttl - 1) % 256 == if ttl % 256 == 0 then 255 else ttl % 256 - 1
  {
    var q, r := ttl / 256, ttl % 256;
    assert ttl == 256 * q + r;
    if r == 0 {
      DivMod256(q - 1, 255);
    } else {
      DivMod256(q, r - 1);
    }
  }

  /**
   TTL does not bound a packet's life among little-endian nodes: after any number of transits the packet is still
   forwarded, its TTL byte having wrapped as often as need be.
   */
  lemma {:induction false} TtlNeverExpires(hdr: Header, k: nat)
    ensures AtTtl(AfterTransits(hdr, k), hdr[8] as int - k)
  {
    if k == 0 {
    } else {
      TtlNeverExpires(hdr, k - 1);
      OneMoreTtl(AfterTransits(hdr, k - 1), hdr[8] as int - (k - 1));
    }
  }

  // ---------------------------------------------------------------- accepting a header

  /** Sealing by hosts of either kind gives the same bytes. */
  lemma SealIndependent(h: Host, h': Host, hdr: Header)
    ensures Seal(h, hdr) == Seal(h', hdr)
  {
    ByteOrderIndependent(Zeroed(hdr));
  }

  /** Whatever one host seals, every other host accepts. */
  lemma SealAccepted(h: Host, h': Host, hdr: Header)
    ensures Accepts(h', Seal(h, hdr))
  {
    SealIndependent(h, h', hdr);
    var s := Seal(h', hdr);
    assert Zeroed(s) == Zeroed(hdr);
    assert s[10..12] == WordBytes(h', Csum(h', Zeroed(hdr)));
    assert s[10] == s[10..12][0] && s[11] == s[10..12][1];
  }

  /** Headers that are built, and headers that are rewritten in transit, pass at every next hop. */
  lemma ForwardedAccepted(h: Host, h': Host, hdr: Header)
    ensures TransitHeader(h, hdr).Forward? ==> Accepts(h', TransitHeader(h, hdr).hdr)
  {
    var v := Decremented(h, hdr[8]);
    SealAccepted(h, h', hdr[..8] + WordBytes(h, Ntohs(h, v)) + hdr[10..]);
  }

  lemma SumWithCheck(h: Host, hdr: Header)
    ensures RawSum(h, hdr) == RawSum(h, Zeroed(hdr)) + CheckField(h, hdr)
  {
    SplitAtWord(h, hdr, 5);
    var z := Zeroed(hdr);
    SplitAtWord(h, z, 5);
    assert z[..10] == hdr[..10] && z[12..] == hdr[12..];
  }

  lemma SplitAtWord(h: Host, hdr: Header, k: nat)
    requires k < 10
    ensures RawSum(h, hdr)
         == RawSum(h, hdr[..2 * k]) + Word(h, hdr[2 * k], hdr[2 * k + 1]) + RawSum(h, hdr[2 * k + 2..])
  {
    assert hdr == hdr[..2 * k] + hdr[2 * k..];
    RawSumSplit(h, hdr[..2 * k], hdr[2 * k..]);
    assert hdr[2 * k..][2..] == hdr[2 * k + 2..];
  }

  /**
   Zero-and-recompute accepts exactly what the all-ones test accepts, except for a checksum field of 0xFFFF
   on a header that is not otherwise zero.
   */
  lemma VerificationEquivalence(h: Host, hdr: Header)
    ensures Accepts(h, hdr) <==>
      AllOnes(h, hdr) && (CheckField(h, hdr) != 0xFFFF || RawSum(h, Zeroed(hdr)) == 0)
  {
    SumWithCheck(h, hdr);
    var w, c := RawSum(h, Zeroed(hdr)), CheckField(h, hdr);
    var q := OnesSumCongruent(w);
    var q' := OnesSumCongruent(w + c);
    if Accepts(h, hdr) {
      OnesSumUnique(w + c, 65535, q);
    } else if AllOnes(h, hdr) {
      assert OnesSum(w) + c == 65535 * (q' as int + 1 - q as int);
    }
  }

  /** The header with its `k`-th word replaced. */
  function SetWord(h: Host, hdr: Header, k: nat, w: uint16): Header
    requires k < 10
  {
    hdr[..2 * k] + WordBytes(h, w) + hdr[2 * k + 2..]
  }

  /**
   Error detection: change one word other than the checksum of an accepted header, and the result is accepted
   exactly if the change swaps 0x0000 and 0xFFFF in a header whose remaining words are not all zero.
   */
  lemma SingleWordErrors(h: Host, hdr: Header, k: nat, w: uint16)
    requires Accepts(h, hdr) && k < 10 && k != 5
    requires w != Word(h, hdr[2 * k], hdr[2 * k + 1])
    ensures var v := Word(h, hdr[2 * k], hdr[2 * k + 1]);
      Accepts(h, SetWord(h, hdr, k, w)) <==>
        RawSum(h, Zeroed(hdr)) > v && ((v == 0 && w == 0xFFFF) || (v == 0xFFFF && w == 0))
  {
    var v := Word(h, hdr[2 * k], hdr[2 * k + 1]);
    var hdr' := SetWord(h, hdr, k, w);
    ZeroedSetWord(h, hdr, k, w);
    var s := RawSum(h, Zeroed(hdr));
    var rest := s - v;
    assert CheckField(h, hdr') == CheckField(h, hdr);
    assert Accepts(h, hdr') <==> OnesSum(rest + w) == OnesSum(s);
    WordCollision(rest, v, w);
  }

  /** A changed checksum word is always noticed. */
  lemma CheckWordErrors(h: Host, hdr: Header, w: uint16)
    requires Accepts(h, hdr) && w != CheckField(h, hdr)
    ensures !Accepts(h, SetWord(h, hdr, 5, w))
  {
    var hdr' := SetWord(h, hdr, 5, w);
    assert hdr'[10] == WordBytes(h, w)[0] && hdr'[11] == WordBytes(h, w)[1];
    assert Zeroed(hdr') == Zeroed(hdr);
  }

  /** The change of the `k`-th word to `w` is one that the checksum notices. */
  predicate Noticed(h: Host, hdr: Header, k: nat, w: uint16)
    requires k < 10
  {
    var v := Word(h, hdr[2 * k], hdr[2 * k + 1]);
    && w != v
    && (k == 5 || !(RawSum(h, Zeroed(hdr)) > v && ((v == 0 && w == 0xFFFF) || (v == 0xFFFF && w == 0))))
  }

  /** Every noticed change of one word of an accepted header makes it unacceptable. */
  lemma NoticedIsRejected(h: Host, hdr: Header, k: nat, w: uint16)
    requires Accepts(h, hdr) && k < 10 && Noticed(h, hdr, k, w)
    ensures !Accepts(h, SetWord(h, hdr, k, w))
  {
    if k == 5 {
      CheckWordErrors(h, hdr, w);
    } else {
      SingleWordErrors(h, hdr, k, w);
    }
  }

  /** Two different words are interchangeable in a sum only if they are the two zeros and something else is not. */
  lemma WordCollision(rest: nat, v: uint16, w: uint16)
    requires v != w
    ensures OnesSum(rest + w) == OnesSum(rest + v) <==>
      rest > 0 && ((v == 0 && w == 0xFFFF) || (v == 0xFFFF && w == 0))
  {
    var q := OnesSumCongruent(rest + v);
    var q' := OnesSumCongruent(rest + w);
    if rest > 0 && v == 0 && w == 0xFFFF {
      OnesSumUnique(rest + w, OnesSum(rest + v), q + 1);
    }
    if rest > 0 && v == 0xFFFF && w == 0 {
      OnesSumUnique(rest + w, OnesSum(rest + v), q - 1);
    }
    if OnesSum(rest + w) == OnesSum(rest + v) {
      assert w - v == 65535 * (q' as int - q as int);
    }
  }

  lemma SameEnds(x: Header, y: Header, lo: nat, hi: nat)
    requires lo <= hi <= 20 && forall i :: 0 <= i < 20 && !(lo <= i < hi) ==> x[i] == y[i]
    ensures x[..lo] == y[..lo] && x[hi..] == y[hi..]
  {
  }

  lemma ZeroedSetWord(h: Host, hdr: Header, k: nat, w: uint16)
    requires k < 10 && k != 5
    ensures var v := Word(h, hdr[2 * k], hdr[2 * k + 1]);
      && v <= RawSum(h, Zeroed(hdr))
      && RawSum(h, Zeroed(SetWord(h, hdr, k, w))) == RawSum(h, Zeroed(hdr)) - v + w
    ensures SetWord(h, hdr, k, w)[10..12] == hdr[10..12]
  {
    var z, z' := Zeroed(hdr), Zeroed(SetWord(h, hdr, k, w));
    forall i | 0 <= i < 20 && i != 2 * k && i != 2 * k + 1 ensures z'[i] == z[i] {
      assert SetWord(h, hdr, k, w)[i] == hdr[i];
    }
    SplitAtWord(h, z, k);
    SplitAtWord(h, z', k);
    SameEnds(z', z, 2 * k, 2 * k + 2);
    assert z[2 * k] == hdr[2 * k] && z[2 * k + 1] == hdr[2 * k + 1];
    assert z'[2 * k] == WordBytes(h, w)[0] && z'[2 * k + 1] == WordBytes(h, w)[1];
  }
}
