/** The Internet checksum of ipsum.h: one's-complement arithmetic on 16-bit words read in host order. */
module Checksum {
  import opened Words

  datatype Host = LittleEndian | BigEndian

  /** The 16-bit word a host reads from two consecutive bytes. */
  function Word(h: Host, b0: byte, b1: byte): uint16 {
    match h
    case LittleEndian => b0 + 256 * b1
    case BigEndian => 256 * b0 + b1
  }

  /** The two bytes a host stores for a 16-bit word. */
  function WordBytes(h: Host, w: uint16): (b: seq<byte>)
    ensures |b| == 2 && Word(h, b[0], b[1]) == w
  {
    match h
    case LittleEndian => [w % 256, w / 256]
    case BigEndian => [w / 256, w % 256]
  }

  /** The sum of all words; an odd last byte counts as the first byte of a word. */
  function RawSum(h: Host, b: seq<byte>): nat {
    if |b| == 0 then 0
    else if |b| == 1 then Word(h, b[0], 0)
    else Word(h, b[0], b[1]) + RawSum(h, b[2..])
  }

  /** The fully reduced one's-complement value: in 1..65535 and congruent modulo 65535, or 0 for 0. */
  function OnesSum(s: nat): (r: uint16)
    ensures r == 0 <==> s == 0
  {
    if s == 0 then 0 else 1 + (s - 1) % 65535
  }

  function Csum(h: Host, b: seq<byte>): uint16 {
    65535 - OnesSum(RawSum(h, b))
  }

  // ---------------------------------------------------------------- the two folds

  function FoldOnce(s: nat): nat {
    s / 65536 + s % 65536
  }

  /** Two folds and truncation to 16 bits, as ip_sum performs them. */
  function Folded(s: nat): uint16 {
    var s1 := FoldOnce(s);
    (s1 + s1 / 65536) % 65536
  }

  /** `r` is the reduced value of `s` if it is congruent and zero only together with `s`. */
  lemma OnesSumUnique(s: nat, r: uint16, q: int)
    requires s == r + 65535 * q && (r == 0 <==> s == 0)
    ensures OnesSum(s) == r
  {
    if s > 0 {
      assert s - 1 == 65535 * q + (r - 1);
      ModUnique(s - 1, q, r - 1);
    }
  }

  lemma ModUnique(x: int, q: int, r: int)
    requires x == 65535 * q + r && 0 <= r < 65535
    ensures x % 65535 == r && x / 65535 == q
  {
  }

  lemma OnesSumCongruent(s: nat) returns (q: nat)
    ensures s == OnesSum(s) + 65535 * q
  {
    q := if s == 0 then 0 else (s - 1) / 65535;
  }

  lemma FoldCongruent(s: nat)
    ensures s == FoldOnce(s) + 65535 * (s / 65536)
  {
  }

  lemma DropHigh(hi: nat, low: nat)
    ensures (65536 * hi + low) % 65536 == low % 65536
  {
  }

  /** The second fold: value and lost carry. */
  lemma SecondFold(s1: nat) returns (f: uint16, carry: nat)
    requires s1 < 0x8000_0001_0000
    ensures f == (s1 + s1 / 65536) % 65536 && s1 == f + carry + 65535 * (s1 / 65536 + carry) && carry < 65535
    ensures carry == 0 <==> s1 % 65536 + s1 / 65536 < 65536
  {
    var hi, lo := s1 / 65536, s1 % 65536;
    f, carry := (lo + hi) % 65536, (lo + hi) / 65536;
    DropHigh(hi, lo + hi);
    assert s1 + hi == 65536 * hi + (lo + hi);
    assert lo + hi == f + 65536 * carry;
  }

  /** A sum that exceeds a multiple of 65535 by `f` and a small carry reduces to `f` only without the carry. */
  lemma CarryLost(s: nat, f: uint16, carry: nat, q: nat)
    requires s == f + carry + 65535 * q && carry < 65535 && (carry == 0 && f == 0 ==> s == 0)
    ensures f == OnesSum(s) <==> carry == 0
  {
    if carry == 0 {
      OnesSumUnique(s, f, q);
    } else {
      var k := OnesSumCongruent(s);
      assert f == OnesSum(s) ==> carry == 65535 * (k - q);
    }
  }

  /**
   Two folds suffice exactly when the second one leaves no carry. The bound is that of the 64-bit accumulator.
   */
  lemma FoldExact(s: nat)
    requires s < 0x8000_0000_0000_0000
    ensures Folded(s) == OnesSum(s) <==> FoldOnce(s) % 65536 + FoldOnce(s) / 65536 < 65536
  {
    var s1 := FoldOnce(s);
    FoldCongruent(s);
    var f, carry := SecondFold(s1);
    CarryLost(s, f, carry, s / 65536 + s1 / 65536 + carry);
  }

  /** Up to this sum, that of 65538 words 0xFFFF, the folds always suffice. */
  const FOLD_LIMIT := 65535 * 65538

  lemma FoldBound(s: nat)
    requires s <= FOLD_LIMIT
    ensures Folded(s) == OnesSum(s)
  {
    FoldExact(s);
  }

  /** One above it the carry of the second fold is lost. */
  lemma FoldFailsBeyond()
    ensures Folded(FOLD_LIMIT + 1) == 0 && OnesSum(FOLD_LIMIT + 1) == 1
  {
  }

  lemma {:induction false} RawSumBound(h: Host, b: seq<byte>)
    ensures RawSum(h, b) <= 65535 * ((|b| + 1) / 2)
  {
    if |b| <= 1 {
      assert RawSum(h, b) <= 65535 * |b|;
    } else {
      RawSumBound(h, b[2..]);
    }
  }

  lemma WordsWithinLimit(len: nat)
    requires len <= 131076
    ensures 65535 * ((len + 1) / 2) <= FOLD_LIMIT
  {
    assert (len + 1) / 2 <= 65538;
  }

  lemma ShortBufferRight(h: Host, b: seq<byte>)
    requires |b| <= 131076
    ensures Folded(RawSum(h, b)) == OnesSum(RawSum(h, b))
  {
    RawSumBound(h, b);
    WordsWithinLimit(|b|);
    FoldBound(RawSum(h, b));
  }

  lemma NextWord(h: Host, b: seq<byte>, p: nat)
    requires p + 1 < |b|
    ensures RawSum(h, b[p..]) == Word(h, b[p], b[p + 1]) + RawSum(h, b[p + 2..])
  {
    assert b[p..][2..] == b[p + 2..];
  }

  /** The loop of `ip_sum`, and the odd byte. */
  method SumWords(h: Host, packet: array<byte>, len: int) returns (sum: nat)
    requires len <= packet.Length
    ensures sum == RawSum(h, if len <= 0 then [] else packet[..len])
  {
    ghost var bytes := if len <= 0 then [] else packet[..len];
    var p, left := 0, len;
    sum := 0;
    while left > 1
      invariant 0 <= p <= |bytes|
      invariant left == if len <= 0 then len else |bytes| - p
      invariant sum + RawSum(h, bytes[p..]) == RawSum(h, bytes)
    {
      NextWord(h, bytes, p);
      sum := sum + Word(h, packet[p], packet[p + 1]);
      p, left := p + 2, left - 2;
    }
    if left == 1 {
      sum := sum + Word(h, packet[p], 0);
    }
  }

  /** The end of `ip_sum`: two folds, complement, truncation. */
  method FoldTwice(raw: nat) returns (answer: uint16)
    ensures answer == 65535 - Folded(raw)
  {
    var sum := raw / 65536 + raw % 65536;
    sum := sum + sum / 65536;
    answer := 65535 - sum % 65536;
  }

  /**
   `ip_sum`. The result is the complement of the fully reduced sum for every buffer of up to 131076 bytes.
   */
  method IpSum(h: Host, packet: array<byte>, len: int) returns (answer: uint16)
    requires len <= packet.Length
    requires len < 0x8000_0000
    ensures answer == 65535 - Folded(RawSum(h, if len <= 0 then [] else packet[..len]))
    ensures 0 <= len <= 131076 ==> answer == Csum(h, packet[..len])
  {
    ghost var bytes := if len <= 0 then [] else packet[..len];
    var sum := SumWords(h, packet, len);
    answer := FoldTwice(sum);
    if 0 <= len <= 131076 {
      assert bytes == packet[..len];
      ShortBufferRight(h, bytes);
    }
  }

  // ---------------------------------------------------------------- the longest buffer that is summed right

  function Fill(n: nat, v: byte): (b: seq<byte>)
    ensures |b| == n && forall i :: 0 <= i < n ==> b[i] == v
  {
    seq(n, i => v)
  }

  lemma {:induction false} SumOfOnes(h: Host, k: nat)
    ensures RawSum(h, Fill(2 * k, 0xFF)) == 65535 * k
  {
    if k == 0 {
      assert Fill(0, 0xFF) == [];
    } else {
      assert Fill(2 * k, 0xFF)[2..] == Fill(2 * (k - 1), 0xFF);
      SumOfOnes(h, k - 1);
    }
  }

  lemma {:induction false} SumOfZeros(h: Host, n: nat)
    ensures RawSum(h, Fill(n, 0)) == 0
  {
    if n <= 1 {
      assert n == 0 ==> Fill(n, 0) == [];
    } else {
      assert Fill(n, 0)[2..] == Fill(n - 2, 0);
      SumOfZeros(h, n - 2);
    }
  }

  /** A last word and one more byte that bring 65537 words 0xFFFF to one above the limit. */
  function Excess(h: Host): seq<byte> {
    match h
    case LittleEndian => [0xFF, 0xFF, 1]
    case BigEndian => [0xFF, 0, 1]
  }

  lemma SumOfExcess(h: Host, n: nat)
    ensures RawSum(h, Excess(h) + Fill(n, 0)) == 65536
  {
    var b := Excess(h) + Fill(n, 0);
    var rest := b[2..];
    assert rest[0] == 1 && (n > 0 ==> rest[1] == 0 && rest[2..] == Fill(n - 1, 0));
    if n > 0 { SumOfZeros(h, n - 1); }
  }

  /** A buffer of any length from 131077 bytes on whose sum is one above the limit. */
  function LongBuffer(h: Host, n: nat): (b: seq<byte>)
    requires n > 131076
    ensures |b| == n
  {
    Fill(131074, 0xFF) + (Excess(h) + Fill(n - 131077, 0))
  }

  lemma SumOfLongBuffer(h: Host, n: nat)
    requires n > 131076
    ensures RawSum(h, LongBuffer(h, n)) == FOLD_LIMIT + 1
  {
    RawSumSplit(h, Fill(131074, 0xFF), Excess(h) + Fill(n - 131077, 0));
    SumOfOnes(h, 65537);
    SumOfExcess(h, n - 131077);
  }

  /** From 131077 bytes on there is a buffer of every length that both kinds of host sum wrongly. */
  lemma LongBufferFails(h: Host, n: nat)
    requires n > 131076
    ensures Folded(RawSum(h, LongBuffer(h, n))) == 0 && OnesSum(RawSum(h, LongBuffer(h, n))) == 1
  {
    SumOfLongBuffer(h, n);
    FoldFailsBeyond();
  }

  /** `ip_sum` is right for all buffers of `n` bytes, on either kind of host, exactly if `n` is at most 131076. */
  lemma RightIffShort(h: Host, n: nat)
    ensures (forall b: seq<byte> :: |b| == n ==> Folded(RawSum(h, b)) == OnesSum(RawSum(h, b))) <==> n <= 131076
  {
    if n <= 131076 {
      forall b: seq<byte> | |b| == n ensures Folded(RawSum(h, b)) == OnesSum(RawSum(h, b)) {
        ShortBufferRight(h, b);
      }
    } else {
      LongBufferFails(h, n);
    }
  }

  // ---------------------------------------------------------------- padding, splitting, byte order

  /** An odd-length buffer sums like the same buffer padded with a zero byte. */
  lemma {:induction false} OddIsPadded(h: Host, b: seq<byte>)
    requires |b| % 2 == 1
    ensures RawSum(h, b) == RawSum(h, b + [0])
  {
    if |b| <= 1 {
    } else {
      assert (b + [0])[2..] == b[2..] + [0];
      OddIsPadded(h, b[2..]);
    }
  }

  lemma {:induction false} RawSumSplit(h: Host, x: seq<byte>, y: seq<byte>)
    requires |x| % 2 == 0
    ensures RawSum(h, x + y) == RawSum(h, x) + RawSum(h, y)
  {
    if x == [] {
      assert x + y == y;
    } else {
      assert (x + y)[2..] == x[2..] + y;
      RawSumSplit(h, x[2..], y);
    }
  }

  /** The sum of the first bytes of all words. */
  function FirstBytes(b: seq<byte>): nat {
    if |b| == 0 then 0 else if |b| == 1 then b[0] else b[0] + FirstBytes(b[2..])
  }

  /** Swapping the bytes of every word multiplies the sum by 256, modulo 65535. */
  lemma {:induction false} SwappedSum(b: seq<byte>)
    ensures RawSum(LittleEndian, b) + 65535 * FirstBytes(b) == 256 * RawSum(BigEndian, b)
    ensures RawSum(LittleEndian, b) == 0 <==> RawSum(BigEndian, b) == 0
  {
    if |b| <= 1 {
    } else {
      SwappedSum(b[2..]);
    }
  }

  /** Byte-order independence: hosts of either kind put the same two checksum bytes on the wire. */
  lemma ByteOrderIndependent(b: seq<byte>)
    ensures WordBytes(LittleEndian, Csum(LittleEndian, b)) == WordBytes(BigEndian, Csum(BigEndian, b))
  {
    SwappedSum(b);
    var le, be := RawSum(LittleEndian, b), RawSum(BigEndian, b);
    var r := OnesSum(be);
    var q := OnesSumCongruent(be);
    var swapped := r / 256 + 256 * (r % 256);
    assert swapped == 256 * r - 65535 * (r / 256);
    OnesSumUnique(le, swapped, 256 * q + r / 256 - FirstBytes(b));
    ComplementSwaps(r);
  }

  lemma ComplementSwaps(r: uint16)
    ensures var c, s := 65535 - r, 65535 - (r / 256 + 256 * (r % 256));
      s % 256 == c / 256 && s / 256 == c % 256
  {
    var hi, lo := r / 256, r % 256;
    assert 65535 - r == 256 * (255 - hi) + (255 - lo);
    assert 65535 - (hi + 256 * lo) == 256 * (255 - lo) + (255 - hi);
    DivMod256(255 - hi, 255 - lo);
    DivMod256(255 - lo, 255 - hi);
  }

  lemma DivMod256(hi: int, lo: byte)
    ensures (256 * hi + lo) / 256 == hi && (256 * hi + lo) % 256 == lo
  {
  }
}
