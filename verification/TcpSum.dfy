/** The checksum of STCP segments: words in the byte order of the host, a pseudo header, the
    `th_sum` field skipped, and exactly two folds of a signed 32-bit sum. */
module TcpSum {
  import opened Bytes
  import opened InternetChecksum
  import RouterChecksum

  /** sizeof(struct tcphdr), and where th_sum lies in it. */
  const HEADER: nat := 20
  const SUM_OFFSET: nat := 16
  const IPPROTO_TCP: byte := 6

  /** Up to this segment length the signed accumulator cannot overflow. */
  const LONGEST: nat := 65528

  /** An IPv4 address: four octets in network order. */
  type Address = a: seq<byte> | |a| == 4 witness [0, 0, 0, 0]

  function PseudoHeader(src: Address, dst: Address, len: nat): (h: seq<byte>)
    ensures |h| == 12
  {
    src + dst + [0, IPPROTO_TCP] + Store(true, len % 0x1_0000)
  }

  /** What RFC 793 sums: pseudo header and segment, with the checksum field zero. */
  function Covered(src: Address, dst: Address, segment: seq<byte>): seq<byte>
    requires |segment| >= HEADER
  {
    PseudoHeader(src, dst, |segment|) + SetField(segment, SUM_OFFSET, [0, 0])
  }

  /** The octets of the checksum field of a correct segment. */
  function SumOctets(src: Address, dst: Address, segment: seq<byte>): (w: seq<byte>)
    requires |segment| >= HEADER
    ensures |w| == 2
  {
    Store(true, Checksum(Covered(src, dst, segment)))
  }

  newtype int32 = x: int | -0x8000_0000 <= x <= 0x7fff_ffff

  /** Adds the words of the pseudo header. */
  method AddPseudoHeader(big: bool, h: seq<byte>) returns (sum: int32)
    requires |h| == 12
    ensures sum as int == Sum(big, h)
  {
    sum := 0;
    for k := 0 to 6
      invariant sum as int == Sum(big, h[..2 * k])
    {
      SumNext(big, h, k);
      SumBound(big, h[..2 * k]);
      sum := sum + Load(big, h[2 * k], h[2 * k + 1]) as int32;
    }
    assert h[..12] == h;
  }

  /** Adds the words of the segment, skipping the one that holds th_sum. */
  method AddSegment(big: bool, ghost src: Address, ghost dst: Address,
                    segment: seq<byte>, start: int32) returns (sum: int32)
    requires HEADER <= |segment| <= LONGEST
    requires start as int == Sum(big, PseudoHeader(src, dst, |segment|))
    ensures sum as int
         == start as int + Sum(big, SetField(segment, SUM_OFFSET, [0, 0]))
  {
    hide Sum, PseudoHeader;
    ghost var zeroed := SetField(segment, SUM_OFFSET, [0, 0]);
    sum := start;
    SumEmpty(big, zeroed[..0]);
    var k := 0;
    while k < |segment| / 2
      invariant k <= |segment| / 2
      invariant sum as int == start as int + Sum(big, zeroed[..2 * k])
    {
      SumNext(big, zeroed, k);
      PartialBound(big, src, dst, segment, 2 * k + 2);
      if k != SUM_OFFSET / 2 {
        sum := sum + Load(big, segment[2 * k], segment[2 * k + 1]) as int32;
      }
      k := k + 1;
    }
    if |segment| % 2 == 1 {
      PartialBound(big, src, dst, segment, |segment| - 1);
      SumOddTail(big, zeroed);
      sum := sum + Load(big, segment[|segment| - 1], 0) as int32;
    } else {
      assert zeroed[..2 * k] == zeroed;
    }
  }

  /** The result has the same memory image on hosts of either byte order, and the signed
      32-bit accumulator never overflows. */
  method TcpChecksum(big: bool, src: Address, dst: Address, segment: seq<byte>) returns (r: u16)
    requires HEADER <= |segment| <= LONGEST
    ensures Store(big, r) == SumOctets(src, dst, segment)
  {
    var h := PseudoHeader(src, dst, |segment|);
    var sum := AddPseudoHeader(big, h);
    sum := AddSegment(big, src, dst, segment, sum);
    SumAppend(big, h, SetField(segment, SUM_OFFSET, [0, 0]));
    FoldByteOrder(big, Covered(src, dst, segment));
    r := FoldTwice(sum);
  }

  /** The complement of two folds, cut to 16 bits. */
  method FoldTwice(s: int32) returns (r: u16)
    requires s >= 0
    ensures r == 0xffff - Fold(s as int)
  {
    hide Fold;
    TwoFolds(s as int);
    var sum := s / 0x1_0000 + s % 0x1_0000;
    sum := sum + sum / 0x1_0000;
    TruncatedComplement(sum as int);
    r := (-sum - 1) as int % 0x1_0000;
  }

  lemma TruncatedComplement(x: int)
    ensures (-x - 1) % 0x1_0000 == 0xffff - x % 0x1_0000
  {
  }

  lemma PartialBound(big: bool, src: Address, dst: Address, segment: seq<byte>, n: nat)
    requires HEADER <= |segment| <= LONGEST && n % 2 == 0 && n <= |segment|
    ensures var z := SetField(segment, SUM_OFFSET, [0, 0]);
            Sum(big, PseudoHeader(src, dst, |segment|)) + Sum(big, z) <= 0x7fff_ffff
            && Sum(big, z) == Sum(big, z[..n]) + Sum(big, z[n..])
  {
    var h := PseudoHeader(src, dst, |segment|);
    var z := SetField(segment, SUM_OFFSET, [0, 0]);
    AccumulatorBound(big, src, dst, segment);
    assert z == z[..n] + z[n..];
    SumAppend(big, z[..n], z[n..]);
    SumAppend(big, h, z);
  }

  lemma AccumulatorBound(big: bool, src: Address, dst: Address, segment: seq<byte>)
    requires HEADER <= |segment| <= LONGEST
    ensures Sum(big, Covered(src, dst, segment)) <= 0x7fff_ffff
  {
    var h := PseudoHeader(src, dst, |segment|);
    var z := SetField(segment, SUM_OFFSET, [0, 0]);
    SumAppend(big, h, z);
    PseudoHeaderBound(big, src, dst, |segment|);
    SumAppend(big, z[..18], z[18..]);
    assert z == z[..18] + z[18..];
    SumNext(big, z, 8);
    SumBound(big, z[..16]);
    SumBound(big, z[18..]);
  }

  lemma PseudoHeaderBound(big: bool, src: Address, dst: Address, len: nat)
    ensures Sum(big, PseudoHeader(src, dst, len)) <= 5 * 0xffff + 0x600
  {
    var h := PseudoHeader(src, dst, len);
    SumBound(big, h[..8]);
    SumNext(big, h, 4);
    SumNext(big, h, 5);
    assert h[..12] == h;
  }

  lemma OnesSum(n: nat)
    ensures Sum(true, seq(n, i => 0xff)) == 0xffff * (n / 2) + if n % 2 == 1 then 0xff00 else 0
  {
    var m := n / 2;
    var ones := seq(n, i => 0xff);
    RouterChecksum.SumOfOnes(m);
    if n % 2 == 0 {
      assert ones == seq(2 * m, i => 0xff);
    } else {
      SumOddTail(true, ones);
      assert ones[..n - 1] == seq(2 * m, i => 0xff);
    }
  }

  /** The segment of ones between two hosts whose addresses are all ones. */
  lemma LargestSum(n: nat)
    requires n >= HEADER
    ensures var a: Address := [0xff, 0xff, 0xff, 0xff];
            Sum(true, Covered(a, a, seq(n, i => 0xff)))
            == 0xffff * (n / 2 + 3) + 6 + n % 0x1_0000 + if n % 2 == 1 then 0xff00 else 0
  {
    var a: Address := [0xff, 0xff, 0xff, 0xff];
    var ones := seq(n, i => 0xff);
    var h, z := PseudoHeader(a, a, n), SetField(ones, SUM_OFFSET, [0, 0]);
    SumAppend(true, h, z);
    OnesSum(n);
    SumUpdate(true, ones, SUM_OFFSET, [0, 0]);
    HeaderOfOnes(n);
  }

  lemma HeaderOfOnes(n: nat)
    ensures var a: Address := [0xff, 0xff, 0xff, 0xff];
            Sum(true, PseudoHeader(a, a, n)) == 4 * 0xffff + 6 + n % 0x1_0000
  {
    var a: Address := [0xff, 0xff, 0xff, 0xff];
    var h := PseudoHeader(a, a, n);
    var ones := h[..8];
    assert ones == seq(8, i => 0xff);
    OnesSum(8);
    SumNext(true, h, 4);
    SumNext(true, h, 5);
    assert h[..12] == h;
  }

  /** The bound is tight: the sum fits the signed accumulator for all segments of a length, on hosts
      of either byte order and between all addresses, exactly up to 65528 octets. */
  lemma LongestIsTight(n: nat)
    requires n >= HEADER
    ensures (forall big: bool, src: Address, dst: Address, segment: seq<byte> | |segment| == n ::
               Sum(big, Covered(src, dst, segment)) <= 0x7fff_ffff)
            <==> n <= LONGEST
  {
    if n <= LONGEST {
      forall big: bool, src: Address, dst: Address, segment: seq<byte> | |segment| == n
        ensures Sum(big, Covered(src, dst, segment)) <= 0x7fff_ffff
      {
        AccumulatorBound(big, src, dst, segment);
      }
    } else {
      var a: Address := [0xff, 0xff, 0xff, 0xff];
      LargestSum(n);
      assert Sum(true, Covered(a, a, seq(n, i => 0xff))) > 0x7fff_ffff;
    }
  }

  /** Fills in the checksum field of an outgoing segment and nothing else. */
  method SetChecksum(big: bool, local: Address, peer: Address, segment: array<byte>, len: nat)
    requires HEADER <= len <= segment.Length && len <= LONGEST
    modifies segment
    ensures segment[..len] == SetField(old(segment[..len]), SUM_OFFSET,
                                SumOctets(local, peer, old(segment[..len])))
    ensures segment[len..] == old(segment[len..])
  {
    var sum := TcpChecksum(big, local, peer, segment[..len]);
    var octets := Store(big, sum);
    segment[SUM_OFFSET] := octets[0];
    segment[SUM_OFFSET + 1] := octets[1];
  }

  /** Whether an incoming segment carries the right checksum. */
  method VerifyChecksum(big: bool, local: Address, peer: Address, segment: seq<byte>)
    returns (ok: bool)
    requires HEADER <= |segment| <= LONGEST
    ensures ok == Verifies(peer, local, segment)
  {
    var sum := TcpChecksum(big, peer, local, segment);
    ok := sum == Load(big, segment[SUM_OFFSET], segment[SUM_OFFSET + 1]);
    LoadStore(big, sum, segment[SUM_OFFSET], segment[SUM_OFFSET + 1]);
    assert segment[SUM_OFFSET..SUM_OFFSET + 2] == [segment[SUM_OFFSET], segment[SUM_OFFSET + 1]];
  }

  lemma LoadStore(big: bool, n: u16, b0: byte, b1: byte)
    ensures n == Load(big, b0, b1) <==> Store(big, n) == [b0, b1]
  {
    if Store(big, n) == [b0, b1] {
      assert Store(big, n)[0] == b0 && Store(big, n)[1] == b1;
    }
  }

  predicate Verifies(src: Address, dst: Address, segment: seq<byte>)
    requires |segment| >= HEADER
  {
    segment[SUM_OFFSET..SUM_OFFSET + 2] == SumOctets(src, dst, segment)
  }

  /** Both routines compute the same octets, except where the router writes 0xffff for 0. */
  lemma RoutinesAgree(src: Address, dst: Address, segment: seq<byte>)
    requires HEADER <= |segment| <= LONGEST
    ensures var c := RouterChecksum.CksumValue(Covered(src, dst, segment));
            SumOctets(src, dst, segment) == Store(true, c)
            || (SumOctets(src, dst, segment) == [0, 0] && c == 0xffff)
  {
    RouterChecksum.NoOverflow(Covered(src, dst, segment));
  }

  /** The field itself is not covered, so a segment stamped by one end verifies at the
      other, whatever the byte orders. */
  lemma StampedVerifies(src: Address, dst: Address, segment: seq<byte>)
    requires HEADER <= |segment|
    ensures Verifies(src, dst, SetField(segment, SUM_OFFSET,
                                 SumOctets(src, dst, segment)))
  {
    var stamped := SetField(segment, SUM_OFFSET, SumOctets(src, dst, segment));
    assert SetField(stamped, SUM_OFFSET, [0, 0])
        == SetField(segment, SUM_OFFSET, [0, 0]);
  }

  /** One damaged word in a segment that verified: noticed, unless 0x0000 and 0xffff traded
      places outside the checksum field. */
  lemma DamagedWord(src: Address, dst: Address, segment: seq<byte>, off: nat, w: seq<byte>)
    requires HEADER <= |segment| <= LONGEST && Verifies(src, dst, segment)
    requires off % 2 == 0 && off + 2 <= |segment| && |w| == 2
    ensures var before := segment[off..off + 2];
            Verifies(src, dst, SetField(segment, off, w))
            <==> before == w
                 || (off != SUM_OFFSET && before == [0, 0] && w == [0xff, 0xff])
                 || (off != SUM_OFFSET && before == [0xff, 0xff] && w == [0, 0])
  {
    var damaged := SetField(segment, off, w);
    if off == SUM_OFFSET {
      assert SetField(damaged, SUM_OFFSET, [0, 0])
          == SetField(segment, SUM_OFFSET, [0, 0]);
    } else {
      assert damaged[SUM_OFFSET..SUM_OFFSET + 2] == segment[SUM_OFFSET..SUM_OFFSET + 2];
      DamagedCover(src, dst, segment, off, w);
      StoreLoad(w);
      StoreLoad(segment[off..off + 2]);
    }
  }

  lemma StoreLoad(w: seq<byte>)
    requires |w| == 2
    ensures Store(true, Load(true, w[0], w[1])) == w
  {
  }

  /** Outside the checksum field the damage reaches the sum. */
  lemma DamagedCover(src: Address, dst: Address, segment: seq<byte>, off: nat, w: seq<byte>)
    requires HEADER <= |segment| && off != SUM_OFFSET
    requires off % 2 == 0 && off + 2 <= |segment| && |w| == 2
    ensures var u, v := Load(true, segment[off], segment[off + 1]), Load(true, w[0], w[1]);
            SumOctets(src, dst, SetField(segment, off, w))
            == SumOctets(src, dst, segment)
            <==> u == v || (u == 0 && v == 0xffff) || (u == 0xffff && v == 0)
  {
    var damaged := SetField(segment, off, w);
    var c, e := Covered(src, dst, segment), Covered(src, dst, damaged);
    assert e == c[..12 + off] + w + c[12 + off + 2..];
    SumUpdate(true, c, 12 + off, w);
    SumPositive(src, dst, segment);
    SumPositive(src, dst, damaged);
    FoldsEqual(Sum(true, c), Sum(true, e), Load(true, segment[off], segment[off + 1]),
               Load(true, w[0], w[1]));
    StoreInjective(Checksum(c), Checksum(e));
  }

  lemma StoreInjective(u: u16, v: u16)
    ensures Store(true, u) == Store(true, v) <==> u == v
  {
    assert Store(true, u) == Store(true, v) ==> u / 256 == v / 256 && u % 256 == v % 256 by {
      assert Store(true, u)[0] == u / 256 && Store(true, u)[1] == u % 256;
      assert Store(true, v)[0] == v / 256 && Store(true, v)[1] == v % 256;
    }
  }

  /** The pseudo header names protocol 6, so no segment sums to zero. */
  lemma SumPositive(src: Address, dst: Address, segment: seq<byte>)
    requires |segment| >= HEADER
    ensures Sum(true, Covered(src, dst, segment)) > 0
  {
    var c := Covered(src, dst, segment);
    assert c == c[..10] + c[10..];
    SumAppend(true, c[..10], c[10..]);
    SumNext(true, c, 4);
  }

  /** Non-zero sums that differ in one word fold alike exactly in these cases. */
  lemma FoldsEqual(s: nat, t: nat, u: u16, v: u16)
    requires s > 0 && t > 0 && t + u == s + v
    ensures Fold(s) == Fold(t)
            <==> u == v || (u == 0 && v == 0xffff) || (u == 0xffff && v == 0)
  {
    FoldWitness(s);
    FoldWitness(t);
  }

  /** The two words of an address, added. */
  function AddressSum(a: Address): nat {
    256 * a[0] as nat + a[1] as nat + 256 * a[2] as nat + a[3] as nat
  }

  /** What the pseudo header of section 3.1 of RFC 793 adds: both addresses, the protocol and the
      length. */
  lemma PseudoHeaderSum(src: Address, dst: Address, len: nat)
    ensures Sum(true, PseudoHeader(src, dst, len))
         == AddressSum(src) + AddressSum(dst) + 6 + len % 0x1_0000
  {
    var h := PseudoHeader(src, dst, len);
    assert h[..12] == h && h[..0] == [];
    SumNext(true, h, 0);
    SumNext(true, h, 1);
    SumNext(true, h, 2);
    SumNext(true, h, 3);
    SumNext(true, h, 4);
    SumNext(true, h, 5);
    LengthOctets(len % 0x1_0000, h[10], h[11]);
  }

  lemma LengthOctets(n: u16, b0: byte, b1: byte)
    requires [b0, b1] == Store(true, n)
    ensures Load(true, b0, b1) == n
  {
    assert [b0, b1][0] == n / 256 && [b0, b1][1] == n % 256;
  }

  /** Between other addresses a segment verifies exactly if their words add up to the same, mod
      0xffff. */
  lemma OtherAddresses(src: Address, dst: Address, src': Address, dst': Address,
                       segment: seq<byte>)
    requires |segment| >= HEADER && Verifies(src, dst, segment)
    ensures Verifies(src', dst', segment)
            <==> (AddressSum(src) + AddressSum(dst)) % 0xffff
                 == (AddressSum(src') + AddressSum(dst')) % 0xffff
  {
    hide Sum, Covered, AddressSum, Fold, Store;
    CoveredSum(src, dst, segment);
    CoveredSum(src', dst', segment);
    StoreInjective(Checksum(Covered(src, dst, segment)), Checksum(Covered(src', dst', segment)));
    var rest := 6 + |segment| % 0x1_0000 + Sum(true, SetField(segment, SUM_OFFSET, [0, 0]));
    FoldsAlike(AddressSum(src) + AddressSum(dst), AddressSum(src') + AddressSum(dst'), rest);
  }

  lemma CoveredSum(src: Address, dst: Address, segment: seq<byte>)
    requires |segment| >= HEADER
    ensures Sum(true, Covered(src, dst, segment))
         == AddressSum(src) + AddressSum(dst)
            + (6 + |segment| % 0x1_0000 + Sum(true, SetField(segment, SUM_OFFSET, [0, 0])))
  {
    SumAppend(true, PseudoHeader(src, dst, |segment|), SetField(segment, SUM_OFFSET, [0, 0]));
    PseudoHeaderSum(src, dst, |segment|);
  }

  lemma FoldsAlike(s: nat, t: nat, rest: nat)
    requires s + rest > 0 && t + rest > 0
    ensures Fold(s + rest) == Fold(t + rest) <==> s % 0xffff == t % 0xffff
  {
  }

  /** One damaged word in an address is noticed, unless 0x0000 and 0xffff traded places. */
  lemma DamagedAddress(src: Address, dst: Address, segment: seq<byte>, i: nat, w: seq<byte>)
    requires |segment| >= HEADER && Verifies(src, dst, segment) && |w| == 2 && (i == 0 || i == 2)
    ensures var (from, to) := (src[..i] + w + src[i + 2..], dst[..i] + w + dst[i + 2..]);
            && (Verifies(from, dst, segment) <==> SameWord(src[i..i + 2], w))
            && (Verifies(src, to, segment) <==> SameWord(dst[i..i + 2], w))
  {
    var from, to := src[..i] + w + src[i + 2..], dst[..i] + w + dst[i + 2..];
    OtherAddresses(src, dst, from, dst, segment);
    OtherAddresses(src, dst, src, to, segment);
    hide Verifies;
    WordDamaged(src, dst, i, w);
    WordDamaged(dst, src, i, w);
  }

  /** Two words that count the same. */
  predicate SameWord(before: seq<byte>, after: seq<byte>) {
    || before == after || (before == [0, 0] && after == [0xff, 0xff])
    || (before == [0xff, 0xff] && after == [0, 0])
  }

  lemma WordDamaged(a: Address, other: Address, i: nat, w: seq<byte>)
    requires |w| == 2 && (i == 0 || i == 2)
    ensures var b: Address := a[..i] + w + a[i + 2..];
            (AddressSum(a) + AddressSum(other)) % 0xffff == (AddressSum(b) + AddressSum(other)) % 0xffff
            <==> SameWord(a[i..i + 2], w)
  {
    var b: Address := a[..i] + w + a[i + 2..];
    assert a[i..i + 2] == [a[i], a[i + 1]] && w == [w[0], w[1]];
    assert b[i] == w[0] && b[i + 1] == w[1] && b[2 - i] == a[2 - i] && b[3 - i] == a[3 - i];
    var s, t := AddressSum(a) + AddressSum(other), AddressSum(b) + AddressSum(other);
    WordsApart(s, t, Load(true, a[i], a[i + 1]), Load(true, w[0], w[1]));
  }

  lemma WordsApart(s: nat, t: nat, u: u16, v: u16)
    requires t + u == s + v
    ensures s % 0xffff == t % 0xffff <==> u == v || (u == 0 && v == 0xffff) || (u == 0xffff && v == 0)
  {
    assert t == s + (v as int - u);
    assert (s % 0xffff == t % 0xffff) <==> (v as int - u) % 0xffff == 0;
  }
}
