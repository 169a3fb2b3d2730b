/** `cksum` of the router: big-endian words, a fold loop, and zero replaced by 0xffff. */
module RouterChecksum {
  import opened Bytes
  import opened InternetChecksum
  import Words

  /** The longest block whose word sum cannot pass 32 bits. */
  const LONGEST: nat := 131074

  /** The folded sum as the 32-bit accumulator leaves it: the whole sum for every block up
      to `LONGEST`. */
  function Accumulated(d: seq<byte>): nat {
    Sum(true, d) % Words.TWO_32
  }

  lemma NoOverflow(d: seq<byte>)
    requires |d| <= LONGEST
    ensures Accumulated(d) == Sum(true, d)
  {
    SumBound(true, d);
  }

  /** The summing loop: a 32-bit unsigned accumulator. */
  method WordSum(data: seq<byte>) returns (sum: nat)
    ensures sum == Accumulated(data)
  {
    sum := 0;
    var k := 0;
    while |data| - k >= 2
      invariant k <= |data| && k % 2 == 0
      invariant sum == Accumulated(data[..k])
    {
      SumNext(true, data, k / 2);
      AddWraps(Sum(true, data[..k]), Load(true, data[k], data[k + 1]));
      sum := (sum + (data[k] as nat * 256 + data[k + 1])) % Words.TWO_32;
      k := k + 2;
    }
    if |data| - k > 0 {
      SumOddTail(true, data);
      AddWraps(Sum(true, data[..k]), Load(true, data[k], 0));
      sum := (sum + data[k] as nat * 256) % Words.TWO_32;
    } else {
      assert data[..k] == data;
    }
  }

  lemma AddWraps(s: nat, w: nat)
    ensures (s % Words.TWO_32 + w) % Words.TWO_32 == (s + w) % Words.TWO_32
  {
  }

  /** The folding loop: it ends because every pass makes the sum smaller. */
  method FoldSum(s: nat) returns (sum: nat)
    ensures sum == Fold(s)
  {
    sum := s;
    while sum > 0xffff
      invariant Fold(sum) == Fold(s)
      decreases sum
    {
      FoldStep(sum);
      sum := sum / 0x1_0000 + sum % 0x1_0000;
    }
  }

  /** The value returned is the memory image, on a host of either byte order, of the
      complement of the folded sum, with 0xffff for zero. */
  method Cksum(bigEndian: bool, data: seq<byte>) returns (r: u16)
    ensures Store(bigEndian, r) == Store(true, CksumValue(data))
  {
    var sum := WordSum(data);
    sum := FoldSum(sum);
    Truncation(sum);
    r := Htons(bigEndian, (Words.TWO_32 - 1 - sum) % 0x1_0000);
    r := if r != 0 then r else 0xffff;
  }

  lemma Truncation(sum: u16)
    ensures (Words.TWO_32 - 1 - sum) % 0x1_0000 == 0xffff - sum
  {
  }

  /** What `Cksum` computes, as a big-endian word. */
  function CksumValue(d: seq<byte>): u16 {
    var f := Fold(Accumulated(d));
    if f == 0xffff then 0xffff else 0xffff - f
  }

  /** 0xffff is returned exactly for the sums that are zero in one's complement. */
  lemma AllOnes(d: seq<byte>)
    requires |d| <= LONGEST
    ensures CksumValue(d) == 0xffff <==> Sum(true, d) % 0xffff == 0
  {
    NoOverflow(d);
    MultipleFolds(Sum(true, d));
  }

  lemma {:induction false} SumOfOnes(n: nat)
    ensures Sum(true, seq(2 * n, i => 0xff)) == 0xffff * n
  {
    if n > 0 {
      assert seq(2 * n, i => 0xff)[2..] == seq(2 * (n - 1), i => 0xff);
      SumOfOnes(n - 1);
    }
  }

  /** Above the bound the accumulator may wrap: a block whose sum is zero in one's complement that
      does not give 0xffff. */
  lemma WrappedOnes()
    ensures var d := seq(LONGEST + 2, i => 0xff);
            Sum(true, d) % 0xffff == 0 && CksumValue(d) == 1
  {
    SumOfOnes(LONGEST / 2 + 1);
  }

  lemma {:induction false} SumOfZeros(z: seq<byte>)
    requires forall i :: 0 <= i < |z| ==> z[i] == 0
    ensures Sum(true, z) == 0
  {
    if |z| >= 2 {
      SumOfZeros(z[2..]);
    }
  }

  /** A block of any length above the bound whose sum is 2^32. */
  lemma WrappingBlock(n: nat) returns (d: seq<byte>)
    requires n > LONGEST
    ensures |d| == n && Sum(true, d) == Words.TWO_32
  {
    var ones := seq(2 * 0x1_0000, i => 0xff);
    var tail := [0xff, 0, 1] + seq(n - LONGEST - 1, i => 0);
    d := ones + tail;
    SumOfOnes(0x1_0000);
    SumAppend(true, ones, tail);
    TailSum(tail);
  }

  lemma TailSum(tail: seq<byte>)
    requires |tail| >= 3 && tail[0] == 0xff && tail[1] == 0 && tail[2] == 1
    requires forall i :: 3 <= i < |tail| ==> tail[i] == 0
    ensures Sum(true, tail) == 0x1_0000
  {
    var rest := tail[2..];
    assert Sum(true, tail) == 0xff00 + Sum(true, rest);
    if |rest| >= 2 {
      SumOfZeros(rest[2..]);
    }
  }

  /** The bound is tight: 0xffff tells the blocks of a length whose sum is zero in one's complement
      from all others exactly up to 131074 octets. */
  lemma LongestIsTight(n: nat)
    ensures (forall d: seq<byte> | |d| == n :: CksumValue(d) == 0xffff <==> Sum(true, d) % 0xffff == 0)
            <==> n <= LONGEST
  {
    if n <= LONGEST {
      forall d: seq<byte> | |d| == n
        ensures CksumValue(d) == 0xffff <==> Sum(true, d) % 0xffff == 0
      {
        AllOnes(d);
      }
    } else {
      var d := WrappingBlock(n);
      assert CksumValue(d) == 0xffff && Sum(true, d) % 0xffff == 1;
    }
  }

  /** A header whose checksum field holds the checksum of the header with the field zeroed
      has checksum 0xffff. */
  lemma StoredChecksumVerifies(d: seq<byte>, off: nat)
    requires |d| <= LONGEST && off % 2 == 0 && off + 2 <= |d|
    ensures var zeroed := SetField(d, off, [0, 0]);
            CksumValue(SetField(d, off, Store(true, CksumValue(zeroed)))) == 0xffff
  {
    var zeroed := SetField(d, off, [0, 0]);
    var c := CksumValue(zeroed);
    var stored := SetField(d, off, Store(true, c));
    hide Sum, SetField, Store, Fold;
    StoredSum(d, off, c);
    NoOverflow(zeroed);
    AllOnes(stored);
    FoldWitness(Sum(true, zeroed));
  }

  lemma StoredSum(d: seq<byte>, off: nat, c: u16)
    requires off % 2 == 0 && off + 2 <= |d|
    ensures Sum(true, SetField(d, off, Store(true, c))) == Sum(true, SetField(d, off, [0, 0])) + c
  {
    var zeroed := SetField(d, off, [0, 0]);
    var w := Store(true, c);
    assert SetField(d, off, w) == zeroed[..off] + w + zeroed[off + 2..];
    SumUpdate(true, zeroed, off, w);
    assert w[0] == c / 256 && w[1] == c % 256;
  }

  /** Corrupting one word of a block that verifies goes unnoticed exactly when the word is
      unchanged or 0x0000 and 0xffff trade places. */
  lemma OneWordCorruption(d: seq<byte>, off: nat, w: seq<byte>)
    requires |d| <= LONGEST && off % 2 == 0 && off + 2 <= |d| && |w| == 2
    requires CksumValue(d) == 0xffff
    ensures var before, after := d[off..off + 2], w;
            CksumValue(SetField(d, off, w)) == 0xffff
            <==> before == after || (before == [0, 0] && after == [0xff, 0xff])
                 || (before == [0xff, 0xff] && after == [0, 0])
  {
    assert d[off..off + 2] == [d[off], d[off + 1]] && w == [w[0], w[1]];
    SumUpdate(true, d, off, w);
    AllOnes(d);
    AllOnes(SetField(d, off, w));
    WordChange(Sum(true, d), Sum(true, SetField(d, off, w)),
               Load(true, d[off], d[off + 1]), Load(true, w[0], w[1]));
  }

  /** The odd last octet of a block is protected without exception. */
  lemma LastOctetCorruption(d: seq<byte>, b: byte)
    requires |d| <= LONGEST && |d| % 2 == 1
    requires CksumValue(d) == 0xffff
    ensures CksumValue(d[|d| - 1 := b]) == 0xffff <==> b == d[|d| - 1]
  {
    var e := d[|d| - 1 := b];
    SumOddTail(true, d);
    SumOddTail(true, e);
    assert e[..|e| - 1] == d[..|d| - 1];
    AllOnes(d);
    AllOnes(e);
    WordChange(Sum(true, d), Sum(true, e), Load(true, d[|d| - 1], 0), Load(true, b, 0));
  }
}
