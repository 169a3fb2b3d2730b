/** The arithmetic behind the Internet checksum (RFC 1071): sums of 16-bit words, the
    one's-complement fold, and what depends on the byte order of the host (nothing). */
module InternetChecksum {
  import opened Bytes

  type u16 = x: nat | x < 0x1_0000

  /** Two octets in memory read as a 16-bit word. */
  function Load(bigEndian: bool, b0: byte, b1: byte): u16 {
    if bigEndian then b0 as nat * 256 + b1 else b0 + b1 as nat * 256
  }

  /** A 16-bit word written to memory. */
  function Store(bigEndian: bool, w: u16): seq<byte> {
    if bigEndian then [w / 256, w % 256] else [w % 256, w / 256]
  }

  /** The value whose memory image is the big-endian image of `w`. */
  function Htons(bigEndian: bool, w: u16): (r: u16)
    ensures Store(bigEndian, r) == Store(true, w)
  {
    if bigEndian then w else w % 256 * 256 + w / 256
  }

  /** The sum of the 16-bit words of `d`; an odd last octet is followed by a zero. */
  function Sum(bigEndian: bool, d: seq<byte>): nat {
    if |d| == 0 then 0
    else if |d| == 1 then Load(bigEndian, d[0], 0)
    else Load(bigEndian, d[0], d[1]) + Sum(bigEndian, d[2..])
  }

  /** The 16-bit value a sum folds to: zero only for zero, else between 1 and 0xffff. */
  function Fold(s: nat): (f: u16)
    ensures f == 0 <==> s == 0
    ensures (s - f) % 0xffff == 0
  {
    if s == 0 then 0 else (s - 1) % 0xffff + 1
  }

  lemma {:induction false} SumAppend(big: bool, a: seq<byte>, b: seq<byte>)
    requires |a| % 2 == 0
    ensures Sum(big, a + b) == Sum(big, a) + Sum(big, b)
  {
    if a == [] {
      assert a + b == b;
    } else {
      assert (a + b)[2..] == a[2..] + b;
      SumAppend(big, a[2..], b);
    }
  }

  lemma SumEmpty(big: bool, d: seq<byte>)
    requires d == []
    ensures Sum(big, d) == 0
  {
  }

  /** One more word at the end of a prefix. */
  lemma SumNext(big: bool, d: seq<byte>, k: nat)
    requires 2 * k + 2 <= |d|
    ensures Sum(big, d[..2 * k + 2]) == Sum(big, d[..2 * k]) + Load(big, d[2 * k], d[2 * k + 1])
  {
    var w := d[2 * k..2 * k + 2];
    assert d[..2 * k + 2] == d[..2 * k] + w;
    SumAppend(big, d[..2 * k], w);
    assert Sum(big, w) == Load(big, w[0], w[1]) + Sum(big, w[2..]);
  }

  /** The last octet of a block of odd length. */
  lemma SumOddTail(big: bool, d: seq<byte>)
    requires |d| % 2 == 1
    ensures Sum(big, d) == Sum(big, d[..|d| - 1]) + Load(big, d[|d| - 1], 0)
  {
    assert d == d[..|d| - 1] + [d[|d| - 1]];
    SumAppend(big, d[..|d| - 1], [d[|d| - 1]]);
  }

  /** Replacing the word at an even offset moves the sum by the difference of the words. */
  lemma SumUpdate(big: bool, d: seq<byte>, off: nat, w: seq<byte>)
    requires off % 2 == 0 && off + 2 <= |d| && |w| == 2
    ensures Sum(big, d[..off] + w + d[off + 2..]) + Load(big, d[off], d[off + 1])
         == Sum(big, d) + Load(big, w[0], w[1])
  {
    var a, b := d[..off], d[off + 2..];
    assert d == a + d[off..off + 2] + b;
    SumAppend(big, a + d[off..off + 2], b);
    SumAppend(big, a + w, b);
    SumNext(big, d, off / 2);
    assert (a + w)[..off] == a && (a + w)[..off + 2] == a + w;
    SumNext(big, a + w, off / 2);
    assert a + d[off..off + 2] == d[..off + 2];
  }

  lemma {:induction false} SumBound(big: bool, d: seq<byte>)
    ensures Sum(big, d) <= 0xffff * ((|d| + 1) / 2)
  {
    if |d| >= 2 {
      SumBound(big, d[2..]);
    }
  }

  /** Section 2(B) of RFC 1071: reading every word in the other byte order multiplies the
      sum by 256, up to multiples of 0xffff. */
  lemma {:induction false} SwappedSum(d: seq<byte>) returns (k: nat)
    ensures 256 * Sum(false, d) == Sum(true, d) + 0xffff * k
    ensures Sum(true, d) == 0 <==> Sum(false, d) == 0
  {
    if |d| == 0 {
      k := 0;
    } else if |d| == 1 {
      k := 0;
    } else {
      k := SwappedSum(d[2..]);
      k := k + d[1];
    }
  }

  /** The folded value is the only one: it is fixed by the residue and by being zero. */
  lemma FoldUnique(s: nat, f: nat, k: int)
    requires f <= 0xffff && (f == 0 <==> s == 0)
    requires s == f + 0xffff * k
    ensures Fold(s) == f
  {
    Residue(s - 1, f - 1, k);
  }

  lemma Residue(s: int, f: int, k: int)
    requires s == f + 0xffff * k
    ensures 0 <= f < 0xffff ==> s % 0xffff == f
  {
  }

  /** One pass of the folding loop: the sum gets smaller and folds to the same value. */
  lemma FoldStep(s: nat)
    requires s > 0xffff
    ensures 0 < s / 0x1_0000 + s % 0x1_0000 < s
    ensures Fold(s / 0x1_0000 + s % 0x1_0000) == Fold(s)
  {
    var q, r := s / 0x1_0000, s % 0x1_0000;
    FoldWitness(q + r);
    FoldUnique(s, Fold(q + r), (q + r - Fold(q + r)) / 0xffff + q);
  }

  lemma FoldWitness(s: nat)
    ensures s == Fold(s) + 0xffff * ((s - Fold(s)) / 0xffff)
  {
  }

  /** Two folds are enough for every sum that fits a signed 32-bit word. */
  lemma TwoFolds(s: nat)
    requires s <= 0x7fff_ffff
    ensures var s1 := s / 0x1_0000 + s % 0x1_0000;
            (s1 + s1 / 0x1_0000) % 0x1_0000 == Fold(s)
  {
    var s1 := s / 0x1_0000 + s % 0x1_0000;
    if s > 0xffff {
      FoldStep(s);
    }
    if s1 > 0xffff {
      FoldStep(s1);
    }
  }

  /** The fold of a sum taken in the other byte order is the fold with its octets swapped,
      so its memory image is the same. */
  lemma FoldByteOrder(big: bool, d: seq<byte>)
    ensures Store(big, Fold(Sum(big, d))) == Store(true, Fold(Sum(true, d)))
    ensures Store(big, 0xffff - Fold(Sum(big, d))) == Store(true, 0xffff - Fold(Sum(true, d)))
  {
    if !big {
      hide Fold, Sum, Store;
      SwappedFold(d);
      SwappedStore(Fold(Sum(false, d)), Fold(Sum(true, d)));
    }
  }

  /** Complementing a word complements its octets. */
  lemma SwappedStore(f: u16, g: u16)
    requires g == f % 256 * 256 + f / 256
    ensures Store(false, f) == Store(true, g)
    ensures Store(false, 0xffff - f) == Store(true, 0xffff - g)
  {
    assert g % 256 == f / 256 && g / 256 == f % 256;
    assert (0xffff - f) / 256 == 255 - f / 256 && (0xffff - f) % 256 == 255 - f % 256;
    assert (0xffff - g) / 256 == 255 - g / 256 && (0xffff - g) % 256 == 255 - g % 256;
  }

  lemma SwappedFold(d: seq<byte>)
    ensures var f: nat := Fold(Sum(false, d));
            Fold(Sum(true, d)) == f % 256 * 256 + f / 256
  {
    hide Sum;
    var s: nat, f: nat := Sum(false, d), Fold(Sum(false, d));
    var k := SwappedSum(d);
    FoldWitness(s);
    var swapped := f % 256 * 256 + f / 256;
    assert 256 * f == swapped + 0xffff * (f / 256);
    FoldUnique(Sum(true, d), swapped, f / 256 + 256 * ((s - f) / 0xffff) - k);
  }

  /** The checksum of a block: the complement of the folded big-endian sum. */
  function Checksum(d: seq<byte>): u16 {
    0xffff - Fold(Sum(true, d))
  }

  /** Storing a checksum that complements the rest of the block makes the whole sum a
      multiple of 0xffff, and only a multiple of 0xffff folds to 0 or 0xffff. */
  lemma MultipleFolds(s: nat)
    ensures s % 0xffff == 0 <==> Fold(s) == 0 || Fold(s) == 0xffff
  {
    FoldWitness(s);
  }

  /** Two words are interchangeable in a sum exactly when they are equal or are the two
      representations of zero. */
  lemma WordChange(s: nat, t: nat, u: u16, v: u16)
    requires s % 0xffff == 0 && t + u == s + v
    ensures t % 0xffff == 0 <==> u == v || (u == 0 && v == 0xffff) || (u == 0xffff && v == 0)
  {
    assert t == s + (v as int - u);
    assert t % 0xffff == (v as int - u) % 0xffff;
  }
}
