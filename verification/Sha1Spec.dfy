/** SHA-1 as FIPS PUB 180-1 defines it: padding (section 4), functions and constants
    (sections 5 and 6) and the computation of the digest (section 7).  Nothing here
    follows the C code; `Sha1` proves that the code computes these functions. */
module Sha1Spec {
  import opened Bytes
  import opened Words

  /** The five word buffers. */
  datatype Buffers = Buffers(a: word, b: word, c: word, d: word, e: word)

  const INITIAL := Buffers(0x67452301, 0xEFCDAB89, 0x98BADCFE, 0x10325476, 0xC3D2E1F0)

  const TWO_64: nat := 0x1_0000_0000_0000_0000

  /** A word is written as four octets, most significant first (section 2). */
  function WordOf(block: seq<byte>, t: nat): word
    requires |block| == 64 && t < 16
  {
    var b0: nat, b1: nat, b2: nat, b3: nat :=
      block[4 * t], block[4 * t + 1], block[4 * t + 2], block[4 * t + 3];
    b0 * 0x100_0000 + b1 * 0x1_0000 + b2 * 0x100 + b3
  }

  /** The circular left shift of section 3: the top `n` bits come back at the bottom. */
  function RotateLeft(n: nat, x: word): (r: word)
    requires 0 < n < 32
  {
    SplitWord(n, x);
    x % Pow2(32 - n) * Pow2(n) + x / Pow2(32 - n)
  }

  /** The two parts of a rotated word do not overlap. */
  lemma SplitWord(n: nat, x: word)
    requires 0 < n < 32
    ensures Pow2(32 - n) * Pow2(n) == TWO_32
    ensures x / Pow2(32 - n) < Pow2(n)
    ensures x % Pow2(32 - n) * Pow2(n) + x / Pow2(32 - n) < TWO_32
  {
    hide Pow2;
    Pow2Of32();
    Pow2Sum(32 - n, n);
    SplitAt(x, Pow2(32 - n), Pow2(n));
  }

  /** What is rotated out, and what stays. */
  lemma RotateParts(n: nat, x: word) returns (h: nat, l: nat)
    requires 0 < n < 32
    ensures x == h * Pow2(32 - n) + l && RotateLeft(n, x) == l * Pow2(n) + h
    ensures h < Pow2(n) && l < Pow2(32 - n)
  {
    hide Pow2;
    SplitWord(n, x);
    h, l := x / Pow2(32 - n), x % Pow2(32 - n);
    Halves(x, Pow2(32 - n));
  }

  lemma SplitAt(x: word, p: nat, q: nat)
    requires p > 0 && p * q == TWO_32
    ensures x / p < q && x % p * q + x / p < TWO_32
  {
    Halves(x, p);
    SwapBound(x / p, x % p, p, q);
  }

  /** The logical functions of section 5. */
  function F(t: nat, b: word, c: word, d: word): word {
    if t < 20 then OrW(And(b, c), And(Not(b), d))
    else if t < 40 then XorW(XorW(b, c), d)
    else if t < 60 then OrW(OrW(And(b, c), And(b, d)), And(c, d))
    else XorW(XorW(b, c), d)
  }

  /** The constants of section 6. */
  function K(t: nat): word {
    if t < 20 then 0x5A827999
    else if t < 40 then 0x6ED9EBA1
    else if t < 60 then 0x8F1BBCDC
    else 0xCA62C1D6
  }

  /** The message schedule: section 7, steps (a) and (b). */
  function Schedule(block: seq<byte>, t: nat): word
    requires |block| == 64 && t < 80
  {
    if t < 16 then WordOf(block, t)
    else RotateLeft(1, XorW(XorW(XorW(Schedule(block, t - 3), Schedule(block, t - 8)),
                                 Schedule(block, t - 14)), Schedule(block, t - 16)))
  }

  /** Section 7, one pass of step (d). */
  function Round(t: nat, s: Buffers, w: word): Buffers {
    Buffers(Add(Add(Add(Add(RotateLeft(5, s.a), F(t, s.b, s.c, s.d)), s.e), w), K(t)),
            s.a, RotateLeft(30, s.b), s.c, s.d)
  }

  /** The buffers after the first `t` passes. */
  function Rounds(block: seq<byte>, h: Buffers, t: nat): Buffers
    requires |block| == 64 && t <= 80
  {
    if t == 0 then h else Round(t - 1, Rounds(block, h, t - 1), Schedule(block, t - 1))
  }

  /** Section 7, steps (a) to (e): one 512-bit block. */
  function Compress(h: Buffers, block: seq<byte>): Buffers
    requires |block| == 64
  {
    var s := Rounds(block, h, 80);
    Buffers(Add(h.a, s.a), Add(h.b, s.b), Add(h.c, s.c), Add(h.d, s.d), Add(h.e, s.e))
  }

  /** All blocks of `m` in order: each starts from what the blocks before it gave. */
  function HashBlocks(m: seq<byte>): Buffers
    requires |m| % 64 == 0
  {
    if m == [] then INITIAL
    else Compress(HashBlocks(m[..|m| - 64]), m[|m| - 64..])
  }

  lemma HashBlocksSnoc(m: seq<byte>, block: seq<byte>)
    requires |m| % 64 == 0 && |block| == 64
    ensures |m + block| % 64 == 0
    ensures HashBlocks(m + block) == Compress(HashBlocks(m), block)
  {
    assert (m + block)[..|m|] == m;
    assert (m + block)[|m|..] == block;
  }

  /** `n` as `k` octets, most significant first. */
  function BigEndian(n: nat, k: nat): (b: seq<byte>)
    ensures |b| == k
  {
    if k == 0 then [] else BigEndian(n / 256, k - 1) + [n % 256]
  }

  function Power256(k: nat): (p: nat)
    ensures p > 0
  {
    if k == 0 then 1 else 256 * Power256(k - 1)
  }

  function FromBigEndian(b: seq<byte>): nat {
    if b == [] then 0 else 256 * FromBigEndian(b[..|b| - 1]) + b[|b| - 1]
  }

  /** The length field can be read back: the octets lose nothing. */
  lemma {:induction false} BigEndianRoundTrip(n: nat, k: nat)
    requires n < Power256(k)
    ensures FromBigEndian(BigEndian(n, k)) == n
  {
    if k > 0 {
      BigEndianRoundTrip(n / 256, k - 1);
      var b := BigEndian(n, k);
      assert b[..|b| - 1] == BigEndian(n / 256, k - 1);
    }
  }

  /** With `j` zero octets after the 0x80 octet, exactly the 8-octet length is missing from
      a whole number of blocks. */
  predicate FillsBlock(n: nat, j: nat) {
    (n + 1 + j) % 64 == 56
  }

  /** How many zero octets follow the 0x80 octet: the least number that will do. */
  function ZeroCount(n: nat): (k: nat)
    ensures FillsBlock(n, k)
    ensures forall j: nat :: FillsBlock(n, j) ==> k <= j
  {
    (119 - n % 64) % 64
  }

  /** Section 4: a one bit, zero bits, and the bit length as two words. */
  function Pad(m: seq<byte>): (p: seq<byte>)
    ensures |p| % 64 == 0
    ensures |p| > |m|
  {
    m + [0x80] + Zeros(ZeroCount(|m|)) + BigEndian(8 * |m|, 8)
  }

  function Digest(m: seq<byte>): Buffers {
    HashBlocks(Pad(m))
  }

  lemma TwoTo64()
    ensures Power256(8) == TWO_64
  {
    assert Power256(4) == TWO_32;
    assert Power256(6) == 0x1_0000 * TWO_32;
  }

  /** Section 4 loses no message: two messages of fewer than 2^64 bits that pad to the
      same blocks are the same message. */
  lemma PadInjective(m: seq<byte>, n: seq<byte>)
    requires 8 * |m| < TWO_64 && 8 * |n| < TWO_64
    requires Pad(m) == Pad(n)
    ensures m == n
  {
    TwoTo64();
    LengthField(m);
    LengthField(n);
    assert Pad(m)[..|m|] == m;
    assert Pad(n)[..|n|] == n;
  }

  lemma LengthField(m: seq<byte>)
    requires 8 * |m| < Power256(8)
    ensures FromBigEndian(Pad(m)[|Pad(m)| - 8..]) == 8 * |m|
  {
    assert Pad(m)[|Pad(m)| - 8..] == BigEndian(8 * |m|, 8);
    BigEndianRoundTrip(8 * |m|, 8);
  }
}
