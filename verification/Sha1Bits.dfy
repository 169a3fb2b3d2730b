/** What rotation, schedule and logical functions of SHA-1 do to each bit of a word. */
module Sha1Bits {
  import opened Bytes
  import opened Words
  import opened Sha1Spec

  /** A number in two parts, the lower one of `k` bits. */
  lemma {:induction false} BitOfParts(h: nat, l: nat, k: nat, j: nat)
    requires l < Pow2(k)
    ensures Bit(h * Pow2(k) + l, j) == if j < k then Bit(l, j) else Bit(h, j - k)
  {
    if k > 0 {
      var p := Pow2(k - 1);
      assert h * (2 * p) == 2 * (h * p);
      if j > 0 {
        BitOfParts(h, l / 2, k - 1, j - 1);
      }
    }
  }

  /** The circular left shift by `n` takes each bit `n` places up, round the end. */
  lemma RotatedBit(n: nat, x: word, i: nat)
    requires 0 < n < 32 && i < 32
    ensures Bit(RotateLeft(n, x), (i + n) % 32) == Bit(x, i)
  {
    hide Pow2, Bit, RotateLeft;
    var h, l := RotateParts(n, x);
    BitOfParts(h, l, 32 - n, i);
    if i < 32 - n {
      BitOfParts(l, h, n, i + n);
    } else {
      BitOfParts(l, h, n, i + n - 32);
    }
  }

  /** The first sixteen words are the octets of the block. */
  lemma ScheduleOctet(block: seq<byte>, t: nat, j: nat)
    requires |block| == 64 && t < 16 && j < 4
    ensures [Schedule(block, t) / 0x100_0000, Schedule(block, t) / 0x1_0000 % 256,
             Schedule(block, t) / 0x100 % 256, Schedule(block, t) % 256][j] == block[4 * t + j]
  {
    FourOctets(block[4 * t], block[4 * t + 1], block[4 * t + 2], block[4 * t + 3]);
  }

  lemma FourOctets(b0: byte, b1: byte, b2: byte, b3: byte)
    ensures var w := b0 * 0x100_0000 + b1 * 0x1_0000 + b2 * 0x100 + b3;
            && w / 0x100_0000 == b0 && w / 0x1_0000 % 256 == b1 && w / 0x100 % 256 == b2 && w % 256 == b3
  {
    var w := b0 * 0x100_0000 + b1 * 0x1_0000 + b2 * 0x100 + b3;
    assert w / 0x100 == b0 * 0x1_0000 + b1 * 0x100 + b2;
    assert w / 0x1_0000 == b0 * 0x100 + b1;
  }

  /** Every later word is, bit by bit and one place up, the parity of the words 3, 8, 14 and 16 in
      front of it. */
  lemma ScheduleBit(block: seq<byte>, t: nat, i: nat)
    requires |block| == 64 && 16 <= t < 80 && i < 32
    ensures Bit(Schedule(block, t), (i + 1) % 32)
         == (((Bit(Schedule(block, t - 3), i) != Bit(Schedule(block, t - 8), i))
              != Bit(Schedule(block, t - 14), i)) != Bit(Schedule(block, t - 16), i))
  {
    hide Bit, RotateLeft, Xor;
    var a, b := Schedule(block, t - 3), Schedule(block, t - 8);
    var c, d := Schedule(block, t - 14), Schedule(block, t - 16);
    RotatedBit(1, XorW(XorW(XorW(a, b), c), d), i);
    BitOfXor(XorW(XorW(a, b), c), d, i);
    BitOfXor(XorW(a, b), c, i);
    BitOfXor(a, b, i);
  }

  /** The logical functions choose, add without carry, and take the majority, bit by bit. */
  lemma LogicalBit(t: nat, b: word, c: word, d: word, i: nat)
    requires i < 32
    ensures var (x, y, z) := (Bit(b, i), Bit(c, i), Bit(d, i));
            Bit(F(t, b, c, d), i)
            <==> if t < 20 then (if x then y else z)
                 else if 40 <= t < 60 then (if x == y then x else z)
                 else (x != y) != z
  {
    hide Bit, And, Or, Xor;
    if t < 20 {
      BitOfOr(And(b, c), And(Not(b), d), i);
      BitOfAnd(b, c, i);
      BitOfAnd(Not(b), d, i);
      BitOfNot(b, i);
    } else if 40 <= t < 60 {
      BitOfOr(OrW(And(b, c), And(b, d)), And(c, d), i);
      BitOfOr(And(b, c), And(b, d), i);
      BitOfAnd(b, c, i);
      BitOfAnd(b, d, i);
      BitOfAnd(c, d, i);
    } else {
      BitOfXor(XorW(b, c), d, i);
      BitOfXor(b, c, i);
    }
  }
}
